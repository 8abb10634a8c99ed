/**
 * Parentheses in `toPostfix` of ui/lib/src/nvui/automata.ts: a group is converted on its own.
 * While the tokens between '(' and its ')' are read, the '(' on the operator stack shields what
 * lies below it, so the group's output is exactly the postfix form the same tokens would have
 * alone, and the stack below is left as it was. Reading postfix forms one after the other puts
 * their trees one after the other.
 */
module Grouping {
  import opened Wrappers
  import opened Tokens
  import opened Postfix
  import opened Patterns

  /* ---------- The conversion inside a group ---------- */

  /** Popping operators of a group never goes below its '('. */
  lemma {:induction false} PopBindingAbove(o: seq<Token>, s: seq<Token>, out: seq<Token>, ops: seq<Token>, p: nat)
    ensures PopBinding(o + out, s + [LParen] + ops, p)
         == (o + PopBinding(out, ops, p).0, s + [LParen] + PopBinding(out, ops, p).1)
    decreases |ops|
  {
    var base := s + [LParen];
    if ops == [] {
      assert base + ops == base && Top(base) == LParen;
    } else {
      assert Top(base + ops) == Top(ops) && Popped(base + ops) == base + Popped(ops);
      if IsBinary(Top(ops)) && Precedence(Top(ops)) >= p {
        assert (o + out) + [Top(ops)] == o + (out + [Top(ops)]);
        PopBindingAbove(o, s, out + [Top(ops)], Popped(ops), p);
      }
    }
  }

  /** A ')' that closes a group opened inside the group never reaches the group's '('. */
  lemma {:induction false} CloseGroupAbove(o: seq<Token>, s: seq<Token>, out: seq<Token>, ops: seq<Token>)
    requires CloseGroup(out, ops).Some?
    ensures CloseGroup(o + out, s + [LParen] + ops)
         == Some((o + CloseGroup(out, ops).value.0, s + [LParen] + CloseGroup(out, ops).value.1))
    decreases |ops|
  {
    var base := s + [LParen];
    assert Top(base + ops) == Top(ops) && Popped(base + ops) == base + Popped(ops);
    if !Top(ops).LParen? {
      assert (o + out) + [Top(ops)] == o + (out + [Top(ops)]);
      CloseGroupAbove(o, s, out + [Top(ops)], Popped(ops));
    }
  }

  /** The group's closing ')' moves what the group left on the stack to the output, as the end
      of the input would, and removes the group's '('. */
  lemma {:induction false} CloseGroupFlushes(o: seq<Token>, s: seq<Token>, out: seq<Token>, ops: seq<Token>)
    requires Flush(out, ops).Ok?
    ensures CloseGroup(o + out, s + [LParen] + ops) == Some((o + Flush(out, ops).value, s))
    decreases |ops|
  {
    var base := s + [LParen];
    if ops == [] {
      assert base + ops == base && Top(base) == LParen && Popped(base) == s;
      assert o + out == o + Flush(out, ops).value;
    } else {
      assert Top(base + ops) == Top(ops) && Popped(base + ops) == base + Popped(ops);
      assert (o + out) + [Top(ops)] == o + (out + [Top(ops)]);
      CloseGroupFlushes(o, s, out + [Top(ops)], Popped(ops));
    }
  }

  /** The tokens `x` in parentheses. */
  function Group(x: seq<Token>): seq<Token> {
    [LParen] + x + [RParen]
  }

  /** `x` sits in `ts` at `a`. */
  predicate SitsAt(ts: seq<Token>, a: nat, x: seq<Token>) {
    a + |x| <= |ts| && forall k :: 0 <= k < |x| ==> ts[a + k] == x[k]
  }

  /** A step that succeeds for token `j` of the group alone does the same inside `ts`, above
      the group's '(': the checks only look at neighbours within the group. */
  lemma StepAbove(ts: seq<Token>, a: nat, x: seq<Token>, j: nat, out: seq<Token>, ops: seq<Token>, o: seq<Token>, s: seq<Token>)
    requires SitsAt(ts, a, x) && j < |x| && ConvertStep(x, j, out, ops).Ok?
    ensures ConvertStep(ts, a + j, o + out, s + [LParen] + ops)
         == Ok((o + ConvertStep(x, j, out, ops).value.0, s + [LParen] + ConvertStep(x, j, out, ops).value.1))
  {
    var t := x[j];
    assert ts[a + j] == t;
    assert j > 0 ==> ts[a + j - 1] == x[j - 1];
    assert j + 1 < |x| ==> ts[a + j + 1] == x[j + 1];
    if t.Literal? || t.Star? || t.Optional? {
      assert (o + out) + [t] == o + (out + [t]);
    } else if t.LParen? {
      assert (s + [LParen] + ops) + [t] == s + [LParen] + (ops + [t]);
    } else if t.RParen? {
      CloseGroupAbove(o, s, out, ops);
    } else {
      PopBindingAbove(o, s, out, ops, Precedence(t));
      var (o', s') := PopBinding(out, ops, Precedence(t));
      assert (s + [LParen] + s') + [t] == s + [LParen] + (s' + [t]);
    }
  }

  /** The rest of a group, read inside `ts` above the group's '(', ends right after its ')' with
      the group's postfix form appended to the output and the stack below restored. */
  lemma {:induction false} ConvertAbove(ts: seq<Token>, a: nat, x: seq<Token>, j: nat, out: seq<Token>, ops: seq<Token>, o: seq<Token>, s: seq<Token>)
    requires SitsAt(ts, a, x) && a + |x| < |ts| && ts[a + |x|] == RParen
    requires j <= |x| && ConvertFrom(x, j, out, ops).Ok?
    ensures ConvertFrom(ts, a + j, o + out, s + [LParen] + ops)
         == ConvertFrom(ts, a + |x| + 1, o + ConvertFrom(x, j, out, ops).value, s)
    decreases |x| - j
  {
    if j == |x| {
      CloseGroupFlushes(o, s, out, ops);
    } else {
      var (out', ops') := ConvertStep(x, j, out, ops).value;
      StepAbove(ts, a, x, j, out, ops, o, s);
      ConvertAbove(ts, a, x, j + 1, out', ops', o, s);
    }
  }

  /** A group `( x )` at `a` in `ts`, read with output `o` and stack `s`, appends the postfix
      form of `x` to the output and leaves the stack as it was. */
  lemma GroupConverts(ts: seq<Token>, a: nat, b: nat, x: seq<Token>, o: seq<Token>, s: seq<Token>)
    requires SitsAt(ts, a, Group(x)) && b == a + |x| + 2 && Postfix.Postfix(x).Ok?
    ensures ConvertFrom(ts, a, o, s) == ConvertFrom(ts, b, o + Postfix.Postfix(x).value, s)
  {
    var g := Group(x);
    assert ts[a] == g[0] == LParen;
    assert ts[a + 1 + |x|] == g[1 + |x|] == RParen;
    forall k | 0 <= k < |x|
      ensures ts[a + 1 + k] == x[k]
    {
      assert ts[a + 1 + k] == g[1 + k];
    }
    assert SitsAt(ts, a + 1, x);
    var e: seq<Token> := [];
    assert ConvertStep(ts, a, o, s) == Ok((o, s + [LParen]));
    assert o + e == o && s + [LParen] + e == s + [LParen];
    ConvertAbove(ts, a + 1, x, 0, e, e, o, s);
  }

  lemma SitsAtIndex(ts: seq<Token>, a: nat, x: seq<Token>, k: nat)
    requires SitsAt(ts, a, x) && k < |x|
    ensures ts[a + k] == x[k]
  {
    assert ts[a..a + |x|][k] == x[k];
  }

  lemma SitsAtSplit(ts: seq<Token>, a: nat, x: seq<Token>, y: seq<Token>)
    requires SitsAt(ts, a, x + y)
    ensures SitsAt(ts, a, x) && SitsAt(ts, a + |x|, y)
  {
    var xy := x + y;
    assert ts[a..a + |x|] == xy[..|x|] == x;
    assert ts[a + |x|..a + |x| + |y|] == xy[|x|..] == y;
  }

  /* ---------- A chain of groups ---------- */

  /** The groups `( xs[0] ) op ( xs[1] ) op … op ( xs[n - 1] )`, built from the left. */
  function Chain(xs: seq<seq<Token>>, op: Token): seq<Token>
    decreases |xs|
  {
    if xs == [] then []
    else if |xs| == 1 then Group(xs[0])
    else Chain(xs[..|xs| - 1], op) + [op] + Group(xs[|xs| - 1])
  }

  lemma ChainSnoc(xs: seq<seq<Token>>, x: seq<Token>, op: Token)
    requires xs != []
    ensures Chain(xs + [x], op) == Chain(xs, op) + [op] + Group(x)
  {
    assert (xs + [x])[..|xs|] == xs;
  }

  /** The postfix form of a chain whose groups have the postfix forms `ps`: the operands from
      left to right, each operator right after its right operand. */
  function ChainPostfix(ps: seq<seq<Token>>, op: Token): seq<Token>
    decreases |ps|
  {
    if ps == [] then []
    else if |ps| == 1 then ps[0]
    else ChainPostfix(ps[..|ps| - 1], op) + ps[|ps| - 1] + [op]
  }

  lemma ChainPostfixSnoc(ps: seq<seq<Token>>, p: seq<Token>, op: Token)
    requires ps != []
    ensures ChainPostfix(ps + [p], op) == ChainPostfix(ps, op) + p + [op]
  {
    assert (ps + [p])[..|ps|] == ps;
  }

  /** Output and operator stack once the last group of a chain has been read: the last operator
      still waits on the stack. */
  function Pending(ps: seq<seq<Token>>, op: Token): (seq<Token>, seq<Token>)
    requires ps != []
  {
    if |ps| == 1 then (ps[0], [])
    else (ChainPostfix(ps[..|ps| - 1], op) + ps[|ps| - 1], [op])
  }

  lemma ChainEnds(xs: seq<seq<Token>>, op: Token)
    requires xs != []
    ensures Chain(xs, op) != [] && Chain(xs, op)[|Chain(xs, op)| - 1] == RParen
  {
  }

  /** Ending the input with a chain's pending state gives the chain's postfix form. */
  lemma PendingFlushes(ps: seq<seq<Token>>, op: Token)
    requires ps != [] && IsBinary(op)
    ensures Flush(Pending(ps, op).0, Pending(ps, op).1) == Ok(ChainPostfix(ps, op))
    ensures Pending(ps, op).0 + Pending(ps, op).1 == ChainPostfix(ps, op)
  {
    var (q, s) := Pending(ps, op);
    if |ps| > 1 {
      assert Top(s) == op && Popped(s) == [];
    }
  }

  /** The operator between two groups moves the operator still pending, if any, to the output
      and waits on the stack in its place. */
  lemma SeamStep(ts: seq<Token>, m: nat, n: nat, q: seq<Token>, s: seq<Token>, op: Token)
    requires IsBinary(op) && 0 < m && n == m + 1 && n < |ts|
    requires ts[m - 1] == RParen && ts[m] == op && ts[n] == LParen
    requires s == [] || s == [op]
    ensures ConvertFrom(ts, m, q, s) == ConvertFrom(ts, n, q + s, [op])
  {
    var e: seq<Token> := [];
    if s == [] {
      assert q + s == q;
    } else {
      assert Top(s) == op && Popped(s) == e;
      assert PopBinding(q + [op], e, Precedence(op)) == (q + [op], e);
    }
    assert PopBinding(q, s, Precedence(op)) == (q + s, e);
    assert IsAtomEnd(ts[m - 1]) && IsAtomStart(ts[m + 1]) && e + [op] == [op];
    assert ConvertStep(ts, m, q, s) == Ok((q + s, [op]));
  }

  /** Where the operator and the next group of a chain sit in `ts`. */
  lemma SeamSits(ts: seq<Token>, c: seq<Token>, op: Token, x: seq<Token>)
    requires SitsAt(ts, 0, c + [op] + Group(x)) && c != [] && c[|c| - 1] == RParen
    ensures |c| + 1 < |ts| && ts[|c| - 1] == RParen && ts[|c|] == op && ts[|c| + 1] == LParen
    ensures SitsAt(ts, 0, c) && SitsAt(ts, |c| + 1, Group(x))
  {
    var m, g := |c|, Group(x);
    SitsAtSplit(ts, 0, c + [op], g);
    SitsAtSplit(ts, 0, c, [op]);
    SitsAtIndex(ts, 0, c, m - 1);
    SitsAtIndex(ts, m, [op], 0);
    SitsAtIndex(ts, m + 1, g, 0);
  }

  /** Reading one more operator and group after a chain. */
  lemma ChainSeam(ts: seq<Token>, c: seq<Token>, x: seq<Token>, q: seq<Token>, s: seq<Token>, op: Token, b: nat)
    requires IsBinary(op) && Postfix.Postfix(x).Ok? && (s == [] || s == [op])
    requires 0 < |c| && |c| + 1 < |ts| && ts[|c| - 1] == RParen && ts[|c|] == op && ts[|c| + 1] == LParen
    requires SitsAt(ts, |c| + 1, Group(x)) && b == |c| + 1 + |x| + 2
    ensures ConvertFrom(ts, |c|, q, s) == ConvertFrom(ts, b, q + s + Postfix.Postfix(x).value, [op])
  {
    SeamStep(ts, |c|, |c| + 1, q, s, op);
    GroupConverts(ts, |c| + 1, b, x, q + s, [op]);
  }

  /** Reading a chain at the start of `ts` leaves its pending state, whatever follows it. */
  lemma {:induction false} ChainReads(ts: seq<Token>, xs: seq<seq<Token>>, ps: seq<seq<Token>>, op: Token)
    requires IsBinary(op) && xs != [] && |ps| == |xs|
    requires forall i :: 0 <= i < |xs| ==> Postfix.Postfix(xs[i]) == Ok(ps[i])
    requires SitsAt(ts, 0, Chain(xs, op))
    ensures ConvertFrom(ts, 0, [], []) == ConvertFrom(ts, |Chain(xs, op)|, Pending(ps, op).0, Pending(ps, op).1)
    decreases |xs|
  {
    var e: seq<Token> := [];
    if |xs| == 1 {
      assert e + ps[0] == ps[0];
      GroupConverts(ts, 0, |Chain(xs, op)|, xs[0], e, e);
    } else {
      var n := |xs|;
      var xs', ps' := xs[..n - 1], ps[..n - 1];
      var c', g := Chain(xs', op), Group(xs[n - 1]);
      assert Chain(xs, op) == c' + [op] + g;
      ChainEnds(xs', op);
      SeamSits(ts, c', op, xs[n - 1]);
      ChainReads(ts, xs', ps', op);
      var (q, s) := Pending(ps', op);
      PendingFlushes(ps', op);
      ChainSeam(ts, c', xs[n - 1], q, s, op, |Chain(xs, op)|);
      assert ps[..n - 1] == ps';
      assert Pending(ps, op) == (q + s + ps[n - 1], [op]);
    }
  }

  /** A chain of groups converts to the chain's postfix form. */
  lemma ChainConverts(xs: seq<seq<Token>>, ps: seq<seq<Token>>, op: Token)
    requires IsBinary(op) && xs != [] && |ps| == |xs|
    requires forall i :: 0 <= i < |xs| ==> Postfix.Postfix(xs[i]) == Ok(ps[i])
    ensures Postfix.Postfix(Chain(xs, op)) == Ok(ChainPostfix(ps, op))
  {
    var ts := Chain(xs, op);
    assert ts[0..|ts|] == ts;
    ChainReads(ts, xs, ps, op);
    PendingFlushes(ps, op);
  }

  /* ---------- Trees of postfix forms read one after the other ---------- */

  /** Evaluating `p` leaves as many trees as it leaves operands. */
  lemma {:induction false} TreesDepth(p: seq<Token>)
    requires OperandDepth(p).Some?
    ensures |Trees(p)| == OperandDepth(p).value
    decreases |p|
  {
    if p != [] {
      TreesDepth(Popped(p));
    }
  }

  lemma BinaryAbove(a: seq<Regex>, b: seq<Regex>, t: Token)
    requires IsBinary(t) && |b| >= 2
    ensures TreeStep(a + b, t) == a + TreeStep(b, t)
  {
    var ab, n := a + b, |b|;
    assert ab[..|ab| - 2] == a + b[..n - 2];
    assert ab[|ab| - 2] == b[n - 2] && ab[|ab| - 1] == b[n - 1];
    assert (a + b[..n - 2]) + [TreeStep(b, t)[n - 2]] == a + (b[..n - 2] + [TreeStep(b, t)[n - 2]]);
  }

  lemma UnaryAbove(a: seq<Regex>, b: seq<Regex>, t: Token)
    requires (t.Star? || t.Optional?) && |b| >= 1
    ensures TreeStep(a + b, t) == a + TreeStep(b, t)
  {
    var ab, n := a + b, |b|;
    assert ab[..|ab| - 1] == a + b[..n - 1];
    assert ab[|ab| - 1] == b[n - 1];
  }

  /** An operator that finds its operands among the trees of `b` leaves the trees of `a` alone. */
  lemma TreeStepAbove(a: seq<Regex>, b: seq<Regex>, t: Token)
    requires DepthStep(Some(|b|), t).Some?
    ensures TreeStep(a + b, t) == a + TreeStep(b, t)
  {
    if IsBinary(t) {
      BinaryAbove(a, b, t);
    } else if t.Star? || t.Optional? {
      UnaryAbove(a, b, t);
    } else if t.Literal? {
      assert (a + b) + [Sym(t.value)] == a + (b + [Sym(t.value)]);
    }
  }

  /** The trees of a postfix form that never runs out of operands are added on top of those
      of whatever was read before it. */
  lemma {:induction false} TreesAppend(p: seq<Token>, q: seq<Token>)
    requires OperandDepth(q).Some?
    ensures Trees(p + q) == Trees(p) + Trees(q)
    decreases |q|
  {
    if q == [] {
      assert p + q == p;
    } else {
      var q', t := Popped(q), Top(q);
      assert p + q == (p + q') + [t];
      TreesPush(p + q', t);
      TreesAppend(p, q');
      TreesDepth(q');
      TreeStepAbove(Trees(p), Trees(q'), t);
    }
  }

  /** Two postfix forms of one operand each, followed by a binary operator, leave the single
      tree that joins their trees with that operator. */
  lemma TreesJoin(p: seq<Token>, q: seq<Token>, op: Token)
    requires WellFormedPostfix(p) && WellFormedPostfix(q) && IsBinary(op)
    ensures |Trees(p)| == 1 && |Trees(q)| == 1
    ensures Trees(p + q + [op]) == TreeStep([Trees(p)[0], Trees(q)[0]], op)
    ensures op.Union? ==> Trees(p + q + [op]) == [Alt(Trees(p)[0], Trees(q)[0])]
    ensures op.Concat? ==> Trees(p + q + [op]) == [Cat(Trees(p)[0], Trees(q)[0])]
  {
    TreesDepth(p);
    TreesDepth(q);
    TreesAppend(p, q);
    TreesPush(p + q, op);
    assert Trees(p) + Trees(q) == [Trees(p)[0], Trees(q)[0]];
  }
}
