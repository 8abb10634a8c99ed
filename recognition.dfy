/**
 * The automaton `buildNFAFromPostfix` (ui/lib/src/nvui/automata.ts) builds reads exactly the
 * words of the pattern. While the postfix sequence is read, every fragment on the builder's
 * stack owns a block of consecutive state ids, ending at its exit, that its edges never leave,
 * and the walks through it read exactly the words of the tree the same tokens build.
 */
module Recognition {
  import opened Wrappers
  import opened Tokens
  import opened Postfix
  import opened Thompson
  import opened Subset
  import opened Walks
  import opened Patterns

  /** The first id of the block the `k`-th fragment owns: the block of the fragment below it
      ends at that fragment's exit. */
  function Low(stack: seq<Fragment>, k: nat): nat
    requires k <= |stack|
  {
    if k == 0 then 0 else stack[k - 1].accept + 1
  }

  /** The words read by the walks through fragment `f`, from its entry to its exit. */
  ghost function Language(t: SymbolEdges, e: EpsilonEdges, f: Fragment): iset<string> {
    iset w | Path(t, e, f.start, w, f.accept)
  }

  /** The walks through fragment `f` read exactly the words of `r`. */
  ghost predicate Recognizes(t: SymbolEdges, e: EpsilonEdges, f: Fragment, r: Regex) {
    Language(t, e, f) == Words(r)
  }

  lemma UseRecognizes(t: SymbolEdges, e: EpsilonEdges, f: Fragment, r: Regex, w: string)
    requires Recognizes(t, e, f, r)
    ensures Path(t, e, f.start, w, f.accept) <==> Denotes(r, w)
  {
    assert w in Language(t, e, f) <==> w in Words(r);
  }

  lemma ShowRecognizes(t: SymbolEdges, e: EpsilonEdges, f: Fragment, r: Regex)
    requires forall w :: Path(t, e, f.start, w, f.accept) <==> Denotes(r, w)
    ensures Recognizes(t, e, f, r)
  {
    assert forall w :: w in Language(t, e, f) <==> w in Words(r);
  }

  /** Fragment `k` keeps its edges inside its block and reads the words of `r`. */
  ghost predicate Owns(t: SymbolEdges, e: EpsilonEdges, stack: seq<Fragment>, k: nat, r: Regex)
    requires k < |stack|
  {
    Confined(t, e, Low(stack, k), stack[k].accept) && Recognizes(t, e, stack[k], r)
  }

  ghost predicate Means(t: SymbolEdges, e: EpsilonEdges, stack: seq<Fragment>, rs: seq<Regex>) {
    |rs| == |stack| && forall k :: 0 <= k < |stack| ==> Owns(t, e, stack, k, rs[k])
  }

  /** What holds of the builder and the trees after every prefix of a postfix sequence. */
  ghost predicate Invariant(b: Builder, rs: seq<Regex>) {
    && Shaped(b) && Low(b.stack, |b.stack|) == b.next
    && Means(b.transitions, b.epsilonTransitions, b.stack, rs)
  }

  /** A fragment whose block keeps its edges keeps its meaning. */
  lemma KeepOwn(t: SymbolEdges, e: EpsilonEdges, t': SymbolEdges, e': EpsilonEdges, f: Fragment, lo: nat, r: Regex)
    requires lo <= f.start < f.accept && Stuck(t, e, f.accept)
    requires Confined(t, e, lo, f.accept) && Recognizes(t, e, f, r)
    requires SameEdges(t, e, t', e', lo, f.accept + 1)
    ensures Confined(t', e', lo, f.accept) && Recognizes(t', e', f, r)
  {
    forall w
      ensures Path(t', e', f.start, w, f.accept) <==> Denotes(r, w)
    {
      UseRecognizes(t, e, f, r, w);
      if Path(t, e, f.start, w, f.accept) {
        var n: nat :| Walk(t, e, f.start, w, f.accept, n);
        WalkTransfer(t, e, t', e', lo, f.accept, f.start, w, n);
      }
      if Path(t', e', f.start, w, f.accept) {
        var n: nat :| Walk(t', e', f.start, w, f.accept, n);
        WalkBack(t, e, t', e', lo, f.accept, f.start, w, n);
      }
    }
    ShowRecognizes(t', e', f, r);
  }

  /** Edges changed only at or above the block of the `m`-th fragment: the fragments below it
      keep their meanings. */
  lemma KeepBelow(b: Builder, rs: seq<Regex>, t': SymbolEdges, e': EpsilonEdges, m: nat)
    requires Invariant(b, rs) && m <= |b.stack|
    requires SameEdges(b.transitions, b.epsilonTransitions, t', e', 0, Low(b.stack, m))
    ensures Means(t', e', b.stack[..m], rs[..m]) && Low(b.stack[..m], m) == Low(b.stack, m)
  {
    var t, e, S := b.transitions, b.epsilonTransitions, b.stack;
    forall k | 0 <= k < m
      ensures Owns(t', e', S[..m], k, rs[..m][k])
    {
      assert Owns(t, e, S, k, rs[k]);
      assert Low(S[..m], k) == Low(S, k);
      assert Sink(t, e, S[k].accept);
      assert S[k].accept <= S[m - 1].accept;
      KeepOwn(t, e, t', e', S[k], Low(S, k), rs[k]);
    }
  }

  lemma MeansPush(t: SymbolEdges, e: EpsilonEdges, rest: seq<Fragment>, rs: seq<Regex>, f: Fragment, r: Regex, lo: nat)
    requires Means(t, e, rest, rs) && Low(rest, |rest|) == lo
    requires Confined(t, e, lo, f.accept) && Recognizes(t, e, f, r)
    ensures Means(t, e, rest + [f], rs + [r]) && Low(rest + [f], |rest + [f]|) == f.accept + 1
  {
    var stack := rest + [f];
    forall k | 0 <= k < |stack|
      ensures Owns(t, e, stack, k, (rs + [r])[k])
    {
      if k < |rest| {
        assert Owns(t, e, rest, k, rs[k]);
        assert stack[k] == rest[k] && Low(stack, k) == Low(rest, k);
      } else {
        assert Low(stack, k) == Low(rest, |rest|);
      }
    }
  }

  /** The fragments below the top `j` ones, their trees, and where the top ones' blocks start. */
  lemma BelowTop(b: Builder, rs: seq<Regex>, j: nat)
    requires Invariant(b, rs) && 1 <= j <= |b.stack|
    ensures Low(b.stack[..|b.stack| - j], |b.stack| - j) == Low(b.stack, |b.stack| - j) <= b.stack[|b.stack| - j].start
    ensures forall q :: q in b.transitions || q in b.epsilonTransitions ==> q < b.next
  {
  }

  /** The builder `b'` is `b` with its top `j` fragments (none, for a literal) replaced by the
      fragment `f`, which recognizes `r`, the edges below those fragments unchanged. */
  ghost predicate Replaces(b: Builder, j: nat, b': Builder, f: Fragment, r: Regex) {
    && j <= |b.stack|
    && Shaped(b') && b'.stack == b.stack[..|b.stack| - j] + [f] && b'.next == f.accept + 1
    && SameEdges(b.transitions, b.epsilonTransitions, b'.transitions, b'.epsilonTransitions, 0, Low(b.stack, |b.stack| - j))
    && Confined(b'.transitions, b'.epsilonTransitions, Low(b.stack, |b.stack| - j), f.accept)
    && Recognizes(b'.transitions, b'.epsilonTransitions, f, r)
  }

  /** A step that replaces the top `j` fragments by `f`, meaning `r`, and changes no edge below
      their blocks: the invariant holds again. */
  lemma Replace(b: Builder, rs: seq<Regex>, j: nat, b': Builder, f: Fragment, r: Regex, rs': seq<Regex>)
    requires Invariant(b, rs) && j <= |b.stack|
    requires Replaces(b, j, b', f, r) && rs' == rs[..|b.stack| - j] + [r]
    ensures Invariant(b', rs')
  {
    KeepBelow(b, rs, b'.transitions, b'.epsilonTransitions, |b.stack| - j);
    MeansPush(b'.transitions, b'.epsilonTransitions, b.stack[..|b.stack| - j], rs[..|b.stack| - j], f, r, Low(b.stack, |b.stack| - j));
  }

  /** What a step over the top fragment needs to know of it: `r` is its tree. */
  ghost predicate OneOnTop(b: Builder, r: Regex) {
    && Shaped(b) && |b.stack| >= 1
    && Low(b.stack, |b.stack| - 1) <= b.stack[|b.stack| - 1].start < b.stack[|b.stack| - 1].accept && b.stack[|b.stack| - 1].accept + 1 == b.next
    && Confined(b.transitions, b.epsilonTransitions, Low(b.stack, |b.stack| - 1), b.stack[|b.stack| - 1].accept)
    && Recognizes(b.transitions, b.epsilonTransitions, b.stack[|b.stack| - 1], r)
    && Stuck(b.transitions, b.epsilonTransitions, b.stack[|b.stack| - 1].accept) && FreshPair(b.transitions, b.epsilonTransitions, b.next)
  }

  lemma TopOne(b: Builder, rs: seq<Regex>)
    requires Invariant(b, rs) && |b.stack| >= 1
    ensures OneOnTop(b, rs[|b.stack| - 1])
  {
    var S, t, e := b.stack, b.transitions, b.epsilonTransitions;
    assert Owns(t, e, S, |S| - 1, rs[|S| - 1]);
    BelowTop(b, rs, 1);
    assert Sink(t, e, S[|S| - 1].accept);
    FreshIsIsolated(b, b.next);
    FreshIsIsolated(b, b.next + 1);
  }

  /** The top two fragments sit side by side in their blocks, with two fresh states above. */
  ghost predicate TwoOpen(b: Builder) {
    && Shaped(b) && |b.stack| >= 2
    && Adjacent(b.transitions, b.epsilonTransitions, b.stack[|b.stack| - 2], b.stack[|b.stack| - 1], Low(b.stack, |b.stack| - 2))
    && b.stack[|b.stack| - 1].accept + 1 == b.next
    && FreshPair(b.transitions, b.epsilonTransitions, b.next)
  }

  /** What a step over the top two fragments needs to know of them: `rL` and `rR` are their trees. */
  ghost predicate TwoOnTop(b: Builder, rL: Regex, rR: Regex) {
    && TwoOpen(b)
    && Recognizes(b.transitions, b.epsilonTransitions, b.stack[|b.stack| - 2], rL)
    && Recognizes(b.transitions, b.epsilonTransitions, b.stack[|b.stack| - 1], rR)
  }

  lemma TopTwo(b: Builder, rs: seq<Regex>)
    requires Invariant(b, rs) && |b.stack| >= 2
    ensures TwoOnTop(b, rs[|b.stack| - 2], rs[|b.stack| - 1])
  {
    var S, t, e := b.stack, b.transitions, b.epsilonTransitions;
    var m := |S|;
    assert Owns(t, e, S, m - 2, rs[m - 2]) && Owns(t, e, S, m - 1, rs[m - 1]);
    assert Low(S, m - 1) == S[m - 2].accept + 1;
    BelowTop(b, rs, 2);
    assert Sink(t, e, S[m - 2].accept) && Sink(t, e, S[m - 1].accept);
    FreshIsIsolated(b, b.next);
    FreshIsIsolated(b, b.next + 1);
  }

  /* The literal step. */

  lemma LiteralRecognizes(t: SymbolEdges, e: EpsilonEdges, n: nat, c: char)
    requires Stuck(t, e, n) && Stuck(t, e, n + 1)
    ensures Confined(AddSymbolTransition(t, n, c, n + 1), e, n, n + 1)
    ensures Recognizes(AddSymbolTransition(t, n, c, n + 1), e, Fragment(n, n + 1), Sym(c))
  {
    var t' := AddSymbolTransition(t, n, c, n + 1);
    SymbolTransitionAdded(t, n, c, n + 1);
    forall w
      ensures Path(t', e, n, w, n + 1) <==> Denotes(Sym(c), w)
    {
      if Path(t', e, n, w, n + 1) {
        LiteralSound(t, e, n, c, w);
      }
      if w == [c] {
        SymbolEdge(t', e, n, c, n + 1);
      }
    }
    ShowRecognizes(t', e, Fragment(n, n + 1), Sym(c));
  }

  /** The only walk from the literal's entry to its exit takes the literal's one edge. */
  lemma LiteralSound(t: SymbolEdges, e: EpsilonEdges, n: nat, c: char, w: string)
    requires Stuck(t, e, n) && Stuck(t, e, n + 1)
    requires Path(AddSymbolTransition(t, n, c, n + 1), e, n, w, n + 1)
    ensures w == [c]
  {
    var t' := AddSymbolTransition(t, n, c, n + 1);
    SymbolTransitionAdded(t, n, c, n + 1);
    var k: nat :| Walk(t', e, n, w, n + 1, k);
    var r := LeaveBySymbol(t', e, n, w, n + 1, k);
    WalkFromStuck(t', e, n + 1, w[1..], n + 1, k - 1);
    assert w == [w[0]] + w[1..];
  }

  /** The literal step's one new edge leaves the fresh state `n`: no state below it changes. */
  lemma LiteralFrame(t: SymbolEdges, e: EpsilonEdges, n: nat, c: char)
    ensures SameEdges(t, e, AddSymbolTransition(t, n, c, n + 1), e, 0, n)
  {
    SymbolTransitionAdded(t, n, c, n + 1);
  }

  lemma LiteralFacts(b: Builder, rs: seq<Regex>, c: char)
    requires Invariant(b, rs)
    ensures Replaces(b, 0, LiteralStep(b, c), Fragment(b.next, b.next + 1), Sym(c))
  {
    FreshIsIsolated(b, b.next);
    FreshIsIsolated(b, b.next + 1);
    LiteralRecognizes(b.transitions, b.epsilonTransitions, b.next, c);
    LiteralFrame(b.transitions, b.epsilonTransitions, b.next, c);
    LiteralShaped(b, c);
    assert b.stack[..|b.stack| - 0] == b.stack;
  }

  lemma LiteralMeans(b: Builder, rs: seq<Regex>, c: char)
    requires Invariant(b, rs)
    ensures Invariant(LiteralStep(b, c), TreeStep(rs, Literal(c)))
  {
    LiteralFacts(b, rs, c);
    assert rs[..|b.stack| - 0] == rs;
    Replace(b, rs, 0, LiteralStep(b, c), Fragment(b.next, b.next + 1), Sym(c), TreeStep(rs, Literal(c)));
  }

  /* The concatenation step. */

  /** Two adjacent fragments: each keeps its edges in its block, the right block starting just
      after the left fragment's exit, and neither exit has an edge. */
  ghost predicate Adjacent(t: SymbolEdges, e: EpsilonEdges, L: Fragment, R: Fragment, lo: nat) {
    && lo <= L.start < L.accept < R.start < R.accept
    && Confined(t, e, lo, L.accept) && Confined(t, e, L.accept + 1, R.accept)
    && Stuck(t, e, L.accept) && Stuck(t, e, R.accept)
  }

  /** The concatenation's epsilon edges: the left exit leads to the right entry. */
  ghost predicate ConcatEdges(e: EpsilonEdges, e': EpsilonEdges, L: Fragment, R: Fragment) {
    forall q :: EpsilonTargets(e', q) == if q == L.accept then {R.start} else EpsilonTargets(e, q)
  }

  lemma ConcatFrame(t: SymbolEdges, e: EpsilonEdges, e': EpsilonEdges, L: Fragment, R: Fragment, lo: nat)
    requires ConcatEdges(e, e', L, R) && lo <= L.accept
    ensures SameEdges(t, e, t, e', 0, lo)
  {
  }

  /** The concatenation's edges as its proofs use them: inside each operand nothing changes,
      the left exit leads to the right entry only, and the right exit stays edgeless. */
  ghost predicate Joined(t: SymbolEdges, e: EpsilonEdges, e': EpsilonEdges, L: Fragment, R: Fragment, lo: nat) {
    && SameEdges(t, e, t, e', lo, L.accept) && SameEdges(t, e, t, e', L.accept + 1, R.accept)
    && EpsilonTargets(e', L.accept) == {R.start} && Stuck(t, e', R.accept)
  }

  /** Inside each operand the concatenation changes no edge. */
  lemma ConcatInside(t: SymbolEdges, e: EpsilonEdges, e': EpsilonEdges, L: Fragment, R: Fragment, lo: nat)
    requires Adjacent(t, e, L, R, lo) && ConcatEdges(e, e', L, R)
    ensures Joined(t, e, e', L, R, lo)
  {
  }

  lemma ConcatConfined(t: SymbolEdges, e: EpsilonEdges, e': EpsilonEdges, L: Fragment, R: Fragment, lo: nat)
    requires Adjacent(t, e, L, R, lo) && ConcatEdges(e, e', L, R)
    ensures Confined(t, e', lo, R.accept)
  {
  }

  lemma ConcatSound(t: SymbolEdges, e: EpsilonEdges, e': EpsilonEdges, L: Fragment, R: Fragment, lo: nat, rL: Regex, rR: Regex, w: string)
    requires Adjacent(t, e, L, R, lo) && Joined(t, e, e', L, R, lo)
    requires Recognizes(t, e, L, rL) && Recognizes(t, e, R, rR)
    requires Path(t, e', L.start, w, R.accept)
    ensures Denotes(Cat(rL, rR), w)
  {
    var n: nat :| Walk(t, e', L.start, w, R.accept, n);
    var j, m := FirstExit(t, e, t, e', lo, L.accept, L.start, w, R.accept, n);
    var r := LeaveByEpsilon(t, e', L.accept, w[j..], R.accept, n - m);
    WalkBack(t, e, t, e', L.accept + 1, R.accept, R.start, w[j..], n - m - 1);
    UseRecognizes(t, e, L, rL, w[..j]);
    UseRecognizes(t, e, R, rR, w[j..]);
  }

  lemma ConcatComplete(t: SymbolEdges, e: EpsilonEdges, e': EpsilonEdges, L: Fragment, R: Fragment, lo: nat, rL: Regex, rR: Regex, w: string)
    requires Adjacent(t, e, L, R, lo) && Joined(t, e, e', L, R, lo)
    requires Recognizes(t, e, L, rL) && Recognizes(t, e, R, rR)
    requires Denotes(Cat(rL, rR), w)
    ensures Path(t, e', L.start, w, R.accept)
  {
    var j :| 0 <= j <= |w| && Denotes(rL, w[..j]) && Denotes(rR, w[j..]);
    UseRecognizes(t, e, L, rL, w[..j]);
    UseRecognizes(t, e, R, rR, w[j..]);
    PathTransfer(t, e, t, e', lo, L.accept, L.start, w[..j]);
    PathTransfer(t, e, t, e', L.accept + 1, R.accept, R.start, w[j..]);
    EpsilonAfter(t, e', L.start, w[..j], L.accept, R.start);
    PathAppend(t, e', L.start, w[..j], R.start, w[j..], R.accept);
    SplitJoin(w, j);
  }

  lemma ConcatRecognizes(t: SymbolEdges, e: EpsilonEdges, e': EpsilonEdges, L: Fragment, R: Fragment, lo: nat, rL: Regex, rR: Regex)
    requires Adjacent(t, e, L, R, lo) && ConcatEdges(e, e', L, R)
    requires Recognizes(t, e, L, rL) && Recognizes(t, e, R, rR)
    ensures Confined(t, e', lo, R.accept) && Recognizes(t, e', Fragment(L.start, R.accept), Cat(rL, rR))
  {
    ConcatInside(t, e, e', L, R, lo);
    ConcatConfined(t, e, e', L, R, lo);
    forall w
      ensures Path(t, e', L.start, w, R.accept) <==> Denotes(Cat(rL, rR), w)
    {
      if Path(t, e', L.start, w, R.accept) {
        ConcatSound(t, e, e', L, R, lo, rL, rR, w);
      }
      if Denotes(Cat(rL, rR), w) {
        ConcatComplete(t, e, e', L, R, lo, rL, rR, w);
      }
    }
    ShowRecognizes(t, e', Fragment(L.start, R.accept), Cat(rL, rR));
  }

  /** The concatenation step's new edge, between the top two fragments. */
  lemma ConcatPieces(t: SymbolEdges, e: EpsilonEdges, e': EpsilonEdges, L: Fragment, R: Fragment, lo: nat, rL: Regex, rR: Regex)
    requires Adjacent(t, e, L, R, lo)
    requires Recognizes(t, e, L, rL) && Recognizes(t, e, R, rR) && ConcatEdges(e, e', L, R)
    ensures SameEdges(t, e, t, e', 0, lo)
    ensures Confined(t, e', lo, R.accept) && Recognizes(t, e', Fragment(L.start, R.accept), Cat(rL, rR))
  {
    ConcatRecognizes(t, e, e', L, R, lo, rL, rR);
    ConcatFrame(t, e, e', L, R, lo);
  }

  lemma ConcatFacts(b: Builder, rs: seq<Regex>)
    requires Invariant(b, rs) && |b.stack| >= 2
    ensures Replaces(b, 2, ConcatStep(b).value, Fragment(b.stack[|b.stack| - 2].start, b.stack[|b.stack| - 1].accept),
      Cat(rs[|b.stack| - 2], rs[|b.stack| - 1]))
  {
    TopTwo(b, rs);
    ConcatStepped(b);
    ConcatShaped(b);
    ConcatOnTop(b, ConcatStep(b).value, rs[|b.stack| - 2], rs[|b.stack| - 1]);
  }

  /** The builder after a concatenation: the same states and symbol edges, the top two
      fragments replaced by one from the left entry to the right exit, and one more epsilon edge. */
  lemma ConcatStepped(b: Builder)
    requires |b.stack| >= 2 && EpsilonTargets(b.epsilonTransitions, b.stack[|b.stack| - 2].accept) == {}
    ensures ConcatStep(b).Ok?
    ensures ConcatStep(b).value.next == b.next && ConcatStep(b).value.transitions == b.transitions
    ensures ConcatStep(b).value.stack == b.stack[..|b.stack| - 2] + [Fragment(b.stack[|b.stack| - 2].start, b.stack[|b.stack| - 1].accept)]
    ensures ConcatEdges(b.epsilonTransitions, ConcatStep(b).value.epsilonTransitions, b.stack[|b.stack| - 2], b.stack[|b.stack| - 1])
  {
    EpsilonTransitionAdded(b.epsilonTransitions, b.stack[|b.stack| - 2].accept, b.stack[|b.stack| - 1].start);
  }

  /** A builder `b'` laid out as the concatenation step lays it out replaces the top two
      fragments by one that reads `Cat(rL, rR)`. */
  lemma ConcatOnTop(b: Builder, b': Builder, rL: Regex, rR: Regex)
    requires TwoOnTop(b, rL, rR) && Shaped(b')
    requires b'.next == b.next && b'.transitions == b.transitions
    requires b'.stack == b.stack[..|b.stack| - 2] + [Fragment(b.stack[|b.stack| - 2].start, b.stack[|b.stack| - 1].accept)]
    requires ConcatEdges(b.epsilonTransitions, b'.epsilonTransitions, b.stack[|b.stack| - 2], b.stack[|b.stack| - 1])
    ensures Replaces(b, 2, b', Fragment(b.stack[|b.stack| - 2].start, b.stack[|b.stack| - 1].accept), Cat(rL, rR))
  {
    ConcatPieces(b.transitions, b.epsilonTransitions, b'.epsilonTransitions, b.stack[|b.stack| - 2], b.stack[|b.stack| - 1], Low(b.stack, |b.stack| - 2), rL, rR);
  }

  lemma ConcatMeans(b: Builder, rs: seq<Regex>)
    requires Invariant(b, rs) && |b.stack| >= 2
    ensures Invariant(ConcatStep(b).value, TreeStep(rs, Concat))
  {
    ConcatFacts(b, rs);
    assert |rs| == |b.stack|;
    Replace(b, rs, 2, ConcatStep(b).value, Fragment(b.stack[|b.stack| - 2].start, b.stack[|b.stack| - 1].accept), Cat(rs[|b.stack| - 2], rs[|b.stack| - 1]), TreeStep(rs, Concat));
  }

  /* The union step. */

  /** The union's epsilon edges: the fresh entry branches to both entries, both exits lead to
      the fresh exit. */
  ghost predicate UnionEdges(e: EpsilonEdges, e': EpsilonEdges, L: Fragment, R: Fragment, n: nat) {
    forall q :: EpsilonTargets(e', q) ==
      if q == n then {L.start, R.start} else if q == L.accept || q == R.accept then {n + 1} else EpsilonTargets(e, q)
  }

  lemma UnionEdgesAdded(e: EpsilonEdges, L: Fragment, R: Fragment, n: nat)
    requires EpsilonTargets(e, n) == {} && EpsilonTargets(e, L.accept) == {} && EpsilonTargets(e, R.accept) == {}
    requires L.accept < R.accept < n
    ensures UnionEdges(e, AddEpsilonTransition(AddEpsilonTransition(AddEpsilonTransition(
      AddEpsilonTransition(e, n, L.start), n, R.start), L.accept, n + 1), R.accept, n + 1), L, R, n)
  {
    var e1 := AddEpsilonTransition(e, n, L.start);
    var e2 := AddEpsilonTransition(e1, n, R.start);
    var e3 := AddEpsilonTransition(e2, L.accept, n + 1);
    EpsilonTransitionAdded(e, n, L.start);
    EpsilonTransitionAdded(e1, n, R.start);
    EpsilonTransitionAdded(e2, L.accept, n + 1);
    EpsilonTransitionAdded(e3, R.accept, n + 1);
  }

  lemma UnionFrame(t: SymbolEdges, e: EpsilonEdges, e': EpsilonEdges, L: Fragment, R: Fragment, n: nat, lo: nat)
    requires UnionEdges(e, e', L, R, n) && lo <= L.accept < R.accept < n
    ensures SameEdges(t, e, t, e', 0, lo)
  {
  }

  /** The union's edges as its proofs use them: inside each operand nothing changes, the fresh
      entry leads to both operands' entries, both exits lead to the fresh exit only, and the fresh
      exit stays edgeless. */
  ghost predicate Forked(t: SymbolEdges, e: EpsilonEdges, e': EpsilonEdges, L: Fragment, R: Fragment, lo: nat, n: nat) {
    && SameEdges(t, e, t, e', lo, L.accept) && SameEdges(t, e, t, e', L.accept + 1, R.accept)
    && EpsilonTargets(e', n) == {L.start, R.start} && (forall c :: Targets(t, n, c) == {})
    && EpsilonTargets(e', L.accept) == {n + 1} && EpsilonTargets(e', R.accept) == {n + 1}
    && Stuck(t, e', n + 1)
  }

  lemma UnionInside(t: SymbolEdges, e: EpsilonEdges, e': EpsilonEdges, L: Fragment, R: Fragment, lo: nat, n: nat)
    requires L.accept < R.accept < n && FreshPair(t, e, n) && UnionEdges(e, e', L, R, n)
    ensures Forked(t, e, e', L, R, lo, n)
  {
  }

  /** The fresh states of a step: `n` and `n + 1`, without edges before the step. */
  ghost predicate FreshPair(t: SymbolEdges, e: EpsilonEdges, n: nat) {
    Stuck(t, e, n) && Stuck(t, e, n + 1)
  }

  lemma UnionConfined(t: SymbolEdges, e: EpsilonEdges, e': EpsilonEdges, L: Fragment, R: Fragment, lo: nat, n: nat)
    requires Adjacent(t, e, L, R, lo) && R.accept + 1 == n && FreshPair(t, e, n) && UnionEdges(e, e', L, R, n)
    ensures Confined(t, e', lo, n + 1) && Stuck(t, e', n + 1)
  {
  }

  /** A walk from an operand's entry to the union's fresh exit went through the operand. */
  lemma Unbranch(t: SymbolEdges, e: EpsilonEdges, e': EpsilonEdges, f: Fragment, lo: nat, n: nat, r: Regex, w: string, k: nat)
    requires lo <= f.start < f.accept < n
    requires SameEdges(t, e, t, e', lo, f.accept) && Confined(t, e, lo, f.accept) && Stuck(t, e, f.accept)
    requires EpsilonTargets(e', f.accept) == {n + 1} && Stuck(t, e', n + 1)
    requires Recognizes(t, e, f, r) && Walk(t, e', f.start, w, n + 1, k)
    ensures Denotes(r, w)
  {
    ExitToSink(t, e, t, e', lo, f.accept, n + 1, f.start, w, k);
    UseRecognizes(t, e, f, r, w);
  }

  lemma UnionSound(t: SymbolEdges, e: EpsilonEdges, e': EpsilonEdges, L: Fragment, R: Fragment, lo: nat, n: nat, rL: Regex, rR: Regex, w: string)
    requires Adjacent(t, e, L, R, lo) && R.accept + 1 == n && Forked(t, e, e', L, R, lo, n)
    requires Recognizes(t, e, L, rL) && Recognizes(t, e, R, rR)
    requires Path(t, e', n, w, n + 1)
    ensures Denotes(Alt(rL, rR), w)
  {
    var k: nat :| Walk(t, e', n, w, n + 1, k);
    var r := LeaveByEpsilon(t, e', n, w, n + 1, k);
    if r == L.start {
      Unbranch(t, e, e', L, lo, n, rL, w, k - 1);
    } else {
      Unbranch(t, e, e', R, L.accept + 1, n, rR, w, k - 1);
    }
  }

  /** A walk through one branch, entered from the fresh entry and left to the fresh exit. */
  lemma Branch(t: SymbolEdges, e: EpsilonEdges, e': EpsilonEdges, f: Fragment, lo: nat, n: nat, w: string)
    requires lo <= f.start < f.accept < n
    requires SameEdges(t, e, t, e', lo, f.accept) && Confined(t, e, lo, f.accept) && Stuck(t, e, f.accept)
    requires f.start in EpsilonTargets(e', n) && n + 1 in EpsilonTargets(e', f.accept)
    requires Path(t, e, f.start, w, f.accept)
    ensures Path(t, e', n, w, n + 1)
  {
    PathTransfer(t, e, t, e', lo, f.accept, f.start, w);
    EpsilonBefore(t, e', n, f.start, w, f.accept);
    EpsilonAfter(t, e', n, w, f.accept, n + 1);
  }

  lemma UnionComplete(t: SymbolEdges, e: EpsilonEdges, e': EpsilonEdges, L: Fragment, R: Fragment, lo: nat, n: nat, rL: Regex, rR: Regex, w: string)
    requires Adjacent(t, e, L, R, lo) && R.accept + 1 == n && Forked(t, e, e', L, R, lo, n)
    requires Recognizes(t, e, L, rL) && Recognizes(t, e, R, rR)
    requires Denotes(Alt(rL, rR), w)
    ensures Path(t, e', n, w, n + 1)
  {
    if Denotes(rL, w) {
      UseRecognizes(t, e, L, rL, w);
      Branch(t, e, e', L, lo, n, w);
    } else {
      UseRecognizes(t, e, R, rR, w);
      Branch(t, e, e', R, L.accept + 1, n, w);
    }
  }

  lemma UnionRecognizes(t: SymbolEdges, e: EpsilonEdges, e': EpsilonEdges, L: Fragment, R: Fragment, lo: nat, n: nat, rL: Regex, rR: Regex)
    requires Adjacent(t, e, L, R, lo) && R.accept + 1 == n && FreshPair(t, e, n) && UnionEdges(e, e', L, R, n)
    requires Recognizes(t, e, L, rL) && Recognizes(t, e, R, rR)
    ensures Confined(t, e', lo, n + 1) && Recognizes(t, e', Fragment(n, n + 1), Alt(rL, rR))
  {
    UnionInside(t, e, e', L, R, lo, n);
    UnionConfined(t, e, e', L, R, lo, n);
    forall w
      ensures Path(t, e', n, w, n + 1) <==> Denotes(Alt(rL, rR), w)
    {
      if Path(t, e', n, w, n + 1) {
        UnionSound(t, e, e', L, R, lo, n, rL, rR, w);
      }
      if Denotes(Alt(rL, rR), w) {
        UnionComplete(t, e, e', L, R, lo, n, rL, rR, w);
      }
    }
    ShowRecognizes(t, e', Fragment(n, n + 1), Alt(rL, rR));
  }

  /** The union step's new edges, around the top two fragments. */
  lemma UnionPieces(t: SymbolEdges, e: EpsilonEdges, e': EpsilonEdges, L: Fragment, R: Fragment, lo: nat, n: nat, rL: Regex, rR: Regex)
    requires Adjacent(t, e, L, R, lo) && R.accept + 1 == n && FreshPair(t, e, n)
    requires Recognizes(t, e, L, rL) && Recognizes(t, e, R, rR) && UnionEdges(e, e', L, R, n)
    ensures SameEdges(t, e, t, e', 0, lo)
    ensures Confined(t, e', lo, n + 1) && Recognizes(t, e', Fragment(n, n + 1), Alt(rL, rR))
  {
    UnionRecognizes(t, e, e', L, R, lo, n, rL, rR);
    UnionFrame(t, e, e', L, R, n, lo);
  }

  lemma UnionFacts(b: Builder, rs: seq<Regex>)
    requires Invariant(b, rs) && |b.stack| >= 2
    ensures Replaces(b, 2, UnionStep(b).value, Fragment(b.next, b.next + 1), Alt(rs[|b.stack| - 2], rs[|b.stack| - 1]))
  {
    TopTwo(b, rs);
    UnionStepped(b);
    UnionShaped(b);
    UnionOnTop(b, UnionStep(b).value, rs[|b.stack| - 2], rs[|b.stack| - 1]);
  }

  /** The builder after a union: two more states, the same symbol edges, the top two fragments
      replaced by the fresh pair, and the union's epsilon edges. */
  lemma UnionStepped(b: Builder)
    requires |b.stack| >= 2 && b.stack[|b.stack| - 2].accept < b.stack[|b.stack| - 1].accept < b.next
    requires EpsilonTargets(b.epsilonTransitions, b.next) == {}
    requires EpsilonTargets(b.epsilonTransitions, b.stack[|b.stack| - 2].accept) == {}
    requires EpsilonTargets(b.epsilonTransitions, b.stack[|b.stack| - 1].accept) == {}
    ensures UnionStep(b).Ok?
    ensures UnionStep(b).value.next == b.next + 2 && UnionStep(b).value.transitions == b.transitions
    ensures UnionStep(b).value.stack == b.stack[..|b.stack| - 2] + [Fragment(b.next, b.next + 1)]
    ensures UnionEdges(b.epsilonTransitions, UnionStep(b).value.epsilonTransitions, b.stack[|b.stack| - 2], b.stack[|b.stack| - 1], b.next)
  {
    UnionEdgesAdded(b.epsilonTransitions, b.stack[|b.stack| - 2], b.stack[|b.stack| - 1], b.next);
  }

  /** A builder `b'` laid out as the union step lays it out replaces the top two fragments by
      one that reads `Alt(rL, rR)`. */
  lemma UnionOnTop(b: Builder, b': Builder, rL: Regex, rR: Regex)
    requires TwoOnTop(b, rL, rR) && Shaped(b')
    requires b'.next == b.next + 2 && b'.transitions == b.transitions
    requires b'.stack == b.stack[..|b.stack| - 2] + [Fragment(b.next, b.next + 1)]
    requires UnionEdges(b.epsilonTransitions, b'.epsilonTransitions, b.stack[|b.stack| - 2], b.stack[|b.stack| - 1], b.next)
    ensures Replaces(b, 2, b', Fragment(b.next, b.next + 1), Alt(rL, rR))
  {
    UnionPieces(b.transitions, b.epsilonTransitions, b'.epsilonTransitions, b.stack[|b.stack| - 2], b.stack[|b.stack| - 1], Low(b.stack, |b.stack| - 2), b.next, rL, rR);
  }

  lemma UnionMeans(b: Builder, rs: seq<Regex>)
    requires Invariant(b, rs) && |b.stack| >= 2
    ensures Invariant(UnionStep(b).value, TreeStep(rs, Union))
  {
    UnionFacts(b, rs);
    assert |rs| == |b.stack|;
    Replace(b, rs, 2, UnionStep(b).value, Fragment(b.next, b.next + 1), Alt(rs[|b.stack| - 2], rs[|b.stack| - 1]), TreeStep(rs, Union));
  }

  /* The star and optional steps. */

  /** The star's edges: the fresh entry leads into the fragment and to the fresh exit, and so
      does the fragment's exit. The optional step's differ at the fragment's exit, which leads
      to the fresh exit alone. */
  ghost predicate LoopEdges(e: EpsilonEdges, e': EpsilonEdges, f: Fragment, n: nat, loop: bool) {
    forall q :: EpsilonTargets(e', q) ==
      if q == n then {f.start, n + 1}
      else if q == f.accept then (if loop then {f.start, n + 1} else {n + 1})
      else EpsilonTargets(e, q)
  }

  lemma StarEdgesAdded(e: EpsilonEdges, f: Fragment, n: nat)
    requires EpsilonTargets(e, n) == {} && EpsilonTargets(e, f.accept) == {} && f.accept < n
    ensures LoopEdges(e, AddEpsilonTransition(AddEpsilonTransition(AddEpsilonTransition(
      AddEpsilonTransition(e, n, f.start), n, n + 1), f.accept, f.start), f.accept, n + 1), f, n, true)
  {
    var e1 := AddEpsilonTransition(e, n, f.start);
    var e2 := AddEpsilonTransition(e1, n, n + 1);
    var e3 := AddEpsilonTransition(e2, f.accept, f.start);
    EpsilonTransitionAdded(e, n, f.start);
    EpsilonTransitionAdded(e1, n, n + 1);
    EpsilonTransitionAdded(e2, f.accept, f.start);
    EpsilonTransitionAdded(e3, f.accept, n + 1);
  }

  lemma OptionalEdgesAdded(e: EpsilonEdges, f: Fragment, n: nat)
    requires EpsilonTargets(e, n) == {} && EpsilonTargets(e, f.accept) == {} && f.accept < n
    ensures LoopEdges(e, AddEpsilonTransition(AddEpsilonTransition(
      AddEpsilonTransition(e, n, f.start), n, n + 1), f.accept, n + 1), f, n, false)
  {
    var e1 := AddEpsilonTransition(e, n, f.start);
    var e2 := AddEpsilonTransition(e1, n, n + 1);
    EpsilonTransitionAdded(e, n, f.start);
    EpsilonTransitionAdded(e1, n, n + 1);
    EpsilonTransitionAdded(e2, f.accept, n + 1);
  }

  lemma LoopFrame(t: SymbolEdges, e: EpsilonEdges, e': EpsilonEdges, f: Fragment, n: nat, loop: bool, lo: nat)
    requires LoopEdges(e, e', f, n, loop) && lo <= f.accept < n
    ensures SameEdges(t, e, t, e', 0, lo)
  {
  }

  /** The setting of the star and optional steps around the fragment `f` meaning `r`. */
  ghost predicate Wrapped(t: SymbolEdges, e: EpsilonEdges, e': EpsilonEdges, f: Fragment, lo: nat, n: nat, r: Regex, loop: bool) {
    && lo <= f.start < f.accept && f.accept + 1 == n
    && Confined(t, e, lo, f.accept) && Recognizes(t, e, f, r)
    && Stuck(t, e, f.accept) && FreshPair(t, e, n)
    && LoopEdges(e, e', f, n, loop)
  }

  lemma WrappedConfined(t: SymbolEdges, e: EpsilonEdges, e': EpsilonEdges, f: Fragment, lo: nat, n: nat, r: Regex, loop: bool)
    requires Wrapped(t, e, e', f, lo, n, r, loop)
    ensures Confined(t, e', lo, n + 1) && Stuck(t, e', n + 1) && SameEdges(t, e, t, e', lo, f.accept)
  {
  }

  /** A walk from the fragment's entry to the fresh exit reads words of `r`, one after the other. */
  lemma {:induction false} StarFromStart(t: SymbolEdges, e: EpsilonEdges, e': EpsilonEdges, f: Fragment, lo: nat, n: nat, r: Regex, w: string, k: nat)
    requires Wrapped(t, e, e', f, lo, n, r, true) && Walk(t, e', f.start, w, n + 1, k)
    ensures Denotes(Kleene(r), w)
    decreases k, 1
  {
    WrappedConfined(t, e, e', f, lo, n, r, true);
    var j, m := FirstExit(t, e, t, e', lo, f.accept, f.start, w, n + 1, k);
    UseRecognizes(t, e, f, r, w[..j]);
    StarFromExit(t, e, e', f, lo, n, r, w[j..], k - m);
    KleeneJoin(r, w[..j], w[j..]);
    SplitJoin(w, j);
  }

  /** A walk from the fragment's exit to the fresh exit reads words of `r`, one after the other. */
  lemma {:induction false} StarFromExit(t: SymbolEdges, e: EpsilonEdges, e': EpsilonEdges, f: Fragment, lo: nat, n: nat, r: Regex, w: string, k: nat)
    requires Wrapped(t, e, e', f, lo, n, r, true) && Walk(t, e', f.accept, w, n + 1, k)
    ensures Denotes(Kleene(r), w)
    decreases k, 0
  {
    WrappedConfined(t, e, e', f, lo, n, r, true);
    var s := LeaveByEpsilon(t, e', f.accept, w, n + 1, k);
    if s == n + 1 {
      WalkFromStuck(t, e', n + 1, w, n + 1, k - 1);
    } else {
      StarFromStart(t, e, e', f, lo, n, r, w, k - 1);
    }
  }

  /** One word of `r` through the fragment, from its entry to its exit, in the new automaton. */
  lemma Through(t: SymbolEdges, e: EpsilonEdges, e': EpsilonEdges, f: Fragment, lo: nat, n: nat, r: Regex, loop: bool, u: string)
    requires Wrapped(t, e, e', f, lo, n, r, loop) && Denotes(r, u)
    ensures Path(t, e', f.start, u, f.accept)
  {
    WrappedConfined(t, e, e', f, lo, n, r, loop);
    UseRecognizes(t, e, f, r, u);
    PathTransfer(t, e, t, e', lo, f.accept, f.start, u);
  }

  /** Words of `r`, one after the other, lead from the fragment's exit to the fresh exit. */
  lemma {:induction false} StarToExit(t: SymbolEdges, e: EpsilonEdges, e': EpsilonEdges, f: Fragment, lo: nat, n: nat, r: Regex, w: string)
    requires Wrapped(t, e, e', f, lo, n, r, true) && Denotes(Kleene(r), w)
    ensures Path(t, e', f.accept, w, n + 1)
    decreases |w|
  {
    EpsilonEdge(t, e', f.accept, n + 1);
    if w != [] {
      var j :| 0 < j <= |w| && Denotes(r, w[..j]) && Denotes(Kleene(r), w[j..]);
      StarToExit(t, e, e', f, lo, n, r, w[j..]);
      Through(t, e, e', f, lo, n, r, true, w[..j]);
      EpsilonBefore(t, e', f.accept, f.start, w[..j], f.accept);
      PathAppend(t, e', f.accept, w[..j], f.accept, w[j..], n + 1);
      SplitJoin(w, j);
    }
  }

  lemma StarSound(t: SymbolEdges, e: EpsilonEdges, e': EpsilonEdges, f: Fragment, lo: nat, n: nat, r: Regex, w: string)
    requires Wrapped(t, e, e', f, lo, n, r, true) && Path(t, e', n, w, n + 1)
    ensures Denotes(Kleene(r), w)
  {
    WrappedConfined(t, e, e', f, lo, n, r, true);
    var k: nat :| Walk(t, e', n, w, n + 1, k);
    var s := LeaveByEpsilon(t, e', n, w, n + 1, k);
    if s == n + 1 {
      WalkFromStuck(t, e', n + 1, w, n + 1, k - 1);
    } else {
      StarFromStart(t, e, e', f, lo, n, r, w, k - 1);
    }
  }

  lemma StarComplete(t: SymbolEdges, e: EpsilonEdges, e': EpsilonEdges, f: Fragment, lo: nat, n: nat, r: Regex, w: string)
    requires Wrapped(t, e, e', f, lo, n, r, true) && Denotes(Kleene(r), w)
    ensures Path(t, e', n, w, n + 1)
  {
    EpsilonEdge(t, e', n, n + 1);
    if w != [] {
      var j :| 0 < j <= |w| && Denotes(r, w[..j]) && Denotes(Kleene(r), w[j..]);
      StarToExit(t, e, e', f, lo, n, r, w[j..]);
      Through(t, e, e', f, lo, n, r, true, w[..j]);
      EpsilonBefore(t, e', n, f.start, w[..j], f.accept);
      PathAppend(t, e', n, w[..j], f.accept, w[j..], n + 1);
      SplitJoin(w, j);
    }
  }

  lemma StarRecognizes(t: SymbolEdges, e: EpsilonEdges, e': EpsilonEdges, f: Fragment, lo: nat, n: nat, r: Regex)
    requires Wrapped(t, e, e', f, lo, n, r, true)
    ensures Confined(t, e', lo, n + 1) && Recognizes(t, e', Fragment(n, n + 1), Kleene(r))
  {
    WrappedConfined(t, e, e', f, lo, n, r, true);
    forall w
      ensures Path(t, e', n, w, n + 1) <==> Denotes(Kleene(r), w)
    {
      if Path(t, e', n, w, n + 1) {
        StarSound(t, e, e', f, lo, n, r, w);
      }
      if Denotes(Kleene(r), w) {
        StarComplete(t, e, e', f, lo, n, r, w);
      }
    }
    ShowRecognizes(t, e', Fragment(n, n + 1), Kleene(r));
  }

  lemma OptionalSound(t: SymbolEdges, e: EpsilonEdges, e': EpsilonEdges, f: Fragment, lo: nat, n: nat, r: Regex, w: string)
    requires Wrapped(t, e, e', f, lo, n, r, false) && Path(t, e', n, w, n + 1)
    ensures Denotes(Opt(r), w)
  {
    WrappedConfined(t, e, e', f, lo, n, r, false);
    var k: nat :| Walk(t, e', n, w, n + 1, k);
    var s := LeaveByEpsilon(t, e', n, w, n + 1, k);
    if s == n + 1 {
      WalkFromStuck(t, e', n + 1, w, n + 1, k - 1);
    } else {
      ExitToSink(t, e, t, e', lo, f.accept, n + 1, f.start, w, k - 1);
      UseRecognizes(t, e, f, r, w);
    }
  }

  lemma OptionalRecognizes(t: SymbolEdges, e: EpsilonEdges, e': EpsilonEdges, f: Fragment, lo: nat, n: nat, r: Regex)
    requires Wrapped(t, e, e', f, lo, n, r, false)
    ensures Confined(t, e', lo, n + 1) && Recognizes(t, e', Fragment(n, n + 1), Opt(r))
  {
    WrappedConfined(t, e, e', f, lo, n, r, false);
    forall w
      ensures Path(t, e', n, w, n + 1) <==> Denotes(Opt(r), w)
    {
      if Path(t, e', n, w, n + 1) {
        OptionalSound(t, e, e', f, lo, n, r, w);
      }
      if w == [] {
        EpsilonEdge(t, e', n, n + 1);
      } else if Denotes(r, w) {
        UseRecognizes(t, e, f, r, w);
        Branch(t, e, e', f, lo, n, w);
      }
    }
    ShowRecognizes(t, e', Fragment(n, n + 1), Opt(r));
  }

  /** The star step's new edges, around the top fragment. */
  lemma StarPieces(t: SymbolEdges, e: EpsilonEdges, e': EpsilonEdges, f: Fragment, lo: nat, n: nat, r: Regex)
    requires lo <= f.start < f.accept && f.accept + 1 == n
    requires Confined(t, e, lo, f.accept) && Recognizes(t, e, f, r) && Stuck(t, e, f.accept) && FreshPair(t, e, n)
    requires LoopEdges(e, e', f, n, true)
    ensures SameEdges(t, e, t, e', 0, lo)
    ensures Confined(t, e', lo, n + 1) && Recognizes(t, e', Fragment(n, n + 1), Kleene(r))
  {
    StarRecognizes(t, e, e', f, lo, n, r);
    LoopFrame(t, e, e', f, n, true, lo);
  }

  /** The optional step's new edges, around the top fragment. */
  lemma OptionalPieces(t: SymbolEdges, e: EpsilonEdges, e': EpsilonEdges, f: Fragment, lo: nat, n: nat, r: Regex)
    requires lo <= f.start < f.accept && f.accept + 1 == n
    requires Confined(t, e, lo, f.accept) && Recognizes(t, e, f, r) && Stuck(t, e, f.accept) && FreshPair(t, e, n)
    requires LoopEdges(e, e', f, n, false)
    ensures SameEdges(t, e, t, e', 0, lo)
    ensures Confined(t, e', lo, n + 1) && Recognizes(t, e', Fragment(n, n + 1), Opt(r))
  {
    OptionalRecognizes(t, e, e', f, lo, n, r);
    LoopFrame(t, e, e', f, n, false, lo);
  }

  lemma StarFacts(b: Builder, rs: seq<Regex>)
    requires Invariant(b, rs) && |b.stack| >= 1
    ensures Replaces(b, 1, StarStep(b).value, Fragment(b.next, b.next + 1), Kleene(rs[|b.stack| - 1]))
  {
    TopOne(b, rs);
    StarStepped(b);
    StarShaped(b);
    StarOnTop(b, StarStep(b).value, rs[|b.stack| - 1]);
  }

  /** The builder after a star: two more states, the same symbol edges, the top fragment
      replaced by the fresh pair, and the step's epsilon edges. */
  lemma StarStepped(b: Builder)
    requires |b.stack| >= 1 && b.stack[|b.stack| - 1].accept < b.next
    requires EpsilonTargets(b.epsilonTransitions, b.next) == {}
    requires EpsilonTargets(b.epsilonTransitions, b.stack[|b.stack| - 1].accept) == {}
    ensures StarStep(b).Ok?
    ensures StarStep(b).value.next == b.next + 2 && StarStep(b).value.transitions == b.transitions
    ensures StarStep(b).value.stack == b.stack[..|b.stack| - 1] + [Fragment(b.next, b.next + 1)]
    ensures LoopEdges(b.epsilonTransitions, StarStep(b).value.epsilonTransitions, b.stack[|b.stack| - 1], b.next, true)
  {
    StarEdgesAdded(b.epsilonTransitions, b.stack[|b.stack| - 1], b.next);
  }

  /** A builder `b'` laid out as the star step lays it out replaces the top fragment by one
      that reads `Kleene(r)`. */
  lemma StarOnTop(b: Builder, b': Builder, r: Regex)
    requires OneOnTop(b, r) && Shaped(b')
    requires b'.next == b.next + 2 && b'.transitions == b.transitions
    requires b'.stack == b.stack[..|b.stack| - 1] + [Fragment(b.next, b.next + 1)]
    requires LoopEdges(b.epsilonTransitions, b'.epsilonTransitions, b.stack[|b.stack| - 1], b.next, true)
    ensures Replaces(b, 1, b', Fragment(b.next, b.next + 1), Kleene(r))
  {
    StarPieces(b.transitions, b.epsilonTransitions, b'.epsilonTransitions, b.stack[|b.stack| - 1], Low(b.stack, |b.stack| - 1), b.next, r);
  }

  lemma StarMeans(b: Builder, rs: seq<Regex>)
    requires Invariant(b, rs) && |b.stack| >= 1
    ensures Invariant(StarStep(b).value, TreeStep(rs, Star))
  {
    StarFacts(b, rs);
    assert |rs| == |b.stack|;
    Replace(b, rs, 1, StarStep(b).value, Fragment(b.next, b.next + 1), Kleene(rs[|b.stack| - 1]), TreeStep(rs, Star));
  }

  lemma OptionalFacts(b: Builder, rs: seq<Regex>)
    requires Invariant(b, rs) && |b.stack| >= 1
    ensures Replaces(b, 1, OptionalStep(b).value, Fragment(b.next, b.next + 1), Opt(rs[|b.stack| - 1]))
  {
    TopOne(b, rs);
    OptionalStepped(b);
    OptionalShaped(b);
    OptionalOnTop(b, OptionalStep(b).value, rs[|b.stack| - 1]);
  }

  /** The builder after an option: two more states, the same symbol edges, the top fragment
      replaced by the fresh pair, and the step's epsilon edges. */
  lemma OptionalStepped(b: Builder)
    requires |b.stack| >= 1 && b.stack[|b.stack| - 1].accept < b.next
    requires EpsilonTargets(b.epsilonTransitions, b.next) == {}
    requires EpsilonTargets(b.epsilonTransitions, b.stack[|b.stack| - 1].accept) == {}
    ensures OptionalStep(b).Ok?
    ensures OptionalStep(b).value.next == b.next + 2 && OptionalStep(b).value.transitions == b.transitions
    ensures OptionalStep(b).value.stack == b.stack[..|b.stack| - 1] + [Fragment(b.next, b.next + 1)]
    ensures LoopEdges(b.epsilonTransitions, OptionalStep(b).value.epsilonTransitions, b.stack[|b.stack| - 1], b.next, false)
  {
    OptionalEdgesAdded(b.epsilonTransitions, b.stack[|b.stack| - 1], b.next);
  }

  /** A builder `b'` laid out as the optional step lays it out replaces the top fragment by one
      that reads `Opt(r)`. */
  lemma OptionalOnTop(b: Builder, b': Builder, r: Regex)
    requires OneOnTop(b, r) && Shaped(b')
    requires b'.next == b.next + 2 && b'.transitions == b.transitions
    requires b'.stack == b.stack[..|b.stack| - 1] + [Fragment(b.next, b.next + 1)]
    requires LoopEdges(b.epsilonTransitions, b'.epsilonTransitions, b.stack[|b.stack| - 1], b.next, false)
    ensures Replaces(b, 1, b', Fragment(b.next, b.next + 1), Opt(r))
  {
    OptionalPieces(b.transitions, b.epsilonTransitions, b'.epsilonTransitions, b.stack[|b.stack| - 1], Low(b.stack, |b.stack| - 1), b.next, r);
  }

  lemma OptionalMeans(b: Builder, rs: seq<Regex>)
    requires Invariant(b, rs) && |b.stack| >= 1
    ensures Invariant(OptionalStep(b).value, TreeStep(rs, Optional))
  {
    OptionalFacts(b, rs);
    assert |rs| == |b.stack|;
    Replace(b, rs, 1, OptionalStep(b).value, Fragment(b.next, b.next + 1), Opt(rs[|b.stack| - 1]), TreeStep(rs, Optional));
  }

  /** Every prefix the builder accepts leaves, fragment by fragment, automata that read exactly
      the words of the trees the same tokens build. */
  lemma {:induction false} BuiltMeans(p: seq<Token>)
    requires Built(p).Ok?
    ensures Invariant(Built(p).value, Trees(p))
    decreases |p|
  {
    if p != [] {
      var q := Popped(p);
      BuiltMeans(q);
      var b := Built(q).value;
      var rs := Trees(q);
      match Top(p)
      case Literal(c) => LiteralMeans(b, rs, c);
      case Concat => ConcatMeans(b, rs);
      case Union => UnionMeans(b, rs);
      case Star => StarMeans(b, rs);
      case Optional => OptionalMeans(b, rs);
      case LParen =>
      case RParen =>
    }
  }

  /** The automaton built from a postfix sequence accepts exactly the words of the one tree the
      sequence builds. */
  lemma ThompsonLanguage(p: seq<Token>, w: string)
    requires ThompsonNfa(p).Ok?
    ensures |Trees(p)| == 1
    ensures NfaAccepts(ThompsonNfa(p).value, w) <==> Denotes(Trees(p)[0], w)
  {
    BuiltMeans(p);
    var b := Built(p).value;
    assert Owns(b.transitions, b.epsilonTransitions, b.stack, 0, Trees(p)[0]);
    UseRecognizes(b.transitions, b.epsilonTransitions, b.stack[0], Trees(p)[0], w);
    AcceptsByPath(ThompsonNfa(p).value, w);
  }
}
