/**
 * `unite_regex` and `concatenate_regex` of ui/lib/src/nvui/regex.ts: each argument is wrapped
 * in parentheses, then the pieces are joined with "|" or with nothing. Patterns that compile on
 * their own still compile once combined.
 */
module Combinators {
  import opened Wrappers
  import opened Tokens
  import opened Postfix
  import opened Text
  import opened Compiler
  import opened Grouping
  import Patterns
  import Thompson

  /** Every pattern in parentheses, in order. */
  function Wrapped(rs: seq<string>): (ws: seq<string>)
    ensures |ws| == |rs| && forall i :: 0 <= i < |rs| ==> ws[i] == "(" + rs[i] + ")"
  {
    seq(|rs|, i requires 0 <= i < |rs| => "(" + rs[i] + ")")
  }

  /** What `unite_regex` returns. */
  function United(rs: seq<string>): string {
    Join(Wrapped(rs), "|")
  }

  /** What `concatenate_regex` returns. */
  function Concatenated(rs: seq<string>): string {
    Join(Wrapped(rs), "")
  }

  /** `unite_regex`: the wrapping loop, then the join. */
  method UniteRegex(regexes: seq<string>) returns (r: string)
    ensures r == United(regexes)
  {
    var res: seq<string> := [];
    for i := 0 to |regexes|
      invariant res == Wrapped(regexes[..i])
    {
      res := res + ["(" + regexes[i] + ")"];
    }
    assert regexes[..|regexes|] == regexes;
    r := Join(res, "|");
  }

  /** `concatenate_regex`: the wrapping loop, then the join with the empty separator. */
  method ConcatenateRegex(regexes: seq<string>) returns (r: string)
    ensures r == Concatenated(regexes)
  {
    var res: seq<string> := [];
    for i := 0 to |regexes|
      invariant res == Wrapped(regexes[..i])
    {
      res := res + ["(" + regexes[i] + ")"];
    }
    assert regexes[..|regexes|] == regexes;
    r := Join(res, "");
  }

  // ---------------------------------------------------------------------------------------------
  // The strings
  // ---------------------------------------------------------------------------------------------

  lemma WrappedTail(rs: seq<string>)
    requires rs != []
    ensures Wrapped(rs)[1..] == Wrapped(rs[1..])
  {
  }

  lemma {:induction false} WrappedLength(rs: seq<string>)
    ensures TotalLength(Wrapped(rs)) == TotalLength(rs) + 2 * |rs|
    decreases |rs|
  {
    if rs != [] {
      WrappedTail(rs);
      WrappedLength(rs[1..]);
    }
  }

  /** No argument gives the empty pattern; one argument gives it in parentheses; each further
      argument adds "|", an opening parenthesis, the argument and a closing parenthesis, at the
      end. */
  lemma UnitedShape(rs: seq<string>, r: string)
    ensures United([]) == ""
    ensures United([r]) == "(" + r + ")"
    ensures rs != [] ==> United(rs + [r]) == United(rs) + "|" + "(" + r + ")"
  {
    if rs != [] {
      assert Wrapped(rs + [r]) == Wrapped(rs) + ["(" + r + ")"];
      JoinSnoc(Wrapped(rs), "(" + r + ")", "|");
    }
  }

  /** The concatenation of the arguments, each in parentheses, in order. */
  lemma ConcatenatedShape(rs: seq<string>, r: string)
    ensures Concatenated([]) == ""
    ensures Concatenated(rs + [r]) == Concatenated(rs) + "(" + r + ")"
  {
    if rs == [] {
      assert rs + [r] == [r];
    } else {
      assert Wrapped(rs + [r]) == Wrapped(rs) + ["(" + r + ")"];
      JoinSnoc(Wrapped(rs), "(" + r + ")", "");
      assert Concatenated(rs) + "" == Concatenated(rs);
    }
  }

  /** A union of n arguments is as long as the arguments, two parentheses each, and n - 1
      separators. */
  lemma UnitedLength(rs: seq<string>)
    requires rs != []
    ensures |United(rs)| == TotalLength(rs) + 2 * |rs| + (|rs| - 1)
  {
    JoinLength(Wrapped(rs), "|");
    WrappedLength(rs);
  }

  /** A concatenation is as long as the arguments plus two parentheses each. */
  lemma ConcatenatedLength(rs: seq<string>)
    ensures |Concatenated(rs)| == TotalLength(rs) + 2 * |rs|
  {
    JoinLength(Wrapped(rs), "");
    WrappedLength(rs);
  }

  /** When no argument contains "|", the union splits back into the wrapped arguments: the
      separators are exactly the n - 1 inserted ones. */
  lemma UnitedSplits(rs: seq<string>)
    requires forall i :: 0 <= i < |rs| ==> '|' !in rs[i]
    ensures Split(United(rs), '|') == Wrapped(rs)
  {
    var ws := Wrapped(rs);
    forall i | 0 <= i < |ws|
      ensures Field(ws[i], '|')
    {
      assert ws[i] == ['('] + rs[i] + [')'];
    }
    SplitJoin(ws, '|');
  }

  // ---------------------------------------------------------------------------------------------
  // The tokens
  // ---------------------------------------------------------------------------------------------

  /** A token sequence in one outer pair of parentheses that the converter accepts. */
  predicate Framed(ts: seq<Token>) {
    |ts| >= 2 && ts[0] == LParen && ts[|ts| - 1] == RParen && Accepted(ts)
  }

  lemma ScanWrap(r: string)
    requires Scan(r).Ok?
    ensures Scan("(" + r + ")") == Ok([LParen] + Scan(r).value + [RParen])
  {
    var close: string := ")";
    var inner := r + close;
    assert Scan(close) == Ok([RParen]) by {
      assert close[1..] == [];
      PrefixedEmpty([RParen]);
    }
    ScanAppend(r, close);
    assert Scan(inner) == Ok(Scan(r).value + [RParen]);
    var s := "(" + r + ")";
    assert s == ['('] + inner;
    assert s[1..] == inner;
    ScanHead(s);
    assert Scan(s) == Prefixed([LParen], Scan(inner));
    var t := Scan(r).value;
    assert [LParen] + (t + [RParen]) == [LParen] + t + [RParen];
  }

  lemma ScanSeparated(a: string, c: char, b: string)
    requires Scan(a).Ok? && c != '\\'
    ensures Scan(a + [c] + b) == Prefixed(Scan(a).value + [CharToken(c)], Scan(b))
  {
    var sep: string := [c];
    assert Scan(sep + b) == Prefixed([CharToken(c)], Scan(b)) by {
      assert (sep + b)[1..] == b;
      ScanHead(sep + b);
    }
    ScanAppend(a, sep + b);
    assert a + sep + b == a + (sep + b);
    PrefixedTwice(Scan(a).value, [CharToken(c)], Scan(b));
  }

  lemma WithConcatenationLast(ts: seq<Token>)
    requires ts != []
    ensures WithConcatenation(ts) != [] && WithConcatenation(ts)[|WithConcatenation(ts)| - 1] == ts[|ts| - 1]
    decreases |ts|
  {
    if |ts| > 1 {
      WithConcatenationLast(ts[1..]);
    }
  }

  /** Inserting concatenations distributes over appending, with one more at the seam when the
      two sides meet as juxtaposed operands. */
  lemma {:induction false} WithConcatenationAppend(a: seq<Token>, b: seq<Token>)
    requires a != [] && b != []
    ensures WithConcatenation(a + b) ==
      WithConcatenation(a) + (if NeedsConcat(a[|a| - 1], b[0]) then [Concat] else []) + WithConcatenation(b)
    decreases |a|
  {
    var ab := a + b;
    if |a| == 1 {
      assert ab[1..] == b;
    } else {
      assert ab[1..] == a[1..] + b;
      WithConcatenationAppend(a[1..], b);
    }
  }

  lemma WithConcatenationWrap(ts: seq<Token>)
    requires ts != []
    ensures WithConcatenation([LParen] + ts + [RParen]) == [LParen] + WithConcatenation(ts) + [RParen]
  {
    WithConcatenationAppend([LParen], ts);
    WithConcatenationAppend([LParen] + ts, [RParen]);
  }

  /** Placement only looks at neighbours, and an operand boundary is never where a binary
      operator or a postfix operator is missing its operand. */
  lemma WellPlacedAppend(a: seq<Token>, b: seq<Token>)
    requires WellPlaced(a) && WellPlaced(b)
    ensures WellPlaced(a + b)
  {
    var ab := a + b;
    forall j | 0 <= j < |ab|
      ensures PlacedAt(ab, j)
    {
      if j < |a| {
        assert PlacedAt(a, j);
      } else {
        assert PlacedAt(b, j - |a|);
      }
    }
  }

  lemma WellPlacedAround(a: seq<Token>, op: Token, b: seq<Token>)
    requires WellPlaced(a) && WellPlaced(b) && IsBinary(op)
    requires a != [] && IsAtomEnd(a[|a| - 1]) && b != [] && IsAtomStart(b[0])
    ensures WellPlaced(a + [op] + b)
  {
    var ts := a + [op] + b;
    forall j | 0 <= j < |ts|
      ensures PlacedAt(ts, j)
    {
      if j < |a| {
        assert PlacedAt(a, j);
      } else if j > |a| {
        assert PlacedAt(b, j - |a| - 1);
      }
    }
  }

  /** A prefix does not change how the rest is read. */
  lemma {:induction false} BalancedShift(p: seq<Token>, s: seq<Token>, j: nat, open: nat)
    requires j <= |s|
    ensures BalancedFrom(p + s, |p| + j, open) == BalancedFrom(s, j, open)
    decreases |s| - j
  {
    if j < |s| {
      var next := if s[j].LParen? then open + 1 else if s[j].RParen? then open - 1 else open;
      if !s[j].RParen? || open > 0 {
        BalancedShift(p, s, j + 1, next);
      }
    }
  }

  /** A part that closes what it opens, read with `extra` more groups open, leaves `extra`
      open for what follows. */
  lemma {:induction false} BalancedPrefix(a: seq<Token>, b: seq<Token>, i: nat, open: nat, extra: nat)
    requires i <= |a| && BalancedFrom(a, i, open)
    ensures BalancedFrom(a + b, i, open + extra) == BalancedFrom(b, 0, extra)
    decreases |a| - i
  {
    if i == |a| {
      BalancedShift(a, b, 0, extra);
    } else {
      var next := if a[i].LParen? then open + 1 else if a[i].RParen? then open - 1 else open;
      BalancedPrefix(a, b, i + 1, next, extra);
    }
  }

  lemma BalancedAppend(a: seq<Token>, b: seq<Token>)
    requires Balanced(a) && Balanced(b)
    ensures Balanced(a + b)
  {
    BalancedPrefix(a, b, 0, 0, 0);
  }

  lemma BalancedWrap(w: seq<Token>)
    requires Balanced(w)
    ensures Balanced([LParen] + w + [RParen])
  {
    var rest := w + [RParen];
    BalancedPrefix(w, [RParen], 0, 0, 1);
    assert BalancedFrom([RParen], 0, 1);
    BalancedShift([LParen], rest, 0, 1);
    assert [LParen] + w + [RParen] == [LParen] + rest;
  }

  lemma EmptyGroupAppend(a: seq<Token>, b: seq<Token>)
    requires !HasEmptyGroup(a) && !HasEmptyGroup(b)
    requires a == [] || b == [] || !a[|a| - 1].LParen? || !b[0].RParen?
    ensures !HasEmptyGroup(a + b)
  {
    var ab := a + b;
    forall j | 0 <= j < |ab| - 1 && ab[j].LParen?
      ensures !ab[j + 1].RParen?
    {
      if j + 1 < |a| {
        assert ab[j] == a[j] && ab[j + 1] == a[j + 1];
      } else if j >= |a| {
        assert ab[j] == b[j - |a|] && ab[j + 1] == b[j - |a| + 1];
      }
    }
  }

  lemma FramedWrap(w: seq<Token>)
    requires Accepted(w) && w != []
    ensures Framed([LParen] + w + [RParen])
  {
    var ts := [LParen] + w + [RParen];
    assert WellPlaced([LParen]) by {
      assert PlacedAt([LParen], 0);
    }
    assert WellPlaced([RParen]) by {
      assert PlacedAt([RParen], 0);
    }
    WellPlacedAppend([LParen], w);
    WellPlacedAppend([LParen] + w, [RParen]);
    BalancedWrap(w);
    assert !w[0].RParen?;
    BalancedEndsClosed(w, 0, 0);
    EmptyGroupAppend([LParen], w);
    EmptyGroupAppend([LParen] + w, [RParen]);
  }

  lemma FramedJoin(a: seq<Token>, op: Token, b: seq<Token>)
    requires Framed(a) && Framed(b) && IsBinary(op)
    ensures Framed(a + [op] + b)
  {
    WellPlacedAround(a, op, b);
    assert Balanced([op]);
    BalancedAppend(a, [op]);
    BalancedAppend(a + [op], b);
    EmptyGroupAppend(a, [op]);
    EmptyGroupAppend(a + [op], b);
  }

  /** A pattern that tokenizes and whose tokens the converter accepts. */
  predicate Compiles(r: string) {
    Tokenized(r).Ok? && Accepted(WithConcatenation(Tokenized(r).value))
  }

  lemma PieceTokens(r: string)
    requires Compiles(r)
    ensures Scan(r).Ok? && Scan(r).value != []
    ensures Scan("(" + r + ")") == Ok([LParen] + Scan(r).value + [RParen])
    ensures Framed(WithConcatenation([LParen] + Scan(r).value + [RParen]))
  {
    ScanHead(r);
    ScanWrap(r);
    WithConcatenationWrap(Scan(r).value);
    FramedWrap(WithConcatenation(Scan(r).value));
  }

  /** No concatenation is inserted after a token that does not end an operand. */
  lemma WithConcatenationAfter(op: Token, b: seq<Token>)
    requires b != [] && !IsAtomEnd(op)
    ensures WithConcatenation([op] + b) == [op] + WithConcatenation(b)
  {
    WithConcatenationAppend([op], b);
  }

  /** Between two wrapped operands, "|" is kept and no concatenation is inserted. */
  lemma UnionSeam(a: seq<Token>, b: seq<Token>)
    requires a != [] && a[|a| - 1] == RParen && b != []
    ensures WithConcatenation(a + ([Union] + b)) == WithConcatenation(a) + [Union] + WithConcatenation(b)
  {
    var rest := [Union] + b;
    assert rest[0] == Union;
    WithConcatenationAppend(a, rest);
    WithConcatenationAfter(Union, b);
  }

  lemma {:induction false} UnitedTokens(rs: seq<string>)
    requires rs != [] && forall i :: 0 <= i < |rs| ==> Compiles(rs[i])
    ensures Scan(United(rs)).Ok?
    ensures var ts := Scan(United(rs)).value; ts != [] && ts[0] == LParen && Framed(WithConcatenation(ts))
    decreases |rs|
  {
    var w := "(" + rs[0] + ")";
    PieceTokens(rs[0]);
    if |rs| == 1 {
      assert United(rs) == w;
    } else {
      var rest := United(rs[1..]);
      WrappedTail(rs);
      assert United(rs) == w + "|" + rest;
      UnitedTokens(rs[1..]);
      ScanSeparated(w, '|', rest);
      var a, b := Scan(w).value, Scan(rest).value;
      assert Scan(United(rs)).value == a + ([Union] + b);
      UnionSeam(a, b);
      FramedJoin(WithConcatenation(a), Union, WithConcatenation(b));
    }
  }

  lemma {:induction false} ConcatenatedTokens(rs: seq<string>)
    requires rs != [] && forall i :: 0 <= i < |rs| ==> Compiles(rs[i])
    ensures Scan(Concatenated(rs)).Ok?
    ensures var ts := Scan(Concatenated(rs)).value; ts != [] && ts[0] == LParen && Framed(WithConcatenation(ts))
    decreases |rs|
  {
    var w := "(" + rs[0] + ")";
    PieceTokens(rs[0]);
    if |rs| == 1 {
      assert Concatenated(rs) == w;
    } else {
      var rest := Concatenated(rs[1..]);
      WrappedTail(rs);
      assert Concatenated(rs) == w + rest;
      ConcatenatedTokens(rs[1..]);
      ScanAppend(w, rest);
      var a, b := Scan(w).value, Scan(rest).value;
      WithConcatenationAppend(a, b);
      FramedJoin(WithConcatenation(a), Concat, WithConcatenation(b));
    }
  }

  /** Patterns that each compile still compile once united. */
  lemma UniteCompiles(rs: seq<string>)
    requires rs != [] && forall i :: 0 <= i < |rs| ==> NfaOf(rs[i]).Ok?
    ensures NfaOf(United(rs)).Ok?
  {
    forall i | 0 <= i < |rs|
      ensures Compiles(rs[i])
    {
      CompileSucceeds(rs[i]);
    }
    UnitedTokens(rs);
    CompileSucceeds(United(rs));
  }

  /** Patterns that each compile still compile once concatenated. */
  lemma ConcatenateCompiles(rs: seq<string>)
    requires rs != [] && forall i :: 0 <= i < |rs| ==> NfaOf(rs[i]).Ok?
    ensures NfaOf(Concatenated(rs)).Ok?
  {
    forall i | 0 <= i < |rs|
      ensures Compiles(rs[i])
    {
      CompileSucceeds(rs[i]);
    }
    ConcatenatedTokens(rs);
    CompileSucceeds(Concatenated(rs));
  }

  // ---------------------------------------------------------------------------------------------
  // What the combined patterns mean
  // ---------------------------------------------------------------------------------------------

  /** The tokens of each argument, with concatenation made explicit. */
  function Pieces(rs: seq<string>): (xs: seq<seq<Token>>)
    requires forall i :: 0 <= i < |rs| ==> Scan(rs[i]).Ok?
    ensures |xs| == |rs|
  {
    seq(|rs|, i requires 0 <= i < |rs| => WithConcatenation(Scan(rs[i]).value))
  }

  /** The postfix form of each argument. */
  function Forms(rs: seq<string>): (ps: seq<seq<Token>>)
    requires forall i :: 0 <= i < |rs| ==> NfaOf(rs[i]).Ok?
    ensures |ps| == |rs|
  {
    seq(|rs|, i requires 0 <= i < |rs| && NfaOf(rs[i]).Ok? => PostfixOf(rs[i]).value)
  }

  /** What is known of each argument that compiles. */
  lemma ArgumentsCompile(rs: seq<string>)
    requires forall i :: 0 <= i < |rs| ==> NfaOf(rs[i]).Ok?
    ensures forall i :: 0 <= i < |rs| ==> Compiles(rs[i]) && Scan(rs[i]).Ok? && PostfixOf(rs[i]).Ok?
    ensures forall i :: 0 <= i < |rs| ==> Postfix.Postfix(Pieces(rs)[i]) == Ok(Forms(rs)[i])
  {
    forall i | 0 <= i < |rs|
      ensures Compiles(rs[i]) && Scan(rs[i]).Ok? && PostfixOf(rs[i]).Ok?
    {
      CompileSucceeds(rs[i]);
    }
  }

  lemma PiecesSnoc(rs: seq<string>, r: string)
    requires forall i :: 0 <= i < |rs| ==> Scan(rs[i]).Ok?
    requires Scan(r).Ok?
    ensures Pieces(rs + [r]) == Pieces(rs) + [WithConcatenation(Scan(r).value)]
  {
    assert forall i :: 0 <= i < |rs| ==> (rs + [r])[i] == rs[i];
  }

  /** "|" and a pattern in parentheses after some text. */
  lemma ScanSeparatedGroup(u: string, r: string)
    requires Scan(u).Ok? && Scan(r).Ok?
    ensures Scan(u + "|" + "(" + r + ")") == Ok(Scan(u).value + ([Union] + Group(Scan(r).value)))
  {
    var w := "(" + r + ")";
    assert u + "|" + "(" + r + ")" == u + ['|'] + w;
    ScanSeparated(u, '|', w);
    ScanWrap(r);
    var t, g := Scan(u).value, Group(Scan(r).value);
    assert (t + [Union]) + g == t + ([Union] + g);
  }

  /** A pattern in parentheses after some text. */
  lemma ScanGroupAfter(c: string, r: string)
    requires Scan(c).Ok? && Scan(r).Ok?
    ensures Scan(c + "(" + r + ")") == Ok(Scan(c).value + Group(Scan(r).value))
  {
    var w := "(" + r + ")";
    assert c + "(" + r + ")" == c + w;
    ScanAppend(c, w);
    ScanWrap(r);
  }

  /** One more argument of a union, as text and as tokens. */
  lemma UnitedScan(rs: seq<string>, r: string)
    requires rs != [] && Scan(United(rs)).Ok? && Scan(r).Ok?
    ensures Scan(United(rs + [r])) == Ok(Scan(United(rs)).value + ([Union] + Group(Scan(r).value)))
  {
    UnitedShape(rs, r);
    ScanSeparatedGroup(United(rs), r);
  }

  /** One more argument of a concatenation, as text and as tokens. */
  lemma ConcatenatedScan(rs: seq<string>, r: string)
    requires Scan(Concatenated(rs)).Ok? && Scan(r).Ok?
    ensures Scan(Concatenated(rs + [r])) == Ok(Scan(Concatenated(rs)).value + Group(Scan(r).value))
  {
    ConcatenatedShape(rs, r);
    ScanGroupAfter(Concatenated(rs), r);
  }

  /** A group after a union's tokens, joined by "|", extends its chain. */
  lemma UnionGrows(t: seq<Token>, xs: seq<seq<Token>>, x: seq<Token>)
    requires t != [] && t[|t| - 1] == RParen && xs != [] && WithConcatenation(t) == Chain(xs, Union) && x != []
    ensures WithConcatenation(t + ([Union] + Group(x))) == Chain(xs + [WithConcatenation(x)], Union)
  {
    WithConcatenationWrap(x);
    UnionSeam(t, Group(x));
    ChainSnoc(xs, WithConcatenation(x), Union);
  }

  /** A group after a concatenation's tokens gets a concatenation in front and extends its
      chain. */
  lemma ConcatGrows(t: seq<Token>, xs: seq<seq<Token>>, x: seq<Token>)
    requires t != [] && t[|t| - 1] == RParen && xs != [] && WithConcatenation(t) == Chain(xs, Concat) && x != []
    ensures WithConcatenation(t + Group(x)) == Chain(xs + [WithConcatenation(x)], Concat)
  {
    WithConcatenationWrap(x);
    WithConcatenationAppend(t, Group(x));
    ChainSnoc(xs, WithConcatenation(x), Concat);
  }

  /** A single argument is only put in parentheses. */
  lemma ChainSingle(rs: seq<string>, op: Token)
    requires |rs| == 1 && Compiles(rs[0]) && Scan(rs[0]).Ok?
    ensures Scan("(" + rs[0] + ")").Ok?
    ensures var ts := Scan("(" + rs[0] + ")").value; ts != [] && ts[|ts| - 1] == RParen
    ensures WithConcatenation(Scan("(" + rs[0] + ")").value) == Chain(Pieces(rs), op)
  {
    PieceTokens(rs[0]);
    WithConcatenationWrap(Scan(rs[0]).value);
  }

  /** The tokens of a union are its arguments' tokens in groups, with "|" between them. */
  lemma {:induction false} UnitedChain(rs: seq<string>)
    requires rs != [] && forall i :: 0 <= i < |rs| ==> Compiles(rs[i]) && Scan(rs[i]).Ok?
    ensures Scan(United(rs)).Ok?
    ensures var ts := Scan(United(rs)).value; ts != [] && ts[|ts| - 1] == RParen
    ensures WithConcatenation(Scan(United(rs)).value) == Chain(Pieces(rs), Union)
    decreases |rs|
  {
    var n := |rs|;
    if n == 1 {
      UnitedShape([], rs[0]);
      ChainSingle(rs, Union);
    } else {
      var rs', r := rs[..n - 1], rs[n - 1];
      assert rs == rs' + [r];
      UnitedChain(rs');
      UnitedScan(rs', r);
      PieceTokens(r);
      UnionGrows(Scan(United(rs')).value, Pieces(rs'), Scan(r).value);
      PiecesSnoc(rs', r);
    }
  }

  /** The tokens of a concatenation are its arguments' tokens in groups, one after the other. */
  lemma {:induction false} ConcatenatedChain(rs: seq<string>)
    requires rs != [] && forall i :: 0 <= i < |rs| ==> Compiles(rs[i]) && Scan(rs[i]).Ok?
    ensures Scan(Concatenated(rs)).Ok?
    ensures var ts := Scan(Concatenated(rs)).value; ts != [] && ts[|ts| - 1] == RParen
    ensures WithConcatenation(Scan(Concatenated(rs)).value) == Chain(Pieces(rs), Concat)
    decreases |rs|
  {
    var n := |rs|;
    var e: seq<string> := [];
    if n == 1 {
      ConcatenatedShape(e, rs[0]);
      assert rs == e + [rs[0]] && Concatenated(e) + "(" + rs[0] + ")" == "(" + rs[0] + ")";
      ChainSingle(rs, Concat);
    } else {
      var rs', r := rs[..n - 1], rs[n - 1];
      assert rs == rs' + [r];
      ConcatenatedChain(rs');
      ConcatenatedScan(rs', r);
      PieceTokens(r);
      ConcatGrows(Scan(Concatenated(rs')).value, Pieces(rs'), Scan(r).value);
      PiecesSnoc(rs', r);
    }
  }

  lemma FormsSnoc(rs: seq<string>, r: string)
    requires forall i :: 0 <= i < |rs| ==> NfaOf(rs[i]).Ok?
    requires NfaOf(r).Ok?
    ensures Forms(rs + [r]) == Forms(rs) + [PostfixOf(r).value]
  {
    assert forall i :: 0 <= i < |rs| ==> (rs + [r])[i] == rs[i];
  }

  /** A pattern that compiles has a postfix form of exactly one operand. */
  lemma CompiledPostfix(r: string)
    requires NfaOf(r).Ok?
    ensures PostfixOf(r).Ok? && Postfix.WellFormedPostfix(PostfixOf(r).value)
  {
    Thompson.ThompsonSucceeds(PostfixOf(r).value);
  }

  /** The postfix form of a union: the arguments' postfix forms in order, a union after each
      one but the first. */
  lemma UnitedPostfix(rs: seq<string>)
    requires rs != [] && forall i :: 0 <= i < |rs| ==> NfaOf(rs[i]).Ok?
    ensures PostfixOf(United(rs)) == Ok(ChainPostfix(Forms(rs), Union))
  {
    ArgumentsCompile(rs);
    UnitedChain(rs);
    UnitedLength(rs);
    ChainConverts(Pieces(rs), Forms(rs), Union);
  }

  /** The postfix form of a concatenation: the arguments' postfix forms in order, a
      concatenation after each one but the first. */
  lemma ConcatenatedPostfix(rs: seq<string>)
    requires rs != [] && forall i :: 0 <= i < |rs| ==> NfaOf(rs[i]).Ok?
    ensures PostfixOf(Concatenated(rs)) == Ok(ChainPostfix(Forms(rs), Concat))
  {
    ArgumentsCompile(rs);
    ConcatenatedChain(rs);
    ConcatenatedLength(rs);
    ChainConverts(Pieces(rs), Forms(rs), Concat);
  }

  /** A union of one pattern means what the pattern means. */
  lemma UnitedSingle(r: string)
    requires NfaOf(r).Ok?
    ensures NfaOf(United([r])).Ok? && Pattern(United([r])) == Pattern(r)
  {
    UniteCompiles([r]);
    UnitedPostfix([r]);
  }

  /** A concatenation of one pattern means what the pattern means. */
  lemma ConcatenatedSingle(r: string)
    requires NfaOf(r).Ok?
    ensures NfaOf(Concatenated([r])).Ok? && Pattern(Concatenated([r])) == Pattern(r)
  {
    ConcatenateCompiles([r]);
    ConcatenatedPostfix([r]);
  }

  /** One more argument of a union is one more alternative, on the right. */
  lemma UnitedPattern(rs: seq<string>, r: string)
    requires rs != [] && forall i :: 0 <= i < |rs| ==> NfaOf(rs[i]).Ok?
    requires NfaOf(r).Ok?
    ensures NfaOf(United(rs)).Ok? && NfaOf(United(rs + [r])).Ok?
    ensures Pattern(United(rs + [r])) == Patterns.Alt(Pattern(United(rs)), Pattern(r))
  {
    var rs1 := rs + [r];
    assert forall i :: 0 <= i < |rs1| ==> NfaOf(rs1[i]).Ok?;
    UniteCompiles(rs);
    UniteCompiles(rs1);
    UnitedPostfix(rs);
    UnitedPostfix(rs1);
    ArgumentsCompile(rs);
    CompiledPostfix(r);
    CompiledPostfix(United(rs));
    FormsSnoc(rs, r);
    ChainPostfixSnoc(Forms(rs), PostfixOf(r).value, Union);
    TreesJoin(PostfixOf(United(rs)).value, PostfixOf(r).value, Union);
  }

  /** One more argument of a concatenation is one more factor, on the right. */
  lemma ConcatenatedPattern(rs: seq<string>, r: string)
    requires rs != [] && forall i :: 0 <= i < |rs| ==> NfaOf(rs[i]).Ok?
    requires NfaOf(r).Ok?
    ensures NfaOf(Concatenated(rs)).Ok? && NfaOf(Concatenated(rs + [r])).Ok?
    ensures Pattern(Concatenated(rs + [r])) == Patterns.Cat(Pattern(Concatenated(rs)), Pattern(r))
  {
    var rs1 := rs + [r];
    assert forall i :: 0 <= i < |rs1| ==> NfaOf(rs1[i]).Ok?;
    ConcatenateCompiles(rs);
    ConcatenateCompiles(rs1);
    ConcatenatedPostfix(rs);
    ConcatenatedPostfix(rs1);
    ArgumentsCompile(rs);
    CompiledPostfix(r);
    CompiledPostfix(Concatenated(rs));
    FormsSnoc(rs, r);
    ChainPostfixSnoc(Forms(rs), PostfixOf(r).value, Concat);
    TreesJoin(PostfixOf(Concatenated(rs)).value, PostfixOf(r).value, Concat);
  }

  /** What each argument means. */
  function Meanings(rs: seq<string>): (ps: seq<Patterns.Regex>)
    requires forall i :: 0 <= i < |rs| ==> NfaOf(rs[i]).Ok?
    ensures |ps| == |rs|
  {
    seq(|rs|, i requires 0 <= i < |rs| && NfaOf(rs[i]).Ok? => Pattern(rs[i]))
  }

  lemma MeaningsSnoc(rs: seq<string>, r: string)
    requires forall i :: 0 <= i < |rs| ==> NfaOf(rs[i]).Ok?
    requires NfaOf(r).Ok?
    ensures Meanings(rs + [r])[..|rs|] == Meanings(rs) && Meanings(rs + [r])[|rs|] == Pattern(r)
  {
    assert forall i :: 0 <= i < |rs| ==> (rs + [r])[i] == rs[i];
  }

  lemma UnitedMeansStep(rs: seq<string>, r: string)
    requires rs != [] && forall i :: 0 <= i < |rs| ==> NfaOf(rs[i]).Ok?
    requires NfaOf(r).Ok?
    requires NfaOf(United(rs)).Ok? && Pattern(United(rs)) == Patterns.Alternation(Meanings(rs))
    ensures NfaOf(United(rs + [r])).Ok?
    ensures forall i :: 0 <= i < |rs + [r]| ==> NfaOf((rs + [r])[i]).Ok?
    ensures Pattern(United(rs + [r])) == Patterns.Alternation(Meanings(rs + [r]))
  {
    UnitedPattern(rs, r);
    MeaningsSnoc(rs, r);
  }

  /** A union means the alternation of what its arguments mean, grouped from the left. */
  lemma {:induction false} UnitedMeans(rs: seq<string>)
    requires rs != [] && forall i :: 0 <= i < |rs| ==> NfaOf(rs[i]).Ok?
    ensures NfaOf(United(rs)).Ok? && Pattern(United(rs)) == Patterns.Alternation(Meanings(rs))
    decreases |rs|
  {
    var n := |rs|;
    if n == 1 {
      assert rs == [rs[0]];
      UnitedSingle(rs[0]);
    } else {
      var rs', r := rs[..n - 1], rs[n - 1];
      assert rs == rs' + [r];
      UnitedMeans(rs');
      UnitedMeansStep(rs', r);
    }
  }

  lemma ConcatenatedMeansStep(rs: seq<string>, r: string)
    requires rs != [] && forall i :: 0 <= i < |rs| ==> NfaOf(rs[i]).Ok?
    requires NfaOf(r).Ok?
    requires NfaOf(Concatenated(rs)).Ok? && Pattern(Concatenated(rs)) == Patterns.Concatenation(Meanings(rs))
    ensures NfaOf(Concatenated(rs + [r])).Ok?
    ensures forall i :: 0 <= i < |rs + [r]| ==> NfaOf((rs + [r])[i]).Ok?
    ensures Pattern(Concatenated(rs + [r])) == Patterns.Concatenation(Meanings(rs + [r]))
  {
    ConcatenatedPattern(rs, r);
    MeaningsSnoc(rs, r);
  }

  /** A concatenation means the concatenation of what its arguments mean, grouped from the
      left. */
  lemma {:induction false} ConcatenatedMeans(rs: seq<string>)
    requires rs != [] && forall i :: 0 <= i < |rs| ==> NfaOf(rs[i]).Ok?
    ensures NfaOf(Concatenated(rs)).Ok? && Pattern(Concatenated(rs)) == Patterns.Concatenation(Meanings(rs))
    decreases |rs|
  {
    var n := |rs|;
    if n == 1 {
      assert rs == [rs[0]];
      ConcatenatedSingle(rs[0]);
    } else {
      var rs', r := rs[..n - 1], rs[n - 1];
      assert rs == rs' + [r];
      ConcatenatedMeans(rs');
      ConcatenatedMeansStep(rs', r);
    }
  }

  /** A word belongs to a union exactly when it belongs to one of the arguments. */
  lemma UnitedLanguage(rs: seq<string>, w: string)
    requires rs != [] && forall i :: 0 <= i < |rs| ==> NfaOf(rs[i]).Ok?
    ensures NfaOf(United(rs)).Ok?
    ensures Patterns.Denotes(Pattern(United(rs)), w) <==>
      exists i :: 0 <= i < |rs| && Patterns.Denotes(Pattern(rs[i]), w)
  {
    var ps := Meanings(rs);
    UnitedMeans(rs);
    Patterns.AlternationLanguage(ps, w);
    assert forall i :: 0 <= i < |rs| ==> ps[i] == Pattern(rs[i]);
  }

  /** `parts` cuts `w` into one word of each argument, in order. */
  ghost predicate CutInto(rs: seq<string>, parts: seq<string>, w: string)
    requires forall i :: 0 <= i < |rs| ==> NfaOf(rs[i]).Ok?
  {
    |parts| == |rs| && Join(parts, "") == w &&
    forall i :: 0 <= i < |rs| ==> Patterns.Denotes(Pattern(rs[i]), parts[i])
  }

  lemma CutIntoFactors(rs: seq<string>, parts: seq<string>, w: string)
    requires forall i :: 0 <= i < |rs| ==> NfaOf(rs[i]).Ok?
    ensures CutInto(rs, parts, w) <==> Patterns.Factors(Meanings(rs), parts, w)
  {
    var ps := Meanings(rs);
    assert forall i :: 0 <= i < |rs| ==> ps[i] == Pattern(rs[i]);
  }

  /** A word belongs to a concatenation exactly when it can be cut into one word of each
      argument, in order. */
  lemma ConcatenatedLanguage(rs: seq<string>, w: string)
    requires rs != [] && forall i :: 0 <= i < |rs| ==> NfaOf(rs[i]).Ok?
    ensures NfaOf(Concatenated(rs)).Ok?
    ensures Patterns.Denotes(Pattern(Concatenated(rs)), w) <==> exists parts :: CutInto(rs, parts, w)
  {
    var ps := Meanings(rs);
    ConcatenatedMeans(rs);
    Patterns.ConcatenationLanguage(ps, w);
    if Patterns.Denotes(Pattern(Concatenated(rs)), w) {
      var parts :| Patterns.Factors(ps, parts, w);
      CutIntoFactors(rs, parts, w);
    }
    if exists parts :: CutInto(rs, parts, w) {
      var parts :| CutInto(rs, parts, w);
      CutIntoFactors(rs, parts, w);
    }
  }
}
