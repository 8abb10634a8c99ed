/**
 * The first two stages of the pattern compiler of ui/lib/src/nvui/automata.ts: the tokenizer,
 * which resolves backslash escapes, and the pass that makes concatenation explicit.  The two atom
 * tests they share with the postfix converter live here as well.
 */
module Tokens {
  import opened Wrappers

  /** One lexical unit of a pattern. */
  datatype Token = Literal(value: char) | Union | Concat | Star | Optional | LParen | RParen

  /** The errors the compiler raises, one per message of the source. */
  datatype CompileError =
    | EmptyRegex                // the pattern is the empty string
    | TrailingBackslash         // a backslash with nothing left to escape
    | InvalidStarUsage          // '*' without an operand before it
    | InvalidOptionalUsage      // '?' without an operand before it
    | MismatchedParentheses     // a ')' without '(' or a '(' never closed
    | OperatorAtBoundary        // '|' or a concatenation first or last
    | InvalidOperatorPlacement  // '|' or a concatenation between non-operands
    | InvalidConcatenation      // the NFA builder found fewer than two fragments
    | InvalidUnion              // the NFA builder found fewer than two fragments
    | InvalidKleeneStar         // the NFA builder found no fragment
    | InvalidOptionalOperand    // the NFA builder found no fragment
    | InvalidExpression         // the NFA builder did not end with exactly one fragment

  // ---------------------------------------------------------------------------------------------
  // Tokenizer
  // ---------------------------------------------------------------------------------------------

  /** The token an unescaped character stands for. */
  function CharToken(ch: char): Token {
    if ch == '|' then Union
    else if ch == '*' then Star
    else if ch == '?' then Optional
    else if ch == '(' then LParen
    else if ch == ')' then RParen
    else Literal(ch)
  }

  /** `r` with the tokens `ts` in front of its value; an error passes through unchanged. */
  function Prefixed(ts: seq<Token>, r: Result<seq<Token>, CompileError>): Result<seq<Token>, CompileError> {
    if r.Ok? then Ok(ts + r.value) else r
  }

  lemma PrefixedEmpty(ts: seq<Token>)
    ensures Prefixed(ts, Ok([])) == Ok(ts)
  {
    assert ts + [] == ts;
  }

  lemma PrefixedTwice(ts: seq<Token>, us: seq<Token>, r: Result<seq<Token>, CompileError>)
    ensures Prefixed(ts, Prefixed(us, r)) == Prefixed(ts + us, r)
  {
    if r.Ok? {
      assert ts + (us + r.value) == (ts + us) + r.value;
    }
  }

  /** The left-to-right scan of the tokenizer: a backslash turns the next character into a literal. */
  function Scan(s: string): Result<seq<Token>, CompileError>
    decreases |s|
  {
    if s == [] then Ok([])
    else if s[0] == '\\' then
      if |s| == 1 then Err(TrailingBackslash) else Prefixed([Literal(s[1])], Scan(s[2..]))
    else Prefixed([CharToken(s[0])], Scan(s[1..]))
  }

  /** What the tokenizer produces for a whole pattern: the empty pattern is refused first. */
  function Tokenized(s: string): Result<seq<Token>, CompileError> {
    if |s| == 0 then Err(EmptyRegex) else Scan(s)
  }

  /** The tokenizer's index loop. */
  method Tokenize(regex: string) returns (r: Result<seq<Token>, CompileError>)
    ensures r == Tokenized(regex)
  {
    if |regex| == 0 {
      return Err(EmptyRegex);
    }
    var tokens: seq<Token> := [];
    var i := 0;
    assert regex[0..] == regex;
    assert Scan(regex) == Prefixed(tokens, Scan(regex[0..])) by {
      var r := Scan(regex);
      assert r.Ok? ==> [] + r.value == r.value;
    }
    while i < |regex|
      invariant 0 <= i <= |regex|
      invariant Scan(regex) == Prefixed(tokens, Scan(regex[i..]))
    {
      var ch := regex[i];
      if ch == '\\' {
        if i == |regex| - 1 {
          return Err(TrailingBackslash);
        }
        ghost var rest := regex[i + 2..];
        assert regex[i..][2..] == rest;
        assert Scan(regex[i..]) == Prefixed([Literal(regex[i + 1])], Scan(rest));
        PrefixedTwice(tokens, [Literal(regex[i + 1])], Scan(rest));
        i := i + 1;
        tokens := tokens + [Literal(regex[i])];
      } else {
        ghost var rest := regex[i + 1..];
        assert regex[i..][1..] == rest;
        assert Scan(regex[i..]) == Prefixed([CharToken(ch)], Scan(rest));
        PrefixedTwice(tokens, [CharToken(ch)], Scan(rest));
        if ch == '|' {
          tokens := tokens + [Union];
        } else if ch == '*' {
          tokens := tokens + [Star];
        } else if ch == '?' {
          tokens := tokens + [Optional];
        } else if ch == '(' {
          tokens := tokens + [LParen];
        } else if ch == ')' {
          tokens := tokens + [RParen];
        } else {
          tokens := tokens + [Literal(ch)];
        }
      }
      i := i + 1;
    }
    assert regex[i..] == [];
    PrefixedEmpty(tokens);
    return Ok(tokens);
  }

  /** The number of backslashes `s` ends with. */
  function TrailingBackslashes(s: string): nat
    decreases |s|
  {
    if s != [] && s[|s| - 1] == '\\' then 1 + TrailingBackslashes(s[..|s| - 1]) else 0
  }

  /** `s` ends with a backslash that escapes nothing: its final run of backslashes is odd. */
  predicate DanglingEscape(s: string) {
    TrailingBackslashes(s) % 2 == 1
  }

  lemma TrailingBackslashesBound(s: string)
    ensures TrailingBackslashes(s) <= |s|
    decreases |s|
  {
    if s != [] && s[|s| - 1] == '\\' {
      TrailingBackslashesBound(s[..|s| - 1]);
    }
  }

  lemma {:induction false} TrailingBackslashesCons(x: char, t: string)
    ensures TrailingBackslashes([x] + t) ==
      if x == '\\' && TrailingBackslashes(t) == |t| then |t| + 1 else TrailingBackslashes(t)
    decreases |t|
  {
    var s := [x] + t;
    if t == [] {
      assert s[..|s| - 1] == [];
    } else {
      assert s[..|s| - 1] == [x] + t[..|t| - 1];
      if t[|t| - 1] == '\\' {
        TrailingBackslashesCons(x, t[..|t| - 1]);
      }
    }
  }

  /** The tokenizer fails exactly on the empty pattern and on a dangling escape, with those errors. */
  lemma {:induction false} TokenizeFailures(s: string)
    ensures Tokenized(s).Err? <==> |s| == 0 || DanglingEscape(s)
    ensures |s| == 0 ==> Tokenized(s) == Err(EmptyRegex)
    ensures |s| > 0 && DanglingEscape(s) ==> Tokenized(s) == Err(TrailingBackslash)
  {
    if |s| > 0 {
      ScanFailures(s);
    }
  }

  lemma {:induction false} ScanFailures(s: string)
    ensures Scan(s).Err? <==> DanglingEscape(s)
    ensures Scan(s).Err? ==> Scan(s).error == TrailingBackslash
    decreases |s|
  {
    if s == [] {
    } else if s[0] == '\\' {
      if |s| == 1 {
        TrailingBackslashesCons(s[0], s[1..]);
        assert s == [s[0]] + s[1..];
      } else {
        var t := s[2..];
        ScanFailures(t);
        TrailingBackslashesBound(t);
        TrailingBackslashesCons(s[1], t);
        TrailingBackslashesCons(s[0], [s[1]] + t);
        assert s == [s[0]] + ([s[1]] + t);
      }
    } else {
      ScanFailures(s[1..]);
      TrailingBackslashesCons(s[0], s[1..]);
      assert s == [s[0]] + s[1..];
    }
  }

  /** Every character yields at most one token; without backslashes exactly one each. */
  lemma {:induction false} TokenCount(s: string)
    ensures Scan(s).Ok? ==> |Scan(s).value| <= |s|
    ensures '\\' !in s ==> Scan(s).Ok? && |Scan(s).value| == |s|
    decreases |s|
  {
    if s == [] {
    } else if s[0] == '\\' {
      if |s| > 1 {
        TokenCount(s[2..]);
      }
    } else {
      assert '\\' !in s ==> '\\' !in s[1..];
      TokenCount(s[1..]);
    }
  }

  /** Without backslashes each character becomes the token `CharToken` gives it, in order. */
  lemma {:induction false} UnescapedScan(s: string)
    requires '\\' !in s
    ensures Scan(s).Ok? && |Scan(s).value| == |s|
    ensures forall i :: 0 <= i < |s| ==> Scan(s).value[i] == CharToken(s[i])
    decreases |s|
  {
    if s != [] {
      assert '\\' !in s[1..];
      UnescapedScan(s[1..]);
      ScanHead(s);
      assert Scan(s).value == [CharToken(s[0])] + Scan(s[1..]).value;
      forall i | 1 <= i < |s|
        ensures Scan(s).value[i] == CharToken(s[i])
      {
        assert s[1..][i - 1] == s[i];
      }
    }
  }

  /** Scanning one token's worth of text at the front of `s`. */
  lemma ScanHead(s: string)
    requires s != []
    ensures s[0] == '\\' && |s| > 1 ==> Scan(s) == Prefixed([Literal(s[1])], Scan(s[2..]))
    ensures s[0] != '\\' ==> Scan(s) == Prefixed([CharToken(s[0])], Scan(s[1..]))
  {
  }

  /** Scanning distributes over concatenation once the first part has no dangling escape. */
  lemma {:induction false} ScanAppend(a: string, b: string)
    requires Scan(a).Ok?
    ensures Scan(a + b) == Prefixed(Scan(a).value, Scan(b))
    decreases |a|
  {
    if a == [] {
      assert a + b == b;
      assert Scan(b).Ok? ==> [] + Scan(b).value == Scan(b).value;
    } else if a[0] == '\\' {
      assert (a + b)[2..] == a[2..] + b;
      ScanAppend(a[2..], b);
      ScanHead(a + b);
      PrefixedTwice([Literal(a[1])], Scan(a[2..]).value, Scan(b));
    } else {
      assert (a + b)[1..] == a[1..] + b;
      ScanAppend(a[1..], b);
      ScanHead(a + b);
      PrefixedTwice([CharToken(a[0])], Scan(a[1..]).value, Scan(b));
    }
  }

  /** An escaped character anywhere after a cleanly scanned prefix becomes a literal carrying it. */
  lemma EscapedCharacterIsLiteral(a: string, c: char, b: string)
    requires Scan(a).Ok?
    ensures Scan(a + ['\\', c] + b) == Prefixed(Scan(a).value + [Literal(c)], Scan(b))
  {
    var e: string := ['\\', c];
    assert Scan(e) == Ok([Literal(c)]) by {
      assert e[2..] == [];
      PrefixedEmpty([Literal(c)]);
    }
    ScanAppend(e, b);
    ScanAppend(a, e + b);
    assert a + e + b == a + (e + b);
    PrefixedTwice(Scan(a).value, [Literal(c)], Scan(b));
  }

  /** The characters that stand for themselves only when escaped. */
  const Specials: set<char> := {'|', '*', '?', '(', ')', '\\'}

  predicate ConcatFree(ts: seq<Token>) {
    forall i :: 0 <= i < |ts| ==> !ts[i].Concat?
  }

  /** A pattern text for one token; literals that are operator characters get a backslash. */
  function Spelling(t: Token): string
    requires !t.Concat?
  {
    match t
    case Literal(c) => if c in Specials then ['\\', c] else [c]
    case Union => "|"
    case Star => "*"
    case Optional => "?"
    case LParen => "("
    case RParen => ")"
  }

  /** A pattern text for a token sequence: the inverse direction of the tokenizer. */
  function Spelled(ts: seq<Token>): string
    requires ConcatFree(ts)
    decreases |ts|
  {
    if ts == [] then "" else Spelling(ts[0]) + Spelled(ts[1..])
  }

  /** Round trip: tokenizing the spelling of any token sequence without concatenations gives it back. */
  lemma {:induction false} TokenizeInvertsSpelling(ts: seq<Token>)
    requires ConcatFree(ts)
    ensures ts != [] ==> Tokenized(Spelled(ts)) == Ok(ts)
    ensures Scan(Spelled(ts)) == Ok(ts)
    decreases |ts|
  {
    if ts != [] {
      var w := Spelling(ts[0]);
      assert Scan(w) == Ok([ts[0]]) by {
        PrefixedEmpty([ts[0]]);
        if ts[0].Literal? && ts[0].value in Specials {
          assert w[2..] == [];
        } else {
          assert w[1..] == [];
        }
      }
      TokenizeInvertsSpelling(ts[1..]);
      ScanAppend(w, Spelled(ts[1..]));
      assert [ts[0]] + ts[1..] == ts;
    }
  }

  // ---------------------------------------------------------------------------------------------
  // Atom tests and explicit concatenation
  // ---------------------------------------------------------------------------------------------

  /** Tokens that can end an operand. */
  predicate IsAtomEnd(t: Token) {
    t.Literal? || t.RParen? || t.Star? || t.Optional?
  }

  /** Tokens that can start an operand. */
  predicate IsAtomStart(t: Token) {
    t.Literal? || t.LParen?
  }

  /** Juxtaposed operands: the inserter puts a concatenation between `a` and `b`. */
  predicate NeedsConcat(a: Token, b: Token) {
    IsAtomEnd(a) && IsAtomStart(b)
  }

  /** The token sequence with every implicit concatenation made explicit. */
  function WithConcatenation(ts: seq<Token>): seq<Token>
    decreases |ts|
  {
    if |ts| <= 1 then ts
    else [ts[0]] + (if NeedsConcat(ts[0], ts[1]) then [Concat] else []) + WithConcatenation(ts[1..])
  }

  /** What the inserter emits for token `i`: the token, then a concatenation if the next token
      needs one. */
  function Emitted(ts: seq<Token>, i: nat): seq<Token>
    requires i < |ts|
  {
    [ts[i]] + (if i < |ts| - 1 && NeedsConcat(ts[i], ts[i + 1]) then [Concat] else [])
  }

  lemma WithConcatenationAt(ts: seq<Token>, i: nat)
    requires i < |ts|
    ensures WithConcatenation(ts[i..]) == Emitted(ts, i) + WithConcatenation(ts[i + 1..])
  {
    if i < |ts| - 1 {
      assert ts[i..][1..] == ts[i + 1..];
    } else {
      assert ts[i + 1..] == [];
    }
  }

  /** One round of the inserter's loop keeps its invariant. */
  lemma InsertStep(ts: seq<Token>, i: nat, before: seq<Token>, after: seq<Token>)
    requires i < |ts| && before + WithConcatenation(ts[i..]) == WithConcatenation(ts)
    requires after == before + [ts[i]] + (if i < |ts| - 1 && NeedsConcat(ts[i], ts[i + 1]) then [Concat] else [])
    ensures after + WithConcatenation(ts[i + 1..]) == WithConcatenation(ts)
  {
    WithConcatenationAt(ts, i);
    var emitted, later := Emitted(ts, i), WithConcatenation(ts[i + 1..]);
    assert after == before + emitted;
    AppendAssociative(before, emitted, later);
  }

  lemma AppendAssociative(a: seq<Token>, b: seq<Token>, c: seq<Token>)
    ensures (a + b) + c == a + (b + c)
  {
  }

  /** The inserter's index loop. */
  method InsertExplicitConcatenation(tokens: seq<Token>) returns (result: seq<Token>)
    ensures result == WithConcatenation(tokens)
  {
    result := [];
    var i := 0;
    while i < |tokens|
      invariant 0 <= i <= |tokens|
      invariant result + WithConcatenation(tokens[i..]) == WithConcatenation(tokens)
    {
      var current := tokens[i];
      ghost var before := result;
      result := result + [current];
      if i < |tokens| - 1 {
        var next := tokens[i + 1];
        if IsAtomEnd(current) && IsAtomStart(next) {
          result := result + [Concat];
        }
      }
      InsertStep(tokens, i, before, result);
      i := i + 1;
    }
    assert tokens[i..] == [];
  }

  /** The tokens that are not concatenations, in order. */
  function WithoutConcat(ts: seq<Token>): seq<Token>
    decreases |ts|
  {
    if ts == [] then [] else (if ts[0].Concat? then [] else [ts[0]]) + WithoutConcat(ts[1..])
  }

  lemma {:induction false} WithoutConcatAppend(a: seq<Token>, b: seq<Token>)
    ensures WithoutConcat(a + b) == WithoutConcat(a) + WithoutConcat(b)
    decreases |a|
  {
    if a == [] {
      assert a + b == b;
    } else {
      assert (a + b)[1..] == a[1..] + b;
      WithoutConcatAppend(a[1..], b);
    }
  }

  lemma {:induction false} WithoutConcatOfConcatFree(ts: seq<Token>)
    requires ConcatFree(ts)
    ensures WithoutConcat(ts) == ts
    decreases |ts|
  {
    if ts != [] {
      WithoutConcatOfConcatFree(ts[1..]);
    }
  }

  /** Only concatenations are inserted and the other tokens keep their order: removing the
      concatenations after insertion gives what removing them before gives (the input itself
      when it had none). */
  lemma {:induction false} ConcatenationIsRemovable(ts: seq<Token>)
    ensures WithoutConcat(WithConcatenation(ts)) == WithoutConcat(ts)
    ensures ConcatFree(ts) ==> WithoutConcat(WithConcatenation(ts)) == ts
    decreases |ts|
  {
    if |ts| > 1 {
      var sep := if NeedsConcat(ts[0], ts[1]) then [Concat] else [];
      ConcatenationIsRemovable(ts[1..]);
      WithoutConcatAppend([ts[0]] + sep, WithConcatenation(ts[1..]));
      WithoutConcatAppend([ts[0]], sep);
      assert WithoutConcat(sep) == [];
      assert ts == [ts[0]] + ts[1..];
      WithoutConcatAppend([ts[0]], ts[1..]);
    }
    if ConcatFree(ts) {
      WithoutConcatOfConcatFree(ts);
    }
  }

  lemma WithConcatenationHead(ts: seq<Token>)
    requires ts != []
    ensures WithConcatenation(ts) != [] && WithConcatenation(ts)[0] == ts[0]
  {
  }

  /** After insertion no two neighbouring tokens are juxtaposed operands. */
  lemma {:induction false} ConcatenationComplete(ts: seq<Token>)
    ensures forall i :: 0 <= i < |WithConcatenation(ts)| - 1 ==>
      !NeedsConcat(WithConcatenation(ts)[i], WithConcatenation(ts)[i + 1])
    decreases |ts|
  {
    if |ts| > 1 {
      var out := WithConcatenation(ts);
      var rest := WithConcatenation(ts[1..]);
      var sep := if NeedsConcat(ts[0], ts[1]) then [Concat] else [];
      ConcatenationComplete(ts[1..]);
      WithConcatenationHead(ts[1..]);
      assert out == [ts[0]] + sep + rest;
      forall i | 0 <= i < |out| - 1
        ensures !NeedsConcat(out[i], out[i + 1])
      {
        if i >= 1 + |sep| {
          assert out[i] == rest[i - 1 - |sep|] && out[i + 1] == rest[i - |sep|];
        }
      }
    }
  }

  /** How many concatenations the inserter puts before the token `ts[i]`. */
  function ConcatsBefore(ts: seq<Token>, i: nat): nat
    requires i < |ts|
  {
    if i == 0 then 0 else ConcatsBefore(ts, i - 1) + (if NeedsConcat(ts[i - 1], ts[i]) then 1 else 0)
  }

  lemma {:induction false} ConcatsBeforeShift(ts: seq<Token>, i: nat)
    requires 1 <= i < |ts|
    ensures ConcatsBefore(ts, i) ==
      (if NeedsConcat(ts[0], ts[1]) then 1 else 0) + ConcatsBefore(ts[1..], i - 1)
  {
    if i > 1 {
      ConcatsBeforeShift(ts, i - 1);
    }
  }

  /** The output is as long as the input plus the concatenations put before its last token. */
  lemma {:induction false} ConcatenationLength(ts: seq<Token>)
    requires ts != []
    ensures |WithConcatenation(ts)| == |ts| + ConcatsBefore(ts, |ts| - 1)
    decreases |ts|
  {
    if |ts| > 1 {
      ConcatenationLength(ts[1..]);
      ConcatsBeforeShift(ts, |ts| - 1);
    }
  }

  /** Input token `i` lands at `i + ConcatsBefore(ts, i)` in the output. */
  lemma {:induction false} ConcatenationKeepsTokens(ts: seq<Token>, i: nat)
    requires i < |ts|
    ensures i + ConcatsBefore(ts, i) < |WithConcatenation(ts)|
    ensures WithConcatenation(ts)[i + ConcatsBefore(ts, i)] == ts[i]
    decreases |ts|
  {
    ConcatenationLength(ts);
    if i > 0 {
      var sep := if NeedsConcat(ts[0], ts[1]) then [Concat] else [];
      assert WithConcatenation(ts) == [ts[0]] + sep + WithConcatenation(ts[1..]);
      ConcatsBeforeShift(ts, i);
      ConcatenationKeepsTokens(ts[1..], i - 1);
      assert ts[1..][i - 1] == ts[i];
    }
  }

  /** Between input tokens `i` and `i + 1` the output holds a concatenation exactly when they are
      juxtaposed operands, and nothing otherwise: the two positions then differ by two, else by one. */
  lemma {:induction false} ConcatenationBetween(ts: seq<Token>, i: nat)
    requires i + 1 < |ts|
    ensures i + 1 + ConcatsBefore(ts, i + 1) ==
      i + ConcatsBefore(ts, i) + (if NeedsConcat(ts[i], ts[i + 1]) then 2 else 1)
    ensures NeedsConcat(ts[i], ts[i + 1]) ==>
      i + ConcatsBefore(ts, i) + 1 < |WithConcatenation(ts)| &&
      WithConcatenation(ts)[i + ConcatsBefore(ts, i) + 1] == Concat
    decreases |ts|
  {
    ConcatenationKeepsTokens(ts, i + 1);
    var sep := if NeedsConcat(ts[0], ts[1]) then [Concat] else [];
    assert WithConcatenation(ts) == [ts[0]] + sep + WithConcatenation(ts[1..]);
    if i > 0 {
      ConcatsBeforeShift(ts, i);
      ConcatenationBetween(ts[1..], i - 1);
      assert ts[1..][i - 1] == ts[i] && ts[1..][i] == ts[i + 1];
    }
  }
}
