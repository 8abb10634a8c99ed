/**
 * The two string builders the compiler and the combinators rely on: the decimal spelling of a
 * number, as JavaScript's `String(n)` gives it for a non-negative integer, and `Array.join`.
 */
module Text {

  function Digit(d: nat): char
    requires d < 10
  {
    ('0' as int + d) as char
  }

  predicate IsDigit(c: char) {
    '0' <= c <= '9'
  }

  function DigitValue(c: char): nat
    requires IsDigit(c)
  {
    c as int - '0' as int
  }

  /** The decimal spelling of `n`, most significant digit first, without leading zeros. */
  function NatToString(n: nat): string
    decreases n
  {
    if n < 10 then [Digit(n)] else NatToString(n / 10) + [Digit(n % 10)]
  }

  /** The number a string of decimal digits denotes. */
  function ParseNat(s: string): nat
    requires forall i :: 0 <= i < |s| ==> IsDigit(s[i])
    decreases |s|
  {
    if s == [] then 0 else ParseNat(s[..|s| - 1]) * 10 + DigitValue(s[|s| - 1])
  }

  /** The spelling is a non-empty run of digits that reads back as `n`. */
  lemma {:induction false} NatToStringParses(n: nat)
    ensures NatToString(n) != []
    ensures forall i :: 0 <= i < |NatToString(n)| ==> IsDigit(NatToString(n)[i])
    ensures ParseNat(NatToString(n)) == n
    decreases n
  {
    if n >= 10 {
      NatToStringParses(n / 10);
      var s := NatToString(n);
      assert s[..|s| - 1] == NatToString(n / 10);
    }
  }

  /** Distinct numbers are spelled differently. */
  lemma NatToStringInjective(a: nat, b: nat)
    ensures NatToString(a) == NatToString(b) ==> a == b
  {
    NatToStringParses(a);
    NatToStringParses(b);
  }

  /** The pieces `xs` with `sep` between neighbours: `Array.prototype.join`. */
  function Join(xs: seq<string>, sep: string): string
    decreases |xs|
  {
    if xs == [] then ""
    else if |xs| == 1 then xs[0]
    else xs[0] + sep + Join(xs[1..], sep)
  }

  /** Joining one more piece puts the separator and the piece at the end. */
  lemma {:induction false} JoinSnoc(xs: seq<string>, x: string, sep: string)
    requires xs != []
    ensures Join(xs + [x], sep) == Join(xs, sep) + sep + x
    decreases |xs|
  {
    var ys := xs + [x];
    if |xs| == 1 {
      assert ys[1..] == [x];
    } else {
      assert ys[1..] == xs[1..] + [x];
      JoinSnoc(xs[1..], x, sep);
    }
  }

  /** The total length of the pieces. */
  function TotalLength(xs: seq<string>): nat
    decreases |xs|
  {
    if xs == [] then 0 else |xs[0]| + TotalLength(xs[1..])
  }

  /** A join is as long as its pieces plus one separator between each two neighbours. */
  lemma {:induction false} JoinLength(xs: seq<string>, sep: string)
    ensures |Join(xs, sep)| == TotalLength(xs) + (if xs == [] then 0 else (|xs| - 1) * |sep|)
    decreases |xs|
  {
    if |xs| > 1 {
      JoinLength(xs[1..], sep);
    }
  }

  /** Joining with the empty separator is plain concatenation. */
  lemma {:induction false} JoinEmptySeparator(xs: seq<string>)
    ensures xs != [] ==> Join(xs, "") == xs[0] + Join(xs[1..], "")
  {
    if |xs| == 1 {
      assert xs[1..] == [];
      assert xs[0] + "" == xs[0];
    }
  }

  /** A piece with no character `c` in it. */
  predicate Field(x: string, c: char) {
    x != [] && c !in x
  }

  /** The position of the first `c` in `s`, or `|s|` when there is none. */
  function FirstIndex(s: string, c: char): (i: nat)
    ensures i <= |s|
    decreases |s|
  {
    if s == [] || s[0] == c then 0 else 1 + FirstIndex(s[1..], c)
  }

  lemma {:induction false} FirstIndexAfter(x: string, t: string, c: char)
    requires c !in x
    ensures FirstIndex(x + [c] + t, c) == |x|
    decreases |x|
  {
    if x != [] {
      assert (x + [c] + t)[1..] == x[1..] + [c] + t;
      FirstIndexAfter(x[1..], t, c);
    }
  }

  lemma {:induction false} FirstIndexAbsent(x: string, c: char)
    requires c !in x
    ensures FirstIndex(x, c) == |x|
    decreases |x|
  {
    if x != [] {
      FirstIndexAbsent(x[1..], c);
    }
  }

  /** The fields of `s` between occurrences of `c`: the inverse of joining with `[c]`. */
  function Split(s: string, c: char): seq<string>
    decreases |s|
  {
    if s == [] then []
    else
      var i := FirstIndex(s, c);
      if i == |s| then [s] else [s[..i]] + Split(s[i + 1..], c)
  }

  /** Splitting a join of non-empty pieces free of the separator character gives the pieces back. */
  lemma {:induction false} SplitJoin(xs: seq<string>, c: char)
    requires forall i :: 0 <= i < |xs| ==> Field(xs[i], c)
    ensures Split(Join(xs, [c]), c) == xs
    decreases |xs|
  {
    if |xs| == 1 {
      FirstIndexAbsent(xs[0], c);
    } else if |xs| > 1 {
      var x, t := xs[0], Join(xs[1..], [c]);
      var s := x + [c] + t;
      FirstIndexAfter(x, t, c);
      assert s[..|x|] == x && s[|x| + 1..] == t;
      SplitJoin(xs[1..], c);
      assert xs == [x] + xs[1..];
    }
  }

  /** Joining non-empty pieces free of the separator character loses nothing: the pieces are
      determined by the joined string. */
  lemma JoinInjective(xs: seq<string>, ys: seq<string>, c: char)
    requires forall i :: 0 <= i < |xs| ==> Field(xs[i], c)
    requires forall i :: 0 <= i < |ys| ==> Field(ys[i], c)
    requires Join(xs, [c]) == Join(ys, [c])
    ensures xs == ys
  {
    SplitJoin(xs, c);
    SplitJoin(ys, c);
  }
}
