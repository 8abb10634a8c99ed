/**
 * What a pattern means. The postfix sequence that the converter of ui/lib/src/nvui/automata.ts
 * produces is read, on a stack just like the one `buildNFAFromPostfix` keeps, into a tree of
 * symbols, concatenations, alternatives, repetitions and options; `Denotes` is the set of
 * words such a tree stands for, defined independently of any automaton.
 */
module Patterns {
  import opened Tokens
  import opened Postfix
  import Text

  /** A regular expression over characters. */
  datatype Regex =
    | Sym(c: char)
    | Cat(left: Regex, right: Regex)
    | Alt(left: Regex, right: Regex)
    | Kleene(inner: Regex)
    | Opt(inner: Regex)

  /** The words a regular expression stands for: a symbol itself; a word of the left part
      followed by one of the right; a word of either side; any number of words of the inner
      part, one after the other; and the inner part's words or the empty word. */
  predicate Denotes(r: Regex, w: string)
    decreases r, |w|
  {
    match r
    case Sym(c) => w == [c]
    case Cat(a, b) => exists k :: 0 <= k <= |w| && Denotes(a, w[..k]) && Denotes(b, w[k..])
    case Alt(a, b) => Denotes(a, w) || Denotes(b, w)
    case Kleene(a) => w == [] || exists k :: 0 < k <= |w| && Denotes(a, w[..k]) && Denotes(r, w[k..])
    case Opt(a) => w == [] || Denotes(a, w)
  }

  /** All the words of `r`. */
  ghost function Words(r: Regex): iset<string> {
    iset w | Denotes(r, w)
  }

  /** A word cut in two and put back together. */
  lemma SplitJoin(w: string, j: nat)
    requires j <= |w|
    ensures w[..j] + w[j..] == w
  {
  }

  /** A word of `a` followed by a word of `b` is a word of `Cat(a, b)`. */
  lemma CatJoin(a: Regex, b: Regex, u: string, v: string)
    requires Denotes(a, u) && Denotes(b, v)
    ensures Denotes(Cat(a, b), u + v)
  {
    assert (u + v)[..|u|] == u && (u + v)[|u|..] == v;
  }

  /** One more word of `a` in front of a word of `Kleene(a)`, even an empty one. */
  lemma KleeneJoin(a: Regex, u: string, v: string)
    requires Denotes(a, u) && Denotes(Kleene(a), v)
    ensures Denotes(Kleene(a), u + v)
  {
    if u == [] {
      assert u + v == v;
    } else {
      assert (u + v)[..|u|] == u && (u + v)[|u|..] == v;
    }
  }

  /** The trees on the stack after one more postfix token: a literal pushes its symbol, each
      operator replaces its operands by their combination. An operator without enough operands
      changes nothing; the builder fails there instead. */
  function TreeStep(rs: seq<Regex>, t: Token): seq<Regex> {
    var n := |rs|;
    match t
    case Literal(c) => rs + [Sym(c)]
    case Concat => if n < 2 then rs else rs[..n - 2] + [Cat(rs[n - 2], rs[n - 1])]
    case Union => if n < 2 then rs else rs[..n - 2] + [Alt(rs[n - 2], rs[n - 1])]
    case Star => if n < 1 then rs else rs[..n - 1] + [Kleene(rs[n - 1])]
    case Optional => if n < 1 then rs else rs[..n - 1] + [Opt(rs[n - 1])]
    case LParen => rs
    case RParen => rs
  }

  /** The trees on the stack after the postfix sequence `p`. */
  function Trees(p: seq<Token>): seq<Regex>
    decreases |p|
  {
    if p == [] then [] else TreeStep(Trees(Popped(p)), Top(p))
  }

  lemma TreesPush(p: seq<Token>, t: Token)
    ensures Trees(p + [t]) == TreeStep(Trees(p), t)
  {
    assert Popped(p + [t]) == p;
  }

  /* ---------- Alternation and concatenation of several patterns ---------- */

  /** `ps[0] | ps[1] | … | ps[n - 1]`, grouped from the left. */
  function Alternation(ps: seq<Regex>): Regex
    requires ps != []
    decreases |ps|
  {
    if |ps| == 1 then ps[0] else Alt(Alternation(ps[..|ps| - 1]), ps[|ps| - 1])
  }

  /** `ps[0] ps[1] … ps[n - 1]`, grouped from the left. */
  function Concatenation(ps: seq<Regex>): Regex
    requires ps != []
    decreases |ps|
  {
    if |ps| == 1 then ps[0] else Cat(Concatenation(ps[..|ps| - 1]), ps[|ps| - 1])
  }

  /** A word of an alternation is a word of one of its patterns, and conversely. */
  lemma {:induction false} AlternationLanguage(ps: seq<Regex>, w: string)
    requires ps != []
    ensures Denotes(Alternation(ps), w) <==> exists i :: 0 <= i < |ps| && Denotes(ps[i], w)
    decreases |ps|
  {
    var n := |ps|;
    if n > 1 {
      var init := ps[..n - 1];
      AlternationLanguage(init, w);
      if exists i :: 0 <= i < n && Denotes(ps[i], w) {
        var i :| 0 <= i < n && Denotes(ps[i], w);
        if i < n - 1 {
          assert init[i] == ps[i];
        }
      }
      if exists i :: 0 <= i < n - 1 && Denotes(init[i], w) {
        var i :| 0 <= i < n - 1 && Denotes(init[i], w);
        assert ps[i] == init[i];
      }
    }
  }

  /** `w` cut into `parts`, one word of each pattern of `ps`, in order. */
  ghost predicate Factors(ps: seq<Regex>, parts: seq<string>, w: string) {
    |parts| == |ps| && Text.Join(parts, "") == w && forall i :: 0 <= i < |ps| ==> Denotes(ps[i], parts[i])
  }

  lemma JoinLast(parts: seq<string>)
    requires |parts| >= 2
    ensures Text.Join(parts, "") == Text.Join(parts[..|parts| - 1], "") + parts[|parts| - 1]
  {
    var n := |parts|;
    assert parts == parts[..n - 1] + [parts[n - 1]];
    Text.JoinSnoc(parts[..n - 1], parts[n - 1], "");
    assert Text.Join(parts[..n - 1], "") + "" == Text.Join(parts[..n - 1], "");
  }

  /** Cuts of `u` for all patterns but the last, and a word of the last, cut `u + v`. */
  lemma FactorsSnoc(ps: seq<Regex>, parts: seq<string>, u: string, v: string)
    requires |ps| >= 2 && Factors(ps[..|ps| - 1], parts, u) && Denotes(ps[|ps| - 1], v)
    ensures Factors(ps, parts + [v], u + v)
  {
    var n, all := |ps|, parts + [v];
    assert forall i :: 0 <= i < n - 1 ==> ps[..n - 1][i] == ps[i] && all[i] == parts[i];
    JoinLast(all);
    assert all[..n - 1] == parts;
  }

  /** Cuts for all patterns give cuts for all but the last. */
  lemma FactorsInit(ps: seq<Regex>, parts: seq<string>, w: string)
    requires |ps| >= 2 && Factors(ps, parts, w)
    ensures Factors(ps[..|ps| - 1], parts[..|ps| - 1], Text.Join(parts[..|ps| - 1], ""))
    ensures w == Text.Join(parts[..|ps| - 1], "") + parts[|ps| - 1]
  {
    var n := |ps|;
    assert forall i :: 0 <= i < n - 1 ==> ps[..n - 1][i] == ps[i] && parts[..n - 1][i] == parts[i];
    JoinLast(parts);
  }

  /** A word of a concatenation can be cut into one word of each of its patterns. */
  lemma {:induction false} ConcatenationSplits(ps: seq<Regex>, w: string)
    requires ps != [] && Denotes(Concatenation(ps), w)
    ensures exists parts :: Factors(ps, parts, w)
    decreases |ps|
  {
    var n := |ps|;
    if n == 1 {
      assert Factors(ps, [w], w);
    } else {
      var init := ps[..n - 1];
      var k :| 0 <= k <= |w| && Denotes(Concatenation(init), w[..k]) && Denotes(ps[n - 1], w[k..]);
      ConcatenationSplits(init, w[..k]);
      var parts :| Factors(init, parts, w[..k]);
      FactorsSnoc(ps, parts, w[..k], w[k..]);
      SplitJoin(w, k);
    }
  }

  /** One word of each pattern, in order, make a word of their concatenation. */
  lemma {:induction false} ConcatenationJoins(ps: seq<Regex>, parts: seq<string>, w: string)
    requires ps != [] && Factors(ps, parts, w)
    ensures Denotes(Concatenation(ps), w)
    decreases |ps|
  {
    var n := |ps|;
    if n > 1 {
      var init := ps[..n - 1];
      FactorsInit(ps, parts, w);
      var u := Text.Join(parts[..n - 1], "");
      ConcatenationJoins(init, parts[..n - 1], u);
      CatJoin(Concatenation(init), ps[n - 1], u, parts[n - 1]);
    }
  }

  /** A word of a concatenation is one word of each of its patterns, in order, and
      conversely. */
  lemma ConcatenationLanguage(ps: seq<Regex>, w: string)
    requires ps != []
    ensures Denotes(Concatenation(ps), w) <==> exists parts :: Factors(ps, parts, w)
  {
    if Denotes(Concatenation(ps), w) {
      ConcatenationSplits(ps, w);
    }
    if exists parts :: Factors(ps, parts, w) {
      var parts :| Factors(ps, parts, w);
      ConcatenationJoins(ps, parts, w);
    }
  }
}
