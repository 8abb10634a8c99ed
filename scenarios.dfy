/**
 * Three patterns run through the whole compiler by hand: "a|b", "a*" and "(a|b)*abb". Each is
 * tokenized, given its explicit concatenations, converted to postfix and read as a tree; the
 * automaton `regexToDFA` of ui/lib/src/nvui/automata.ts builds for it then accepts exactly the
 * words listed for it here and rejects the others named.
 */
module Scenarios {
  import opened Wrappers
  import opened Tokens
  import opened Postfix
  import opened Thompson
  import opened Patterns
  import opened Subset
  import opened Compiler
  import Combinators

  /** One pass of the converter's loop, taken on its own. */
  lemma ConvertThrough(ts: seq<Token>, i: nat, o: seq<Token>, s: seq<Token>, o': seq<Token>, s': seq<Token>)
    requires i < |ts| && ConvertStep(ts, i, o, s) == Ok((o', s'))
    ensures ConvertFrom(ts, i, o, s) == ConvertFrom(ts, i + 1, o', s')
  {
  }

  // ---------------------------------------------------------------------------------------------
  // "a|b"
  // ---------------------------------------------------------------------------------------------

  lemma AltTokens()
    ensures Tokenized("a|b") == Ok([Literal('a'), Union, Literal('b')])
  {
    var regex := "a|b";
    UnescapedScan(regex);
    var v := Scan(regex).value;
    assert v[0] == Literal('a') && v[1] == Union && v[2] == Literal('b');
    var ts: seq<Token> := [Literal('a'), Union, Literal('b')];
    assert v == ts;
  }

  lemma AltPostfix()
    ensures Postfix.Postfix(WithConcatenation([Literal('a'), Union, Literal('b')])) == Ok([Literal('a'), Literal('b'), Union])
  {
    var ts: seq<Token> := [Literal('a'), Union, Literal('b')];
    assert ts[1..] == [Union, Literal('b')] && ts[1..][1..] == [Literal('b')];
    assert WithConcatenation(ts) == ts;
    var e: seq<Token> := [];
    var a: seq<Token> := [Literal('a')];
    var ab: seq<Token> := [Literal('a'), Literal('b')];
    var u: seq<Token> := [Union];
    var p: seq<Token> := [Literal('a'), Literal('b'), Union];
    assert e + [Literal('a')] == a;
    ConvertThrough(ts, 0, e, e, a, e);
    assert PopBinding(a, e, 1) == (a, e) && e + [Union] == u;
    ConvertThrough(ts, 1, a, e, a, u);
    assert a + [Literal('b')] == ab;
    ConvertThrough(ts, 2, a, u, ab, u);
    assert ab + [Union] == p;
    assert Flush(ab, u) == Flush(p, e);
  }

  /** "a|b" compiles, to the alternative of its two symbols. */
  lemma AltPattern()
    ensures NfaOf("a|b").Ok? && Pattern("a|b") == Alt(Sym('a'), Sym('b'))
  {
    AltTokens();
    AltPostfix();
    var p: seq<Token> := [Literal('a'), Literal('b'), Union];
    assert PostfixOf("a|b") == Ok(p);
    assert Trees(p) == [Alt(Sym('a'), Sym('b'))];
  }

  /** The automaton of "a|b" accepts "a" and "b" and nothing longer or shorter. */
  lemma AltScenario(dfa: Dfa)
    requires CompiledFrom("a|b", dfa)
    ensures DfaAccepts(dfa, "a") && DfaAccepts(dfa, "b")
    ensures !DfaAccepts(dfa, "ab") && !DfaAccepts(dfa, "")
  {
    AltPattern();
    CompiledLanguage("a|b", dfa, "a");
    CompiledLanguage("a|b", dfa, "b");
    CompiledLanguage("a|b", dfa, "ab");
    CompiledLanguage("a|b", dfa, "");
  }

  // ---------------------------------------------------------------------------------------------
  // "a*"
  // ---------------------------------------------------------------------------------------------

  lemma StarTokens()
    ensures Tokenized("a*") == Ok([Literal('a'), Star])
  {
    var regex := "a*";
    UnescapedScan(regex);
    var v := Scan(regex).value;
    assert v[0] == Literal('a') && v[1] == Star;
    var ts: seq<Token> := [Literal('a'), Star];
    assert v == ts;
  }

  /** "a*" compiles, to the repetition of its symbol. */
  lemma StarPattern()
    ensures NfaOf("a*").Ok? && Pattern("a*") == Kleene(Sym('a'))
  {
    StarTokens();
    var ts: seq<Token> := [Literal('a'), Star];
    assert ts[1..] == [Star];
    assert WithConcatenation(ts) == ts;
    var e: seq<Token> := [];
    var a: seq<Token> := [Literal('a')];
    var p: seq<Token> := [Literal('a'), Star];
    assert e + [Literal('a')] == a;
    ConvertThrough(ts, 0, e, e, a, e);
    assert a + [Star] == p;
    ConvertThrough(ts, 1, a, e, p, e);
    assert PostfixOf("a*") == Ok(p);
    assert Trees(p) == [Kleene(Sym('a'))];
  }

  /** The automaton of "a*" accepts the empty word and "aa", and rejects "b". */
  lemma StarScenario(dfa: Dfa)
    requires CompiledFrom("a*", dfa)
    ensures DfaAccepts(dfa, "") && DfaAccepts(dfa, "aa") && !DfaAccepts(dfa, "b")
  {
    StarPattern();
    var r := Kleene(Sym('a'));
    assert Denotes(r, []);
    KleeneJoin(Sym('a'), "a", []);
    KleeneJoin(Sym('a'), "a", "a");
    assert "a" + [] == "a" && "a" + "a" == "aa";
    CompiledLanguage("a*", dfa, "");
    CompiledLanguage("a*", dfa, "aa");
    CompiledLanguage("a*", dfa, "b");
  }

  // ---------------------------------------------------------------------------------------------
  // "(a|b)*abb"
  // ---------------------------------------------------------------------------------------------

  /** The tokens of "(a|b)" and of "*abb". */
  function GroupTokens(): seq<Token> { [LParen, Literal('a'), Union, Literal('b'), RParen] }
  function TailTokens(): seq<Token> { [Star, Literal('a'), Literal('b'), Literal('b')] }

  /** The tokens of "*abb" with their concatenations made explicit. */
  function TailConcatenated(): seq<Token> { [Star, Concat, Literal('a'), Concat, Literal('b'), Concat, Literal('b')] }

  /** The tokens the converter sees for "(a|b)*abb". */
  function ExampleTokens(): seq<Token> { GroupTokens() + TailConcatenated() }

  /** The postfix form of "(a|b)*abb". */
  function ExamplePostfix(): seq<Token> {
    [Literal('a'), Literal('b'), Union, Star, Literal('a'), Concat, Literal('b'), Concat, Literal('b'), Concat]
  }

  /** The tree of "(a|b)*abb": concatenation groups to the left. */
  function ExampleTree(): Regex {
    Cat(Cat(Cat(Kleene(Alt(Sym('a'), Sym('b'))), Sym('a')), Sym('b')), Sym('b'))
  }

  lemma ScanGroup()
    ensures Scan("(a|b)") == Ok(GroupTokens())
  {
    var regex := "(a|b)";
    UnescapedScan(regex);
    var v := Scan(regex).value;
    assert v[0] == LParen && v[1] == Literal('a') && v[2] == Union && v[3] == Literal('b') && v[4] == RParen;
    assert v == GroupTokens();
  }

  lemma ScanTail()
    ensures Scan("*abb") == Ok(TailTokens())
  {
    var regex := "*abb";
    UnescapedScan(regex);
    var v := Scan(regex).value;
    assert v[0] == Star && v[1] == Literal('a') && v[2] == Literal('b') && v[3] == Literal('b');
    assert v == TailTokens();
  }

  lemma ExampleScan()
    ensures Tokenized("(a|b)*abb") == Ok(GroupTokens() + TailTokens())
  {
    ScanGroup();
    ScanTail();
    ScanAppend("(a|b)", "*abb");
    assert "(a|b)" + "*abb" == "(a|b)*abb";
  }

  lemma ExampleConcatenation()
    ensures WithConcatenation(GroupTokens() + TailTokens()) == ExampleTokens()
  {
    assert WithConcatenation(GroupTokens()) == GroupTokens();
    assert WithConcatenation(TailTokens()) == TailConcatenated();
    Combinators.WithConcatenationAppend(GroupTokens(), TailTokens());
  }

  lemma ExampleGroup()
    ensures ConvertFrom(ExampleTokens(), 0, [], []) == ConvertFrom(ExampleTokens(), 4, [Literal('a'), Literal('b')], [LParen, Union])
  {
    var ts := ExampleTokens();
    var e: seq<Token> := [];
    var a: seq<Token> := [Literal('a')];
    var ab: seq<Token> := [Literal('a'), Literal('b')];
    var l: seq<Token> := [LParen];
    var lu: seq<Token> := [LParen, Union];
    assert ts[0] == LParen && ts[1] == Literal('a') && ts[2] == Union && ts[3] == Literal('b');
    assert e + [LParen] == l;
    ConvertThrough(ts, 0, e, e, e, l);
    assert e + [Literal('a')] == a;
    ConvertThrough(ts, 1, e, l, a, l);
    assert PopBinding(a, l, 1) == (a, l) && l + [Union] == lu;
    ConvertThrough(ts, 2, a, l, a, lu);
    assert a + [Literal('b')] == ab;
    ConvertThrough(ts, 3, a, lu, ab, lu);
  }

  lemma ExampleClose()
    ensures ConvertFrom(ExampleTokens(), 4, [Literal('a'), Literal('b')], [LParen, Union])
         == ConvertFrom(ExampleTokens(), 8, [Literal('a'), Literal('b'), Union, Star, Literal('a')], [Concat])
  {
    var ts := ExampleTokens();
    var e: seq<Token> := [];
    var ab: seq<Token> := [Literal('a'), Literal('b')];
    var abu: seq<Token> := [Literal('a'), Literal('b'), Union];
    var abus: seq<Token> := [Literal('a'), Literal('b'), Union, Star];
    var abusa: seq<Token> := [Literal('a'), Literal('b'), Union, Star, Literal('a')];
    var l: seq<Token> := [LParen];
    var lu: seq<Token> := [LParen, Union];
    var c: seq<Token> := [Concat];
    assert ts[3] == Literal('b') && ts[4] == RParen && ts[5] == Star && ts[6] == Concat && ts[7] == Literal('a');
    assert ab + [Union] == abu && lu[..1] == l;
    assert CloseGroup(abu, l) == Some((abu, e));
    assert CloseGroup(ab, lu) == Some((abu, e));
    ConvertThrough(ts, 4, ab, lu, abu, e);
    assert abu + [Star] == abus;
    ConvertThrough(ts, 5, abu, e, abus, e);
    assert PopBinding(abus, e, 2) == (abus, e) && e + [Concat] == c;
    ConvertThrough(ts, 6, abus, e, abus, c);
    assert abus + [Literal('a')] == abusa;
    ConvertThrough(ts, 7, abus, c, abusa, c);
  }

  lemma ExampleFinish()
    ensures ConvertFrom(ExampleTokens(), 8, [Literal('a'), Literal('b'), Union, Star, Literal('a')], [Concat]) == Ok(ExamplePostfix())
  {
    var ts := ExampleTokens();
    var e: seq<Token> := [];
    var c: seq<Token> := [Concat];
    var o8: seq<Token> := [Literal('a'), Literal('b'), Union, Star, Literal('a')];
    var o9: seq<Token> := o8 + [Concat];
    var o10: seq<Token> := o9 + [Literal('b')];
    var o11: seq<Token> := o10 + [Concat];
    var o12: seq<Token> := o11 + [Literal('b')];
    assert ts[7] == Literal('a') && ts[8] == Concat && ts[9] == Literal('b') && ts[10] == Concat && ts[11] == Literal('b') && |ts| == 12;
    assert PopBinding(o8, c, 2) == (o9, e) && e + [Concat] == c;
    ConvertThrough(ts, 8, o8, c, o9, c);
    ConvertThrough(ts, 9, o9, c, o10, c);
    assert PopBinding(o10, c, 2) == (o11, e);
    ConvertThrough(ts, 10, o10, c, o11, c);
    ConvertThrough(ts, 11, o11, c, o12, c);
    assert Flush(o12, c) == Flush(o12 + [Concat], e);
    assert o12 + [Concat] == ExamplePostfix();
  }

  lemma ExampleConversion()
    ensures PostfixOf("(a|b)*abb") == Ok(ExamplePostfix())
  {
    ExampleScan();
    ExampleConcatenation();
    ExampleGroup();
    ExampleClose();
    ExampleFinish();
  }

  lemma ExampleTrees()
    ensures Trees(ExamplePostfix()) == [ExampleTree()]
  {
    var e: seq<Token> := [];
    var p1 := e + [Literal('a')];
    TreesPush(e, Literal('a'));
    var p2 := p1 + [Literal('b')];
    TreesPush(p1, Literal('b'));
    var p3 := p2 + [Union];
    TreesPush(p2, Union);
    var p4 := p3 + [Star];
    TreesPush(p3, Star);
    var k := Kleene(Alt(Sym('a'), Sym('b')));
    assert Trees(p4) == [k];
    var p5 := p4 + [Literal('a')];
    TreesPush(p4, Literal('a'));
    var p6 := p5 + [Concat];
    TreesPush(p5, Concat);
    assert Trees(p6) == [Cat(k, Sym('a'))];
    var p7 := p6 + [Literal('b')];
    TreesPush(p6, Literal('b'));
    var p8 := p7 + [Concat];
    TreesPush(p7, Concat);
    assert Trees(p8) == [Cat(Cat(k, Sym('a')), Sym('b'))];
    var p9 := p8 + [Literal('b')];
    TreesPush(p8, Literal('b'));
    TreesPush(p9, Concat);
    assert p9 + [Concat] == ExamplePostfix();
  }

  lemma ExampleWellFormed()
    ensures WellFormedPostfix(ExamplePostfix())
  {
    var e: seq<Token> := [];
    var p1 := e + [Literal('a')];
    OperandDepthPush(e, Literal('a'));
    var p2 := p1 + [Literal('b')];
    OperandDepthPush(p1, Literal('b'));
    var p3 := p2 + [Union];
    OperandDepthPush(p2, Union);
    var p4 := p3 + [Star];
    OperandDepthPush(p3, Star);
    var p5 := p4 + [Literal('a')];
    OperandDepthPush(p4, Literal('a'));
    var p6 := p5 + [Concat];
    OperandDepthPush(p5, Concat);
    var p7 := p6 + [Literal('b')];
    OperandDepthPush(p6, Literal('b'));
    var p8 := p7 + [Concat];
    OperandDepthPush(p7, Concat);
    var p9 := p8 + [Literal('b')];
    OperandDepthPush(p8, Literal('b'));
    OperandDepthPush(p9, Concat);
    assert p9 + [Concat] == ExamplePostfix();
  }

  /** "(a|b)*abb" compiles, to any number of "a" or "b" followed by "abb". */
  lemma ExamplePattern()
    ensures NfaOf("(a|b)*abb").Ok? && Pattern("(a|b)*abb") == ExampleTree()
  {
    ExampleConversion();
    ExampleTrees();
    ExampleWellFormed();
    ThompsonSucceeds(ExamplePostfix());
  }

  /** "abb": no repetition at all, then "abb". */
  lemma ExampleAbb()
    ensures Denotes(ExampleTree(), "abb")
  {
    var k := Kleene(Alt(Sym('a'), Sym('b')));
    var e: string := [];
    assert Denotes(k, e) && Denotes(Sym('a'), "a") && Denotes(Sym('b'), "b");
    CatJoin(k, Sym('a'), e, "a");
    CatJoin(Cat(k, Sym('a')), Sym('b'), e + "a", "b");
    CatJoin(Cat(Cat(k, Sym('a')), Sym('b')), Sym('b'), e + "a" + "b", "b");
    assert e + "a" + "b" + "b" == "abb";
  }

  /** "babb": one repetition matching "b", then "abb". */
  lemma ExampleBabb()
    ensures Denotes(ExampleTree(), "babb")
  {
    var ab := Alt(Sym('a'), Sym('b'));
    var k := Kleene(ab);
    var e: string := [];
    assert Denotes(k, e) && Denotes(Sym('a'), "a") && Denotes(Sym('b'), "b") && Denotes(ab, "b");
    KleeneJoin(ab, "b", e);
    assert "b" + e == "b";
    CatJoin(k, Sym('a'), "b", "a");
    CatJoin(Cat(k, Sym('a')), Sym('b'), "b" + "a", "b");
    CatJoin(Cat(Cat(k, Sym('a')), Sym('b')), Sym('b'), "b" + "a" + "b", "b");
    assert "b" + "a" + "b" + "b" == "babb";
  }

  /** A word of a tree that ends in the symbol `c` ends in `c`. */
  lemma CatLast(x: Regex, c: char, w: string)
    requires Denotes(Cat(x, Sym(c)), w)
    ensures w != [] && w[|w| - 1] == c
  {
    var i :| 0 <= i <= |w| && Denotes(x, w[..i]) && Denotes(Sym(c), w[i..]);
    assert w[i..] == [c];
  }

  /** "ab" is not a word of the tree: its words end in "bb". */
  lemma ExampleNotAb()
    ensures !Denotes(ExampleTree(), "ab")
  {
    var k := Kleene(Alt(Sym('a'), Sym('b')));
    var w := "ab";
    if Denotes(ExampleTree(), w) {
      var i :| 0 <= i <= |w| && Denotes(Cat(Cat(k, Sym('a')), Sym('b')), w[..i]) && Denotes(Sym('b'), w[i..]);
      CatLast(Cat(k, Sym('a')), 'b', w[..i]);
      assert false;
    }
  }

  /** The automaton of "(a|b)*abb" accepts "abb" and "babb" and rejects "ab". */
  lemma ExampleScenario(dfa: Dfa)
    requires CompiledFrom("(a|b)*abb", dfa)
    ensures DfaAccepts(dfa, "abb") && DfaAccepts(dfa, "babb") && !DfaAccepts(dfa, "ab")
  {
    ExamplePattern();
    ExampleAbb();
    ExampleBabb();
    ExampleNotAb();
    CompiledLanguage("(a|b)*abb", dfa, "abb");
    CompiledLanguage("(a|b)*abb", dfa, "babb");
    CompiledLanguage("(a|b)*abb", dfa, "ab");
  }
}
