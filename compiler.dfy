/**
 * `regexToDFA` and `RegParser` of ui/lib/src/nvui/automata.ts: the stages chained, the first
 * error thrown passed on unchanged.
 */
module Compiler {
  import opened Wrappers
  import opened Tokens
  import opened Postfix
  import opened Thompson
  import opened Subset
  import opened Patterns
  import Recognition

  /** The postfix form of a pattern, or the error of the first stage that rejects it. */
  function PostfixOf(regex: string): Result<seq<Token>, CompileError> {
    var tokens :- Tokenized(regex);
    Postfix.Postfix(WithConcatenation(tokens))
  }

  /** The NFA a pattern compiles to, or the error of the first stage that rejects it. */
  function NfaOf(regex: string): Result<Nfa, CompileError> {
    var postfix :- PostfixOf(regex);
    ThompsonNfa(postfix)
  }

  /** The regular expression a compilable pattern stands for: its postfix form read on a stack,
      which leaves exactly one tree. */
  function Pattern(regex: string): Regex
    requires NfaOf(regex).Ok?
  {
    var postfix := PostfixOf(regex).value;
    Recognition.ThompsonLanguage(postfix, []);
    Trees(postfix)[0]
  }

  /** `dfa` is a subset construction of the NFA `regex` compiles to. */
  ghost predicate CompiledFrom(regex: string, dfa: Dfa) {
    NfaOf(regex).Ok? && exists sets :: Represents(NfaOf(regex).value, dfa, sets)
  }

  /** `regexToDFA`: tokenize, make concatenation explicit, convert to postfix, build the NFA and
      determinize it. */
  method RegexToDfa(regex: string) returns (r: Result<Dfa, CompileError>)
    ensures r.Err? <==> NfaOf(regex).Err?
    ensures r.Err? ==> r.error == NfaOf(regex).error
    ensures r.Ok? ==> CompiledFrom(regex, r.value)
    ensures r.Ok? ==> forall w :: DfaAccepts(r.value, w) <==> Denotes(Pattern(regex), w)
  {
    var tokens := Tokenize(regex);
    if tokens.Err? {
      return Err(tokens.error);
    }
    var withConcat := InsertExplicitConcatenation(tokens.value);
    var postfix := ToPostfix(withConcat);
    if postfix.Err? {
      return Err(postfix.error);
    }
    var nfa := BuildNfaFromPostfix(postfix.value);
    if nfa.Err? {
      return Err(nfa.error);
    }
    var dfa, sets := NfaToDfa(nfa.value);
    forall w
      ensures DfaAccepts(dfa, w) <==> Denotes(Pattern(regex), w)
    {
      CompiledLanguage(regex, dfa, w);
    }
    return Ok(dfa);
  }

  /** The token sequence the converter sees passes every check of `toPostfix` and of the NFA
      builder. */
  predicate Accepted(ts: seq<Token>) {
    WellPlaced(ts) && Balanced(ts) && !HasEmptyGroup(ts)
  }

  /** A pattern compiles exactly when it is non-empty, does not end in a lone backslash, and its
      tokens, with concatenation made explicit, are well placed, balanced and free of `()`. The
      first two failures are reported as such. */
  lemma CompileSucceeds(regex: string)
    ensures Tokenized(regex).Ok? <==> regex != [] && !DanglingEscape(regex)
    ensures NfaOf(regex).Ok? <==> Tokenized(regex).Ok? && Accepted(WithConcatenation(Tokenized(regex).value))
    ensures regex == [] ==> NfaOf(regex) == Err(EmptyRegex)
    ensures regex != [] && DanglingEscape(regex) ==> NfaOf(regex) == Err(TrailingBackslash)
  {
    TokenizeFailures(regex);
    if Tokenized(regex).Ok? {
      var tokens := Tokenized(regex).value;
      var ts := WithConcatenation(tokens);
      ScanHead(regex);
      PostfixSucceeds(ts);
      if Postfix.Postfix(ts).Ok? {
        WithConcatenationHead(tokens);
        ConcatenationComplete(tokens);
        PostfixWellFormedIff(ts);
        ThompsonSucceeds(Postfix.Postfix(ts).value);
      }
    }
  }

  /** The compiled automaton recognizes what the pattern's NFA recognizes, and that is exactly
      the set of words the pattern stands for. */
  lemma CompiledLanguage(regex: string, dfa: Dfa, w: string)
    requires CompiledFrom(regex, dfa)
    ensures DfaAccepts(dfa, w) <==> NfaAccepts(NfaOf(regex).value, w)
    ensures DfaAccepts(dfa, w) <==> Denotes(Pattern(regex), w)
  {
    var sets :| Represents(NfaOf(regex).value, dfa, sets);
    SubsetConstructionCorrect(NfaOf(regex).value, dfa, sets, w);
    Recognition.ThompsonLanguage(PostfixOf(regex).value, w);
  }

  /** A compiled automaton starts in state "0" and names its states "0", "1", … */
  lemma CompiledNames(regex: string, dfa: Dfa)
    requires CompiledFrom(regex, dfa)
    ensures dfa.initialState == "0" && dfa.numberOfStates >= 1
    ensures dfa.transitions.Keys <= Names(dfa.numberOfStates)
    ensures dfa.acceptStates <= Names(dfa.numberOfStates)
  {
    var sets :| Represents(NfaOf(regex).value, dfa, sets);
  }

  /** `RegParser`: holds a pattern and compiles it on request. */
  class RegParser {
    const regex: string

    constructor(regex: string)
      ensures this.regex == regex
    {
      this.regex := regex;
    }

    method ParseToDfa() returns (r: Result<Dfa, CompileError>)
      ensures r.Err? <==> NfaOf(regex).Err?
      ensures r.Err? ==> r.error == NfaOf(regex).error
      ensures r.Ok? ==> CompiledFrom(regex, r.value)
      ensures r.Ok? ==> forall w :: DfaAccepts(r.value, w) <==> Denotes(Pattern(regex), w)
    {
      r := RegexToDfa(regex);
    }
  }
}
