/**
 * `RegexDFA` of ui/lib/src/nvui/handler.ts: a cursor over a compiled automaton that reads one
 * key at a time and reports -1 (no transition, cursor kept), 0 (moved) or 1 (moved into an
 * accepting state).
 *
 * Keys are the strings a keyboard event names ("a", "Enter", …). The table is keyed by single
 * characters, so a longer key name never has a transition. A state without a row is read as a
 * state without transitions.
 */
module Runtime {
  import opened Wrappers
  import opened Tokens
  import opened Subset
  import opened Compiler
  import Recognition
  import Patterns

  /** Where `key` takes the cursor from `q`, if anywhere. */
  function Transition(dfa: Dfa, q: string, key: string): Option<string> {
    if |key| == 1 then Lookup(dfa, q, key[0]) else None
  }

  /** The code `step` returns and the state it leaves the cursor in. */
  function Stepped(dfa: Dfa, q: string, key: string): (int, string) {
    match Transition(dfa, q, key)
    case None => (-1, q)
    case Some(r) => (if r in dfa.acceptStates then 1 else 0, r)
  }

  /** The codes a run of keys produces from `q`, and the state it ends in. */
  function Trace(dfa: Dfa, q: string, keys: seq<string>): (seq<int>, string)
    decreases |keys|
  {
    if keys == [] then ([], q)
    else
      var (code, r) := Stepped(dfa, q, keys[0]);
      var (codes, last) := Trace(dfa, r, keys[1..]);
      ([code] + codes, last)
  }

  /** The one-character keys spelling `w`. */
  function KeysOf(w: string): (keys: seq<string>)
    ensures |keys| == |w| && forall i :: 0 <= i < |w| ==> keys[i] == [w[i]]
  {
    seq(|w|, i requires 0 <= i < |w| => [w[i]])
  }

  /** `step` reports -1 exactly when there is no transition, and then keeps the cursor;
      otherwise it moves along the transition and reports 1 exactly when it lands in an
      accepting state. */
  lemma StepCodes(dfa: Dfa, q: string, key: string)
    ensures var (code, r) := Stepped(dfa, q, key);
      && (code == -1 || code == 0 || code == 1)
      && (code == -1 <==> Transition(dfa, q, key) == None)
      && (code == -1 ==> r == q)
      && (code != -1 ==> Transition(dfa, q, key) == Some(r) && (code == 1 <==> r in dfa.acceptStates))
  {
  }

  /** Stepping through the characters of `w` one at a time follows the automaton's run on
      `w`: with no -1 along the way the cursor ends where the run ends, and a run that falls off
      the table shows a -1. */
  lemma {:induction false} TraceFollowsRun(dfa: Dfa, q: string, w: string)
    ensures var (codes, last) := Trace(dfa, q, KeysOf(w));
      && |codes| == |w|
      && (-1 !in codes ==> DfaRun(dfa, q, w) == Some(last))
      && (DfaRun(dfa, q, w) == None ==> -1 in codes)
    decreases |w|
  {
    if w != [] {
      var keys := KeysOf(w);
      assert keys[1..] == KeysOf(w[1..]);
      var (code, r) := Stepped(dfa, q, keys[0]);
      TraceFollowsRun(dfa, r, w[1..]);
    }
  }

  /** The last code of a run without -1 tells whether the run ends in an accepting state. */
  lemma {:induction false} TraceLastCode(dfa: Dfa, q: string, keys: seq<string>)
    requires keys != [] && -1 !in Trace(dfa, q, keys).0
    ensures var (codes, last) := Trace(dfa, q, keys);
      |codes| == |keys| && (codes[|codes| - 1] == 1 <==> last in dfa.acceptStates)
    decreases |keys|
  {
    var (code, r) := Stepped(dfa, q, keys[0]);
    if |keys| > 1 {
      TraceLastCode(dfa, r, keys[1..]);
    }
  }

  /** Fed the characters of a non-empty `w` from state "0" of a compiled pattern, a cursor
      that never reports -1 reports 1 last exactly when the pattern's NFA accepts `w`, that is,
      exactly when the pattern denotes `w`; and when no run of the NFA survives `w`, the cursor
      reports -1 somewhere along the way. */
  lemma CursorRecognizesPattern(regex: string, dfa: Dfa, w: string)
    requires CompiledFrom(regex, dfa) && w != []
    ensures var (codes, last) := Trace(dfa, "0", KeysOf(w));
      var nfa := NfaOf(regex).value;
      && (-1 !in codes ==> (codes[|codes| - 1] == 1 <==> NfaAccepts(nfa, w)))
      && (-1 !in codes ==> (codes[|codes| - 1] == 1 <==> Patterns.Denotes(Pattern(regex), w)))
      && (NfaRun(nfa, Closure(nfa.epsilonTransitions, {nfa.start}), w) == {} ==> -1 in codes)
  {
    CompiledNames(regex, dfa);
    var sets :| Represents(NfaOf(regex).value, dfa, sets);
    SubsetConstructionCorrect(NfaOf(regex).value, dfa, sets, w);
    Recognition.ThompsonLanguage(PostfixOf(regex).value, w);
    DfaSimulatesNfa(NfaOf(regex).value, dfa, sets, 0, w);
    TraceFollowsRun(dfa, "0", w);
    var (codes, last) := Trace(dfa, "0", KeysOf(w));
    if -1 !in codes {
      TraceLastCode(dfa, "0", KeysOf(w));
    }
  }

  /** `RegexDFA`: the automaton compiled from a pattern and a cursor into it. */
  class RegexDfa {
    var currentState: string
    const dfa: Dfa
    ghost const regex: string

    constructor FromCompiled(regex: string, dfa: Dfa)
      requires CompiledFrom(regex, dfa)
      ensures this.regex == regex && this.dfa == dfa && currentState == "0"
    {
      this.regex := regex;
      this.dfa := dfa;
      currentState := "0";
    }

    /** The constructor: compiles `regex` (throwing its error) and puts the cursor at "0". */
    static method Create(regex: string) returns (r: Result<RegexDfa, CompileError>)
      ensures r.Err? <==> NfaOf(regex).Err?
      ensures r.Err? ==> r.error == NfaOf(regex).error
      ensures r.Ok? ==> fresh(r.value) && r.value.regex == regex && r.value.currentState == "0"
      ensures r.Ok? ==> CompiledFrom(regex, r.value.dfa)
    {
      var parser := new RegParser(regex);
      var compiled := parser.ParseToDfa();
      if compiled.Err? {
        return Err(compiled.error);
      }
      var cursor := new RegexDfa.FromCompiled(regex, compiled.value);
      return Ok(cursor);
    }

    /** `reset(state = "0")`. */
    method Reset(state: string := "0")
      modifies this
      ensures currentState == state
    {
      currentState := state;
    }

    method Step(key: string) returns (code: int)
      modifies this
      ensures (code, currentState) == Stepped(dfa, old(currentState), key)
    {
      if |key| == 1 && currentState in dfa.transitions && key[0] in dfa.transitions[currentState] {
        currentState := dfa.transitions[currentState][key[0]];
        if IsAccepting() {
          code := 1;
        } else {
          code := 0;
        }
      } else {
        code := -1;
      }
    }

    predicate IsAccepting()
      reads this
    {
      currentState in dfa.acceptStates
    }
  }
}
