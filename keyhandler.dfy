/**
 * The key-handling core of `RegexParserKeyboardEventHandler` in ui/lib/src/nvui/handler.ts: a
 * lexer over the registered input patterns, the keys typed since the last reset, and the
 * callback of each pattern. Keys arrive as the strings a keyboard event names; the timer that
 * clears an unfinished input is a flag plus a `Timeout` event, and each callback is an uninterpreted
 * handle whose calls are recorded in order.
 */
module KeyHandler {
  import opened Wrappers
  import opened Tokens
  import opened Runtime
  import opened Compiler
  import opened Lexer

  /** A handle for the callback registered with a pattern. */
  type Action = nat

  /** One call of a callback, with the buffer it was given. */
  datatype Dispatch = Dispatch(action: Action, buffer: string)

  /** Why a key event ends in an exception: the lexer's, or a token with no callback. */
  datatype HandlerError = LexFailure(error: LexError) | NoAction(name: string)

  /** Keys the handler lets through without feeding them to the lexer. */
  const IgnoredKeys: seq<string> := [" ", "Shift", "Control", "Alt", "Meta"]

  /** The handler between two events, as a value: the buffer, the lexer's slots, whether the
      reset timer is running, and the callbacks called so far. */
  datatype HandlerState = HandlerState(buffer: string, slots: seq<SlotView>, timerPending: bool, dispatched: seq<Dispatch>)

  /** `reset`: empty buffer, every slot back to its start, timer cancelled. */
  function ResetState(s: HandlerState): HandlerState {
    s.(buffer := "", slots := ResetAll(s.slots), timerPending := false)
  }

  /** The `keydown` listener: restart the timer; unless the key is ignored, append it to the
      buffer and step the lexer; on ACCEPT call the token's callback with the buffer and reset,
      on DEAD reset, on INCOMPLETE wait. */
  function HandleKey(s: HandlerState, tokens: seq<TokenSpec>, actions: map<string, Action>, key: string)
    : (HandlerState, Result<(), HandlerError>)
  {
    var timed := s.(timerPending := true);
    if key in IgnoredKeys then (timed, Ok(()))
    else
      var buffer := s.buffer + key;
      var (slots, report) := LexStep(s.slots, tokens, key);
      var stepped := timed.(buffer := buffer, slots := slots);
      match report
      case Err(e) => (stepped, Err(LexFailure(e)))
      case Ok(LexAccept(name, _)) =>
        if name in actions then
          (ResetState(stepped.(dispatched := s.dispatched + [Dispatch(actions[name], buffer)])), Ok(()))
        else (stepped, Err(NoAction(name)))
      case Ok(LexDead) => (ResetState(stepped), Ok(()))
      case Ok(LexIncomplete) => (stepped, Ok(()))
  }

  /** An ignored key only restarts the timer. */
  lemma IgnoredKeyOnlyRestartsTimer(s: HandlerState, tokens: seq<TokenSpec>, actions: map<string, Action>, key: string)
    requires key in IgnoredKeys
    ensures var (t, r) := HandleKey(s, tokens, actions, key);
      r.Ok? && t.buffer == s.buffer && t.slots == s.slots && t.dispatched == s.dispatched && t.timerPending
  {
  }

  /** A callback is called on a key exactly when the key is not ignored and the lexer accepts a
      token that has a callback; it is that token's callback, it gets the buffer including the
      key, and the handler is reset afterwards. */
  lemma DispatchIffAccept(s: HandlerState, tokens: seq<TokenSpec>, actions: map<string, Action>, key: string)
    ensures var (t, r) := HandleKey(s, tokens, actions, key);
      var report := LexStep(s.slots, tokens, key).1;
      && (t.dispatched != s.dispatched <==>
            key !in IgnoredKeys && report.Ok? && report.value.LexAccept? && report.value.name in actions)
      && (t.dispatched != s.dispatched ==>
            && t.dispatched == s.dispatched + [Dispatch(actions[report.value.name], s.buffer + key)]
            && t.buffer == "" && t.slots == ResetAll(s.slots) && !t.timerPending && r.Ok?)
  {
    if key !in IgnoredKeys {
      var (slots, report) := LexStep(s.slots, tokens, key);
      LexStepSpec(s.slots, tokens, key);
      if report.Ok? && report.value.LexAccept? && report.value.name in actions {
        var k := FirstAccepting(s.slots, key, 0).value;
        assert slots == ResetAll(s.slots);
        assert ResetAll(slots) == ResetAll(s.slots);
        assert |s.dispatched + [Dispatch(actions[report.value.name], s.buffer + key)]| > |s.dispatched|;
      }
    }
  }

  /** After a key handled without an exception the buffer is either empty with every slot reset
      and the timer cancelled, or it is the previous buffer plus the key and the lexer reported
      INCOMPLETE, or the key was ignored and the buffer is unchanged. */
  lemma BufferAfterKey(s: HandlerState, tokens: seq<TokenSpec>, actions: map<string, Action>, key: string)
    ensures var (t, r) := HandleKey(s, tokens, actions, key);
      r.Ok? ==>
        || (t.buffer == "" && t.slots == ResetAll(s.slots) && !t.timerPending && key !in IgnoredKeys)
        || (t.buffer == s.buffer + key && LexStep(s.slots, tokens, key).1 == Ok(LexIncomplete) && t.timerPending)
        || (t.buffer == s.buffer && key in IgnoredKeys && t.timerPending)
  {
    if key !in IgnoredKeys {
      LexStepSpec(s.slots, tokens, key);
      var (slots, report) := LexStep(s.slots, tokens, key);
      if report == Ok(LexDead) {
        DeadIffNoneIncomplete(s.slots, tokens, key);
        assert slots == s.slots;
      } else if report.Ok? && report.value.LexAccept? {
        assert slots == ResetAll(s.slots);
        assert ResetAll(slots) == ResetAll(s.slots);
      }
    }
  }

  /** The names the lexer reports are registered token names. */
  lemma AcceptedNameRegistered(slots: seq<SlotView>, tokens: seq<TokenSpec>, key: string)
    requires LexStep(slots, tokens, key).1.Ok? && LexStep(slots, tokens, key).1.value.LexAccept?
    ensures LexStep(slots, tokens, key).1.value.name in TokenNames(tokens)
  {
    LexStepSpec(slots, tokens, key);
    var k := FirstAccepting(slots, key, 0).value;
    assert tokens[k].name in TokenNames(tokens);
  }

  /** With a callback for every token and no more slots than tokens, as after one `compile`,
      no key ends in an exception. */
  lemma KeysNeverFail(s: HandlerState, tokens: seq<TokenSpec>, actions: map<string, Action>, key: string)
    requires |s.slots| <= |tokens| && TokenNames(tokens) <= actions.Keys
    ensures HandleKey(s, tokens, actions, key).1.Ok?
  {
    AcceptNamesToken(s.slots, tokens, key);
    if LexStep(s.slots, tokens, key).1.value.LexAccept? {
      AcceptedNameRegistered(s.slots, tokens, key);
    }
  }

  /** `test`: step the lexer on each character of `keys` in turn; ACCEPT at the first accept,
      DEAD at the first DEAD or when the characters run out. */
  function TestRun(slots: seq<SlotView>, tokens: seq<TokenSpec>, keys: seq<string>): (seq<SlotView>, Result<string, LexError>)
    decreases |keys|
  {
    if keys == [] then (slots, Ok("DEAD"))
    else
      var (next, report) := LexStep(slots, tokens, keys[0]);
      match report
      case Err(e) => (next, Err(e))
      case Ok(LexDead) => (next, Ok("DEAD"))
      case Ok(LexAccept(_, _)) => (next, Ok("ACCEPT"))
      case Ok(LexIncomplete) => TestRun(next, tokens, keys[1..])
  }

  /** A step keeps every slot's automaton. */
  lemma LexStepKeepsAutomata(slots: seq<SlotView>, tokens: seq<TokenSpec>, key: string)
    ensures var after := LexStep(slots, tokens, key).0;
      |after| == |slots| && forall j :: 0 <= j < |slots| ==> after[j].dfa == slots[j].dfa
  {
    LexStepSpec(slots, tokens, key);
  }

  /** `test` answers ACCEPT or DEAD, or fails; after ACCEPT every slot is back at its start. */
  lemma {:induction false} TestOutcomes(slots: seq<SlotView>, tokens: seq<TokenSpec>, keys: seq<string>)
    ensures var (after, r) := TestRun(slots, tokens, keys);
      && (r.Ok? ==> r.value == "ACCEPT" || r.value == "DEAD")
      && (r == Ok("ACCEPT") ==> after == ResetAll(slots))
    decreases |keys|
  {
    if keys != [] {
      var (next, report) := LexStep(slots, tokens, keys[0]);
      LexStepSpec(slots, tokens, keys[0]);
      LexStepKeepsAutomata(slots, tokens, keys[0]);
      if report == Ok(LexIncomplete) {
        TestOutcomes(next, tokens, keys[1..]);
        ResetAllIgnoresCursors(next, slots);
      }
    }
  }

  /** `test` does not reset the lexer: once no slot is INCOMPLETE every later `test` answers
      DEAD and changes nothing, whatever it is given. */
  lemma TestDeadSticks(slots: seq<SlotView>, tokens: seq<TokenSpec>, keys: seq<string>)
    requires forall j :: 0 <= j < |slots| ==> slots[j].status != Incomplete
    ensures TestRun(slots, tokens, keys) == (slots, Ok("DEAD"))
  {
    if keys != [] {
      DeadIffNoneIncomplete(slots, tokens, keys[0]);
    }
  }

  /** `RegexParserKeyboardEventHandler`, without the DOM element it listens on. */
  class KeyboardHandler {
    const lexer: RegexLexer
    const timeout: nat
    var buffer: string
    var timerPending: bool
    var nameActionMapping: map<string, Action>
    var dispatched: seq<Dispatch>

    /** Every token the lexer may report has a callback. */
    ghost predicate Valid()
      reads this, lexer
    {
      lexer.Valid() && TokenNames(lexer.tokens) <= nameActionMapping.Keys
    }

    ghost function State(): HandlerState
      reads this, lexer, lexer.Cursors()
    {
      HandlerState(buffer, lexer.View(), timerPending, dispatched)
    }

    constructor(timeout: nat := 500)
      ensures Valid() && fresh(lexer)
      ensures this.timeout == timeout && buffer == "" && !timerPending && nameActionMapping == map[] && dispatched == []
      ensures lexer.tokens == [] && lexer.slots == [] && !lexer.isCompiled
    {
      lexer := new RegexLexer();
      buffer := "";
      this.timeout := timeout;
      timerPending := false;
      nameActionMapping := map[];
      dispatched := [];
    }

    /** `registerInputPattern`: registers the token with the lexer and, if that succeeds,
        records its callback. */
    method RegisterInputPattern(name: string, regex: string, action: Action) returns (err: Option<RegisterError>)
      requires Valid()
      modifies this, lexer
      ensures Valid()
      ensures buffer == old(buffer) && timerPending == old(timerPending) && dispatched == old(dispatched)
      ensures lexer.slots == old(lexer.slots) && lexer.isCompiled == old(lexer.isCompiled)
      ensures err == None <==> !old(lexer.isCompiled) && name !in old(lexer.registeredNames)
      ensures err == None ==>
        && lexer.tokens == old(lexer.tokens) + [TokenSpec(name, regex, |old(lexer.tokens)| + 1)]
        && nameActionMapping == old(nameActionMapping)[name := action]
      ensures err != None ==> lexer.tokens == old(lexer.tokens) && nameActionMapping == old(nameActionMapping)
    {
      err := lexer.RegisterToken(name, regex);
      if err == None {
        TokenNamesAppend(old(lexer.tokens), TokenSpec(name, regex, |old(lexer.tokens)| + 1));
        nameActionMapping := nameActionMapping[name := action];
      }
    }

    /** `compile`: compiles the lexer. */
    method Compile() returns (err: Option<CompileError>)
      requires Valid()
      modifies lexer
      ensures Valid()
      ensures lexer.tokens == old(lexer.tokens) && lexer.registeredNames == old(lexer.registeredNames)
      ensures nameActionMapping == old(nameActionMapping)
      ensures |old(lexer.slots)| <= |lexer.slots| <= |old(lexer.slots)| + |lexer.tokens|
      ensures lexer.slots[..|old(lexer.slots)|] == old(lexer.slots)
      ensures var k := |lexer.slots| - |old(lexer.slots)|;
        && FreshSlots(lexer.slots[|old(lexer.slots)|..], lexer.tokens[..k])
        && (k == |lexer.tokens| ==> err == None && lexer.isCompiled)
        && (k < |lexer.tokens| ==>
              NfaOf(lexer.tokens[k].regex).Err? && err == Some(NfaOf(lexer.tokens[k].regex).error) && lexer.isCompiled == old(lexer.isCompiled))
      ensures err == None <==> |lexer.slots| == |old(lexer.slots)| + |lexer.tokens|
    {
      err := lexer.Compile();
    }

    /** `reset`. */
    method Reset()
      requires Valid()
      modifies this, lexer, lexer.Cursors()
      ensures Valid()
      ensures nameActionMapping == old(nameActionMapping) && lexer.tokens == old(lexer.tokens)
      ensures lexer.registeredNames == old(lexer.registeredNames) && lexer.isCompiled == old(lexer.isCompiled)
      ensures |lexer.slots| == |old(lexer.slots)| && forall j :: 0 <= j < |lexer.slots| ==> lexer.slots[j].cursor == old(lexer.slots[j].cursor)
      ensures State() == ResetState(old(State()))
    {
      buffer := "";
      lexer.Reset();
      timerPending := false;
    }

    /** The timer set by the last key fires: it resets the handler if it is still running. */
    method Timeout()
      requires Valid()
      modifies this, lexer, lexer.Cursors()
      ensures Valid()
      ensures nameActionMapping == old(nameActionMapping) && lexer.tokens == old(lexer.tokens)
      ensures lexer.registeredNames == old(lexer.registeredNames) && lexer.isCompiled == old(lexer.isCompiled)
      ensures State() == if old(timerPending) then ResetState(old(State())) else old(State())
    {
      if timerPending {
        Reset();
      }
    }

    /** The `keydown` listener `bind` installs, for the key `key`. */
    method OnKey(key: string) returns (r: Result<(), HandlerError>)
      requires Valid()
      modifies this, lexer, lexer.Cursors()
      ensures Valid()
      ensures nameActionMapping == old(nameActionMapping) && lexer.tokens == old(lexer.tokens)
      ensures lexer.registeredNames == old(lexer.registeredNames) && lexer.isCompiled == old(lexer.isCompiled)
      ensures (State(), r) == HandleKey(old(State()), lexer.tokens, nameActionMapping, key)
    {
      ghost var s0 := State();
      timerPending := true;
      if key in IgnoredKeys {
        return Ok(());
      }
      buffer := buffer + key;
      var res := lexer.Step(key);
      assert State() == s0.(timerPending := true, buffer := s0.buffer + key, slots := lexer.View());
      r := React(s0, key, res);
    }

    /** The rest of the listener once the lexer has stepped: on ACCEPT call the token's callback
        with the buffer and reset, on DEAD reset, on INCOMPLETE wait; a lexer failure is passed on. */
    method React(ghost s0: HandlerState, key: string, res: Result<LexResult, LexError>) returns (r: Result<(), HandlerError>)
      requires Valid() && key !in IgnoredKeys
      requires State() == s0.(timerPending := true, buffer := s0.buffer + key, slots := LexStep(s0.slots, lexer.tokens, key).0)
      requires res == LexStep(s0.slots, lexer.tokens, key).1
      modifies this, lexer, lexer.Cursors()
      ensures Valid()
      ensures nameActionMapping == old(nameActionMapping) && lexer.tokens == old(lexer.tokens)
      ensures lexer.registeredNames == old(lexer.registeredNames) && lexer.isCompiled == old(lexer.isCompiled)
      ensures (State(), r) == HandleKey(s0, lexer.tokens, nameActionMapping, key)
    {
      ghost var stepped := State();
      if res.Err? {
        return Err(LexFailure(res.error));
      }
      r := Ok(());
      match res.value
      case LexAccept(name, _) =>
        AcceptedNameRegistered(s0.slots, lexer.tokens, key);
        dispatched := dispatched + [Dispatch(nameActionMapping[name], buffer)];
        ghost var called := stepped.(dispatched := dispatched);
        assert called == State();
        Reset();
        assert State() == ResetState(called);
        assert HandleKey(s0, lexer.tokens, nameActionMapping, key) == (ResetState(called), Ok(()));
      case LexDead =>
        Reset();
        assert State() == ResetState(stepped);
        assert HandleKey(s0, lexer.tokens, nameActionMapping, key) == (ResetState(stepped), Ok(()));
      case LexIncomplete =>
        assert HandleKey(s0, lexer.tokens, nameActionMapping, key) == (stepped, Ok(()));
    }

    /** `test`: feeds the characters of `str` to the lexer, without resetting it before or
        after. */
    method Test(str: string) returns (r: Result<string, LexError>)
      requires Valid()
      modifies lexer, lexer.Cursors()
      ensures Valid()
      ensures lexer.tokens == old(lexer.tokens)
      ensures lexer.registeredNames == old(lexer.registeredNames) && lexer.isCompiled == old(lexer.isCompiled)
      ensures (lexer.View(), r) == TestRun(old(lexer.View()), lexer.tokens, KeysOf(str))
    {
      ghost var start := lexer.View();
      var keys := KeysOf(str);
      for i := 0 to |str|
        invariant Valid()
        invariant lexer.tokens == old(lexer.tokens)
        invariant lexer.registeredNames == old(lexer.registeredNames) && lexer.isCompiled == old(lexer.isCompiled)
        invariant |lexer.slots| == |old(lexer.slots)| && forall j :: 0 <= j < |lexer.slots| ==> lexer.slots[j].cursor == old(lexer.slots[j].cursor)
        invariant TestRun(lexer.View(), lexer.tokens, keys[i..]) == TestRun(start, lexer.tokens, keys)
      {
        assert keys[i..][1..] == keys[i + 1..];
        var res := lexer.Step([str[i]]);
        if res.Err? {
          return Err(res.error);
        }
        if res.value == LexDead {
          return Ok("DEAD");
        } else if res.value.LexAccept? {
          return Ok("ACCEPT");
        }
      }
      return Ok("DEAD");
    }
  }
}
