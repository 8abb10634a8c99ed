/**
 * `RegexLexer` of ui/lib/src/nvui/handler.ts: one compiled pattern per registered token, each
 * with a cursor and a status. A key advances every INCOMPLETE slot in registration order; the
 * first slot whose cursor lands in an accepting state wins, and every slot is reset.
 */
module Lexer {
  import opened Wrappers
  import opened Tokens
  import opened Subset
  import opened Compiler
  import opened Runtime

  datatype Status = Dead | Accept | Incomplete

  /** A registered token: its name, its pattern and its 1-based registration number. */
  datatype TokenSpec = TokenSpec(name: string, regex: string, serialNo: nat)

  /** What `step` reports. */
  datatype LexResult = LexDead | LexIncomplete | LexAccept(name: string, regex: string)

  /** `step` reads `this.tokens[i]` for the winning slot; a slot with no token there (the
      slots of a second `compile`) makes that read fail. */
  datatype LexError = NoTokenForSlot(index: nat)

  datatype RegisterError = AlreadyCompiled | DuplicateName(name: string)

  /** A slot as `step` sees it: the compiled automaton, the cursor's state and the status. */
  datatype SlotView = SlotView(dfa: Dfa, state: string, status: Status)

  /** Every slot back at state "0" and INCOMPLETE. */
  function ResetAll(views: seq<SlotView>): (r: seq<SlotView>)
    ensures |r| == |views|
    ensures forall j :: 0 <= j < |r| ==> r[j] == SlotView(views[j].dfa, "0", Incomplete)
  {
    seq(|views|, j requires 0 <= j < |views| => views[j].(state := "0", status := Incomplete))
  }

  /** One INCOMPLETE slot reading `key`: the code its cursor reports and the slot afterwards,
      DEAD on -1, ACCEPT on 1 and still INCOMPLETE on 0. */
  function StepSlot(v: SlotView, key: string): (int, SlotView) {
    var (code, r) := Stepped(v.dfa, v.state, key);
    (code, v.(state := r, status := if code == -1 then Dead else if code == 1 then Accept else Incomplete))
  }

  /** The loop of `step` from slot `i` on; `anyActive` records whether an INCOMPLETE slot was
      met before `i`. */
  function StepFrom(views: seq<SlotView>, tokens: seq<TokenSpec>, key: string, i: nat, anyActive: bool)
    : (seq<SlotView>, Result<LexResult, LexError>)
    requires i <= |views|
    decreases |views| - i
  {
    if i == |views| then (views, Ok(if anyActive then LexIncomplete else LexDead))
    else if views[i].status != Incomplete then StepFrom(views, tokens, key, i + 1, anyActive)
    else
      var (code, w) := StepSlot(views[i], key);
      if code == 1 then (ResetAll(views[i := w]), AcceptReport(tokens, i))
      else StepFrom(views[i := w], tokens, key, i + 1, true)
  }

  /** The report of an accept by slot `i`. */
  function AcceptReport(tokens: seq<TokenSpec>, i: nat): Result<LexResult, LexError> {
    if i < |tokens| then Ok(LexAccept(tokens[i].name, tokens[i].regex)) else Err(NoTokenForSlot(i))
  }

  /** One `step` of the lexer on `key`: the new slots and the report. */
  function LexStep(views: seq<SlotView>, tokens: seq<TokenSpec>, key: string): (seq<SlotView>, Result<LexResult, LexError>) {
    StepFrom(views, tokens, key, 0, false)
  }

  // ---------------------------------------------------------------------------------------------
  // An independent description of a step
  // ---------------------------------------------------------------------------------------------

  /** Slot `v` is INCOMPLETE and `key` moves its cursor into an accepting state. */
  predicate AcceptsOn(v: SlotView, key: string) {
    v.status == Incomplete && Stepped(v.dfa, v.state, key).0 == 1
  }

  /** The first slot at or after `i` that accepts on `key`. */
  function FirstAccepting(views: seq<SlotView>, key: string, i: nat): (r: Option<nat>)
    requires i <= |views|
    ensures r.Some? ==> i <= r.value < |views| && AcceptsOn(views[r.value], key)
    ensures r.Some? ==> forall j :: i <= j < r.value ==> !AcceptsOn(views[j], key)
    ensures r.None? ==> forall j :: i <= j < |views| ==> !AcceptsOn(views[j], key)
    decreases |views| - i
  {
    if i == |views| then None
    else if AcceptsOn(views[i], key) then Some(i)
    else FirstAccepting(views, key, i + 1)
  }

  /** Slot `v` after `key` when nothing accepts: an INCOMPLETE slot moves its cursor, and dies
      if there is no transition; other slots are left alone. */
  function Advance(v: SlotView, key: string): SlotView {
    if v.status != Incomplete then v
    else
      var (code, r) := Stepped(v.dfa, v.state, key);
      if code == -1 then v.(status := Dead) else v.(state := r)
  }

  /** Whether some slot at or after `i` is INCOMPLETE. */
  predicate AnyIncomplete(views: seq<SlotView>, i: nat)
    requires i <= |views|
  {
    exists j :: i <= j < |views| && views[j].status == Incomplete
  }

  lemma ResetAllIgnoresCursors(a: seq<SlotView>, b: seq<SlotView>)
    requires |a| == |b| && forall j :: 0 <= j < |a| ==> a[j].dfa == b[j].dfa
    ensures ResetAll(a) == ResetAll(b)
  {
  }

  /** What the loop of `step` from slot `i` on does, described slot by slot: the first
      accepting slot at or after `i` wins and everything is reset; failing one, each INCOMPLETE
      slot from `i` on advances, the earlier ones are untouched, and the report is DEAD exactly
      when no slot was INCOMPLETE before `i` or from `i` on. */
  ghost predicate Described(views: seq<SlotView>, tokens: seq<TokenSpec>, key: string, i: nat, anyActive: bool)
    requires i <= |views|
  {
    var (after, report) := StepFrom(views, tokens, key, i, anyActive);
    match FirstAccepting(views, key, i)
    case Some(k) => after == ResetAll(views) && report == AcceptReport(tokens, k)
    case None =>
      && |after| == |views|
      && (forall j :: 0 <= j < i ==> after[j] == views[j])
      && (forall j :: i <= j < |views| ==> after[j] == Advance(views[j], key))
      && report == Ok(if anyActive || AnyIncomplete(views, i) then LexIncomplete else LexDead)
  }

  lemma {:induction false} StepFromSpec(views: seq<SlotView>, tokens: seq<TokenSpec>, key: string, i: nat, anyActive: bool)
    requires i <= |views|
    ensures Described(views, tokens, key, i, anyActive)
    decreases |views| - i
  {
    if i < |views| {
      var v := views[i];
      if v.status != Incomplete {
        StepFromSpec(views, tokens, key, i + 1, anyActive);
        StepSkipped(views, tokens, key, i, anyActive);
      } else {
        var (code, w) := StepSlot(v, key);
        if code != 1 {
          StepFromSpec(views[i := w], tokens, key, i + 1, true);
          StepAdvanced(views, tokens, key, i, anyActive);
        } else {
          ResetAllIgnoresCursors(views[i := w], views);
        }
      }
    }
  }

  /** Slot `i` is not INCOMPLETE: the loop passes over it. */
  lemma StepSkipped(views: seq<SlotView>, tokens: seq<TokenSpec>, key: string, i: nat, anyActive: bool)
    requires i < |views| && views[i].status != Incomplete
    requires Described(views, tokens, key, i + 1, anyActive)
    ensures Described(views, tokens, key, i, anyActive)
  {
    assert StepFrom(views, tokens, key, i, anyActive) == StepFrom(views, tokens, key, i + 1, anyActive);
    assert FirstAccepting(views, key, i) == FirstAccepting(views, key, i + 1);
    if !AnyIncomplete(views, i + 1) {
      assert !AnyIncomplete(views, i);
    }
  }

  /** Slot `i` is INCOMPLETE and does not accept: its cursor moves and the loop goes on. */
  lemma StepAdvanced(views: seq<SlotView>, tokens: seq<TokenSpec>, key: string, i: nat, anyActive: bool)
    requires i < |views| && views[i].status == Incomplete && StepSlot(views[i], key).0 != 1
    requires Described(views[i := StepSlot(views[i], key).1], tokens, key, i + 1, true)
    ensures Described(views, tokens, key, i, anyActive)
  {
    AdvancedSlot(views, tokens, key, i, anyActive);
  }

  /** What moving the cursor of a non-accepting INCOMPLETE slot `i` changes: the slot advances,
      the rest of the loop sees the same accepting slots and the same reset, and an INCOMPLETE
      slot has been met. */
  lemma AdvancedSlot(views: seq<SlotView>, tokens: seq<TokenSpec>, key: string, i: nat, anyActive: bool)
    requires i < |views| && views[i].status == Incomplete && StepSlot(views[i], key).0 != 1
    ensures var next := views[i := StepSlot(views[i], key).1];
      && StepFrom(views, tokens, key, i, anyActive) == StepFrom(next, tokens, key, i + 1, true)
      && next[i] == Advance(views[i], key)
      && FirstAccepting(next, key, i + 1) == FirstAccepting(views, key, i)
      && ResetAll(next) == ResetAll(views)
      && AnyIncomplete(views, i)
  {
    var v := views[i];
    var (code, w) := StepSlot(v, key);
    var next := views[i := w];
    StepCodes(v.dfa, v.state, key);
    FirstAcceptingFrom(next, views, key, i + 1);
    ResetAllIgnoresCursors(next, views);
  }

  lemma {:induction false} FirstAcceptingFrom(a: seq<SlotView>, b: seq<SlotView>, key: string, i: nat)
    requires i <= |a| == |b| && forall j :: i <= j < |a| ==> a[j] == b[j]
    ensures FirstAccepting(a, key, i) == FirstAccepting(b, key, i)
    decreases |a| - i
  {
    if i < |a| {
      FirstAcceptingFrom(a, b, key, i + 1);
    }
  }

  /** A step, described slot by slot: if some INCOMPLETE slot accepts, the first one in
      registration order wins, every slot is reset and its token is reported; otherwise every
      INCOMPLETE slot advances (dying on a missing transition), the others stay, and the report
      is DEAD exactly when no slot was INCOMPLETE. */
  lemma LexStepSpec(views: seq<SlotView>, tokens: seq<TokenSpec>, key: string)
    ensures var (after, report) := LexStep(views, tokens, key);
      match FirstAccepting(views, key, 0)
      case Some(k) => after == ResetAll(views) && report == AcceptReport(tokens, k)
      case None =>
        && |after| == |views|
        && (forall j :: 0 <= j < |views| ==> after[j] == Advance(views[j], key))
        && report == Ok(if AnyIncomplete(views, 0) then LexIncomplete else LexDead)
  {
    StepFromSpec(views, tokens, key, 0, false);
  }

  /** DEAD is reported exactly when no slot was INCOMPLETE before the key; then nothing changes. */
  lemma DeadIffNoneIncomplete(views: seq<SlotView>, tokens: seq<TokenSpec>, key: string)
    ensures LexStep(views, tokens, key).1 == Ok(LexDead) <==> forall j :: 0 <= j < |views| ==> views[j].status != Incomplete
    ensures (forall j :: 0 <= j < |views| ==> views[j].status != Incomplete) ==> LexStep(views, tokens, key).0 == views
  {
    LexStepSpec(views, tokens, key);
    var (after, report) := LexStep(views, tokens, key);
    if forall j :: 0 <= j < |views| ==> views[j].status != Incomplete {
      assert FirstAccepting(views, key, 0).None?;
      assert after == views;
    }
  }

  /** The slots dying on this key do not make the report DEAD: with an INCOMPLETE slot before
      the key and none accepting, the report is INCOMPLETE even if every such slot dies. */
  lemma DyingIsNotDead(views: seq<SlotView>, tokens: seq<TokenSpec>, key: string, j: nat)
    requires j < |views| && views[j].status == Incomplete
    requires forall k :: 0 <= k < |views| ==> views[k].status == Incomplete ==> Stepped(views[k].dfa, views[k].state, key).0 == -1
    ensures LexStep(views, tokens, key).1 == Ok(LexIncomplete)
    ensures |LexStep(views, tokens, key).0| == |views|
    ensures forall k :: 0 <= k < |views| ==> LexStep(views, tokens, key).0[k].status == Dead || LexStep(views, tokens, key).0[k].status == views[k].status
  {
    LexStepSpec(views, tokens, key);
    assert FirstAccepting(views, key, 0).None?;
  }

  /** The report names the token of the winning slot whenever there are at least as many tokens
      as slots, as after a single `compile`. */
  lemma AcceptNamesToken(views: seq<SlotView>, tokens: seq<TokenSpec>, key: string)
    requires |views| <= |tokens|
    ensures LexStep(views, tokens, key).1.Ok?
    ensures LexStep(views, tokens, key).1.value.LexAccept? <==> FirstAccepting(views, key, 0).Some?
    ensures FirstAccepting(views, key, 0).Some? ==>
      var k := FirstAccepting(views, key, 0).value;
      LexStep(views, tokens, key).1.value == LexAccept(tokens[k].name, tokens[k].regex)
  {
    LexStepSpec(views, tokens, key);
  }

  // ---------------------------------------------------------------------------------------------
  // Compilation
  // ---------------------------------------------------------------------------------------------

  /** The names of the registered tokens. */
  function TokenNames(tokens: seq<TokenSpec>): set<string> {
    set i | 0 <= i < |tokens| :: tokens[i].name
  }

  lemma TokenNamesAppend(tokens: seq<TokenSpec>, t: TokenSpec)
    ensures TokenNames(tokens + [t]) == TokenNames(tokens) + {t.name}
  {
    var ts := tokens + [t];
    forall x | x in TokenNames(tokens)
      ensures x in TokenNames(ts)
    {
      var i :| 0 <= i < |tokens| && tokens[i].name == x;
      assert ts[i].name == x;
    }
    assert ts[|tokens|].name == t.name;
  }

  /** Each slot of `s` was just made for the pattern of the token at the same position. */
  ghost predicate FreshSlots(s: seq<Slot>, ts: seq<TokenSpec>)
    reads set j | 0 <= j < |s| :: s[j].cursor
  {
    |s| == |ts| && forall j :: 0 <= j < |s| ==> FreshSlot(s[j], ts[j].regex)
  }

  lemma FreshSlotsAppend(s: seq<Slot>, ts: seq<TokenSpec>, x: Slot, t: TokenSpec)
    requires FreshSlots(s, ts) && FreshSlot(x, t.regex)
    ensures FreshSlots(s + [x], ts + [t])
  {
  }

  /** Pushing the slot of token `k` after those of the first `k` tokens. */
  lemma ProgressAppend(start: seq<Slot>, s: seq<Slot>, ts: seq<TokenSpec>, k: nat, x: Slot)
    requires k < |ts| && |s| == |start| + k && s[..|start|] == start
    requires FreshSlots(s[|start|..], ts[..k]) && FreshSlot(x, ts[k].regex)
    ensures (s + [x])[..|start|] == start && FreshSlots((s + [x])[|start|..], ts[..k + 1])
  {
    FreshSlotsAppend(s[|start|..], ts[..k], x, ts[k]);
    assert (s + [x])[|start|..] == s[|start|..] + [x];
    assert ts[..k + 1] == ts[..k] + [ts[k]];
  }

  /** The status a freshly compiled slot starts with. */
  function InitialStatus(dfa: Dfa): Status {
    if "0" in dfa.acceptStates then Accept else Incomplete
  }

  /** A slot's entry in the lexer's array: the cursor object and the status. */
  datatype Slot = Slot(cursor: RegexDfa, status: Status)

  /** A slot just made by `compile` for `regex`. */
  ghost predicate FreshSlot(s: Slot, regex: string)
    reads s.cursor
  {
    && s.cursor.regex == regex
    && CompiledFrom(regex, s.cursor.dfa)
    && s.cursor.currentState == "0"
    && s.status == InitialStatus(s.cursor.dfa)
  }

  /** `RegexLexer`. */
  class RegexLexer {
    var tokens: seq<TokenSpec>
    var registeredNames: set<string>
    var slots: seq<Slot>
    var isCompiled: bool

    /** The cursor objects of the slots. */
    function Cursors(): set<object>
      reads this
    {
      set j | 0 <= j < |slots| :: slots[j].cursor
    }

    ghost predicate Valid()
      reads this
    {
      && (forall i, j :: 0 <= i < j < |slots| ==> slots[i].cursor != slots[j].cursor)
      && (forall i :: 0 <= i < |tokens| ==> tokens[i].serialNo == i + 1)
      && (forall i, j :: 0 <= i < j < |tokens| ==> tokens[i].name != tokens[j].name)
      && registeredNames == TokenNames(tokens)
    }

    /** The slots as `step` sees them. */
    ghost function View(): (v: seq<SlotView>)
      reads this, Cursors()
      ensures |v| == |slots|
      ensures forall j :: 0 <= j < |slots| ==>
        v[j] == SlotView(slots[j].cursor.dfa, slots[j].cursor.currentState, slots[j].status)
    {
      seq(|slots|, j requires 0 <= j < |slots| reads this, Cursors() =>
        SlotView(slots[j].cursor.dfa, slots[j].cursor.currentState, slots[j].status))
    }

    constructor()
      ensures Valid()
      ensures tokens == [] && registeredNames == {} && slots == [] && !isCompiled
    {
      tokens := [];
      registeredNames := {};
      slots := [];
      isCompiled := false;
    }

    /** `registerToken`: refused after `compile` and for a name already taken; otherwise the
        token is appended with the next serial number and its name recorded. */
    method RegisterToken(name: string, regex: string) returns (err: Option<RegisterError>)
      requires Valid()
      modifies this
      ensures Valid() && slots == old(slots) && isCompiled == old(isCompiled)
      ensures old(isCompiled) ==> err == Some(AlreadyCompiled)
      ensures !old(isCompiled) && name in old(registeredNames) ==> err == Some(DuplicateName(name))
      ensures err.Some? ==> tokens == old(tokens) && registeredNames == old(registeredNames)
      ensures !old(isCompiled) && name !in old(registeredNames) ==>
        && err == None
        && tokens == old(tokens) + [TokenSpec(name, regex, |old(tokens)| + 1)]
        && registeredNames == old(registeredNames) + {name}
    {
      if isCompiled {
        return Some(AlreadyCompiled);
      }
      if name in registeredNames {
        return Some(DuplicateName(name));
      }
      var token := TokenSpec(name, regex, |tokens| + 1);
      TokenNamesAppend(tokens, token);
      forall i | 0 <= i < |tokens|
        ensures tokens[i].name != name
      {
        assert tokens[i].name in TokenNames(tokens);
      }
      tokens := tokens + [token];
      registeredNames := registeredNames + {name};
      err := None;
    }

    /** `compile`: one slot per token, in registration order, each starting ACCEPT if its
        automaton's initial state accepts and INCOMPLETE otherwise. A pattern that fails to
        compile stops the loop with its error, keeping the slots pushed before it and leaving
        `isCompiled` as it was. Slots from an earlier call are kept. */
    method Compile() returns (err: Option<CompileError>)
      requires Valid()
      modifies this
      ensures Valid()
      ensures tokens == old(tokens) && registeredNames == old(registeredNames)
      ensures |old(slots)| <= |slots| <= |old(slots)| + |tokens| && slots[..|old(slots)|] == old(slots)
      ensures var k := |slots| - |old(slots)|;
        && FreshSlots(slots[|old(slots)|..], tokens[..k])
        && (k == |tokens| ==> err == None && isCompiled)
        && (k < |tokens| ==> NfaOf(tokens[k].regex).Err? && err == Some(NfaOf(tokens[k].regex).error) && isCompiled == old(isCompiled))
    {
      err := None;
      for k := 0 to |tokens|
        invariant Valid()
        invariant tokens == old(tokens) && registeredNames == old(registeredNames) && isCompiled == old(isCompiled)
        invariant Progress(old(slots), k) && err == None
      {
        err := PushToken(old(slots), k);
        if err != None {
          return;
        }
      }
      isCompiled := true;
    }

    /** The first `k` tokens have had their slots pushed after `start`. */
    ghost predicate Progress(start: seq<Slot>, k: nat)
      reads this, Cursors()
    {
      && k <= |tokens|
      && |slots| == |start| + k
      && slots[..|start|] == start
      && FreshSlots(slots[|start|..], tokens[..k])
    }

    /** One round of the loop of `compile`: token `k`'s slot is pushed, or its pattern's error
        is returned. */
    method PushToken(ghost start: seq<Slot>, k: nat) returns (err: Option<CompileError>)
      requires Valid() && k < |tokens| && Progress(start, k)
      modifies this
      ensures Valid()
      ensures tokens == old(tokens) && registeredNames == old(registeredNames) && isCompiled == old(isCompiled)
      ensures err == None ==> Progress(start, k + 1)
      ensures err != None ==> Progress(start, k) && NfaOf(tokens[k].regex).Err? && err == Some(NfaOf(tokens[k].regex).error)
    {
      var created := RegexDfa.Create(tokens[k].regex);
      if created.Err? {
        return Some(created.error);
      }
      var cursor := created.value;
      var status := if cursor.IsAccepting() then Accept else Incomplete;
      ProgressAppend(start, slots, tokens, k, Slot(cursor, status));
      slots := slots + [Slot(cursor, status)];
      err := None;
    }

    /** `step`: advances the INCOMPLETE slots in order until one accepts. */
    method Step(key: string) returns (r: Result<LexResult, LexError>)
      requires Valid()
      modifies this, Cursors()
      ensures Valid()
      ensures tokens == old(tokens) && registeredNames == old(registeredNames) && isCompiled == old(isCompiled)
      ensures |slots| == |old(slots)| && forall j :: 0 <= j < |slots| ==> slots[j].cursor == old(slots[j].cursor)
      ensures (View(), r) == LexStep(old(View()), tokens, key)
    {
      ghost var start := View();
      var anyActive := false;
      var i := 0;
      while i < |slots|
        invariant 0 <= i <= |slots| == |old(slots)|
        invariant forall j :: 0 <= j < |slots| ==> slots[j].cursor == old(slots[j].cursor)
        invariant Valid()
        invariant tokens == old(tokens) && registeredNames == old(registeredNames) && isCompiled == old(isCompiled)
        invariant StepFrom(View(), tokens, key, i, anyActive) == LexStep(start, tokens, key)
      {
        if slots[i].status == Incomplete {
          anyActive := true;
          var code := StepCursor(i, key);
          if code == 1 {
            Reset();
            if i < |tokens| {
              return Ok(LexAccept(tokens[i].name, tokens[i].regex));
            } else {
              return Err(NoTokenForSlot(i));
            }
          }
        }
        i := i + 1;
      }
      if !anyActive {
        return Ok(LexDead);
      } else {
        return Ok(LexIncomplete);
      }
    }

    /** The body of `step` for one INCOMPLETE slot: its cursor reads `key` and the slot's status
        follows the code. */
    method StepCursor(i: nat, key: string) returns (code: int)
      requires Valid() && i < |slots| && slots[i].status == Incomplete
      modifies this, slots[i].cursor
      ensures Valid()
      ensures tokens == old(tokens) && registeredNames == old(registeredNames) && isCompiled == old(isCompiled)
      ensures |slots| == |old(slots)| && forall j :: 0 <= j < |slots| ==> slots[j].cursor == old(slots[j].cursor)
      ensures (code, View()) == var (c, w) := StepSlot(old(View())[i], key); (c, old(View())[i := w])
    {
      ghost var before := View();
      var slot := slots[i];
      code := slot.cursor.Step(key);
      var status := if code == -1 then Dead else if code == 1 then Accept else Incomplete;
      slots := slots[i := slot.(status := status)];
      ghost var w := StepSlot(before[i], key).1;
      assert View()[i] == w;
      assert forall j :: 0 <= j < |slots| && j != i ==> View()[j] == before[j];
      assert View() == before[i := w];
    }

    /** `reset`: every cursor back to "0", every slot INCOMPLETE. */
    method Reset()
      requires Valid()
      modifies this, Cursors()
      ensures Valid()
      ensures tokens == old(tokens) && registeredNames == old(registeredNames) && isCompiled == old(isCompiled)
      ensures |slots| == |old(slots)| && forall j :: 0 <= j < |slots| ==> slots[j].cursor == old(slots[j].cursor)
      ensures View() == ResetAll(old(View()))
    {
      ghost var start := View();
      for i := 0 to |slots|
        invariant |slots| == |old(slots)|
        invariant forall j :: 0 <= j < |slots| ==> slots[j].cursor == old(slots[j].cursor)
        invariant Valid()
        invariant tokens == old(tokens) && registeredNames == old(registeredNames) && isCompiled == old(isCompiled)
        invariant forall j :: 0 <= j < i ==> View()[j] == ResetAll(start)[j]
        invariant forall j :: i <= j < |slots| ==> View()[j] == start[j]
      {
        slots[i].cursor.Reset();
        slots := slots[i := slots[i].(status := Incomplete)];
      }
    }
  }
}
