/**
 * The subset construction of ui/lib/src/nvui/automata.ts: epsilon closure, `move`, the
 * alphabet, the canonical key of a state set, and `nfaToDfa`, which explores the closures
 * reachable from the start state breadth first and names them "0", "1", … in discovery order.
 */
module Subset {
  import opened Wrappers
  import opened Text
  import opened Thompson

  // ---------------------------------------------------------------------------------------------
  // Epsilon closure
  // ---------------------------------------------------------------------------------------------

  /** Every epsilon edge leaving `s` stays in `s`. */
  ghost predicate EpsilonClosed(e: EpsilonEdges, s: set<nat>) {
    forall q, r :: q in s && r in EpsilonTargets(e, q) ==> r in s
  }

  /** The states some epsilon edge leads to. */
  function EpsilonImage(e: EpsilonEdges): set<nat> {
    set q, r | q in e && r in e[q] :: r
  }

  /** The targets of the epsilon edges leaving `s`. */
  ghost function EpsilonStep(e: EpsilonEdges, s: set<nat>): set<nat> {
    set q, r | q in s && r in EpsilonTargets(e, q) :: r
  }

  /** The states reachable from `s` along at most `n` epsilon edges. */
  ghost function Reach(e: EpsilonEdges, s: set<nat>, n: nat): set<nat>
    decreases n
  {
    if n == 0 then s else Reach(e, s, n - 1) + EpsilonStep(e, Reach(e, s, n - 1))
  }

  /** The epsilon closure of `s`: the states reachable from `s` along epsilon edges. No path
      needs more steps than there are epsilon targets. */
  ghost function Closure(e: EpsilonEdges, s: set<nat>): set<nat> {
    Reach(e, s, |EpsilonImage(e)|)
  }

  lemma SubsetCardinality<T>(a: set<T>, b: set<T>)
    requires a <= b
    ensures |a| <= |b| && (a != b ==> |a| < |b|)
  {
    assert b == a + (b - a);
    if a != b {
      var x :| x in b - a;
    }
  }

  lemma {:induction false} ReachWithin(e: EpsilonEdges, s: set<nat>, n: nat)
    ensures s <= Reach(e, s, n) <= s + EpsilonImage(e)
    decreases n
  {
    if n > 0 {
      ReachWithin(e, s, n - 1);
      forall r | r in EpsilonStep(e, Reach(e, s, n - 1))
        ensures r in EpsilonImage(e)
      {
        var q :| q in Reach(e, s, n - 1) && r in EpsilonTargets(e, q);
      }
    }
  }

  lemma {:induction false} ReachLeast(e: EpsilonEdges, s: set<nat>, d: set<nat>, n: nat)
    requires s <= d && EpsilonClosed(e, d)
    ensures Reach(e, s, n) <= d
    decreases n
  {
    if n > 0 {
      ReachLeast(e, s, d, n - 1);
    }
  }

  lemma ReachStable(e: EpsilonEdges, s: set<nat>, n: nat)
    ensures Reach(e, s, n + 1) == Reach(e, s, n) ==> Reach(e, s, n + 2) == Reach(e, s, n + 1)
  {
  }

  lemma ReachMonotone(e: EpsilonEdges, s: set<nat>, n: nat)
    ensures Reach(e, s, n) <= Reach(e, s, n + 1)
  {
  }

  /** A set that grows past one holding `k` states holds at least `k + 1`. */
  lemma GrowthStep(before: set<nat>, now: set<nat>, after: set<nat>, k: nat)
    requires before <= now && (now == before ==> after == now)
    requires now == before || |before| >= k
    ensures after == now || |now| >= k + 1
  {
    if now != before {
      SubsetCardinality(before, now);
    }
  }

  /** In a growing chain of sets that, once it stops changing, stays put, every step until then
      adds an element. */
  lemma {:induction false} ChainGrows(f: nat -> set<nat>, n: nat)
    requires forall i: nat :: f(i) <= f(i + 1)
    requires forall i: nat :: f(i + 1) == f(i) ==> f(i + 2) == f(i + 1)
    ensures f(n + 1) == f(n) || |f(n)| >= |f(0)| + n
    decreases n
  {
    if n > 0 {
      ChainGrows(f, n - 1);
      GrowthStep(f(n - 1), f(n), f(n + 1), |f(0)| + n - 1);
    }
  }

  /** Until it stops changing, every step adds a state. */
  lemma ReachGrows(e: EpsilonEdges, s: set<nat>, n: nat)
    ensures Reach(e, s, n + 1) == Reach(e, s, n) || |Reach(e, s, n)| >= |s| + n
  {
    var f := (i: nat) => Reach(e, s, i);
    forall i: nat
      ensures f(i) <= f(i + 1) && (f(i + 1) == f(i) ==> f(i + 2) == f(i + 1))
    {
      ReachMonotone(e, s, i);
      ReachStable(e, s, i);
    }
    ChainGrows(f, n);
  }

  lemma ClosureIsFixpoint(e: EpsilonEdges, s: set<nat>)
    ensures Reach(e, s, |EpsilonImage(e)| + 1) == Closure(e, s)
  {
    var n := |EpsilonImage(e)|;
    ReachGrows(e, s, n);
    if Reach(e, s, n + 1) != Reach(e, s, n) {
      ReachWithin(e, s, n + 1);
      SubsetCardinality(Reach(e, s, n), Reach(e, s, n + 1));
      SubsetCardinality(Reach(e, s, n + 1), s + EpsilonImage(e));
      assert false;
    }
  }

  /** The closure is the least epsilon-closed superset. */
  lemma ClosureIsLeast(e: EpsilonEdges, s: set<nat>)
    ensures s <= Closure(e, s) && EpsilonClosed(e, Closure(e, s))
    ensures forall d :: s <= d && EpsilonClosed(e, d) ==> Closure(e, s) <= d
    ensures Closure(e, s) <= s + EpsilonImage(e)
  {
    var n := |EpsilonImage(e)|;
    ReachWithin(e, s, n);
    ClosureIsFixpoint(e, s);
    var c := Closure(e, s);
    forall q, r | q in c && r in EpsilonTargets(e, q)
      ensures r in c
    {
      assert r in EpsilonStep(e, c);
    }
    forall d | s <= d && EpsilonClosed(e, d)
      ensures c <= d
    {
      ReachLeast(e, s, d, n);
    }
  }

  /** Any set with the defining properties of the closure is the closure. */
  lemma ClosureUnique(e: EpsilonEdges, s: set<nat>, c: set<nat>)
    requires s <= c && EpsilonClosed(e, c) && c <= s + EpsilonImage(e)
    requires forall d :: s <= d && EpsilonClosed(e, d) ==> c <= d
    ensures c == Closure(e, s)
  {
    ClosureIsLeast(e, s);
  }

  lemma ClosureOfEmpty(e: EpsilonEdges)
    ensures Closure(e, {}) == {}
  {
    ClosureUnique(e, {}, {});
  }

  /** The elements of `s` in some order, each once. */
  method Enumerate<T>(s: set<T>) returns (xs: seq<T>)
    ensures forall x :: x in s <==> x in xs
    ensures forall i, j :: 0 <= i < j < |xs| ==> xs[i] != xs[j]
  {
    xs := [];
    var rest := s;
    while rest != {}
      invariant forall x :: x in s <==> x in xs || x in rest
      invariant forall x :: x in xs ==> x !in rest
      invariant forall i, j :: 0 <= i < j < |xs| ==> xs[i] != xs[j]
      decreases rest
    {
      var x :| x in rest;
      xs := xs + [x];
      rest := rest - {x};
    }
  }

  /** The worklist traversal of `epsilonClosure`: a stack of states whose epsilon edges are
      still to be followed. */
  method EpsilonClosure(states: set<nat>, e: EpsilonEdges) returns (closure: set<nat>)
    ensures closure == Closure(e, states)
  {
    var universe := states + EpsilonImage(e);
    closure := states;
    var stack := Enumerate(states);
    while |stack| > 0
      invariant states <= closure <= universe
      invariant forall x :: x in stack ==> x in closure
      invariant forall i, j :: 0 <= i < j < |stack| ==> stack[i] != stack[j]
      invariant forall q, r :: q in closure && q !in stack && r in EpsilonTargets(e, q) ==> r in closure
      invariant forall d :: states <= d && EpsilonClosed(e, d) ==> closure <= d
      decreases universe - closure, |stack|
    {
      var state := stack[|stack| - 1];
      stack := stack[..|stack| - 1];
      if state !in e {
        continue;
      }
      closure, stack := FollowEdges(e, states, universe, state, closure, stack);
    }
    ClosureUnique(e, states, closure);
  }

  /** The inner loop of `epsilonClosure`: every epsilon target of `state` not yet in the closure
      joins it and is pushed on the stack. */
  method FollowEdges(e: EpsilonEdges, states: set<nat>, universe: set<nat>, state: nat,
                     closure: set<nat>, stack: seq<nat>)
    returns (closure': set<nat>, stack': seq<nat>)
    requires state in e && universe == states + EpsilonImage(e)
    requires states <= closure <= universe
    requires forall x :: x in stack ==> x in closure
    requires forall i, j :: 0 <= i < j < |stack| ==> stack[i] != stack[j]
    requires state in closure && state !in stack
    requires forall q, r :: q in closure && q !in stack && q != state && r in EpsilonTargets(e, q) ==> r in closure
    requires forall d :: states <= d && EpsilonClosed(e, d) ==> closure <= d
    ensures states <= closure' <= universe
    ensures forall x :: x in stack' ==> x in closure'
    ensures forall i, j :: 0 <= i < j < |stack'| ==> stack'[i] != stack'[j]
    ensures forall q, r :: q in closure' && q !in stack' && r in EpsilonTargets(e, q) ==> r in closure'
    ensures forall d :: states <= d && EpsilonClosed(e, d) ==> closure' <= d
    ensures closure <= closure' && (closure' == closure ==> |stack'| == |stack|)
  {
    closure', stack' := closure, stack;
    var nextStates := e[state];
    var todo := nextStates;
    while todo != {}
      invariant closure' <= universe && states <= closure'
      invariant forall x :: x in stack' ==> x in closure'
      invariant forall i, j :: 0 <= i < j < |stack'| ==> stack'[i] != stack'[j]
      invariant state in closure' && state !in stack'
      invariant forall r :: r in nextStates && r !in todo ==> r in closure'
      invariant forall q, r :: q in closure' && q !in stack' && q != state && r in EpsilonTargets(e, q) ==> r in closure'
      invariant forall d :: states <= d && EpsilonClosed(e, d) ==> closure' <= d
      invariant closure <= closure' && (closure' == closure ==> |stack'| == |stack|)
      invariant todo <= nextStates
      decreases todo
    {
      var next :| next in todo;
      todo := todo - {next};
      if next !in closure' {
        assert next in EpsilonImage(e);
        closure' := closure' + {next};
        stack' := stack' + [next];
      }
    }
  }

  // ---------------------------------------------------------------------------------------------
  // Move and the alphabet
  // ---------------------------------------------------------------------------------------------

  /** The states a `c`-edge leads to from some state of `s`. */
  function MoveSet(t: SymbolEdges, s: set<nat>, c: char): set<nat> {
    set q, r | q in s && r in Targets(t, q, c) :: r
  }

  lemma MoveSetAdd(t: SymbolEdges, s: set<nat>, q: nat, c: char)
    ensures MoveSet(t, s + {q}, c) == MoveSet(t, s, c) + Targets(t, q, c)
  {
  }

  /** The loop of `move`: the targets of every state's `symbol` edges, collected. */
  method Move(states: set<nat>, symbol: char, t: SymbolEdges) returns (result: set<nat>)
    ensures result == MoveSet(t, states, symbol)
  {
    result := {};
    var todo := states;
    while todo != {}
      invariant todo <= states
      invariant result == MoveSet(t, states - todo, symbol)
      decreases todo
    {
      var state :| state in todo;
      todo := todo - {state};
      if state in t && symbol in t[state] {
        var nextStates := t[state][symbol];
        var pending := nextStates;
        while pending != {}
          invariant pending <= nextStates
          invariant result == MoveSet(t, states - todo - {state}, symbol) + (nextStates - pending)
          decreases pending
        {
          var next :| next in pending;
          pending := pending - {next};
          result := result + {next};
        }
        MoveSetAdd(t, states - todo - {state}, state, symbol);
        assert states - todo == states - todo - {state} + {state};
      } else {
        MoveSetAdd(t, states - todo - {state}, state, symbol);
        assert states - todo == states - todo - {state} + {state};
      }
    }
    assert states - todo == states;
  }

  /** The symbols some edge is labelled with. */
  function Alphabet(t: SymbolEdges): set<char> {
    set q, c | q in t && c in t[q] :: c
  }

  /** The loop of `collectAlphabet`: every symbol of every row. */
  method CollectAlphabet(t: SymbolEdges) returns (alphabet: set<char>)
    ensures alphabet == Alphabet(t)
  {
    alphabet := {};
    var rows := t.Keys;
    while rows != {}
      invariant rows <= t.Keys
      invariant alphabet == set q, c | q in t.Keys - rows && c in t[q] :: c
      decreases rows
    {
      var q :| q in rows;
      rows := rows - {q};
      var symbols := t[q].Keys;
      while symbols != {}
        invariant symbols <= t[q].Keys
        invariant alphabet == (set p, c | p in t.Keys - rows - {q} && c in t[p] :: c) + (t[q].Keys - symbols)
        decreases symbols
      {
        var c :| c in symbols;
        symbols := symbols - {c};
        alphabet := alphabet + {c};
      }
      assert (set p, c | p in t.Keys - rows && c in t[p] :: c) ==
        (set p, c | p in t.Keys - rows - {q} && c in t[p] :: c) + t[q].Keys;
    }
    assert t.Keys - rows == t.Keys;
  }

  /** A symbol outside the alphabet moves nowhere. */
  lemma MoveOutsideAlphabet(t: SymbolEdges, s: set<nat>, c: char)
    requires c !in Alphabet(t)
    ensures MoveSet(t, s, c) == {}
  {
  }

  // ---------------------------------------------------------------------------------------------
  // The canonical key of a state set
  // ---------------------------------------------------------------------------------------------

  /** `m` is at most every element of `s`. */
  predicate IsLeast(m: nat, s: set<nat>) {
    forall x :: x in s ==> m <= x
  }

  lemma MinimumExists(s: set<nat>)
    requires s != {}
    ensures exists m :: m in s && IsLeast(m, s)
  {
    var x :| x in s;
    if s != {x} {
      MinimumExists(s - {x});
      var m :| m in s - {x} && IsLeast(m, s - {x});
      var least := if x <= m then x else m;
      forall y | y in s
        ensures least <= y
      {
        if y != x {
          assert y in s - {x};
        }
      }
      assert least in s && IsLeast(least, s);
    } else {
      assert x in s && IsLeast(x, s);
    }
  }

  /** The least element of a non-empty set. */
  function Minimum(s: set<nat>): (m: nat)
    requires s != {}
    ensures m in s && forall x :: x in s ==> m <= x
  {
    MinimumExists(s);
    var m :| m in s && IsLeast(m, s); m
  }

  /** The elements of `s` in ascending order: `[...states].sort((a, b) => a - b)`. */
  function Ascending(s: set<nat>): (xs: seq<nat>)
    ensures forall x :: x in s <==> x in xs
    ensures forall i, j :: 0 <= i < j < |xs| ==> xs[i] < xs[j]
    decreases s
  {
    if s == {} then []
    else
      var m := Minimum(s);
      [m] + Ascending(s - {m})
  }

  /** The decimal spellings of the numbers `xs`, in order. */
  function Spellings(xs: seq<nat>): seq<string> {
    seq(|xs|, i requires 0 <= i < |xs| => NatToString(xs[i]))
  }

  /** `stateSetKey`: the members in ascending order, in decimal, joined with commas. */
  function StateSetKey(s: set<nat>): string {
    Join(Spellings(Ascending(s)), ",")
  }

  /** Distinct state sets have distinct keys, so the key can stand for the set. */
  lemma StateSetKeyInjective(a: set<nat>, b: set<nat>)
    requires StateSetKey(a) == StateSetKey(b)
    ensures a == b
  {
    var xs, ys := Spellings(Ascending(a)), Spellings(Ascending(b));
    forall ws: seq<string>, i | ws in {xs, ys} && 0 <= i < |ws|
      ensures Field(ws[i], ',')
    {
      var n := if ws == xs then Ascending(a)[i] else Ascending(b)[i];
      NatToStringParses(n);
    }
    JoinInjective(xs, ys, ',');
    forall i | 0 <= i < |Ascending(a)|
      ensures Ascending(a)[i] == Ascending(b)[i]
    {
      assert xs[i] == ys[i];
      NatToStringInjective(Ascending(a)[i], Ascending(b)[i]);
    }
    assert Ascending(a) == Ascending(b);
  }

  // ---------------------------------------------------------------------------------------------
  // The deterministic automaton
  // ---------------------------------------------------------------------------------------------

  type Table = map<string, map<char, string>>

  /** The compiled automaton: its initial state's name, the transition table by state name and
      then by symbol, the accepting names and the number of states. Being a map, the table has at
      most one target per state and symbol. */
  datatype Dfa = Dfa(initialState: string, transitions: Table, acceptStates: set<string>, numberOfStates: nat)

  /** The name the `i`-th discovered state gets: `String(i)`. */
  function Name(i: nat): string {
    NatToString(i)
  }

  /** The names of the first `n` states discovered. */
  function Names(n: nat): set<string> {
    set i | 0 <= i < n :: Name(i)
  }

  lemma NameInNames(i: nat, n: nat)
    ensures Name(i) in Names(n) <==> i < n
  {
    if Name(i) in Names(n) {
      var j :| 0 <= j < n && Name(j) == Name(i);
      NatToStringInjective(i, j);
    }
  }

  /** The target of `q` on `c` in the table; a missing row, like a missing entry, means none. */
  function TableLookup(table: Table, q: string, c: char): Option<string> {
    if q in table && c in table[q] then Some(table[q][c]) else None
  }

  function Lookup(dfa: Dfa, q: string, c: char): Option<string> {
    TableLookup(dfa.transitions, q, c)
  }

  /** The position of the first occurrence of `x` in `xs`. */
  function IndexOf(xs: seq<set<nat>>, x: set<nat>): (i: nat)
    requires x in xs
    ensures i < |xs| && xs[i] == x
    ensures forall j :: 0 <= j < i ==> xs[j] != x
  {
    if xs[0] == x then 0 else 1 + IndexOf(xs[1..], x)
  }

  predicate Prefix(xs: seq<set<nat>>, ys: seq<set<nat>>) {
    |xs| <= |ys| && ys[..|xs|] == xs
  }

  lemma IndexOfPrefix(xs: seq<set<nat>>, ys: seq<set<nat>>, x: set<nat>)
    requires x in xs && Prefix(xs, ys)
    ensures x in ys && IndexOf(ys, x) == IndexOf(xs, x)
  {
    var i := IndexOf(xs, x);
    assert ys[i] == xs[i];
  }

  /** The symbol edges' targets. */
  function SymbolImage(t: SymbolEdges): set<nat> {
    set q, c, r | q in t && c in t[q] && r in t[q][c] :: r
  }

  /** Every state the automaton mentions as a start or a target. */
  function StatesOf(nfa: Nfa): set<nat> {
    {nfa.start} + EpsilonImage(nfa.epsilonTransitions) + SymbolImage(nfa.transitions)
  }

  lemma MoveWithin(t: SymbolEdges, s: set<nat>, c: char)
    ensures MoveSet(t, s, c) <= SymbolImage(t)
  {
    forall r | r in MoveSet(t, s, c)
      ensures r in SymbolImage(t)
    {
      var q :| q in s && r in Targets(t, q, c);
    }
  }

  /** What the table says about state `i` and symbol `c`: nothing when no `c`-edge leaves its
      NFA states, else the name of the closure of where those edges lead. */
  ghost predicate RowEntry(nfa: Nfa, sets: seq<set<nat>>, table: Table, i: nat, c: char)
    requires i < |sets|
  {
    var moved := MoveSet(nfa.transitions, sets[i], c);
    if moved == {} then TableLookup(table, Name(i), c) == None
    else
      var target := Closure(nfa.epsilonTransitions, moved);
      target in sets && TableLookup(table, Name(i), c) == Some(Name(IndexOf(sets, target)))
  }

  /** `s` is the closure of where one symbol leads from one of the sets in `earlier`. */
  ghost predicate Successor(nfa: Nfa, earlier: seq<set<nat>>, s: set<nat>) {
    exists j, c :: 0 <= j < |earlier| && s == Closure(nfa.epsilonTransitions, MoveSet(nfa.transitions, earlier[j], c))
  }

  /** Every set after the first was reached from an earlier one: nothing is listed that the
      exploration from the start state cannot find. */
  ghost predicate Derived(nfa: Nfa, sets: seq<set<nat>>) {
    forall i :: 0 < i < |sets| ==> Successor(nfa, sets[..i], sets[i])
  }

  /** The DFA `dfa` is the subset construction of `nfa`, state `Name(i)` standing for the NFA
      state set `sets[i]`: the initial state is the closure of the start, states are distinct
      non-empty sets, each row follows `RowEntry` for every symbol, and a state accepts exactly
      when its set holds the NFA's accepting state. */
  ghost predicate Represents(nfa: Nfa, dfa: Dfa, sets: seq<set<nat>>) {
    && |sets| == dfa.numberOfStates >= 1
    && dfa.initialState == Name(0)
    && sets[0] == Closure(nfa.epsilonTransitions, {nfa.start})
    && (forall i, j :: 0 <= i < j < |sets| ==> sets[i] != sets[j])
    && (forall i :: 0 <= i < |sets| ==> sets[i] != {})
    && dfa.transitions.Keys <= Names(|sets|)
    && (forall i, c :: 0 <= i < |sets| ==> RowEntry(nfa, sets, dfa.transitions, i, c))
    && (forall i :: 0 <= i < |sets| ==> (Name(i) in dfa.acceptStates <==> nfa.accept in sets[i]))
    && dfa.acceptStates <= Names(|sets|)
    && Derived(nfa, sets)
  }

  /** The keys of the state sets in `sets`. */
  ghost function KeysOf(sets: seq<set<nat>>): set<string>
    decreases |sets|
  {
    if sets == [] then {} else KeysOf(sets[..|sets| - 1]) + {StateSetKey(sets[|sets| - 1])}
  }

  lemma {:induction false} KeysOfAppend(sets: seq<set<nat>>, s: set<nat>)
    ensures KeysOf(sets + [s]) == KeysOf(sets) + {StateSetKey(s)}
  {
    assert (sets + [s])[..|sets|] == sets;
  }

  lemma {:induction false} KeysOfMember(sets: seq<set<nat>>, k: string)
    requires k in KeysOf(sets)
    ensures exists i :: 0 <= i < |sets| && StateSetKey(sets[i]) == k
    decreases |sets|
  {
    var n := |sets| - 1;
    if k != StateSetKey(sets[n]) {
      KeysOfMember(sets[..n], k);
      var i :| 0 <= i < n && StateSetKey(sets[..n][i]) == k;
      assert sets[i] == sets[..n][i];
    }
  }

  /** The key table and the name table agree with the sets discovered so far. */
  ghost predicate Discovered(nfa: Nfa, sets: seq<set<nat>>, keys: map<string, string>, stateSets: map<string, set<nat>>) {
    && |sets| >= 1
    && sets[0] == Closure(nfa.epsilonTransitions, {nfa.start})
    && (forall i, j :: 0 <= i < j < |sets| ==> sets[i] != sets[j])
    && (forall i :: 0 <= i < |sets| ==> sets[i] != {} && sets[i] <= StatesOf(nfa))
    && |keys| == |sets|
    && keys.Keys <= KeysOf(sets)
    && (forall i :: 0 <= i < |sets| ==> StateSetKey(sets[i]) in keys && keys[StateSetKey(sets[i])] == Name(i))
    && (forall i :: 0 <= i < |sets| ==> Name(i) in stateSets && stateSets[Name(i)] == sets[i])
    && Derived(nfa, sets)
  }

  /** The queue holds the names of the discovered states not yet explored, in order. */
  predicate Pending(queue: seq<string>, done: nat, n: nat) {
    done <= n && |queue| == n - done && forall k :: 0 <= k < |queue| ==> queue[k] == Name(done + k)
  }

  /** The rows of the first `done` states are complete, and no other state has a row. */
  ghost predicate Rows(nfa: Nfa, sets: seq<set<nat>>, table: Table, done: nat) {
    && done <= |sets|
    && table.Keys <= Names(done)
    && forall i, c :: 0 <= i < done ==> RowEntry(nfa, sets, table, i, c)
  }

  /** The first `done` states are marked accepting exactly when their set holds the NFA's
      accepting state. */
  ghost predicate Accepting(nfa: Nfa, sets: seq<set<nat>>, accepting: set<string>, done: nat) {
    && accepting <= Names(done)
    && forall i :: 0 <= i < done <= |sets| ==> (Name(i) in accepting <==> nfa.accept in sets[i])
  }

  lemma RowEntryStable(nfa: Nfa, sets: seq<set<nat>>, sets': seq<set<nat>>, table: Table, table': Table, i: nat, c: char)
    requires i < |sets| && Prefix(sets, sets') && RowEntry(nfa, sets, table, i, c)
    requires TableLookup(table', Name(i), c) == TableLookup(table, Name(i), c)
    ensures RowEntry(nfa, sets', table', i, c)
  {
    assert sets'[i] == sets[i];
    var moved := MoveSet(nfa.transitions, sets[i], c);
    if moved != {} {
      IndexOfPrefix(sets, sets', Closure(nfa.epsilonTransitions, moved));
    }
  }

  lemma ClosureExtends(e: EpsilonEdges, s: set<nat>)
    ensures s <= Closure(e, s)
  {
    ClosureIsLeast(e, s);
  }

  /** The closure of a move stays among the automaton's states. */
  lemma TargetWithin(nfa: Nfa, s: set<nat>, c: char)
    ensures Closure(nfa.epsilonTransitions, MoveSet(nfa.transitions, s, c)) <= StatesOf(nfa)
  {
    MoveWithin(nfa.transitions, s, c);
    ClosureIsLeast(nfa.epsilonTransitions, MoveSet(nfa.transitions, s, c));
  }

  lemma ExtendDistinct(sets: seq<set<nat>>, target: set<nat>)
    requires forall i, j :: 0 <= i < j < |sets| ==> sets[i] != sets[j]
    requires target !in sets
    ensures forall i, j :: 0 <= i < j < |sets + [target]| ==> (sets + [target])[i] != (sets + [target])[j]
  {
  }

  lemma ExtendWithin(sets: seq<set<nat>>, target: set<nat>, universe: set<nat>)
    requires forall i :: 0 <= i < |sets| ==> sets[i] != {} && sets[i] <= universe
    requires target != {} && target <= universe
    ensures forall i :: 0 <= i < |sets + [target]| ==> (sets + [target])[i] != {} && (sets + [target])[i] <= universe
  {
  }

  lemma ExtendKeys(sets: seq<set<nat>>, keys: map<string, string>, target: set<nat>)
    requires forall i :: 0 <= i < |sets| ==> StateSetKey(sets[i]) in keys && keys[StateSetKey(sets[i])] == Name(i)
    requires keys.Keys <= KeysOf(sets) && StateSetKey(target) !in keys
    ensures target !in sets
    ensures var sets', keys' := sets + [target], keys[StateSetKey(target) := Name(|sets|)];
      && keys'.Keys <= KeysOf(sets')
      && forall i :: 0 <= i < |sets'| ==> StateSetKey(sets'[i]) in keys' && keys'[StateSetKey(sets'[i])] == Name(i)
  {
    KeysOfAppend(sets, target);
  }

  lemma ExtendNames(sets: seq<set<nat>>, stateSets: map<string, set<nat>>, target: set<nat>)
    requires forall i :: 0 <= i < |sets| ==> Name(i) in stateSets && stateSets[Name(i)] == sets[i]
    ensures var sets', stateSets' := sets + [target], stateSets[Name(|sets|) := target];
      forall i :: 0 <= i < |sets'| ==> Name(i) in stateSets' && stateSets'[Name(i)] == sets'[i]
  {
    forall i | 0 <= i < |sets|
      ensures Name(i) != Name(|sets|)
    {
      NatToStringInjective(i, |sets|);
    }
  }

  lemma DiscoveredExtend(nfa: Nfa, sets: seq<set<nat>>, keys: map<string, string>, stateSets: map<string, set<nat>>, target: set<nat>)
    requires Discovered(nfa, sets, keys, stateSets)
    requires StateSetKey(target) !in keys && target != {} && target <= StatesOf(nfa)
    requires Successor(nfa, sets, target)
    ensures target !in sets
    ensures Discovered(nfa, sets + [target], keys[StateSetKey(target) := Name(|sets|)], stateSets[Name(|sets|) := target])
    ensures target in sets + [target] && IndexOf(sets + [target], target) == |sets|
  {
    ExtendKeys(sets, keys, target);
    ExtendDistinct(sets, target);
    ExtendWithin(sets, target, StatesOf(nfa));
    ExtendNames(sets, stateSets, target);
    DerivedExtend(nfa, sets, target);
    assert (sets + [target])[0] == sets[0];
    assert (sets + [target])[|sets|] == target;
  }

  lemma DerivedExtend(nfa: Nfa, sets: seq<set<nat>>, target: set<nat>)
    requires Derived(nfa, sets) && Successor(nfa, sets, target)
    ensures Derived(nfa, sets + [target])
  {
    var sets' := sets + [target];
    forall i | 0 < i < |sets'|
      ensures Successor(nfa, sets'[..i], sets'[i])
    {
      if i < |sets| {
        assert sets'[..i] == sets[..i] && sets'[i] == sets[i];
      } else {
        assert sets'[..i] == sets;
      }
    }
  }

  /** The closure of a move out of a discovered set is a successor of the discovered sets. */
  lemma MoveSuccessor(nfa: Nfa, sets: seq<set<nat>>, i: nat, c: char)
    requires i < |sets|
    ensures Successor(nfa, sets, Closure(nfa.epsilonTransitions, MoveSet(nfa.transitions, sets[i], c)))
  {
  }

  lemma DiscoveredFind(nfa: Nfa, sets: seq<set<nat>>, keys: map<string, string>, stateSets: map<string, set<nat>>, target: set<nat>)
    requires Discovered(nfa, sets, keys, stateSets) && StateSetKey(target) in keys
    ensures target in sets && keys[StateSetKey(target)] == Name(IndexOf(sets, target))
  {
    KeysOfMember(sets, StateSetKey(target));
    var i :| 0 <= i < |sets| && StateSetKey(sets[i]) == StateSetKey(target);
    StateSetKeyInjective(sets[i], target);
  }

  /** A set not seen before becomes state `String(|keys|)`, queued last. */
  lemma DiscoverFresh(nfa: Nfa, sets: seq<set<nat>>, keys: map<string, string>, stateSets: map<string, set<nat>>,
                      queue: seq<string>, done: nat, target: set<nat>)
    requires Discovered(nfa, sets, keys, stateSets) && Pending(queue, done, |sets|)
    requires StateSetKey(target) !in keys && target != {} && target <= StatesOf(nfa) && Successor(nfa, sets, target)
    ensures var name := NatToString(|keys|);
      && target !in sets
      && Discovered(nfa, sets + [target], keys[StateSetKey(target) := name], stateSets[name := target])
      && Pending(queue + [name], done, |sets| + 1)
      && target in sets + [target] && name == Name(IndexOf(sets + [target], target))
  {
    DiscoveredExtend(nfa, sets, keys, stateSets, target);
  }

  /** Finding or creating the state for a target closure: the body of the `keyToDfaState` lookup. */
  method Discover(nfa: Nfa, target: set<nat>, keys: map<string, string>, stateSets: map<string, set<nat>>,
                  queue: seq<string>, ghost sets: seq<set<nat>>, ghost done: nat)
    returns (keys': map<string, string>, stateSets': map<string, set<nat>>, queue': seq<string>,
             name: string, ghost sets': seq<set<nat>>)
    requires Discovered(nfa, sets, keys, stateSets) && Pending(queue, done, |sets|)
    requires target != {} && target <= StatesOf(nfa) && Successor(nfa, sets, target)
    ensures Discovered(nfa, sets', keys', stateSets') && Pending(queue', done, |sets'|)
    ensures sets' == if target in sets then sets else sets + [target]
    ensures target in sets' && name == Name(IndexOf(sets', target))
  {
    var targetKey := StateSetKey(target);
    if targetKey !in keys {
      DiscoverFresh(nfa, sets, keys, stateSets, queue, done, target);
      var newStateName := NatToString(|keys|);
      keys' := keys[targetKey := newStateName];
      stateSets' := stateSets[newStateName := target];
      queue' := queue + [newStateName];
      sets' := sets + [target];
    } else {
      DiscoveredFind(nfa, sets, keys, stateSets, target);
      keys', stateSets', queue', sets' := keys, stateSets, queue, sets;
    }
    name := keys'[targetKey];
  }

  /** Midway through the alphabet for state `done`: the earlier states' rows are complete, the
      symbols in `earlier` have their entries in the current row and no other symbol has one. */
  ghost predicate Exploring(nfa: Nfa, sets: seq<set<nat>>, table: Table, done: nat, earlier: seq<char>) {
    && done < |sets|
    && table.Keys <= Names(done + 1)
    && (forall i, c :: 0 <= i < done ==> RowEntry(nfa, sets, table, i, c))
    && (forall c :: c in earlier ==> RowEntry(nfa, sets, table, done, c))
    && (forall c :: c !in earlier ==> TableLookup(table, Name(done), c) == None)
  }

  /** `table` with the entry of row `q` for `symbol` set to `name`. */
  function AddEdge(table: Table, q: string, symbol: char, name: string): Table {
    var row := if q in table then table[q] else map[];
    table[q := row[symbol := name]]
  }

  lemma ExploreEdge(nfa: Nfa, sets: seq<set<nat>>, sets': seq<set<nat>>, table: Table, done: nat,
                    earlier: seq<char>, symbol: char, name: string)
    requires Exploring(nfa, sets, table, done, earlier) && symbol !in earlier && Prefix(sets, sets')
    requires MoveSet(nfa.transitions, sets[done], symbol) != {}
    requires Closure(nfa.epsilonTransitions, MoveSet(nfa.transitions, sets[done], symbol)) in sets'
    requires name == Name(IndexOf(sets', Closure(nfa.epsilonTransitions, MoveSet(nfa.transitions, sets[done], symbol))))
    ensures Exploring(nfa, sets', AddEdge(table, Name(done), symbol, name), done, earlier + [symbol])
  {
    var table' := AddEdge(table, Name(done), symbol, name);
    NameInNames(done, done + 1);
    assert sets'[done] == sets[done];
    forall i, c | 0 <= i < done
      ensures RowEntry(nfa, sets', table', i, c)
    {
      NatToStringInjective(i, done);
      RowEntryStable(nfa, sets, sets', table, table', i, c);
    }
    forall c | c in earlier + [symbol]
      ensures RowEntry(nfa, sets', table', done, c)
    {
      if c != symbol {
        RowEntryStable(nfa, sets, sets', table, table', done, c);
      }
    }
  }

  lemma ExploreSkip(nfa: Nfa, sets: seq<set<nat>>, table: Table, done: nat, earlier: seq<char>, symbol: char)
    requires Exploring(nfa, sets, table, done, earlier) && symbol !in earlier
    requires MoveSet(nfa.transitions, sets[done], symbol) == {}
    ensures Exploring(nfa, sets, table, done, earlier + [symbol])
  {
  }

  lemma ExploreStart(nfa: Nfa, sets: seq<set<nat>>, table: Table, done: nat)
    requires done < |sets| && Rows(nfa, sets, table, done)
    ensures Exploring(nfa, sets, table, done, [])
  {
    forall q | q in table.Keys
      ensures q in Names(done + 1)
    {
      var i :| 0 <= i < done && Name(i) == q;
      NameInNames(i, done + 1);
    }
    NameInNames(done, done);
  }

  lemma ExploreEnd(nfa: Nfa, sets: seq<set<nat>>, table: Table, done: nat, alphabet: seq<char>)
    requires forall c :: c in alphabet <==> c in Alphabet(nfa.transitions)
    requires Exploring(nfa, sets, table, done, alphabet)
    ensures Rows(nfa, sets, table, done + 1)
  {
    forall c | c !in alphabet
      ensures RowEntry(nfa, sets, table, done, c)
    {
      MoveOutsideAlphabet(nfa.transitions, sets[done], c);
    }
  }

  lemma PrefixTransitive(xs: seq<set<nat>>, ys: seq<set<nat>>, zs: seq<set<nat>>)
    requires Prefix(xs, ys) && Prefix(ys, zs)
    ensures Prefix(xs, zs)
  {
    assert zs[..|xs|] == zs[..|ys|][..|xs|];
  }

  /** The effect of one pass of the loop over the alphabet on the table: nothing when no
      `symbol`-edge leaves state `done`'s set, else the entry naming its target's state. */
  ghost predicate EdgeAdded(nfa: Nfa, sets: seq<set<nat>>, table: Table, table': Table, done: nat, symbol: char)
    requires done < |sets|
  {
    var moved := MoveSet(nfa.transitions, sets[done], symbol);
    if moved == {} then table' == table
    else
      var target := Closure(nfa.epsilonTransitions, moved);
      target in sets && table' == AddEdge(table, Name(done), symbol, Name(IndexOf(sets, target)))
  }

  lemma ExploreStep(nfa: Nfa, sets: seq<set<nat>>, sets': seq<set<nat>>, table: Table, table': Table, done: nat,
                    earlier: seq<char>, symbol: char)
    requires Exploring(nfa, sets, table, done, earlier) && symbol !in earlier && Prefix(sets, sets')
    requires EdgeAdded(nfa, sets', table, table', done, symbol)
    ensures Exploring(nfa, sets', table', done, earlier + [symbol])
  {
    assert sets'[done] == sets[done];
    var moved := MoveSet(nfa.transitions, sets[done], symbol);
    if moved == {} {
      ExploreSkip(nfa, sets, table, done, earlier, symbol);
      forall i, c | 0 <= i < done
        ensures RowEntry(nfa, sets', table, i, c)
      {
        RowEntryStable(nfa, sets, sets', table, table, i, c);
      }
      forall c | c in earlier + [symbol]
        ensures RowEntry(nfa, sets', table, done, c)
      {
        RowEntryStable(nfa, sets, sets', table, table, done, c);
      }
    } else {
      var target := Closure(nfa.epsilonTransitions, moved);
      ExploreEdge(nfa, sets, sets', table, done, earlier, symbol, Name(IndexOf(sets', target)));
    }
  }

  /** One pass of the loop over the alphabet: the edge on `symbol` out of state `dfaState`, if its
      move is not empty. */
  method ExploreSymbol(nfa: Nfa, symbol: char, dfaState: string, nfaStates: set<nat>,
                       table: Table, keys: map<string, string>, stateSets: map<string, set<nat>>,
                       queue: seq<string>, ghost sets: seq<set<nat>>, ghost done: nat)
    returns (table': Table, keys': map<string, string>, stateSets': map<string, set<nat>>,
             queue': seq<string>, ghost sets': seq<set<nat>>)
    requires done < |sets| && dfaState == Name(done) && nfaStates == sets[done]
    requires Discovered(nfa, sets, keys, stateSets) && Pending(queue, done + 1, |sets|)
    ensures Discovered(nfa, sets', keys', stateSets') && Pending(queue', done + 1, |sets'|)
    ensures Prefix(sets, sets')
    ensures EdgeAdded(nfa, sets', table, table', done, symbol)
  {
    table', keys', stateSets', queue', sets' := table, keys, stateSets, queue, sets;
    var moved := Move(nfaStates, symbol, nfa.transitions);
    if |moved| != 0 {
      var targetClosure := EpsilonClosure(moved, nfa.epsilonTransitions);
      ClosureExtends(nfa.epsilonTransitions, moved);
      if |targetClosure| != 0 {
        table', keys', stateSets', queue', sets' :=
          Connect(nfa, symbol, dfaState, targetClosure, table, keys, stateSets, queue, sets, done);
      }
    }
  }

  /** The edge on `symbol` out of state `dfaState` to the state of `targetClosure`. */
  method Connect(nfa: Nfa, symbol: char, dfaState: string, targetClosure: set<nat>,
                 table: Table, keys: map<string, string>, stateSets: map<string, set<nat>>,
                 queue: seq<string>, ghost sets: seq<set<nat>>, ghost done: nat)
    returns (table': Table, keys': map<string, string>, stateSets': map<string, set<nat>>,
             queue': seq<string>, ghost sets': seq<set<nat>>)
    requires done < |sets| && dfaState == Name(done)
    requires MoveSet(nfa.transitions, sets[done], symbol) != {}
    requires targetClosure == Closure(nfa.epsilonTransitions, MoveSet(nfa.transitions, sets[done], symbol))
    requires Discovered(nfa, sets, keys, stateSets) && Pending(queue, done + 1, |sets|)
    ensures Discovered(nfa, sets', keys', stateSets') && Pending(queue', done + 1, |sets'|)
    ensures Prefix(sets, sets')
    ensures EdgeAdded(nfa, sets', table, table', done, symbol)
  {
    ClosureExtends(nfa.epsilonTransitions, MoveSet(nfa.transitions, sets[done], symbol));
    TargetWithin(nfa, sets[done], symbol);
    MoveSuccessor(nfa, sets, done, symbol);
    var targetState;
    keys', stateSets', queue', targetState, sets' := Discover(nfa, targetClosure, keys, stateSets, queue, sets, done + 1);
    DiscoveryExtends(sets, targetClosure, done);
    table' := AddEdge(table, dfaState, symbol, targetState);
  }

  /** Discovering a set keeps the sets found before it in place. */
  lemma DiscoveryExtends(sets: seq<set<nat>>, target: set<nat>, done: nat)
    requires done < |sets|
    ensures var sets' := if target in sets then sets else sets + [target];
      Prefix(sets, sets') && sets'[done] == sets[done]
  {
    assert (sets + [target])[..|sets|] == sets;
  }

  /** The loop over the alphabet for one state: each symbol with a non-empty move gets an edge to
      the (possibly new) state of its closure. */
  method Explore(nfa: Nfa, alphabet: seq<char>, dfaState: string, nfaStates: set<nat>,
                 table: Table, keys: map<string, string>, stateSets: map<string, set<nat>>,
                 queue: seq<string>, ghost sets: seq<set<nat>>, ghost done: nat)
    returns (table': Table, keys': map<string, string>, stateSets': map<string, set<nat>>,
             queue': seq<string>, ghost sets': seq<set<nat>>)
    requires forall c :: c in alphabet <==> c in Alphabet(nfa.transitions)
    requires forall i, j :: 0 <= i < j < |alphabet| ==> alphabet[i] != alphabet[j]
    requires done < |sets| && dfaState == Name(done) && nfaStates == sets[done]
    requires Discovered(nfa, sets, keys, stateSets) && Pending(queue, done + 1, |sets|)
    requires Rows(nfa, sets, table, done)
    ensures Discovered(nfa, sets', keys', stateSets') && Pending(queue', done + 1, |sets'|)
    ensures Prefix(sets, sets')
    ensures Rows(nfa, sets', table', done + 1)
  {
    table', keys', stateSets', queue', sets' := table, keys, stateSets, queue, sets;
    ExploreStart(nfa, sets, table, done);
    for k := 0 to |alphabet|
      invariant Discovered(nfa, sets', keys', stateSets') && Pending(queue', done + 1, |sets'|)
      invariant Prefix(sets, sets')
      invariant Exploring(nfa, sets', table', done, alphabet[..k])
    {
      DistinctNotEarlier(alphabet, k);
      SliceSnoc(alphabet, k);
      table', keys', stateSets', queue', sets' :=
        ExploreNext(nfa, alphabet[k], alphabet[..k], dfaState, nfaStates, table', keys', stateSets', queue', sets, sets', done);
    }
    SliceAll(alphabet);
    ExploreEnd(nfa, sets', table', done, alphabet);
  }

  /** One round of the loop over the alphabet: the edge on `symbol`, after those on `earlier`. */
  method ExploreNext(nfa: Nfa, symbol: char, ghost earlier: seq<char>, dfaState: string, nfaStates: set<nat>,
                     table: Table, keys: map<string, string>, stateSets: map<string, set<nat>>,
                     queue: seq<string>, ghost sets0: seq<set<nat>>, ghost sets: seq<set<nat>>, ghost done: nat)
    returns (table': Table, keys': map<string, string>, stateSets': map<string, set<nat>>,
             queue': seq<string>, ghost sets': seq<set<nat>>)
    requires done < |sets0| && dfaState == Name(done) && nfaStates == sets0[done] && symbol !in earlier
    requires Discovered(nfa, sets, keys, stateSets) && Pending(queue, done + 1, |sets|)
    requires Prefix(sets0, sets) && Exploring(nfa, sets, table, done, earlier)
    ensures Discovered(nfa, sets', keys', stateSets') && Pending(queue', done + 1, |sets'|)
    ensures Prefix(sets0, sets') && Exploring(nfa, sets', table', done, earlier + [symbol])
  {
    assert sets[done] == nfaStates;
    table', keys', stateSets', queue', sets' :=
      ExploreSymbol(nfa, symbol, dfaState, nfaStates, table, keys, stateSets, queue, sets, done);
    ExploreStep(nfa, sets, sets', table, table', done, earlier, symbol);
    PrefixTransitive(sets0, sets, sets');
  }

  lemma SliceSnoc(xs: seq<char>, k: nat)
    requires k < |xs|
    ensures xs[..k + 1] == xs[..k] + [xs[k]]
  {
  }

  lemma SliceAll(xs: seq<char>)
    ensures xs[..|xs|] == xs
  {
  }

  /** In a sequence without repeats, no element occurs before its own position. */
  lemma DistinctNotEarlier(xs: seq<char>, k: nat)
    requires forall i, j :: 0 <= i < j < |xs| ==> xs[i] != xs[j]
    requires k < |xs|
    ensures xs[k] !in xs[..k]
  {
  }

  /** The closures already explored. */
  ghost function Explored(sets: seq<set<nat>>, done: nat): set<set<nat>>
    requires done <= |sets|
  {
    set i | 0 <= i < done :: sets[i]
  }

  lemma ExploredGrows(sets0: seq<set<nat>>, sets: seq<set<nat>>, done: nat)
    requires done < |sets0| && Prefix(sets0, sets)
    requires forall i, j :: 0 <= i < j < |sets| ==> sets[i] != sets[j]
    ensures Explored(sets, done + 1) == Explored(sets0, done) + {sets0[done]}
    ensures sets0[done] !in Explored(sets0, done)
  {
    assert sets[..|sets0|] == sets0;
    assert forall i | 0 <= i < |sets0| :: sets[i] == sets0[i];
    var x := sets0[done];
    forall y | y in Explored(sets, done + 1)
      ensures y in Explored(sets0, done) + {x}
    {
      var i :| 0 <= i < done + 1 && sets[i] == y;
    }
    forall y | y in Explored(sets0, done) + {x}
      ensures y in Explored(sets, done + 1)
    {
      if y != x {
        var i :| 0 <= i < done && sets0[i] == y;
      }
    }
    forall i | 0 <= i < done
      ensures sets0[i] != x
    {
    }
  }

  lemma Initially(nfa: Nfa, initialClosure: set<nat>)
    requires initialClosure == Closure(nfa.epsilonTransitions, {nfa.start})
    ensures Discovered(nfa, [initialClosure], map[StateSetKey(initialClosure) := "0"], map["0" := initialClosure])
    ensures Pending(["0"], 0, 1)
  {
    InitialSet(nfa, initialClosure);
    InitialIndexed(initialClosure);
  }

  /** The bookkeeping of a single discovered set: the name of the first state is "0", and the
      one key is that of the set. */
  lemma InitialIndexed(c: set<nat>)
    ensures Name(0) == "0"
    ensures |map[StateSetKey(c) := "0"]| == 1 && map[StateSetKey(c) := "0"].Keys <= KeysOf([c])
  {
    KeysOfAppend([], c);
    assert [] + [c] == [c];
  }

  /** The closure of the start state is a non-empty set of the NFA's states. */
  lemma InitialSet(nfa: Nfa, initialClosure: set<nat>)
    requires initialClosure == Closure(nfa.epsilonTransitions, {nfa.start})
    ensures initialClosure != {} && initialClosure <= StatesOf(nfa)
  {
    ClosureIsLeast(nfa.epsilonTransitions, {nfa.start});
  }

  lemma Finally(nfa: Nfa, sets: seq<set<nat>>, keys: map<string, string>, stateSets: map<string, set<nat>>, table: Table, accepting: set<string>)
    requires Discovered(nfa, sets, keys, stateSets) && Rows(nfa, sets, table, |sets|) && Accepting(nfa, sets, accepting, |sets|)
    ensures Represents(nfa, Dfa("0", table, accepting, |keys|), sets)
  {
  }

  /** `nfaToDfa`: breadth-first exploration of the closures reachable from the start state. */
  method NfaToDfa(nfa: Nfa) returns (dfa: Dfa, ghost sets: seq<set<nat>>)
    ensures Represents(nfa, dfa, sets)
  {
    var alphabetSet := CollectAlphabet(nfa.transitions);
    var alphabet := Enumerate(alphabetSet);
    var dfaTransitions: Table := map[];
    var dfaAcceptStates: set<string> := {};

    var initialClosure := EpsilonClosure({nfa.start}, nfa.epsilonTransitions);
    var initialKey := StateSetKey(initialClosure);

    var keyToDfaState := map[initialKey := "0"];
    var dfaStateToSet := map["0" := initialClosure];
    var queue := ["0"];
    sets := [initialClosure];
    ghost var done := 0;
    Initially(nfa, initialClosure);
    ghost var universe := set s: set<nat> | s <= StatesOf(nfa);

    while |queue| > 0
      invariant Discovered(nfa, sets, keyToDfaState, dfaStateToSet) && Pending(queue, done, |sets|)
      invariant Rows(nfa, sets, dfaTransitions, done)
      invariant Accepting(nfa, sets, dfaAcceptStates, done)
      decreases universe - Explored(sets, done)
    {
      ghost var sets0 := sets;
      dfaTransitions, dfaAcceptStates, keyToDfaState, dfaStateToSet, queue, sets :=
        Visit(nfa, alphabet, dfaTransitions, dfaAcceptStates, keyToDfaState, dfaStateToSet, queue, sets, done);
      assert sets0[done] in universe;
      done := done + 1;
    }

    Finally(nfa, sets, keyToDfaState, dfaStateToSet, dfaTransitions, dfaAcceptStates);
    dfa := Dfa("0", dfaTransitions, dfaAcceptStates, |keyToDfaState|);
  }

  /** One turn of the `nfaToDfa` loop: take the next state off the queue, mark it accepting
      when its set holds the NFA's accepting state, and fill its row. */
  method Visit(nfa: Nfa, alphabet: seq<char>, table: Table, accepting: set<string>,
               keys: map<string, string>, stateSets: map<string, set<nat>>,
               queue: seq<string>, ghost sets: seq<set<nat>>, ghost done: nat)
    returns (table': Table, accepting': set<string>, keys': map<string, string>,
             stateSets': map<string, set<nat>>, queue': seq<string>, ghost sets': seq<set<nat>>)
    requires forall c :: c in alphabet <==> c in Alphabet(nfa.transitions)
    requires forall i, j :: 0 <= i < j < |alphabet| ==> alphabet[i] != alphabet[j]
    requires Discovered(nfa, sets, keys, stateSets) && Pending(queue, done, |sets|) && |queue| > 0
    requires Rows(nfa, sets, table, done) && Accepting(nfa, sets, accepting, done)
    ensures done < |sets|
    ensures Discovered(nfa, sets', keys', stateSets') && Pending(queue', done + 1, |sets'|)
    ensures Rows(nfa, sets', table', done + 1) && Accepting(nfa, sets', accepting', done + 1)
    ensures Explored(sets', done + 1) == Explored(sets, done) + {sets[done]}
    ensures sets[done] !in Explored(sets, done) && sets[done] <= StatesOf(nfa)
  {
    var dfaState := queue[0];
    var rest := queue[1..];
    var nfaStates := stateSets[dfaState];

    accepting' := accepting;
    if nfa.accept in nfaStates {
      accepting' := accepting + {dfaState};
    }

    table', keys', stateSets', queue', sets' :=
      Explore(nfa, alphabet, dfaState, nfaStates, table, keys, stateSets, rest, sets, done);

    AcceptingStep(nfa, sets, sets', accepting, accepting', done);
    ExploredGrows(sets, sets', done);
  }

  lemma AcceptingStep(nfa: Nfa, sets0: seq<set<nat>>, sets: seq<set<nat>>, accepting0: set<string>, accepting: set<string>, done: nat)
    requires done < |sets0| && Prefix(sets0, sets)
    requires Accepting(nfa, sets0, accepting0, done)
    requires accepting == if nfa.accept in sets0[done] then accepting0 + {Name(done)} else accepting0
    ensures Accepting(nfa, sets, accepting, done + 1)
  {
    assert sets[..|sets0|] == sets0;
    NameInNames(done, done + 1);
    NameInNames(done, done);
    forall q | q in accepting0
      ensures q in Names(done + 1)
    {
      var i :| 0 <= i < done && Name(i) == q;
      NameInNames(i, done + 1);
    }
    forall i | 0 <= i < done + 1
      ensures Name(i) in accepting <==> nfa.accept in sets[i]
    {
      assert sets[i] == sets0[i];
      if i < done {
        NatToStringInjective(i, done);
      }
    }
  }

  // ---------------------------------------------------------------------------------------------
  // Languages
  // ---------------------------------------------------------------------------------------------

  /** The NFA states reachable from the closed set `s` by reading `w`: one move and one closure
      per character. */
  ghost function NfaRun(nfa: Nfa, s: set<nat>, w: string): set<nat>
    decreases |w|
  {
    if w == [] then s
    else NfaRun(nfa, Closure(nfa.epsilonTransitions, MoveSet(nfa.transitions, s, w[0])), w[1..])
  }

  /** The NFA accepts `w` when some way of reading it ends in the accepting state. */
  ghost predicate NfaAccepts(nfa: Nfa, w: string) {
    nfa.accept in NfaRun(nfa, Closure(nfa.epsilonTransitions, {nfa.start}), w)
  }

  /** The state the DFA reaches from `q` by reading `w`, or `None` once a transition is missing. */
  function DfaRun(dfa: Dfa, q: string, w: string): Option<string>
    decreases |w|
  {
    if w == [] then Some(q)
    else
      match Lookup(dfa, q, w[0])
      case None => None
      case Some(r) => DfaRun(dfa, r, w[1..])
  }

  predicate DfaAccepts(dfa: Dfa, w: string) {
    var r := DfaRun(dfa, dfa.initialState, w);
    r.Some? && r.value in dfa.acceptStates
  }

  lemma {:induction false} NfaRunEmpty(nfa: Nfa, w: string)
    ensures NfaRun(nfa, {}, w) == {}
    decreases |w|
  {
    if w != [] {
      assert MoveSet(nfa.transitions, {}, w[0]) == {};
      ClosureOfEmpty(nfa.epsilonTransitions);
      NfaRunEmpty(nfa, w[1..]);
    }
  }

  /** Reading `w` from state `Name(i)` keeps the DFA in the state of the NFA states reached
      from `sets[i]`; it falls off the table exactly when no NFA state is left. */
  lemma {:induction false} DfaSimulatesNfa(nfa: Nfa, dfa: Dfa, sets: seq<set<nat>>, i: nat, w: string)
    requires Represents(nfa, dfa, sets) && i < |sets|
    ensures var reached := NfaRun(nfa, sets[i], w);
      if reached == {} then DfaRun(dfa, Name(i), w) == None
      else reached in sets && DfaRun(dfa, Name(i), w) == Some(Name(IndexOf(sets, reached)))
    decreases |w|
  {
    if w == [] {
      assert IndexOf(sets, sets[i]) == i;
    } else {
      var c := w[0];
      assert RowEntry(nfa, sets, dfa.transitions, i, c);
      var moved := MoveSet(nfa.transitions, sets[i], c);
      if moved == {} {
        ClosureOfEmpty(nfa.epsilonTransitions);
        NfaRunEmpty(nfa, w[1..]);
      } else {
        var target := Closure(nfa.epsilonTransitions, moved);
        DfaSimulatesNfa(nfa, dfa, sets, IndexOf(sets, target), w[1..]);
      }
    }
  }

  /** The subset construction preserves the language: the DFA accepts exactly the strings the
      NFA accepts. */
  lemma SubsetConstructionCorrect(nfa: Nfa, dfa: Dfa, sets: seq<set<nat>>, w: string)
    requires Represents(nfa, dfa, sets)
    ensures DfaAccepts(dfa, w) <==> NfaAccepts(nfa, w)
  {
    DfaSimulatesNfa(nfa, dfa, sets, 0, w);
  }

  /** Reading one more character is one more move and closure. */
  lemma {:induction false} NfaRunSnoc(nfa: Nfa, s: set<nat>, w: string, c: char)
    ensures NfaRun(nfa, s, w + [c]) == Closure(nfa.epsilonTransitions, MoveSet(nfa.transitions, NfaRun(nfa, s, w), c))
    decreases |w|
  {
    if w == [] {
      assert [] + [c] == [c] && [c][1..] == [];
    } else {
      assert (w + [c])[0] == w[0] && (w + [c])[1..] == w[1..] + [c];
      NfaRunSnoc(nfa, Closure(nfa.epsilonTransitions, MoveSet(nfa.transitions, s, w[0])), w[1..], c);
    }
  }

  /** Every listed set is where the NFA simulation stands after some word. */
  lemma {:induction false} SetReached(nfa: Nfa, sets: seq<set<nat>>, i: nat) returns (w: string)
    requires Derived(nfa, sets) && i < |sets|
    ensures NfaRun(nfa, sets[0], w) == sets[i]
    decreases i
  {
    if i == 0 {
      w := [];
    } else {
      assert Successor(nfa, sets[..i], sets[i]);
      var j, c :| 0 <= j < i && sets[i] == Closure(nfa.epsilonTransitions, MoveSet(nfa.transitions, sets[..i][j], c));
      var u := SetReached(nfa, sets, j);
      NfaRunSnoc(nfa, sets[0], u, c);
      w := u + [c];
    }
  }

  /** No state of the constructed DFA is unreachable: each is where the DFA stands after some
      word read from the initial state. */
  lemma EveryStateReachable(nfa: Nfa, dfa: Dfa, sets: seq<set<nat>>, i: nat) returns (w: string)
    requires Represents(nfa, dfa, sets) && i < dfa.numberOfStates
    ensures DfaRun(dfa, dfa.initialState, w) == Some(Name(i))
  {
    w := SetReached(nfa, sets, i);
    DfaSimulatesNfa(nfa, dfa, sets, 0, w);
    assert IndexOf(sets, sets[i]) == i;
  }

  /** A state gets a row as soon as one symbol moves its NFA states anywhere, so a state without
      a row is one whose NFA states have no symbol edge at all. */
  lemma MissingRowIsStuck(nfa: Nfa, dfa: Dfa, sets: seq<set<nat>>, i: nat)
    requires Represents(nfa, dfa, sets) && i < |sets| && Name(i) !in dfa.transitions
    ensures forall c :: MoveSet(nfa.transitions, sets[i], c) == {}
  {
    forall c
      ensures MoveSet(nfa.transitions, sets[i], c) == {}
    {
      assert RowEntry(nfa, sets, dfa.transitions, i, c);
    }
  }
}
