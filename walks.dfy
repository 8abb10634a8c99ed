/**
 * Reading a word along the edges of an automaton: a walk takes one symbol edge per character
 * of the word, in order, and any number of epsilon edges in between. The simulation that
 * ui/lib/src/nvui/automata.ts runs (a closure, then a move and a closure per character) holds
 * exactly the states that some walk reaches.
 */
module Walks {
  import opened Thompson
  import opened Subset

  /** A walk of at most `n` edges from `p` to `q` that reads `w`. */
  ghost predicate Walk(t: SymbolEdges, e: EpsilonEdges, p: nat, w: string, q: nat, n: nat)
    decreases n
  {
    || (p == q && w == [])
    || (n > 0 && exists r :: r in EpsilonTargets(e, p) && Walk(t, e, r, w, q, n - 1))
    || (n > 0 && w != [] && exists r :: r in Targets(t, p, w[0]) && Walk(t, e, r, w[1..], q, n - 1))
  }

  /** Some walk from `p` to `q` reads `w`. */
  ghost predicate Path(t: SymbolEdges, e: EpsilonEdges, p: nat, w: string, q: nat) {
    exists n :: Walk(t, e, p, w, q, n)
  }

  lemma EpsilonEdge(t: SymbolEdges, e: EpsilonEdges, p: nat, r: nat)
    requires r in EpsilonTargets(e, p)
    ensures Walk(t, e, p, [], r, 1)
  {
    assert Walk(t, e, r, [], r, 0);
  }

  lemma SymbolEdge(t: SymbolEdges, e: EpsilonEdges, p: nat, c: char, r: nat)
    requires r in Targets(t, p, c)
    ensures Walk(t, e, p, [c], r, 1)
  {
    assert Walk(t, e, r, [c][1..], r, 0);
    SymbolThen(t, e, p, r, [c], r, 0);
  }

  /** An epsilon edge in front of a walk. */
  lemma EpsilonThen(t: SymbolEdges, e: EpsilonEdges, p: nat, r: nat, w: string, q: nat, n: nat)
    requires r in EpsilonTargets(e, p) && Walk(t, e, r, w, q, n)
    ensures Walk(t, e, p, w, q, n + 1)
  {
  }

  /** An edge for the word's first character in front of a walk reading the rest. */
  lemma SymbolThen(t: SymbolEdges, e: EpsilonEdges, p: nat, r: nat, w: string, q: nat, n: nat)
    requires w != [] && r in Targets(t, p, w[0]) && Walk(t, e, r, w[1..], q, n)
    ensures Walk(t, e, p, w, q, n + 1)
  {
  }

  /** A bound on the number of edges may always be raised. */
  lemma {:induction false} WalkLonger(t: SymbolEdges, e: EpsilonEdges, p: nat, w: string, q: nat, n: nat, m: nat)
    requires Walk(t, e, p, w, q, n) && n <= m
    ensures Walk(t, e, p, w, q, m)
    decreases n
  {
    if p == q && w == [] {
    } else if n > 0 && exists r :: r in EpsilonTargets(e, p) && Walk(t, e, r, w, q, n - 1) {
      var r :| r in EpsilonTargets(e, p) && Walk(t, e, r, w, q, n - 1);
      WalkLonger(t, e, r, w, q, n - 1, m - 1);
    } else {
      var r :| r in Targets(t, p, w[0]) && Walk(t, e, r, w[1..], q, n - 1);
      WalkLonger(t, e, r, w[1..], q, n - 1, m - 1);
    }
  }

  /** A walk reading `u` followed by one reading `v` reads `u + v`. */
  lemma {:induction false} WalkAppend(t: SymbolEdges, e: EpsilonEdges, p: nat, u: string, x: nat, n1: nat, v: string, q: nat, n2: nat)
    requires Walk(t, e, p, u, x, n1) && Walk(t, e, x, v, q, n2)
    ensures Walk(t, e, p, u + v, q, n1 + n2)
    decreases n1
  {
    if p == x && u == [] {
      assert u + v == v;
      WalkLonger(t, e, x, v, q, n2, n1 + n2);
    } else if n1 > 0 && exists r :: r in EpsilonTargets(e, p) && Walk(t, e, r, u, x, n1 - 1) {
      var r :| r in EpsilonTargets(e, p) && Walk(t, e, r, u, x, n1 - 1);
      WalkAppend(t, e, r, u, x, n1 - 1, v, q, n2);
    } else {
      var r :| r in Targets(t, p, u[0]) && Walk(t, e, r, u[1..], x, n1 - 1);
      WalkAppend(t, e, r, u[1..], x, n1 - 1, v, q, n2);
      assert (u + v)[0] == u[0] && (u + v)[1..] == u[1..] + v;
    }
  }

  lemma PathAppend(t: SymbolEdges, e: EpsilonEdges, p: nat, u: string, x: nat, v: string, q: nat)
    requires Path(t, e, p, u, x) && Path(t, e, x, v, q)
    ensures Path(t, e, p, u + v, q)
  {
    var n1: nat :| Walk(t, e, p, u, x, n1);
    var n2: nat :| Walk(t, e, x, v, q, n2);
    WalkAppend(t, e, p, u, x, n1, v, q, n2);
  }

  /** An epsilon edge in front of a path. */
  lemma EpsilonBefore(t: SymbolEdges, e: EpsilonEdges, p: nat, r: nat, w: string, q: nat)
    requires r in EpsilonTargets(e, p) && Path(t, e, r, w, q)
    ensures Path(t, e, p, w, q)
  {
    var n: nat :| Walk(t, e, r, w, q, n);
    EpsilonThen(t, e, p, r, w, q, n);
  }

  /** An epsilon edge after a path. */
  lemma EpsilonAfter(t: SymbolEdges, e: EpsilonEdges, p: nat, w: string, x: nat, q: nat)
    requires Path(t, e, p, w, x) && q in EpsilonTargets(e, x)
    ensures Path(t, e, p, w, q)
  {
    var nil: string := [];
    var n: nat :| Walk(t, e, p, w, x, n);
    EpsilonEdge(t, e, x, q);
    WalkAppend(t, e, p, w, x, n, nil, q, 1);
    assert w + nil == w;
  }

  /** No edge of either kind leaves `q`. */
  ghost predicate Stuck(t: SymbolEdges, e: EpsilonEdges, q: nat) {
    (forall c :: Targets(t, q, c) == {}) && EpsilonTargets(e, q) == {}
  }

  lemma SinkIsStuck(t: SymbolEdges, e: EpsilonEdges, q: nat)
    requires Sink(t, e, q)
    ensures Stuck(t, e, q)
  {
  }

  /** A walk from a state without edges stays there and reads nothing. */
  lemma WalkFromStuck(t: SymbolEdges, e: EpsilonEdges, q: nat, w: string, r: nat, n: nat)
    requires Stuck(t, e, q) && Walk(t, e, q, w, r, n)
    ensures w == [] && r == q
  {
  }

  /** A walk leaving a state without symbol edges starts with one of its epsilon edges. */
  lemma LeaveByEpsilon(t: SymbolEdges, e: EpsilonEdges, p: nat, w: string, q: nat, n: nat) returns (r: nat)
    requires p != q && Walk(t, e, p, w, q, n)
    requires forall c :: Targets(t, p, c) == {}
    ensures n > 0 && r in EpsilonTargets(e, p) && Walk(t, e, r, w, q, n - 1)
  {
    if w != [] {
      assert Targets(t, p, w[0]) == {};
    }
    r :| r in EpsilonTargets(e, p) && Walk(t, e, r, w, q, n - 1);
  }

  /** A walk leaving a state without epsilon edges starts with one of its symbol edges. */
  lemma LeaveBySymbol(t: SymbolEdges, e: EpsilonEdges, p: nat, w: string, q: nat, n: nat) returns (r: nat)
    requires p != q && Walk(t, e, p, w, q, n)
    requires EpsilonTargets(e, p) == {}
    ensures n > 0 && w != [] && r in Targets(t, p, w[0]) && Walk(t, e, r, w[1..], q, n - 1)
  {
    r :| r in Targets(t, p, w[0]) && Walk(t, e, r, w[1..], q, n - 1);
  }

  /** Both automata give the states in [lo, hi) the same edges. */
  ghost predicate SameEdges(t: SymbolEdges, e: EpsilonEdges, t': SymbolEdges, e': EpsilonEdges, lo: nat, hi: nat) {
    && (forall q, c :: lo <= q < hi ==> Targets(t', q, c) == Targets(t, q, c))
    && (forall q :: lo <= q < hi ==> EpsilonTargets(e', q) == EpsilonTargets(e, q))
  }

  /** Every edge leaving a state in [lo, x) stays in [lo, x]. */
  ghost predicate Confined(t: SymbolEdges, e: EpsilonEdges, lo: nat, x: nat) {
    && (forall q, c, r :: lo <= q < x && r in Targets(t, q, c) ==> lo <= r <= x)
    && (forall q, r :: lo <= q < x && r in EpsilonTargets(e, q) ==> lo <= r <= x)
  }

  /** A walk inside a confined block that ends at the block's edgeless exit `x` uses only the
      block's own edges, so an automaton that agrees on the block has the same walk. */
  lemma {:induction false} WalkTransfer(t: SymbolEdges, e: EpsilonEdges, t': SymbolEdges, e': EpsilonEdges, lo: nat, x: nat, p: nat, w: string, n: nat)
    requires SameEdges(t, e, t', e', lo, x) && Confined(t, e, lo, x) && Stuck(t, e, x)
    requires lo <= p <= x && Walk(t, e, p, w, x, n)
    ensures Walk(t', e', p, w, x, n)
    decreases n
  {
    if p == x {
      WalkFromStuck(t, e, x, w, x, n);
    } else if n > 0 && exists r :: r in EpsilonTargets(e, p) && Walk(t, e, r, w, x, n - 1) {
      var r :| r in EpsilonTargets(e, p) && Walk(t, e, r, w, x, n - 1);
      WalkTransfer(t, e, t', e', lo, x, r, w, n - 1);
    } else {
      var r :| r in Targets(t, p, w[0]) && Walk(t, e, r, w[1..], x, n - 1);
      WalkTransfer(t, e, t', e', lo, x, r, w[1..], n - 1);
    }
  }

  lemma PathTransfer(t: SymbolEdges, e: EpsilonEdges, t': SymbolEdges, e': EpsilonEdges, lo: nat, x: nat, p: nat, w: string)
    requires SameEdges(t, e, t', e', lo, x) && Confined(t, e, lo, x) && Stuck(t, e, x)
    requires lo <= p <= x && Path(t, e, p, w, x)
    ensures Path(t', e', p, w, x)
  {
    var n: nat :| Walk(t, e, p, w, x, n);
    WalkTransfer(t, e, t', e', lo, x, p, w, n);
  }

  /** A walk of the second automaton from inside a confined block of the first, on which the
      two agree, to a state outside it: it reaches the block's exit `x` along the block's own
      edges first, after a prefix of the word, and goes on from there. */
  lemma {:induction false} FirstExit(t: SymbolEdges, e: EpsilonEdges, t': SymbolEdges, e': EpsilonEdges, lo: nat, x: nat, p: nat, w: string, q: nat, n: nat)
    returns (k: nat, m: nat)
    requires SameEdges(t, e, t', e', lo, x) && Confined(t, e, lo, x)
    requires lo <= p <= x && !(lo <= q < x) && Walk(t', e', p, w, q, n)
    ensures k <= |w| && m <= n && (p != x ==> m > 0)
    ensures Walk(t, e, p, w[..k], x, m) && Walk(t', e', x, w[k..], q, n - m)
    decreases n
  {
    if p == x {
      k, m := 0, 0;
      assert w[..0] == [] && w[0..] == w;
    } else if n > 0 && exists r :: r in EpsilonTargets(e', p) && Walk(t', e', r, w, q, n - 1) {
      var r :| r in EpsilonTargets(e', p) && Walk(t', e', r, w, q, n - 1);
      var k', m' := FirstExit(t, e, t', e', lo, x, r, w, q, n - 1);
      EpsilonThen(t, e, p, r, w[..k'], x, m');
      k, m := k', m' + 1;
    } else {
      var r :| r in Targets(t', p, w[0]) && Walk(t', e', r, w[1..], q, n - 1);
      var k', m' := FirstExit(t, e, t', e', lo, x, r, w[1..], q, n - 1);
      k, m := k' + 1, m' + 1;
      assert w[..k][0] == w[0] && w[..k][1..] == w[1..][..k'];
      SymbolThen(t, e, p, r, w[..k], x, m');
      assert w[k..] == w[1..][k'..];
    }
  }

  /** A walk of the second automaton from inside the block to its exit, where the second
      automaton has no edges: it is a walk of the first one. */
  lemma WalkBack(t: SymbolEdges, e: EpsilonEdges, t': SymbolEdges, e': EpsilonEdges, lo: nat, x: nat, p: nat, w: string, n: nat)
    requires SameEdges(t, e, t', e', lo, x) && Confined(t, e, lo, x) && Stuck(t', e', x)
    requires lo <= p <= x && Walk(t', e', p, w, x, n)
    ensures Path(t, e, p, w, x)
  {
    var k, m := FirstExit(t, e, t', e', lo, x, p, w, x, n);
    WalkFromStuck(t', e', x, w[k..], x, n - m);
    assert w[..k] == w;
  }

  /** A walk of the second automaton from inside the block to a state `y` without edges,
      where the block's exit leads to `y` alone: it reads a word of the block. */
  lemma ExitToSink(t: SymbolEdges, e: EpsilonEdges, t': SymbolEdges, e': EpsilonEdges, lo: nat, x: nat, y: nat, p: nat, w: string, n: nat)
    requires SameEdges(t, e, t', e', lo, x) && Confined(t, e, lo, x)
    requires (forall c :: Targets(t', x, c) == {}) && EpsilonTargets(e', x) == {y} && Stuck(t', e', y)
    requires lo <= p <= x && !(lo <= y <= x) && Walk(t', e', p, w, y, n)
    ensures Path(t, e, p, w, x)
  {
    var k, m := FirstExit(t, e, t', e', lo, x, p, w, y, n);
    var r := LeaveByEpsilon(t', e', x, w[k..], y, n - m);
    WalkFromStuck(t', e', y, w[k..], y, n - m - 1);
    assert w[..k] == w;
  }

  /* The simulation of ui/lib/src/nvui/automata.ts and the walks. */

  lemma {:induction false} ReachWalk(t: SymbolEdges, e: EpsilonEdges, s: set<nat>, k: nat, q: nat) returns (p: nat)
    requires q in Reach(e, s, k)
    ensures p in s && Walk(t, e, p, [], q, k)
    decreases k
  {
    var nil: string := [];
    if k == 0 {
      p := q;
    } else if q in Reach(e, s, k - 1) {
      p := ReachWalk(t, e, s, k - 1, q);
      WalkLonger(t, e, p, nil, q, k - 1, k);
    } else {
      assert q in EpsilonStep(e, Reach(e, s, k - 1));
      var q' :| q' in Reach(e, s, k - 1) && q in EpsilonTargets(e, q');
      p := ReachWalk(t, e, s, k - 1, q');
      EpsilonEdge(t, e, q', q);
      WalkAppend(t, e, p, nil, q', k - 1, nil, q, 1);
      assert nil + nil == nil;
    }
  }

  lemma {:induction false} ClosedWalk(t: SymbolEdges, e: EpsilonEdges, d: set<nat>, p: nat, q: nat, n: nat)
    requires EpsilonClosed(e, d) && p in d && Walk(t, e, p, [], q, n)
    ensures q in d
    decreases n
  {
    if p != q {
      var r :| r in EpsilonTargets(e, p) && Walk(t, e, r, [], q, n - 1);
      ClosedWalk(t, e, d, r, q, n - 1);
    }
  }

  /** A walk reading a non-empty word: epsilon edges, the first character's edge, the rest. */
  lemma {:induction false} FirstSymbol(t: SymbolEdges, e: EpsilonEdges, p: nat, w: string, q: nat, n: nat) returns (x: nat, r: nat, m: nat)
    requires w != [] && Walk(t, e, p, w, q, n)
    ensures Walk(t, e, p, [], x, n) && r in Targets(t, x, w[0]) && Walk(t, e, r, w[1..], q, m)
    decreases n
  {
    if n > 0 && exists r' :: r' in EpsilonTargets(e, p) && Walk(t, e, r', w, q, n - 1) {
      var r' :| r' in EpsilonTargets(e, p) && Walk(t, e, r', w, q, n - 1);
      x, r, m := FirstSymbol(t, e, r', w, q, n - 1);
    } else {
      var r' :| r' in Targets(t, p, w[0]) && Walk(t, e, r', w[1..], q, n - 1);
      x, r, m := p, r', n - 1;
    }
  }

  /** Every state of the simulation after reading `w` from the closure of `s` is reached by a
      walk reading `w` from a state of `s`. */
  lemma {:induction false} RunWalk(nfa: Nfa, s: set<nat>, w: string, q: nat) returns (p: nat, n: nat)
    requires q in NfaRun(nfa, Closure(nfa.epsilonTransitions, s), w)
    ensures p in s && Walk(nfa.transitions, nfa.epsilonTransitions, p, w, q, n)
    decreases |w|
  {
    var t, e := nfa.transitions, nfa.epsilonTransitions;
    var nil: string := [];
    if w == [] {
      p := ReachWalk(t, e, s, |EpsilonImage(e)|, q);
      n := |EpsilonImage(e)|;
    } else {
      var moved := MoveSet(t, Closure(e, s), w[0]);
      var p', n' := RunWalk(nfa, moved, w[1..], q);
      var x :| x in Closure(e, s) && p' in Targets(t, x, w[0]);
      p := ReachWalk(t, e, s, |EpsilonImage(e)|, x);
      SymbolEdge(t, e, x, w[0], p');
      WalkAppend(t, e, p, nil, x, |EpsilonImage(e)|, [w[0]], p', 1);
      WalkAppend(t, e, p, nil + [w[0]], p', |EpsilonImage(e)| + 1, w[1..], q, n');
      assert nil + [w[0]] + w[1..] == w;
      n := |EpsilonImage(e)| + 1 + n';
    }
  }

  /** Every walk reading `w` from a state of `s` ends in the simulation's states. */
  lemma {:induction false} WalkRun(nfa: Nfa, s: set<nat>, w: string, p: nat, q: nat, n: nat)
    requires p in s && Walk(nfa.transitions, nfa.epsilonTransitions, p, w, q, n)
    ensures q in NfaRun(nfa, Closure(nfa.epsilonTransitions, s), w)
    decreases |w|
  {
    var t, e := nfa.transitions, nfa.epsilonTransitions;
    ClosureIsLeast(e, s);
    if w == [] {
      ClosedWalk(t, e, Closure(e, s), p, q, n);
    } else {
      var x, r, m := FirstSymbol(t, e, p, w, q, n);
      ClosedWalk(t, e, Closure(e, s), p, x, n);
      var moved := MoveSet(t, Closure(e, s), w[0]);
      assert r in moved;
      WalkRun(nfa, moved, w[1..], r, q, m);
    }
  }

  /** The automaton accepts a word exactly when some walk from its start state to its
      accepting state reads it. */
  lemma AcceptsByPath(nfa: Nfa, w: string)
    ensures NfaAccepts(nfa, w) <==> Path(nfa.transitions, nfa.epsilonTransitions, nfa.start, w, nfa.accept)
  {
    if NfaAccepts(nfa, w) {
      var p, n := RunWalk(nfa, {nfa.start}, w, nfa.accept);
    }
    if Path(nfa.transitions, nfa.epsilonTransitions, nfa.start, w, nfa.accept) {
      var n: nat :| Walk(nfa.transitions, nfa.epsilonTransitions, nfa.start, w, nfa.accept, n);
      WalkRun(nfa, {nfa.start}, w, nfa.start, nfa.accept, n);
    }
  }
}
