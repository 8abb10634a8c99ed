/**
 * The Thompson construction of ui/lib/src/nvui/automata.ts (`buildNFAFromPostfix` and the two
 * edge helpers): postfix tokens are evaluated on a stack of NFA fragments, drawing fresh state
 * ids from a counter.
 */
module Thompson {
  import opened Wrappers
  import opened Tokens
  import opened Postfix

  /** Symbol edges: state, then symbol, then the set of target states. */
  type SymbolEdges = map<nat, map<char, set<nat>>>

  /** Epsilon edges: state, then the set of target states. */
  type EpsilonEdges = map<nat, set<nat>>

  datatype Nfa = Nfa(start: nat, accept: nat, transitions: SymbolEdges, epsilonTransitions: EpsilonEdges)

  /** A partial automaton with one entry and one exit state. */
  datatype Fragment = Fragment(start: nat, accept: nat)

  function Targets(t: SymbolEdges, q: nat, c: char): set<nat> {
    if q in t && c in t[q] then t[q][c] else {}
  }

  function EpsilonTargets(e: EpsilonEdges, q: nat): set<nat> {
    if q in e then e[q] else {}
  }

  /** Adds the edge `from --symbol--> to`, creating the row and the entry when missing. */
  function AddSymbolTransition(t: SymbolEdges, from: nat, symbol: char, to: nat): SymbolEdges {
    var row := if from in t then t[from] else map[];
    var targets := if symbol in row then row[symbol] else {};
    t[from := row[symbol := targets + {to}]]
  }

  /** Adds the edge `from --ε--> to`, creating the entry when missing. */
  function AddEpsilonTransition(e: EpsilonEdges, from: nat, to: nat): EpsilonEdges {
    e[from := EpsilonTargets(e, from) + {to}]
  }

  /** Exactly the one edge is added; a row exists for `from` afterwards, with an entry for
      `symbol`, and no other row or entry appears. */
  lemma SymbolTransitionAdded(t: SymbolEdges, from: nat, symbol: char, to: nat)
    ensures var r := AddSymbolTransition(t, from, symbol, to);
      && (forall q, c :: Targets(r, q, c) == Targets(t, q, c) + (if q == from && c == symbol then {to} else {}))
      && r.Keys == t.Keys + {from}
      && (forall q :: q in r ==> r[q].Keys == (if q in t then t[q].Keys else {}) + (if q == from then {symbol} else {}))
  {
  }

  /** Exactly the one edge is added, and an entry exists for `from` afterwards. */
  lemma EpsilonTransitionAdded(e: EpsilonEdges, from: nat, to: nat)
    ensures var r := AddEpsilonTransition(e, from, to);
      && (forall q :: EpsilonTargets(r, q) == EpsilonTargets(e, q) + (if q == from then {to} else {}))
      && r.Keys == e.Keys + {from}
  {
  }

  /** The builder's variables: the fresh-id counter, both edge maps and the fragment stack. */
  datatype Builder = Builder(next: nat, transitions: SymbolEdges, epsilonTransitions: EpsilonEdges, stack: seq<Fragment>)

  const EmptyBuilder := Builder(0, map[], map[], [])

  /** A literal: a fresh pair of states joined by the literal's symbol. */
  function LiteralStep(b: Builder, c: char): Builder {
    Builder(b.next + 2, AddSymbolTransition(b.transitions, b.next, c, b.next + 1),
            b.epsilonTransitions, b.stack + [Fragment(b.next, b.next + 1)])
  }

  /** Concatenation: the left fragment's exit leads into the right fragment's entry. */
  function ConcatStep(b: Builder): Result<Builder, CompileError> {
    var n := |b.stack|;
    if n < 2 then Err(InvalidConcatenation)
    else
      var right := b.stack[n - 1];
      var left := b.stack[n - 2];
      Ok(Builder(b.next, b.transitions,
                 AddEpsilonTransition(b.epsilonTransitions, left.accept, right.start),
                 b.stack[..n - 2] + [Fragment(left.start, right.accept)]))
  }

  /** Union: a fresh entry branching into both fragments, a fresh exit both lead to. */
  function UnionStep(b: Builder): Result<Builder, CompileError> {
    var n := |b.stack|;
    if n < 2 then Err(InvalidUnion)
    else
      var right := b.stack[n - 1];
      var left := b.stack[n - 2];
      var start := b.next;
      var accept := b.next + 1;
      var e1 := AddEpsilonTransition(b.epsilonTransitions, start, left.start);
      var e2 := AddEpsilonTransition(e1, start, right.start);
      var e3 := AddEpsilonTransition(e2, left.accept, accept);
      var e4 := AddEpsilonTransition(e3, right.accept, accept);
      Ok(Builder(b.next + 2, b.transitions, e4, b.stack[..n - 2] + [Fragment(start, accept)]))
  }

  /** Kleene star: fresh entry and exit, a bypass, and a loop back from the fragment's exit. */
  function StarStep(b: Builder): Result<Builder, CompileError> {
    var n := |b.stack|;
    if n < 1 then Err(InvalidKleeneStar)
    else
      var fragment := b.stack[n - 1];
      var start := b.next;
      var accept := b.next + 1;
      var e1 := AddEpsilonTransition(b.epsilonTransitions, start, fragment.start);
      var e2 := AddEpsilonTransition(e1, start, accept);
      var e3 := AddEpsilonTransition(e2, fragment.accept, fragment.start);
      var e4 := AddEpsilonTransition(e3, fragment.accept, accept);
      Ok(Builder(b.next + 2, b.transitions, e4, b.stack[..n - 1] + [Fragment(start, accept)]))
  }

  /** Optional: fresh entry and exit and a bypass, without the loop. */
  function OptionalStep(b: Builder): Result<Builder, CompileError> {
    var n := |b.stack|;
    if n < 1 then Err(InvalidOptionalOperand)
    else
      var fragment := b.stack[n - 1];
      var start := b.next;
      var accept := b.next + 1;
      var e1 := AddEpsilonTransition(b.epsilonTransitions, start, fragment.start);
      var e2 := AddEpsilonTransition(e1, start, accept);
      var e3 := AddEpsilonTransition(e2, fragment.accept, accept);
      Ok(Builder(b.next + 2, b.transitions, e3, b.stack[..n - 1] + [Fragment(start, accept)]))
  }

  /** The builder after reading one more postfix token. Parentheses are skipped. */
  function BuildStep(b: Builder, t: Token): Result<Builder, CompileError> {
    match t
    case Literal(c) => Ok(LiteralStep(b, c))
    case Concat => ConcatStep(b)
    case Union => UnionStep(b)
    case Star => StarStep(b)
    case Optional => OptionalStep(b)
    case LParen => Ok(b)
    case RParen => Ok(b)
  }

  /** The builder after reading the postfix sequence `p`; the first failing token decides the error. */
  function Built(p: seq<Token>): Result<Builder, CompileError>
    decreases |p|
  {
    if p == [] then Ok(EmptyBuilder)
    else
      var b :- Built(Popped(p));
      BuildStep(b, Top(p))
  }

  /** The automaton of a postfix sequence: exactly one fragment must remain. */
  function ThompsonNfa(p: seq<Token>): Result<Nfa, CompileError> {
    var b :- Built(p);
    if |b.stack| != 1 then Err(InvalidExpression)
    else Ok(Nfa(b.stack[0].start, b.stack[0].accept, b.transitions, b.epsilonTransitions))
  }

  lemma BuiltPush(p: seq<Token>, t: Token)
    ensures Built(p + [t]) == if Built(p).Err? then Built(p) else BuildStep(Built(p).value, t)
  {
    assert Popped(p + [t]) == p;
  }

  /** A failure on a prefix is the failure of the whole sequence. */
  lemma {:induction false} BuiltPrefixFailure(p: seq<Token>, i: nat)
    requires i <= |p| && Built(p[..i]).Err?
    ensures Built(p) == Built(p[..i])
    decreases |p| - i
  {
    if i < |p| {
      assert p[..i + 1] == p[..i] + [p[i]];
      BuiltPush(p[..i], p[i]);
      BuiltPrefixFailure(p, i + 1);
    } else {
      assert p[..i] == p;
    }
  }

  lemma BuiltNext(p: seq<Token>, i: nat, b: Builder)
    requires i < |p| && Built(p[..i]) == Ok(b)
    ensures Built(p[..i + 1]) == BuildStep(b, p[i])
  {
    assert p[..i + 1] == p[..i] + [p[i]];
    BuiltPush(p[..i], p[i]);
  }

  /* The union, star and optional cases of the builder's loop, each on the loop's variables. */

  method UniteTop(next: nat, t: SymbolEdges, e: EpsilonEdges, stack: seq<Fragment>)
    returns (next': nat, e': EpsilonEdges, stack': seq<Fragment>)
    requires |stack| >= 2
    ensures UnionStep(Builder(next, t, e, stack)) == Ok(Builder(next', t, e', stack'))
  {
    var right := stack[|stack| - 1];
    var left := stack[|stack| - 2];
    stack' := stack[..|stack| - 2];
    var start := next;
    next' := next + 1;
    var accept := next';
    next' := next' + 1;
    e' := AddEpsilonTransition(e, start, left.start);
    e' := AddEpsilonTransition(e', start, right.start);
    e' := AddEpsilonTransition(e', left.accept, accept);
    e' := AddEpsilonTransition(e', right.accept, accept);
    stack' := stack' + [Fragment(start, accept)];
  }

  method StarTop(next: nat, t: SymbolEdges, e: EpsilonEdges, stack: seq<Fragment>)
    returns (next': nat, e': EpsilonEdges, stack': seq<Fragment>)
    requires |stack| >= 1
    ensures StarStep(Builder(next, t, e, stack)) == Ok(Builder(next', t, e', stack'))
  {
    var fragment := stack[|stack| - 1];
    stack' := stack[..|stack| - 1];
    var start := next;
    next' := next + 1;
    var accept := next';
    next' := next' + 1;
    e' := AddEpsilonTransition(e, start, fragment.start);
    e' := AddEpsilonTransition(e', start, accept);
    e' := AddEpsilonTransition(e', fragment.accept, fragment.start);
    e' := AddEpsilonTransition(e', fragment.accept, accept);
    stack' := stack' + [Fragment(start, accept)];
  }

  method OptionalTop(next: nat, t: SymbolEdges, e: EpsilonEdges, stack: seq<Fragment>)
    returns (next': nat, e': EpsilonEdges, stack': seq<Fragment>)
    requires |stack| >= 1
    ensures OptionalStep(Builder(next, t, e, stack)) == Ok(Builder(next', t, e', stack'))
  {
    var fragment := stack[|stack| - 1];
    stack' := stack[..|stack| - 1];
    var start := next;
    next' := next + 1;
    var accept := next';
    next' := next' + 1;
    e' := AddEpsilonTransition(e, start, fragment.start);
    e' := AddEpsilonTransition(e', start, accept);
    e' := AddEpsilonTransition(e', fragment.accept, accept);
    stack' := stack' + [Fragment(start, accept)];
  }

  /** The builder's loop, with its counter, edge maps and fragment stack. */
  method BuildNfaFromPostfix(postfix: seq<Token>) returns (r: Result<Nfa, CompileError>)
    ensures r == ThompsonNfa(postfix)
  {
    var nextStateId: nat := 0;
    var transitions: SymbolEdges := map[];
    var epsilonTransitions: EpsilonEdges := map[];
    var stack: seq<Fragment> := [];
    assert postfix[..0] == [];
    for i := 0 to |postfix|
      invariant Built(postfix[..i]) == Ok(Builder(nextStateId, transitions, epsilonTransitions, stack))
    {
      var token := postfix[i];
      BuiltNext(postfix, i, Builder(nextStateId, transitions, epsilonTransitions, stack));
      if token.Literal? {
        var start := nextStateId;
        nextStateId := nextStateId + 1;
        var accept := nextStateId;
        nextStateId := nextStateId + 1;
        transitions := AddSymbolTransition(transitions, start, token.value, accept);
        stack := stack + [Fragment(start, accept)];
      } else if token.Concat? {
        if |stack| < 2 {
          BuiltPrefixFailure(postfix, i + 1);
          return Err(InvalidConcatenation);
        }
        var right := stack[|stack| - 1];
        var left := stack[|stack| - 2];
        stack := stack[..|stack| - 2];
        epsilonTransitions := AddEpsilonTransition(epsilonTransitions, left.accept, right.start);
        stack := stack + [Fragment(left.start, right.accept)];
      } else if token.Union? {
        if |stack| < 2 {
          BuiltPrefixFailure(postfix, i + 1);
          return Err(InvalidUnion);
        }
        nextStateId, epsilonTransitions, stack := UniteTop(nextStateId, transitions, epsilonTransitions, stack);
      } else if token.Star? {
        if |stack| < 1 {
          BuiltPrefixFailure(postfix, i + 1);
          return Err(InvalidKleeneStar);
        }
        nextStateId, epsilonTransitions, stack := StarTop(nextStateId, transitions, epsilonTransitions, stack);
      } else if token.Optional? {
        if |stack| < 1 {
          BuiltPrefixFailure(postfix, i + 1);
          return Err(InvalidOptionalOperand);
        }
        nextStateId, epsilonTransitions, stack := OptionalTop(nextStateId, transitions, epsilonTransitions, stack);
      }
    }
    assert postfix[..|postfix|] == postfix;
    if |stack| != 1 {
      return Err(InvalidExpression);
    }
    var root := stack[0];
    return Ok(Nfa(root.start, root.accept, transitions, epsilonTransitions));
  }

  /* Well-formedness: the builder succeeds exactly on well-formed postfix sequences. */

  /** The builder succeeds exactly where the operand count never falls short, and its stack
      then holds as many fragments as the count says. */
  lemma {:induction false} BuiltDepth(p: seq<Token>)
    ensures Built(p).Ok? <==> OperandDepth(p).Some?
    ensures Built(p).Ok? ==> |Built(p).value.stack| == OperandDepth(p).value
    decreases |p|
  {
    if p != [] {
      BuiltDepth(Popped(p));
    }
  }

  /** The construction yields an automaton exactly for a postfix sequence that evaluates to
      one operand. */
  lemma ThompsonSucceeds(p: seq<Token>)
    ensures ThompsonNfa(p).Ok? <==> WellFormedPostfix(p)
  {
    BuiltDepth(p);
  }

  /* Shape: fragments on the stack are intervals of fresh ids, their exits have no outgoing
     edge and their entries no incoming edge. */

  ghost predicate SymbolBelow(t: SymbolEdges, n: nat) {
    && (forall q :: q in t ==> q < n)
    && (forall q, c, r :: r in Targets(t, q, c) ==> r < n)
  }

  ghost predicate EpsilonBelow(e: EpsilonEdges, n: nat) {
    && (forall q :: q in e ==> q < n)
    && (forall q, r :: r in EpsilonTargets(e, q) ==> r < n)
  }

  /** No edge of either kind leaves `q`. */
  predicate Sink(t: SymbolEdges, e: EpsilonEdges, q: nat) {
    q !in t && q !in e
  }

  /** No edge of either kind enters `q`. */
  ghost predicate Source(t: SymbolEdges, e: EpsilonEdges, q: nat) {
    && (forall p, c :: q !in Targets(t, p, c))
    && (forall p :: q !in EpsilonTargets(e, p))
  }

  /** The fragments are disjoint, increasing intervals of ids below `n`. */
  ghost predicate Ordered(stack: seq<Fragment>, n: nat) {
    && (forall j :: 0 <= j < |stack| ==> stack[j].start < stack[j].accept < n)
    && (forall j, k :: 0 <= j < k < |stack| ==> stack[j].accept < stack[k].start)
  }

  ghost predicate FragmentsOpen(t: SymbolEdges, e: EpsilonEdges, stack: seq<Fragment>) {
    forall j :: 0 <= j < |stack| ==> Sink(t, e, stack[j].accept) && Source(t, e, stack[j].start)
  }

  ghost predicate Shaped(b: Builder) {
    && SymbolBelow(b.transitions, b.next)
    && EpsilonBelow(b.epsilonTransitions, b.next)
    && Ordered(b.stack, b.next)
    && FragmentsOpen(b.transitions, b.epsilonTransitions, b.stack)
  }

  /** The epsilon edges `es`, added in order. */
  function AddEpsilonEdges(e: EpsilonEdges, es: seq<(nat, nat)>): EpsilonEdges
    decreases |es|
  {
    if es == [] then e else AddEpsilonEdges(AddEpsilonTransition(e, es[0].0, es[0].1), es[1..])
  }

  lemma EpsilonAddBelow(e: EpsilonEdges, n: nat, from: nat, to: nat)
    requires EpsilonBelow(e, n) && from < n && to < n
    ensures EpsilonBelow(AddEpsilonTransition(e, from, to), n)
  {
    EpsilonTransitionAdded(e, from, to);
  }

  /** An epsilon edge between states above every fragment keeps the fragments open. */
  lemma EpsilonAddKeepsOpen(t: SymbolEdges, e: EpsilonEdges, stack: seq<Fragment>, lo: nat, from: nat, to: nat)
    requires FragmentsOpen(t, e, stack) && Ordered(stack, lo) && lo <= from && lo <= to
    ensures FragmentsOpen(t, AddEpsilonTransition(e, from, to), stack)
  {
    EpsilonTransitionAdded(e, from, to);
  }

  lemma EpsilonAddKeepsSink(t: SymbolEdges, e: EpsilonEdges, q: nat, from: nat, to: nat)
    requires Sink(t, e, q) && q != from
    ensures Sink(t, AddEpsilonTransition(e, from, to), q)
  {
  }

  lemma EpsilonAddKeepsSource(t: SymbolEdges, e: EpsilonEdges, q: nat, from: nat, to: nat)
    requires Source(t, e, q) && q != to
    ensures Source(t, AddEpsilonTransition(e, from, to), q)
  {
    EpsilonTransitionAdded(e, from, to);
  }

  lemma OpenPrefix(t: SymbolEdges, e: EpsilonEdges, stack: seq<Fragment>, m: nat)
    requires FragmentsOpen(t, e, stack) && m <= |stack|
    ensures FragmentsOpen(t, e, stack[..m])
  {
  }

  lemma OpenPush(t: SymbolEdges, e: EpsilonEdges, stack: seq<Fragment>, f: Fragment)
    requires FragmentsOpen(t, e, stack) && Sink(t, e, f.accept) && Source(t, e, f.start)
    ensures FragmentsOpen(t, e, stack + [f])
  {
  }

  lemma OrderedPush(stack: seq<Fragment>, n: nat, m: nat, f: Fragment)
    requires Ordered(stack, n) && n <= f.start < f.accept < m
    ensures Ordered(stack + [f], m)
  {
  }

  /** The fragments below the `m`-th lie below its entry. */
  lemma OrderedPrefix(stack: seq<Fragment>, n: nat, m: nat)
    requires Ordered(stack, n) && m < |stack|
    ensures Ordered(stack[..m], stack[m].start)
  {
  }

  /** Below a fresh id, no edge enters or leaves it. */
  lemma FreshIsIsolated(b: Builder, q: nat)
    requires SymbolBelow(b.transitions, b.next) && EpsilonBelow(b.epsilonTransitions, b.next)
    requires q >= b.next
    ensures Sink(b.transitions, b.epsilonTransitions, q) && Source(b.transitions, b.epsilonTransitions, q)
  {
  }

  /** While the fresh pair `n`, `n + 1` is being wired to fragments that were above all of
      `rest` (whose states lie below `lo`): what holds of the edges so far. */
  ghost predicate Wiring(t: SymbolEdges, e: EpsilonEdges, rest: seq<Fragment>, lo: nat, n: nat) {
    && SymbolBelow(t, n + 2) && EpsilonBelow(e, n + 2) && Ordered(rest, lo) && lo <= n
    && FragmentsOpen(t, e, rest) && Sink(t, e, n + 1) && Source(t, e, n)
  }

  /** An edge that neither leaves the fresh exit nor enters the fresh entry keeps the wiring. */
  lemma WiringAdd(t: SymbolEdges, e: EpsilonEdges, rest: seq<Fragment>, lo: nat, n: nat, from: nat, to: nat)
    requires Wiring(t, e, rest, lo, n)
    requires lo <= from < n + 2 && lo <= to < n + 2 && from != n + 1 && to != n
    ensures Wiring(t, AddEpsilonTransition(e, from, to), rest, lo, n)
  {
    EpsilonAddBelow(e, n + 2, from, to);
    EpsilonAddKeepsOpen(t, e, rest, lo, from, to);
    EpsilonAddKeepsSink(t, e, n + 1, from, to);
    EpsilonAddKeepsSource(t, e, n, from, to);
  }

  /** Edges between states from `lo` on that neither leave the fresh exit nor enter the fresh entry. */
  predicate WiresFit(es: seq<(nat, nat)>, lo: nat, n: nat) {
    forall k :: 0 <= k < |es| ==>
      lo <= es[k].0 < n + 2 && lo <= es[k].1 < n + 2 && es[k].0 != n + 1 && es[k].1 != n
  }

  lemma {:induction false} WiringAddAll(t: SymbolEdges, e: EpsilonEdges, es: seq<(nat, nat)>, rest: seq<Fragment>, lo: nat, n: nat)
    requires Wiring(t, e, rest, lo, n) && WiresFit(es, lo, n)
    ensures Wiring(t, AddEpsilonEdges(e, es), rest, lo, n)
    decreases |es|
  {
    if es != [] {
      WiringAdd(t, e, rest, lo, n, es[0].0, es[0].1);
      WiringAddAll(t, AddEpsilonTransition(e, es[0].0, es[0].1), es[1..], rest, lo, n);
    }
  }

  /** Fitting epsilon edges on top of a started wiring, and the new fragment pushed: the builder
      is shaped again. */
  lemma WiringFinish(b: Builder, t: SymbolEdges, e: EpsilonEdges, es: seq<(nat, nat)>, rest: seq<Fragment>, lo: nat, n: nat)
    requires Wiring(t, e, rest, lo, n) && WiresFit(es, lo, n)
    requires b == Builder(n + 2, t, AddEpsilonEdges(e, es), rest + [Fragment(n, n + 1)])
    ensures Shaped(b)
  {
    WiringAddAll(t, e, es, rest, lo, n);
    WiringEnds(b, t, AddEpsilonEdges(e, es), rest, lo, n);
  }

  /** The fragments left below the top `k` ones, with a fresh pair drawn: the wiring starts. */
  lemma WiringStarts(b: Builder, k: nat)
    requires Shaped(b) && 1 <= k <= |b.stack|
    ensures Wiring(b.transitions, b.epsilonTransitions, b.stack[..|b.stack| - k], b.stack[|b.stack| - k].start, b.next)
  {
    OpenPrefix(b.transitions, b.epsilonTransitions, b.stack, |b.stack| - k);
    OrderedPrefix(b.stack, b.next, |b.stack| - k);
    FreshIsIsolated(b, b.next);
    FreshIsIsolated(b, b.next + 1);
  }

  /** A fresh fragment pushed on top of open fragments that lie below it. */
  lemma WiringEnds(b: Builder, t: SymbolEdges, e: EpsilonEdges, rest: seq<Fragment>, lo: nat, n: nat)
    requires Wiring(t, e, rest, lo, n)
    requires b == Builder(n + 2, t, e, rest + [Fragment(n, n + 1)])
    ensures Shaped(b)
  {
    OpenPush(t, e, rest, Fragment(n, n + 1));
    OrderedPush(rest, lo, n + 2, Fragment(n, n + 1));
  }

  /** A symbol edge between states at or above `lo` keeps the fragments below `lo` open. */
  lemma SymbolAddKeepsOpen(t: SymbolEdges, e: EpsilonEdges, stack: seq<Fragment>, lo: nat, from: nat, c: char, to: nat)
    requires FragmentsOpen(t, e, stack) && Ordered(stack, lo) && lo <= from && lo <= to
    ensures FragmentsOpen(AddSymbolTransition(t, from, c, to), e, stack)
  {
    var t' := AddSymbolTransition(t, from, c, to);
    SymbolTransitionAdded(t, from, c, to);
    forall j | 0 <= j < |stack|
      ensures Sink(t', e, stack[j].accept) && Source(t', e, stack[j].start)
    {
      assert stack[j].accept != from && stack[j].start != to;
    }
  }

  lemma SymbolAddBelow(t: SymbolEdges, n: nat, from: nat, c: char, to: nat)
    requires SymbolBelow(t, n) && from < n && to < n
    ensures SymbolBelow(AddSymbolTransition(t, from, c, to), n)
  {
    SymbolTransitionAdded(t, from, c, to);
  }

  lemma SymbolAddKeepsSink(t: SymbolEdges, e: EpsilonEdges, q: nat, from: nat, c: char, to: nat)
    requires Sink(t, e, q) && q != from
    ensures Sink(AddSymbolTransition(t, from, c, to), e, q)
  {
  }

  lemma SymbolAddKeepsSource(t: SymbolEdges, e: EpsilonEdges, q: nat, from: nat, c: char, to: nat)
    requires Source(t, e, q) && q != to
    ensures Source(AddSymbolTransition(t, from, c, to), e, q)
  {
    SymbolTransitionAdded(t, from, c, to);
  }

  /** A symbol edge from the fresh entry to the fresh exit. */
  lemma LiteralWiring(b: Builder, c: char)
    requires Shaped(b)
    ensures Wiring(AddSymbolTransition(b.transitions, b.next, c, b.next + 1), b.epsilonTransitions, b.stack, b.next, b.next)
  {
    var n := b.next;
    var t0, e := b.transitions, b.epsilonTransitions;
    var t := AddSymbolTransition(t0, n, c, n + 1);
    FreshIsIsolated(b, n);
    FreshIsIsolated(b, n + 1);
    LiteralEdge(t0, e, b.stack, n, c);
  }

  lemma LiteralEdge(t0: SymbolEdges, e: EpsilonEdges, stack: seq<Fragment>, n: nat, c: char)
    requires SymbolBelow(t0, n) && EpsilonBelow(e, n) && Ordered(stack, n) && FragmentsOpen(t0, e, stack)
    requires Sink(t0, e, n + 1) && Source(t0, e, n)
    ensures Wiring(AddSymbolTransition(t0, n, c, n + 1), e, stack, n, n)
  {
    var t := AddSymbolTransition(t0, n, c, n + 1);
    SymbolAddBelow(t0, n + 2, n, c, n + 1);
    SymbolAddKeepsOpen(t0, e, stack, n, n, c, n + 1);
    SymbolAddKeepsSink(t0, e, n + 1, n, c, n + 1);
    SymbolAddKeepsSource(t0, e, n, n, c, n + 1);
  }

  lemma LiteralShaped(b: Builder, c: char)
    requires Shaped(b)
    ensures Shaped(LiteralStep(b, c))
  {
    LiteralWiring(b, c);
    assert b.stack[..|b.stack|] == b.stack;
    WiringEnds(LiteralStep(b, c), LiteralStep(b, c).transitions, b.epsilonTransitions, b.stack, b.next, b.next);
  }

  lemma ConcatShaped(b: Builder)
    requires Shaped(b) && |b.stack| >= 2
    ensures Shaped(ConcatStep(b).value)
  {
    var m := |b.stack|;
    var right := b.stack[m - 1];
    var left := b.stack[m - 2];
    var rest := b.stack[..m - 2];
    var e := AddEpsilonTransition(b.epsilonTransitions, left.accept, right.start);
    EpsilonAddBelow(b.epsilonTransitions, b.next, left.accept, right.start);
    OpenPrefix(b.transitions, b.epsilonTransitions, b.stack, m - 2);
    OrderedPrefix(b.stack, b.next, m - 2);
    EpsilonAddKeepsOpen(b.transitions, b.epsilonTransitions, rest, left.start, left.accept, right.start);
    EpsilonAddKeepsSink(b.transitions, b.epsilonTransitions, right.accept, left.accept, right.start);
    EpsilonAddKeepsSource(b.transitions, b.epsilonTransitions, left.start, left.accept, right.start);
    OpenPush(b.transitions, e, rest, Fragment(left.start, right.accept));
    OrderedPush(rest, left.start, b.next, Fragment(left.start, right.accept));
  }

  /* The nested additions of the union, star and optional steps, as edge lists. */

  lemma AddFour(e: EpsilonEdges, a: (nat, nat), b: (nat, nat), c: (nat, nat), d: (nat, nat))
    ensures AddEpsilonEdges(e, [a, b, c, d]) == AddEpsilonTransition(AddEpsilonTransition(AddEpsilonTransition(
      AddEpsilonTransition(e, a.0, a.1), b.0, b.1), c.0, c.1), d.0, d.1)
  {
    var e1 := AddEpsilonTransition(e, a.0, a.1);
    var e2 := AddEpsilonTransition(e1, b.0, b.1);
    var e3 := AddEpsilonTransition(e2, c.0, c.1);
    assert [a, b, c, d][1..] == [b, c, d] && [b, c, d][1..] == [c, d] && [c, d][1..] == [d] && [d][1..] == [];
    calc {
      AddEpsilonEdges(e, [a, b, c, d]);
      AddEpsilonEdges(e1, [b, c, d]);
      AddEpsilonEdges(e2, [c, d]);
      AddEpsilonEdges(e3, [d]);
      AddEpsilonEdges(AddEpsilonTransition(e3, d.0, d.1), []);
    }
  }

  lemma AddThree(e: EpsilonEdges, a: (nat, nat), b: (nat, nat), c: (nat, nat))
    ensures AddEpsilonEdges(e, [a, b, c]) == AddEpsilonTransition(AddEpsilonTransition(
      AddEpsilonTransition(e, a.0, a.1), b.0, b.1), c.0, c.1)
  {
    var e1 := AddEpsilonTransition(e, a.0, a.1);
    var e2 := AddEpsilonTransition(e1, b.0, b.1);
    assert [a, b, c][1..] == [b, c] && [b, c][1..] == [c] && [c][1..] == [];
    calc {
      AddEpsilonEdges(e, [a, b, c]);
      AddEpsilonEdges(e1, [b, c]);
      AddEpsilonEdges(e2, [c]);
      AddEpsilonEdges(AddEpsilonTransition(e2, c.0, c.1), []);
    }
  }

  /** The union's epsilon edges, in the order the builder adds them. */
  function UnionWires(n: nat, left: Fragment, right: Fragment): seq<(nat, nat)> {
    [(n, left.start), (n, right.start), (left.accept, n + 1), (right.accept, n + 1)]
  }

  function StarWires(n: nat, f: Fragment): seq<(nat, nat)> {
    [(n, f.start), (n, n + 1), (f.accept, f.start), (f.accept, n + 1)]
  }

  function OptionalWires(n: nat, f: Fragment): seq<(nat, nat)> {
    [(n, f.start), (n, n + 1), (f.accept, n + 1)]
  }

  lemma UnionWiresFit(n: nat, left: Fragment, right: Fragment)
    requires left.start < left.accept < right.start < right.accept < n
    ensures WiresFit(UnionWires(n, left, right), left.start, n)
  {
  }

  lemma StarWiresFit(n: nat, f: Fragment)
    requires f.start < f.accept < n
    ensures WiresFit(StarWires(n, f), f.start, n) && WiresFit(OptionalWires(n, f), f.start, n)
  {
  }

  lemma UnionAsWires(b: Builder)
    requires |b.stack| >= 2
    ensures var m := |b.stack|;
      UnionStep(b) == Ok(Builder(b.next + 2, b.transitions,
        AddEpsilonEdges(b.epsilonTransitions, UnionWires(b.next, b.stack[m - 2], b.stack[m - 1])),
        b.stack[..m - 2] + [Fragment(b.next, b.next + 1)]))
  {
    var es := UnionWires(b.next, b.stack[|b.stack| - 2], b.stack[|b.stack| - 1]);
    AddFour(b.epsilonTransitions, es[0], es[1], es[2], es[3]);
  }

  lemma StarAsWires(b: Builder)
    requires |b.stack| >= 1
    ensures var m := |b.stack|;
      StarStep(b) == Ok(Builder(b.next + 2, b.transitions,
        AddEpsilonEdges(b.epsilonTransitions, StarWires(b.next, b.stack[m - 1])),
        b.stack[..m - 1] + [Fragment(b.next, b.next + 1)]))
  {
    var es := StarWires(b.next, b.stack[|b.stack| - 1]);
    AddFour(b.epsilonTransitions, es[0], es[1], es[2], es[3]);
  }

  lemma OptionalAsWires(b: Builder)
    requires |b.stack| >= 1
    ensures var m := |b.stack|;
      OptionalStep(b) == Ok(Builder(b.next + 2, b.transitions,
        AddEpsilonEdges(b.epsilonTransitions, OptionalWires(b.next, b.stack[m - 1])),
        b.stack[..m - 1] + [Fragment(b.next, b.next + 1)]))
  {
    var es := OptionalWires(b.next, b.stack[|b.stack| - 1]);
    AddThree(b.epsilonTransitions, es[0], es[1], es[2]);
  }

  lemma UnionShaped(b: Builder)
    requires Shaped(b) && |b.stack| >= 2
    ensures Shaped(UnionStep(b).value)
  {
    var m := |b.stack|;
    var right := b.stack[m - 1];
    var left := b.stack[m - 2];
    assert left.start < left.accept < right.start < right.accept < b.next;
    UnionWiresFit(b.next, left, right);
    UnionAsWires(b);
    WiringStarts(b, 2);
    WiringFinish(UnionStep(b).value, b.transitions, b.epsilonTransitions, UnionWires(b.next, left, right), b.stack[..|b.stack| - 2], left.start, b.next);
  }

  lemma StarShaped(b: Builder)
    requires Shaped(b) && |b.stack| >= 1
    ensures Shaped(StarStep(b).value)
  {
    var m := |b.stack|;
    var f := b.stack[m - 1];
    assert f.start < f.accept < b.next;
    StarWiresFit(b.next, f);
    StarAsWires(b);
    WiringStarts(b, 1);
    WiringFinish(StarStep(b).value, b.transitions, b.epsilonTransitions, StarWires(b.next, f), b.stack[..|b.stack| - 1], f.start, b.next);
  }

  lemma OptionalShaped(b: Builder)
    requires Shaped(b) && |b.stack| >= 1
    ensures Shaped(OptionalStep(b).value)
  {
    var m := |b.stack|;
    var f := b.stack[m - 1];
    assert f.start < f.accept < b.next;
    StarWiresFit(b.next, f);
    OptionalAsWires(b);
    WiringStarts(b, 1);
    WiringFinish(OptionalStep(b).value, b.transitions, b.epsilonTransitions, OptionalWires(b.next, f), b.stack[..|b.stack| - 1], f.start, b.next);
  }

  /** How many fresh states the tokens of `p` draw: two per literal, union, star and optional. */
  function StatesDrawn(p: seq<Token>): nat
    decreases |p|
  {
    if p == [] then 0
    else StatesDrawn(Popped(p)) + (if Top(p).Literal? || Top(p).Union? || Top(p).Star? || Top(p).Optional? then 2 else 0)
  }

  lemma {:induction false} BuiltShaped(p: seq<Token>)
    requires Built(p).Ok?
    ensures Shaped(Built(p).value)
    ensures Built(p).value.next == StatesDrawn(p)
    decreases |p|
  {
    if p != [] {
      var q := Popped(p);
      BuiltShaped(q);
      var b := Built(q).value;
      match Top(p)
      case Literal(c) => LiteralShaped(b, c);
      case Concat => ConcatShaped(b);
      case Union => UnionShaped(b);
      case Star => StarShaped(b);
      case Optional => OptionalShaped(b);
      case LParen =>
      case RParen =>
    }
  }

  /** The automaton's states are the ids drawn; its start state has no incoming edge and its
      accepting state, distinct from the start, no outgoing one. */
  lemma ThompsonShape(p: seq<Token>)
    requires ThompsonNfa(p).Ok?
    ensures var nfa := ThompsonNfa(p).value;
      && nfa.start < nfa.accept < StatesDrawn(p)
      && Sink(nfa.transitions, nfa.epsilonTransitions, nfa.accept)
      && (forall q, c :: nfa.start !in Targets(nfa.transitions, q, c))
      && (forall q :: nfa.start !in EpsilonTargets(nfa.epsilonTransitions, q))
      && (forall q :: q in nfa.transitions ==> q < StatesDrawn(p))
      && (forall q :: q in nfa.epsilonTransitions ==> q < StatesDrawn(p))
      && (forall q, c, r :: r in Targets(nfa.transitions, q, c) ==> r < StatesDrawn(p))
      && (forall q, r :: r in EpsilonTargets(nfa.epsilonTransitions, q) ==> r < StatesDrawn(p))
  {
    BuiltShaped(p);
  }
}
