/**
 * The infix-to-postfix stage of ui/lib/src/nvui/automata.ts (`toPostfix`): a shunting-yard pass
 * with an output queue and an operator stack, checking operator placement as it goes.
 *
 * Stacks are sequences whose top is the last element, as the source's arrays are.
 */
module Postfix {
  import opened Wrappers
  import opened Tokens

  predicate IsBinary(t: Token) {
    t.Union? || t.Concat?
  }

  /** Binding strength of the binary operators: concatenation binds tighter than union. */
  function Precedence(t: Token): nat
    requires IsBinary(t)
  {
    if t.Union? then 1 else 2
  }

  function Top(s: seq<Token>): Token
    requires s != []
  {
    s[|s| - 1]
  }

  function Popped(s: seq<Token>): seq<Token>
    requires s != []
  {
    s[..|s| - 1]
  }

  /** What the converter may find on its operator stack: '(' and binary operators. */
  predicate OperatorStack(ops: seq<Token>) {
    forall k :: 0 <= k < |ops| ==> ops[k].LParen? || IsBinary(ops[k])
  }

  /** `*` needs a literal, ')' or '*' right before it. */
  predicate StarOperand(prev: Token) {
    prev.Literal? || prev.RParen? || prev.Star?
  }

  /** Moves every binary operator of precedence at least `p` off the top of `ops` onto `output`. */
  function PopBinding(output: seq<Token>, ops: seq<Token>, p: nat): (seq<Token>, seq<Token>)
    decreases |ops|
  {
    if ops != [] && IsBinary(Top(ops)) && Precedence(Top(ops)) >= p then
      PopBinding(output + [Top(ops)], Popped(ops), p)
    else (output, ops)
  }

  /** Moves operators onto `output` until a '(' , which is discarded; `None` when there is none. */
  function CloseGroup(output: seq<Token>, ops: seq<Token>): Option<(seq<Token>, seq<Token>)>
    decreases |ops|
  {
    if ops == [] then None
    else if Top(ops).LParen? then Some((output, Popped(ops)))
    else CloseGroup(output + [Top(ops)], Popped(ops))
  }

  /** Empties the operator stack at the end of the input; a parenthesis left there is an error. */
  function Flush(output: seq<Token>, ops: seq<Token>): Result<seq<Token>, CompileError>
    decreases |ops|
  {
    if ops == [] then Ok(output)
    else if Top(ops).LParen? || Top(ops).RParen? then Err(MismatchedParentheses)
    else Flush(output + [Top(ops)], Popped(ops))
  }

  /** One pass of the converter's loop: the token `ts[i]`, read with the output queue and the
      operator stack built so far, gives the new queue and stack or an error. */
  function ConvertStep(ts: seq<Token>, i: nat, output: seq<Token>, ops: seq<Token>): Result<(seq<Token>, seq<Token>), CompileError>
    requires i < |ts|
  {
    var t := ts[i];
    if t.Literal? then Ok((output + [t], ops))
    else if t.Star? then
      if i == 0 || !StarOperand(ts[i - 1]) then Err(InvalidStarUsage) else Ok((output + [t], ops))
    else if t.Optional? then
      if i == 0 || !IsAtomEnd(ts[i - 1]) then Err(InvalidOptionalUsage) else Ok((output + [t], ops))
    else if t.LParen? then Ok((output, ops + [t]))
    else if t.RParen? then
      match CloseGroup(output, ops)
      case None => Err(MismatchedParentheses)
      case Some(state) => Ok(state)
    else if i == 0 || i + 1 >= |ts| then Err(OperatorAtBoundary)
    else if !IsAtomEnd(ts[i - 1]) || !IsAtomStart(ts[i + 1]) then Err(InvalidOperatorPlacement)
    else
      var (o, s) := PopBinding(output, ops, Precedence(t));
      Ok((o, s + [t]))
  }

  /** The conversion of `ts[i..]`, given the output and operator stack built from `ts[..i]`. */
  function ConvertFrom(ts: seq<Token>, i: nat, output: seq<Token>, ops: seq<Token>): Result<seq<Token>, CompileError>
    requires i <= |ts|
    decreases |ts| - i
  {
    if i == |ts| then Flush(output, ops)
    else
      match ConvertStep(ts, i, output, ops)
      case Err(e) => Err(e)
      case Ok((o, s)) => ConvertFrom(ts, i + 1, o, s)
  }

  /** The postfix form of a token sequence. */
  function Postfix(ts: seq<Token>): Result<seq<Token>, CompileError> {
    ConvertFrom(ts, 0, [], [])
  }

  /** The converter's loop, with its operator stack and output queue. */
  method ToPostfix(tokens: seq<Token>) returns (r: Result<seq<Token>, CompileError>)
    ensures r == Postfix(tokens)
  {
    var output: seq<Token> := [];
    var operators: seq<Token> := [];
    var i := 0;
    while i < |tokens|
      invariant 0 <= i <= |tokens|
      invariant ConvertFrom(tokens, i, output, operators) == Postfix(tokens)
    {
      var token := tokens[i];
      if token.Literal? {
        output := output + [token];
      } else if token.Star? {
        if i == 0 || !(tokens[i - 1].Literal? || tokens[i - 1].RParen? || tokens[i - 1].Star?) {
          return Err(InvalidStarUsage);
        }
        output := output + [token];
      } else if token.Optional? {
        if i == 0 || !(tokens[i - 1].Literal? || tokens[i - 1].RParen? || tokens[i - 1].Star? || tokens[i - 1].Optional?) {
          return Err(InvalidOptionalUsage);
        }
        output := output + [token];
      } else if token.LParen? {
        operators := operators + [token];
      } else if token.RParen? {
        ghost var group := CloseGroup(output, operators);
        var foundLeft := false;
        while |operators| > 0
          invariant group == CloseGroup(output, operators)
          decreases |operators|
        {
          var top := operators[|operators| - 1];
          if top.LParen? {
            foundLeft := true;
            operators := operators[..|operators| - 1];
            break;
          }
          operators := operators[..|operators| - 1];
          output := output + [top];
        }
        if !foundLeft {
          return Err(MismatchedParentheses);
        }
        assert group == Some((output, operators));
      } else {
        if i == 0 || i + 1 >= |tokens| {
          return Err(OperatorAtBoundary);
        }
        var prev := tokens[i - 1];
        var next := tokens[i + 1];
        var prevValid := prev.Literal? || prev.RParen? || prev.Star? || prev.Optional?;
        var nextValid := next.Literal? || next.LParen?;
        if !prevValid || !nextValid {
          return Err(InvalidOperatorPlacement);
        }
        ghost var popped := PopBinding(output, operators, Precedence(token));
        while |operators| > 0
          invariant popped == PopBinding(output, operators, Precedence(token))
          decreases |operators|
        {
          var top := operators[|operators| - 1];
          if !(top.Union? || top.Concat?) {
            break;
          }
          if Precedence(top) >= Precedence(token) {
            operators := operators[..|operators| - 1];
            output := output + [top];
          } else {
            break;
          }
        }
        assert popped == (output, operators);
        operators := operators + [token];
      }
      i := i + 1;
    }
    ghost var flushed := Flush(output, operators);
    while |operators| > 0
      invariant flushed == Flush(output, operators)
      decreases |operators|
    {
      var top := operators[|operators| - 1];
      operators := operators[..|operators| - 1];
      if top.LParen? || top.RParen? {
        return Err(MismatchedParentheses);
      }
      output := output + [top];
    }
    return Ok(output);
  }

  /* ---------- When the conversion succeeds ---------- */

  /** The placement rule the converter enforces on the token at position `i`. */
  predicate PlacedAt(ts: seq<Token>, i: nat)
    requires i < |ts|
  {
    var t := ts[i];
    if t.Star? then i > 0 && StarOperand(ts[i - 1])
    else if t.Optional? then i > 0 && IsAtomEnd(ts[i - 1])
    else if IsBinary(t) then 0 < i && i + 1 < |ts| && IsAtomEnd(ts[i - 1]) && IsAtomStart(ts[i + 1])
    else true
  }

  predicate PlacedFrom(ts: seq<Token>, i: nat)
    requires i <= |ts|
  {
    forall j :: i <= j < |ts| ==> PlacedAt(ts, j)
  }

  /** Every `*`, `?`, `|` and concatenation stands where the converter accepts it. */
  predicate WellPlaced(ts: seq<Token>) {
    PlacedFrom(ts, 0)
  }

  /** Reading `ts[i..]` with `open` groups already open, no ')' comes without an open group
      and every group is closed at the end. */
  predicate BalancedFrom(ts: seq<Token>, i: nat, open: nat)
    requires i <= |ts|
    decreases |ts| - i
  {
    if i == |ts| then open == 0
    else if ts[i].LParen? then BalancedFrom(ts, i + 1, open + 1)
    else if ts[i].RParen? then open > 0 && BalancedFrom(ts, i + 1, open - 1)
    else BalancedFrom(ts, i + 1, open)
  }

  predicate Balanced(ts: seq<Token>) {
    BalancedFrom(ts, 0, 0)
  }

  /** The number of '(' on an operator stack. */
  function OpenGroups(ops: seq<Token>): nat
    decreases |ops|
  {
    if ops == [] then 0 else OpenGroups(Popped(ops)) + (if Top(ops).LParen? then 1 else 0)
  }

  lemma OpenGroupsPush(ops: seq<Token>, t: Token)
    ensures OpenGroups(ops + [t]) == OpenGroups(ops) + (if t.LParen? then 1 else 0)
  {
    assert Popped(ops + [t]) == ops;
  }

  lemma OperatorStackPush(ops: seq<Token>, t: Token)
    requires OperatorStack(ops) && (t.LParen? || IsBinary(t))
    ensures OperatorStack(ops + [t])
  {
    assert forall k :: 0 <= k < |ops| ==> (ops + [t])[k] == ops[k];
  }

  lemma {:induction false} FlushOutcome(output: seq<Token>, ops: seq<Token>)
    requires OperatorStack(ops)
    ensures Flush(output, ops).Ok? <==> OpenGroups(ops) == 0
    ensures Flush(output, ops).Err? ==> Flush(output, ops).error == MismatchedParentheses
    decreases |ops|
  {
    if ops != [] && !Top(ops).LParen? {
      assert OperatorStack(Popped(ops));
      FlushOutcome(output + [Top(ops)], Popped(ops));
    }
  }

  lemma {:induction false} CloseGroupOutcome(output: seq<Token>, ops: seq<Token>)
    requires OperatorStack(ops)
    ensures CloseGroup(output, ops).Some? <==> OpenGroups(ops) > 0
    ensures CloseGroup(output, ops).Some? ==>
      OperatorStack(CloseGroup(output, ops).value.1) &&
      OpenGroups(CloseGroup(output, ops).value.1) == OpenGroups(ops) - 1
    decreases |ops|
  {
    if ops != [] {
      assert OperatorStack(Popped(ops));
      if !Top(ops).LParen? {
        CloseGroupOutcome(output + [Top(ops)], Popped(ops));
      }
    }
  }

  lemma {:induction false} PopBindingKeepsGroups(output: seq<Token>, ops: seq<Token>, p: nat)
    requires OperatorStack(ops)
    ensures OperatorStack(PopBinding(output, ops, p).1)
    ensures OpenGroups(PopBinding(output, ops, p).1) == OpenGroups(ops)
    decreases |ops|
  {
    if ops != [] && IsBinary(Top(ops)) && Precedence(Top(ops)) >= p {
      assert OperatorStack(Popped(ops));
      PopBindingKeepsGroups(output + [Top(ops)], Popped(ops), p);
    }
  }

  /** One step fails only on a misplaced token or on a ')' without an open group, and keeps
      the stack an operator stack, counting the groups opened and closed. */
  lemma StepOutcome(ts: seq<Token>, i: nat, output: seq<Token>, ops: seq<Token>)
    requires i < |ts| && OperatorStack(ops)
    ensures ConvertStep(ts, i, output, ops).Ok? <==> PlacedAt(ts, i) && (ts[i].RParen? ==> OpenGroups(ops) > 0)
    ensures PlacedAt(ts, i) && ConvertStep(ts, i, output, ops).Err? ==>
      ConvertStep(ts, i, output, ops).error == MismatchedParentheses
    ensures ConvertStep(ts, i, output, ops).Ok? ==>
      var s := ConvertStep(ts, i, output, ops).value.1;
      OperatorStack(s) &&
      OpenGroups(s) == OpenGroups(ops) + (if ts[i].LParen? then 1 else 0) - (if ts[i].RParen? then 1 else 0)
  {
    var t := ts[i];
    if t.LParen? {
      OpenGroupsPush(ops, t);
      OperatorStackPush(ops, t);
    } else if t.RParen? {
      CloseGroupOutcome(output, ops);
    } else if IsBinary(t) && PlacedAt(ts, i) {
      var (o, s) := PopBinding(output, ops, Precedence(t));
      PopBindingKeepsGroups(output, ops, Precedence(t));
      OpenGroupsPush(s, t);
      OperatorStackPush(s, t);
    }
  }

  /** The converter succeeds exactly on well-placed, balanced input; on well-placed input that
      is not balanced it reports mismatched parentheses. */
  lemma {:induction false} ConvertOutcome(ts: seq<Token>, i: nat, output: seq<Token>, ops: seq<Token>)
    requires i <= |ts| && OperatorStack(ops)
    ensures ConvertFrom(ts, i, output, ops).Ok? <==> PlacedFrom(ts, i) && BalancedFrom(ts, i, OpenGroups(ops))
    ensures PlacedFrom(ts, i) && !BalancedFrom(ts, i, OpenGroups(ops)) ==>
      ConvertFrom(ts, i, output, ops) == Err(MismatchedParentheses)
    decreases |ts| - i
  {
    if i == |ts| {
      FlushOutcome(output, ops);
    } else {
      assert PlacedFrom(ts, i) <==> PlacedAt(ts, i) && PlacedFrom(ts, i + 1);
      StepOutcome(ts, i, output, ops);
      if ConvertStep(ts, i, output, ops).Ok? {
        var (o, s) := ConvertStep(ts, i, output, ops).value;
        ConvertOutcome(ts, i + 1, o, s);
      }
    }
  }

  /** Conversion succeeds if and only if the tokens are well placed and balanced. */
  lemma PostfixSucceeds(ts: seq<Token>)
    ensures Postfix(ts).Ok? <==> WellPlaced(ts) && Balanced(ts)
    ensures WellPlaced(ts) && !Balanced(ts) ==> Postfix(ts) == Err(MismatchedParentheses)
  {
    ConvertOutcome(ts, 0, [], []);
  }

  /* ---------- What the output holds ---------- */

  predicate IsParen(t: Token) {
    t.LParen? || t.RParen?
  }

  /** The tokens that are not parentheses, in order. */
  function WithoutParens(ts: seq<Token>): seq<Token>
    decreases |ts|
  {
    if ts == [] then [] else WithoutParens(Popped(ts)) + (if IsParen(Top(ts)) then [] else [Top(ts)])
  }

  /** The literals, in order. */
  function Literals(ts: seq<Token>): seq<Token>
    decreases |ts|
  {
    if ts == [] then [] else Literals(Popped(ts)) + (if Top(ts).Literal? then [Top(ts)] else [])
  }

  lemma {:induction false} WithoutParensAppend(a: seq<Token>, b: seq<Token>)
    ensures WithoutParens(a + b) == WithoutParens(a) + WithoutParens(b)
    decreases |b|
  {
    if b == [] {
      assert a + b == a;
    } else {
      assert Popped(a + b) == a + Popped(b);
      assert Top(a + b) == Top(b);
      WithoutParensAppend(a, Popped(b));
    }
  }

  lemma {:induction false} LiteralsAppend(a: seq<Token>, b: seq<Token>)
    ensures Literals(a + b) == Literals(a) + Literals(b)
    decreases |b|
  {
    if b == [] {
      assert a + b == a;
    } else {
      assert Popped(a + b) == a + Popped(b);
      assert Top(a + b) == Top(b);
      LiteralsAppend(a, Popped(b));
      calc {
        Literals(a + b);
        Literals(a + Popped(b)) + (if Top(b).Literal? then [Top(b)] else []);
        Literals(a) + Literals(Popped(b)) + (if Top(b).Literal? then [Top(b)] else []);
      }
    }
  }

  lemma WithoutParensSingle(t: Token)
    ensures WithoutParens([t]) == if IsParen(t) then [] else [t]
  {
    assert Popped([t]) == [];
  }

  lemma LiteralsSingle(t: Token)
    ensures Literals([t]) == if t.Literal? then [t] else []
  {
    assert Popped([t]) == [];
  }

  /** Moving the top of the stack to the output keeps the non-parenthesis tokens of both, and
      the literals of the output when the top is an operator. */
  lemma MoveTop(output: seq<Token>, ops: seq<Token>)
    requires ops != [] && IsBinary(Top(ops))
    ensures multiset(output + [Top(ops)]) + multiset(WithoutParens(Popped(ops))) ==
      multiset(output) + multiset(WithoutParens(ops))
    ensures Literals(output + [Top(ops)]) == Literals(output)
  {
    LiteralsAppend(output, [Top(ops)]);
    LiteralsSingle(Top(ops));
  }

  lemma {:induction false} PopBindingMoves(output: seq<Token>, ops: seq<Token>, p: nat)
    ensures multiset(PopBinding(output, ops, p).0) + multiset(WithoutParens(PopBinding(output, ops, p).1)) ==
      multiset(output) + multiset(WithoutParens(ops))
    ensures Literals(PopBinding(output, ops, p).0) == Literals(output)
    decreases |ops|
  {
    if ops != [] && IsBinary(Top(ops)) && Precedence(Top(ops)) >= p {
      MoveTop(output, ops);
      PopBindingMoves(output + [Top(ops)], Popped(ops), p);
    }
  }

  lemma {:induction false} CloseGroupMoves(output: seq<Token>, ops: seq<Token>)
    requires OperatorStack(ops) && CloseGroup(output, ops).Some?
    ensures multiset(CloseGroup(output, ops).value.0) + multiset(WithoutParens(CloseGroup(output, ops).value.1)) ==
      multiset(output) + multiset(WithoutParens(ops))
    ensures Literals(CloseGroup(output, ops).value.0) == Literals(output)
    decreases |ops|
  {
    assert OperatorStack(Popped(ops));
    if !Top(ops).LParen? {
      MoveTop(output, ops);
      CloseGroupMoves(output + [Top(ops)], Popped(ops));
    }
  }

  lemma {:induction false} FlushMoves(output: seq<Token>, ops: seq<Token>)
    requires OperatorStack(ops) && Flush(output, ops).Ok?
    ensures multiset(Flush(output, ops).value) == multiset(output) + multiset(WithoutParens(ops))
    ensures Literals(Flush(output, ops).value) == Literals(output)
    decreases |ops|
  {
    if ops != [] {
      assert OperatorStack(Popped(ops));
      MoveTop(output, ops);
      FlushMoves(output + [Top(ops)], Popped(ops));
    }
  }

  lemma SliceCons(ts: seq<Token>, i: nat)
    requires i < |ts|
    ensures ts[i..] == [ts[i]] + ts[i + 1..]
  {
  }

  /** One step moves the token it reads, unless it is a parenthesis, into the output or the
      stack. */
  lemma StepMoves(ts: seq<Token>, i: nat, output: seq<Token>, ops: seq<Token>)
    requires i < |ts| && OperatorStack(ops) && ConvertStep(ts, i, output, ops).Ok?
    ensures multiset(ConvertStep(ts, i, output, ops).value.0) + multiset(WithoutParens(ConvertStep(ts, i, output, ops).value.1)) ==
      multiset(output) + multiset(WithoutParens(ops)) + multiset(WithoutParens([ts[i]]))
  {
    var t := ts[i];
    var (o, s) := ConvertStep(ts, i, output, ops).value;
    WithoutParensSingle(t);
    if t.Literal? || t.Star? || t.Optional? {
      assert o == output + [t] && s == ops;
      MovesToOutput(output, ops, t);
    } else if t.LParen? {
      assert o == output && s == ops + [t];
      WithoutParensAppend(ops, [t]);
    } else if t.RParen? {
      assert (o, s) == CloseGroup(output, ops).value;
      CloseGroupMoves(output, ops);
    } else {
      var (o', s') := PopBinding(output, ops, Precedence(t));
      assert o == o' && s == s' + [t];
      PopBindingMoves(output, ops, Precedence(t));
      MovesToStack(output, ops, o', s', t);
    }
  }

  lemma MovesToOutput(output: seq<Token>, ops: seq<Token>, t: Token)
    ensures multiset(output + [t]) + multiset(WithoutParens(ops)) == multiset(output) + multiset(WithoutParens(ops)) + multiset{t}
  {
    assert multiset(output + [t]) == multiset(output) + multiset{t};
  }

  lemma MovesToStack(output: seq<Token>, ops: seq<Token>, o: seq<Token>, s: seq<Token>, t: Token)
    requires !IsParen(t)
    requires multiset(o) + multiset(WithoutParens(s)) == multiset(output) + multiset(WithoutParens(ops))
    ensures multiset(o) + multiset(WithoutParens(s + [t])) == multiset(output) + multiset(WithoutParens(ops)) + multiset{t}
  {
    WithoutParensAppend(s, [t]);
    WithoutParensSingle(t);
    assert multiset(WithoutParens(s) + [t]) == multiset(WithoutParens(s)) + multiset{t};
  }

  /** One step moves a literal straight to the output, and nothing else there. */
  lemma StepKeepsLiterals(ts: seq<Token>, i: nat, output: seq<Token>, ops: seq<Token>)
    requires i < |ts| && OperatorStack(ops) && ConvertStep(ts, i, output, ops).Ok?
    ensures Literals(ConvertStep(ts, i, output, ops).value.0) == Literals(output) + Literals([ts[i]])
  {
    var t := ts[i];
    var (o, s) := ConvertStep(ts, i, output, ops).value;
    LiteralsSingle(t);
    if t.Literal? || t.Star? || t.Optional? {
      assert o == output + [t];
      LiteralsAppend(output, [t]);
    } else if t.LParen? {
      assert o == output;
    } else if t.RParen? {
      assert (o, s) == CloseGroup(output, ops).value;
      CloseGroupMoves(output, ops);
    } else {
      assert o == PopBinding(output, ops, Precedence(t)).0;
      PopBindingMoves(output, ops, Precedence(t));
    }
  }

  /** A successful conversion from `i` is the conversion from `i + 1` after one step. */
  lemma ConvertUnfold(ts: seq<Token>, i: nat, output: seq<Token>, ops: seq<Token>)
    requires i < |ts| && ConvertFrom(ts, i, output, ops).Ok?
    ensures ConvertStep(ts, i, output, ops).Ok?
    ensures var (o, s) := ConvertStep(ts, i, output, ops).value;
      ConvertFrom(ts, i, output, ops) == ConvertFrom(ts, i + 1, o, s)
  {
  }

  lemma {:induction false} ConvertMoves(ts: seq<Token>, i: nat, output: seq<Token>, ops: seq<Token>)
    requires i <= |ts| && OperatorStack(ops) && ConvertFrom(ts, i, output, ops).Ok?
    ensures multiset(ConvertFrom(ts, i, output, ops).value) ==
      multiset(output) + multiset(WithoutParens(ops)) + multiset(WithoutParens(ts[i..]))
    decreases |ts| - i
  {
    if i == |ts| {
      assert ts[i..] == [];
      FlushMoves(output, ops);
    } else {
      SliceCons(ts, i);
      WithoutParensAppend([ts[i]], ts[i + 1..]);
      ConvertUnfold(ts, i, output, ops);
      var (o, s) := ConvertStep(ts, i, output, ops).value;
      StepOutcome(ts, i, output, ops);
      StepMoves(ts, i, output, ops);
      ConvertMoves(ts, i + 1, o, s);
    }
  }

  lemma {:induction false} ConvertKeepsLiterals(ts: seq<Token>, i: nat, output: seq<Token>, ops: seq<Token>)
    requires i <= |ts| && OperatorStack(ops) && ConvertFrom(ts, i, output, ops).Ok?
    ensures Literals(ConvertFrom(ts, i, output, ops).value) == Literals(output) + Literals(ts[i..])
    decreases |ts| - i
  {
    if i == |ts| {
      assert ts[i..] == [];
      FlushMoves(output, ops);
    } else {
      SliceCons(ts, i);
      LiteralsAppend([ts[i]], ts[i + 1..]);
      ConvertUnfold(ts, i, output, ops);
      var (o, s) := ConvertStep(ts, i, output, ops).value;
      StepOutcome(ts, i, output, ops);
      StepKeepsLiterals(ts, i, output, ops);
      ConvertKeepsLiterals(ts, i + 1, o, s);
    }
  }

  /** The postfix form is a rearrangement of the input without its parentheses, and keeps the
      literals in their input order. */
  lemma PostfixPermutes(ts: seq<Token>)
    requires Postfix(ts).Ok?
    ensures multiset(Postfix(ts).value) == multiset(WithoutParens(ts))
    ensures Literals(Postfix(ts).value) == Literals(ts)
  {
    ConvertMoves(ts, 0, [], []);
    ConvertKeepsLiterals(ts, 0, [], []);
    assert ts[0..] == ts;
  }

  lemma {:induction false} WithoutParensHasNone(ts: seq<Token>)
    ensures forall t :: t in WithoutParens(ts) ==> !IsParen(t)
    decreases |ts|
  {
    if ts != [] {
      WithoutParensHasNone(Popped(ts));
    }
  }

  /** Parentheses never reach the output. */
  lemma PostfixHasNoParens(ts: seq<Token>)
    requires Postfix(ts).Ok?
    ensures forall k :: 0 <= k < |Postfix(ts).value| ==> !IsParen(Postfix(ts).value[k])
  {
    PostfixPermutes(ts);
    WithoutParensHasNone(ts);
    var p := Postfix(ts).value;
    forall k | 0 <= k < |p|
      ensures !IsParen(p[k])
    {
      assert p[k] in multiset(p);
      assert p[k] in multiset(WithoutParens(ts));
    }
  }

  /* ---------- Well-formed postfix ---------- */

  /** The operand count after one more postfix token; `None` once an operator has found too few
      operands. Parentheses leave it alone, as the NFA builder skips them. */
  function DepthStep(d: Option<nat>, t: Token): Option<nat> {
    match d
    case None => None
    case Some(n) =>
      if t.Literal? then Some(n + 1)
      else if IsBinary(t) then (if n < 2 then None else Some(n - 1))
      else if t.Star? || t.Optional? then (if n < 1 then None else Some(n))
      else Some(n)
  }

  /** How many operands evaluating the postfix sequence `p` leaves on an empty stack. */
  function OperandDepth(p: seq<Token>): Option<nat>
    decreases |p|
  {
    if p == [] then Some(0) else DepthStep(OperandDepth(Popped(p)), Top(p))
  }

  /** A postfix sequence that evaluates to exactly one operand. */
  predicate WellFormedPostfix(p: seq<Token>) {
    OperandDepth(p) == Some(1)
  }

  lemma OperandDepthPush(p: seq<Token>, t: Token)
    ensures OperandDepth(p + [t]) == DepthStep(OperandDepth(p), t)
  {
    assert Popped(p + [t]) == p;
  }

  /** The number of binary operators on a stack. */
  function Binaries(ops: seq<Token>): nat
    decreases |ops|
  {
    if ops == [] then 0 else Binaries(Popped(ops)) + (if IsBinary(Top(ops)) then 1 else 0)
  }

  lemma BinariesPush(ops: seq<Token>, t: Token)
    ensures Binaries(ops + [t]) == Binaries(ops) + (if IsBinary(t) then 1 else 0)
  {
    assert Popped(ops + [t]) == ops;
  }

  /* With one operand more than binaries on the stack, moving binaries to the output keeps it so. */

  lemma {:induction false} PopBindingDepth(output: seq<Token>, ops: seq<Token>, p: nat)
    requires OperandDepth(output) == Some(Binaries(ops) + 1)
    ensures OperandDepth(PopBinding(output, ops, p).0) == Some(Binaries(PopBinding(output, ops, p).1) + 1)
    decreases |ops|
  {
    if ops != [] && IsBinary(Top(ops)) && Precedence(Top(ops)) >= p {
      OperandDepthPush(output, Top(ops));
      PopBindingDepth(output + [Top(ops)], Popped(ops), p);
    }
  }

  lemma {:induction false} CloseGroupDepth(output: seq<Token>, ops: seq<Token>)
    requires OperatorStack(ops) && CloseGroup(output, ops).Some?
    requires OperandDepth(output) == Some(Binaries(ops) + 1)
    ensures OperandDepth(CloseGroup(output, ops).value.0) == Some(Binaries(CloseGroup(output, ops).value.1) + 1)
    ensures OperatorStack(CloseGroup(output, ops).value.1)
    decreases |ops|
  {
    assert OperatorStack(Popped(ops));
    if !Top(ops).LParen? {
      OperandDepthPush(output, Top(ops));
      CloseGroupDepth(output + [Top(ops)], Popped(ops));
    }
  }

  lemma {:induction false} FlushDepth(output: seq<Token>, ops: seq<Token>)
    requires OperatorStack(ops) && Flush(output, ops).Ok?
    requires OperandDepth(output) == Some(Binaries(ops) + 1)
    ensures OperandDepth(Flush(output, ops).value) == Some(1)
    decreases |ops|
  {
    if ops != [] {
      assert OperatorStack(Popped(ops));
      OperandDepthPush(output, Top(ops));
      FlushDepth(output + [Top(ops)], Popped(ops));
    }
  }

  /** The token before position `i` ends an operand. */
  predicate AfterOperand(ts: seq<Token>, i: nat)
    requires i <= |ts|
  {
    i > 0 && IsAtomEnd(ts[i - 1])
  }

  /** No two neighbouring tokens are juxtaposed operands: every concatenation is explicit. */
  predicate NoJuxtaposition(ts: seq<Token>) {
    forall j :: 0 <= j < |ts| - 1 ==> !NeedsConcat(ts[j], ts[j + 1])
  }

  /** Some '(' is immediately followed by ')'. */
  predicate HasEmptyGroup(ts: seq<Token>) {
    exists j :: 0 <= j < |ts| - 1 && ts[j].LParen? && ts[j + 1].RParen?
  }

  /** Invariant of the conversion on input with explicit concatenations and no empty group: the
      output holds one operand per binary operator on the stack, plus one right after an operand. */
  predicate DepthInvariant(ts: seq<Token>, i: nat, output: seq<Token>, ops: seq<Token>)
    requires i <= |ts|
  {
    && OperatorStack(ops)
    && (i == 0 ==> ops == [])
    && (i > 0 && IsBinary(ts[i - 1]) ==> i < |ts| && IsAtomStart(ts[i]))
    && (i > 0 && ts[i - 1].LParen? ==> ops != [] && Top(ops).LParen?)
    && OperandDepth(output) == Some(Binaries(ops) + (if AfterOperand(ts, i) then 1 else 0))
  }

  lemma StepDepth(ts: seq<Token>, i: nat, output: seq<Token>, ops: seq<Token>)
    requires i < |ts| && DepthInvariant(ts, i, output, ops) && ConvertStep(ts, i, output, ops).Ok?
    requires NoJuxtaposition(ts) && !HasEmptyGroup(ts)
    ensures DepthInvariant(ts, i + 1, ConvertStep(ts, i, output, ops).value.0, ConvertStep(ts, i, output, ops).value.1)
  {
    var t := ts[i];
    var (o, s) := ConvertStep(ts, i, output, ops).value;
    StepOutcome(ts, i, output, ops);
    if i > 0 && IsAtomStart(t) {
      assert !NeedsConcat(ts[i - 1], t);
    }
    if t.Literal? || t.Star? || t.Optional? {
      assert o == output + [t] && s == ops;
      OperandDepthPush(output, t);
    } else if t.LParen? {
      assert o == output && s == ops + [t];
      BinariesPush(ops, t);
    } else if t.RParen? {
      assert (o, s) == CloseGroup(output, ops).value;
      if i > 0 {
        assert ts[i].RParen? && !ts[i - 1].LParen?;
      }
      CloseGroupDepth(output, ops);
    } else {
      var (o', s') := PopBinding(output, ops, Precedence(t));
      assert o == o' && s == s' + [t];
      PopBindingDepth(output, ops, Precedence(t));
      BinariesPush(s', t);
    }
  }

  lemma {:induction false} ConvertWellFormed(ts: seq<Token>, i: nat, output: seq<Token>, ops: seq<Token>)
    requires i <= |ts| && DepthInvariant(ts, i, output, ops) && ConvertFrom(ts, i, output, ops).Ok?
    requires ts != [] && NoJuxtaposition(ts) && !HasEmptyGroup(ts)
    ensures WellFormedPostfix(ConvertFrom(ts, i, output, ops).value)
    decreases |ts| - i
  {
    if i == |ts| {
      FlushDepth(output, ops);
    } else {
      ConvertUnfold(ts, i, output, ops);
      var (o, s) := ConvertStep(ts, i, output, ops).value;
      StepDepth(ts, i, output, ops);
      ConvertWellFormed(ts, i + 1, o, s);
    }
  }

  /** With every concatenation explicit and no empty group, a successful conversion yields
      postfix that evaluates to exactly one operand. */
  lemma PostfixWellFormed(ts: seq<Token>)
    requires ts != [] && NoJuxtaposition(ts) && !HasEmptyGroup(ts) && Postfix(ts).Ok?
    ensures WellFormedPostfix(Postfix(ts).value)
  {
    ConvertWellFormed(ts, 0, [], []);
  }

  /* An empty group "()" adds no operand, so postfix from input with one cannot be well formed:
     literals outnumber binary operators by one minus the number of empty groups. */

  /** Literals minus binary operators. */
  function Balance(ts: seq<Token>): int {
    |Literals(ts)| - multiset(ts)[Union] - multiset(ts)[Concat]
  }

  lemma BalancePush(p: seq<Token>, t: Token)
    ensures Balance(p + [t]) == Balance(p) + (if t.Literal? then 1 else if IsBinary(t) then -1 else 0)
  {
    LiteralsAppend(p, [t]);
    LiteralsSingle(t);
    var m := multiset(p + [t]);
    assert m == multiset(p) + multiset{t};
    assert m[Union] == multiset(p)[Union] + (if t == Union then 1 else 0);
    assert m[Concat] == multiset(p)[Concat] + (if t == Concat then 1 else 0);
  }

  lemma {:induction false} OperandDepthIsBalance(p: seq<Token>)
    ensures OperandDepth(p).Some? ==> OperandDepth(p).value == Balance(p)
    decreases |p|
  {
    if p != [] {
      OperandDepthIsBalance(Popped(p));
      assert p == Popped(p) + [Top(p)];
      BalancePush(Popped(p), Top(p));
    }
  }

  /** The number of empty groups "()". */
  function EmptyGroups(ts: seq<Token>): nat
    decreases |ts|
  {
    if |ts| < 2 then 0
    else EmptyGroups(Popped(ts)) + (if ts[|ts| - 2].LParen? && Top(ts).RParen? then 1 else 0)
  }

  lemma {:induction false} EmptyGroupsCount(ts: seq<Token>)
    ensures HasEmptyGroup(ts) <==> EmptyGroups(ts) > 0
    decreases |ts|
  {
    if |ts| >= 2 {
      var q := Popped(ts);
      EmptyGroupsCount(q);
      if HasEmptyGroup(ts) {
        var j :| 0 <= j < |ts| - 1 && ts[j].LParen? && ts[j + 1].RParen?;
        if j < |ts| - 2 {
          assert q[j] == ts[j] && q[j + 1] == ts[j + 1];
        }
      }
      if HasEmptyGroup(q) {
        var j :| 0 <= j < |q| - 1 && q[j].LParen? && q[j + 1].RParen?;
        assert ts[j] == q[j] && ts[j + 1] == q[j + 1];
      }
      if ts[|ts| - 2].LParen? && Top(ts).RParen? {
        assert HasEmptyGroup(ts) by {
          var j := |ts| - 2;
          assert ts[j].LParen? && ts[j + 1].RParen?;
        }
      }
    }
  }

  lemma {:induction false} OperandCount(ts: seq<Token>, i: nat)
    requires i <= |ts| && WellPlaced(ts) && NoJuxtaposition(ts) && (ts != [] ==> !ts[0].RParen?)
    ensures Balance(ts[..i]) + EmptyGroups(ts[..i]) == (if AfterOperand(ts, i) then 1 else 0)
    decreases i
  {
    if i > 0 {
      OperandCount(ts, i - 1);
      var q := ts[..i - 1];
      var t := ts[i - 1];
      assert ts[..i] == q + [t];
      assert Popped(ts[..i]) == q;
      BalancePush(q, t);
      assert PlacedAt(ts, i - 1);
      if i >= 2 {
        assert PlacedAt(ts, i - 2);
        assert !NeedsConcat(ts[i - 2], ts[i - 1]);
      }
    }
  }

  lemma {:induction false} BalancedEndsClosed(ts: seq<Token>, i: nat, open: nat)
    requires i < |ts| && BalancedFrom(ts, i, open)
    ensures !Top(ts).LParen?
    decreases |ts| - i
  {
    if i + 1 < |ts| {
      var next := if ts[i].LParen? then open + 1 else if ts[i].RParen? then open - 1 else open;
      BalancedEndsClosed(ts, i + 1, next);
    }
  }

  lemma {:induction false} WithoutParensCounts(ts: seq<Token>)
    ensures multiset(WithoutParens(ts))[Union] == multiset(ts)[Union]
    ensures multiset(WithoutParens(ts))[Concat] == multiset(ts)[Concat]
    decreases |ts|
  {
    if ts != [] {
      var p, t := Popped(ts), Top(ts);
      WithoutParensCounts(p);
      assert ts == p + [t];
      WithoutParensAppend(p, [t]);
      WithoutParensSingle(t);
      KeptCounts(WithoutParens(p), p, t);
    }
  }

  /** Dropping a parenthesis, or keeping any other token, leaves the operator counts in step. */
  lemma KeptCounts(w: seq<Token>, p: seq<Token>, t: Token)
    requires multiset(w)[Union] == multiset(p)[Union] && multiset(w)[Concat] == multiset(p)[Concat]
    ensures var kept := if IsParen(t) then [] else [t];
      multiset(w + kept)[Union] == multiset(p + [t])[Union] && multiset(w + kept)[Concat] == multiset(p + [t])[Concat]
  {
    var kept := if IsParen(t) then [] else [t];
    assert multiset(w + kept) == multiset(w) + multiset(kept);
    assert multiset(p + [t]) == multiset(p) + multiset{t};
  }

  /** With every concatenation explicit, a successful conversion yields well-formed postfix
      exactly when no group is empty. */
  lemma PostfixWellFormedIff(ts: seq<Token>)
    requires ts != [] && NoJuxtaposition(ts) && Postfix(ts).Ok?
    ensures WellFormedPostfix(Postfix(ts).value) <==> !HasEmptyGroup(ts)
  {
    if !HasEmptyGroup(ts) {
      PostfixWellFormed(ts);
    } else {
      var p := Postfix(ts).value;
      PostfixSucceeds(ts);
      BalancedEndsClosed(ts, 0, 0);
      assert PlacedAt(ts, |ts| - 1);
      OperandCount(ts, |ts|);
      assert ts[..|ts|] == ts;
      EmptyGroupsCount(ts);
      PostfixPermutes(ts);
      WithoutParensCounts(ts);
      OperandDepthIsBalance(p);
    }
  }

  /* ---------- Precedence and associativity ---------- */

  /* One step of the conversion, token kind by token kind. */

  lemma ConvertOperand(ts: seq<Token>, i: nat, output: seq<Token>, ops: seq<Token>)
    requires i < |ts| && ts[i].Literal?
    ensures ConvertFrom(ts, i, output, ops) == ConvertFrom(ts, i + 1, output + [ts[i]], ops)
  {
  }

  lemma ConvertOpen(ts: seq<Token>, i: nat, output: seq<Token>, ops: seq<Token>)
    requires i < |ts| && ts[i].LParen?
    ensures ConvertFrom(ts, i, output, ops) == ConvertFrom(ts, i + 1, output, ops + [LParen])
  {
  }

  lemma ConvertClose(ts: seq<Token>, i: nat, output: seq<Token>, ops: seq<Token>)
    requires i < |ts| && ts[i].RParen? && CloseGroup(output, ops).Some?
    ensures ConvertFrom(ts, i, output, ops) ==
      ConvertFrom(ts, i + 1, CloseGroup(output, ops).value.0, CloseGroup(output, ops).value.1)
  {
  }

  lemma ConvertBinary(ts: seq<Token>, i: nat, output: seq<Token>, ops: seq<Token>)
    requires i < |ts| && IsBinary(ts[i]) && PlacedAt(ts, i)
    ensures ConvertFrom(ts, i, output, ops) ==
      ConvertFrom(ts, i + 1, PopBinding(output, ops, Precedence(ts[i])).0,
                  PopBinding(output, ops, Precedence(ts[i])).1 + [ts[i]])
  {
  }

  /** Concatenation binds tighter than union, to its right... */
  lemma UnionThenConcat(a: Token, b: Token, c: Token)
    requires a.Literal? && b.Literal? && c.Literal?
    ensures Postfix([a, Union, b, Concat, c]) == Ok([a, b, c, Concat, Union])
  {
    var ts := [a, Union, b, Concat, c];
    calc {
      Postfix(ts);
      { ConvertOperand(ts, 0, [], []); assert [] + [a] == [a]; }
      ConvertFrom(ts, 1, [a], []);
      { ConvertBinary(ts, 1, [a], []); assert [] + [Union] == [Union]; }
      ConvertFrom(ts, 2, [a], [Union]);
      { ConvertOperand(ts, 2, [a], [Union]); assert [a] + [b] == [a, b]; }
      ConvertFrom(ts, 3, [a, b], [Union]);
      { ConvertBinary(ts, 3, [a, b], [Union]);
        assert PopBinding([a, b], [Union], 2) == ([a, b], [Union]);
        assert [Union] + [Concat] == [Union, Concat]; }
      ConvertFrom(ts, 4, [a, b], [Union, Concat]);
      { ConvertOperand(ts, 4, [a, b], [Union, Concat]); assert [a, b] + [c] == [a, b, c]; }
      ConvertFrom(ts, 5, [a, b, c], [Union, Concat]);
      Flush([a, b, c], [Union, Concat]);
      { assert [a, b, c] + [Concat] == [a, b, c, Concat] && Popped([Union, Concat]) == [Union]; }
      Flush([a, b, c, Concat], [Union]);
      { assert [a, b, c, Concat] + [Union] == [a, b, c, Concat, Union] && Popped([Union]) == []; }
      Ok([a, b, c, Concat, Union]);
    }
  }

  /** ... and to its left. */
  lemma ConcatThenUnion(a: Token, b: Token, c: Token)
    requires a.Literal? && b.Literal? && c.Literal?
    ensures Postfix([a, Concat, b, Union, c]) == Ok([a, b, Concat, c, Union])
  {
    var us := [a, Concat, b, Union, c];
    calc {
      Postfix(us);
      { ConvertOperand(us, 0, [], []); assert [] + [a] == [a]; }
      ConvertFrom(us, 1, [a], []);
      { ConvertBinary(us, 1, [a], []); assert [] + [Concat] == [Concat]; }
      ConvertFrom(us, 2, [a], [Concat]);
      { ConvertOperand(us, 2, [a], [Concat]); assert [a] + [b] == [a, b]; }
      ConvertFrom(us, 3, [a, b], [Concat]);
      { ConvertBinary(us, 3, [a, b], [Concat]);
        assert [a, b] + [Concat] == [a, b, Concat] && Popped([Concat]) == [];
        assert PopBinding([a, b], [Concat], 1) == ([a, b, Concat], []);
        assert [] + [Union] == [Union]; }
      ConvertFrom(us, 4, [a, b, Concat], [Union]);
      { ConvertOperand(us, 4, [a, b, Concat], [Union]); assert [a, b, Concat] + [c] == [a, b, Concat, c]; }
      ConvertFrom(us, 5, [a, b, Concat, c], [Union]);
      Flush([a, b, Concat, c], [Union]);
      { assert [a, b, Concat, c] + [Union] == [a, b, Concat, c, Union] && Popped([Union]) == []; }
      Ok([a, b, Concat, c, Union]);
    }
  }

  /** Operators of equal precedence group to the left. */
  lemma AssociativityExample(a: Token, b: Token, c: Token, op: Token)
    requires a.Literal? && b.Literal? && c.Literal? && IsBinary(op)
    ensures Postfix([a, op, b, op, c]) == Ok([a, b, op, c, op])
  {
    var ts := [a, op, b, op, c];
    calc {
      Postfix(ts);
      { ConvertOperand(ts, 0, [], []); assert [] + [a] == [a]; }
      ConvertFrom(ts, 1, [a], []);
      { ConvertBinary(ts, 1, [a], []); assert [] + [op] == [op]; }
      ConvertFrom(ts, 2, [a], [op]);
      { ConvertOperand(ts, 2, [a], [op]); assert [a] + [b] == [a, b]; }
      ConvertFrom(ts, 3, [a, b], [op]);
      { ConvertBinary(ts, 3, [a, b], [op]);
        assert [a, b] + [op] == [a, b, op] && Popped([op]) == [];
        assert PopBinding([a, b], [op], Precedence(op)) == ([a, b, op], []);
        assert [] + [op] == [op]; }
      ConvertFrom(ts, 4, [a, b, op], [op]);
      { ConvertOperand(ts, 4, [a, b, op], [op]); assert [a, b, op] + [c] == [a, b, op, c]; }
      ConvertFrom(ts, 5, [a, b, op, c], [op]);
      Flush([a, b, op, c], [op]);
      { assert [a, b, op, c] + [op] == [a, b, op, c, op] && Popped([op]) == []; }
      Ok([a, b, op, c, op]);
    }
  }

  /** A group overrides precedence. */
  lemma GroupingExample(a: Token, b: Token, c: Token)
    requires a.Literal? && b.Literal? && c.Literal?
    ensures Postfix([LParen, a, Union, b, RParen, Concat, c]) == Ok([a, b, Union, c, Concat])
  {
    GroupingOpened(a, b, c);
    GroupingClosed(a, b, c);
    GroupingFinished(a, b, c);
  }

  /** The last steps of `GroupingExample`: `·` goes on the empty stack, `c` to the output, and
      the flush pops `·`. */
  lemma GroupingFinished(a: Token, b: Token, c: Token)
    requires a.Literal? && b.Literal? && c.Literal?
    ensures var ts := [LParen, a, Union, b, RParen, Concat, c];
      ConvertFrom(ts, 5, [a, b, Union], []) == Ok([a, b, Union, c, Concat])
  {
    var ts := [LParen, a, Union, b, RParen, Concat, c];
    calc {
      ConvertFrom(ts, 5, [a, b, Union], []);
      { ConvertBinary(ts, 5, [a, b, Union], []); assert [] + [Concat] == [Concat]; }
      ConvertFrom(ts, 6, [a, b, Union], [Concat]);
      { ConvertOperand(ts, 6, [a, b, Union], [Concat]); assert [a, b, Union] + [c] == [a, b, Union, c]; }
      ConvertFrom(ts, 7, [a, b, Union, c], [Concat]);
      Flush([a, b, Union, c], [Concat]);
      { assert [a, b, Union, c] + [Concat] == [a, b, Union, c, Concat] && Popped([Concat]) == []; }
      Ok([a, b, Union, c, Concat]);
    }
  }

  /** The first four steps of `GroupingExample`: the group is open and holds `a b` and `|`. */
  lemma GroupingOpened(a: Token, b: Token, c: Token)
    requires a.Literal? && b.Literal? && c.Literal?
    ensures var ts := [LParen, a, Union, b, RParen, Concat, c];
      Postfix(ts) == ConvertFrom(ts, 4, [a, b], [LParen, Union])
  {
    var ts := [LParen, a, Union, b, RParen, Concat, c];
    calc {
      Postfix(ts);
      { ConvertOpen(ts, 0, [], []); assert [] + [LParen] == [LParen]; }
      ConvertFrom(ts, 1, [], [LParen]);
      { ConvertOperand(ts, 1, [], [LParen]); assert [] + [a] == [a]; }
      ConvertFrom(ts, 2, [a], [LParen]);
      { ConvertBinary(ts, 2, [a], [LParen]);
        assert PopBinding([a], [LParen], 1) == ([a], [LParen]);
        assert [LParen] + [Union] == [LParen, Union]; }
      ConvertFrom(ts, 3, [a], [LParen, Union]);
      { ConvertOperand(ts, 3, [a], [LParen, Union]); assert [a] + [b] == [a, b]; }
      ConvertFrom(ts, 4, [a, b], [LParen, Union]);
    }
  }

  /** The fifth step of `GroupingExample`: `)` pops `|` to the output and closes the group. */
  lemma GroupingClosed(a: Token, b: Token, c: Token)
    requires a.Literal? && b.Literal? && c.Literal?
    ensures var ts := [LParen, a, Union, b, RParen, Concat, c];
      ConvertFrom(ts, 4, [a, b], [LParen, Union]) == ConvertFrom(ts, 5, [a, b, Union], [])
  {
    var ts := [LParen, a, Union, b, RParen, Concat, c];
    assert [a, b] + [Union] == [a, b, Union] && Popped([LParen, Union]) == [LParen] && Popped([LParen]) == [];
    assert CloseGroup([a, b], [LParen, Union]) == Some(([a, b, Union], []));
    ConvertClose(ts, 4, [a, b], [LParen, Union]);
  }
}
