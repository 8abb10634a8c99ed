# Regex-to-DFA compiler and streaming key lexer, in Dafny

This project models the keyboard-command recogniser of the nvui accessibility layer:

- **The compiler** (`ui/lib/src/nvui/automata.ts`) turns a small regular-expression language into a deterministic automaton. The language has literals, backslash escapes, `|`, `*`, `?`, parentheses and juxtaposition. Compilation has five stages:
  1. a tokenizer;
  2. explicit insertion of concatenation operators;
  3. a shunting-yard conversion to postfix that checks operator placement;
  4. a Thompson construction of an NFA with a fresh-state counter;
  5. the subset construction, whose DFA states are named `"0"`, `"1"`, … in discovery order.
- **The runtime** (`ui/lib/src/nvui/handler.ts`) has three parts:
  - `RegexDFA`, a cursor into a compiled automaton that answers each key with -1 (no transition), 0 (moved) or 1 (moved into an accepting state);
  - `RegexLexer`, which keeps one cursor per registered pattern and reports the first pattern, in registration order, that accepts;
  - `RegexParserKeyboardEventHandler`, which buffers keys, skips modifier keys, dispatches the matched pattern's action with the buffer, and clears itself on a match, on a dead end, or when its timer fires.
- **The combinators** (`ui/lib/src/nvui/regex.ts`): `unite_regex` and `concatenate_regex` build one pattern out of several.

## Layout

Each stage of the source is a method with the source's loop, proved equal to a pure specification function or to a declarative reference. The properties the source promises are proved as lemmas about those functions.

| file | module | models |
|---|---|---|
| `wrappers.dfy` | `Wrappers` | `Option` and `Result` |
| `tokens.dfy` | `Tokens` | `tokenize`, `isAtomEnd`/`isAtomStart`, `insertExplicitConcatenation` |
| `postfix.dfy` | `Postfix` | `toPostfix` and its placement and parenthesis checks |
| `thompson.dfy` | `Thompson` | `addSymbolTransition`, `addEpsilonTransition`, `buildNFAFromPostfix` |
| `text.dfy` | `Text` | `String(n)` for state names, `join`/`split` of strings |
| `subset.dfy` | `Subset` | `epsilonClosure`, `move`, `collectAlphabet`, `stateSetKey`, `nfaToDfa`, and DFA/NFA runs |
| `compiler.dfy` | `Compiler` | `regexToDFA`, `RegParser` |
| `patterns.dfy` | `Patterns` | the regular expression a postfix sequence stands for, and the words it denotes |
| `walks.dfy` | `Walks` | labelled paths through the NFA's edge maps, and how they relate to the closure/move simulation |
| `recognition.dfy` | `Recognition` | the Thompson construction builds, for each fragment, an automaton for exactly the words of its tree |
| `grouping.dfy` | `Grouping` | how `toPostfix` converts parenthesised groups and chains of groups joined by one operator |
| `scenarios.dfy` | `Scenarios` | concrete patterns compiled end to end |
| `runtime.dfy` | `Runtime` | the `RegexDFA` class |
| `lexer.dfy` | `Lexer` | the `RegexLexer` class |
| `keyhandler.dfy` | `KeyHandler` | the non-DOM logic of `RegexParserKeyboardEventHandler` |
| `combinators.dfy` | `Combinators` | `unite_regex`, `concatenate_regex`, and the languages of what they return |

### How the JavaScript entities are represented

- A thrown `Error` becomes the `Err` case of a `Result` whose `CompileError` names the message. A register error is an `Option<RegisterError>`.
- JavaScript `Map`s and `Set`s become Dafny `map`s and `set`s.
- The DFA transition object is a `map<string, map<char, string>>`.
- The classes `RegexDFA`, `RegexLexer` and `RegexParserKeyboardEventHandler` are Dafny classes whose methods update the same fields: `currentState`, `tokens`, `registered_names`, the slot array with its statuses, `isCompiled` and `buffer`.
- The stepping and resetting methods are proved against pure functions of the old state: `Stepped`, `LexStep`, `ResetAll`, `ResetState`, `HandleKey` and `TestRun`. Registration, compilation and the constructors state their new fields directly; `Compile` relates the new slots to the tokens through `FreshSlots`.
- A key is a string, because `e.key` may be `"Enter"`. The DFA is keyed by single characters, so a longer key never has a transition.
- The timer is a boolean `timerPending`. Its expiry is the explicit `Timeout` event, which calls `reset`.
- What a pattern means is defined without any automaton. `Patterns.Trees` reads the pattern's postfix form on a stack, as the Thompson builder does, into a regular-expression tree (`Compiler.Pattern`). `Patterns.Denotes` gives the tree's words by structural recursion. The compiled DFA is proved to accept exactly those words.
- An action is an uninterpreted handle `Action`. Calling one is recorded as a `Dispatch(action, buffer)` entry appended to `dispatched`.

## Model

| member | source | states |
|---|---|---|
| Tokens.Tokenize | ui/lib/src/nvui/automata.ts:59-94 | the index loop returns exactly `Tokenized(regex)`: the empty pattern is refused, a backslash makes the next character a literal, and every other character becomes one token |
| Tokens.TokenizeFailures | ui/lib/src/nvui/automata.ts:60-75 | tokenizing fails exactly when the pattern is empty (`EmptyRegex`) or ends in an unpaired backslash (`TrailingBackslash`) |
| Tokens.ScanFailures | ui/lib/src/nvui/automata.ts:66-75 | the scan fails exactly on a dangling escape, and then with `TrailingBackslash` |
| Tokens.TokenCount | ui/lib/src/nvui/automata.ts:66-91 | there are never more tokens than characters, and exactly as many when there is no backslash |
| Tokens.UnescapedScan | ui/lib/src/nvui/automata.ts:78-90 | without backslashes, token i is the operator or literal for character i: each of `\| * ? ( )` gives its operator, anything else a literal |
| Tokens.EscapedCharacterIsLiteral | ui/lib/src/nvui/automata.ts:69-75 | an escaped character becomes one literal carrying that character, whatever it is |
| Tokens.ScanAppend | ui/lib/src/nvui/automata.ts:66-91 | the scan of `a + b` is the scan of `a` followed by the scan of `b` when `a` has no dangling escape |
| Tokens.TokenizeInvertsSpelling | ui/lib/src/nvui/automata.ts:59-94 | spelling a token sequence without concatenations (operators bare, literals escaped) and tokenizing it gives the same tokens back |
| Tokens.IsAtomEnd | ui/lib/src/nvui/automata.ts:96-103 | a token ends an atom exactly when it is a literal, `)`, `*` or `?` |
| Tokens.IsAtomStart | ui/lib/src/nvui/automata.ts:105-107 | a token starts an atom exactly when it is a literal or `(` |
| Tokens.InsertExplicitConcatenation | ui/lib/src/nvui/automata.ts:109-125 | the loop returns exactly `WithConcatenation(tokens)` |
| Tokens.ConcatenationIsRemovable | ui/lib/src/nvui/automata.ts:109-125 | removing the concatenation tokens from the output gives back the input's tokens in order |
| Tokens.ConcatenationKeepsTokens | ui/lib/src/nvui/automata.ts:112-114 | input token i sits in the output at i plus the number of concatenations inserted before it |
| Tokens.ConcatenationBetween | ui/lib/src/nvui/automata.ts:118-121 | one concatenation token is inserted between tokens i and i+1 exactly when the first ends an operand and the second starts one |
| Tokens.ConcatenationLength | ui/lib/src/nvui/automata.ts:109-125 | the output is as long as the input plus the inserted concatenations |
| Tokens.ConcatenationComplete | ui/lib/src/nvui/automata.ts:109-125 | no two neighbours of the output still need a concatenation between them |
| Tokens.WithConcatenationHead | ui/lib/src/nvui/automata.ts:112-114 | a non-empty input keeps its first token first |
| Postfix.ToPostfix | ui/lib/src/nvui/automata.ts:127-229 | the loop over the output and operator stacks returns exactly the conversion function `Postfix(tokens)` |
| Postfix.PostfixSucceeds | ui/lib/src/nvui/automata.ts:139-226 | conversion succeeds exactly when every operator is well placed and the parentheses balance; well-placed but unbalanced input fails with `MismatchedParentheses` |
| Postfix.StepOutcome | ui/lib/src/nvui/automata.ts:139-217 | one token is accepted exactly when it is well placed (`*` after a literal, `)` or `*`; `?` also after `?`; a binary operator between an operand end and an operand start) and a `)` finds an open group |
| Postfix.FlushOutcome | ui/lib/src/nvui/automata.ts:220-226 | draining the operator stack at the end fails exactly when a `(` is still open |
| Postfix.CloseGroupOutcome | ui/lib/src/nvui/automata.ts:170-184 | a `)` succeeds exactly when a `(` is on the stack, and removes one open group |
| Postfix.PostfixPermutes | ui/lib/src/nvui/automata.ts:127-229 | the output is a permutation of the input without its parentheses, and the literals keep their order |
| Postfix.PostfixHasNoParens | ui/lib/src/nvui/automata.ts:127-229 | the output contains no parenthesis |
| Postfix.PostfixWellFormed | ui/lib/src/nvui/automata.ts:127-229 | for input with explicit concatenation and no empty group, the output is well-formed postfix: each operator finds its operands and one operand remains |
| Postfix.PostfixWellFormedIff | ui/lib/src/nvui/automata.ts:127-229 | a converted sequence is well-formed postfix exactly when the input has no empty group `()` |
| Postfix.UnionThenConcat | ui/lib/src/nvui/automata.ts:33-36 | concatenation binds tighter than a union on its left: `a\|b·c` becomes `a b c · \|` |
| Postfix.ConcatThenUnion | ui/lib/src/nvui/automata.ts:33-36 | concatenation binds tighter than a union on its right: `a·b\|c` becomes `a b · c \|` |
| Postfix.AssociativityExample | ui/lib/src/nvui/automata.ts:205-215 | an operator pops an equal-precedence one, so `a op b op c` becomes `a b op c op` (left associative) |
| Postfix.GroupingExample | ui/lib/src/nvui/automata.ts:170-184 | parentheses override precedence: `(a\|b)·c` becomes `a b \| c ·` |
| Thompson.AddSymbolTransition | ui/lib/src/nvui/automata.ts:38-48 | the edge map with `to` added to the targets of `from` on `symbol`, the row and the entry created when missing (what this changes is stated by `SymbolTransitionAdded`) |
| Thompson.AddEpsilonTransition | ui/lib/src/nvui/automata.ts:50-57 | the epsilon map with `to` added to the targets of `from`, the entry created when missing (see `EpsilonTransitionAdded`) |
| Thompson.SymbolTransitionAdded | ui/lib/src/nvui/automata.ts:38-48 | adding a symbol edge adds exactly that target for that state and symbol and changes no other entry |
| Thompson.EpsilonTransitionAdded | ui/lib/src/nvui/automata.ts:50-57 | adding an epsilon edge adds exactly that target for that state |
| Thompson.BuildNfaFromPostfix | ui/lib/src/nvui/automata.ts:231-308 | the loop with its counter, edge maps and fragment stack returns exactly `ThompsonNfa(postfix)` |
| Thompson.UniteTop | ui/lib/src/nvui/automata.ts:248-270 | the union case allocates two fresh states and wires four epsilon edges, as the builder step does |
| Thompson.StarTop | ui/lib/src/nvui/automata.ts:272-283 | the star case allocates two fresh states and wires four epsilon edges, including the loop back |
| Thompson.OptionalTop | ui/lib/src/nvui/automata.ts:285-295 | the optional case allocates two fresh states and wires three epsilon edges |
| Thompson.ThompsonSucceeds | ui/lib/src/nvui/automata.ts:248-299 | building succeeds exactly when the postfix sequence is well formed (no operator short of operands, exactly one fragment left) |
| Thompson.BuiltDepth | ui/lib/src/nvui/automata.ts:238-299 | while building, the fragment stack is as deep as the number of operands still pending |
| Thompson.BuiltShaped | ui/lib/src/nvui/automata.ts:231-299 | every id on an edge is below the counter; literal, union, star and optional draw exactly two ids each and concatenation none; each fragment's accept has no outgoing edge and its start no incoming edge |
| Thompson.ThompsonShape | ui/lib/src/nvui/automata.ts:301-307 | the NFA's start and accept are distinct ids below the final counter, nothing leaves the accept state, nothing enters the start state, and all edges stay below the counter |
| Text.NatToStringParses | ui/lib/src/nvui/automata.ts:397 | `String(n)` is a non-empty run of decimal digits that reads back as n |
| Text.NatToStringInjective | ui/lib/src/nvui/automata.ts:396-400 | distinct counters give distinct state names |
| Text.JoinLength | ui/lib/src/nvui/regex.ts:38 | a join is as long as its parts plus one separator between each two |
| Text.SplitJoin | ui/lib/src/nvui/automata.ts:360-362 | parts without the separator are recovered by splitting their join |
| Subset.EpsilonClosure | ui/lib/src/nvui/automata.ts:310-331 | the worklist loop returns exactly the closure of the input set |
| Subset.ClosureIsLeast | ui/lib/src/nvui/automata.ts:310-331 | the closure contains the input, is closed under epsilon edges, and lies inside every closed superset of the input |
| Subset.ClosureUnique | ui/lib/src/nvui/automata.ts:310-331 | any least closed superset of the input is the closure |
| Subset.Move | ui/lib/src/nvui/automata.ts:333-348 | the loop returns exactly the set of states one `symbol` edge away from the input set |
| Subset.MoveOutsideAlphabet | ui/lib/src/nvui/automata.ts:333-358 | a symbol outside the alphabet moves nowhere |
| Subset.CollectAlphabet | ui/lib/src/nvui/automata.ts:350-358 | the loop returns exactly the symbols that label some edge |
| Subset.StateSetKey | ui/lib/src/nvui/automata.ts:360-362 | the ids of a state set in ascending numeric order, spelled in decimal and joined by commas (`StateSetKeyInjective` proves it identifies the set) |
| Subset.StateSetKeyInjective | ui/lib/src/nvui/automata.ts:360-362 | the sorted, comma-joined key of a state set determines the set |
| Subset.NfaToDfa | ui/lib/src/nvui/automata.ts:364-415 | the returned DFA is the subset construction: state `String(i)` stands for the i-th discovered set, starting with the closure of the start as `"0"`; sets are distinct and non-empty; each row entry is the closure of the move, or absent when the move is empty; a state accepts exactly when its set holds the NFA's accept state; every set after the first is the closure of a move out of an earlier set, so `numberOfStates` counts only the sets the search discovers |
| Subset.SubsetConstructionCorrect | ui/lib/src/nvui/automata.ts:364-415 | the DFA accepts a word exactly when the NFA does |
| Subset.DfaSimulatesNfa | ui/lib/src/nvui/automata.ts:364-415 | from the state of set i, the DFA run on w ends at the state of the NFA's reachable set, and is stuck exactly when that set is empty |
| Subset.SetReached | ui/lib/src/nvui/automata.ts:380-413 | every discovered set is where the NFA's closure/move run from the initial set ends on some word |
| Subset.EveryStateReachable | ui/lib/src/nvui/automata.ts:364-415 | every state of the DFA is reached from its initial state by some word: no state is unreachable |
| Subset.MissingRowIsStuck | ui/lib/src/nvui/automata.ts:402-405 | a DFA state without a row stands for a set with no outgoing symbol edge |
| Compiler.RegexToDfa | ui/lib/src/nvui/automata.ts:417-423 | the pipeline fails exactly when one of its stages does, with that stage's error; on success the DFA is the subset construction of the pattern's NFA, and it accepts exactly the words that the pattern, read as a regular expression (`Pattern`), denotes |
| Compiler.CompileSucceeds | ui/lib/src/nvui/automata.ts:417-423 | a pattern compiles exactly when it is non-empty, has no dangling escape, and its tokens with concatenations are well placed, balanced and free of empty groups |
| Compiler.CompiledLanguage | ui/lib/src/nvui/automata.ts:417-423 | the compiled DFA accepts exactly the words the pattern's NFA accepts, and these are exactly the words its regular expression denotes |
| Compiler.CompiledNames | ui/lib/src/nvui/automata.ts:408-414 | the initial state is `"0"`, there is at least one state, and every row and accepting state is named `"0"`…`"n-1"` |
| Compiler.RegParser.ParseToDfa | ui/lib/src/nvui/automata.ts:425-435 | `parseToDFA` compiles the stored pattern, with the same outcomes as `regexToDFA`, including the accepted language |
| Patterns.AlternationLanguage | ui/lib/src/nvui/regex.ts:33-39 | a word belongs to the left-grouped alternation of several regular expressions exactly when it belongs to one of them |
| Patterns.ConcatenationLanguage | ui/lib/src/nvui/regex.ts:41-47 | a word belongs to the left-grouped concatenation of several regular expressions exactly when it can be cut into one word of each, in order |
| Walks.AcceptsByPath | ui/lib/src/nvui/automata.ts:310-348 | the NFA accepts a word (closure, then move and closure per character) exactly when a path of epsilon and symbol edges spells the word from start to accept |
| Recognition.LiteralRecognizes | ui/lib/src/nvui/automata.ts:240-246 | a literal fragment's automaton accepts exactly the one-character word of its symbol |
| Recognition.ConcatRecognizes | ui/lib/src/nvui/automata.ts:248-255 | joining two fragments by an epsilon edge accepts exactly the words of the left followed by a word of the right |
| Recognition.UnionRecognizes | ui/lib/src/nvui/automata.ts:257-269 | the union fragment accepts exactly the words of either operand |
| Recognition.StarRecognizes | ui/lib/src/nvui/automata.ts:271-282 | the star fragment accepts exactly the concatenations of any number of the operand's words |
| Recognition.OptionalRecognizes | ui/lib/src/nvui/automata.ts:284-294 | the optional fragment accepts exactly the empty word and the operand's words |
| Recognition.BuiltMeans | ui/lib/src/nvui/automata.ts:238-295 | after every prefix of the postfix sequence, each fragment on the builder's stack accepts exactly the words of the corresponding tree on the tree stack |
| Recognition.ThompsonLanguage | ui/lib/src/nvui/automata.ts:231-308 | a built NFA leaves one tree, and accepts a word exactly when that tree denotes it |
| Grouping.GroupConverts | ui/lib/src/nvui/automata.ts:165-188 | a parenthesised group is converted as a unit: the output gains the group's own conversion and the operator stack is as before |
| Grouping.ChainConverts | ui/lib/src/nvui/automata.ts:127-229 | groups joined by one binary operator convert to the groups' conversions, each after the first followed by the operator (left association) |
| Grouping.TreesJoin | ui/lib/src/nvui/automata.ts:248-269 | two well-formed postfix sequences followed by a binary operator read as one tree: the alternation or concatenation of their trees |
| Scenarios.AltScenario | ui/lib/src/nvui/automata.ts:417-423 | the DFA compiled from `a\|b` accepts "a" and "b" and rejects "ab" and "" |
| Scenarios.StarScenario | ui/lib/src/nvui/automata.ts:417-423 | the DFA compiled from `a*` accepts "" and "aa" and rejects "b" |
| Scenarios.ExampleScenario | ui/lib/src/nvui/automata.ts:417-423 | the DFA compiled from `(a\|b)*abb` accepts "abb" and "babb" and rejects "ab" |
| Runtime.RegexDfa.Create | ui/lib/src/nvui/handler.ts:571-577 | the constructor fails exactly when the pattern does not compile; otherwise the cursor is at `"0"` over the compiled DFA |
| Runtime.RegexDfa.Reset | ui/lib/src/nvui/handler.ts:579-581 | `reset()` puts the cursor at the given state, `"0"` by default, whatever came before |
| Runtime.RegexDfa.Step | ui/lib/src/nvui/handler.ts:583-594 | `step` returns the code and leaves the state given by `Stepped` |
| Runtime.StepCodes | ui/lib/src/nvui/handler.ts:583-598 | -1 exactly when there is no transition, and then the cursor stays; otherwise the cursor follows the transition and the code is 1 exactly when the new state is accepting, else 0 |
| Runtime.TraceFollowsRun | ui/lib/src/nvui/handler.ts:583-594 | stepping the characters of a word one by one follows the DFA's run: with no -1 it ends where the run ends, and a run that falls off the table shows a -1 |
| Runtime.CursorRecognizesPattern | ui/lib/src/nvui/handler.ts:571-598 | from a fresh cursor, when a word produces no -1, its last code is 1 exactly when the pattern's NFA accepts the word, and so exactly when the pattern denotes it; a word no NFA run survives produces a -1 |
| Lexer.RegexLexer.constructor | ui/lib/src/nvui/handler.ts:660-664 | a new lexer has no tokens, names or slots and is not compiled |
| Lexer.RegexLexer.RegisterToken | ui/lib/src/nvui/handler.ts:721-730 | fails once compiled, then on a duplicate name, changing nothing; otherwise appends the token with serial number `tokens.length + 1` and records its name, keeping names distinct and serials consecutive |
| Lexer.RegexLexer.Compile | ui/lib/src/nvui/handler.ts:666-677 | pushes one fresh slot per token in registration order (cursor at `"0"` over the token's compiled DFA, ACCEPT exactly when `"0"` accepts, else INCOMPLETE), then sets `isCompiled`; the first pattern that fails to compile stops it with that pattern's error, leaving the slots pushed so far |
| Lexer.RegexLexer.Step | ui/lib/src/nvui/handler.ts:679-712 | the loop leaves the slots and report given by `LexStep` of the old slots |
| Lexer.RegexLexer.Reset | ui/lib/src/nvui/handler.ts:714-719 | every cursor goes back to `"0"` and every slot becomes INCOMPLETE |
| Lexer.LexStepSpec | ui/lib/src/nvui/handler.ts:679-712 | when some INCOMPLETE slot accepts on the key, the first one in index order is reported and all slots are reset; otherwise every INCOMPLETE slot advances, a -1 marks it DEAD, other slots are untouched, and the report is INCOMPLETE or DEAD |
| Lexer.StepFromSpec | ui/lib/src/nvui/handler.ts:681-711 | the same from any point of the loop, carrying the `anyActive` flag |
| Lexer.FirstAccepting | ui/lib/src/nvui/handler.ts:681-699 | the first INCOMPLETE slot whose cursor steps into an accepting state, and no earlier one |
| Lexer.DeadIffNoneIncomplete | ui/lib/src/nvui/handler.ts:703-711 | the report is DEAD exactly when no slot was INCOMPLETE before the key, and then nothing changes |
| Lexer.DyingIsNotDead | ui/lib/src/nvui/handler.ts:686-687 | slots dying on this key still give INCOMPLETE, not DEAD |
| Lexer.AcceptNamesToken | ui/lib/src/nvui/handler.ts:688-698 | with a token for every slot the report is never an error; it is ACCEPT exactly when some slot accepts, and names the first such slot's token |
| Lexer.ResetAll | ui/lib/src/nvui/handler.ts:714-719 | all slots are INCOMPLETE at `"0"` over the same DFAs |
| KeyHandler.KeyboardHandler.constructor | ui/lib/src/nvui/handler.ts:751-756 | the buffer is empty, the timeout is 500 unless given, and the lexer is new |
| KeyHandler.KeyboardHandler.RegisterInputPattern | ui/lib/src/nvui/handler.ts:758-770 | registers the pattern with the lexer and maps its name to the action exactly when the lexer accepts the registration |
| KeyHandler.KeyboardHandler.Compile | ui/lib/src/nvui/handler.ts:824-827 | compiles the lexer: the old slots are kept and followed by the fresh slots of the tokens in order; success (`isCompiled` set) exactly when there is one new slot per token; otherwise the error is the first failing pattern's, and `isCompiled` is unchanged; tokens, names and actions are untouched |
| KeyHandler.KeyboardHandler.Reset | ui/lib/src/nvui/handler.ts:772-779 | clears the buffer, resets the lexer and cancels the timer; tokens, names, `isCompiled` and actions are untouched |
| KeyHandler.KeyboardHandler.Timeout | ui/lib/src/nvui/handler.ts:781-788 | a pending timer that fires resets the handler; otherwise nothing happens; tokens, names, `isCompiled` and actions are untouched either way |
| KeyHandler.KeyboardHandler.OnKey | ui/lib/src/nvui/handler.ts:792-810 | the listener body leaves the state given by `HandleKey`; tokens, names, `isCompiled` and actions are untouched |
| KeyHandler.IgnoredKeyOnlyRestartsTimer | ui/lib/src/nvui/handler.ts:794-795 | space, Shift, Control, Alt and Meta only restart the timer: buffer, lexer and actions are untouched |
| KeyHandler.DispatchIffAccept | ui/lib/src/nvui/handler.ts:795-802 | an action is called exactly when a non-ignored key makes the lexer report ACCEPT; it is the mapped action and gets the full buffer with the key, after which buffer, lexer and timer are reset |
| KeyHandler.BufferAfterKey | ui/lib/src/nvui/handler.ts:795-809 | after a key the handler is reset (ACCEPT or DEAD), or holds the buffer plus the key with the lexer INCOMPLETE, or is unchanged for an ignored key |
| KeyHandler.KeysNeverFail | ui/lib/src/nvui/handler.ts:797-801 | with a slot per token and an action per name, a key never hits a missing token or action |
| KeyHandler.AcceptedNameRegistered | ui/lib/src/nvui/handler.ts:691-697 | an accepted name is a registered token name |
| KeyHandler.KeyboardHandler.Test | ui/lib/src/nvui/handler.ts:829-839 | the loop leaves the lexer and returns the result given by `TestRun` of its characters; tokens, names and `isCompiled` are untouched |
| KeyHandler.TestOutcomes | ui/lib/src/nvui/handler.ts:829-839 | `test` answers only "ACCEPT" or "DEAD", and after "ACCEPT" every slot is reset |
| KeyHandler.TestDeadSticks | ui/lib/src/nvui/handler.ts:829-839 | with no INCOMPLETE slot, `test` answers "DEAD" and changes nothing |
| Combinators.UniteRegex | ui/lib/src/nvui/regex.ts:33-39 | the loop and join return `United(regexes)` |
| Combinators.ConcatenateRegex | ui/lib/src/nvui/regex.ts:41-47 | the loop and join return `Concatenated(regexes)` |
| Combinators.Wrapped | ui/lib/src/nvui/regex.ts:35-37 | every argument is wrapped as `"(" + r + ")"`, in argument order |
| Combinators.UnitedShape | ui/lib/src/nvui/regex.ts:33-39 | no argument gives `""`, one gives it in parentheses, and each further argument appends `"\|("`, itself and `")"` |
| Combinators.ConcatenatedShape | ui/lib/src/nvui/regex.ts:41-47 | no argument gives `""`, and each argument appends itself in parentheses, in order |
| Combinators.UnitedLength | ui/lib/src/nvui/regex.ts:38 | n ≥ 1 arguments give their total length plus 2n parentheses plus n-1 separators |
| Combinators.ConcatenatedLength | ui/lib/src/nvui/regex.ts:46 | the length is the sum of (length + 2) over the arguments |
| Combinators.UnitedSplits | ui/lib/src/nvui/regex.ts:38 | when no argument contains `\|`, splitting the union at `\|` gives back the wrapped arguments |
| Combinators.UniteCompiles | ui/lib/src/nvui/regex.ts:33-39 | if every argument compiles (and there is at least one), so does their union |
| Combinators.ConcatenateCompiles | ui/lib/src/nvui/regex.ts:41-47 | if every argument compiles (and there is at least one), so does their concatenation |
| Combinators.UnitedPostfix | ui/lib/src/nvui/regex.ts:33-39 | the union converts to the arguments' own postfix forms, each after the first followed by a union operator |
| Combinators.ConcatenatedPostfix | ui/lib/src/nvui/regex.ts:41-47 | the concatenation converts to the arguments' own postfix forms, each after the first followed by a concatenation operator |
| Combinators.UnitedPattern | ui/lib/src/nvui/regex.ts:33-39 | one more argument makes the union the alternation of the previous union and the new argument |
| Combinators.ConcatenatedPattern | ui/lib/src/nvui/regex.ts:41-47 | one more argument makes the concatenation the concatenation of the previous one and the new argument |
| Combinators.UnitedMeans | ui/lib/src/nvui/regex.ts:33-39 | the union compiles and means the left-grouped alternation of what the arguments mean |
| Combinators.ConcatenatedMeans | ui/lib/src/nvui/regex.ts:41-47 | the concatenation compiles and means the left-grouped concatenation of what the arguments mean |
| Combinators.UnitedLanguage | ui/lib/src/nvui/regex.ts:33-39 | a word belongs to the union exactly when it belongs to one of the arguments |
| Combinators.ConcatenatedLanguage | ui/lib/src/nvui/regex.ts:41-47 | a word belongs to the concatenation exactly when it can be cut into one word of each argument, in order |
| Combinators.UnitedTokens | ui/lib/src/nvui/automata.ts:109-125 | a union of compiling arguments scans to tokens that, with concatenations inserted, are one balanced, well-placed group sequence without empty groups |
| Combinators.ConcatenatedTokens | ui/lib/src/nvui/automata.ts:109-125 | the same for a concatenation, where each `)(` seam gets a concatenation token |
| Combinators.FramedJoin | ui/lib/src/nvui/automata.ts:185-217 | two accepted parenthesised token groups joined by a binary operator are accepted |
| Combinators.FramedWrap | ui/lib/src/nvui/automata.ts:165-184 | an accepted non-empty token sequence stays accepted inside one more pair of parentheses |

## Left out

- DOM and event plumbing are not modelled: `bind`, `unbind`, `addEventListener`/`removeEventListener`, `targetDOMElement`, and `console.log`. `bind` also calls `reset`, which is modelled as `Reset`.
- `setTimeout`/`clearTimeout` are not modelled as wall-clock timers. The timer is a flag, and its expiry is the explicit `Timeout` event.
- `_sanitize_DFA_object` is not modelled. It is unused, duck-typed reshaping.
- `inputToMove`, the other keyboard handlers and the chess-notation pattern constants of `regex.ts` are not modelled. They depend on collaborators that are not part of this model.
- Runtime.RegexDfa.Step: a state without a transition row is read as a state without transitions. The source evaluates `key in undefined` there and throws a `TypeError`. Such a state stands for an NFA set with no outgoing symbol edge (`Subset.MissingRowIsStuck`).
- Runtime.Transition: lookup in the transition object is by own keys only. JavaScript's `in` would also find inherited properties such as `"constructor"` or `"toString"`.
- Subset.NfaToDfa: `Set` and `Map` iteration order is insertion order in JavaScript. The model enumerates sets and the alphabet in an unspecified order. The initial state is always `"0"` and the names are always `"0"`…`"n-1"`, but which set gets which name beyond `"0"` is not pinned.
- Strings are sequences of Unicode code points, not the UTF-16 code units JavaScript indexes. A pattern or key outside the Basic Multilingual Plane is read differently.
- Action callbacks are modelled as never re-entering the handler. A call is recorded as a `Dispatch` entry and nothing else.
- KeyHandler.KeyboardHandler.OnKey: an ACCEPT for a name with no mapped action would call `undefined` and throw a `TypeError`. The model returns `Err(NoAction(name))` instead. `KeyHandler.KeysNeverFail` shows this cannot happen in a handler built through `RegisterInputPattern`.
- Lexer.RegexLexer.Step: if `compile` runs twice, the slots outnumber the tokens, and an accepting extra slot makes the source read `this.tokens[i].name` of `undefined` and throw. The model returns `Err(NoTokenForSlot(i))`. The source does not guard against a second `compile`, and neither does the model.
- Lexer.RegexLexer.Valid does not state that each slot's DFA was compiled from its token's pattern. `Compile` states this for the slots it pushes (`FreshSlots`).
- `registerToken` does not compile the pattern; compilation happens in `compile`, and the model does the same.
- `unbind` does not cancel a pending timer, so a timer set before it can still fire `reset`. `unbind` itself is DOM plumbing and not modelled, as said above.
