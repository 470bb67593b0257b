# jsparagus core, modelled in Dafny

jsparagus is a parser generator for JavaScript. It has four parts:

- **Grammar model.** Its Python part reads grammars written in the
  ECMAScript specification's notation (`js_parser/parse_esgrammar.py`) and
  normalises them into a `Grammar` object (`jsparagus/grammar.py`).
- **Rust emitter.** It writes the LR tables and the reduce code of the
  generated parser as Rust (`jsparagus/emit.py`).
- **Python emitter.** It writes the same as Python (`jsparagus/emit/python.py`).
- **Rust runtime.** A small Rust runtime drives the generated tables
  (`client/src/parser.rs`). A disassembler prints emitted bytecode
  (`rust/emitter/src/dis.rs`).

This project models those pieces and proves properties of the model.
Each source file maps to one module:

| module | file | source |
|---|---|---|
| `Grammar` | `grammar.dfy` | `grammar.py`: the value types (nonterminals with arguments, body elements, lookahead rules, reduce expressions, productions), `Nt.pretty`, `lookahead_contains` / `lookahead_intersect`, `expr_to_str`, `is_concrete_element`, the reduce-action check and the default action that `copy_rhs` infers |
| `GrammarInit` | `grammar_init.dfy` | the `Grammar` constructor: key scan, validation of every definition, init nonterminals; `intern` |
| `EsGrammar` | `esgrammar.dfy` | the builder of `parse_esgrammar.py`: matched pairs, default reducers, automatic semicolon insertion (ASI), `nt_def`, lookahead exclusions, `$N` references, backquoted terminals |
| `EsFinish` | `esgrammar_finish.dfy` | `finish_grammar` |
| `EmitRust` | `emit_rust.dfy` | the Rust writer: names, terminal and nonterminal lists, the `ACTIONS` and `GOTO` matrices, the `reduce` arms |
| `EmitPython` | `emit_python.dfy` | the Python writers: `write_action`, special cases, `reductions`, `error_codes` |
| `LrParser` | `parser.dfy` | the runtime parser |
| `Dis` | `dis.dfy` | `dis` |

`Wrappers`, `Strings` and `Ordered` hold shared support:

- `Option` and `Result`;
- the ASCII behaviour of the Python string methods the source calls;
- insertion-ordered sets, modelled as sequences without duplicates.

Each part keeps the form of its source:

- **Pure code** becomes functions on datatypes.
- **Step-by-step code** becomes methods with loops: the constructor's three
  loops, `nt_def`, `finish_grammar`'s loops, the emitters' loops and the
  parser's loops. Each method is proved equal to a specification function,
  and the properties are then lemmas about that function.
- **Objects the source updates in place** are classes: the parser with its
  two stacks, the `Grammar` object with its intern cache, the special-case
  table of the Python writer and the output of `write_action`.
- **Array updates:** `hack_production` rewrites a production body in place
  on an `array`, and so does the Rust `compile_reduce_expr` with
  `variable_used`.

Python exceptions become the `Failure` values of `Result`. Each error
datatype names the exception's cause.

Where the code and its documentation disagree, the model follows the code:

- `finish_grammar` passes `synthetic_terminals=` to a `Grammar` constructor
  that takes no such argument. The model returns the parts it assembles.
- A `:` definition met while `::` is the selected grammar is kept rather
  than skipped, because the `continue` sits only in the `selected == ':'`
  branch.
- The constructor's goal loop sets `ok` only for string and `Nt` goals. A
  first goal given as an `InitNt` finds `ok` unbound; the model reports it
  as `UnsupportedGoal`, and does the same for later `InitNt` goals (see
  "Left out").
- The builder's `expr_none` yields Python's `None`, the same value as an
  absent reducer, so a production written `=> None` gets the default
  reducer, and counts as one whose reducer was generated for ASI.
- For a `CheckNotOnNewLine` at offset -1, `write_action` writes its two
  statements without a trailing newline, so they and the next write share
  one line of output. The model keeps them as `Fragment`s.

## Model

| member | source | states |
|---|---|---|
| `Grammar.Pretty` | jsparagus/grammar.py:698-719 | the rendering of a nonterminal starts with its name, and is just the name exactly when it has no arguments |
| `Grammar.PrettyRoundTrip` | jsparagus/grammar.py:698-719 | for a nonterminal whose name and parameter names are identifiers and whose arguments are flags (`+p`, `~p`), variables (`?p`, `p=v`) named by identifiers, or values (`p=repr`) whose `repr` has no comma and is not an identifier, the rendering parses back to the same nonterminal |
| `Grammar.PrettyInjective` | jsparagus/grammar.py:698-719 | two such nonterminals with the same rendering are equal |
| `Grammar.PrettyReprCollision` | jsparagus/grammar.py:709-713 | outside that class the rendering is not unique: a variable named `None` and the value `None` both render as `x=None` |
| `Grammar.ArgListRoundTrip` | jsparagus/grammar.py:708-717 | the comma-separated argument list parses back to the arguments |
| `Grammar.LookaheadIntersect` | jsparagus/grammar.py:755-770 | the intersection allows a terminal exactly when both rules allow it; it is no rule only when both are none, and negative exactly when neither is positive |
| `Grammar.LookaheadIntersectIsTheRule` | jsparagus/grammar.py:748-770 | any rule that allows exactly the terminals both allow has the intersection's meaning (the intersection is the tightest rule) |
| `Grammar.LookaheadSameMeaning` | jsparagus/grammar.py:748-752 | two rules with the same polarity and the same token set allow the same terminals |
| `Grammar.LookaheadIntersectLaws` | jsparagus/grammar.py:755-770 | intersection is commutative, associative and idempotent in meaning |
| `Grammar.ConcreteCount` | jsparagus/grammar.py:661-664 | a body has at most as many concrete elements as elements |
| `Grammar.ExprToStrShape` | jsparagus/grammar.py:117-131 | the text is `None` exactly for `None` and `<accept>` exactly for `'accept'`; it ends in `)` exactly for a call or a `Some`; the text before the first `(` is the callee of a call with a valid method name, or `Some`; an element reference starts with `$` and a call with a valid method name does not |
| `Grammar.ExprToStrRefInjective` | jsparagus/grammar.py:118-119 | distinct element references render differently |
| `Grammar.ExprToStrSomeCollision` | jsparagus/grammar.py:120-127 | a call of a method named `Some` renders like `Some(...)`, so the text does not always determine the expression |
| `Grammar.CheckMethodName` | jsparagus/grammar.py:302-310 | a method name is accepted exactly when it is an identifier, or an identifier, one space and a production number |
| `Grammar.MethodNameByPartition` | jsparagus/grammar.py:302-310 | the `partition(' ')` test agrees with that description in both directions |
| `Grammar.CallWellFormed` | jsparagus/grammar.py:287-321 | a call is well formed exactly when its name is valid and every argument is |
| `Grammar.CheckReduceAction` | jsparagus/grammar.py:287-321 | the check passes exactly when every element number is in range, every method name is valid and no `'accept'` is nested; each error names an offending index, name or `'accept'` |
| `Grammar.DefaultAction` | jsparagus/grammar.py:324-339 | a bare production passes its value through (`0`) exactly when its body is one element and that element is concrete; otherwise it calls the production's method with one argument per concrete element |
| `Grammar.DefaultMethodNameValid` | jsparagus/grammar.py:324-339 | the inferred method name of an identifier nonterminal passes the method-name check |
| `Grammar.DefaultActionWellFormed` | jsparagus/grammar.py:324-339 | the inferred action refers to exactly the elements `0 .. n-1` and passes `check_reduce_action` |
| `GrammarInit.ScanKeysCorrect` | jsparagus/grammar.py:204-227 | the key scan succeeds exactly when all keys have one kind and each name has one parameter list, and then records exactly those parameters and the parameterless names |
| `GrammarInit.FirstUndefinedVar` | jsparagus/grammar.py:234-285 | no name is found exactly when every variable argument is a declared parameter; a name found is an undeclared variable argument |
| `GrammarInit.ValidateElement` | jsparagus/grammar.py:234-285 | a string element is rejected exactly when it names a nonterminal that has parameters, becomes a reference when it names one without, and otherwise stays a terminal; a reference is accepted exactly when its nonterminal is defined, its argument names are the declared parameters and every variable it passes is declared; an optional of anything but a name or reference is rejected; concreteness is kept and the terminals reported are those of the result |
| `GrammarInit.ValidateBody` | jsparagus/grammar.py:323-360 | validating a body keeps its length and its concrete-element count, validates every element and covers the terminals it uses; a failure names a position whose element fails, with that element's error |
| `GrammarInit.ValidateBodyMeaning` | jsparagus/grammar.py:357-360 | a body validates exactly when every element does, and the validated body is the validated elements in order |
| `GrammarInit.CopyRhs` | jsparagus/grammar.py:323-360 | a copied production keeps the written or inferred action and condition and the body length; its action is `'accept'` or passes `check_reduce_action`; the condition's parameter is declared; its terminals are reported |
| `GrammarInit.CopyRhsSuccess` | jsparagus/grammar.py:323-360 | copying succeeds exactly when the condition's parameter is declared, the inferred method is not a non-string key, the action is `'accept'` or passes `check_reduce_action`, and every written element passes `validate_element`; a copy's body and terminals are exactly what validating the written body yields |
| `GrammarInit.CopyRhsList` | jsparagus/grammar.py:362-385 | the copied list is the copy of each production, in order |
| `GrammarInit.CopyRhsListSuccess` | jsparagus/grammar.py:362-385 | the list is copied exactly when every right-hand side copies |
| `GrammarInit.CheckName` | jsparagus/grammar.py:387-435 | a string key is accepted exactly when it is an identifier and not a variable terminal |
| `GrammarInit.CheckInitKey` | jsparagus/grammar.py:387-435 | an init key is accepted exactly when its goal is a valid nonterminal reference and is listed among the goals |
| `GrammarInit.CheckNtKeyMeaning` | jsparagus/grammar.py:387-435 | the key check passes exactly when the key's requirements hold: a string key, or the name of an `Nt` key, is an identifier and not a variable terminal; an init goal, as a key or as the name of an `Nt` key, is a valid use and is listed among the goals; an `Nt` key has only boolean arguments |
| `GrammarInit.ValidateNt` | jsparagus/grammar.py:437-459 | a validated definition passed its key check, has the allowed init form, and keeps its parameters and one production per source body |
| `GrammarInit.ValidateNtSuccess` | jsparagus/grammar.py:437-459 | a definition validates exactly when its key passes `check_nt_key`, an init key has one of the three init forms, and every right-hand side copies |
| `GrammarInit.ValidateNtCopies` | jsparagus/grammar.py:437-459 | a validated definition holds the copy of every production, and every terminal its bodies use is among the terminals it reports |
| `GrammarInit.ValidateAllSuccess` | jsparagus/grammar.py:461-466 | the validation loop succeeds exactly when every definition validates |
| `GrammarInit.ValidateAllCopies` | jsparagus/grammar.py:461-466 | validation keeps every key in order and each definition is the validated original |
| `GrammarInit.ValidateAllTerminals` | jsparagus/grammar.py:461-466 | the collected terminals have no duplicates, start with the variable terminals, and include every terminal a body uses |
| `GrammarInit.ResolveGoal` | jsparagus/grammar.py:476-503 | a goal resolves exactly when it names a defined nonterminal of the grammar's key kind; an init goal is rejected |
| `GrammarInit.AddInitsFailure` | jsparagus/grammar.py:476-503 | adding init nonterminals fails exactly when some goal does not resolve |
| `GrammarInit.AddInitsGoals` | jsparagus/grammar.py:476-503 | each goal, in order, yields the init nonterminal of its resolved goal, whose key is then defined |
| `GrammarInit.AddInitsAdded` | jsparagus/grammar.py:476-503 | every definition added is an accept production for an init key, and no key is added twice |
| `GrammarInit.ScanKeysLoop` | jsparagus/grammar.py:204-227 | the key loop computes the key scan |
| `GrammarInit.ValidateLoop` | jsparagus/grammar.py:461-466 | the validation loop computes the validated definitions and terminals |
| `GrammarInit.AddTerminals` | jsparagus/grammar.py:461-466 | adding terminals one at a time keeps first-occurrence order without duplicates |
| `GrammarInit.AddInitsLoop` | jsparagus/grammar.py:476-503 | the goal loop computes the init definitions and init nonterminals |
| `GrammarInit.Construct` | jsparagus/grammar.py:163-503 | the constructor yields the specified grammar parts, or the error of the first stage that fails |
| `GrammarInit.InitNonterminalsPerGoal` | jsparagus/grammar.py:476-503 | one init nonterminal per goal, in goal order, each defined; the user's definitions come first and unchanged; added definitions are `[goal]` with action `'accept'` |
| `GrammarInit.BuildSuccess` | jsparagus/grammar.py:163-503 | construction succeeds exactly when there is a definition, the keys have one kind and consistent parameters, every definition validates against the keys, and every goal resolves |
| `GrammarInit.BadReferenceFails` | jsparagus/grammar.py:234-285 | `validate_element` rejects a string naming a nonterminal with parameters, and a reference to a nonterminal with no key, with other parameter names than its key declares, or passing an undeclared variable |
| `GrammarInit.BadReferenceRejected` | jsparagus/grammar.py:234-360 | a production whose written body holds such a bad reference makes construction fail |
| `GrammarInit.UndefinedGoalRejected` | jsparagus/grammar.py:476-491 | construction fails for a string goal that names no nonterminal or one with parameters, for an `Nt` goal that is not a key of an `Nt`-keyed grammar, and for an `Nt` goal whose name is not a key of a string-keyed grammar |
| `GrammarInit.TerminalsCollected` | jsparagus/grammar.py:461-466 | terminals are duplicate-free, variable terminals first, and every string left in a body is a terminal |
| `GrammarInit.KeptCopy` | jsparagus/grammar.py:323-466 | a kept definition is the validated written one, and each kept production is the copy of the written one |
| `GrammarInit.ValidatedProductions` | jsparagus/grammar.py:323-459 | every kept production has a valid key, a valid or `'accept'` action, a declared condition parameter, and the inferred default action when written bare |
| `GrammarInit.ValidatedBodies` | jsparagus/grammar.py:323-466 | every element of a kept production passed `validate_element`: no bad reference remains (every nonterminal it refers to has a key, is applied to the declared parameter names and passes only declared variables), and the kept body is the validated elements in order |
| `GrammarInit.Grammar.Intern` | jsparagus/grammar.py:505-515 | interning returns the stored object for an equal value, storing the argument the first time, and leaves the grammar unchanged |
| `GrammarInit.Grammar.InternBoth` | jsparagus/grammar.py:505-515 | interning two equal values yields one shared object |
| `EsGrammar.ConcreteElems` | js_parser/parse_esgrammar.py:136-152 | a body has at most as many concrete elements as elements |
| `EsGrammar.MatchFromMeaning` | js_parser/parse_esgrammar.py:120-127 | the group loop raises exactly when the element is neither text nor an applied nonterminal, and is true exactly when some remaining group matches both names |
| `EsGrammar.IsMatchedPairMeaning` | js_parser/parse_esgrammar.py:97-127 | a pair matches exactly when one production group matches both the left-hand name and the element |
| `EsGrammar.DefaultReducer` | js_parser/parse_esgrammar.py:136-152 | the default reducer is `$0` exactly when the body has one element, that element is concrete, and it forms a matched pair with the left-hand name; it fails exactly when, for such a body, the pair test raises; otherwise it calls the production's method with every concrete element |
| `EsGrammar.ToProduction` | js_parser/parse_esgrammar.py:129-134 | a written reducer other than `None` is kept; when the slot is `None` (nothing written, or `=> None`) the default reducer is used, so no production keeps `None` as its reducer; body and condition are kept |
| `EsGrammar.LoneSemicolonNeverSplit` | js_parser/parse_esgrammar.py:154-167 | a body that is only `;` never gets ASI |
| `EsGrammar.ApplyAsi` | js_parser/parse_esgrammar.py:169-199 | ASI fails exactly when the reducer is not a method call; otherwise it yields the original and a fallback that ends in the recovery marker |
| `EsGrammar.AsiFallbackShape` | js_parser/parse_esgrammar.py:169-199 | the fallback drops the semicolon for an error token tagged `do_while_asi` for the do-while shape and `asi` otherwise; an inferred call drops its last argument |
| `EsGrammar.InferredAsiSucceeds` | js_parser/parse_esgrammar.py:136-199 | an inferred reducer on an ASI production is a call whose last argument is the semicolon, so ASI succeeds |
| `EsGrammar.ExpandShape` | js_parser/parse_esgrammar.py:201-212 | each alternative becomes itself or its two ASI forms, starting with its own body |
| `EsGrammar.ProductionsAreExpansions` | js_parser/parse_esgrammar.py:201-212 | the production list is the expansions of the alternatives, laid end to end in order, and fails exactly where an expansion fails |
| `EsGrammar.NtDefLoop` | js_parser/parse_esgrammar.py:201-212 | the `nt_def` loop computes the specified definition |
| `EsGrammar.LaNotInSet` | js_parser/parse_esgrammar.py:320-326 | the exclusion set is accepted exactly when every exclusion is one token; the result is a negative rule over exactly those tokens, without duplicates |
| `EsGrammar.LaNotInSetAllows` | js_parser/parse_esgrammar.py:320-326 | the resulting rule allows exactly the terminals not excluded |
| `EsGrammar.NonterminalApplyOk` | js_parser/parse_esgrammar.py:284-287 | an application is accepted exactly when no parameter is passed twice, and keeps its arguments |
| `EsGrammar.ExprMatchRef` | js_parser/parse_esgrammar.py:249-251 | `$N` is accepted exactly when `N` is a digit string |
| `EsGrammar.ExprMatchRefRoundTrip` | js_parser/parse_esgrammar.py:249-251 | reading the spelling of `$N` gives `N` |
| `EsGrammar.TerminalText` | js_parser/parse_esgrammar.py:232-235 | a terminal is accepted exactly when backquoted; the text is two characters shorter |
| `EsGrammar.TerminalTextRoundTrip` | js_parser/parse_esgrammar.py:232-235 | backquoting text and stripping the quotes gives the text back |
| `EsFinish.GrammarsOk` | js_parser/parse_esgrammar.py:341-347 | the first loop succeeds exactly when no name is defined twice |
| `EsFinish.GrammarsMap` | js_parser/parse_esgrammar.py:341-347 | on success the map sends each name to its definition's marker |
| `EsFinish.GrammarsLoop` | js_parser/parse_esgrammar.py:341-347 | the loop computes that map or the duplicate error |
| `EsFinish.SelectedGrammarsCorrect` | js_parser/parse_esgrammar.py:351-362 | the selected markers are exactly the goals' markers, each once; an undefined goal is an error |
| `EsFinish.SelectLoop` | js_parser/parse_esgrammar.py:355 | the loop computes the set of selected markers |
| `EsFinish.HackElemsCorrect` | js_parser/parse_esgrammar.py:366-374 | rewriting fails exactly on a malformed backquoted symbol; otherwise each quoted symbol loses its quotes and nothing else changes |
| `EsFinish.HackElemsErrorKind` | js_parser/parse_esgrammar.py:366-374 | the only error the rewriting raises is an unrecognized symbol |
| `EsFinish.HackProduction` | js_parser/parse_esgrammar.py:366-374 | in place: on success the body is the rewritten one and the terminal set gains the quoted tokens; on failure it names the first malformed symbol, with the positions before it rewritten |
| `EsFinish.HackRulesAccepts` | js_parser/parse_esgrammar.py:385-393 | a rule list succeeds exactly when every rule is a production whose symbols are well formed |
| `EsFinish.HackRulesErrorKind` | js_parser/parse_esgrammar.py:385-393 | a rule list fails only on a non-production or a malformed quoted symbol |
| `EsFinish.HackRulesShape` | js_parser/parse_esgrammar.py:385-393 | each rule's body is rewritten; the terminal set only grows and stays duplicate-free |
| `EsFinish.HackRulesLoop` | js_parser/parse_esgrammar.py:385-393 | the loop computes the rewritten rules and terminals |
| `EsFinish.AddDefinition` | js_parser/parse_esgrammar.py:378-397 | one definition is handled as specified: skipped as a variable terminal, kept, or rejected |
| `EsFinish.CollectLoop` | js_parser/parse_esgrammar.py:376-397 | the main loop computes the specified collection |
| `EsFinish.CollectPartition` | js_parser/parse_esgrammar.py:376-397 | with distinct names, collection fails only on an ifdef or a bad symbol; on success every definition is either a variable terminal or a nonterminal |
| `EsFinish.FirstClashCorrect` | js_parser/parse_esgrammar.py:399-403 | no clash is found exactly when terminals and nonterminals are disjoint; a clash found is in both |
| `EsFinish.ClashLoop` | js_parser/parse_esgrammar.py:399-403 | the loop finds that clash |
| `EsFinish.FinishGrammar` | js_parser/parse_esgrammar.py:340-409 | `finish_grammar` computes the specified result |
| `EsFinish.SelectionCorrect` | js_parser/parse_esgrammar.py:351-362 | selection succeeds exactly when every goal is defined and all goals share one marker, which it returns |
| `EsFinish.FinishRejectsDuplicates` | js_parser/parse_esgrammar.py:341-347 | a name defined twice is rejected |
| `EsFinish.FinishRequiresGoals` | js_parser/parse_esgrammar.py:351-353 | a missing goal list and an empty one are rejected |
| `EsFinish.FinishUndefinedGoal` | js_parser/parse_esgrammar.py:355 | an undefined goal is rejected |
| `EsFinish.FinishMixedGrammars` | js_parser/parse_esgrammar.py:357-361 | goals from two grammars are rejected, naming both markers |
| `EsFinish.FinishNeverMultipleDefinitions` | js_parser/parse_esgrammar.py:394-396 | the multiple-definitions error can never be raised |
| `EsFinish.FinishSuccess` | js_parser/parse_esgrammar.py:340-409 | success means distinct names, non-empty goals sharing a marker; the result partitions the definitions and no terminal is a nonterminal |
| `EmitRust.CamelCaseNoUnderscore` | jsparagus/emit.py:213-219 | a camel-case name has no underscore |
| `EmitRust.CamelCaseSpelling` | jsparagus/emit.py:213-219 | ignoring case, the camel-case name spells the identifier without underscores |
| `EmitRust.CamelCaseOfWord` | jsparagus/emit.py:213-219 | a name with no underscore that is not lower case is unchanged; a lower-case word is capitalised |
| `EmitRust.SnakeAppendArg` | jsparagus/emit.py:200-208 | a true argument appends `_` plus its snake name, in order; a false one changes nothing |
| `EmitRust.SnakeFalseArgs` | jsparagus/emit.py:200-208 | with no true argument a nonterminal is named like its bare name |
| `EmitRust.MethodNameNumbered` | jsparagus/emit.py:235-241 | `"Nt N"` becomes the snake name of `Nt` plus `_pN` |
| `EmitRust.MethodNamePlain` | jsparagus/emit.py:235-241 | a name without a space becomes its snake name |
| `EmitRust.MethodNameOfDefault` | jsparagus/emit.py:235-241 | default method names map to the snake name, plus `_p<i>` for a nonterminal with several productions |
| `EmitRust.CheckCamelCase` | jsparagus/emit.py:221-228 | succeeds exactly when camel-case spellings are distinct; a failure reports the first repeated spelling with the earlier nonterminal |
| `EmitRust.TerminalsListed` | jsparagus/emit.py:98-99 | the terminal list has no duplicates, holds exactly the terminals of the action rows, in first-occurrence order |
| `EmitRust.NonterminalsListed` | jsparagus/emit.py:100-101 | the same for the nonterminals of the goto rows |
| `EmitRust.GetMeaning` | jsparagus/emit.py:196 | `row.get(key, default)` gives a present key's value and the default for an absent key |
| `EmitRust.MatrixEntry` | jsparagus/emit.py:188-198 | a matrix has rows × columns entries, and entry (i, j) is row i's value for column j, or the default |
| `EmitRust.FillMatrix` | jsparagus/emit.py:188-198 | the loops build that matrix |
| `EmitRust.Actions` | jsparagus/emit.py:188-198 | `actions` builds the action matrix with `ERROR` as default |
| `EmitRust.Goto` | jsparagus/emit.py:374-382 | `goto` builds the goto matrix with `0` as default |
| `EmitRust.ActionsLayout` | jsparagus/emit.py:188-198 | `ACTIONS` has states × terminals entries, and an entry is the state's action for the terminal or `ERROR` |
| `EmitRust.GotoLayout` | jsparagus/emit.py:374-382 | `GOTO` has states × nonterminals entries, and an entry is the state's successor or `0` |
| `EmitRust.CompileReduceExpr` | jsparagus/emit.py:424-445 | compiling succeeds exactly when every method is known with matching arity and no `'accept'` appears; `variable_used` gains exactly the elements referenced outside unit-typed arguments |
| `EmitRust.UsedRefsReferenced` | jsparagus/emit.py:424-445 | every marked element is in range and referenced by its index or its negative index |
| `EmitRust.ReduceCase` | jsparagus/emit.py:447-466 | one reduce arm's stack operations are one pop per element, last first, binding exactly the used ones, then one push |
| `EmitRust.ReduceArmEffect` | jsparagus/emit.py:447-466 | running an arm pops exactly one value per element and pushes the reduced value built from the bound elements |
| `EmitRust.ReduceArmShortStack` | jsparagus/emit.py:455-466 | on any stack, the arm panics exactly when a used element lies below the bottom of the stack (its `stack.pop().unwrap()` finds the stack empty), while a bare `stack.pop()` of an empty stack does nothing; when it does not panic, it leaves the values under the body and the pushed result, so it never removes more values than the stack holds |
| `EmitRust.Reduce` | jsparagus/emit.py:401-473 | `reduce` computes one arm per reducible production |
| `EmitRust.ReduceArmsSound` | jsparagus/emit.py:412-419 | every arm is the arm of its production; production indices strictly increase and are in range |
| `EmitRust.ReduceArmsComplete` | jsparagus/emit.py:412-419 | every production whose nonterminal is listed gets an arm |
| `EmitPython.RenderStep` | jsparagus/emit/python.py:162-176 | rendering an action keeps the cache valid and only extends it; it succeeds exactly for an integer or an `IfSameLine` tuple; a new tuple gets the next index; the rendered value decodes back to the action |
| `EmitPython.CacheDistinct` | jsparagus/emit/python.py:162-176 | a valid cache never lists the same special case twice |
| `EmitPython.RenderSeqValues` | jsparagus/emit/python.py:178-188 | each value of a rendered row decodes to its action |
| `EmitPython.RenderSeqSameIndex` | jsparagus/emit/python.py:162-176 | two tuple actions of a row render to the same value exactly when they are equal |
| `EmitPython.RenderRowsMeaning` | jsparagus/emit/python.py:178-188 | every rendered row has its row's keys, and each value decodes to the action in the final cache |
| `EmitPython.SpecialCaseTable.RenderAction` | jsparagus/emit/python.py:162-176 | the method renders as specified and updates the cache and list |
| `EmitPython.SpecialCaseTable.RenderRow` | jsparagus/emit/python.py:178-188 | the method renders a row as specified |
| `EmitPython.SpecialCaseTable.RenderAllRows` | jsparagus/emit/python.py:178-188 | the method renders all rows as specified |
| `EmitPython.PyMethodName` | jsparagus/emit/python.py:214-215 | the Python method name has no space |
| `EmitPython.LowerFails` | jsparagus/emit/python.py:212-224 | compiling fails exactly when the expression contains `'accept'` |
| `EmitPython.LowerPreserves` | jsparagus/emit/python.py:212-224 | the compiled expression uses exactly the element parameters the expression references, and calls exactly its methods under their Python names |
| `EmitPython.LowerErase` | jsparagus/emit/python.py:217-218 | `Some` leaves no trace in the compiled expression |
| `EmitPython.ParamNamesValid` | jsparagus/emit/python.py:230-231 | the lambda's parameters are Python identifiers, no two alike |
| `EmitPython.ReductionsSound` | jsparagus/emit/python.py:226-239 | every entry is the reduction of some non-init production, in order |
| `EmitPython.ReductionsComplete` | jsparagus/emit/python.py:226-239 | every non-init production has an entry |
| `EmitPython.ReductionsFail` | jsparagus/emit/python.py:226-239 | writing fails exactly when some non-init reducer contains `'accept'` |
| `EmitPython.ReductionsClosed` | jsparagus/emit/python.py:226-239 | when every non-init reducer is well formed, writing succeeds and every compiled reducer uses only its declared parameters `x0 .. x(n-1)` |
| `EmitPython.WriteReductions` | jsparagus/emit/python.py:226-239 | the loop computes the specified reductions |
| `EmitPython.ErrorCodeRows` | jsparagus/emit/python.py:113-119 | read row by row the error codes list every state once, in order; there are ⌈n/16⌉ rows, all full but the last, none empty |
| `EmitPython.WriteFlattens` | jsparagus/emit/python.py:71-75 | writing an action is writing its leaves one after another |
| `EmitPython.LeafStep` | jsparagus/emit/python.py:17-70 | a leaf writes exactly when well formed; it returns one more indent level exactly when it opens a block, false only after `Reduce`, and records builder calls |
| `EmitPython.LeafFragments` | jsparagus/emit/python.py:28-32 | a leaf leaves its writes without a newline exactly when it is `CheckNotOnNewLine(-1)`, whose two writes run into the next one; every other leaf writes complete lines |
| `EmitPython.WriteLeavesSummary` | jsparagus/emit/python.py:14-76 | a run of leaves writes exactly when all are well formed; the final indentation counts the block openers; `methods` gains exactly the builder calls |
| `EmitPython.WriteSummary` | jsparagus/emit/python.py:14-76 | the same for any action, and every written line is indented at least as deep as the start |
| `EmitPython.WriteEdgeEnds` | jsparagus/emit/python.py:86-98 | an edge writes its action, then the destination push exactly when the last leaf is not `Reduce`, then `return` |
| `EmitPython.ActionWriter.WriteAction` | jsparagus/emit/python.py:14-76 | the method writes the specified lines, fragments and methods |
| `LrParser.ReduceProdIndex` | client/src/parser.rs:24-27 | a reduce value `v` is `-(p+1)` for production `p` |
| `LrParser.Decode` | client/src/parser.rs:10-36 | each 64-bit value is exactly one of shift, reduce, accept or error, with its state or production |
| `LrParser.Encode` | client/src/parser.rs:4-36 | encoding an action and decoding it gives it back |
| `LrParser.EncodeDecode` | client/src/parser.rs:4-36 | every value is the encoding of its decoding |
| `LrParser.Cell` | client/src/parser.rs:95-101 | the cell index of an in-range state and terminal is inside the table |
| `LrParser.ActionAt` | client/src/parser.rs:95-101 | the action read from the top state's row is a shift only to a valid state |
| `LrParser.GotoAt` | client/src/parser.rs:113-114 | a goto lands on a valid state |
| `LrParser.ReduceStep` | client/src/parser.rs:107-116 | one reduction keeps the stacks well formed |
| `LrParser.ReduceAllResult` | client/src/parser.rs:103-121 | `reduce_all` keeps the stacks well formed and stops on a non-reduce action, which is the top state's action |
| `LrParser.ReduceStepKeepsBottom` | client/src/parser.rs:107-116 | a reduction keeps the nodes below the popped ones, pushes the reduced node, truncates the states to the nodes left and pushes the goto state of the state below |
| `LrParser.TryErrorHandlingResult` | client/src/parser.rs:156-179 | after reducing for the error token, recovery replaces only the top state by the shift target and keeps the nodes; a parse error is `UnexpectedEnd` exactly at end of input |
| `LrParser.WriteTokenInvariant` | client/src/parser.rs:123-140 | writing a token keeps the stacks well formed |
| `LrParser.WriteTokenPushes` | client/src/parser.rs:123-140 | on success the token's node is the top node |
| `LrParser.WriteTokenErrorKind` | client/src/parser.rs:123-140 | a parse failure is `UnexpectedEnd` exactly for the end token |
| `LrParser.WriteTokenShift` | client/src/parser.rs:129-134 | a shift pushes exactly the token and the shift state |
| `LrParser.CloseResult` | client/src/parser.rs:142-154 | on success some run of `reduce_all` reached `ACCEPT` with the result as its only node, the node stack is left empty and two states remain; a parse error is always `UnexpectedEnd` |
| `LrParser.Parser.ReduceAllLoop` | client/src/parser.rs:103-121 | the loop leaves the stacks as `reduce_all` specifies and returns its action |
| `LrParser.Parser.TryErrorHandlingStep` | client/src/parser.rs:156-179 | the method updates the stacks as error recovery specifies |
| `LrParser.Parser.WriteTokenLoop` | client/src/parser.rs:123-140 | the method updates the stacks as `write_token` specifies |
| `LrParser.Parser.CloseLoop` | client/src/parser.rs:142-154 | the method updates the stacks as `close` specifies |
| `Dis.Disassemble` | rust/emitter/src/dis.rs:6-19 | the loop's text is one line per byte: the opcode name, or the byte in decimal |
| `Dis.DisLines` | rust/emitter/src/dis.rs:6-19 | when no opcode name contains a newline, splitting on newlines gives exactly one line per byte, in order, then an empty piece |
| `Dis.DisLineCount` | rust/emitter/src/dis.rs:6-19 | the text has one newline per byte, and is empty exactly for empty bytecode |

## Left out

- Type inference (`types.infer_types`, `grammar.py:472-474`) is not part of this model. The emitters take the unit-typed arguments of each method as a given map.
- The LR automaton, the lexer and the grammar-text parser that drives the `parse_esgrammar.py` builder are not part of this model. The emitters take parser states as given values.
- Generated text is modelled as structured lines and stack operations, not as exact strings. Comments, `traceback` and `debug_context` output and the `print` calls of the Python writer are left out.
- `to_snek_case` is a regular-expression rewrite; it is a function parameter `snek`.
- `Opcode::try_from` and the opcode table are a function parameter `decode`.
- `terminal_name` and `terminal_name_camel` (`emit.py:134-153`) need Unicode character names and are left out.
- `write_python_parser` (`emit.py:15-83`), `handler_trait`, `nt_node`, `nt_node_impl`, `type_to_rust`, `element_type`, `entry` and `header` produce boilerplate declarations and are left out.
- `can_accept_terminal` and `can_close` (`parser.rs:181-199`) are marked as wrong in the source; they are left out.
- The `PRODUCTION_GROUPS` regular expressions are written as the end-of-string checks they perform.
- Python's string predicates (`isidentifier`, `isdigit`, `islower`, `capitalize`, `lower`) are modelled on ASCII only.
- `EsGrammar.ExprMatchRef`: accepts only digit strings after `$`; Python's `int()` would also accept signs, surrounding whitespace and underscores.
- `LrParser.Parser.ReduceAllLoop`: the runtime loops carry a fuel bound, since termination depends on the tables. Running out of fuel is an extra `OutOfFuel` outcome that the source does not have.
- `LrParser.Parser.WriteTokenLoop`: same fuel bound as `reduce_all`.
- `LrParser.Parser.CloseLoop`: same fuel bound as `reduce_all`.
- `ParserTables::check()` is the `TablesOk` precondition. The `reduce` callback is a function parameter whose result must satisfy `ReducerOk`: it returns a nonterminal below `goto_width`, as a `debug_assert!` in `reduce_all` checks, and pops no more nodes than the stack holds, which holds for the generated arms because `Vec::pop` cannot remove more values than the stack has (`EmitRust.ReduceArmShortStack`).
- `LrParser.Parser.constructor`: `Parser::new` panics when the entry state is out of range; the model makes `entryState < stateCount` a precondition instead of an error outcome.
- Raw node pointers are opaque `nat` values; boxing and ownership are not modelled.
- `OrderedSet` and `OrderedFrozenSet` are sequences without duplicates. Python's `set` and `dict` are sequences or maps wherever iteration order matters.
- `GrammarInit.Grammar.Intern`: object identity is an explicit `id` field, so sharing is equality of the stored object.
- Python exceptions (`ValueError`, `TypeError`, `AttributeError`, assertion failures) are merged into each module's error datatype.
- `Grammar.PrettyRoundTrip`: a `repr` that contains a comma or spells an identifier is outside the round trip. Such a value can collide with other arguments (`Grammar.PrettyReprCollision`).
- `Grammar.PrettyInjective`: covers the same class of arguments as `Grammar.PrettyRoundTrip`, for the same reason.
- `Grammar.ExprToStr`: only the outermost form, the callee and element references are read back from the text. Rendering is not injective in general (`Grammar.ExprToStrSomeCollision`).
- `GrammarInit.ResolveGoal`: every `InitNt` goal is rejected. In the source, an `InitNt` goal after the first reuses the previous goal's `ok`, which is then true, and the loop builds an init nonterminal around the `InitNt` object. The model's `InitName` holds only an `Nt` and cannot express that nonterminal.
- `EmitPython.ActionWriter.WriteAction`: the `assert not act.is_inconsistent()` check is not modelled. `Action.is_inconsistent` is defined in `jsparagus/actions.py`, which is not part of this model, so an action the source would reject there is written here.
- A tuple action is a `SpecialKey` with exactly three fields. A shorter tuple, for which `render_action` raises `IndexError` (or `ValueError` when its tag is not `IfSameLine`), cannot be represented.
- Python's iteration over `terminal_set` (a `set`) in `finish_grammar` has no defined order. The model reports the first clash in insertion order.
