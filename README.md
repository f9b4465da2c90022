# lash core, modelled in Dafny

lash is a shell for the untyped lambda calculus. A user types terms,
assignments `name := term` and directives (`@set`, `@echo`, `@include`,
`@usestd`). Terms may contain Church numerals written `$n`, references to
earlier named terms, and macros `!name arg…` that reduce, normalize,
compare or inspect their arguments. This project models the core of that
shell and proves properties of the model:

- the term language (`lambda.dfy`): free variables, numeral expansion,
  resolution of named terms, linking of free names to the registry,
  substitution with its fresh-name loop, and the printed form;
- the three reduction strategies and the `normalize` loop
  (`strategy.dfy`), proved against an independent single-step beta relation
  and a normal-form predicate (`strategy_facts.dfy`); a redex is contracted
  with the program's substitution, whose capture the first finding below
  exhibits;
- the De Bruijn conversion that decides alpha equivalence
  (`debruijn.dfy`, with the converter as a class over its shared map);
  `alphaeq` compares the converter's forms (`AlphaEqAsWritten`), and the
  lexically scoped comparison of the second finding below is `AlphaEq`;
- macro names, arities, prefix lookup (`macros.dfy`) and macro
  application (`macro_apply.dfy`);
- simple-type inference by unification (`typing.dfy`): the mutable type
  variables are an arena of cells owned by a `TypeMachine` class, and
  inference is proved sound against a typing relation;
- the interpreter's settings and registry (`interpreter.dfy`), its error
  values (`errors.dfy`), the parser's helpers (`parsing.dfy`), the
  context tracker with its frame stack (`context.dfy`) and the session
  state with its history (`state.dfy`).

`substitution.dfy`, `lambda_facts.dfy` and `debruijn_facts.dfy` hold the
lemmas about the term language; `wrappers.dfy` and `text.dfy` are small
helpers (`Option`/`Result`, decimal printing, counting parentheses).

## Model

| member | source | states |
|---|---|---|
| Macros.NArgs | src/macro.rs:161-177 | `alphaeq` takes two arguments, `macros` none, every other macro one |
| Macros.ValuesComplete | src/macro.rs:40-63 | every macro is in the list of values the lookup scans |
| Macros.ValuesDistinct | src/macro.rs:40-63 | the list holds all twelve macros, each once |
| Macros.NamePrefixFree | src/macro.rs:181-200 | no macro name is a prefix of another one |
| Macros.Name | src/macro.rs:181-200 | every macro name is a non-empty word of lower-case letters |
| Macros.FromStr | src/macro.rs:202-227 | whatever the lookup selects has a name starting with the given string |
| Macros.FromStrExact | src/macro.rs:206-215 | each of the nine spelled-out names selects the macro of that name |
| Macros.OtherUniquePrefix | src/macro.rs:216-225 | any other string selects `m` exactly when it prefixes `m`'s name and no other name, and selects nothing when none or several names start with it |
| Macros.FromStrUniquePrefix | src/macro.rs:202-227 | lookup succeeds with `m` exactly when the string is a prefix of `m`'s name and of no other name |
| Macros.FromStrName | src/macro.rs:181-227 | looking up a macro's printed name gives that macro back |
| Macros.AmbiguousPrefixes | src/macro.rs:216-225 | the empty string and `de` (debruijn, debug) select nothing |
| Macros.CandidatesOnly | src/macro.rs:217-222 | the filtered candidates are exactly `[m]` when `m` is the only name with that prefix |
| Lambda.ChurchNumeral | src/lambda.rs:251-257 | the expansion of `$n` is closed, numeral-free and has `n` applications of `f` |
| Lambda.UnwrapChurchNum | src/lambda.rs:251-257 | the loop builds exactly the expansion `\f . \x . f (… (f x))` |
| Lambda.Resolve | src/lambda.rs:199-210 | the result contains no Named node and no numeral, and stays macro-free |
| Lambda.FreshName | src/lambda.rs:220-224 | the fresh name is the binder plus primes, is not free in the replacement, and is the first such candidate |
| Lambda.FreshNameLoop | src/lambda.rs:221-224 | the `while` loop that appends primes returns that first candidate |
| Lambda.Substitute | src/lambda.rs:212-249 | substituting a variable keeps the size of the term |
| Lambda.FreeNameBounded | src/lambda.rs:100-110 | a name free in a term (`contains_free_variable`) is no longer than the term's variable names together, which bounds the fresh-name search |
| LambdaFacts.ChurchRoundTrip | src/lambda.rs:251-257 | reading the number back from the expansion of `$n` gives `n` |
| LambdaFacts.ChurchNumeralInjective | src/lambda.rs:251-257 | different numerals expand to different terms |
| LambdaFacts.ResolveResolved | src/lambda.rs:200-210 | resolving a resolved term changes nothing |
| LambdaFacts.ResolveIdempotent | src/lambda.rs:200-210 | resolving twice is resolving once |
| LambdaFacts.ResolvedHasNoNumerals | src/lambda.rs:120-130 | `has_church_nums` is false on every resolved term |
| LambdaFacts.ResolveKeepsFree | src/lambda.rs:200-210 | resolution keeps exactly the free variables |
| LambdaFacts.SetNamedTermsEmpty | src/lambda.rs:166-197 | `SetNamedTermsHelper` with an empty registry changes nothing |
| LambdaFacts.SetNamedTermsIdempotent | src/lambda.rs:170-197 | linking twice is linking once |
| LambdaFacts.SetNamedTermsFree | src/lambda.rs:170-197 | with closed stored terms, a name stays free exactly when it was free and is unknown to the registry or bound around the term |
| LambdaFacts.SetNamedTermsNamedClosed | src/lambda.rs:170-197 | linking against closed stored terms only stores closed terms |
| LambdaFacts.ShowChurchZero | src/tests.rs:31-33 | the expansion of `$0` prints as `\f . \x . x` |
| LambdaFacts.ShowNumeral | src/lambda.rs:284 | every numeral literal `n` prints as `$` followed by the decimal digits of `n`; `$42` for 42 |
| LambdaFacts.ShowBalanced | src/lambda.rs:260-288 | the printed form of a term has properly nested parentheses (no prefix closes more than it opened, and all are closed) when no name holds one |
| LambdaFacts.ShowWithParenthesisBalanced | src/lambda.rs:112-118 | a possibly bracketed operand prints with properly nested parentheses |
| LambdaFacts.ShowMacroArgsBalanced | src/lambda.rs:272-282 | macro arguments, bare variables and bracketed terms, print with properly nested parentheses |
| LambdaFacts.ShowWithParenthesisBare | src/lambda.rs:157-159 | a term is bracketed exactly when it is no Named node, variable or numeral and not an application left of another |
| Substitution.SubstituteNamedClosed | src/lambda.rs:212-249 | substitution of closed stored terms keeps stored terms closed |
| Substitution.SubstituteFreeVars | src/lambda.rs:212-249 | a free variable of `t[x := r]` is free in `t` and not `x`, or free in `r` |
| Substitution.SubstituteClosedFreeVars | src/lambda.rs:212-249 | the two facts above for every name at once |
| Substitution.SubstituteRenamesBinder | src/lambda.rs:219-228 | `(\y . x)[x := y]` renames the binder and gives `\y' . y` |
| Substitution.SubstituteShadowed | src/lambda.rs:216-217 | substituting for the abstraction's own binder gives the abstraction back unchanged, whatever its body and the replacement |
| Substitution.SubstituteCaptures | src/lambda.rs:219-228 | `(\y . x y')[x := y]` gives `\y' . y y'`: the free `y'` is captured |
| Substitution.FreshNameAvoiding | src/lambda.rs:220-224 | the corrected fresh name avoids the replacement, the body and the substituted name |
| Substitution.SubstituteAvoidingFreeVars | src/lambda.rs:212-249 | the free variables of the corrected `t[x := r]` are those of `t` except `x`, plus those of `r` when `x` was free |
| Substitution.SubstituteAvoidingNamedClosed | src/lambda.rs:212-249 | the corrected substitution keeps stored terms closed |
| Substitution.SubstituteAvoidingKeepsFree | src/lambda.rs:219-228 | on the capturing input the corrected substitution picks `y''` and keeps `y'` free |
| Strategy.Default | src/strategy.rs:252-256 | the default strategy is applicative order, and its name reads back to it |
| Strategy.FromStr | src/strategy.rs:258-268 | exactly `applicative`, `normal` and `callbyname` parse, each to the strategy of that name |
| Strategy.FromStrName | src/strategy.rs:258-268 | parsing a strategy's name gives the strategy back |
| Strategy.Contract | src/strategy.rs:117-134 | the contractum is the head's body with the program's `substitute` of the argument for the binder; it keeps stored terms closed and has no free variable that neither the head nor the argument has |
| Strategy.ReduceNormal | src/strategy.rs:101-153 | normal order finds no redex exactly on normal forms |
| Strategy.ReduceApplicative | src/strategy.rs:155-208 | applicative order finds no redex exactly on normal forms |
| Strategy.ReduceCbn | src/strategy.rs:55-99 | call by name leaves an abstraction alone and otherwise steps like normal order; it finds no redex exactly on weak normal forms |
| Strategy.Reduce | src/strategy.rs:38-53 | `reduce` returns nothing exactly on the strategy's normal forms (weak ones for call by name) |
| Strategy.ChurchNumeralNormal | src/lambda.rs:251-257 | numeral expansions are in normal form |
| Strategy.Normalize | src/strategy.rs:25-36 | the loop returns the term reached by counted steps on which the strategy finds no redex, or reports that the fuel ran out with a further step available |
| StrategyFacts.ReduceNormalIsStep | src/strategy.rs:101-153 | every normal-order reduction is one beta step |
| StrategyFacts.ReduceApplicativeIsStep | src/strategy.rs:155-208 | every applicative-order reduction is one beta step |
| StrategyFacts.NormalFormNoStep | src/strategy.rs:101-153 | a normal form admits no beta step |
| StrategyFacts.ReducersComplete | src/strategy.rs:101-208 | both full reducers find a redex exactly when some beta step exists |
| StrategyFacts.StepFreeVars | src/lambda.rs:212-249 | a beta step keeps stored terms closed and introduces no free variable |
| StrategyFacts.NormalOrderLeftmost | src/strategy.rs:101-153 | normal order contracts a head redex first, then reduces the function part, then the argument |
| StrategyFacts.ApplicativeOrderInnermost | src/strategy.rs:155-208 | applicative order contracts an abstraction redex only once its body and argument are normal, a Named or numeral redex at once |
| StrategyFacts.CaptureStep | src/strategy.rs:117-134 | all three strategies reduce `(\x . \y . x y') y` in one step to `\y' . y y'`, capturing the free `y'` |
| StrategyFacts.ReduceStepsDeterministic | src/strategy.rs:25-36 | the number of steps to an irreducible term is unique |
| StrategyFacts.IdentityOracle | src/tests.rs:14-18 | `!normalize ((\x . x) x)` gives `x` |
| StrategyFacts.CaptureAvoidanceOracle | src/tests.rs:45-47 | one step on `\x . (\f . \x . f (f x)) (\x' . x (x x'))` prints as the expected renamed term |
| DeBruijn.Convert | src/debruijn.rs:14-41 | every index the converter emits points at an enclosing abstraction |
| DeBruijn.ToDeBruijn | src/debruijn.rs:43-47 | a converted term has no dangling index |
| DeBruijn.AlphaEqAsWritten | src/lambda.rs:49-51 | `alpha_eq` compares the converter's forms; on terms that never rebind a name in scope it is the scoped comparison |
| DeBruijn.AlphaEq | src/debruijn.rs:14-41 | the scoped comparison: alpha-equal terms have the same free variables; renaming a binder is proved invariant in `DeBruijnFacts.AlphaEqRenameBinder` |
| DeBruijn.ConvertScoped | src/debruijn.rs:14-41 | with lexical scoping no index dangles, and a name is free in the result exactly when free in the term and not in scope |
| DeBruijn.ConvertAgreesWithoutRebinding | src/debruijn.rs:14-41 | where no binder reuses a name in scope, the program's conversion is the scoped one |
| DeBruijn.Converter.Helper | src/debruijn.rs:14-41 | the converter yields `Convert` of its starting map, and leaves the map without the term's binders |
| DeBruijn.FromTerm | src/debruijn.rs:43-47 | a fresh converter yields the De Bruijn form |
| DeBruijnFacts.IdentityDeBruijn | src/debruijn.rs:49-76 | `\x . x` converts to and prints as `\ 1`, and is alpha-equal to `\y . y` by both comparisons |
| DeBruijnFacts.ConvertResolve | src/debruijn.rs:33-37 | resolving Named nodes and numerals does not change the De Bruijn form |
| DeBruijnFacts.ConvertScopedResolve | src/debruijn.rs:33-37 | resolving does not change the scoped De Bruijn form either |
| DeBruijnFacts.AlphaEqResolve | src/lambda.rs:49-51 | a term is alpha-equal to its resolution, by both comparisons |
| DeBruijnFacts.ShadowedBinderLost | src/debruijn.rs:23-27 | `\x . (\x . x) x` converts to `\ (\ 1) x`, so the program's comparison finds it alpha-equal to the open `\y . (\x . x) x` |
| DeBruijnFacts.ScopedSeparatesShadowing | src/debruijn.rs:23-27 | the scoped comparison tells the two terms of the finding apart |
| DeBruijn.Rename | src/debruijn.rs:14-41 | renaming `x` to another name leaves no free `x` (the reference renaming for alpha invariance) |
| DeBruijnFacts.ScopedAgree | src/debruijn.rs:14-41 | the scoped form depends only on the map entries of the term's free variables |
| DeBruijnFacts.ConvertScopedRename | src/debruijn.rs:14-41 | renaming free `x` to an unused `y`, with `y` mapped where `x` was, gives the same scoped form |
| DeBruijnFacts.ConvertScopedRenameBinder | src/debruijn.rs:14-41 | renaming an abstraction's binder to a name its body does not use leaves the scoped form unchanged in any scope |
| DeBruijnFacts.AlphaEqRenameBinder | src/lambda.rs:49-51 | an abstraction is alpha-equal, by the scoped comparison, to every renaming of its binder to an unused name |
| DeBruijnFacts.RenamingNotAlphaEqAsWritten | src/debruijn.rs:23-27 | renaming `\x . (\x . x) x` to `\y . (\x . x) y` changes the program's form, so `alpha_eq` answers false where the scoped comparison answers true |
| DeBruijnFacts.ShowBalanced | src/debruijn.rs:49-76 | the printed De Bruijn form has properly nested parentheses (no prefix closes more than it opened, and all are closed) when no free name holds one |
| Typing.GensymName | src/typing.rs:44-53 | the first 26 names are single letters `A`…`Z`, later ones `T` and the counter |
| Typing.GensymInjective | src/typing.rs:44-53 | generated names never repeat |
| Typing.GensymExamples | src/typing.rs:44-53 | names 0, 25 and 26 are `A`, `Z` and `T26` |
| Typing.Inst | src/typing.rs:131-150 | instantiation follows every link: the result mentions only unbound variables |
| Typing.TypeMachine.constructor | src/typing.rs:37-42 | counter 0, level 1, no type variables |
| Typing.TypeMachine.Gensym | src/typing.rs:44-53 | returns the name of the current counter and increments it |
| Typing.TypeMachine.NewVar | src/typing.rs:55-59 | allocates a new unbound variable with a generated name at the current level |
| Typing.TypeMachine.Occurs | src/typing.rs:61-82 | fails exactly when the variable occurs in the type, following links |
| Typing.TypeMachine.Bind | src/typing.rs:105-118 | links an unbound variable to a type it does not occur in, keeping the links acyclic |
| Typing.TypeMachine.Unify | src/typing.rs:84-129 | structurally equal types unify at once and change nothing; an unbound variable on either side unifies with any type it does not occur in; on success both types instantiate to the same type; links are only added, never changed |
| Typing.TypeMachine.Infer | src/typing.rs:152-175 | an inferred type is a type of the term under the instantiated environment; a variable is typed exactly when the environment holds it (else "unable to instantiate"), changing no cell; a term of variables and abstractions is typed exactly when its free variables are in the environment; an abstraction's type is an arrow out of a new variable |
| Typing.InferType | src/typing.rs:178-180 | an inferred type of a term is a simple type of it; a term of variables and abstractions is typed exactly when it is closed; `\x . x` gets `A -> A` |
| Typing.TypeEqSound | src/typing.rs:90 | structurally equal types have the same instantiation |
| Typing.InstRefines | src/typing.rs:131-150 | instantiating after more links were added subsumes the earlier instantiation |
| Typing.TypedInst | src/typing.rs:152-175 | typing is closed under instantiation of type variables |
| Typing.Transport | src/typing.rs:152-175 | a typing judgement survives later unifications |
| Typing.InstIdempotent | src/typing.rs:131-150 | instantiating twice is instantiating once |
| Typing.ShowTypeInst | src/typing.rs:182-200 | printing a type prints its instantiation |
| Typing.IdentityTyped | src/typing.rs:182-200 | `\x . x` has type `A -> A`, printed `(A -> A)` |
| Typing.SelfApplicationUntypable | src/typing.rs:164-170 | `\x . x x` has no simple type, so inference of it cannot succeed |
| Errors.NewChurchNumError | src/error.rs:35-40 | the error is a ChurchNumError |
| Errors.NewMacroArgError | src/error.rs:62-67 | the error is a MacroArgError whose message names the macro |
| Errors.NewSetKeyError | src/error.rs:69-74 | the error is a SetKeyError, and the key can be read back from its message |
| Errors.NewSetValueError | src/error.rs:76-81 | the error is a SetValueError, and the value can be read back from its message |
| MacroApply.Apply | src/macro.rs:72-141 | a wrong argument count is a MacroArgError; `alphaeq` returns Church true exactly when the converter's forms are equal, else Church false; reduce returns the reduct or the term; resolve resolves; `debruijn`, `debug`, `time` and `type` return their argument; normalizing macros return an irreducible term reached by the strategy's steps; `alphaeq`, `debruijn` and `type` need macro-free arguments, on which the program stops |
| MacroApply.ReduceOnce | src/macro.rs:112-116 | the reduct if the strategy finds a redex, the term itself otherwise |
| MacroApply.NormalizeTerm | src/strategy.rs:25-36 | the result is irreducible and reached by the strategy's steps |
| MacroApply.ChurchBooleansDiffer | src/macro.rs:82-96 | the two answers of `alphaeq` are not alpha-equal, by the program's comparison or the scoped one |
| Interpreter.ShowDirective | src/interpreter.rs:159-169 | each directive prints as its keyword followed by its arguments, which can be read back |
| Interpreter.ParseBool | src/interpreter.rs:131-134 | exactly `true` and `false` are values for `numerals` |
| Interpreter.Interpreter.constructor | src/interpreter.rs:35-42 | numerals disabled, empty registry, the default strategy |
| Interpreter.Interpreter.SetChurchNumEnabled | src/interpreter.rs:141-143 | sets the numeral switch and nothing else |
| Interpreter.Interpreter.SetStrategy | src/interpreter.rs:145-147 | sets the strategy and nothing else |
| Interpreter.Interpreter.SetOption | src/interpreter.rs:125-138 | `strategy` and `numerals` take their parsed values; a bad value is a SetValueError, any other key a SetKeyError, and an error changes nothing |
| Interpreter.Interpreter.ProcessLambdaTerm | src/interpreter.rs:108-116 | numerals are refused while disabled; otherwise free names are linked to the registry |
| Interpreter.Interpreter.Assign | src/interpreter.rs:92-96 | a processed term is stored under its name, replacing only that entry; a refused term stores nothing |
| Parsing.VecToApplication | src/parsing.rs:344-354 | one term is itself; more terms nest to the left, the last one the outermost argument |
| Parsing.SpineOfApplication | src/parsing.rs:344-354 | the left-nested application of a list gives back that list |
| Parsing.ApplicationOfSpine | src/parsing.rs:344-354 | every term is the left-nested application of its spine |
| Parsing.Curry | src/parsing.rs:127-131 | the loop nests one abstraction per variable, the first variable outermost |
| Parsing.UncurryAbstractions | src/parsing.rs:127-131 | the variables and the inner term can be read back from the nested abstractions |
| Parsing.TakeWhile1 | src/parsing.rs:340 | splits off the longest non-empty prefix of accepted characters, failing when the first one is rejected |
| Parsing.MatchVariableName | src/parsing.rs:339-342 | every character of a matched name is accepted by the byte-truncating test |
| Parsing.NonAsciiAccepted | src/parsing.rs:340 | `Ł` is accepted as a variable name |
| Parsing.MatchVariableNameAscii | src/parsing.rs:339-342 | the corrected matcher only accepts ASCII names |
| Parsing.ClassesAgreeOnBytes | src/parsing.rs:340 | on characters below 256 the truncating and the corrected tests agree |
| Parsing.Or | src/parsing.rs:77-83 | the combined error is the later of the two by line and offset, the second one on a tie |
| Parsing.OrAssociative | src/parsing.rs:77-83 | combining errors is associative |
| Parsing.MultispaceLength | src/parsing.rs:106 | the leading whitespace is the longest whitespace prefix |
| Parsing.Finish | src/parsing.rs:105-114 | succeeds exactly on whitespace-only input, consuming it; otherwise the error points at the first other character |
| Parsing.ShowStatement | src/parsing.rs:92-102 | an assignment prints as `name := term`, a comment as nothing, a term and a directive as themselves |
| Context.ContextTracker.constructor | src/context.rs:19-24 | no frames and no current terms |
| Context.ContextTracker.Get | src/context.rs:26-28 | looks a name up in the current terms |
| Context.ContextTracker.PushFrame | src/context.rs:30-33 | appends the frame and rebuilds the current terms from all frames |
| Context.ContextTracker.PopFrame | src/context.rs:35-38 | drops the newest frame, if any, and rebuilds the current terms |
| Context.ContextTracker.RebuildCurrentTerms | src/context.rs:40-47 | the current terms become the frames inserted oldest first |
| Context.RebuiltKeys | src/context.rs:40-47 | a name is current exactly when some frame holds it |
| Context.LastOccurrenceWins | src/context.rs:40-47 | a name maps to its newest occurrence across the frames |
| Context.InsertFrameOthers | src/context.rs:43-45 | inserting a frame leaves names outside the frame untouched |
| State.DefaultConfig | src/state.rs:58-66 | the default parser, normal order, interactive |
| State.EntryToString | src/state.rs:81-88 | a lambda line shows its input then `=>` and the output, an error line the output in brackets, any other line its input |
| State.LastLambdaIndex | src/state.rs:44-55 | the index of the newest lambda line, no later lambda line, or none at all |
| State.State.Init | src/state.rs:31-38 | empty history, the default configuration, no variables |
| State.State.AddVariable | src/state.rs:40-42 | sets one variable and changes nothing else |
| State.State.LastLambda | src/state.rs:44-55 | the scan from the newest entry returns the newest lambda line |

## Left out

- Output: everything written to the environment's stdout (macro messages, `@echo`, verbose reduction traces and their formatting helpers in `strategy.rs`, `print_all`, the help texts) is left out; the modelled operations return the terms only.
- The `nom` grammar of `parsing.rs` (`match_statement`, `match_lambda`, `match_variable_list`, …) is not part of this model; only the helpers that build or check its results are.
- Strategy.Normalize: the loop of the program need not terminate; the model takes a `fuel` bound and reports exhaustion, so a non-terminating normalization is not modelled.
- MacroApply.Apply: the `type`, `debug`, `debruijn` and `time` macros print and return their argument; the printed text (including the inferred type and the elapsed time) is left out. The program stops (`unreachable!`) when `alphaeq`, `debruijn` or `type` meets a macro node in its argument (src/debruijn.rs:38, src/typing.rs:173), for instance `!debruijn (!macros)`; the model makes macro-free arguments a precondition of those three and does not model the stop.
- Interpreter.Interpreter.ProcessLambdaTerm: `apply_macros` is not applied after linking, because it runs macros that write output and read the clock; `MacroApply.Apply` models one macro application.
- `interpret_line`, `interpret_contents`, `interpret_file`, `include` and `interpret_std` read files and the standard library text and are left out; `Interpreter.Interpreter.Assign` models the assignment branch they share.
- Typing: `Rc<RefCell<…>>` type variables are modelled as an arena of cells; aliasing through shared cells is exactly the arena index. The level bookkeeping in `occurs` (lowering a level) is left out because `current_level` never changes from 1, and the unused substitution map of `inst_rec` is dropped.
- Typing.TypeMachine.Infer: that inference succeeds on every term that has a simple type (completeness of unification) is not proved; success is stated for variables and for terms without applications, failure is proved for `\x . x x`.
- Typing.InferType: likewise, success is stated only for terms without applications.
- Typing.TypeMachine.Unify: the final "unable to unify" error is unreachable (every pair of types is handled by an earlier branch) and is omitted; so is the last `else` of `occurs`.
- Numerals: a numeral carries a `Lambda.U32`, a natural below 2^32, as the program's `u32`; nothing does arithmetic on it, so no wrap-around arises. The parser's rejection of a literal too large for `u32` is part of the grammar, which is left out.
- The `is_abstraction` checks of the reducers' unreachable `None` branches are folded into `IsHead`.
- State: `LineType`, `Parser` and `ReductionStrategy` are not defined in this crate; they are given their minimal shape, `ReductionStrategy` is `Strategy.Strategy`, and the `builtins` table is left out.
- `new_macro_arg_error` names its parameters in swapped order; the message it builds is nevertheless correct, and `Errors.NewMacroArgError` keeps the message.
- Lambda.SetNamedTermsHelper: the mutable `bound_vars` vector is a sequence parameter extended on entering an abstraction.
- `alpha_eq` is reflexive and symmetric by definition (equality of De Bruijn forms); no lemma is stated for that.
- Lambda.ContainsFree and Lambda.Show, like `contains_free_variable` and `Display`, are reference definitions; what is proved about them is in the rows of `FreeNameBounded`, `ShowBalanced` and the lemmas that use them.
- `HistoryEntry::default` and the `Display` of `ParseError` produce fixed text and are left out.
- `commands.rs`, `main.rs`, `environment.rs`, `interactive.rs` and `builtins.rs` are not part of this model.

## Findings

| source | as written | input that shows it | evidently intended | confidence | as-written member | corrected member |
|---|---|---|---|---|---|---|
| src/lambda.rs:220-228 | the fresh binder only avoids the free variables of the replacement | `(\y . x y')[x := y]` gives `\y' . y y'`, capturing the free `y'` | substitution keeps every free variable of the body free | high, not executed | Substitution.SubstituteCaptures | Substitution.SubstituteAvoidingFreeVars |
| src/debruijn.rs:23-27 | leaving an abstraction deletes the name instead of restoring an outer binding | `\x . (\x . x) x` converts to `\ (\ 1) x` and is alpha-equal to the open `\y . (\x . x) x`, yet not to its renaming `\y . (\x . x) y` (RenamingNotAlphaEqAsWritten) | a name bound by an outer abstraction stays bound after an inner one rebinding it, so renaming a binder keeps alpha equivalence | high, not executed | DeBruijnFacts.ShadowedBinderLost | DeBruijn.AlphaEq |
| src/parsing.rs:340 | `x as u8` truncates the character before the alphanumeric test | `Ł` (U+0141, low byte 0x41 `A`) is accepted as a variable name | only ASCII letters, digits, `-`, `_` and `'` form names | medium, not executed | Parsing.NonAsciiAccepted | Parsing.MatchVariableNameAscii |
