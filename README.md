# A verified model of the yargs validation engine

This project models `lib/validation.ts` of yargs, the engine that a parsed
argument set (`argv`) passes through before the command handler runs. It has
three parts.

- **Registries.** Three registries hold the rules registered while a parser is
  configured:
  - `implied`, a dictionary from a key to the keys or positional counts it
    implies;
  - `conflicting`, a dictionary from a key to the keys it excludes;
  - `checks`, the list of custom check functions.

  `reset` filters the registries when a command scope is entered, and
  `freeze`/`unfreeze` save and restore them around a scope.
- **Evaluators.** Each evaluator inspects `argv` and reports failures:
  - demanded non-option count, required positionals and required arguments;
  - unknown arguments and unknown commands;
  - choices;
  - custom checks;
  - implications and conflicts.
- **Suggestion.** `recommendCommands` suggests the closest known command for a
  mistyped one.

Each evaluator returns the failure records it would hand to the reporter
(`usage.fail`), in the order it would hand them (module `Reports`). The
evaluators' inputs are parameters:

- the demanded commands and options;
- the command keys and the depth of the current command path;
- the alias map, the parser's `newAliases` and the parse context;
- the choices.

Modules, one file each:

| Module | Contents |
|---|---|
| `Values` | JavaScript values, truthiness, `===`, ordered dictionaries (`argv`) |
| `Text` | decimal strings, `indexOf`, `replace` with and without `g` |
| `Conditions` | implication conditions and `keyExists` |
| `Reports` | the failure records |
| `Counts` | `nonOptionCount`, `positionalCount`, `requiredArguments` |
| `Unknown` | `unknownArguments`, `unknownCommands`, `isValidAndSomeAliasIsNotNew` |
| `Choices` | `limitedChoices` |
| `Rules` | how `implies`/`conflicts` arguments are flattened, and the pure rules of `implications`, `conflicting` and `customChecks` |
| `Views` | the registry dictionaries seen as ordered key-to-list values |
| `Registries` | the registries as heap objects, `reset`/`freeze`/`unfreeze`, the evaluators that read the registries, and command-scope scenarios |
| `Suggestions` | `recommendCommands` over an array sorted in place |

Behaviour that the model takes from the code:

- **Scopes share state.** `freeze` saves references, not copies. `implies`,
  `conflicts` and `check` mutate the current registries in place. `reset`
  builds new dictionaries, but they share the lists of the kept keys.
  - So, with no `reset` in between, a registration made between `freeze` and
    `unfreeze` survives the `unfreeze` (`FreezeImpliesUnfreeze`).
  - After a `reset`, an `implies` under a key that was kept and already
    registered still reaches the restored registry. An `implies` under a
    local or new key does not (`ScopedImplies`).
  - A check added after `freeze` survives `unfreeze` unless `reset` ran first
    (`ScopedCheck`).

  One might expect `unfreeze` to undo every registration made since `freeze`.
  It does not, because the snapshot holds the same objects that later
  registrations mutate.
- **The negation prefix is `--no-`.** A stored implication target is negated
  only when it starts with `--no-` followed by at least one character that is
  not a line terminator (`/^--no-.+/`). A bare `no-` prefix is not a negation.
- **Number coercion is decimal only.** A target made only of decimal digits
  (the empty string included, as `Number("")` is 0) is read as a count of
  positional tokens.
- **`objFilter` is assumed shallow and order-preserving.** `lib/obj-filter.ts`
  is not part of this model. `reset` is modelled as keeping the entries whose
  key is not local, in order, with the same list objects.
- **The edit distance is a parameter.** `recommendCommands` takes it as any
  function to naturals; `lib/levenshtein.ts` is not part of this model.

## Model

| member | source | states |
|---|---|---|
| Counts.NonOptionCount | lib/validation.ts:20-66 | at most one failure; one exactly when a range is demanded and the observed count (positionals minus the command depth) is below the minimum or above the maximum; below the minimum, the minimum's message (default, custom or null) is reported; otherwise, above the maximum, the maximum's message is |
| Counts.PositionalCount | lib/validation.ts:70-82 | one failure exactly when fewer positionals were observed than required, and it carries both counts |
| Counts.CountFailure | lib/validation.ts:27-33 | a count failure carries the default message when no custom one is set, no text when the custom one is `null` or empty, and otherwise the filled custom message (the same rule for the maximum, lines 46-52) |
| Counts.Fill | lib/validation.ts:31 | a custom message without `$` is reported unchanged (the same replace for the maximum, line 50) |
| Counts.SplitSlots | lib/validation.ts:31 | any text is its `$0`-free pieces joined by `$0` slots |
| Counts.ZeroSlotsFilled | lib/validation.ts:31 | the global replace fills every `$0` slot, however many there are |
| Counts.FillEverySlot | lib/validation.ts:31 | for any template, filling replaces every `$0` slot by the observed count and then the first remaining `$1` by the bound |
| Counts.FillOneAfterSlots | lib/validation.ts:31 | a template with any number of `$0` slots before its first `$1`, whose segments and text before the `$1` hold no `$`, gets the observed count in each slot and the bound in that `$1` |
| Counts.FillOneBeforeSlots | lib/validation.ts:31 | a template whose first `$1` comes before any number of `$0` slots gets the bound there and the observed count in each slot |
| Counts.FirstOneSlotFilled | lib/validation.ts:31 | the non-global replace fills only the first `$1` |
| Counts.VerbatimWithoutDollar | lib/validation.ts:31 | neither replace changes text that holds no `$` |
| Counts.NumberHasNoDollar | lib/validation.ts:31 | a count written out holds no `$`, so filling `$0` cannot create a new slot |
| Counts.NoDollarNoMatch | lib/validation.ts:31 | a pattern starting with `$` cannot match inside text without `$` |
| Counts.MissingKeysMembers | lib/validation.ts:89-94 | the missing keys are exactly the demanded keys that are not own properties or hold `undefined`, each listed once |
| Counts.CollectMissing | lib/validation.ts:89-94 | the loop collects the missing keys in demand order |
| Counts.GuidanceMembers | lib/validation.ts:97-103 | the custom messages are exactly the non-empty messages of missing keys, without repeats |
| Counts.CollectGuidance | lib/validation.ts:97-103 | the loop collects the custom messages in order of first appearance |
| Counts.MissingIffSomeMissing | lib/validation.ts:96 | the missing list is non-empty exactly when some demanded key is missing |
| Counts.RequiredArguments | lib/validation.ts:85-114 | at most one failure; one exactly when some demanded key is missing; it lists the missing keys in order and their distinct custom messages |
| Unknown.IsValidAndSomeAliasIsNotNew | lib/validation.ts:178-189 | true exactly when the key has aliases and some member of its alias group was not invented by the parser |
| Unknown.SomeNotNew | lib/validation.ts:183-188 | the scan over an alias group answers whether some member is not new |
| Unknown.ScanAsWritten | lib/validation.ts:183-187 | the scan as written succeeds exactly on a non-empty group when the key's own flag is falsy or some member is missing from `newAliases` |
| Unknown.IsValidAndSomeAliasIsNotNewAsWritten | lib/validation.ts:178-189 | the test as written holds exactly when the key has aliases and either its own flag is falsy or some member of its group is missing from `newAliases` |
| Unknown.AsWrittenDiffersFromIntent | lib/validation.ts:184 | the test as written (`newAliases[key]`) and the intended test (`newAliases[a]`) disagree on a concrete input |
| Unknown.AsWrittenAgreesWhenFlagsAreTrue | lib/validation.ts:178-189 | when every recorded flag is `true`, the test as written agrees with the intended one |
| Unknown.ScanAsWrittenAgrees | lib/validation.ts:183-187 | under the same condition, the scan as written agrees with the intended scan on a group headed by the key |
| Unknown.ScanAsWrittenTail | lib/validation.ts:183-187 | under the same condition, the scan as written over a new key's group agrees with the intended scan |
| Unknown.UnknownKeysMembers | lib/validation.ts:122-130 | the unknown keys are exactly the argument keys that are not reserved, not positional, not in the parse context and not valid aliases |
| Unknown.CollectUnknownKeys | lib/validation.ts:122-130 | the loop collects the unknown keys in key order |
| Unknown.StrayTokensMembers | lib/validation.ts:133-137 | the stray tokens are exactly the leftover positionals that name no command |
| Unknown.CollectStrayTokens | lib/validation.ts:156-160 | the loop collects the stray tokens in order |
| Unknown.UnknownArguments | lib/validation.ts:117-148 | at most one failure; one exactly when some key is unknown or, when commands are checked, some leftover token names no command; it lists the unknown keys, then the stray tokens |
| Unknown.UnknownCommands | lib/validation.ts:150-174 | reports, and answers true, exactly when commands are known or a command path is active and some leftover token names no command |
| Choices.InvalidEntriesMembers | lib/validation.ts:198-211 | one entry per inspected key with an offending value, carrying that key's offending values and its choices, and no other entries |
| Choices.OffendingListsOnlyOffenders | lib/validation.ts:201-206 | with no nested arrays, the listed values are exactly the offending ones, at most as many as given |
| Choices.OffendingOf | lib/validation.ts:201-207 | the inner loop collects the offending values, and whether there is one |
| Choices.LimitedChoices | lib/validation.ts:192-225 | nothing is reported when no choices are declared or every non-`undefined` value is among its key's choices; otherwise one failure with the entries in key order |
| Conditions.Classify | lib/validation.ts:283-295 | a count is a threshold; a name is a threshold exactly when it is decimal, otherwise a negation when it starts with `--no-` followed by a character that is not a line terminator, its key being the text after `--no-` up to the first line terminator, otherwise a plain key |
| Conditions.KeyExists | lib/validation.ts:281-298 | a count or decimal name holds exactly when there are at least that many positionals; a plain key exactly when its value is truthy; `--no-<key>` exactly when `argv[key]` is falsy, the key ending at the first line terminator |
| Conditions.TakeLine | lib/validation.ts:291 | the captured group is a prefix of the text with no line terminator, and it stops only at the end or at a line terminator |
| Conditions.TakeLineWhole | lib/validation.ts:291 | a one-line text is captured whole |
| Conditions.NegatedHoldsIffFalsy | lib/validation.ts:289-292 | `--no-<key>` holds exactly when `argv[key]` is falsy |
| Conditions.NegationFlips | lib/validation.ts:289-295 | for a plain key, `--no-<key>` holds exactly when `<key>` does not |
| Conditions.DecimalNameIsThreshold | lib/validation.ts:283-288 | a decimal string and its number are the same condition: at least that many positionals |
| Text.DecimalRoundTrip | lib/validation.ts:283-284 | reading back the decimal form of a number gives the number |
| Text.IndexOf | lib/validation.ts:31 | the first match of a pattern, or no match anywhere |
| Text.ReplaceFirstSplits | lib/validation.ts:31 | the non-global replace rewrites only the first match |
| Text.ReplaceAllSplits | lib/validation.ts:31 | the global replace rewrites the first match and continues after it |
| Text.ReplaceAllWithoutMatch | lib/validation.ts:31 | a replace without a match changes nothing |
| Rules.ImpliedPushesSpec | lib/validation.ts:269-273 | `implies` with a nested value pushes the leaves in order; it runs to the end exactly when no leaf is `undefined`, and otherwise pushes only a prefix of the leaves |
| Rules.ImpliedPushesAllSpec | lib/validation.ts:270 | the same for a list of values |
| Rules.ConflictPushesSpec | lib/validation.ts:341-345 | `conflicts` with a nested value pushes every leaf once, in order, and `undefined` exactly when some leaf is `undefined` |
| Rules.ConflictPushesAllSpec | lib/validation.ts:342 | the same for a list of values: the named pushes are the leaves, in order |
| Rules.ViolatedOfMembers | lib/validation.ts:305-314 | the violations of one key are exactly its registered targets that fail while the key holds |
| Rules.RegisteredSnoc | lib/validation.ts:303 | a registration in a longer dictionary is in its prefix or in its last entry |
| Rules.ViolatedEdgesMembers | lib/validation.ts:303-315 | the failed implications are exactly the registered pairs whose key holds and whose target does not |
| Rules.ClashesOfMembers | lib/validation.ts:353-359 | the clashes of one key are exactly its non-empty registered partners when both are defined in `argv` |
| Rules.ConflictFailuresMembers | lib/validation.ts:351-361 | the conflict failures are exactly the pairs of an argument key and a registered partner that are both defined |
| Rules.OutcomeFailures | lib/validation.ts:240-251 | one check yields one failure when it throws a value, returns a falsy value, a string or an error; none when it passes or throws `undefined`/`null` |
| Rules.ReachedSplit | lib/validation.ts:237 | the run gets past a concatenation of checks exactly when it gets past both parts |
| Rules.CheckFailuresSplit | lib/validation.ts:237-244 | the failures of a list of checks are those of its first part, then those of the second unless the first part aborted |
| Rules.CheckFailuresNone | lib/validation.ts:236-253 | nothing is reported exactly when every check that runs passes or aborts, and at most one failure per check |
| Views.KeysOf | lib/validation.ts:303 | `Object.keys` lists one key per entry |
| Views.Lookup | lib/validation.ts:266 | `dict[key]` is defined exactly when the key is present, and then it is that key's list |
| Views.RegisterSpec | lib/validation.ts:266-273 | a registration extends only the key's list, adds the key last when it was absent, and keeps keys distinct |
| Views.RegisterPresent | lib/validation.ts:273 | a registration under a present key updates that entry in place |
| Views.RegisterAbsent | lib/validation.ts:266-268 | a registration under a new key appends it |
| Views.KeysOfAt | lib/validation.ts:303 | the listed keys are the entry keys, position by position |
| Views.KeepLookup | lib/validation.ts:381-382 | the filter drops exactly the local keys and keeps every other list |
| Views.KeepMembers | lib/validation.ts:381-382 | the filter keeps exactly the non-local entries and their distinct keys |
| Registries.KeepEntriesMembers | lib/validation.ts:381-382 | `reset` keeps entries of the original, none local, and every non-local one |
| Registries.KeepEntriesWellFormed | lib/validation.ts:381-382 | after `reset`, keys stay distinct and no two keys share a list |
| Registries.KeepEntriesView | lib/validation.ts:381-382 | the contents after `reset` are the filtered contents |
| Registries.ViewOfCons | lib/validation.ts:256 | the contents of a registry are read entry by entry |
| Registries.GlobalsSpec | lib/validation.ts:383 | `reset` keeps a check exactly when it is global, keeps all of a list of global checks and none of a list of local ones |
| Registries.GlobalsSplit | lib/validation.ts:383 | the filter keeps order: filtering two lists one after the other is filtering their concatenation |
| Registries.FindKey | lib/validation.ts:266 | the position of the key's entry, or the end when it is absent |
| Registries.Bucket.constructor | lib/validation.ts:267 | a new list holds the given items |
| Registries.Table.constructor | lib/validation.ts:256 | a new registry is empty |
| Registries.Table.From | lib/validation.ts:381 | a filtered registry holds the given entries |
| Registries.Table.Append | lib/validation.ts:266-273 | one registration in place: the contents become the registered contents, only the key's list object grows, and a new key gets a fresh list |
| Registries.CheckList.constructor | lib/validation.ts:228 | a check list holds the given checks |
| Registries.Validation.constructor | lib/validation.ts:228-387 | the engine starts with empty registries and no snapshots |
| Registries.Validation.Check | lib/validation.ts:229-234 | `check` appends to the current list in place |
| Registries.Validation.Implies | lib/validation.ts:257-276 | `implies(key, value)` registers the pushed leaves in place and reports whether it ran to the end |
| Registries.Validation.ImpliesEach | lib/validation.ts:260-263 | `implies` with an object registers each pair in key order until one stops |
| Registries.Validation.Conflicts | lib/validation.ts:329-347 | `conflicts(key, value)` registers every leaf in place |
| Registries.Validation.ConflictsEach | lib/validation.ts:332-335 | `conflicts` with an object registers each pair in key order |
| Registries.Validation.GetImplied | lib/validation.ts:277-279 | returns the live registry, not a copy |
| Registries.Validation.GetConflicting | lib/validation.ts:348 | returns the live registry, not a copy |
| Registries.Validation.Reset | lib/validation.ts:380-385 | fresh registries: the non-local entries, sharing their lists, and the global checks |
| Registries.Validation.Freeze | lib/validation.ts:387-394 | pushes references to the current registries and changes nothing else |
| Registries.Validation.Unfreeze | lib/validation.ts:395-403 | pops the last snapshot and makes its registries current; fails on an empty stack |
| Registries.Validation.CustomChecks | lib/validation.ts:236-253 | runs the checks in order until one throws `undefined`/`null`, which aborts the run; nothing is reported exactly when every check that ran passed or aborted |
| Registries.RunChecks | lib/validation.ts:237-252 | the loop over the checks yields their failures in order, and stops exactly when some check aborts |
| Registries.Validation.Implications | lib/validation.ts:300-326 | at most one failure, exactly when some registered pair has its key holding and its target not; it lists those pairs |
| Registries.CollectViolated | lib/validation.ts:303-315 | the outer loop collects the violated pairs in key order |
| Registries.CollectViolatedOf | lib/validation.ts:305-314 | the inner loop collects the violated targets of one key |
| Registries.Validation.Conflicting | lib/validation.ts:350-362 | one failure per argument key and registered partner that are both defined, and no others |
| Registries.CollectConflicts | lib/validation.ts:351-361 | the outer loop collects the failures in key order |
| Registries.CollectClashes | lib/validation.ts:353-359 | the inner loop collects the clashes of one key |
| Registries.FreezeImpliesUnfreeze | lib/validation.ts:257-276 | with no `reset`, `freeze`; `implies`; `unfreeze` leaves the registration in the restored registry |
| Registries.KeptBuckets | lib/validation.ts:381 | the lists after `reset` are lists of the original, a local key's list is not kept, and a non-local key's is |
| Registries.SharedUpdate | lib/validation.ts:273 | growing the list of one present key is one registration |
| Registries.ThroughKept | lib/validation.ts:381 | seen from before `reset`, a registration after it is one registration when the key was kept and present, and nothing otherwise |
| Registries.AppendThroughKept | lib/validation.ts:381 | a registration after `reset` changes the original registry only through a shared list |
| Registries.ImpliesOnKept | lib/validation.ts:257-276 | `implies` on a filtered registry reaches the original only through the key's kept list |
| Registries.ScopedImplies | lib/validation.ts:380-403 | `freeze`; `reset`; `implies`; `unfreeze` leaves the registration in the restored registry exactly when the key was kept and already present |
| Registries.ScopedCheck | lib/validation.ts:380-403 | `freeze`; `check`; `unfreeze` keeps the added check unless a `reset` ran in between |
| Suggestions.SortByLengthSpec | lib/validation.ts:366 | the sort is a permutation, longest first, that keeps the order of equally long candidates |
| Suggestions.InsertSorted | lib/validation.ts:366 | inserting into a longest-first list keeps it longest first |
| Suggestions.InsertPermutes | lib/validation.ts:366 | inserting adds exactly the one element |
| Suggestions.InsertStable | lib/validation.ts:366 | inserting keeps the order among equally long candidates |
| Suggestions.InsertBounded | lib/validation.ts:366 | inserting keeps a length bound |
| Suggestions.OfLengthAppend | lib/validation.ts:366 | the candidates of one length in an extended list |
| Suggestions.OfLengthOfShorter | lib/validation.ts:366 | shorter candidates have none of a given length |
| Suggestions.ClosestCandidate | lib/validation.ts:368-376 | the scan finds the first candidate at the least distance within three edits, or none when all are farther |
| Suggestions.ClosestIsUnique | lib/validation.ts:372 | the strict improvement makes the chosen candidate unique |
| Suggestions.RecommendCommands | lib/validation.ts:364-378 | sorts the array in place, longest first; suggests the closest candidate unless it is empty; suggests nothing when all are more than three edits away |
| Suggestions.LongerOfTwoEquidistantWins | lib/validation.ts:366-376 | of two equally distant candidates, the longer one is suggested |

## Left out

- `lib/levenshtein.ts` is not part of this model: the edit distance is a function parameter.
- Every evaluator returns all of its failures, as if `usage.fail` returned normally. Without a custom fail handler, `usage.fail` ends the parse at the first failure, so only the first conflicting pair, or the first failing custom check, would be seen. The reporter is not part of this model.
- Message text, pluralisation and localisation (`__`, `__n`, `usage.stringifiedValues`) are left out: failures are records.
- `argsert` argument checking and `yargs.global(key)` are left out: they belong to other parts of the framework.
- The framework getters (`getDemandedCommands`, `getContext`, `getCommands`, `getOptions`, `_getParseContext`, `parsed.newAliases`) become parameters.
- Object key order: argument sets, the `implied` and `conflicting` registries, and the object forms of `implies`/`conflicts` list keys in insertion order. JavaScript's rule that integer-like keys (such as `"2"`) come first is not modelled. So Views.RegisterAbsent, Registries.Table.Append, Registries.Validation.ImpliesEach and Registries.Validation.ConflictsEach place a new integer-like key last, where JavaScript would place it first.
- Inherited (prototype) properties of `argv` and the registries are not modelled: every lookup is an own-property lookup.
- Conditions.KeyExists: only decimal-digit strings are number-like. Other strings that `Number` accepts (`" 1"`, `"0x10"`, `"1e3"`) are read as key names.
- JavaScript numbers are modelled as unbounded integers: no fractions, `NaN` or infinities.
- Registries.Validation.CustomChecks: a check that registers further checks while the loop runs, and a hole in the list that ends the loop early, are not modelled.
- Registries.Validation.CustomChecks: a check function's source text (`func.toString()`) is stored beside the function.
- Registries.Validation.CustomChecks: exceptions and `Error` results are an outcome datatype, not thrown values. The `TypeError` that `customChecks` throws when a check throws `undefined` or `null` is the `aborted` answer.
- Unknown.UnknownArguments: decides whether a key is a valid alias with the corrected test (see Findings), not the test as written. The two differ only when `newAliases` holds a `false` flag, which the parser never records (`Unknown.AsWrittenAgreesWhenFlagsAreTrue`).
- Registries.Validation.Unfreeze: popping an empty stack makes `assertNotStrictEqual` throw. The model answers `false` and leaves the state unchanged.
- Registries.Validation.Implies: the `undefined` assertion in `implies` is modelled as stopping the registration and answering `false`.
- Suggestions.SortByLengthSpec: candidates are ordered by their length in characters. JavaScript's `.length` counts UTF-16 code units, so the order can differ for command names with characters outside the Basic Multilingual Plane.
- Choices.LimitedChoices: `===` between two arrays or objects is taken to be false. A choice list and a parsed value never share a reference.

## Findings

| source | as written | input that shows it | evidently intended | confidence | as-written member | corrected member |
|---|---|---|---|---|---|---|
| lib/validation.ts:184 | the loop over the alias group `a` tests `newAliases[key]` | aliases `{k: [a]}`, newAliases `{k: true, a: false}`: the code reports no alias that is not new, yet `a` is not new | `newAliases[a]`, the member being scanned | low, not executed; the parser records only `true` flags, and then both agree (`Unknown.AsWrittenAgreesWhenFlagsAreTrue`) | Unknown.AsWrittenDiffersFromIntent | Unknown.IsValidAndSomeAliasIsNotNew |
