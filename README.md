# lib_annotation_transform — a Dafny model of the weaving pool

`lib_annotation_transform` is a Gradle plugin that weaves code at build time.
It reads the `@Inject` annotation off fields and methods of compiled classes.
It then edits other compiled classes (the *destinations*) with javassist:
- an annotated field replaces the destination's field of the same name;
- an annotated method is called from a destination method, or copied into it.

This project models the plugin's weaving engine, `CustomClassPool`, and the
pieces it leans on:

- **`Pool`** (`pool.dfy`): the class `CustomClassPool`, with its tables as fields.
  - `pathToClass` is the source's `map`: class file path to class name.
  - `pathList`, `clsList` and `targetMap` (destination name to pending directives).
  - `mapContainInsertClass`.
  - `classes`: javassist's cache of class records, by name.

  It works in three passes. Collect (`TraverseMembers`, `CollectUsedClass`) files each
  annotated member under its destination. Prepare (`InjectPrepare`, `AnonymousInterfaceCallCheck`)
  decides whether a class file matters, and redirects directives aimed at an interface to a
  class one of whose lambdas implements it. The direct search among a class's implemented
  interfaces (`InterfaceProcess`) is written as a lambda literal that is never invoked, so it
  never runs; `InjectPrepareIntended` models the search as it was evidently meant to run (see
  "## Findings"). Consume (`InjectItem`, `InjectField`,
  `InjectMethod`) weaves the directives and removes them. Every method states its new
  state through the functions of `Matching` and `Injection`. The loops written inline
  in the source are module-level methods here, each proved against a function that states its result
  (`LambdaScan`, `ScanRow`, `ParamsShiftedScan`, `AnonymousCallScan`,
  `SameParameterNames`, `GetArgsForInsertSource`).
- **`Matching`** (`matching.dfy`): the table as a value.
  - Collecting appends directives to their destination's list.
  - Redirection rules: re-aim a lone directive, or append a copy of the first.
  - The lambda test: a synthetic `lambda$` method whose parameters are an interface
    method's, shifted by one.
  - The search among implemented interfaces, used only by the intended reading of `injectPrepare`.
  - `NoInterfaceCopies`: no directive is flagged as an interface copy. Collecting and the
    lambda check keep it, so as written the twin branch of `injectMethod` is never reached.
- **`Injection`** (`injection.dfy`): the effect of a directive on the class cache.
  - Field replacement, including the static-initializer neutralisation.
  - Choice of the destination method.
  - Body placement: copy, `setBody`, `insertBefore`, `insertAfter`, catch-wrap.
  - One destination's list, woven in order until the first failed lookup.
- **`Snippets`** (`snippets.dfy`): the Java text the weaver writes.
  - The `$2,$3,…` argument list.
  - The forwarding call.
  - The declaration of a re-created field.

  Each text comes with a lemma that reads it back.
- **`Directives`** (`insert_info.dfy`): the `InsertInfo` record and its `toString`.
- **`Util`** (`util.dfy`): the configuration-line parser (`Config.GetProperties`
  fills the global properties table), the skip predicates, and the annotation's
  destination class name.
- **`MainDex`** (`main_dex.dfy`): the `mainDexList.txt` line filter.
- **`ClassModel`** and **`Strings`**: javassist's records as values, the class-path
  lookup, and the Kotlin string operations used (`split`, `startsWith`, `contains`,
  `replace`, decimal text).

javassist is modelled as values:
- A compiled class is a `CtClass` datatype: name, interface flag, interface names,
  declared and inherited fields and methods, static initializer, Kotlin flag.
- A method body is abstract: `Original`, `Copied`, `Replaced`, `Before`, `After`, `Catch`.
- A lookup (`ClassPool.get`) first searches the cache, then the appended roots in order.
- A `NotFoundException` from a class lookup (`ClassPool.get`, the destination and source
  classes, `getInterfaces`) or from `getDeclaredMethod` is an `Err` result. Type lookups are
  not modelled; see "## Left out".

Some behaviour is modelled exactly as written:
- `injectItem` weaves each directive into its own `destClassName`, not into the map key.
- A field constant of a kind other than Int, Double, String, Boolean, Long or Float
  loses the field: it is removed and nothing is added.
- The lambda test of `injectMethod` passes vacuously when no interface method has the lambda's shape.
- Polymorphic copies are never deduplicated. A class matched n times appends n copies.
- On a lambda match the file path is mapped to the interface's name, not the implementer's.
- A class that implements a targeted interface directly, without a lambda, is not kept for
  that reason: the search at CustomClassPool.kt:186-194 never runs, so `isInterfaceImpl`
  stays false and `interfaceProcess` (CustomClassPool.kt:214-244) is never called.
- No directive ever carries `isInterface = true`, so the twin-method branch of `injectMethod`
  (CustomClassPool.kt:467-470 and 515-516) is unreachable as written. `InjectMethod` still
  models that branch, for the intended reading.
- The generated field declaration keeps only the first of the field's modifiers.
- `getProperties` merges into the existing table. It does not replace it.

The model follows the code in three further points:
- copies are not deduplicated;
- an interface key needs no method-sourced directive to be lambda-redirected;
- the path of a class whose lambda implements a key interface is mapped to that interface.

## Model

| member | source | states |
|---|---|---|
| Pool.CustomClassPool.constructor | lib_annotation_transform/src/main/java/com/lib/annotation/gradle/plugin/CustomClassPool.kt:14-39 | every table starts empty and the pool invariant holds |
| Pool.CustomClassPool.AppendClassPathByFile | lib_annotation_transform/src/main/java/com/lib/annotation/gradle/plugin/CustomClassPool.kt:41-43 | the new root is appended after the earlier ones, so it is searched last |
| ClassModel.FindOnPathFirstRoot | lib_annotation_transform/src/main/java/com/lib/annotation/gradle/plugin/CustomClassPool.kt:41-43 | a lookup on the roots succeeds iff some root holds the name; it returns the class from the first such root, and the class has the name asked for |
| Pool.CustomClassPool.CollectMember | lib_annotation_transform/src/main/java/com/lib/annotation/gradle/plugin/CustomClassPool.kt:82-121 | one annotated member appends its directive under its destination key, and marks the file (or else the jar entry); an unannotated member changes nothing |
| Pool.CustomClassPool.TraverseMembers | lib_annotation_transform/src/main/java/com/lib/annotation/gradle/plugin/CustomClassPool.kt:78-124 | the table is the members' collection in member order, as given; the file is marked iff some member is annotated |
| Pool.CustomClassPool.CollectUsedClass | lib_annotation_transform/src/main/java/com/lib/annotation/gradle/plugin/CustomClassPool.kt:51-68 | declared fields are collected as field directives, then all methods as method directives; the class ends detached from the cache |
| Matching.CollectedAppends | lib_annotation_transform/src/main/java/com/lib/annotation/gradle/plugin/CustomClassPool.kt:91-112 | every key keeps its old directives, followed by one new directive per member aimed at it, in member order; a key exists afterwards iff it existed or some member aims at it |
| Matching.NewInfo | lib_annotation_transform/src/main/java/com/lib/annotation/gradle/plugin/CustomClassPool.kt:102-111 | a new directive has exactly one source member, is not an interface copy, and names the key it is filed under |
| Matching.Collected | lib_annotation_transform/src/main/java/com/lib/annotation/gradle/plugin/CustomClassPool.kt:81-124 | collecting keeps every list non-empty and every directive well formed, and adds no interface copy |
| Matching.DestKeyCompanion | lib_annotation_transform/src/main/java/com/lib/annotation/gradle/plugin/CustomClassPool.kt:87-90 | a field aimed at `Outer$Companion` is filed under `Outer`; a method keeps `Outer$Companion` |
| Pool.Marked | lib_annotation_transform/src/main/java/com/lib/annotation/gradle/plugin/CustomClassPool.kt:114-120 | the file path (else the entry name) becomes marked true iff a member was annotated; other marks are unchanged |
| Pool.ParamsShiftedScan | lib_annotation_transform/src/main/java/com/lib/annotation/gradle/plugin/CustomClassPool.kt:137-143 | the downward scan returns true iff candidate parameter i+1 equals interface parameter i for every i |
| Pool.LambdaMatchScan | lib_annotation_transform/src/main/java/com/lib/annotation/gradle/plugin/CustomClassPool.kt:135-144 | a pair matches iff the name contains `lambda$`, the return types agree, there is exactly one more parameter, and the parameters agree after the shift |
| Pool.ScanRow | lib_annotation_transform/src/main/java/com/lib/annotation/gradle/plugin/CustomClassPool.kt:134-168 | one interface method against all class methods redirects the list once per matching lambda, and reports whether any matched |
| Pool.LambdaScan | lib_annotation_transform/src/main/java/com/lib/annotation/gradle/plugin/CustomClassPool.kt:132-170 | the list is redirected once per matching (interface method, lambda) pair; it reports a match iff there is such a pair |
| Pool.Redirect | lib_annotation_transform/src/main/java/com/lib/annotation/gradle/plugin/CustomClassPool.kt:148-164 | the written-out redirection equals `RetargetOnce` |
| Matching.MatchCountPositive | lib_annotation_transform/src/main/java/com/lib/annotation/gradle/plugin/CustomClassPool.kt:133-146 | the match count is positive iff some interface method and some lambda match |
| Matching.RowMatchesPositive | lib_annotation_transform/src/main/java/com/lib/annotation/gradle/plugin/CustomClassPool.kt:134-146 | one row's count is positive iff some lambda matches that interface method |
| Matching.RetargetOnce | lib_annotation_transform/src/main/java/com/lib/annotation/gradle/plugin/CustomClassPool.kt:148-164 | a redirection keeps the list non-empty and its directives well formed; a redirection that makes plain copies adds no interface copy |
| Matching.RetargetTimesAdd | lib_annotation_transform/src/main/java/com/lib/annotation/gradle/plugin/CustomClassPool.kt:133-169 | redirecting a times and then b times is redirecting a+b times |
| Matching.RetargetTimesClosedForm | lib_annotation_transform/src/main/java/com/lib/annotation/gradle/plugin/CustomClassPool.kt:148-164 | a lone directive is re-aimed (n redirections equal one); a longer list keeps its prefix and gains n identical copies of entry 0 aimed at the implementer, with every other field copied |
| Matching.Copy | lib_annotation_transform/src/main/java/com/lib/annotation/gradle/plugin/CustomClassPool.kt:152-162 | a copy of a well-formed directive is well formed |
| Directives.Retargeted | lib_annotation_transform/src/main/java/com/lib/annotation/gradle/plugin/InsertInfo.kt:8-15 | the one mutation changes only `destClassName`; every `val` member is kept and well-formedness is preserved |
| Matching.LambdaCheckedMap | lib_annotation_transform/src/main/java/com/lib/annotation/gradle/plugin/CustomClassPool.kt:126-174 | the lambda check changes lists but never the key set, and adds no interface copy |
| Matching.LambdaChecked | lib_annotation_transform/src/main/java/com/lib/annotation/gradle/plugin/CustomClassPool.kt:131-170 | a key's list stays non-empty after the check |
| Matching.LambdaCheckedMapInvariant | lib_annotation_transform/src/main/java/com/lib/annotation/gradle/plugin/CustomClassPool.kt:126-174 | the lambda check keeps every list non-empty and well formed |
| Pool.CustomClassPool.CheckKey | lib_annotation_transform/src/main/java/com/lib/annotation/gradle/plugin/CustomClassPool.kt:130-171 | for one resolved key: it matches iff the destination is an interface one of whose methods a lambda implements; the list becomes its lambda-checked form; the path maps to the key on a match |
| Pool.CustomClassPool.AnonymousInterfaceCallCheck | lib_annotation_transform/src/main/java/com/lib/annotation/gradle/plugin/CustomClassPool.kt:126-174 | succeeds iff every key resolves; then the table is the lambda-checked table, the result says whether some key's interface has a lambda implementation, and the path maps to such a key (else it is unchanged); keys never change |
| Pool.HitsAll | lib_annotation_transform/src/main/java/com/lib/annotation/gradle/plugin/CustomClassPool.kt:144-147 | after all keys, the flag says whether any key was hit, and the path is mapped to the last key hit |
| Matching.ResolveAll | lib_annotation_transform/src/main/java/com/lib/annotation/gradle/plugin/CustomClassPool.kt:187 | the interfaces resolve iff each name resolves, in order, one class per name |
| Matching.FirstKeyed | lib_annotation_transform/src/main/java/com/lib/annotation/gradle/plugin/CustomClassPool.kt:187-193 | the index found is the first interface that is a table key; none is found iff no interface is a key |
| Pool.KeyedInterface | lib_annotation_transform/src/main/java/com/lib/annotation/gradle/plugin/CustomClassPool.kt:185-198 | intended reading only (the lines never run as written): an interface found by the search is a table key; failure to resolve the interfaces counts as none found |
| Pool.CustomClassPool.ImplementInterfaces | lib_annotation_transform/src/main/java/com/lib/annotation/gradle/plugin/CustomClassPool.kt:185-198 | intended reading only (the lines never run as written): true iff an implemented interface is a key; then its list is processed and the path maps to the interface, else nothing changes |
| Pool.CustomClassPool.InterfaceProcess | lib_annotation_transform/src/main/java/com/lib/annotation/gradle/plugin/CustomClassPool.kt:214-244 | never called as written; in the intended reading, the interface's list is redirected once (a copy flagged as interface) iff the interface and the class share a method name |
| Matching.InterfaceProcessed | lib_annotation_transform/src/main/java/com/lib/annotation/gradle/plugin/CustomClassPool.kt:214-244 | only the interface's list can change, keys never change, and the table invariant is kept |
| Pool.CustomClassPool.InjectPrepare | lib_annotation_transform/src/main/java/com/lib/annotation/gradle/plugin/CustomClassPool.kt:176-212 | as written: fails iff a key does not resolve (never for an interface class); otherwise the table holds only the lambda redirections; the class is kept iff it lambda-matches, is a key, or its path is marked, and is detached otherwise; on a lambda hit the path maps to a lambda-implemented key, else a kept class maps to its own name; no interface copy is ever created |
| Pool.RedirectedAsWritten | lib_annotation_transform/src/main/java/com/lib/annotation/gradle/plugin/CustomClassPool.kt:183-198 | the table prepared as written has the same keys, keeps the table invariant, and creates no interface copy |
| Pool.DirectImplementerDropped | lib_annotation_transform/src/main/java/com/lib/annotation/gradle/plugin/CustomClassPool.kt:183-211 | for a class `C` that implements key interface `I` directly and has no lambdas: as written the table is unchanged and `C` is not kept; as intended `I`'s directive is re-aimed at `C` and `C` is kept |
| Pool.ReadingsAgree | lib_annotation_transform/src/main/java/com/lib/annotation/gradle/plugin/CustomClassPool.kt:183-211 | whatever the written reading keeps the intended one keeps; without a directly implemented key interface the two readings give the same table and the same decision |
| Pool.CustomClassPool.InjectPrepareIntended | lib_annotation_transform/src/main/java/com/lib/annotation/gradle/plugin/CustomClassPool.kt:176-244 | intended reading: fails iff a key does not resolve; otherwise the table holds the lambda then interface redirections; the class is kept iff it implements a key interface, lambda-matches, is a key, or its path is marked; the path is filed as `PathMapped` says |
| Pool.CustomClassPool.RedirectStages | lib_annotation_transform/src/main/java/com/lib/annotation/gradle/plugin/CustomClassPool.kt:183-199 | intended reading, for a non-interface class: the lambda stage then the interface stage; each flag reports its stage, and the path maps to the interface hit (the implemented one wins) |
| Pool.CustomClassPool.Keep | lib_annotation_transform/src/main/java/com/lib/annotation/gradle/plugin/CustomClassPool.kt:201-211 | the class is kept iff one of the four conditions holds, and the path maps to the class's own name only when neither polymorphic flag is set; otherwise it is detached |
| Pool.KeptStage | lib_annotation_transform/src/main/java/com/lib/annotation/gradle/plugin/CustomClassPool.kt:181-211 | intended reading: the keep decision equals `Kept`; the path then holds one new entry naming a filing class when kept, and none otherwise |
| Pool.Redirected | lib_annotation_transform/src/main/java/com/lib/annotation/gradle/plugin/CustomClassPool.kt:183-244 | intended reading: the prepared table has the same keys and keeps the table invariant |
| Pool.CustomClassPool.InjectInsertInfo | lib_annotation_transform/src/main/java/com/lib/annotation/gradle/plugin/CustomClassPool.kt:246-259 | nothing happens when the table is empty, or the path is null, empty or unmapped; otherwise it is `injectItem` on the mapped class name |
| Pool.CustomClassPool.InjectItem | lib_annotation_transform/src/main/java/com/lib/annotation/gradle/plugin/CustomClassPool.kt:261-300 | an absent key gives false and changes nothing; otherwise it fails iff weaving the list fails, and on success the result is true, the cache is the list woven in order, and the key is removed with every other key unchanged |
| Pool.CustomClassPool.InjectOne | lib_annotation_transform/src/main/java/com/lib/annotation/gradle/plugin/CustomClassPool.kt:270-288 | one directive: look up its own `destClassName` (not the key), then weave its field or method |
| Injection.ApplyOne | lib_annotation_transform/src/main/java/com/lib/annotation/gradle/plugin/CustomClassPool.kt:270-288 | a directive that succeeds leaves the cache filed by name |
| Injection.ApplyAll | lib_annotation_transform/src/main/java/com/lib/annotation/gradle/plugin/CustomClassPool.kt:268-290 | weaving the list in order keeps the cache filed by name |
| Injection.ApplyAllFrame | lib_annotation_transform/src/main/java/com/lib/annotation/gradle/plugin/CustomClassPool.kt:268-290 | a class that no directive of the list names as destination or method source is not changed by the pass |
| Pool.ApplyAllStopsAtFailure | lib_annotation_transform/src/main/java/com/lib/annotation/gradle/plugin/CustomClassPool.kt:268-290 | if a prefix of the list fails, the whole pass fails |
| Pool.ApplyAllStep | lib_annotation_transform/src/main/java/com/lib/annotation/gradle/plugin/CustomClassPool.kt:268-290 | the pass over n+1 directives is the pass over n, then the next directive |
| Pool.WeavingStep | lib_annotation_transform/src/main/java/com/lib/annotation/gradle/plugin/CustomClassPool.kt:280-289 | removing a woven directive keeps the loop's progress invariant: the first n+1 are woven and the list holds the rest |
| Pool.WeavingFails | lib_annotation_transform/src/main/java/com/lib/annotation/gradle/plugin/CustomClassPool.kt:270-285 | a failed directive makes the whole list fail, and the directives left are still well formed |
| Pool.WeavingDone | lib_annotation_transform/src/main/java/com/lib/annotation/gradle/plugin/CustomClassPool.kt:269-292 | an emptied list means the whole list was woven |
| Injection.Pending | lib_annotation_transform/src/main/java/com/lib/annotation/gradle/plugin/CustomClassPool.kt:280-289 | under well-formedness no directive is left pending, because each has a field or a method |
| Injection.ConsumedRemovesKey | lib_annotation_transform/src/main/java/com/lib/annotation/gradle/plugin/CustomClassPool.kt:261-300 | consuming removes the key and only that key, leaves other lists as they were, is idempotent and keeps the table invariant |
| Pool.CustomClassPool.InjectField | lib_annotation_transform/src/main/java/com/lib/annotation/gradle/plugin/CustomClassPool.kt:302-343 | the patched class equals `FieldInjected` of the destination |
| Injection.FieldIndex | lib_annotation_transform/src/main/java/com/lib/annotation/gradle/plugin/CustomClassPool.kt:309-310 | the index is the first field with that name; none iff no field has it |
| Injection.FieldInjectedEffect | lib_annotation_transform/src/main/java/com/lib/annotation/gradle/plugin/CustomClassPool.kt:310-331 | the first field of that name is removed and the other fields keep their order; the replacement, if any, comes last; the count of fields with the name changes only by the replacement; the static initializer no longer accesses the field |
| Injection.FieldInjectedFrame | lib_annotation_transform/src/main/java/com/lib/annotation/gradle/plugin/CustomClassPool.kt:302-343 | only the fields and the static initializer change, and nothing changes when no field of that name exists |
| Injection.Neutralize | lib_annotation_transform/src/main/java/com/lib/annotation/gradle/plugin/CustomClassPool.kt:319-326 | each access to the field becomes an empty block; other statements stay in place |
| Injection.ReplacementForms | lib_annotation_transform/src/main/java/com/lib/annotation/gradle/plugin/CustomClassPool.kt:327-331 | with no type override and a constant, the copy gets the constant, and there is no field for a non-handled kind; otherwise the field is compiled with the override type (or the old one) and at most one of the old modifiers; the name is kept |
| Injection.CountNamedSplit | lib_annotation_transform/src/main/java/com/lib/annotation/gradle/plugin/CustomClassPool.kt:309-316 | counting fields by name distributes over concatenation |
| Injection.CountRemoveAt | lib_annotation_transform/src/main/java/com/lib/annotation/gradle/plugin/CustomClassPool.kt:316 | removing a field of that name lowers the count by one |
| Snippets.KeptModifier | lib_annotation_transform/src/main/java/com/lib/annotation/gradle/plugin/CustomClassPool.kt:348-359 | the re-created field has at most one modifier, taken from the old ones |
| Snippets.FieldDeclarationReadsBack | lib_annotation_transform/src/main/java/com/lib/annotation/gradle/plugin/CustomClassPool.kt:345-376 | the declaration splits into at most one modifier word, then the type, the name and `=`, then the initializer's words |
| Snippets.DeclarationTailWords | lib_annotation_transform/src/main/java/com/lib/annotation/gradle/plugin/CustomClassPool.kt:360-374 | `type name = init` splits into type, name, `=` and the words of init |
| Snippets.KeywordShape | lib_annotation_transform/src/main/java/com/lib/annotation/gradle/plugin/CustomClassPool.kt:348-359 | the modifier keyword is nothing, or one space-free word and a space |
| Pool.CustomClassPool.InjectMethod | lib_annotation_transform/src/main/java/com/lib/annotation/gradle/plugin/CustomClassPool.kt:406-537 | the result equals `MethodInjected`: the new cache, or the lookup that failed |
| Pool.AnonymousCallScan | lib_annotation_transform/src/main/java/com/lib/annotation/gradle/plugin/CustomClassPool.kt:424-435 | true iff every interface method with the lambda's shape has the lambda's parameters after its first, and so true when no method has that shape |
| Pool.SameParameterNames | lib_annotation_transform/src/main/java/com/lib/annotation/gradle/plugin/CustomClassPool.kt:438-458 | true iff both parameter lists have the same length and the same type names in order |
| Injection.FirstSelected | lib_annotation_transform/src/main/java/com/lib/annotation/gradle/plugin/CustomClassPool.kt:421-459 | the chosen method is the first that is an anonymous-call lambda or the named method with the source's parameters; none iff no method qualifies |
| Injection.MethodInjectedOutcome | lib_annotation_transform/src/main/java/com/lib/annotation/gradle/plugin/CustomClassPool.kt:411-470 | fails with the annotation's class when it does not resolve; with no method chosen nothing changes; otherwise it fails iff the source class, or for an interface directive its twin method, is missing |
| Injection.MethodInjectedFrame | lib_annotation_transform/src/main/java/com/lib/annotation/gradle/plugin/CustomClassPool.kt:462-528 | success changes only method bodies, only in the destination and the source class, and keeps the cache filed by name |
| Pool.CustomClassPool.InjectSelected | lib_annotation_transform/src/main/java/com/lib/annotation/gradle/plugin/CustomClassPool.kt:461-534 | after a method is chosen, the result equals `MethodInjected` |
| Injection.ResolveDest | lib_annotation_transform/src/main/java/com/lib/annotation/gradle/plugin/CustomClassPool.kt:271 | the lookup fails iff the destination is null or does not resolve |
| ClassModel.DeclaredMethodIndex | lib_annotation_transform/src/main/java/com/lib/annotation/gradle/plugin/CustomClassPool.kt:467-470 | the twin is the first declared method with that name and those parameter types; none iff there is none |
| Pool.GetArgsForInsertSource | lib_annotation_transform/src/main/java/com/lib/annotation/gradle/plugin/CustomClassPool.kt:539-554 | the string built in the loop equals `ArgsText`: `$2,…,$n` for an anonymous call with n ≥ 2 parameters, else `$$` |
| Snippets.ArgsTextReadsBack | lib_annotation_transform/src/main/java/com/lib/annotation/gradle/plugin/CustomClassPool.kt:539-554 | split at commas, the argument text is exactly `$2` … `$n` in order, so it never names the receiver; otherwise it is `$$` |
| Snippets.ArgRefReadsBack | lib_annotation_transform/src/main/java/com/lib/annotation/gradle/plugin/CustomClassPool.kt:547 | `$i` reads back as `$` and the decimal i, with no comma |
| Snippets.TerminatedIsJoinPlusComma | lib_annotation_transform/src/main/java/com/lib/annotation/gradle/plugin/CustomClassPool.kt:546-551 | the references, each followed by a comma, equal their comma join plus one trailing comma |
| Pool.CustomClassPool.CallCode | lib_annotation_transform/src/main/java/com/lib/annotation/gradle/plugin/CustomClassPool.kt:473-493 | the code built equals `CallSnippet` |
| Snippets.CallSnippetForms | lib_annotation_transform/src/main/java/com/lib/annotation/gradle/plugin/CustomClassPool.kt:474-493 | the snippet is empty iff no call is possible (a Kotlin class without `INSTANCE`, or a method that is not public static); otherwise it is `C.INSTANCE.m(args);` or `C.m(args);`, or for a boolean source `if (call) return;` |
| Pool.CustomClassPool.PlaceCode | lib_annotation_transform/src/main/java/com/lib/annotation/gradle/plugin/CustomClassPool.kt:500-528 | the cache built equals `Placement` |
| Injection.Placement | lib_annotation_transform/src/main/java/com/lib/annotation/gradle/plugin/CustomClassPool.kt:500-528 | only bodies change, only in the destination and the source class; other destination methods are untouched unless the source class is the destination; a configured catch clause wraps the chosen body |
| Injection.PlacedWraps | lib_annotation_transform/src/main/java/com/lib/annotation/gradle/plugin/CustomClassPool.kt:500-522 | the current body survives, with code before or after it, iff a call was generated, `replace` is off, and a `before` edit did not go to the twin |
| Injection.NewBody | lib_annotation_transform/src/main/java/com/lib/annotation/gradle/plugin/CustomClassPool.kt:523-528 | a non-empty catch clause always wraps the new body |
| Injection.WithBody | lib_annotation_transform/src/main/java/com/lib/annotation/gradle/plugin/CustomClassPool.kt:504-521 | a body edit changes that method's body and nothing else in the class |
| Pool.PlacedAsSpecified | lib_annotation_transform/src/main/java/com/lib/annotation/gradle/plugin/CustomClassPool.kt:500-528 | the step-by-step edits of `PlaceCode` compose to `Placement` |
| Pool.CustomClassPool.Release | lib_annotation_transform/src/main/java/com/lib/annotation/gradle/plugin/CustomClassPool.kt:556-576 | every table is emptied, the roots are removed and the cache is cleared |
| Pool.CustomClassPool.IsTarget | lib_annotation_transform/src/main/java/com/lib/annotation/gradle/plugin/CustomClassPool.kt:578 | a class is a target iff it still has pending directives |
| Util.Config.constructor | lib_annotation_transform/src/main/java/com/lib/annotation/gradle/plugin/Util.kt:25-26 | the properties table starts empty and logging off |
| Util.Config.GetProperties | lib_annotation_transform/src/main/java/com/lib/annotation/gradle/plugin/Util.kt:28-46 | a missing file changes nothing; otherwise the table is the old table updated by the lines in order, and `logEnable` holds iff `log_enable` lists `true` |
| Util.ParseLinesLastWins | lib_annotation_transform/src/main/java/com/lib/annotation/gradle/plugin/Util.kt:33-41 | after parsing, a key holds the comma-split value of its last setting line, or its old value when no line sets it; other lines change nothing |
| Util.ParseLinesSnoc | lib_annotation_transform/src/main/java/com/lib/annotation/gradle/plugin/Util.kt:35-41 | parsing one more line is parsing the rest, then that line |
| Util.SettingShape | lib_annotation_transform/src/main/java/com/lib/annotation/gradle/plugin/Util.kt:36-37 | a line is a setting iff it has exactly one `=`, and it is then `key=value` |
| Util.IsFilterPackage | lib_annotation_transform/src/main/java/com/lib/annotation/gradle/plugin/Util.kt:48-50 | true iff the name equals a `skip_package` value; false when the key is absent |
| Util.IsIgnoreFileName | lib_annotation_transform/src/main/java/com/lib/annotation/gradle/plugin/Util.kt:52-68 | true for a name not ending in `.class`; a `.class` name is ignored iff it starts with a configured prefix or contains a configured substring; with neither key configured it is kept |
| Util.IsIgnoreFile | lib_annotation_transform/src/main/java/com/lib/annotation/gradle/plugin/Util.kt:70-72 | directories are ignored; any other file is ignored iff its name is |
| Util.Match | lib_annotation_transform/src/main/java/com/lib/annotation/gradle/plugin/Util.kt:82-89 | true iff the path contains a value configured for the key; false when the key is absent |
| Util.IsIgnoreJar | lib_annotation_transform/src/main/java/com/lib/annotation/gradle/plugin/Util.kt:74-76 | true iff the path contains a `skip_jar_path_contain` value |
| Util.IsKeepJar | lib_annotation_transform/src/main/java/com/lib/annotation/gradle/plugin/Util.kt:78-80 | true iff the path contains a `keep_jar_path_contain` value |
| Util.AnyPrefixOf | lib_annotation_transform/src/main/java/com/lib/annotation/gradle/plugin/Util.kt:56-60 | the scan finds a hit iff some value is a prefix of the name |
| Util.AnyContainedIn | lib_annotation_transform/src/main/java/com/lib/annotation/gradle/plugin/Util.kt:62-66 | the scan finds a hit iff some value is a substring of the text |
| Util.TargetClassName | lib_annotation_transform/src/main/java/com/lib/annotation/gradle/plugin/Util.kt:91-98 | `classPath` when it is non-empty, else the `target` class value, else the empty string |
| Directives.ToString | lib_annotation_transform/src/main/java/com/lib/annotation/gradle/plugin/InsertInfo.kt:17-21 | the text starts with destClassName then srcClassName, and ends with isInterface |
| Strings.DecimalRoundTrip | lib_annotation_transform/src/main/java/com/lib/annotation/gradle/plugin/CustomClassPool.kt:547 | the decimal text of n is all digits and parses back to n |
| Strings.SplitJoin | lib_annotation_transform/src/main/java/com/lib/annotation/gradle/plugin/Util.kt:36-38 | splitting a join of delimiter-free pieces gives the pieces back |
| Strings.JoinSplit | lib_annotation_transform/src/main/java/com/lib/annotation/gradle/plugin/Util.kt:36-38 | joining the pieces of a split gives the text back |
| Strings.SplitCount | lib_annotation_transform/src/main/java/com/lib/annotation/gradle/plugin/Util.kt:36-37 | a split has one piece more than there are delimiters |
| Strings.SplitPiecesHaveNoDelimiter | lib_annotation_transform/src/main/java/com/lib/annotation/gradle/plugin/Util.kt:36-38 | no piece of a split contains the delimiter |
| Strings.RemoveAllTrailing | lib_annotation_transform/src/main/java/com/lib/annotation/gradle/plugin/CustomClassPool.kt:88-90 | removing every occurrence of a suffix that occurs only at the end strips exactly that suffix |
| Strings.ContainsIffOccurs | lib_annotation_transform/src/main/java/com/lib/annotation/gradle/plugin/Util.kt:63 | `contains` holds iff the substring occurs at some position |
| MainDex.IsNotMatch | lib_annotation_transform/src/main/java/com/lib/annotation/gradle/plugin/MainDexGenerator.kt:24-31 | true iff no excluded item is a substring of the line; true for an empty exclusion list |
| MainDex.Kept | lib_annotation_transform/src/main/java/com/lib/annotation/gradle/plugin/MainDexGenerator.kt:15-17 | every kept line passes the filter, and every input line that passes is kept |
| MainDex.KeptMultiplicity | lib_annotation_transform/src/main/java/com/lib/annotation/gradle/plugin/MainDexGenerator.kt:15-17 | a line that passes is kept exactly as many times as it occurs in the input, and a line that fails not at all |
| MainDex.KeptIsOrderedSubsequence | lib_annotation_transform/src/main/java/com/lib/annotation/gradle/plugin/MainDexGenerator.kt:15-17 | the kept lines are a subsequence of the input in original order, none contains an excluded item, and with no exclusions all lines are kept |
| MainDex.Execute | lib_annotation_transform/src/main/java/com/lib/annotation/gradle/plugin/MainDexGenerator.kt:12-22 | only the first input whose path ends with `mainDexList.txt` is rewritten to its kept lines; every other input is unchanged |

## Left out

- File and jar I/O are left out. This covers reading class files and the configuration file,
  `writeFile` into `directoryName`, `Files.write`, the config file's location, and the
  system class path. Contents are passed in as values: lines, class records and roots.
- Logging is left out: `log`, `println`, `logCollectResult` and the `CustomLogger`.
  It has no effect on the tables.
- `AnnotationPlugin.kt` is not part of this model. It is the Gradle transform that calls the pool
  in the order collect, prepare, inject.
- javassist internals are abstract:
  - real bytecode;
  - compiling the generated text (`CtField.make` errors, `setBody`/`insertBefore`/`insertAfter`
    compile errors, `addCatch` compile errors);
  - `defrost`/frozen state;
  - `cacheOpenedJarFile`;
  - `removeClassPath` (`Release` only empties `pathList`);
  - the `Throwable` lookup of `addCatch`;
  - `addLocalVariable("this", …)`, which is recorded as a flag of the copied body.
- A lookup does not add the found class to the cache. The cache holds only the classes the
  pool made or edited.
- `toString` of `CtField`/`CtMethod` is left out. In `Directives.ToString` a member prints as its name.
- Directives.ToString: states the fixed head and tail of the text, not every middle segment.
- `getAnnotationClassValue` reads bytecode attributes. It is left out: the annotation's
  `target` class name is a field of the `Inject` record.
- The branch at CustomClassPool.kt:506-510 is unreachable, because `code` is non-empty there.
  It is folded into the `replace` case.
- Pool.CustomClassPool.InjectItem: does not model the `isNullOrEmpty` early return or a
  directive with neither field nor method. Neither can occur: the table invariant keeps every
  list non-empty, and every collected directive has exactly one source member.
- Pool.CustomClassPool.InjectItem: after a failed lookup it states only the pool invariant.
  It does not state what the earlier directives already changed.
- Pool.CustomClassPool.InjectPrepare: after an exception it states only the pool invariant and
  that no interface copy appeared. It does not state the partial redirections that
  `anonymousInterfaceCallCheck` made before the key that failed.
- Pool.KeyedInterface: in the intended reading, an exception while resolving the implemented
  interfaces is taken to be swallowed by `runCatching`; the model then finds no interface. As
  written the search never runs, so nothing there can throw.
- Pool.CustomClassPool.AnonymousInterfaceCallCheck: the iteration order of the key set is a
  nondeterministic choice. With several lambda-matched keys, the key the path ends up mapped to
  is stated as "one of them".
- `Fields`/`Methods` (javassist `getFields`/`getMethods`) take the inherited members as a list
  stored on the class record. They are not computed from the superclass chain, because superclasses
  are not part of the model.
- `Methods` lists the non-private declared methods in declaration order, then the inherited
  list. javassist's `getMethods` promises no order: it gathers the methods in a hash map keyed
  by signature, so an overriding method hides the inherited one, and the result comes out in
  hash order. The model does not capture that order or that deduplication. The order
  `CollectUsedClass` (CustomClassPool.kt:65) files method directives in is therefore one
  possible order. It fixes the weaving order of a destination's list and which directive is
  entry 0, the one a redirection copies. The model does not merge a declared method with an
  inherited one of the same signature; the record's inherited list must leave such methods out
  for the result to match javassist's.
- Type lookups are not modelled. `CtMethod.getReturnType`/`getParameterTypes` and
  `CtField.getType` resolve each type name through the pool and throw `NotFoundException`
  when a class is missing (CustomClassPool.kt:106, 136-139, 363, 426-428, 439-440, 480, 489,
  546). The model compares type names as strings and assumes every referenced type resolves,
  so collecting, `injectPrepare` and `injectMethod` never fail on that path. The model also
  assumes one pool gives one `CtClass` per name, so the source's `==` on `CtClass` (identity)
  is name equality here.
- Pool.CustomClassPool.InjectField: does not model the type check of javassist's
  `addField(field, Initializer.constant(v))` in `addFieldByCopy` (CustomClassPool.kt:384-403). That
  check throws `CannotCompileException` when the constant's kind does not fit the field's type, for
  example an Int constant for a `long` or `java.lang.Integer` field. By then the old field has been
  removed and the static initializer edited (CustomClassPool.kt:316-326), and the exception leaves
  `injectItem` with the directive still in its list. The model assumes the constant fits, so
  `InjectField`, `FieldInjected` and `ApplyAll` report success on such an input.
- Kotlin's 32-bit `Int` parameter counts are unbounded here. Sizes never approach the limit.

## Findings

| source | as written | input that shows it | evidently intended | confidence | as-written member | corrected member |
|---|---|---|---|---|---|---|
| lib_annotation_transform/src/main/java/com/lib/annotation/gradle/plugin/CustomClassPool.kt:185-195 | `run@ { … }` inside `runCatching` is a labelled lambda literal; it is the block's value and is never invoked, so the interface search, `isInterfaceImpl` and `interfaceProcess` have no effect | table `{"I": [d]}` with `d` a field directive aimed at interface `I`; class `C` implements `I`, declares `run()` like `I`, and has no lambdas; `C` is not a key and its path is unmarked | `C` is kept, its path filed under `I`, and `d` re-aimed at `C` | high (not executed) | Pool.DirectImplementerDropped | Pool.CustomClassPool.InjectPrepareIntended |
