# PickupLimit limit-group builder — a Dafny model

PickupLimit is a game modification that caps how many of certain items a
player may carry. Limit groups are assembled with a fluent builder,
`AbstractLimitBuilder`, which accumulates a group's configuration: name and
default limit, member stacks, a failed-pickup message, an optional limit
function, armor and bauble (accessory) limit adjustments, game-stage limit
overrides kept in insertion order, and per-stage removals of member stacks.
This project models that accumulation logic, plus the translation-key helper
`StringHelper.getTranslationKey`, and proves what each mutator does and what a
whole chain of mutator calls leaves in the builder.

Modules:

- `Options` (`options.dfy`): `Option`, standing for a Java reference that may be null.
- `Stacks` (`stacks.dfy`): item stacks as values with an object identity
  (`ref`), an emptiness flag and an item with a bauble flag; `WithoutEmpty`,
  the `removeIf(ItemStack::isEmpty)` filter.
- `LinkedMaps` (`linked_maps.dfy`): a `LinkedHashMap` as a sequence of
  key/value entries; `Put` keeps the position of an existing key and appends a
  new one.
- `LimitBuilder` (`limit_builder.dfy`): the builder state `Builder`, the
  invariant `Valid`, the frame predicate `AgreeExcept`, the constructor and
  every mutator as a pure function returning the updated builder.
- `BuilderCalls` (`builder_calls.dfy`): a chain of mutator calls (`Call`,
  `Run`) and one lemma per field saying what the chain leaves there; the same
  chain as the code is written (`RunAsWritten`), which stops at a throwing call.
- `TranslationKeys` (`translation_keys.dfy`): the key builder, as a function
  and as a loop that mirrors the `StringBuilder` code, with its properties and
  a parser that reads the parameters back.
- `SeqLemmas` (`seq_lemmas.dfy`): small sequence facts used by the proofs.

Points where the code behaves differently from what one might expect, and which the model follows:

- Member stacks are a list, not a set. Duplicates are kept in order
  (AbstractLimitBuilder.java:21, 64-67).
- Re-adding a stage that already has an override does not move it to the end
  of the priority order. Java's `LinkedHashMap.put` keeps an existing key in
  its place and only replaces its value (AbstractLimitBuilder.java:164). So a
  re-added stage does not outrank stages added after its first insertion.
- A staged removal with no stacks at all creates an empty entry for a new
  stage (AbstractLimitBuilder.java:185-190).
- A staged removal throws in two cases, listed under Findings below. The list
  built from the argument array is a fixed-size view of that array. So removing
  an empty stack from it throws, and so does appending to the list an earlier
  call stored for the same stage (AbstractLimitBuilder.java:185-188). Only a
  call with no empty stack for a new stage, or a call with no stacks, completes.
  The model keeps both versions. `AddStagedStackGroupRemovalAsWritten` and
  `RunAsWritten` follow the code. `AddStagedStackGroupRemoval` and `Run` give
  the evidently intended result, and the other lemmas about chains use them.
- The bauble adjustment methods are gated on the gamestages mod id, not the
  baubles one (AbstractLimitBuilder.java:128, 148). Mod gating is not
  modelled, so this has no effect on the model.

## Model

| member | source | states |
|---|---|---|
| LimitBuilder.NewBuilder | src/main/java/com/invadermonky/pickuplimit/limits/util/AbstractLimitBuilder.java:19-33 | a new builder holds the given name and default limit, no limit function, no message, no member stacks and empty adjustment, override and removal maps; it satisfies the builder invariant |
| LimitBuilder.AddStacksToGroup | src/main/java/com/invadermonky/pickuplimit/limits/util/AbstractLimitBuilder.java:64-67 | the old member list is a prefix of the new one, the part after it is exactly the added stacks, duplicates are kept (multiset union), and no other field changes |
| LimitBuilder.SetLimitMessage | src/main/java/com/invadermonky/pickuplimit/limits/util/AbstractLimitBuilder.java:76-81 | a null message leaves the builder unchanged; a non-null one becomes the message; no other field changes |
| LimitBuilder.SetItemLimitValueFunction | src/main/java/com/invadermonky/pickuplimit/limits/util/AbstractLimitBuilder.java:93-96 | the limit function becomes exactly the argument, null included, and no other field changes |
| LimitBuilder.AddArmorLimitAdjustment | src/main/java/com/invadermonky/pickuplimit/limits/util/AbstractLimitBuilder.java:111-118 | a non-empty stack maps to the adjustment afterwards and the key set gains only that stack; other keys keep their values; an empty stack leaves the builder unchanged; only the armor map may change; the invariant is kept |
| LimitBuilder.AddBaubleLimitAdjustment | src/main/java/com/invadermonky/pickuplimit/limits/util/AbstractLimitBuilder.java:129-136 | a stack that is non-empty and a bauble maps to the adjustment afterwards; any other stack leaves the builder unchanged; other keys keep their values; the armor map is never touched; the invariant is kept |
| LimitBuilder.AddStageLimitOverride | src/main/java/com/invadermonky/pickuplimit/limits/util/AbstractLimitBuilder.java:163-166 | the stage reads back the new limit and other stages keep theirs; a new stage is appended to the order, while an existing stage keeps its position; stage names stay distinct; no other field changes |
| LimitBuilder.AddStagedStackGroupRemoval | src/main/java/com/invadermonky/pickuplimit/limits/util/AbstractLimitBuilder.java:184-193 | the intended removal: the stage's entry becomes its old entry (or nothing) followed by the non-empty given stacks in order, and exactly those stacks are added; a new stage gains an entry even when every given stack was empty; other stages' entries are unchanged; no entry ever holds an empty stack |
| LimitBuilder.AddStagedStackGroupRemovalAsWritten | src/main/java/com/invadermonky/pickuplimit/limits/util/AbstractLimitBuilder.java:184-193 | the removal as written throws exactly when a given stack is empty or when the stage already has an entry and at least one stack is given; a call that completes gives the intended result, which stores the stacks as given for a new stage and leaves the builder unchanged for an existing one |
| LimitBuilder.EmptyStackRemovalThrows | src/main/java/com/invadermonky/pickuplimit/limits/util/AbstractLimitBuilder.java:185-186 | a removal with one empty stack throws as written, while the intended removal stores an empty entry |
| LimitBuilder.SecondRemovalThrows | src/main/java/com/invadermonky/pickuplimit/limits/util/AbstractLimitBuilder.java:187-188 | a second removal call for the same stage throws as written, while the intended one appends, giving both stacks in call order |
| Stacks.WithoutEmpty | src/main/java/com/invadermonky/pickuplimit/limits/util/AbstractLimitBuilder.java:185-186 | the intended filter: the result holds no empty stack; each non-empty stack occurs as often as in the input and each empty stack not at all |
| Stacks.WithoutEmptyAppend | src/main/java/com/invadermonky/pickuplimit/limits/util/AbstractLimitBuilder.java:185-186 | filtering a concatenation is the concatenation of the filtered parts, so the kept stacks stay in input order |
| Stacks.WithoutEmptyKeepsNonEmpty | src/main/java/com/invadermonky/pickuplimit/limits/util/AbstractLimitBuilder.java:185-186 | a list without empty stacks passes through the filter unchanged |
| LinkedMaps.Put | src/main/java/com/invadermonky/pickuplimit/limits/util/AbstractLimitBuilder.java:164 | the key order is unchanged when the key is present; otherwise the key is appended at the end |
| LinkedMaps.PutThenGet | src/main/java/com/invadermonky/pickuplimit/limits/util/AbstractLimitBuilder.java:164 | after a put, the key reads back the value just stored |
| LinkedMaps.PutKeepsOtherKeys | src/main/java/com/invadermonky/pickuplimit/limits/util/AbstractLimitBuilder.java:164 | a put leaves every other key's value as it was |
| LinkedMaps.PutKeepsOtherEntries | src/main/java/com/invadermonky/pickuplimit/limits/util/AbstractLimitBuilder.java:164 | every entry for another key stays at its index, unchanged |
| LinkedMaps.PutAllLastWriteWins | src/main/java/com/invadermonky/pickuplimit/limits/util/AbstractLimitBuilder.java:153-166 | after a chain of puts each key holds the value of the last call that named it, or its old value if no call named it |
| LinkedMaps.PutAllFreshKeysInCallOrder | src/main/java/com/invadermonky/pickuplimit/limits/util/AbstractLimitBuilder.java:153-166 | putting new, pairwise distinct keys leaves them after the existing keys, in call order |
| BuilderCalls.Run | src/main/java/com/invadermonky/pickuplimit/limits/util/AbstractLimitBuilder.java:19-20 | no chain of calls changes the group name or the default limit, and none breaks the builder invariant |
| BuilderCalls.ReachableBuildersAreValid | src/main/java/com/invadermonky/pickuplimit/limits/util/AbstractLimitBuilder.java:111-193 | every builder reachable from the constructor satisfies the invariant, so no staged removal list ever holds an empty stack |
| BuilderCalls.RunGroupStacks | src/main/java/com/invadermonky/pickuplimit/limits/util/AbstractLimitBuilder.java:64-67 | the member list is the initial list followed by all added stacks, in call order, whatever other calls are interleaved |
| BuilderCalls.RunLastMessageWins | src/main/java/com/invadermonky/pickuplimit/limits/util/AbstractLimitBuilder.java:76-81 | the message is the last non-null message set, or the initial one when none was set; null messages never erase it |
| BuilderCalls.RunLastFunctionWins | src/main/java/com/invadermonky/pickuplimit/limits/util/AbstractLimitBuilder.java:93-96 | the limit function is the argument of the last setter call, null included, or the initial one |
| BuilderCalls.RunArmorAdjustments | src/main/java/com/invadermonky/pickuplimit/limits/util/AbstractLimitBuilder.java:111-118 | each armor stack holds the adjustment of its last accepted call; rejected (empty) stacks and bauble calls leave no trace |
| BuilderCalls.RunBaubleAdjustments | src/main/java/com/invadermonky/pickuplimit/limits/util/AbstractLimitBuilder.java:129-136 | each bauble stack holds the adjustment of its last accepted call; empty or non-bauble stacks leave no trace |
| BuilderCalls.RunStageOverrides | src/main/java/com/invadermonky/pickuplimit/limits/util/AbstractLimitBuilder.java:163-166 | the override map is exactly the result of the override calls' puts, in call order; other calls do not touch it |
| BuilderCalls.StageOrderFollowsCalls | src/main/java/com/invadermonky/pickuplimit/limits/util/AbstractLimitBuilder.java:153-166 | on a new builder, stages added under distinct names appear in the override order exactly in call order |
| BuilderCalls.StageOverrideLastWriteWins | src/main/java/com/invadermonky/pickuplimit/limits/util/AbstractLimitBuilder.java:163-165 | each stage holds the limit of its last override call |
| BuilderCalls.RunStagedRemovalKeys | src/main/java/com/invadermonky/pickuplimit/limits/util/AbstractLimitBuilder.java:184-193 | under the intended removal, a stage has a removal entry exactly when it had one before or some removal call named it |
| BuilderCalls.RunStagedRemovals | src/main/java/com/invadermonky/pickuplimit/limits/util/AbstractLimitBuilder.java:184-193 | under the intended removal, a stage's removal entry is its old entry followed by every non-empty stack passed for that stage, in call order |
| BuilderCalls.StepAsWritten | src/main/java/com/invadermonky/pickuplimit/limits/util/AbstractLimitBuilder.java:64-193 | one call as written either throws, which only a staged removal can do, or gives the intended call's builder; a call that completes keeps every existing removal entry as it was |
| BuilderCalls.RunAsWritten | src/main/java/com/invadermonky/pickuplimit/limits/util/AbstractLimitBuilder.java:64-193 | a chain as written that completes leaves the same builder as the intended chain |
| BuilderCalls.RunWithoutRemovalsCompletes | src/main/java/com/invadermonky/pickuplimit/limits/util/AbstractLimitBuilder.java:64-166 | a chain without staged removals always completes as written, with the intended builder |
| BuilderCalls.AsWrittenRemovalsFrozen | src/main/java/com/invadermonky/pickuplimit/limits/util/AbstractLimitBuilder.java:187-188 | as written, once a stage has a removal entry no completed chain changes it |
| TranslationKeys.TranslationKey | src/main/java/com/invadermonky/pickuplimit/util/StringHelper.java:6-12 | the key starts with `type.modid:unloc`, and with no parameters it is exactly that |
| TranslationKeys.GetTranslationKey | src/main/java/com/invadermonky/pickuplimit/util/StringHelper.java:6-12 | the loop yields the prefix followed by `.` and each parameter in order; its length is the lengths of type, mod id and unloc, plus 2, plus the sum of each parameter's length plus 1 |
| TranslationKeys.ParamSuffixSnoc | src/main/java/com/invadermonky/pickuplimit/util/StringHelper.java:8-10 | adding a parameter at the end appends exactly `.` and that parameter to the parameter text |
| TranslationKeys.AppendParam | src/main/java/com/invadermonky/pickuplimit/util/StringHelper.java:8-10 | one more parameter extends the previous key by exactly `.` and that parameter |
| TranslationKeys.KeyLength | src/main/java/com/invadermonky/pickuplimit/util/StringHelper.java:7-10 | the key's length is the lengths of type, mod id and unloc, plus 2, plus the sum of each parameter's length plus 1 |
| TranslationKeys.ParamsRoundTrip | src/main/java/com/invadermonky/pickuplimit/util/StringHelper.java:8-10 | parameters without dots are recovered exactly by splitting the text they add on dots |
| TranslationKeys.KeyDeterminesParams | src/main/java/com/invadermonky/pickuplimit/util/StringHelper.java:7-11 | given its prefix, a key with dot-free parameters determines those parameters |
| TranslationKeys.DottedParamsCollide | src/main/java/com/invadermonky/pickuplimit/util/StringHelper.java:8-10 | a parameter that contains a dot gives the same key as two parameters, so dot-free parameters are needed for the round trip |

## Left out

- `build()` and `getThis()` are abstract in this class. The model's mutators
  return the updated builder value, which plays the part of the returned `this`.
- Getters (`getGroupName`, `getDefaultLimit`, `getGroupStacks`,
  `getPickupLimitMessage`, `getItemLimitFunction`, `getArmorLimits`,
  `getBaubleLimits`, `getStageLimitOverride`, `getStagedStackRemovals`) are the
  field selectors of `Builder`. The Java getters return the live mutable
  collections, and a caller could change the builder through them. That
  aliasing is not modelled.
- The error log in the rejected armor and bauble branches is I/O and is not
  modelled. Those branches leave the builder unchanged.
- `@Optional.Method` mod-presence gating is not modelled. All methods are
  always available.
- Null handling: a null stack argument, or a null element in a stack array,
  makes the Java code throw. The model's stacks cannot be null. Null group
  and stage names are not modelled either. Null messages and null limit
  functions are modelled with `Option`.
- Stack semantics: `ItemStack.isEmpty()` and `instanceof IBauble` become the
  flags `empty` and `item.bauble`. A stack that becomes empty after it was
  stored is not modelled. Hash-map keys compare by stack identity (`ref`).
- The limit function is never invoked. It is an opaque handle.
- `PickupLimit.MOD_ID` is defined in a class that is not part of this model.
  It is the parameter `modId` of the translation-key functions.
- The scripting adapter `EquipmentLimitBuilderCT` is left out. It only
  forwards calls and converts script types.
- `EquipmentLimitBuilder`, the built limit groups, the registry and limit
  resolution are left out. They are separate classes that work on the game's
  runtime player inventory and stage state. The builder's configuration logic
  does not depend on them.
- TranslationKeys.TranslationKey and TranslationKeys.GetTranslationKey: null
  arguments are not modelled, because model strings cannot be null. In Java
  a null `type`, `unloc` or parameter is appended as the text `null`
  (StringHelper.java:7, 9), and a null parameter array throws
  (StringHelper.java:8).
- LimitBuilder.AddStagedStackGroupRemovalAsWritten: the two throwing cases
  come from the host library's `NonNullList.from`, which wraps the argument
  array as a fixed-size list. That library is not part of this model.

## Findings

| source | as written | input that shows it | evidently intended | confidence | as-written member | corrected member |
|---|---|---|---|---|---|---|
| src/main/java/com/invadermonky/pickuplimit/limits/util/AbstractLimitBuilder.java:185-191 | the removal list is a fixed-size view of the argument array, so `removeIf` throws when a stack is empty and `addAll` throws on the list stored by an earlier call for the same stage | one empty stack for a new stage (`EmptyStackRemovalThrows`); a second non-empty call for a stage that already has an entry (`SecondRemovalThrows`) | empty stacks are dropped, and further calls for the same stage append their stacks to its list | not executed; relies on `NonNullList.from` returning a fixed-size list | LimitBuilder.AddStagedStackGroupRemovalAsWritten | LimitBuilder.AddStagedStackGroupRemoval |
