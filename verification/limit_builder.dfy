/**
 * The configuration state of a pickup-limit group builder and its fluent
 * mutators. The host builder is a mutable object whose mutators return the
 * builder itself; here the builder is an immutable value and every mutator
 * returns the updated value, which is what the next call in a chain sees.
 */
module LimitBuilder {
  import opened Options
  import opened Stacks
  import opened LinkedMaps

  /** The host's 32-bit `int`. */
  newtype int32 = x: int | -0x8000_0000 <= x < 0x8000_0000

  /** A pluggable limit strategy, known only by its object identity; it is never invoked here. */
  datatype LimitFunction = LimitFunction(ref: nat)

  datatype Builder = Builder(
    groupName: string,
    defaultLimit: int32,
    groupStacks: seq<ItemStack>,
    itemLimitFunction: Option<LimitFunction>,
    pickupLimitMessage: Option<string>,
    armorLimits: map<ItemStack, int32>,
    baubleLimits: map<ItemStack, int32>,
    stageLimitOverride: LinkedMap<string, int32>,
    stagedStackRemovals: map<string, seq<ItemStack>>)

  /** Names of the builder's fields, for stating what a mutator leaves alone. */
  datatype Field =
    | GroupName | DefaultLimit | GroupStacks | LimitFn | Message
    | ArmorLimits | BaubleLimits | StageOverrides | StagedRemovals

  /** `a` and `b` agree on every field except possibly `f`. */
  predicate AgreeExcept(a: Builder, b: Builder, f: Field)
  {
    && (f != GroupName ==> a.groupName == b.groupName)
    && (f != DefaultLimit ==> a.defaultLimit == b.defaultLimit)
    && (f != GroupStacks ==> a.groupStacks == b.groupStacks)
    && (f != LimitFn ==> a.itemLimitFunction == b.itemLimitFunction)
    && (f != Message ==> a.pickupLimitMessage == b.pickupLimitMessage)
    && (f != ArmorLimits ==> a.armorLimits == b.armorLimits)
    && (f != BaubleLimits ==> a.baubleLimits == b.baubleLimits)
    && (f != StageOverrides ==> a.stageLimitOverride == b.stageLimitOverride)
    && (f != StagedRemovals ==> a.stagedStackRemovals == b.stagedStackRemovals)
  }

  /**
   * What every builder reachable from the constructor satisfies: stage
   * overrides have distinct stage names, no adjustment is keyed by an empty
   * stack, bauble adjustments are keyed by baubles, and no staged removal
   * list holds an empty stack.
   */
  predicate Valid(b: Builder)
  {
    && Distinct(Keys(b.stageLimitOverride))
    && (forall k :: k in b.armorLimits ==> !IsEmpty(k))
    && (forall k :: k in b.baubleLimits ==> !IsEmpty(k) && IsBauble(k))
    && (forall s :: s in b.stagedStackRemovals ==> AllNonEmpty(b.stagedStackRemovals[s]))
  }

  /** The removal list recorded for `stage`, empty when there is none. */
  function RemovalsFor(b: Builder, stage: string): seq<ItemStack>
  {
    if stage in b.stagedStackRemovals then b.stagedStackRemovals[stage] else []
  }

  /** The constructor: name and default limit as given, everything else unset or empty. */
  function NewBuilder(groupName: string, defaultLimit: int32): (b: Builder)
    ensures b.groupName == groupName && b.defaultLimit == defaultLimit
    ensures b.itemLimitFunction == None && b.pickupLimitMessage == None
    ensures b.groupStacks == [] && b.armorLimits == map[] && b.baubleLimits == map[]
    ensures b.stageLimitOverride == [] && b.stagedStackRemovals == map[]
    ensures Valid(b)
  {
    Builder(groupName, defaultLimit, [], None, None, map[], map[], [], map[])
  }

  /** Appends the stacks to the member list, in order and keeping duplicates. */
  function AddStacksToGroup(b: Builder, stacks: seq<ItemStack>): (r: Builder)
    ensures b.groupStacks <= r.groupStacks
    ensures r.groupStacks[|b.groupStacks|..] == stacks
    ensures multiset(r.groupStacks) == multiset(b.groupStacks) + multiset(stacks)
    ensures AgreeExcept(b, r, GroupStacks)
    ensures Valid(b) ==> Valid(r)
  {
    b.(groupStacks := b.groupStacks + stacks)
  }

  /** A null message is ignored; any other message replaces the current one. */
  function SetLimitMessage(b: Builder, message: Option<string>): (r: Builder)
    ensures message.None? ==> r == b
    ensures message.Some? ==> r.pickupLimitMessage == message
    ensures AgreeExcept(b, r, Message)
    ensures Valid(b) ==> Valid(r)
  {
    if message.Some? then b.(pickupLimitMessage := message) else b
  }

  /** Installs the given limit function, or clears it when given null. */
  function SetItemLimitValueFunction(b: Builder, fn: Option<LimitFunction>): (r: Builder)
    ensures r.itemLimitFunction == fn
    ensures AgreeExcept(b, r, LimitFn)
    ensures Valid(b) ==> Valid(r)
  {
    b.(itemLimitFunction := fn)
  }

  /**
   * Records the adjustment for a non-empty armor stack, replacing any earlier
   * adjustment for that same stack; an empty stack is rejected (the host logs
   * an error) and nothing changes.
   */
  function AddArmorLimitAdjustment(b: Builder, stack: ItemStack, adjustment: int32): (r: Builder)
    ensures !IsEmpty(stack) ==> stack in r.armorLimits && r.armorLimits[stack] == adjustment
    ensures r.armorLimits.Keys == if IsEmpty(stack) then b.armorLimits.Keys else b.armorLimits.Keys + {stack}
    ensures forall k :: k in b.armorLimits && k != stack ==> r.armorLimits[k] == b.armorLimits[k]
    ensures IsEmpty(stack) ==> r == b
    ensures AgreeExcept(b, r, ArmorLimits)
    ensures Valid(b) ==> Valid(r)
  {
    if !IsEmpty(stack) then b.(armorLimits := b.armorLimits[stack := adjustment]) else b
  }

  /**
   * Records the adjustment for a stack that is non-empty and a bauble,
   * replacing any earlier adjustment for that stack; any other stack is
   * rejected and nothing changes. The armor adjustments are never touched.
   */
  function AddBaubleLimitAdjustment(b: Builder, stack: ItemStack, adjustment: int32): (r: Builder)
    ensures !IsEmpty(stack) && IsBauble(stack) ==> stack in r.baubleLimits && r.baubleLimits[stack] == adjustment
    ensures r.baubleLimits.Keys ==
              if !IsEmpty(stack) && IsBauble(stack) then b.baubleLimits.Keys + {stack} else b.baubleLimits.Keys
    ensures forall k :: k in b.baubleLimits && k != stack ==> r.baubleLimits[k] == b.baubleLimits[k]
    ensures IsEmpty(stack) || !IsBauble(stack) ==> r == b
    ensures r.armorLimits == b.armorLimits
    ensures AgreeExcept(b, r, BaubleLimits)
    ensures Valid(b) ==> Valid(r)
  {
    if !IsEmpty(stack) && IsBauble(stack) then b.(baubleLimits := b.baubleLimits[stack := adjustment]) else b
  }

  /**
   * Sets the limit override for a stage. A stage seen for the first time is
   * appended to the end of the override order; a stage seen before keeps its
   * position and takes the new value.
   */
  function AddStageLimitOverride(b: Builder, stage: string, limit: int32): (r: Builder)
    ensures Get(r.stageLimitOverride, stage) == Some(limit)
    ensures forall s :: s != stage ==> Get(r.stageLimitOverride, s) == Get(b.stageLimitOverride, s)
    ensures stage in Keys(b.stageLimitOverride) ==> Keys(r.stageLimitOverride) == Keys(b.stageLimitOverride)
    ensures stage !in Keys(b.stageLimitOverride) ==> Keys(r.stageLimitOverride) == Keys(b.stageLimitOverride) + [stage]
    ensures AgreeExcept(b, r, StageOverrides)
    ensures Valid(b) ==> Valid(r)
  {
    PutFacts(b.stageLimitOverride, stage, limit);
    b.(stageLimitOverride := Put(b.stageLimitOverride, stage, limit))
  }

  /**
   * The intended staged removal: drops the empty stacks from `stacks` and
   * appends the rest, in order, to the removal list of `stage`, creating that
   * list when the stage has none (even when nothing is left to add). Other
   * stages are untouched. The code as written does not always get here; see
   * `AddStagedStackGroupRemovalAsWritten`.
   */
  function AddStagedStackGroupRemoval(b: Builder, stage: string, stacks: seq<ItemStack>): (r: Builder)
    ensures stage in r.stagedStackRemovals
    ensures r.stagedStackRemovals[stage] == RemovalsFor(b, stage) + WithoutEmpty(stacks)
    ensures forall x :: x in r.stagedStackRemovals[stage] <==> x in RemovalsFor(b, stage) || (x in stacks && !IsEmpty(x))
    ensures r.stagedStackRemovals.Keys == b.stagedStackRemovals.Keys + {stage}
    ensures forall s :: s in b.stagedStackRemovals && s != stage ==> r.stagedStackRemovals[s] == b.stagedStackRemovals[s]
    ensures AgreeExcept(b, r, StagedRemovals)
    ensures Valid(b) ==> Valid(r)
  {
    var kept := WithoutEmpty(stacks);
    if stage in b.stagedStackRemovals then
      b.(stagedStackRemovals := b.stagedStackRemovals[stage := b.stagedStackRemovals[stage] + kept])
    else
      b.(stagedStackRemovals := b.stagedStackRemovals[stage := kept])
  }

  /** The outcome of a call that may throw: the updated builder, or an exception that leaves the builder as it was. */
  datatype Outcome = Ok(builder: Builder) | Throws

  /**
   * The staged removal as the code is written. The list built from the
   * argument array is a fixed-size view of that array, so removing an empty
   * stack from it throws, and so does appending to a list stored by an
   * earlier call for the same stage. Only two kinds of call complete: a
   * call with no empty stack for a stage without an entry, and a call with
   * no stacks at all.
   */
  function AddStagedStackGroupRemovalAsWritten(b: Builder, stage: string, stacks: seq<ItemStack>): (r: Outcome)
    ensures r.Throws? <==> !AllNonEmpty(stacks) || (stage in b.stagedStackRemovals && stacks != [])
    ensures r.Ok? ==> r.builder == AddStagedStackGroupRemoval(b, stage, stacks)
    ensures r.Ok? && stage in b.stagedStackRemovals ==> r.builder == b
    ensures r.Ok? && stage !in b.stagedStackRemovals ==> r.builder.stagedStackRemovals[stage] == stacks
  {
    if !AllNonEmpty(stacks) then
      // removeIf has to remove from a fixed-size list
      Throws
    else if stage in b.stagedStackRemovals && stacks != [] then
      // addAll on the fixed-size list stored by the first call
      Throws
    else
      WithoutEmptyKeepsNonEmpty(stacks);
      if stage in b.stagedStackRemovals then
        assert b.stagedStackRemovals[stage] + [] == b.stagedStackRemovals[stage];
        assert b.stagedStackRemovals[stage := b.stagedStackRemovals[stage]] == b.stagedStackRemovals;
        Ok(AddStagedStackGroupRemoval(b, stage, stacks))
      else
        Ok(AddStagedStackGroupRemoval(b, stage, stacks))
  }

  /** An empty stack in the arguments makes the call throw, where the intended call records an empty list. */
  lemma EmptyStackRemovalThrows()
    ensures var b := NewBuilder("swords", 1);
            var air := ItemStack(0, Item(false), true);
            && AddStagedStackGroupRemovalAsWritten(b, "stage2", [air]).Throws?
            && AddStagedStackGroupRemoval(b, "stage2", [air]).stagedStackRemovals["stage2"] == []
  {
    var air := ItemStack(0, Item(false), true);
    assert IsEmpty([air][0]);
    assert WithoutEmpty([air]) == [];
  }

  /** A second removal call for a stage throws, where the intended call appends to the stage's list. */
  lemma SecondRemovalThrows()
    ensures var sword := ItemStack(1, Item(false), false);
            var bow := ItemStack(2, Item(false), false);
            var first := AddStagedStackGroupRemovalAsWritten(NewBuilder("swords", 1), "stage2", [sword]);
            && first.Ok?
            && AddStagedStackGroupRemovalAsWritten(first.builder, "stage2", [bow]).Throws?
            && AddStagedStackGroupRemoval(first.builder, "stage2", [bow]).stagedStackRemovals["stage2"] == [sword, bow]
  {
    var sword := ItemStack(1, Item(false), false);
    var bow := ItemStack(2, Item(false), false);
    assert WithoutEmpty([bow]) == [bow] by { WithoutEmptyKeepsNonEmpty([bow]); }
    assert [sword] + [bow] == [sword, bow];
  }
}
