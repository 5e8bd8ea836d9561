/**
 * Chains of fluent builder calls. A configuration script or mod code makes a
 * sequence of mutator calls on one builder; `Run` replays such a sequence and
 * the lemmas below say, field by field, what the builder holds afterwards in
 * terms of the calls alone.
 */
module BuilderCalls {
  import opened Options
  import opened Stacks
  import opened LinkedMaps
  import opened LimitBuilder
  import opened SeqLemmas

  /** One mutator call with its arguments. */
  datatype Call =
    | AddStacks(stacks: seq<ItemStack>)
    | SetMessage(message: Option<string>)
    | SetFunction(fn: Option<LimitFunction>)
    | AddArmor(stack: ItemStack, adjustment: int32)
    | AddBauble(stack: ItemStack, adjustment: int32)
    | AddStageOverride(stage: string, limit: int32)
    | AddStagedRemoval(stage: string, stacks: seq<ItemStack>)

  /** One call; the ensures say which field each kind of call may change. */
  function Step(b: Builder, c: Call): (r: Builder)
    ensures r.groupName == b.groupName && r.defaultLimit == b.defaultLimit
    ensures Valid(b) ==> Valid(r)
    ensures r.groupStacks == b.groupStacks + (if c.AddStacks? then c.stacks else [])
    ensures !c.SetMessage? ==> r.pickupLimitMessage == b.pickupLimitMessage
    ensures !c.SetFunction? ==> r.itemLimitFunction == b.itemLimitFunction
    ensures !c.AddArmor? ==> r.armorLimits == b.armorLimits
    ensures !c.AddBauble? ==> r.baubleLimits == b.baubleLimits
    ensures r.stageLimitOverride ==
              if c.AddStageOverride? then Put(b.stageLimitOverride, c.stage, c.limit) else b.stageLimitOverride
    ensures !c.AddStagedRemoval? ==> r.stagedStackRemovals == b.stagedStackRemovals
  {
    match c
    case AddStacks(xs) => AddStacksToGroup(b, xs)
    case SetMessage(m) => SetLimitMessage(b, m)
    case SetFunction(f) => SetItemLimitValueFunction(b, f)
    case AddArmor(s, adj) => AddArmorLimitAdjustment(b, s, adj)
    case AddBauble(s, adj) => AddBaubleLimitAdjustment(b, s, adj)
    case AddStageOverride(s, v) => AddStageLimitOverride(b, s, v)
    case AddStagedRemoval(s, xs) => AddStagedStackGroupRemoval(b, s, xs)
  }

  /**
   * Replays the calls in order. No call changes the group name or the
   * default limit, and no call breaks the builder invariant.
   */
  function Run(b: Builder, calls: seq<Call>): (r: Builder)
    ensures r.groupName == b.groupName && r.defaultLimit == b.defaultLimit
    ensures Valid(b) ==> Valid(r)
    decreases |calls|
  {
    if calls == [] then b else Run(Step(b, calls[0]), calls[1..])
  }

  lemma {:induction false} RunSnoc(b: Builder, calls: seq<Call>, c: Call)
    ensures Run(b, calls + [c]) == Step(Run(b, calls), c)
    decreases |calls|
  {
    if calls == [] {
      assert calls + [c] == [c];
    } else {
      assert (calls + [c])[1..] == calls[1..] + [c];
      RunSnoc(Step(b, calls[0]), calls[1..], c);
    }
  }

  /** Every builder reachable from the constructor satisfies the invariant. */
  lemma ReachableBuildersAreValid(groupName: string, defaultLimit: int32, calls: seq<Call>)
    ensures Valid(Run(NewBuilder(groupName, defaultLimit), calls))
    ensures forall s :: s in Run(NewBuilder(groupName, defaultLimit), calls).stagedStackRemovals ==>
              AllNonEmpty(Run(NewBuilder(groupName, defaultLimit), calls).stagedStackRemovals[s])
  {
  }

  // ---------------------------------------------------------------------
  // Member stacks

  /** All stacks passed to `addStacksToGroup`, in call order. */
  function AddedStacks(calls: seq<Call>): seq<ItemStack>
  {
    if calls == [] then []
    else
      var c := calls[|calls| - 1];
      AddedStacks(calls[..|calls| - 1]) + (if c.AddStacks? then c.stacks else [])
  }

  /** The member list is the initial list followed by every added stack, in call order. */
  lemma {:induction false} RunGroupStacks(b: Builder, calls: seq<Call>)
    ensures Run(b, calls).groupStacks == b.groupStacks + AddedStacks(calls)
    decreases |calls|
  {
    if calls != [] {
      var init := calls[..|calls| - 1];
      var c := calls[|calls| - 1];
      SplitLast(calls);
      RunSnoc(b, init, c);
      RunGroupStacks(b, init);
      var here := if c.AddStacks? then c.stacks else [];
      AppendAssoc(b.groupStacks, AddedStacks(init), here);
    }
  }

  // ---------------------------------------------------------------------
  // Message and limit function

  /** The argument of the last non-null `setLimitMessage` call, or `current` when there is none. */
  function LastMessage(calls: seq<Call>, current: Option<string>): Option<string>
  {
    if calls == [] then current
    else
      var c := calls[|calls| - 1];
      if c.SetMessage? && c.message.Some? then c.message
      else LastMessage(calls[..|calls| - 1], current)
  }

  /** The message is the last non-null one ever set: null messages never erase it. */
  lemma {:induction false} RunLastMessageWins(b: Builder, calls: seq<Call>)
    ensures Run(b, calls).pickupLimitMessage == LastMessage(calls, b.pickupLimitMessage)
    decreases |calls|
  {
    if calls != [] {
      var init := calls[..|calls| - 1];
      var c := calls[|calls| - 1];
      SplitLast(calls);
      RunSnoc(b, init, c);
      RunLastMessageWins(b, init);
    }
  }

  /** The argument of the last `setItemLimitValueFunction` call (null included), or `current`. */
  function LastFunction(calls: seq<Call>, current: Option<LimitFunction>): Option<LimitFunction>
  {
    if calls == [] then current
    else
      var c := calls[|calls| - 1];
      if c.SetFunction? then c.fn else LastFunction(calls[..|calls| - 1], current)
  }

  /** The limit function is exactly the last one set, a null argument clearing it. */
  lemma {:induction false} RunLastFunctionWins(b: Builder, calls: seq<Call>)
    ensures Run(b, calls).itemLimitFunction == LastFunction(calls, b.itemLimitFunction)
    decreases |calls|
  {
    if calls != [] {
      var init := calls[..|calls| - 1];
      var c := calls[|calls| - 1];
      SplitLast(calls);
      RunSnoc(b, init, c);
      RunLastFunctionWins(b, init);
    }
  }

  // ---------------------------------------------------------------------
  // Equipment adjustments

  function Lookup(m: map<ItemStack, int32>, k: ItemStack): Option<int32>
  {
    if k in m then Some(m[k]) else None
  }

  /** The adjustment of the last accepted armor call for stack `k`, if any. */
  function LastArmor(calls: seq<Call>, k: ItemStack): Option<int32>
  {
    if calls == [] then None
    else
      var c := calls[|calls| - 1];
      if c.AddArmor? && c.stack == k && !IsEmpty(k) then Some(c.adjustment)
      else LastArmor(calls[..|calls| - 1], k)
  }

  /** The adjustment of the last accepted bauble call for stack `k`, if any. */
  function LastBauble(calls: seq<Call>, k: ItemStack): Option<int32>
  {
    if calls == [] then None
    else
      var c := calls[|calls| - 1];
      if c.AddBauble? && c.stack == k && !IsEmpty(k) && IsBauble(k) then Some(c.adjustment)
      else LastBauble(calls[..|calls| - 1], k)
  }

  /**
   * Each armor stack carries the adjustment of its last accepted call;
   * stacks never accepted keep what they had. Rejected calls and bauble
   * calls leave no trace in the armor adjustments.
   */
  lemma {:induction false} RunArmorAdjustments(b: Builder, calls: seq<Call>, k: ItemStack)
    ensures Lookup(Run(b, calls).armorLimits, k) ==
              if LastArmor(calls, k).Some? then LastArmor(calls, k) else Lookup(b.armorLimits, k)
    decreases |calls|
  {
    if calls != [] {
      var init := calls[..|calls| - 1];
      var c := calls[|calls| - 1];
      SplitLast(calls);
      RunSnoc(b, init, c);
      RunArmorAdjustments(b, init, k);
    }
  }

  /** Each bauble stack carries the adjustment of its last accepted call. */
  lemma {:induction false} RunBaubleAdjustments(b: Builder, calls: seq<Call>, k: ItemStack)
    ensures Lookup(Run(b, calls).baubleLimits, k) ==
              if LastBauble(calls, k).Some? then LastBauble(calls, k) else Lookup(b.baubleLimits, k)
    decreases |calls|
  {
    if calls != [] {
      var init := calls[..|calls| - 1];
      var c := calls[|calls| - 1];
      SplitLast(calls);
      RunSnoc(b, init, c);
      RunBaubleAdjustments(b, init, k);
    }
  }

  // ---------------------------------------------------------------------
  // Stage overrides

  /** The `(stage, limit)` arguments of the stage-override calls, in call order. */
  function StageCalls(calls: seq<Call>): seq<(string, int32)>
  {
    if calls == [] then []
    else (if calls[0].AddStageOverride? then [(calls[0].stage, calls[0].limit)] else []) + StageCalls(calls[1..])
  }

  /** The override map is the result of the stage-override puts alone, in call order. */
  lemma {:induction false} RunStageOverrides(b: Builder, calls: seq<Call>)
    ensures Run(b, calls).stageLimitOverride == PutAll(b.stageLimitOverride, StageCalls(calls))
    decreases |calls|
  {
    if calls != [] {
      RunStageOverrides(Step(b, calls[0]), calls[1..]);
      if calls[0].AddStageOverride? {
        assert StageCalls(calls) == [(calls[0].stage, calls[0].limit)] + StageCalls(calls[1..]);
      } else {
        assert StageCalls(calls) == StageCalls(calls[1..]);
      }
    }
  }

  /**
   * On a fresh builder, stages added under distinct names end up in the
   * override order in exactly the order of the calls.
   */
  lemma StageOrderFollowsCalls(groupName: string, defaultLimit: int32, calls: seq<Call>)
    requires Distinct(Keys(StageCalls(calls)))
    ensures Keys(Run(NewBuilder(groupName, defaultLimit), calls).stageLimitOverride) == Keys(StageCalls(calls))
  {
    RunStageOverrides(NewBuilder(groupName, defaultLimit), calls);
    PutAllFreshKeysInCallOrder([], StageCalls(calls));
  }

  /** Each stage holds the limit of its last override call; other stages keep their value. */
  lemma StageOverrideLastWriteWins(b: Builder, calls: seq<Call>, stage: string)
    ensures Get(Run(b, calls).stageLimitOverride, stage) ==
              if LastValue(StageCalls(calls), stage).Some? then LastValue(StageCalls(calls), stage)
              else Get(b.stageLimitOverride, stage)
  {
    RunStageOverrides(b, calls);
    PutAllLastWriteWins(b.stageLimitOverride, StageCalls(calls), stage);
  }

  // ---------------------------------------------------------------------
  // Staged removals

  /** Whether some staged-removal call names `stage`. */
  predicate NamesStage(calls: seq<Call>, stage: string)
  {
    exists i :: 0 <= i < |calls| && calls[i].AddStagedRemoval? && calls[i].stage == stage
  }

  /** All stacks passed to staged-removal calls for `stage`, in call order. */
  function RemovalArgs(calls: seq<Call>, stage: string): seq<ItemStack>
  {
    if calls == [] then []
    else
      var c := calls[|calls| - 1];
      RemovalArgs(calls[..|calls| - 1], stage) + (if c.AddStagedRemoval? && c.stage == stage then c.stacks else [])
  }

  /** What one call does to the removal entry of `stage`. */
  lemma StepStagedRemovals(b: Builder, c: Call, stage: string)
    ensures stage in Step(b, c).stagedStackRemovals <==>
              stage in b.stagedStackRemovals || (c.AddStagedRemoval? && c.stage == stage)
    ensures RemovalsFor(Step(b, c), stage) ==
              RemovalsFor(b, stage) + WithoutEmpty(if c.AddStagedRemoval? && c.stage == stage then c.stacks else [])
  {
    if !(c.AddStagedRemoval? && c.stage == stage) {
      assert WithoutEmpty([]) == [];
      assert RemovalsFor(b, stage) + [] == RemovalsFor(b, stage);
    }
  }

  /** Some call names `stage` exactly when an earlier call or the last one does. */
  lemma NamesStageLast(calls: seq<Call>, stage: string)
    requires calls != []
    ensures NamesStage(calls, stage) <==>
              || NamesStage(calls[..|calls| - 1], stage)
              || (calls[|calls| - 1].AddStagedRemoval? && calls[|calls| - 1].stage == stage)
  {
    var init := calls[..|calls| - 1];
    if NamesStage(init, stage) {
      var i :| 0 <= i < |init| && init[i].AddStagedRemoval? && init[i].stage == stage;
      assert calls[i] == init[i];
    }
    if NamesStage(calls, stage) {
      var i :| 0 <= i < |calls| && calls[i].AddStagedRemoval? && calls[i].stage == stage;
      if i < |init| {
        assert init[i] == calls[i];
      }
    }
  }

  /** A stage has a removal entry exactly when it had one or some call named it. */
  lemma {:induction false} RunStagedRemovalKeys(b: Builder, calls: seq<Call>, stage: string)
    ensures stage in Run(b, calls).stagedStackRemovals <==> stage in b.stagedStackRemovals || NamesStage(calls, stage)
    decreases |calls|
  {
    if calls != [] {
      var init := calls[..|calls| - 1];
      var c := calls[|calls| - 1];
      SplitLast(calls);
      RunSnoc(b, init, c);
      RunStagedRemovalKeys(b, init, stage);
      StepStagedRemovals(Run(b, init), c, stage);
      NamesStageLast(calls, stage);
    }
  }

  /**
   * The removal entry of a stage is the old one followed by every non-empty
   * stack passed for that stage, in call order.
   */
  lemma {:induction false} RunStagedRemovals(b: Builder, calls: seq<Call>, stage: string)
    ensures RemovalsFor(Run(b, calls), stage) == RemovalsFor(b, stage) + WithoutEmpty(RemovalArgs(calls, stage))
    decreases |calls|
  {
    if calls != [] {
      var init := calls[..|calls| - 1];
      var c := calls[|calls| - 1];
      SplitLast(calls);
      RunSnoc(b, init, c);
      RunStagedRemovals(b, init, stage);
      StepStagedRemovals(Run(b, init), c, stage);
      var here := if c.AddStagedRemoval? && c.stage == stage then c.stacks else [];
      WithoutEmptyAppend(RemovalArgs(init, stage), here);
      AppendAssoc(RemovalsFor(b, stage), WithoutEmpty(RemovalArgs(init, stage)), WithoutEmpty(here));
    }
  }

  // ---------------------------------------------------------------------
  // The code as written, where a staged removal may throw

  /** One call as the code is written: only a staged removal can throw. */
  function StepAsWritten(b: Builder, c: Call): (r: Outcome)
    ensures r.Ok? ==> r.builder == Step(b, c)
    ensures r.Throws? ==> c.AddStagedRemoval?
    ensures r.Ok? ==> forall s :: s in b.stagedStackRemovals ==>
              s in r.builder.stagedStackRemovals && r.builder.stagedStackRemovals[s] == b.stagedStackRemovals[s]
  {
    if c.AddStagedRemoval? then AddStagedStackGroupRemovalAsWritten(b, c.stage, c.stacks) else Ok(Step(b, c))
  }

  /** Replays the calls as written, stopping at the first call that throws. */
  function RunAsWritten(b: Builder, calls: seq<Call>): (r: Outcome)
    ensures r.Ok? ==> r.builder == Run(b, calls)
    decreases |calls|
  {
    if calls == [] then Ok(b)
    else
      match StepAsWritten(b, calls[0])
      case Throws => Throws
      case Ok(b') => RunAsWritten(b', calls[1..])
  }

  /** Without staged removals, a chain as written completes with the same builder as the intended one. */
  lemma {:induction false} RunWithoutRemovalsCompletes(b: Builder, calls: seq<Call>)
    requires forall i :: 0 <= i < |calls| ==> !calls[i].AddStagedRemoval?
    ensures RunAsWritten(b, calls) == Ok(Run(b, calls))
    decreases |calls|
  {
    if calls != [] {
      assert !calls[0].AddStagedRemoval?;
      forall i | 0 <= i < |calls[1..]|
        ensures !calls[1..][i].AddStagedRemoval?
      {
        assert calls[1..][i] == calls[i + 1];
      }
      RunWithoutRemovalsCompletes(Step(b, calls[0]), calls[1..]);
    }
  }

  /**
   * As written, a removal entry never changes once stored: every later call
   * for that stage either passes no stacks or throws.
   */
  lemma {:induction false} AsWrittenRemovalsFrozen(b: Builder, calls: seq<Call>, stage: string)
    requires stage in b.stagedStackRemovals
    ensures RunAsWritten(b, calls).Ok? ==>
              && stage in RunAsWritten(b, calls).builder.stagedStackRemovals
              && RunAsWritten(b, calls).builder.stagedStackRemovals[stage] == b.stagedStackRemovals[stage]
    decreases |calls|
  {
    if calls != [] {
      var o := StepAsWritten(b, calls[0]);
      if o.Ok? {
        AsWrittenRemovalsFrozen(o.builder, calls[1..], stage);
      }
    }
  }
}
