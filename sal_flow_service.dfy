/** SalFlowServiceImpl: the device's flow service. Each flow operation is
    converted into OpenFlow flow mods, one partial request is made per flow
    mod, and the partial outcomes are folded into a single RPC result. When the
    result is in, the device flow registry learns which flow the operation
    placed or removed.

    The flow convertor, the flow hash, `canModifyFlow` and `storeIfNecessary`
    are not part of this model: they are the service's constant function
    fields. Partial outcomes and the outbound queue's reply are parameters.
    `handleServiceCall`, which turns a flow mod into a partial request, is not
    part of this model; the flow mods handed to it are logged in order. */
module SalFlowServices {
  import opened Wrappers
  import opened Text
  import opened Rpc
  import opened Inventory

  type FlowHash = int

  /** `FlowDescriptor`: where the registry places a flow. */
  datatype FlowDescriptor = FlowDescriptor(tableId: Option<int>, flowId: FlowId)

  /** The input class the convertor is handed, which picks the flow-mod
      command. */
  datatype FlowModKind = AddKind | RemoveKind | UpdateKind

  /** `FlowModInputBuilder`: the xid (unset until a request context stamps
      it; a `Uint32`) and the rest of the message. */
  datatype FlowModInput = FlowModInput(xid: Option<nat>, body: string)

  /** How a partial future ends, as the fold sees it: cancelled (the barrier
      passed it without error), failed with an exception (`successfulAsList`
      gives null and `get()` throws), completed with null (`get()` does not
      throw), or completed with a result. */
  datatype PartialOutcome = Cancelled | Threw | CompletedNull | Completed(result: RpcResult)

  /** How `successfulAsList` ends: with one outcome per partial, or failed with
      a message. */
  datatype CombinedOutcome = Settled(outcomes: seq<PartialOutcome>) | CombinedFailed(message: string)

  /** How `commitEntry` answers: the message went out, or failed. */
  datatype CommitOutcome = Committed | CommitFailed(message: string)

  // ------------------------------------------------------------------ fold

  /** `"" + xid` for a `Long` that may be null. */
  function XidText(xid: Option<nat>): string {
    if xid.None? then "null" else NumStr(xid.value)
  }

  /** The errors one partial contributes to `rpcErrorLot`. */
  function PartialErrors(xid: Option<nat>, outcome: PartialOutcome): (r: seq<RpcError>)
    ensures r == [] <==> Silent(xid, outcome)
    ensures !outcome.Completed? || outcome.result.successful ==>
      |r| <= 1 && forall i :: 0 <= i < |r| ==> r[i].errorType == Application
  {
    match outcome
    case Cancelled => []
    case CompletedNull => []
    case Threw => [ApplicationError("flow future result [" + XidText(xid) + "] failed with exception")]
    case Completed(result) =>
      if result.successful
      then [ApplicationError("flow future result was successful [" + XidText(xid) + "] = this should have never happen")]
      else result.errors
  }

  /** A cancelled partial, or one completed with null, contributes no error;
      one that threw or succeeded contributes exactly one; a failed result
      contributes its own errors, in order. */
  lemma PartialErrorCounts(xid: Option<nat>, outcome: PartialOutcome)
    ensures outcome.Cancelled? || outcome.CompletedNull? ==> PartialErrors(xid, outcome) == []
    ensures outcome.Threw? || (outcome.Completed? && outcome.result.successful) ==>
      |PartialErrors(xid, outcome)| == 1 && PartialErrors(xid, outcome)[0].errorType == Application
    ensures outcome.Completed? && !outcome.result.successful ==> PartialErrors(xid, outcome) == outcome.result.errors
  {
  }

  /** The errors collected from the first partials, in order. */
  function CollectedErrors(mods: seq<FlowModInput>, outcomes: seq<PartialOutcome>): (r: seq<RpcError>)
    requires |mods| == |outcomes|
    ensures |r| >= |Unhooked(mods, outcomes)|
  {
    if |mods| == 0 then []
    else
      var n := |mods| - 1;
      CollectedErrors(mods[..n], outcomes[..n]) + PartialErrors(mods[n].xid, outcomes[n])
  }

  /** The xids unhooked from the device context: those of the partials that
      threw, when they had one. */
  function Unhooked(mods: seq<FlowModInput>, outcomes: seq<PartialOutcome>): seq<nat>
    requires |mods| == |outcomes|
  {
    if |mods| == 0 then []
    else
      var n := |mods| - 1;
      Unhooked(mods[..n], outcomes[..n])
        + (if outcomes[n].Threw? && mods[n].xid.Some? then [mods[n].xid.value] else [])
  }

  /** The aggregate: success when no error was collected, and otherwise failed
      with exactly the collected errors. */
  function Aggregate(errors: seq<RpcError>): (r: RpcResult)
    ensures r.successful <==> errors == []
    ensures r.errors == errors
  {
    if |errors| == 0 then Success() else Failed(errors)
  }

  /** The result `processFlowModInputBuilders` sets on its final future. */
  function FoldResult(mods: seq<FlowModInput>, combined: CombinedOutcome): (r: RpcResult)
    requires combined.Settled? ==> |combined.outcomes| == |mods|
    ensures r.successful <==> r.errors == []
    ensures r.successful ==> combined.Settled?
  {
    match combined
    case Settled(outcomes) => Aggregate(CollectedErrors(mods, outcomes))
    case CombinedFailed(message) => Failed([ApplicationError(message)])
  }

  lemma ConcatAssociative<T>(a: seq<T>, b: seq<T>, c: seq<T>)
    ensures (a + b) + c == a + (b + c)
  {
  }

  /** One step of `CollectedErrors`, with the prefix and the last partial
      named. */
  lemma CollectedErrorsLast(m: seq<FlowModInput>, o: seq<PartialOutcome>, mp: seq<FlowModInput>,
                            op: seq<PartialOutcome>, x: FlowModInput, y: PartialOutcome)
    requires m == mp + [x] && o == op + [y] && |mp| == |op|
    ensures CollectedErrors(m, o) == CollectedErrors(mp, op) + PartialErrors(x.xid, y)
  {
    assert m[..|m| - 1] == mp && o[..|o| - 1] == op;
  }

  /** One step of `Unhooked`, with the prefix and the last partial named. */
  lemma UnhookedLast(m: seq<FlowModInput>, o: seq<PartialOutcome>, mp: seq<FlowModInput>,
                     op: seq<PartialOutcome>, x: FlowModInput, y: PartialOutcome)
    requires m == mp + [x] && o == op + [y] && |mp| == |op|
    ensures Unhooked(m, o) == Unhooked(mp, op) + (if y.Threw? && x.xid.Some? then [x.xid.value] else [])
  {
    assert m[..|m| - 1] == mp && o[..|o| - 1] == op;
  }

  /** Folding two runs of partials collects the first run's errors, then the
      second's. */
  lemma {:induction false} CollectedErrorsAppend(m1: seq<FlowModInput>, o1: seq<PartialOutcome>,
                                                 m2: seq<FlowModInput>, o2: seq<PartialOutcome>)
    requires |m1| == |o1| && |m2| == |o2|
    ensures CollectedErrors(m1 + m2, o1 + o2) == CollectedErrors(m1, o1) + CollectedErrors(m2, o2)
    decreases |m2|
  {
    if |m2| == 0 {
      assert m1 + m2 == m1 && o1 + o2 == o1;
    } else {
      var n := |m2| - 1;
      var mp, op, x, y := m2[..n], o2[..n], m2[n], o2[n];
      assert m2 == mp + [x] && o2 == op + [y];
      ConcatAssociative(m1, mp, [x]);
      ConcatAssociative(o1, op, [y]);
      var a, b, e := CollectedErrors(m1, o1), CollectedErrors(mp, op), PartialErrors(x.xid, y);
      CollectedErrorsLast(m1 + m2, o1 + o2, m1 + mp, o1 + op, x, y);
      CollectedErrorsLast(m2, o2, mp, op, x, y);
      CollectedErrorsAppend(m1, o1, mp, op);
      ConcatAssociative(a, b, e);
    }
  }

  /** A partial that adds no error. */
  predicate Silent(xid: Option<nat>, outcome: PartialOutcome) {
    outcome.Cancelled? || outcome.CompletedNull? || (outcome.Completed? && !outcome.result.successful
                                                      && outcome.result.errors == [])
  }

  /** Every partial of the run is silent. */
  predicate AllSilent(mods: seq<FlowModInput>, outcomes: seq<PartialOutcome>)
    requires |mods| == |outcomes|
  {
    forall i :: 0 <= i < |mods| ==> Silent(mods[i].xid, outcomes[i])
  }

  /** The aggregate is a success exactly when every partial was silent: was
      cancelled, completed with null, or failed without errors. A partial that
      succeeded, in particular, makes the batch fail. */
  lemma {:induction false} FoldSuccessIff(mods: seq<FlowModInput>, outcomes: seq<PartialOutcome>)
    requires |mods| == |outcomes|
    ensures FoldResult(mods, Settled(outcomes)).successful <==> AllSilent(mods, outcomes)
    decreases |mods|
  {
    if |mods| > 0 {
      var n := |mods| - 1;
      FoldSuccessIff(mods[..n], outcomes[..n]);
      assert forall i :: 0 <= i < n ==> mods[..n][i] == mods[i] && outcomes[..n][i] == outcomes[i];
    }
  }

  /** A batch whose partials were all cancelled succeeds. */
  lemma AllCancelledSucceeds(mods: seq<FlowModInput>, outcomes: seq<PartialOutcome>)
    requires |mods| == |outcomes| && forall i :: 0 <= i < |outcomes| ==> outcomes[i] == Cancelled
    ensures FoldResult(mods, Settled(outcomes)) == Success()
  {
    FoldSuccessIff(mods, outcomes);
  }

  /** A batch whose combined future fails is failed with one error. */
  lemma CombinedFailureIsOneError(mods: seq<FlowModInput>, message: string)
    ensures var r := FoldResult(mods, CombinedFailed(message));
      !r.successful && r.errors == [ApplicationError(message)]
  {
  }

  // ---------------------------------------------------------------- update

  /** The flow mods of `updateFlow`: when the flow cannot be modified in
      place, the original's remove mods and then the updated flow's add mods;
      otherwise the updated flow's own. */
  function UpdateFlowMods(input: UpdateFlowInput, canModify: bool,
                          toFlowModInputs: (FlowModKind, Flow) -> seq<FlowModInput>): seq<FlowModInput>
  {
    if !canModify
    then toFlowModInputs(RemoveKind, input.originalFlow) + toFlowModInputs(AddKind, input.updatedFlow)
    else toFlowModInputs(UpdateKind, input.updatedFlow)
  }

  /** Without in-place modification, every remove mod of the original comes
      before every add mod of the updated flow; with it, no remove or add mod
      is sent. */
  lemma UpdateRemovesFirst(input: UpdateFlowInput, canModify: bool,
                           toFlowModInputs: (FlowModKind, Flow) -> seq<FlowModInput>)
    ensures var all := UpdateFlowMods(input, canModify, toFlowModInputs);
      var removes := toFlowModInputs(RemoveKind, input.originalFlow);
      !canModify ==>
        && |all| == |removes| + |toFlowModInputs(AddKind, input.updatedFlow)|
        && all[..|removes|] == removes
        && all[|removes|..] == toFlowModInputs(AddKind, input.updatedFlow)
    ensures canModify ==> UpdateFlowMods(input, canModify, toFlowModInputs)
                          == toFlowModInputs(UpdateKind, input.updatedFlow)
  {
  }

  /** When the convertor gives flow mods of the kind it is asked for, an
      update that cannot modify in place sends no add mod before a remove mod,
      and one that can sends only modify mods. */
  lemma UpdateOrdersKinds(input: UpdateFlowInput, canModify: bool,
                          toFlowModInputs: (FlowModKind, Flow) -> seq<FlowModInput>,
                          kindOf: FlowModInput -> FlowModKind)
    requires forall k, f, m :: m in toFlowModInputs(k, f) ==> kindOf(m) == k
    ensures var all := UpdateFlowMods(input, canModify, toFlowModInputs);
      !canModify ==> forall i, j ::
        0 <= i < |all| && 0 <= j < |all| && kindOf(all[i]) == AddKind && kindOf(all[j]) == RemoveKind ==> j < i
    ensures var all := UpdateFlowMods(input, canModify, toFlowModInputs);
      canModify ==> forall i :: 0 <= i < |all| ==> kindOf(all[i]) == UpdateKind
  {
    var all := UpdateFlowMods(input, canModify, toFlowModInputs);
    UpdateRemovesFirst(input, canModify, toFlowModInputs);
    if !canModify {
      var removes := toFlowModInputs(RemoveKind, input.originalFlow);
      var adds := toFlowModInputs(AddKind, input.updatedFlow);
      forall i | 0 <= i < |all|
        ensures i < |removes| ==> kindOf(all[i]) == RemoveKind
        ensures i >= |removes| ==> kindOf(all[i]) == AddKind
      {
        if i < |removes| {
          assert all[i] == removes[i] && removes[i] in removes;
        } else {
          assert all[i] == adds[i - |removes|] && adds[i - |removes|] in adds;
        }
      }
    } else {
      forall i | 0 <= i < |all| ensures kindOf(all[i]) == UpdateKind {
        assert all[i] in toFlowModInputs(UpdateKind, input.updatedFlow);
      }
    }
  }

  // -------------------------------------------------------------- registry

  type FlowRegistry = map<FlowHash, FlowDescriptor>

  class SalFlowService {
    /** `FlowConvertor.toFlowModInputs` and `toFlowModInput` for the device's
        version and datapath id. */
    const toFlowModInputs: (FlowModKind, Flow) -> seq<FlowModInput>
    const toFlowModInput: (FlowModKind, Flow) -> FlowModInput
    /** `FlowHashFactory.create` for the device's version. */
    const flowHash: Flow -> FlowHash
    /** `FlowCreatorUtil.canModifyFlow` for the device's version. */
    const canModifyFlow: (Flow, Flow) -> bool
    /** `DeviceFlowRegistry.storeIfNecessary`, as its effect on the registry. */
    const storeIfNecessary: (FlowRegistry, FlowHash, Option<int>) -> FlowRegistry

    /** The device flow registry: stored descriptors and hashes marked to be
        removed. */
    var flowRegistry: FlowRegistry
    var markedToBeRemoved: set<FlowHash>
    /** The flow mods handed to `handleServiceCall`, in order. */
    var submitted: seq<FlowModInput>
    /** The messages committed to the outbound queue, in order. */
    var committed: seq<FlowModInput>
    /** The xids unhooked from the device context, in order. */
    var unhooked: seq<nat>

    constructor(toFlowModInputs: (FlowModKind, Flow) -> seq<FlowModInput>,
                toFlowModInput: (FlowModKind, Flow) -> FlowModInput, flowHash: Flow -> FlowHash,
                canModifyFlow: (Flow, Flow) -> bool,
                storeIfNecessary: (FlowRegistry, FlowHash, Option<int>) -> FlowRegistry)
      ensures this.toFlowModInputs == toFlowModInputs && this.toFlowModInput == toFlowModInput
      ensures this.flowHash == flowHash && this.canModifyFlow == canModifyFlow
      ensures this.storeIfNecessary == storeIfNecessary
      ensures flowRegistry == map[] && markedToBeRemoved == {} && submitted == [] && committed == []
      ensures unhooked == []
    {
      this.toFlowModInputs := toFlowModInputs;
      this.toFlowModInput := toFlowModInput;
      this.flowHash := flowHash;
      this.canModifyFlow := canModifyFlow;
      this.storeIfNecessary := storeIfNecessary;
      flowRegistry := map[];
      markedToBeRemoved := {};
      submitted := [];
      committed := [];
      unhooked := [];
    }

    /** The first loop of `processFlowModInputBuilders`: one partial request
        per flow mod, in order. */
    method SubmitPartials(ofFlowModInputs: seq<FlowModInput>)
      modifies this`submitted
      ensures submitted == old(submitted) + ofFlowModInputs
    {
      var k := 0;
      while k < |ofFlowModInputs|
        invariant 0 <= k <= |ofFlowModInputs|
        invariant submitted == old(submitted) + ofFlowModInputs[..k]
      {
        submitted := submitted + [ofFlowModInputs[k]];
        assert ofFlowModInputs[..k + 1] == ofFlowModInputs[..k] + [ofFlowModInputs[k]];
        k := k + 1;
      }
      assert ofFlowModInputs[..k] == ofFlowModInputs;
    }

    /** One round of the fold: the errors the partial adds to `rpcErrorLot`;
        a partial that threw has its xid, when it has one, unhooked from the
        device context. */
    method FoldPartial(xid: Option<nat>, result: PartialOutcome) returns (errors: seq<RpcError>)
      modifies this`unhooked
      ensures errors == PartialErrors(xid, result)
      ensures unhooked == old(unhooked) + (if result.Threw? && xid.Some? then [xid.value] else [])
    {
      errors := [];
      if result.Cancelled? {
        // the one and only positive case
      } else if result.Threw? {
        errors := [ApplicationError("flow future result [" + XidText(xid) + "] failed with exception")];
        if xid.Some? {
          unhooked := unhooked + [xid.value];
        }
      } else if result.Completed? {
        if result.result.successful {
          errors := [ApplicationError("flow future result was successful [" + XidText(xid) + "] = this should have never happen")];
        } else {
          errors := result.result.errors;
        }
      }
    }

    /** The fold of the settled outcomes, zipped with their flow mods in
        order: the errors of `CollectedErrors`, unhooking the xid of every
        partial that threw. */
    method FoldPartials(ofFlowModInputs: seq<FlowModInput>, results: seq<PartialOutcome>)
      returns (rpcErrorLot: seq<RpcError>)
      requires |results| == |ofFlowModInputs|
      modifies this`unhooked
      ensures rpcErrorLot == CollectedErrors(ofFlowModInputs, results)
      ensures unhooked == old(unhooked) + Unhooked(ofFlowModInputs, results)
    {
      rpcErrorLot := [];
      var i := 0;
      assert ofFlowModInputs[..0] == [] && results[..0] == [];
      while i < |ofFlowModInputs|
        invariant 0 <= i <= |ofFlowModInputs|
        invariant rpcErrorLot == CollectedErrors(ofFlowModInputs[..i], results[..i])
        invariant unhooked == old(unhooked) + Unhooked(ofFlowModInputs[..i], results[..i])
      {
        ghost var m, o := ofFlowModInputs[..i + 1], results[..i + 1];
        assert m == ofFlowModInputs[..i] + [ofFlowModInputs[i]] && o == results[..i] + [results[i]];
        CollectedErrorsLast(m, o, ofFlowModInputs[..i], results[..i], ofFlowModInputs[i], results[i]);
        UnhookedLast(m, o, ofFlowModInputs[..i], results[..i], ofFlowModInputs[i], results[i]);
        var errors := FoldPartial(ofFlowModInputs[i].xid, results[i]);
        rpcErrorLot := rpcErrorLot + errors;
        i := i + 1;
      }
      assert ofFlowModInputs[..i] == ofFlowModInputs && results[..i] == results;
    }

    /** `processFlowModInputBuilders`: the partial requests and then the fold
        of their outcomes into the final result; a failed combined future
        gives one error. */
    method ProcessFlowModInputBuilders(ofFlowModInputs: seq<FlowModInput>, allFutures: CombinedOutcome)
      returns (r: RpcResult)
      requires allFutures.Settled? ==> |allFutures.outcomes| == |ofFlowModInputs|
      modifies this`submitted, this`unhooked
      ensures submitted == old(submitted) + ofFlowModInputs
      ensures r == FoldResult(ofFlowModInputs, allFutures)
      ensures unhooked == old(unhooked)
        + (if allFutures.Settled? then Unhooked(ofFlowModInputs, allFutures.outcomes) else [])
    {
      SubmitPartials(ofFlowModInputs);
      if allFutures.CombinedFailed? {
        assert unhooked == old(unhooked) + [];
        return Failed([ApplicationError(allFutures.message)]);
      }
      var rpcErrorLot := FoldPartials(ofFlowModInputs, allFutures.outcomes);
      if |rpcErrorLot| == 0 {
        r := Success();
      } else {
        r := Failed(rpcErrorLot);
      }
    }

    /** `createResultForFlowMod`: stamps the request's xid on the flow mod,
        commits it to the outbound queue, and answers with success or with the
        queue's failure. */
    method CreateResultForFlowMod(xid: nat, flowModInput: FlowModInput, commit: CommitOutcome)
      returns (r: RpcResult)
      modifies this`committed
      ensures committed == old(committed) + [flowModInput.(xid := Some(xid))]
      ensures r.successful <==> commit.Committed?
      ensures commit.CommitFailed? ==> r.errors == [RpcError(Application, None, commit.message)]
    {
      var stamped := flowModInput.(xid := Some(xid));
      committed := committed + [stamped];
      if commit.Committed? {
        r := Success();
      } else {
        r := Failed([RpcError(Application, None, commit.message)]);
      }
    }

    /** `addFlow`. The final future is always set, so its `onSuccess` runs
        whatever the result: with a flow reference the flow is stored under its
        hash at its table and id, without one `storeIfNecessary` places it. */
    method AddFlow(input: AddFlowInput, allFutures: CombinedOutcome) returns (r: RpcResult)
      requires allFutures.Settled? ==> |allFutures.outcomes| == |toFlowModInputs(AddKind, input.flow)|
      modifies this`submitted, this`unhooked, this`flowRegistry
      ensures var mods := toFlowModInputs(AddKind, input.flow);
        && submitted == old(submitted) + mods
        && r == FoldResult(mods, allFutures)
        && unhooked == old(unhooked) + (if allFutures.Settled? then Unhooked(mods, allFutures.outcomes) else [])
      ensures input.flowRef.Some? ==>
        flowRegistry == old(flowRegistry)[flowHash(input.flow) := FlowDescriptor(input.flow.tableId,
                                                                                  input.flowRef.value.flowId)]
      ensures input.flowRef.None? ==>
        flowRegistry == storeIfNecessary(old(flowRegistry), flowHash(input.flow), input.flow.tableId)
    {
      var ofFlowModInputs := toFlowModInputs(AddKind, input.flow);
      r := ProcessFlowModInputBuilders(ofFlowModInputs, allFutures);
      var hash := flowHash(input.flow);
      if input.flowRef.Some? {
        var flowId := input.flowRef.value.flowId;
        flowRegistry := flowRegistry[hash := FlowDescriptor(input.flow.tableId, flowId)];
      } else {
        flowRegistry := storeIfNecessary(flowRegistry, hash, input.flow.tableId);
      }
    }

    /** The `onFailure` of `addFlow`'s callback: marks the flow's hash to be
        removed. The final future of `processFlowModInputBuilders` is never
        failed, so `AddFlow` does not reach it. */
    method AddFlowFailed(input: AddFlowInput)
      modifies this`markedToBeRemoved
      ensures markedToBeRemoved == old(markedToBeRemoved) + {flowHash(input.flow)}
    {
      markedToBeRemoved := markedToBeRemoved + {flowHash(input.flow)};
    }

    /** `removeFlow`, for the request context's xid: one flow mod, committed
        through `createResultForFlowMod`. Its future is always set, so the
        hash is marked to be removed whatever the queue answers. */
    method RemoveFlow(input: RemoveFlowInput, xid: nat, commit: CommitOutcome) returns (r: RpcResult)
      modifies this`committed, this`markedToBeRemoved
      ensures committed == old(committed) + [toFlowModInput(RemoveKind, input.flow).(xid := Some(xid))]
      ensures r.successful <==> commit.Committed?
      ensures markedToBeRemoved == old(markedToBeRemoved) + {flowHash(input.flow)}
    {
      var ofFlowModInput := toFlowModInput(RemoveKind, input.flow);
      r := CreateResultForFlowMod(xid, ofFlowModInput, commit);
      markedToBeRemoved := markedToBeRemoved + {flowHash(input.flow)};
    }

    /** `updateFlow`: the batch of `UpdateFlowMods`, built by appending, and
        then the callback, which runs whatever the result. It reads the flow id
        from the flow reference first, so without one it fails before touching
        the registry; with one it marks the original's hash to be removed and
        stores the updated flow under its hash. */
    method UpdateFlow(input: UpdateFlowInput, allFutures: CombinedOutcome) returns (r: RpcResult)
      requires allFutures.Settled? ==>
        |allFutures.outcomes| == |UpdateFlowMods(input, canModifyFlow(input.originalFlow, input.updatedFlow),
                                                 toFlowModInputs)|
      modifies this`submitted, this`unhooked, this`flowRegistry, this`markedToBeRemoved
      ensures var mods := UpdateFlowMods(input, canModifyFlow(input.originalFlow, input.updatedFlow), toFlowModInputs);
        && submitted == old(submitted) + mods
        && r == FoldResult(mods, allFutures)
        && unhooked == old(unhooked) + (if allFutures.Settled? then Unhooked(mods, allFutures.outcomes) else [])
      ensures input.flowRef.None? ==>
        flowRegistry == old(flowRegistry) && markedToBeRemoved == old(markedToBeRemoved)
      ensures input.flowRef.Some? ==>
        && markedToBeRemoved == old(markedToBeRemoved) + {flowHash(input.originalFlow)}
        && flowRegistry == old(flowRegistry)[flowHash(input.updatedFlow) :=
                                             FlowDescriptor(input.updatedFlow.tableId, input.flowRef.value.flowId)]
    {
      var updated, original := input.updatedFlow, input.originalFlow;
      var allFlowMods: seq<FlowModInput> := [];
      var ofFlowModInputs: seq<FlowModInput>;
      if !canModifyFlow(original, updated) {
        var ofFlowRemoveInput := toFlowModInputs(RemoveKind, original);
        allFlowMods := allFlowMods + ofFlowRemoveInput;
        ofFlowModInputs := toFlowModInputs(AddKind, updated);
      } else {
        ofFlowModInputs := toFlowModInputs(UpdateKind, updated);
      }
      allFlowMods := allFlowMods + ofFlowModInputs;
      assert allFlowMods == UpdateFlowMods(input, canModifyFlow(original, updated), toFlowModInputs);
      r := ProcessFlowModInputBuilders(allFlowMods, allFutures);
      if input.flowRef.Some? {
        var hash, updatedHash := flowHash(original), flowHash(updated);
        var flowDescriptor := FlowDescriptor(updated.tableId, input.flowRef.value.flowId);
        markedToBeRemoved := markedToBeRemoved + {hash};
        flowRegistry := flowRegistry[updatedHash := flowDescriptor];
      }
    }
  }
}
