/** FlowForwarder: how the forwarding-rules manager turns a configured flow
    into flow-service calls. A flow is handled only when the table id in its
    path is the one in its payload. Removing sends a strict remove at once.
    Adding and updating enqueue a job for the node: when the flow's first
    group action names a group the device does not have yet, the job first
    pushes that group from the configuration, and sends the flow only once the
    push succeeded or failed only because the group already exists.

    The model keeps the device group registry (`DevicesGroupRegistry`) and the
    requests sent, in order, as the fields of a class. The job queue runs the
    job at once after logging it; transaction ids, the configuration read and
    the group service's reply are parameters. Futures are not part of this
    model. */
module FlowForwarders {
  import opened Wrappers
  import opened Text
  import opened Rpc
  import opened Inventory

  /** `GROUP_EXISTS_IN_DEVICE_ERROR`. */
  const GROUP_EXISTS_IN_DEVICE_ERROR: string := "GROUPEXISTS"

  /** `StaleFlow`: a copy of a deleted flow's fields. */
  datatype StaleFlow = StaleFlow(id: FlowId, tableId: Option<int>, instructions: Option<seq<Instruction>>,
                                 strict: Option<bool>, attributes: string)

  /** The stale flow's place in the configuration: node, table and flow id. */
  datatype StaleFlowPath = StaleFlowPath(nodeId: NodeId, tableId: int, flowId: FlowId)

  /** What the forwarder sends, or hands to the node's job queue, in order. */
  datatype Outbound =
    | JobEnqueued(nodeId: NodeId)
    | AddFlowRequest(addInput: AddFlowInput)
    | UpdateFlowRequest(updateInput: UpdateFlowInput)
    | RemoveFlowRequest(removeInput: RemoveFlowInput)
    | AddGroupRequest(groupInput: AddGroupInput)
    | StaleFlowWrite(path: StaleFlowPath, staleFlow: StaleFlow)

  /** The configuration read of `pushDependentGroup`: the groups it can see, or
      a read whose `get()` throws. */
  datatype ConfigRead = ConfigGroups(groups: map<GroupPath, Group>) | ReadFailed

  /** How the group-push future ends: with a result (`onSuccess`) or with a
      throwable (`onFailure`). */
  datatype GroupReply = GroupReplied(result: RpcResult) | GroupCallFailed

  /** The per-node group registry. */
  type GroupRegistry = map<NodeId, set<nat>>

  // --------------------------------------------------------------- table id

  /** `tableIdValidationPrecondition`: a missing table key fails
      `checkNotNull`, and otherwise the check is that the keys agree. */
  function TableIdValidationPrecondition(tableKey: Option<int>, flow: Flow): (r: Result<bool>)
    ensures r.Err? <==> tableKey.None?
    ensures r.Err? ==> r.error == NullPointer
    ensures r.Ok? ==> (r.value <==> flow.tableId == Some(tableKey.value))
  {
    if tableKey.None? then Err(NullPointer)
    else Ok(flow.tableId.Some? && tableKey.value == flow.tableId.value)
  }

  // --------------------------------------------------------- dependent group

  /** The actions `isFlowDependentOnGroup` looks at in an instruction: those
      of an apply-actions instruction, and none of any other. */
  function ActionsOf(ins: Instruction): seq<Action> {
    if ins.ApplyActions? then ins.actions else []
  }

  /** The first group action's id of an action list. */
  function FirstGroup(actions: seq<Action>): Option<nat> {
    if |actions| == 0 then None
    else if actions[0].GroupAction? then Some(actions[0].groupId)
    else FirstGroup(actions[1..])
  }

  /** The first group action's id, instruction by instruction. */
  function FirstGroupIn(instructions: seq<Instruction>): Option<nat> {
    if |instructions| == 0 then None
    else
      var g := FirstGroup(ActionsOf(instructions[0]));
      if g.Some? then g else FirstGroupIn(instructions[1..])
  }

  /** The group a flow depends on. */
  function DependentGroupOf(flow: Flow): Option<nat> {
    if flow.instructions.None? then None else FirstGroupIn(flow.instructions.value)
  }

  /** `isFlowDependentOnGroup`: the nested scan with its early return. */
  method DependentGroup(flow: Flow) returns (groupId: Option<nat>)
    ensures groupId == DependentGroupOf(flow)
  {
    if flow.instructions.Some? {
      var instructions := flow.instructions.value;
      var i := 0;
      while i < |instructions|
        invariant 0 <= i <= |instructions|
        invariant FirstGroupIn(instructions) == FirstGroupIn(instructions[i..])
      {
        var actions: seq<Action> := [];
        if instructions[i].ApplyActions? {
          actions := instructions[i].actions;
        }
        var j := 0;
        while j < |actions|
          invariant 0 <= j <= |actions|
          invariant FirstGroup(actions) == FirstGroup(actions[j..])
        {
          if actions[j].GroupAction? {
            return Some(actions[j].groupId);
          }
          assert actions[j..][1..] == actions[j + 1..];
          j := j + 1;
        }
        assert instructions[i..][1..] == instructions[i + 1..];
        i := i + 1;
      }
    }
    return None;
  }

  /** Every action the scan looks at, in scanning order. */
  function AllActions(instructions: seq<Instruction>): seq<Action> {
    if |instructions| == 0 then [] else ActionsOf(instructions[0]) + AllActions(instructions[1..])
  }

  /** The first group action of two lists in a row is the first one's, if it
      has one. */
  lemma {:induction false} FirstGroupAppend(a: seq<Action>, b: seq<Action>)
    ensures FirstGroup(a + b) == if FirstGroup(a).Some? then FirstGroup(a) else FirstGroup(b)
    decreases |a|
  {
    if |a| == 0 {
      assert a + b == b;
    } else {
      assert (a + b)[1..] == a[1..] + b;
      FirstGroupAppend(a[1..], b);
    }
  }

  /** The instruction-by-instruction scan finds the first group action of all
      the apply-actions actions in order. */
  lemma {:induction false} FirstGroupInIsFirstOfAll(instructions: seq<Instruction>)
    ensures FirstGroupIn(instructions) == FirstGroup(AllActions(instructions))
    decreases |instructions|
  {
    if |instructions| > 0 {
      FirstGroupInIsFirstOfAll(instructions[1..]);
      FirstGroupAppend(ActionsOf(instructions[0]), AllActions(instructions[1..]));
    }
  }

  /** `FirstGroup` finds a group id exactly when some action is a group
      action with that id and no action before it is a group action. */
  lemma {:induction false} FirstGroupIsFirst(actions: seq<Action>, g: nat)
    ensures FirstGroup(actions) == Some(g) <==>
      exists j :: 0 <= j < |actions| && actions[j] == GroupAction(g)
                  && (forall m :: 0 <= m < j ==> !actions[m].GroupAction?)
    decreases |actions|
  {
    if |actions| > 0 {
      var t := actions[1..];
      FirstGroupIsFirst(t, g);
      if FirstGroup(actions) == Some(g) && !actions[0].GroupAction? {
        var j :| 0 <= j < |t| && t[j] == GroupAction(g) && forall m :: 0 <= m < j ==> !t[m].GroupAction?;
        assert actions[j + 1] == GroupAction(g);
        assert forall m :: 0 <= m < j + 1 ==> !actions[m].GroupAction? by {
          forall m | 0 <= m < j + 1 ensures !actions[m].GroupAction? {
            if m > 0 { assert actions[m] == t[m - 1]; }
          }
        }
      }
      if exists j :: 0 <= j < |actions| && actions[j] == GroupAction(g)
                     && (forall m :: 0 <= m < j ==> !actions[m].GroupAction?)
      {
        var j :| 0 <= j < |actions| && actions[j] == GroupAction(g)
                 && (forall m :: 0 <= m < j ==> !actions[m].GroupAction?);
        if j > 0 {
          assert t[j - 1] == GroupAction(g);
          assert forall m :: 0 <= m < j - 1 ==> !t[m].GroupAction? by {
            forall m | 0 <= m < j - 1 ensures !t[m].GroupAction? {
              assert t[m] == actions[m + 1];
            }
          }
        }
      }
    }
  }

  /** `FirstGroup` finds nothing exactly when no action is a group action. */
  lemma {:induction false} FirstGroupNone(actions: seq<Action>)
    ensures FirstGroup(actions).None? <==> forall j :: 0 <= j < |actions| ==> !actions[j].GroupAction?
    decreases |actions|
  {
    if |actions| > 0 {
      FirstGroupNone(actions[1..]);
      assert forall j :: 0 < j < |actions| ==> actions[j] == actions[1..][j - 1];
    }
  }

  // ------------------------------------------------------------ group push

  /** Whether the registry records `groupId` on `nodeId`
      (`isGroupPresent`). */
  predicate GroupPresent(groups: GroupRegistry, nodeId: NodeId, groupId: nat) {
    nodeId in groups && groupId in groups[nodeId]
  }

  /** `storeGroup`. The registry's implementation is not part of this model:
      storing adds the group to the node's set. */
  function StoreGroup(groups: GroupRegistry, nodeId: NodeId, groupId: nat): (r: GroupRegistry)
    ensures GroupPresent(r, nodeId, groupId)
    ensures forall n, g :: GroupPresent(groups, n, g) ==> GroupPresent(r, n, g)
    ensures forall n, g :: GroupPresent(r, n, g) ==> GroupPresent(groups, n, g) || (n == nodeId && g == groupId)
  {
    groups[nodeId := (if nodeId in groups then groups[nodeId] else {}) + {groupId}]
  }

  /** The failed result `pushDependentGroup` makes up when the configuration
      has no such group. */
  function GroupNotInConfigResult(groupId: nat): RpcResult {
    Failed([RpcError(Application, None, "Group " + NumStr(groupId) + " not present in the config inventory")])
  }

  /** The failed result it makes up when the read throws. */
  function ReadFailedResult(groupId: nat): RpcResult {
    Failed([RpcError(Application, None, "Error while reading group " + NumStr(groupId) + " from inventory")])
  }

  /** The group the configuration holds for the node, if the read succeeds. */
  function ConfigGroup(configRead: ConfigRead, nodeId: NodeId, groupId: nat): Option<Group> {
    if configRead.ConfigGroups? && GroupPath(nodeId, groupId) in configRead.groups
    then Some(configRead.groups[GroupPath(nodeId, groupId)])
    else None
  }

  /** The `addGroup` input for a group from the configuration: its group
      reference is the node's identifier, as `new GroupRef(nodeIdent)`. */
  function AddGroupInputOf(group: Group, nodeId: NodeId, transactionUri: string): AddGroupInput {
    AddGroupInput(group, nodeId, nodeId, transactionUri)
  }

  /** The requests `pushDependentGroup` sends: one `addGroup` when the group is
      in the configuration, none otherwise. */
  function PushRequests(configRead: ConfigRead, nodeId: NodeId, groupId: nat, transactionUri: string)
    : (r: seq<Outbound>)
    ensures |r| <= 1
    ensures r != [] <==> ConfigGroup(configRead, nodeId, groupId).Some?
    ensures r != [] ==> && r[0].AddGroupRequest?
                        && Some(r[0].groupInput.group) == ConfigGroup(configRead, nodeId, groupId)
                        && r[0].groupInput.node == nodeId && r[0].groupInput.transactionUri == transactionUri
  {
    var group := ConfigGroup(configRead, nodeId, groupId);
    if group.Some? then [AddGroupRequest(AddGroupInputOf(group.value, nodeId, transactionUri))] else []
  }

  /** The reply the callback gets: the group service's, or the made-up
      failure. */
  function PushReply(configRead: ConfigRead, nodeId: NodeId, groupId: nat, serviceReply: GroupReply)
    : (r: GroupReply)
    ensures ConfigGroup(configRead, nodeId, groupId).Some? ==> r == serviceReply
    ensures GroupAccepted(r) ==> ConfigGroup(configRead, nodeId, groupId).Some? && r == serviceReply
  {
    MadeUpFailuresRejected(groupId);
    if ConfigGroup(configRead, nodeId, groupId).Some? then serviceReply
    else if configRead.ReadFailed? then GroupReplied(ReadFailedResult(groupId))
    else GroupReplied(GroupNotInConfigResult(groupId))
  }

  /** The condition of `onSuccess` under which the group is stored and the
      flow sent: a successful result, or exactly one error whose message
      contains `GROUPEXISTS`. */
  predicate GroupAccepted(reply: GroupReply) {
    reply.GroupReplied?
    && (reply.result.successful
        || (|reply.result.errors| == 1
            && Contains(reply.result.errors[0].message, GROUP_EXISTS_IN_DEVICE_ERROR)))
  }

  /** A message made of two pieces without an `X` around a number does not
      contain `GROUPEXISTS`. */
  lemma NumberMessageLacksGroupExists(a: string, n: nat, b: string)
    requires 'X' !in a && 'X' !in b
    ensures !Contains(a + NumStr(n) + b, GROUP_EXISTS_IN_DEVICE_ERROR)
  {
    var d := NumStr(n);
    assert 'X' !in d;
    assert 'X' !in a + d;
    assert GROUP_EXISTS_IN_DEVICE_ERROR[6] == 'X';
    ContainsNeedsChar(a + d + b, GROUP_EXISTS_IN_DEVICE_ERROR, 6);
  }

  /** A made-up failure never passes for an existing group: neither message
      has an `X` in it, and `GROUPEXISTS` has. */
  lemma MadeUpFailuresRejected(groupId: nat)
    ensures !GroupAccepted(GroupReplied(GroupNotInConfigResult(groupId)))
    ensures !GroupAccepted(GroupReplied(ReadFailedResult(groupId)))
  {
    var a1, b1 := "Group ", " not present in the config inventory";
    assert 'X' !in a1 && 'X' !in b1;
    NumberMessageLacksGroupExists(a1, groupId, b1);
    var a2, b2 := "Error while reading group ", " from inventory";
    assert 'X' !in a2 && 'X' !in b2;
    NumberMessageLacksGroupExists(a2, groupId, b2);
  }

  /** A device that answers with one error saying, in whatever words, that the
      group already exists has its group taken as pushed; a second error of
      any kind makes the push count as failed. */
  lemma GroupExistsAccepted(t: ErrorType, tag: Option<string>, a: string, b: string, other: RpcError)
    ensures GroupAccepted(GroupReplied(Failed([RpcError(t, tag, a + GROUP_EXISTS_IN_DEVICE_ERROR + b)])))
    ensures !GroupAccepted(GroupReplied(Failed([RpcError(t, tag, a + GROUP_EXISTS_IN_DEVICE_ERROR + b), other])))
  {
    var m := a + GROUP_EXISTS_IN_DEVICE_ERROR + b;
    assert m[|a|..|a| + |GROUP_EXISTS_IN_DEVICE_ERROR|] == GROUP_EXISTS_IN_DEVICE_ERROR;
    ContainsAt(m, GROUP_EXISTS_IN_DEVICE_ERROR, |a|);
  }

  /** When the group is not in the configuration, or cannot be read, no group
      is pushed and the flow is never sent. */
  lemma NoConfigGroupNoPush(configRead: ConfigRead, nodeId: NodeId, groupId: nat, transactionUri: string,
                            serviceReply: GroupReply)
    requires ConfigGroup(configRead, nodeId, groupId).None?
    ensures PushRequests(configRead, nodeId, groupId, transactionUri) == []
    ensures !GroupAccepted(PushReply(configRead, nodeId, groupId, serviceReply))
  {
    MadeUpFailuresRejected(groupId);
  }

  // ------------------------------------------------------------------- job

  /** What a job leaves behind: the registry and the requests it sent. */
  datatype JobEffect = JobEffect(groups: GroupRegistry, sent: seq<Outbound>)

  /** The job that `add` and `update` enqueue, for the flow request it is to
      send and the group the flow depends on: sent at once without a
      dependency or with the group on the device; otherwise after the group
      push, and only if the callback accepts the push's reply. */
  function Job(groups: GroupRegistry, nodeId: NodeId, groupId: Option<nat>, flowRequest: Outbound,
               configRead: ConfigRead, groupTxUri: string, serviceReply: GroupReply): (e: JobEffect)
    // the registry only grows, and only by the flow's own dependency
    ensures forall n, g: nat :: GroupPresent(groups, n, g) ==> GroupPresent(e.groups, n, g)
    ensures forall n, g: nat :: GroupPresent(e.groups, n, g) ==>
      GroupPresent(groups, n, g) || (n == nodeId && groupId == Some(g))
    // at most one group push and the flow; anything else sent is an addGroup for the node
    ensures |e.sent| <= 2
    ensures forall i :: 0 <= i < |e.sent| && e.sent[i] != flowRequest ==>
      e.sent[i].AddGroupRequest? && e.sent[i].groupInput.node == nodeId
    // the flow goes out last, and only once the group it depends on is recorded
    ensures !flowRequest.AddGroupRequest? && flowRequest in e.sent ==>
      && e.sent[|e.sent| - 1] == flowRequest
      && (groupId.None? || GroupPresent(e.groups, nodeId, groupId.value))
    // the registry changes only when the flow is sent
    ensures e.groups != groups ==> flowRequest in e.sent
  {
    if groupId.None? || GroupPresent(groups, nodeId, groupId.value) then JobEffect(groups, [flowRequest])
    else
      var push := PushRequests(configRead, nodeId, groupId.value, groupTxUri);
      if GroupAccepted(PushReply(configRead, nodeId, groupId.value, serviceReply))
      then JobEffect(StoreGroup(groups, nodeId, groupId.value), push + [flowRequest])
      else JobEffect(groups, push)
  }

  /** Without a dependency, or with the group already on the device, the job
      sends just the flow and pushes no group. */
  lemma JobSendsDirectly(groups: GroupRegistry, nodeId: NodeId, groupId: Option<nat>, flowRequest: Outbound,
                         configRead: ConfigRead, groupTxUri: string, serviceReply: GroupReply)
    requires groupId.None? || GroupPresent(groups, nodeId, groupId.value)
    ensures Job(groups, nodeId, groupId, flowRequest, configRead, groupTxUri, serviceReply)
      == JobEffect(groups, [flowRequest])
  {
  }

  /** After an accepted push the group is recorded and the flow is the last
      request sent, after the group's. */
  lemma JobAfterAcceptedPush(groups: GroupRegistry, nodeId: NodeId, g: nat, flowRequest: Outbound,
                             configRead: ConfigRead, groupTxUri: string, serviceReply: GroupReply)
    requires !GroupPresent(groups, nodeId, g)
    requires GroupAccepted(PushReply(configRead, nodeId, g, serviceReply))
    ensures var e := Job(groups, nodeId, Some(g), flowRequest, configRead, groupTxUri, serviceReply);
      && GroupPresent(e.groups, nodeId, g)
      && e.sent == PushRequests(configRead, nodeId, g, groupTxUri) + [flowRequest]
      && |e.sent| == 2 && e.sent[0].AddGroupRequest?
  {
    NoConfigGroupNoPushNeeded(configRead, nodeId, g, serviceReply);
  }

  /** Only a pushed group's reply can be accepted. */
  lemma NoConfigGroupNoPushNeeded(configRead: ConfigRead, nodeId: NodeId, g: nat, serviceReply: GroupReply)
    requires GroupAccepted(PushReply(configRead, nodeId, g, serviceReply))
    ensures ConfigGroup(configRead, nodeId, g).Some?
  {
    if ConfigGroup(configRead, nodeId, g).None? {
      NoConfigGroupNoPush(configRead, nodeId, g, "", serviceReply);
    }
  }

  /** Any other outcome of a push leaves the registry as it was and never
      sends the flow. */
  lemma JobAfterRejectedPush(groups: GroupRegistry, nodeId: NodeId, g: nat, flowRequest: Outbound,
                             configRead: ConfigRead, groupTxUri: string, serviceReply: GroupReply)
    requires !GroupPresent(groups, nodeId, g)
    requires !GroupAccepted(PushReply(configRead, nodeId, g, serviceReply))
    requires !flowRequest.AddGroupRequest?
    ensures var e := Job(groups, nodeId, Some(g), flowRequest, configRead, groupTxUri, serviceReply);
      e.groups == groups && flowRequest !in e.sent
  {
  }

  // ------------------------------------------------------------- stale flow

  /** `makeStaleFlow`: the deleted flow's fields, with its id. */
  function MakeStaleFlow(del: Flow): StaleFlow {
    StaleFlow(del.id, del.tableId, del.instructions, del.strict, del.attributes)
  }

  /** The flow a stale flow copies. */
  function FlowOfStale(s: StaleFlow): Flow {
    Flow(s.id, s.tableId, s.instructions, s.strict, s.attributes)
  }

  /** A stale flow keeps every field of the deleted flow, its id included. */
  lemma StaleFlowKeepsFlow(del: Flow)
    ensures FlowOfStale(MakeStaleFlow(del)) == del && MakeStaleFlow(del).id == del.id
  {
  }

  /** `getStaleFlowInstanceIdentifier`: under the node, in the stale flow's
      table, keyed by its id. A stale flow without a table id cannot make a
      table key. */
  function StaleFlowIdentifier(staleFlow: StaleFlow, nodeId: NodeId): (r: Result<StaleFlowPath>)
    ensures r.Err? <==> staleFlow.tableId.None?
    ensures r.Ok? ==> r.value.nodeId == nodeId && Some(r.value.tableId) == staleFlow.tableId
                      && r.value.flowId == staleFlow.id
  {
    if staleFlow.tableId.None? then Err(NullPointer)
    else Ok(StaleFlowPath(nodeId, staleFlow.tableId.value, staleFlow.id))
  }

  // -------------------------------------------------------------- forwarder

  class FlowForwarder {
    /** The devices' group registry. */
    var groups: GroupRegistry
    /** The requests sent so far, in order. */
    var log: seq<Outbound>

    constructor()
      ensures groups == map[] && log == []
    {
      groups := map[];
      log := [];
    }

    /** `pushDependentGroup`: reads the group from the configuration and asks
        the group service to add it, or makes up a failed result. */
    method PushDependentGroup(nodeId: NodeId, groupId: nat, configRead: ConfigRead, transactionUri: string,
                              serviceReply: GroupReply)
      returns (reply: GroupReply)
      modifies this`log
      ensures log == old(log) + PushRequests(configRead, nodeId, groupId, transactionUri)
      ensures reply == PushReply(configRead, nodeId, groupId, serviceReply)
    {
      if configRead.ReadFailed? {
        reply := GroupReplied(ReadFailedResult(groupId));
      } else if GroupPath(nodeId, groupId) in configRead.groups {
        var group := configRead.groups[GroupPath(nodeId, groupId)];
        log := log + [AddGroupRequest(AddGroupInputOf(group, nodeId, transactionUri))];
        reply := serviceReply;
      } else {
        reply := GroupReplied(GroupNotInConfigResult(groupId));
      }
    }

    /** `AddFlowCallBack` and `UpdateFlowCallBack`: on an accepted reply the
        group is stored and the flow request sent; otherwise nothing
        happens. */
    method OnGroupPushed(nodeId: NodeId, groupId: nat, flowRequest: Outbound, reply: GroupReply)
      modifies this
      ensures GroupAccepted(reply) ==>
        groups == StoreGroup(old(groups), nodeId, groupId) && log == old(log) + [flowRequest]
      ensures !GroupAccepted(reply) ==> groups == old(groups) && log == old(log)
    {
      if reply.GroupReplied? {
        var rpcResult := reply.result;
        if rpcResult.successful {
          groups := StoreGroup(groups, nodeId, groupId);
          log := log + [flowRequest];
        } else if |rpcResult.errors| == 1 && Contains(rpcResult.errors[0].message, GROUP_EXISTS_IN_DEVICE_ERROR) {
          groups := StoreGroup(groups, nodeId, groupId);
          log := log + [flowRequest];
        }
      }
    }

    /** The body of the job `add` and `update` enqueue. */
    method RunJob(nodeId: NodeId, groupId: Option<nat>, flowRequest: Outbound, configRead: ConfigRead,
                  groupTxUri: string, serviceReply: GroupReply)
      modifies this
      ensures var e := Job(old(groups), nodeId, groupId, flowRequest, configRead, groupTxUri, serviceReply);
        groups == e.groups && log == old(log) + e.sent
    {
      if groupId.Some? {
        if GroupPresent(groups, nodeId, groupId.value) {
          log := log + [flowRequest];
        } else {
          var reply := PushDependentGroup(nodeId, groupId.value, configRead, groupTxUri, serviceReply);
          OnGroupPushed(nodeId, groupId.value, flowRequest, reply);
        }
      } else {
        log := log + [flowRequest];
      }
    }

    /** `add`: on a matching table id, enqueues the job for the node and runs
        it. The immediate null result the source returns either way is
        `Ok(_)`; `r` says whether the flow was taken on. */
    method Add(identifier: FlowPath, addDataObj: Flow, nodeId: NodeId, transactionUri: string,
               configRead: ConfigRead, groupTxUri: string, serviceReply: GroupReply)
      returns (r: Result<bool>)
      modifies this
      ensures r == TableIdValidationPrecondition(identifier.tableKey, addDataObj)
      ensures r != Ok(true) ==> groups == old(groups) && log == old(log)
      ensures r == Ok(true) ==>
        var input := AddFlowInput(addDataObj, nodeId, Some(identifier),
                                  Some(TablePath(nodeId, identifier.tableKey.value)), transactionUri);
        var e := Job(old(groups), nodeId, DependentGroupOf(addDataObj), AddFlowRequest(input), configRead,
                     groupTxUri, serviceReply);
        groups == e.groups && log == old(log) + [JobEnqueued(nodeId)] + e.sent
    {
      r := TableIdValidationPrecondition(identifier.tableKey, addDataObj);
      if r == Ok(true) {
        var input := AddFlowInput(addDataObj, nodeId, Some(identifier),
                                  Some(TablePath(nodeId, identifier.tableKey.value)), transactionUri);
        log := log + [JobEnqueued(nodeId)];
        var groupId := DependentGroup(addDataObj);
        RunJob(nodeId, groupId, AddFlowRequest(input), configRead, groupTxUri, serviceReply);
      }
    }

    /** `update`: on a matching table id of the updated flow, enqueues the job
        with both flows marked strict; the dependency is the updated flow's. */
    method Update(identifier: FlowPath, original: Flow, update: Flow, nodeId: NodeId, transactionUri: string,
                  configRead: ConfigRead, groupTxUri: string, serviceReply: GroupReply)
      returns (r: Result<bool>)
      modifies this
      ensures r == TableIdValidationPrecondition(identifier.tableKey, update)
      ensures r != Ok(true) ==> groups == old(groups) && log == old(log)
      ensures r == Ok(true) ==>
        var input := UpdateFlowInput(nodeId, Some(identifier), transactionUri, Strict(update), Strict(original));
        var e := Job(old(groups), nodeId, DependentGroupOf(update), UpdateFlowRequest(input), configRead,
                     groupTxUri, serviceReply);
        groups == e.groups && log == old(log) + [JobEnqueued(nodeId)] + e.sent
    {
      r := TableIdValidationPrecondition(identifier.tableKey, update);
      if r == Ok(true) {
        var input := UpdateFlowInput(nodeId, Some(identifier), transactionUri, Strict(update), Strict(original));
        log := log + [JobEnqueued(nodeId)];
        var groupId := DependentGroup(update);
        RunJob(nodeId, groupId, UpdateFlowRequest(input), configRead, groupTxUri, serviceReply);
      }
    }

    /** `removeWithResult`, and `remove`, which differs only in not returning
        the future: on a matching table id, sends a strict remove for the
        flow's table directly, without the job queue. `r` says whether the
        service was called, that is whether the future returned is the
        service's rather than one that never completes. */
    method RemoveWithResult(identifier: FlowPath, removeDataObj: Flow, nodeId: NodeId, transactionUri: string)
      returns (r: Result<bool>)
      modifies this`log
      ensures r == TableIdValidationPrecondition(identifier.tableKey, removeDataObj)
      ensures r != Ok(true) ==> log == old(log)
      ensures r == Ok(true) ==>
        log == old(log) + [RemoveFlowRequest(RemoveFlowInput(Strict(removeDataObj), nodeId, Some(identifier),
                                                             Some(TablePath(nodeId, identifier.tableKey.value)),
                                                             transactionUri))]
    {
      r := TableIdValidationPrecondition(identifier.tableKey, removeDataObj);
      if r == Ok(true) {
        var input := RemoveFlowInput(Strict(removeDataObj), nodeId, Some(identifier),
                                     Some(TablePath(nodeId, identifier.tableKey.value)), transactionUri);
        log := log + [RemoveFlowRequest(input)];
      }
    }

    /** `createStaleMarkEntity`: writes the stale copy of the deleted flow
        under its table and id. The write to the configuration is the
        `StaleFlowWrite` request. */
    method CreateStaleMarkEntity(del: Flow, nodeId: NodeId) returns (r: Result<StaleFlowPath>)
      modifies this`log
      ensures r == StaleFlowIdentifier(MakeStaleFlow(del), nodeId)
      ensures r.Err? ==> log == old(log)
      ensures r.Ok? ==> log == old(log) + [StaleFlowWrite(r.value, MakeStaleFlow(del))]
    {
      var staleFlow := MakeStaleFlow(del);
      r := StaleFlowIdentifier(staleFlow, nodeId);
      if r.Ok? {
        log := log + [StaleFlowWrite(r.value, staleFlow)];
      }
    }
  }

  /** A flow whose table ids disagree is neither sent nor queued, by any of
      the three operations: the forwarder answers `Ok(false)` three times and
      its registry and log are as they were. */
  method MismatchSendsNothing(forwarder: FlowForwarder, identifier: FlowPath, flow: Flow, nodeId: NodeId,
                              transactionUri: string, configRead: ConfigRead, serviceReply: GroupReply)
    returns (added: Result<bool>, updated: Result<bool>, removed: Result<bool>)
    requires identifier.tableKey.Some? && flow.tableId != identifier.tableKey
    modifies forwarder
    ensures added == updated == removed == Ok(false)
    ensures forwarder.groups == old(forwarder.groups) && forwarder.log == old(forwarder.log)
  {
    added := forwarder.Add(identifier, flow, nodeId, transactionUri, configRead, "", serviceReply);
    updated := forwarder.Update(identifier, flow, flow, nodeId, transactionUri, configRead, "", serviceReply);
    removed := forwarder.RemoveWithResult(identifier, flow, nodeId, transactionUri);
  }
}
