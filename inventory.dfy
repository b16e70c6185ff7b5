/** The inventory and flow-service values that the forwarding-rules manager
    builds and the flow service consumes: flows with their instructions,
    groups, and the add, update and remove inputs. Fields that are only
    copied along are kept together in `attributes`. */
module Inventory {
  import opened Wrappers

  type NodeId = string
  type FlowId = string

  /** `InstanceIdentifier<Flow>`: node, table and flow. `firstKeyOf(Table)`
      may find no table key. */
  datatype FlowPath = FlowPath(nodeId: NodeId, tableKey: Option<int>, flowId: FlowId)

  /** `FlowTableRef(nodeIdent.child(Table.class, tableKey))`. */
  datatype TablePath = TablePath(nodeId: NodeId, tableId: int)

  /** `InstanceIdentifier<Group>` of a node's group in the inventory. */
  datatype GroupPath = GroupPath(nodeId: NodeId, groupId: nat)

  /** The action cases the model tells apart: a group action (its id is a
      `Uint32`) and every other action. */
  datatype Action = GroupAction(groupId: nat) | OtherAction(kind: string)

  /** The instruction cases the model tells apart: apply-actions and every
      other instruction. */
  datatype Instruction = ApplyActions(actions: seq<Action>) | OtherInstruction(kind: string)

  /** A flow: its id, its table id and instructions (either may be null), the
      strict flag (null when unset) and the remaining fields. */
  datatype Flow = Flow(id: FlowId, tableId: Option<int>, instructions: Option<seq<Instruction>>,
                       strict: Option<bool>, attributes: string)

  datatype Group = Group(groupId: nat, attributes: string)

  /** `AddFlowInput`: the flow's fields and where it goes. */
  datatype AddFlowInput = AddFlowInput(flow: Flow, node: NodeId, flowRef: Option<FlowPath>,
                                       flowTable: Option<TablePath>, transactionUri: string)

  /** `RemoveFlowInput`. */
  datatype RemoveFlowInput = RemoveFlowInput(flow: Flow, node: NodeId, flowRef: Option<FlowPath>,
                                             flowTable: Option<TablePath>, transactionUri: string)

  /** `UpdateFlowInput`: the target and the two versions of the flow. */
  datatype UpdateFlowInput = UpdateFlowInput(node: NodeId, flowRef: Option<FlowPath>, transactionUri: string,
                                             updatedFlow: Flow, originalFlow: Flow)

  /** `AddGroupInput`: the group's fields, the node and the group reference. */
  datatype AddGroupInput = AddGroupInput(group: Group, node: NodeId, groupRef: NodeId, transactionUri: string)

  /** A flow marked strict, as `setStrict(Boolean.TRUE)` leaves it. */
  function Strict(f: Flow): (g: Flow)
    ensures g.strict == Some(true)
    ensures g.(strict := f.strict) == f
  {
    f.(strict := Some(true))
  }
}
