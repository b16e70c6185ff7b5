# OpenDaylight OpenFlow plugin: flow programming, batch results and wire codecs

This project is a Dafny model of three parts of the OpenDaylight OpenFlow
plugin, with proofs about each.

1. **The forwarding-rules manager's `FlowForwarder`** (module
   `FlowForwarders`). It decides which flow-service calls a configured flow
   turns into.
   - A flow is handled only when the table id in its path equals the one in
     its payload.
   - Removes go straight to the flow service, marked strict.
   - Adds and updates enqueue one job for the node. An update marks both the
     original and the updated flow strict.
   - The job scans the flow for its first group action, reading only
     apply-actions instructions. When the device group registry lacks that
     group, the job pushes the group from the configuration first. It then
     sends the flow only if the push succeeded, or failed with exactly one
     error containing `GROUPEXISTS`. In both of those cases the group is
     recorded.
   - The forwarder is a class. Its fields are the per-node group registry
     (`map<NodeId, set<nat>>`) and the log of requests sent, in order.

2. **The device flow service `SalFlowServiceImpl`** (module
   `SalFlowServices`).
   - `processFlowModInputBuilders` submits one partial request per flow mod,
     in order. It then folds the partial outcomes, zipped with their flow
     mods, into one RPC result:
     - a cancelled partial adds no error;
     - a partial that threw adds one error, and its xid is unhooked;
     - a partial that succeeded adds one "should have never happen" error;
     - a failed partial adds its own errors.
   - `updateFlow` sends the original flow's remove mods before the updated
     flow's add mods when the flow cannot be modified in place.
   - The callbacks update the device flow registry. It is a map from flow
     hash to descriptor, plus the set of hashes marked to be removed.
   - `createResultForFlowMod` stamps the request's xid on the flow mod and
     commits it to the outbound queue.

3. **Wire codecs.** Each works on a `ByteBuf` class: a byte sequence with a
   reader index. Reads return a `Result` and fail with `IndexOutOfBounds`
   when too few bytes are readable. Writes append. The codecs are:
   - the Nicira conntrack action with its NAT and ct_mark sub-actions
     (`ConntrackCodec`);
   - the framing and padding of the Nicira learn action (`LearnCodec`);
   - the Nicira NXM match codecs for TCP destination and "IPv6" destination
     (`TcpDstCodec`, `Ipv6DstCodec`);
   - the OpenFlow deserializers for:
     - the 1.0 packet-out message (section 5.3.6 of the OpenFlow Switch
       Specification 1.0.0);
     - the get-config reply (section A.3.2 of the OpenFlow Switch
       Specification 1.3);
     - the get-async request (section A.3.10 of the same specification);
     - the OXM metadata, ARP opcode and TCP destination match entries
       (section A.2.3);
     - the set-nw-ttl action (section A.2.5);
   - the TCP-flags experimenter match entry, which rejects a second
     occurrence.

   Every codec has a pure specification beside its methods. A serializer
   appends `Encoding(x)`. A deserializer is tied to `ParseAt(bytes, p)` or
   to an explicit field-by-field statement of what it reads. The round
   trips are proved twice: as lemmas on the specification functions, and as
   methods that write into an empty buffer and read it back.

Two small value computations are also modelled as functions. They are
`FlowsInTableService.buildRequest`, which fills the defaults of a
flow-statistics request, and `ConvertorKey`, with its constructor checks,
`equals` and `hashCode`.

Support modules:
- `Wrappers` holds `Option`, `Result` and the error kinds.
- `Bytes` holds big-endian encodings and the `At` window predicate.
- `ByteBufs` holds the buffer class.
- `Text` holds decimal strings and substring search.
- `Rpc` holds RPC results and errors.
- `Inventory` holds flows, instructions, actions, groups and the flow
  service inputs.
- `MatchEntries` holds match entries and the 4-octet OXM/NXM header.
- `NxActionHeader` holds the 10-octet Nicira action header.

### Behaviour of the code worth noting

- A batch in which any partial succeeded fails. The fold adds a "should
  have never happen" error for a successful partial
  (SalFlowServiceImpl.java:253-258). A partial that was cancelled,
  completed with null, or failed without errors adds nothing.
  `FoldSuccessIff` states exactly when a batch succeeds.
- The future a forwarder job returns is not completed by the dependent flow
  push. The group-push callbacks only reassign their own `future` field
  (FlowForwarder.java:229-251 and 404-417). The model makes no claim about
  that future.
- `removeFlow`'s callback runs on every settled result, not only on
  success, because the future it hangs on is always set. So the model marks
  the hash to be removed whatever the queue answers. For the same reason,
  `addFlow`'s `onFailure` is never reached from `addFlow`. It is modelled
  on its own as `AddFlowFailed`.
- `Ipv6DstCodec` announces a 16-octet value in its header but writes and
  reads one 32-bit value. The model keeps this. `Ipv6DstCodec.Encoding`
  states that the announced length exceeds what is written.

## Model

Source paths are relative to the repository root.

| member | source | states |
|---|---|---|
| FlowForwarders.TableIdValidationPrecondition | applications/forwardingrules-manager/src/main/java/org/opendaylight/openflowplugin/applications/frm/impl/FlowForwarder.java:271-280 | a missing table key is a null-pointer failure; otherwise the check holds exactly when the path's table id equals the payload's table id |
| FlowForwarders.DependentGroup | applications/forwardingrules-manager/src/main/java/org/opendaylight/openflowplugin/applications/frm/impl/FlowForwarder.java:354-373 | the nested scan with its early return yields the group a flow depends on: none without instructions, else the first group action found instruction by instruction, reading only apply-actions |
| FlowForwarders.FirstGroupInIsFirstOfAll | applications/forwardingrules-manager/src/main/java/org/opendaylight/openflowplugin/applications/frm/impl/FlowForwarder.java:356-371 | the instruction-by-instruction scan finds the first group action of all apply-actions actions in scanning order |
| FlowForwarders.FirstGroupAppend | applications/forwardingrules-manager/src/main/java/org/opendaylight/openflowplugin/applications/frm/impl/FlowForwarder.java:358-370 | the first group of two action lists in a row is the first list's when it has one, else the second's |
| FlowForwarders.FirstGroupIsFirst | applications/forwardingrules-manager/src/main/java/org/opendaylight/openflowplugin/applications/frm/impl/FlowForwarder.java:364-369 | the scan returns g exactly when some action is a group action with id g and no earlier action is a group action |
| FlowForwarders.FirstGroupNone | applications/forwardingrules-manager/src/main/java/org/opendaylight/openflowplugin/applications/frm/impl/FlowForwarder.java:354-373 | the scan finds nothing exactly when no action is a group action |
| FlowForwarders.StoreGroup | applications/forwardingrules-manager/src/main/java/org/opendaylight/openflowplugin/applications/frm/impl/FlowForwarder.java:404-417 | storing a group makes it present on its node, keeps every group already present and adds no other |
| FlowForwarders.NumberMessageLacksGroupExists | applications/forwardingrules-manager/src/main/java/org/opendaylight/openflowplugin/applications/frm/impl/FlowForwarder.java:411-413 | a message built around a number from pieces without an `X` cannot contain `GROUPEXISTS` |
| FlowForwarders.PushRequests | applications/forwardingrules-manager/src/main/java/org/opendaylight/openflowplugin/applications/frm/impl/FlowForwarder.java:330-340 | at most one request, sent exactly when the configuration holds the group: an `addGroup` of that configured group for the node, with the transaction id |
| FlowForwarders.PushReply | applications/forwardingrules-manager/src/main/java/org/opendaylight/openflowplugin/applications/frm/impl/FlowForwarder.java:330-351 | for a configured group the callback sees the group service's reply; an accepted reply can only come from a configured group, never from a made-up failure |
| FlowForwarders.GroupAccepted | applications/forwardingrules-manager/src/main/java/org/opendaylight/openflowplugin/applications/frm/impl/FlowForwarder.java:405-413 | the condition of `onSuccess`: a successful result, or exactly one error whose message contains `GROUPEXISTS` (definition; its consequences are stated by `GroupExistsAccepted` and `MadeUpFailuresRejected`) |
| FlowForwarders.GroupExistsAccepted | applications/forwardingrules-manager/src/main/java/org/opendaylight/openflowplugin/applications/frm/impl/FlowForwarder.java:410-416 | a failure with one error whose message has `GROUPEXISTS` anywhere in it is accepted; the same error with a second one is not |
| FlowForwarders.MadeUpFailuresRejected | applications/forwardingrules-manager/src/main/java/org/opendaylight/openflowplugin/applications/frm/impl/FlowForwarder.java:340-350 | neither failure that `pushDependentGroup` makes up (group not in the configuration, read failed) is accepted as an existing group |
| FlowForwarders.NoConfigGroupNoPush | applications/forwardingrules-manager/src/main/java/org/opendaylight/openflowplugin/applications/frm/impl/FlowForwarder.java:330-351 | when the configuration lacks the group or cannot be read, no `addGroup` is sent and the reply is not accepted |
| FlowForwarders.NoConfigGroupNoPushNeeded | applications/forwardingrules-manager/src/main/java/org/opendaylight/openflowplugin/applications/frm/impl/FlowForwarder.java:330-351 | an accepted reply implies the group was in the configuration and was pushed |
| FlowForwarders.Job | applications/forwardingrules-manager/src/main/java/org/opendaylight/openflowplugin/applications/frm/impl/FlowForwarder.java:229-251 | the registry only grows, and only by the flow's own dependency; at most an `addGroup` for the node and the flow are sent; the flow goes out last and only once its group is recorded; the registry changes only when the flow is sent |
| FlowForwarders.JobAfterAcceptedPush | applications/forwardingrules-manager/src/main/java/org/opendaylight/openflowplugin/applications/frm/impl/FlowForwarder.java:404-417 | after an accepted push the group is recorded and exactly two requests go out: the group's `addGroup`, then the flow |
| FlowForwarders.JobAfterRejectedPush | applications/forwardingrules-manager/src/main/java/org/opendaylight/openflowplugin/applications/frm/impl/FlowForwarder.java:418-429 | any other push outcome, a thrown failure included, leaves the registry unchanged and never sends the flow |
| FlowForwarders.StaleFlowKeepsFlow | applications/forwardingrules-manager/src/main/java/org/opendaylight/openflowplugin/applications/frm/impl/FlowForwarder.java:282-286 | the stale copy keeps every field of the deleted flow, its id included |
| FlowForwarders.StaleFlowIdentifier | applications/forwardingrules-manager/src/main/java/org/opendaylight/openflowplugin/applications/frm/impl/FlowForwarder.java:312-318 | the stale flow is keyed under its node by its table id and flow id; without a table id there is no key |
| FlowForwarders.FlowForwarder.PushDependentGroup | applications/forwardingrules-manager/src/main/java/org/opendaylight/openflowplugin/applications/frm/impl/FlowForwarder.java:320-352 | sends `addGroup` for the configured group with the node as its group reference, or makes up the not-present or read-failed result; the log grows by exactly `PushRequests` |
| FlowForwarders.FlowForwarder.OnGroupPushed | applications/forwardingrules-manager/src/main/java/org/opendaylight/openflowplugin/applications/frm/impl/FlowForwarder.java:404-429 | on success, or one `GROUPEXISTS` error, stores the group and sends the flow; any other outcome changes nothing |
| FlowForwarders.FlowForwarder.RunJob | applications/forwardingrules-manager/src/main/java/org/opendaylight/openflowplugin/applications/frm/impl/FlowForwarder.java:230-250 | the job's new registry and sent requests are those of `Job` on the old registry |
| FlowForwarders.FlowForwarder.Add | applications/forwardingrules-manager/src/main/java/org/opendaylight/openflowplugin/applications/frm/impl/FlowForwarder.java:217-255 | on a matching table id, one job is enqueued for the node and runs with the flow's own dependency; otherwise nothing is enqueued or sent |
| FlowForwarders.FlowForwarder.Update | applications/forwardingrules-manager/src/main/java/org/opendaylight/openflowplugin/applications/frm/impl/FlowForwarder.java:167-214 | on a matching table id of the updated flow, one job is enqueued with both flows strict and the updated flow's dependency; otherwise nothing |
| FlowForwarders.FlowForwarder.RemoveWithResult | applications/forwardingrules-manager/src/main/java/org/opendaylight/openflowplugin/applications/frm/impl/FlowForwarder.java:144-164 | on a matching table id, exactly one strict remove for the flow's table is sent, with no job; otherwise nothing |
| FlowForwarders.FlowForwarder.CreateStaleMarkEntity | applications/forwardingrules-manager/src/main/java/org/opendaylight/openflowplugin/applications/frm/impl/FlowForwarder.java:258-263 | writes the stale copy of the deleted flow under its stale-flow identifier and nothing else |
| FlowForwarders.MismatchSendsNothing | applications/forwardingrules-manager/src/main/java/org/opendaylight/openflowplugin/applications/frm/impl/FlowForwarder.java:271-280 | with disagreeing table ids, add, update and remove all answer "not handled", and any forwarder keeps its registry and log as they were |
| Inventory.Strict | applications/forwardingrules-manager/src/main/java/org/opendaylight/openflowplugin/applications/frm/impl/FlowForwarder.java:183-184 | the strict copy of a flow has strict set and agrees with the flow on every other field |
| SalFlowServices.PartialErrors | openflowplugin-impl/src/main/java/org/opendaylight/openflowplugin/impl/services/SalFlowServiceImpl.java:232-268 | a partial adds no error exactly when it was cancelled, completed with null, or failed without errors; a partial that threw or succeeded adds at most one error, of application type |
| SalFlowServices.Aggregate | openflowplugin-impl/src/main/java/org/opendaylight/openflowplugin/impl/services/SalFlowServiceImpl.java:272-278 | the aggregate succeeds exactly when no error was collected and carries exactly the collected errors |
| SalFlowServices.CollectedErrors | openflowplugin-impl/src/main/java/org/opendaylight/openflowplugin/impl/services/SalFlowServiceImpl.java:226-270 | at least one error is collected for every xid the fold unhooks |
| SalFlowServices.FoldResult | openflowplugin-impl/src/main/java/org/opendaylight/openflowplugin/impl/services/SalFlowServiceImpl.java:218-287 | the final result is successful exactly when it carries no error, and only a settled combined future can give a success |
| SalFlowServices.CollectedErrorsAppend | openflowplugin-impl/src/main/java/org/opendaylight/openflowplugin/impl/services/SalFlowServiceImpl.java:219-270 | folding two runs of partials in a row collects the first run's errors, then the second's |
| SalFlowServices.FoldSuccessIff | openflowplugin-impl/src/main/java/org/opendaylight/openflowplugin/impl/services/SalFlowServiceImpl.java:219-278 | a settled batch succeeds exactly when every partial was cancelled, completed with null or failed without errors; one successful partial makes it fail |
| SalFlowServices.AllCancelledSucceeds | openflowplugin-impl/src/main/java/org/opendaylight/openflowplugin/impl/services/SalFlowServiceImpl.java:233-236 | a batch whose partials were all cancelled succeeds |
| SalFlowServices.UpdateFlowMods | openflowplugin-impl/src/main/java/org/opendaylight/openflowplugin/impl/services/SalFlowServiceImpl.java:155-170 | the batch of `updateFlow` (definition): the original's remove mods and then the updated flow's add mods when it cannot be modified in place, else the updated flow's own; its ordering is stated by `UpdateOrdersKinds` |
| SalFlowServices.UpdateOrdersKinds | openflowplugin-impl/src/main/java/org/opendaylight/openflowplugin/impl/services/SalFlowServiceImpl.java:155-170 | when the convertor gives mods of the kind it is asked for, no add mod comes before a remove mod if the flow cannot be modified in place, and every mod is a modify mod if it can |
| SalFlowServices.SalFlowService.SubmitPartials | openflowplugin-impl/src/main/java/org/opendaylight/openflowplugin/impl/services/SalFlowServiceImpl.java:200-212 | one partial request per flow mod, in list order |
| SalFlowServices.SalFlowService.FoldPartial | openflowplugin-impl/src/main/java/org/opendaylight/openflowplugin/impl/services/SalFlowServiceImpl.java:229-268 | one round of the fold adds `PartialErrors` and unhooks the xid of a partial that threw, when it has one |
| SalFlowServices.SalFlowService.FoldPartials | openflowplugin-impl/src/main/java/org/opendaylight/openflowplugin/impl/services/SalFlowServiceImpl.java:219-270 | the zipped fold collects exactly `CollectedErrors` and unhooks exactly `Unhooked`, both in flow-mod order |
| SalFlowServices.SalFlowService.ProcessFlowModInputBuilders | openflowplugin-impl/src/main/java/org/opendaylight/openflowplugin/impl/services/SalFlowServiceImpl.java:196-291 | submits every flow mod in order and answers `FoldResult` of the combined outcome; unhooks only when the combined future settled |
| SalFlowServices.SalFlowService.CreateResultForFlowMod | openflowplugin-impl/src/main/java/org/opendaylight/openflowplugin/impl/services/SalFlowServiceImpl.java:297-319 | the committed flow mod carries the request's xid; the result succeeds exactly when the commit did, and a failed commit gives one application error with the queue's message |
| SalFlowServices.SalFlowService.AddFlow | openflowplugin-impl/src/main/java/org/opendaylight/openflowplugin/impl/services/SalFlowServiceImpl.java:66-101 | the add mods' batch result; with a flow reference the hash maps to the flow's table id and the reference's flow id, and without one `storeIfNecessary` places it |
| SalFlowServices.SalFlowService.AddFlowFailed | openflowplugin-impl/src/main/java/org/opendaylight/openflowplugin/impl/services/SalFlowServiceImpl.java:93-97 | a failed add marks the flow's hash to be removed and nothing else |
| SalFlowServices.SalFlowService.RemoveFlow | openflowplugin-impl/src/main/java/org/opendaylight/openflowplugin/impl/services/SalFlowServiceImpl.java:104-144 | commits the one remove mod stamped with the xid, succeeds exactly when the commit did, and marks the hash to be removed |
| SalFlowServices.SalFlowService.UpdateFlow | openflowplugin-impl/src/main/java/org/opendaylight/openflowplugin/impl/services/SalFlowServiceImpl.java:147-194 | the batch of `UpdateFlowMods` and its fold; with a flow reference the original hash is marked and the updated hash stored with its table and flow id; without one the registry is untouched |
| ConntrackCodec.NatActionLength | extension/openflowjava-extension-nicira/src/main/java/org/opendaylight/openflowjava/nx/codec/action/ConntrackCodec.java:104-120 | a NAT sub-action is 16 octets plus 4 per IPv4 bit and 2 per port bit, so between 16 and 28 |
| ConntrackCodec.NatPad | extension/openflowjava-extension-nicira/src/main/java/org/opendaylight/openflowjava/nx/codec/action/ConntrackCodec.java:93-95 | the NAT pad is between 1 and 8 |
| ConntrackCodec.NatPadAligns | extension/openflowjava-extension-nicira/src/main/java/org/opendaylight/openflowjava/nx/codec/action/ConntrackCodec.java:93-95 | the padded NAT length is a multiple of 8, and an aligned length still gains a full 8 octets |
| ConntrackCodec.CtActionLengthMultipleOf8 | extension/openflowjava-extension-nicira/src/main/java/org/opendaylight/openflowjava/nx/codec/action/ConntrackCodec.java:89-98 | every sub-action's length is a multiple of 8 |
| ConntrackCodec.CtActionsLengthMultipleOf8 | extension/openflowjava-extension-nicira/src/main/java/org/opendaylight/openflowjava/nx/codec/action/ConntrackCodec.java:83-102 | the sub-actions' total length is a non-negative multiple of 8 |
| ConntrackCodec.CtActionsLengthAppend | extension/openflowjava-extension-nicira/src/main/java/org/opendaylight/openflowjava/nx/codec/action/ConntrackCodec.java:89-99 | the total grows by each sub-action's length in turn |
| ConntrackCodec.HeaderLengthIsFixedPartPlusActions | extension/openflowjava-extension-nicira/src/main/java/org/opendaylight/openflowjava/nx/codec/action/ConntrackCodec.java:71-73 | `length + length % 8 + 24` is `length + 24`, at least 24 and a multiple of 8 |
| ConntrackCodec.GetActionLength | extension/openflowjava-extension-nicira/src/main/java/org/opendaylight/openflowjava/nx/codec/action/ConntrackCodec.java:83-102 | the accumulating loop computes `ActionLength`: 0 for a null list, else the sum of padded NAT and 16-octet ct_mark lengths |
| ConntrackCodec.CtMarkEncoding | extension/openflowjava-extension-nicira/src/main/java/org/opendaylight/openflowjava/nx/codec/action/ConntrackCodec.java:155-176 | a ct_mark sub-action is exactly 16 octets |
| ConntrackCodec.ConntrackFixed | extension/openflowjava-extension-nicira/src/main/java/org/opendaylight/openflowjava/nx/codec/action/ConntrackCodec.java:75-79 | the fixed part after the header is 14 octets |
| ConntrackCodec.CtActionsEncodingAppend | extension/openflowjava-extension-nicira/src/main/java/org/opendaylight/openflowjava/nx/codec/action/ConntrackCodec.java:124-178 | encoding one more sub-action appends its encoding |
| ConntrackCodec.SerializeNat | extension/openflowjava-extension-nicira/src/main/java/org/opendaylight/openflowjava/nx/codec/action/ConntrackCodec.java:126-154 | writes the NAT header, flags, range bits, the optional fields present, and the pad |
| ConntrackCodec.SerializeCtMark | extension/openflowjava-extension-nicira/src/main/java/org/opendaylight/openflowjava/nx/codec/action/ConntrackCodec.java:155-176 | writes code 25, length 16, the NXM header, the mark and 4 zero octets |
| ConntrackCodec.SerializeCtAction | extension/openflowjava-extension-nicira/src/main/java/org/opendaylight/openflowjava/nx/codec/action/ConntrackCodec.java:122-179 | the loop appends every sub-action's encoding in order, and nothing for a null list |
| ConntrackCodec.Serialize | extension/openflowjava-extension-nicira/src/main/java/org/opendaylight/openflowjava/nx/codec/action/ConntrackCodec.java:67-81 | appends the header with the padded length, the fixed part in the order flags, zone_src, zone, recirc_table, 5 zeros, then the sub-actions |
| ConntrackCodec.Encoding | extension/openflowjava-extension-nicira/src/main/java/org/opendaylight/openflowjava/nx/codec/action/ConntrackCodec.java:67-81 | the octets `serialize` writes (definition): the Nicira header with the padded length, the fixed part, then the sub-actions; read back by `ParseAtEncoding` |
| NxActionHeader.SerializeHeader | extension/openflowjava-extension-nicira/src/main/java/org/opendaylight/openflowjava/nx/codec/action/ConntrackCodec.java:73 | the base class's `serializeHeader` appends the 10-octet Nicira header for the length and subtype, and nothing else |
| ConntrackCodec.NatEncodingShortfall | extension/openflowjava-extension-nicira/src/main/java/org/opendaylight/openflowjava/nx/codec/action/ConntrackCodec.java:136-147 | a NAT sub-action is written 4 octets short of its announced length for each announced address that is null, and is full length exactly when none is |
| ConntrackCodec.NatEncodingLength | extension/openflowjava-extension-nicira/src/main/java/org/opendaylight/openflowjava/nx/codec/action/ConntrackCodec.java:126-154 | a well-formed NAT sub-action fills exactly its announced length |
| ConntrackCodec.CtActionsEncodingLength | extension/openflowjava-extension-nicira/src/main/java/org/opendaylight/openflowjava/nx/codec/action/ConntrackCodec.java:83-102 | well-formed sub-actions fill exactly the length `getActionLength` counts |
| ConntrackCodec.DeserializeCtHeaderWithoutSubtype | extension/openflowjava-extension-nicira/src/main/java/org/opendaylight/openflowjava/nx/codec/action/ConntrackCodec.java:273-281 | reads the signed length at offset 2 and skips the 8-octet header without subtype |
| ConntrackCodec.DeserializeCtHeader | extension/openflowjava-extension-nicira/src/main/java/org/opendaylight/openflowjava/nx/codec/action/ConntrackCodec.java:283-288 | reads the signed length and skips the whole 10-octet header |
| ConntrackCodec.NatAt | extension/openflowjava-extension-nicira/src/main/java/org/opendaylight/openflowjava/nx/codec/action/ConntrackCodec.java:210-248 | a NAT sub-action that reads consumes its header length, which covers the 16 fixed octets and the announced fields, and stays within the input |
| ConntrackCodec.CtMarkAt | extension/openflowjava-extension-nicira/src/main/java/org/opendaylight/openflowjava/nx/codec/action/ConntrackCodec.java:249-267 | a ct_mark sub-action reads exactly when 16 octets are there, and its mark is an unsigned 32-bit value |
| ConntrackCodec.CtActionsAt | extension/openflowjava-extension-nicira/src/main/java/org/opendaylight/openflowjava/nx/codec/action/ConntrackCodec.java:202-271 | a sub-action run that reads ends within the input and at least the announced number of octets after its start; an exhausted run ends where it starts |
| ConntrackCodec.ParseAt | extension/openflowjava-extension-nicira/src/main/java/org/opendaylight/openflowjava/nx/codec/action/ConntrackCodec.java:181-200 | an action that reads consumes at least its header length and the 24 fixed octets, stays within the input, and carries the Nicira experimenter id |
| ConntrackCodec.DeserializeNat | extension/openflowjava-extension-nicira/src/main/java/org/opendaylight/openflowjava/nx/codec/action/ConntrackCodec.java:210-248 | reads a NAT sub-action as `NatAt`: the optional fields only when their bits are set, in the order IPv4 min, IPv4 max, port min, port max, then skips to the header's length |
| ConntrackCodec.DeserializeCtMark | extension/openflowjava-extension-nicira/src/main/java/org/opendaylight/openflowjava/nx/codec/action/ConntrackCodec.java:249-267 | reads a ct_mark sub-action as `CtMarkAt` and consumes 16 octets |
| ConntrackCodec.DeserializeCtAction | extension/openflowjava-extension-nicira/src/main/java/org/opendaylight/openflowjava/nx/codec/action/ConntrackCodec.java:202-271 | the loop peeks 2 octets to tell NAT from ct_mark, restores the index, and reads sub-actions until the remaining length is at most 0, as `CtActionsAt` |
| ConntrackCodec.Deserialize | extension/openflowjava-extension-nicira/src/main/java/org/opendaylight/openflowjava/nx/codec/action/ConntrackCodec.java:181-200 | reads as `ParseAt`: the fixed part in write order, then sub-actions only when the length exceeds 24, with the Nicira experimenter id |
| ConntrackCodec.NatAtEncoding | extension/openflowjava-extension-nicira/src/main/java/org/opendaylight/openflowjava/nx/codec/action/ConntrackCodec.java:126-154 | a written well-formed NAT sub-action reads back as itself, consuming its length |
| ConntrackCodec.CtMarkAtEncoding | extension/openflowjava-extension-nicira/src/main/java/org/opendaylight/openflowjava/nx/codec/action/ConntrackCodec.java:155-176 | a written ct_mark reads back as its mark |
| ConntrackCodec.CtActionsAtEncoding | extension/openflowjava-extension-nicira/src/main/java/org/opendaylight/openflowjava/nx/codec/action/ConntrackCodec.java:202-271 | written well-formed sub-actions read back as the same list, ending exactly after them |
| ConntrackCodec.PartsReadBack | extension/openflowjava-extension-nicira/src/main/java/org/opendaylight/openflowjava/nx/codec/action/ConntrackCodec.java:181-200 | a written action reads back as its normal form, ending at its header length |
| ConntrackCodec.ParseAtEncoding | extension/openflowjava-extension-nicira/src/main/java/org/opendaylight/openflowjava/nx/codec/action/ConntrackCodec.java:67-81 | `ParseAt` of a well-formed action's encoding, anywhere in a byte sequence, gives the action back (an empty sub-action list as null) |
| ConntrackCodec.RoundTrip | extension/openflowjava-extension-nicira/src/main/java/org/opendaylight/openflowjava/nx/codec/action/ConntrackCodec.java:67-200 | serializing into an empty buffer and deserializing gives the action back with the Nicira experimenter id |
| LearnCodec.Pad | extension/openflowjava-extension-nicira/src/main/java/org/opendaylight/openflowjava/nx/codec/action/LearnCodec.java:38-42 | the pad is less than 8 |
| LearnCodec.PadAligns | extension/openflowjava-extension-nicira/src/main/java/org/opendaylight/openflowjava/nx/codec/action/LearnCodec.java:38-43 | the padded length is a multiple of 8 and less than length + 8, and the pad is 0 exactly for an aligned length |
| LearnCodec.PadIsLeast | extension/openflowjava-extension-nicira/src/main/java/org/opendaylight/openflowjava/nx/codec/action/LearnCodec.java:38-42 | no smaller addition aligns the length |
| LearnCodec.Serialize | extension/openflowjava-extension-nicira/src/main/java/org/opendaylight/openflowjava/nx/codec/action/LearnCodec.java:35-52 | appends the header with the padded length, the learn header, the flow mods and the pad's zeros |
| LearnCodec.Encoding | extension/openflowjava-extension-nicira/src/main/java/org/opendaylight/openflowjava/nx/codec/action/LearnCodec.java:35-52 | the octets `serialize` writes (definition): the Nicira header with the padded length, learn header, flow mods and pad zeros; its length and alignment are stated by `EncodingLength` |
| LearnCodec.EncodingLength | extension/openflowjava-extension-nicira/src/main/java/org/opendaylight/openflowjava/nx/codec/action/LearnCodec.java:43-51 | the action fills exactly the padded length, a multiple of 8, ending with `Pad(length)` zero octets |
| LearnCodec.DeserializeHeader | extension/openflowjava-extension-nicira/src/main/java/org/opendaylight/openflowjava/nx/codec/action/LearnCodec.java:57 | reads the signed header length and skips the 10-octet Nicira header |
| LearnCodec.ParseAt | extension/openflowjava-extension-nicira/src/main/java/org/opendaylight/openflowjava/nx/codec/action/LearnCodec.java:54-72 | the prefix reads exactly when 32 octets are there, consumes exactly 32, keeps the 22 learn-header octets and hands on a signed 16-bit length |
| LearnCodec.Deserialize | extension/openflowjava-extension-nicira/src/main/java/org/opendaylight/openflowjava/nx/codec/action/LearnCodec.java:54-72 | reads as `ParseAt`: the learn header, `length - 32` in 16-bit arithmetic for the flow-mod specs, and the Nicira experimenter id |
| LearnCodec.ParseAtEncoding | extension/openflowjava-extension-nicira/src/main/java/org/opendaylight/openflowjava/nx/codec/action/LearnCodec.java:35-72 | reading a written frame gives the learn header back and hands on exactly the flow mods plus the pad |
| LearnCodec.RoundTrip | extension/openflowjava-extension-nicira/src/main/java/org/opendaylight/openflowjava/nx/codec/action/LearnCodec.java:35-72 | serializing into an empty buffer and reading back gives the learn header and that flow-mod length |
| TcpDstCodec.Encoding | extension/openflowjava-extension-nicira/src/main/java/org/opendaylight/openflowjava/nx/codec/match/TcpDstCodec.java:40-46 | the header, then port and mask as 16 bits each, 8 octets in all |
| TcpDstCodec.Serialize | extension/openflowjava-extension-nicira/src/main/java/org/opendaylight/openflowjava/nx/codec/match/TcpDstCodec.java:40-46 | appends `Encoding` of the entry |
| TcpDstCodec.Deserialize | extension/openflowjava-extension-nicira/src/main/java/org/opendaylight/openflowjava/nx/codec/match/TcpDstCodec.java:48-59 | reads port then mask as unsigned 16-bit values, under NXM_0 and TCP destination, always with has-mask set |
| TcpDstCodec.RoundTrip | extension/openflowjava-extension-nicira/src/main/java/org/opendaylight/openflowjava/nx/codec/match/TcpDstCodec.java:40-59 | port and mask read back as written, with has-mask true |
| Ipv6DstCodec.Encoding | extension/openflowjava-extension-nicira/src/main/java/org/opendaylight/openflowjava/nx/codec/match/Ipv6DstCodec.java:50-55 | the header and one 32-bit value; the header announces 16 octets, more than are written |
| Ipv6DstCodec.Serialize | extension/openflowjava-extension-nicira/src/main/java/org/opendaylight/openflowjava/nx/codec/match/Ipv6DstCodec.java:50-55 | appends `Encoding` of the entry |
| Ipv6DstCodec.Deserialize | extension/openflowjava-extension-nicira/src/main/java/org/opendaylight/openflowjava/nx/codec/match/Ipv6DstCodec.java:41-48 | reads one unsigned 32-bit value after the header, under NXM_1 and the IP destination field |
| Ipv6DstCodec.RoundTrip | extension/openflowjava-extension-nicira/src/main/java/org/opendaylight/openflowjava/nx/codec/match/Ipv6DstCodec.java:41-55 | a 32-bit value and the has-mask flag read back as written |
| MatchEntries.NxmHeader | extension/openflowjava-extension-nicira/src/test/java/org/opendaylight/openflowjava/nx/codec/match/CtTpDstCodecTest.java:45-50 | the NXM header is the class, the field code shifted left with the mask bit, and the length, doubled when masked |
| MatchEntries.ReadHeader | openflowjava/openflow-protocol-impl/src/main/java/org/opendaylight/openflowjava/protocol/impl/deserialization/match/OxmMetadataDeserializer.java:28 | reading the 4-octet entry header from the base class's `processHeader` succeeds exactly when 4 octets are readable, consumes them and yields the mask bit of the field octet |
| OF10PacketOutInputMessageFactory.ReadFixed | openflowjava/openflow-protocol-impl/src/main/java/org/opendaylight/openflowjava/protocol/impl/deserialization/factories/OF10PacketOutInputMessageFactory.java:44-47 | reads xid and buffer id as u32, in_port as u16 and actions_len as a signed short, in order |
| OF10PacketOutInputMessageFactory.ParseAt | openflowjava/openflow-protocol-impl/src/main/java/org/opendaylight/openflowjava/protocol/impl/deserialization/factories/OF10PacketOutInputMessageFactory.java:40-58 | the message parses exactly when the fixed fields and the announced actions are present |
| OF10PacketOutInputMessageFactory.Deserialize | openflowjava/openflow-protocol-impl/src/main/java/org/opendaylight/openflowjava/protocol/impl/deserialization/factories/OF10PacketOutInputMessageFactory.java:40-58 | reads as `ParseAt`: version 1.0, the fixed fields, the actions from actions_len octets, the rest as data; the buffer is left fully consumed |
| OF10PacketOutInputMessageFactory.Layout | openflowjava/openflow-protocol-impl/src/main/java/org/opendaylight/openflowjava/protocol/impl/deserialization/factories/OF10PacketOutInputMessageFactory.java:44-56 | a packet-out body is 12 octets plus the actions plus the data |
| OF10PacketOutInputMessageFactory.DecodeLayout | openflowjava/openflow-protocol-impl/src/main/java/org/opendaylight/openflowjava/protocol/impl/deserialization/factories/OF10PacketOutInputMessageFactory.java:40-58 | a laid-out body reads back as its fields, its deserialized actions and its data |
| GetConfigReplyMessageFactory.FlagValue | openflowjava/openflow-protocol-impl/src/main/java/org/opendaylight/openflowjava/protocol/impl/deserialization/factories/GetConfigReplyMessageFactory.java:32 | every flag's value is below 4 and `forValue` maps it back to the flag |
| GetConfigReplyMessageFactory.ForValue | openflowjava/openflow-protocol-impl/src/main/java/org/opendaylight/openflowjava/protocol/impl/deserialization/factories/GetConfigReplyMessageFactory.java:32 | `forValue` knows exactly the values 0 to 3 |
| GetConfigReplyMessageFactory.Layout | openflowjava/openflow-protocol-impl/src/main/java/org/opendaylight/openflowjava/protocol/impl/deserialization/factories/GetConfigReplyMessageFactory.java:27-35 | a reply body is 8 octets |
| GetConfigReplyMessageFactory.Deserialize | openflowjava/openflow-protocol-impl/src/main/java/org/opendaylight/openflowjava/protocol/impl/deserialization/factories/GetConfigReplyMessageFactory.java:27-35 | with 8 readable octets, reads xid as u32, flags through `forValue` and miss_send_len as u16, with the factory's version; otherwise fails |
| GetConfigReplyMessageFactory.LayoutDecodes | openflowjava/openflow-protocol-impl/src/main/java/org/opendaylight/openflowjava/protocol/impl/deserialization/factories/GetConfigReplyMessageFactory.java:27-35 | the fields of a laid-out reply decode back to the reply |
| GetAsyncRequestMessageFactory.Deserialize | openflowjava/openflow-protocol-impl/src/main/java/org/opendaylight/openflowjava/protocol/impl/deserialization/factories/GetAsyncRequestMessageFactory.java:24-30 | with 4 readable octets, the result is version 1.3 and the big-endian u32 xid, consuming exactly 4 octets; otherwise fails |
| OxmMetadataDeserializer.Layout | openflowjava/openflow-protocol-impl/src/main/java/org/opendaylight/openflowjava/protocol/impl/deserialization/match/OxmMetadataDeserializer.java:26-44 | an entry is the header, 8 value octets and, when masked, 8 mask octets |
| OxmMetadataDeserializer.Deserialize | openflowjava/openflow-protocol-impl/src/main/java/org/opendaylight/openflowjava/protocol/impl/deserialization/match/OxmMetadataDeserializer.java:26-44 | reads OpenflowBasic and Metadata, 8 value octets verbatim, and a mask exactly when the header's bit is set |
| OxmMetadataDeserializer.DecodeLayout | openflowjava/openflow-protocol-impl/src/main/java/org/opendaylight/openflowjava/protocol/impl/deserialization/match/OxmMetadataDeserializer.java:26-44 | a laid-out metadata entry reads back as itself |
| OxmArpOpDeserializer.Layout | openflowjava/openflow-protocol-impl/src/main/java/org/opendaylight/openflowjava/protocol/impl/deserialization/match/OxmArpOpDeserializer.java:29-40 | an entry is the header and 2 value octets |
| OxmArpOpDeserializer.Deserialize | openflowjava/openflow-protocol-impl/src/main/java/org/opendaylight/openflowjava/protocol/impl/deserialization/match/OxmArpOpDeserializer.java:29-40 | reads OpenflowBasic and ArpOp and the opcode as an unsigned 16-bit value, with no mask |
| OxmArpOpDeserializer.DecodeLayout | openflowjava/openflow-protocol-impl/src/main/java/org/opendaylight/openflowjava/protocol/impl/deserialization/match/OxmArpOpDeserializer.java:29-40 | a laid-out ARP opcode entry reads back as itself |
| OxmTcpDstDeserializer.Layout | openflowjava/openflow-protocol-impl/src/main/java/org/opendaylight/openflowjava/protocol/impl/deserialization/match/OxmTcpDstDeserializer.java:28-35 | an entry is the header and 2 value octets |
| OxmTcpDstDeserializer.Deserialize | openflowjava/openflow-protocol-impl/src/main/java/org/opendaylight/openflowjava/protocol/impl/deserialization/match/OxmTcpDstDeserializer.java:28-35 | reads OpenflowBasic and TcpDst and the port as an unsigned 16-bit value, with no mask |
| OxmTcpDstDeserializer.DecodeLayout | openflowjava/openflow-protocol-impl/src/main/java/org/opendaylight/openflowjava/protocol/impl/deserialization/match/OxmTcpDstDeserializer.java:28-35 | a laid-out TCP destination entry reads back as itself |
| OF13SetNwTtlActionDeserializer.Layout | openflowjava/openflow-protocol-impl/src/main/java/org/opendaylight/openflowjava/protocol/impl/deserialization/action/OF13SetNwTtlActionDeserializer.java:30-41 | the action is 8 octets |
| OF13SetNwTtlActionDeserializer.Deserialize | openflowjava/openflow-protocol-impl/src/main/java/org/opendaylight/openflowjava/protocol/impl/deserialization/action/OF13SetNwTtlActionDeserializer.java:30-41 | skips type and length, reads the TTL as an unsigned octet, skips 3 padding octets, and gives a set-nw-ttl action with that TTL |
| OF13SetNwTtlActionDeserializer.DecodeLayout | openflowjava/openflow-protocol-impl/src/main/java/org/opendaylight/openflowjava/protocol/impl/deserialization/action/OF13SetNwTtlActionDeserializer.java:30-41 | a laid-out action reads back as itself |
| TcpFlagsEntryDeserializer.EntryAt | openflowplugin-impl/src/main/java/org/opendaylight/openflowplugin/impl/protocol/deserialization/match/TcpFlagsEntryDeserializer.java:18-35 | the entry has a mask exactly when the header's bit is set |
| TcpFlagsEntryDeserializer.DeserializeEntry | openflowplugin-impl/src/main/java/org/opendaylight/openflowplugin/impl/protocol/deserialization/match/TcpFlagsEntryDeserializer.java:18-35 | skips the experimenter id, reads the flags and the mask when present; the first occurrence sets the builder's entry, and a second is a malformed-match error that keeps the first |
| TcpFlagsEntryDeserializer.Layout | openflowplugin-impl/src/main/java/org/opendaylight/openflowplugin/impl/protocol/deserialization/match/TcpFlagsEntryDeserializer.java:18-35 | a laid-out entry is present and reads back as itself |
| TcpFlagsEntryDeserializer.ReadTwoEntries | openflowplugin-impl/src/main/java/org/opendaylight/openflowplugin/impl/protocol/deserialization/match/TcpFlagsEntryDeserializer.java:30-34 | reading two entries into one builder succeeds once, fails the second time with the malformed-match error and keeps the first entry |
| TcpFlagsEntryDeserializer.EntryAtPrefix | openflowplugin-impl/src/main/java/org/opendaylight/openflowplugin/impl/protocol/deserialization/match/TcpFlagsEntryDeserializer.java:18-35 | octets after an entry do not change what it reads as |
| TcpFlagsEntryDeserializer.EntryAtSuffix | openflowplugin-impl/src/main/java/org/opendaylight/openflowplugin/impl/protocol/deserialization/match/TcpFlagsEntryDeserializer.java:18-35 | octets before an entry do not change what it reads as |
| FlowsInTableService.LongValue | openflowplugin-impl/src/main/java/org/opendaylight/openflowplugin/impl/statistics/services/FlowsInTableService.java:63-67 | `longValue()` keeps the 64 bits of an unsigned value as a signed long |
| FlowsInTableService.Uint32ValueOf | openflowplugin-impl/src/main/java/org/opendaylight/openflowplugin/impl/statistics/services/FlowsInTableService.java:63-67 | `Uint32.valueOf` accepts exactly the 32-bit values and keeps them |
| FlowsInTableService.BuildRequest | openflowplugin-impl/src/main/java/org/opendaylight/openflowplugin/impl/statistics/services/FlowsInTableService.java:51-98 | the request `buildRequest` builds (definition); its fields and failure are stated by `BuildRequestFields`, `WildcardsAreDefaults` and `RebuildIsSame` |
| FlowsInTableService.BuildRequestFields | openflowplugin-impl/src/main/java/org/opendaylight/openflowplugin/impl/statistics/services/FlowsInTableService.java:51-98 | a flow multipart with the xid and version; each filter is the input's or its default (all tables, any port, any group, cookie and mask 0); an out port beyond 32 bits is an illegal argument |
| FlowsInTableService.WildcardsAreDefaults | openflowplugin-impl/src/main/java/org/opendaylight/openflowplugin/impl/statistics/services/FlowsInTableService.java:57-85 | leaving every filter out asks for the same request as naming the wildcards |
| FlowsInTableService.RebuildIsSame | openflowplugin-impl/src/main/java/org/opendaylight/openflowplugin/impl/statistics/services/FlowsInTableService.java:51-98 | building from a built request's filters gives the same request |
| FlowsInTableService.BuildTxCapableResult | openflowplugin-impl/src/main/java/org/opendaylight/openflowplugin/impl/statistics/services/FlowsInTableService.java:100-103 | only the transaction id is set |
| ConvertorKeys.New | openflowplugin/src/main/java/org/opendaylight/openflowplugin/openflow/md/core/sal/convertor/common/ConvertorKey.java:30-33 | a null version or a null target class is a null-pointer failure, and otherwise the key holds both |
| ConvertorKeys.Equals | openflowplugin/src/main/java/org/opendaylight/openflowplugin/openflow/md/core/sal/convertor/common/ConvertorKey.java:40-53 | true exactly for a key of the same run-time class with equal version and target class |
| ConvertorKeys.IntWrap | openflowplugin/src/main/java/org/opendaylight/openflowplugin/openflow/md/core/sal/convertor/common/ConvertorKey.java:35-38 | Java `int` arithmetic: a signed 32-bit value congruent to its input |
| ConvertorKeys.HashCode | openflowplugin/src/main/java/org/opendaylight/openflowplugin/openflow/md/core/sal/convertor/common/ConvertorKey.java:35-38 | `hashCode` is a Java `int` equal to `31 * version.hashCode() + targetClazz.hashCode()` modulo 2^32 |
| ConvertorKeys.EqualsNullAndSelf | openflowplugin/src/main/java/org/opendaylight/openflowplugin/openflow/md/core/sal/convertor/common/ConvertorKey.java:42-47 | `equals(null)` is false and `equals(this)` is true |
| ConvertorKeys.EqualsNeedsSameClass | openflowplugin/src/main/java/org/opendaylight/openflowplugin/openflow/md/core/sal/convertor/common/ConvertorKey.java:48-50 | an object of another run-time class is never equal |
| ConvertorKeys.EqualsSymmetric | openflowplugin/src/main/java/org/opendaylight/openflowplugin/openflow/md/core/sal/convertor/common/ConvertorKey.java:40-53 | `equals` is symmetric |
| ConvertorKeys.EqualsTransitive | openflowplugin/src/main/java/org/opendaylight/openflowplugin/openflow/md/core/sal/convertor/common/ConvertorKey.java:40-53 | `equals` is transitive |
| ConvertorKeys.EqualKeysEqualHashes | openflowplugin/src/main/java/org/opendaylight/openflowplugin/openflow/md/core/sal/convertor/common/ConvertorKey.java:35-38 | equal keys have equal hashes, whatever the field hashes |
| ConvertorKeys.NewKeysEqual | openflowplugin/src/main/java/org/opendaylight/openflowplugin/openflow/md/core/sal/convertor/common/ConvertorKey.java:30-53 | two keys built from the same class, version and target class are equal |

## Left out

- Futures, callbacks, executors and the per-node job queue are not part of
  this model. Outcomes are datatype values passed in, and enqueuing a job is
  a `JobEnqueued` log entry followed by the job's body. No claim is made
  about the future a job returns, or about ordering across nodes or
  concurrent access to the registries.
- Datastore I/O is not part of this model. This covers listener
  registration, the stale-flow write and submit, and the configuration read
  of `pushDependentGroup`, whose outcome is the input `ConfigRead`. The
  stale-flow write is a `StaleFlowWrite` log entry.
- `FlowForwarder.remove` differs from `removeWithResult` only in dropping the
  returned future. Both are `RemoveWithResult`.
- `FlowForwarders.FlowForwarder.Add`: the immediate null future `add`
  returns is `Ok(_)`. Its boolean says whether the flow was taken on. The
  future is not modelled.
- `DevicesGroupRegistry` and `DeviceFlowRegistry` are not part of this
  model. The group registry is a per-node set. Flow registry `store` is a
  map update, and `markToBeremoved` adds to a set. `storeIfNecessary` is a
  function field whose effect on the map is left open.
- `FlowConvertor`, `FlowCreatorUtil.canModifyFlow` and `FlowHashFactory` are
  not part of this model. Each is a constant function field of
  `SalFlowService`.
- `handleServiceCall` is not part of this model. The flow mods handed to it
  are logged in order. It would stamp a request context's xid on the builder
  that the fold later reads. The model reads the xid from the flow-mod value
  instead, so that aliasing is not captured.
- `unhookRequestCtx` is recorded as the list of unhooked xids.
  `OutboundQueue.commitEntry` is the `CommitOutcome` input, and the
  committed messages are logged.
- The `ApplicationError` of a partial that threw or succeeded carries only
  the error type, the message and an empty tag. Error tags, application
  tags, `info` and the cause are not modelled. Logging and `MessageSpy`
  statistics are left out.
- `SalFlowServices.SalFlowService.UpdateFlow`: without a flow reference, the
  source's callback throws a null-pointer exception when it reads the flow
  id. The model leaves the registry unchanged and does not model the
  exception.
- `LearnCodecUtil` is not part of this model. Its computed length and the
  octets it writes (learn header and flow-mod specs) are inputs. On reading,
  the learn header is the 22 octets after the Nicira header, and
  `buildFlowModSpecs` is represented by the length it is handed.
- `ListDeserializer` is not part of this model. It is the function
  parameter `deserializeList` of the packet-out factory, and the model fixes
  its framing by two assumptions. First, it consumes exactly `actions_len`
  octets, or none when `actions_len` is negative. Second, a body shorter
  than that fails with `IndexOutOfBounds`. `OF10PacketOutInputMessageFactory.ParseAt`
  and `OF10PacketOutInputMessageFactory.Deserialize` rest on both.
- The flags of `SwitchConfigFlag.forValue` are taken as the four
  `ofp_config_flags` values 0 to 3.
- `OxmDeserializerHelper.convertMask` is not applied. The mask octets are
  kept as read.
- The header readers and writers of the unseen abstract base classes are
  not part of this model. Their layouts are taken as:
  - Nicira action header: type 0xFFFF, signed length, vendor 0x00002320,
    subtype;
  - OXM/NXM match header: class (2), field shifted left with the mask bit
    (1), length (1).
  `getExperimenterId()` is taken to be the Nicira vendor id.
- IP-address conversions (`InetAddresses`, `IetfInetUtil`) are not part of
  this model. IPv4 addresses and the match entries' IP values are 32-bit
  integers.
- The serializers require each field to fit its wire width, as the source's
  YANG `Uint8`/`Uint16`/`Uint32` types guarantee. The model does not cover
  wider values.
- `ConntrackCodec.ParseAtEncoding` and `ConntrackCodec.RoundTrip`: the round
  trip is stated for well-formed actions only. In such actions, every NAT
  field a range bit announces is present and the outer length fits a signed
  short.
  - The source writes nothing for an announced but null address. Its header
    length then exceeds what was written, which `NatEncodingShortfall`
    states.
  - An empty sub-action list reads back as null.
- `ConntrackCodec.SerializableNat` requires a port whenever the PROTOMIN
  or PROTOMAX bit is set. The source calls `toJava()` on a null port there
  and throws a null-pointer exception (ConntrackCodec.java:148-153). That
  exception is not modelled.
- `ConntrackCodec.CtAction` has only the NAT and ct_mark cases. The source
  also accepts a sub-action whose `ofpactActions` is null or of another
  case: `getActionLength` counts 0 octets for it and `serialize` writes
  nothing (ConntrackCodec.java:90-98, 126 and 155). Such sub-actions are not
  modelled.
- `FlowForwarders.DependentGroupOf` and `Inventory.Flow`: an instructions
  container is a sequence, and an apply-actions instruction holds a
  sequence. A container with a null instruction list, or an apply-actions
  instruction with a null action list, makes `isFlowDependentOnGroup` throw
  a null-pointer exception (FlowForwarder.java:357-364). Neither case is
  modelled.
- `ConvertorKeys.Equals`: reference identity is modelled as value equality,
  which it implies. `Uint8.hashCode` and `Class.hashCode` are the
  parameters `versionHash` and `classHash`.
- `RemoveGroupsBatchImpl`, whose aggregation and barrier helpers are not
  part of this model, is left out.
- The thin subclasses with no logic of their own (`OF13CopyTtlInActionDeserializer`,
  `OF13DecNwTtlActionSerializer`, `GetMeterFeaturesImpl`) are left out.
- The I/O, CLI and data-holder classes, and the test files, are left out.
