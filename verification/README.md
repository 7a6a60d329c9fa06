# Learning switch with segment and rule registries — a Dafny model

This project models the decision logic of `simple_switch_v5.py`, a Ryu controller
application for OpenFlow 1.3 switches. The controller keeps one state:

- a per-switch MAC table (host address → port last seen on);
- a registry of named segments (lists of host addresses);
- a list of access rules and a list of host-segment rules, each rule a JSON object.

The model is a set of pure functions over that state (`Switch.Controller`):

- `Switch.PacketIn` learns the frame's source. It then resolves the destination to its
  learned port or to flooding. For a unicast output it picks a QoS queue from a fixed table.
  It returns the flow-mods and packet-outs the switch is sent, as abstract
  `OpenFlow.Directive` values.
- `Switch.SwitchConnected` gives the directives sent when a switch connects: delete the
  flows (`OpenFlow.DeleteFlows`), then install the table-miss flow.
- `Switch.QueryMacTable` is the MAC-table lookup behind the REST query. It fails for a
  switch that has never sent a packet-in.
- `Segments.CreateOrMerge`, `Segments.Delete` and `Segments.RemoveHost` are the segment
  registry. `Rules.Upsert` is the rule store. `Switch.PostControl` is the dispatch of the
  `/nac/controle/` POST handler.

Modules: `Results` (Option, Result), `OpenFlow` (actions, matches, directives),
`Segments`, `Rules`, `Switch`.

Behaviour a reader might not expect from an access-control switch (the model follows the
code):

- Forwarding never consults segments or rules. There is no allow/block verdict, no drop
  flow, no time-window rule and no hard timeout. The segment and rule stores are only
  written and listed.
- Merging hosts into an existing segment is not a set union. `criarSegmento` iterates
  the segment's list while extending it. It appends the whole input once per existing entry
  the input lacks, so the result is `old + input` repeated. Duplicates appear
  (`Segments.MergeCanDuplicate`). New hosts are not added at all when every existing
  member is in the input (`Segments.MergeCanSkipNewHosts`).
- A rule is keyed by the names of the payload's first two fields, compared field by field.
  It is not keyed by an unordered pair: swapping the two values makes a new rule
  (`Rules.SwappedValuesDoNotMatch`).
- `add_flow` attaches the buffer id only when it is truthy. A buffered unicast frame with
  buffer id 0 is therefore installed as a flow without a buffer and never sent out
  (`Switch.PacketInBufferZero`).

Inputs the model takes as parameters: the frame's source and destination addresses (they
come from parsing the Ethernet header), the ingress port, the buffer id and the raw frame
bytes.

## Model

| member | source | states |
|---|---|---|
| Switch.InitialKnowsNoSwitch | simple_switch_v5.py:30-33 | the controller starts with an empty MAC table, so every switch query fails, and with no segments and no rules |
| Switch.PacketIn | simple_switch_v5.py:77-136 | after a packet-in the source is mapped to the ingress port on that switch; the switch becomes known; every other (switch, host) entry and the segments and both rule lists are unchanged |
| Switch.Learn | simple_switch_v5.py:92-97 | learning creates the switch's table on first contact; it maps the host to the port and leaves every other host and switch as it was |
| Switch.Resolve | simple_switch_v5.py:99-102 | the output is the learned port of the destination, and flooding exactly when the destination is unknown or learned on the flood port number |
| Switch.QueueTable | simple_switch_v5.py:110-118 | exactly ports 1 and 2 of switches 1 and 2 have a queue, and the queue ids are 1 to 4, numbered switch by switch |
| Switch.QueueFor | simple_switch_v5.py:111-118 | specified by `Switch.QueueTable`: exactly ports 1 and 2 of switches 1 and 2 have a queue, with id `2 * (dpid - 1) + port` |
| Switch.ForwardActions | simple_switch_v5.py:104-118 | the actions end with the output; a set-queue action comes first exactly when the output is a port with a queue; flooding is the single output action |
| Switch.FlowMod | simple_switch_v5.py:35-48 | add_flow's flow-mod carries the match, actions and priority; it carries the given buffer id when that id is present and non-zero, and no buffer id exactly when the id is absent, 0 or the no-buffer value |
| Switch.SwitchConnected | simple_switch_v5.py:61-74 | on connection the switch is told to delete the flows of table 0, then to install one flow that matches every frame at priority 0, below the unicast priority, with output to the controller |
| Switch.PacketInFloods | simple_switch_v5.py:99-136 | a destination unknown on the switch, or learned on the flood port number, gives exactly one packet-out flooding the frame, carrying the data only when unbuffered, and no flow |
| Switch.PacketInUnicast | simple_switch_v5.py:110-136 | a known destination, including the source itself, installs one flow that selects exactly the same ingress port and destination, at priority 1000, with the queue and output actions, carrying the frame's buffer id (none for buffer 0 or an unbuffered frame); a packet-out with the whole frame follows exactly when the frame was not buffered |
| Switch.PacketInBufferZero | simple_switch_v5.py:121-125 | because add_flow tests the buffer id for truthiness, a unicast frame in buffer 0 yields only a flow without buffer id and no packet-out |
| Switch.PacketInRelearnStable | simple_switch_v5.py:93-97 | seeing the same host on the same port again leaves the controller state unchanged |
| Switch.QueryMacTable | simple_switch_v5.py:186-189 | the query fails exactly for a switch with no learning history, and otherwise returns that switch's table |
| Switch.PacketInThenQuery | simple_switch_v5.py:93-97 | after a packet-in the query on that switch succeeds and maps the source to the ingress port; queries on other switches are unaffected |
| Segments.MergeLive | simple_switch_v5.py:139-144 | iterating the live list while extending it with the whole input per missing entry yields `old + input` repeated once per existing entry absent from the input |
| Segments.Merge | simple_switch_v5.py:141-143 | specified by `Segments.MergeLive`, `Segments.MergeMembers` and `Segments.MergeUnchangedIff`: the result of extending the live list once per existing entry missing from the input |
| Segments.MissingZeroIff | simple_switch_v5.py:141-143 | no copy of the input is appended exactly when every existing entry is in the input |
| Segments.MergeMembers | simple_switch_v5.py:139-144 | a merged segment contains a host exactly when it was a member, or it is in the input and some existing member is not |
| Segments.MergeUnchangedIff | simple_switch_v5.py:139-144 | merging leaves a segment unchanged exactly when the input is empty or contains every existing member |
| Segments.MergeCanSkipNewHosts | simple_switch_v5.py:141-143 | merging `[h2, h3]` into `[h2]` leaves `[h2]`: the new host is not added |
| Segments.MergeCanDuplicate | simple_switch_v5.py:141-143 | merges produce duplicates, one copy of the input per existing member it lacks |
| Segments.CreateOrMerge | simple_switch_v5.py:138-146 | names not yet registered get exactly their input list; registered names keep their old list as a prefix and get the merge; names not in the payload are untouched |
| Segments.Delete | simple_switch_v5.py:148-149 | deleting removes only that name, and deleting an absent name changes nothing |
| Segments.FirstIndex | simple_switch_v5.py:151-152 | the position found is the first occurrence of the host |
| Segments.RemoveFirst | simple_switch_v5.py:151-152 | removal deletes exactly the first occurrence of the host and keeps the rest in order |
| Segments.RemoveHost | simple_switch_v5.py:151-152 | removal fails exactly when the segment is absent or the host is not a member; otherwise that segment becomes the list without its first occurrence of the host, in order, and no other segment changes |
| Switch.CreateSegments | simple_switch_v5.py:138-146 | the segment merge changes only the registry |
| Switch.DeleteSegment | simple_switch_v5.py:148-149 | segment deletion changes only the registry, removing only that name |
| Switch.RemoveHostFromSegment | simple_switch_v5.py:151-152 | host removal fails for an absent segment or non-member, with the same error as the registry operation, and otherwise removes the first occurrence from that segment, keeping the order, and changes nothing else |
| Rules.SetField | simple_switch_v5.py:162 | assigning a field gives it the new value and leaves every other field unchanged; an existing field keeps its place, a new one goes at the end |
| Rules.FindMatch | simple_switch_v5.py:160-163 | the scan reports the first rule whose two key fields equal the payload's; it reports none when every rule tests false; otherwise it reports the KeyError of the first rule lacking a field that the short-circuit test reads |
| Rules.Compare | simple_switch_v5.py:161 | specified by `Rules.FindMatch`: the short-circuit test reads the first key field (KeyError when absent) and reads the second only when the first value is equal |
| Rules.FindMatchStopsAt | simple_switch_v5.py:160-163 | the first rule whose test does not come out false is the one the scan reports, as a match or as its KeyError |
| Rules.Upsert | simple_switch_v5.py:154-165 | fewer than two fields fail; a scan stopped by a stored rule lacking a key field it reads fails with that rule's KeyError; on a first match whose payload has "acao" the call succeeds and that rule becomes its old fields with "acao" assigned in place; only that rule's "acao" changes, with length and order kept, and a payload without "acao" fails; with no match the payload is appended |
| Rules.UpsertIdempotent | simple_switch_v5.py:154-164 | storing the same payload (with an "acao") twice gives the same store as storing it once |
| Rules.SwappedValuesDoNotMatch | simple_switch_v5.py:155-164 | a payload with the key values swapped does not match the stored rule, so it is appended |
| Rules.ReorderedFieldsMatch | simple_switch_v5.py:155-162 | a payload listing the same key fields in the other order matches by field name and updates the stored rule's action |
| Rules.SetFieldKeepsDistinct | simple_switch_v5.py:162 | assigning a field keeps the field names of a rule distinct |
| Switch.AddHostSegmentRule | simple_switch_v5.py:167-171 | a host-segment rule is appended at the end, with every earlier entry and the rest of the state unchanged |
| Switch.PostControl | simple_switch_v5.py:256-259 | a payload with a "host" field is appended to the host-segment rules; any other goes to the rule store, and an error leaves the state unchanged |
| Switch.PostControlKeepsRulesWellFormed | simple_switch_v5.py:256-259 | posting a well-formed rule keeps every stored rule a well-formed object |

## Left out

- OpenFlow plumbing: building and sending messages, parser objects and event registration. A
  directive stands for the message the controller would send.
- Ethernet parsing: the source and destination addresses are inputs to `Switch.PacketIn`.
- The REST layer: JSON decoding and its 400 response, response bodies and status codes, the
  list endpoints (they return the state unchanged) and the hexadecimal parsing of the switch
  id in the MAC-table route. Only the `"host"` dispatch and the unknown-switch check are
  modelled.
- The `/nac/regras/` POST route: its handler is replaced by the later method of the same name
  in the class body, so it is never registered.
- JSON value types: rule field values are strings and segment inputs are lists of strings.
  Python's cross-type equality (for example `1 == 1.0`) and the extension of a segment by a
  non-list value are not modelled.
- Logging (`print` and the logger).
- Concurrency between switch event handlers and REST requests: the model is one sequential
  state.
- The Mininet topology script: it provisions a test network and has no decision logic.
- Switch.SwitchConnected: the delete directive does not record the match-all, any-port and
  any-group fields of the flow-mod, nor its table id. No table id is set, so the Ryu
  library's default (table 0) applies, and the directive stands for deleting the flows of
  that table only. The output action does not record its max-length field (no buffering).
