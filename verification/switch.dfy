/**
 * The learning switch controller: one state holding the per-switch MAC table, the segment
 * registry and the two rule lists, and the handlers that act on it. Forwarding never
 * consults segments or rules: they are stored and listed only.
 */
module Switch {
  import opened Results
  import opened OpenFlow
  import Segments
  import Rules

  type Dpid = nat
  type Mac = string

  /** For each switch, the port on which each host address was last seen. */
  type MacTable = map<Dpid, map<Mac, nat>>

  datatype Controller = Controller(
    macTable: MacTable,
    segments: Segments.Registry,
    rules: seq<Rules.Payload>,
    hostSegmentRules: seq<Rules.Payload>)

  const Initial: Controller := Controller(map[], map[], [], [])

  /** At start-up no switch is known, and every registry and rule list is empty. */
  lemma InitialKnowsNoSwitch(dpid: Dpid)
    ensures QueryMacTable(Initial, dpid) == Err(UnknownSwitch(dpid))
    ensures Initial.segments == map[] && Initial.rules == [] && Initial.hostSegmentRules == []
  {
  }

  /** Priority of the flows installed for learned destinations. */
  const UnicastPriority: nat := 1000

  /** Priority of the table-miss flow installed when a switch connects. */
  const TableMissPriority: nat := 0

  /** The new state after an event, and the directives sent to the switch, in order. */
  datatype Reaction = Reaction(next: Controller, directives: seq<Directive>)

  datatype QueryError = UnknownSwitch(dpid: Dpid)

  /**
   * The flow-mod sent to add a flow. The buffer id is attached only when it is present and
   * non-zero (a truthiness test), so a buffer id of 0 is sent as no buffer at all.
   */
  function FlowMod(m: Match, actions: seq<Action>, priority: nat, bufferId: Option<nat>): (d: Directive)
    ensures d.AddFlow? && d.selector == m && d.actions == actions && d.priority == priority
    ensures d.bufferId == NoBuffer <==> bufferId.None? || bufferId.value == 0 || bufferId.value == NoBuffer
    ensures bufferId.Some? && bufferId.value != 0 ==> d.bufferId == bufferId.value
  {
    AddFlow(m, priority, actions, if bufferId.Some? && bufferId.value != 0 then bufferId.value else NoBuffer)
  }

  /**
   * Reaction to a switch connecting: delete the flows of table 0, then install the table-miss flow,
   * which matches every frame at the lowest priority and sends it to the controller.
   * The controller's state is not touched.
   */
  function SwitchConnected(): (ds: seq<Directive>)
    ensures |ds| == 2 && ds[0] == DeleteFlows && ds[1].AddFlow?
    ensures ds[1].priority == TableMissPriority < UnicastPriority
    ensures forall p: nat, h: Mac :: Covers(ds[1].selector, p, h)
    ensures ds[1].actions == [Output(ToController)] && ds[1].bufferId == NoBuffer
  {
    [DeleteFlows, FlowMod(MatchAll, [Output(ToController)], TableMissPriority, None)]
  }

  /** Records that `host` was seen on `port` of switch `dpid`, creating the switch's table
      on first contact. */
  function Learn(mac: MacTable, dpid: Dpid, host: Mac, port: nat): (r: MacTable)
    ensures r.Keys == mac.Keys + {dpid}
    ensures host in r[dpid] && r[dpid][host] == port
    ensures r[dpid].Keys == (if dpid in mac then mac[dpid].Keys else {}) + {host}
    ensures forall h :: h in r[dpid] && h != host ==> r[dpid][h] == mac[dpid][h]
    ensures forall d :: d in mac && d != dpid ==> r[d] == mac[d]
  {
    var table := if dpid in mac then mac[dpid] else map[];
    mac[dpid := table[host := port]]
  }

  /** The output for `dst`: its learned port, or flooding when it is unknown (or learned on
      the port number reserved for flooding). */
  function Resolve(table: map<Mac, nat>, dst: Mac): (out: OutPort)
    ensures out.Port? || out.Flood?
    ensures out.Port? <==> dst in table && table[dst] != FloodPortNo
    ensures out.Port? ==> out.no == table[dst]
  {
    if dst in table && table[dst] != FloodPortNo then Port(table[dst]) else Flood
  }

  /** The static QoS table: the queue for output `port` of switch `dpid`, if any. */
  function QueueFor(dpid: Dpid, port: nat): Option<nat>
  {
    if dpid == 1 && port == 1 then Some(1)
    else if dpid == 1 && port == 2 then Some(2)
    else if dpid == 2 && port == 1 then Some(3)
    else if dpid == 2 && port == 2 then Some(4)
    else None
  }

  /** Exactly ports 1 and 2 of switches 1 and 2 have a queue, numbered switch by switch. */
  lemma QueueTable(dpid: Dpid, port: nat)
    ensures QueueFor(dpid, port).Some? <==> 1 <= dpid <= 2 && 1 <= port <= 2
    ensures QueueFor(dpid, port).Some? ==> QueueFor(dpid, port).value == 2 * (dpid - 1) + port
  {
  }

  /**
   * The actions for output `out`: a single output action, preceded by a set-queue action
   * when `out` is a port with a queue in the static table. Flooding never gets a queue.
   */
  function ForwardActions(dpid: Dpid, out: OutPort): (acts: seq<Action>)
    ensures 1 <= |acts| <= 2 && acts[|acts| - 1] == Output(out)
    ensures |acts| == 2 <==> out.Port? && QueueFor(dpid, out.no).Some?
    ensures |acts| == 2 ==> acts[0] == SetQueue(QueueFor(dpid, out.no).value)
  {
    match out
    case Port(n) =>
      (match QueueFor(dpid, n)
       case Some(q) => [SetQueue(q), Output(out)]
       case None => [Output(out)])
    case _ => [Output(out)]
  }

  /**
   * Reaction to a frame from `src` to `dst` arriving on `inPort` of switch `dpid`. The
   * source address is learned first; the destination then resolves to its learned port or
   * to flooding. A learned destination gets a flow matching the ingress port and
   * destination at priority 1000; with a buffered frame that flow alone is sent, otherwise
   * a packet-out carrying the frame follows it. Flooding installs no flow and always sends
   * a packet-out. Only the MAC table changes.
   */
  function PacketIn(st: Controller, dpid: Dpid, src: Mac, dst: Mac, inPort: nat, bufferId: nat, frame: Frame)
    : (r: Reaction)
    ensures r.next.segments == st.segments && r.next.rules == st.rules
    ensures r.next.hostSegmentRules == st.hostSegmentRules
    ensures r.next.macTable.Keys == st.macTable.Keys + {dpid}
    ensures src in r.next.macTable[dpid] && r.next.macTable[dpid][src] == inPort
    ensures forall d :: d in st.macTable && d != dpid ==> r.next.macTable[d] == st.macTable[d]
    ensures forall h :: h in r.next.macTable[dpid] && h != src ==>
              dpid in st.macTable && h in st.macTable[dpid] && r.next.macTable[dpid][h] == st.macTable[dpid][h]
    ensures dpid in st.macTable ==> st.macTable[dpid].Keys <= r.next.macTable[dpid].Keys
  {
    var mac := Learn(st.macTable, dpid, src, inPort);
    var out := Resolve(mac[dpid], dst);
    var actions := ForwardActions(dpid, out);
    var packetOut := PacketOut(bufferId, inPort, actions, if bufferId == NoBuffer then Some(frame) else None);
    var m := Match(Some(inPort), Some(dst));
    var ds :=
      if out.Flood? then [packetOut]
      else if bufferId != NoBuffer then [FlowMod(m, actions, UnicastPriority, Some(bufferId))]
      else [FlowMod(m, actions, UnicastPriority, None), packetOut];
    Reaction(st.(macTable := mac), ds)
  }

  /** The port `dst` is known on at switch `dpid` once `src` has been learned on `inPort`. */
  function PortAfterLearning(st: Controller, dpid: Dpid, src: Mac, dst: Mac, inPort: nat): Option<nat>
  {
    if dst == src then Some(inPort)
    else if dpid in st.macTable && dst in st.macTable[dpid] then Some(st.macTable[dpid][dst])
    else None
  }

  /**
   * A frame to a destination unknown on that switch (and different from its source), or
   * learned on the port number reserved for flooding, is flooded: a single packet-out whose only action is flooding, carrying the frame when it
   * is not buffered. No flow is installed.
   */
  lemma PacketInFloods(st: Controller, dpid: Dpid, src: Mac, dst: Mac, inPort: nat, bufferId: nat, frame: Frame)
    requires PortAfterLearning(st, dpid, src, dst, inPort) in {None, Some(FloodPortNo)}
    ensures PacketIn(st, dpid, src, dst, inPort, bufferId, frame).directives
         == [PacketOut(bufferId, inPort, [Output(Flood)], if bufferId == NoBuffer then Some(frame) else None)]
  {
  }

  /**
   * A frame to a destination known on port `port` (its own source port when it is sent to
   * itself) installs exactly one flow, which selects exactly the frames from the same
   * ingress port to the same destination, at priority 1000, with the queue of the static
   * table (if any) before the output to `port`. A packet-out with the same actions and the
   * whole frame follows only when the frame was not buffered.
   */
  lemma PacketInUnicast(st: Controller, dpid: Dpid, src: Mac, dst: Mac, inPort: nat, bufferId: nat, frame: Frame, port: nat)
    requires PortAfterLearning(st, dpid, src, dst, inPort) == Some(port) && port != FloodPortNo
    ensures var ds := PacketIn(st, dpid, src, dst, inPort, bufferId, frame).directives;
      && 1 <= |ds| <= 2
      && ds[0].AddFlow? && ds[0].priority == UnicastPriority
      && (forall p: nat, h: Mac :: Covers(ds[0].selector, p, h) <==> p == inPort && h == dst)
      && ds[0].actions == ForwardActions(dpid, Port(port))
      && ds[0].bufferId == (if bufferId == 0 then NoBuffer else bufferId)
      && (|ds| == 1 <==> bufferId != NoBuffer)
      && (|ds| == 2 ==> ds[1] == PacketOut(NoBuffer, inPort, ds[0].actions, Some(frame)))
  {
  }

  /**
   * A buffered unicast frame whose buffer id is 0 is never delivered: the flow is sent
   * without the buffer id and no packet-out follows.
   */
  lemma PacketInBufferZero(st: Controller, dpid: Dpid, src: Mac, dst: Mac, inPort: nat, frame: Frame, port: nat)
    requires PortAfterLearning(st, dpid, src, dst, inPort) == Some(port) && port != FloodPortNo
    ensures var ds := PacketIn(st, dpid, src, dst, inPort, 0, frame).directives;
      && |ds| == 1 && ds[0].AddFlow? && ds[0].bufferId == NoBuffer
  {
  }

  /** Seeing the same host on the same port again leaves the MAC table as it was. */
  lemma PacketInRelearnStable(st: Controller, dpid: Dpid, src: Mac, dst: Mac, dst': Mac, inPort: nat,
                              bufferId: nat, bufferId': nat, frame: Frame, frame': Frame)
    ensures var once := PacketIn(st, dpid, src, dst, inPort, bufferId, frame).next;
      PacketIn(once, dpid, src, dst', inPort, bufferId', frame').next == once
  {
    var once := PacketIn(st, dpid, src, dst, inPort, bufferId, frame).next;
    assert once.macTable[dpid][src := inPort] == once.macTable[dpid];
  }

  /** The MAC table of switch `dpid`; fails for a switch that has never sent a packet-in. */
  function QueryMacTable(st: Controller, dpid: Dpid): (r: Result<map<Mac, nat>, QueryError>)
    ensures r.Err? <==> dpid !in st.macTable
    ensures r.Err? ==> r.error == UnknownSwitch(dpid)
    ensures r.Ok? ==> r.value == st.macTable[dpid]
  {
    if dpid !in st.macTable then Err(UnknownSwitch(dpid)) else Ok(st.macTable[dpid])
  }

  /** After a packet-in the switch is known, its table maps the source to the ingress port,
      and every other switch's answer is unchanged. */
  lemma PacketInThenQuery(st: Controller, dpid: Dpid, src: Mac, dst: Mac, inPort: nat, bufferId: nat, frame: Frame, other: Dpid)
    ensures var next := PacketIn(st, dpid, src, dst, inPort, bufferId, frame).next;
      && QueryMacTable(next, dpid).Ok?
      && src in QueryMacTable(next, dpid).value
      && QueryMacTable(next, dpid).value[src] == inPort
      && (other != dpid ==> QueryMacTable(next, other) == QueryMacTable(st, other))
  {
  }

  /** Creates or merges the segments of `data`; nothing but the registry changes. */
  function CreateSegments(st: Controller, data: map<Segments.Name, seq<Segments.Host>>): (r: Controller)
    ensures r.macTable == st.macTable && r.rules == st.rules && r.hostSegmentRules == st.hostSegmentRules
    ensures r.segments.Keys == st.segments.Keys + data.Keys
    ensures forall k :: k in data && k !in st.segments ==> r.segments[k] == data[k]
    ensures forall k :: k in data && k in st.segments ==> r.segments[k] == Segments.Merge(st.segments[k], data[k])
    ensures forall k :: k in st.segments && k !in data ==> r.segments[k] == st.segments[k]
  {
    st.(segments := Segments.CreateOrMerge(st.segments, data))
  }

  /** Deletes a segment (a no-op for an absent name); nothing else changes. */
  function DeleteSegment(st: Controller, name: Segments.Name): (r: Controller)
    ensures r.macTable == st.macTable && r.rules == st.rules && r.hostSegmentRules == st.hostSegmentRules
    ensures r.segments.Keys == st.segments.Keys - {name}
    ensures forall k :: k in r.segments ==> r.segments[k] == st.segments[k]
  {
    st.(segments := Segments.Delete(st.segments, name))
  }

  /** Removes a host from a segment, failing when the segment or the membership is missing. */
  function RemoveHostFromSegment(st: Controller, name: Segments.Name, h: Segments.Host)
    : (r: Result<Controller, Segments.SegmentError>)
    ensures r.Err? <==> name !in st.segments || h !in st.segments[name]
    ensures r.Err? ==> Segments.RemoveHost(st.segments, name, h) == Err(r.error)
    ensures r.Ok? ==> && r.value.macTable == st.macTable && r.value.rules == st.rules
                      && r.value.hostSegmentRules == st.hostSegmentRules
                      && r.value.segments.Keys == st.segments.Keys
                      && r.value.segments[name] == Segments.RemoveFirst(st.segments[name], h)
                      && multiset(r.value.segments[name]) + multiset{h} == multiset(st.segments[name])
                      && forall k :: k in st.segments && k != name ==> r.value.segments[k] == st.segments[k]
  {
    match Segments.RemoveHost(st.segments, name, h)
    case Err(e) => Err(e)
    case Ok(reg) => Ok(st.(segments := reg))
  }

  /** Stores a host-segment rule: always appended, whatever the list holds. */
  function AddHostSegmentRule(st: Controller, data: Rules.Payload): (r: Controller)
    ensures |r.hostSegmentRules| == |st.hostSegmentRules| + 1 && r.hostSegmentRules[|st.hostSegmentRules|] == data
    ensures r.hostSegmentRules[..|st.hostSegmentRules|] == st.hostSegmentRules
    ensures r.macTable == st.macTable && r.segments == st.segments && r.rules == st.rules
  {
    st.(hostSegmentRules := st.hostSegmentRules + [data])
  }

  /**
   * A rule posted to the control endpoint: a payload with a "host" field is a host-segment
   * rule and is appended; any other payload goes to the rule store, whose errors are
   * returned with the state unchanged.
   */
  function PostControl(st: Controller, data: Rules.Payload): (r: Result<Controller, Rules.RuleError>)
    ensures Rules.HasField(data, "host") ==> r == Ok(AddHostSegmentRule(st, data))
    ensures !Rules.HasField(data, "host") ==>
              && (r.Ok? <==> Rules.Upsert(st.rules, data).Ok?)
              && (r.Err? ==> r.error == Rules.Upsert(st.rules, data).error)
              && (r.Ok? ==> r.value == st.(rules := Rules.Upsert(st.rules, data).value))
  {
    if Rules.HasField(data, "host") then Ok(AddHostSegmentRule(st, data))
    else
      match Rules.Upsert(st.rules, data)
      case Err(e) => Err(e)
      case Ok(rules) => Ok(st.(rules := rules))
  }

  /** Every stored rule is a well-formed JSON object. */
  predicate RulesWellFormed(st: Controller)
  {
    && (forall i :: 0 <= i < |st.rules| ==> Rules.DistinctFields(st.rules[i]))
    && (forall i :: 0 <= i < |st.hostSegmentRules| ==> Rules.DistinctFields(st.hostSegmentRules[i]))
  }

  /** Posting a well-formed rule keeps every stored rule well formed. */
  lemma PostControlKeepsRulesWellFormed(st: Controller, data: Rules.Payload)
    requires RulesWellFormed(st) && Rules.DistinctFields(data)
    requires PostControl(st, data).Ok?
    ensures RulesWellFormed(PostControl(st, data).value)
  {
    if !Rules.HasField(data, "host") && |data| >= 2 {
      match Rules.FindMatch(st.rules, data[0].0, data[0].1, data[1].0, data[1].1, 0)
      case Ok(Some(j)) =>
        Rules.SetFieldKeepsDistinct(st.rules[j], Rules.ActionField, Rules.Get(data, Rules.ActionField).value);
      case _ =>
    }
  }
}
