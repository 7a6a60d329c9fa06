/**
 * The abstract OpenFlow 1.3 vocabulary the controller speaks: actions, flow matches and
 * the directives (flow-table changes and packet-outs) it asks a switch to carry out.
 * Wire encoding and the datapath connection are not modelled; a directive stands for the
 * message the controller would send.
 */
module OpenFlow {
  import opened Results

  /** The raw bytes of a frame, as carried by a packet-in. */
  type Frame = seq<bv8>

  /** The reserved port number OFPP_FLOOD (section 7.2.1 of the OpenFlow 1.3 specification). */
  const FloodPortNo: nat := 0xffff_fffb

  /** The buffer id OFP_NO_BUFFER: the packet-in carries the whole frame and nothing is buffered. */
  const NoBuffer: nat := 0xffff_ffff

  /** An output port: a numbered port, every port but the ingress one, or the controller. */
  datatype OutPort = Port(no: nat) | Flood | ToController

  datatype Action = SetQueue(queueId: nat) | Output(port: OutPort)

  /** A flow match; an absent field is a wildcard. */
  datatype Match = Match(inPort: Option<nat>, ethDst: Option<string>)

  const MatchAll: Match := Match(None, None)

  /** What the controller asks a switch to do. */
  datatype Directive =
    | DeleteFlows  // delete every flow of table 0 (the flow-mod's default table)
    | AddFlow(selector: Match, priority: nat, actions: seq<Action>, bufferId: nat)
    | PacketOut(bufferId: nat, inPort: nat, actions: seq<Action>, data: Option<Frame>)

  /** Whether a frame arriving on `inPort` for `ethDst` is selected by `m`. */
  predicate Covers(m: Match, inPort: nat, ethDst: string)
  {
    && (m.inPort.None? || m.inPort.value == inPort)
    && (m.ethDst.None? || m.ethDst.value == ethDst)
  }
}
