/** The segment (`IKCPSEG`), the protocol constants, and the header fields that travel. */
module Segments {
  import opened Words

  const CMD_PUSH: byte := 81
  const CMD_ACK: byte := 82
  const CMD_WASK: byte := 83
  const CMD_WINS: byte := 84
  const RTO_NDL: u32 := 30
  const RTO_MIN: u32 := 100
  const RTO_DEF: u32 := 200
  const RTO_MAX: u32 := 60000
  const WND_SND: u32 := 32
  const WND_RCV: u32 := 128
  const MTU_DEF: u32 := 1400
  const INTERVAL: u32 := 100
  const OVERHEAD: u32 := 24
  const DEADLINK: u32 := 20
  const THRESH_INIT: u32 := 2
  const THRESH_MIN: u32 := 2
  const PROBE_INIT: u32 := 7000
  const PROBE_LIMIT: u32 := 120000
  const FASTACK_LIMIT: int := 5

  /** `IKCPSEG`. `len` is the length of `data`; `cmd` and `frg` are stored in 32 bits by the
      source but only ever hold byte values. */
  datatype Segment = Segment(
    conv: u32, cmd: byte, frg: byte, wnd: u32, ts: u32, sn: u32, una: u32,
    resendts: u32, rto: u32, fastack: u32, xmit: u32, data: seq<byte>)

  /** What one segment looks like on the wire: eight header fields (`len` is implied) and the payload. */
  datatype Wire = Wire(
    conv: u32, cmd: byte, frg: byte, wnd: u16, ts: u32, sn: u32, una: u32, data: seq<byte>)

  /** The part of a segment the application sees: countdown fragment id and payload. */
  datatype Frag = Frag(frg: nat, data: seq<byte>)

  function FragOf(s: Segment): Frag {
    Frag(s.frg, s.data)
  }

  function FragsOf(q: seq<Segment>): (fs: seq<Frag>)
    ensures |fs| == |q|
  {
    seq(|q|, i requires 0 <= i < |q| => FragOf(q[i]))
  }

  // The 16-bit window field truncates.
  function ToWire(s: Segment): Wire {
    Wire(s.conv, s.cmd, s.frg, s.wnd % 0x1_0000, s.ts, s.sn, s.una, s.data)
  }

  predicate KnownCmd(cmd: byte) {
    cmd == CMD_PUSH || cmd == CMD_ACK || cmd == CMD_WASK || cmd == CMD_WINS
  }
}
