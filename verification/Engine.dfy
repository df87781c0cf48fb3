/** One endpoint as a value: the state of `IKCPCB` grouped by concern, and each API call of the
    engine as a function from state to state. */
module Engine {
  import opened Words
  import opened Segments
  import opened Codec
  import opened Fragments
  import opened Rtt
  import opened Congestion
  import opened Probe
  import opened Schedule
  import opened Retransmit
  import opened Packing
  import opened Wrappers
  import S = SendWindow
  import R = RecvWindow

  /** What the setters fix. */
  datatype Config = Config(
    conv: u32, mtu: u32, sndWnd: u32, rcvWnd: u32, interval: u32, nodelay: u32, minrto: u32,
    fastresend: u32, fastlimit: int, nocwnd: bool, stream: bool, deadLink: u32)
  {
    // The payload a segment may carry; 32-bit, like every difference of the source.
    function Mss(): u32 {
      Dist(OVERHEAD, mtu)
    }
  }

  datatype Kcb = Kcb(
    cfg: Config, snd: S.Snd, rcv: R.Rcv, rtt: Estimator, cong: Cong, prober: Prober, clock: Clock,
    state: u32, xmit: u32)

  const DEAD: u32 := 0xffff_ffff

  // `ikcp_create`.
  function Create(cfg: Config): Kcb {
    Kcb(cfg, S.Snd(0, 0, [], []), R.Rcv(0, [], [], []), Rtt.START, Congestion.START,
        Prober(WND_RCV, false, false, 0, 0), Clock(0, INTERVAL, false), 0, 0)
  }

  // ---- ikcp_send, ikcp_recv ----

  function Send(k: Kcb, m: Bytes): (Kcb, int)
    requires 24 < k.cfg.mtu
  {
    var r := Fragments.Send(k.snd.queue, k.cfg.Mss(), k.cfg.stream, m);
    (k.(snd := k.snd.(queue := r.queue)), r.code)
  }

  // `probe |= IKCP_ASK_TELL` when `yes`.
  function Tell(p: Prober, yes: bool): Prober {
    Prober(p.rmt, p.ask, p.tell || yes, p.ts, p.wait)
  }

  function Recv(k: Kcb, len: int): (Kcb, int, Bytes) {
    var r := R.Recv(k.rcv, k.cfg.rcvWnd, len);
    (Kcb(k.cfg, k.snd, r.rcv, k.rtt, k.cong, Tell(k.prober, r.reopened), k.clock, k.state, k.xmit), r.code, r.bytes)
  }

  // ---- ikcp_input ----

  function RttOnWire(e: Estimator, cfg: Config, current: u32, w: Wire): Estimator {
    if w.cmd == CMD_ACK && Diff(current, w.ts) >= 0 then Sample(e, cfg.minrto, cfg.interval, Diff(current, w.ts)) else e
  }

  function ProberOnWire(p: Prober, w: Wire): Prober {
    Prober(w.wnd, p.ask, p.tell || w.cmd == CMD_WASK, p.ts, p.wait)
  }

  // The effect of one accepted segment.
  function OnWire(k: Kcb, w: Wire): Kcb {
    Kcb(k.cfg, S.OnWire(k.snd, w), R.OnWire(k.rcv, k.cfg.rcvWnd, w), RttOnWire(k.rtt, k.cfg, k.clock.current, w),
        k.cong, ProberOnWire(k.prober, w), k.clock, k.state, k.xmit)
  }

  function OnWires(k: Kcb, ws: seq<Wire>): Kcb
    decreases |ws|
  {
    if ws == [] then k else OnWires(OnWire(k, ws[0]), ws[1..])
  }

  // The greatest acknowledged serial number so far.
  function Newer(m: Option<u32>, w: Wire): Option<u32> {
    if w.cmd == CMD_ACK && (m == None || Diff(w.sn, m.value) > 0) then Some(w.sn) else m
  }

  function MaxAck(m: Option<u32>, ws: seq<Wire>): Option<u32>
    decreases |ws|
  {
    if ws == [] then m else MaxAck(Newer(m, ws[0]), ws[1..])
  }

  // What follows the parse loop when the whole datagram was accepted.
  function Finish(k: Kcb, prevUna: u32, maxack: Option<u32>): Kcb
    requires 24 < k.cfg.mtu
  {
    var snd := if maxack == None then k.snd else S.TakeFastAck(k.snd, maxack.value);
    k.(snd := snd, cong := if Diff(snd.una, prevUna) > 0 then Grow(k.cong, k.cfg.Mss(), k.prober.rmt) else k.cong)
  }

  lemma {:induction false} OnWiresCfg(k: Kcb, ws: seq<Wire>)
    ensures var t := OnWires(k, ws);
            && t.cfg == k.cfg && t.cong == k.cong && t.clock == k.clock && t.state == k.state && t.xmit == k.xmit
            && t.snd == S.OnWires(k.snd, ws) && t.rcv == R.OnWires(k.rcv, k.cfg.rcvWnd, ws)
    decreases |ws|
  {
    if ws != [] { OnWiresCfg(OnWire(k, ws[0]), ws[1..]); }
  }

  function Input(k: Kcb, data: Bytes): (Kcb, int)
    requires 24 < k.cfg.mtu
  {
    if |data| < 24 then (k, -1)
    else
      var scan := Parse(k.cfg.conv, data);
      var t := OnWires(k, scan.segs);
      OnWiresCfg(k, scan.segs);
      if scan.code != 0 then (t, scan.code) else (Finish(t, k.snd.una, MaxAck(None, scan.segs)), 0)
  }

  // ---- ikcp_flush ----

  function LastAck(acks: seq<R.Ack>): R.Ack {
    if acks == [] then R.Ack(0, 0) else acks[|acks| - 1]
  }

  function WindowField(k: Kcb): u16 {
    R.Unused(k.rcv, k.cfg.rcvWnd) % 0x1_0000
  }

  function AckWires(k: Kcb): (ws: seq<Wire>)
    ensures |ws| == |k.rcv.acks|
  {
    seq(|k.rcv.acks|, i requires 0 <= i < |k.rcv.acks| =>
      Wire(k.cfg.conv, CMD_ACK, 0, WindowField(k), k.rcv.acks[i].ts, k.rcv.acks[i].sn, k.rcv.nxt, []))
  }

  // The two window segments; their `ts` and `sn` repeat the last acknowledgement written.
  function ProbeWires(k: Kcb, p: Prober): seq<Wire> {
    var a := LastAck(k.rcv.acks);
    (if p.ask then [Wire(k.cfg.conv, CMD_WASK, 0, WindowField(k), a.ts, a.sn, k.rcv.nxt, [])] else []) +
    (if p.tell then [Wire(k.cfg.conv, CMD_WINS, 0, WindowField(k), a.ts, a.sn, k.rcv.nxt, [])] else [])
  }

  function FlushWindow(k: Kcb): u32 {
    var w := Min(k.cfg.sndWnd, k.prober.rmt);
    if k.cfg.nocwnd then w else Min(k.cong.cwnd, w)
  }

  function Resent(k: Kcb): u32 {
    if k.cfg.fastresend > 0 then k.cfg.fastresend else 0xffff_ffff
  }

  function FlushStamp(k: Kcb): S.Stamp {
    S.Stamp(k.cfg.conv, R.Unused(k.rcv, k.cfg.rcvWnd), k.clock.current, k.rcv.nxt, k.rtt.rto)
  }

  function FlushPolicy(k: Kcb): Policy {
    Policy(k.clock.current, k.rtt.rto, k.cfg.nodelay, Resent(k), k.cfg.fastlimit,
           R.Unused(k.rcv, k.cfg.rcvWnd), k.rcv.nxt)
  }

  function Moved(k: Kcb): S.Snd {
    S.Move(k.snd, FlushWindow(k), FlushStamp(k))
  }

  function Turns(k: Kcb): seq<Turn> {
    Attempts(Moved(k).buf, FlushPolicy(k))
  }

  // Everything one flush writes, in order: acknowledgements, window segments, data segments.
  function FlushWires(k: Kcb): seq<Wire> {
    AckWires(k) + ProbeWires(k, Tick(k.prober, k.clock.current)) + SentWires(Turns(k))
  }

  function SndAfter(k: Kcb): S.Snd {
    S.Snd(k.snd.una, Moved(k).nxt, Moved(k).queue, Segs(Turns(k)))
  }

  function ProberAfter(k: Kcb): Prober {
    Clear(Tick(k.prober, k.clock.current))
  }

  function CongAfter(k: Kcb): Cong {
    Settle(k.cong, k.cfg.Mss(), S.Span(SndAfter(k)), Resent(k), FlushWindow(k), AnyFast(Turns(k)), AnyTimeout(Turns(k)))
  }

  function StateAfter(k: Kcb): u32 {
    if AnyDead(Turns(k), k.cfg.deadLink) then DEAD else k.state
  }

  function XmitAfter(k: Kcb): u32 {
    Wrap(k.xmit + Timeouts(Turns(k)))
  }

  function AfterFlush(k: Kcb): Kcb {
    Kcb(k.cfg, SndAfter(k), R.Rcv(k.rcv.nxt, k.rcv.buf, k.rcv.queue, []), k.rtt, CongAfter(k), ProberAfter(k), k.clock,
        StateAfter(k), XmitAfter(k))
  }

  // The state a flush leaves and the datagrams it puts out.
  function Flush(k: Kcb): (Kcb, seq<Bytes>) {
    if !k.clock.updated then (k, []) else (AfterFlush(k), Datagrams(Pack(k.cfg.mtu, [], FlushWires(k))))
  }

  // ---- ikcp_update, ikcp_check ----

  function Update(k: Kcb, now: u32): (Kcb, seq<Bytes>) {
    var t := Schedule.Update(k.clock, k.cfg.interval, now);
    if t.flush then Flush(k.(clock := t.clock)) else (k.(clock := t.clock), [])
  }

  function Deadlines(buf: seq<Segment>): seq<u32> {
    seq(|buf|, i requires 0 <= i < |buf| => buf[i].resendts)
  }

  function Check(k: Kcb, now: u32): u32 {
    Schedule.Check(k.clock, k.cfg.interval, Deadlines(k.snd.buf), now)
  }
}
