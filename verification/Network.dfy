/** Two endpoints of one conversation and a network that may lose, duplicate, delay and reorder
    datagrams.  Every datagram ever put out stays available for delivery: losing one is never
    delivering it, duplicating one is delivering it twice. */
module Network {
  import opened Words
  import opened Segments
  import opened Codec
  import opened Fragments
  import opened Engine
  import opened Endpoint
  import opened Delivery
  import Retransmit
  import Schedule
  import S = SendWindow
  import R = RecvWindow

  /** Bookkeeping of one direction that no endpoint sees: every fragment the sender has numbered,
      how many of them the peer's application has taken, the buffers accepted from the sending
      application and the ones the receiving application was given, and which log entries the
      receiver's pending acknowledgements name. */
  datatype Dir = Dir(log: seq<Frag>, taken: nat, sent: seq<Bytes>, got: seq<Bytes>, pend: seq<int>)

  /** A datagram in the network: its bytes, and for the record the log position each of its
      segments is about and the cumulative position its `una` stands for. */
  datatype Packet = Packet(bytes: Bytes, tags: seq<int>, una: nat)

  /** `ab` and `ba` are the datagrams put out so far by `a` and by `b`. */
  datatype Sys = Sys(a: Kcb, b: Kcb, ab: seq<Packet>, ba: seq<Packet>, dab: Dir, dba: Dir)

  datatype Action = Send(m: Bytes) | Recv(len: int) | Update(now: u32) | Flush | Deliver(i: nat)

  /** One step of the system: an action at `a` or at `b`. */
  datatype Move = AtA(act: Action) | AtB(act: Action)

  function Swap(s: Sys): Sys {
    Sys(s.b, s.a, s.ba, s.ab, s.dba, s.dab)
  }

  // ---- actions at endpoint a ----

  // What a send takes from the buffer: all of it, or, when stream mode refuses the rest, what
  // fitted into the segment that was still open.
  function Accepted(k: Kcb, m: Bytes): seq<Bytes>
    requires 24 < k.cfg.mtu
  {
    if Engine.Send(k, m).1 == 0 then [m]
    else if k.cfg.stream then [m[..Min(|m|, Room(k.snd.queue, k.cfg.Mss()))]]
    else []
  }

  // What the last queued segment can still take.
  function Room(q: seq<Segment>, mss: u32): nat {
    if q != [] && |q[|q| - 1].data| < mss then mss - |q[|q| - 1].data| else 0
  }

  // Which log entries the pending acknowledgements name after some segments were taken in.
  function PendAfter(r: R.Rcv, wnd: u32, ws: seq<Wire>, tags: seq<int>, pend: seq<int>): seq<int>
    decreases |ws|
  {
    if ws == [] || tags == [] then pend
    else
      var t := R.OnWire(r, wnd, ws[0]);
      PendAfter(t, wnd, ws[1..], tags[1..], if |t.acks| > |r.acks| then pend + [tags[0]] else pend)
  }

  // Datagrams with their record: the tags are dealt out in the order the parser finds segments.
  function Record(conv: u32, ds: seq<Bytes>, tags: seq<int>, una: nat): (ps: seq<Packet>)
    ensures |ps| == |ds|
    ensures forall i :: 0 <= i < |ds| ==> ps[i].bytes == ds[i]
  {
    if ds == [] then []
    else
      var n := Min(|Parse(conv, ds[0]).segs|, |tags|);
      [Packet(ds[0], tags[..n], una)] + Record(conv, ds[1..], tags[n..], una)
  }

  function Positions(top: nat, ws: seq<Wire>): (ts: seq<int>)
    ensures |ts| == |ws|
    ensures forall i :: 0 <= i < |ws| ==> ts[i] == S.Index(top, ws[i].sn)
  {
    seq(|ws|, i requires 0 <= i < |ws| => S.Index(top, ws[i].sn))
  }

  function Zeros(n: nat): (ts: seq<int>)
    ensures |ts| == n
  {
    seq(n, _ => 0)
  }

  // The log after endpoint `k` has flushed.
  function Grown(d: Dir, k: Kcb): seq<Frag> {
    LogAfter(k.snd, d.log, S.Room(k.snd, FlushWindow(k)))
  }

  function FlushTags(k: Kcb, out: Dir, pend: seq<int>): seq<int> {
    pend + Zeros(|ProbeWires(k, Probe.Tick(k.prober, k.clock.current))|)
         + Positions(|Grown(out, k)|, Retransmit.SentWires(Turns(k)))
  }

  function FlushAt(s: Sys, k: Kcb): Sys
    requires 24 < k.cfg.mtu && 24 < s.b.cfg.mtu
  {
    var (t, ds) := Engine.Flush(k);
    if !k.clock.updated then s.(a := t)
    else
      s.(a := t,
         ab := s.ab + Record(k.cfg.conv, ds, FlushTags(k, s.dab, s.dba.pend), Total(s.dba.taken, k.rcv)),
         dab := s.dab.(log := Grown(s.dab, k)),
         dba := s.dba.(pend := []))
  }

  function Taken(d: Dir, bytes: Bytes, n: nat): Dir {
    d.(got := d.got + [bytes], taken := d.taken + n)
  }

  predicate Possible(s: Sys, act: Action) {
    && 24 < s.a.cfg.mtu && 24 < s.b.cfg.mtu
    && (act.Deliver? ==> act.i < |s.ba|)
  }

  function Act(s: Sys, act: Action): Sys
    requires Possible(s, act)
  {
    match act
    case Send(m) =>
      s.(a := Engine.Send(s.a, m).0, dab := s.dab.(sent := s.dab.sent + Accepted(s.a, m)))
    case Recv(len) =>
      var (t, code, bytes) := Engine.Recv(s.a, len);
      var took := code >= 0 && len >= 0;
      s.(a := t, dba := if took then Taken(s.dba, bytes, MergeCount(FragsOf(s.a.rcv.queue))) else s.dba)
    case Update(now) =>
      var tock := Schedule.Update(s.a.clock, s.a.cfg.interval, now);
      var k := s.a.(clock := tock.clock);
      if tock.flush then FlushAt(s, k) else s.(a := k)
    case Flush => FlushAt(s, s.a)
    case Deliver(i) =>
      var p := s.ba[i];
      var ws := Parse(s.a.cfg.conv, p.bytes).segs;
      s.(a := Engine.Input(s.a, p.bytes).0,
         dba := s.dba.(pend := PendAfter(s.a.rcv, s.a.cfg.rcvWnd, ws, p.tags, s.dba.pend)))
  }

  // ---- what holds of datagrams in the network ----

  // A segment written by an endpoint whose own log is `log` and whose receiver is `r`: data is the
  // log entry its number names, an acknowledgement names an entry the receiver holds.
  ghost predicate GoodWire(w: Wire, tag: int, una: nat, log: seq<Frag>, r: R.Rcv, base: nat) {
    && w.una == Wrap(una)
    && (w.cmd == CMD_PUSH ==> 0 <= tag < |log| && w.sn == Wrap(tag) && Frag(w.frg, w.data) == log[tag])
    && (w.cmd == CMD_ACK ==> 0 <= tag && w.sn == Wrap(tag) && Holds(r, base, tag))
  }

  ghost predicate GoodWires(ws: seq<Wire>, tags: seq<int>, una: nat, log: seq<Frag>, r: R.Rcv, base: nat) {
    && |tags| == |ws|
    && una <= Total(base, r)
    && (forall i :: 0 <= i < |ws| ==> GoodWire(ws[i], tags[i], una, log, r, base))
  }

  ghost predicate GoodPacket(p: Packet, conv: u32, log: seq<Frag>, r: R.Rcv, base: nat) {
    GoodWires(Parse(conv, p.bytes).segs, p.tags, p.una, log, r, base)
  }

  // The lifetime assumption on a delivery: meanwhile nobody has numbered 2^31 further segments.
  ghost predicate FreshWires(ws: seq<Wire>, tags: seq<int>, una: nat, theirs: nat, ours: nat) {
    && ours - una <= 0x8000_0000
    && (forall i :: 0 <= i < |ws| && i < |tags| ==>
          && (ws[i].cmd == CMD_PUSH ==> theirs - tags[i] <= 0x8000_0000)
          && (ws[i].cmd == CMD_ACK ==> ours - tags[i] <= 0x8000_0000))
  }

  ghost predicate Legal(s: Sys, act: Action) {
    && Possible(s, act)
    && (act.Deliver? ==>
          var p := s.ba[act.i];
          FreshWires(Parse(s.a.cfg.conv, p.bytes).segs, p.tags, p.una, |s.dba.log|, |s.dab.log|))
  }

  // ---- the invariant ----

  ghost predicate Pending(pend: seq<int>, r: R.Rcv, base: nat) {
    && |pend| == |r.acks|
    && (forall i :: 0 <= i < |pend| ==> 0 <= pend[i] && r.acks[i].sn == Wrap(pend[i]) && Holds(r, base, pend[i]))
  }

  // What the fragments of a direction say: |all| are the numbered and the queued ones.  In
  // message mode they are the messages accepted, and whole messages have been taken; in stream
  // mode they are the bytes accepted.
  ghost predicate Faithful(d: Dir, c: Config, all: seq<Frag>)
    requires 24 < c.mtu
  {
    && d.taken <= |all|
    && if c.stream then
         && (forall f :: f in all ==> f.frg == 0)
         && Join(all) == JoinBytes(d.sent)
         && Join(all[..d.taken]) == JoinBytes(d.got)
       else
         && all == AllFrags(d.sent, c.Mss())
         && d.got <= d.sent
         && d.taken == |AllFrags(d.got, c.Mss())|
  }

  ghost predicate DirInv(d: Dir, c: Config, s: S.Snd, r: R.Rcv) {
    && 24 < c.mtu
    && Tracks(s, d.log)
    && Stored(r, d.taken, d.log)
    && Accounted(s, r, d.taken, d.log)
    && Faithful(d, c, d.log + FragsOf(s.queue))
    && Pending(d.pend, r, d.taken)
  }

  ghost predicate PairOk(a: Kcb, b: Kcb) {
    && Inv(a) && Inv(b) && a.cfg.conv == b.cfg.conv
    && a.cfg.rcvWnd < 0x7fff_0000 && b.cfg.rcvWnd < 0x7fff_0000
  }

  ghost predicate SysInv(s: Sys) {
    && PairOk(s.a, s.b)
    && DirInv(s.dab, s.a.cfg, s.a.snd, s.b.rcv)
    && DirInv(s.dba, s.b.cfg, s.b.snd, s.a.rcv)
    && (forall p :: p in s.ab ==> GoodPacket(p, s.a.cfg.conv, s.dab.log, s.a.rcv, s.dba.taken))
    && (forall p :: p in s.ba ==> GoodPacket(p, s.a.cfg.conv, s.dba.log, s.b.rcv, s.dab.taken))
  }

  function Start(cfgA: Config, cfgB: Config): Sys {
    var d := Dir([], 0, [], [], []);
    Sys(Create(cfgA), Create(cfgB), [], [], d, d)
  }
}
