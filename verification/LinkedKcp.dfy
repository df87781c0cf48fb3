/** The control block with its queues as they are in memory: four rings that share no node.  Every
    API call keeps them apart, well linked and counted, and does to the segments in them exactly what
    the value-level engine does.  The byte buffer and the arithmetic are in `KcpObject`. */
module LinkedKcp {
  import opened Words
  import opened Segments
  import opened Codec
  import opened Queue
  import opened Wrappers
  import Congestion
  import Fragments
  import Packing
  import Probe
  import Retransmit
  import Rtt
  import Schedule
  import E = Engine
  import P = Endpoint
  import S = SendWindow
  import R = RecvWindow

  // Two well-linked rings with the right counters that share no node.
  ghost predicate Pair(a: List, b: List)
    reads a, b, a.Nodes(), b.Nodes()
  {
    a.Valid() && b.Valid() && Apart(a, b)
  }

  /** `snd_queue`, `snd_buf`, `snd_una` and `snd_nxt`. */
  class Sender {
    const queue: List
    const buf: List
    var una: u32
    var nxt: u32
    ghost var Repr: set<object>

    ghost predicate Valid()
      reads this, Repr
    {
      && this in Repr && queue in Repr && buf in Repr && queue.Nodes() <= Repr && buf.Nodes() <= Repr
      && Pair(queue, buf)
    }

    ghost function View(): S.Snd
      requires Valid()
      reads this, Repr
    {
      S.Snd(una, nxt, queue.Segs(), buf.Segs())
    }

    constructor ()
      ensures Valid() && fresh(Repr) && View() == S.Snd(0, 0, [], [])
    {
      var none := Fragments.Fresh(Frag(0, []));
      queue := new List(none);
      buf := new List(none);
      una, nxt := 0, 0;
      new;
      Repr := {this, queue, buf} + queue.Nodes() + buf.Nodes();
    }

    method Send(m: Bytes, mss: u32, stream: bool) returns (code: int)
      requires Valid() && mss > 0
      modifies Repr
      ensures Valid() && fresh(Repr - old(Repr))
      ensures View() == old(View()).(queue := Fragments.Send(old(View()).queue, mss, stream, m).queue)
      ensures code == Fragments.Send(old(View()).queue, mss, stream, m).code
    {
      code := queue.Send(m, mss, stream);
      Repr := Repr + queue.Nodes();
    }

    // `ikcp_shrink_buf`.
    method ShrinkBuf()
      requires Valid()
      modifies this`una
      ensures View() == S.Shrink(old(View()), old(View()).buf)
    {
      if buf.head.next != buf.head {
        assert buf.head.next.seg == buf.Segs()[0];
        una := buf.head.next.seg.sn;
      } else {
        una := nxt;
      }
    }

    // What the header of a received segment acknowledges.
    method TakeHeader(w: Wire)
      requires Valid()
      modifies Repr
      ensures Valid() && Repr == old(Repr) && View() == S.OnWire(old(View()), w)
    {
      ParseUna(w.una);
      if w.cmd == CMD_ACK { ParseAck(w.sn); }
    }

    method ParseUna(below: u32)
      requires Valid()
      modifies this`una, buf, buf.Nodes()
      ensures Valid() && Repr == old(Repr) && View() == S.TakeUna(old(View()), below)
    {
      ApartNodes(queue, buf);
      buf.ParseUna(below);
      ApartNodes(queue, buf);
      ShrinkBuf();
    }

    method ParseAck(sn: u32)
      requires Valid()
      modifies this`una, buf, buf.Nodes()
      ensures Valid() && Repr == old(Repr) && View() == S.TakeAck(old(View()), sn)
    {
      ApartNodes(queue, buf);
      if Diff(sn, una) >= 0 && Diff(sn, nxt) < 0 { buf.ParseAck(sn); }
      ApartNodes(queue, buf);
      ShrinkBuf();
    }

    method ParseFastAck(sn: u32)
      requires Valid()
      modifies Repr
      ensures Valid() && Repr == old(Repr) && View() == S.TakeFastAck(old(View()), sn)
    {
      if Diff(sn, una) >= 0 && Diff(sn, nxt) < 0 { buf.ParseFastAck(sn); }
    }

    method Clear()
      requires Valid()
      modifies Repr
      ensures Valid() && Repr == old(Repr) && queue.Segs() == [] && buf.Segs() == []
    {
      ApartNodes(queue, buf);
      buf.Clear();
      ApartNodes(queue, buf);
      queue.Clear();
      ApartNodes(queue, buf);
    }

    // The two loops of a flush over the send queues.
    method Flush(window: u32, st: S.Stamp, p: Retransmit.Policy) returns (turns: seq<Retransmit.Turn>)
      requires Valid()
      modifies Repr
      ensures Valid() && Repr == old(Repr)
      ensures var moved := S.Move(old(View()), window, st);
              && turns == Retransmit.Attempts(moved.buf, p)
              && View() == S.Snd(old(una), moved.nxt, moved.queue, Retransmit.Segs(turns))
    {
      nxt := MoveQueue(queue, buf, una, nxt, window, st);
      assert View() == S.Move(old(View()), window, st);
      turns := buf.Visit(p);
    }
  }

  /** `rcv_queue`, `rcv_buf`, `rcv_nxt` and `acklist`. */
  class Receiver {
    const queue: List
    const buf: List
    var nxt: u32
    var acks: seq<R.Ack>
    ghost var Repr: set<object>

    ghost predicate Valid()
      reads this, Repr
    {
      && this in Repr && queue in Repr && buf in Repr && queue.Nodes() <= Repr && buf.Nodes() <= Repr
      && Pair(buf, queue)
    }

    ghost function View(): R.Rcv
      requires Valid()
      reads this, Repr
    {
      R.Rcv(nxt, buf.Segs(), queue.Segs(), acks)
    }

    constructor ()
      ensures Valid() && fresh(Repr) && View() == R.Rcv(0, [], [], [])
    {
      var none := Fragments.Fresh(Frag(0, []));
      queue := new List(none);
      buf := new List(none);
      nxt, acks := 0, [];
      new;
      Repr := {this, queue, buf} + queue.Nodes() + buf.Nodes();
    }

    method Drain(wnd: u32)
      requires Valid()
      modifies this`nxt, queue, buf, queue.Nodes(), buf.Nodes()
      ensures Valid() && Repr == old(Repr) && View() == R.Drain(old(View()), wnd)
    {
      nxt := MoveAvailable(buf, queue, nxt, wnd, acks);
    }

    method Recv(len: int, wnd: u32) returns (code: int, bytes: Bytes, reopened: bool)
      requires Valid()
      modifies Repr
      ensures Valid() && Repr == old(Repr)
      ensures R.Recv(old(View()), wnd, len) == R.Received(View(), code, bytes, reopened)
    {
      bytes, reopened := [], false;
      if queue.head.next == queue.head { return -1, [], false; }
      var room := if len < 0 then -len else len;
      var size := queue.PeekSize();
      if size < 0 { return -2, [], false; }
      if size > room { return -3, [], false; }
      var recover := queue.count >= wnd;
      bytes := Merge(len < 0);
      Fragments.MergeMatchesPeek(FragsOf(old(queue.Segs())));
      assert |bytes| == size;
      Drain(wnd);
      reopened := queue.count < wnd && recover;
      code := |bytes|;
    }

    // The merge loop, which leaves the other queue alone.
    method Merge(peek: bool) returns (bytes: Bytes)
      requires Valid()
      modifies queue, queue.Nodes()
      ensures Valid() && Repr == old(Repr)
      ensures var n := Fragments.MergeCount(FragsOf(old(View()).queue));
              && bytes == Fragments.Join(FragsOf(old(View()).queue)[..n])
              && View() == if peek then old(View()) else old(View()).(queue := old(View()).queue[n..])
    {
      ApartNodes(buf, queue);
      bytes := queue.Merge(peek);
      ApartNodes(buf, queue);
    }

    // `ikcp_parse_data`: the window test, the insertion and the drain.
    method ParseData(s: Segment, wnd: u32)
      requires Valid()
      modifies Repr
      ensures Valid() && fresh(Repr - old(Repr)) && View() == R.ParseData(old(View()), wnd, s)
    {
      if Diff(s.sn, Add(nxt, wnd)) >= 0 || Diff(s.sn, nxt) < 0 { return; }
      Place(s);
      Drain(wnd);
    }

    method Place(s: Segment)
      requires Valid()
      modifies this`Repr, buf, buf.Nodes()
      ensures Valid() && fresh(Repr - old(Repr)) && View() == old(View()).(buf := R.Insert(old(View()).buf, s))
    {
      ApartNodes(buf, queue);
      var node := new Node(s);
      buf.Insert(node);
      Repr := Repr + {node};
      ApartNodes(buf, queue);
    }

    method ForgetAcks()
      requires Valid()
      modifies this`acks
      ensures Valid() && View() == old(View()).(acks := [])
    {
      acks := [];
    }

    method Clear()
      requires Valid()
      modifies Repr
      ensures Valid() && Repr == old(Repr) && queue.Segs() == [] && buf.Segs() == []
    {
      ApartNodes(buf, queue);
      buf.Clear();
      ApartNodes(buf, queue);
      queue.Clear();
      ApartNodes(buf, queue);
    }

    // A data segment: acknowledge it if it is not beyond the window, store it if it is not old.
    method TakeData(w: Wire, wnd: u32)
      requires Valid()
      modifies Repr
      ensures Valid() && fresh(Repr - old(Repr)) && View() == R.OnWire(old(View()), wnd, w)
    {
      if w.cmd == CMD_PUSH && Diff(w.sn, Add(nxt, wnd)) < 0 {
        acks := acks + [R.Ack(w.sn, w.ts)];
        if Diff(w.sn, nxt) >= 0 { ParseData(R.FromWire(w), wnd); }
      }
    }
  }

  // One list for each of `snd_queue`, `snd_buf`, `rcv_queue` and `rcv_buf`: well linked, with the
  // right counter, and no node in two of them.
  ghost predicate FourApart(a: List, b: List, c: List, d: List)
    reads a, b, c, d, a.Nodes(), b.Nodes(), c.Nodes(), d.Nodes()
  {
    && a.Valid() && b.Valid() && c.Valid() && d.Valid()
    && Apart(a, b) && Apart(a, c) && Apart(a, d) && Apart(b, c) && Apart(b, d) && Apart(c, d)
  }

  class ControlBlock {
    const snd: Sender
    const rcv: Receiver
    ghost var Repr: set<object>
    var cfg: E.Config
    var rtt: Rtt.Estimator
    var cong: Congestion.Cong
    var prober: Probe.Prober
    var clock: Schedule.Clock
    var state: u32
    var xmit: u32

    ghost predicate Valid()
      reads this, Repr
    {
      && 24 < cfg.mtu && this in Repr
      && snd in Repr && snd.Repr <= Repr && this !in snd.Repr && snd.Valid()
      && rcv in Repr && rcv.Repr <= Repr && this !in rcv.Repr && rcv.Valid()
      && snd.Repr !! rcv.Repr
    }

    ghost function View(): E.Kcb
      requires Valid()
      reads this, Repr
    {
      E.Kcb(cfg, snd.View(), rcv.View(), rtt, cong, prober, clock, state, xmit)
    }

    // `ikcp_create`, and the configuration the setters leave.
    constructor (c: E.Config)
      requires 24 < c.mtu
      ensures Valid() && fresh(Repr) && View() == E.Create(c)
    {
      var s := new Sender();
      var r := new Receiver();
      snd, rcv, Repr := s, r, {this} + s.Repr + r.Repr;
      cfg, rtt, cong := c, Rtt.START, Congestion.START;
      prober, clock := Probe.Prober(WND_RCV, false, false, 0, 0), Schedule.Clock(0, INTERVAL, false);
      state, xmit := 0, 0;
    }

    method Send(m: Bytes) returns (code: int)
      requires Valid()
      modifies Repr
      ensures Valid() && fresh(Repr - old(Repr)) && (View(), code) == E.Send(old(View()), m)
    {
      code := snd.Send(m, cfg.Mss(), cfg.stream);
      Repr := Repr + snd.Repr;
    }

    method Recv(len: int) returns (code: int, bytes: Bytes)
      requires Valid()
      modifies Repr
      ensures Valid() && fresh(Repr - old(Repr)) && (View(), code, bytes) == E.Recv(old(View()), len)
    {
      var reopened;
      code, bytes, reopened := rcv.Recv(len, cfg.rcvWnd);
      prober := E.Tell(prober, reopened);
    }

    // The acceptance of one segment.
    method TakeSegment(w: Wire)
      requires Valid()
      modifies Repr
      ensures Valid() && fresh(Repr - old(Repr)) && View() == E.OnWire(old(View()), w)
    {
      TakeHeader(w);
      TakeData(w);
    }

    method TakeHeader(w: Wire)
      requires Valid()
      modifies Repr
      ensures Valid() && fresh(Repr - old(Repr))
      ensures View() == old(View()).(snd := S.OnWire(old(View()).snd, w), prober := E.ProberOnWire(old(prober), w),
                                     rtt := E.RttOnWire(old(rtt), old(cfg), old(clock).current, w))
    {
      TakeAcks(w);
      rtt, prober := E.RttOnWire(rtt, cfg, clock.current, w), E.ProberOnWire(prober, w);
    }

    method TakeAcks(w: Wire)
      requires Valid()
      modifies Repr
      ensures Valid() && fresh(Repr - old(Repr))
      ensures View() == old(View()).(snd := S.OnWire(old(View()).snd, w))
    {
      snd.TakeHeader(w);
    }

    method TakeData(w: Wire)
      requires Valid()
      modifies Repr
      ensures Valid() && fresh(Repr - old(Repr))
      ensures View() == old(View()).(rcv := R.OnWire(old(View()).rcv, old(cfg).rcvWnd, w))
    {
      rcv.TakeData(w, cfg.rcvWnd);
      Repr := Repr + rcv.Repr;
    }

    method Input(data: Bytes) returns (code: int)
      requires Valid()
      modifies Repr
      ensures Valid() && fresh(Repr - old(Repr)) && (View(), code) == E.Input(old(View()), data)
    {
      if |data| < 24 { return -1; }
      var prevUna, scan := snd.una, Parse(cfg.conv, data);
      TakeSegments(scan.segs);
      E.OnWiresCfg(old(View()), scan.segs);
      code := scan.code;
      if code == 0 { Finish(prevUna, E.MaxAck(None, scan.segs)); }
    }

    method TakeSegments(ws: seq<Wire>)
      requires Valid()
      modifies Repr
      ensures Valid() && fresh(Repr - old(Repr)) && View() == E.OnWires(old(View()), ws)
    {
      var rest := ws;
      while rest != []
        invariant Valid() && fresh(Repr - old(Repr))
        invariant E.OnWires(View(), rest) == E.OnWires(old(View()), ws)
      {
        TakeSegment(rest[0]);
        rest := rest[1..];
      }
    }

    method ParseFastAck(sn: u32)
      requires Valid()
      modifies Repr
      ensures Valid() && fresh(Repr - old(Repr))
      ensures View() == old(View()).(snd := S.TakeFastAck(old(View()).snd, sn))
    {
      snd.ParseFastAck(sn);
    }

    method Finish(prevUna: u32, maxack: Option<u32>)
      requires Valid()
      modifies Repr
      ensures Valid() && fresh(Repr - old(Repr)) && View() == E.Finish(old(View()), prevUna, maxack)
    {
      if maxack.Some? { ParseFastAck(maxack.value); }
      assert snd.una == View().snd.una;
      if Diff(snd.una, prevUna) > 0 {
        cong := Congestion.Grow(cong, cfg.Mss(), prober.rmt);
      }
    }

    method Flush() returns (out: seq<Bytes>)
      requires Valid()
      modifies Repr
      ensures Valid() && fresh(Repr - old(Repr)) && (View(), out) == E.Flush(old(View()))
    {
      if !clock.updated { return []; }
      out := FlushNow();
    }

    method FlushNow() returns (out: seq<Bytes>)
      requires Valid()
      modifies Repr
      ensures Valid() && fresh(Repr - old(Repr)) && View() == E.AfterFlush(old(View()))
      ensures out == Packing.Datagrams(Packing.Pack(old(cfg).mtu, [], E.FlushWires(old(View()))))
    {
      ghost var k := View();
      var ws, window, turns := WriteQueues();
      assert Dist(snd.una, snd.nxt) == S.Span(View().snd);
      Settle(Dist(snd.una, snd.nxt), window, turns, k);
      out := Packing.Datagrams(Packing.Pack(cfg.mtu, [], ws));
    }

    // Everything a flush writes, and what it does to the queues.
    method WriteQueues() returns (ws: seq<Wire>, window: u32, turns: seq<Retransmit.Turn>)
      requires Valid()
      modifies Repr
      ensures Valid() && fresh(Repr - old(Repr)) && ws == E.FlushWires(old(View()))
      ensures window == E.FlushWindow(old(View())) && turns == E.Turns(old(View()))
      ensures View() == old(View()).(snd := E.SndAfter(old(View())), rcv := old(View()).rcv.(acks := []))
    {
      ghost var k := View();
      ws := Control();
      window, turns := FlushQueues();
      ws := ws + Retransmit.SentWires(turns);
      assert ws == E.FlushWires(k);
    }

    // `ikcp_wnd_unused`.
    method Unused() returns (unused: u32)
      requires Valid()
      ensures unused == R.Unused(rcv.View(), cfg.rcvWnd)
    {
      unused := if rcv.queue.count < cfg.rcvWnd then cfg.rcvWnd - rcv.queue.count else 0;
    }

    // The acknowledgements and window segments a flush is about to write.
    method Control() returns (ws: seq<Wire>)
      requires Valid()
      ensures ws == E.AckWires(View()) + E.ProbeWires(View(), Probe.Tick(prober, clock.current))
    {
      var unused := Unused();
      var p, a := Probe.Tick(prober, clock.current), E.LastAck(rcv.acks);
      var ack := Wire(cfg.conv, CMD_ACK, 0, unused % 0x1_0000, a.ts, a.sn, rcv.nxt, []);
      ws := [];
      for i := 0 to |rcv.acks|
        invariant ws == E.AckWires(View())[..i]
      {
        ws := ws + [ack.(ts := rcv.acks[i].ts, sn := rcv.acks[i].sn)];
      }
      ws := ws + (if p.ask then [ack.(cmd := CMD_WASK)] else []) + (if p.tell then [ack.(cmd := CMD_WINS)] else []);
    }

    // What a flush does to the queues.
    method FlushQueues() returns (window: u32, turns: seq<Retransmit.Turn>)
      requires Valid()
      modifies Repr
      ensures Valid() && fresh(Repr - old(Repr))
      ensures window == E.FlushWindow(old(View())) && turns == E.Turns(old(View()))
      ensures View() == old(View()).(snd := E.SndAfter(old(View())), rcv := old(View()).rcv.(acks := []))
    {
      window, turns := FlushSender();
      ForgetAcks();
    }

    method FlushSender() returns (window: u32, turns: seq<Retransmit.Turn>)
      requires Valid()
      modifies Repr
      ensures Valid() && fresh(Repr - old(Repr))
      ensures window == E.FlushWindow(old(View())) && turns == E.Turns(old(View()))
      ensures View() == old(View()).(snd := E.SndAfter(old(View())))
    {
      var st, p;
      window, st, p := Terms();
      turns := snd.Flush(window, st, p);
    }

    method ForgetAcks()
      requires Valid()
      modifies Repr
      ensures Valid() && fresh(Repr - old(Repr))
      ensures View() == old(View()).(rcv := old(View()).rcv.(acks := []))
    {
      rcv.ForgetAcks();
    }

    // The window of a flush, what it stamps on segments, and its policy for each.
    method Terms() returns (window: u32, st: S.Stamp, p: Retransmit.Policy)
      requires Valid()
      ensures window == E.FlushWindow(View()) && st == E.FlushStamp(View()) && p == E.FlushPolicy(View())
    {
      window := Min(cfg.sndWnd, prober.rmt);
      if !cfg.nocwnd { window := Min(cong.cwnd, window); }
      var resent := if cfg.fastresend > 0 then cfg.fastresend else 0xffff_ffff;
      var unused := Unused();
      st := S.Stamp(cfg.conv, unused, clock.current, rcv.nxt, rtt.rto);
      p := Retransmit.Policy(clock.current, rtt.rto, cfg.nodelay, resent, cfg.fastlimit, unused, rcv.nxt);
    }

    // The numbers a flush leaves; `inflight` is the span of the queues it has left.
    method Settle(inflight: u32, window: u32, turns: seq<Retransmit.Turn>, ghost k: E.Kcb)
      requires inflight == S.Span(E.SndAfter(k)) && window == E.FlushWindow(k) && turns == E.Turns(k)
      requires cfg == k.cfg && cong == k.cong && prober == k.prober && clock == k.clock
      requires state == k.state && xmit == k.xmit
      modifies this`prober, this`cong, this`state, this`xmit
      ensures cong == E.CongAfter(k) && prober == E.ProberAfter(k)
      ensures state == E.StateAfter(k) && xmit == E.XmitAfter(k)
    {
      var resent := if cfg.fastresend > 0 then cfg.fastresend else 0xffff_ffff;
      cong := Congestion.Settle(cong, cfg.Mss(), inflight, resent, window,
                                Retransmit.AnyFast(turns), Retransmit.AnyTimeout(turns));
      prober := Probe.Clear(Probe.Tick(prober, clock.current));
      if Retransmit.AnyDead(turns, cfg.deadLink) { state := E.DEAD; }
      xmit := Wrap(xmit + Retransmit.Timeouts(turns));
    }

    method Update(now: u32) returns (out: seq<Bytes>)
      requires Valid()
      modifies Repr
      ensures Valid() && fresh(Repr - old(Repr)) && (View(), out) == E.Update(old(View()), now)
    {
      var t := Schedule.Update(clock, cfg.interval, now);
      clock := t.clock;
      if t.flush { out := Flush(); } else { out := []; }
    }

    method Check(now: u32) returns (at: u32)
      requires Valid()
      ensures at == E.Check(View(), now)
    {
      var slap := Diff(now, clock.flushAt);
      if !clock.updated || slap >= 10000 || slap < -10000 || slap >= 0 { return now; }
      var wait := snd.buf.NextDue(now);
      if wait == 0 { return now; }
      at := Add(now, Min(Min(wait, Diff(clock.flushAt, now)), cfg.interval));
    }

    // `ikcp_release`: every list is emptied.
    method Release()
      requires Valid()
      modifies Repr
      ensures snd.queue.Valid() && snd.queue.Segs() == [] && snd.buf.Valid() && snd.buf.Segs() == []
      ensures rcv.queue.Valid() && rcv.queue.Segs() == [] && rcv.buf.Valid() && rcv.buf.Segs() == []
    {
      snd.Clear();
      rcv.Clear();
    }
  }

  // In a valid control block no two queues share a node.
  lemma QueuesApart(k: ControlBlock)
    requires k.Valid()
    ensures FourApart(k.snd.queue, k.snd.buf, k.rcv.queue, k.rcv.buf)
    ensures k.snd.queue.count == |k.View().snd.queue| && k.snd.buf.count == |k.View().snd.buf|
    ensures k.rcv.queue.count == |k.View().rcv.queue| && k.rcv.buf.count == |k.View().rcv.buf|
  {
    ApartNodes(k.snd.queue, k.rcv.queue);
    ApartNodes(k.snd.queue, k.rcv.buf);
    ApartNodes(k.snd.buf, k.rcv.queue);
    ApartNodes(k.snd.buf, k.rcv.buf);
    ApartNodes(k.rcv.queue, k.rcv.buf);
    ApartNodes(k.rcv.buf, k.rcv.queue);
  }

  // Whatever sequence of calls, the four rings stay well linked, counted and apart after each of
  // them, and what they hold is what the value-level run holds.
  method Session(c: E.Config, es: seq<P.Event>) returns (k: ControlBlock, out: seq<Bytes>)
    requires 24 < c.mtu
    ensures fresh(k) && k.Valid() && k.View() == P.Run(E.Create(c), es) && out == P.RunOutput(E.Create(c), es)
    ensures FourApart(k.snd.queue, k.snd.buf, k.rcv.queue, k.rcv.buf)
  {
    k := new ControlBlock(c);
    out := [];
    ghost var start := E.Create(c);
    for i := 0 to |es|
      invariant fresh(k) && fresh(k.Repr) && k.Valid()
      invariant k.View() == P.Run(start, es[..i]) && out == P.RunOutput(start, es[..i])
    {
      assert es[..i + 1][..i] == es[..i];
      var more := Call(k, es[i]);
      out := out + more;
    }
    assert es[..|es|] == es;
    QueuesApart(k);
  }

  // One call.
  method Call(k: ControlBlock, e: P.Event) returns (out: seq<Bytes>)
    requires k.Valid()
    modifies k.Repr
    ensures k.Valid() && fresh(k.Repr - old(k.Repr))
    ensures k.View() == P.Step(old(k.View()), e) && out == P.PutOut(old(k.View()), e)
  {
    out := [];
    match e
    case SendEv(m) => var code := k.Send(m);
    case RecvEv(len) => var code, bytes := k.Recv(len);
    case InputEv(data) => var code := k.Input(data);
    case UpdateEv(now) => out := k.Update(now);
    case FlushEv => out := k.Flush();
  }
}
