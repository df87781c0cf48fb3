/** The control block `IKCPCB` as an object: its fields, and every API call as the method that
    updates them in place, loop by loop, proved against the value-level engine. */
module KcpObject {
  import opened Words
  import opened Segments
  import opened Codec
  import opened Packing
  import opened Wrappers
  import Fragments
  import Rtt
  import Congestion
  import Probe
  import Schedule
  import Sequences
  import Retransmit
  import E = Engine
  import P = Endpoint
  import S = SendWindow
  import R = RecvWindow

  class Kcp {
    // What the setters fix: `conv`, `mtu`, `snd_wnd`, `rcv_wnd`, `interval`, `nodelay`, `rx_minrto`,
    // `fastresend`, `fastlimit`, `nocwnd`, `stream` and `dead_link`.
    var cfg: E.Config
    var mss: u32
    var state: u32
    var sndUna: u32
    var sndNxt: u32
    var rcvNxt: u32
    // `rx_srtt`, `rx_rttval` and `rx_rto`.
    var rtt: Rtt.Estimator
    // `cwnd`, `incr` and `ssthresh`.
    var cong: Congestion.Cong
    // `rmt_wnd`, the two bits of `probe`, `ts_probe` and `probe_wait`.
    var prober: Probe.Prober
    // `current`, `ts_flush` and `updated`.
    var clock: Schedule.Clock
    var xmit: u32
    var nrcvBuf: nat
    var nsndBuf: nat
    var nrcvQue: nat
    var nsndQue: nat
    var sndQueue: seq<Segment>
    var rcvQueue: seq<Segment>
    var sndBuf: seq<Segment>
    var rcvBuf: seq<Segment>
    var acklist: seq<R.Ack>
    var buffer: array<byte>
    // What the output callback has been given so far.
    var output: seq<Bytes>

    // ---- the abstract state ----

    function Snd(): S.Snd
      reads `sndUna, `sndNxt, `sndQueue, `sndBuf
    {
      S.Snd(sndUna, sndNxt, sndQueue, sndBuf)
    }

    function Rcv(): R.Rcv
      reads `rcvNxt, `rcvBuf, `rcvQueue, `acklist
    {
      R.Rcv(rcvNxt, rcvBuf, rcvQueue, acklist)
    }

    function View(): E.Kcb
      reads `cfg, `sndUna, `sndNxt, `sndQueue, `sndBuf, `rcvNxt, `rcvBuf, `rcvQueue, `acklist
      reads `rtt, `cong, `prober, `clock, `state, `xmit
    {
      E.Kcb(cfg, Snd(), Rcv(), rtt, cong, prober, clock, state, xmit)
    }

    // The counters equal the queue lengths and the arrays have the room the source relies on.
    // What the protocol needs beyond that is `Endpoint.Inv(View())`, which holds in every run.
    ghost predicate Valid()
      reads `nsndQue, `nsndBuf, `nrcvQue, `nrcvBuf, `sndQueue, `sndBuf, `rcvQueue, `rcvBuf, `cfg, `mss, `buffer
    {
      var valid := nsndQue == |sndQueue| && nsndBuf == |sndBuf| && nrcvQue == |rcvQueue| && nrcvBuf == |rcvBuf|
                   && 24 < cfg.mtu && mss == cfg.mtu - 24 && buffer.Length == 3 * (cfg.mtu + 24);
      valid
    }

    // ---- ikcp_create ----

    constructor (conv: u32)
      ensures Valid() && fresh(buffer)
      ensures View() == E.Create(Defaults(conv))
      ensures cfg == E.Config(conv, 1400, 32, 128, 100, 0, 100, 0, 5, false, false, 20) && mss == 1376
      ensures output == []
    {
      cfg := Defaults(conv);
      mss := MTU_DEF - OVERHEAD;
      state := 0;
      sndUna, sndNxt, rcvNxt := 0, 0, 0;
      prober := Probe.Prober(WND_RCV, false, false, 0, 0);
      cong := Congestion.Cong(0, 0, THRESH_INIT);
      buffer := new byte[3 * (MTU_DEF + OVERHEAD)](_ => 0);
      sndQueue, rcvQueue, sndBuf, rcvBuf := [], [], [], [];
      nrcvBuf, nsndBuf, nrcvQue, nsndQue := 0, 0, 0, 0;
      acklist := [];
      rtt := Rtt.Estimator(0, 0, RTO_DEF);
      clock := Schedule.Clock(0, INTERVAL, false);
      xmit := 0;
      output := [];
    }

    // ---- ikcp_send ----

    method Send(data: Bytes, len: int) returns (code: int)
      requires Valid() && len <= |data|
      modifies this`sndQueue, this`nsndQue
      ensures Valid()
      ensures len < 0 ==> code == -1 && View() == old(View())
      ensures len >= 0 ==> (View(), code) == E.Send(old(View()), data[..len])
    {
      if len < 0 {
        return -1;
      }
      code := Enqueue(data[..len]);
    }

    method Enqueue(m: Bytes) returns (code: int)
      requires nsndQue == |sndQueue| && mss > 0
      modifies this`sndQueue, this`nsndQue
      ensures nsndQue == |sndQueue|
      ensures Fragments.Sent(sndQueue, code) == Fragments.Send(old(sndQueue), mss, cfg.stream, m)
    {
      var rest := m;
      if cfg.stream {
        if sndQueue != [] && |sndQueue[|sndQueue| - 1].data| < mss {
          var last := sndQueue[|sndQueue| - 1];
          var capacity := mss - |last.data|;
          var extend := if |rest| < capacity then |rest| else capacity;
          sndQueue := sndQueue[..|sndQueue| - 1] + [Fragments.Fresh(Frag(0, last.data + rest[..extend]))];
          rest := rest[extend..];
        }
        assert sndQueue == Fragments.ToppedUp(old(sndQueue), mss, m);
        assert rest == m[Fragments.TopUp(old(sndQueue), mss, m)..];
        if rest == [] {
          return 0;
        }
      }
      code := AppendPieces(rest);
    }

    // The tail of `ikcp_send`: count the pieces, refuse too many, append them one by one.
    method AppendPieces(rest: Bytes) returns (code: int)
      requires nsndQue == |sndQueue| && mss > 0
      modifies this`sndQueue, this`nsndQue
      ensures nsndQue == |sndQueue|
      ensures Fragments.Sent(sndQueue, code) == Fragments.Append(old(sndQueue), mss, cfg.stream, rest)
    {
      var count := if |rest| <= mss then 1 else (|rest| + mss - 1) / mss;
      ghost var q, c := sndQueue, Fragments.Chop(rest, mss);
      Fragments.ChopCount(rest, mss);
      if count >= WND_RCV {
        return -2;
      }
      ghost var all := Fragments.FreshAll(Fragments.Numbered(c, cfg.stream));
      var left := rest;
      for i := 0 to count
        invariant nsndQue == |sndQueue| && sndQueue == q + all[..i]
        invariant i < count ==> c[i..] == Fragments.Chop(left, mss)
      {
        var size := if |left| > mss then mss else |left|;
        assert c[i] == c[i..][0] == left[..size];
        assert c[i..][1..] == c[i + 1..];
        AppendPiece(Fragments.Fresh(Frag(if cfg.stream then 0 else count - i - 1, left[..size])), q, all, i);
        left := left[size..];
      }
      assert all[..count] == all;
      return 0;
    }

    method AppendPiece(s: Segment, ghost q: seq<Segment>, ghost all: seq<Segment>, ghost i: nat)
      requires nsndQue == |sndQueue| && i < |all| && s == all[i] && sndQueue == q + all[..i]
      modifies this`sndQueue, this`nsndQue
      ensures nsndQue == |sndQueue| && sndQueue == q + all[..i + 1]
    {
      sndQueue := sndQueue + [s];
      nsndQue := nsndQue + 1;
      assert q + all[..i] + [all[i]] == q + all[..i + 1];
    }

    // ---- ikcp_peeksize, ikcp_recv ----

    method PeekSize() returns (size: int)
      requires nrcvQue == |rcvQueue|
      ensures size == Fragments.PeekSize(FragsOf(rcvQueue))
    {
      ghost var fs := FragsOf(rcvQueue);
      if rcvQueue == [] {
        return -1;
      }
      if rcvQueue[0].frg == 0 {
        return |rcvQueue[0].data|;
      }
      if nrcvQue < rcvQueue[0].frg + 1 {
        return -1;
      }
      size := 0;
      var i := 0;
      assert fs[0..] == fs;
      while i < |rcvQueue|
        invariant 0 <= i <= |rcvQueue| && size + Fragments.LoopSize(fs[i..]) == Fragments.LoopSize(fs)
      {
        assert fs[i..][0] == fs[i] && fs[i..][1..] == fs[i + 1..];
        size := size + |rcvQueue[i].data|;
        if rcvQueue[i].frg == 0 {
          return;
        }
        i := i + 1;
      }
    }

    // Merges the fragments of the first message; unless peeking, removes them.
    method Merge(peek: bool) returns (bytes: Bytes)
      requires nrcvQue == |rcvQueue|
      modifies this`rcvQueue, this`nrcvQue
      ensures nrcvQue == |rcvQueue|
      ensures var n := Fragments.MergeCount(FragsOf(old(rcvQueue)));
              && bytes == Fragments.Join(FragsOf(old(rcvQueue))[..n])
              && rcvQueue == if peek then old(rcvQueue) else old(rcvQueue)[n..]
    {
      ghost var fs := FragsOf(rcvQueue);
      var q := rcvQueue;
      bytes := [];
      var i := 0;
      while i < |q|
        invariant 0 <= i <= |q| && q == old(rcvQueue)
        invariant nrcvQue == |rcvQueue| && rcvQueue == if peek then q else q[i..]
        invariant bytes == Fragments.Join(fs[..i])
        invariant Fragments.MergeCount(fs) == i + Fragments.MergeCount(fs[i..])
      {
        var seg := q[i];
        bytes := bytes + seg.data;
        Fragments.JoinNext(fs, i);
        assert fs[i..][1..] == fs[i + 1..];
        if !peek {
          rcvQueue := rcvQueue[1..];
          nrcvQue := nrcvQue - 1;
        }
        i := i + 1;
        if seg.frg == 0 {
          return;
        }
      }
    }

    // Moves available data from `rcv_buf` to `rcv_queue`.
    method MoveAvailable()
      requires Valid()
      modifies this`rcvBuf, this`nrcvBuf, this`rcvQueue, this`nrcvQue, this`rcvNxt
      ensures Valid() && Rcv() == R.Drain(old(Rcv()), cfg.rcvWnd)
    {
      while rcvBuf != []
        invariant Valid() && Rcv().acks == old(Rcv().acks)
        invariant R.Drain(Rcv(), cfg.rcvWnd) == R.Drain(old(Rcv()), cfg.rcvWnd)
        decreases |rcvBuf|
      {
        var seg := rcvBuf[0];
        if seg.sn == rcvNxt && nrcvQue < cfg.rcvWnd {
          rcvBuf := rcvBuf[1..];
          nrcvBuf := nrcvBuf - 1;
          rcvQueue := rcvQueue + [seg];
          nrcvQue := nrcvQue + 1;
          rcvNxt := Add(rcvNxt, 1);
        } else {
          break;
        }
      }
    }

    method Recv(len: int) returns (code: int, bytes: Bytes)
      requires Valid()
      modifies this`rcvBuf, this`nrcvBuf, this`rcvQueue, this`nrcvQue, this`rcvNxt, this`prober
      ensures Valid() && (View(), code, bytes) == E.Recv(old(View()), len)
    {
      ghost var r := R.Recv(Rcv(), cfg.rcvWnd, len);
      code, bytes := TakeMessage(len);
      assert prober == E.Tell(old(prober), r.reopened);
      assert Snd() == old(Snd()) && rtt == old(rtt) && cong == old(cong) && clock == old(clock);
    }

    method TakeMessage(len: int) returns (code: int, bytes: Bytes)
      requires Valid()
      modifies this`rcvBuf, this`nrcvBuf, this`rcvQueue, this`nrcvQue, this`rcvNxt, this`prober
      ensures Valid()
      ensures var r := R.Recv(old(Rcv()), cfg.rcvWnd, len);
              && Rcv() == r.rcv && code == r.code && bytes == r.bytes
              && prober == E.Tell(old(prober), r.reopened)
    {
      bytes := [];
      if rcvQueue == [] {
        return -1, [];
      }
      var room := if len < 0 then -len else len;
      var peeksize := PeekSize();
      if peeksize < 0 {
        return -2, [];
      }
      if peeksize > room {
        return -3, [];
      }
      var recover := nrcvQue >= cfg.rcvWnd;
      Fragments.MergeMatchesPeek(FragsOf(rcvQueue));
      bytes := Merge(len < 0);
      assert |bytes| == peeksize;
      MoveAvailable();
      if nrcvQue < cfg.rcvWnd && recover {
        prober := prober.(tell := true);
      }
      code := |bytes|;
    }
 
    // ---- acknowledgements ----

    method UpdateAck(sample: int)
      modifies this`rtt
      ensures rtt == Rtt.Sample(old(rtt), cfg.minrto, cfg.interval, sample)
    {
      var srtt, rttval := rtt.srtt, rtt.rttval;
      if srtt == 0 {
        srtt := sample;
        rttval := TruncDiv(sample, 2);
      } else {
        var delta := Int32(sample - srtt);
        if delta < 0 {
          delta := -delta;
        }
        rttval := Int32(TruncDiv(Int32(3 * rttval) + delta, 4));
        srtt := TruncDiv(Int32(7 * srtt + sample), 8);
        if srtt < 1 {
          srtt := 1;
        }
      }
      var rto := Wrap(srtt + Max(cfg.interval, Wrap(4 * rttval)));
      rtt := Rtt.Estimator(srtt, rttval, Min(Max(cfg.minrto, rto), RTO_MAX));
    }

    method ShrinkBuf()
      modifies this`sndUna
      ensures Snd() == S.Shrink(old(Snd()), sndBuf)
    {
      if sndBuf != [] {
        sndUna := sndBuf[0].sn;
      } else {
        sndUna := sndNxt;
      }
    }

    // Removes from the front while the serial number is below `una`; stops at the first that is not.
    method ParseUna(una: u32)
      requires nsndBuf == |sndBuf|
      modifies this`sndBuf, this`nsndBuf
      ensures nsndBuf == |sndBuf| && sndBuf == S.DropBelow(old(sndBuf), una)
    {
      while sndBuf != []
        invariant nsndBuf == |sndBuf| && S.DropBelow(sndBuf, una) == S.DropBelow(old(sndBuf), una)
        decreases |sndBuf|
      {
        if Diff(una, sndBuf[0].sn) > 0 {
          sndBuf := sndBuf[1..];
          nsndBuf := nsndBuf - 1;
        } else {
          break;
        }
      }
    }

    // Removes the segment numbered `sn`; the scan gives up at the first greater serial number.
    method ParseAck(sn: u32)
      requires nsndBuf == |sndBuf|
      modifies this`sndBuf, this`nsndBuf
      ensures nsndBuf == |sndBuf|
      ensures sndBuf == if S.InRange(sndUna, sndNxt, sn) then S.ScanAck(old(sndBuf), sn) else old(sndBuf)
    {
      if Diff(sn, sndUna) < 0 || Diff(sn, sndNxt) >= 0 {
        return;
      }
      ghost var b := sndBuf;
      var i := 0;
      while i < |sndBuf|
        invariant 0 <= i <= |sndBuf| && sndBuf == b && nsndBuf == |sndBuf|
        invariant forall j :: 0 <= j < i ==> b[j].sn != sn && Diff(sn, b[j].sn) >= 0
      {
        if sn == sndBuf[i].sn {
          sndBuf := sndBuf[..i] + sndBuf[i + 1..];
          nsndBuf := nsndBuf - 1;
          break;
        }
        if Diff(sn, sndBuf[i].sn) < 0 {
          break;
        }
        i := i + 1;
      }
      S.ScanAckStops(b, sn, i);
    }

    // Counts a skip on every segment the scan passes; it gives up at the first greater serial number.
    method ParseFastack(sn: u32)
      modifies this`sndBuf
      ensures Snd() == S.TakeFastAck(old(Snd()), sn)
    {
      if Diff(sn, sndUna) < 0 || Diff(sn, sndNxt) >= 0 {
        return;
      }
      ghost var b := sndBuf;
      var i := 0;
      while i < |sndBuf|
        invariant 0 <= i <= |sndBuf| == |b|
        invariant forall j :: 0 <= j < i ==> Diff(sn, b[j].sn) >= 0
        invariant forall j :: 0 <= j < |b| ==>
                    sndBuf[j] == if j < i && b[j].sn != sn then S.Bumped(b[j]) else b[j]
      {
        var seg := sndBuf[i];
        if Diff(sn, seg.sn) < 0 {
          break;
        }
        if sn != seg.sn {
          sndBuf := sndBuf[i := S.Bumped(seg)];
        }
        i := i + 1;
      }
      S.ScanSkipStops(b, sn, i);
    }

    // ---- ikcp_parse_data ----

    method ParseData(newseg: Segment)
      requires Valid()
      modifies this`rcvBuf, this`nrcvBuf, this`rcvQueue, this`nrcvQue, this`rcvNxt
      ensures Valid() && Rcv() == R.ParseData(old(Rcv()), cfg.rcvWnd, newseg)
    {
      var sn := newseg.sn;
      if Diff(sn, Add(rcvNxt, cfg.rcvWnd)) >= 0 || Diff(sn, rcvNxt) < 0 {
        return;
      }
      PlaceSegment(newseg);
      MoveAvailable();
    }

    // Scans from the tail for the place of a segment and inserts it unless its number is there.
    method PlaceSegment(newseg: Segment)
      requires nrcvBuf == |rcvBuf|
      modifies this`rcvBuf, this`nrcvBuf
      ensures nrcvBuf == |rcvBuf| && rcvBuf == R.Insert(old(rcvBuf), newseg)
    {
      var sn := newseg.sn;
      var repeat := false;
      var i := |rcvBuf|;
      while i > 0
        invariant 0 <= i <= |rcvBuf| && rcvBuf == old(rcvBuf) && !repeat
        invariant forall j :: i <= j < |rcvBuf| ==> rcvBuf[j].sn != sn && Diff(sn, rcvBuf[j].sn) <= 0
      {
        var seg := rcvBuf[i - 1];
        if seg.sn == sn {
          repeat := true;
          break;
        }
        if Diff(sn, seg.sn) > 0 {
          break;
        }
        i := i - 1;
      }
      R.InsertStops(rcvBuf, newseg, i);
      if !repeat {
        rcvBuf := rcvBuf[..i] + [newseg] + rcvBuf[i..];
        nrcvBuf := nrcvBuf + 1;
      }
    }

    // ---- ikcp_input ----

    // The acceptance of one segment, after its header has been decoded.
    method TakeSegment(w: Wire)
      requires Valid()
      modifies this`prober, this`sndUna, this`sndBuf, this`nsndBuf, this`rtt
      modifies this`rcvBuf, this`nrcvBuf, this`rcvQueue, this`nrcvQue, this`rcvNxt, this`prober
      modifies this`acklist
      ensures Valid()
      ensures View() == E.OnWire(old(View()), w)
    {
      TakeHeader(w);
      assert Rcv() == old(Rcv());
      TakeContent(w);
      assert prober == E.ProberOnWire(old(prober), w) && cong == old(cong) && clock == old(clock);
    }

    // What a segment carries besides acknowledgements: data, or the question for the window.
    method TakeContent(w: Wire)
      requires Valid()
      modifies this`rcvBuf, this`nrcvBuf, this`rcvQueue, this`nrcvQue, this`rcvNxt, this`prober
      modifies this`acklist
      ensures Valid()
      ensures Rcv() == R.OnWire(old(Rcv()), cfg.rcvWnd, w)
      ensures prober == old(prober).(tell := old(prober.tell) || w.cmd == CMD_WASK)
    {
      if w.cmd == CMD_PUSH {
        TakeData(w);
      } else if w.cmd == CMD_WASK {
        prober := prober.(tell := true);
      }
    }

    // What the header of every segment says: the peer's window, the cumulative acknowledgement,
    // and for an ACK the single one.
    method TakeHeader(w: Wire)
      requires nsndBuf == |sndBuf|
      modifies this`prober, this`sndUna, this`sndBuf, this`nsndBuf, this`rtt
      ensures nsndBuf == |sndBuf| && Snd() == S.OnWire(old(Snd()), w)
      ensures rtt == E.RttOnWire(old(rtt), cfg, clock.current, w)
      ensures prober == old(prober).(rmt := w.wnd)
    {
      prober := prober.(rmt := w.wnd);
      ParseUna(w.una);
      ShrinkBuf();
      assert Snd() == S.TakeUna(old(Snd()), w.una);
      if w.cmd == CMD_ACK {
        if Diff(clock.current, w.ts) >= 0 {
          UpdateAck(Diff(clock.current, w.ts));
        }
        ParseAck(w.sn);
        ShrinkBuf();
      }
    }

    // A data segment: acknowledge it if it is not beyond the window, store it if it is not old.
    method TakeData(w: Wire)
      requires Valid() && w.cmd == CMD_PUSH
      modifies this`rcvBuf, this`nrcvBuf, this`rcvQueue, this`nrcvQue, this`rcvNxt
      modifies this`acklist
      ensures Valid()
      ensures Rcv() == R.OnWire(old(Rcv()), cfg.rcvWnd, w)
    {
      if Diff(w.sn, Add(rcvNxt, cfg.rcvWnd)) < 0 {
        acklist := acklist + [R.Ack(w.sn, w.ts)];
        if Diff(w.sn, rcvNxt) >= 0 {
          ParseData(R.FromWire(w));
        }
      }
    }

    // Widens the congestion window after `snd_una` has advanced.
    method GrowWindow()
      requires mss > 0
      modifies this`cong
      ensures cong == Congestion.Grow(old(cong), mss, prober.rmt)
    {
      if cong.cwnd < prober.rmt {
        if cong.cwnd < cong.ssthresh {
          cong := cong.(cwnd := Add(cong.cwnd, 1), incr := Add(cong.incr, mss));
        } else {
          var incr := if cong.incr < mss then mss else cong.incr;
          incr := Wrap(incr + Congestion.Growth(mss, incr));
          cong := cong.(incr := incr);
          if Congestion.WrapMul(Add(cong.cwnd, 1), mss) <= incr {
            cong := cong.(cwnd := Congestion.WholeSegments(incr, mss));
          }
        }
        if cong.cwnd > prober.rmt {
          cong := cong.(cwnd := prober.rmt, incr := Congestion.WrapMul(prober.rmt, mss));
        }
      }
    }

    method Input(data: Bytes) returns (code: int)
      requires Valid()
      modifies this`prober, this`sndUna, this`sndBuf, this`nsndBuf, this`rtt
      modifies this`rcvBuf, this`nrcvBuf, this`rcvQueue, this`nrcvQue, this`rcvNxt, this`prober
      modifies this`acklist, this`cong
      ensures Valid()
      ensures (View(), code) == E.Input(old(View()), data)
    {
      var prevUna := sndUna;
      if |data| < 24 {
        return -1;
      }
      var flag, maxack;
      code, flag, maxack := TakeSegments(data);
      if code == 0 {
        Finish(prevUna, flag, maxack);
      }
    }

    method Finish(prevUna: u32, flag: bool, maxack: u32)
      requires Valid()
      modifies this`sndBuf, this`cong
      ensures Valid()
      ensures View() == E.Finish(old(View()), prevUna, MaxSoFar(flag, maxack))
    {
      if flag {
        ParseFastack(maxack);
      }
      if Diff(sndUna, prevUna) > 0 {
        GrowWindow();
      }
      assert Rcv() == old(Rcv()) && rtt == old(rtt) && prober == old(prober) && clock == old(clock);
    }

    static function MaxSoFar(flag: bool, maxack: u32): Option<u32> {
      if flag then Some(maxack) else None
    }

    // One turn of the parse loop.
    static lemma ParseTurn(k: E.Kcb, m: Option<u32>, data: Bytes)
      requires |data| >= 24 && Reject(k.cfg.conv, data) == 0
      ensures var len := GetLe32(data, 20);
              var w, rest := HeaderAt(data, len), data[24 + len..];
              var now, next := Parse(k.cfg.conv, data), Parse(k.cfg.conv, rest);
              && now.code == next.code
              && E.OnWires(k, now.segs) == E.OnWires(E.OnWire(k, w), next.segs)
              && E.MaxAck(m, now.segs) == E.MaxAck(E.Newer(m, w), next.segs)
    {
      var len := GetLe32(data, 20);
      var segs := Parse(k.cfg.conv, data).segs;
      assert segs[0] == HeaderAt(data, len) && segs[1..] == Parse(k.cfg.conv, data[24 + len..]).segs;
    }

    // Parsing `rest` from here leads to state `t`, greatest acknowledgement `m` and return code `c`.
    ghost predicate Parsing(rest: Bytes, flag: bool, maxack: u32, t: E.Kcb, m: Option<u32>, c: int)
      reads `cfg, `sndUna, `sndNxt, `sndQueue, `sndBuf, `rcvNxt, `rcvBuf, `rcvQueue, `acklist
      reads `rtt, `cong, `prober, `clock, `state, `xmit
    {
      var scan := Parse(cfg.conv, rest);
      var leads := E.OnWires(View(), scan.segs) == t && E.MaxAck(MaxSoFar(flag, maxack), scan.segs) == m
                   && scan.code == c;
      leads
    }

    // Takes in the segment at the front of `rest` and notes what it acknowledges.
    method TakeFirst(rest: Bytes, flag: bool, maxack: u32, ghost t: E.Kcb, ghost m: Option<u32>, ghost c: int)
      returns (next: Bytes, flag': bool, maxack': u32)
      requires Valid() && Parsing(rest, flag, maxack, t, m, c)
      requires |rest| >= 24 && Reject(cfg.conv, rest) == 0
      modifies this`prober, this`sndUna, this`sndBuf, this`nsndBuf, this`rtt
      modifies this`rcvBuf, this`nrcvBuf, this`rcvQueue, this`nrcvQue, this`rcvNxt, this`prober
      modifies this`acklist
      ensures Valid() && Parsing(next, flag', maxack', t, m, c) && |next| < |rest|
    {
      var len := GetLe32(rest, 20);
      var w := HeaderAt(rest, len);
      ParseTurn(View(), MaxSoFar(flag, maxack), rest);
      TakeSegment(w);
      flag', maxack' := flag, maxack;
      if w.cmd == CMD_ACK {
        if !flag {
          flag', maxack' := true, w.sn;
        } else if Diff(w.sn, maxack) > 0 {
          maxack' := w.sn;
        }
      }
      next := rest[24 + len..];
    }

    // The parse loop of `ikcp_input`; it may already have applied segments when it rejects one.
    method TakeSegments(data: Bytes) returns (code: int, flag: bool, maxack: u32)
      requires Valid()
      modifies this`prober, this`sndUna, this`sndBuf, this`nsndBuf, this`rtt
      modifies this`rcvBuf, this`nrcvBuf, this`rcvQueue, this`nrcvQue, this`rcvNxt, this`prober
      modifies this`acklist
      ensures Valid()
      ensures var scan := Parse(old(View()).cfg.conv, data);
              && View() == E.OnWires(old(View()), scan.segs)
              && code == scan.code && MaxSoFar(flag, maxack) == E.MaxAck(None, scan.segs)
    {
      ghost var scan := Parse(cfg.conv, data);
      ghost var t, m := E.OnWires(View(), scan.segs), E.MaxAck(None, scan.segs);
      flag, maxack := false, 0;
      var rest := data;
      while |rest| >= 24
        invariant Valid() && Parsing(rest, flag, maxack, t, m, scan.code)
        decreases |rest|
      {
        code := Reject(cfg.conv, rest);
        if code != 0 {
          return;
        }
        rest, flag, maxack := TakeFirst(rest, flag, maxack, t, m, scan.code);
      }
      code := 0;
    }

    // ---- ikcp_encode_seg, ikcp_output ----

    method Put8(at: nat, x: byte)
      requires at < buffer.Length
      modifies buffer
      ensures buffer[..at + 1] == old(buffer[..at]) + [x]
    {
      buffer[at] := x;
    }

    method Put16(at: nat, x: u16)
      requires at + 2 <= buffer.Length
      modifies buffer
      ensures buffer[..at + 2] == old(buffer[..at]) + Le16(x)
    {
      buffer[at] := x % 256;
      buffer[at + 1] := x / 256;
    }

    method Put32(at: nat, x: u32)
      requires at + 4 <= buffer.Length
      modifies buffer
      ensures buffer[..at + 4] == old(buffer[..at]) + Le32(x)
    {
      buffer[at] := x % 256;
      buffer[at + 1] := x / 256 % 256;
      buffer[at + 2] := x / 65536 % 256;
      buffer[at + 3] := x / 16777216;
    }

    // Writes the header of `w` at `at`.
    method EncodeHeader(at: nat, w: Wire)
      requires at + 24 <= buffer.Length
      modifies buffer
      ensures buffer[..at + 24] == old(buffer[..at]) + Header(w)
    {
      ghost var b := buffer[..at];
      Put32(at, w.conv);
      Put8(at + 4, w.cmd);
      Put8(at + 5, w.frg);
      Put16(at + 6, w.wnd);
      Put32(at + 8, w.ts);
      Put32(at + 12, w.sn);
      Put32(at + 16, w.una);
      Put32(at + 20, Wrap(|w.data|));
      Joined(b, w);
    }

    static lemma Joined(b: Bytes, w: Wire)
      ensures b + Le32(w.conv) + [w.cmd] + [w.frg] + Le16(w.wnd) + Le32(w.ts) + Le32(w.sn) + Le32(w.una)
                + Le32(Wrap(|w.data|))
           == b + Header(w)
    {
      HeaderParts(w, Le32(w.conv), Le16(w.wnd), Le32(w.ts), Le32(w.sn), Le32(w.una), Le32(Wrap(|w.data|)));
      Flat(b, Le32(w.conv), w.cmd, w.frg, Le16(w.wnd), Le32(w.ts), Le32(w.sn), Le32(w.una), Le32(Wrap(|w.data|)));
    }

    static lemma Flat(b: Bytes, a: Bytes, x: byte, y: byte, c: Bytes, d: Bytes, e: Bytes, f: Bytes, g: Bytes)
      ensures b + a + [x] + [y] + c + d + e + f + g == b + (a + [x, y] + c + d + e + f + g)
    {
    }

    // Copies a payload to `at`.
    method CopyData(at: nat, data: Bytes)
      requires at + |data| <= buffer.Length
      modifies buffer
      ensures buffer[..at + |data|] == old(buffer[..at]) + data
    {
      for i := 0 to |data|
        invariant buffer[..at + i] == old(buffer[..at]) + data[..i]
      {
        buffer[at + i] := data[i];
        assert data[..i + 1] == data[..i] + [data[i]];
      }
      assert data[..|data|] == data;
    }

    // Puts out the datagram under construction if `need` more bytes would overflow it; an empty
    // one is not put out.
    method MakeRoom(ptr: nat, need: nat, ghost cur: seq<Wire>) returns (next: nat)
      requires ptr <= buffer.Length && buffer[..ptr] == EncodeAll(cur)
      modifies this`output
      ensures ptr + need <= cfg.mtu ==> next == ptr && output == old(output)
      ensures ptr + need > cfg.mtu ==> next == 0 && output == old(output) + Datagrams(Closed(cur))
    {
      next := ptr;
      if ptr + need > cfg.mtu {
        if ptr > 0 {
          output := output + [buffer[..ptr]];
        }
        next := 0;
        EncodeEmptyIff(cur);
      }
    }

    method WriteSegment(ptr: nat, w: Wire) returns (next: nat)
      requires ptr + 24 + |w.data| <= buffer.Length
      modifies buffer
      ensures next == ptr + 24 + |w.data| && buffer[..next] == old(buffer[..ptr]) + Encode(w)
    {
      ghost var b := buffer[..ptr];
      EncodeHeader(ptr, w);
      CopyData(ptr + 24, w.data);
      next := ptr + 24 + |w.data|;
      assert b + Header(w) + w.data == b + Encode(w);
    }

    // The pattern repeated for every segment written: make room, then encode.
    method PutSegment(ptr: nat, w: Wire, ghost cur: seq<Wire>) returns (next: nat, ghost cur': seq<Wire>)
      requires Valid() && ptr <= cfg.mtu && 24 + |w.data| <= cfg.mtu
      requires buffer[..ptr] == EncodeAll(cur)
      modifies buffer, this`output
      ensures next <= cfg.mtu && buffer[..next] == EncodeAll(cur')
      ensures var step := PackOne(cfg.mtu, cur, w);
              output == old(output) + Datagrams(step.0) && cur' == step.1
    {
      next := MakeRoom(ptr, 24 + |w.data|, cur);
      cur' := if ptr + 24 + |w.data| > cfg.mtu then [] else cur;
      assert buffer[..next] == EncodeAll(cur');
      EncodeSnoc(cur', w);
      next := WriteSegment(next, w);
      cur' := cur' + [w];
    }
 
    // `cur` is in the buffer up to `ptr`, and writing `rest` leads to `out` put out and `last` in the buffer.
    ghost predicate Writing(ptr: nat, cur: seq<Wire>, rest: seq<Wire>, out: seq<Bytes>, last: seq<Wire>)
      reads `cfg, `output, `buffer, buffer
    {
      var held := ptr <= cfg.mtu && ptr <= buffer.Length && buffer[..ptr] == EncodeAll(cur);
      var leads := Leads(cfg.mtu, output, cur, rest, out, last);
      held && leads
    }

    // Writes one segment of a list of segments that leads to `out` put out and `last` under construction.
    method PutNext(ptr: nat, w: Wire, ghost cur: seq<Wire>, ghost rest: seq<Wire>,
                   ghost out: seq<Bytes>, ghost last: seq<Wire>)
      returns (next: nat, ghost cur': seq<Wire>)
      requires Valid() && 24 + |w.data| <= cfg.mtu && Writing(ptr, cur, [w] + rest, out, last)
      modifies buffer, this`output
      ensures Writing(next, cur', rest, out, last)
    {
      LeadsOn(cfg.mtu, output, cur, w, rest, out, last);
      next, cur' := PutSegment(ptr, w, cur);
    }

    // ---- ikcp_flush ----

    function Unused(): u32
      reads `nrcvQue, `cfg
    {
      if nrcvQue < cfg.rcvWnd then cfg.rcvWnd - nrcvQue else 0
    }

    // Writes the pending acknowledgements; `ack` is the one written last.
    method FlushAcks(ghost rest: seq<Wire>, ghost out: seq<Bytes>, ghost last: seq<Wire>)
      returns (ptr: nat, ack: R.Ack, ghost cur: seq<Wire>)
      requires Valid() && Leads(cfg.mtu, output, [], E.AckWires(View()) + rest, out, last)
      modifies buffer, this`output
      ensures ack == E.LastAck(acklist) && Writing(ptr, cur, rest, out, last)
    {
      ghost var ws := E.AckWires(View());
      var wnd := Unused() % 0x1_0000;
      ptr, cur, ack := 0, [], R.Ack(0, 0);
      var i := 0;
      assert ws[0..] == ws;
      while i < |acklist|
        invariant 0 <= i <= |acklist| == |ws|
        invariant ack == if i == 0 then R.Ack(0, 0) else acklist[i - 1]
        invariant Writing(ptr, cur, ws[i..] + rest, out, last)
      {
        ack := acklist[i];
        var w := Wire(cfg.conv, CMD_ACK, 0, wnd, ack.ts, ack.sn, rcvNxt, []);
        assert w == ws[i];
        ptr, cur := PutOf(ptr, w, cur, ws, i, rest, out, last);
        i := i + 1;
      }
      assert ws[|ws|..] + rest == rest;
    }

    // Writes segment |i| of |ws|.
    method PutOf(ptr: nat, w: Wire, ghost cur: seq<Wire>, ghost ws: seq<Wire>, ghost i: nat, ghost rest: seq<Wire>,
                 ghost out: seq<Bytes>, ghost last: seq<Wire>)
      returns (next: nat, ghost cur': seq<Wire>)
      requires Valid() && i < |ws| && w == ws[i] && 24 + |w.data| <= cfg.mtu
      requires Writing(ptr, cur, ws[i..] + rest, out, last)
      modifies buffer, this`output
      ensures Writing(next, cur', ws[i + 1..] + rest, out, last)
    {
      Peel(ws, i, rest);
      next, cur' := PutNext(ptr, w, cur, ws[i + 1..] + rest, out, last);
    }

    // Writing changes nothing but the buffer and the output.
    method WriteAcks(ghost k: E.Kcb, ghost rest: seq<Wire>, ghost out: seq<Bytes>, ghost last: seq<Wire>)
      returns (ptr: nat, ack: R.Ack, ghost cur: seq<Wire>)
      requires Valid() && View() == k && Leads(cfg.mtu, output, [], E.AckWires(k) + rest, out, last)
      modifies buffer, this`output
      ensures Valid() && View() == k && ack == E.LastAck(k.rcv.acks) && Writing(ptr, cur, rest, out, last)
    {
      ptr, ack, cur := FlushAcks(rest, out, last);
    }

    method ForgetAcks(ghost k: E.Kcb, ghost rest: seq<Wire>, ghost out: seq<Bytes>, ghost last: seq<Wire>)
      returns (ptr: nat, ack: R.Ack, ghost cur: seq<Wire>)
      requires Valid() && View() == k && Leads(cfg.mtu, output, [], E.AckWires(k) + rest, out, last)
      modifies buffer, this`output, this`acklist
      ensures Valid() && acklist == [] && ack == E.LastAck(k.rcv.acks) && Writing(ptr, cur, rest, out, last)
      ensures Forgotten(k) && prober == k.prober
    {
      ptr, ack, cur := WriteAcks(k, rest, out, last);
      acklist := [];
    }

    static lemma Peel(ws: seq<Wire>, i: nat, rest: seq<Wire>)
      requires i < |ws|
      ensures ws[i..] + rest == [ws[i]] + (ws[i + 1..] + rest)
    {
    }

    // Decides whether the peer's window has to be asked for.
    method TickProbe()
      modifies this`prober
      ensures prober == Probe.Tick(old(prober), clock.current)
    {
      var current := clock.current;
      if prober.rmt == 0 {
        if prober.wait == 0 {
          prober := prober.(wait := PROBE_INIT, ts := Add(current, PROBE_INIT));
        } else if Diff(current, prober.ts) >= 0 {
          var wait := prober.wait;
          if wait < PROBE_INIT {
            wait := PROBE_INIT;
          }
          wait := Add(wait, wait / 2);
          if wait > PROBE_LIMIT {
            wait := PROBE_LIMIT;
          }
          prober := prober.(wait := wait, ts := Add(current, wait), ask := true);
        }
      } else {
        prober := prober.(ts := 0, wait := 0);
      }
    }

    // Writes the window segments that are flagged; `k` is the state the flush started in.
    method FlushProbes(ptr: nat, ack: R.Ack, ghost cur: seq<Wire>, ghost k: E.Kcb,
                       ghost rest: seq<Wire>, ghost out: seq<Bytes>, ghost last: seq<Wire>)
      returns (next: nat, ghost cur': seq<Wire>)
      requires Valid() && Writing(ptr, cur, E.ProbeWires(k, prober) + rest, out, last)
      requires cfg == k.cfg && rcvNxt == k.rcv.nxt && rcvQueue == k.rcv.queue && ack == E.LastAck(k.rcv.acks)
      modifies buffer, this`output
      ensures Writing(next, cur', rest, out, last)
    {
      var wnd := Unused() % 0x1_0000;
      var ask := Wire(cfg.conv, CMD_WASK, 0, wnd, ack.ts, ack.sn, rcvNxt, []);
      var tell := Wire(cfg.conv, CMD_WINS, 0, wnd, ack.ts, ack.sn, rcvNxt, []);
      ghost var asks, tells := if prober.ask then [ask] else [], if prober.tell then [tell] else [];
      assert E.ProbeWires(k, prober) == asks + tells;
      Sequences.Assoc(asks, tells, rest);
      next, cur' := PutIf(prober.ask, ptr, ask, cur, tells + rest, out, last);
      next, cur' := PutIf(prober.tell, next, tell, cur', rest, out, last);
    }

    method PutIf(yes: bool, ptr: nat, w: Wire, ghost cur: seq<Wire>, ghost rest: seq<Wire>,
                 ghost out: seq<Bytes>, ghost last: seq<Wire>)
      returns (next: nat, ghost cur': seq<Wire>)
      requires Valid() && 24 + |w.data| <= cfg.mtu
      requires Writing(ptr, cur, (if yes then [w] else []) + rest, out, last)
      modifies buffer, this`output
      ensures Writing(next, cur', rest, out, last)
    {
      next, cur' := ptr, cur;
      if yes { next, cur' := PutNext(ptr, w, cur, rest, out, last); } else { assert [] + rest == rest; }
    }

    // Moves segments from `snd_queue` to `snd_buf` while the window `window` is open.
    method MoveQueue(window: u32)
      requires Valid()
      modifies this`sndQueue, this`nsndQue, this`sndBuf, this`nsndBuf, this`sndNxt
      ensures Valid()
      ensures Snd() == S.Move(old(Snd()), window, S.Stamp(cfg.conv, Unused(), clock.current, rcvNxt, rtt.rto))
    {
      ghost var st := S.Stamp(cfg.conv, Unused(), clock.current, rcvNxt, rtt.rto);
      while Diff(sndNxt, Add(sndUna, window)) < 0
        invariant nsndQue == |sndQueue| && nsndBuf == |sndBuf|
        invariant S.Move(Snd(), window, st) == S.Move(old(Snd()), window, st)
        decreases |sndQueue|
      {
        if sndQueue == [] {
          break;
        }
        var newseg := sndQueue[0];
        sndQueue := sndQueue[1..];
        nsndQue := nsndQue - 1;
        newseg := Segment(cfg.conv, CMD_PUSH, newseg.frg, Unused(), clock.current, sndNxt, rcvNxt, clock.current,
                          rtt.rto, 0, 0, newseg.data);
        sndBuf := sndBuf + [newseg];
        nsndBuf := nsndBuf + 1;
        sndNxt := Add(sndNxt, 1);
      }
    }

    // What the flush loop does to one segment in flight.
    method Visit(segment: Segment, p: Retransmit.Policy) returns (t: Retransmit.Turn)
      ensures t == Retransmit.Attempt(segment, p)
    {
      var s, needsend, timeout, fast := segment, false, false, false;
      var rtomin := if p.nodelay == 0 then p.rxRto / 8 else 0;
      if s.xmit == 0 {
        needsend := true;
        s := s.(xmit := 1, rto := p.rxRto, resendts := Add(Add(p.current, p.rxRto), rtomin));
      } else if Diff(p.current, s.resendts) >= 0 {
        needsend, timeout := true, true;
        s := s.(xmit := Add(s.xmit, 1));
        if p.nodelay == 0 {
          s := s.(rto := Add(s.rto, Max(s.rto, p.rxRto)));
        } else {
          var step := if p.nodelay < 2 then Int32(s.rto) else Int32(p.rxRto);
          s := s.(rto := Wrap(s.rto + TruncDiv(step, 2)));
        }
        s := s.(resendts := Add(p.current, s.rto));
      } else if s.fastack >= p.resent {
        if Int32(s.xmit) <= p.fastlimit || p.fastlimit <= 0 {
          needsend, fast := true, true;
          s := s.(xmit := Add(s.xmit, 1), fastack := 0, resendts := Add(p.current, s.rto));
        }
      }
      if needsend {
        s := s.(ts := p.current, wnd := p.wnd, una := p.una);
      }
      t := Retransmit.Turn(s, needsend, timeout, fast);
    }
 
    // Visits one segment in flight and writes it if it is due.
    method FlushSegment(i: nat, ptr: nat, p: Retransmit.Policy, ghost cur: seq<Wire>,
                        ghost rest: seq<Wire>, ghost out: seq<Bytes>, ghost last: seq<Wire>)
      returns (next: nat, t: Retransmit.Turn, ghost cur': seq<Wire>)
      requires Valid() && i < |sndBuf| && |sndBuf[i].data| <= mss
      requires var t := Retransmit.Attempt(sndBuf[i], p);
               Writing(ptr, cur, (if t.sent then [ToWire(t.seg)] else []) + rest, out, last)
      modifies buffer, this`output, this`sndBuf, this`xmit, this`state
      ensures t == Retransmit.Attempt(old(sndBuf)[i], p)
      ensures Writing(next, cur', rest, out, last)
      ensures sndBuf == old(sndBuf)[i := t.seg]
      ensures xmit == if t.timeout then Add(old(xmit), 1) else old(xmit)
      ensures state == if t.sent && t.seg.xmit >= cfg.deadLink then E.DEAD else old(state)
    {
      next, cur' := ptr, cur;
      Retransmit.AttemptKeeps(sndBuf[i], p);
      t := Visit(sndBuf[i], p);
      sndBuf := sndBuf[i := t.seg];
      if t.timeout {
        xmit := Add(xmit, 1);
      }
      if t.sent {
        next, cur' := PutNext(next, ToWire(t.seg), cur', rest, out, last);
        if t.seg.xmit >= cfg.deadLink {
          state := E.DEAD;
        }
      } else {
        assert [] + rest == rest;
      }
    }

    // Every segment in flight has had its turn, counted from `sent` timeouts and connection state `was`.
    ghost predicate Visited(ts: seq<Retransmit.Turn>, sent: u32, was: u32, change: nat, lost: bool)
      reads `sndBuf, `xmit, `state, `cfg
    {
      var left := sndBuf == Retransmit.Segs(ts) && xmit == Wrap(sent + Retransmit.Timeouts(ts))
                  && state == (if Retransmit.AnyDead(ts, cfg.deadLink) then E.DEAD else was);
      var found := (change > 0) == Retransmit.AnyFast(ts) && lost == Retransmit.AnyTimeout(ts);
      left && found
    }

    ghost predicate Noted(f: Retransmit.Findings, was: u32, change: nat, lost: bool)
      reads `xmit, `state
    {
      var noted := f == Retransmit.Findings(xmit, f.dead, change > 0, lost) && state == if f.dead then E.DEAD else was;
      noted
    }

    // The first `i` segments in flight have had their turns `ts`; the rest are still as in `b`, and
    // visiting them leads to the findings `all`, to `out` put out and to `last` in the buffer.
    ghost predicate Visiting(i: nat, ptr: nat, cur: seq<Wire>, f: Retransmit.Findings, ts: seq<Retransmit.Turn>,
                             b: seq<Segment>, all: Retransmit.Findings, out: seq<Bytes>, last: seq<Wire>)
      reads `cfg, `output, `buffer, buffer, `sndBuf
    {
      var bounds := i <= |ts| == |b| == |sndBuf|;
      var visited := bounds && forall j :: 0 <= j < |b| ==> sndBuf[j] == if j < i then ts[j].seg else b[j];
      var ahead := bounds && Writing(ptr, cur, Retransmit.SentWires(ts[i..]), out, last)
                   && Retransmit.NoteAll(f, ts[i..], cfg.deadLink) == all;
      visited && ahead
    }

    // The turn of segment `i`.
    method VisitNext(i: nat, ptr: nat, p: Retransmit.Policy, change: nat, lost: bool, ghost cur: seq<Wire>,
                     ghost f: Retransmit.Findings, ghost b: seq<Segment>, ghost was: u32,
                     ghost all: Retransmit.Findings, ghost out: seq<Bytes>, ghost last: seq<Wire>)
      returns (next: nat, change': nat, lost': bool, ghost cur': seq<Wire>, ghost f': Retransmit.Findings)
      requires Valid() && P.Queued(b, mss) && i < |b| && Noted(f, was, change, lost)
      requires Visiting(i, ptr, cur, f, Retransmit.Attempts(b, p), b, all, out, last)
      modifies buffer, this`output, this`sndBuf, this`xmit, this`state
      ensures Valid() && Noted(f', was, change', lost')
      ensures Visiting(i + 1, next, cur', f', Retransmit.Attempts(b, p), b, all, out, last)
    {
      ghost var ts := Retransmit.Attempts(b, p);
      assert b[i] in b;
      Retransmit.OneMore(ts, i);
      var t;
      next, t, cur' := FlushSegment(i, ptr, p, cur, Retransmit.SentWires(ts[i + 1..]), out, last);
      change', lost' := change, lost;
      if t.timeout {
        lost' := true;
      }
      if t.fast {
        change' := change + 1;
      }
      f' := Retransmit.Note(f, t, cfg.deadLink);
    }

    // Visits every segment in flight once, in order.
    method VisitAll(ptr: nat, p: Retransmit.Policy, ghost cur: seq<Wire>, ghost out: seq<Bytes>, ghost last: seq<Wire>)
      returns (next: nat, change: nat, lost: bool, ghost cur': seq<Wire>)
      requires Valid() && P.Queued(sndBuf, mss)
      requires Writing(ptr, cur, Retransmit.SentWires(Retransmit.Attempts(sndBuf, p)), out, last)
      modifies buffer, this`output, this`sndBuf, this`xmit, this`state
      ensures Valid() && Writing(next, cur', [], out, last)
      ensures var ts := Retransmit.Attempts(old(sndBuf), p);
              && sndBuf == Retransmit.Segs(ts)
              && Noted(Retransmit.NoteAll(Retransmit.Findings(old(xmit), false, false, false), ts, cfg.deadLink),
                       old(state), change, lost)
    {
      ghost var b, ts := sndBuf, Retransmit.Attempts(sndBuf, p);
      ghost var f := Retransmit.Findings(xmit, false, false, false);
      ghost var all := Retransmit.NoteAll(f, ts, cfg.deadLink);
      next, cur', change, lost := ptr, cur, 0, false;
      var i := 0;
      assert ts[0..] == ts;
      while i < |sndBuf|
        invariant Valid() && i <= |b| && Noted(f, old(state), change, lost)
        invariant Visiting(i, next, cur', f, ts, b, all, out, last)
        decreases |b| - i
      {
        next, change, lost, cur', f := VisitNext(i, next, p, change, lost, cur', f, b, old(state), all, out, last);
        i := i + 1;
      }
      assert ts[i..] == [];
    }

    method FlushData(ptr: nat, p: Retransmit.Policy, ghost cur: seq<Wire>, ghost out: seq<Bytes>, ghost last: seq<Wire>)
      returns (next: nat, change: nat, lost: bool, ghost cur': seq<Wire>)
      requires Valid() && P.Queued(sndBuf, mss)
      requires Writing(ptr, cur, Retransmit.SentWires(Retransmit.Attempts(sndBuf, p)), out, last)
      modifies buffer, this`output, this`sndBuf, this`xmit, this`state
      ensures Valid() && Writing(next, cur', [], out, last)
      ensures Visited(Retransmit.Attempts(old(sndBuf), p), old(xmit), old(state), change, lost)
    {
      Retransmit.NoteAllIs(Retransmit.Findings(xmit, false, false, false), Retransmit.Attempts(sndBuf, p),
                           cfg.deadLink);
      next, change, lost, cur' := VisitAll(ptr, p, cur, out, last);
    }

    // The end of a flush: thresholds and congestion window.
    method SettleWindow(resent: u32, window: u32, change: nat, lost: bool)
      modifies this`cong
      ensures cong == Congestion.Settle(old(cong), mss, S.Span(Snd()), resent, window, change > 0, lost)
    {
      if change > 0 {
        var inflight := Dist(sndUna, sndNxt);
        var ssthresh := if inflight / 2 < THRESH_MIN then THRESH_MIN else inflight / 2;
        var cwnd := Add(ssthresh, resent);
        cong := Congestion.Cong(cwnd, Congestion.WrapMul(cwnd, mss), ssthresh);
      }
      if lost {
        var ssthresh := if window / 2 < THRESH_MIN then THRESH_MIN else window / 2;
        cong := Congestion.Cong(1, mss, ssthresh);
      }
      if cong.cwnd < 1 {
        cong := cong.(cwnd := 1, incr := mss);
      }
    }

    method Flush()
      requires Valid() && P.Queued(sndQueue, mss) && P.Queued(sndBuf, mss)
      modifies buffer, this`output, this`acklist, this`prober, this`cong
      modifies this`sndQueue, this`nsndQue, this`sndBuf, this`nsndBuf, this`sndNxt, this`xmit, this`state
      ensures Valid()
      ensures View() == E.Flush(old(View())).0 && output == old(output) + E.Flush(old(View())).1
    {
      if !clock.updated {
        return;
      }
      ghost var k := View();
      FlushNow(k);
      assert View() == E.Flush(k).0;
    }

    ghost predicate FlushDone(k: E.Kcb)
      reads `sndUna, `sndNxt, `sndQueue, `sndBuf, `state, `xmit, `rcvNxt, `rcvBuf, `rcvQueue, `acklist, `prober, `cong
    {
      var done := Snd() == E.SndAfter(k) && Rcv() == R.Rcv(k.rcv.nxt, k.rcv.buf, k.rcv.queue, [])
                  && prober == E.ProberAfter(k) && state == E.StateAfter(k) && xmit == E.XmitAfter(k)
                  && cong == E.CongAfter(k);
      done
    }

    method FlushNow(ghost k: E.Kcb)
      requires Valid() && P.Queued(sndQueue, mss) && P.Queued(sndBuf, mss) && View() == k
      modifies buffer, this`output, this`acklist, this`prober, this`cong
      modifies this`sndQueue, this`nsndQue, this`sndBuf, this`nsndBuf, this`sndNxt, this`xmit, this`state
      ensures Valid() && output == old(output) + Datagrams(Pack(cfg.mtu, [], E.FlushWires(k)))
      ensures FlushDone(k)
    {
      var resent := if cfg.fastresend > 0 then cfg.fastresend else 0xffff_ffff;
      var window, change, lost := WriteAll(resent, k);
      SettleFlush(resent, window, change, lost, k);
    }

    method SettleFlush(resent: u32, window: u32, change: nat, lost: bool, ghost k: E.Kcb)
      requires Valid() && Flushed(k, window, change, lost) && cfg == k.cfg && cong == k.cong
      requires resent == E.Resent(k)
      modifies this`cong
      ensures FlushDone(k)
    {
      SettleWindow(resent, window, change, lost);
      assert cong == E.CongAfter(k);
    }

    // The send side after the data segments of a flush that started in `k`, and what it noted.
    ghost predicate SentOff(k: E.Kcb, change: nat, lost: bool)
      reads `sndUna, `sndNxt, `sndQueue, `sndBuf, `state, `xmit
    {
      var sent := Snd() == E.SndAfter(k) && state == E.StateAfter(k) && xmit == E.XmitAfter(k)
                  && (change > 0) == Retransmit.AnyFast(E.Turns(k)) && lost == Retransmit.AnyTimeout(E.Turns(k));
      sent
    }

    ghost predicate Answered(k: E.Kcb)
      reads `rcvNxt, `rcvBuf, `rcvQueue, `acklist, `prober
    {
      var answered := Rcv() == R.Rcv(k.rcv.nxt, k.rcv.buf, k.rcv.queue, []) && prober == E.ProberAfter(k);
      answered
    }

    // Nothing the data segments of a flush depend on has changed since state `k`.
    ghost predicate Untouched(k: E.Kcb)
      reads `sndUna, `sndNxt, `sndQueue, `sndBuf, `rcvNxt, `rcvQueue, `rtt, `clock, `cfg, `state, `xmit
    {
      var same := Snd() == k.snd && rtt == k.rtt && clock == k.clock && cfg == k.cfg && rcvNxt == k.rcv.nxt
                  && rcvQueue == k.rcv.queue && state == k.state && xmit == k.xmit;
      same
    }

    // The window of a flush; neither the acknowledgements nor the probes written before it matter.
    method Window(ghost k: E.Kcb) returns (window: u32)
      requires Untouched(k) && Answered(k) && cong == k.cong
      ensures window == E.FlushWindow(k)
    {
      window := Min(cfg.sndWnd, prober.rmt);
      if !cfg.nocwnd {
        window := Min(cong.cwnd, window);
      }
    }

    ghost predicate Flushed(k: E.Kcb, window: u32, change: nat, lost: bool)
      reads `sndUna, `sndNxt, `sndQueue, `sndBuf, `state, `xmit, `rcvNxt, `rcvBuf, `rcvQueue, `acklist, `prober
    {
      var flushed := SentOff(k, change, lost) && Answered(k) && window == E.FlushWindow(k);
      flushed
    }

    // Everything a flush writes, and the queues it leaves.
    method WriteAll(resent: u32, ghost k: E.Kcb) returns (window: u32, change: nat, lost: bool)
      requires Valid() && P.Queued(sndQueue, mss) && P.Queued(sndBuf, mss)
      requires View() == k && resent == E.Resent(k)
      modifies buffer, this`output, this`acklist, this`prober
      modifies this`sndQueue, this`nsndQue, this`sndBuf, this`nsndBuf, this`sndNxt, this`xmit, this`state
      ensures Valid() && Flushed(k, window, change, lost)
      ensures output == old(output) + Datagrams(Pack(cfg.mtu, [], E.FlushWires(k)))
    {
      var ptr; ghost var cur;
      ptr, window, change, lost, cur := WriteSegments(resent, k);
      PutLast(ptr, cur, old(output), k, window, change, lost);
    }

    // A flush that started in `k` with `before` put out has `data` still to write.
    ghost predicate Pending(k: E.Kcb, before: seq<Bytes>, ptr: nat, cur: seq<Wire>, data: seq<Wire>)
      reads `cfg, `output, `buffer, buffer
    {
      var many := PackMany(cfg.mtu, [], E.FlushWires(k));
      Writing(ptr, cur, data, before + Datagrams(many.0), many.1)
    }

    method PutLast(ptr: nat, ghost cur: seq<Wire>, ghost before: seq<Bytes>, ghost k: E.Kcb,
                   ghost window: u32, ghost change: nat, ghost lost: bool)
      requires Valid() && Flushed(k, window, change, lost) && Pending(k, before, ptr, cur, [])
      modifies this`output
      ensures Valid() && Flushed(k, window, change, lost)
      ensures output == before + Datagrams(Pack(cfg.mtu, [], E.FlushWires(k)))
    {
      LeadsEnd(cfg.mtu, output, cur, before, E.FlushWires(k));
      PutRest(ptr, cur);
    }

    method WriteSegments(resent: u32, ghost k: E.Kcb)
      returns (ptr: nat, window: u32, change: nat, lost: bool, ghost cur: seq<Wire>)
      requires Valid() && P.Queued(sndQueue, mss) && P.Queued(sndBuf, mss)
      requires View() == k && resent == E.Resent(k)
      modifies buffer, this`output, this`acklist, this`prober
      modifies this`sndQueue, this`nsndQue, this`sndBuf, this`nsndBuf, this`sndNxt, this`xmit, this`state
      ensures Valid() && Flushed(k, window, change, lost)
      ensures Pending(k, old(output), ptr, cur, [])
    {
      ghost var before := output;
      ptr, cur := StartFlush(k);
      ptr, window, change, lost, cur := WriteData(ptr, resent, cur, k, before);
    }

    method StartFlush(ghost k: E.Kcb) returns (ptr: nat, ghost cur: seq<Wire>)
      requires Valid() && View() == k
      modifies buffer, this`output, this`acklist, this`prober
      ensures Valid() && Answered(k) && Untouched(k) && cong == k.cong
      ensures Pending(k, old(output), ptr, cur, Retransmit.SentWires(E.Turns(k)))
    {
      ghost var many := PackMany(cfg.mtu, [], E.FlushWires(k));
      ptr, cur := WriteControl(k, Retransmit.SentWires(E.Turns(k)), output + Datagrams(many.0), many.1);
    }

    // The part of a flush that admits and writes data.
    method WriteData(ptr: nat, resent: u32, ghost cur: seq<Wire>, ghost k: E.Kcb, ghost before: seq<Bytes>)
      returns (next: nat, window: u32, change: nat, lost: bool, ghost cur': seq<Wire>)
      requires Valid() && P.Queued(sndQueue, mss) && P.Queued(sndBuf, mss)
      requires Untouched(k) && Answered(k) && cong == k.cong && resent == E.Resent(k)
      requires Pending(k, before, ptr, cur, Retransmit.SentWires(E.Turns(k)))
      modifies buffer, this`output, this`xmit, this`state
      modifies this`sndQueue, this`nsndQue, this`sndBuf, this`nsndBuf, this`sndNxt
      ensures Valid() && Flushed(k, window, change, lost)
      ensures Pending(k, before, next, cur', [])
    {
      ghost var many := PackMany(cfg.mtu, [], E.FlushWires(k));
      window := Window(k);
      next, change, lost, cur' := MoveAndWrite(ptr, window, resent, cur, k, before + Datagrams(many.0), many.1);
    }

    // Puts out what is left in the buffer.
    method PutRest(ptr: nat, ghost cur: seq<Wire>)
      requires ptr <= buffer.Length && buffer[..ptr] == EncodeAll(cur)
      modifies this`output
      ensures output == old(output) + Datagrams(Closed(cur))
    {
      EncodeEmptyIff(cur);
      if ptr > 0 {
        output := output + [buffer[..ptr]];
      }
    }

    // Acknowledgements and window segments, which the flush then forgets.
    method WriteControl(ghost k: E.Kcb, ghost data: seq<Wire>, ghost out: seq<Bytes>, ghost last: seq<Wire>)
      returns (ptr: nat, ghost cur: seq<Wire>)
      requires Valid() && View() == k
      requires var control := E.AckWires(k) + E.ProbeWires(k, Probe.Tick(k.prober, clock.current));
               Leads(cfg.mtu, output, [], control + data, out, last)
      modifies buffer, this`output, this`acklist, this`prober
      ensures Valid() && Writing(ptr, cur, data, out, last)
      ensures Answered(k) && Untouched(k) && cong == k.cong
    {
      ghost var probes := E.ProbeWires(k, Probe.Tick(k.prober, clock.current));
      Sequences.Assoc(E.AckWires(k), probes, data);
      var ack;
      ptr, ack, cur := ForgetAcks(k, probes + data, out, last);
      ptr, cur := AnswerProbes(ptr, ack, cur, k, data, out, last);
    }

    // Only the acknowledgements of |k| have gone, and its prober may have moved.
    ghost predicate Forgotten(k: E.Kcb)
      reads `sndUna, `sndNxt, `sndQueue, `sndBuf, `rcvNxt, `rcvBuf, `rcvQueue, `acklist
      reads `rtt, `clock, `cfg, `state, `xmit, `cong
    {
      var rest := Rcv() == R.Rcv(k.rcv.nxt, k.rcv.buf, k.rcv.queue, []) && cong == k.cong;
      Untouched(k) && rest
    }

    // Updates the probe timer and writes the window segments it asks for.
    method WriteProbes(ptr: nat, ack: R.Ack, ghost cur: seq<Wire>, ghost k: E.Kcb,
                       ghost data: seq<Wire>, ghost out: seq<Bytes>, ghost last: seq<Wire>)
      returns (next: nat, ghost cur': seq<Wire>)
      requires Valid() && Writing(ptr, cur, E.ProbeWires(k, Probe.Tick(k.prober, clock.current)) + data, out, last)
      requires cfg == k.cfg && rcvNxt == k.rcv.nxt && rcvQueue == k.rcv.queue && ack == E.LastAck(k.rcv.acks)
      requires prober == k.prober && clock == k.clock
      modifies buffer, this`output, this`prober
      ensures Writing(next, cur', data, out, last) && prober == E.ProberAfter(k)
    {
      TickProbe();
      next, cur' := FlushProbes(ptr, ack, cur, k, data, out, last);
      prober := prober.(ask := false, tell := false);
    }

    // That leaves the rest alone.
    method AnswerProbes(ptr: nat, ack: R.Ack, ghost cur: seq<Wire>, ghost k: E.Kcb,
                        ghost data: seq<Wire>, ghost out: seq<Bytes>, ghost last: seq<Wire>)
      returns (next: nat, ghost cur': seq<Wire>)
      requires Valid() && Writing(ptr, cur, E.ProbeWires(k, Probe.Tick(k.prober, clock.current)) + data, out, last)
      requires Forgotten(k) && prober == k.prober && ack == E.LastAck(k.rcv.acks)
      modifies buffer, this`output, this`prober
      ensures Valid() && Writing(next, cur', data, out, last)
      ensures Forgotten(k) && prober == E.ProberAfter(k)
    {
      next, cur' := WriteProbes(ptr, ack, cur, k, data, out, last);
    }

    // The two loops of a flush over the send queues.
    method MoveAndWrite(ptr: nat, window: u32, resent: u32, ghost cur: seq<Wire>, ghost k: E.Kcb,
                        ghost out: seq<Bytes>, ghost last: seq<Wire>)
      returns (next: nat, change: nat, lost: bool, ghost cur': seq<Wire>)
      requires Valid() && P.Queued(sndQueue, mss) && P.Queued(sndBuf, mss)
      requires Untouched(k) && window == E.FlushWindow(k) && resent == E.Resent(k)
      requires Writing(ptr, cur, Retransmit.SentWires(E.Turns(k)), out, last)
      modifies buffer, this`output, this`xmit, this`state
      modifies this`sndQueue, this`nsndQue, this`sndBuf, this`nsndBuf, this`sndNxt
      ensures Valid() && Writing(next, cur', [], out, last) && SentOff(k, change, lost)
    {
      MoveQueue(window);
      assert Snd() == E.Moved(k);
      MoveQueued(k.snd, window, E.FlushStamp(k), mss);
      var p := Retransmit.Policy(clock.current, rtt.rto, cfg.nodelay, resent, cfg.fastlimit, Unused(), rcvNxt);
      assert p == E.FlushPolicy(k);
      next, change, lost, cur' := WriteMoved(ptr, p, cur, k, out, last);
    }

    // The second loop, over the buffer the first one has left.
    method WriteMoved(ptr: nat, p: Retransmit.Policy, ghost cur: seq<Wire>, ghost k: E.Kcb,
                      ghost out: seq<Bytes>, ghost last: seq<Wire>)
      returns (next: nat, change: nat, lost: bool, ghost cur': seq<Wire>)
      requires Valid() && P.Queued(sndBuf, mss) && Snd() == E.Moved(k) && p == E.FlushPolicy(k)
      requires cfg == k.cfg && state == k.state && xmit == k.xmit && sndUna == k.snd.una
      requires Writing(ptr, cur, Retransmit.SentWires(E.Turns(k)), out, last)
      modifies buffer, this`output, this`sndBuf, this`xmit, this`state
      ensures Valid() && Writing(next, cur', [], out, last) && SentOff(k, change, lost)
    {
      next, change, lost, cur' := FlushData(ptr, p, cur, out, last);
      assert Visited(E.Turns(k), k.xmit, k.state, change, lost);
    }

    static lemma {:induction false} MoveQueued(s: S.Snd, window: u32, st: S.Stamp, mss: u32)
      requires P.Queued(s.queue, mss) && P.Queued(s.buf, mss)
      ensures P.Queued(S.Move(s, window, st).buf, mss)
      decreases |s.queue|
    {
      if s.queue != [] {
        assert s.queue[0] in s.queue;
        MoveQueued(S.MoveOne(s, st), window, st, mss);
      }
    }
 
    // ---- ikcp_update, ikcp_check ----

    method Update(now: u32)
      requires Valid() && P.Queued(sndQueue, mss) && P.Queued(sndBuf, mss)
      modifies buffer, this`output, this`acklist, this`prober, this`cong, this`clock
      modifies this`sndQueue, this`nsndQue, this`sndBuf, this`nsndBuf, this`sndNxt, this`xmit, this`state
      ensures Valid()
      ensures View() == E.Update(old(View()), now).0 && output == old(output) + E.Update(old(View()), now).1
    {
      ghost var k := View();
      var due := Tock(now);
      assert View() == k.(clock := clock);
      if due {
        Flush();
      }
    }

    // The clock part of `ikcp_update`: whether to flush, and when the next flush is due.
    method Tock(now: u32) returns (due: bool)
      modifies this`clock
      ensures Schedule.Tock(clock, due) == Schedule.Update(old(clock), cfg.interval, now)
    {
      clock := clock.(current := now);
      if !clock.updated {
        clock := clock.(updated := true, flushAt := now);
      }
      var slap := Diff(now, clock.flushAt);
      if slap >= 10000 || slap < -10000 {
        clock := clock.(flushAt := now);
        slap := 0;
      }
      due := slap >= 0;
      if due {
        clock := clock.(flushAt := Add(clock.flushAt, cfg.interval));
        if Diff(now, clock.flushAt) >= 0 {
          clock := clock.(flushAt := Add(now, cfg.interval));
        }
      }
    }

    method Check(now: u32) returns (at: u32)
      ensures at == E.Check(View(), now)
    {
      if !clock.updated {
        return now;
      }
      var flushAt := clock.flushAt;
      if Diff(now, flushAt) >= 10000 || Diff(now, flushAt) < -10000 {
        flushAt := now;
      }
      if Diff(now, flushAt) >= 0 {
        return now;
      }
      var tmFlush := Diff(flushAt, now);
      var tmPacket := 0x7fff_ffff;
      ghost var all := E.Deadlines(sndBuf);
      var i := 0;
      assert all[0..] == all;
      while i < |sndBuf|
        invariant 0 <= i <= |sndBuf| && 0 < tmPacket <= 0x7fff_ffff
        invariant Schedule.Least(tmPacket, Schedule.PacketWait(all[i..], now)) == Schedule.PacketWait(all, now)
      {
        assert all[i..][0] == sndBuf[i].resendts && all[i..][1..] == all[i + 1..];
        var diff := Diff(sndBuf[i].resendts, now);
        if diff <= 0 {
          return now;
        }
        if diff < tmPacket {
          tmPacket := diff;
        }
        i := i + 1;
      }
      var minimal := if tmPacket < tmFlush then tmPacket else tmFlush;
      if minimal >= cfg.interval {
        minimal := cfg.interval;
      }
      at := Add(now, minimal);
    }

    // ---- settings ----

    method SetMtu(mtu: int) returns (code: int)
      requires Valid() && mtu < 0x8000_0000
      modifies this`cfg, this`mss, this`buffer
      ensures Valid() && code == (if mtu < 50 then -1 else 0)
      ensures cfg == if mtu < 50 then old(cfg) else old(cfg).(mtu := mtu)
      ensures buffer == old(buffer) || fresh(buffer)
    {
      if mtu < 50 {
        return -1;
      }
      buffer := new byte[3 * (mtu + 24)](_ => 0);
      cfg := cfg.(mtu := mtu);
      mss := mtu - 24;
      return 0;
    }

    method WndSize(sndwnd: int, rcvwnd: int)
      requires Valid() && sndwnd < 0x8000_0000 && rcvwnd < 0x8000_0000
      modifies this`cfg
      ensures Valid() && cfg == old(cfg).(sndWnd := cfg.sndWnd, rcvWnd := cfg.rcvWnd)
      ensures sndwnd > 0 ==> cfg.sndWnd == sndwnd
      ensures rcvwnd > 0 ==> cfg.rcvWnd == Max(rcvwnd, 128)
      ensures sndwnd <= 0 ==> cfg.sndWnd == old(cfg).sndWnd
      ensures rcvwnd <= 0 ==> cfg.rcvWnd == old(cfg).rcvWnd
    {
      if sndwnd > 0 {
        cfg := cfg.(sndWnd := sndwnd);
      }
      if rcvwnd > 0 {
        cfg := cfg.(rcvWnd := Max(rcvwnd, WND_RCV));
      }
    }

    method NoDelay(nodelay: int, interval: int, resend: int, nc: int)
      requires Valid() && nodelay < 0x8000_0000 && resend < 0x8000_0000
      modifies this`cfg
      ensures Valid()
      ensures cfg == old(cfg).(nodelay := cfg.nodelay, minrto := cfg.minrto, interval := cfg.interval,
                               fastresend := cfg.fastresend, nocwnd := cfg.nocwnd)
      ensures cfg.nodelay == (if nodelay >= 0 then nodelay else old(cfg).nodelay)
      ensures cfg.minrto == (if nodelay > 0 then 30 else if nodelay == 0 then 100 else old(cfg).minrto)
      ensures cfg.interval == (if interval >= 0 then Min(Max(interval, 10), 5000) else old(cfg).interval)
      ensures cfg.fastresend == (if resend >= 0 then resend else old(cfg).fastresend)
      ensures cfg.nocwnd == (if nc >= 0 then nc != 0 else old(cfg).nocwnd)
    {
      var c := cfg;
      if nodelay >= 0 {
        c := c.(nodelay := nodelay, minrto := if nodelay != 0 then RTO_NDL else RTO_MIN);
      }
      if interval >= 0 {
        c := c.(interval := if interval > 5000 then 5000 else if interval < 10 then 10 else interval);
      }
      if resend >= 0 {
        c := c.(fastresend := resend);
      }
      if nc >= 0 {
        c := c.(nocwnd := nc != 0);
      }
      cfg := c;
    }
  }

  function Defaults(conv: u32): E.Config {
    E.Config(conv, MTU_DEF, WND_SND, WND_RCV, INTERVAL, 0, RTO_MIN, 0, FASTACK_LIMIT, false, false, DEADLINK)
  }

  /** What an application may set before traffic: the three setters, and the fields it writes directly. */
  datatype Setting =
    | Mtu(mtu: int)
    | Windows(snd: int, rcv: int)
    | Delay(nodelay: int, interval: int, resend: int, nc: int)
    | Fields(minrto: int, fastlimit: int, stream: bool, deadLink: int)

  predicate IsInt(x: int) {
    -0x8000_0000 <= x < 0x8000_0000
  }

  // Arguments are 32-bit integers; a field that is written directly gets a value it can hold.
  predicate Given(s: Setting) {
    match s
    case Mtu(mtu) => IsInt(mtu)
    case Windows(snd, rcv) => IsInt(snd) && IsInt(rcv)
    case Delay(nodelay, interval, resend, nc) => IsInt(nodelay) && IsInt(interval) && IsInt(resend) && IsInt(nc)
    case Fields(minrto, fastlimit, stream, deadLink) =>
      1 <= minrto <= 60000 && IsInt(fastlimit) && 0 <= deadLink < 0x1_0000_0000
  }

  function Configured(c: E.Config, s: Setting): E.Config
    requires Given(s)
  {
    match s
    case Mtu(mtu) => if mtu < 50 then c else c.(mtu := mtu)
    case Windows(snd, rcv) =>
      c.(sndWnd := if snd > 0 then snd else c.sndWnd, rcvWnd := if rcv > 0 then Max(rcv, 128) else c.rcvWnd)
    case Delay(nodelay, interval, resend, nc) =>
      c.(nodelay := if nodelay >= 0 then nodelay else c.nodelay,
         minrto := if nodelay > 0 then 30 else if nodelay == 0 then 100 else c.minrto,
         interval := if interval >= 0 then Min(Max(interval, 10), 5000) else c.interval,
         fastresend := if resend >= 0 then resend else c.fastresend,
         nocwnd := if nc >= 0 then nc != 0 else c.nocwnd)
    case Fields(minrto, fastlimit, stream, deadLink) =>
      c.(minrto := minrto, fastlimit := fastlimit, stream := stream, deadLink := deadLink)
  }

  function AllConfigured(c: E.Config, settings: seq<Setting>): (r: E.Config)
    requires forall i :: 0 <= i < |settings| ==> Given(settings[i])
    ensures c.mtu >= 50 ==> r.mtu >= 50
  {
    if settings == [] then c
    else Configured(AllConfigured(c, settings[..|settings| - 1]), settings[|settings| - 1])
  }

  // Whatever is set, the configuration is one the engine's results are about.
  lemma {:induction false} SettingsOk(conv: u32, settings: seq<Setting>)
    requires forall i :: 0 <= i < |settings| ==> Given(settings[i])
    ensures P.ConfigOk(AllConfigured(Defaults(conv), settings))
  {
    if settings != [] { SettingsOk(conv, settings[..|settings| - 1]); }
  }

  // And every such configuration with windows and factors in the range of an `int` can be set.
  lemma EveryConfigSet(c: E.Config) returns (settings: seq<Setting>)
    requires P.ConfigOk(c) && 0 < c.sndWnd < 0x8000_0000 && c.nodelay < 0x8000_0000 && c.fastresend < 0x8000_0000
    requires IsInt(c.fastlimit)
    ensures forall i :: 0 <= i < |settings| ==> Given(settings[i])
    ensures AllConfigured(Defaults(c.conv), settings) == c
  {
    var a, b := Mtu(c.mtu), Windows(c.sndWnd, c.rcvWnd);
    var d := Delay(c.nodelay, c.interval, c.fastresend, if c.nocwnd then 1 else 0);
    var f := Fields(c.minrto, c.fastlimit, c.stream, c.deadLink);
    var start := Defaults(c.conv);
    OneMoreSetting(start, [], a);
    OneMoreSetting(start, [] + [a], b);
    OneMoreSetting(start, [] + [a] + [b], d);
    OneMoreSetting(start, [] + [a] + [b] + [d], f);
    settings := [] + [a] + [b] + [d] + [f];
    assert AllConfigured(start, settings) == Configured(Configured(Configured(Configured(start, a), b), d), f);
  }

  lemma OneMoreSetting(c: E.Config, settings: seq<Setting>, s: Setting)
    requires Given(s) && forall i :: 0 <= i < |settings| ==> Given(settings[i])
    ensures forall i :: 0 <= i < |settings + [s]| ==> Given((settings + [s])[i])
    ensures AllConfigured(c, settings + [s]) == Configured(AllConfigured(c, settings), s)
  {
    assert (settings + [s])[..|settings|] == settings;
  }

  // One setting, before traffic.
  method Configure(k: Kcp, s: Setting)
    requires k.Valid() && Given(s)
    modifies k
    ensures k.Valid() && k.View() == old(k.View()).(cfg := Configured(old(k.cfg), s)) && k.output == old(k.output)
    ensures k.buffer == old(k.buffer) || fresh(k.buffer)
  {
    match s
    case Mtu(mtu) => var code := k.SetMtu(mtu);
    case Windows(snd, rcv) => k.WndSize(snd, rcv);
    case Delay(nodelay, interval, resend, nc) => k.NoDelay(nodelay, interval, resend, nc);
    case Fields(minrto, fastlimit, stream, deadLink) =>
      k.cfg := k.cfg.(minrto := minrto, fastlimit := fastlimit, stream := stream, deadLink := deadLink);
  }

  // A new object with any settings applied is the engine's start state for that configuration.
  method Prepare(conv: u32, settings: seq<Setting>) returns (k: Kcp)
    requires forall i :: 0 <= i < |settings| ==> Given(settings[i])
    ensures fresh(k) && fresh(k.buffer) && k.Valid()
    ensures k.View() == E.Create(AllConfigured(Defaults(conv), settings)) && k.output == []
  {
    k := new Kcp(conv);
    for i := 0 to |settings|
      invariant k.Valid() && fresh(k) && fresh(k.buffer) && k.output == []
      invariant k.View() == E.Create(AllConfigured(Defaults(conv), settings[..i]))
    {
      assert settings[..i + 1][..i] == settings[..i];
      Configure(k, settings[i]);
    }
    assert settings[..|settings|] == settings;
  }

  // An object with any settings, driven by any sequence of calls, goes through the states of the
  // value-level run, puts out its datagrams, and so stays within the engine's invariant: no call ever finds its
  // preconditions unmet.
  method Session(conv: u32, settings: seq<Setting>, es: seq<P.Event>) returns (k: Kcp)
    requires forall i :: 0 <= i < |settings| ==> Given(settings[i])
    ensures k.Valid() && k.View() == P.Run(E.Create(AllConfigured(Defaults(conv), settings)), es) && P.Inv(k.View())
    ensures k.output == P.RunOutput(E.Create(AllConfigured(Defaults(conv), settings)), es)
  {
    k := Prepare(conv, settings);
    ghost var start := E.Create(AllConfigured(Defaults(conv), settings));
    SettingsOk(conv, settings);
    P.CreateInv(start.cfg);
    for i := 0 to |es|
      invariant k.Valid() && fresh(k) && fresh(k.buffer)
      invariant k.View() == P.Run(start, es[..i]) && P.Inv(k.View())
      invariant k.output == P.RunOutput(start, es[..i])
    {
      assert es[..i + 1][..i] == es[..i];
      P.StepKeeps(k.View(), es[i]);
      Call(k, es[i]);
    }
    assert es[..|es|] == es;
  }

  // One call.
  method Call(k: Kcp, e: P.Event)
    requires k.Valid() && P.Inv(k.View())
    modifies k, k.buffer
    ensures k.Valid() && k.buffer == old(k.buffer) && k.View() == P.Step(old(k.View()), e)
    ensures k.output == old(k.output) + P.PutOut(old(k.View()), e)
  {
    match e
    case SendEv(m) =>
      assert m[..|m|] == m;
      var code := k.Send(m, |m|);
    case RecvEv(len) => var code, bytes := k.Recv(len);
    case InputEv(data) => var code := k.Input(data);
    case UpdateEv(now) => k.Update(now);
    case FlushEv => k.Flush();
  }
}
