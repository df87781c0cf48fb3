/** End-to-end safety: in every run of two endpoints over an unreliable network the messages
    received are a prefix of the messages sent, and nothing is acknowledged that is not held. */
module Safety {
  import opened Words
  import opened Segments
  import opened Codec
  import opened Fragments
  import opened Engine
  import opened Endpoint
  import opened Delivery
  import opened Packing
  import opened Wrappers
  import opened Network
  import Retransmit
  import Schedule
  import Sequences
  import S = SendWindow
  import R = RecvWindow

  // ---- send ----

  lemma {:induction false} JoinBytesConcat(a: seq<Bytes>, b: seq<Bytes>)
    ensures JoinBytes(a + b) == JoinBytes(a) + JoinBytes(b)
  {
    if a == [] {
      assert a + b == b;
    } else {
      assert (a + b)[1..] == a[1..] + b;
      JoinBytesConcat(a[1..], b);
    }
  }

  lemma JoinBytesSnoc(a: seq<Bytes>, m: Bytes)
    ensures JoinBytes(a + [m]) == JoinBytes(a) + m
  {
    JoinBytesConcat(a, [m]);
    assert JoinBytes([m]) == m + JoinBytes([m][1..]) == m;
  }

  lemma SendMessageDir(d: Dir, c: Config, q: seq<Segment>, m: Bytes)
    requires 24 < c.mtu && !c.stream && Faithful(d, c, d.log + FragsOf(q))
    ensures var x := Fragments.Send(q, c.Mss(), false, m);
            Faithful(if x.code == 0 then d.(sent := d.sent + [m]) else d, c, d.log + FragsOf(x.queue))
  {
    var x, mss := Fragments.Send(q, c.Mss(), false, m), c.Mss();
    if x.code == 0 {
      AllFragsConcat(d.sent, [m], mss);
      AllFragsOne(m, mss);
      assert FragsOf(x.queue) == FragsOf(q) + MessageFrags(m, mss);
      assert d.log + (FragsOf(q) + MessageFrags(m, mss)) == (d.log + FragsOf(q)) + MessageFrags(m, mss);
    }
  }

  // Topping up the last queued segment touches nothing that has been numbered.
  lemma SendStreamDir(d: Dir, c: Config, q: seq<Segment>, m: Bytes)
    requires 24 < c.mtu && c.stream && d.taken <= |d.log| && Faithful(d, c, d.log + FragsOf(q))
    ensures var x := Fragments.Send(q, c.Mss(), true, m);
            var kept := if x.code == 0 then m else m[..Min(|m|, Room(q, c.Mss()))];
            Faithful(d.(sent := d.sent + [kept]), c, d.log + FragsOf(x.queue))
  {
    var x := Fragments.Send(q, c.Mss(), true, m);
    var kept := if x.code == 0 then m else m[..Min(|m|, Room(q, c.Mss()))];
    SendStream(q, c.Mss(), m);
    assert m[..|m|] == m;
    JoinMore(d.log, FragsOf(q), FragsOf(x.queue), kept);
    JoinBytesSnoc(d.sent, kept);
    assert (d.log + FragsOf(x.queue))[..d.taken] == d.log[..d.taken] == (d.log + FragsOf(q))[..d.taken];
    StillZero(d.log, q, x.queue, c.Mss());
  }

  lemma JoinMore(log: seq<Frag>, q: seq<Frag>, q': seq<Frag>, kept: Bytes)
    requires Join(q') == Join(q) + kept
    ensures Join(log + q') == Join(log + q) + kept
  {
    JoinConcat(log, q);
    JoinConcat(log, q');
    Sequences.Assoc(Join(log), Join(q), kept);
  }

  lemma StillZero(log: seq<Frag>, q: seq<Segment>, q': seq<Segment>, mss: u32)
    requires TouchedOnly(q, q', mss) && forall f :: f in log + FragsOf(q) ==> f.frg == 0
    ensures forall f :: f in log + FragsOf(q') ==> f.frg == 0
  {
    var before, after := log + FragsOf(q), log + FragsOf(q');
    forall i | 0 <= i < |after| ensures after[i].frg == 0 {
      if i < |log| {
        assert before[i] in before;
      } else if i - |log| < |q| && q'[i - |log|] == q[i - |log|] {
        assert before[i] in before;
      }
    }
  }

  lemma SendDir(d: Dir, k: Kcb, r: R.Rcv, m: Bytes)
    requires DirInv(d, k.cfg, k.snd, r)
    ensures DirInv(d.(sent := d.sent + Accepted(k, m)), k.cfg, Engine.Send(k, m).0.snd, r)
  {
    if k.cfg.stream {
      SendStream(k.snd.queue, k.cfg.Mss(), m);
      SendStreamDir(d, k.cfg, k.snd.queue, m);
    } else {
      SendMessageDir(d, k.cfg, k.snd.queue, m);
      assert d.sent + [] == d.sent;
    }
  }

  // ---- recv ----

  lemma SentSplit(sent: seq<Bytes>, n: nat, mss: u32)
    requires mss > 0 && n < |sent|
    ensures AllFrags(sent, mss) ==
            AllFrags(sent[..n], mss) + (MessageFrags(sent[n], mss) + AllFrags(sent[n + 1..], mss))
  {
    assert sent == sent[..n] + sent[n..];
    AllFragsConcat(sent[..n], sent[n..], mss);
    assert sent[n..][1..] == sent[n + 1..];
  }

  // The receive queue is the part of the log behind what has been taken.
  lemma QueueIsLog(d: Dir, c: Config, s: S.Snd, r: R.Rcv, n: nat)
    requires DirInv(d, c, s, r) && n <= |r.queue|
    ensures var all := d.log + FragsOf(s.queue);
            && d.taken + n <= |d.log| && FragsOf(r.queue)[..n] == all[d.taken..d.taken + n]
            && all[..d.taken + n] == all[..d.taken] + FragsOf(r.queue)[..n]
  {
    assert FragsOf(r.queue) == d.log[d.taken..Total(d.taken, r)];
    Sequences.Stretch(d.log, FragsOf(s.queue), d.taken, d.taken + n, Total(d.taken, r));
  }

  // In message mode it continues with the fragments of the next message to be received.
  lemma QueueStart(d: Dir, c: Config, s: S.Snd, r: R.Rcv)
    requires DirInv(d, c, s, r) && !c.stream && r.queue != []
    ensures |d.got| < |d.sent|
    ensures FragsOf(r.queue) <= MessageFrags(d.sent[|d.got|], c.Mss()) + AllFrags(d.sent[|d.got| + 1..], c.Mss())
  {
    var n, base, mss := |d.got|, d.taken, c.Mss();
    assert d.got == d.sent[..n];
    assert d.log <= AllFrags(d.sent, mss);
    assert |AllFrags(d.sent, mss)| > base;
    assert d.got != d.sent;
    SentSplit(d.sent, n, mss);
    var all := AllFrags(d.sent, mss);
    assert FragsOf(r.queue) == all[base..Total(base, r)];
    assert all[base..] == MessageFrags(d.sent[n], mss) + AllFrags(d.sent[n + 1..], mss);
  }

  lemma TakeQueue(r: R.Rcv, wnd: u32, base: nat, log: seq<Frag>, n: nat)
    requires R.RcvInv(r, wnd) && Stored(r, base, log) && n <= |r.queue|
    ensures var t := r.(queue := r.queue[n..]);
            Stored(t, base + n, log) && Retains(r, base, t, base + n)
  {
    var t := r.(queue := r.queue[n..]);
    assert FragsOf(t.queue) == FragsOf(r.queue)[n..];
  }

  // In stream mode a successful receive returns the bytes of the fragments it takes;
  lemma RecvBytes(d: Dir, c: Config, s: S.Snd, r: R.Rcv, wnd: u32, len: nat)
    requires DirInv(d, c, s, r) && R.Recv(r, wnd, len).code >= 0 && c.stream
    ensures var n := MergeCount(FragsOf(r.queue));
            Faithful(Taken(d, R.Recv(r, wnd, len).bytes, n), c, d.log + FragsOf(s.queue))
  {
    var n, bytes := MergeCount(FragsOf(r.queue)), R.Recv(r, wnd, len).bytes;
    QueueIsLog(d, c, s, r, n);
    JoinBytesSnoc(d.got, bytes);
    JoinConcat((d.log + FragsOf(s.queue))[..d.taken], FragsOf(r.queue)[..n]);
  }

  // in message mode exactly the next message sent, and it takes exactly its fragments.
  lemma RecvMessage(d: Dir, c: Config, s: S.Snd, r: R.Rcv, wnd: u32, len: nat)
    requires DirInv(d, c, s, r) && R.Recv(r, wnd, len).code >= 0 && !c.stream
    ensures var n := MergeCount(FragsOf(r.queue));
            Faithful(Taken(d, R.Recv(r, wnd, len).bytes, n), c, d.log + FragsOf(s.queue))
  {
    var bytes := R.Recv(r, wnd, len).bytes;
    QueueIsLog(d, c, s, r, MergeCount(FragsOf(r.queue)));
    QueueStart(d, c, s, r);
    MergeRestores(FragsOf(r.queue), d.sent[|d.got|], c.Mss(), AllFrags(d.sent[|d.got| + 1..], c.Mss()));
    assert bytes == d.sent[|d.got|] && d.got + [bytes] == d.sent[..|d.got| + 1];
    AllFragsConcat(d.got, [bytes], c.Mss());
    AllFragsOne(bytes, c.Mss());
  }

  lemma RecvNext(d: Dir, c: Config, s: S.Snd, r: R.Rcv, wnd: u32, len: nat)
    requires DirInv(d, c, s, r) && R.Recv(r, wnd, len).code >= 0
    ensures var n := MergeCount(FragsOf(r.queue));
            Faithful(Taken(d, R.Recv(r, wnd, len).bytes, n), c, d.log + FragsOf(s.queue))
  {
    if c.stream { RecvBytes(d, c, s, r, wnd, len); } else { RecvMessage(d, c, s, r, wnd, len); }
  }

  // The receiver may move on and the application may take messages without disturbing the rest.
  lemma MovesOn(d: Dir, d': Dir, c: Config, s: S.Snd, r: R.Rcv, r': R.Rcv)
    requires DirInv(d, c, s, r) && d' == d.(got := d'.got, taken := d'.taken) && r'.acks == r.acks
    requires Faithful(d', c, d.log + FragsOf(s.queue))
    requires Stored(r', d'.taken, d.log) && Retains(r, d.taken, r', d'.taken)
    ensures DirInv(d', c, s, r')
  {
  }

  lemma TakeAndDrain(r: R.Rcv, wnd: u32, base: nat, log: seq<Frag>, n: nat)
    requires R.RcvInv(r, wnd) && wnd < 0x8000_0000 && Stored(r, base, log) && n <= |r.queue|
    ensures var x := R.Drain(r.(queue := r.queue[n..]), wnd);
            Stored(x, base + n, log) && Retains(r, base, x, base + n) && x.acks == r.acks
  {
    var t := r.(queue := r.queue[n..]);
    TakeQueue(r, wnd, base, log, n);
    DrainStored(t, wnd, base + n, log);
    R.DrainKeeps(t, wnd);
  }

  lemma RecvTaken(d: Dir, c: Config, s: S.Snd, r: R.Rcv, wnd: u32, len: nat)
    requires DirInv(d, c, s, r) && R.RcvInv(r, wnd) && wnd < 0x8000_0000 && R.Recv(r, wnd, len).code >= 0
    ensures var x := R.Recv(r, wnd, len);
            var d' := Taken(d, x.bytes, MergeCount(FragsOf(r.queue)));
            DirInv(d', c, s, x.rcv) && Retains(r, d.taken, x.rcv, d'.taken)
  {
    var x, n := R.Recv(r, wnd, len), MergeCount(FragsOf(r.queue));
    RecvNext(d, c, s, r, wnd, len);
    TakeAndDrain(r, wnd, d.taken, d.log, n);
    MovesOn(d, Taken(d, x.bytes, n), c, s, r, x.rcv);
  }

  lemma RecvDir(d: Dir, c: Config, s: S.Snd, r: R.Rcv, wnd: u32, len: int)
    requires DirInv(d, c, s, r) && R.RcvInv(r, wnd) && wnd < 0x8000_0000
    ensures var x := R.Recv(r, wnd, len);
            var d' := if x.code >= 0 && len >= 0 then Taken(d, x.bytes, MergeCount(FragsOf(r.queue))) else d;
            DirInv(d', c, s, x.rcv) && Retains(r, d.taken, x.rcv, d'.taken)
  {
    if R.Recv(r, wnd, len).code >= 0 && len >= 0 {
      RecvTaken(d, c, s, r, wnd, len);
    } else if len < 0 {
      R.PeekIsPure(r, wnd, len);
    }
  }

  // ---- flush: the receiving direction ----

  lemma ClearAcksDir(d: Dir, c: Config, s: S.Snd, r: R.Rcv)
    requires DirInv(d, c, s, r)
    ensures DirInv(d.(pend := []), c, s, r.(acks := []))
    ensures Retains(r, d.taken, r.(acks := []), d.taken)
  {
  }

  // ---- flush: the sending direction ----

  lemma SameFrags(buf: seq<Segment>, buf': seq<Segment>, top: nat, log: seq<Frag>)
    requires |buf'| == |buf|
    requires forall i :: 0 <= i < |buf| ==> buf'[i].sn == buf[i].sn && FragOf(buf'[i]) == FragOf(buf[i])
    ensures (forall x :: x in buf ==> Matches(x, S.Index(top, x.sn), log)) ==>
            (forall x :: x in buf' ==> Matches(x, S.Index(top, x.sn), log))
    ensures forall x :: x in buf ==> exists y :: y in buf' && y.sn == x.sn
  {
    forall x | x in buf ensures exists y :: y in buf' && y.sn == x.sn {
      var i :| 0 <= i < |buf| && buf[i] == x;
      assert buf'[i] in buf';
    }
    if forall x :: x in buf ==> Matches(x, S.Index(top, x.sn), log) {
      forall i | 0 <= i < |buf'| ensures Matches(buf'[i], S.Index(top, buf'[i].sn), log) {
        assert buf[i] in buf;
      }
    }
  }

  // Changing only what the peer never sees keeps the sender's side of the log.
  lemma SameTracks(s: S.Snd, buf': seq<Segment>, log: seq<Frag>)
    requires Tracks(s, log)
    requires |buf'| == |s.buf|
    requires forall i :: 0 <= i < |buf'| ==> buf'[i].sn == s.buf[i].sn && FragOf(buf'[i]) == FragOf(s.buf[i])
    ensures Tracks(s.(buf := buf'), log)
    ensures forall n: nat :: Outstanding(s, log, n) ==> Outstanding(s.(buf := buf'), log, n)
  {
    SameFrags(s.buf, buf', |log|, log);
    forall n: nat | Outstanding(s, log, n) ensures Outstanding(s.(buf := buf'), log, n) {
      var x :| x in s.buf && S.Index(|log|, x.sn) == n;
      var y :| y in buf' && y.sn == x.sn;
    }
  }

  lemma StoredMono(r: R.Rcv, base: nat, log: seq<Frag>, log': seq<Frag>)
    requires Stored(r, base, log) && log <= log'
    ensures Stored(r, base, log')
  {
    assert log'[base..Total(base, r)] == log[base..Total(base, r)];
  }

  // The segments a flush leaves in flight differ from those it admitted only in bookkeeping.
  lemma FlushSame(k: Kcb)
    requires Inv(k) && k.clock.updated
    ensures var moved, t := Moved(k), Engine.Flush(k).0.snd;
            && t == moved.(buf := t.buf) && |t.buf| == |moved.buf|
            && (forall i :: 0 <= i < |t.buf| ==>
                  t.buf[i].sn == moved.buf[i].sn && FragOf(t.buf[i]) == FragOf(moved.buf[i]))
  {
    var moved, t := Moved(k), Engine.Flush(k).0.snd;
    MovedKeeps(k);
    forall i | 0 <= i < |moved.buf| ensures t.buf[i].sn == moved.buf[i].sn && FragOf(t.buf[i]) == FragOf(moved.buf[i]) {
      Retransmit.AttemptKeeps(moved.buf[i], FlushPolicy(k));
    }
  }

  lemma FlushTracks(k: Kcb, d: Dir)
    requires Inv(k) && k.clock.updated && Tracks(k.snd, d.log)
    ensures var t := Engine.Flush(k).0.snd;
            && Tracks(t, Grown(d, k))
            && (forall m: nat :: Outstanding(k.snd, d.log, m) || |d.log| <= m < |Grown(d, k)| ==>
                  Outstanding(t, Grown(d, k), m))
  {
    FlushWindowSmall(k);
    S.MoveKeeps(k.snd, FlushWindow(k), FlushStamp(k));
    MoveTracks(k.snd, FlushWindow(k), FlushStamp(k), d.log);
    forall m: nat | Outstanding(k.snd, d.log, m) || |d.log| <= m < |Grown(d, k)|
      ensures Outstanding(Moved(k), Grown(d, k), m)
    {
      MoveOutstanding(k.snd, FlushWindow(k), FlushStamp(k), d.log, m);
    }
    FlushSame(k);
    SameTracks(Moved(k), Engine.Flush(k).0.snd.buf, Grown(d, k));
  }

  lemma TakeDrop(a: seq<Frag>, f: seq<Frag>, n: nat)
    requires n <= |f|
    ensures (a + f[..n]) + f[n..] == a + f
  {
  }

  lemma FlushContent(k: Kcb, d: Dir)
    requires Inv(k)
    ensures d.log <= Grown(d, k)
    ensures Grown(d, k) + FragsOf(Moved(k).queue) == d.log + FragsOf(k.snd.queue)
  {
    var q, n := k.snd.queue, S.Room(k.snd, FlushWindow(k));
    MovedKeeps(k);
    assert FragsOf(q[n..]) == FragsOf(q)[n..];
    TakeDrop(d.log, FragsOf(q), n);
  }

  lemma FlushDir(d: Dir, k: Kcb, r: R.Rcv)
    requires Inv(k) && k.clock.updated && DirInv(d, k.cfg, k.snd, r)
    ensures DirInv(d.(log := Grown(d, k)), k.cfg, Engine.Flush(k).0.snd, r)
  {
    FlushTracks(k, d);
    FlushContent(k, d);
    FlushSame(k);
    StoredMono(r, d.taken, d.log, Grown(d, k));
  }

  // ---- flush: what it puts into the network ----

  lemma {:induction false} SentFrom(ts: seq<Retransmit.Turn>, w: Wire)
    requires w in Retransmit.SentWires(ts)
    ensures exists i :: 0 <= i < |ts| && ts[i].sent && w == ToWire(ts[i].seg)
  {
    if ts[0].sent && w == ToWire(ts[0].seg) {
    } else {
      SentFrom(ts[1..], w);
      var i :| 0 <= i < |ts[1..]| && ts[1..][i].sent && w == ToWire(ts[1..][i].seg);
      assert ts[i + 1] == ts[1..][i];
    }
  }

  lemma DataWiresGood(k: Kcb, log: seq<Frag>, base: nat)
    requires Inv(k) && k.clock.updated && Tracks(Engine.Flush(k).0.snd, log) && k.rcv.nxt == Wrap(Total(base, k.rcv))
    ensures var ws := Retransmit.SentWires(Turns(k));
            GoodWires(ws, Positions(|log|, ws), Total(base, k.rcv), log, k.rcv, base)
  {
    var ws, ts, una := Retransmit.SentWires(Turns(k)), Turns(k), Total(base, k.rcv);
    MovedKeeps(k);
    TurnsKeep(Moved(k).buf, FlushPolicy(k), k.cfg.conv, k.cfg.Mss(), 0);
    SentWiresOk(ts, k.cfg.conv, k.cfg.Mss());
    forall i | 0 <= i < |ws| ensures GoodWire(ws[i], S.Index(|log|, ws[i].sn), una, log, k.rcv, base) {
      assert ws[i] in ws;
      DataWireGood(k, log, una, base, ws[i]);
    }
  }

  // Whatever data a flush writes is the image of a segment it leaves in flight.
  lemma SentInFlight(k: Kcb, w: Wire) returns (x: Segment)
    requires k.clock.updated && 24 < k.cfg.mtu && w in Retransmit.SentWires(Turns(k))
    ensures x in Engine.Flush(k).0.snd.buf && w == ToWire(x) && x.una == k.rcv.nxt
  {
    var ts := Turns(k);
    SentFrom(ts, w);
    var j :| 0 <= j < |ts| && ts[j].sent && w == ToWire(ts[j].seg);
    x := ts[j].seg;
    Retransmit.AttemptKeeps(Moved(k).buf[j], FlushPolicy(k));
    assert Retransmit.Segs(ts)[j] == x;
  }

  lemma DataWireGood(k: Kcb, log: seq<Frag>, una: nat, base: nat, w: Wire)
    requires k.clock.updated && 24 < k.cfg.mtu && Tracks(Engine.Flush(k).0.snd, log) && k.rcv.nxt == Wrap(una)
    requires w in Retransmit.SentWires(Turns(k)) && w.cmd == CMD_PUSH
    ensures GoodWire(w, S.Index(|log|, w.sn), una, log, k.rcv, base)
  {
    var x := SentInFlight(k, w);
    ImageGood(x, log, una, k.rcv, base);
  }

  lemma ImageGood(x: Segment, log: seq<Frag>, una: nat, r: R.Rcv, base: nat)
    requires Matches(x, S.Index(|log|, x.sn), log) && x.una == Wrap(una) && x.cmd == CMD_PUSH
    ensures GoodWire(ToWire(x), S.Index(|log|, x.sn), una, log, r, base)
  {
    WrapBack(|log|, x.sn);
  }

  lemma AckWiresGood(k: Kcb, pend: seq<int>, log: seq<Frag>, base: nat)
    requires Pending(pend, k.rcv, base) && k.rcv.nxt == Wrap(Total(base, k.rcv))
    ensures GoodWires(AckWires(k), pend, Total(base, k.rcv), log, k.rcv, base)
  {
  }

  lemma ProbeWiresGood(k: Kcb, log: seq<Frag>, base: nat)
    requires k.rcv.nxt == Wrap(Total(base, k.rcv))
    ensures var ps := ProbeWires(k, Probe.Tick(k.prober, k.clock.current));
            GoodWires(ps, Zeros(|ps|), Total(base, k.rcv), log, k.rcv, base)
  {
  }

  lemma FlushWiresGood(k: Kcb, d: Dir, pend: seq<int>, base: nat)
    requires Inv(k) && k.clock.updated && Tracks(Engine.Flush(k).0.snd, Grown(d, k))
    requires Pending(pend, k.rcv, base) && k.rcv.nxt == Wrap(Total(base, k.rcv))
    ensures GoodWires(FlushWires(k), FlushTags(k, d, pend), Total(base, k.rcv), Grown(d, k), k.rcv, base)
  {
    var una, log := Total(base, k.rcv), Grown(d, k);
    var a, p, w := AckWires(k), ProbeWires(k, Probe.Tick(k.prober, k.clock.current)), Retransmit.SentWires(Turns(k));
    DataWiresGood(k, log, base);
    AckWiresGood(k, pend, log, base);
    ProbeWiresGood(k, log, base);
    ConcatGood(a, pend, p, Zeros(|p|), una, log, k.rcv, base);
    ConcatGood(a + p, pend + Zeros(|p|), w, Positions(|log|, w), una, log, k.rcv, base);
  }

  lemma ConcatGood(a: seq<Wire>, s: seq<int>, b: seq<Wire>, t: seq<int>, una: nat, log: seq<Frag>, r: R.Rcv, base: nat)
    requires GoodWires(a, s, una, log, r, base) && GoodWires(b, t, una, log, r, base)
    ensures GoodWires(a + b, s + t, una, log, r, base)
  {
  }

  lemma {:induction false} RecordGood(conv: u32, ds: seq<Bytes>, tags: seq<int>, una: nat, log: seq<Frag>,
                                      r: R.Rcv, base: nat)
    requires GoodWires(ParseAll(conv, ds), tags, una, log, r, base)
    ensures forall p :: p in Record(conv, ds, tags, una) ==> GoodPacket(p, conv, log, r, base)
  {
    if ds != [] {
      var head, rest := Parse(conv, ds[0]).segs, ParseAll(conv, ds[1..]);
      var n := |head|;
      assert ParseAll(conv, ds) == head + rest;
      SplitGood(head, rest, tags, una, log, r, base);
      RecordGood(conv, ds[1..], tags[n..], una, log, r, base);
    }
  }

  lemma SplitGood(a: seq<Wire>, b: seq<Wire>, tags: seq<int>, una: nat, log: seq<Frag>, r: R.Rcv, base: nat)
    requires GoodWires(a + b, tags, una, log, r, base)
    ensures GoodWires(a, tags[..|a|], una, log, r, base) && GoodWires(b, tags[|a|..], una, log, r, base)
  {
    forall i | 0 <= i < |a| ensures GoodWire(a[i], tags[..|a|][i], una, log, r, base) {
      assert GoodWire((a + b)[i], tags[i], una, log, r, base);
    }
    forall i | 0 <= i < |b| ensures GoodWire(b[i], tags[|a|..][i], una, log, r, base) {
      assert GoodWire((a + b)[|a| + i], tags[|a| + i], una, log, r, base);
    }
  }

  // What is good stays good while the author's log grows and its receiver moves on.
  lemma PacketMono(p: Packet, conv: u32, log: seq<Frag>, r: R.Rcv, base: nat, log': seq<Frag>, r': R.Rcv, base': nat)
    requires GoodPacket(p, conv, log, r, base) && log <= log' && Retains(r, base, r', base')
    ensures GoodPacket(p, conv, log', r', base')
  {
    var ws := Parse(conv, p.bytes).segs;
    forall i | 0 <= i < |ws| ensures GoodWire(ws[i], p.tags[i], p.una, log', r', base') {
      assert GoodWire(ws[i], p.tags[i], p.una, log, r, base);
    }
  }

  // ---- delivery: the sending direction ----

  lemma {:induction false} SenderWires(s: S.Snd, r: R.Rcv, base: nat, log: seq<Frag>, ws: seq<Wire>, tags: seq<int>,
                                       una: nat, theirs: seq<Frag>)
    requires S.SndInv(s) && Tracks(s, log) && Accounted(s, r, base, log) && Total(base, r) <= |log|
    requires GoodWires(ws, tags, una, theirs, r, base) && FreshWires(ws, tags, una, |theirs|, |log|)
    requires forall n: nat :: Holds(r, base, n) ==> n < |log|
    ensures Tracks(S.OnWires(s, ws), log) && Accounted(S.OnWires(s, ws), r, base, log)
    decreases |ws|
  {
    if ws != [] {
      var w := ws[0];
      assert GoodWire(w, tags[0], una, theirs, r, base);
      UnaAccounted(s, r, base, log, una);
      var t := S.TakeUna(s, w.una);
      S.OnWireKeeps(s, w);
      S.DropCountIs(s.buf, w.una);
      S.SuffixInFlight(s.nxt, s.buf, S.DropCount(s.buf, w.una));
      if w.cmd == CMD_ACK { AckAccounted(t, r, base, log, tags[0]); }
      TailGood(ws, tags, una, theirs, r, base, |log|);
      SenderWires(S.OnWire(s, w), r, base, log, ws[1..], tags[1..], una, theirs);
    }
  }

  lemma TailGood(ws: seq<Wire>, tags: seq<int>, una: nat, log: seq<Frag>, r: R.Rcv, base: nat, ours: nat)
    requires ws != [] && GoodWires(ws, tags, una, log, r, base) && FreshWires(ws, tags, una, |log|, ours)
    ensures GoodWires(ws[1..], tags[1..], una, log, r, base) && FreshWires(ws[1..], tags[1..], una, |log|, ours)
  {
    assert ws == [ws[0]] + ws[1..];
    SplitGood([ws[0]], ws[1..], tags, una, log, r, base);
    forall i | 0 <= i < |ws[1..]|
      ensures ws[1..][i] == ws[i + 1] && tags[1..][i] == tags[i + 1]
    {
    }
  }

  lemma HeldBelowLog(r: R.Rcv, base: nat, log: seq<Frag>)
    requires Stored(r, base, log)
    ensures forall n: nat :: Holds(r, base, n) ==> n < |log|
  {
  }

  // ---- delivery: the receiving direction ----

  lemma {:induction false} ReceiverWires(r: R.Rcv, wnd: u32, base: nat, log: seq<Frag>, ws: seq<Wire>, tags: seq<int>,
                                         pend: seq<int>)
    requires wnd < 0x7fff_0000 && R.RcvInv(r, wnd) && Stored(r, base, log) && Pending(pend, r, base)
    requires |log| <= Total(base, r) + wnd + 65535 && |tags| == |ws|
    requires forall i :: 0 <= i < |ws| && ws[i].cmd == CMD_PUSH ==>
               && 0 <= tags[i] < |log| && ws[i].sn == Wrap(tags[i]) && Frag(ws[i].frg, ws[i].data) == log[tags[i]]
               && |log| - tags[i] <= 0x8000_0000
    ensures var t := R.OnWires(r, wnd, ws);
            && R.RcvInv(t, wnd) && Stored(t, base, log) && Retains(r, base, t, base)
            && Pending(PendAfter(r, wnd, ws, tags, pend), t, base)
    decreases |ws|
  {
    if ws != [] {
      var w := ws[0];
      var t := R.OnWire(r, wnd, w);
      R.OnWireKeeps(r, wnd, w);
      if w.cmd == CMD_PUSH {
        DataStored(r, wnd, base, log, w, tags[0]);
      }
      var pend' := if |t.acks| > |r.acks| then pend + [tags[0]] else pend;
      assert Pending(pend', t, base);
      forall i | 0 <= i < |ws[1..]| ensures ws[1..][i] == ws[i + 1] && tags[1..][i] == tags[i + 1] {}
      ReceiverWires(t, wnd, base, log, ws[1..], tags[1..], pend');
    }
  }

  // ---- one step of the system ----

  lemma SwapKeeps(s: Sys)
    ensures SysInv(Swap(s)) <==> SysInv(s)
  {
  }

  // The packets an endpoint has put out stay good when its own receiver moves on.
  lemma PacketsMono(ps: seq<Packet>, conv: u32, log: seq<Frag>, r: R.Rcv, base: nat,
                    log': seq<Frag>, r': R.Rcv, base': nat)
    requires forall p :: p in ps ==> GoodPacket(p, conv, log, r, base)
    requires log <= log' && Retains(r, base, r', base')
    ensures forall p :: p in ps ==> GoodPacket(p, conv, log', r', base')
  {
    forall p | p in ps ensures GoodPacket(p, conv, log', r', base') {
      PacketMono(p, conv, log, r, base, log', r', base');
    }
  }

  lemma SendStep(s: Sys, m: Bytes)
    requires SysInv(s)
    ensures SysInv(Act(s, Send(m)))
  {
    SendKeeps(s.a, m);
    SendDir(s.dab, s.a, s.b.rcv, m);
  }

  lemma RecvStep(s: Sys, len: int)
    requires SysInv(s)
    ensures SysInv(Act(s, Recv(len)))
  {
    var t := Act(s, Recv(len));
    RecvKeeps(s.a, len);
    RecvDir(s.dba, s.b.cfg, s.b.snd, s.a.rcv, s.a.cfg.rcvWnd, len);
    PacketsMono(s.ab, s.a.cfg.conv, s.dab.log, s.a.rcv, s.dba.taken,
                s.dab.log, t.a.rcv, t.dba.taken);
  }

  // The new datagrams of a flush.
  lemma FlushPackets(s: Sys)
    requires SysInv(s) && s.a.clock.updated
    ensures var k, base := s.a, s.dba.taken;
            var tags := FlushTags(k, s.dab, s.dba.pend);
            forall p :: p in Record(k.cfg.conv, Engine.Flush(k).1, tags, Total(base, k.rcv)) ==>
              GoodPacket(p, k.cfg.conv, Grown(s.dab, k), k.rcv, base)
  {
    var k, base := s.a, s.dba.taken;
    FlushTracks(k, s.dab);
    FlushWiresGood(k, s.dab, s.dba.pend, base);
    FlushRoundTrip(k);
    RecordGood(k.cfg.conv, Engine.Flush(k).1, FlushTags(k, s.dab, s.dba.pend), Total(base, k.rcv),
               Grown(s.dab, k), k.rcv, base);
  }

  lemma FlushStep(s: Sys)
    requires SysInv(s)
    ensures SysInv(FlushAt(s, s.a))
  {
    var k, base, t := s.a, s.dba.taken, FlushAt(s, s.a);
    FlushKeeps(k);
    if k.clock.updated {
      FlushDir(s.dab, k, s.b.rcv);
      ClearAcksDir(s.dba, s.b.cfg, s.b.snd, k.rcv);
      FlushPackets(s);
      FlushContent(k, s.dab);
      PacketsMono(s.ab, k.cfg.conv, s.dab.log, k.rcv, base, Grown(s.dab, k), t.a.rcv, base);
      var ps := Record(k.cfg.conv, Engine.Flush(k).1, FlushTags(k, s.dab, s.dba.pend), Total(base, k.rcv));
      PacketsMono(ps, k.cfg.conv, Grown(s.dab, k), k.rcv, base, Grown(s.dab, k), t.a.rcv, base);
    }
  }

  lemma ClockStep(s: Sys, clock: Schedule.Clock)
    requires SysInv(s)
    ensures SysInv(s.(a := s.a.(clock := clock)))
  {
  }

  lemma UpdateActs(s: Sys, now: u32)
    requires Possible(s, Update(now))
    ensures var tock := Schedule.Update(s.a.clock, s.a.cfg.interval, now);
            var t := s.(a := s.a.(clock := tock.clock));
            Act(s, Update(now)) == if tock.flush then FlushAt(t, t.a) else t
  {
  }

  lemma UpdateStep(s: Sys, now: u32)
    requires SysInv(s)
    ensures SysInv(Act(s, Update(now)))
  {
    var tock := Schedule.Update(s.a.clock, s.a.cfg.interval, now);
    UpdateActs(s, now);
    ClockStep(s, tock.clock);
    FlushStep(s.(a := s.a.(clock := tock.clock)));
  }

  lemma InputParts(k: Kcb, data: Bytes)
    requires 24 < k.cfg.mtu
    ensures var t, ws := Engine.Input(k, data).0, Parse(k.cfg.conv, data).segs;
            && t.cfg == k.cfg
            && t.rcv == R.OnWires(k.rcv, k.cfg.rcvWnd, ws)
            && (t.snd == S.OnWires(k.snd, ws) || exists sn :: t.snd == S.TakeFastAck(S.OnWires(k.snd, ws), sn))
  {
    if |data| >= 24 {
      var scan := Parse(k.cfg.conv, data);
      OnWiresCfg(k, scan.segs);
      if scan.code == 0 && MaxAck(None, scan.segs).Some? {
        assert Engine.Input(k, data).0.snd == S.TakeFastAck(S.OnWires(k.snd, scan.segs), MaxAck(None, scan.segs).value);
      }
    }
  }

  lemma FastAckTracks(s: S.Snd, sn: u32, log: seq<Frag>)
    requires Tracks(s, log)
    ensures Tracks(S.TakeFastAck(s, sn), log)
    ensures forall n: nat :: Outstanding(s, log, n) ==> Outstanding(S.TakeFastAck(s, sn), log, n)
  {
    SameTracks(s, S.ScanSkip(s.buf, sn), log);
  }

  // A delivery at `a` as seen by the direction in which `a` sends.
  lemma DeliverSender(s: Sys, i: nat)
    requires SysInv(s) && Legal(s, Deliver(i))
    ensures DirInv(s.dab, s.a.cfg, Engine.Input(s.a, s.ba[i].bytes).0.snd, s.b.rcv)
  {
    var p, log, base := s.ba[i], s.dab.log, s.dab.taken;
    assert GoodPacket(p, s.a.cfg.conv, s.dba.log, s.b.rcv, base);
    var ws := Parse(s.a.cfg.conv, p.bytes).segs;
    HeldBelowLog(s.b.rcv, base, log);
    InputParts(s.a, p.bytes);
    S.OnWiresKeeps(s.a.snd, ws);
    SenderWires(s.a.snd, s.b.rcv, base, log, ws, p.tags, p.una, s.dba.log);
    var u, t := S.OnWires(s.a.snd, ws), Engine.Input(s.a, p.bytes).0.snd;
    if t != u {
      var sn :| t == S.TakeFastAck(u, sn);
      FastAckTracks(u, sn, log);
    }
  }

  // Segments the peer may have written keep the direction in which they carry data.
  lemma ReceiveDir(d: Dir, c: Config, s: S.Snd, r: R.Rcv, wnd: u32, ws: seq<Wire>, tags: seq<int>)
    requires DirInv(d, c, s, r) && S.SndInv(s) && R.RcvInv(r, wnd) && wnd < 0x7fff_0000 && |tags| == |ws|
    requires forall i :: 0 <= i < |ws| && ws[i].cmd == CMD_PUSH ==>
               && 0 <= tags[i] < |d.log| && ws[i].sn == Wrap(tags[i]) && Frag(ws[i].frg, ws[i].data) == d.log[tags[i]]
               && |d.log| - tags[i] <= 0x8000_0000
    ensures var r' := R.OnWires(r, wnd, ws);
            && DirInv(d.(pend := PendAfter(r, wnd, ws, tags, d.pend)), c, s, r')
            && Retains(r, d.taken, r', d.taken)
  {
    var base := d.taken;
    LogBound(s, r, wnd, base, d.log);
    ReceiverWires(r, wnd, base, d.log, ws, tags, d.pend);
    AccountedMono(s, r, base, R.OnWires(r, wnd, ws), base, d.log);
  }

  // A delivery at `a` as seen by the direction in which `a` receives.
  lemma DeliverReceiver(s: Sys, i: nat)
    requires SysInv(s) && Legal(s, Deliver(i))
    ensures var t := Act(s, Deliver(i));
            && DirInv(t.dba, s.b.cfg, s.b.snd, t.a.rcv)
            && Retains(s.a.rcv, s.dba.taken, t.a.rcv, t.dba.taken)
  {
    var p, d := s.ba[i], s.dba;
    var ws := Parse(s.a.cfg.conv, p.bytes).segs;
    assert GoodPacket(p, s.a.cfg.conv, d.log, s.b.rcv, s.dab.taken);
    assert forall k :: 0 <= k < |ws| ==> GoodWire(ws[k], p.tags[k], p.una, d.log, s.b.rcv, s.dab.taken);
    InputParts(s.a, p.bytes);
    ReceiveDir(d, s.b.cfg, s.b.snd, s.a.rcv, s.a.cfg.rcvWnd, ws, p.tags);
  }

  lemma DeliverStep(s: Sys, i: nat)
    requires SysInv(s) && Legal(s, Deliver(i))
    ensures SysInv(Act(s, Deliver(i)))
  {
    var t := Act(s, Deliver(i));
    InputKeeps(s.a, s.ba[i].bytes, 0);
    InputParts(s.a, s.ba[i].bytes);
    DeliverSender(s, i);
    DeliverReceiver(s, i);
    PacketsMono(s.ab, s.a.cfg.conv, s.dab.log, s.a.rcv, s.dba.taken,
                s.dab.log, t.a.rcv, t.dba.taken);
  }

  lemma ActKeeps(s: Sys, act: Action)
    requires SysInv(s) && Legal(s, act)
    ensures SysInv(Act(s, act))
  {
    match act
    case Send(m) => SendStep(s, m);
    case Recv(len) => RecvStep(s, len);
    case Update(now) => UpdateStep(s, now);
    case Flush => FlushStep(s);
    case Deliver(i) => DeliverStep(s, i);
  }

  // ---- every run ----

  ghost predicate LegalMove(s: Sys, m: Move) {
    match m
    case AtA(act) => Legal(s, act)
    case AtB(act) => Legal(Swap(s), act)
  }

  function Step(s: Sys, m: Move): Sys
    requires match m case AtA(act) => Possible(s, act) case AtB(act) => Possible(Swap(s), act)
  {
    match m
    case AtA(act) => Act(s, act)
    case AtB(act) => Swap(Act(Swap(s), act))
  }

  // A run is a sequence of states, each reached from the previous one by a legal step.
  ghost predicate IsRun(states: seq<Sys>, moves: seq<Move>, cfgA: Config, cfgB: Config) {
    && |states| == |moves| + 1
    && states[0] == Start(cfgA, cfgB)
    && (forall i {:trigger moves[i]} :: 0 <= i < |moves| ==>
          LegalMove(states[i], moves[i]) && states[i + 1] == Step(states[i], moves[i]))
  }

  ghost predicate Compatible(cfgA: Config, cfgB: Config) {
    && ConfigOk(cfgA) && ConfigOk(cfgB) && cfgA.conv == cfgB.conv
    && cfgA.rcvWnd < 0x7fff_0000 && cfgB.rcvWnd < 0x7fff_0000
  }

  lemma StartDir(c: Config)
    requires 24 < c.mtu
    ensures DirInv(Dir([], 0, [], [], []), c, S.Snd(0, 0, [], []), R.Rcv(0, [], [], []))
  {
    assert AllFrags([], c.Mss()) == [];
  }

  lemma StartInv(cfgA: Config, cfgB: Config)
    requires Compatible(cfgA, cfgB)
    ensures SysInv(Start(cfgA, cfgB))
  {
    CreateInv(cfgA);
    CreateInv(cfgB);
    StartDir(cfgA);
    StartDir(cfgB);
  }

  lemma StepInv(s: Sys, m: Move)
    requires SysInv(s) && LegalMove(s, m)
    ensures SysInv(Step(s, m))
  {
    match m
    case AtA(act) => ActKeeps(s, act);
    case AtB(act) =>
      SwapKeeps(s);
      ActKeeps(Swap(s), act);
      SwapKeeps(Act(Swap(s), act));
  }

  lemma {:induction false} RunInv(states: seq<Sys>, moves: seq<Move>, cfgA: Config, cfgB: Config, n: nat)
    requires Compatible(cfgA, cfgB) && IsRun(states, moves, cfgA, cfgB) && n < |states|
    ensures SysInv(states[n])
  {
    if n == 0 {
      StartInv(cfgA, cfgB);
    } else {
      RunInv(states, moves, cfgA, cfgB, n - 1);
      StepInv(states[n - 1], moves[n - 1]);
    }
  }

  lemma BytesInOrder(d: Dir, c: Config, s: S.Snd, r: R.Rcv)
    requires DirInv(d, c, s, r)
    ensures JoinBytes(d.got) <= JoinBytes(d.sent)
  {
    if c.stream {
      var all := d.log + FragsOf(s.queue);
      assert all == all[..d.taken] + all[d.taken..];
      JoinConcat(all[..d.taken], all[d.taken..]);
    } else {
      assert d.sent == d.got + d.sent[|d.got|..];
      JoinBytesConcat(d.got, d.sent[|d.got|..]);
    }
  }

  // Whatever the network loses, repeats or reorders, in every state of every run the bytes each
  // application has received are a prefix of the bytes accepted from the other one; and when the
  // sender is in message mode, so are the messages: in order, complete, once, byte for byte, with
  // their boundaries.
  lemma DeliveredInOrder(states: seq<Sys>, moves: seq<Move>, cfgA: Config, cfgB: Config, n: nat)
    requires Compatible(cfgA, cfgB) && IsRun(states, moves, cfgA, cfgB) && n < |states|
    ensures JoinBytes(states[n].dab.got) <= JoinBytes(states[n].dab.sent)
    ensures JoinBytes(states[n].dba.got) <= JoinBytes(states[n].dba.sent)
    ensures !cfgA.stream ==> states[n].dab.got <= states[n].dab.sent
    ensures !cfgB.stream ==> states[n].dba.got <= states[n].dba.sent
  {
    RunInv(states, moves, cfgA, cfgB, n);
    RunConfig(states, moves, cfgA, cfgB, n);
    var s := states[n];
    BytesInOrder(s.dab, s.a.cfg, s.a.snd, s.b.rcv);
    BytesInOrder(s.dba, s.b.cfg, s.b.snd, s.a.rcv);
  }

  // What a datagram acknowledges, by its record: every ACK in it is the serial number of the very
  // fragment its tag names, which the receiver holds, and its `una` stands for a position the
  // receiver has reached.
  ghost predicate AcksHeld(p: Packet, conv: u32, r: R.Rcv, base: nat) {
    var ws := Parse(conv, p.bytes).segs;
    && |p.tags| == |ws| && p.una <= Total(base, r)
    && (forall i :: 0 <= i < |ws| ==>
          && ws[i].una == Wrap(p.una)
          && (ws[i].cmd == CMD_ACK ==> 0 <= p.tags[i] && ws[i].sn == Wrap(p.tags[i]) && Holds(r, base, p.tags[i])))
  }

  // One direction: whatever the sender has numbered and no longer keeps is held by the receiver;
  // so is whatever a pending acknowledgement or a datagram on the way back acknowledges.
  ghost predicate Acknowledged(d: Dir, s: S.Snd, r: R.Rcv, back: seq<Packet>, conv: u32) {
    && (forall i: nat :: i < |d.log| && !Outstanding(s, d.log, i) ==> Holds(r, d.taken, i))
    && Pending(d.pend, r, d.taken)
    && (forall p :: p in back ==> AcksHeld(p, conv, r, d.taken))
  }

  lemma DirAcknowledged(d: Dir, c: Config, s: S.Snd, r: R.Rcv, back: seq<Packet>, conv: u32, log: seq<Frag>)
    requires DirInv(d, c, s, r) && forall p :: p in back ==> GoodPacket(p, conv, log, r, d.taken)
    ensures Acknowledged(d, s, r, back, conv)
  {
    forall p | p in back ensures AcksHeld(p, conv, r, d.taken) {
      var ws := Parse(conv, p.bytes).segs;
      assert forall i :: 0 <= i < |ws| ==> GoodWire(ws[i], p.tags[i], p.una, log, r, d.taken);
    }
  }

  // Nothing is given up before it is safe, in both directions, however often the serial numbers
  // have wrapped around.
  lemma AcknowledgedIsHeld(states: seq<Sys>, moves: seq<Move>, cfgA: Config, cfgB: Config, n: nat)
    requires Compatible(cfgA, cfgB) && IsRun(states, moves, cfgA, cfgB) && n < |states|
    ensures var s := states[n];
            && Acknowledged(s.dab, s.a.snd, s.b.rcv, s.ba, cfgB.conv)
            && Acknowledged(s.dba, s.b.snd, s.a.rcv, s.ab, cfgA.conv)
  {
    RunInv(states, moves, cfgA, cfgB, n);
    RunConfig(states, moves, cfgA, cfgB, n);
    var s := states[n];
    DirAcknowledged(s.dab, s.a.cfg, s.a.snd, s.b.rcv, s.ba, cfgB.conv, s.dba.log);
    DirAcknowledged(s.dba, s.b.cfg, s.b.snd, s.a.rcv, s.ab, cfgA.conv, s.dab.log);
  }

  lemma ActConfig(s: Sys, act: Action)
    requires Possible(s, act)
    ensures Act(s, act).a.cfg == s.a.cfg && Act(s, act).b == s.b
  {
    if act.Deliver? { InputParts(s.a, s.ba[act.i].bytes); }
  }

  lemma StepConfig(s: Sys, m: Move)
    requires LegalMove(s, m)
    ensures Step(s, m).a.cfg == s.a.cfg && Step(s, m).b.cfg == s.b.cfg
  {
    match m
    case AtA(act) => ActConfig(s, act);
    case AtB(act) => ActConfig(Swap(s), act);
  }

  lemma {:induction false} RunConfig(states: seq<Sys>, moves: seq<Move>, cfgA: Config, cfgB: Config, n: nat)
    requires Compatible(cfgA, cfgB) && IsRun(states, moves, cfgA, cfgB) && n < |states|
    ensures states[n].a.cfg == cfgA && states[n].b.cfg == cfgB
  {
    if n > 0 {
      RunConfig(states, moves, cfgA, cfgB, n - 1);
      StepConfig(states[n - 1], moves[n - 1]);
    }
  }

  // A queue as long as the least window holds a complete message: in message mode a message has
  // at most 127 fragments, because a longer one is refused; in stream mode every fragment is one.
  lemma FullIsReadable(d: Dir, c: Config, s: S.Snd, r: R.Rcv)
    requires DirInv(d, c, s, r) && |r.queue| >= 128 && Short(d.sent, c)
    ensures PeekSize(FragsOf(r.queue)) >= 0
  {
    if c.stream {
      QueueIsLog(d, c, s, r, 1);
      var all := d.log + FragsOf(s.queue);
      assert FragsOf(r.queue)[0] == FragsOf(r.queue)[..1][0] == all[d.taken];
      assert all[d.taken] in all;
    } else {
      QueueStart(d, c, s, r);
      var m := d.sent[|d.got|];
      assert m in d.sent;
      MergeRestores(FragsOf(r.queue), m, c.Mss(), AllFrags(d.sent[|d.got| + 1..], c.Mss()));
    }
  }

  ghost predicate Short(sent: seq<Bytes>, c: Config)
    requires 24 < c.mtu
  {
    c.stream || forall m :: m in sent ==> |MessageFrags(m, c.Mss())| < 128
  }

  lemma ActShort(s: Sys, act: Action)
    requires Possible(s, act)
    requires Short(s.dab.sent, s.a.cfg) && Short(s.dba.sent, s.b.cfg)
    ensures Short(Act(s, act).dab.sent, s.a.cfg) && Short(Act(s, act).dba.sent, s.b.cfg)
  {
    match act
    case Send(m) =>
    case Recv(len) =>
    case Update(now) =>
    case Flush =>
    case Deliver(i) =>
  }

  lemma StepShort(s: Sys, m: Move)
    requires LegalMove(s, m) && 24 < s.a.cfg.mtu && 24 < s.b.cfg.mtu
    requires Short(s.dab.sent, s.a.cfg) && Short(s.dba.sent, s.b.cfg)
    ensures Short(Step(s, m).dab.sent, s.a.cfg) && Short(Step(s, m).dba.sent, s.b.cfg)
  {
    match m
    case AtA(act) => ActShort(s, act);
    case AtB(act) => ActShort(Swap(s), act);
  }

  lemma {:induction false} RunShort(states: seq<Sys>, moves: seq<Move>, cfgA: Config, cfgB: Config, n: nat)
    requires Compatible(cfgA, cfgB) && IsRun(states, moves, cfgA, cfgB) && n < |states|
    ensures Short(states[n].dab.sent, cfgA) && Short(states[n].dba.sent, cfgB)
  {
    if n > 0 {
      RunShort(states, moves, cfgA, cfgB, n - 1);
      RunConfig(states, moves, cfgA, cfgB, n - 1);
      StepShort(states[n - 1], moves[n - 1]);
    }
  }

  // The receive queue starts on a message boundary: in message mode it continues with the first
  // fragment of the next message to be read, in stream mode every fragment is a message.
  ghost predicate OnBoundary(d: Dir, c: Config, queue: seq<Segment>)
    requires 24 < c.mtu
  {
    queue != [] ==>
      if c.stream then forall f :: f in FragsOf(queue) ==> f.frg == 0
      else |d.got| < |d.sent| &&
           FragsOf(queue) <= MessageFrags(d.sent[|d.got|], c.Mss()) + AllFrags(d.sent[|d.got| + 1..], c.Mss())
  }

  lemma DirOnBoundary(d: Dir, c: Config, s: S.Snd, r: R.Rcv)
    requires DirInv(d, c, s, r)
    ensures OnBoundary(d, c, r.queue)
  {
    if c.stream {
      QueueIsLog(d, c, s, r, |r.queue|);
      var all, fs := d.log + FragsOf(s.queue), FragsOf(r.queue);
      forall i | 0 <= i < |fs| ensures fs[i].frg == 0 {
        assert fs[i] == fs[..|r.queue|][i] == all[d.taken + i];
        assert all[d.taken + i] in all;
      }
    } else if r.queue != [] {
      QueueStart(d, c, s, r);
    }
  }

  // A receive queue always starts on a message boundary, and a full one holds a complete message,
  // so reading can always make room.
  lemma NoReceiveDeadlock(states: seq<Sys>, moves: seq<Move>, cfgA: Config, cfgB: Config, n: nat)
    requires Compatible(cfgA, cfgB) && IsRun(states, moves, cfgA, cfgB) && n < |states|
    ensures var s := states[n];
            && OnBoundary(s.dab, cfgA, s.b.rcv.queue)
            && OnBoundary(s.dba, cfgB, s.a.rcv.queue)
            && (|s.b.rcv.queue| >= cfgB.rcvWnd ==> PeekSize(FragsOf(s.b.rcv.queue)) >= 0)
            && (|s.a.rcv.queue| >= cfgA.rcvWnd ==> PeekSize(FragsOf(s.a.rcv.queue)) >= 0)
  {
    RunInv(states, moves, cfgA, cfgB, n);
    RunConfig(states, moves, cfgA, cfgB, n);
    RunShort(states, moves, cfgA, cfgB, n);
    var s := states[n];
    DirOnBoundary(s.dab, cfgA, s.a.snd, s.b.rcv);
    DirOnBoundary(s.dba, cfgB, s.b.snd, s.a.rcv);
    if |s.b.rcv.queue| >= cfgB.rcvWnd { FullIsReadable(s.dab, cfgA, s.a.snd, s.b.rcv); }
    if |s.a.rcv.queue| >= cfgA.rcvWnd { FullIsReadable(s.dba, cfgB, s.b.snd, s.a.rcv); }
  }

  // What a read with a buffer of |len| bytes answers.  In message mode the next message in line is
  // the first one sent and not yet received; in stream mode it is the next segment.
  ghost predicate Answers(d: Dir, c: Config, r: R.Rcv, wnd: u32, len: int)
    requires 24 < c.mtu
  {
    var x, room := R.Recv(r, wnd, len), if len < 0 then -len else len;
    if r.queue == [] then x == R.Received(r, -1, [], false)
    else if !c.stream && |d.got| >= |d.sent| then false
    else
      var m := if c.stream then r.queue[0].data else d.sent[|d.got|];
      if !c.stream && |r.queue| < Count(|m|, c.Mss()) then x == R.Received(r, -2, [], false)
      else if |m| > room then x == R.Received(r, -3, [], false)
      else x.code == |m| && x.bytes == m
  }

  lemma DirAnswers(d: Dir, c: Config, s: S.Snd, r: R.Rcv, wnd: u32, len: int)
    requires DirInv(d, c, s, r)
    ensures Answers(d, c, r, wnd, len)
  {
    DirOnBoundary(d, c, s, r);
    if r.queue != [] {
      if c.stream {
        assert FragsOf(r.queue)[0] in FragsOf(r.queue);
        R.RecvIs(r, wnd, len, 1);
        JoinLast([], r.queue[0]);
        assert r.queue[..1] == [] + [r.queue[0]];
      } else {
        var n := |d.got|;
        R.RecvMessage(r, wnd, len, d.sent[n], c.Mss(), AllFrags(d.sent[n + 1..], c.Mss()));
      }
    }
  }

  // In every state of every run a read is answered by the next message in line: -1 when nothing is
  // queued, -2 while a fragment of it is missing, -3 when it is longer than the buffer, and
  // otherwise, the exact fit included, its bytes and their number.
  lemma ReadsAnswered(states: seq<Sys>, moves: seq<Move>, cfgA: Config, cfgB: Config, n: nat, len: int)
    requires Compatible(cfgA, cfgB) && IsRun(states, moves, cfgA, cfgB) && n < |states|
    ensures var s := states[n];
            && Answers(s.dab, cfgA, s.b.rcv, cfgB.rcvWnd, len)
            && Answers(s.dba, cfgB, s.a.rcv, cfgA.rcvWnd, len)
  {
    RunInv(states, moves, cfgA, cfgB, n);
    RunConfig(states, moves, cfgA, cfgB, n);
    var s := states[n];
    DirAnswers(s.dab, cfgA, s.a.snd, s.b.rcv, cfgB.rcvWnd, len);
    DirAnswers(s.dba, cfgB, s.b.snd, s.a.rcv, cfgA.rcvWnd, len);
  }
}
