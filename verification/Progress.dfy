/** Progress of a conversation: when the datagrams of a flush reach the peer, and those the peer
    answers with come back, the oldest segment in flight has been acknowledged.  Anything else may
    happen in between. */
module Progress {
  import opened Words
  import opened Segments
  import opened Codec
  import opened Engine
  import opened Endpoint
  import opened Delivery
  import opened Packing
  import opened Network
  import opened Safety
  import Probe
  import Retransmit
  import Schedule
  import S = SendWindow
  import R = RecvWindow

  // The log position of `snd_una` when `top` fragments have been numbered.
  function Oldest(s: S.Snd, top: nat): int {
    S.Index(top, s.una)
  }

  lemma OldestInLog(s: S.Snd, log: seq<Frag>)
    requires S.SndInv(s) && Tracks(s, log)
    ensures 0 <= Oldest(s, |log|) <= |log|
  {
    if s.buf != [] { assert s.buf[0] in s.buf; }
  }

  // A segment of the datagram has command |cmd| and is about log position |n|.
  ghost predicate Carries(p: Packet, conv: u32, cmd: byte, n: int) {
    exists i :: 0 <= i < |p.tags| && i < |Parse(conv, p.bytes).segs|
                && p.tags[i] == n && Parse(conv, p.bytes).segs[i].cmd == cmd
  }

  lemma {:induction false} RecordCarries(conv: u32, ds: seq<Bytes>, tags: seq<int>, una: nat, i: nat) returns (q: nat)
    requires |tags| == |ParseAll(conv, ds)| && i < |tags|
    ensures q < |ds| && Carries(Record(conv, ds, tags, una)[q], conv, ParseAll(conv, ds)[i].cmd, tags[i])
  {
    var head := Parse(conv, ds[0]).segs;
    var n := |head|;
    if i < n {
      q := 0;
      assert Record(conv, ds, tags, una)[0].tags[i] == tags[i] && head[i].cmd == ParseAll(conv, ds)[i].cmd;
    } else {
      q := RecordCarries(conv, ds[1..], tags[n..], una, i - n);
      q := q + 1;
    }
  }

  // ---- a flush sends what is due, and answers what is noted ----

  // A flush from |k| sends the oldest segment it then has in flight, be it one that it has just admitted.
  ghost predicate OldestDue(k: Kcb) {
    Moved(k).buf != [] && Retransmit.Attempt(Moved(k).buf[0], FlushPolicy(k)).sent
  }

  lemma OldestKept(k: Kcb)
    requires Inv(k) && k.snd.buf != []
    ensures Moved(k).buf != [] && Moved(k).buf[0] == k.snd.buf[0]
  {
    MovedKeeps(k);
  }

  lemma OldestAdmitted(k: Kcb)
    requires Inv(k) && k.snd.buf == []
    ensures Moved(k).buf != [] <==> k.snd.queue != [] && FlushWindow(k) > 0
    ensures Moved(k).buf != [] ==> Moved(k).buf[0].xmit == 0
  {
    MovedKeeps(k);
    if S.Room(k.snd, FlushWindow(k)) > 0 {
      assert Moved(k).buf[0] == S.Admit(k.snd.queue[0], FlushStamp(k), Wrap(k.snd.nxt + 0));
    }
  }

  lemma WindowOpen(k: Kcb)
    ensures FlushWindow(k) > 0 <==> k.cfg.sndWnd > 0 && k.prober.rmt > 0 && (k.cfg.nocwnd || k.cong.cwnd > 0)
  {
  }

  lemma SentIff(k: Kcb, x: Segment)
    ensures Retransmit.Attempt(x, FlushPolicy(k)).sent <==>
              || x.xmit == 0
              || Diff(k.clock.current, x.resendts) >= 0
              || ((if k.cfg.fastresend > 0 then x.fastack >= k.cfg.fastresend else x.fastack == 0xffff_ffff)
                  && (k.cfg.fastlimit <= 0 || Int32(x.xmit) <= k.cfg.fastlimit))
  {
  }

  // When that is so: what is in flight was never sent, has timed out or is to be resent fast; or
  // nothing is in flight, something is queued, and none of the windows in force is closed.
  lemma OldestDueIff(k: Kcb)
    requires Inv(k)
    ensures k.snd.buf != [] ==>
              var x := k.snd.buf[0];
              OldestDue(k) <==>
                || x.xmit == 0
                || Diff(k.clock.current, x.resendts) >= 0
                || ((if k.cfg.fastresend > 0 then x.fastack >= k.cfg.fastresend else x.fastack == 0xffff_ffff)
                    && (k.cfg.fastlimit <= 0 || Int32(x.xmit) <= k.cfg.fastlimit))
    ensures k.snd.buf == [] ==>
              (OldestDue(k) <==>
                && k.snd.queue != []
                && k.cfg.sndWnd > 0 && k.prober.rmt > 0 && (k.cfg.nocwnd || k.cong.cwnd > 0))
  {
    if k.snd.buf != [] {
      OldestKept(k);
      SentIff(k, k.snd.buf[0]);
    } else {
      OldestAdmitted(k);
      WindowOpen(k);
      if Moved(k).buf != [] { SentIff(k, Moved(k).buf[0]); }
    }
  }

  lemma CarriesBehind(before: seq<Packet>, ps: seq<Packet>, q: nat, conv: u32, cmd: byte, n: int)
    requires q < |ps| && Carries(ps[q], conv, cmd, n)
    ensures |before| + q < |before + ps| && Carries((before + ps)[|before| + q], conv, cmd, n)
  {
    assert (before + ps)[|before| + q] == ps[q];
  }

  // A segment of datagrams put out is in one of them, behind those put out before.
  lemma PutBehind(conv: u32, ds: seq<Bytes>, tags: seq<int>, una: nat, i: nat, before: seq<Packet>) returns (q: nat)
    requires |tags| == |ParseAll(conv, ds)| && i < |tags|
    ensures var all := before + Record(conv, ds, tags, una);
            |before| <= q < |all| && Carries(all[q], conv, ParseAll(conv, ds)[i].cmd, tags[i])
  {
    q := RecordCarries(conv, ds, tags, una, i);
    CarriesBehind(before, Record(conv, ds, tags, una), q, conv, ParseAll(conv, ds)[i].cmd, tags[i]);
    q := |before| + q;
  }

  lemma FlushGrows(s: Sys)
    requires 24 < s.a.cfg.mtu && 24 < s.b.cfg.mtu && s.a.clock.updated
    ensures var tags := FlushTags(s.a, s.dab, s.dba.pend);
            FlushAt(s, s.a).ab == s.ab + Record(s.a.cfg.conv, Engine.Flush(s.a).1, tags, Total(s.dba.taken, s.a.rcv))
  {
  }

  lemma FirstSent(k: Kcb)
    requires Inv(k) && OldestDue(k)
    ensures var ws := Retransmit.SentWires(Turns(k));
            ws != [] && ws[0].sn == k.snd.una && ws[0].cmd == CMD_PUSH
  {
    MovedKeeps(k);
    var first := Moved(k).buf[0];
    assert first in Moved(k).buf;
    Retransmit.AttemptKeeps(first, FlushPolicy(k));
    assert Turns(k)[0] == Retransmit.Attempt(first, FlushPolicy(k));
  }

  lemma IndexMoves(una: u32, top: nat, more: nat)
    requires Dist(una, Wrap(top)) + more < 0x1_0000_0000
    ensures S.Index(top + more, una) == S.Index(top, una)
  {
    WrapPlus(top, more);
    DistPlus(una, Wrap(top), more);
  }

  // The number of the oldest segment stands for the same log position after the flush, and a flush
  // that has it in flight has numbered it.
  lemma SamePosition(k: Kcb, d: Dir)
    requires Inv(k) && k.snd.nxt == Wrap(|d.log|)
    ensures S.Index(|Grown(d, k)|, k.snd.una) == Oldest(k.snd, |d.log|)
    ensures OldestDue(k) ==> Oldest(k.snd, |d.log|) < |Grown(d, k)|
  {
    var room := S.Room(k.snd, FlushWindow(k));
    MovedKeeps(k);
    FlushWindowSmall(k);
    S.HeadSpan(k.snd.nxt, k.snd.buf);
    S.RoomBound(k.snd, FlushWindow(k));
    assert |Grown(d, k)| == |d.log| + room;
    IndexMoves(k.snd.una, |d.log|, room);
    WrapPlus(|d.log|, room);
  }

  // Where the first data segment of a flush stands among its segments and their tags.
  lemma FirstTag(k: Kcb, d: Dir, pend: seq<int>, i: nat)
    requires |pend| == |k.rcv.acks| && Retransmit.SentWires(Turns(k)) != []
    requires i == |pend| + |ProbeWires(k, Probe.Tick(k.prober, k.clock.current))|
    ensures |FlushTags(k, d, pend)| == |FlushWires(k)| > i
    ensures FlushWires(k)[i] == Retransmit.SentWires(Turns(k))[0]
    ensures FlushTags(k, d, pend)[i] == S.Index(|Grown(d, k)|, FlushWires(k)[i].sn)
  {
  }

  lemma FlushSends(s: Sys) returns (q: nat)
    requires SysInv(s) && s.a.clock.updated && OldestDue(s.a)
    ensures var t := FlushAt(s, s.a);
            && |s.ab| <= q < |t.ab| && Carries(t.ab[q], s.a.cfg.conv, CMD_PUSH, Oldest(s.a.snd, |s.dab.log|))
            && 0 <= Oldest(s.a.snd, |s.dab.log|) < |t.dab.log|
  {
    OldestInLog(s.a.snd, s.dab.log);
    var i := |s.dba.pend| + |ProbeWires(s.a, Probe.Tick(s.a.prober, s.a.clock.current))|;
    FirstSent(s.a);
    SamePosition(s.a, s.dab);
    FirstTag(s.a, s.dab, s.dba.pend, i);
    FlushGrows(s);
    FlushRoundTrip(s.a);
    var tags, una := FlushTags(s.a, s.dab, s.dba.pend), Total(s.dba.taken, s.a.rcv);
    q := PutBehind(s.a.cfg.conv, Engine.Flush(s.a).1, tags, una, i, s.ab);
  }

  // Where a pending acknowledgement stands among the segments of a flush and their tags.
  lemma AckTag(k: Kcb, d: Dir, pend: seq<int>, i: nat)
    requires Inv(k) && |pend| == |k.rcv.acks| && i < |pend|
    ensures |FlushTags(k, d, pend)| == |FlushWires(k)| > i
    ensures FlushWires(k)[i].cmd == CMD_ACK && FlushTags(k, d, pend)[i] == pend[i]
  {
    assert FlushWires(k)[i] == AckWires(k)[i];
  }

  lemma FlushAnswers(s: Sys, n: int) returns (q: nat)
    requires SysInv(s) && s.a.clock.updated && n in s.dba.pend
    ensures var t := FlushAt(s, s.a);
            |s.ab| <= q < |t.ab| && Carries(t.ab[q], s.a.cfg.conv, CMD_ACK, n)
  {
    var i :| 0 <= i < |s.dba.pend| && s.dba.pend[i] == n;
    AckTag(s.a, s.dab, s.dba.pend, i);
    FlushGrows(s);
    FlushRoundTrip(s.a);
    var tags, una := FlushTags(s.a, s.dab, s.dba.pend), Total(s.dba.taken, s.a.rcv);
    q := PutBehind(s.a.cfg.conv, Engine.Flush(s.a).1, tags, una, i, s.ab);
  }

  // ---- a delivery notes data, and settles what it acknowledges ----

  lemma {:induction false} PendKeeps(r: R.Rcv, wnd: u32, ws: seq<Wire>, tags: seq<int>, pend: seq<int>, n: int)
    requires n in pend
    ensures n in PendAfter(r, wnd, ws, tags, pend)
    decreases |ws|
  {
    if ws != [] && tags != [] {
      var t := R.OnWire(r, wnd, ws[0]);
      PendKeeps(t, wnd, ws[1..], tags[1..], if |t.acks| > |r.acks| then pend + [tags[0]] else pend, n);
    }
  }

  // A data segment that is not beyond the window is acknowledged, whether it is new or not.
  lemma NotedWhenReached(r: R.Rcv, wnd: u32, base: nat, log: seq<Frag>, w: Wire, n: nat)
    requires wnd < 0x7fff_0000 && R.RcvInv(r, wnd) && Stored(r, base, log) && w.cmd == CMD_PUSH && w.sn == Wrap(n)
    requires n < |log| <= n + 65535 && n < Total(base, r) + wnd
    ensures |R.OnWire(r, wnd, w).acks| > |r.acks|
  {
    Compare(Total(base, r), n);
    R.OnWireKeeps(r, wnd, w);
  }

  // The data among |ws| is what the log has at the tags.
  ghost predicate Named(ws: seq<Wire>, tags: seq<int>, log: seq<Frag>) {
    |tags| == |ws| && forall i :: 0 <= i < |ws| ==> NamedOne(ws[i], tags[i], log)
  }

  ghost predicate NamedOne(w: Wire, tag: int, log: seq<Frag>) {
    w.cmd == CMD_PUSH ==>
      0 <= tag < |log| && w.sn == Wrap(tag) && Frag(w.frg, w.data) == log[tag] && |log| - tag <= 0x8000_0000
  }

  lemma TakeOne(r: R.Rcv, wnd: u32, base: nat, log: seq<Frag>, w: Wire, tag: int)
    requires wnd < 0x7fff_0000 && R.RcvInv(r, wnd) && Stored(r, base, log)
    requires |log| <= Total(base, r) + wnd + 65535 && NamedOne(w, tag, log)
    ensures var t := R.OnWire(r, wnd, w);
            R.RcvInv(t, wnd) && Stored(t, base, log) && Total(base, r) <= Total(base, t)
  {
    R.OnWireKeeps(r, wnd, w);
    if w.cmd == CMD_PUSH { DataStored(r, wnd, base, log, w, tag); }
  }

  // Taking in segments of which one carries position |n| leaves |n| noted.
  lemma {:induction false} WiresNote(r: R.Rcv, wnd: u32, base: nat, log: seq<Frag>, ws: seq<Wire>, tags: seq<int>,
                                     pend: seq<int>, i: nat, n: nat)
    requires wnd < 0x7fff_0000 && R.RcvInv(r, wnd) && Stored(r, base, log) && Named(ws, tags, log)
    requires i < |ws| && ws[i].cmd == CMD_PUSH && tags[i] == n
    requires |log| <= Total(base, r) + wnd + 65535 && |log| <= n + 65535 && n < Total(base, r) + wnd
    ensures n in PendAfter(r, wnd, ws, tags, pend)
    decreases |ws|
  {
    var t := R.OnWire(r, wnd, ws[0]);
    var pend' := if |t.acks| > |r.acks| then pend + [tags[0]] else pend;
    if i == 0 {
      NotedWhenReached(r, wnd, base, log, ws[0], n);
      PendKeeps(t, wnd, ws[1..], tags[1..], pend', n);
    } else {
      TakeOne(r, wnd, base, log, ws[0], tags[0]);
      WiresNote(t, wnd, base, log, ws[1..], tags[1..], pend', i - 1, n);
    }
  }

  // A datagram that carries position |n|, taken in by a receiver whose window reaches it.
  lemma PacketNotes(p: Packet, conv: u32, d: Dir, r: R.Rcv, wnd: u32, theirs: R.Rcv, base: nat, n: nat)
    requires wnd < 0x7fff_0000 && R.RcvInv(r, wnd) && Stored(r, d.taken, d.log)
    requires GoodPacket(p, conv, d.log, theirs, base) && Carries(p, conv, CMD_PUSH, n)
    requires forall i :: 0 <= i < |p.tags| && Parse(conv, p.bytes).segs[i].cmd == CMD_PUSH ==>
               |d.log| - p.tags[i] <= 0x8000_0000
    requires |d.log| <= Total(d.taken, r) + wnd + 65535 && |d.log| <= n + 65535 && n < Total(d.taken, r) + wnd
    ensures n in PendAfter(r, wnd, Parse(conv, p.bytes).segs, p.tags, d.pend)
  {
    var ws := Parse(conv, p.bytes).segs;
    forall k | 0 <= k < |ws| ensures NamedOne(ws[k], p.tags[k], d.log) {
      assert GoodWire(ws[k], p.tags[k], p.una, d.log, theirs, base);
    }
    var i :| 0 <= i < |p.tags| && i < |ws| && p.tags[i] == n && ws[i].cmd == CMD_PUSH;
    WiresNote(r, wnd, d.taken, d.log, ws, p.tags, d.pend, i, n);
  }

  // A delivery at `a` of a datagram that carries position |n| of the peer's log.
  lemma DeliveryNotes(s: Sys, q: nat, n: nat)
    requires SysInv(s) && Legal(s, Deliver(q)) && Carries(s.ba[q], s.a.cfg.conv, CMD_PUSH, n)
    requires |s.dba.log| <= n + 65535 && n < Total(s.dba.taken, s.a.rcv) + s.a.cfg.rcvWnd
    ensures n in Act(s, Deliver(q)).dba.pend
  {
    LogBound(s.b.snd, s.a.rcv, s.a.cfg.rcvWnd, s.dba.taken, s.dba.log);
    assert s.ba[q] in s.ba;
    PacketNotes(s.ba[q], s.a.cfg.conv, s.dba, s.a.rcv, s.a.cfg.rcvWnd, s.b.rcv, s.dab.taken, n);
  }

  // What is in flight after a segment was in flight before.
  lemma OnlyRemoves(s: S.Snd, w: Wire, sn: u32)
    requires S.SndInv(s) && !S.CarriedBy(s.buf, sn)
    ensures !S.CarriedBy(S.OnWire(s, w).buf, sn)
  {
    var t := S.OnWire(s, w);
    RemovalOnly(s, w);
    forall i | 0 <= i < |t.buf| ensures t.buf[i].sn != sn {
      assert t.buf[i] in s.buf by { assert t.buf[i] in t.buf; }
    }
  }

  lemma {:induction false} StaysRemoved(s: S.Snd, ws: seq<Wire>, sn: u32)
    requires S.SndInv(s) && !S.CarriedBy(s.buf, sn)
    ensures !S.CarriedBy(S.OnWires(s, ws).buf, sn)
    decreases |ws|
  {
    if ws != [] {
      OnlyRemoves(s, ws[0], sn);
      S.OnWireKeeps(s, ws[0]);
      StaysRemoved(S.OnWire(s, ws[0]), ws[1..], sn);
    }
  }

  lemma {:induction false} WiresSettle(s: S.Snd, ws: seq<Wire>, i: nat)
    requires S.SndInv(s) && i < |ws| && ws[i].cmd == CMD_ACK
    ensures !S.CarriedBy(S.OnWires(s, ws).buf, ws[i].sn)
    decreases |ws|
  {
    S.OnWireKeeps(s, ws[0]);
    if i == 0 {
      var t := S.TakeUna(s, ws[0].una);
      S.DropCountIs(s.buf, ws[0].una);
      S.SuffixInFlight(s.nxt, s.buf, S.DropCount(s.buf, ws[0].una));
      S.TakeAckExact(t, ws[0].sn, ws[0].sn);
      StaysRemoved(S.OnWire(s, ws[0]), ws[1..], ws[0].sn);
    } else {
      WiresSettle(S.OnWire(s, ws[0]), ws[1..], i - 1);
    }
  }

  lemma InputOnlyRemoves(k: Kcb, data: Bytes, sn: u32)
    requires 24 < k.cfg.mtu && !S.CarriedBy(S.OnWires(k.snd, Parse(k.cfg.conv, data).segs).buf, sn)
    ensures !S.CarriedBy(Engine.Input(k, data).0.snd.buf, sn)
  {
    InputParts(k, data);
    var u, t := S.OnWires(k.snd, Parse(k.cfg.conv, data).segs), Engine.Input(k, data).0.snd;
    assert forall j :: 0 <= j < |t.buf| ==> t.buf[j].sn == u.buf[j].sn;
  }

  // A datagram that acknowledges position |n| takes its segment out of flight.
  lemma PacketSettles(k: Kcb, p: Packet, n: int, log: seq<Frag>, r: R.Rcv, base: nat)
    requires 24 < k.cfg.mtu && S.SndInv(k.snd)
    requires GoodPacket(p, k.cfg.conv, log, r, base) && Carries(p, k.cfg.conv, CMD_ACK, n)
    ensures !S.CarriedBy(Engine.Input(k, p.bytes).0.snd.buf, Wrap(n))
  {
    var ws := Parse(k.cfg.conv, p.bytes).segs;
    var i :| 0 <= i < |p.tags| && i < |ws| && p.tags[i] == n && ws[i].cmd == CMD_ACK;
    assert GoodWire(ws[i], p.tags[i], p.una, log, r, base);
    WiresSettle(k.snd, ws, i);
    InputOnlyRemoves(k, p.bytes, Wrap(n));
  }

  lemma DeliverySettles(s: Sys, q: nat, n: int)
    requires SysInv(s) && Legal(s, Deliver(q)) && Carries(s.ba[q], s.a.cfg.conv, CMD_ACK, n)
    ensures !S.CarriedBy(Act(s, Deliver(q)).a.snd.buf, Wrap(n))
  {
    assert s.ba[q] in s.ba;
    PacketSettles(s.a, s.ba[q], n, s.dba.log, s.b.rcv, s.dab.taken);
  }

  // ---- what every step keeps ----

  // Endpoint `a` flushes in this action.
  ghost predicate Flushes(s: Sys, act: Action) {
    || (act.Flush? && s.a.clock.updated)
    || (act.Update? && Schedule.Update(s.a.clock, s.a.cfg.interval, act.now).flush)
  }

  // The state it flushes from.
  function Flusher(s: Sys, act: Action): Kcb {
    if act.Update? then s.a.(clock := Schedule.Update(s.a.clock, s.a.cfg.interval, act.now).clock) else s.a
  }

  lemma FlushingAct(s: Sys, act: Action)
    requires SysInv(s) && Legal(s, act) && Flushes(s, act)
    ensures var u := s.(a := Flusher(s, act));
            SysInv(u) && u.a.clock.updated && Act(s, act) == FlushAt(u, u.a)
  {
    ClockStep(s, Flusher(s, act).clock);
  }

  // What is noted stays noted until a flush answers it.
  lemma ActAnswers(s: Sys, act: Action, n: int)
    requires SysInv(s) && Legal(s, act) && n in s.dba.pend
    ensures var t := Act(s, act);
            || (n in t.dba.pend && !Flushes(s, act))
            || (exists q :: |s.ab| <= q < |t.ab| && Carries(t.ab[q], s.a.cfg.conv, CMD_ACK, n))
  {
    if Flushes(s, act) {
      FlushingAct(s, act);
      var q := FlushAnswers(s.(a := Flusher(s, act)), n);
    } else if act.Deliver? {
      var p := s.ba[act.i];
      PendKeeps(s.a.rcv, s.a.cfg.rcvWnd, Parse(s.a.cfg.conv, p.bytes).segs, p.tags, s.dba.pend, n);
    }
  }

  lemma ActKeepsPackets(s: Sys, act: Action)
    requires Legal(s, act)
    ensures s.ab <= Act(s, act).ab && Act(s, act).ba == s.ba
    ensures Act(s, act).dab.pend == s.dab.pend && Act(s, act).dba.log == s.dba.log && Act(s, act).b == s.b
  {
  }

  // The left edge of the window, counted from the first fragment on, never goes back.
  lemma ActOldest(s: Sys, act: Action)
    requires SysInv(s) && Legal(s, act)
    ensures Oldest(s.a.snd, |s.dab.log|) <= Oldest(Act(s, act).a.snd, |Act(s, act).dab.log|)
  {
    if Flushes(s, act) {
      FlushingAct(s, act);
      FlushOldest(Flusher(s, act), s.dab);
    } else if act.Deliver? {
      InputUna(s.a, s.ba[act.i].bytes);
      InputKeeps(s.a, s.ba[act.i].bytes, 0);
      SpanOldest(s.a.snd, Engine.Input(s.a, s.ba[act.i].bytes).0.snd, |s.dab.log|);
    }
  }

  lemma SpanOldest(s: S.Snd, t: S.Snd, top: nat)
    requires S.SndInv(s) && S.SndInv(t) && s.nxt == t.nxt == Wrap(top) && Diff(t.una, s.una) >= 0
    ensures Oldest(s, top) <= Oldest(t, top)
  {
    S.HeadSpan(s.nxt, s.buf);
    S.HeadSpan(t.nxt, t.buf);
  }

  lemma FlushOldest(k: Kcb, d: Dir)
    requires Inv(k) && k.clock.updated && k.snd.nxt == Wrap(|d.log|)
    ensures Oldest(k.snd, |d.log|) == Oldest(Engine.Flush(k).0.snd, |Grown(d, k)|)
  {
    SamePosition(k, d);
    assert Engine.Flush(k).0.snd.una == k.snd.una;
  }

  // Nothing in flight is older.
  lemma NothingOlder(s: S.Snd, log: seq<Frag>, n: nat)
    requires S.SndInv(s) && s.nxt == Wrap(|log|) && Outstanding(s, log, n)
    ensures Oldest(s, |log|) <= n
  {
    var x :| x in s.buf && S.Index(|log|, x.sn) == n;
    var i :| 0 <= i < |s.buf| && s.buf[i] == x;
    assert Dist(x.sn, s.nxt) <= Dist(s.buf[0].sn, s.nxt);
  }

  // What a receiver with room waits for is not in its buffer.
  lemma NextNotHeld(r: R.Rcv, wnd: u32, base: nat)
    requires R.RcvInv(r, wnd) && |r.queue| < wnd
    ensures !Holds(r, base, Total(base, r))
  {
    forall x | x in r.buf ensures Dist(r.nxt, x.sn) > 0 {
      var i :| 0 <= i < |r.buf| && r.buf[i] == x;
      assert Dist(r.nxt, r.buf[0].sn) <= Dist(r.nxt, x.sn);
    }
  }

  // Unless the receiver's queue is full, the oldest segment in flight is not beyond its window.
  lemma OldestInReach(d: Dir, c: Config, s: S.Snd, r: R.Rcv, wnd: u32)
    requires DirInv(d, c, s, r) && S.SndInv(s) && R.RcvInv(r, wnd) && |r.queue| < wnd
    ensures Oldest(s, |d.log|) <= Total(d.taken, r)
  {
    NextNotHeld(r, wnd, d.taken);
    if Total(d.taken, r) < |d.log| { NothingOlder(s, d.log, Total(d.taken, r)); }
  }

  // When its number is gone, the left edge has passed a position it had reached.
  lemma PastSettled(s: S.Snd, log: seq<Frag>, n: nat)
    requires S.SndInv(s) && s.nxt == Wrap(|log|) && !S.CarriedBy(s.buf, Wrap(n))
    requires n <= Oldest(s, |log|) && n < |log|
    ensures n < Oldest(s, |log|)
  {
    WrapBack(|log|, s.una);
    if s.buf != [] { assert s.buf[0].sn != Wrap(n); }
  }

  // ---- both sides, and runs ----

  lemma StepKeepsPackets(s: Sys, m: Move)
    requires LegalMove(s, m)
    ensures s.ab <= Safety.Step(s, m).ab && s.ba <= Safety.Step(s, m).ba
  {
    match m
    case AtA(act) => ActKeepsPackets(s, act);
    case AtB(act) => ActKeepsPackets(Swap(s), act);
  }

  lemma StepOldest(s: Sys, m: Move)
    requires SysInv(s) && LegalMove(s, m)
    ensures Oldest(s.a.snd, |s.dab.log|) <= Oldest(Safety.Step(s, m).a.snd, |Safety.Step(s, m).dab.log|)
  {
    match m
    case AtA(act) => ActOldest(s, act);
    case AtB(act) => ActKeepsPackets(Swap(s), act);
  }

  lemma StepLog(s: Sys, m: Move)
    requires SysInv(s) && LegalMove(s, m)
    ensures |s.dab.log| <= |Safety.Step(s, m).dab.log|
  {
    match m
    case AtA(act) =>
    case AtB(act) => ActKeepsPackets(Swap(s), act);
  }

  // Position |n| of a's log is noted at `b`, or `b` has put out its acknowledgement, as datagram |from| or later.
  ghost predicate Answering(s: Sys, n: int, from: nat) {
    n in s.dab.pend || exists q :: from <= q < |s.ba| && Carries(s.ba[q], s.a.cfg.conv, CMD_ACK, n)
  }

  lemma StepAnswers(s: Sys, m: Move, n: int, from: nat)
    requires SysInv(s) && LegalMove(s, m) && Answering(s, n, from) && from <= |s.ba|
    ensures Answering(Safety.Step(s, m), n, from)
    ensures var ba := Safety.Step(s, m).ba;
            m.AtB? && Flushes(Swap(s), m.act) ==>
              exists q :: from <= q < |ba| && Carries(ba[q], s.a.cfg.conv, CMD_ACK, n)
  {
    var t := Safety.Step(s, m);
    StepKeepsPackets(s, m);
    StepConfig(s, m);
    if q :| from <= q < |s.ba| && Carries(s.ba[q], s.a.cfg.conv, CMD_ACK, n) {
      assert t.ba[q] == s.ba[q];
    } else {
      match m
      case AtA(act) => ActKeepsPackets(s, act);
      case AtB(act) =>
        SwapKeeps(s);
        ActAnswers(Swap(s), act, n);
    }
  }

  /** A run: the states, the moves between them and the two configurations. */
  datatype Trace = Trace(states: seq<Sys>, moves: seq<Move>, cfgA: Config, cfgB: Config)
  {
    ghost predicate Valid() {
      Compatible(cfgA, cfgB) && IsRun(states, moves, cfgA, cfgB)
    }

    // The left edge of a's window in state |n|.
    function Edge(n: nat): int
      requires n < |states|
    {
      Oldest(states[n].a.snd, |states[n].dab.log|)
    }
  }

  // What was put out stays in the network, the log only grows, the left edge never goes back.
  ghost predicate Onward(s: Sys, u: Sys) {
    && s.ab <= u.ab && s.ba <= u.ba && |s.dab.log| <= |u.dab.log|
    && Oldest(s.a.snd, |s.dab.log|) <= Oldest(u.a.snd, |u.dab.log|)
  }

  lemma NextOnward(t: Trace, j: nat)
    requires t.Valid() && j < |t.moves|
    ensures Onward(t.states[j], t.states[j + 1])
  {
    RunInv(t.states, t.moves, t.cfgA, t.cfgB, j);
    StepKeepsPackets(t.states[j], t.moves[j]);
    StepLog(t.states[j], t.moves[j]);
    StepOldest(t.states[j], t.moves[j]);
  }

  lemma {:induction false} RunOnward(t: Trace, i: nat, j: nat)
    requires t.Valid() && i <= j < |t.states|
    ensures Onward(t.states[i], t.states[j])
    decreases j
  {
    if i < j {
      RunOnward(t, i, j - 1);
      NextOnward(t, j - 1);
    }
  }

  // A datagram stays where it is.
  lemma StillThere(t: Trace, i: nat, j: nat, q: nat)
    requires t.Valid() && i < |t.states| && j < |t.states|
    ensures q < |t.states[i].ab| && q < |t.states[j].ab| ==> t.states[j].ab[q] == t.states[i].ab[q]
    ensures q < |t.states[i].ba| && q < |t.states[j].ba| ==> t.states[j].ba[q] == t.states[i].ba[q]
  {
    if i <= j { RunOnward(t, i, j); } else { RunOnward(t, j, i); }
  }

  lemma NextAnswers(t: Trace, j: nat, n: int, from: nat)
    requires t.Valid() && j < |t.moves| && from <= |t.states[j].ba| && Answering(t.states[j], n, from)
    ensures Answering(t.states[j + 1], n, from)
  {
    RunInv(t.states, t.moves, t.cfgA, t.cfgB, j);
    StepAnswers(t.states[j], t.moves[j], n, from);
  }

  lemma {:induction false} RunAnswers(t: Trace, i: nat, j: nat, n: int, from: nat)
    requires t.Valid() && i <= j < |t.states| && from <= |t.states[i].ba| && Answering(t.states[i], n, from)
    ensures Answering(t.states[j], n, from)
    decreases j
  {
    if i < j {
      RunAnswers(t, i, j - 1, n, from);
      RunOnward(t, i, j - 1);
      NextAnswers(t, j - 1, n, from);
    }
  }

  // Datagram |q| of `a` is delivered to `b`, whose queue then has room, after move |after| and before move |to|.
  ghost predicate ReachesB(t: Trace, q: nat, after: nat, to: nat)
    requires t.Valid()
  {
    exists j {:trigger t.moves[j]} :: after < j < to && j < |t.moves| && t.moves[j] == AtB(Deliver(q))
                                      && |t.states[j].b.rcv.queue| < t.cfgB.rcvWnd
  }

  ghost predicate ReachesA(t: Trace, q: nat, after: nat, to: nat)
    requires t.Valid()
  {
    exists j {:trigger t.moves[j]} :: after < j < to && j < |t.moves| && t.moves[j] == AtA(Deliver(q))
  }

  // In move |i| `a` flushes with its oldest segment due; where that is put out it reaches `b`, which
  // flushes in move |k|; and where `b` acknowledges it from |i| on, that reaches `a` before move |l|.
  ghost predicate FairRound(t: Trace, i: nat, k: nat, l: nat)
    requires t.Valid()
  {
    && i < k < l <= |t.moves|
    && t.moves[i].AtA? && Flushes(t.states[i], t.moves[i].act) && OldestDue(Flusher(t.states[i], t.moves[i].act))
    && t.moves[k].AtB? && Flushes(Swap(t.states[k]), t.moves[k].act)
    && (forall q: nat | |t.states[i].ab| <= q < |t.states[i + 1].ab| ::
          Carries(t.states[i + 1].ab[q], t.cfgA.conv, CMD_PUSH, t.Edge(i)) ==> ReachesB(t, q, i, k))
    && (forall q: nat | |t.states[i].ba| <= q < |t.states[k + 1].ba| ::
          Carries(t.states[k + 1].ba[q], t.cfgA.conv, CMD_ACK, t.Edge(i)) ==> ReachesA(t, q, i, l))
  }

  // What a flush sends, in the run.
  lemma RoundSends(t: Trace, i: nat) returns (q: nat)
    requires t.Valid() && i < |t.moves| && t.moves[i].AtA?
    requires Flushes(t.states[i], t.moves[i].act) && OldestDue(Flusher(t.states[i], t.moves[i].act))
    ensures |t.states[i].ab| <= q < |t.states[i + 1].ab|
    ensures Carries(t.states[i + 1].ab[q], t.cfgA.conv, CMD_PUSH, t.Edge(i))
    ensures 0 <= t.Edge(i) < |t.states[i + 1].dab.log|
  {
    var s, act := t.states[i], t.moves[i].act;
    RunInv(t.states, t.moves, t.cfgA, t.cfgB, i);
    RunConfig(t.states, t.moves, t.cfgA, t.cfgB, i);
    FlushingAct(s, act);
    q := FlushSends(s.(a := Flusher(s, act)));
  }

  // When it reaches `b`, it is noted there, or it was past already.
  lemma RoundNotes(t: Trace, j: nat, q: nat, n: nat)
    requires t.Valid() && j < |t.moves| && t.moves[j] == AtB(Deliver(q))
    requires Carries(t.states[j].ab[q], t.cfgA.conv, CMD_PUSH, n)
    requires |t.states[j].b.rcv.queue| < t.cfgB.rcvWnd && n == t.Edge(j)
    ensures n in t.states[j + 1].dab.pend
  {
    var s := t.states[j];
    RunInv(t.states, t.moves, t.cfgA, t.cfgB, j);
    RunConfig(t.states, t.moves, t.cfgA, t.cfgB, j);
    OldestInReach(s.dab, s.a.cfg, s.a.snd, s.b.rcv, s.b.cfg.rcvWnd);
    S.HeadSpan(s.a.snd.nxt, s.a.snd.buf);
    SwapKeeps(s);
    DeliveryNotes(Swap(s), q, n);
  }

  // When its acknowledgement reaches `a`, the edge is past it.
  lemma RoundSettles(t: Trace, j: nat, q: nat, n: nat)
    requires t.Valid() && j < |t.moves| && t.moves[j] == AtA(Deliver(q))
    requires Carries(t.states[j].ba[q], t.cfgA.conv, CMD_ACK, n)
    requires n <= t.Edge(j) && n < |t.states[j].dab.log|
    ensures n < t.Edge(j + 1)
  {
    var s := t.states[j];
    RunInv(t.states, t.moves, t.cfgA, t.cfgB, j);
    RunInv(t.states, t.moves, t.cfgA, t.cfgB, j + 1);
    RunConfig(t.states, t.moves, t.cfgA, t.cfgB, j);
    NextOnward(t, j);
    DeliverySettles(s, q, n);
    PastSettled(t.states[j + 1].a.snd, t.states[j + 1].dab.log, n);
  }

  lemma ArrivesThere(t: Trace, i: nat, j: nat, q: nat, n: nat)
    requires t.Valid() && i < j < |t.moves| && n == t.Edge(i)
    requires t.moves[j] == AtB(Deliver(q)) && |t.states[j].b.rcv.queue| < t.cfgB.rcvWnd
    requires q < |t.states[i + 1].ab| && Carries(t.states[i + 1].ab[q], t.cfgA.conv, CMD_PUSH, n)
    ensures n <= t.Edge(j) && |t.states[i].ba| <= |t.states[j + 1].ba|
    ensures n == t.Edge(j) ==> Answering(t.states[j + 1], n, |t.states[i].ba|)
  {
    StillThere(t, i + 1, j, q);
    RunOnward(t, i, j);
    RunOnward(t, i, j + 1);
    if n == t.Edge(j) { RoundNotes(t, j, q, n); }
  }

  lemma SomewhereThere(t: Trace, i: nat, k: nat, q: nat, n: nat) returns (j: nat)
    requires t.Valid() && i < k < |t.states| && n == t.Edge(i) && ReachesB(t, q, i, k)
    requires q < |t.states[i + 1].ab| && Carries(t.states[i + 1].ab[q], t.cfgA.conv, CMD_PUSH, n)
    ensures i < j < k && n <= t.Edge(j) && |t.states[i].ba| <= |t.states[j + 1].ba|
    ensures n == t.Edge(j) ==> Answering(t.states[j + 1], n, |t.states[i].ba|)
  {
    j :| i < j < k && t.moves[j] == AtB(Deliver(q)) && |t.states[j].b.rcv.queue| < t.cfgB.rcvWnd;
    ArrivesThere(t, i, j, q, n);
  }

  // The way there: by the time of move |k|, `b` has noted position |n| or answered it, or the edge is past it.
  lemma WayThere(t: Trace, i: nat, k: nat, q: nat, n: nat)
    requires t.Valid() && i < k < |t.states| && n == t.Edge(i) && ReachesB(t, q, i, k)
    requires q < |t.states[i + 1].ab| && Carries(t.states[i + 1].ab[q], t.cfgA.conv, CMD_PUSH, n)
    ensures n < t.Edge(k) || Answering(t.states[k], n, |t.states[i].ba|)
  {
    var j := SomewhereThere(t, i, k, q, n);
    RunOnward(t, j, k);
    if n == t.Edge(j) { RunAnswers(t, j + 1, k, n, |t.states[i].ba|); }
  }

  // The flush of `b` answers what is still noted.
  lemma TurnsRound(t: Trace, k: nat, n: nat, from: nat) returns (q: nat)
    requires t.Valid() && k < |t.moves| && from <= |t.states[k].ba| && Answering(t.states[k], n, from)
    requires t.moves[k].AtB? && Flushes(Swap(t.states[k]), t.moves[k].act)
    ensures from <= q < |t.states[k + 1].ba| && Carries(t.states[k + 1].ba[q], t.cfgA.conv, CMD_ACK, n)
  {
    RunInv(t.states, t.moves, t.cfgA, t.cfgB, k);
    RunConfig(t.states, t.moves, t.cfgA, t.cfgB, k);
    StepAnswers(t.states[k], t.moves[k], n, from);
    q :| from <= q < |t.states[k + 1].ba| && Carries(t.states[k + 1].ba[q], t.cfgA.conv, CMD_ACK, n);
  }

  lemma ArrivesBack(t: Trace, i: nat, k: nat, m: nat, q: nat, n: nat)
    requires t.Valid() && i < m < |t.moves| && t.moves[m] == AtA(Deliver(q)) && k < |t.moves|
    requires n <= t.Edge(i) && n < |t.states[i + 1].dab.log|
    requires q < |t.states[k + 1].ba| && Carries(t.states[k + 1].ba[q], t.cfgA.conv, CMD_ACK, n)
    ensures n < t.Edge(m + 1)
  {
    RunOnward(t, i, m);
    RunOnward(t, i + 1, m);
    StillThere(t, k + 1, m, q);
    RoundSettles(t, m, q, n);
  }

  lemma SomewhereBack(t: Trace, i: nat, k: nat, l: nat, q: nat, n: nat) returns (m: nat)
    requires t.Valid() && i < l < |t.states| && k < |t.moves| && ReachesA(t, q, i, l)
    requires n <= t.Edge(i) && n < |t.states[i + 1].dab.log|
    requires q < |t.states[k + 1].ba| && Carries(t.states[k + 1].ba[q], t.cfgA.conv, CMD_ACK, n)
    ensures i < m < l && n < t.Edge(m + 1)
  {
    m :| i < m < l && t.moves[m] == AtA(Deliver(q));
    ArrivesBack(t, i, k, m, q, n);
  }

  // The way back, which may come before the flush in move |k|.
  lemma WayBack(t: Trace, i: nat, k: nat, l: nat, q: nat, n: nat)
    requires t.Valid() && i < l < |t.states| && k < |t.moves| && ReachesA(t, q, i, l)
    requires n <= t.Edge(i) && n < |t.states[i + 1].dab.log|
    requires q < |t.states[k + 1].ba| && Carries(t.states[k + 1].ba[q], t.cfgA.conv, CMD_ACK, n)
    ensures n < t.Edge(l)
  {
    var m := SomewhereBack(t, i, k, l, q, n);
    RunOnward(t, m + 1, l);
  }

  // A fair round acknowledges the oldest segment in flight, whatever else happens in it.
  lemma RoundAdvances(t: Trace, i: nat, k: nat, l: nat)
    requires t.Valid() && FairRound(t, i, k, l)
    ensures t.Edge(i) < t.Edge(l)
  {
    var n, from := t.Edge(i), |t.states[i].ba|;
    var q := RoundSends(t, i);
    assert ReachesB(t, q, i, k);
    WayThere(t, i, k, q, n);
    RunOnward(t, i, k);
    RunOnward(t, k, l);
    if n == t.Edge(k) {
      var back := TurnsRound(t, k, n, from);
      assert ReachesA(t, back, i, l);
      WayBack(t, i, k, l, back, n);
    }
  }

  // ---- round after round ----

  /** A fair round of a run: the flush of `a`, the flush of `b`, and where it ends. */
  datatype Round = Round(start: nat, turn: nat, end: nat)

  // Fair rounds one after the other, within the first |n| moves.
  ghost predicate FairRounds(t: Trace, rounds: seq<Round>, n: nat)
    requires t.Valid()
  {
    rounds == [] ||
      var last := rounds[|rounds| - 1];
      && last.end <= n && FairRound(t, last.start, last.turn, last.end)
      && FairRounds(t, rounds[..|rounds| - 1], last.start)
  }

  // Every fair round acknowledges at least one more fragment.
  lemma {:induction false} RoundsAdvance(t: Trace, rounds: seq<Round>, i: nat, n: nat)
    requires t.Valid() && i <= n < |t.states| && FairRounds(t, rounds, n)
    requires rounds != [] ==> i <= rounds[0].start
    ensures t.Edge(i) + |rounds| <= t.Edge(n)
    decreases |rounds|
  {
    if rounds == [] {
      RunOnward(t, i, n);
    } else {
      var front, last := rounds[..|rounds| - 1], rounds[|rounds| - 1];
      StartsFirst(t, rounds, n);
      RoundsAdvance(t, front, i, last.start);
      RoundAdvances(t, last.start, last.turn, last.end);
      RunOnward(t, last.end, n);
    }
  }

  lemma {:induction false} StartsFirst(t: Trace, rounds: seq<Round>, n: nat)
    requires t.Valid() && rounds != [] && FairRounds(t, rounds, n)
    ensures rounds[0].start <= rounds[|rounds| - 1].start < n
    decreases |rounds|
  {
    if |rounds| > 1 { StartsFirst(t, rounds[..|rounds| - 1], rounds[|rounds| - 1].start); }
  }

  // What lies behind the left edge has arrived.
  lemma BehindEdgeHeld(t: Trace, n: nat, m: nat)
    requires t.Valid() && n < |t.states| && m < t.Edge(n)
    ensures m < |t.states[n].dab.log| && Holds(t.states[n].b.rcv, t.states[n].dab.taken, m)
  {
    var s := t.states[n];
    RunInv(t.states, t.moves, t.cfgA, t.cfgB, n);
    OldestInLog(s.a.snd, s.dab.log);
    if Outstanding(s.a.snd, s.dab.log, m) { NothingOlder(s.a.snd, s.dab.log, m); }
  }

  // After as many fair rounds as `a` has fragments queued and in flight, `b` holds them all.
  lemma EverythingArrives(t: Trace, rounds: seq<Round>, i: nat, n: nat)
    requires t.Valid() && i <= n < |t.states| && FairRounds(t, rounds, n)
    requires rounds != [] ==> i <= rounds[0].start
    requires |rounds| >= |t.states[i].dab.log| + |t.states[i].a.snd.queue| - t.Edge(i)
    ensures forall m: nat :: m < |t.states[i].dab.log| + |t.states[i].a.snd.queue| ==>
              m < |t.states[n].dab.log| && Holds(t.states[n].b.rcv, t.states[n].dab.taken, m)
  {
    RoundsAdvance(t, rounds, i, n);
    forall m: nat | m < |t.states[i].dab.log| + |t.states[i].a.snd.queue|
      ensures m < |t.states[n].dab.log| && Holds(t.states[n].b.rcv, t.states[n].dab.taken, m)
    {
      BehindEdgeHeld(t, n, m);
    }
  }
}
