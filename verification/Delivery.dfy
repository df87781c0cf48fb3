/** One direction of a conversation: the log of all fragments the sender ever numbered, against
    what its window still holds and what the receiver has stored.  Serial numbers on the wire are
    log positions modulo 2^32. */
module Delivery {
  import opened Words
  import opened Segments
  import S = SendWindow
  import R = RecvWindow

  // ---- the receiver against the log ----

  function Total(base: nat, r: R.Rcv): nat {
    base + |r.queue|
  }

  // `base` fragments have been handed to the application; the queue continues the log from there
  // and everything buffered is the log entry its serial number names.
  ghost predicate Stored(r: R.Rcv, base: nat, log: seq<Frag>) {
    && Total(base, r) <= |log|
    && r.nxt == Wrap(Total(base, r))
    && FragsOf(r.queue) == log[base..Total(base, r)]
    && (forall s :: s in r.buf ==> Matches(s, R.IndexFrom(Total(base, r), r.nxt, s.sn), log))
  }

  predicate Matches(s: Segment, n: int, log: seq<Frag>) {
    0 <= n < |log| && FragOf(s) == log[n]
  }

  ghost predicate Holds(r: R.Rcv, base: nat, n: nat) {
    R.Holds(r, Total(base, r), n)
  }

  // Nothing the receiver holds is lost.
  ghost predicate Retains(r: R.Rcv, base: nat, r': R.Rcv, base': nat) {
    && Total(base, r) <= Total(base', r')
    && (forall n: nat :: Holds(r, base, n) ==> Holds(r', base', n))
  }

  lemma ShiftStored(r: R.Rcv, wnd: u32, base: nat, log: seq<Frag>)
    requires R.Sorted(r.nxt, wnd, r.buf) && Stored(r, base, log)
    requires r.buf != [] && r.buf[0].sn == r.nxt
    ensures Stored(R.Shift(r), base, log)
  {
    var t, total := R.Shift(r), Total(base, r);
    R.ShiftSorted(r, wnd);
    assert r.buf[0] in r.buf;
    AddWrap(total, 1);
    assert FragsOf(t.queue) == FragsOf(r.queue) + [FragOf(r.buf[0])];
  }

  lemma ShiftRetains(r: R.Rcv, wnd: u32, base: nat)
    requires R.Sorted(r.nxt, wnd, r.buf) && r.buf != [] && r.buf[0].sn == r.nxt
    ensures Retains(r, base, R.Shift(r), base)
  {
    R.ShiftSorted(r, wnd);
    forall n: nat | Holds(r, base, n) ensures Holds(R.Shift(r), base, n) {
      if n > Total(base, r) {
        var s :| s in r.buf && R.IndexFrom(Total(base, r), r.nxt, s.sn) == n;
        assert s in R.Shift(r).buf;
      }
    }
  }

  // Moving in-order segments to the queue continues the log and keeps everything held.
  lemma {:induction false} DrainStored(r: R.Rcv, wnd: u32, base: nat, log: seq<Frag>)
    requires R.Sorted(r.nxt, wnd, r.buf) && Stored(r, base, log)
    ensures Stored(R.Drain(r, wnd), base, log) && Retains(r, base, R.Drain(r, wnd), base)
    decreases |r.buf|
  {
    if r.buf != [] && r.buf[0].sn == r.nxt && |r.queue| < wnd {
      R.ShiftSorted(r, wnd);
      ShiftStored(r, wnd, base, log);
      ShiftRetains(r, wnd, base);
      DrainStored(R.Shift(r), wnd, base, log);
    }
  }

  // Storing a segment that carries log entry `n`: afterwards `n` is held.
  lemma InsertStored(r: R.Rcv, base: nat, log: seq<Frag>, s: Segment, n: nat)
    requires Stored(r, base, log) && Matches(s, n, log)
    requires R.IndexFrom(Total(base, r), r.nxt, s.sn) == n
    ensures var t := r.(buf := R.Insert(r.buf, s));
            Stored(t, base, log) && Retains(r, base, t, base) && Holds(t, base, n)
  {
    R.InsertMembers(r.buf, s);
    R.InsertPresent(r.buf, s);
    var t := r.(buf := R.Insert(r.buf, s));
    if s !in t.buf {
      var x :| x in r.buf && x.sn == s.sn;
      assert x in t.buf;
    }
    forall m: nat | Holds(r, base, m) ensures Holds(t, base, m) {
      if m >= Total(base, r) {
        var x :| x in r.buf && R.IndexFrom(Total(base, r), r.nxt, x.sn) == m;
        assert x in t.buf;
      }
    }
  }

  // The comparison of a received serial number with `rcv_nxt` is the comparison of indices.
  lemma Compare(total: nat, n: nat)
    requires -0x8000_0000 <= n - total < 0x8000_0000
    ensures Diff(Wrap(n), Wrap(total)) == n - total
    ensures n >= total ==> Dist(Wrap(total), Wrap(n)) == n - total
  {
    DiffExact(n, total);
    if n >= total { DistExact(total, n); }
  }

  // The receiver's share of one data segment that carries log entry `n`: the log is continued,
  // nothing is lost, and an acknowledgement is queued only for an entry that is then held.
  lemma DataStored(r: R.Rcv, wnd: u32, base: nat, log: seq<Frag>, w: Wire, n: nat)
    requires wnd < 0x7fff_0000 && R.RcvInv(r, wnd) && Stored(r, base, log)
    requires w.cmd == CMD_PUSH && n < |log| && w.sn == Wrap(n) && Frag(w.frg, w.data) == log[n]
    requires -0x8000_0000 <= n - Total(base, r) < 0x8000_0000
    ensures var t := R.OnWire(r, wnd, w);
            && Stored(t, base, log) && Retains(r, base, t, base)
            && (t.acks == r.acks || (t.acks == r.acks + [R.Ack(w.sn, w.ts)] && Holds(t, base, n)))
  {
    var total := Total(base, r);
    Compare(total, n);
    var a := r.(acks := r.acks + [R.Ack(w.sn, w.ts)]);
    if Diff(w.sn, Add(r.nxt, wnd)) < 0 && n >= total {
      R.InWindowExact(r.nxt, wnd, w.sn);
      var s := R.FromWire(w);
      InsertStored(a, base, log, s, n);
      R.InsertSorted(r.nxt, wnd, r.buf, s);
      var b := a.(buf := R.Insert(r.buf, s));
      DrainStored(b, wnd, base, log);
      R.DrainKeeps(b, wnd);
    }
  }

  // ---- the sender against the log ----

  // Everything in flight is the log entry its serial number names.
  ghost predicate Tracks(s: S.Snd, log: seq<Frag>) {
    && s.nxt == Wrap(|log|)
    && (forall x :: x in s.buf ==> Matches(x, S.Index(|log|, x.sn), log))
  }

  ghost predicate Outstanding(s: S.Snd, log: seq<Frag>, n: nat) {
    exists x :: x in s.buf && S.Index(|log|, x.sn) == n
  }

  // Every log entry is still in flight or held by the receiver.
  ghost predicate Accounted(s: S.Snd, r: R.Rcv, base: nat, log: seq<Frag>) {
    forall n: nat :: n < |log| ==> Holds(r, base, n) || Outstanding(s, log, n)
  }

  // The log is never far ahead of the receiver.
  lemma LogBound(s: S.Snd, r: R.Rcv, wnd: u32, base: nat, log: seq<Frag>)
    requires S.SndInv(s) && Tracks(s, log) && R.RcvInv(r, wnd) && Stored(r, base, log)
    requires Accounted(s, r, base, log)
    ensures |log| <= Total(base, r) + wnd + 65535
  {
    if |log| > 65535 {
      var n := |log| - 65536;
      forall x | x in s.buf ensures S.Index(|log|, x.sn) > n {
        var i :| 0 <= i < |s.buf| && s.buf[i] == x;
      }
      assert Holds(r, base, n);
      if n >= Total(base, r) {
        var x :| x in r.buf && R.IndexFrom(Total(base, r), r.nxt, x.sn) == n;
      }
    }
  }

  lemma UnaLeaves(s: S.Snd, log: seq<Frag>, una: nat, n: nat)
    requires S.SndInv(s) && s.nxt == Wrap(|log|) && una <= |log| && |log| - una <= 0x8000_0000
    requires Outstanding(s, log, n) && una <= n
    ensures Outstanding(S.TakeUna(s, Wrap(una)), log, n)
  {
    var x :| x in s.buf && S.Index(|log|, x.sn) == n;
    var i :| 0 <= i < |s.buf| && s.buf[i] == x;
    S.KeptAbove(|log|, s.buf, una, i);
    assert x in S.TakeUna(s, Wrap(una)).buf;
  }

  // Acknowledged entries are exactly entries held: a cumulative acknowledgement `una` no greater
  // than what the receiver has moved on drops nothing that is not held.
  lemma UnaAccounted(s: S.Snd, r: R.Rcv, base: nat, log: seq<Frag>, una: nat)
    requires S.SndInv(s) && Tracks(s, log) && Accounted(s, r, base, log)
    requires una <= Total(base, r) <= |log| && |log| - una <= 0x8000_0000
    ensures var t := S.TakeUna(s, Wrap(una));
            Tracks(t, log) && Accounted(t, r, base, log)
  {
    var t := S.TakeUna(s, Wrap(una));
    S.IndexOrder(|log|, s.buf, una);
    forall n: nat | n < |log| ensures Holds(r, base, n) || Outstanding(t, log, n) {
      if !Holds(r, base, n) { UnaLeaves(s, log, una, n); }
    }
  }

  // A single acknowledgement of a held entry drops only that entry.
  lemma AckAccounted(s: S.Snd, r: R.Rcv, base: nat, log: seq<Frag>, n: nat)
    requires S.SndInv(s) && Tracks(s, log) && Accounted(s, r, base, log)
    requires n < |log| && |log| - n <= 0x8000_0000 && Holds(r, base, n)
    ensures var t := S.TakeAck(s, Wrap(n));
            Tracks(t, log) && Accounted(t, r, base, log)
  {
    var t := S.TakeAck(s, Wrap(n));
    S.ScanAckOnlyRemoves(s.buf, Wrap(n));
    DistExact(n, |log|);
    forall m: nat | m < |log| ensures Holds(r, base, m) || Outstanding(t, log, m) {
      if !Holds(r, base, m) {
        var x :| x in s.buf && S.Index(|log|, x.sn) == m;
        StillThere(s, Wrap(n), x);
      }
    }
  }

  lemma WithoutKeeps(buf: seq<Segment>, sn: u32, x: Segment)
    requires x in buf && x.sn != sn
    ensures x in S.Without(buf, sn)
  {
    var i, r := S.Find(buf, sn), S.Without(buf, sn);
    var k :| 0 <= k < |buf| && buf[k] == x;
    if i < |buf| {
      assert k != i;
      assert r[if k < i then k else k - 1] == x;
    }
  }

  lemma StillThere(s: S.Snd, sn: u32, x: Segment)
    requires S.SndInv(s) && x in s.buf && x.sn != sn
    ensures x in S.TakeAck(s, sn).buf
  {
    S.TakeAckIs(s, sn);
    WithoutKeeps(s.buf, sn, x);
  }

  // The receiver's progress never un-accounts anything.
  lemma AccountedMono(s: S.Snd, r: R.Rcv, base: nat, r': R.Rcv, base': nat, log: seq<Frag>)
    requires Accounted(s, r, base, log) && Retains(r, base, r', base')
    ensures Accounted(s, r', base', log)
  {
  }

  lemma NewIndices(top: nat, add: seq<Segment>)
    requires |add| <= 65535 && forall i :: 0 <= i < |add| ==> add[i].sn == Wrap(Wrap(top) + i)
    ensures forall i :: 0 <= i < |add| ==> S.Index(top + |add|, add[i].sn) == top + i
  {
    forall i | 0 <= i < |add| ensures S.Index(top + |add|, add[i].sn) == top + i {
      WrapPlus(top, i);
      DistExact(top + i, top + |add|);
    }
  }

  lemma OldIndices(top: nat, buf: seq<Segment>, n: nat)
    requires S.InFlight(Wrap(top), buf) && n <= 65535
    ensures forall x :: x in buf ==> S.Index(top + n, x.sn) == S.Index(top, x.sn)
  {
    forall x | x in buf ensures S.Index(top + n, x.sn) == S.Index(top, x.sn) {
      var i :| 0 <= i < |buf| && buf[i] == x;
      WrapPlus(top, n);
      DistPlus(x.sn, Wrap(top), n);
    }
  }

  // The log after a flush admitted `n` queued segments.
  function LogAfter(s: S.Snd, log: seq<Frag>, n: nat): seq<Frag>
    requires n <= |s.queue|
  {
    log + FragsOf(s.queue)[..n]
  }

  lemma AdmittedIndices(q: seq<Segment>, st: S.Stamp, top: nat)
    requires |q| <= 65535
    ensures var add := S.Admitted(q, st, Wrap(top));
            forall i :: 0 <= i < |add| ==> S.Index(top + |q|, add[i].sn) == top + i
  {
    NewIndices(top, S.Admitted(q, st, Wrap(top)));
  }

  lemma MoveIndices(s: S.Snd, cwnd: u32, st: S.Stamp, log: seq<Frag>)
    requires S.SndInv(s) && cwnd <= 65535 && s.nxt == Wrap(|log|)
    ensures var n := S.Room(s, cwnd);
            var add, top := S.Admitted(s.queue[..n], st, s.nxt), |log| + n;
            && Wrap(s.nxt + n) == Wrap(top)
            && (forall x :: x in s.buf ==> S.Index(top, x.sn) == S.Index(|log|, x.sn))
            && (forall i :: 0 <= i < n ==> S.Index(top, add[i].sn) == |log| + i)
  {
    var n := S.Room(s, cwnd);
    S.HeadSpan(s.nxt, s.buf);
    S.RoomBound(s, cwnd);
    WrapPlus(|log|, n);
    OldIndices(|log|, s.buf, n);
    AdmittedIndices(s.queue[..n], st, |log|);
  }

  // A flush numbers queued fragments: they extend the log,
  lemma MoveTracks(s: S.Snd, cwnd: u32, st: S.Stamp, log: seq<Frag>)
    requires S.SndInv(s) && cwnd <= 65535 && Tracks(s, log)
    ensures Tracks(S.Batch(s, cwnd, st), LogAfter(s, log, S.Room(s, cwnd)))
  {
    var n := S.Room(s, cwnd);
    MoveIndices(s, cwnd, st, log);
    Extended(s.buf, S.Admitted(s.queue[..n], st, s.nxt), log, LogAfter(s, log, n));
  }

  // and are in flight.
  lemma MoveOutstanding(s: S.Snd, cwnd: u32, st: S.Stamp, log: seq<Frag>, m: nat)
    requires S.SndInv(s) && cwnd <= 65535 && s.nxt == Wrap(|log|)
    requires Outstanding(s, log, m) || |log| <= m < |log| + S.Room(s, cwnd)
    ensures Outstanding(S.Batch(s, cwnd, st), LogAfter(s, log, S.Room(s, cwnd)), m)
  {
    var n, t := S.Room(s, cwnd), S.Batch(s, cwnd, st);
    var add := S.Admitted(s.queue[..n], st, s.nxt);
    MoveIndices(s, cwnd, st, log);
    assert t.buf == s.buf + add;
    if Outstanding(s, log, m) {
      var x :| x in s.buf && S.Index(|log|, x.sn) == m;
      assert x in t.buf;
    } else {
      assert add[m - |log|] in t.buf;
    }
  }

  lemma Extended(buf: seq<Segment>, add: seq<Segment>, log: seq<Frag>, log': seq<Frag>)
    requires |log'| == |log| + |add| && log <= log'
    requires forall x :: x in buf ==>
               Matches(x, S.Index(|log|, x.sn), log) && S.Index(|log'|, x.sn) == S.Index(|log|, x.sn)
    requires forall i :: 0 <= i < |add| ==> S.Index(|log'|, add[i].sn) == |log| + i && FragOf(add[i]) == log'[|log| + i]
    ensures forall x :: x in buf + add ==> Matches(x, S.Index(|log'|, x.sn), log')
  {
  }
}
