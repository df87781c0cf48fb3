/** How `ikcp_flush` packs segments into datagrams of at most `mtu` bytes. */
module Packing {
  import opened Words
  import opened Segments
  import opened Codec

  function Closed(cur: seq<Wire>): (r: seq<seq<Wire>>)
    ensures |r| <= 1
  {
    if cur == [] then [] else [cur]
  }

  // `cur` is the datagram being filled; a segment that does not fit closes it.  A datagram with
  // nothing in it is not put out.
  function Pack(mtu: u32, cur: seq<Wire>, ws: seq<Wire>): seq<seq<Wire>>
    decreases |ws|
  {
    if ws == [] then Closed(cur)
    else if |EncodeAll(cur)| + 24 + |ws[0].data| > mtu then Closed(cur) + Pack(mtu, [ws[0]], ws[1..])
    else Pack(mtu, cur + [ws[0]], ws[1..])
  }

  // One segment: the datagrams it closes, and the datagram under construction afterwards.
  function PackOne(mtu: u32, cur: seq<Wire>, w: Wire): (seq<seq<Wire>>, seq<Wire>) {
    if |EncodeAll(cur)| + 24 + |w.data| > mtu then (Closed(cur), [w]) else ([], cur + [w])
  }

  lemma PackStep(mtu: u32, cur: seq<Wire>, ws: seq<Wire>)
    requires ws != []
    ensures Pack(mtu, cur, ws) == PackOne(mtu, cur, ws[0]).0 + Pack(mtu, PackOne(mtu, cur, ws[0]).1, ws[1..])
  {
  }

  // A list of segments: the datagrams closed on the way, and the one under construction at the end.
  function PackMany(mtu: u32, cur: seq<Wire>, ws: seq<Wire>): (seq<seq<Wire>>, seq<Wire>)
    decreases |ws|
  {
    if ws == [] then ([], cur)
    else
      var one := PackOne(mtu, cur, ws[0]);
      var rest := PackMany(mtu, one.1, ws[1..]);
      (one.0 + rest.0, rest.1)
  }

  // Writing `ws` with `out` already put out and `cur` under construction ends with `out'` put out
  // and `cur'` under construction.
  ghost predicate Leads(mtu: u32, out: seq<Bytes>, cur: seq<Wire>, ws: seq<Wire>, out': seq<Bytes>, cur': seq<Wire>) {
    out + Datagrams(PackMany(mtu, cur, ws).0) == out' && PackMany(mtu, cur, ws).1 == cur'
  }

  lemma LeadsOn(mtu: u32, out: seq<Bytes>, cur: seq<Wire>, w: Wire, rest: seq<Wire>, out': seq<Bytes>, cur': seq<Wire>)
    requires Leads(mtu, out, cur, [w] + rest, out', cur')
    ensures var one := PackOne(mtu, cur, w);
            Leads(mtu, out + Datagrams(one.0), one.1, rest, out', cur')
  {
    var one := PackOne(mtu, cur, w);
    var many := PackMany(mtu, one.1, rest);
    assert ([w] + rest)[1..] == rest;
    assert PackMany(mtu, cur, [w] + rest) == (one.0 + many.0, many.1);
    DatagramsConcat(one.0, many.0);
    assert out + (Datagrams(one.0) + Datagrams(many.0)) == (out + Datagrams(one.0)) + Datagrams(many.0);
  }

  // Putting out what is left at the end completes the packing.
  lemma {:induction false} PackManyThenClose(mtu: u32, cur: seq<Wire>, ws: seq<Wire>)
    ensures Pack(mtu, cur, ws) == PackMany(mtu, cur, ws).0 + Closed(PackMany(mtu, cur, ws).1)
    decreases |ws|
  {
    if ws != [] {
      var one := PackOne(mtu, cur, ws[0]);
      PackStep(mtu, cur, ws);
      PackManyThenClose(mtu, one.1, ws[1..]);
      var rest := PackMany(mtu, one.1, ws[1..]);
      assert one.0 + (rest.0 + Closed(rest.1)) == (one.0 + rest.0) + Closed(rest.1);
    }
  }

  // When nothing is left to write, putting out what is under construction gives the whole packing.
  lemma LeadsEnd(mtu: u32, out: seq<Bytes>, cur: seq<Wire>, start: seq<Bytes>, ws: seq<Wire>)
    requires Leads(mtu, out, cur, [], start + Datagrams(PackMany(mtu, [], ws).0), PackMany(mtu, [], ws).1)
    ensures out + Datagrams(Closed(cur)) == start + Datagrams(Pack(mtu, [], ws))
  {
    var many := PackMany(mtu, [], ws);
    PackManyThenClose(mtu, [], ws);
    DatagramsConcat(many.0, Closed(many.1));
    assert out == start + Datagrams(many.0);
    assert (start + Datagrams(many.0)) + Datagrams(Closed(cur)) == start + (Datagrams(many.0) + Datagrams(Closed(cur)));
  }

  lemma DatagramsConcat(a: seq<seq<Wire>>, b: seq<seq<Wire>>)
    ensures Datagrams(a + b) == Datagrams(a) + Datagrams(b)
  {
  }

  lemma EncodeEmptyIff(cur: seq<Wire>)
    ensures |EncodeAll(cur)| == 0 <==> cur == []
  {
  }

  function Flatten<T>(cs: seq<seq<T>>): seq<T> {
    if cs == [] then [] else cs[0] + Flatten(cs[1..])
  }

  function Datagrams(cs: seq<seq<Wire>>): (ds: seq<Bytes>)
    ensures |ds| == |cs|
    ensures forall i :: 0 <= i < |cs| ==> ds[i] == EncodeAll(cs[i])
  {
    seq(|cs|, i requires 0 <= i < |cs| => EncodeAll(cs[i]))
  }

  lemma {:induction false} FlattenConcat<T>(a: seq<seq<T>>, b: seq<seq<T>>)
    ensures Flatten(a + b) == Flatten(a) + Flatten(b)
  {
    if a == [] {
      assert a + b == b;
    } else {
      assert (a + b)[1..] == a[1..] + b;
      FlattenConcat(a[1..], b);
    }
  }

  lemma FlattenClosed(cur: seq<Wire>)
    ensures Flatten(Closed(cur)) == cur
  {
    if cur != [] { assert Flatten([cur][1..]) == []; }
  }

  // Packing loses, duplicates and reorders nothing.
  lemma {:induction false} PackConserves(mtu: u32, cur: seq<Wire>, ws: seq<Wire>)
    ensures Flatten(Pack(mtu, cur, ws)) == cur + ws
    decreases |ws|
  {
    FlattenClosed(cur);
    if ws != [] {
      if |EncodeAll(cur)| + 24 + |ws[0].data| > mtu {
        PackConserves(mtu, [ws[0]], ws[1..]);
        FlattenConcat(Closed(cur), Pack(mtu, [ws[0]], ws[1..]));
        assert [ws[0]] + ws[1..] == ws;
      } else {
        PackConserves(mtu, cur + [ws[0]], ws[1..]);
        assert cur + [ws[0]] + ws[1..] == cur + ws;
      }
    }
  }

  // Every datagram holds at least one segment and at most `mtu` bytes.
  lemma {:induction false} PackFits(mtu: u32, cur: seq<Wire>, ws: seq<Wire>)
    requires |EncodeAll(cur)| <= mtu && forall i :: 0 <= i < |ws| ==> 24 + |ws[i].data| <= mtu
    ensures forall c :: c in Pack(mtu, cur, ws) ==> c != [] && 0 < |EncodeAll(c)| <= mtu
    decreases |ws|
  {
    if ws != [] {
      EncodeSnoc(cur, ws[0]);
      EncodeSnoc([], ws[0]);
      assert [] + [ws[0]] == [ws[0]];
      if |EncodeAll(cur)| + 24 + |ws[0].data| > mtu {
        PackFits(mtu, [ws[0]], ws[1..]);
      } else {
        PackFits(mtu, cur + [ws[0]], ws[1..]);
      }
    }
  }

  // No datagram could have taken the first segment of the next one.
  ghost predicate Tight(mtu: u32, cs: seq<seq<Wire>>) {
    && (forall i :: 0 <= i < |cs| ==> cs[i] != [])
    && (forall i :: 0 < i < |cs| ==> |EncodeAll(cs[i - 1])| + 24 + |cs[i][0].data| > mtu)
  }

  lemma {:induction false} PackTight(mtu: u32, cur: seq<Wire>, ws: seq<Wire>)
    ensures Tight(mtu, Pack(mtu, cur, ws))
    ensures cur != [] ==> Pack(mtu, cur, ws) != [] && cur <= Pack(mtu, cur, ws)[0]
    decreases |ws|
  {
    if ws != [] {
      var next := if |EncodeAll(cur)| + 24 + |ws[0].data| > mtu then [ws[0]] else cur + [ws[0]];
      PackTight(mtu, next, ws[1..]);
      var rest := Pack(mtu, next, ws[1..]);
      assert rest[0][0] == next[0];
    }
  }

  lemma {:induction false} FlattenMembers<T>(cs: seq<seq<T>>, c: seq<T>, x: T)
    requires c in cs && x in c
    ensures x in Flatten(cs)
  {
    if c != cs[0] { FlattenMembers(cs[1..], c, x); }
  }

  // The segments a receiver's parser accepts from a list of datagrams, in order.
  function ParseAll(conv: u32, ds: seq<Bytes>): seq<Wire> {
    if ds == [] then [] else Parse(conv, ds[0]).segs + ParseAll(conv, ds[1..])
  }

  lemma {:induction false} ParseAllDatagrams(conv: u32, cs: seq<seq<Wire>>)
    requires forall c, w :: c in cs && w in c ==> Sendable(conv, w)
    ensures ParseAll(conv, Datagrams(cs)) == Flatten(cs)
    ensures forall i :: 0 <= i < |cs| ==> Parse(conv, Datagrams(cs)[i]) == Scan(cs[i], 0)
  {
    forall i | 0 <= i < |cs| ensures Parse(conv, Datagrams(cs)[i]) == Scan(cs[i], 0) {
      assert cs[i] in cs;
      ParseEncoded(conv, cs[i]);
    }
    if cs != [] {
      ParseAllDatagrams(conv, cs[1..]);
      assert Datagrams(cs)[1..] == Datagrams(cs[1..]);
    }
  }

  // The receiver's parser recovers exactly the list of segments that was packed, and rejects none
  // of the datagrams.
  lemma PackRoundTrip(conv: u32, mtu: u32, ws: seq<Wire>)
    requires forall i :: 0 <= i < |ws| ==> Sendable(conv, ws[i]) && 24 + |ws[i].data| <= mtu
    ensures var ds := Datagrams(Pack(mtu, [], ws));
            && ParseAll(conv, ds) == ws
            && (forall d :: d in ds ==> 0 < |d| <= mtu && Parse(conv, d).code == 0)
  {
    var cs := Pack(mtu, [], ws);
    PackConserves(mtu, [], ws);
    PackFits(mtu, [], ws);
    forall c, w | c in cs && w in c ensures Sendable(conv, w) {
      FlattenMembers(cs, c, w);
      assert w in ws;
    }
    ParseAllDatagrams(conv, cs);
  }
}
