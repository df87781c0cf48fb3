/** The DNS name codec: the validating label encoder and the decoder that follows
    compression pointers (section 4.1.4 of RFC 1035). */
module Dns {
  import opened Words
  import opened Wrappers

  type Label = seq<byte>

  /** A domain name: labels down to the root. */
  datatype Name = Root | Child(head: Label, rest: Name)

  const DOT: byte := 46

  /** The encoder's return code and the vector it leaves behind. */
  datatype Encoding = Encoding(code: int, bytes: seq<byte>)

  // ---- names ----

  function Dotted(n: Name): seq<byte> {
    if n.Root? then []
    else if n.rest.Root? then n.head
    else n.head + [DOT] + Dotted(n.rest)
  }

  predicate ValidLabel(l: Label) {
    1 <= |l| < 63 && DOT !in l
  }

  predicate Valid(n: Name) {
    n.Child? ==> ValidLabel(n.head) && Valid(n.rest)
  }

  // Length-prefixed labels closed by the root.
  function Encoded(n: Name): seq<byte> {
    if n.Root? then [0] else [|n.head| % 0x100] + n.head + Encoded(n.rest)
  }

  function Labels(n: Name): nat {
    if n.Root? then 0 else 1 + Labels(n.rest)
  }

  function Dot(yes: bool): seq<byte> {
    if yes then [DOT] else []
  }

  // ---- the encoder ----

  function NextDot(host: seq<byte>, i: nat): (d: nat)
    requires i <= |host|
    ensures i <= d <= |host|
    ensures forall k :: i <= k < d ==> host[k] != DOT
    ensures d < |host| ==> host[d] == DOT
    decreases |host| - i
  {
    if i == |host| || host[i] == DOT then i else NextDot(host, i + 1)
  }

  // The loop of `encode_hostname` from position |i| on; `domain_len` is an `int`.
  function EncodeFrom(host: seq<byte>, i: nat, done: seq<byte>): Encoding
    decreases |host| - i
  {
    if i >= |host| then Encoding(0, done + [0])
    else
      var d := NextDot(host, i);
      var n := Int32(d - i);
      if n >= 63 || n < 1 then Encoding(-1, done)
      else EncodeFrom(host, d + 1, done + [n] + host[i..d])
  }

  function EncodeHostname(host: seq<byte>, before: seq<byte>): Encoding {
    if host == [] then Encoding(-2, before) else EncodeFrom(host, 0, [])
  }

  method FindDot(host: seq<byte>, i: nat) returns (d: nat)
    requires i <= |host|
    ensures d == NextDot(host, i)
  {
    d := i;
    while d < |host| && host[d] != DOT
      invariant i <= d <= |host|
      invariant NextDot(host, d) == NextDot(host, i)
    {
      d := d + 1;
    }
  }

  lemma PushOne(front: seq<byte>, s: seq<byte>, i: nat, j: nat)
    requires i <= j < |s|
    ensures (front + s[i..j]) + [s[j]] == front + s[i..j + 1]
  {
  }

  // The inner loop: one `push_back` per byte.
  method PushBytes(front: seq<byte>, host: seq<byte>, index: nat, dot: nat) returns (bytes: seq<byte>)
    requires index <= dot <= |host|
    ensures bytes == front + host[index..dot]
  {
    bytes := front;
    for i := index to dot
      invariant bytes == front + host[index..i]
    {
      PushOne(front, host, index, i);
      bytes := bytes + [host[i]];
    }
  }

  method EncodeName(host: seq<byte>, before: seq<byte>) returns (code: int, bytes: seq<byte>)
    ensures Encoding(code, bytes) == EncodeHostname(host, before)
  {
    bytes := before;
    if host == [] { return -2, bytes; }
    bytes := [];
    var index := 0;
    while index < |host|
      invariant EncodeFrom(host, index, bytes) == EncodeFrom(host, 0, [])
      decreases |host| - index
    {
      var dot := FindDot(host, index);
      var n := Int32(dot - index);
      if n >= 63 || n < 1 { return -1, bytes; }
      bytes := PushBytes(bytes + [n], host, index, dot);
      index := dot + 1;
    }
    bytes := bytes + [0];
    return 0, bytes;
  }

  // The labels between the dots from position |i| on; a dot at the very end opens no label.
  ghost function Split(host: seq<byte>, i: nat): Name
    decreases |host| - i
  {
    if i >= |host| then Root
    else
      var d := NextDot(host, i);
      Child(host[i..d], Split(host, d + 1))
  }

  // A host name is the dotted join of its labels, and may end in one more dot.
  predicate Writes(host: seq<byte>, n: Name) {
    host == Dotted(n) || host == Dotted(n) + [DOT]
  }

  lemma {:induction false} NextDotIs(host: seq<byte>, i: nat, d: nat)
    requires i <= d <= |host|
    requires forall k :: i <= k < d ==> host[k] != DOT
    requires d < |host| ==> host[d] == DOT
    ensures NextDot(host, i) == d
    decreases d - i
  {
    if i < d { NextDotIs(host, i + 1, d); }
  }

  // One turn of the encoder, and what it says of the labels.
  lemma EncodeStep(host: seq<byte>, i: nat, done: seq<byte>)
    requires i < |host| < 0x8000_0000
    ensures var d := NextDot(host, i);
            && Split(host, i) == Child(host[i..d], Split(host, d + 1))
            && (Valid(Split(host, i)) <==> 1 <= d - i < 63 && Valid(Split(host, d + 1)))
            && EncodeFrom(host, i, done) == if 1 <= d - i < 63 then EncodeFrom(host, d + 1, done + [d - i] + host[i..d])
                                            else Encoding(-1, done)
  {
    Int32Small(NextDot(host, i) - i);
  }

  lemma {:induction false} EncodeFromIs(host: seq<byte>, i: nat, done: seq<byte>)
    requires |host| < 0x8000_0000
    ensures EncodeFrom(host, i, done).code == if Valid(Split(host, i)) then 0 else -1
    ensures Valid(Split(host, i)) ==> EncodeFrom(host, i, done).bytes == done + Encoded(Split(host, i))
    decreases |host| - i
  {
    if i < |host| {
      var d := NextDot(host, i);
      EncodeStep(host, i, done);
      if 1 <= d - i < 63 {
        EncodeFromIs(host, d + 1, done + [d - i] + host[i..d]);
        Prefix(done, [d - i], host[i..d], Encoded(Split(host, d + 1)));
      }
    }
  }

  lemma Prefix(a: seq<byte>, b: seq<byte>, c: seq<byte>, d: seq<byte>)
    ensures a + b + c + d == a + (b + c + d)
  {
  }

  // The one dot a host name may end in.
  function LastDot(host: seq<byte>): seq<byte> {
    Dot(host != [] && host[|host| - 1] == DOT)
  }

  lemma SliceCut(host: seq<byte>, i: nat, d: nat)
    requires i <= d < |host|
    ensures host[i..] == host[i..d] + [host[d]] + host[d + 1..]
  {
  }

  // What stands behind the last label: nothing, or the one dot.
  lemma LastLabel(host: seq<byte>, i: nat)
    requires i < |host| && NextDot(host, i) > i && NextDot(host, i) + 1 >= |host|
    ensures host[i..] == host[i..NextDot(host, i)] + LastDot(host)
  {
    var d := NextDot(host, i);
    if d < |host| {
      SliceCut(host, i, d);
      assert host[d + 1..] == [];
    } else {
      assert host[|host| - 1] == host[d - 1] != DOT;
    }
  }

  lemma {:induction false} SplitWrites(host: seq<byte>, i: nat)
    requires i < |host| && Valid(Split(host, i))
    ensures host[i..] == Dotted(Split(host, i)) + LastDot(host)
    decreases |host| - i
  {
    var d := NextDot(host, i);
    var l, more := host[i..d], Split(host, d + 1);
    assert Split(host, i) == Child(l, more);
    if d + 1 >= |host| {
      LastLabel(host, i);
    } else {
      SliceCut(host, i, d);
      SplitWrites(host, d + 1);
      Join(l, Dotted(more), LastDot(host));
    }
  }

  lemma Join(l: seq<byte>, text: seq<byte>, tail: seq<byte>)
    ensures l + [DOT] + (text + tail) == (l + [DOT] + text) + tail
    ensures l + [DOT] + (text + tail) == l + ([DOT] + (text + tail))
  {
  }

  lemma {:induction false} NextDotShift(front: seq<byte>, host: seq<byte>, i: nat)
    requires i <= |host|
    ensures NextDot(front + host, |front| + i) == |front| + NextDot(host, i)
    decreases |host| - i
  {
    if i < |host| && host[i] != DOT {
      assert (front + host)[|front| + i] == host[i];
      NextDotShift(front, host, i + 1);
    }
  }

  // What stands in front does not matter.
  lemma {:induction false} SplitShift(front: seq<byte>, host: seq<byte>, i: nat)
    ensures Split(front + host, |front| + i) == Split(host, i)
    decreases |host| - i
  {
    if i < |host| {
      var d := NextDot(host, i);
      NextDotShift(front, host, i);
      SplitShift(front, host, d + 1);
      assert (front + host)[|front| + i..|front| + d] == host[i..d];
      assert |front| + (d + 1) == |front| + d + 1;
    }
  }

  lemma SplitChild(l: Label, rest: seq<byte>)
    requires ValidLabel(l)
    ensures Split(l + ([DOT] + rest), 0) == Child(l, Split(rest, 0))
  {
    var host, front := l + ([DOT] + rest), l + [DOT];
    NextDotIs(host, 0, |l|);
    assert host[0..|l|] == l;
    assert host == front + rest;
    SplitShift(front, rest, 0);
  }

  lemma SplitLast(l: Label, tail: seq<byte>)
    requires ValidLabel(l) && (tail == [] || tail == [DOT])
    ensures Split(l + tail, 0) == Child(l, Root)
  {
    NextDotIs(l + tail, 0, |l|);
    assert (l + tail)[0..|l|] == l;
  }

  lemma {:induction false} SplitOfWritten(n: Name, tail: seq<byte>)
    requires n.Child? && Valid(n) && (tail == [] || tail == [DOT])
    ensures Split(Dotted(n) + tail, 0) == n
    decreases n
  {
    if n.rest.Root? {
      SplitLast(n.head, tail);
    } else {
      Join(n.head, Dotted(n.rest), tail);
      SplitChild(n.head, Dotted(n.rest) + tail);
      SplitOfWritten(n.rest, tail);
    }
  }

  lemma {:induction false} DottedEnd(n: Name)
    requires n.Child? && Valid(n)
    ensures Dotted(n) != [] && Dotted(n)[|Dotted(n)| - 1] != DOT
  {
    if n.rest.Child? { DottedEnd(n.rest); }
  }

  // What an accepted host name says, and what is written for it.
  lemma EncodedSplit(host: seq<byte>, before: seq<byte>)
    requires |host| < 0x8000_0000
    ensures var e, n := EncodeHostname(host, before), Split(host, 0);
            && (e.code == 0 <==> host != [] && Valid(n))
            && (e.code == 0 ==> e.bytes == Encoded(n) && host == Dotted(n) + LastDot(host))
  {
    if host != [] {
      EncodeFromIs(host, 0, []);
      assert host[0..] == host;
      if Valid(Split(host, 0)) {
        SplitWrites(host, 0);
        assert [] + Encoded(Split(host, 0)) == Encoded(Split(host, 0));
      }
    }
  }

  // `encode_hostname` accepts exactly the dotted names whose labels have 1 to 62 bytes,
  // with at most one dot at the end, and writes exactly their labels.
  lemma EncodeExact(host: seq<byte>, before: seq<byte>)
    requires |host| < 0x8000_0000
    ensures var e := EncodeHostname(host, before);
            && (e.code == 0 <==> exists n: Name :: n.Child? && Valid(n) && Writes(host, n))
            && (forall n: Name :: n.Child? && Valid(n) && Writes(host, n) ==> e.bytes == Encoded(n))
  {
    var e := EncodeHostname(host, before);
    EncodedSplit(host, before);
    if e.code == 0 { assert Writes(host, Split(host, 0)); }
    forall n: Name | n.Child? && Valid(n) && Writes(host, n)
      ensures e.code == 0 && e.bytes == Encoded(n)
    {
      DottedEnd(n);
      assert Dotted(n) + [] == Dotted(n);
      SplitOfWritten(n, if host == Dotted(n) then [] else [DOT]);
    }
  }

  // The labels of a name, each with the dot behind it.
  function Dots(n: Name): seq<byte> {
    if n.Root? then [] else n.head + [DOT] + Dots(n.rest)
  }

  // From position |i| on the labels |n| can be written, and the one that begins at |at| behind them
  // has not 1 to 62 bytes.
  ghost predicate FailsAt(host: seq<byte>, i: nat, n: Name, at: nat) {
    Valid(n) && i <= at < |host| && host[i..at] == Dots(n) && !(1 <= NextDot(host, at) - at < 63)
  }

  lemma FailsLater(host: seq<byte>, i: nat, n: Name, at: nat)
    requires i < |host| && 1 <= NextDot(host, i) - i < 63 && FailsAt(host, NextDot(host, i) + 1, n, at)
    ensures FailsAt(host, i, Child(host[i..NextDot(host, i)], n), at)
  {
    var d := NextDot(host, i);
    assert host[i..at] == host[i..d] + [DOT] + host[d + 1..at];
  }

  // What has been written so far is |done| and the labels of |n|.
  ghost predicate WrittenSoFar(bytes: seq<byte>, done: seq<byte>, n: Name) {
    bytes + [0] == done + Encoded(n)
  }

  lemma WrittenChild(bytes: seq<byte>, done: seq<byte>, l: Label, n: Name)
    requires |l| < 63 && WrittenSoFar(bytes, done + [|l|] + l, n)
    ensures WrittenSoFar(bytes, done, Child(l, n))
  {
    assert done + [|l|] + l + Encoded(n) == done + ([|l|] + l + Encoded(n));
  }

  lemma EncodeGoes(host: seq<byte>, i: nat, done: seq<byte>, l: Label)
    requires i < |host| < 0x8000_0000 && l == host[i..NextDot(host, i)] && 1 <= |l| < 63
    ensures EncodeFrom(host, i, done) == EncodeFrom(host, NextDot(host, i) + 1, done + [|l|] + l)
  {
    EncodeStep(host, i, done);
  }

  lemma EncodeStops(host: seq<byte>, i: nat, done: seq<byte>)
    requires i < |host| < 0x8000_0000 && !(1 <= NextDot(host, i) - i < 63)
    ensures EncodeFrom(host, i, done) == Encoding(-1, done)
  {
    EncodeStep(host, i, done);
  }

  lemma {:induction false} EncodeFails(host: seq<byte>, i: nat, done: seq<byte>) returns (n: Name, at: nat)
    requires i < |host| < 0x8000_0000 && EncodeFrom(host, i, done).code != 0
    ensures FailsAt(host, i, n, at) && WrittenSoFar(EncodeFrom(host, i, done).bytes, done, n)
    decreases |host| - i
  {
    var d := NextDot(host, i);
    if 1 <= d - i < 63 {
      var l, more := host[i..d], Root;
      EncodeGoes(host, i, done, l);
      more, at := EncodeFails(host, d + 1, done + [|l|] + l);
      WrittenChild(EncodeFrom(host, i, done).bytes, done, l, more);
      FailsLater(host, i, more, at);
      n := Child(l, more);
    } else {
      EncodeStops(host, i, done);
      n, at := Root, i;
    }
  }

  // The empty name is refused with -2 and the output left alone, any other with -1 at the first label
  // that has not 1 to 62 bytes, when the labels in front of it have been written.
  lemma EncodeRefuses(host: seq<byte>, before: seq<byte>)
    requires |host| < 0x8000_0000
    ensures var e := EncodeHostname(host, before);
            && (host == [] ==> e == Encoding(-2, before))
            && (host != [] ==> e.code == 0 || e.code == -1)
            && (e.code == -1 ==> exists n: Name, at: nat :: FailsAt(host, 0, n, at) && e.bytes + [0] == Encoded(n))
  {
    if host != [] {
      EncodeFromIs(host, 0, []);
      if EncodeHostname(host, before).code == -1 {
        var n, at := EncodeFails(host, 0, []);
        assert [] + Encoded(n) == Encoded(n);
      }
    }
  }

  // ---- the name in a message, by the standard ----

  function Offset(high: byte, low: byte): nat
    requires high >= 0xC0
  {
    (high as int - 0xC0) * 0x100 + low
  }

  // Section 4.1.4 of RFC 1035: the labels of the name at |p|, in the label run that began at
  // |start|.  A pointer must lead before that run.
  function NameAt(chunk: seq<byte>, start: nat, p: nat): Option<Name>
    decreases start, |chunk| - p
  {
    if p >= |chunk| then None
    else
      var b := chunk[p];
      if b == 0 then Some(Root)
      else if b >= 0xC0 then
        if p + 1 >= |chunk| then None
        else
          var target := Offset(b, chunk[p + 1]);
          if target < start then NameAt(chunk, target, target) else None
      else if b >= 0x40 || p + 1 + b > |chunk| then None
      else
        var rest := NameAt(chunk, start, p + 1 + b);
        if rest.Some? then Some(Child(chunk[p + 1..p + 1 + b], rest.value)) else None
  }

  // Every pointer met on the way has an offset below 256, so its second byte is the whole offset.
  predicate NearPointers(chunk: seq<byte>, start: nat, p: nat)
    requires NameAt(chunk, start, p).Some?
    decreases start, |chunk| - p
  {
    var b := chunk[p];
    if b == 0 then true
    else if b >= 0xC0 then
      var target := Offset(b, chunk[p + 1]);
      b == 0xC0 && NearPointers(chunk, target, target)
    else NearPointers(chunk, start, p + 1 + b)
  }

  // ---- the name in a message, as the decoder reads it ----

  // Where one turn of the loop of `dns_parse_name` leads: behind a label, or to the offset in the
  // second byte of a pointer, whose first byte is ignored.  None at the end of the name and
  // outside the message.
  function Next(chunk: seq<byte>, p: nat): Option<nat> {
    if p >= |chunk| || chunk[p] == 0 then None
    else if chunk[p] >= 0xC0 then if p + 1 < |chunk| then Some(chunk[p + 1] as nat) else None
    else if p + 1 + chunk[p] < |chunk| then Some(p + 1 + chunk[p])
    else None
  }

  // The labels the decoder meets from |p| on, when it comes to the end of the name within |steps| turns.
  function ReadAt(chunk: seq<byte>, p: nat, steps: nat): Option<Name>
    decreases steps
  {
    if steps == 0 || p >= |chunk| then None
    else if chunk[p] == 0 then Some(Root)
    else
      var q := Next(chunk, p);
      if q == None then None
      else
        var rest := ReadAt(chunk, q.value, steps - 1);
        if rest == None || chunk[p] >= 0xC0 then rest else Some(Child(chunk[p + 1..q.value], rest.value))
  }

  // The position after |n| turns.
  function Walk(chunk: seq<byte>, p: nat, n: nat): Option<nat>
    decreases n
  {
    if n == 0 then Some(p)
    else
      var q := Next(chunk, p);
      if q == None then None else Walk(chunk, q.value, n - 1)
  }

  predicate AtEnd(chunk: seq<byte>, p: Option<nat>) {
    p.Some? && p.value < |chunk| && chunk[p.value] == 0
  }

  lemma {:induction false} ReadEnds(chunk: seq<byte>, p: nat, steps: nat) returns (n: nat)
    requires ReadAt(chunk, p, steps).Some?
    ensures n < steps && AtEnd(chunk, Walk(chunk, p, n))
    decreases steps
  {
    n := 0;
    if chunk[p] != 0 {
      n := ReadEnds(chunk, Next(chunk, p).value, steps - 1);
      n := n + 1;
    }
  }

  lemma {:induction false} EndIsRead(chunk: seq<byte>, p: nat, steps: nat, n: nat)
    requires n < steps && AtEnd(chunk, Walk(chunk, p, n))
    ensures ReadAt(chunk, p, steps).Some?
    decreases steps
  {
    if n > 0 { EndIsRead(chunk, Next(chunk, p).value, steps - 1, n - 1); }
  }

  ghost predicate Arrives(chunk: seq<byte>, p: nat, steps: nat) {
    exists n: nat :: n < steps && AtEnd(chunk, Walk(chunk, p, n))
  }

  // The decoder finishes within |steps| turns exactly when its walk comes to a zero length byte in time.
  lemma ArrivesIff(chunk: seq<byte>, p: nat, steps: nat)
    ensures ReadAt(chunk, p, steps).Some? <==> Arrives(chunk, p, steps)
  {
    if ReadAt(chunk, p, steps).Some? {
      var n := ReadEnds(chunk, p, steps);
    }
    if Arrives(chunk, p, steps) {
      var n: nat :| n < steps && AtEnd(chunk, Walk(chunk, p, n));
      EndIsRead(chunk, p, steps, n);
    }
  }

  // More turns do not change what is read.
  lemma {:induction false} ReadMore(chunk: seq<byte>, p: nat, steps: nat, more: nat)
    requires ReadAt(chunk, p, steps).Some? && steps <= more
    ensures ReadAt(chunk, p, more) == ReadAt(chunk, p, steps)
    decreases steps
  {
    if chunk[p] != 0 { ReadMore(chunk, Next(chunk, p).value, steps - 1, more - 1); }
  }

  lemma {:induction false} WalkSum(chunk: seq<byte>, p: nat, a: nat, b: nat)
    requires Walk(chunk, p, a).Some?
    ensures Walk(chunk, p, a + b) == Walk(chunk, Walk(chunk, p, a).value, b)
    decreases a
  {
    if a > 0 { WalkSum(chunk, Next(chunk, p).value, a - 1, b); }
  }

  // On the way to the end of a name every position lies in the message.
  lemma {:induction false} WalkInside(chunk: seq<byte>, p: nat, n: nat, i: nat)
    requires AtEnd(chunk, Walk(chunk, p, n)) && i <= n
    ensures Walk(chunk, p, i).Some? && Walk(chunk, p, i).value < |chunk|
    decreases i
  {
    if i > 0 { WalkInside(chunk, Next(chunk, p).value, n - 1, i - 1); }
  }

  // More than |m| numbers below |m| are not all different.
  lemma {:induction false} Pigeonhole(ps: seq<nat>, m: nat) returns (i: nat, j: nat)
    requires |ps| > m && forall k :: 0 <= k < |ps| ==> ps[k] < m
    ensures i < j < |ps| && ps[i] == ps[j]
    decreases m
  {
    assert ps[0] < m;
    if a, b :| 0 <= a < b < |ps| && ps[a] == ps[b] == m - 1 {
      i, j := a, b;
    } else if a :| 0 <= a < |ps| && ps[a] == m - 1 {
      var rest := ps[..a] + ps[a + 1..];
      assert forall k :: 0 <= k < |rest| ==> rest[k] == ps[if k < a then k else k + 1];
      i, j := Pigeonhole(rest, m - 1);
      i, j := if i < a then i else i + 1, if j < a then j else j + 1;
    } else {
      i, j := Pigeonhole(ps, m - 1);
    }
  }

  // A walk that comes to the end of a name without going round in circles has fewer turns than the
  // message has bytes.
  lemma {:induction false} ShortWalk(chunk: seq<byte>, p: nat, n: nat) returns (m: nat)
    requires AtEnd(chunk, Walk(chunk, p, n))
    ensures m < |chunk| && AtEnd(chunk, Walk(chunk, p, m))
    decreases n
  {
    m := n;
    if n >= |chunk| {
      forall k | 0 <= k <= n ensures Walk(chunk, p, k).Some? && Walk(chunk, p, k).value < |chunk| {
        WalkInside(chunk, p, n, k);
      }
      var ps := seq(n + 1, k requires 0 <= k <= n => Walk(chunk, p, k).value);
      var i, j := Pigeonhole(ps, |chunk|);
      WalkSum(chunk, p, i, n - j);
      WalkSum(chunk, p, j, n - j);
      m := ShortWalk(chunk, p, i + (n - j));
    }
  }

  // The decoder comes to an end if and only if it does so within as many turns as the message has
  // bytes, and then it reads the same name.
  lemma ReadsIff(chunk: seq<byte>, p: nat)
    ensures (exists steps: nat :: ReadAt(chunk, p, steps).Some?) <==> ReadAt(chunk, p, |chunk|).Some?
    ensures forall steps: nat :: ReadAt(chunk, p, steps).Some? ==> ReadAt(chunk, p, steps) == ReadAt(chunk, p, |chunk|)
  {
    forall steps: nat | ReadAt(chunk, p, steps).Some?
      ensures ReadAt(chunk, p, steps) == ReadAt(chunk, p, |chunk|)
    {
      var n := ReadEnds(chunk, p, steps);
      var m := ShortWalk(chunk, p, n);
      EndIsRead(chunk, p, |chunk|, m);
      if steps <= |chunk| {
        ReadMore(chunk, p, steps, |chunk|);
      } else {
        ReadMore(chunk, p, |chunk|, steps);
      }
    }
  }

  // At a pointer to itself the decoder stays for ever.
  lemma {:induction false} SelfPointer(chunk: seq<byte>, p: nat, n: nat)
    requires p + 1 < |chunk| && chunk[p] >= 0xC0 && chunk[p + 1] == p
    ensures Walk(chunk, p, n) == Some(p) && ReadAt(chunk, p, n) == None
  {
    if n > 0 { SelfPointer(chunk, p, n - 1); }
  }

  // A name by the standard whose pointers are near is what the decoder reads.
  lemma {:induction false} NearIsRead(chunk: seq<byte>, start: nat, p: nat) returns (steps: nat)
    requires NameAt(chunk, start, p).Some? && NearPointers(chunk, start, p)
    ensures ReadAt(chunk, p, steps) == NameAt(chunk, start, p)
    decreases start, |chunk| - p
  {
    var b := chunk[p];
    if b == 0 {
      steps := 1;
    } else if b >= 0xC0 {
      var rest := NearIsRead(chunk, chunk[p + 1], chunk[p + 1]);
      steps := rest + 1;
    } else {
      var rest := NearIsRead(chunk, start, p + 1 + b);
      steps := rest + 1;
    }
  }

  // The name ends at once behind a pointer, or where it began; |first| says that |p| is such a place.
  predicate EndsBare(chunk: seq<byte>, p: nat, steps: nat, first: bool)
    requires ReadAt(chunk, p, steps).Some?
    decreases steps
  {
    if chunk[p] == 0 then first else EndsBare(chunk, Next(chunk, p).value, steps - 1, chunk[p] >= 0xC0)
  }

  // A label as `dns_parse_name` copies it: a dot follows unless a zero byte comes next.
  function LabelText(chunk: seq<byte>, p: nat): seq<byte>
    requires p < |chunk| && p + 1 + chunk[p] < |chunk|
  {
    var q := p + 1 + chunk[p];
    chunk[p + 1..q] + Dot(chunk[q] != 0)
  }

  // What `dns_parse_name` writes from |p| on.
  function Text(chunk: seq<byte>, p: nat, steps: nat): seq<byte>
    requires ReadAt(chunk, p, steps).Some?
    decreases steps
  {
    if chunk[p] == 0 then []
    else
      var rest := Text(chunk, Next(chunk, p).value, steps - 1);
      if chunk[p] >= 0xC0 then rest else LabelText(chunk, p) + rest
  }

  // |buf| with |bytes| written over it from |at| on.
  function Patch(buf: seq<byte>, at: nat, bytes: seq<byte>): (r: seq<byte>)
    requires at + |bytes| <= |buf|
    ensures |r| == |buf|
  {
    buf[..at] + bytes + buf[at + |bytes|..]
  }

  lemma PatchTwice(buf: seq<byte>, at: nat, a: seq<byte>, b: seq<byte>)
    requires at + |a| + |b| <= |buf|
    ensures Patch(Patch(buf, at, a), at + |a|, b) == Patch(buf, at, a + b)
  {
  }

  method CopyBytes(bytes: seq<byte>, out: array<byte>, at: nat)
    requires at + |bytes| <= out.Length
    modifies out
    ensures out[..] == Patch(old(out[..]), at, bytes)
  {
    for k := 0 to |bytes|
      invariant forall j :: 0 <= j < out.Length ==>
                  out[j] == if at <= j < at + k then bytes[j - at] else old(out[j])
    {
      out[at + k] := bytes[k];
    }
  }

  // The decoder stands at |p|, has written |done| and has the rest of |text| ahead.
  ghost predicate Reading(chunk: seq<byte>, p: nat, steps: nat, done: seq<byte>, text: seq<byte>) {
    ReadAt(chunk, p, steps).Some? && text == done + Text(chunk, p, steps)
  }

  lemma ReadLabel(chunk: seq<byte>, p: nat, steps: nat, done: seq<byte>, text: seq<byte>)
    requires Reading(chunk, p, steps, done, text) && 0 < chunk[p] < 0xC0
    ensures p + 1 + chunk[p] < |chunk| && |done| + |LabelText(chunk, p)| <= |text| && steps > 0
    ensures Reading(chunk, p + 1 + chunk[p], steps - 1, done + LabelText(chunk, p), text)
  {
  }

  lemma ReadRest(chunk: seq<byte>, p: nat, steps: nat, done: seq<byte>, text: seq<byte>)
    requires Reading(chunk, p, steps, done, text)
    ensures p < |chunk| && steps > 0 && (chunk[p] == 0 ==> text == done)
    ensures chunk[p] >= 0xC0 ==>
              && p + 1 < |chunk| && ReadAt(chunk, chunk[p + 1], steps - 1).Some?
              && text == done + Text(chunk, chunk[p + 1], steps - 1)
  {
  }

  // The branch of `dns_parse_name` that copies one label.
  method CopyLabel(chunk: seq<byte>, ptr: nat, out: array<byte>, pos: nat) returns (next: nat, end: nat)
    requires ptr < |chunk| && ptr + 1 + chunk[ptr] < |chunk|
    requires pos + |LabelText(chunk, ptr)| <= out.Length
    modifies out
    ensures next == ptr + 1 + chunk[ptr] && end == pos + |LabelText(chunk, ptr)|
    ensures out[..] == Patch(old(out[..]), pos, LabelText(chunk, ptr))
  {
    var flag := chunk[ptr];
    var bytes := chunk[ptr + 1..ptr + 1 + flag];
    next, end := ptr + 1 + flag, pos + flag;
    CopyBytes(bytes, out, pos);
    if chunk[next] != 0 {
      CopyBytes([DOT], out, end);
      PatchTwice(old(out[..]), pos, bytes, [DOT]);
      end := end + 1;
    } else {
      assert LabelText(chunk, ptr) == bytes;
    }
  }

  // |cur| is |buf| with |done| written from |len| on, up to |end|.
  ghost predicate Written(cur: seq<byte>, buf: seq<byte>, len: nat, done: seq<byte>, end: nat) {
    && end == len + |done| <= |buf| == |cur|
    && forall i {:trigger cur[i]} :: 0 <= i < |cur| ==> cur[i] == if len <= i < end then done[i - len] else buf[i]
  }

  lemma WriteRest(cur: seq<byte>, buf: seq<byte>, len: nat, done: seq<byte>, at: nat,
                  after: seq<byte>, more: seq<byte>, end: nat)
    requires Written(cur, buf, len, done, at) && Written(after, cur, at, more, end)
    ensures Written(after, buf, len, done + more, end)
  {
  }

  lemma WriteNone(buf: seq<byte>, len: nat)
    requires len <= |buf|
    ensures Written(buf, buf, len, [], len)
  {
  }

  lemma WritePatch(buf: seq<byte>, at: nat, bytes: seq<byte>)
    requires at + |bytes| <= |buf|
    ensures Written(Patch(buf, at, bytes), buf, at, bytes, at + |bytes|)
  {
  }

  // `dns_parse_name`: on every message on which it comes to the end of the name, writes the text of
  // the name at |start| into |out| from |len| on.
  method ParseName(chunk: seq<byte>, start: nat, out: array<byte>, len: nat, ghost steps: nat) returns (end: nat)
    requires ReadAt(chunk, start, steps).Some?
    requires len + |Text(chunk, start, steps)| <= out.Length
    modifies out
    ensures Written(out[..], old(out[..]), len, Text(chunk, start, steps), end)
    decreases steps, 1
  {
    ghost var buf, text := out[..], Text(chunk, start, steps);
    WriteNone(buf, len);
    end := ParseFrom(chunk, start, out, len, steps, buf, text);
  }

  // The loop of `dns_parse_name`, which is to write |text|.
  method ParseFrom(chunk: seq<byte>, start: nat, out: array<byte>, len: nat, ghost steps: nat,
                   ghost buf: seq<byte>, ghost text: seq<byte>)
    returns (end: nat)
    requires Reading(chunk, start, steps, [], text) && Written(out[..], buf, len, [], len)
    requires len + |text| <= out.Length
    modifies out
    ensures Written(out[..], buf, len, text, end)
    decreases steps, 0
  {
    ghost var left: nat, done: seq<byte> := steps, [];
    var ptr: nat := start;
    end := len;
    while true
      invariant left <= steps && Reading(chunk, ptr, left, done, text)
      invariant Written(out[..], buf, len, done, end)
      decreases left
    {
      ReadRest(chunk, ptr, left, done, text);
      var flag := chunk[ptr];
      if flag == 0 { return; }
      if flag >= 0xC0 {
        end := Follow(chunk, chunk[ptr + 1], out, end, left - 1, buf, len, done, text);
        return;
      }
      ReadLabel(chunk, ptr, left, done, text);
      ghost var piece := LabelText(chunk, ptr);
      ptr, end := TakeLabel(chunk, ptr, out, end, buf, len, done);
      left, done := left - 1, done + piece;
    }
  }

  // The rest of a name behind a pointer: the recursive call.
  method Follow(chunk: seq<byte>, start: nat, out: array<byte>, at: nat, ghost steps: nat,
                ghost buf: seq<byte>, ghost len: nat, ghost done: seq<byte>, ghost text: seq<byte>)
    returns (end: nat)
    requires Written(out[..], buf, len, done, at) && len + |text| <= out.Length
    requires ReadAt(chunk, start, steps).Some? && text == done + Text(chunk, start, steps)
    modifies out
    ensures Written(out[..], buf, len, text, end)
    decreases steps, 2
  {
    ghost var cur := out[..];
    end := ParseName(chunk, start, out, at, steps);
    WriteRest(cur, buf, len, done, at, out[..], Text(chunk, start, steps), end);
  }

  // One label, behind what is written already.
  method TakeLabel(chunk: seq<byte>, ptr: nat, out: array<byte>, at: nat,
                   ghost buf: seq<byte>, ghost len: nat, ghost done: seq<byte>)
    returns (next: nat, end: nat)
    requires ptr < |chunk| && ptr + 1 + chunk[ptr] < |chunk| && Written(out[..], buf, len, done, at)
    requires at + |LabelText(chunk, ptr)| <= out.Length
    modifies out
    ensures next == ptr + 1 + chunk[ptr] && Written(out[..], buf, len, done + LabelText(chunk, ptr), end)
  {
    ghost var cur := out[..];
    next, end := CopyLabel(chunk, ptr, out, at);
    WritePatch(cur, at, LabelText(chunk, ptr));
    WriteRest(cur, buf, len, done, at, out[..], LabelText(chunk, ptr), end);
  }

  // |text| is the dotted join of the labels of |n|, with one dot more when it ends bare after a label.
  predicate Shows(text: seq<byte>, n: Name, bare: bool) {
    text == Dotted(n) + Dot(n.Child? && bare)
  }

  // The decoder yields the dotted labels it reads, plus one dangling dot exactly when the last
  // pointer leads to the root after at least one label.
  lemma {:induction false} TextIsLabels(chunk: seq<byte>, p: nat, steps: nat, first: bool)
    requires ReadAt(chunk, p, steps).Some?
    ensures Shows(Text(chunk, p, steps), ReadAt(chunk, p, steps).value, EndsBare(chunk, p, steps, first))
    ensures ReadAt(chunk, p, steps).value.Root? && chunk[p] != 0 ==> EndsBare(chunk, p, steps, first)
    decreases steps
  {
    if chunk[p] != 0 {
      var q := Next(chunk, p).value;
      TextIsLabels(chunk, q, steps - 1, chunk[p] >= 0xC0);
      if chunk[p] < 0xC0 { TextBehindLabel(chunk, p, steps, first); }
    }
  }

  lemma TextBehindLabel(chunk: seq<byte>, p: nat, steps: nat, first: bool)
    requires ReadAt(chunk, p, steps).Some? && 0 < chunk[p] < 0xC0
    requires var q, left := Next(chunk, p).value, steps - 1;
             && Shows(Text(chunk, q, left), ReadAt(chunk, q, left).value, EndsBare(chunk, q, left, false))
             && (ReadAt(chunk, q, left).value.Root? && chunk[q] != 0 ==> EndsBare(chunk, q, left, false))
    ensures Shows(Text(chunk, p, steps), ReadAt(chunk, p, steps).value, EndsBare(chunk, p, steps, first))
  {
    var q, left := Next(chunk, p).value, steps - 1;
    OneMoreLabel(chunk[p + 1..q], ReadAt(chunk, q, left).value, chunk[q] != 0,
                 EndsBare(chunk, q, left, false), Text(chunk, q, left));
  }

  lemma OneMoreLabel(l: Label, more: Name, dot: bool, bare: bool, rest: seq<byte>)
    requires (if more.Root? then dot == bare else dot) && Shows(rest, more, bare)
    ensures Shows((l + Dot(dot)) + rest, Child(l, more), bare)
  {
    if more.Child? {
      Join(l, Dotted(more), Dot(bare));
    } else {
      assert (l + Dot(bare)) + ([] + []) == l + Dot(bare);
    }
  }

  // For every message: the text is the dotted join of the labels read exactly when no dot dangles.
  lemma DecodeExact(chunk: seq<byte>, p: nat, steps: nat)
    requires ReadAt(chunk, p, steps).Some?
    ensures var n := ReadAt(chunk, p, steps).value;
            Text(chunk, p, steps) == Dotted(n) <==> n.Root? || !EndsBare(chunk, p, steps, true)
  {
    TextIsLabels(chunk, p, steps, true);
  }

  // A message whose only answer is named by a label and a pointer to the zero first byte of the
  // question count: the name is "a", the decoder writes "a.".
  lemma DotDangles()
    ensures var chunk: seq<byte> := [18, 52, 129, 128, 0, 0, 0, 1, 0, 0, 0, 0, 1, 97, 0xC0, 4];
            && NameAt(chunk, 12, 12) == Some(Child([97], Root)) && NearPointers(chunk, 12, 12)
            && ReadAt(chunk, 12, 3).Some? && Text(chunk, 12, 3) == [97, DOT]
  {
    var chunk: seq<byte> := [18, 52, 129, 128, 0, 0, 0, 1, 0, 0, 0, 0, 1, 97, 0xC0, 4];
    assert NameAt(chunk, 4, 4) == Some(Root);
    assert NameAt(chunk, 12, 14) == Some(Root);
    assert chunk[13..14] == [97];
    assert ReadAt(chunk, 4, 1) == Some(Root);
    assert ReadAt(chunk, 14, 2) == Some(Root);
    assert Text(chunk, 14, 2) == [];
    assert LabelText(chunk, 12) == [97, DOT];
  }

  // A pointer to offset 256, where the name is "b": the decoder reads at offset 0 instead.
  lemma FarPointerMisread(chunk: seq<byte>)
    requires |chunk| == 261 && chunk[256..] == [1, 98, 0, 0xC1, 0] && chunk[0] == 0
    ensures NameAt(chunk, 259, 259) == Some(Child([98], Root)) && ReadAt(chunk, 259, 2) == Some(Root)
  {
    assert forall i :: 256 <= i < 261 ==> chunk[i] == chunk[256..][i - 256];
    assert NameAt(chunk, 256, 258) == Some(Root);
    assert chunk[257..258] == [98];
    assert NameAt(chunk, 256, 256) == Some(Child([98], Root));
    assert ReadAt(chunk, 0, 1) == Some(Root);
  }

  // ---- round trip ----

  lemma EncodedRoot(chunk: seq<byte>, p: nat)
    requires p <= |chunk| && Encoded(Root) <= chunk[p..]
    ensures p < |chunk| && chunk[p] == 0
  {
    assert chunk[p] == chunk[p..][0];
  }

  lemma ReadChild(chunk: seq<byte>, p: nat, l: Label, more: Name, steps: nat)
    requires 1 <= |l| < 63 && p + 1 + |l| < |chunk| && chunk[p] == |l| && chunk[p + 1..p + 1 + |l|] == l
    requires ReadAt(chunk, p + 1 + |l|, steps) == Some(more)
    ensures ReadAt(chunk, p, steps + 1) == Some(Child(l, more))
  {
  }

  // The labels of |n| stand one behind the other from |p| on, closed by a zero byte.
  ghost predicate StandsAt(chunk: seq<byte>, p: nat, n: Name)
    decreases n
  {
    p < |chunk| &&
    match n
    case Root => chunk[p] == 0
    case Child(l, more) =>
      && 1 <= |l| < 63 && p + 1 + |l| < |chunk| && chunk[p] == |l| && chunk[p + 1..p + 1 + |l|] == l
      && StandsAt(chunk, p + 1 + |l|, more)
  }

  lemma {:induction false} EncodedStands(chunk: seq<byte>, p: nat, n: Name)
    requires p <= |chunk| && Valid(n) && Encoded(n) <= chunk[p..]
    ensures StandsAt(chunk, p, n)
    decreases n
  {
    if n.Root? {
      EncodedRoot(chunk, p);
    } else {
      NextEncoded(chunk, p, n);
      EncodedStands(chunk, p + 1 + |n.head|, n.rest);
    }
  }

  lemma {:induction false} ReadsStanding(chunk: seq<byte>, p: nat, n: Name)
    requires StandsAt(chunk, p, n)
    ensures ReadAt(chunk, p, Labels(n) + 1) == Some(n)
    decreases n
  {
    if n.Child? {
      ReadsStanding(chunk, p + 1 + |n.head|, n.rest);
      ReadChild(chunk, p, n.head, n.rest, Labels(n.rest) + 1);
    }
  }

  lemma ReadsEncoded(chunk: seq<byte>, p: nat, n: Name)
    requires p <= |chunk| && Valid(n) && Encoded(n) <= chunk[p..]
    ensures ReadAt(chunk, p, Labels(n) + 1) == Some(n)
  {
    EncodedStands(chunk, p, n);
    ReadsStanding(chunk, p, n);
  }

  lemma {:induction false} EncodedNotBare(chunk: seq<byte>, p: nat, n: Name, first: bool)
    requires p <= |chunk| && Valid(n) && n.Child? && Encoded(n) <= chunk[p..]
    ensures ReadAt(chunk, p, Labels(n) + 1) == Some(n) && !EndsBare(chunk, p, Labels(n) + 1, first)
    decreases n
  {
    var q := p + 1 + |n.head|;
    ReadsEncoded(chunk, p, n);
    NextEncoded(chunk, p, n);
    if n.rest.Root? {
      EncodedRoot(chunk, q);
    } else {
      EncodedNotBare(chunk, q, n.rest, false);
    }
  }

  lemma NextEncoded(chunk: seq<byte>, p: nat, n: Name)
    requires p <= |chunk| && Valid(n) && n.Child? && Encoded(n) <= chunk[p..]
    ensures var q := p + 1 + |n.head|;
            && q < |chunk| && chunk[p] == |n.head| && chunk[p + 1..q] == n.head && Encoded(n.rest) <= chunk[q..]
  {
    EncodedAt(chunk, p, n.head, Encoded(n.rest));
    assert |Encoded(n.rest)| > 0;
  }

  // One encoded label in a message, and what follows it.
  lemma EncodedAt(chunk: seq<byte>, p: nat, l: Label, more: seq<byte>)
    requires p <= |chunk| && |l| < 0x100 && [|l|] + l + more <= chunk[p..]
    ensures p + 1 + |l| <= |chunk| && chunk[p] == |l|
    ensures chunk[p + 1..p + 1 + |l|] == l && more <= chunk[p + 1 + |l|..]
  {
    var e, q := [|l|] + l + more, p + 1 + |l|;
    assert chunk[p..][..|e|] == e;
    assert chunk[p + 1..q] == chunk[p..][1..1 + |l|] == e[1..1 + |l|];
    assert chunk[q..] == chunk[p..][1 + |l|..] && e[1 + |l|..] == more;
  }

  // Decoding what the encoder wrote, wherever it stands in a message, gives the host name
  // back, less the dot it may end in.
  lemma NameRoundTrip(host: seq<byte>, before: seq<byte>, chunk: seq<byte>, p: nat) returns (steps: nat)
    requires |host| < 0x8000_0000 && EncodeHostname(host, before).code == 0
    requires p <= |chunk| && EncodeHostname(host, before).bytes <= chunk[p..]
    ensures ReadAt(chunk, p, steps).Some? && host == Text(chunk, p, steps) + LastDot(host)
  {
    var n := Split(host, 0);
    EncodedSplit(host, before);
    steps := Labels(n) + 1;
    TextOfEncoded(chunk, p, n);
  }

  lemma TextOfEncoded(chunk: seq<byte>, p: nat, n: Name)
    requires p <= |chunk| && Valid(n) && n.Child? && Encoded(n) <= chunk[p..]
    ensures ReadAt(chunk, p, Labels(n) + 1) == Some(n) && Text(chunk, p, Labels(n) + 1) == Dotted(n)
  {
    EncodedNotBare(chunk, p, n, true);
    TextIsLabels(chunk, p, Labels(n) + 1, true);
    ShowsPlain(Text(chunk, p, Labels(n) + 1), n);
  }

  lemma ShowsPlain(text: seq<byte>, n: Name)
    requires Shows(text, n, false)
    ensures text == Dotted(n)
  {
  }
}
