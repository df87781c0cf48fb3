/** Byte-level codec: the 24-byte header of section 1 of the protocol description (little
    endian), the header parser of `ikcp_input`, and their round trip. */
module Codec {
  import opened Words
  import opened Segments

  type Bytes = seq<byte>

  function Le16(x: u16): (s: Bytes)
    ensures |s| == 2
  {
    [x % 256, x / 256]
  }

  function Le32(x: u32): (s: Bytes)
    ensures |s| == 4
  {
    [x % 256, x / 256 % 256, x / 65536 % 256, x / 16777216]
  }

  function GetLe16(s: Bytes, at: nat): u16
    requires at + 2 <= |s|
  {
    s[at] as int + 256 * s[at + 1] as int
  }

  function GetLe32(s: Bytes, at: nat): u32
    requires at + 4 <= |s|
  {
    s[at] as int + 256 * s[at + 1] as int + 65536 * s[at + 2] as int + 16777216 * s[at + 3] as int
  }

  // The word four bytes stand for, least significant first.
  function Word(a: byte, b: byte, c: byte, d: byte): u32 {
    a as int + 256 * b as int + 65536 * c as int + 16777216 * d as int
  }

  // `ikcp_encode_seg` followed by the payload copy.
  function Header(w: Wire): (s: Bytes)
    ensures |s| == 24
  {
    Le32(w.conv) + [w.cmd, w.frg] + Le16(w.wnd) + Le32(w.ts) + Le32(w.sn) + Le32(w.una) + Le32(Wrap(|w.data|))
  }

  function Encode(w: Wire): (s: Bytes)
    ensures |s| == 24 + |w.data|
  {
    Header(w) + w.data
  }

  function EncodeAll(ws: seq<Wire>): Bytes {
    if ws == [] then [] else Encode(ws[0]) + EncodeAll(ws[1..])
  }

  /** What the header parser makes of a datagram: the segments it accepts, in order, and the
      code `ikcp_input` returns (0 when the datagram ends cleanly). */
  datatype Scan = Scan(segs: seq<Wire>, code: int)

  function HeaderAt(data: Bytes, len: nat): Wire
    requires 24 + len <= |data|
  {
    Wire(GetLe32(data, 0), data[4], data[5], GetLe16(data, 6), GetLe32(data, 8), GetLe32(data, 12),
         GetLe32(data, 16), data[24..24 + len])
  }

  // The error branches of one turn of the parser's loop, in the order of the source.
  function Reject(conv: u32, data: Bytes): (code: int)
    requires |data| >= 24
  {
    var len := GetLe32(data, 20);
    if GetLe32(data, 0) != conv then -1
    else if |data| - 24 < len || len >= 0x8000_0000 then -2
    else if !KnownCmd(data[4]) then -3
    else 0
  }

  function Parse(conv: u32, data: Bytes): Scan
    decreases |data|
  {
    if |data| < 24 then Scan([], 0)
    else if Reject(conv, data) != 0 then Scan([], Reject(conv, data))
    else
      var len := GetLe32(data, 20);
      var rest := Parse(conv, data[24 + len..]);
      Scan([HeaderAt(data, len)] + rest.segs, rest.code)
  }

  // A segment this endpoint pair may legitimately put on the wire.
  predicate Sendable(conv: u32, w: Wire) {
    w.conv == conv && KnownCmd(w.cmd) && |w.data| < 0x8000_0000
  }

  // A word is the sum of its bytes,
  lemma BytesOfWord(x: int)
    ensures x == x % 256 + 256 * (x / 256 % 256) + 65536 * (x / 65536 % 256) + 16777216 * (x / 16777216)
  {
    assert x == 256 * (x / 256) + x % 256;
    assert x / 256 == 256 * (x / 65536) + x / 256 % 256;
    assert x / 65536 == 256 * (x / 16777216) + x / 65536 % 256;
  }

  // and the bytes are determined by the sum.
  lemma WordOfBytes(x: int, a: int, b: int, c: int, d: int)
    requires 0 <= a < 256 && 0 <= b < 256 && 0 <= c < 256
    requires x == a + 256 * b + 65536 * c + 16777216 * d
    ensures x % 256 == a && x / 256 % 256 == b && x / 65536 % 256 == c && x / 16777216 == d
  {
    assert x / 256 == b + 256 * c + 65536 * d;
    assert x / 65536 == c + 256 * d;
  }

  lemma Le32Value(x: u32, a: byte, b: byte, c: byte, d: byte)
    requires [a, b, c, d] == Le32(x)
    ensures a as int + 256 * b as int + 65536 * c as int + 16777216 * d as int == x
  {
    var l := [a, b, c, d];
    assert l[0] == x % 256 && l[1] == x / 256 % 256 && l[2] == x / 65536 % 256 && l[3] == x / 16777216;
    BytesOfWord(x);
  }

  lemma Le32RoundTrip(x: u32, s: Bytes, at: nat)
    requires at + 4 <= |s| && s[at..at + 4] == Le32(x)
    ensures GetLe32(s, at) == x
  {
    assert s[at..at + 4] == [s[at], s[at + 1], s[at + 2], s[at + 3]];
    Le32Value(x, s[at], s[at + 1], s[at + 2], s[at + 3]);
  }

  lemma Le16RoundTrip(x: u16, s: Bytes, at: nat)
    requires at + 2 <= |s| && s[at..at + 2] == Le16(x)
    ensures GetLe16(s, at) == x
  {
    var l := Le16(x);
    assert s[at] == s[at..at + 2][0] == l[0] && s[at + 1] == s[at..at + 2][1] == l[1];
  }

  lemma HeaderFields(w: Wire)
    ensures var h := Header(w);
            && h[0..4] == Le32(w.conv) && h[4] == w.cmd && h[5] == w.frg && h[6..8] == Le16(w.wnd)
            && h[8..12] == Le32(w.ts) && h[12..16] == Le32(w.sn) && h[16..20] == Le32(w.una)
            && h[20..24] == Le32(Wrap(|w.data|))
  {
  }

  lemma WordRead(h: Bytes, at: nat, x: u32)
    requires at + 4 <= |h| && h[at..at + 4] == Le32(x)
    ensures Word(h[at], h[at + 1], h[at + 2], h[at + 3]) == x
  {
    assert h[at..at + 4] == [h[at], h[at + 1], h[at + 2], h[at + 3]];
    Le32Value(x, h[at], h[at + 1], h[at + 2], h[at + 3]);
  }

  // Where the numbers of a segment stand in its header, the least significant byte first.
  lemma HeaderNumbers(w: Wire)
    ensures var h := Header(w);
            && Word(h[0], h[1], h[2], h[3]) == w.conv && h[4] == w.cmd && h[5] == w.frg
            && h[6] as int + 256 * h[7] as int == w.wnd
            && Word(h[8], h[9], h[10], h[11]) == w.ts && Word(h[12], h[13], h[14], h[15]) == w.sn
            && Word(h[16], h[17], h[18], h[19]) == w.una && Word(h[20], h[21], h[22], h[23]) == Wrap(|w.data|)
  {
    var h := Header(w);
    HeaderFields(w);
    WordRead(h, 0, w.conv);
    Le16RoundTrip(w.wnd, h, 6);
    WordRead(h, 8, w.ts);
    WordRead(h, 12, w.sn);
    WordRead(h, 16, w.una);
    WordRead(h, 20, Wrap(|w.data|));
  }

  lemma Word32At(h: Bytes, at: nat, rest: Bytes, x: u32)
    requires at + 4 <= |h| && h[at..at + 4] == Le32(x)
    ensures GetLe32(h + rest, at) == x
  {
    assert (h + rest)[at..at + 4] == h[at..at + 4];
    Le32RoundTrip(x, h + rest, at);
  }

  lemma Word16At(h: Bytes, at: nat, rest: Bytes, x: u16)
    requires at + 2 <= |h| && h[at..at + 2] == Le16(x)
    ensures GetLe16(h + rest, at) == x
  {
    assert (h + rest)[at..at + 2] == h[at..at + 2];
    Le16RoundTrip(x, h + rest, at);
  }

  // The header of a segment reads back, whatever follows it.
  lemma FieldsRead(w: Wire, rest: Bytes)
    requires |w.data| < 0x8000_0000
    ensures var data := Header(w) + rest;
            && GetLe32(data, 0) == w.conv && data[4] == w.cmd && data[5] == w.frg && GetLe16(data, 6) == w.wnd
            && GetLe32(data, 8) == w.ts && GetLe32(data, 12) == w.sn && GetLe32(data, 16) == w.una
            && GetLe32(data, 20) == |w.data|
  {
    var h := Header(w);
    HeaderFields(w);
    Word32At(h, 0, rest, w.conv);
    Word16At(h, 6, rest, w.wnd);
    Word32At(h, 8, rest, w.ts);
    Word32At(h, 12, rest, w.sn);
    Word32At(h, 16, rest, w.una);
    Word32At(h, 20, rest, |w.data|);
  }

  // Decoding an encoded segment restores every field, whatever follows it.
  lemma HeaderRoundTrip(conv: u32, w: Wire, tail: Bytes)
    requires Sendable(conv, w)
    ensures var data := Encode(w) + tail;
            && GetLe32(data, 20) == |w.data|
            && Reject(conv, data) == 0
            && HeaderAt(data, |w.data|) == w
            && data[24 + |w.data|..] == tail
  {
    var h, rest := Header(w), w.data + tail;
    var data := h + rest;
    assert Encode(w) + tail == data;
    FieldsRead(w, rest);
    assert data[24..24 + |w.data|] == w.data;
  }

  // The parser inverts the encoder on every list of sendable segments.
  lemma {:induction false} ParseEncoded(conv: u32, ws: seq<Wire>)
    requires forall k :: 0 <= k < |ws| ==> Sendable(conv, ws[k])
    ensures Parse(conv, EncodeAll(ws)) == Scan(ws, 0)
  {
    if ws == [] {
    } else {
      var tail := EncodeAll(ws[1..]);
      HeaderRoundTrip(conv, ws[0], tail);
      ParseEncoded(conv, ws[1..]);
      assert ws == [ws[0]] + ws[1..];
    }
  }

  // Whatever the bytes, every accepted segment belongs to the conversation, carries a known
  // command and fits the datagram; the code is one of the four the source returns.
  lemma {:induction false} ParseSound(conv: u32, data: Bytes)
    ensures var r := Parse(conv, data);
            && r.code in {0, -1, -2, -3}
            && (forall k :: 0 <= k < |r.segs| ==> Sendable(conv, r.segs[k]))
    decreases |data|
  {
    if |data| >= 24 && Reject(conv, data) == 0 {
      ParseSound(conv, data[24 + GetLe32(data, 20)..]);
    }
  }

  // Why the parser gives up on a header: another conversation is -1, a length beyond the rest of the
  // datagram or of 2^31 and more -2, an unknown command -3, in this order.
  lemma RejectIs(conv: u32, data: Bytes)
    requires |data| >= 24
    ensures var id, len := Word(data[0], data[1], data[2], data[3]), Word(data[20], data[21], data[22], data[23]);
            Reject(conv, data) ==
              if id != conv then -1
              else if len > |data| - 24 || len >= 0x8000_0000 then -2
              else if data[4] !in {81, 82, 83, 84} then -3
              else 0
  {
  }

  lemma ParseNext(conv: u32, data: Bytes)
    requires |data| >= 24 && Reject(conv, data) == 0
    ensures var len := GetLe32(data, 20);
            && Parse(conv, data).segs == [HeaderAt(data, len)] + Parse(conv, data[24 + len..]).segs
            && Parse(conv, data).code == Parse(conv, data[24 + len..]).code
  {
  }

  // How far one accepted segment takes the parser.
  lemma ParseGoes(conv: u32, data: Bytes) returns (n: nat)
    requires |data| >= 24 && Reject(conv, data) == 0
    ensures 0 < n <= |data| && Parse(conv, data).code == Parse(conv, data[n..]).code
    ensures |EncodeAll(Parse(conv, data).segs)| == n + |EncodeAll(Parse(conv, data[n..]).segs)|
  {
    var len := GetLe32(data, 20);
    n := 24 + len;
    ParseNext(conv, data);
    EncodeCons(HeaderAt(data, len), Parse(conv, data[n..]).segs);
  }

  // Parsing ends |at| bytes into the datagram with |code|: 0 when fewer than 24 bytes are left, and
  // otherwise the reason why the header there is rejected.
  ghost predicate StopsAt(conv: u32, data: Bytes, at: nat, code: int) {
    && at <= |data|
    && (code == 0 <==> |data| - at < 24)
    && (code != 0 ==> code == Reject(conv, data[at..]))
  }

  lemma StopsLater(conv: u32, data: Bytes, n: nat, at: nat, code: int)
    requires n <= |data| && StopsAt(conv, data[n..], at, code)
    ensures StopsAt(conv, data, n + at, code)
  {
    assert data[n..][at..] == data[n + at..];
  }

  lemma StopsHere(conv: u32, data: Bytes)
    requires |data| < 24 || Reject(conv, data) != 0
    ensures Parse(conv, data).segs == [] && StopsAt(conv, data, 0, Parse(conv, data).code)
  {
    assert data[0..] == data;
  }

  // The parser takes segments one after the other and stops behind the last one it accepts.
  lemma {:induction false} ParseStops(conv: u32, data: Bytes)
    ensures StopsAt(conv, data, |EncodeAll(Parse(conv, data).segs)|, Parse(conv, data).code)
    decreases |data|
  {
    if |data| >= 24 && Reject(conv, data) == 0 {
      var n := ParseGoes(conv, data);
      ParseStops(conv, data[n..]);
      StopsLater(conv, data, n, |EncodeAll(Parse(conv, data[n..]).segs)|, Parse(conv, data).code);
    } else {
      StopsHere(conv, data);
    }
  }

  // The accepted segments are a re-reading of the bytes: encoded again they are a prefix of the datagram.
  lemma {:induction false} ParseIsPrefix(conv: u32, data: Bytes)
    ensures EncodeAll(Parse(conv, data).segs) <= data
    decreases |data|
  {
    if |data| >= 24 && Reject(conv, data) == 0 {
      var len := GetLe32(data, 20);
      var next := data[24 + len..];
      ParseIsPrefix(conv, next);
      ParseNext(conv, data);
      EncodeCons(HeaderAt(data, len), Parse(conv, next).segs);
      EncodeHeader(data, len);
      PrefixOn(data, 24 + len, EncodeAll(Parse(conv, next).segs));
    }
  }

  lemma PrefixOn(data: Bytes, n: nat, more: Bytes)
    requires n <= |data| && more <= data[n..]
    ensures data[..n] + more <= data
  {
  }

  lemma Le32OfGet(s: Bytes, at: nat)
    requires at + 4 <= |s|
    ensures Le32(GetLe32(s, at)) == s[at..at + 4]
  {
    WordOfBytes(GetLe32(s, at), s[at], s[at + 1], s[at + 2], s[at + 3]);
  }

  lemma HeaderParts(w: Wire, a: Bytes, b: Bytes, c: Bytes, d: Bytes, e: Bytes, f: Bytes)
    requires a == Le32(w.conv) && b == Le16(w.wnd) && c == Le32(w.ts) && d == Le32(w.sn) && e == Le32(w.una)
    requires f == Le32(Wrap(|w.data|))
    ensures Header(w) == a + [w.cmd, w.frg] + b + c + d + e + f
  {
  }

  predicate IsWord(data: Bytes, at: nat, x: u32)
    requires at + 4 <= |data|
  {
    data[at..at + 4] == Le32(x)
  }

  predicate IsHalf(data: Bytes, at: nat, x: u16)
    requires at + 2 <= |data|
  {
    data[at..at + 2] == Le16(x)
  }

  lemma HalfAt(data: Bytes, at: nat)
    requires at + 2 <= |data|
    ensures IsHalf(data, at, GetLe16(data, at))
  {
    var l := Le16(GetLe16(data, at));
    assert l[0] == data[at] && l[1] == data[at + 1];
  }

  lemma WordAt(data: Bytes, at: nat)
    requires at + 4 <= |data|
    ensures IsWord(data, at, GetLe32(data, at))
  {
    Le32OfGet(data, at);
  }

  lemma HeaderOf(data: Bytes, w: Wire)
    requires 24 <= |data|
    requires IsWord(data, 0, w.conv) && IsWord(data, 8, w.ts) && IsWord(data, 12, w.sn) && IsWord(data, 16, w.una)
    requires IsWord(data, 20, Wrap(|w.data|))
    requires data[4] == w.cmd && data[5] == w.frg && IsHalf(data, 6, w.wnd)
    ensures Header(w) == data[..24]
  {
    HeaderParts(w, data[0..4], data[6..8], data[8..12], data[12..16], data[16..20], data[20..24]);
    Slices(data);
  }

  lemma Slices(data: Bytes)
    requires |data| >= 24
    ensures data[0..4] + [data[4], data[5]] + data[6..8] + data[8..12] + data[12..16] + data[16..20] + data[20..24]
         == data[..24]
  {
  }

  lemma FirstFields(data: Bytes, len: nat)
    requires 24 + len <= |data|
    ensures IsWord(data, 0, HeaderAt(data, len).conv) && IsHalf(data, 6, HeaderAt(data, len).wnd)
  {
    WordAt(data, 0);
    HalfAt(data, 6);
  }

  lemma LastFields(data: Bytes, len: nat)
    requires 24 + len <= |data| && GetLe32(data, 20) == len
    ensures var w := HeaderAt(data, len);
            && IsWord(data, 8, w.ts) && IsWord(data, 12, w.sn) && IsWord(data, 16, w.una)
            && IsWord(data, 20, Wrap(|w.data|))
  {
    WordAt(data, 8);
    WordAt(data, 12);
    WordAt(data, 16);
    WordAt(data, 20);
    WrapSmall(len);
  }

  lemma HeaderRead(data: Bytes, len: nat)
    requires 24 + len <= |data| && GetLe32(data, 20) == len
    ensures Header(HeaderAt(data, len)) == data[..24]
  {
    FirstFields(data, len);
    LastFields(data, len);
    HeaderOf(data, HeaderAt(data, len));
  }

  lemma EncodeHeader(data: Bytes, len: nat)
    requires 24 + len <= |data| && GetLe32(data, 20) == len
    ensures Encode(HeaderAt(data, len)) == data[..24 + len]
  {
    HeaderRead(data, len);
    assert data[..24 + len] == data[..24] + data[24..24 + len];
  }

  lemma EncodeCons(w: Wire, ws: seq<Wire>)
    ensures EncodeAll([w] + ws) == Encode(w) + EncodeAll(ws)
  {
    assert ([w] + ws)[1..] == ws;
  }

  lemma {:induction false} EncodeConcat(a: seq<Wire>, b: seq<Wire>)
    ensures EncodeAll(a + b) == EncodeAll(a) + EncodeAll(b)
  {
    if a == [] {
      assert a + b == b;
    } else {
      assert (a + b)[1..] == a[1..] + b;
      EncodeConcat(a[1..], b);
    }
  }

  lemma EncodeSnoc(a: seq<Wire>, w: Wire)
    ensures EncodeAll(a + [w]) == EncodeAll(a) + Encode(w)
  {
    EncodeConcat(a, [w]);
    assert EncodeAll([w][1..]) == [];
  }
}
