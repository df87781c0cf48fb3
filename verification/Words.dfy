/** A value that may be absent. */
module Wrappers {
  datatype Option<+T> = None | Some(value: T)
}

/** Fixed-width words of the engine: IUINT8, IUINT16 and IUINT32 as ranges of `int`,
    the wrap-around of 32-bit addition written out, and the wrapping comparison
    that orders serial numbers and timestamps. */
module Words {

  type byte = x: int | 0 <= x < 0x100
  type u16 = x: int | 0 <= x < 0x1_0000
  type u32 = x: int | 0 <= x < 0x1_0000_0000

  // Conversion of any integer to IUINT32.
  function Wrap(x: int): u32 {
    x % 0x1_0000_0000
  }

  // Conversion of any integer to IINT32 (two's complement).
  function Int32(x: int): (r: int)
    ensures -0x8000_0000 <= r < 0x8000_0000
  {
    var w := Wrap(x);
    if w < 0x8000_0000 then w else w - 0x1_0000_0000
  }

  // C division of signed integers by a positive constant: truncates toward zero.
  function TruncDiv(x: int, d: int): int
    requires d > 0
  {
    if x >= 0 then x / d else -((-x) / d)
  }

  function Min(a: int, b: int): int {
    if a <= b then a else b
  }

  function Max(a: int, b: int): int {
    if a >= b then a else b
  }

  // 32-bit addition.
  function Add(a: u32, b: u32): u32 {
    if a + b < 0x1_0000_0000 then a + b else a + b - 0x1_0000_0000
  }

  // `_itimediff`: the 32-bit difference read as a signed number.
  function Diff(later: u32, earlier: u32): (d: int)
    ensures -0x8000_0000 <= d < 0x8000_0000
  {
    var d := later - earlier;
    if d >= 0x8000_0000 then d - 0x1_0000_0000
    else if d < -0x8000_0000 then d + 0x1_0000_0000
    else d
  }

  lemma WrapSmall(x: int)
    requires 0 <= x < 0x1_0000_0000
    ensures Wrap(x) == x
  {
  }

  lemma Int32Small(x: int)
    requires -0x8000_0000 <= x < 0x8000_0000
    ensures Int32(x) == x
  {
  }

  // How far `to` lies ahead of `from` on the circle of serial numbers.
  function Dist(from: u32, to: u32): u32 {
    if to >= from then to - from else to - from + 0x1_0000_0000
  }

  // `_itimediff` is the signed 32-bit reading of the wrapped difference.
  lemma DiffIsInt32(later: u32, earlier: u32)
    ensures Diff(later, earlier) == Int32(later - earlier)
  {
  }

  // The wrapping comparison of two residues equals the difference of the unbounded
  // counters exactly when that difference fits a signed 32-bit word.
  lemma DiffExact(a: int, b: int)
    ensures Diff(Wrap(a), Wrap(b)) == a - b <==> -0x8000_0000 <= a - b < 0x8000_0000
  {
    var q, r := a / 0x1_0000_0000, b / 0x1_0000_0000;
    assert a == q * 0x1_0000_0000 + Wrap(a);
    assert b == r * 0x1_0000_0000 + Wrap(b);
  }

  // Distance on the circle recovers an unbounded distance below 2^32.
  lemma DistExact(a: int, b: int)
    requires 0 <= b - a < 0x1_0000_0000
    ensures Dist(Wrap(a), Wrap(b)) == b - a
  {
  }

  lemma AddWrap(a: int, b: u32)
    ensures Add(Wrap(a), b) == Wrap(a + b)
  {
  }

  lemma WrapPlus(a: int, n: nat)
    ensures Wrap(Wrap(a) + n) == Wrap(a + n)
  {
  }

  lemma DistPlus(a: u32, b: u32, n: nat)
    requires Dist(a, b) + n < 0x1_0000_0000
    ensures Dist(a, Wrap(b + n)) == Dist(a, b) + n
  {
  }

  // The converse reading: knowing a counter and a distance behind it identifies the
  // unbounded index of a serial number.
  lemma WrapBack(top: int, sn: u32)
    ensures Wrap(top - Dist(sn, Wrap(top))) == sn
  {
  }
}
