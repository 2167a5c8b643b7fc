/** Big-endian byte access as done through a JavaScript DataView, and the
    ArrayBuffer.slice rule the decoders rely on. */
module Bytes {

  type Byte = b: int | 0 <= b < 256

  const TWO16: int := 0x1_0000
  const TWO32: int := 0x1_0000_0000

  /** DataView.setUint8: the value is reduced modulo 2^8 (ToUint8). */
  function U8(v: int): (r: seq<Byte>)
    ensures |r| == 1 && r[0] == v % 256
  {
    [v % 256]
  }

  /** DataView.setUint16, big-endian: the two low bytes of v, high byte first. */
  function U16(v: int): (r: seq<Byte>)
    ensures |r| == 2
  {
    [(v / 0x100) % 256, v % 256]
  }

  /** DataView.setUint32, big-endian: the four low bytes of v, high byte first. */
  function U32(v: int): (r: seq<Byte>)
    ensures |r| == 4
  {
    [(v / 0x100_0000) % 256, (v / 0x1_0000) % 256, (v / 0x100) % 256, v % 256]
  }

  /** DataView.getUint16 at offset `at`. */
  function Get16(s: seq<Byte>, at: int): (r: int)
    requires 0 <= at && at + 2 <= |s|
    ensures 0 <= r < TWO16
  {
    var hi: int, lo: int := s[at], s[at + 1];
    hi * 0x100 + lo
  }

  /** DataView.getUint32 at offset `at`. */
  function Get32(s: seq<Byte>, at: int): (r: int)
    requires 0 <= at && at + 4 <= |s|
    ensures 0 <= r < TWO32
  {
    var b0: int, b1: int, b2: int, b3: int := s[at], s[at + 1], s[at + 2], s[at + 3];
    b0 * 0x100_0000 + b1 * 0x1_0000 + b2 * 0x100 + b3
  }

  /** Writing a 16-bit field and reading it back yields the value modulo 2^16. */
  lemma U16RoundTrip(v: int)
    ensures Get16(U16(v), 0) == v % TWO16
  {
    var q := v / 0x100;
    assert v == q * 0x100 + v % 256;
    assert q == (q / 0x100) * 0x100 + q % 256;
    assert v == (q / 0x100) * TWO16 + (q % 256) * 0x100 + v % 256;
    DivModUnique(v, TWO16, q / 0x100, (q % 256) * 0x100 + v % 256);
  }

  /** Writing a 32-bit field and reading it back yields the value modulo 2^32. */
  lemma U32RoundTrip(v: int)
    ensures Get32(U32(v), 0) == v % TWO32
  {
    var q1 := v / 0x100;
    var q2 := q1 / 0x100;
    var q3 := q2 / 0x100;
    DivDiv(v, 0x100, 0x100);
    DivDiv(v, 0x1_0000, 0x100);
    assert v / 0x1_0000 == q2;
    assert v / 0x100_0000 == q3;
    assert v == q1 * 0x100 + v % 256;
    assert q1 == q2 * 0x100 + q1 % 256;
    assert q2 == q3 * 0x100 + q2 % 256;
    assert q3 == (q3 / 0x100) * 0x100 + q3 % 256;
    var low := (q3 % 256) * 0x100_0000 + (q2 % 256) * 0x1_0000 + (q1 % 256) * 0x100 + v % 256;
    assert v == (q3 / 0x100) * TWO32 + low;
    DivModUnique(v, TWO32, q3 / 0x100, low);
  }

  /** Euclidean division is determined by any quotient/remainder pair. */
  lemma DivModUnique(x: int, d: int, q: int, r: int)
    requires d > 0 && 0 <= r < d && x == q * d + r
    ensures x / d == q && x % d == r
  {
    var q' := x / d;
    var r' := x % d;
    assert (q' - q) * d == r - r';
    MultipleBelow(q' - q, d);
  }

  /** The only multiple of d strictly between -d and d is 0. */
  lemma MultipleBelow(k: int, d: int)
    requires d > 0 && -d < k * d < d
    ensures k == 0
  {
  }

  /** Dividing twice by positive constants is dividing once by their product. */
  lemma DivDiv(x: int, a: int, b: int)
    requires a > 0 && b > 0
    ensures x / a / b == x / (a * b)
  {
    var q := x / a;
    var r := x % a;
    var q2 := q / b;
    var r2 := q % b;
    assert x == (q2 * b + r2) * a + r;
    assert x == q2 * (a * b) + (r2 * a + r);
    assert 0 <= r2 * a + r < a * b by {
      assert r2 * a <= (b - 1) * a;
    }
    DivModUnique(x, a * b, q2, r2 * a + r);
  }

  /** A value already in range comes back unchanged from a 32-bit field. */
  lemma U32InRange(v: int)
    requires 0 <= v < TWO32
    ensures Get32(U32(v), 0) == v
  {
    U32RoundTrip(v);
  }

  /** A value already in range comes back unchanged from a 16-bit field. */
  lemma U16InRange(v: int)
    requires 0 <= v < TWO16
    ensures Get16(U16(v), 0) == v
  {
    U16RoundTrip(v);
  }

  /** Reading a field that sits inside a larger buffer reads the field alone. */
  lemma Get32Within(s: seq<Byte>, at: int, f: seq<Byte>)
    requires 0 <= at && at + 4 <= |s| && |f| == 4 && s[at..at + 4] == f
    ensures Get32(s, at) == Get32(f, 0)
  {
    assert s[at] == f[0] && s[at + 1] == f[1] && s[at + 2] == f[2] && s[at + 3] == f[3];
  }

  lemma Get16Within(s: seq<Byte>, at: int, f: seq<Byte>)
    requires 0 <= at && at + 2 <= |s| && |f| == 2 && s[at..at + 2] == f
    ensures Get16(s, at) == Get16(f, 0)
  {
    assert s[at] == f[0] && s[at + 1] == f[1];
  }

  /** ArrayBuffer.slice resolves a relative index: negative counts from the
      end, and the result is clamped to [0, len]. */
  function Clamp(rel: int, len: nat): (r: nat)
    ensures r <= len
    ensures 0 <= rel <= len ==> r == rel
  {
    if rel < 0 then (if len + rel < 0 then 0 else len + rel)
    else if rel < len then rel
    else len
  }

  /** A slice of a slice is a slice of the whole. */
  lemma SliceOfSlice(s: seq<Byte>, a: int, b: int, x: int, y: int)
    requires 0 <= a <= b <= |s| && 0 <= x <= y <= b - a
    ensures s[a..b][x..y] == s[a + x..a + y]
  {
    assert forall k :: 0 <= k < y - x ==> s[a..b][x..y][k] == s[a + x + k];
  }

  /** A part of a slice, located in the whole. */
  lemma SliceWithin(s: seq<Byte>, a: int, b: int, t: seq<Byte>, x: int, y: int, u: seq<Byte>)
    requires 0 <= a <= b <= |s| && t == s[a..b] && 0 <= x <= y <= |t| && t[x..y] == u
    ensures s[a + x..a + y] == u
  {
    SliceOfSlice(s, a, b, x, y);
  }

  /** ArrayBuffer.prototype.slice(start, end) on the bytes `s`. */
  function JsSlice(s: seq<Byte>, start: int, end: int): (r: seq<Byte>)
    ensures |r| <= |s|
    ensures 0 <= start <= end <= |s| ==> r == s[start..end]
    ensures 0 <= end <= start ==> r == []
  {
    var first := Clamp(start, |s|);
    var final := Clamp(end, |s|);
    if first < final then s[first..final] else []
  }
}
