/**
 * Fixed-width unsigned integers and their little-endian byte encodings.
 * The C++ source reads and writes its structs in host order on a
 * little-endian machine; here every field is encoded and decoded explicitly.
 */
module Bytes {

  type u8 = x: int | 0 <= x < 0x100
  type u16 = x: int | 0 <= x < 0x1_0000
  type u32 = x: int | 0 <= x < 0x1_0000_0000

  /** The C cast `(uint32_t)n` of an unsigned size: it keeps the low 32 bits. */
  function U32(n: nat): (r: u32)
    ensures n < 0x1_0000_0000 ==> r == n
    ensures r <= n
  {
    n % 0x1_0000_0000
  }

  /** `n` zero bytes (what `resize` and zero-initialisation produce). */
  function Zeros(n: nat): (z: seq<u8>)
    ensures |z| == n
  {
    seq(n, _ => 0)
  }

  function LE16(v: u16): seq<u8>
  {
    [v % 0x100, v / 0x100]
  }

  function LE32(v: u32): (r: seq<u8>)
    ensures |r| == 4
  {
    [v % 0x100, (v / 0x100) % 0x100, (v / 0x1_0000) % 0x100, v / 0x100_0000]
  }

  function ReadLE16(s: seq<u8>, off: nat): u16
    requires off + 2 <= |s|
  {
    s[off] as int + s[off + 1] as int * 0x100
  }

  function ReadLE32(s: seq<u8>, off: nat): u32
    requires off + 4 <= |s|
  {
    s[off] as int + s[off + 1] as int * 0x100 + s[off + 2] as int * 0x1_0000 + s[off + 3] as int * 0x100_0000
  }

  /** `s` with the bytes `b` written over it from offset `off` on (a `memcpy` or a field store). */
  function Put(s: seq<u8>, off: nat, b: seq<u8>): (r: seq<u8>)
    requires off + |b| <= |s|
    ensures |r| == |s|
  {
    s[..off] + b + s[off + |b|..]
  }

  lemma LE16RoundTrip(v: u16)
    ensures ReadLE16(LE16(v), 0) == v
  {
  }

  /** Decoding the encoding of a 32-bit value gives the value back. */
  lemma LE32RoundTrip(v: u32)
    ensures ReadLE32(LE32(v), 0) == v
  {
    var a, b, c := v / 0x100, v / 0x1_0000, v / 0x100_0000;
    assert v == a * 0x100 + v % 0x100;
    assert a == b * 0x100 + a % 0x100;
    assert b == c * 0x100 + b % 0x100;
    assert b == a / 0x100;
    assert c == b / 0x100;
  }

  /** Encoding the value decoded from four bytes gives those bytes back. */
  lemma ReadLE16Encode(s: seq<u8>, off: nat)
    requires off + 2 <= |s|
    ensures LE16(ReadLE16(s, off)) == s[off..off + 2]
  {
    var b0, b1: int := s[off], s[off + 1];
    assert ReadLE16(s, off) % 0x100 == b0 && ReadLE16(s, off) / 0x100 == b1;
  }

  lemma ReadLE32Encode(s: seq<u8>, off: nat)
    requires off + 4 <= |s|
    ensures LE32(ReadLE32(s, off)) == s[off..off + 4]
  {
    var b0, b1, b2, b3: int := s[off], s[off + 1], s[off + 2], s[off + 3];
    var v := ReadLE32(s, off);
    assert v == b0 + 0x100 * (b1 + 0x100 * (b2 + 0x100 * b3));
    assert v % 0x100 == b0 && v / 0x100 == b1 + 0x100 * (b2 + 0x100 * b3);
    var w := v / 0x100;
    assert w % 0x100 == b1 && w / 0x100 == b2 + 0x100 * b3;
    assert v / 0x1_0000 == w / 0x100;
    var x := w / 0x100;
    assert x % 0x100 == b2 && x / 0x100 == b3;
    assert v / 0x100_0000 == x / 0x100;
  }

  /** The field-read workhorse: four bytes known to encode `x` decode to `x`. */
  lemma ReadLE32At(s: seq<u8>, off: nat, x: u32)
    requires off + 4 <= |s| && s[off..off + 4] == LE32(x)
    ensures ReadLE32(s, off) == x
  {
    LE32RoundTrip(x);
    assert s[off] == LE32(x)[0] && s[off + 1] == LE32(x)[1];
    assert s[off + 2] == LE32(x)[2] && s[off + 3] == LE32(x)[3];
  }

  lemma ReadLE16At(s: seq<u8>, off: nat, x: u16)
    requires off + 2 <= |s| && s[off..off + 2] == LE16(x)
    ensures ReadLE16(s, off) == x
  {
    assert s[off] == LE16(x)[0] && s[off + 1] == LE16(x)[1];
  }

  /** Writing over a piece of a concatenation replaces exactly that piece. */
  lemma PutConcat(a: seq<u8>, x: seq<u8>, b: seq<u8>, y: seq<u8>)
    requires |x| == |y|
    ensures Put(a + x + b, |a|, y) == a + y + b
  {
    var s := a + x + b;
    assert s[..|a|] == a;
    assert s[|a| + |y|..] == b;
  }

  lemma PutIndex(s: seq<u8>, off: nat, b: seq<u8>, j: nat)
    requires off + |b| <= |s| && j < |s|
    ensures Put(s, off, b)[j] == if off <= j < off + |b| then b[j - off] else s[j]
  {
  }

  lemma ZerosSplit(m: nat, n: nat)
    ensures Zeros(m + n) == Zeros(m) + Zeros(n)
  {
  }

  lemma LE32Zero()
    ensures LE32(0) == Zeros(4)
  {
  }

  lemma Assoc(a: seq<u8>, b: seq<u8>, c: seq<u8>)
    ensures a + (b + c) == a + b + c
  {
  }

  /** Regrouping `x + t` once `t` is known to be `a + b + c`. */
  lemma Regroup3(x: seq<u8>, t: seq<u8>, a: seq<u8>, b: seq<u8>, c: seq<u8>)
    requires t == a + b + c
    ensures x + t == x + a + b + c
  {
  }

  /** Regrouping `h + c + t` once `c` is known to be `a + b`. */
  lemma Regroup2(h: seq<u8>, c: seq<u8>, a: seq<u8>, b: seq<u8>, t: seq<u8>)
    requires c == a + b
    ensures h + c + t == h + a + b + t
  {
  }

  /** A slice that picks out one piece of a concatenation. */
  lemma SliceMid(a: seq<u8>, x: seq<u8>, b: seq<u8>)
    ensures (a + x + b)[|a| .. |a| + |x|] == x
    ensures (a + x + b)[..|a|] == a
  {
    assert (a + x + b)[..|a|] == a;
  }

  /** The groupings of a node `w + (x + y + z + d)` (its four words and its data) between `a` and `b`. */
  lemma RegroupNode(a: seq<u8>, w: seq<u8>, x: seq<u8>, y: seq<u8>, z: seq<u8>, d: seq<u8>, b: seq<u8>)
    ensures a + (w + (x + y + z + d)) + b == a + w + (x + y + z + d + b)
    ensures a + (w + (x + y + z + d)) + b == (a + w) + x + (y + z + d + b)
    ensures a + (w + (x + y + z + d)) + b == (a + w + x) + y + (z + d + b)
    ensures a + (w + (x + y + z + d)) + b == (a + w + x + y) + z + (d + b)
    ensures a + (w + (x + y + z + d)) + b == (a + w + x + y + z) + d + b
    ensures a + (w + (x + y + z + d)) + b == (a + w) + (x + y + z + d) + b
  {
  }

  /** The groupings of the header bytes `p + o + g + n` (prefix, options, signature, next size), its CRC `c`, then `b`. */
  lemma RegroupHeader(p: seq<u8>, o: seq<u8>, g: seq<u8>, n: seq<u8>, c: seq<u8>, b: seq<u8>)
    ensures p + o + g + n + c + b == p + o + (g + n + c + b)
    ensures p + o + (g + n + c + b) == (p + o + g) + n + (c + b)
    ensures (p + o + g) + n + (c + b) == p + o + g + n + c + b
  {
  }

  lemma Regroup4(h: seq<u8>, c: seq<u8>, n: seq<u8>, t: seq<u8>)
    ensures h + (c + n + t) == h + c + n + t
  {
  }

  lemma Regroup5(h: seq<u8>, c: seq<u8>, f: seq<u8>, z: seq<u8>, r: seq<u8>)
    ensures h + (c + f + z + r) == h + c + f + z + r
  {
  }
}
