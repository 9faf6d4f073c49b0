/**
 * The on-disk layout of an IMG2 container: the `Img2` header struct, the
 * `Img2Ext` node struct that heads every extension, the option bit that links
 * them, and `swap32`.  All multi-byte fields are little-endian.
 */
module Img2Layout {
  import opened Bytes

  /** The checksum routine `crc32(ptr, len)`: only its prototype is known, so it is a parameter. */
  type Crc32Fn = seq<u8> -> u32

  const HeaderSize: nat := 0x400      // sizeof(Img2)
  const CrcOffset: nat := 0x64        // offsetof(Img2, crc32)
  const ExtAreaOffset: nat := 0x68    // offsetof(Img2, ext)
  const ExtAreaSize: nat := 0x398     // sizeof(Img2::pad)
  const ExtHeaderSize: nat := 16      // sizeof(Img2Ext)
  const Magic: u32 := 0x496D_6732     // 'Img2'
  const HasExtension: u32 := 0x4000_0000  // kIMG2OptionHasExtension, bit 30
  const NoNextExt: u32 := 0xFFFF_FFFF

  /** The decoded fields of the fixed header. */
  datatype Header = Header(
    magic: u32, identifier: u32, unknown1: u16, epoch: u16, loadaddr: u32,
    dataSize: u32, decSize: u32, unknown2: u32, options: u32, sig: seq<u8>,
    nextExtSize: u32, crc32: u32)

  /** The decoded fields of one extension node and its data. */
  datatype ExtNode = ExtNode(crc32: u32, nextExtSize: u32, extType: u32, options: u32, data: seq<u8>)

  /** `Img2Extension`: what a caller hands the builder for one extension. */
  datatype Img2Extension = Img2Extension(tag: u32, data: seq<u8>)

  /**
   * `options & kIMG2OptionHasExtension` is non-zero: bit 30 of `v` is set, that is,
   * what `v` holds below bit 31 is at least 2^30.
   */
  predicate HasBit30(v: u32)
    ensures HasBit30(v) <==> v % 0x8000_0000 >= HasExtension
  {
    var q := v / 0x4000_0000;
    assert v == q * 0x4000_0000 + v % 0x4000_0000 && q < 4;
    assert q < 2 ==> v % 0x8000_0000 == v;
    assert q >= 2 ==> v % 0x8000_0000 == v - 0x8000_0000;
    q % 2 == 1
  }

  /** `options |= kIMG2OptionHasExtension`. */
  function SetBit30(v: u32): (r: u32)
    ensures HasBit30(r)
    ensures HasBit30(v) ==> r == v
    ensures !HasBit30(v) ==> r == v + HasExtension
  {
    if HasBit30(v) then v else v + HasExtension
  }

  /**
   * `swap32`: the masks select one byte each and the shifts move it, so the
   * result is the byte-reversed value: its encoding is the encoding of `v`
   * read backwards.
   */
  function Swap32(v: u32): (r: u32)
    ensures LE32(r) == [LE32(v)[3], LE32(v)[2], LE32(v)[1], LE32(v)[0]]
  {
    var b := LE32(v);
    var reversed := [b[3], b[2], b[1], b[0]];
    assert (v / 0x100_0000) % 0x100 == b[3];
    ReadLE32Encode(reversed, 0);
    var r := (v / 0x100_0000) % 0x100
      + ((v / 0x1_0000) % 0x100) * 0x100
      + ((v / 0x100) % 0x100) * 0x1_0000
      + (v % 0x100) * 0x100_0000;
    assert r == ReadLE32(reversed, 0);
    r
  }

  /** `swap32` is its own inverse. */
  lemma Swap32Involutive(v: u32)
    ensures Swap32(Swap32(v)) == v
  {
    var b := LE32(v);
    assert LE32(Swap32(Swap32(v))) == b;
    LE32RoundTrip(v);
    LE32RoundTrip(Swap32(Swap32(v)));
  }

  /** The 28 header bytes before `options`. */
  function HeaderPrefix(h: Header): seq<u8>
  {
    LE32(h.magic) + LE32(h.identifier) + LE16(h.unknown1) + LE16(h.epoch)
      + LE32(h.loadaddr) + LE32(h.dataSize) + LE32(h.decSize) + LE32(h.unknown2)
  }

  /** The 0x64 header bytes that the header checksum covers (everything before `crc32`). */
  function EncodeFixed(h: Header): seq<u8>
    requires |h.sig| == 64
  {
    HeaderPrefix(h) + LE32(h.options) + h.sig + LE32(h.nextExtSize)
  }

  /** The first 0x68 bytes of `s`, split at the header fields and each re-encoded from the value read there. */
  lemma {:induction false} HeaderFieldsReencode(s: seq<u8>)
    requires ExtAreaOffset <= |s|
    ensures s[..CrcOffset]
         == LE32(ReadLE32(s, 0)) + LE32(ReadLE32(s, 4)) + LE16(ReadLE16(s, 8)) + LE16(ReadLE16(s, 10))
          + LE32(ReadLE32(s, 12)) + LE32(ReadLE32(s, 16)) + LE32(ReadLE32(s, 20)) + LE32(ReadLE32(s, 24))
          + LE32(ReadLE32(s, 28)) + s[32..96] + LE32(ReadLE32(s, 96))
    ensures s[CrcOffset..ExtAreaOffset] == LE32(ReadLE32(s, 100))
  {
    hide ReadLE32, ReadLE16, LE32, LE16;
    ReadLE32Encode(s, 0);
    ReadLE32Encode(s, 4);
    ReadLE16Encode(s, 8);
    ReadLE16Encode(s, 10);
    ReadLE32Encode(s, 12);
    ReadLE32Encode(s, 16);
    ReadLE32Encode(s, 20);
    ReadLE32Encode(s, 24);
    ReadLE32Encode(s, 28);
    ReadLE32Encode(s, 96);
    ReadLE32Encode(s, 100);
    assert s[..CrcOffset] == s[0..4] + s[4..8] + s[8..10] + s[10..12] + s[12..16] + s[16..20]
                          + s[20..24] + s[24..28] + s[28..32] + s[32..96] + s[96..100];
  }

  /**
   * Reading the fixed part of an `Img2` header at the start of `s`; encoding the
   * header read gives back the bytes it was read from.
   */
  function DecodeHeader(s: seq<u8>): (h: Header)
    requires ExtAreaOffset <= |s|
    ensures |h.sig| == 64
    ensures EncodeFixed(h) == s[..CrcOffset] && LE32(h.crc32) == s[CrcOffset..ExtAreaOffset]
  {
    HeaderFieldsReencode(s);
    Header(ReadLE32(s, 0), ReadLE32(s, 4), ReadLE16(s, 8), ReadLE16(s, 10), ReadLE32(s, 12),
           ReadLE32(s, 16), ReadLE32(s, 20), ReadLE32(s, 24), ReadLE32(s, 28), s[32..96],
           ReadLE32(s, 96), ReadLE32(s, 100))
  }

  lemma EncodeFixedLength(h: Header)
    requires |h.sig| == 64
    ensures |HeaderPrefix(h)| == 28 && |EncodeFixed(h)| == CrcOffset
  {
  }

  /** Decoding a header that was encoded field by field gives every field back. */
  lemma {:induction false} DecodeEncodeHeader(s: seq<u8>, h: Header)
    requires |h.sig| == 64 && ExtAreaOffset <= |s|
    requires s[..CrcOffset] == EncodeFixed(h) && s[CrcOffset..ExtAreaOffset] == LE32(h.crc32)
    ensures DecodeHeader(s) == h
  {
    var e := EncodeFixed(h);
    EncodeFixedLength(h);
    assert forall i :: 0 <= i < CrcOffset ==> s[i] == e[i];
    assert s[0..4] == e[0..4] == LE32(h.magic);
    assert s[4..8] == e[4..8] == LE32(h.identifier);
    assert s[8..10] == e[8..10] == LE16(h.unknown1);
    assert s[10..12] == e[10..12] == LE16(h.epoch);
    assert s[12..16] == e[12..16] == LE32(h.loadaddr);
    assert s[16..20] == e[16..20] == LE32(h.dataSize);
    assert s[20..24] == e[20..24] == LE32(h.decSize);
    assert s[24..28] == e[24..28] == LE32(h.unknown2);
    assert s[28..32] == e[28..32] == LE32(h.options);
    assert s[32..96] == e[32..96] == h.sig;
    assert s[96..100] == e[96..100] == LE32(h.nextExtSize);
    ReadLE32At(s, 0, h.magic);
    ReadLE32At(s, 4, h.identifier);
    ReadLE16At(s, 8, h.unknown1);
    ReadLE16At(s, 10, h.epoch);
    ReadLE32At(s, 12, h.loadaddr);
    ReadLE32At(s, 16, h.dataSize);
    ReadLE32At(s, 20, h.decSize);
    ReadLE32At(s, 24, h.unknown2);
    ReadLE32At(s, 28, h.options);
    ReadLE32At(s, 96, h.nextExtSize);
    ReadLE32At(s, 100, h.crc32);
  }

  /** The 12 node bytes after the node's `crc32` field, followed by the node's data. */
  function NodeBody(next: u32, extType: u32, options: u32, data: seq<u8>): (r: seq<u8>)
    ensures |r| == 12 + |data|
  {
    LE32(next) + LE32(extType) + LE32(options) + data
  }

  /** A node whose `crc32` field holds `c`, whatever the checksum of its body is. */
  function NodeRaw(c: u32, next: u32, extType: u32, options: u32, data: seq<u8>): (r: seq<u8>)
    ensures |r| == ExtHeaderSize + |data|
  {
    LE32(c) + NodeBody(next, extType, options, data)
  }

  /** A node whose `crc32` field holds the checksum of its body. */
  function NodeBytes(crc: Crc32Fn, next: u32, extType: u32, options: u32, data: seq<u8>): (r: seq<u8>)
    ensures |r| == ExtHeaderSize + |data|
  {
    NodeRaw(crc(NodeBody(next, extType, options, data)), next, extType, options, data)
  }

  /**
   * Reading the `Img2Ext` at `off` that announces `d` bytes of data: its four words,
   * and as its data the `d` bytes after them, cut short where the buffer ends.
   */
  function DecodeNode(s: seq<u8>, off: nat, d: nat): (n: ExtNode)
    requires off + ExtHeaderSize <= |s|
    ensures n.crc32 == ReadLE32(s, off)
    ensures |n.data| <= d && off + 16 + |n.data| <= |s| && n.data == s[off + 16 .. off + 16 + |n.data|]
    ensures off + ExtHeaderSize + d <= |s| <==> |n.data| == d
  {
    var end := if off + ExtHeaderSize + d <= |s| then off + 16 + d else |s|;
    ExtNode(ReadLE32(s, off), ReadLE32(s, off + 4), ReadLE32(s, off + 8), ReadLE32(s, off + 12),
            s[off + 16 .. end])
  }

  /** Decoding a node that was laid out by `NodeBytes` gives its fields and checksum back. */
  lemma {:induction false} DecodeNodeBytes(s: seq<u8>, off: nat, crc: Crc32Fn, next: u32, extType: u32, options: u32, data: seq<u8>)
    requires off + ExtHeaderSize + |data| <= |s|
    requires s[off .. off + ExtHeaderSize + |data|] == NodeBytes(crc, next, extType, options, data)
    ensures s[off + 4 .. off + ExtHeaderSize + |data|] == NodeBody(next, extType, options, data)
    ensures DecodeNode(s, off, |data|)
         == ExtNode(crc(NodeBody(next, extType, options, data)), next, extType, options, data)
  {
    var body := NodeBody(next, extType, options, data);
    var n := NodeBytes(crc, next, extType, options, data);
    var c := crc(body);
    assert n == LE32(c) + LE32(next) + LE32(extType) + LE32(options) + data;
    assert forall i :: 0 <= i < |n| ==> s[off + i] == n[i];
    assert s[off .. off + 4] == n[0..4] == LE32(c);
    assert s[off + 4 .. off + 8] == n[4..8] == LE32(next);
    assert s[off + 8 .. off + 12] == n[8..12] == LE32(extType);
    assert s[off + 12 .. off + 16] == n[12..16] == LE32(options);
    assert s[off + 16 .. off + 16 + |data|] == n[16..] == data;
    assert s[off + 4 .. off + ExtHeaderSize + |data|] == n[4..] == body;
    ReadLE32At(s, off, c);
    ReadLE32At(s, off + 4, next);
    ReadLE32At(s, off + 8, extType);
    ReadLE32At(s, off + 12, options);
  }
}
