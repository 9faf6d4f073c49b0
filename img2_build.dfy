/**
 * `createIMG2FromPayloadWithType`: filling the header struct, chaining the
 * extension nodes inside its 0x398-byte extension area, appending the payload
 * and padding to a 0x400-byte boundary.
 */
module Img2Build {
  import opened Wrappers
  import opened Bytes
  import opened Img2Layout

  /** The one `retassure` of the builder: "Out of extension memory!". */
  datatype BuildError = OutOfExtensionMemory

  // ---------------------------------------------------------------------------
  // Where the nodes go.

  /** Offset, within the extension area, of node `k`: every earlier node takes 16 bytes plus its data. */
  function Off(es: seq<Img2Extension>, k: nat): nat
    requires k <= |es|
  {
    if k == 0 then 0 else Off(es, k - 1) + ExtHeaderSize + |es[k - 1].data|
  }

  /** Offset just past node `k`'s data, where its 0xFF end marker goes. */
  function NodeEnd(es: seq<Img2Extension>, k: nat): nat
    requires k < |es|
  {
    Off(es, k) + ExtHeaderSize + |es[k].data|
  }

  /** The first `n` nodes and the end marker of the last of them lie in the extension area. */
  ghost predicate FitsUpTo(es: seq<Img2Extension>, n: nat)
    requires n <= |es|
  {
    forall k :: 0 <= k < n ==> NodeEnd(es, k) < ExtAreaSize
  }

  /** Σ(16 + |dᵢ|) + 1 ≤ 0x398: all nodes and the final end marker fit. */
  ghost predicate ExtensionsFit(es: seq<Img2Extension>)
  {
    FitsUpTo(es, |es|)
  }

  /** Where `lastExt` points when extension `k` is about to be placed: at the previous node, or the area start. */
  function LastOff(es: seq<Img2Extension>, k: nat): nat
    requires k <= |es|
  {
    if k == 0 then 0 else Off(es, k - 1)
  }

  // ---------------------------------------------------------------------------
  // The capacity check.

  /**
   * The check as the source writes it for extension `k`: the room left is
   * measured from `lastExt`, which still points at the previous node.
   */
  predicate CheckAsWritten(es: seq<Img2Extension>, k: nat)
    requires k < |es|
    ensures CheckIntended(es, k) ==> CheckAsWritten(es, k)
    ensures k == 0 ==> (CheckAsWritten(es, k) <==> CheckIntended(es, k))
  {
    ExtHeaderSize + |es[k].data| < ExtAreaSize - LastOff(es, k)
  }

  /** The index of the first extension, from `k` on, that the check as written rejects (or |es|). */
  function FirstRejectedFrom(es: seq<Img2Extension>, k: nat): (r: nat)
    requires k <= |es|
    ensures k <= r <= |es|
    ensures r < |es| ==> !CheckAsWritten(es, r)
    decreases |es| - k
  {
    if k == |es| then |es| else if !CheckAsWritten(es, k) then k else FirstRejectedFrom(es, k + 1)
  }

  function FirstRejected(es: seq<Img2Extension>): nat
  {
    FirstRejectedFrom(es, 0)
  }

  predicate AsWrittenAccepts(es: seq<Img2Extension>)
  {
    FirstRejected(es) == |es|
  }

  /**
   * The source writes every node the check lets through: this is exactly the
   * condition under which none of those writes leaves the header struct.
   */
  ghost predicate WritesInBounds(es: seq<Img2Extension>)
  {
    FitsUpTo(es, FirstRejected(es))
  }

  /**
   * The check as evidently intended: the room left is measured from where node `k` goes,
   * so it lets extension `k` through exactly when node `k` and its end marker fit.
   */
  predicate CheckIntended(es: seq<Img2Extension>, k: nat)
    requires k < |es|
    ensures CheckIntended(es, k) <==> NodeEnd(es, k) < ExtAreaSize
  {
    ExtHeaderSize + |es[k].data| < ExtAreaSize - Off(es, k)
  }

  lemma {:induction false} FirstRejectedPasses(es: seq<Img2Extension>, k: nat, j: nat)
    requires k <= |es| && k <= j < FirstRejectedFrom(es, k)
    ensures CheckAsWritten(es, j)
    decreases j - k
  {
    if j > k {
      FirstRejectedPasses(es, k + 1, j);
    }
  }

  lemma {:induction false} OffMonotone(es: seq<Img2Extension>, i: nat, j: nat)
    requires i <= j <= |es|
    ensures Off(es, i) <= Off(es, j)
    decreases j - i
  {
    if i < j {
      OffMonotone(es, i, j - 1);
    }
  }

  /** When everything fits, the check as written never fires: it only errs towards accepting. */
  lemma FitAcceptedAsWritten(es: seq<Img2Extension>)
    requires ExtensionsFit(es)
    ensures AsWrittenAccepts(es) && WritesInBounds(es)
  {
    forall j | 0 <= j < |es|
      ensures CheckAsWritten(es, j)
    {
      assert NodeEnd(es, j) < ExtAreaSize;
    }
    AllPassAccepted(es, 0);
  }

  lemma {:induction false} AllPassAccepted(es: seq<Img2Extension>, k: nat)
    requires k <= |es|
    requires forall j :: k <= j < |es| ==> CheckAsWritten(es, j)
    ensures FirstRejectedFrom(es, k) == |es|
    decreases |es| - k
  {
    if k < |es| {
      AllPassAccepted(es, k + 1);
    }
  }

  /** Two extensions of 0x300 bytes each pass the check as written, yet the second overruns the area. */
  lemma AsWrittenCheckAdmitsOverflow()
    ensures var es := [Img2Extension(0, Zeros(0x300)), Img2Extension(0, Zeros(0x300))];
            AsWrittenAccepts(es) && !ExtensionsFit(es) && !WritesInBounds(es)
  {
    var es := [Img2Extension(0, Zeros(0x300)), Img2Extension(0, Zeros(0x300))];
    assert Off(es, 1) == 0x310;
    assert NodeEnd(es, 1) == 0x620;
    assert CheckAsWritten(es, 0) && CheckAsWritten(es, 1);
    assert FirstRejectedFrom(es, 1) == 2;
  }

  // ---------------------------------------------------------------------------
  /** The intended check, computed from `lastExt` and the previous size, rejects exactly a node that does not fit. */
  lemma IntendedCheckFails(es: seq<Img2Extension>, k: nat, lastExt: nat, prevExtSize: nat)
    requires k < |es| && lastExt == LastOff(es, k) && prevExtSize == (if k == 0 then 0 else |es[k - 1].data|)
    requires !(ExtHeaderSize + |es[k].data| < ExtAreaSize - (if k == 0 then 0 else lastExt + prevExtSize + ExtHeaderSize))
    ensures !ExtensionsFit(es)
  {
    assert !(NodeEnd(es, k) < ExtAreaSize);
  }

  lemma IntendedCheckPasses(es: seq<Img2Extension>, k: nat, lastExt: nat, prevExtSize: nat)
    requires k < |es| && lastExt == LastOff(es, k) && prevExtSize == (if k == 0 then 0 else |es[k - 1].data|)
    requires FitsUpTo(es, k)
    requires ExtHeaderSize + |es[k].data| < ExtAreaSize - (if k == 0 then 0 else lastExt + prevExtSize + ExtHeaderSize)
    ensures FitsUpTo(es, k + 1)
  {
  }

  // The extension area and the header struct after n extensions have been placed.

  /** Announced size of the node after node `j` when `n` nodes are placed. */
  function NextSizeOf(es: seq<Img2Extension>, n: nat, j: nat): u32
    requires j < n <= |es|
  {
    if j + 1 < n then U32(|es[j + 1].data|) else NoNextExt
  }

  function OptionsOf(n: nat, j: nat): u32
  {
    if j + 1 < n then HasExtension else 0
  }

  /** Node `j` as it stands once `n` nodes are placed. */
  function NodeFor(es: seq<Img2Extension>, n: nat, j: nat, crc: Crc32Fn): (r: seq<u8>)
    requires j < n <= |es|
    ensures |r| == ExtHeaderSize + |es[j].data|
  {
    NodeBytes(crc, NextSizeOf(es, n, j), es[j].tag, OptionsOf(n, j), es[j].data)
  }

  /** The first `j` nodes, back to back, once `n` nodes are placed. */
  function ChainUpTo(es: seq<Img2Extension>, n: nat, j: nat, crc: Crc32Fn): seq<u8>
    requires j <= n <= |es|
  {
    if j == 0 then [] else ChainUpTo(es, n, j - 1, crc) + NodeFor(es, n, j - 1, crc)
  }

  lemma {:induction false} ChainLength(es: seq<Img2Extension>, n: nat, j: nat, crc: Crc32Fn)
    requires j <= n <= |es|
    ensures |ChainUpTo(es, n, j, crc)| == Off(es, j)
  {
    hide NodeFor;
    if j > 0 {
      ChainLength(es, n, j - 1, crc);
      var node := NodeFor(es, n, j - 1, crc);
      assert |node| == ExtHeaderSize + |es[j - 1].data|;
    }
  }

  /** What follows the chain in the extension area: the last node's end marker, then zeros. */
  function AreaTail(es: seq<Img2Extension>, j: nat): (r: seq<u8>)
    requires j <= |es| && FitsUpTo(es, j)
    ensures Off(es, j) < ExtAreaSize && |r| == ExtAreaSize - Off(es, j)
  {
    if j == 0 then Zeros(ExtAreaSize)
    else assert NodeEnd(es, j - 1) < ExtAreaSize; [0xFF] + Zeros(ExtAreaSize - Off(es, j) - 1)
  }

  /** The extension area once `n` extensions are placed. */
  function AreaAfter(es: seq<Img2Extension>, n: nat, crc: Crc32Fn): (r: seq<u8>)
    requires n <= |es| && FitsUpTo(es, n)
    ensures |r| == ExtAreaSize
  {
    ChainLength(es, n, n, crc);
    ChainUpTo(es, n, n, crc) + AreaTail(es, n)
  }

  /** The extension area halfway through placing extension `k`: node `k - 1` already announces it. */
  function AreaMid(es: seq<Img2Extension>, k: nat, crc: Crc32Fn): (r: seq<u8>)
    requires k < |es| && FitsUpTo(es, k)
    ensures |r| == ExtAreaSize
  {
    ChainLength(es, k + 1, k, crc);
    ChainUpTo(es, k + 1, k, crc) + AreaTail(es, k)
  }

  /** The header fields once `n` extensions are placed (the designated initialiser, then the first-extension fixup). */
  function BuiltHeader(typ: u32, len: nat, es: seq<Img2Extension>, n: nat, crc: Crc32Fn): (h: Header)
    requires n <= |es|
    ensures |h.sig| == 64
    ensures HasBit30(h.options) <==> n > 0
    ensures h.crc32 == crc(EncodeFixed(h))
  {
    var h := Header(Magic, typ, 0, 2, 0, U32(len), U32(len), 0xFFFF_FFFF,
                    if n == 0 then 0 else HasExtension, Zeros(64),
                    if n == 0 then NoNextExt else U32(|es[0].data|), 0);
    h.(crc32 := crc(EncodeFixed(h)))
  }

  /** The 0x68 bytes of the header fields up to and including `crc32`. */
  function HeaderBytes(h: Header): (r: seq<u8>)
    requires |h.sig| == 64
    ensures |r| == ExtAreaOffset
  {
    EncodeFixedLength(h);
    EncodeFixed(h) + LE32(h.crc32)
  }

  /** The header struct once `n` of the extensions are placed. */
  function StructAfter(typ: u32, len: nat, es: seq<Img2Extension>, n: nat, crc: Crc32Fn): (s: seq<u8>)
    requires n <= |es| && FitsUpTo(es, n)
    ensures |s| == HeaderSize
  {
    HeaderBytes(BuiltHeader(typ, len, es, n, crc)) + AreaAfter(es, n, crc)
  }

  /** The header struct halfway through placing extension `k`: its predecessor (or the header) is relinked. */
  function MidStruct(typ: u32, len: nat, es: seq<Img2Extension>, k: nat, crc: Crc32Fn): (s: seq<u8>)
    requires k < |es| && FitsUpTo(es, k)
    ensures |s| == HeaderSize
  {
    HeaderBytes(BuiltHeader(typ, len, es, k + 1, crc)) + AreaMid(es, k, crc)
  }

  /** The zeros that round `n` bytes up to the next multiple of 0x400. */
  function PadLength(n: nat): (p: nat)
    ensures (n + p) % 0x400 == 0 && p < 0x400
  {
    if n % 0x400 == 0 then 0 else 0x400 - n % 0x400
  }

  /** The container the builder returns: header struct, payload, zero padding. */
  function Image(payload: seq<u8>, typ: u32, es: seq<Img2Extension>, crc: Crc32Fn): (r: seq<u8>)
    requires ExtensionsFit(es)
    ensures |r| % 0x400 == 0 && HeaderSize + |payload| <= |r| < HeaderSize + |payload| + 0x400
  {
    var s := StructAfter(typ, |payload|, es, |es|, crc) + payload;
    s + Zeros(PadLength(|s|))
  }

  // ---------------------------------------------------------------------------
  // What the writes of one loop iteration do.

  /** Nodes before `j` do not change when a node is appended after node `n - 1`. */
  lemma {:induction false} ChainStable(es: seq<Img2Extension>, n: nat, j: nat, crc: Crc32Fn)
    requires j < n < |es|
    ensures ChainUpTo(es, n, j, crc) == ChainUpTo(es, n + 1, j, crc)
  {
    if j > 0 {
      ChainStable(es, n, j - 1, crc);
    }
  }

  /**
   * The first-extension fixup of the header: set the bit, announce the size,
   * recompute the CRC. The result is the header `h'` (its CRC field cleared)
   * carrying the checksum of its own encoding.
   */
  lemma HeaderRelink(h: Header, b: seq<u8>, size: u32, crc: Crc32Fn, s1: seq<u8>, s2: seq<u8>, s3: seq<u8>)
    requires |h.sig| == 64
    requires s1 == Put(HeaderBytes(h) + b, 28, LE32(SetBit30(ReadLE32(HeaderBytes(h) + b, 28))))
    requires s2 == Put(s1, 96, LE32(size))
    requires s3 == Put(s2, CrcOffset, LE32(crc(s2[..CrcOffset])))
    ensures var h' := h.(options := SetBit30(h.options), nextExtSize := size, crc32 := 0);
            s3 == HeaderBytes(h'.(crc32 := crc(EncodeFixed(h')))) + b
  {
    var h' := h.(options := SetBit30(h.options), nextExtSize := size, crc32 := 0);
    var h'' := h'.(crc32 := crc(EncodeFixed(h')));
    var p, o, o', g, n := HeaderPrefix(h), LE32(h.options), LE32(h'.options), h.sig, LE32(h.nextExtSize);
    var cb := LE32(h.crc32);
    assert HeaderPrefix(h') == p && HeaderPrefix(h'') == p;
    EncodeFixedLength(h);
    var rest := g + n + cb + b;
    assert HeaderBytes(h) + b == p + o + g + n + cb + b;
    RegroupHeader(p, o, g, n, cb, b);
    SliceMid(p, o, rest);
    ReadLE32At(p + o + rest, 28, h.options);
    PutConcat(p, o, rest, o');
    RegroupHeader(p, o', g, n, cb, b);
    PutConcat(p + o' + g, n, cb + b, LE32(size));
    RegroupHeader(p, o', g, LE32(size), cb, b);
    assert EncodeFixed(h') == p + o' + g + LE32(size) == EncodeFixed(h'');
    SliceMid(EncodeFixed(h'), cb, b);
    PutConcat(EncodeFixed(h'), cb, b, LE32(crc(EncodeFixed(h'))));
  }

  // Field stores into a node that sits between the bytes `a` and `b`.

  lemma NodeStoreCrc(a: seq<u8>, b: seq<u8>, c: u32, next: u32, t: u32, o: u32, d: seq<u8>, v: u32)
    ensures var s := a + NodeRaw(c, next, t, o, d) + b;
            && s[|a| + 4 .. |a| + 4 + (|d| + 12)] == NodeBody(next, t, o, d)
            && Put(s, |a|, LE32(v)) == a + NodeRaw(v, next, t, o, d) + b
  {
    var body := NodeBody(next, t, o, d);
    RegroupNode(a, LE32(c), LE32(next), LE32(t), LE32(o), d, b);
    SliceMid(a + LE32(c), body, b);
    PutConcat(a, LE32(c), body + b, LE32(v));
    RegroupNode(a, LE32(v), LE32(next), LE32(t), LE32(o), d, b);
  }

  lemma NodeStoreNext(a: seq<u8>, b: seq<u8>, c: u32, next: u32, t: u32, o: u32, d: seq<u8>, v: u32)
    ensures Put(a + NodeRaw(c, next, t, o, d) + b, |a| + 4, LE32(v)) == a + NodeRaw(c, v, t, o, d) + b
  {
    RegroupNode(a, LE32(c), LE32(next), LE32(t), LE32(o), d, b);
    PutConcat(a + LE32(c), LE32(next), LE32(t) + LE32(o) + d + b, LE32(v));
    RegroupNode(a, LE32(c), LE32(v), LE32(t), LE32(o), d, b);
  }

  lemma NodeStoreType(a: seq<u8>, b: seq<u8>, c: u32, next: u32, t: u32, o: u32, d: seq<u8>, v: u32)
    ensures Put(a + NodeRaw(c, next, t, o, d) + b, |a| + 8, LE32(v)) == a + NodeRaw(c, next, v, o, d) + b
  {
    RegroupNode(a, LE32(c), LE32(next), LE32(t), LE32(o), d, b);
    PutConcat(a + LE32(c) + LE32(next), LE32(t), LE32(o) + d + b, LE32(v));
    RegroupNode(a, LE32(c), LE32(next), LE32(v), LE32(o), d, b);
  }

  lemma NodeStoreOptions(a: seq<u8>, b: seq<u8>, c: u32, next: u32, t: u32, o: u32, d: seq<u8>, v: u32)
    ensures ReadLE32(a + NodeRaw(c, next, t, o, d) + b, |a| + 12) == o
    ensures Put(a + NodeRaw(c, next, t, o, d) + b, |a| + 12, LE32(v)) == a + NodeRaw(c, next, t, v, d) + b
  {
    var pre := a + LE32(c) + LE32(next) + LE32(t);
    RegroupNode(a, LE32(c), LE32(next), LE32(t), LE32(o), d, b);
    SliceMid(pre, LE32(o), d + b);
    ReadLE32At(pre + LE32(o) + (d + b), |a| + 12, o);
    PutConcat(pre, LE32(o), d + b, LE32(v));
    RegroupNode(a, LE32(c), LE32(next), LE32(t), LE32(v), d, b);
  }

  lemma NodeStoreData(a: seq<u8>, b: seq<u8>, c: u32, next: u32, t: u32, o: u32, d: seq<u8>, v: seq<u8>)
    requires |v| == |d|
    ensures Put(a + NodeRaw(c, next, t, o, d) + b, |a| + 16, v) == a + NodeRaw(c, next, t, o, v) + b
  {
    RegroupNode(a, LE32(c), LE32(next), LE32(t), LE32(o), d, b);
    PutConcat(a + LE32(c) + LE32(next) + LE32(t) + LE32(o), d, b, v);
    RegroupNode(a, LE32(c), LE32(next), LE32(t), LE32(o), v, b);
  }

  /** The end marker: one byte stored just past a node. */
  lemma StoreMarker(a: seq<u8>, x: u8, r: seq<u8>, v: u8)
    ensures (a + ([x] + r))[|a| := v] == a + ([v] + r)
  {
  }

  /** The fixup of the previous node: set its bit, announce the next size, recompute its CRC. */
  lemma NodeRelink(a: seq<u8>, b: seq<u8>, crc: Crc32Fn, c0: u32, next0: u32, tag: u32, opts0: u32, data: seq<u8>,
                   size: u32, s0: seq<u8>, s1: seq<u8>, s2: seq<u8>, s3: seq<u8>)
    requires s0 == a + NodeRaw(c0, next0, tag, opts0, data) + b
    requires s1 == Put(s0, |a| + 12, LE32(SetBit30(ReadLE32(s0, |a| + 12))))
    requires s2 == Put(s1, |a| + 4, LE32(size))
    requires s3 == Put(s2, |a|, LE32(crc(s2[|a| + 4 .. |a| + 4 + (|data| + 12)])))
    ensures s3 == a + NodeBytes(crc, size, tag, SetBit30(opts0), data) + b
  {
    var opts1 := SetBit30(opts0);
    NodeStoreOptions(a, b, c0, next0, tag, opts0, data, opts1);
    NodeStoreNext(a, b, c0, next0, tag, opts1, data, size);
    NodeStoreCrc(a, b, c0, size, tag, opts1, data, crc(NodeBody(size, tag, opts1, data)));
  }

  /** The four bytes `f` before a run of zeros, read as the CRC word of a node that is all zeros after it. */
  lemma OpenNode(p: seq<u8>, f: seq<u8>, d: nat, r: seq<u8>)
    requires |f| == 4
    ensures p + f + Zeros(13 + d) + r == p + NodeRaw(ReadLE32(f, 0), 0, 0, 0, Zeros(d)) + ([0] + r)
  {
    var cf := ReadLE32(f, 0);
    ReadLE32Encode(f, 0);
    assert LE32(cf) == f;
    LE32Zero();
    ZerosSplit(4, 9 + d);
    ZerosSplit(4, 5 + d);
    ZerosSplit(4, 1 + d);
    ZerosSplit(d, 1);
    assert Zeros(13 + d) == LE32(0) + LE32(0) + LE32(0) + Zeros(d) + [0];
  }

  /** Placing a fresh, provisionally last node over zeros, with its end marker. */
  lemma NodePlace(p: seq<u8>, f: seq<u8>, r: seq<u8>, crc: Crc32Fn, tag: u32, data: seq<u8>,
                  s4: seq<u8>, s5: seq<u8>, s6: seq<u8>, s7: seq<u8>, s8: seq<u8>)
    requires |f| == 4
    requires s4 == Put(p + f + Zeros(13 + |data|) + r, |p| + 4, LE32(NoNextExt))
    requires s5 == Put(s4, |p| + 8, LE32(tag))
    requires s6 == Put(s5, |p| + 16, data)
    requires |p| + 16 + |data| < |s6|
    requires s7 == s6[|p| + 16 + |data| := 0xFF]
    requires s8 == Put(s7, |p|, LE32(crc(s7[|p| + 4 .. |p| + 4 + (|data| + 12)])))
    ensures s8 == p + NodeBytes(crc, NoNextExt, tag, 0, data) + ([0xFF] + r)
  {
    OpenNode(p, f, |data|, r);
    hide Zeros, LE32, ReadLE32, Put;
    var zd := Zeros(|data|);
    var cf := ReadLE32(f, 0);
    var b := [0] + r;
    NodeStoreNext(p, b, cf, 0, 0, 0, zd, NoNextExt);
    NodeStoreType(p, b, cf, NoNextExt, 0, 0, zd, tag);
    NodeStoreData(p, b, cf, NoNextExt, tag, 0, zd, data);
    var node := NodeRaw(cf, NoNextExt, tag, 0, data);
    StoreMarker(p + node, 0, r, 0xFF);
    assert s7 == p + node + ([0xFF] + r);
    NodeStoreCrc(p, [0xFF] + r, cf, NoNextExt, tag, 0, data, crc(NodeBody(NoNextExt, tag, 0, data)));
  }

  /** Once at least one extension is placed, the header no longer changes. */
  lemma BuiltHeaderStable(typ: u32, len: nat, es: seq<Img2Extension>, n: nat, m: nat, crc: Crc32Fn)
    requires 0 < n <= |es| && 0 < m <= |es|
    ensures BuiltHeader(typ, len, es, n, crc) == BuiltHeader(typ, len, es, m, crc)
  {
  }

  /** The header half of the first iteration takes the initial struct to the halfway struct. */
  lemma FirstFixupStep(typ: u32, len: nat, es: seq<Img2Extension>, crc: Crc32Fn, s1: seq<u8>, s2: seq<u8>, s3: seq<u8>)
    requires 0 < |es| && FitsUpTo(es, 1)
    requires s1 == Put(StructAfter(typ, len, es, 0, crc), 28, LE32(SetBit30(ReadLE32(StructAfter(typ, len, es, 0, crc), 28))))
    requires s2 == Put(s1, 96, LE32(U32(|es[0].data|)))
    requires s3 == Put(s2, CrcOffset, LE32(crc(s2[..CrcOffset])))
    ensures s3 == MidStruct(typ, len, es, 0, crc)
  {
    hide EncodeFixed, LE32, ReadLE32, Put, HeaderPrefix;
    var h0 := BuiltHeader(typ, len, es, 0, crc);
    var size := U32(|es[0].data|);
    assert AreaAfter(es, 0, crc) == Zeros(ExtAreaSize) == AreaMid(es, 0, crc);
    HeaderRelink(h0, Zeros(ExtAreaSize), size, crc, s1, s2, s3);
    var h' := h0.(options := SetBit30(h0.options), nextExtSize := size, crc32 := 0);
    assert h' == Header(Magic, typ, 0, 2, 0, U32(len), U32(len), 0xFFFF_FFFF, HasExtension, Zeros(64), size, 0);
  }

  /** Once `k > 0` nodes are placed, the last one is provisionally last: no successor and bit 30 clear. */
  lemma AreaAfterShape(es: seq<Img2Extension>, k: nat, crc: Crc32Fn)
    requires 0 < k <= |es| && FitsUpTo(es, k)
    ensures var e := es[k - 1];
            && |ChainUpTo(es, k, k - 1, crc)| == Off(es, k - 1)
            && AreaAfter(es, k, crc)
               == ChainUpTo(es, k, k - 1, crc)
                  + NodeRaw(crc(NodeBody(NoNextExt, e.tag, 0, e.data)), NoNextExt, e.tag, 0, e.data) + AreaTail(es, k)
  {
    var e := es[k - 1];
    ChainLength(es, k, k - 1, crc);
    assert NodeFor(es, k, k - 1, crc) == NodeRaw(crc(NodeBody(NoNextExt, e.tag, 0, e.data)), NoNextExt, e.tag, 0, e.data);
  }

  /** Halfway through placing node `k > 0`, node `k - 1` announces it. */
  lemma AreaMidRelinked(es: seq<Img2Extension>, k: nat, crc: Crc32Fn)
    requires 0 < k < |es| && FitsUpTo(es, k)
    ensures var e := es[k - 1];
            AreaMid(es, k, crc)
            == ChainUpTo(es, k, k - 1, crc) + NodeBytes(crc, U32(|es[k].data|), e.tag, SetBit30(0), e.data) + AreaTail(es, k)
  {
    var e := es[k - 1];
    var a := ChainUpTo(es, k + 1, k - 1, crc);
    var nf := NodeFor(es, k + 1, k - 1, crc);
    assert ChainUpTo(es, k + 1, k, crc) == a + nf;
    ChainStable(es, k, k - 1, crc);
    assert a == ChainUpTo(es, k, k - 1, crc);
    assert NextSizeOf(es, k + 1, k - 1) == U32(|es[k].data|) && OptionsOf(k + 1, k - 1) == SetBit30(0);
    assert nf == NodeBytes(crc, U32(|es[k].data|), e.tag, SetBit30(0), e.data);
  }

  /** The previous-node half of a later iteration, behind header bytes `hb`. */
  lemma RelinkStep(hb: seq<u8>, es: seq<Img2Extension>, k: nat, crc: Crc32Fn, at: nat,
                   s1: seq<u8>, s2: seq<u8>, s3: seq<u8>)
    requires |hb| == ExtAreaOffset
    requires 0 < k < |es| && FitsUpTo(es, k) && NodeEnd(es, k - 1) < ExtAreaSize
    requires at == ExtAreaOffset + Off(es, k - 1)
    requires s1 == Put(hb + AreaAfter(es, k, crc), at + 12, LE32(SetBit30(ReadLE32(hb + AreaAfter(es, k, crc), at + 12))))
    requires s2 == Put(s1, at + 4, LE32(U32(|es[k].data|)))
    requires s3 == Put(s2, at, LE32(crc(s2[at + 4 .. at + 4 + (|es[k - 1].data| + 12)])))
    ensures s3 == hb + AreaMid(es, k, crc)
  {
    hide AreaAfter, AreaMid, ChainUpTo, AreaTail, NodeRaw, NodeBytes, NodeBody, LE32, ReadLE32, Put;
    var e := es[k - 1];
    var c := ChainUpTo(es, k, k - 1, crc);
    var t := AreaTail(es, k);
    var n0 := NodeRaw(crc(NodeBody(NoNextExt, e.tag, 0, e.data)), NoNextExt, e.tag, 0, e.data);
    var n1 := NodeBytes(crc, U32(|es[k].data|), e.tag, SetBit30(0), e.data);
    AreaAfterShape(es, k, crc);
    Regroup4(hb, c, n0, t);
    assert at == |hb + c|;
    NodeRelink(hb + c, t, crc, crc(NodeBody(NoNextExt, e.tag, 0, e.data)), NoNextExt, e.tag, 0, e.data,
               U32(|es[k].data|), hb + AreaAfter(es, k, crc), s1, s2, s3);
    AreaMidRelinked(es, k, crc);
    Regroup4(hb, c, n1, t);
  }

  /** The four bytes where node `k` goes: zeros, or the end marker of node `k - 1`. */
  function Lead(k: nat): (f: seq<u8>)
    ensures |f| == 4
  {
    if k == 0 then Zeros(4) else [0xFF] + Zeros(3)
  }

  /** Before node `k` is placed, the area after the chain is its lead bytes, then zeros. */
  lemma AreaTailOpen(es: seq<Img2Extension>, k: nat)
    requires k < |es| && FitsUpTo(es, k) && NodeEnd(es, k) < ExtAreaSize
    ensures AreaTail(es, k) == Lead(k) + Zeros(13 + |es[k].data|) + Zeros(ExtAreaSize - NodeEnd(es, k) - 1)
  {
    var d := es[k].data;
    var rest := ExtAreaSize - NodeEnd(es, k) - 1;
    if k == 0 {
      ZerosSplit(4, 13 + |d|);
      ZerosSplit(17 + |d|, rest);
    } else {
      ZerosSplit(3, 13 + |d|);
      ZerosSplit(16 + |d|, rest);
    }
  }

  /** Once node `k` is placed, the area after the chain is its end marker, then zeros. */
  lemma AreaTailClosed(es: seq<Img2Extension>, k: nat)
    requires k < |es| && FitsUpTo(es, k + 1)
    ensures NodeEnd(es, k) < ExtAreaSize
    ensures AreaTail(es, k + 1) == [0xFF] + Zeros(ExtAreaSize - NodeEnd(es, k) - 1)
  {
    assert NodeEnd(es, k) < ExtAreaSize;
  }

  /** Halfway through placing node `k`, the room for it holds zeros after the lead bytes. */
  lemma AreaMidOpen(es: seq<Img2Extension>, k: nat, crc: Crc32Fn)
    requires k < |es| && FitsUpTo(es, k) && NodeEnd(es, k) < ExtAreaSize
    ensures && |ChainUpTo(es, k + 1, k, crc)| == Off(es, k)
            && AreaMid(es, k, crc)
               == ChainUpTo(es, k + 1, k, crc) + Lead(k) + Zeros(13 + |es[k].data|) + Zeros(ExtAreaSize - NodeEnd(es, k) - 1)
  {
    ChainLength(es, k + 1, k, crc);
    AreaTailOpen(es, k);
    Regroup3(ChainUpTo(es, k + 1, k, crc), AreaTail(es, k), Lead(k), Zeros(13 + |es[k].data|),
             Zeros(ExtAreaSize - NodeEnd(es, k) - 1));
  }

  /** Once node `k` is placed, it follows the chain and carries its own end marker. */
  lemma AreaAfterPlaced(es: seq<Img2Extension>, k: nat, crc: Crc32Fn)
    requires k < |es| && FitsUpTo(es, k + 1)
    ensures NodeEnd(es, k) < ExtAreaSize
    ensures AreaAfter(es, k + 1, crc)
            == ChainUpTo(es, k + 1, k, crc) + NodeBytes(crc, NoNextExt, es[k].tag, 0, es[k].data)
               + ([0xFF] + Zeros(ExtAreaSize - NodeEnd(es, k) - 1))
  {
    assert NodeFor(es, k + 1, k, crc) == NodeBytes(crc, NoNextExt, es[k].tag, 0, es[k].data);
    AreaTailClosed(es, k);
  }

  /** The header fields can be read back from the struct. */
  lemma StructHeader(typ: u32, len: nat, es: seq<Img2Extension>, n: nat, crc: Crc32Fn)
    requires n <= |es| && FitsUpTo(es, n)
    ensures var s := StructAfter(typ, len, es, n, crc);
            && s[..CrcOffset] == EncodeFixed(BuiltHeader(typ, len, es, n, crc))
            && s[CrcOffset..ExtAreaOffset] == LE32(BuiltHeader(typ, len, es, n, crc).crc32)
            && DecodeHeader(s) == BuiltHeader(typ, len, es, n, crc)
  {
    var h := BuiltHeader(typ, len, es, n, crc);
    var s := StructAfter(typ, len, es, n, crc);
    EncodeFixedLength(h);
    SliceMid(EncodeFixed(h), LE32(h.crc32), AreaAfter(es, n, crc));
    DecodeEncodeHeader(s, h);
  }

  /** The header's `options` word shows whether any extension has been placed yet. */
  lemma StructOptions(typ: u32, len: nat, es: seq<Img2Extension>, n: nat, crc: Crc32Fn)
    requires n <= |es| && FitsUpTo(es, n)
    ensures ReadLE32(StructAfter(typ, len, es, n, crc), 28) == if n == 0 then 0 else HasExtension
  {
    StructHeader(typ, len, es, n, crc);
  }

  // ---------------------------------------------------------------------------
  // Stores into the header struct.

  /** A 32-bit field store: four little-endian bytes at `off`. */
  method Write32(a: array<u8>, off: nat, v: u32)
    requires off + 4 <= a.Length
    modifies a
    ensures a[..] == Put(old(a[..]), off, LE32(v))
  {
    ghost var s := a[..];
    var b := LE32(v);
    a[off], a[off + 1], a[off + 2], a[off + 3] := b[0], b[1], b[2], b[3];
    forall j | 0 <= j < a.Length
      ensures a[..][j] == Put(s, off, b)[j]
    {
      PutIndex(s, off, b, j);
    }
  }

  /** `memcpy(a + off, data, |data|)`. */
  method CopyBytes(a: array<u8>, off: nat, data: seq<u8>)
    requires off + |data| <= a.Length
    modifies a
    ensures a[..] == Put(old(a[..]), off, data)
  {
    ghost var s := a[..];
    for i := 0 to |data|
      invariant forall j :: 0 <= j < a.Length ==> a[j] == if off <= j < off + i then data[j - off] else s[j]
    {
      a[off + i] := data[i];
    }
    forall j | 0 <= j < a.Length
      ensures a[..][j] == Put(s, off, data)[j]
    {
      PutIndex(s, off, data, j);
    }
  }

  /** The designated initialiser `Img2 header = {...}` followed by the first header CRC. */
  method InitHeader(typ: u32, len: nat, ghost es: seq<Img2Extension>, crc: Crc32Fn) returns (hdr: array<u8>)
    ensures fresh(hdr)
    ensures hdr[..] == StructAfter(typ, len, es, 0, crc)
  {
    var h := Header(Magic, typ, 0, 2, 0, U32(len), U32(len), 0xFFFF_FFFF, 0, Zeros(64), NoNextExt, 0);
    EncodeFixedLength(h);
    var init := EncodeFixed(h) + Zeros(HeaderSize - CrcOffset);
    hdr := new u8[HeaderSize](i requires 0 <= i < HeaderSize => init[i]);
    assert hdr[..] == init;
    ZerosSplit(4, ExtAreaSize);
    PutConcat(EncodeFixed(h), Zeros(4), Zeros(ExtAreaSize), LE32(crc(EncodeFixed(h))));
    SliceMid(EncodeFixed(h), Zeros(4), Zeros(ExtAreaSize));
    Write32(hdr, CrcOffset, crc(hdr[..CrcOffset]));
    assert AreaAfter(es, 0, crc) == Zeros(ExtAreaSize);
  }

  /** First extension: set the header's extension bit, announce the node's size, recompute the header CRC. */
  method RelinkHeader(hdr: array<u8>, ghost typ: u32, ghost len: nat, es: seq<Img2Extension>, crc: Crc32Fn)
    requires 0 < |es| && FitsUpTo(es, 1)
    requires hdr[..] == StructAfter(typ, len, es, 0, crc)
    modifies hdr
    ensures hdr[..] == MidStruct(typ, len, es, 0, crc)
  {
    Write32(hdr, 28, SetBit30(ReadLE32(hdr[..], 28)));
    ghost var s1 := hdr[..];
    Write32(hdr, 96, U32(|es[0].data|));
    ghost var s2 := hdr[..];
    Write32(hdr, CrcOffset, crc(hdr[..CrcOffset]));
    FirstFixupStep(typ, len, es, crc, s1, s2, hdr[..]);
  }

  /** A later extension: set the previous node's extension bit, announce the new size, recompute its CRC. */
  method RelinkPrevious(hdr: array<u8>, ghost hb: seq<u8>, es: seq<Img2Extension>, k: nat,
                        at: nat, prevExtSize: nat, crc: Crc32Fn)
    requires |hb| == ExtAreaOffset
    requires 0 < k < |es| && FitsUpTo(es, k) && NodeEnd(es, k - 1) < ExtAreaSize
    requires at == ExtAreaOffset + Off(es, k - 1) && prevExtSize == |es[k - 1].data|
    requires hdr[..] == hb + AreaAfter(es, k, crc)
    modifies hdr
    ensures hdr[..] == hb + AreaMid(es, k, crc)
  {
    Write32(hdr, at + 12, SetBit30(ReadLE32(hdr[..], at + 12)));
    ghost var s1 := hdr[..];
    Write32(hdr, at + 4, U32(|es[k].data|));
    ghost var s2 := hdr[..];
    Write32(hdr, at, crc(hdr[at + 4 .. at + 4 + (prevExtSize + 12)]));
    RelinkStep(hb, es, k, crc, at, s1, s2, hdr[..]);
  }

  /**
   * Lay a provisionally last node for `tag` and `data` over zeros at `at`,
   * with its 0xFF end marker after it: next-size, type, data, marker, then
   * the CRC over the node's body, in the order the source stores them.
   */
  method WriteNode(hdr: array<u8>, ghost p: seq<u8>, ghost f: seq<u8>, ghost r: seq<u8>,
                   at: nat, tag: u32, data: seq<u8>, crc: Crc32Fn)
    requires |f| == 4 && at == |p|
    requires hdr[..] == p + f + Zeros(13 + |data|) + r
    modifies hdr
    ensures hdr[..] == p + NodeBytes(crc, NoNextExt, tag, 0, data) + ([0xFF] + r)
  {
    hide Put, LE32, NodeBytes, Zeros;
    Write32(hdr, at + 4, NoNextExt);
    ghost var s4 := hdr[..];
    Write32(hdr, at + 8, tag);
    ghost var s5 := hdr[..];
    CopyBytes(hdr, at + 16, data);
    ghost var s6 := hdr[..];
    hdr[at + 16 + |data|] := 0xFF;
    ghost var s7 := hdr[..];
    assert s7 == s6[at + 16 + |data| := 0xFF];
    Write32(hdr, at, crc(hdr[at + 4 .. at + 4 + (|data| + 12)]));
    NodePlace(p, f, r, crc, tag, data, s4, s5, s6, s7, hdr[..]);
  }

  /** Place extension `k` at `at`, provisionally last, followed by its 0xFF end marker (behind header bytes `hb`). */
  method PlaceExtension(hdr: array<u8>, ghost hb: seq<u8>, es: seq<Img2Extension>, k: nat, at: nat, crc: Crc32Fn)
    returns (prevExtSize: nat)
    requires |hb| == ExtAreaOffset
    requires k < |es| && FitsUpTo(es, k + 1) && NodeEnd(es, k) < ExtAreaSize
    requires at == ExtAreaOffset + Off(es, k)
    requires hdr[..] == hb + AreaMid(es, k, crc)
    modifies hdr
    ensures hdr[..] == hb + AreaAfter(es, k + 1, crc)
    ensures prevExtSize == |es[k].data|
  {
    ghost var c := ChainUpTo(es, k + 1, k, crc);
    ghost var r := Zeros(ExtAreaSize - NodeEnd(es, k) - 1);
    AreaMidOpen(es, k, crc);
    Regroup5(hb, c, Lead(k), Zeros(13 + |es[k].data|), r);
    WriteNode(hdr, hb + c, Lead(k), r, at, es[k].tag, es[k].data, crc);
    AreaAfterPlaced(es, k, crc);
    Regroup4(hb, c, NodeBytes(crc, NoNextExt, es[k].tag, 0, es[k].data), [0xFF] + r);
    prevExtSize := |es[k].data|;
  }

  /**
   * The first half of an iteration: the header (first extension) or the
   * previous node is relinked, and `lastExt` moves to where node `k` goes.
   */
  method Relink(hdr: array<u8>, ghost typ: u32, ghost len: nat, es: seq<Img2Extension>, k: nat,
                lastExt: nat, prevExtSize: nat, crc: Crc32Fn)
    returns (lastExt': nat)
    requires k < |es| && FitsUpTo(es, k + 1)
    requires lastExt == LastOff(es, k) && prevExtSize == (if k == 0 then 0 else |es[k - 1].data|)
    requires hdr[..] == StructAfter(typ, len, es, k, crc)
    modifies hdr
    ensures hdr[..] == MidStruct(typ, len, es, k, crc)
    ensures lastExt' == Off(es, k)
  {
    hide ReadLE32, HeaderBytes, BuiltHeader, AreaAfter, AreaMid, EncodeFixed, LE32;
    StructOptions(typ, len, es, k, crc);
    lastExt' := lastExt;
    if !HasBit30(ReadLE32(hdr[..], 28)) {
      RelinkHeader(hdr, typ, len, es, crc);
    } else {
      BuiltHeaderStable(typ, len, es, k, k + 1, crc);
      assert NodeEnd(es, k - 1) < ExtAreaSize;
      RelinkPrevious(hdr, HeaderBytes(BuiltHeader(typ, len, es, k + 1, crc)), es, k, ExtAreaOffset + lastExt, prevExtSize, crc);
      lastExt' := lastExt + prevExtSize + ExtHeaderSize;
    }
  }

  /**
   * One iteration of the extension loop (after the capacity check): relink the
   * header or the previous node, then place extension `k` with its end marker.
   * `lastExt` is the offset in the extension area that the source's `lastExt` pointer holds.
   */
  method AppendExtension(hdr: array<u8>, ghost typ: u32, ghost len: nat, es: seq<Img2Extension>, k: nat,
                         lastExt: nat, prevExtSize: nat, crc: Crc32Fn)
    returns (lastExt': nat, prevExtSize': nat)
    requires k < |es| && FitsUpTo(es, k + 1)
    requires lastExt == LastOff(es, k) && prevExtSize == (if k == 0 then 0 else |es[k - 1].data|)
    requires hdr[..] == StructAfter(typ, len, es, k, crc)
    modifies hdr
    ensures hdr[..] == StructAfter(typ, len, es, k + 1, crc)
    ensures lastExt' == LastOff(es, k + 1) && prevExtSize' == |es[k].data|
  {
    hide HeaderBytes, BuiltHeader, AreaAfter, AreaMid, EncodeFixed, LE32;
    lastExt' := Relink(hdr, typ, len, es, k, lastExt, prevExtSize, crc);
    assert NodeEnd(es, k) < ExtAreaSize;
    prevExtSize' := PlaceExtension(hdr, HeaderBytes(BuiltHeader(typ, len, es, k + 1, crc)), es, k, ExtAreaOffset + lastExt', crc);
  }

  /** `ret` = header struct + payload, resized up to the next multiple of 0x400 when it is not one. */
  method Finish(hdr: array<u8>, payload: seq<u8>) returns (ret: seq<u8>)
    ensures ret == hdr[..] + payload + Zeros(PadLength(|hdr[..] + payload|))
  {
    ret := hdr[..] + payload;
    var retsize := |ret|;
    if retsize % 0x400 != 0 {
      retsize := retsize - retsize % 0x400 + 0x400;
      ret := ret + Zeros(retsize - |ret|);
    }
  }

  /**
   * `createIMG2FromPayloadWithType` with the capacity check as written. The
   * precondition excludes exactly the inputs on which the source writes past the
   * header struct.
   */
  method CreateImg2FromPayloadWithType(payload: seq<u8>, typ: u32, extensions: seq<Img2Extension>, crc: Crc32Fn)
    returns (r: Result<seq<u8>, BuildError>)
    requires WritesInBounds(extensions)
    ensures AsWrittenAccepts(extensions) ==> ExtensionsFit(extensions) && r == Success(Image(payload, typ, extensions, crc))
    ensures !AsWrittenAccepts(extensions) ==> r == Failure(OutOfExtensionMemory)
  {
    hide StructAfter, HeaderBytes, BuiltHeader, AreaAfter, EncodeFixed, LE32, ChainUpTo, AreaTail;
    var hdr := InitHeader(typ, |payload|, extensions, crc);
    var prevExtSize: nat := 0;
    var lastExt: nat := 0;
    var k := 0;
    while k < |extensions|
      invariant k <= FirstRejected(extensions)
      invariant FirstRejectedFrom(extensions, k) == FirstRejected(extensions)
      invariant FitsUpTo(extensions, k)
      invariant lastExt == LastOff(extensions, k)
      invariant prevExtSize == if k == 0 then 0 else |extensions[k - 1].data|
      invariant hdr[..] == StructAfter(typ, |payload|, extensions, k, crc)
    {
      var remainingExtSize := ExtAreaSize - lastExt;
      if !(ExtHeaderSize + |extensions[k].data| < remainingExtSize) {
        assert !CheckAsWritten(extensions, k);
        return Failure(OutOfExtensionMemory);
      }
      assert CheckAsWritten(extensions, k);
      assert NodeEnd(extensions, k) < ExtAreaSize;
      lastExt, prevExtSize := AppendExtension(hdr, typ, |payload|, extensions, k, lastExt, prevExtSize, crc);
      k := k + 1;
    }
    var ret := Finish(hdr, payload);
    return Success(ret);
  }

  /**
   * The builder with the capacity check measured from where the node goes:
   * it needs no precondition and fails exactly when the extensions do not fit.
   */
  method CreateImg2Checked(payload: seq<u8>, typ: u32, extensions: seq<Img2Extension>, crc: Crc32Fn)
    returns (r: Result<seq<u8>, BuildError>)
    ensures ExtensionsFit(extensions) ==> r == Success(Image(payload, typ, extensions, crc))
    ensures !ExtensionsFit(extensions) ==> r == Failure(OutOfExtensionMemory)
  {
    hide StructAfter, HeaderBytes, BuiltHeader, AreaAfter, EncodeFixed, LE32, ChainUpTo, AreaTail;
    var hdr := InitHeader(typ, |payload|, extensions, crc);
    var prevExtSize: nat := 0;
    var lastExt: nat := 0;
    var k := 0;
    while k < |extensions|
      invariant k <= |extensions|
      invariant FitsUpTo(extensions, k)
      invariant lastExt == LastOff(extensions, k)
      invariant prevExtSize == if k == 0 then 0 else |extensions[k - 1].data|
      invariant hdr[..] == StructAfter(typ, |payload|, extensions, k, crc)
    {
      var nextExt := if k == 0 then 0 else lastExt + prevExtSize + ExtHeaderSize;
      if !(ExtHeaderSize + |extensions[k].data| < ExtAreaSize - nextExt) {
        IntendedCheckFails(extensions, k, lastExt, prevExtSize);
        return Failure(OutOfExtensionMemory);
      }
      IntendedCheckPasses(extensions, k, lastExt, prevExtSize);
      lastExt, prevExtSize := AppendExtension(hdr, typ, |payload|, extensions, k, lastExt, prevExtSize, crc);
      k := k + 1;
    }
    var ret := Finish(hdr, payload);
    return Success(ret);
  }
}
