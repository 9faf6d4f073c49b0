/**
 * What the builder and the verifier promise each other: an image that
 * `createIMG2FromPayloadWithType` builds from extensions that fit passes
 * `verifyIMG2Header` with the header the builder wrote and the nodes it
 * placed, and `getPayloadFromIMG2` gives the payload back.
 *
 * An extension with no data announces size 0, which ends the verifier's walk:
 * the verifier sees the extensions up to the first empty one.
 */
module Img2RoundTrip {
  import opened Wrappers
  import opened Bytes
  import opened Img2Layout
  import opened Img2Verify
  import opened Img2Build

  /** The index of the first extension at or after `j` that has no data (`|es|` when there is none). */
  function FirstEmptyFrom(es: seq<Img2Extension>, j: nat): (r: nat)
    requires j <= |es|
    ensures j <= r <= |es|
    ensures forall i :: j <= i < r ==> es[i].data != []
    ensures r < |es| ==> es[r].data == []
    decreases |es| - j
  {
    if j == |es| || es[j].data == [] then j else FirstEmptyFrom(es, j + 1)
  }

  function FirstEmpty(es: seq<Img2Extension>): (r: nat)
    ensures r <= |es|
    ensures forall i :: 0 <= i < r ==> es[i].data != []
    ensures r < |es| ==> es[r].data == []
  {
    FirstEmptyFrom(es, 0)
  }

  /** The size announced for node `j` once all extensions are placed: by the header for `j == 0`, else by node `j - 1`. */
  function Announced(es: seq<Img2Extension>, j: nat): u32
  {
    if j < |es| then U32(|es[j].data|) else NoNextExt
  }

  /** Node `j` as the verifier decodes it from the finished image. */
  function PlacedNode(es: seq<Img2Extension>, j: nat, crc: Crc32Fn): ExtNode
    requires j < |es|
  {
    var next, opts := NextSizeOf(es, |es|, j), OptionsOf(|es|, j);
    ExtNode(crc(NodeBody(next, es[j].tag, opts, es[j].data)), next, es[j].tag, opts, es[j].data)
  }

  /** Nodes `j` up to `m - 1`, in order. */
  function PlacedNodes(es: seq<Img2Extension>, j: nat, m: nat, crc: Crc32Fn): (r: seq<ExtNode>)
    requires j <= m <= |es|
    ensures |r| == m - j
    ensures forall i :: 0 <= i < |r| ==> r[i] == PlacedNode(es, j + i, crc)
    decreases m - j
  {
    if j == m then [] else [PlacedNode(es, j, crc)] + PlacedNodes(es, j + 1, m, crc)
  }

  // ---------------------------------------------------------------------------
  // Where the pieces of the image are.

  lemma SliceInside(a: seq<u8>, x: seq<u8>, b: seq<u8>, i: nat, j: nat)
    requires i <= j <= |x|
    ensures (a + x + b)[|a| + i .. |a| + j] == x[i..j]
  {
    assert forall k :: i <= k < j ==> (a + x + b)[|a| + k] == x[k];
  }

  /** Node `j` of the first `i` nodes of the chain lies at its offset. */
  lemma {:induction false} ChainSlice(es: seq<Img2Extension>, n: nat, i: nat, j: nat, crc: Crc32Fn)
    requires j < i <= n <= |es|
    ensures Off(es, j + 1) <= Off(es, i) == |ChainUpTo(es, n, i, crc)|
    ensures ChainUpTo(es, n, i, crc)[Off(es, j) .. Off(es, j + 1)] == NodeFor(es, n, j, crc)
    decreases i
  {
    hide NodeFor, NodeBytes, LE32;
    ChainLength(es, n, i - 1, crc);
    var c := ChainUpTo(es, n, i - 1, crc);
    var nf := NodeFor(es, n, i - 1, crc);
    assert ChainUpTo(es, n, i, crc) == c + nf;
    if j == i - 1 {
      SliceInside(c, nf, [], 0, |nf|);
      assert c + nf + [] == c + nf;
    } else {
      ChainSlice(es, n, i - 1, j, crc);
      assert (c + nf)[Off(es, j) .. Off(es, j + 1)] == c[Off(es, j) .. Off(es, j + 1)];
    }
  }

  /** The header bytes, the chain, and what follows it, as the image holds them. */
  lemma ImageParts(payload: seq<u8>, typ: u32, es: seq<Img2Extension>, crc: Crc32Fn)
    requires ExtensionsFit(es)
    ensures var n := |es|;
            var s := StructAfter(typ, |payload|, es, n, crc);
            var c := ChainUpTo(es, n, n, crc);
            && |c| == Off(es, n) && HeaderSize <= |Image(payload, typ, es, crc)|
            && Image(payload, typ, es, crc)
               == HeaderBytes(BuiltHeader(typ, |payload|, es, n, crc)) + c
                  + (AreaTail(es, n) + payload + Zeros(PadLength(|s + payload|)))
  {
    hide ChainUpTo, AreaTail, HeaderBytes, BuiltHeader, Zeros, LE32, EncodeFixed, NodeBytes;
    var n := |es|;
    ChainLength(es, n, n, crc);
    var hb := HeaderBytes(BuiltHeader(typ, |payload|, es, n, crc));
    var c, t := ChainUpTo(es, n, n, crc), AreaTail(es, n);
    var s := StructAfter(typ, |payload|, es, n, crc);
    assert s == hb + (c + t);
    var z := Zeros(PadLength(|s + payload|));
    assert Image(payload, typ, es, crc) == hb + (c + t) + payload + z;
  }

  /** Node `j` appears in the image at `ExtAreaOffset + Off(es, j)`, laid out by `NodeBytes`. */
  lemma NodeInImage(payload: seq<u8>, typ: u32, es: seq<Img2Extension>, crc: Crc32Fn, j: nat)
    requires ExtensionsFit(es) && j < |es|
    ensures var off := ExtAreaOffset + Off(es, j);
            && off + ExtHeaderSize + |es[j].data| <= HeaderSize <= |Image(payload, typ, es, crc)|
            && Image(payload, typ, es, crc)[off .. off + ExtHeaderSize + |es[j].data|]
               == NodeBytes(crc, NextSizeOf(es, |es|, j), es[j].tag, OptionsOf(|es|, j), es[j].data)
  {
    var n := |es|;
    hide Image, StructAfter, HeaderBytes, BuiltHeader, AreaTail, ChainUpTo, Zeros, PadLength, NodeBytes, EncodeFixed, LE32;
    assert NodeEnd(es, j) < ExtAreaSize;
    ImageParts(payload, typ, es, crc);
    ChainSlice(es, n, n, j, crc);
    var hb := HeaderBytes(BuiltHeader(typ, |payload|, es, n, crc));
    var c := ChainUpTo(es, n, n, crc);
    var rest := AreaTail(es, n) + payload + Zeros(PadLength(|StructAfter(typ, |payload|, es, n, crc) + payload|));
    SliceInside(hb, c, rest, Off(es, j), Off(es, j + 1));
  }

  /** The node the verifier finds where node `j` was placed is valid there. */
  lemma PlacedNodeValid(payload: seq<u8>, typ: u32, es: seq<Img2Extension>, crc: Crc32Fn, j: nat)
    requires ExtensionsFit(es) && j < |es| && es[j].data != []
    ensures NodeValidAt(Image(payload, typ, es, crc), crc, ExtAreaOffset + Off(es, j), Announced(es, j), PlacedNode(es, j, crc))
  {
    hide Image, StructAfter, HeaderBytes, BuiltHeader, AreaTail, ChainUpTo, Zeros, NodeFor, EncodeFixed, LE32, ExtensionsFit;
    var buf := Image(payload, typ, es, crc);
    var off := ExtAreaOffset + Off(es, j);
    var e := es[j];
    var next, opts := NextSizeOf(es, |es|, j), OptionsOf(|es|, j);
    NodeInImage(payload, typ, es, crc, j);
    hide NodeBytes, NodeBody, DecodeNode;
    DecodeNodeBytes(buf, off, crc, next, e.tag, opts, e.data);
    assert ExtCrcLength(|e.data|) == 12 + |e.data|;
  }

  /** The placed nodes from `j` up to the first empty extension form the chain the verifier walks from node `j`. */
  lemma {:induction false} PlacedChain(payload: seq<u8>, typ: u32, es: seq<Img2Extension>, crc: Crc32Fn, j: nat, m: nat)
    requires ExtensionsFit(es) && m == FirstEmpty(es) && j <= m
    ensures ChainFrom(Image(payload, typ, es, crc), crc, ExtAreaOffset + Off(es, j), Announced(es, j), PlacedNodes(es, j, m, crc))
    decreases m - j
  {
    hide Image, StructAfter, HeaderBytes, BuiltHeader, AreaTail, ChainUpTo, NodeFor, NodeBytes, NodeBody, DecodeNode, NodeValidAt, EncodeFixed, LE32, Zeros;
    var buf := Image(payload, typ, es, crc);
    var nodes := PlacedNodes(es, j, m, crc);
    if j < m {
      var n0 := PlacedNode(es, j, crc);
      assert NodeEnd(es, j) < ExtAreaSize;
      PlacedNodeValid(payload, typ, es, crc, j);
      assert nodes == [n0] + PlacedNodes(es, j + 1, m, crc);
      assert nodes[0] == n0 && nodes[1..] == PlacedNodes(es, j + 1, m, crc);
      if j + 1 < m {
        PlacedChain(payload, typ, es, crc, j + 1, m);
      }
      hide PlacedNodes, ExtensionsFit;
      assert |n0.data| == Announced(es, j);
      assert ExtAreaOffset + Off(es, j) + ExtHeaderSize + Announced(es, j) == ExtAreaOffset + Off(es, j + 1);
      assert n0.nextExtSize == Announced(es, j + 1);
      if j + 1 == m {
        assert EndsChain(n0);
      } else {
        assert HasBit30(n0.options);
      }
    }
  }

  /** The image's header is the one the builder wrote, and it passes the verifier's header checks. */
  lemma ImageHeader(payload: seq<u8>, typ: u32, es: seq<Img2Extension>, crc: Crc32Fn)
    requires ExtensionsFit(es)
    ensures HeaderValid(Image(payload, typ, es, crc), crc)
    ensures DecodeHeader(Image(payload, typ, es, crc)) == BuiltHeader(typ, |payload|, es, |es|, crc)
  {
    hide StructAfter, AreaAfter, HeaderBytes, LE32, Zeros, PadLength;
    var buf := Image(payload, typ, es, crc);
    var s := StructAfter(typ, |payload|, es, |es|, crc);
    var h := BuiltHeader(typ, |payload|, es, |es|, crc);
    StructHeader(typ, |payload|, es, |es|, crc);
    assert buf[..CrcOffset] == s[..CrcOffset] && buf[CrcOffset..ExtAreaOffset] == s[CrcOffset..ExtAreaOffset];
    DecodeEncodeHeader(buf, h);
    assert EncodeFixed(h) == EncodeFixed(h.(crc32 := 0));
  }

  /**
   * Building, then verifying: the verifier accepts every image built from
   * extensions that fit, and returns the builder's header and the extensions
   * up to the first empty one, with their tags and data, in order.
   */
  lemma BuildThenVerify(payload: seq<u8>, typ: u32, es: seq<Img2Extension>, crc: Crc32Fn)
    requires ExtensionsFit(es)
    ensures Verify(Image(payload, typ, es, crc), crc)
         == Success(Img2View(BuiltHeader(typ, |payload|, es, |es|, crc), PlacedNodes(es, 0, FirstEmpty(es), crc)))
    ensures var v := Verify(Image(payload, typ, es, crc), crc).value;
            && v.header.magic == Magic && v.header.identifier == typ
            && v.header.dataSize == U32(|payload|) && v.header.decSize == U32(|payload|)
            && (HasBit30(v.header.options) <==> |es| > 0)
            && |v.extensions| == FirstEmpty(es)
            && forall i :: 0 <= i < |v.extensions| ==> v.extensions[i].extType == es[i].tag && v.extensions[i].data == es[i].data
  {
    hide Image, StructAfter, HeaderBytes, EncodeFixed, LE32, Verify, WalkFrom, ChainLinks, ChainFrom, HeaderValid, DecodeHeader, ExtensionsFit, Zeros;
    var buf := Image(payload, typ, es, crc);
    var h := BuiltHeader(typ, |payload|, es, |es|, crc);
    var m := FirstEmpty(es);
    var v := Img2View(h, PlacedNodes(es, 0, m, crc));
    ImageHeader(payload, typ, es, crc);
    if |es| > 0 {
      PlacedChain(payload, typ, es, crc, 0, m);
      assert Announced(es, 0) == h.nextExtSize;
      ChainLinksIff(buf, crc, ExtAreaOffset, h.nextExtSize, v.extensions);
    }
    VerifyIff(buf, crc, v);
  }

  /** The image's layout: the header struct, the payload right after it, then zeros up to a multiple of 0x400. */
  lemma ImageLayout(payload: seq<u8>, typ: u32, es: seq<Img2Extension>, crc: Crc32Fn)
    requires ExtensionsFit(es)
    ensures var img := Image(payload, typ, es, crc);
            && |img| % 0x400 == 0 && HeaderSize + |payload| <= |img| < HeaderSize + |payload| + 0x400
            && img[..HeaderSize] == StructAfter(typ, |payload|, es, |es|, crc)
            && img[HeaderSize .. HeaderSize + |payload|] == payload
            && forall i :: HeaderSize + |payload| <= i < |img| ==> img[i] == 0
  {
    hide StructAfter, BuiltHeader, HeaderBytes, AreaAfter, ChainUpTo, AreaTail, EncodeFixed, LE32;
    var s := StructAfter(typ, |payload|, es, |es|, crc);
    var img := Image(payload, typ, es, crc);
    SliceInside(s, payload, Zeros(PadLength(|s + payload|)), 0, |payload|);
    assert img[..HeaderSize] == s;
  }

  /** Building, then extracting: `getPayloadFromIMG2` gives back the payload the image was built from. */
  lemma BuildThenExtract(payload: seq<u8>, typ: u32, es: seq<Img2Extension>, crc: Crc32Fn)
    requires ExtensionsFit(es) && |payload| < 0x1_0000_0000
    ensures GetPayloadFromImg2(Image(payload, typ, es, crc), crc) == Success(payload)
  {
    BuildThenVerify(payload, typ, es, crc);
    ImageLayout(payload, typ, es, crc);
  }
}
