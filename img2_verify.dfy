/**
 * `verifyIMG2Header` and `getPayloadFromIMG2`: checking the fixed header of a
 * buffer, walking its extension chain, and slicing out its payload.
 */
module Img2Verify {
  import opened Wrappers
  import opened Bytes
  import opened Img2Layout

  /** One value per `retassure` of the verifier, plus the bounds failure the chain walk needs. */
  datatype VerifyError =
    | TooSmall            // buffer shorter than the header
    | BadMagic            // magic is not 'Img2'
    | DataSizeTooLarge    // dataSize or decSize reaches past the buffer
    | HeaderCrcMismatch
    | ExtCrcMismatch(index: nat)
    | ExtOutOfBounds(index: nat)  // absent from the source, which reads past the buffer instead

  /** What a successful verification yields: the header and the nodes the walk checked, in order. */
  datatype Img2View = Img2View(header: Header, extensions: seq<ExtNode>)

  /**
   * The length of a node's checksummed range, `sizeof(Img2Ext) - sizeof(uint32_t) + extDataSize`,
   * as it arrives in the 32-bit length parameter of `crc32`.
   */
  function ExtCrcLength(d: nat): nat
  {
    U32(12 + d)
  }

  function Prepend(nodes: seq<ExtNode>, r: Result<seq<ExtNode>, VerifyError>): Result<seq<ExtNode>, VerifyError>
  {
    match r
    case Success(rest) => Success(nodes + rest)
    case Failure(e) => Failure(e)
  }

  lemma PrependPrepend(a: seq<ExtNode>, b: seq<ExtNode>, r: Result<seq<ExtNode>, VerifyError>)
    ensures Prepend(a, Prepend(b, r)) == Prepend(a + b, r)
  {
    if r.Success? {
      assert a + (b + r.value) == (a + b) + r.value;
    }
  }

  /**
   * The bytes of the node at `off` that the verifier reads of a node it accepts: its
   * 16-byte header and its checksummed range. When `12 + d` wraps, that range is
   * shorter than the header.
   */
  predicate NodeReadable(buf: seq<u8>, off: nat, d: u32)
  {
    off + ExtHeaderSize <= |buf| && off + 4 + ExtCrcLength(d) <= |buf|
  }

  /**
   * The chain walk from the node at `off`, which announces `d` bytes of data (the size the
   * previous node, or the header, announced); `i` is the node's index. As in the source,
   * the node's checksummed range and `crc32` word are read first; its `options` and
   * `nextExtSize` words only once the checksum matches.
   */
  function WalkFrom(buf: seq<u8>, crc: Crc32Fn, off: nat, d: u32, i: nat): (r: Result<seq<ExtNode>, VerifyError>)
    ensures r.Failure? ==> (r.error.ExtCrcMismatch? || r.error.ExtOutOfBounds?) && i <= r.error.index
    ensures r.Success? ==> (r.value == [] <==> d == 0 || d == NoNextExt)
    decreases |buf| - off
  {
    if d == 0 || d == NoNextExt then Success([])
    else if off + 4 + ExtCrcLength(d) > |buf| then Failure(ExtOutOfBounds(i))
    else if ReadLE32(buf, off) != crc(buf[off + 4 .. off + 4 + ExtCrcLength(d)]) then Failure(ExtCrcMismatch(i))
    else if off + ExtHeaderSize > |buf| then Failure(ExtOutOfBounds(i))
    else
      var node := DecodeNode(buf, off, d);
      if !HasBit30(node.options) then Success([node])
      else Prepend([node], WalkFrom(buf, crc, off + d + ExtHeaderSize, node.nextExtSize, i + 1))
  }

  /** What `verifyIMG2Header` computes, as a function of the buffer. */
  function Verify(buf: seq<u8>, crc: Crc32Fn): (r: Result<Img2View, VerifyError>)
    ensures |buf| < HeaderSize ==> r == Failure(TooSmall)
    ensures HeaderSize <= |buf| && ReadLE32(buf, 0) != Magic ==> r == Failure(BadMagic)
    ensures r.Success? ==> HeaderSize <= |buf| && r.value.header == DecodeHeader(buf)
    ensures r.Success? ==> r.value.header.dataSize + HeaderSize <= |buf|
  {
    if |buf| < HeaderSize then Failure(TooSmall)
    else
      var h := DecodeHeader(buf);
      if h.magic != Magic then Failure(BadMagic)
      else if h.dataSize + HeaderSize > |buf| then Failure(DataSizeTooLarge)
      else if h.decSize + HeaderSize > |buf| then Failure(DataSizeTooLarge)
      else if h.crc32 != crc(buf[..CrcOffset]) then Failure(HeaderCrcMismatch)
      else if !HasBit30(h.options) then Success(Img2View(h, []))
      else match WalkFrom(buf, crc, ExtAreaOffset, h.nextExtSize, 0)
        case Success(nodes) => Success(Img2View(h, nodes))
        case Failure(e) => Failure(e)
  }

  /** `verifyIMG2Header`: the checks in order, then the chain walk as a loop over the buffer. */
  method VerifyImg2Header(buf: seq<u8>, crc: Crc32Fn) returns (r: Result<Img2View, VerifyError>)
    ensures r == Verify(buf, crc)
  {
    hide DecodeHeader, DecodeNode, ExtCrcLength;
    if |buf| < HeaderSize {
      return Failure(TooSmall);
    }
    var header := DecodeHeader(buf);
    if header.magic != Magic {
      return Failure(BadMagic);
    }
    if header.dataSize + HeaderSize > |buf| {
      return Failure(DataSizeTooLarge);
    }
    if header.decSize + HeaderSize > |buf| {
      return Failure(DataSizeTooLarge);
    }
    var c := crc(buf[..CrcOffset]);
    if header.crc32 != c {
      return Failure(HeaderCrcMismatch);
    }
    var nodes: seq<ExtNode> := [];
    if HasBit30(header.options) {
      ghost var whole := WalkFrom(buf, crc, ExtAreaOffset, header.nextExtSize, 0);
      var data: nat := ExtAreaOffset;
      var extDataSize := header.nextExtSize;
      var i: nat := 0;
      assert Prepend(nodes, whole) == whole by {
        match whole
        case Success(rest) => assert nodes + rest == rest;
        case Failure(_) =>
      }
      while extDataSize != 0 && extDataSize != NoNextExt
        invariant whole == Prepend(nodes, WalkFrom(buf, crc, data, extDataSize, i))
        decreases |buf| - data
      {
        if data + 4 + ExtCrcLength(extDataSize) > |buf| {
          return Failure(ExtOutOfBounds(i));
        }
        c := crc(buf[data + 4 .. data + 4 + ExtCrcLength(extDataSize)]);
        if ReadLE32(buf, data) != c {
          return Failure(ExtCrcMismatch(i));
        }
        if data + ExtHeaderSize > |buf| {
          return Failure(ExtOutOfBounds(i));
        }
        var ext := DecodeNode(buf, data, extDataSize);
        ghost var before := nodes;
        nodes := nodes + [ext];
        if !HasBit30(ext.options) {
          assert whole == Success(nodes);
          break;
        }
        PrependPrepend(before, [ext], WalkFrom(buf, crc, data + extDataSize + ExtHeaderSize, ext.nextExtSize, i + 1));
        i, data, extDataSize := i + 1, data + extDataSize + ExtHeaderSize, ext.nextExtSize;
      }
      assert whole == Success(nodes) by {
        if extDataSize == 0 || extDataSize == NoNextExt {
          assert nodes + [] == nodes;
        }
      }
    }
    return Success(Img2View(header, nodes));
  }

  /** `getPayloadFromIMG2`: the `dataSize` bytes after the header of a buffer that verifies. */
  function GetPayloadFromImg2(buf: seq<u8>, crc: Crc32Fn): (r: Result<seq<u8>, VerifyError>)
    ensures r.Success? <==> Verify(buf, crc).Success?
    ensures r.Failure? ==> r.error == Verify(buf, crc).error
    ensures r.Success? ==>
              HeaderSize + ReadLE32(buf, 16) <= |buf| && r.value == buf[HeaderSize .. HeaderSize + ReadLE32(buf, 16)]
  {
    match Verify(buf, crc)
    case Failure(e) => Failure(e)
    case Success(v) => Success(buf[HeaderSize .. HeaderSize + v.header.dataSize])
  }

  // ---------------------------------------------------------------------------
  // A declarative account of what the walk accepts.

  /** The data size node `j` of a chain announces through its predecessor, or `d0` for the first node. */
  function NodeSize(d0: u32, nodes: seq<ExtNode>, j: nat): u32
    requires j < |nodes|
  {
    if j == 0 then d0 else nodes[j - 1].nextExtSize
  }

  /** Where node `j` of a chain starts, relative to the first node. */
  function NodeOffset(d0: u32, nodes: seq<ExtNode>, j: nat): nat
    requires j <= |nodes|
  {
    if j == 0 then 0 else NodeOffset(d0, nodes, j - 1) + ExtHeaderSize + NodeSize(d0, nodes, j - 1)
  }

  /**
   * Node `n`, announcing `d` bytes of data, sits at `off`, the bytes the verifier reads of
   * it are inside the buffer, and its checksum matches its checksummed range.
   */
  ghost predicate NodeValidAt(buf: seq<u8>, crc: Crc32Fn, off: nat, d: u32, n: ExtNode)
  {
    && d != 0 && d != NoNextExt
    && NodeReadable(buf, off, d)
    && n == DecodeNode(buf, off, d)
    && n.crc32 == crc(buf[off + 4 .. off + 4 + ExtCrcLength(d)])
  }

  /** Node `j` of the chain starting at `start` is where the sizes before it put it, and is valid there. */
  ghost predicate NodeAt(buf: seq<u8>, crc: Crc32Fn, start: nat, d0: u32, nodes: seq<ExtNode>, j: nat)
    requires j < |nodes|
  {
    NodeValidAt(buf, crc, start + NodeOffset(d0, nodes, j), NodeSize(d0, nodes, j), nodes[j])
  }

  /** Node `j`, when another node follows it, has the continuation bit. */
  ghost predicate LinkAt(nodes: seq<ExtNode>, j: nat)
    requires j < |nodes|
  {
    j + 1 < |nodes| ==> HasBit30(nodes[j].options)
  }

  /** The last node stops the walk: no continuation bit, or no next size. */
  ghost predicate EndsChain(n: ExtNode)
  {
    !HasBit30(n.options) || n.nextExtSize == 0 || n.nextExtSize == NoNextExt
  }

  /**
   * `nodes` is a well-linked chain that starts at `start` with `d0` announced:
   * every node announces the data size of the next one and has the continuation
   * bit, every node lies right after the previous one, what the verifier reads of
   * it is in the buffer and its checksum is good, and the last node ends the chain.
   */
  ghost predicate ChainLinks(buf: seq<u8>, crc: Crc32Fn, start: nat, d0: u32, nodes: seq<ExtNode>)
  {
    && (nodes == [] ==> d0 == 0 || d0 == NoNextExt)
    && (nodes != [] ==> EndsChain(nodes[|nodes| - 1]))
    && (forall j :: 0 <= j < |nodes| ==> LinkAt(nodes, j))
    && (forall j :: 0 <= j < |nodes| ==> NodeAt(buf, crc, start, d0, nodes, j))
  }

  lemma {:induction false} NodeOffsetShift(d0: u32, nodes: seq<ExtNode>, j: nat)
    requires 1 <= j <= |nodes|
    ensures NodeOffset(d0, nodes, j) == ExtHeaderSize + d0 + NodeOffset(nodes[0].nextExtSize, nodes[1..], j - 1)
    ensures j < |nodes| ==> NodeSize(d0, nodes, j) == NodeSize(nodes[0].nextExtSize, nodes[1..], j - 1)
  {
    if j > 1 {
      NodeOffsetShift(d0, nodes, j - 1);
    }
  }

  /** A valid linked node in front of a chain makes a longer chain. */
  lemma ChainLinksCons(buf: seq<u8>, crc: Crc32Fn, start: nat, d0: u32, n0: ExtNode, rest: seq<ExtNode>)
    requires NodeValidAt(buf, crc, start, d0, n0) && HasBit30(n0.options)
    requires ChainLinks(buf, crc, start + ExtHeaderSize + d0, n0.nextExtSize, rest)
    ensures ChainLinks(buf, crc, start, d0, [n0] + rest)
  {
    hide NodeValidAt;
    var nodes := [n0] + rest;
    var start' := start + ExtHeaderSize + d0;
    assert nodes[1..] == rest;
    forall j | 0 <= j < |nodes|
      ensures NodeAt(buf, crc, start, d0, nodes, j) && LinkAt(nodes, j)
    {
      if j > 0 {
        NodeOffsetShift(d0, nodes, j);
        assert NodeAt(buf, crc, start', n0.nextExtSize, rest, j - 1) && LinkAt(rest, j - 1);
      }
    }
    if rest == [] {
      assert EndsChain(n0);
    } else {
      assert nodes[|nodes| - 1] == rest[|rest| - 1];
    }
  }

  /** A chain of at least two nodes, less its first node, is a chain. */
  lemma ChainLinksUncons(buf: seq<u8>, crc: Crc32Fn, start: nat, d0: u32, nodes: seq<ExtNode>)
    requires ChainLinks(buf, crc, start, d0, nodes) && |nodes| >= 2
    ensures ChainLinks(buf, crc, start + ExtHeaderSize + d0, nodes[0].nextExtSize, nodes[1..])
  {
    hide NodeValidAt;
    var rest := nodes[1..];
    var d1 := nodes[0].nextExtSize;
    var start' := start + ExtHeaderSize + d0;
    forall j | 0 <= j < |rest|
      ensures NodeAt(buf, crc, start', d1, rest, j) && LinkAt(rest, j)
    {
      NodeOffsetShift(d0, nodes, j + 1);
      assert rest[j] == nodes[j + 1];
      assert NodeAt(buf, crc, start, d0, nodes, j + 1) && LinkAt(nodes, j + 1);
    }
    assert rest[|rest| - 1] == nodes[|nodes| - 1];
  }

  /**
   * The same chain described node by node from its front: the first node is valid
   * where the chain starts, then either it ends the chain or it has the continuation
   * bit and the rest is a chain right after it.
   */
  ghost predicate ChainFrom(buf: seq<u8>, crc: Crc32Fn, start: nat, d0: u32, nodes: seq<ExtNode>)
    decreases |nodes|
  {
    if nodes == [] then d0 == 0 || d0 == NoNextExt
    else
      && NodeValidAt(buf, crc, start, d0, nodes[0])
      && if |nodes| == 1 then EndsChain(nodes[0])
         else HasBit30(nodes[0].options) && ChainFrom(buf, crc, start + ExtHeaderSize + d0, nodes[0].nextExtSize, nodes[1..])
  }

  lemma {:induction false} ChainLinksFrom(buf: seq<u8>, crc: Crc32Fn, start: nat, d0: u32, nodes: seq<ExtNode>)
    requires ChainLinks(buf, crc, start, d0, nodes)
    ensures ChainFrom(buf, crc, start, d0, nodes)
    decreases |nodes|
  {
    hide NodeValidAt;
    if nodes != [] {
      assert NodeAt(buf, crc, start, d0, nodes, 0) && LinkAt(nodes, 0);
      assert NodeOffset(d0, nodes, 0) == 0;
      if |nodes| > 1 {
        ChainLinksUncons(buf, crc, start, d0, nodes);
        ChainLinksFrom(buf, crc, start + ExtHeaderSize + d0, nodes[0].nextExtSize, nodes[1..]);
      }
    }
  }

  lemma {:induction false} ChainFromLinks(buf: seq<u8>, crc: Crc32Fn, start: nat, d0: u32, nodes: seq<ExtNode>)
    requires ChainFrom(buf, crc, start, d0, nodes)
    ensures ChainLinks(buf, crc, start, d0, nodes)
    decreases |nodes|
  {
    hide NodeValidAt;
    if nodes != [] {
      var n0, rest := nodes[0], nodes[1..];
      assert nodes == [n0] + rest;
      if |nodes| == 1 {
        assert NodeOffset(d0, nodes, 0) == 0;
        assert NodeAt(buf, crc, start, d0, nodes, 0) && LinkAt(nodes, 0);
      } else {
        ChainFromLinks(buf, crc, start + ExtHeaderSize + d0, n0.nextExtSize, rest);
        ChainLinksCons(buf, crc, start, d0, n0, rest);
      }
    }
  }

  /** The two descriptions of a well-linked chain agree. */
  lemma ChainLinksIff(buf: seq<u8>, crc: Crc32Fn, start: nat, d0: u32, nodes: seq<ExtNode>)
    ensures ChainLinks(buf, crc, start, d0, nodes) <==> ChainFrom(buf, crc, start, d0, nodes)
  {
    if ChainLinks(buf, crc, start, d0, nodes) {
      ChainLinksFrom(buf, crc, start, d0, nodes);
    }
    if ChainFrom(buf, crc, start, d0, nodes) {
      ChainFromLinks(buf, crc, start, d0, nodes);
    }
  }

  /** Every successful walk returns a chain. */
  lemma {:induction false} WalkSound(buf: seq<u8>, crc: Crc32Fn, start: nat, d0: u32, i: nat, nodes: seq<ExtNode>)
    requires WalkFrom(buf, crc, start, d0, i) == Success(nodes)
    ensures ChainFrom(buf, crc, start, d0, nodes)
    decreases |buf| - start
  {
    hide DecodeNode, ExtCrcLength;
    if d0 != 0 && d0 != NoNextExt {
      var node := DecodeNode(buf, start, d0);
      assert NodeValidAt(buf, crc, start, d0, node);
      if HasBit30(node.options) {
        var start' := start + d0 + ExtHeaderSize;
        var tail := WalkFrom(buf, crc, start', node.nextExtSize, i + 1);
        assert tail.Success? && nodes == [node] + tail.value;
        WalkSound(buf, crc, start', node.nextExtSize, i + 1, tail.value);
        if tail.value == [] {
          assert nodes == [node];
        } else {
          assert nodes[1..] == tail.value;
        }
      }
    }
  }

  /** Every chain is what the walk returns. */
  lemma {:induction false} WalkComplete(buf: seq<u8>, crc: Crc32Fn, start: nat, d0: u32, i: nat, nodes: seq<ExtNode>)
    requires ChainFrom(buf, crc, start, d0, nodes)
    ensures WalkFrom(buf, crc, start, d0, i) == Success(nodes)
    decreases |nodes|
  {
    hide DecodeNode, ExtCrcLength;
    if nodes != [] {
      var n0 := nodes[0];
      if |nodes| == 1 {
        assert nodes == [n0];
        if HasBit30(n0.options) {
          assert WalkFrom(buf, crc, start + d0 + ExtHeaderSize, n0.nextExtSize, i + 1) == Success([]);
          assert [n0] + [] == nodes;
        }
      } else {
        WalkComplete(buf, crc, start + ExtHeaderSize + d0, n0.nextExtSize, i + 1, nodes[1..]);
        assert [n0] + nodes[1..] == nodes;
      }
    }
  }

  /** The walk succeeds with exactly the nodes of a well-linked chain, and with nothing else. */
  lemma WalkFromIff(buf: seq<u8>, crc: Crc32Fn, start: nat, d0: u32, i: nat, nodes: seq<ExtNode>)
    ensures WalkFrom(buf, crc, start, d0, i) == Success(nodes) <==> ChainLinks(buf, crc, start, d0, nodes)
  {
    ChainLinksIff(buf, crc, start, d0, nodes);
    if WalkFrom(buf, crc, start, d0, i) == Success(nodes) {
      WalkSound(buf, crc, start, d0, i, nodes);
    }
    if ChainFrom(buf, crc, start, d0, nodes) {
      WalkComplete(buf, crc, start, d0, i, nodes);
    }
  }

  /** The header checks of `verifyIMG2Header`, stated on the raw buffer. */
  ghost predicate HeaderValid(buf: seq<u8>, crc: Crc32Fn)
  {
    && HeaderSize <= |buf|
    && ReadLE32(buf, 0) == Magic
    && ReadLE32(buf, 16) + HeaderSize <= |buf|
    && ReadLE32(buf, 20) + HeaderSize <= |buf|
    && ReadLE32(buf, CrcOffset) == crc(buf[..CrcOffset])
  }

  /**
   * Verification accepts exactly the buffers with a valid header whose chain, when the
   * header's continuation bit is set, is well linked; it returns that header and chain.
   */
  lemma VerifyIff(buf: seq<u8>, crc: Crc32Fn, v: Img2View)
    ensures Verify(buf, crc) == Success(v)
        <==> && HeaderValid(buf, crc)
             && v.header == DecodeHeader(buf)
             && if HasBit30(v.header.options)
                then ChainLinks(buf, crc, ExtAreaOffset, v.header.nextExtSize, v.extensions)
                else v.extensions == []
  {
    if HeaderSize <= |buf| {
      var h := DecodeHeader(buf);
      WalkFromIff(buf, crc, ExtAreaOffset, h.nextExtSize, 0, v.extensions);
    }
  }

  /**
   * A node announcing 0xFFFFFFF4 bytes: its checksummed length `12 + d` wraps to 0, so
   * the verifier reads only the node's 16 header bytes and checks it against the
   * checksum of nothing. A header with the continuation bit that announces such a node,
   * whose checksum is that of the empty range and which has no continuation bit,
   * verifies, with that node as its one extension.
   */
  lemma WrappedSizeAccepted(buf: seq<u8>, crc: Crc32Fn)
    requires HeaderValid(buf, crc) && HasBit30(ReadLE32(buf, 28)) && ReadLE32(buf, 96) == 0xFFFF_FFF4
    requires ReadLE32(buf, ExtAreaOffset) == crc([]) && !HasBit30(ReadLE32(buf, ExtAreaOffset + 12))
    ensures Verify(buf, crc) == Success(Img2View(DecodeHeader(buf), [DecodeNode(buf, ExtAreaOffset, 0xFFFF_FFF4)]))
    ensures GetPayloadFromImg2(buf, crc).Success?
  {
    var n := DecodeNode(buf, ExtAreaOffset, 0xFFFF_FFF4);
    assert ExtCrcLength(0xFFFF_FFF4) == 0;
    assert buf[ExtAreaOffset + 4 .. ExtAreaOffset + 4] == [];
    assert NodeValidAt(buf, crc, ExtAreaOffset, 0xFFFF_FFF4, n);
    assert ChainFrom(buf, crc, ExtAreaOffset, 0xFFFF_FFF4, [n]);
    ChainLinksIff(buf, crc, ExtAreaOffset, 0xFFFF_FFF4, [n]);
    VerifyIff(buf, crc, Img2View(DecodeHeader(buf), [n]));
  }

  /**
   * A second node that starts 8 bytes before the end of a 0x400-byte buffer and announces
   * 0xFFFFFFF4 bytes, so that its checksummed range is empty. The verifier reads only its
   * `crc32` word before comparing: a bad checksum is reported as a mismatch, and only a
   * good one goes on to the rest of its header, which lies past the buffer.
   */
  lemma TailNodeCheckedFirst(buf: seq<u8>, crc: Crc32Fn)
    requires |buf| == HeaderSize && HeaderValid(buf, crc)
    requires HasBit30(ReadLE32(buf, 28)) && ReadLE32(buf, 96) == 0x380
    requires ReadLE32(buf, 0x68) == crc(buf[0x6C .. 0x3F8])
    requires HasBit30(ReadLE32(buf, 0x74)) && ReadLE32(buf, 0x6C) == 0xFFFF_FFF4
    ensures Verify(buf, crc)
         == Failure(if ReadLE32(buf, 0x3F8) == crc([]) then ExtOutOfBounds(1) else ExtCrcMismatch(1))
  {
    assert ExtCrcLength(0x380) == 0x38C && ExtCrcLength(0xFFFF_FFF4) == 0;
    assert buf[0x3FC .. 0x3FC] == [];
    var n := DecodeNode(buf, ExtAreaOffset, 0x380);
    assert n.options == ReadLE32(buf, 0x74) && n.nextExtSize == ReadLE32(buf, 0x6C);
    assert WalkFrom(buf, crc, 0x3F8, 0xFFFF_FFF4, 1)
        == Failure(if ReadLE32(buf, 0x3F8) == crc([]) then ExtOutOfBounds(1) else ExtCrcMismatch(1));
  }
}
