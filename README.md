# img2tool in Dafny

A model of the core of `img2tool`, a tool for Apple's IMG2 firmware container.
An IMG2 file is a 0x400-byte header struct, then the payload, then zero padding
to a multiple of 0x400. The header struct holds:

- the fixed fields, protected by a CRC-32 over their first 0x64 bytes;
- a 0x398-byte extension area with a chain of extension nodes.

Each node has four 32-bit words: its own CRC, the data size of the next node,
a type and options. The node's data follows. Bit 30 of `options`
(`kIMG2OptionHasExtension`) says that another node follows.

The model covers:

- **Layout** (`img2_layout.dfy`, `bytes.dfy`): the `Img2` and `Img2Ext`
  structs as explicit little-endian byte encodings, their decoders, bit 30 and
  `swap32`.
- **Verification** (`img2_verify.dfy`): `verifyIMG2Header` and
  `getPayloadFromIMG2`.
  - `Verify` is a specification function.
  - `VerifyImg2Header` is the source's loop over the chain, proved equal to
    `Verify`.
  - A declarative description (`ChainLinks`) states exactly which chains the
    walk accepts.
- **Building** (`img2_build.dfy`): `createIMG2FromPayloadWithType` as an
  imperative method.
  - It fills a 0x400-byte `array` with 32-bit field stores and `memcpy`s, in
    the source's order.
  - After every loop iteration the array equals a specification value
    (`StructAfter`).
  - The capacity check is modelled as the source writes it, with the corrected
    check beside it (see Findings).
- **Round trip** (`img2_roundtrip.dfy`): every image built from extensions
  that fit passes verification.
  - Verification returns the header the builder wrote and the nodes it placed.
  - `getPayloadFromIMG2` returns the payload.
- **Command line** (`cli.dfy`): `parseHexbytes` as a loop method proved equal
  to a specification function, and `parseExtension`.

Modelling choices:

- The checksum routine `crc32` is known only by its prototype, so it is a
  parameter `crc: seq<u8> -> u32` of every operation. No property depends on
  which function it is.
- The host is little-endian. `htonl` is therefore a byte swap.
- Sizes are unbounded naturals. The source's 32-bit casts are explicit (`U32`):
  - `dataSize`, `decSize` and `nextExtSize` are `static_cast<uint32_t>` of a
    size.
  - The length passed to `crc32` is a 32-bit `word32`.
- An error raised by `retassure` is a `Failure` value of a `Result`.
- A C string is modelled as its bytes without the terminating NUL
  (`CString`), so `strlen` is the sequence length.

For each node, the verifier first reads two things:

- the node's checksummed range, `12 + d` bytes after its `crc32` word, where `d`
  is the announced data size;
- the `crc32` word itself.

Only when the checksum matches does it read the node's `options` word, and then,
to follow the chain, its `nextExtSize` word. The source never checks that these
bytes lie inside the buffer. Where a read would leave the buffer, it reads out
of bounds, and the model returns `ExtOutOfBounds(i)` at that point instead.

The length `12 + d` reaches `crc32` as a 32-bit word. For `d` from 0xFFFFFFF4
to 0xFFFFFFFE it therefore wraps below 12, and the checksummed range is shorter
than the node's 16-byte header. Such a node is checked and accepted like any
other (`Img2Verify.WrappedSizeAccepted`). In the model's view its data is cut
where the buffer ends. A mismatching checksum on such a node is reported as a
mismatch even when the rest of its header lies past the buffer
(`Img2Verify.TailNodeCheckedFirst`).

An extension with no data announces size 0, and size 0 ends the walk. So the
verifier sees the built extensions only up to the first empty one
(`Img2RoundTrip.FirstEmpty`).

## Model

| member | source | states |
|---|---|---|
| Bytes.U32 | img2tool/img2tool.cpp:179-180 | the cast to `uint32_t` keeps every size below 2^32 and never exceeds the size |
| Img2Layout.SetBit30 | img2tool/img2tool.cpp:196 | `options \|= kIMG2OptionHasExtension` sets bit 30, leaves a word with the bit already set unchanged, and otherwise adds exactly 2^30 |
| Img2Layout.HasBit30 | img2tool/img2tool.cpp:98 | `options & kIMG2OptionHasExtension` is non-zero exactly when the word's value below bit 31 is at least 2^30 |
| Img2Layout.Swap32 | img2tool/img2tool.cpp:77-82 | the bytes of `swap32(v)` are the bytes of `v` in reverse order |
| Img2Layout.Swap32Involutive | img2tool/img2tool.cpp:77-82 | `swap32(swap32(v)) == v` |
| Img2Layout.EncodeFixedLength | img2tool/img2tool.cpp:28-40 | the fields before `crc32` take 0x64 bytes; `options` is at offset 28 |
| Img2Layout.DecodeHeader | img2tool/img2tool.cpp:28-40 | reading the `Img2` fields at the start of a buffer: re-encoding them gives back the first 0x68 bytes, and the signature is 64 bytes |
| Img2Layout.DecodeEncodeHeader | img2tool/img2tool.cpp:28-40 | reading the `Img2` fields back from their encoding gives every field back |
| Img2Layout.DecodeNode | img2tool/img2tool.cpp:18-24 | reading an `Img2Ext`: its data is the bytes after the 16 header bytes, at most the announced size, and exactly that size when the node lies inside the buffer |
| Img2Layout.DecodeNodeBytes | img2tool/img2tool.cpp:18-24 | a node laid out as an `Img2Ext` decodes to its words and data; its CRC is of the 12 bytes after `crc32` plus the data |
| Img2Verify.Verify | img2tool/img2tool.cpp:84-111 | a short buffer fails with TooSmall and a bad magic with BadMagic; a success returns the decoded header, whose `dataSize` fits the buffer |
| Img2Verify.VerifyImg2Header | img2tool/img2tool.cpp:84-111 | the checks in order and the chain walk as a loop compute exactly `Verify` |
| Img2Verify.GetPayloadFromImg2 | img2tool/img2tool.cpp:167-170 | succeeds exactly when verification succeeds, with the same error otherwise; the result is the `dataSize` bytes after the header, and they lie inside the buffer |
| Img2Verify.WalkFrom | img2tool/img2tool.cpp:101-108 | the chain walk fails only with a node's CRC mismatch or bounds failure, at that node's index or later; on success it returns no node exactly when the announced size ends the walk |
| Img2Verify.WrappedSizeAccepted | img2tool/img2tool.cpp:101-108 | a node that announces 0xFFFFFFF4 bytes, whose checksummed length wraps to 0, is read only as its header and is accepted when its CRC is that of no bytes and bit 30 is clear; the payload can then be extracted |
| Img2Verify.TailNodeCheckedFirst | img2tool/img2tool.cpp:101-108 | a second node 8 bytes before the end of a 0x400-byte buffer, with an empty checksummed range, fails with a CRC mismatch when its checksum is bad and runs out of bounds only when it is good |
| Img2Verify.NodeOffsetShift | img2tool/img2tool.cpp:103 | a node's offset is the first node's size plus its offset in the rest of the chain |
| Img2Verify.ChainLinksCons | img2tool/img2tool.cpp:101-108 | a valid node with bit 30 that announces the size of a chain's first node, placed right before it, gives a longer chain |
| Img2Verify.ChainLinksUncons | img2tool/img2tool.cpp:101-108 | a chain of two or more nodes, less its first node, is a chain starting right after that node |
| Img2Verify.ChainLinksFrom | img2tool/img2tool.cpp:101-108 | the positional description of a chain implies the node-by-node one |
| Img2Verify.ChainFromLinks | img2tool/img2tool.cpp:101-108 | the node-by-node description implies the positional one |
| Img2Verify.ChainLinksIff | img2tool/img2tool.cpp:101-108 | the two descriptions agree |
| Img2Verify.WalkSound | img2tool/img2tool.cpp:101-108 | every node list the walk returns is a well-linked chain |
| Img2Verify.WalkComplete | img2tool/img2tool.cpp:101-108 | the walk returns every well-linked chain that starts at the announced size |
| Img2Verify.WalkFromIff | img2tool/img2tool.cpp:101-108 | the walk succeeds with `nodes` if and only if `nodes` is well linked: each node's header and checksummed range inside the buffer and its CRC good, each announcing the next size and carrying bit 30, the last one ending the walk |
| Img2Verify.VerifyIff | img2tool/img2tool.cpp:84-111 | verification returns a view if and only if the header passes every check, the view's header is the decoded one, and the chain is well linked when bit 30 is set (and empty otherwise) |
| Img2Build.FirstRejectedFrom | img2tool/img2tool.cpp:191-193 | the first extension, from `k` on, that the capacity check rejects |
| Img2Build.FirstRejectedPasses | img2tool/img2tool.cpp:191-193 | every extension before the first rejected one passes the check |
| Img2Build.OffMonotone | img2tool/img2tool.cpp:205 | node offsets grow along the chain |
| Img2Build.FitAcceptedAsWritten | img2tool/img2tool.cpp:192-193 | when all nodes and the last end marker fit, the check as written accepts every extension |
| Img2Build.AllPassAccepted | img2tool/img2tool.cpp:191-193 | when every remaining extension passes the check, none is rejected |
| Img2Build.CheckAsWritten | img2tool/img2tool.cpp:192-193 | the check as written, measured from `lastExt`, accepts every extension the corrected check accepts, and agrees with it on the first extension |
| Img2Build.CheckIntended | img2tool/img2tool.cpp:192-193 | the check measured from where the node goes passes exactly when the node and its end marker fit |
| Img2Build.AsWrittenCheckAdmitsOverflow | img2tool/img2tool.cpp:192-193 | two 0x300-byte extensions pass the check as written although the second would overrun the extension area |
| Img2Build.IntendedCheckFails | img2tool/img2tool.cpp:192-205 | the corrected check, computed from `lastExt` and `prevExtSize`, rejects only extensions that do not fit |
| Img2Build.IntendedCheckPasses | img2tool/img2tool.cpp:192-205 | the corrected check accepts only a node that fits after those already placed |
| Img2Build.ChainLength | img2tool/img2tool.cpp:205 | the first `j` placed nodes take `Off(es, j)` bytes |
| Img2Build.ChainStable | img2tool/img2tool.cpp:200-205 | the nodes before the last are the same however many extensions follow them |
| Img2Build.HeaderRelink | img2tool/img2tool.cpp:194-198 | the three header stores give the header with bit 30 set, the new size, and the CRC of the updated fields |
| Img2Build.NodeStoreCrc | img2tool/img2tool.cpp:212 | the CRC covers the node's 12 bytes after the CRC word plus its data, and storing the CRC word changes only that word |
| Img2Build.NodeStoreNext | img2tool/img2tool.cpp:207 | storing `nextExtSize` changes only that word |
| Img2Build.NodeStoreType | img2tool/img2tool.cpp:208 | storing `type` changes only that word |
| Img2Build.NodeStoreOptions | img2tool/img2tool.cpp:201 | the `options` word reads back as stored, and storing it changes only that word |
| Img2Build.NodeStoreData | img2tool/img2tool.cpp:209 | the `memcpy` replaces only the node's data |
| Img2Build.NodeRelink | img2tool/img2tool.cpp:200-203 | the three stores into the previous node give that node with bit 30, the new size, and a fresh CRC |
| Img2Build.OpenNode | img2tool/img2tool.cpp:207-212 | zeros in the extension area read as an empty node with the word already there |
| Img2Build.NodePlace | img2tool/img2tool.cpp:207-212 | the stores of one iteration lay down the node for the extension, provisionally last, followed by its end marker |
| Img2Build.BuiltHeaderStable | img2tool/img2tool.cpp:194-198 | once one extension is placed, the header no longer changes |
| Img2Build.FirstFixupStep | img2tool/img2tool.cpp:194-198 | the first-extension fixup turns the struct with no extension into the one whose header announces the first node |
| Img2Build.AreaAfterShape | img2tool/img2tool.cpp:205-212 | after `k > 0` extensions the last node is provisionally last (no successor, bit 30 clear) and the rest of the area follows it |
| Img2Build.AreaMidRelinked | img2tool/img2tool.cpp:200-205 | relinking the previous node gives the area in which it announces the next node |
| Img2Build.RelinkStep | img2tool/img2tool.cpp:200-205 | the stores into the previous node, behind unchanged header bytes, give the relinked area |
| Img2Build.AreaTailOpen | img2tool/img2tool.cpp:205-207 | before node `k` is placed, the area after the chain holds its lead word (zeros, or the previous end marker) and then zeros |
| Img2Build.AreaTailClosed | img2tool/img2tool.cpp:210 | after a node come its end marker and zeros |
| Img2Build.AreaMidOpen | img2tool/img2tool.cpp:205-210 | halfway through placing node `k`, the room at its offset holds the lead word and then zeros |
| Img2Build.AreaAfterPlaced | img2tool/img2tool.cpp:207-212 | placing node `k` gives the area after `k + 1` extensions |
| Img2Build.BuiltHeader | img2tool/img2tool.cpp:173-198 | the header the builder writes: bit 30 of `options` exactly when an extension was placed, and a CRC that is the checksum of the fields before it |
| Img2Build.StructHeader | img2tool/img2tool.cpp:173-186 | the header struct's first 0x68 bytes encode the built header, and its CRC is that of the first 0x64 bytes |
| Img2Build.StructOptions | img2tool/img2tool.cpp:194 | the header's `options` word is 0 before the first extension and has bit 30 after it |
| Img2Build.Write32 | img2tool/img2tool.cpp:196-198 | a 32-bit field store writes the four little-endian bytes and nothing else |
| Img2Build.CopyBytes | img2tool/img2tool.cpp:209 | `memcpy` writes the data at the offset and nothing else |
| Img2Build.InitHeader | img2tool/img2tool.cpp:173-186 | the designated initialiser and the first header CRC give the struct with no extension |
| Img2Build.RelinkHeader | img2tool/img2tool.cpp:194-198 | the first-extension fixup of the header, on the array |
| Img2Build.RelinkPrevious | img2tool/img2tool.cpp:199-205 | the fixup of the previous node, on the array |
| Img2Build.WriteNode | img2tool/img2tool.cpp:207-212 | the stores of one node over zeros, on the array |
| Img2Build.PlaceExtension | img2tool/img2tool.cpp:207-212 | placing extension `k` turns the relinked struct into the struct after `k + 1` extensions |
| Img2Build.Relink | img2tool/img2tool.cpp:194-206 | the first half of an iteration relinks the header or the previous node and moves `lastExt` to the new node |
| Img2Build.AppendExtension | img2tool/img2tool.cpp:194-212 | one iteration takes the struct after `k` extensions to the struct after `k + 1`, and updates `lastExt` and `prevExtSize` |
| Img2Build.PadLength | img2tool/img2tool.cpp:219-226 | the padding takes the length to a multiple of 0x400 and is less than 0x400 |
| Img2Build.Image | img2tool/img2tool.cpp:172-229 | the built image's length is a multiple of 0x400, at least the header plus the payload and less than 0x400 beyond them |
| Img2Build.Finish | img2tool/img2tool.cpp:216-227 | the result is the struct, then the payload, then zeros up to the next multiple of 0x400 |
| Img2Build.CreateImg2FromPayloadWithType | img2tool/img2tool.cpp:172-229 | with the check as written: fails with OutOfExtensionMemory exactly when the check rejects an extension; otherwise the extensions fit and the result is the image |
| Img2Build.CreateImg2Checked | img2tool/img2tool.cpp:172-229 | with the corrected check: the result is the image exactly when the extensions fit, and OutOfExtensionMemory otherwise |
| Img2RoundTrip.FirstEmptyFrom | img2tool/img2tool.cpp:101-102 | the first extension with no data from `j` on: all before it have data |
| Img2RoundTrip.FirstEmpty | img2tool/img2tool.cpp:101-102 | the first extension with no data, where the verifier's walk stops |
| Img2RoundTrip.PlacedNodes | img2tool/img2tool.cpp:191-213 | node `i` of the list is the node placed for extension `j + i` |
| Img2RoundTrip.ChainSlice | img2tool/img2tool.cpp:205-212 | node `j` of the placed chain lies at `Off(es, j)` |
| Img2RoundTrip.ImageParts | img2tool/img2tool.cpp:216-227 | the image is the header bytes, the chain, then the rest of the area, the payload and the padding |
| Img2RoundTrip.NodeInImage | img2tool/img2tool.cpp:207-216 | each placed node lies inside the header struct of the image, at its offset |
| Img2RoundTrip.PlacedNodeValid | img2tool/img2tool.cpp:105-106 | each placed non-empty node passes the verifier's CRC check where it lies |
| Img2RoundTrip.PlacedChain | img2tool/img2tool.cpp:97-108 | from node `j` up to the first empty extension, the placed nodes form the chain the verifier walks |
| Img2RoundTrip.ImageHeader | img2tool/img2tool.cpp:85-95 | a built image passes every header check, and its header decodes to the one the builder wrote |
| Img2RoundTrip.BuildThenVerify | img2tool/img2tool.cpp:172-229 | verification accepts every image built from extensions that fit. It returns the built header (magic, type, sizes of the payload, bit 30 exactly when there are extensions) and the extensions up to the first empty one, with their tags and data, in order |
| Img2RoundTrip.ImageLayout | img2tool/img2tool.cpp:216-227 | the built image has a length that is a multiple of 0x400 and less than 0x400 beyond the payload's end; it is the header struct, then the payload, then zeros |
| Img2RoundTrip.BuildThenExtract | img2tool/img2tool.cpp:167-170 | for a payload below 2^32 bytes (its size is stored as a `uint32_t`), extracting the payload of a built image gives back the payload it was built from |
| Img2Cli.HexValue | img2tool/main.cpp:77 | a hex digit's value is below 16 |
| Img2Cli.PairValue | img2tool/main.cpp:77 | `sscanf("%02x")` on a pair of hex digits reads a byte whose high and low nibbles are their values, and on a digit followed by a non-digit reads that digit's value |
| Img2Cli.HexBytes | img2tool/main.cpp:72-81 | a parse that succeeds gives one byte per two characters; a failure is "odd hex string" or a failed `sscanf` |
| Img2Cli.ParseHexbytes | img2tool/main.cpp:72-81 | the loop over the string by pairs computes exactly `HexBytes` |
| Img2Cli.HexBytesIff | img2tool/main.cpp:72-81 | parsing succeeds if and only if the length is even and every pair starts with a hex digit |
| Img2Cli.HexBytesValues | img2tool/main.cpp:72-81 | a successful parse has one byte per pair, each the value read from that pair |
| Img2Cli.HexBytesOdd | img2tool/main.cpp:74-77 | a failure is "odd hex string" exactly when every complete pair starts with a hex digit and one character is left over |
| Img2Cli.Digit | img2tool/main.cpp:77 | a digit written for a value below 16 is a hex digit with that value |
| Img2Cli.HexEncode | img2tool/main.cpp:72-81 | hex encoding writes two characters per byte |
| Img2Cli.HexEncodeCString | img2tool/main.cpp:72 | hex-encoded bytes contain no NUL |
| Img2Cli.HexRoundTrip | img2tool/main.cpp:72-81 | parsing the hex encoding of any bytes gives those bytes back |
| Img2Cli.TagChars | img2tool/main.cpp:87 | four characters spell a type code |
| Img2Cli.HtonlTag | img2tool/main.cpp:87 | `htonl(*(uint32_t*)str)` is the first four characters read big-endian |
| Img2Cli.TagCharsValue | img2tool/main.cpp:87 | the characters that spell a type code read back as that code |
| Img2Cli.ParseExtension | img2tool/main.cpp:83-98 | up to five characters is malformed; a selector other than `=` or `-` is invalid; `=` gives the tag and the rest of the string with its NUL; `-` gives the tag and the parsed hex, or the hex error |
| Img2Cli.StringExtensionRoundTrip | img2tool/main.cpp:90-91 | `-E <tag>=<text>` gives the extension with that tag and the text plus its terminator |
| Img2Cli.HexExtensionRoundTrip | img2tool/main.cpp:92-93 | `-E <tag>-<hex>` for the hex encoding of non-empty data gives the extension with that tag and data |

## Left out

- `DumpHex` and `printIMG2` (img2tool/img2tool.cpp:48-75, 119-165): they only print. The header walk inside `printIMG2` is the one `Verify` models.
- `version` (img2tool/img2tool.cpp:115-117): it returns a build-time string.
- `main_r`, `cmd_help`, `readFromFile` and `saveToFile` (img2tool/main.cpp): option parsing, file I/O and output are not part of this model.
- The CRC-32 algorithm: crc32.c is not part of this model. The routine is a parameter, and no property depends on which function it is.
- The repeated size check at img2tool/img2tool.cpp:90 is the check at line 85 again. It has no separate branch in the model.
- Img2Verify.Verify: where the verifier's read of a node's checksummed range or `crc32` word, or, after a matching checksum, of its `options` word, would leave the buffer, the source reads out of bounds (undefined behaviour). The model fails with `ExtOutOfBounds` at that read instead. Offsets are unbounded, like the source's pointer arithmetic on a 64-bit host.
- Img2Build.InitHeader: the model takes the 0x398-byte `pad` of the header struct to start as zeros. The designated initialiser names only the fields before it, and C++ initialises only the first member of the union it sits in (the empty `ext`). The zeros in each node's `options` word, which the builder never stores, and in the area after the chain rest on this assumption.
- Img2Build.CreateImg2FromPayloadWithType: it requires `WritesInBounds`. Some inputs pass the capacity check as written and still put a node past the 0x400-byte struct. On those the source writes out of bounds (undefined behaviour), and the model does not cover them. `CreateImg2Checked` covers every input.
- Img2Cli.HexBytes: a pair that does not start with a hex digit is rejected. `sscanf("%02x")` also accepts some such pairs: it skips leading white space, takes a sign, and may read past the pair. Those cases depend on the C library and are not modelled. One hex digit followed by a non-digit is modelled, as a one-digit value.
- Img2Cli.ParseExtension: the tag assumes a little-endian host, where `htonl` reverses the bytes of the 32-bit load. C strings come without their terminator, so interior NULs cannot occur (`CString`).
- Host byte order: every struct field is encoded little-endian; a big-endian host is not modelled.
- Exceptions: `retassure` and `reterror` are modelled as `Failure` results, with no message text.

## Findings

| source | as written | input that shows it | evidently intended | confidence | as-written member | corrected member |
|---|---|---|---|---|---|---|
| img2tool/img2tool.cpp:192-193 | The capacity check measures the free room from `lastExt`. For every extension after the first, `lastExt` still points at the previous node, not at where the new node goes. | Two extensions, each with 0x300 data bytes. At the second check, `lastExt` is at offset 0, so 16 + 0x300 < 0x398 passes. The second node is then written at 0x310 and ends at 0x620, past the 0x398-byte area. | Measure the room from where the new node goes: `lastExt + prevExtSize + 16` for every node after the first. | not executed | Img2Build.CreateImg2FromPayloadWithType, Img2Build.AsWrittenCheckAdmitsOverflow | Img2Build.CreateImg2Checked |
