# ART node protocol: a Dafny model

This project models the node-level protocol of the database engine's
Adaptive Radix Tree (ART) index, as implemented in
`src/execution/index/art/node.cpp`. It covers three parts:

- **The swizzled-pointer codec.** A child pointer is one 64-bit word.
  When the top bit is set, the word is "swizzled": the child has not been
  loaded and sits in block storage. Bits 32..62 then hold the block id and
  bits 0..31 hold the offset. When the top bit is clear, the word is an
  in-memory node address. This part is `Swizzle` in `swizzle.dfy`.
- **The common node header and its prefix operations.** This covers the
  constructor, `CopyPrefix` and `PrefixMismatch`. It is in `ArtNode`,
  `node.dfy`.
- **Variant handling.** This covers decoding the variant tag when a node is
  deserialized, resolving a child pointer (`GetChildSwizzled`), and
  dispatching `InsertLeaf` / `Erase` to the inner variants Node4, Node16,
  Node48 and Node256. It is also in `ArtNode`.

`errors.dfy` (`ArtErrors`) holds the `Result` type. Its `Error` values are
`InternalError(message)`, `IoError` and `OutOfRange`. `InternalError` stands
for the engine's `InternalException` and carries the source's message.

Modelling choices:

- The word is a `bv64`, which assumes a 64-bit `uintptr_t`. The `idx_t`
  arguments are `bv64` too.
- Decoding also assumes an LP64 platform. The flag is cleared with
  `~(1UL << (pointer_size - 1))` (node.cpp:47), which needs a 64-bit
  `unsigned long`. Where `long` is 32 bits, that shift is undefined, and
  `GetSwizzledBlockInfo` does not model that case.
- The invalid-index sentinel is `idx_t(-1) = 2^64 - 1`. The header that
  defines it is not part of this model.
- Nodes are immutable values. `CopyPrefix` returns the new destination, and
  the source is unchanged by construction.
- The prefix buffer is a `seq<bv8>` whose length is the capacity given to
  the constructor. Only its first `prefixLength` bytes are meaningful. The
  source leaves a new buffer uninitialised. The model fills it with zeros,
  and no contract relies on those bytes.
- The debug assertion `D_ASSERT(IsSwizzled(pointer))` becomes a `requires`
  on `GetSwizzledBlockInfo`.
- `PrefixMismatch` reads key bytes only up to the first mismatch. So it
  requires only that those reads stay inside the key: the prefix is empty,
  or the key holds the whole prefix after `depth`, or the key differs from
  the prefix at some byte it holds. A key may end before
  `depth + prefixLength` if it diverges earlier. `MismatchOffsetExistsIffStaysInKey`
  shows that this requirement is exactly the condition under which a
  mismatch offset exists.
- Block storage is the parameter `readTag(blockId, offset)`. It returns the
  tag byte at that position, or `IoError` when the read fails.
- The numeric tag of each variant is in the node header, which is not part
  of this model. `TagOf` assumes N4=0, N16=1, N48=2, N256=3 and NLeaf=4.
  Every property proved here uses only the fact that the five tags are
  distinct.
- The insert and erase dispatch returns the `Call` it hands on. The call
  names the variant routine and carries the node and the arguments. The
  variant routines themselves are not modelled.

## Model

| member | source | states |
|---|---|---|
| Swizzle.IsSwizzled | src/execution/index/art/node.cpp:53-56 | a word is swizzled exactly when its top bit is set, i.e. it is at least 2^63; the null word 0 is never swizzled |
| Swizzle.GetSwizzledBlockInfo | src/execution/index/art/node.cpp:44-51 | on a swizzled word, the decoded block id fits in 31 bits and the offset in 32 bits, and the flag, the block id shifted to bit 32 and the offset together rebuild the word exactly |
| Swizzle.GenerateSwizzledPointer | src/execution/index/art/node.cpp:58-72 | the null word 0 when either argument is the invalid-index sentinel; otherwise a swizzled word; for a block id below 2^31 and an offset below 2^32, decoding the word gives back the same pair |
| Swizzle.GenerateOfBlockInfo | src/execution/index/art/node.cpp:44-72 | encoding the pair decoded from any swizzled word gives back that word |
| Swizzle.SwizzledIffGenerated | src/execution/index/art/node.cpp:53-72 | a word is swizzled if and only if it is the encoding of some in-range (block id, offset) pair |
| Swizzle.GenerateInjectiveInRange | src/execution/index/art/node.cpp:58-72 | two in-range locations with the same encoding are the same location |
| Swizzle.BlockIdAliasing | src/execution/index/art/node.cpp:64-70 | as written, block 2^31 at offset 0 encodes to the same word as block 0 at offset 0 |
| Swizzle.OffsetCarryAliasing | src/execution/index/art/node.cpp:64-70 | as written, block 0 at offset 2^32 encodes to the same word as block 1 at offset 0, because the offset is added and its carry reaches the block bits |
| Swizzle.GenerateSwizzledPointerChecked | src/execution/index/art/node.cpp:58-72 | the range-checked encoder: the sentinel still gives 0; it fails exactly when a non-sentinel field does not fit its bits; every in-range location gets a swizzled, hence non-null, word that decodes back to it |
| Swizzle.CheckedInjective | src/execution/index/art/node.cpp:58-72 | the range-checked encoder never gives the same non-null word to two different locations |
| ArtNode.NewNode | src/execution/index/art/node.cpp:7-9 | a new node keeps its given variant, has no children and an empty prefix, and has a prefix buffer of the requested capacity |
| ArtNode.NewNodeMatchesEveryKey | src/execution/index/art/node.cpp:7-9 | a new node's prefix matches every key in full at every depth, so its mismatch offset is 0 |
| ArtNode.CopyPrefix | src/execution/index/art/node.cpp:11-14 | the destination gets the source's prefix length and its meaningful prefix bytes; the rest of the destination's buffer, its capacity, its variant and its count are unchanged; the buffer must hold the source's prefix |
| ArtNode.CopyPrefixPreservesMismatch | src/execution/index/art/node.cpp:11-14 | after the copy, the destination has the same mismatch offset as the source against every key at every depth |
| ArtNode.PrefixMismatch | src/execution/index/art/node.cpp:94-102 | for any key whose compared bytes stay inside it (it may end early if it diverges first), the result is at most the prefix length, the key bytes from `depth` on are present and agree with the prefix before it, and when it is below the prefix length the key holds a byte there that differs from the prefix |
| ArtNode.MismatchOffsetExistsIffStaysInKey | src/execution/index/art/node.cpp:94-102 | a mismatch offset exists if and only if the comparison never reads past the key's end, so PrefixMismatch demands nothing more of its caller |
| ArtNode.MismatchOffsetUnique | src/execution/index/art/node.cpp:94-102 | only one offset meets the mismatch description, so the result of PrefixMismatch is fully determined |
| ArtNode.FullMatchIffPrefixEqual | src/execution/index/art/node.cpp:94-102 | for a key of at least `depth` bytes, the mismatch offset equals the prefix length if and only if the key holds and repeats the whole meaningful prefix from `depth` on |
| ArtNode.DecodeNodeType | src/execution/index/art/node.cpp:77-91 | a decoded tag byte is the tag of the variant it names; a byte that is no variant's tag gives the internal error "Invalid ART Node Type", and only such bytes do |
| ArtNode.DecodeTagOf | src/execution/index/art/node.cpp:77-91 | each of the five variants' tags decodes back to that same variant |
| ArtNode.Deserialize | src/execution/index/art/node.cpp:74-92 | a failed tag read passes its error on; after a successful read, loading fails exactly when the byte is no variant's tag, and then with the internal error "Invalid ART Node Type"; a loaded node comes from exactly the requested block and offset, and the byte read there is its variant's tag |
| ArtNode.GetChildSwizzled | src/execution/index/art/node.cpp:32-42 | an in-memory pointer is returned unchanged; a swizzled pointer is loaded from exactly the location GetSwizzledBlockInfo decodes, and a node loaded this way comes from the location whose encoding is that pointer |
| ArtNode.GeneratedChildLoadsFromItsLocation | src/execution/index/art/node.cpp:32-72 | a child pointer encoded for an in-range location resolves to loading from that location |
| ArtNode.InsertLeaf | src/execution/index/art/node.cpp:104-121 | the insert is handed to the node's own variant with the unchanged key and child if and only if the variant is N4, N16, N48 or N256; a leaf gives the internal error "Unrecognized leaf type for insert" |
| ArtNode.Erase | src/execution/index/art/node.cpp:123-143 | the erase is handed to the node's own variant with the unchanged position if and only if the variant is N4, N16, N48 or N256; a leaf gives the internal error "Unrecognized leaf type for erase" |
| ArtNode.DispatchAgreement | src/execution/index/art/node.cpp:77-143 | insert and erase accept exactly the same variants, and both refuse exactly the leaf |

## Left out

- Reading from block storage in `Deserialize` (node.cpp:75-76) is left out. The `MetaBlockReader` is replaced by the `readTag` parameter.
- The per-variant `Deserialize(reader)` routines are left out. Their code is not part of this model. A loaded child records only its variant and its location.
- The cast `(Node *)pointer` (node.cpp:40) reinterprets a memory address. It is modelled as the opaque `InMemory(address)` case.
- The base-class stubs `GetChild`, `ReplaceChildPointer` and `GetMin` (node.cpp:17-29) are left out. They are debug-assert placeholders with no behaviour beyond "must not be called".
- The insert, erase, grow and shrink routines of Node4, Node16, Node48 and Node256 are left out. So are the Leaf's row-id storage and the ART driver (lookup, insert, erase, iteration). Their code is not part of this model. The dispatch only names the routine it would call.
- Integer widths of the header fields (`count`, `prefix_length`) are not modelled. They are unbounded naturals here.
- The cast framework, the R binding, the physical-plan builders and the CSV scanner header are left out. They are not part of the index.

## Findings

| source | as written | input that shows it | evidently intended | confidence | as-written member | corrected member |
|---|---|---|---|---|---|---|
| src/execution/index/art/node.cpp:58-72 | `GenerateSwizzledPointer` does not check that the block id fits in 31 bits or that the offset fits in 32 bits. A larger block id loses bit 31 under the swizzle flag, and a larger offset carries into the block bits. | (block 2^31, offset 0) and (block 0, offset 0) both give 0x8000000000000000; (block 0, offset 2^32) and (block 1, offset 0) both give 0x8000000100000000 | a field that does not fit its bits should be rejected, so that two locations never share one swizzled word | medium, not executed | Swizzle.BlockIdAliasing, Swizzle.OffsetCarryAliasing | Swizzle.GenerateSwizzledPointerChecked |
