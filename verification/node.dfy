/** The node-level protocol of the Adaptive Radix Tree index: the common
    node header (variant tag, child count, compressed prefix), the prefix
    operations every variant shares, decoding of the variant tag when a node
    is loaded from block storage, resolution of a possibly swizzled child
    pointer, and the dispatch of insert and erase to the inner variants.

    The concrete variants (Leaf, Node4, Node16, Node48, Node256) are only
    the targets of the dispatch: their own routines are not part of this
    model.
 */
module ArtNode {
  import opened ArtErrors
  import opened Swizzle

  /** The five node variants. */
  datatype NodeType = NLeaf | N4 | N16 | N48 | N256

  /** The variants that have children and take insert and erase. */
  predicate IsInner(t: NodeType) {
    t == N4 || t == N16 || t == N48 || t == N256
  }

  /** The header shared by every node. `prefix` is the whole prefix buffer
      (its length is the capacity fixed at construction); only its first
      `prefixLength` bytes are meaningful. */
  datatype Node = Node(nodeType: NodeType, count: nat, prefixLength: nat, prefix: seq<bv8>)

  /** The meaningful prefix fits in the buffer. */
  predicate Valid(node: Node) {
    node.prefixLength <= |node.prefix|
  }

  /** A new node of the given variant: empty prefix, no children, and a
      prefix buffer of `compressedPrefixSize` bytes whose contents are
      unspecified (the model fills them with zeros). */
  function NewNode(nodeType: NodeType, compressedPrefixSize: nat): (node: Node)
    ensures Valid(node)
    ensures node.nodeType == nodeType
    ensures node.count == 0 && node.prefixLength == 0
    ensures |node.prefix| == compressedPrefixSize
  {
    Node(nodeType, 0, 0, seq(compressedPrefixSize, _ => 0))
  }

  /** The destination after copying the source's prefix into it: the same
      prefix length and the same meaningful bytes; the rest of the
      destination's buffer, its variant and its child count are untouched.
      The destination's buffer must be able to hold the source's prefix. */
  function CopyPrefix(src: Node, dst: Node): (dst': Node)
    requires Valid(src)
    requires src.prefixLength <= |dst.prefix|
    ensures Valid(dst')
    ensures dst'.prefixLength == src.prefixLength
    ensures dst'.prefix[..src.prefixLength] == src.prefix[..src.prefixLength]
    ensures |dst'.prefix| == |dst.prefix|
    ensures dst'.prefix[src.prefixLength..] == dst.prefix[src.prefixLength..]
    ensures dst'.nodeType == dst.nodeType && dst'.count == dst.count
  {
    var n := src.prefixLength;
    dst.(prefixLength := n, prefix := src.prefix[..n] + dst.prefix[n..])
  }

  /** `pos` is the offset of the first byte where the node's prefix and the
      key (read from `depth` on) differ, or the prefix length when the key
      matches the whole prefix. Every byte compared lies inside the key. */
  ghost predicate IsMismatchOffset(node: Node, key: seq<bv8>, depth: nat, pos: nat)
    requires Valid(node)
  {
    && pos <= node.prefixLength
    && (forall i :: 0 <= i < pos ==> depth + i < |key| && key[depth + i] == node.prefix[i])
    && (pos < node.prefixLength ==> depth + pos < |key| && key[depth + pos] != node.prefix[pos])
  }

  /** The comparison never reads past the key's end: the prefix is empty,
      or the key holds the whole prefix after `depth`, or the key differs
      from the prefix at some byte it does hold (the comparison stops at
      the first such byte). */
  ghost predicate ComparisonStaysInKey(node: Node, key: seq<bv8>, depth: nat)
    requires Valid(node)
  {
    || node.prefixLength == 0
    || depth + node.prefixLength <= |key|
    || exists j :: 0 <= j < node.prefixLength && depth + j < |key| && key[depth + j] != node.prefix[j]
  }

  /** Compares the node's prefix with the key from `depth` on and returns
      the first mismatching offset, or the prefix length on a full match. */
  method PrefixMismatch(node: Node, key: seq<bv8>, depth: nat) returns (pos: nat)
    requires Valid(node)
    requires ComparisonStaysInKey(node, key, depth)
    ensures IsMismatchOffset(node, key, depth, pos)
  {
    pos := 0;
    while pos < node.prefixLength
      invariant pos <= node.prefixLength
      invariant forall i :: 0 <= i < pos ==> depth + i < |key| && key[depth + i] == node.prefix[i]
    {
      if depth + pos >= |key| {
        // a byte past the key's end is reached only if every earlier byte matched
        assert false;
      }
      if key[depth + pos] != node.prefix[pos] {
        return;
      }
      pos := pos + 1;
    }
  }

  /** The mismatch offset is determined by the node, the key and the depth:
      at most one offset meets the description. */
  lemma MismatchOffsetUnique(node: Node, key: seq<bv8>, depth: nat, p: nat, q: nat)
    requires Valid(node)
    requires IsMismatchOffset(node, key, depth, p)
    requires IsMismatchOffset(node, key, depth, q)
    ensures p == q
  {
  }

  /** A mismatch offset exists exactly when the comparison stays inside the
      key, so PrefixMismatch demands no more of its caller than that. */
  lemma MismatchOffsetExistsIffStaysInKey(node: Node, key: seq<bv8>, depth: nat)
    requires Valid(node)
    ensures (exists pos: nat :: IsMismatchOffset(node, key, depth, pos)) <==> ComparisonStaysInKey(node, key, depth)
  {
    if pos: nat :| IsMismatchOffset(node, key, depth, pos) {
      if pos < node.prefixLength {
        assert depth + pos < |key| && key[depth + pos] != node.prefix[pos];
      } else if 0 < node.prefixLength {
        var last := node.prefixLength - 1;
        var b := node.prefix[last];
        assert depth + last < |key|;
      }
    } else if ComparisonStaysInKey(node, key, depth) {
      var pos := MismatchOffsetFrom(node, key, depth, 0);
    }
  }

  /** Continuing the comparison from an offset `k` up to which the key has
      matched, a mismatch offset is found without leaving the key. */
  lemma {:induction false} MismatchOffsetFrom(node: Node, key: seq<bv8>, depth: nat, k: nat) returns (pos: nat)
    requires Valid(node) && ComparisonStaysInKey(node, key, depth)
    requires k <= node.prefixLength
    requires forall i :: 0 <= i < k ==> depth + i < |key| && key[depth + i] == node.prefix[i]
    ensures IsMismatchOffset(node, key, depth, pos)
    decreases node.prefixLength - k
  {
    if k == node.prefixLength {
      pos := k;
    } else {
      if depth + node.prefixLength > |key| {
        var j :| 0 <= j < node.prefixLength && depth + j < |key| && key[depth + j] != node.prefix[j];
        assert k <= j;
      }
      if key[depth + k] != node.prefix[k] {
        pos := k;
      } else {
        pos := MismatchOffsetFrom(node, key, depth, k + 1);
      }
    }
  }

  /** When the key holds `depth` bytes or more, the mismatch offset equals
      the prefix length exactly when the key's bytes from `depth` on repeat
      the whole meaningful prefix. */
  lemma FullMatchIffPrefixEqual(node: Node, key: seq<bv8>, depth: nat, pos: nat)
    requires Valid(node) && depth <= |key|
    requires IsMismatchOffset(node, key, depth, pos)
    ensures pos == node.prefixLength <==>
            depth + node.prefixLength <= |key| &&
            key[depth..depth + node.prefixLength] == node.prefix[..node.prefixLength]
  {
    var n := node.prefixLength;
    if pos == n && 0 < n {
      var b := node.prefix[n - 1];
      assert depth + (n - 1) < |key|;
      assert forall i :: 0 <= i < n ==> key[depth..depth + n][i] == node.prefix[..n][i];
    } else if pos < n && depth + n <= |key| {
      assert key[depth..depth + n][pos] != node.prefix[..n][pos];
    }
  }

  /** A freshly built node has an empty prefix, so every key matches it in
      full at every depth: the mismatch offset is 0. */
  lemma NewNodeMatchesEveryKey(nodeType: NodeType, size: nat, key: seq<bv8>, depth: nat)
    ensures IsMismatchOffset(NewNode(nodeType, size), key, depth, 0)
  {
  }

  /** After CopyPrefix the destination compares against every key exactly
      as the source does: the copied prefix is observationally the same. */
  lemma CopyPrefixPreservesMismatch(src: Node, dst: Node, key: seq<bv8>, depth: nat, pos: nat)
    requires Valid(src) && src.prefixLength <= |dst.prefix|
    ensures IsMismatchOffset(CopyPrefix(src, dst), key, depth, pos) <==>
            IsMismatchOffset(src, key, depth, pos)
  {
    var dst' := CopyPrefix(src, dst);
    var n := src.prefixLength;
    assert forall i :: 0 <= i < n ==> dst'.prefix[i] == src.prefix[i] by {
      forall i | 0 <= i < n
        ensures dst'.prefix[i] == src.prefix[i]
      {
        assert dst'.prefix[..n][i] == src.prefix[..n][i];
      }
    }
    if IsMismatchOffset(src, key, depth, pos) {
      forall i | 0 <= i < pos
        ensures depth + i < |key| && key[depth + i] == dst'.prefix[i]
      {
        assert src.prefix[i] == dst'.prefix[i];
      }
      if pos < n {
        assert src.prefix[pos] == dst'.prefix[pos];
      }
      assert IsMismatchOffset(dst', key, depth, pos);
    }
    if IsMismatchOffset(dst', key, depth, pos) {
      forall i | 0 <= i < pos
        ensures depth + i < |key| && key[depth + i] == src.prefix[i]
      {
        assert dst'.prefix[i] == src.prefix[i];
      }
      if pos < n {
        assert src.prefix[pos] == dst'.prefix[pos];
      }
      assert IsMismatchOffset(src, key, depth, pos);
    }
  }

  /** The tag byte that identifies each variant in block storage. */
  function TagOf(nodeType: NodeType): bv8 {
    match nodeType
    case N4 => 0
    case N16 => 1
    case N48 => 2
    case N256 => 3
    case NLeaf => 4
  }

  /** The variant named by a tag byte read from block storage; any other
      byte is an internal error. */
  function DecodeNodeType(tag: bv8): (r: Result<NodeType>)
    ensures r.Ok? ==> TagOf(r.value) == tag
    ensures r.Err? ==> r.error == InternalError("Invalid ART Node Type")
    ensures r.Err? <==> forall t: NodeType :: TagOf(t) != tag
  {
    if tag == TagOf(NLeaf) then Ok(NLeaf)
    else if tag == TagOf(N4) then Ok(N4)
    else if tag == TagOf(N16) then Ok(N16)
    else if tag == TagOf(N48) then Ok(N48)
    else if tag == TagOf(N256) then Ok(N256)
    else Err(InternalError("Invalid ART Node Type"))
  }

  /** Every variant's tag decodes back to that variant, so distinct
      variants have distinct tags. */
  lemma DecodeTagOf(nodeType: NodeType)
    ensures DecodeNodeType(TagOf(nodeType)) == Ok(nodeType)
  {
  }

  /** What resolving a child pointer yields: the node already in memory at
      an address, or a node of the given variant loaded from the given
      location in block storage. */
  datatype Child =
    | InMemory(address: bv64)
    | Loaded(nodeType: NodeType, blockId: bv64, offset: bv64)

  /** Loads the node stored at (block id, offset): reads its tag byte with
      `readTag` (the block reader; a failed read is an I/O error) and picks
      the variant the tag names. The variant's own field decoding is not
      part of this model. */
  function Deserialize(readTag: (bv64, bv64) -> Result<bv8>, blockId: bv64, offset: bv64): (r: Result<Child>)
    ensures readTag(blockId, offset).Err? ==> r == Err(readTag(blockId, offset).error)
    ensures readTag(blockId, offset).Ok? ==>
              (r.Err? <==> forall t: NodeType :: TagOf(t) != readTag(blockId, offset).value)
    ensures r.Ok? ==> r.value.Loaded? && r.value.blockId == blockId && r.value.offset == offset
    ensures r.Ok? ==> readTag(blockId, offset) == Ok(TagOf(r.value.nodeType))
    ensures readTag(blockId, offset).Ok? && r.Err? ==> r.error == InternalError("Invalid ART Node Type")
  {
    var tag :- readTag(blockId, offset);
    var nodeType :- DecodeNodeType(tag);
    Ok(Loaded(nodeType, blockId, offset))
  }

  /** Resolves a child pointer: an in-memory pointer is returned unchanged;
      a swizzled one is loaded from exactly the location it encodes. */
  function GetChildSwizzled(readTag: (bv64, bv64) -> Result<bv8>, pointer: bv64): (r: Result<Child>)
    ensures !IsSwizzled(pointer) ==> r == Ok(InMemory(pointer))
    ensures IsSwizzled(pointer) ==>
              var info := GetSwizzledBlockInfo(pointer);
              r == Deserialize(readTag, info.0, info.1)
    ensures IsSwizzled(pointer) && r.Ok? ==>
              r.value.Loaded? && GenerateSwizzledPointer(r.value.blockId, r.value.offset) == pointer
  {
    if IsSwizzled(pointer) then
      var info := GetSwizzledBlockInfo(pointer);
      GenerateOfBlockInfo(pointer);
      Deserialize(readTag, info.0, info.1)
    else
      Ok(InMemory(pointer))
  }

  /** A child pointer written by the encoder for an in-range location is
      loaded from that very location. */
  lemma GeneratedChildLoadsFromItsLocation(readTag: (bv64, bv64) -> Result<bv8>, blockId: bv64, offset: bv64)
    requires InRange(blockId, offset)
    ensures GetChildSwizzled(readTag, GenerateSwizzledPointer(blockId, offset)) ==
            Deserialize(readTag, blockId, offset)
  {
  }

  /** A call handed on to an inner variant's own insert or erase routine. */
  datatype Call =
    | InsertInto(variant: NodeType, target: Node, key: bv8, child: bv64)
    | EraseFrom(variant: NodeType, target: Node, pos: bv64)

  /** Hands an insert of `child` under partial key `key` to the node's
      variant; a leaf cannot take children. */
  function InsertLeaf(node: Node, key: bv8, child: bv64): (r: Result<Call>)
    ensures r.Ok? <==> IsInner(node.nodeType)
    ensures r.Ok? ==> r.value == InsertInto(node.nodeType, node, key, child)
    ensures r.Err? ==> r.error == InternalError("Unrecognized leaf type for insert")
  {
    match node.nodeType
    case N4 => Ok(InsertInto(N4, node, key, child))
    case N16 => Ok(InsertInto(N16, node, key, child))
    case N48 => Ok(InsertInto(N48, node, key, child))
    case N256 => Ok(InsertInto(N256, node, key, child))
    case NLeaf => Err(InternalError("Unrecognized leaf type for insert"))
  }

  /** Hands the erase of the child at `pos` to the node's variant; a leaf
      has no children to erase. */
  function Erase(node: Node, pos: bv64): (r: Result<Call>)
    ensures r.Ok? <==> IsInner(node.nodeType)
    ensures r.Ok? ==> r.value == EraseFrom(node.nodeType, node, pos)
    ensures r.Err? ==> r.error == InternalError("Unrecognized leaf type for erase")
  {
    match node.nodeType
    case N4 => Ok(EraseFrom(N4, node, pos))
    case N16 => Ok(EraseFrom(N16, node, pos))
    case N48 => Ok(EraseFrom(N48, node, pos))
    case N256 => Ok(EraseFrom(N256, node, pos))
    case NLeaf => Err(InternalError("Unrecognized leaf type for erase"))
  }

  /** Insert and erase accept exactly the same variants, and both refuse
      exactly the leaf. */
  lemma DispatchAgreement(node: Node, key: bv8, child: bv64, pos: bv64)
    ensures InsertLeaf(node, key, child).Ok? <==> Erase(node, pos).Ok?
    ensures InsertLeaf(node, key, child).Err? <==> node.nodeType == NLeaf
  {
  }
}
