/** The swizzled-pointer codec of the ART node protocol.

    A child pointer is one 64-bit word. When its top bit is set the word is
    "swizzled": the child has not been loaded yet and lives in block storage,
    with the block id in bits 32..62 and the offset within the block in bits
    0..31. When the top bit is clear the word is an in-memory node address
    (the null address 0 included).
 */
module Swizzle {
  import opened ArtErrors

  /** idx_t(-1): the engine's "no index" sentinel. */
  const INVALID_INDEX: bv64 := 0xFFFF_FFFF_FFFF_FFFF

  /** The top bit of the word: set exactly on swizzled pointers. */
  const SWIZZLE_FLAG: bv64 := 0x8000_0000_0000_0000

  /** Largest block id plus one that survives the round trip (31 bits). */
  const BLOCK_LIMIT: bv64 := 0x8000_0000

  /** Largest offset plus one that survives the round trip (32 bits). */
  const OFFSET_LIMIT: bv64 := 0x1_0000_0000

  /** The pair is one the codec can represent faithfully. */
  predicate InRange(blockId: bv64, offset: bv64) {
    blockId < BLOCK_LIMIT && offset < OFFSET_LIMIT
  }

  /** Bit 63 of the word. */
  function IsSwizzled(pointer: bv64): (b: bool)
    ensures b <==> pointer >= SWIZZLE_FLAG
    ensures pointer == 0 ==> !b
  {
    (pointer >> 63) & 1 == 1
  }

  /** Splits a swizzled word into (block id, offset): the top bit is
      cleared, the block id is what remains above bit 31 (truncated to 32
      bits) and the offset is the low 32 bits. */
  function GetSwizzledBlockInfo(pointer: bv64): (info: (bv64, bv64))
    requires IsSwizzled(pointer)
    ensures InRange(info.0, info.1)
    ensures SWIZZLE_FLAG | (info.0 << 32) | info.1 == pointer
  {
    var cleared := pointer & !(1 << 63);
    var blockId := (cleared >> 32) & 0xFFFF_FFFF;
    var offset := cleared & 0xFFFF_FFFF;
    (blockId, offset)
  }

  /** Packs (block id, offset) into a swizzled word, exactly as written:
      the block id is shifted into the upper half, the offset is ADDED
      (so a carry reaches the block bits) and the top bit is or-ed in.
      Either argument equal to the sentinel yields the null word 0. */
  function GenerateSwizzledPointer(blockId: bv64, offset: bv64): (pointer: bv64)
    ensures blockId == INVALID_INDEX || offset == INVALID_INDEX ==> pointer == 0
    ensures blockId != INVALID_INDEX && offset != INVALID_INDEX ==> IsSwizzled(pointer)
    ensures InRange(blockId, offset) ==> GetSwizzledBlockInfo(pointer) == (blockId, offset)
  {
    if blockId == INVALID_INDEX || offset == INVALID_INDEX then
      0
    else
      var shifted := blockId << 32;
      var summed := shifted + offset;
      summed | (1 << 63)
  }

  /** Decoding a swizzled word and encoding the result gives the word back:
      every swizzled word is the encoding of exactly one in-range pair. */
  lemma GenerateOfBlockInfo(pointer: bv64)
    requires IsSwizzled(pointer)
    ensures var info := GetSwizzledBlockInfo(pointer);
            GenerateSwizzledPointer(info.0, info.1) == pointer
  {
  }

  /** A word is swizzled exactly when it is the encoding of some in-range
      (block id, offset) pair. */
  lemma SwizzledIffGenerated(pointer: bv64)
    ensures IsSwizzled(pointer) <==>
            exists b: bv64, o: bv64 :: InRange(b, o) && GenerateSwizzledPointer(b, o) == pointer
  {
    if IsSwizzled(pointer) {
      var info := GetSwizzledBlockInfo(pointer);
      GenerateOfBlockInfo(pointer);
      assert InRange(info.0, info.1) && GenerateSwizzledPointer(info.0, info.1) == pointer;
    }
  }

  /** On in-range pairs the encoder is injective: distinct locations get
      distinct words. */
  lemma GenerateInjectiveInRange(b1: bv64, o1: bv64, b2: bv64, o2: bv64)
    requires InRange(b1, o1) && InRange(b2, o2)
    requires GenerateSwizzledPointer(b1, o1) == GenerateSwizzledPointer(b2, o2)
    ensures b1 == b2 && o1 == o2
  {
  }

  /** As written, a block id with bit 31 set loses that bit under the
      swizzle flag: block 2^31 at offset 0 encodes to the same word as
      block 0 at offset 0. */
  lemma BlockIdAliasing()
    ensures GenerateSwizzledPointer(0x8000_0000, 0) == GenerateSwizzledPointer(0, 0)
  {
  }

  /** As written, an offset of 2^32 carries into the block bits: block 0 at
      offset 2^32 encodes to the same word as block 1 at offset 0. */
  lemma OffsetCarryAliasing()
    ensures GenerateSwizzledPointer(0, 0x1_0000_0000) == GenerateSwizzledPointer(1, 0)
  {
  }

  /** The encoder with the range check the layout needs: a field that does
      not fit its part of the word is rejected instead of aliasing another
      location. The sentinel still yields the null word. */
  function GenerateSwizzledPointerChecked(blockId: bv64, offset: bv64): (r: Result<bv64>)
    ensures blockId == INVALID_INDEX || offset == INVALID_INDEX ==> r == Ok(0)
    ensures r.Err? <==> blockId != INVALID_INDEX && offset != INVALID_INDEX && !InRange(blockId, offset)
    ensures r.Ok? && r.value != 0 ==> IsSwizzled(r.value) && GetSwizzledBlockInfo(r.value) == (blockId, offset)
    ensures InRange(blockId, offset) ==>
              r.Ok? && IsSwizzled(r.value) && GetSwizzledBlockInfo(r.value) == (blockId, offset)
  {
    if blockId == INVALID_INDEX || offset == INVALID_INDEX then
      Ok(0)
    else if !InRange(blockId, offset) then
      Err(OutOfRange)
    else
      Ok(GenerateSwizzledPointer(blockId, offset))
  }

  /** The checked encoder never maps two different accepted locations to
      the same swizzled word. */
  lemma CheckedInjective(b1: bv64, o1: bv64, b2: bv64, o2: bv64)
    requires GenerateSwizzledPointerChecked(b1, o1).Ok?
    requires GenerateSwizzledPointerChecked(b2, o2).Ok?
    requires GenerateSwizzledPointerChecked(b1, o1).value != 0
    requires GenerateSwizzledPointerChecked(b1, o1) == GenerateSwizzledPointerChecked(b2, o2)
    ensures b1 == b2 && o1 == o2
  {
  }
}
