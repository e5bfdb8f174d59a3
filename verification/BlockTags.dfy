/** A block's tag word: its size, a multiple of 16, with the allocation state in the low bit. */
module BlockTags {

  function Tag(size: nat, alloc: bool): nat
  {
    size + if alloc then 1 else 0
  }

  /** The tag without its low bit. */
  function SizeBits(tag: nat): nat
  {
    tag - tag % 2
  }

  predicate AllocBit(tag: nat)
  {
    tag % 2 == 1
  }

  /** Both parts of a tag can be read back. */
  lemma TagParts(size: nat, alloc: bool)
    requires size % 16 == 0
    ensures SizeBits(Tag(size, alloc)) == size && AllocBit(Tag(size, alloc)) == alloc
  {
    hide SizeBits, AllocBit;
    EvenTag(8 * (size / 16), alloc);
  }

  lemma EvenTag(half: nat, alloc: bool)
    ensures SizeBits(Tag(2 * half, alloc)) == 2 * half && AllocBit(Tag(2 * half, alloc)) == alloc
  {
  }
}
