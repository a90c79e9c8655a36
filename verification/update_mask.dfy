/** The dirty-field mask of the update protocol: one slot per field of an
    object, storage rounded up to whole 32-bit client words, set and cleared
    slot by slot, combined with another mask, and written out as words. */
module UpdateMasks {
  import opened MaskWire

  /** Field counts and indices are uint32 in the protocol. */
  const MaxCount: nat := 0xFFFF_FFFF

  /** Number of client words needed to hold `valuesCount` slots: the
      smallest count of whole words that covers them. */
  function BlockCountFor(valuesCount: nat): (blocks: nat)
    ensures blocks * WordBits >= valuesCount
    ensures valuesCount > 0 ==> (blocks - 1) * WordBits < valuesCount
    ensures valuesCount == 0 ==> blocks == 0
  {
    (valuesCount + WordBits - 1) / WordBits
  }

  /** Zero every slot of a buffer (the memset of the storage). */
  method ZeroFill(a: array<bool>)
    modifies a
    ensures a[..] == seq(a.Length, _ => false)
  {
    var i := 0;
    while i < a.Length
      invariant 0 <= i <= a.Length
      invariant forall k :: 0 <= k < i ==> !a[k]
    {
      a[i] := false;
      i := i + 1;
    }
  }

  /** Copy one buffer into another of the same size (the memcpy of the
      storage; the two buffers never overlap). */
  method CopySlots(dst: array<bool>, src: array<bool>)
    requires dst != src && dst.Length == src.Length
    modifies dst
    ensures dst[..] == src[..]
  {
    var i := 0;
    while i < dst.Length
      invariant 0 <= i <= dst.Length
      invariant forall k :: 0 <= k < i ==> dst[k] == src[k]
    {
      dst[i] := src[i];
      i := i + 1;
    }
  }

  /** Pack the 32 slots of one block, starting at slot `base`, into one
      word: bit j is set exactly when slot base + j is set. */
  method PackBlock(a: array<bool>, base: nat) returns (maskPart: bv32)
    requires base + WordBits <= a.Length
    ensures maskPart == PackWord(a[base .. base + WordBits])
  {
    ghost var slots := a[..];
    maskPart := 0;
    var j := 0;
    while j < WordBits
      invariant 0 <= j <= WordBits
      invariant maskPart == PackWord(slots[base .. base + j])
    {
      PackRunStep(slots, base, j, maskPart);
      if a[base + j] {
        maskPart := maskPart | BitMask(j);
      }
      j := j + 1;
    }
  }

  /** One pass of the packing loop: folding slot base + j into the word
      packed from the slots before it packs one slot more. */
  lemma PackRunStep(slots: seq<bool>, base: nat, j: nat, maskPart: bv32)
    requires base + WordBits <= |slots| && j < WordBits
    requires maskPart == PackWord(slots[base .. base + j])
    ensures PackWord(slots[base .. base + j + 1])
      == if slots[base + j] then maskPart | BitMask(j) else maskPart
  {
    var block := slots[base .. base + WordBits];
    PackWordStep(block, j);
    assert block[..j + 1] == slots[base .. base + j + 1];
    assert block[..j] == slots[base .. base + j];
  }

  /** One pass of the outer loop of AppendToPacket: appending the packed
      block i to the words of blocks 0 .. i-1 gives the words of blocks
      0 .. i. */
  lemma AppendBlockStep(slots: seq<bool>, blocks: nat, i: nat, data: seq<bv32>, out: seq<bv32>, maskPart: bv32)
    requires |slots| == blocks * WordBits && i < blocks
    requires out == data + Encode(slots[..WordBits * i])
    requires maskPart == PackWord(slots[WordBits * i .. WordBits * i + WordBits])
    ensures out + [maskPart] == data + Encode(slots[..WordBits * (i + 1)])
  {
    assert |slots| % WordBits == 0 && |slots| / WordBits == blocks;
    EncodePrefixStep(slots, i);
  }

  /** Block i of a buffer of `blocks` whole words lies inside the buffer. */
  lemma BlockInBounds(blocks: nat, i: nat)
    requires i < blocks
    ensures WordBits * i + WordBits <= blocks * WordBits
  {
  }

  class UpdateMask {
    /** Total field count of the object, updated or not. */
    var fieldCount: nat
    /** Client words needed to hold one slot per field. */
    var blockCount: nat
    /** One slot per field, rounded up to whole words; null until first sized. */
    var bits: array?<bool>

    ghost predicate Valid()
      reads this
    {
      && fieldCount <= MaxCount
      && blockCount == BlockCountFor(fieldCount)
      && (bits == null ==> fieldCount == 0)
      && (bits != null ==> bits.Length == blockCount * WordBits)
    }

    /** Number of allocated slots: whole words, never fewer than the fields. */
    function Capacity(): nat
      reads this
    {
      blockCount * WordBits
    }

    /** The contents of the storage, slot by slot. */
    ghost function Slots(): (s: seq<bool>)
      reads this, bits
      requires Valid()
      ensures |s| == Capacity()
    {
      if bits == null then [] else bits[..]
    }

    /** The slots past the last field, which only pad the last word, are clear. */
    ghost predicate PaddingZero()
      reads this, bits
      requires Valid()
    {
      forall k :: fieldCount <= k < Capacity() ==> !Slots()[k]
    }

    /** A mask that has never been sized: no fields, no storage. */
    constructor ()
      ensures Valid() && PaddingZero()
      ensures fieldCount == 0 && blockCount == 0 && bits == null
    {
      fieldCount, blockCount, bits := 0, 0, null;
    }

    /** Copy construction: a deep copy of the count and of every slot, in
        storage of its own. */
    constructor Copy(right: UpdateMask)
      requires right.Valid()
      ensures Valid()
      ensures fieldCount == right.fieldCount && blockCount == right.blockCount
      ensures Slots() == right.Slots()
      ensures right.PaddingZero() ==> PaddingZero()
      ensures bits != null && fresh(bits)
    {
      fieldCount, blockCount, bits := 0, 0, null;
      new;
      SetCount(right.GetCount());
      if right.bits != null {
        CopySlots(bits, right.bits);
      }
    }

    /** Write one slot. The index is not checked against the field count: any
        slot of the storage, padding included, may be written. */
    method SetBit(index: nat, value: bool := true)
      requires Valid() && index < Capacity()
      modifies bits
      ensures Valid()
      ensures Slots() == old(Slots())[index := value]
      ensures old(PaddingZero()) && (index < fieldCount || !value) ==> PaddingZero()
    {
      bits[index] := value;
    }

    /** Read one slot. */
    function GetBit(index: nat): (isSet: bool)
      reads this, bits
      requires Valid() && index < Capacity()
      ensures isSet == Slots()[index]
    {
      bits[index]
    }

    /** Append the mask to an outgoing packet: one word per block, in block
        order, bit j of word i set exactly when slot 32*i + j is set. */
    method AppendToPacket(data: seq<bv32>) returns (out: seq<bv32>)
      requires Valid()
      ensures out == data + Encode(Slots())
    {
      ghost var slots := Slots();
      out := data;
      var i := 0;
      while i < blockCount
        invariant 0 <= i <= blockCount
        invariant out == data + Encode(slots[..WordBits * i])
      {
        BlockInBounds(blockCount, i);
        var maskPart := PackBlock(bits, WordBits * i);
        AppendBlockStep(slots, blockCount, i, data, out, maskPart);
        out := out + [maskPart];
        i := i + 1;
      }
      assert slots[..WordBits * blockCount] == slots;
    }

    /** The number of client words the mask is written as. */
    function GetBlockCount(): (blocks: nat)
      reads this
      requires Valid()
      ensures blocks == BlockCountFor(fieldCount)
    {
      blockCount
    }

    /** The number of fields the mask tracks. */
    function GetCount(): (count: nat)
      reads this
      requires Valid()
      ensures count <= MaxCount && count <= Capacity()
    {
      fieldCount
    }

    /** Resize to `valuesCount` fields. Destructive: fresh storage, every
        slot clear, padding included, whatever was there before. */
    method SetCount(valuesCount: nat)
      requires valuesCount <= MaxCount
      modifies this
      ensures Valid() && PaddingZero()
      ensures fieldCount == valuesCount && blockCount == BlockCountFor(valuesCount)
      ensures bits != null && fresh(bits)
      ensures Slots() == seq(Capacity(), _ => false)
    {
      fieldCount := valuesCount;
      blockCount := BlockCountFor(valuesCount);
      var storage := new bool[blockCount * WordBits];
      ZeroFill(storage);
      bits := storage;
    }

    /** Clear every slot; the counts and the storage stay as they are. */
    method Clear()
      requires Valid()
      modifies bits
      ensures Valid() && PaddingZero()
      ensures Slots() == seq(Capacity(), _ => false)
    {
      if bits != null {
        ZeroFill(bits);
      }
    }

    /** Assignment: a deep copy of `right`; assigning a mask to itself
        leaves it as it is. */
    method Assign(right: UpdateMask)
      requires Valid() && right.Valid()
      modifies this
      ensures Valid()
      ensures fieldCount == old(right.fieldCount) && blockCount == old(right.blockCount)
      ensures Slots() == old(right.Slots())
      ensures old(right.PaddingZero()) ==> PaddingZero()
      ensures right == this ==> bits == old(bits)
      ensures right != this ==> bits != null && fresh(bits)
    {
      if this == right {
        return;
      }
      SetCount(right.GetCount());
      if right.bits != null {
        CopySlots(bits, right.bits);
      }
    }

    /** operator&=: every field slot becomes the AND of its own and `right`'s
        slot. The padding slots are left alone. */
    method AndWith(right: UpdateMask)
      requires Valid() && right.Valid()
      requires CombineCompatible(fieldCount, right.fieldCount)
      modifies bits
      ensures Valid()
      ensures forall k :: 0 <= k < fieldCount ==> Slots()[k] == (old(Slots()[k]) && old(right.Slots()[k]))
      ensures forall k :: fieldCount <= k < Capacity() ==> Slots()[k] == old(Slots()[k])
      ensures right.bits != bits ==> right.Slots() == old(right.Slots())
      ensures old(PaddingZero()) ==> PaddingZero()
    {
      var i := 0;
      while i < fieldCount
        invariant 0 <= i <= fieldCount
        invariant forall k :: 0 <= k < i ==> Slots()[k] == (old(Slots()[k]) && old(right.Slots()[k]))
        invariant forall k :: i <= k < Capacity() ==> Slots()[k] == old(Slots()[k])
        invariant forall k :: i <= k < right.Capacity() ==> right.Slots()[k] == old(right.Slots()[k])
        invariant right.bits != bits ==> right.Slots() == old(right.Slots())
      {
        bits[i] := bits[i] && right.bits[i];
        i := i + 1;
      }
    }

    /** operator|=: every field slot becomes the OR of its own and `right`'s
        slot. The padding slots are left alone. */
    method OrWith(right: UpdateMask)
      requires Valid() && right.Valid()
      requires CombineCompatible(fieldCount, right.fieldCount)
      modifies bits
      ensures Valid()
      ensures forall k :: 0 <= k < fieldCount ==> Slots()[k] == (old(Slots()[k]) || old(right.Slots()[k]))
      ensures forall k :: fieldCount <= k < Capacity() ==> Slots()[k] == old(Slots()[k])
      ensures right.bits != bits ==> right.Slots() == old(right.Slots())
      ensures old(PaddingZero()) ==> PaddingZero()
    {
      var i := 0;
      while i < fieldCount
        invariant 0 <= i <= fieldCount
        invariant forall k :: 0 <= k < i ==> Slots()[k] == (old(Slots()[k]) || old(right.Slots()[k]))
        invariant forall k :: i <= k < Capacity() ==> Slots()[k] == old(Slots()[k])
        invariant forall k :: i <= k < right.Capacity() ==> right.Slots()[k] == old(right.Slots()[k])
        invariant right.bits != bits ==> right.Slots() == old(right.Slots())
      {
        bits[i] := bits[i] || right.bits[i];
        i := i + 1;
      }
    }

    /** operator|: a new mask, a copy of this one ORed with `right`; neither
        operand changes. */
    method Or(right: UpdateMask) returns (ret: UpdateMask)
      requires Valid() && right.Valid()
      requires CombineCompatible(fieldCount, right.fieldCount)
      ensures fresh(ret) && ret.bits != null && fresh(ret.bits)
      ensures ret.Valid() && ret.fieldCount == fieldCount && ret.blockCount == blockCount
      ensures forall k :: 0 <= k < fieldCount ==> ret.Slots()[k] == (Slots()[k] || right.Slots()[k])
      ensures forall k :: fieldCount <= k < Capacity() ==> ret.Slots()[k] == Slots()[k]
    {
      ret := new UpdateMask.Copy(this);
      ret.OrWith(right);
    }
  }

  /** The only check operator&= and operator|= make before their loops: the
      right-hand mask has no more fields than this one. */
  predicate CombineGuardAsWritten(count: nat, rightCount: nat)
  {
    rightCount <= count
  }

  /** What the combine loops need: the right-hand mask has no more fields,
      and its storage covers every index the loop reads, [0, count). */
  predicate CombineCompatible(count: nat, rightCount: nat)
  {
    rightCount <= count <= BlockCountFor(rightCount) * WordBits
  }

  /** The guard as written lets the loops read past the right-hand storage:
      with 40 fields combined with an 8-field mask, slots 32 .. 39 are read
      from 32 allocated ones. */
  lemma CombineGuardAdmitsOverread()
    ensures CombineGuardAsWritten(40, 8) && !CombineCompatible(40, 8)
    ensures BlockCountFor(8) * WordBits < 40
  {
  }

  /** The corrected precondition says exactly: the guard of the source holds
      and both masks occupy the same number of words. */
  lemma CombineCompatibleSameBlocks(count: nat, rightCount: nat)
    ensures CombineCompatible(count, rightCount) <==>
      CombineGuardAsWritten(count, rightCount) && BlockCountFor(count) == BlockCountFor(rightCount)
  {
  }

  /** The block count as the source computes it: `valuesCount + 31` in
      unsigned 32-bit arithmetic, which wraps. */
  function BlockCountAsWritten(valuesCount: nat): (blocks: nat)
    requires valuesCount <= MaxCount
    ensures blocks <= BlockCountFor(valuesCount)
  {
    ((valuesCount + WordBits - 1) % (MaxCount + 1)) / WordBits
  }

  /** For the top 31 uint32 counts the sum wraps and the source allocates no
      word at all for a non-empty mask. */
  lemma BlockCountAsWrittenWraps(valuesCount: nat)
    requires MaxCount - WordBits + 1 < valuesCount <= MaxCount
    ensures BlockCountAsWritten(valuesCount) == 0 && valuesCount > 0
    ensures BlockCountAsWritten(valuesCount) * WordBits < valuesCount
  {
  }

  /** Below those counts the source's computation is the intended one. */
  lemma BlockCountAsWrittenAgrees(valuesCount: nat)
    requires valuesCount <= MaxCount - WordBits + 1
    ensures BlockCountAsWritten(valuesCount) == BlockCountFor(valuesCount)
  {
  }
}
