# UpdateMask: the dirty-field mask of the object update protocol

The server tells a client which fields of an object changed by sending an
update mask: one bit per field, packed into unsigned 32-bit words that the
client reads, followed elsewhere by the values of the marked fields. The class
`UpdateMask` (src/game/UpdateMask.h) keeps that mask. It stores one byte per
field. It rounds its storage up to a whole number of 32-bit client words
(`_blockCount = ceil(_fieldCount / 32)`, storage `_blockCount * 32` slots). It
can be resized (destructively), cleared, deep-copied, combined slot by slot
with another mask by AND and OR, and appended to a packet as `_blockCount`
words.

This project models that class in Dafny and proves its contracts.

- `wire.dfy`, module `MaskWire`: the wire form. `PackWord` packs a run of up
  to 32 slots into one `bv32` exactly as the packing loop does. `Encode` turns
  a whole mask into its words. `Decode` is the reader's side. The lemmas show
  that bit `j` of word `i` is slot `32*i + j`, that the words round-trip in
  both directions, that clear padding slots give zero high bits, and what the
  40-field example encodes to.
- `update_mask.dfy`, module `UpdateMasks`: the class `UpdateMask`. It has the
  fields `fieldCount`, `blockCount` and `bits: array?<bool>`. `null` stands for
  a mask that was never sized. `Valid()` ties the block count and the storage
  size to the field count. `Slots()` is the storage as a sequence.
  `PaddingZero()` says that the slots past the last field are clear. Every
  operation of the header is a method or function with a contract over these.
  The module also holds the two findings below.
- `usage.dfy`, module `UpdateMaskUsage`: client code that derives worked
  examples from the contracts alone. These are the 40-field packet,
  the AND and OR of `{1,3,5}` with `{3,5,7}`, and the independence of a copy.

Decisions a reader should know:

- One `bool` per slot stands for the header's `uint8` per slot. A slot only
  ever holds 0 or 1: `SetBit` stores `uint8(bool)`, `memset` writes 0 and
  `memcpy` copies. So `&=` and `|=` on the bytes are `&&` and `||` on the
  slots.
- `SetBit` and `GetBit` do not check the index in the header. The model
  requires `index < Capacity()` (the allocated slots). Any slot may be written,
  padding included. So the padding invariant is not part of `Valid()`. It is
  the separate predicate `PaddingZero()`. `SetCount` and `Clear` establish
  it. Copying carries `right`'s padding over, so a copy has clear padding
  when `right` has. `&=` and `|=` preserve it. `SetBit` preserves it when it
  writes a field slot or writes `false`.
- `operator&=` and `operator|=` only `ASSERT(right.GetCount() <= GetCount())`,
  but they read `right._bits[i]` for every `i < _fieldCount`. The model
  requires `CombineCompatible`: the header's guard, plus `right`'s storage
  covering `[0, fieldCount)`. `CombineCompatibleSameBlocks` proves this means
  exactly "the guard holds and both masks occupy the same number of words".
  The slots `right` contributes past its own field count are its padding
  slots, as in the header.
- The header's `ASSERT` aborts the process. It is a demand on callers, so the
  model states it as a precondition, not as an error result.
- A packet is a `seq<bv32>`: `AppendToPacket(data)` returns `data` followed by
  the mask's words.

## Model

| member | source | states |
|---|---|---|
| `MaskWire.PackWord` | src/game/UpdateMask.h:54-57 | The word the inner loop builds from a run of at most 32 slots: OR in `1 << j` for each set slot `j`, starting from 0; its meaning is stated by `PackWordBit`. |
| `MaskWire.Encode` | src/game/UpdateMask.h:52-59 | The words the outer loop emits: one packed word per block of 32 slots, in block order, so exactly `len/32` words. |
| `MaskWire.PackWordBit` | src/game/UpdateMask.h:54-57 | The word built by the inner packing loop has bit `j` set iff slot `j` of its run is set; bits past the run are clear. |
| `MaskWire.BitOfSetBit` | src/game/UpdateMask.h:57 | OR-ing `1 << j` into `maskPart` sets bit `j` and leaves every other bit as it was (unsigned 32-bit word). |
| `MaskWire.EncodeBit` | src/game/UpdateMask.h:52-59 | For every block `i` and bit `j < 32`, bit `j` of word `i` is set iff slot `32*i + j` is set. |
| `MaskWire.EncodePrefixStep` | src/game/UpdateMask.h:52-59 | Each pass of the outer loop appends exactly the packed word of block `i` after the words of blocks `0 .. i-1`, in increasing block order. |
| `MaskWire.DecodeEncode` | src/game/UpdateMask.h:50-61 | A reader that unpacks the emitted words recovers every slot of the mask: `Decode(Encode(s)) == s`. |
| `MaskWire.EncodeDecode` | src/game/UpdateMask.h:50-61 | Every word sequence is the encoding of the slots it stands for: `Encode(Decode(ws)) == ws`, so the encoding is one-to-one and onto. |
| `MaskWire.PaddingBitsZero` | src/game/UpdateMask.h:50-61 | When every slot from the field count on is clear, every word bit standing for such a slot is zero, so the last word's high bits are zero. |
| `MaskWire.FortyFieldExample` | src/game/UpdateMask.h:50-61 | 64 slots with only 0, 31, 32 and 39 set encode to the words `0x80000001`, `0x00000081`. |
| `UpdateMasks.BlockCountFor` | src/game/UpdateMask.h:71 | The block count is the ceiling of `count / 32`: `32*blocks >= count` and `32*(blocks-1) < count` for a non-empty mask; 0 for 0 fields. |
| `UpdateMasks.ZeroFill` | src/game/UpdateMask.h:74 | After the fill, every slot of the buffer is clear (the `memset`). |
| `UpdateMasks.CopySlots` | src/game/UpdateMask.h:42 | After the copy, the destination holds the source's slots, one for one (the `memcpy` between two distinct buffers of one size). |
| `UpdateMasks.PackBlock` | src/game/UpdateMask.h:54-57 | The inner packing loop over the 32 slots of one block starting at `base` yields exactly `PackWord` of those slots, so bit `j` is set iff slot `base + j` is set. |
| `UpdateMasks.UpdateMask.constructor` | src/game/UpdateMask.h:37 | A new mask has no fields, no blocks and no storage; it is valid with clear padding. |
| `UpdateMasks.UpdateMask.Copy` | src/game/UpdateMask.h:39-43 | The copy has the same field count, block count and slots as `right`, padding included, in freshly allocated storage, so later writes to it cannot reach `right`; its padding is clear when `right`'s is. |
| `UpdateMasks.UpdateMask.SetBit` | src/game/UpdateMask.h:47 | For any `index` below the capacity, slot `index` becomes `value` and every other slot keeps its value; counts unchanged; padding stays clear if the write is to a field slot or writes `false`. |
| `UpdateMasks.UpdateMask.GetBit` | src/game/UpdateMask.h:48 | Returns the current value of slot `index` for any index below the capacity. |
| `UpdateMasks.UpdateMask.AppendToPacket` | src/game/UpdateMask.h:50-61 | Returns `data` followed by `Encode(Slots())`: exactly `GetBlockCount()` words, block `i`'s word carrying slot `32*i + j` in bit `j`. |
| `UpdateMasks.UpdateMask.GetBlockCount` | src/game/UpdateMask.h:63 | Returns the ceiling of the field count over 32 (`BlockCountFor`), so the words cover the fields with none to spare, and 0 for no fields. |
| `UpdateMasks.UpdateMask.GetCount` | src/game/UpdateMask.h:64 | The field count fits in uint32 and never exceeds the capacity. |
| `UpdateMasks.UpdateMask.SetCount` | src/game/UpdateMask.h:66-75 | Afterwards the field count is `valuesCount`, the block count is `ceil(valuesCount/32)`, the storage is fresh and every slot reads false, padding included, whatever the old contents. |
| `UpdateMasks.UpdateMask.Clear` | src/game/UpdateMask.h:77-81 | Every slot becomes false and padding is clear; counts and storage stay as they are (only the buffer is modified); a never-sized mask is left as it is. |
| `UpdateMasks.UpdateMask.Assign` | src/game/UpdateMask.h:83-91 | Afterwards the counts and slots equal `right`'s old ones, padding included, so padding is clear when `right`'s was; self-assignment keeps the same storage and contents; otherwise the storage is fresh. |
| `UpdateMasks.UpdateMask.AndWith` | src/game/UpdateMask.h:93-100 | Each field slot `k` becomes `old[k] && right[k]`; padding slots are unchanged; `right` is unchanged unless it shares the storage; clear padding stays clear. |
| `UpdateMasks.UpdateMask.OrWith` | src/game/UpdateMask.h:102-109 | Each field slot `k` becomes `old[k]` OR `right[k]`; padding slots are unchanged; `right` is unchanged unless it shares the storage; clear padding stays clear. |
| `UpdateMasks.UpdateMask.Or` | src/game/UpdateMask.h:111-116 | Returns a fresh mask with this mask's counts whose field slots are `this[k]` OR `right[k]` and whose padding is this mask's; neither operand is modified. |
| `UpdateMasks.CombineGuardAsWritten` | src/game/UpdateMask.h:95 | The only check the combine operators make before their loops (lines 95 and 104): `right` has no more fields than this mask. |
| `UpdateMasks.CombineGuardAdmitsOverread` | src/game/UpdateMask.h:95-97 | The header's guard accepts a 40-field mask combined with an 8-field one, whose storage has only 32 slots. |
| `UpdateMasks.CombineCompatibleSameBlocks` | src/game/UpdateMask.h:93-109 | The combine precondition holds iff the header's guard holds and both masks have the same block count. |
| `UpdateMasks.BlockCountAsWritten` | src/game/UpdateMask.h:71 | The uint32 computation `(valuesCount + 31) / 32` never exceeds the intended ceiling. |
| `UpdateMasks.BlockCountAsWrittenWraps` | src/game/UpdateMask.h:71 | For the 31 largest uint32 counts the sum wraps, so the header allocates no word for a non-empty mask. |
| `UpdateMasks.BlockCountAsWrittenAgrees` | src/game/UpdateMask.h:71 | For every smaller count the header's computation equals the intended ceiling. |
| `UpdateMaskUsage.FortyFieldPacket` | src/game/UpdateMask.h:50-61 | Sizing a mask to 40 fields, setting 0, 31, 32 and 39 and appending it gives the words `0x80000001`, `0x00000081`. |

## Findings

| source | as written | input that shows it | evidently intended | confidence | as-written member | corrected member |
|---|---|---|---|---|---|---|
| src/game/UpdateMask.h:71 | `_blockCount = (valuesCount + 31) / 32` computed in uint32, so the sum wraps | `SetCount(0xFFFFFFFF)` gives `_blockCount == 0`, and the mask has no storage for 4294967295 fields | `_blockCount == ceil(valuesCount / 32)` for every uint32 count | not executed; follows from unsigned 32-bit arithmetic, and no realistic field count is that large | `UpdateMasks.BlockCountAsWrittenWraps` | `UpdateMasks.BlockCountFor` |
| src/game/UpdateMask.h:95-97 | the AND-assign and OR-assign operators check only `right.GetCount() <= GetCount()` and then read `right._bits[i]` for all `i < _fieldCount` | this mask has 40 fields, `right` has 8 (32 slots): slots 32..39 are read past `right`'s storage | the loop reads only storage `right` owns | not executed; follows from the loop bound and the allocation size | `UpdateMasks.CombineGuardAdmitsOverread` | `UpdateMasks.UpdateMask.AndWith` |

The model uses the corrected forms. `SetCount` uses `BlockCountFor`, with the
count bounded by uint32. `AndWith`, `OrWith` and `Or` require
`CombineCompatible`, so the verifier proves that every read of `right.bits`
is in bounds.

## Left out

- The byte order in which `ByteBuffer::operator<<` writes each word: the
  buffer is an external writer, so a packet is a sequence of words.
- The field identifiers of `UpdateFields.h`: the mask only records which
  indices are dirty.
- Raw storage management: `new[]`, `delete[]` and the destructor. Allocation
  is a fresh Dafny array. `memset` and `memcpy` are the element-wise loops
  `ZeroFill` and `CopySlots`. Releasing memory has no counterpart.
- The process abort of `ASSERT`: it is a precondition instead.
- C++ signed `1 << 31`: words are unsigned `bv32`, and bit 31 has the value
  2^31.
- References returned by `operator=`, `operator&=` and `operator|=` for
  chaining: the methods return nothing, and `Or` returns the new mask.
- Concurrency: the class has no synchronisation, and the model is
  sequential.
- UpdateMasks.UpdateMask.SetBit: requires `index < Capacity()`. The header
  does not check the index, and an index past the storage is undefined
  behaviour that the model does not represent.
- UpdateMasks.UpdateMask.GetBit: requires `index < Capacity()`, for the same
  reason.
