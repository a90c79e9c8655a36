/** What a caller of the mask can conclude from the contracts alone. */
module UpdateMaskUsage {
  import opened MaskWire
  import opened UpdateMasks

  /** A 40-field mask with fields 0, 31, 32 and 39 dirty is written as the
      two words 0x80000001 and 0x00000081. */
  method FortyFieldPacket() returns (words: seq<bv32>)
    ensures words == [0x8000_0001, 0x0000_0081]
  {
    var mask := new UpdateMask();
    mask.SetCount(40);
    mask.SetBit(0);
    mask.SetBit(31);
    mask.SetBit(32);
    mask.SetBit(39);
    words := mask.AppendToPacket([]);
    FortyFieldExample(mask.Slots());
  }

  /** The 8-field mask with fields 1, 3 and 5 dirty. */
  method OddFields() returns (m: UpdateMask)
    ensures fresh(m) && fresh(m.bits) && m.Valid() && m.fieldCount == 8
    ensures forall k :: 0 <= k < m.Capacity() ==> m.Slots()[k] == (k == 1 || k == 3 || k == 5)
  {
    m := new UpdateMask();
    m.SetCount(8);
    m.SetBit(1);
    m.SetBit(3);
    m.SetBit(5);
  }

  /** The 8-field mask with fields 3, 5 and 7 dirty. */
  method UpperFields() returns (m: UpdateMask)
    ensures fresh(m) && fresh(m.bits) && m.Valid() && m.fieldCount == 8
    ensures forall k :: 0 <= k < m.Capacity() ==> m.Slots()[k] == (k == 3 || k == 5 || k == 7)
  {
    m := new UpdateMask();
    m.SetCount(8);
    m.SetBit(3);
    m.SetBit(5);
    m.SetBit(7);
  }

  /** {1, 3, 5} AND {3, 5, 7} is {3, 5}. */
  method AndExample()
  {
    var a := OddFields();
    var b := UpperFields();
    a.AndWith(b);
    assert forall k :: 0 <= k < 8 ==> a.Slots()[k] == (k == 3 || k == 5);
  }

  /** {1, 3, 5} OR {3, 5, 7} is {1, 3, 5, 7}, and neither operand changes. */
  method OrExample()
  {
    var a := OddFields();
    var b := UpperFields();
    var union := a.Or(b);
    assert forall k :: 0 <= k < 8 ==> union.Slots()[k] == (k == 1 || k == 3 || k == 5 || k == 7);
    assert !a.Slots()[7] && !b.Slots()[1];
  }

  /** Changing a copy leaves the mask it was copied from alone. */
  method CopyIsIndependent()
  {
    var a := OddFields();
    var copy := new UpdateMask.Copy(a);
    copy.SetBit(0);
    copy.SetBit(1, false);
    assert copy.Slots()[0] && !copy.Slots()[1];
    assert !a.Slots()[0] && a.Slots()[1];
  }
}
