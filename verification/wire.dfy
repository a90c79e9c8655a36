/** The wire form of an update mask: the slots of the mask grouped into
    consecutive runs of 32, each run packed into one unsigned 32-bit client
    word, bit j of word i standing for slot 32*i + j. */
module MaskWire {

  /** Bits per client word: the client reads the mask as uint32 values. */
  const WordBits := 32

  /** Bit j (0 is the least significant) of a client word. */
  predicate Bit(w: bv32, j: nat)
    requires j < WordBits
  {
    ((w >> j) & 1) == 1
  }

  /** Words a and b agree on bits lo .. hi-1. */
  predicate SameBits(a: bv32, b: bv32, lo: nat, hi: nat)
    requires hi <= WordBits
  {
    forall j :: lo <= j < hi ==> Bit(a, j) == Bit(b, j)
  }

  // One lemma per byte keeps each bit-vector proof small.
  lemma SameByte0(a: bv32, b: bv32)
    requires SameBits(a, b, 0, 8)
    ensures (a & 0xFF) == (b & 0xFF)
  {
    assert Bit(a, 0) == Bit(b, 0) && Bit(a, 1) == Bit(b, 1) && Bit(a, 2) == Bit(b, 2) && Bit(a, 3) == Bit(b, 3);
    assert Bit(a, 4) == Bit(b, 4) && Bit(a, 5) == Bit(b, 5) && Bit(a, 6) == Bit(b, 6) && Bit(a, 7) == Bit(b, 7);
  }

  lemma SameByte1(a: bv32, b: bv32)
    requires SameBits(a, b, 8, 16)
    ensures (a & 0xFF00) == (b & 0xFF00)
  {
    assert Bit(a, 8) == Bit(b, 8) && Bit(a, 9) == Bit(b, 9) && Bit(a, 10) == Bit(b, 10) && Bit(a, 11) == Bit(b, 11);
    assert Bit(a, 12) == Bit(b, 12) && Bit(a, 13) == Bit(b, 13) && Bit(a, 14) == Bit(b, 14) && Bit(a, 15) == Bit(b, 15);
  }

  lemma SameByte2(a: bv32, b: bv32)
    requires SameBits(a, b, 16, 24)
    ensures (a & 0xFF_0000) == (b & 0xFF_0000)
  {
    assert Bit(a, 16) == Bit(b, 16) && Bit(a, 17) == Bit(b, 17) && Bit(a, 18) == Bit(b, 18) && Bit(a, 19) == Bit(b, 19);
    assert Bit(a, 20) == Bit(b, 20) && Bit(a, 21) == Bit(b, 21) && Bit(a, 22) == Bit(b, 22) && Bit(a, 23) == Bit(b, 23);
  }

  lemma SameByte3(a: bv32, b: bv32)
    requires SameBits(a, b, 24, 32)
    ensures (a & 0xFF00_0000) == (b & 0xFF00_0000)
  {
    assert Bit(a, 24) == Bit(b, 24) && Bit(a, 25) == Bit(b, 25) && Bit(a, 26) == Bit(b, 26) && Bit(a, 27) == Bit(b, 27);
    assert Bit(a, 28) == Bit(b, 28) && Bit(a, 29) == Bit(b, 29) && Bit(a, 30) == Bit(b, 30) && Bit(a, 31) == Bit(b, 31);
  }

  /** Two words with the same 32 bits are the same word. */
  lemma WordsEqualByBits(a: bv32, b: bv32)
    requires SameBits(a, b, 0, WordBits)
    ensures a == b
  {
    SameByte0(a, b);
    SameByte1(a, b);
    SameByte2(a, b);
    SameByte3(a, b);
  }

  /** A bit position fits in 6 bits without loss; the verifier states
      shifts by an integer amount through that 6-bit form. */
  lemma PositionAsBv6(j: nat)
    requires j < WordBits
    ensures ((j as bv6) as int) == j
  {
  }

  /** Setting bit k sets that bit and leaves the others alone, with both
      positions given in 6 bits. */
  lemma BitOfSetBitBv6(w: bv32, kb: bv6, jb: bv6)
    requires kb < 32 && jb < 32
    ensures (((w | (1 << (kb as bv32))) >> (jb as bv32)) & 1 == 1) == (jb == kb || ((w >> (jb as bv32)) & 1) == 1)
  {
  }

  /** The word with only bit k set. */
  function BitMask(k: nat): bv32
    requires k < WordBits
  {
    1 << k
  }

  /** Setting bit k of a word sets that bit and leaves the others alone. */
  lemma BitOfSetBit(w: bv32, k: nat, j: nat)
    requires k < WordBits && j < WordBits
    ensures Bit(w | BitMask(k), j) == (j == k || Bit(w, j))
  {
    PositionAsBv6(j);
    PositionAsBv6(k);
    BitOfSetBitBv6(w, k as bv6, j as bv6);
  }

  /** One client word, built as the packing loop builds it: slots are visited
      in increasing order and slot j, when set, ORs in bit j. */
  function PackWord(s: seq<bool>): (w: bv32)
    requires |s| <= WordBits
  {
    if |s| == 0 then 0
    else if s[|s| - 1] then PackWord(s[..|s| - 1]) | BitMask(|s| - 1)
    else PackWord(s[..|s| - 1])
  }

  /** No bit of the empty word is set. */
  lemma ZeroHasNoBits(j: nat)
    requires j < WordBits
    ensures !Bit(0, j)
  {
  }

  /** Unfolding the packing of a run whose last slot is set. */
  lemma PackWordLastSet(s: seq<bool>)
    requires 0 < |s| <= WordBits && s[|s| - 1]
    ensures PackWord(s) == PackWord(s[..|s| - 1]) | BitMask(|s| - 1)
  {
  }

  /** Unfolding the packing of a run whose last slot is clear. */
  lemma PackWordLastClear(s: seq<bool>)
    requires 0 < |s| <= WordBits && !s[|s| - 1]
    ensures PackWord(s) == PackWord(s[..|s| - 1])
  {
  }

  /** Bit j of a packed word is set exactly when slot j of the run is set;
      the bits past the run are clear. */
  lemma {:induction false} PackWordBit(s: seq<bool>, j: nat)
    requires |s| <= WordBits && j < WordBits
    ensures Bit(PackWord(s), j) == (j < |s| && s[j])
    decreases |s|
  {
    if |s| == 0 {
      ZeroHasNoBits(j);
    } else {
      var prefix := s[..|s| - 1];
      PackWordBit(prefix, j);
      if s[|s| - 1] {
        PackWordLastSet(s);
        BitOfSetBit(PackWord(prefix), |s| - 1, j);
      } else {
        PackWordLastClear(s);
      }
    }
  }

  /** The words for a whole mask: one word per run of 32 slots, in order. */
  function Encode(s: seq<bool>): (ws: seq<bv32>)
    requires |s| % WordBits == 0
    ensures |ws| == |s| / WordBits
    decreases |s|
  {
    if |s| == 0 then [] else [PackWord(s[..WordBits])] + Encode(s[WordBits..])
  }

  /** The 32 slots a word stands for. */
  function UnpackWord(w: bv32): (s: seq<bool>)
    ensures |s| == WordBits
  {
    seq(WordBits, j requires 0 <= j < WordBits => Bit(w, j))
  }

  /** The reader's side: the slots the received words stand for. */
  function Decode(ws: seq<bv32>): (s: seq<bool>)
    ensures |s| == WordBits * |ws|
  {
    if ws == [] then [] else UnpackWord(ws[0]) + Decode(ws[1..])
  }

  /** Bit j of word i is set exactly when slot 32*i + j is set. */
  lemma {:induction false} EncodeBit(s: seq<bool>, i: nat, j: nat)
    requires |s| % WordBits == 0 && i < |s| / WordBits && j < WordBits
    ensures Bit(Encode(s)[i], j) == s[WordBits * i + j]
    decreases i
  {
    if i == 0 {
      assert Encode(s)[0] == PackWord(s[..WordBits]);
      PackWordBit(s[..WordBits], j);
    } else {
      EncodeBit(s[WordBits..], i - 1, j);
      assert Encode(s)[i] == Encode(s[WordBits..])[i - 1];
    }
  }

  /** Encoding two whole runs of words side by side is encoding each. */
  lemma {:induction false} EncodeAppend(a: seq<bool>, b: seq<bool>)
    requires |a| % WordBits == 0 && |b| % WordBits == 0
    ensures Encode(a + b) == Encode(a) + Encode(b)
    decreases |a|
  {
    if |a| != 0 {
      assert (a + b)[..WordBits] == a[..WordBits];
      assert (a + b)[WordBits..] == a[WordBits..] + b;
      EncodeAppend(a[WordBits..], b);
    } else {
      assert a + b == b;
    }
  }

  /** One more pass of the packing loop: slot j ORs in bit j. */
  lemma PackWordStep(s: seq<bool>, j: nat)
    requires j < |s| <= WordBits
    ensures PackWord(s[..j + 1]) == if s[j] then PackWord(s[..j]) | BitMask(j) else PackWord(s[..j])
  {
    var run := s[..j + 1];
    assert run[..|run| - 1] == s[..j] && run[|run| - 1] == s[j];
  }

  /** One more block written: the words for the first i + 1 blocks are the
      words for the first i followed by the packed block i. */
  lemma EncodePrefixStep(s: seq<bool>, i: nat)
    requires |s| % WordBits == 0 && i < |s| / WordBits
    ensures Encode(s[..WordBits * (i + 1)])
      == Encode(s[..WordBits * i]) + [PackWord(s[WordBits * i .. WordBits * (i + 1)])]
  {
    var done, block := s[..WordBits * i], s[WordBits * i .. WordBits * (i + 1)];
    assert s[..WordBits * (i + 1)] == done + block;
    assert block[..WordBits] == block && block[WordBits..] == [];
    EncodeAppend(done, block);
  }

  /** Unpacking a packed run of 32 slots gives the run back. */
  lemma UnpackPack(s: seq<bool>)
    requires |s| == WordBits
    ensures UnpackWord(PackWord(s)) == s
  {
    forall j | 0 <= j < WordBits ensures UnpackWord(PackWord(s))[j] == s[j] {
      PackWordBit(s, j);
    }
  }

  /** Packing the slots a word stands for gives the word back. */
  lemma PackUnpack(w: bv32)
    ensures PackWord(UnpackWord(w)) == w
  {
    forall j | 0 <= j < WordBits ensures Bit(PackWord(UnpackWord(w)), j) == Bit(w, j) {
      PackWordBit(UnpackWord(w), j);
    }
    WordsEqualByBits(PackWord(UnpackWord(w)), w);
  }

  /** Round trip, sender to reader: the reader recovers every slot. */
  lemma {:induction false} DecodeEncode(s: seq<bool>)
    requires |s| % WordBits == 0
    ensures Decode(Encode(s)) == s
    decreases |s|
  {
    if |s| != 0 {
      UnpackPack(s[..WordBits]);
      DecodeEncode(s[WordBits..]);
      assert s == s[..WordBits] + s[WordBits..];
    }
  }

  /** Round trip, reader to sender: every word sequence is the encoding of
      the slots it stands for. */
  lemma {:induction false} EncodeDecode(ws: seq<bv32>)
    ensures Encode(Decode(ws)) == ws
  {
    if ws != [] {
      var s := Decode(ws);
      assert s[..WordBits] == UnpackWord(ws[0]);
      assert s[WordBits..] == Decode(ws[1..]);
      PackUnpack(ws[0]);
      EncodeDecode(ws[1..]);
    }
  }

  /** When every slot from `count` on is clear, every bit of the words that
      stands for such a slot is zero: the last word is zero-padded. */
  lemma PaddingBitsZero(s: seq<bool>, count: nat)
    requires |s| % WordBits == 0
    requires forall k :: count <= k < |s| ==> !s[k]
    ensures forall i, j :: 0 <= i < |s| / WordBits && 0 <= j < WordBits && count <= WordBits * i + j ==>
      !Bit(Encode(s)[i], j)
  {
    forall i, j | 0 <= i < |s| / WordBits && 0 <= j < WordBits && count <= WordBits * i + j
      ensures !Bit(Encode(s)[i], j)
    {
      EncodeBit(s, i, j);
    }
  }

  /** The two words for 40 fields of which 0, 31, 32 and 39 are set. */
  lemma FortyFieldExample(s: seq<bool>)
    requires |s| == 2 * WordBits
    requires forall k :: 0 <= k < |s| ==> s[k] == (k == 0 || k == 31 || k == 32 || k == 39)
    ensures Encode(s) == [0x8000_0001, 0x0000_0081]
  {
    var ws := Encode(s);
    forall j | 0 <= j < WordBits ensures Bit(ws[0], j) == Bit(0x8000_0001, j) {
      EncodeBit(s, 0, j);
    }
    forall j | 0 <= j < WordBits ensures Bit(ws[1], j) == Bit(0x0000_0081, j) {
      EncodeBit(s, 1, j);
    }
    WordsEqualByBits(ws[0], 0x8000_0001);
    WordsEqualByBits(ws[1], 0x0000_0081);
  }
}
