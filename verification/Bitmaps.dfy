/** The occupancy bitmaps: two bytes per bucket and one 16-bit word per data page,
    most significant bit first, read as sequences of sixteen booleans. */
module Bitmaps {

  // ----- One byte -----

  /** The probe `temp`: 128 shifted right i times. */
  function Probe(i: nat): bv8 {
    if i == 0 then 128 else Probe(i - 1) >> 1
  }

  /** `1 << (7 - i)`, truncated to a byte. */
  function ByteMask(i: nat): bv8
    requires i < 8
  {
    (1 as bv8) << (7 - i)
  }

  predicate OneHot(m: bv8) {
    m == 128 || m == 64 || m == 32 || m == 16 || m == 8 || m == 4 || m == 2 || m == 1
  }

  lemma MaskIsProbe(i: nat)
    requires i < 8
    ensures ByteMask(i) == Probe(i)
    ensures OneHot(Probe(i))
    ensures Probe(8) == 0
  {
    assert Probe(2) == 32;
    assert Probe(4) == 8;
    assert Probe(6) == 2;
  }

  lemma ProbesDiffer(i: nat, j: nat)
    requires i < 8 && j < 8 && i != j
    ensures Probe(i) != Probe(j)
  {
    assert Probe(2) == 32;
    assert Probe(4) == 8;
    assert Probe(6) == 2;
  }

  predicate ByteBit(b: bv8, i: nat) {
    b & Probe(i) != 0
  }

  /** `b ^ ((b & m) ^ m)`, the source's way of setting the bits of m. */
  function SetByte(b: bv8, i: nat): bv8
    requires i < 8
  {
    b ^ ((b & ByteMask(i)) ^ ByteMask(i))
  }

  /** `b & ~m`. */
  function ClearByte(b: bv8, i: nat): bv8
    requires i < 8
  {
    b & !ByteMask(i)
  }

  lemma SetMask(b: bv8, m: bv8, n: bv8)
    requires OneHot(m) && OneHot(n)
    ensures ((b ^ ((b & m) ^ m)) & n != 0) <==> (m == n || b & n != 0)
  {
  }

  lemma ClearMask(b: bv8, m: bv8, n: bv8)
    requires OneHot(m) && OneHot(n)
    ensures ((b & !m) & n != 0) <==> (m != n && b & n != 0)
  {
  }

  lemma SetByteBit(b: bv8, i: nat, j: nat)
    requires i < 8 && j < 8
    ensures ByteBit(SetByte(b, i), j) <==> (j == i || ByteBit(b, j))
  {
    MaskIsProbe(i);
    MaskIsProbe(j);
    if i != j {
      ProbesDiffer(i, j);
    }
    SetMask(b, Probe(i), Probe(j));
  }

  lemma ClearByteBit(b: bv8, i: nat, j: nat)
    requires i < 8 && j < 8
    ensures ByteBit(ClearByte(b, i), j) <==> (j != i && ByteBit(b, j))
  {
    MaskIsProbe(i);
    MaskIsProbe(j);
    if i != j {
      ProbesDiffer(i, j);
    }
    ClearMask(b, Probe(i), Probe(j));
  }

  lemma BytesDiffer(a: bv8, b: bv8)
    requires forall i | 0 <= i < 8 :: ByteBit(a, i) == ByteBit(b, i)
    ensures a == b
  {
    assert ByteBit(a, 0) == ByteBit(b, 0) && ByteBit(a, 1) == ByteBit(b, 1);
    assert ByteBit(a, 2) == ByteBit(b, 2) && ByteBit(a, 3) == ByteBit(b, 3);
    assert ByteBit(a, 4) == ByteBit(b, 4) && ByteBit(a, 5) == ByteBit(b, 5);
    assert ByteBit(a, 6) == ByteBit(b, 6) && ByteBit(a, 7) == ByteBit(b, 7);
    assert Probe(2) == 32;
    assert Probe(4) == 8;
    assert Probe(6) == 2;
    SameByte(a, b);
  }

  lemma SameByte(a: bv8, b: bv8)
    requires (a & 128 != 0) == (b & 128 != 0) && (a & 64 != 0) == (b & 64 != 0)
    requires (a & 32 != 0) == (b & 32 != 0) && (a & 16 != 0) == (b & 16 != 0)
    requires (a & 8 != 0) == (b & 8 != 0) && (a & 4 != 0) == (b & 4 != 0)
    requires (a & 2 != 0) == (b & 2 != 0) && (a & 1 != 0) == (b & 1 != 0)
    ensures a == b
  {
  }

  lemma KnownBytes(i: nat)
    requires i < 8
    ensures ByteBit(255, i) && !ByteBit(0, i)
    ensures ByteBit(254, i) <==> i < 7
  {
    assert Probe(2) == 32;
    assert Probe(4) == 8;
    assert Probe(6) == 2;
  }

  // ----- The two bytes of a bucket -----

  function Bits(b0: bv8, b1: bv8): (s: seq<bool>)
    ensures |s| == 16
  {
    seq(16, i requires 0 <= i < 16 => if i < 8 then ByteBit(b0, i) else ByteBit(b1, i - 8))
  }

  /** Slots i and 8 + i have the mask 128, 64, .., 2, 1 in the first and in the second byte. */
  lemma BitOrder(b0: bv8, b1: bv8, i: nat, m: bv8)
    requires i < 8
    requires m == match i
      case 0 => 128 case 1 => 64 case 2 => 32 case 3 => 16 case 4 => 8 case 5 => 4 case 6 => 2 case _ => 1
    ensures Bits(b0, b1)[i] <==> b0 & m != 0
    ensures Bits(b0, b1)[8 + i] <==> b1 & m != 0
  {
    assert Probe(i) == m by {
      assert Probe(2) == 32;
      assert Probe(4) == 8;
      assert Probe(6) == 2;
    }
    hide Probe;
    assert ByteBit(b0, i) <==> b0 & m != 0;
    assert ByteBit(b1, i) <==> b1 & m != 0;
    hide ByteBit;
  }

  lemma SetFirst(b0: bv8, b1: bv8, i: nat)
    requires i < 8
    ensures Bits(SetByte(b0, i), b1) == Bits(b0, b1)[i := true]
  {
    forall j: nat | j < 8
      ensures ByteBit(SetByte(b0, i), j) <==> (j == i || ByteBit(b0, j))
    {
      SetByteBit(b0, i, j);
    }
  }

  lemma SetSecond(b0: bv8, b1: bv8, i: nat)
    requires i < 8
    ensures Bits(b0, SetByte(b1, i)) == Bits(b0, b1)[8 + i := true]
  {
    forall j: nat | j < 8
      ensures ByteBit(SetByte(b1, i), j) <==> (j == i || ByteBit(b1, j))
    {
      SetByteBit(b1, i, j);
    }
  }

  lemma ClearFirst(b0: bv8, b1: bv8, i: nat)
    requires i < 8
    ensures Bits(ClearByte(b0, i), b1) == Bits(b0, b1)[i := false]
  {
    forall j: nat | j < 8
      ensures ByteBit(ClearByte(b0, i), j) <==> (j != i && ByteBit(b0, j))
    {
      ClearByteBit(b0, i, j);
    }
  }

  lemma ClearSecond(b0: bv8, b1: bv8, i: nat)
    requires i < 8
    ensures Bits(b0, ClearByte(b1, i)) == Bits(b0, b1)[8 + i := false]
  {
    forall j: nat | j < 8
      ensures ByteBit(ClearByte(b1, i), j) <==> (j != i && ByteBit(b1, j))
    {
      ClearByteBit(b1, i, j);
    }
  }

  /** The bit sequence determines both bytes. */
  lemma BitsInjective(a0: bv8, a1: bv8, b0: bv8, b1: bv8)
    requires Bits(a0, a1) == Bits(b0, b1)
    ensures a0 == b0 && a1 == b1
  {
    var s, t := Bits(a0, a1), Bits(b0, b1);
    forall i | 0 <= i < 8
      ensures ByteBit(a0, i) == ByteBit(b0, i) && ByteBit(a1, i) == ByteBit(b1, i)
    {
      assert s[i] == t[i] && s[8 + i] == t[8 + i];
    }
    BytesDiffer(a0, b0);
    BytesDiffer(a1, b1);
  }

  lemma FullValue()
    ensures Bits(255, 254) == seq(16, i => i < 15)
    ensures Bits(0, 0) == seq(16, i => false)
  {
    forall i: nat | i < 8
      ensures ByteBit(255, i) && !ByteBit(0, i) && (ByteBit(254, i) <==> i < 7)
    {
      KnownBytes(i);
    }
  }

  /** The test for a full bucket: fifteen bits set and the spare sixteenth clear. */
  lemma FullBytes(b0: bv8, b1: bv8)
    ensures (b0 == 255 && b1 == 254) <==> (Bits(b0, b1) == seq(16, i => i < 15))
  {
    FullValue();
    if Bits(b0, b1) == Bits(255, 254) {
      BitsInjective(b0, b1, 255, 254);
    }
  }

  // ----- The page bitmap -----

  function WordMask(i: nat): bv16
    requires i < 16
  {
    (1 as bv16) << (15 - i)
  }

  /** 0x8000 shifted right i times. */
  function WordProbe(i: nat): bv16 {
    if i == 0 then 0x8000 else WordProbe(i - 1) >> 1
  }

  predicate OneHotWord(m: bv16) {
    || m == 0x8000 || m == 0x4000 || m == 0x2000 || m == 0x1000
    || m == 0x800 || m == 0x400 || m == 0x200 || m == 0x100
    || m == 0x80 || m == 0x40 || m == 0x20 || m == 0x10
    || m == 8 || m == 4 || m == 2 || m == 1
  }

  predicate Meets(w: bv16, m: bv16) {
    w & m != 0
  }

  predicate WordBit(w: bv16, i: nat)
    requires i < 16
  {
    Meets(w, WordProbe(i))
  }

  /** `w ^ ((w & m) ^ m)`. */
  function SetWord(w: bv16, m: bv16): bv16 {
    w ^ ((w & m) ^ m)
  }

  lemma SetIsOr(w: bv16, m: bv16)
    ensures SetWord(w, m) == w | m
  {
  }

  lemma MeetsOr(w: bv16, m: bv16, n: bv16)
    ensures Meets(w | m, n) <==> Meets(w, n) || Meets(m, n)
  {
    assert (w | m) & n == (w & n) | (m & n);
  }

  lemma OneHotsMeet(m: bv16, n: bv16)
    requires OneHotWord(m) && OneHotWord(n)
    ensures Meets(m, n) <==> m == n
  {
  }

  lemma SetWordMask(w: bv16, m: bv16, n: bv16)
    requires OneHotWord(m) && OneHotWord(n)
    ensures Meets(SetWord(w, m), n) <==> (m == n || Meets(w, n))
  {
    SetIsOr(w, m);
    hide OneHotWord, Meets, SetWord;
    MeetsOr(w, m, n);
    OneHotsMeet(m, n);
  }

  lemma WordProbeValues()
    ensures WordProbe(0) == 0x8000 && WordProbe(1) == 0x4000 && WordProbe(2) == 0x2000 && WordProbe(3) == 0x1000
    ensures WordProbe(4) == 0x800 && WordProbe(5) == 0x400 && WordProbe(6) == 0x200 && WordProbe(7) == 0x100
    ensures WordProbe(8) == 0x80 && WordProbe(9) == 0x40 && WordProbe(10) == 0x20 && WordProbe(11) == 0x10
    ensures WordProbe(12) == 8 && WordProbe(13) == 4 && WordProbe(14) == 2 && WordProbe(15) == 1
  {
    assert WordProbe(2) == 0x2000;
    assert WordProbe(4) == 0x800;
    assert WordProbe(6) == 0x200;
    assert WordProbe(8) == 0x80;
    assert WordProbe(10) == 0x20;
    assert WordProbe(12) == 8;
    assert WordProbe(14) == 2;
  }

  lemma WordMaskIsProbe(i: nat)
    requires i < 16
    ensures WordMask(i) == WordProbe(i)
  {
    WordProbeValues();
  }

  lemma WordProbeOneHot(i: nat)
    requires i < 16
    ensures OneHotWord(WordProbe(i))
  {
    WordProbeValues();
  }

  lemma WordProbesDiffer(i: nat, j: nat)
    requires i < 16 && j < 16 && i != j
    ensures WordProbe(i) != WordProbe(j)
  {
    WordProbeValues();
  }

  lemma SetWordBit(w: bv16, i: nat, j: nat)
    requires i < 16 && j < 16
    ensures WordBit(SetWord(w, WordProbe(i)), j) <==> (j == i || WordBit(w, j))
  {
    WordProbeOneHot(i);
    WordProbeOneHot(j);
    if i != j {
      WordProbesDiffer(i, j);
    }
    hide OneHotWord, WordProbe, SetWord, Meets;
    SetWordMask(w, WordProbe(i), WordProbe(j));
  }

  function PageBits(w: bv16): (s: seq<bool>)
    ensures |s| == 16
  {
    seq(16, i requires 0 <= i < 16 => WordBit(w, i))
  }

  /** Slot i of a page has the mask 0x8000, 0x4000, .., 2, 1. */
  lemma PageBitOrder(w: bv16, i: nat, m: bv16)
    requires i < 16
    requires m == match i
      case 0 => 0x8000 case 1 => 0x4000 case 2 => 0x2000 case 3 => 0x1000
      case 4 => 0x800 case 5 => 0x400 case 6 => 0x200 case 7 => 0x100
      case 8 => 0x80 case 9 => 0x40 case 10 => 0x20 case 11 => 0x10
      case 12 => 8 case 13 => 4 case 14 => 2 case _ => 1
    ensures PageBits(w)[i] <==> w & m != 0
  {
    assert WordProbe(i) == m by {
      WordProbeValues();
    }
    hide WordProbe;
    assert PageBits(w)[i] <==> Meets(w, m);
  }

  lemma SetPageBit(w: bv16, i: nat)
    requires i < 16
    ensures PageBits(SetWord(w, WordMask(i))) == PageBits(w)[i := true]
  {
    WordMaskIsProbe(i);
    forall j: nat | j < 16
      ensures WordBit(SetWord(w, WordProbe(i)), j) <==> (j == i || WordBit(w, j))
    {
      SetWordBit(w, i, j);
    }
  }

  lemma ZeroPageBits()
    ensures PageBits(0) == seq(16, i => false)
  {
  }
}
