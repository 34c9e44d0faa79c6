/** Worked bit reads on concrete bytes, and the inputs on which the 32-bit
    code parts from the intended reads. */
module BitExamples {
  import opened JsInt32
  import opened IntDecoding
  import opened StreamErrors
  import opened BitReader

  /** The value of four bytes, most significant first. */
  lemma {:induction false} Be4(a: bv8, b: bv8, c: bv8, d: bv8)
    ensures UnsignedBe([a, b, c, d]) == ((a as nat * 256 + b as nat) * 256 + c as nat) * 256 + d as nat
  {
    assert UnsignedBe([a]) == a as nat by { assert [a][..0] == []; }
    assert UnsignedBe([a, b]) == UnsignedBe([a]) * 256 + b as nat by { assert [a, b][..1] == [a]; }
    assert UnsignedBe([a, b, c]) == UnsignedBe([a, b]) * 256 + c as nat by { assert [a, b, c][..2] == [a, b]; }
    assert UnsignedBe([a, b, c, d]) == UnsignedBe([a, b, c]) * 256 + d as nat by { assert [a, b, c, d][..3] == [a, b, c]; }
  }

  /** The value of four bytes, least significant first. */
  lemma {:induction false} Le4(a: bv8, b: bv8, c: bv8, d: bv8)
    ensures UnsignedLe([a, b, c, d]) == a as nat + 256 * (b as nat + 256 * (c as nat + 256 * d as nat))
  {
    assert UnsignedLe([d]) == d as nat by { assert [d][1..] == []; }
    assert UnsignedLe([c, d]) == c as nat + 256 * UnsignedLe([d]) by { assert [c, d][1..] == [d]; }
    assert UnsignedLe([b, c, d]) == b as nat + 256 * UnsignedLe([c, d]) by { assert [b, c, d][1..] == [c, d]; }
    assert UnsignedLe([a, b, c, d]) == a as nat + 256 * UnsignedLe([b, c, d]) by { assert [a, b, c, d][1..] == [b, c, d]; }
  }

  /** The value of one byte, in either order. */
  lemma {:induction false} One(a: bv8)
    ensures UnsignedBe([a]) == a as nat && UnsignedLe([a]) == a as nat
  {
    assert [a][..0] == [] && [a][1..] == [];
  }

  /** The powers of two the examples meet. */
  lemma {:induction false} Pow2Table()
    ensures Pow2(1) == 2 && Pow2(4) == 16 && Pow2(7) == 128 && Pow2(8) == 256
    ensures Pow2(25) == 0x200_0000 && Pow2(26) == 0x400_0000 && Pow2(32) == Two32
  {
    assert Pow2(8) == 256;
    assert Pow2(16) == 0x1_0000;
    assert Pow2(24) == 0x100_0000;
    Pow2Is32();
  }

  /** The byte 0xB4 is 1011 0100.  Big-endian nibble reads return its high
      nibble, 11, then its low nibble, 4, and end aligned. */
  lemma {:induction false} BeNibbles()
    ensures BeRead([0xB4], 0, Aligned, 4) == BitOutcome(Success(11), 1, BitState(4, 4))
    ensures BeRead([0xB4], 1, BitState(4, 4), 4) == BitOutcome(Success(4), 1, Aligned)
  {
    var v: seq<bv8> := [0xB4];
    assert Pow2(4) == 16 && Pow2(8) == 256;
    assert Pull(v, 0, Aligned, 4) == Success(v) by {
      assert v[0..1] == v;
    }
    assert BeAccumulate(0, v) == 180 by {
      One(0xB4);
      BeAccumulateValue(0, v);
    }
    assert ShrU(180, 4) == 11 by { ShrUValue(180, 4); }
    assert And(11, ReadMask(4)) == 11 by { AndLowMask(11, 4); }
    assert And(180, LowMask(4)) == 4 by { AndLowMask(180, 4); }
    assert Pull(v, 1, BitState(4, 4), 4) == Success([]);
    assert ShrU(4, 0) == 4 by { ShrUValue(4, 0); }
    assert And(4, ReadMask(4)) == 4 by { AndLowMask(4, 4); }
    assert And(4, LowMask(0)) == 0 by { AndLowMask(4, 0); }
  }

  /** Little-endian nibble reads of 0xB4 return its low nibble, 4, then its
      high nibble, 11, and end aligned. */
  lemma {:induction false} LeNibbles()
    ensures LeRead([0xB4], 0, Aligned, 4) == BitOutcome(Success(4), 1, BitState(11, 4))
    ensures LeRead([0xB4], 1, BitState(11, 4), 4) == BitOutcome(Success(11), 1, Aligned)
  {
    var v: seq<bv8> := [0xB4];
    assert Pow2(4) == 16;
    assert Pull(v, 0, Aligned, 4) == Success(v) by {
      assert v[0..1] == v;
    }
    assert LeAccumulate(0, 0, v) == 180 by {
      One(0xB4);
      LeAccumulateValue(0, 0, v);
    }
    assert And(180, ReadMask(4)) == 4 by { AndLowMask(180, 4); }
    assert ShrU(180, 4) == 11 by { ShrUValue(180, 4); }
    assert Pull(v, 1, BitState(11, 4), 4) == Success([]);
    assert And(11, ReadMask(4)) == 11 by { AndLowMask(11, 4); }
    assert ShrU(11, 4) == 0 by { ShrUValue(11, 4); }
  }

  // ---------------------------------------------------------------------
  // Where the 32-bit code parts from the intended reads
  // ---------------------------------------------------------------------

  /** The stream of the big-endian carry example: 0xFF, then four zeros. */
  const CarryBe: seq<bv8> := [0xFF, 0, 0, 0, 0]

  /** A 7-bit big-endian read of 0xFF returns 127 and keeps one pending 1. */
  lemma {:induction false} BeCarryFirst()
    ensures BeRead(CarryBe, 0, Aligned, 7) == BitOutcome(Success(127), 1, BitState(1, 1))
  {
    var first: seq<bv8> := [0xFF];
    Pow2Table();
    assert Pull(CarryBe, 0, Aligned, 7) == Success(first) by {
      assert CarryBe[0..1] == first;
    }
    assert BeAccumulate(0, first) == 255 by {
      One(0xFF);
      BeAccumulateValue(0, first);
    }
    assert ShrU(255, 1) == 127 by { ShrUValue(255, 1); }
    assert And(127, ReadMask(7)) == 127 by { AndLowMask(127, 7); }
    assert And(255, LowMask(1)) == 1 by { AndLowMask(255, 1); }
    BeReadShape(CarryBe, 0, Aligned, 7);
  }

  /** Four zero bytes shifted in above the pending 1 push it out of the
      32-bit accumulator, so the code's 26 bits are all zero ... */
  lemma {:induction false} BeCarryStep()
    ensures BeStep(BitState(1, 1), 26, [0, 0, 0, 0]).value == 0
  {
    var zeros: seq<bv8> := [0, 0, 0, 0];
    Pow2Table();
    Be4(0, 0, 0, 0);
    assert BeAccumulate(1, zeros) == 0 by {
      BeAccumulateValue(1, zeros);
    }
    assert ShrU(0, 7) == 0 by { ShrUValue(0, 7); }
    assert And(0, ReadMask(26)) == 0 by { AndLowMask(0, 26); }
  }

  /** ... where the intended read keeps it as the top of the 26 bits. */
  lemma {:induction false} BeCarryIdealStep()
    ensures BeIdeal(BitState(1, 1), 26, [0, 0, 0, 0]).value == 0x200_0000
  {
    var zeros: seq<bv8> := [0, 0, 0, 0];
    Pow2Table();
    Be4(0, 0, 0, 0);
    assert BeField(BitState(1, 1), zeros) == 0x1_0000_0000 by {
      assert ModPow2(1, 1) == 1;
    }
    Pow2Add(7, 25);
    assert DivPow2(0x1_0000_0000, 7) == 0x200_0000;
  }

  /** After a 7-bit read of 0xFF one pending bit is 1; a 26-bit big-endian
      read then pulls four bytes, and `bits <<= 8` pushes that bit past bit
      31: the code returns 0 where the next 26 bits of the stream are a 1
      and 25 zeros. */
  lemma {:induction false} BeCarryLost()
    ensures BeRead(CarryBe, 0, Aligned, 7) == BitOutcome(Success(127), 1, BitState(1, 1))
    ensures !Fits(BitState(1, 1), 26)
    ensures BeRead(CarryBe, 1, BitState(1, 1), 26).result == Success(0)
    ensures BeReadIdeal(CarryBe, 1, BitState(1, 1), 26).result == Success(0x200_0000)
  {
    BeCarryFirst();
    assert BeRead(CarryBe, 1, BitState(1, 1), 26).result == Success(0) by {
      BeCarryPull();
      BeReadShape(CarryBe, 1, BitState(1, 1), 26);
      BeCarryStep();
    }
    assert BeReadIdeal(CarryBe, 1, BitState(1, 1), 26).result == Success(0x200_0000) by {
      BeCarryPull();
      BeReadIdealShape(CarryBe, 1, BitState(1, 1), 26);
      BeCarryIdealStep();
    }
  }

  /** The 26-bit read after the first pulls the four zero bytes. */
  lemma {:induction false} BeCarryPull()
    ensures Pull(CarryBe, 1, BitState(1, 1), 26) == Success([0, 0, 0, 0])
  {
    assert BytesNeeded(26, 1) == 4;
    assert CarryBe[1..5] == [0, 0, 0, 0];
  }

  /** The stream of the little-endian carry example: 0, then four 0xFF. */
  const CarryLe: seq<bv8> := [0, 0xFF, 0xFF, 0xFF, 0xFF]

  /** A 7-bit little-endian read of 0 returns 0 and keeps one pending 0. */
  lemma {:induction false} LeCarryFirst()
    ensures LeRead(CarryLe, 0, Aligned, 7) == BitOutcome(Success(0), 1, BitState(0, 1))
  {
    var first: seq<bv8> := [0];
    Pow2Table();
    assert Pull(CarryLe, 0, Aligned, 7) == Success(first) by {
      assert CarryLe[0..1] == first;
    }
    assert LeAccumulate(0, 0, first) == 0 by {
      One(0);
      LeAccumulateValue(0, 0, first);
    }
    assert And(0, ReadMask(7)) == 0 by { AndLowMask(0, 7); }
    assert ShrU(0, 7) == 0 by { ShrUValue(0, 7); }
    LeReadShape(CarryLe, 0, Aligned, 7);
  }

  /** The code's pull loop: the fourth byte, shifted to bit 25, loses its
      top bit, so the accumulator is 0xFFFFFFFE where the field is 0x1FFFFFFFE. */
  lemma {:induction false} LeCarryAccumulate()
    ensures LeAccumulate(0, 1, [0xFF, 0xFF, 0xFF, 0xFF]) == 0xFFFF_FFFE
  {
    var ones: seq<bv8> := [0xFF, 0xFF, 0xFF, 0xFF];
    Le4(0xFF, 0xFF, 0xFF, 0xFF);
    assert LeSum(0, 1, ones) == 0x1_FFFF_FFFE;
    LeAccumulateValue(0, 1, ones);
  }

  /** The code returns the right 26 bits but keeps 63 as the 7 pending bits ... */
  lemma {:induction false} LeCarryStep()
    ensures LeStep(BitState(0, 1), 26, [0xFF, 0xFF, 0xFF, 0xFF]) == BitStep(0x3FF_FFFE, BitState(63, 7))
  {
    var acc := LeAccumulate(0, 1, [0xFF, 0xFF, 0xFF, 0xFF]);
    LeCarryAccumulate();
    Pow2Table();
    assert And(acc, ReadMask(26)) == 0x3FF_FFFE by { AndLowMask(acc, 26); }
    assert ShrU(acc, 26) == 63 by { ShrUValue(acc, 26); }
  }

  /** ... where the stream's next 7 bits are all ones. */
  lemma {:induction false} LeCarryIdealStep()
    ensures LeIdeal(BitState(0, 1), 26, [0xFF, 0xFF, 0xFF, 0xFF]) == BitStep(0x3FF_FFFE, BitState(127, 7))
  {
    var ones: seq<bv8> := [0xFF, 0xFF, 0xFF, 0xFF];
    Pow2Table();
    Le4(0xFF, 0xFF, 0xFF, 0xFF);
    assert LeField(BitState(0, 1), ones) == 0x1_FFFF_FFFE by {
      assert ModPow2(0, 1) == 0;
    }
    assert ModPow2(0x1_FFFF_FFFE, 26) == 0x3FF_FFFE;
    assert DivPow2(0x1_FFFF_FFFE, 26) == 127;
  }

  /** After a 7-bit little-endian read leaves one pending bit, a 26-bit read
      shifts the fourth pulled byte to bit 25, so `buf[i] << bitsLeft` drops
      its top bit: the value is still right, but the 7 bits kept are 63
      where the stream holds 127, and the next 7-bit read returns them. */
  lemma {:induction false} LeCarryLost()
    ensures LeRead(CarryLe, 0, Aligned, 7) == BitOutcome(Success(0), 1, BitState(0, 1))
    ensures !Fits(BitState(0, 1), 26)
    ensures LeRead(CarryLe, 1, BitState(0, 1), 26) == BitOutcome(Success(0x3FF_FFFE), 5, BitState(63, 7))
    ensures LeReadIdeal(CarryLe, 1, BitState(0, 1), 26) == BitOutcome(Success(0x3FF_FFFE), 5, BitState(127, 7))
    ensures LeRead(CarryLe, 5, BitState(63, 7), 7).result == Success(63)
    ensures LeReadIdeal(CarryLe, 5, BitState(127, 7), 7).result == Success(127)
  {
    var ones: seq<bv8> := [0xFF, 0xFF, 0xFF, 0xFF];
    LeCarryFirst();
    assert BytesNeeded(26, 1) == 4;
    assert Pull(CarryLe, 1, BitState(0, 1), 26) == Success(ones) by {
      assert CarryLe[1..5] == ones;
    }
    LeReadShape(CarryLe, 1, BitState(0, 1), 26);
    LeReadIdealShape(CarryLe, 1, BitState(0, 1), 26);
    LeCarryStep();
    LeCarryIdealStep();
    LeCarryTail();
  }

  /** The 7-bit reads that follow return the pending bits each version kept. */
  lemma {:induction false} LeCarryTail()
    ensures LeRead(CarryLe, 5, BitState(63, 7), 7).result == Success(63)
    ensures LeReadIdeal(CarryLe, 5, BitState(127, 7), 7).result == Success(127)
  {
    Pow2Table();
    assert Pull(CarryLe, 5, BitState(63, 7), 7) == Success([]);
    assert Pull(CarryLe, 5, BitState(127, 7), 7) == Success([]);
    assert And(63, ReadMask(7)) == 63 by { AndLowMask(63, 7); }
    assert LeField(BitState(127, 7), []) == 127 by {
      assert ModPow2(127, 7) == 127;
    }
    assert ModPow2(127, 7) == 127;
  }

  /** Four 0xFF bytes. */
  const AllOnes: seq<bv8> := [0xFF, 0xFF, 0xFF, 0xFF]

  /** The big-endian accumulator ends as the all-ones pattern ... */
  lemma {:induction false} AllOnesBe()
    ensures BeAccumulate(0, AllOnes) == 0xFFFF_FFFF
    ensures BeField(Aligned, AllOnes) == 0xFFFF_FFFF
  {
    Be4(0xFF, 0xFF, 0xFF, 0xFF);
    Pow2Is32();
    assert BeSum(0, AllOnes) == 0xFFFF_FFFF;
    BeAccumulateValue(0, AllOnes);
  }

  /** ... and so does the little-endian one ... */
  lemma {:induction false} AllOnesLe()
    ensures LeAccumulate(0, 0, AllOnes) == 0xFFFF_FFFF
    ensures LeField(Aligned, AllOnes) == 0xFFFF_FFFF
  {
    Le4(0xFF, 0xFF, 0xFF, 0xFF);
    assert LeSum(0, 0, AllOnes) == 0xFFFF_FFFF;
    LeAccumulateValue(0, 0, AllOnes);
  }

  /** ... which `& 0xffffffff` turns into -1. */
  lemma {:induction false} FullWidthSteps()
    ensures BeStep(Aligned, 32, AllOnes).value == -1
    ensures LeStep(Aligned, 32, AllOnes).value == -1
    ensures BeIdeal(Aligned, 32, AllOnes).value == 0xFFFF_FFFF
    ensures LeIdeal(Aligned, 32, AllOnes).value == 0xFFFF_FFFF
  {
    AllOnesBe();
    AllOnesLe();
    Pow2Table();
    assert ShrU(0xFFFF_FFFF, 0) == 0xFFFF_FFFF by { ShrUValue(0xFFFF_FFFF, 0); }
    assert And(0xFFFF_FFFF, ReadMask(32)) == 0xFFFF_FFFF by {
      ReadMaskValue(32);
      AndMask(0xFFFF_FFFF, 32);
    }
    assert DivPow2(0xFFFF_FFFF, 0) == 0xFFFF_FFFF;
    assert ModPow2(0xFFFF_FFFF, 32) == 0xFFFF_FFFF;
  }

  /** A 32-bit read of four 0xFF bytes: both readers return -1, the value
      `&` yields, where the stream holds 4294967295. */
  lemma {:induction false} FullWidthSign()
    ensures BeRead(AllOnes, 0, Aligned, 32).result == Success(-1)
    ensures BeReadIdeal(AllOnes, 0, Aligned, 32).result == Success(0xFFFF_FFFF)
    ensures LeRead(AllOnes, 0, Aligned, 32).result == Success(-1)
    ensures LeReadIdeal(AllOnes, 0, Aligned, 32).result == Success(0xFFFF_FFFF)
  {
    assert BytesNeeded(32, 0) == 4;
    assert Pull(AllOnes, 0, Aligned, 32) == Success(AllOnes) by {
      assert AllOnes[0..4] == AllOnes;
    }
    BeReadShape(AllOnes, 0, Aligned, 32);
    BeReadIdealShape(AllOnes, 0, Aligned, 32);
    LeReadShape(AllOnes, 0, Aligned, 32);
    LeReadIdealShape(AllOnes, 0, Aligned, 32);
    FullWidthSteps();
  }

  /** The stream of the stale-bits example: 1, then four zeros. */
  const Stale: seq<bv8> := [1, 0, 0, 0, 0]

  /** A 32-bit little-endian read of 1 0 0 0 ends with `bits >>>= 32`, a
      shift by 0, so the value stays behind as pending bits. */
  lemma {:induction false} LeStaleStep()
    ensures LeStep(Aligned, 32, [1, 0, 0, 0]) == BitStep(1, BitState(1, 0))
    ensures LeIdeal(Aligned, 32, [1, 0, 0, 0]) == BitStep(1, Aligned)
  {
    var word: seq<bv8> := [1, 0, 0, 0];
    Pow2Table();
    Le4(1, 0, 0, 0);
    assert LeAccumulate(0, 0, word) == 1 by {
      LeAccumulateValue(0, 0, word);
    }
    assert And(1, ReadMask(32)) == 1 by {
      ReadMaskValue(32);
      AndMask(1, 32);
    }
    assert ShrU(1, 32) == 1;
    assert LeField(Aligned, word) == 1;
    assert ModPow2(1, 32) == 1 && DivPow2(1, 32) == 0;
  }

  /** The next 8-bit read or-s the stale bit into the zero byte it pulls. */
  lemma {:induction false} LeStaleNext()
    ensures LeStep(BitState(1, 0), 8, [0]).value == 1
    ensures LeIdeal(Aligned, 8, [0]).value == 0
  {
    var last: seq<bv8> := [0];
    Pow2Table();
    assert LeAccumulate(1, 0, last) == 1 by {
      assert last[..0] == [];
      assert Shl(0, 0) == 0;
    }
    assert And(1, ReadMask(8)) == 1 by { AndLowMask(1, 8); }
    assert LeField(Aligned, last) == 0 by {
      One(0);
    }
  }

  /** A 32-bit little-endian read ends with `bits >>>= 32`, which JS takes as
      a shift by 0: the value read stays behind as pending bits with
      bitsLeft 0, and the next read or-s them into its result. */
  lemma {:induction false} LeStaleBits()
    ensures LeRead(Stale, 0, Aligned, 32) == BitOutcome(Success(1), 4, BitState(1, 0))
    ensures LeRead(Stale, 4, BitState(1, 0), 8).result == Success(1)
    ensures LeReadIdeal(Stale, 0, Aligned, 32) == BitOutcome(Success(1), 4, Aligned)
    ensures LeReadIdeal(Stale, 4, Aligned, 8).result == Success(0)
  {
    var word: seq<bv8> := [1, 0, 0, 0];
    var last: seq<bv8> := [0];
    assert BytesNeeded(32, 0) == 4 && BytesNeeded(8, 0) == 1;
    assert Pull(Stale, 0, Aligned, 32) == Success(word) by {
      assert Stale[0..4] == word;
    }
    assert Pull(Stale, 4, BitState(1, 0), 8) == Success(last) by {
      assert Stale[4..5] == last;
    }
    assert Pull(Stale, 4, Aligned, 8) == Success(last) by {
      assert Stale[4..5] == last;
    }
    LeReadShape(Stale, 0, Aligned, 32);
    LeReadIdealShape(Stale, 0, Aligned, 32);
    LeReadShape(Stale, 4, BitState(1, 0), 8);
    LeReadIdealShape(Stale, 4, Aligned, 8);
    LeStaleStep();
    LeStaleNext();
  }
}
