/** The bit readers `readBitsIntBe` and `readBitsIntLe` as a state machine.

    Between calls a stream keeps a bit accumulator: `bits`, a 32-bit JS
    integer, whose low `bitsLeft` bits have been pulled from the buffer but
    not yet returned.  A read of n bits first pulls
    ceil((n - bitsLeft) / 8) whole bytes when the accumulator holds too few,
    folding each into `bits` with 32-bit operators, then cuts n bits off:

    - big-endian: bytes enter at the bottom (`bits <<= 8; bits |= b`) and
      the result is the top n of the `bitsLeft` pending bits;
    - little-endian: bytes enter above the pending bits
      (`bits |= b << bitsLeft`) and the result is the bottom n bits.

    BeStep and LeStep follow the source operator by operator.  BeIdeal and
    LeIdeal do the same on unbounded integers with an unsigned result; they
    are what the code evidently intends, and the lemmas below prove that
    they return the next n unread bits of the stream in the reader's bit
    order, and say exactly when the 32-bit code agrees with them. */
module BitReader {
  import opened JsInt32
  import opened IntDecoding
  import opened BitStreams
  import opened StreamErrors
  import opened ByteView

  /** The accumulator: the 32-bit pattern of `bits` and the count `bitsLeft`. */
  datatype BitState = BitState(bits: Uint32, bitsLeft: nat)

  /** The state the constructor and `alignToByte` leave. */
  const Aligned := BitState(0, 0)

  /** The pending bits are exactly the low `bitsLeft` bits of `bits`. */
  predicate Clean(st: BitState) {
    st.bits < Pow2(st.bitsLeft)
  }

  /** `Math.ceil((n - bitsLeft) / 8)` when n exceeds `bitsLeft`, else no byte. */
  function BytesNeeded(n: nat, bitsLeft: nat): nat {
    if n > bitsLeft then (n - bitsLeft + 7) / 8 else 0
  }

  /** The bytes a read pulls: none when enough bits are pending, else a
      `readBytes` of BytesNeeded bytes, which may fail with EOF. */
  function Pull(view: seq<bv8>, pos: nat, st: BitState, n: nat): Result<seq<bv8>> {
    var k := BytesNeeded(n, st.bitsLeft);
    if k == 0 then Success([]) else Take(view, pos, k)
  }

  /** The result mask: `0xffffffff` for n == 32, else `(1 << n) - 1`. */
  function ReadMask(n: nat): Uint32 {
    if n == 32 then 0xffff_ffff else LowMask(n)
  }

  /** The big-endian pull loop: `bits <<= 8; bits |= buf[i]` for each byte. */
  function BeAccumulate(bits: Uint32, buf: seq<bv8>): Uint32 {
    if buf == [] then bits
    else Or(Shl(BeAccumulate(bits, buf[..|buf| - 1]), 8), buf[|buf| - 1] as int)
  }

  /** The little-endian pull loop: `bits |= buf[i] << bitsLeft; bitsLeft += 8`. */
  function LeAccumulate(bits: Uint32, bitsLeft: nat, buf: seq<bv8>): Uint32 {
    if buf == [] then bits
    else Or(LeAccumulate(bits, bitsLeft, buf[..|buf| - 1]),
            Shl(buf[|buf| - 1] as int, bitsLeft + 8 * (|buf| - 1)))
  }

  /** What one read returns and the accumulator it leaves. */
  datatype BitStep = BitStep(value: int, state: BitState)

  /** A read's arguments as the source admits them: n at most 32, the
      accumulator as every operation leaves it, the pulled bytes. */
  predicate StepArgs(st: BitState, n: nat, buf: seq<bv8>) {
    st.bitsLeft <= 7 && n <= 32 && |buf| == BytesNeeded(n, st.bitsLeft)
  }

  /** After the pull at least n bits are pending, and at most n + 7. */
  lemma {:induction false} PulledEnough(st: BitState, n: nat, buf: seq<bv8>)
    requires StepArgs(st, n, buf)
    ensures n <= st.bitsLeft + 8 * |buf| <= 39
    ensures st.bitsLeft + 8 * |buf| - n <= 7
    ensures |buf| <= 4
  {
  }

  /** `readBitsIntBe` after the pull, as written: shift the pending bits
      down by `bitsLeft - n`, mask n bits, then clear what was read. */
  function BeStep(st: BitState, n: nat, buf: seq<bv8>): (r: BitStep)
    requires StepArgs(st, n, buf)
    ensures r.state.bitsLeft == st.bitsLeft + 8 * |buf| - n <= 7
  {
    PulledEnough(st, n, buf);
    var left := st.bitsLeft + 8 * |buf|;
    var acc := BeAccumulate(st.bits, buf);
    var res := ToInt32(And(ShrU(acc, left - n), ReadMask(n)));
    BitStep(res, BitState(And(acc, LowMask(left - n)), left - n))
  }

  /** `readBitsIntLe` after the pull, as written: mask the low n bits,
      then `bits >>>= n`. */
  function LeStep(st: BitState, n: nat, buf: seq<bv8>): (r: BitStep)
    requires StepArgs(st, n, buf)
    ensures r.state.bitsLeft == st.bitsLeft + 8 * |buf| - n <= 7
  {
    PulledEnough(st, n, buf);
    var left := st.bitsLeft + 8 * |buf|;
    var acc := LeAccumulate(st.bits, st.bitsLeft, buf);
    BitStep(ToInt32(And(acc, ReadMask(n))), BitState(ShrU(acc, n), left - n))
  }

  /** The pending bits and the pulled bytes as one big-endian number. */
  function BeField(st: BitState, buf: seq<bv8>): nat {
    ModPow2(st.bits, st.bitsLeft) * Pow2(8 * |buf|) + UnsignedBe(buf)
  }

  /** The pending bits and the pulled bytes as one little-endian number. */
  function LeField(st: BitState, buf: seq<bv8>): nat {
    ModPow2(st.bits, st.bitsLeft) + Pow2(st.bitsLeft) * UnsignedLe(buf)
  }

  /** The big-endian read as intended: the top n of the pending bits,
      unsigned, with no bit lost to 32-bit overflow. */
  function BeIdeal(st: BitState, n: nat, buf: seq<bv8>): (r: BitStep)
    requires StepArgs(st, n, buf)
    ensures r.state.bitsLeft == st.bitsLeft + 8 * |buf| - n
    ensures 0 <= r.value < Pow2(n) && Clean(r.state)
  {
    PulledEnough(st, n, buf);
    var left := st.bitsLeft + 8 * |buf|;
    var v := BeField(st, buf);
    FieldBounds(st, buf);
    DivBound(v, left - n, n);
    Pow2Bounds(left - n);
    BitStep(DivPow2(v, left - n), BitState(ModPow2(v, left - n), left - n))
  }

  /** The little-endian read as intended: the bottom n of the pending bits,
      unsigned, and nothing but the unread bits left behind. */
  function LeIdeal(st: BitState, n: nat, buf: seq<bv8>): (r: BitStep)
    requires StepArgs(st, n, buf)
    ensures r.state.bitsLeft == st.bitsLeft + 8 * |buf| - n
    ensures 0 <= r.value < Pow2(n) && Clean(r.state)
  {
    PulledEnough(st, n, buf);
    var left := st.bitsLeft + 8 * |buf|;
    var v := LeField(st, buf);
    FieldBounds(st, buf);
    DivBound(v, n, left - n);
    Pow2Bounds(left - n);
    BitStep(ModPow2(v, n), BitState(DivPow2(v, n), left - n))
  }

  /** Both fields hold bitsLeft + 8 * |buf| bits. */
  lemma {:induction false} FieldBounds(st: BitState, buf: seq<bv8>)
    ensures BeField(st, buf) < Pow2(st.bitsLeft + 8 * |buf|)
    ensures LeField(st, buf) < Pow2(st.bitsLeft + 8 * |buf|)
  {
    var b, m := st.bitsLeft, 8 * |buf|;
    Pow2Add(m, b);
    Pow2Add(b, m);
    UnsignedBeBound(buf);
    UnsignedLeBound(buf);
    PackBound(UnsignedBe(buf), ModPow2(st.bits, b), Pow2(m), Pow2(b));
    PackBound(ModPow2(st.bits, b), UnsignedLe(buf), Pow2(b), Pow2(m));
  }

  // ---------------------------------------------------------------------
  // Whole reads: guard, pull, step
  // ---------------------------------------------------------------------

  /** What a bit read returns, where it leaves the cursor and the accumulator. */
  datatype BitOutcome = BitOutcome(result: Result<int>, pos: nat, state: BitState)

  /** `readBitsIntBe(n)`: refuse n > 32, pull bytes, then BeStep. */
  function BeRead(view: seq<bv8>, pos: nat, st: BitState, n: nat): (o: BitOutcome)
    requires st.bitsLeft <= 7
    ensures o.state.bitsLeft <= 7
  {
    if n > 32 then BitOutcome(Failure(BitWidthExceeded(n)), pos, st)
    else match Pull(view, pos, st, n)
      case Failure(e) => BitOutcome(Failure(e), pos, st)
      case Success(buf) =>
        var s := BeStep(st, n, buf);
        BitOutcome(Success(s.value), pos + |buf|, s.state)
  }

  /** `readBitsIntLe(n)`: refuse n > 32, pull bytes, then LeStep. */
  function LeRead(view: seq<bv8>, pos: nat, st: BitState, n: nat): (o: BitOutcome)
    requires st.bitsLeft <= 7
    ensures o.state.bitsLeft <= 7
  {
    if n > 32 then BitOutcome(Failure(BitWidthExceeded(n)), pos, st)
    else match Pull(view, pos, st, n)
      case Failure(e) => BitOutcome(Failure(e), pos, st)
      case Success(buf) =>
        var s := LeStep(st, n, buf);
        BitOutcome(Success(s.value), pos + |buf|, s.state)
  }

  /** The unread bytes of the view, one by one: none once the cursor is
      past its end. */
  function Rest(view: seq<bv8>, pos: nat): (r: seq<bv8>)
    ensures |r| == if pos <= |view| then |view| - pos else 0
    decreases |view| - pos
  {
    if pos >= |view| then [] else [view[pos]] + Rest(view, pos + 1)
  }

  /** Up to the end of the view, the unread bytes are its tail. */
  lemma {:induction false} RestIsTail(view: seq<bv8>, pos: nat)
    requires pos <= |view|
    ensures Rest(view, pos) == view[pos..]
    decreases |view| - pos
  {
    if pos < |view| {
      RestIsTail(view, pos + 1);
      assert view[pos..] == [view[pos]] + view[pos + 1..];
    }
  }

  /** The bits not yet returned, in big-endian reading order: the pending
      bits, then each unread byte of the view most significant bit first. */
  function UnreadMsb(view: seq<bv8>, pos: nat, st: BitState): seq<bool> {
    BitsMsb(st.bits, st.bitsLeft) + BytesMsb(Rest(view, pos))
  }

  /** The bits not yet returned, in little-endian reading order. */
  function UnreadLsb(view: seq<bv8>, pos: nat, st: BitState): seq<bool> {
    BitsLsb(st.bits, st.bitsLeft) + BytesLsb(Rest(view, pos))
  }

  /** The pending and the pulled bits fit in the 32-bit accumulator. */
  predicate Fits(st: BitState, n: nat) {
    st.bitsLeft + 8 * BytesNeeded(n, st.bitsLeft) <= 32
  }

  // ---------------------------------------------------------------------
  // Arithmetic of the steps
  // ---------------------------------------------------------------------

  lemma {:induction false} ReadMaskValue(n: nat)
    requires n <= 32
    ensures ReadMask(n) == Pow2(n) - 1
  {
    if n == 32 {
      Pow2Is32();
    } else {
      assert n % 32 == n;
      assert LowMask(n) == Pow2(n % 32) - 1;
    }
  }

  /** The big-endian loop computes the field modulo 2^32. */
  lemma {:induction false} BeAccumulateValue(bits: Uint32, buf: seq<bv8>)
    ensures BeAccumulate(bits, buf) == BeSum(bits, buf) % Two32
  {
    if buf == [] {
      DivModSplit(0, Two32, bits);
    } else {
      var init := buf[..|buf| - 1];
      BeAccumulateValue(bits, init);
      BeAccumulateStep(bits, init, buf[|buf| - 1]);
      assert buf == init + [buf[|buf| - 1]];
    }
  }

  /** The value the big-endian loop would compute without overflow. */
  function BeSum(bits: nat, buf: seq<bv8>): nat {
    bits * Pow2(8 * |buf|) + UnsignedBe(buf)
  }

  /** One turn of the big-endian loop, on values reduced modulo 2^32. */
  lemma {:induction false} BeAccumulateStep(bits: Uint32, init: seq<bv8>, last: bv8)
    requires BeAccumulate(bits, init) == BeSum(bits, init) % Two32
    ensures BeAccumulate(bits, init + [last]) == BeSum(bits, init + [last]) % Two32
  {
    var buf := init + [last];
    var prev := BeAccumulate(bits, init);
    var l := last as int;
    calc {
      BeAccumulate(bits, buf);
      { assert buf[..|buf| - 1] == init; }
      Or(Shl(prev, 8), l);
      { assert Pow2(8) == 256; OrShifted(l, prev, 8); }
      (prev * 256 + l) % Two32;
      ((BeSum(bits, init) % Two32) * 256 + l) % Two32;
      { ModOfScaled(BeSum(bits, init), 256, l); }
      (BeSum(bits, init) * 256 + l) % Two32;
      { BeSumAppend(bits, init, last); }
      BeSum(bits, buf) % Two32;
    }
  }

  /** A byte appended to the big-endian loop shifts the others up by 8. */
  lemma {:induction false} BeSumAppend(bits: nat, init: seq<bv8>, last: bv8)
    ensures BeSum(bits, init + [last]) == BeSum(bits, init) * 256 + last as int
  {
    var buf := init + [last];
    assert buf[..|buf| - 1] == init;
    var p := Pow2(8 * |init|);
    Pow2Add(8 * |init|, 8);
    assert Pow2(8) == 256;
    assert Pow2(8 * |buf|) == p * 256;
    calc {
      BeSum(bits, buf);
      bits * (p * 256) + (UnsignedBe(init) * 256 + last as int);
      { MulAssoc(bits, p, 256); MulAssoc(bits * p, UnsignedBe(init), 256); }
      (bits * p + UnsignedBe(init)) * 256 + last as int;
    }
  }

  /** Scaling and adding commute with reduction modulo 2^32. */
  lemma {:induction false} ModOfScaled(x: int, k: int, y: int)
    ensures ((x % Two32) * k + y) % Two32 == (x * k + y) % Two32
  {
    var q := x / Two32;
    var r := x % Two32;
    assert x * k + y == (r * k + y) + (q * k) * Two32 by {
      assert x == q * Two32 + r;
      MulAssoc(q * Two32 + r, k, 0);
      MulAssoc(q, Two32, k);
    }
    ModAddMultiple(r * k + y, q * k, Two32);
  }

  /** With clean pending bits, the little-endian loop computes the field
      modulo 2^32: every shift count stays below 32, only the sum overflows. */
  lemma {:induction false} LeAccumulateValue(bits: Uint32, b: nat, buf: seq<bv8>)
    requires bits < Pow2(b)
    requires buf != [] ==> b + 8 * (|buf| - 1) < 32
    ensures LeAccumulate(bits, b, buf) == LeSum(bits, b, buf) % Two32
  {
    if buf == [] {
      DivModSplit(0, Two32, bits);
    } else {
      var init := buf[..|buf| - 1];
      LeAccumulateValue(bits, b, init);
      LeAccumulateStep(bits, b, init, buf[|buf| - 1]);
      assert buf == init + [buf[|buf| - 1]];
    }
  }

  /** One turn of the little-endian loop: below bit 32 the new byte is
      or-ed in above the others without overlap. */
  lemma {:induction false} LeAccumulateStep(bits: Uint32, b: nat, init: seq<bv8>, last: bv8)
    requires bits < Pow2(b) && b + 8 * |init| < 32
    requires LeAccumulate(bits, b, init) == LeSum(bits, b, init) % Two32
    ensures LeAccumulate(bits, b, init + [last]) == LeSum(bits, b, init + [last]) % Two32
  {
    var buf := init + [last];
    var c := b + 8 * |init|;
    var x := LeSum(bits, b, init);
    LeSumFits(bits, b, init);
    calc {
      LeAccumulate(bits, b, buf);
      { assert buf[..|buf| - 1] == init; }
      Or(LeAccumulate(bits, b, init), Shl(last as int, c));
      Or(x, Shl(last as int, c));
      { OrShifted(x, last as int, c); }
      ((last as int) * Pow2(c) + x) % Two32;
      { LeSumAppend(bits, b, init, last); }
      LeSum(bits, b, buf) % Two32;
    }
  }

  /** Below bit 32 the little-endian sum is its own 32-bit pattern. */
  lemma {:induction false} LeSumFits(bits: nat, b: nat, init: seq<bv8>)
    requires bits < Pow2(b) && b + 8 * |init| < 32
    ensures LeSum(bits, b, init) < Pow2(b + 8 * |init|)
    ensures LeSum(bits, b, init) % Two32 == LeSum(bits, b, init)
  {
    var x := LeSum(bits, b, init);
    LeSumBound(bits, b, init);
    Pow2Monotone(b + 8 * |init|, 32);
    Pow2Is32();
    DivModSplit(0, Two32, x);
  }

  /** The value the little-endian loop would compute without overflow. */
  function LeSum(bits: nat, b: nat, buf: seq<bv8>): nat {
    bits + Pow2(b) * UnsignedLe(buf)
  }

  lemma {:induction false} LeSumBound(bits: nat, b: nat, buf: seq<bv8>)
    requires bits < Pow2(b)
    ensures LeSum(bits, b, buf) < Pow2(b + 8 * |buf|)
  {
    UnsignedLeBound(buf);
    Pow2Add(b, 8 * |buf|);
    PackBound(bits, UnsignedLe(buf), Pow2(b), Pow2(8 * |buf|));
  }

  /** A byte appended to the little-endian loop lands above the others. */
  lemma {:induction false} LeSumAppend(bits: nat, b: nat, init: seq<bv8>, last: bv8)
    ensures LeSum(bits, b, init + [last]) ==
      (last as int) * Pow2(b + 8 * |init|) + LeSum(bits, b, init)
  {
    var pb, pi := Pow2(b), Pow2(8 * |init|);
    var ui := UnsignedLe(init);
    var l := last as int;
    UnsignedLeConcat(init, [last]);
    assert UnsignedLe([last]) == last as int by {
      assert [last][1..] == [];
    }
    Pow2Add(b, 8 * |init|);
    var p := Pow2(b + 8 * |init|);
    assert p == pb * pi;
    calc {
      LeSum(bits, b, init + [last]);
      bits + pb * (ui + pi * l);
      { MulAssoc(pb, ui, pi * l); MulAssoc(pb, pi, l); }
      bits + pb * ui + (pb * pi) * l;
      bits + pb * ui + p * l;
      { assert p * l == l * p; }
      l * p + LeSum(bits, b, init);
    }
  }

  // ---------------------------------------------------------------------
  // When the 32-bit code computes the intended read
  // ---------------------------------------------------------------------

  /** The big-endian step always leaves the intended accumulator, and
      returns the intended value (as a 32-bit pattern) whenever the pending
      and pulled bits fit in 32; below n == 32 the value is exact. */
  lemma {:induction false} BeStepAgrees(st: BitState, n: nat, buf: seq<bv8>)
    requires StepArgs(st, n, buf)
    ensures BeStep(st, n, buf).state == BeIdeal(st, n, buf).state
    ensures st.bitsLeft + 8 * |buf| <= 32 ==>
      ToUint32(BeStep(st, n, buf).value) == BeIdeal(st, n, buf).value
    ensures st.bitsLeft + 8 * |buf| <= 32 && n < 32 ==>
      BeStep(st, n, buf).value == BeIdeal(st, n, buf).value
  {
    PulledEnough(st, n, buf);
    var left := st.bitsLeft + 8 * |buf|;
    var sh := left - n;
    var acc := BeAccumulate(st.bits, buf);
    var v := BeField(st, buf);
    assert BeStep(st, n, buf).state == BeIdeal(st, n, buf).state by {
      assert BeStep(st, n, buf).state == BitState(And(acc, LowMask(sh)), sh);
      assert BeIdeal(st, n, buf).state == BitState(ModPow2(v, sh), sh);
      BeKeptBits(st, buf, sh);
    }
    if left <= 32 {
      var raw := And(ShrU(acc, sh), ReadMask(n));
      assert BeStep(st, n, buf).value == ToInt32(raw);
      assert BeIdeal(st, n, buf).value == DivPow2(v, sh);
      BeReadBits(st, n, buf);
      if n < 32 {
        assert raw < 0x8000_0000 by {
          Pow2Monotone(n, 31);
          Pow2Bounds(31);
        }
      }
    }
  }

  /** Clearing all but the low sh bits of the big-endian accumulator keeps
      the low sh bits of the field, however much of it overflowed. */
  lemma {:induction false} BeKeptBits(st: BitState, buf: seq<bv8>, sh: nat)
    requires sh <= 7 && sh <= st.bitsLeft + 8 * |buf|
    ensures And(BeAccumulate(st.bits, buf), LowMask(sh)) == ModPow2(BeField(st, buf), sh)
  {
    var left := st.bitsLeft + 8 * |buf|;
    var big := BeSum(st.bits, buf);
    var acc := BeAccumulate(st.bits, buf);
    calc {
      And(acc, LowMask(sh));
      { AndLowMask(acc, sh); }
      acc % Pow2(sh);
      { BeAccumulateValue(st.bits, buf); LowOfReduced(acc, big, left, sh); }
      (big % Pow2(left)) % Pow2(sh);
      { BeFieldIsLowBits(st, buf); }
      ModPow2(BeField(st, buf), sh);
    }
  }

  /** When the field fits in 32 bits, shifting the accumulator down and
      masking n bits gives the top n bits of the field. */
  lemma {:induction false} BeReadBits(st: BitState, n: nat, buf: seq<bv8>)
    requires StepArgs(st, n, buf) && st.bitsLeft + 8 * |buf| <= 32
    ensures And(ShrU(BeAccumulate(st.bits, buf), st.bitsLeft + 8 * |buf| - n), ReadMask(n))
      == DivPow2(BeField(st, buf), st.bitsLeft + 8 * |buf| - n)
  {
    PulledEnough(st, n, buf);
    var left := st.bitsLeft + 8 * |buf|;
    var sh := left - n;
    var big := BeSum(st.bits, buf);
    var acc := BeAccumulate(st.bits, buf);
    calc {
      And(ShrU(acc, sh), ReadMask(n));
      { ShiftAndMask(acc, sh, n); }
      (acc / Pow2(sh)) % Pow2(n);
      { BeAccumulateValue(st.bits, buf); TopOfReduced(acc, big, sh, n); }
      (big % Pow2(left)) / Pow2(sh);
      { BeFieldIsLowBits(st, buf); }
      DivPow2(BeField(st, buf), sh);
    }
  }

  /** `(x >>> sh) & mask` is the n-bit field of x above its low sh bits. */
  lemma {:induction false} ShiftAndMask(x: Uint32, sh: nat, n: nat)
    requires sh < 32 && n <= 32
    ensures And(ShrU(x, sh), ReadMask(n)) == (x / Pow2(sh)) % Pow2(n)
  {
    var y := ShrU(x, sh);
    ShrUValue(x, sh);
    calc {
      And(y, ReadMask(n));
      { ReadMaskValue(n); }
      And(y, Pow2(n) - 1);
      { AndMask(y, n); }
      y % Pow2(n);
    }
  }

  /** The low sh bits survive reduction modulo 2^32 and modulo 2^left. */
  lemma {:induction false} LowOfReduced(acc: nat, big: nat, left: nat, sh: nat)
    requires acc == big % Two32 && sh <= left && sh <= 32
    ensures acc % Pow2(sh) == (big % Pow2(left)) % Pow2(sh)
  {
    Pow2Is32();
    ModPow2Nested(big, 32, sh);
    ModPow2Nested(big, left, sh);
  }

  /** The n bits above the low sh bits, when sh + n <= 32, survive
      reduction modulo 2^32. */
  lemma {:induction false} TopOfReduced(acc: nat, big: nat, sh: nat, n: nat)
    requires acc == big % Two32 && sh + n <= 32
    ensures (acc / Pow2(sh)) % Pow2(n) == (big % Pow2(sh + n)) / Pow2(sh)
  {
    Pow2Is32();
    DivModPow2(acc, sh, n);
    ModPow2Nested(big, 32, sh + n);
  }

  /** Reducing the unbounded big-endian sum to the pending and pulled bits
      gives the big-endian field. */
  lemma {:induction false} BeFieldIsLowBits(st: BitState, buf: seq<bv8>)
    ensures BeField(st, buf) == BeSum(st.bits, buf) % Pow2(st.bitsLeft + 8 * |buf|)
  {
    UnsignedBeBound(buf);
    FieldMod(st.bits, UnsignedBe(buf), st.bitsLeft, 8 * |buf|);
  }

  /** From clean pending bits the little-endian step returns the intended
      value (as a 32-bit pattern) always, and leaves the intended
      accumulator when the bits fit in 32 and n is below 32. */
  lemma {:induction false} LeStepAgrees(st: BitState, n: nat, buf: seq<bv8>)
    requires StepArgs(st, n, buf) && Clean(st)
    ensures ToUint32(LeStep(st, n, buf).value) == LeIdeal(st, n, buf).value
    ensures n < 32 ==> LeStep(st, n, buf).value == LeIdeal(st, n, buf).value
    ensures st.bitsLeft + 8 * |buf| <= 32 && n < 32 ==>
      LeStep(st, n, buf).state == LeIdeal(st, n, buf).state
  {
    PulledEnough(st, n, buf);
    LeReadBits(st, n, buf);
    if n < 32 {
      Pow2Monotone(n, 31);
      Pow2Bounds(31);
      if st.bitsLeft + 8 * |buf| <= 32 {
        LeKeptBits(st, n, buf);
      }
    }
  }

  /** A number below 2^left, left <= 32, is unchanged by reduction modulo 2^32. */
  lemma {:induction false} FitsIn32(x: nat, left: nat)
    requires left <= 32 && x < Pow2(left)
    ensures x % Two32 == x
  {
    Pow2Monotone(left, 32);
    Pow2Is32();
    DivModSplit(0, Two32, x);
  }

  /** With clean pending bits the little-endian loop's sum is the field. */
  lemma {:induction false} LeSumIsField(st: BitState, buf: seq<bv8>)
    requires Clean(st)
    ensures LeSum(st.bits, st.bitsLeft, buf) == LeField(st, buf)
  {
    DivModSplit(0, Pow2(st.bitsLeft), st.bits);
  }

  /** Masking the low n bits of the little-endian accumulator gives the low
      n bits of the field: only bits at 32 and above overflow. */
  lemma {:induction false} LeReadBits(st: BitState, n: nat, buf: seq<bv8>)
    requires StepArgs(st, n, buf) && Clean(st)
    ensures And(LeAccumulate(st.bits, st.bitsLeft, buf), ReadMask(n)) == ModPow2(LeField(st, buf), n)
  {
    PulledEnough(st, n, buf);
    var b := st.bitsLeft;
    var big := LeSum(st.bits, b, buf);
    var acc := LeAccumulate(st.bits, b, buf);
    calc {
      And(acc, ReadMask(n));
      { ReadMaskValue(n); AndMask(acc, n); }
      acc % Pow2(n);
      { LeAccumulateValue(st.bits, b, buf); Pow2Is32(); }
      (big % Pow2(32)) % Pow2(n);
      { ModPow2Nested(big, 32, n); }
      big % Pow2(n);
      { LeSumIsField(st, buf); }
      ModPow2(LeField(st, buf), n);
    }
  }

  /** When the field fits in 32 bits, shifting the accumulator down by
      n < 32 leaves the field's bits above the n read. */
  lemma {:induction false} LeKeptBits(st: BitState, n: nat, buf: seq<bv8>)
    requires StepArgs(st, n, buf) && Clean(st)
    requires n < 32 && st.bitsLeft + 8 * |buf| <= 32
    ensures ShrU(LeAccumulate(st.bits, st.bitsLeft, buf), n) == DivPow2(LeField(st, buf), n)
  {
    var b := st.bitsLeft;
    var left := b + 8 * |buf|;
    var big := LeSum(st.bits, b, buf);
    var acc := LeAccumulate(st.bits, b, buf);
    assert acc == big by {
      LeAccumulateValue(st.bits, b, buf);
      LeSumBound(st.bits, b, buf);
      FitsIn32(big, left);
    }
    calc {
      ShrU(acc, n);
      { ShrUValue(acc, n); }
      DivPow2(big, n);
      { LeSumIsField(st, buf); }
      DivPow2(LeField(st, buf), n);
    }
  }

  // ---------------------------------------------------------------------
  // What the intended reads return
  // ---------------------------------------------------------------------

  /** The pending bits followed by the pulled bytes, most significant bit
      first, are the bits of the big-endian field. */
  lemma {:induction false} BeFieldBits(st: BitState, buf: seq<bv8>)
    ensures BitsMsb(st.bits, st.bitsLeft) + BytesMsb(buf) ==
      BitsMsb(BeField(st, buf), st.bitsLeft + 8 * |buf|)
  {
    var b, m := st.bitsLeft, 8 * |buf|;
    var v := BeField(st, buf);
    BitsMsbSplit(v, b, m);
    BeFieldHighBits(st, buf);
    BeFieldLowBits(st, buf);
    JoinHalves(BitsMsb(st.bits, b), BytesMsb(buf), BitsMsb(DivPow2(v, m), b), BitsMsb(v, m), BitsMsb(v, b + m));
  }

  /** Above the pulled bytes, the big-endian field holds the pending bits. */
  lemma {:induction false} BeFieldHighBits(st: BitState, buf: seq<bv8>)
    ensures BitsMsb(st.bits, st.bitsLeft) == BitsMsb(DivPow2(BeField(st, buf), 8 * |buf|), st.bitsLeft)
  {
    BeFieldParts(st, buf);
    BitsMsbMod(st.bits, st.bitsLeft);
  }

  /** Below them, it holds the pulled bytes. */
  lemma {:induction false} BeFieldLowBits(st: BitState, buf: seq<bv8>)
    ensures BytesMsb(buf) == BitsMsb(BeField(st, buf), 8 * |buf|)
  {
    BeFieldParts(st, buf);
    BitsMsbMod(BeField(st, buf), 8 * |buf|);
    BytesMsbValue(buf);
  }

  /** The big-endian field splits below the pulled bytes into the pending
      bits above and the bytes' value below. */
  lemma {:induction false} BeFieldParts(st: BitState, buf: seq<bv8>)
    ensures DivPow2(BeField(st, buf), 8 * |buf|) == ModPow2(st.bits, st.bitsLeft)
    ensures ModPow2(BeField(st, buf), 8 * |buf|) == UnsignedBe(buf)
  {
    UnsignedBeBound(buf);
    SplitAt(BeField(st, buf), ModPow2(st.bits, st.bitsLeft), UnsignedBe(buf), 8 * |buf|);
  }

  /** The pending bits followed by the pulled bytes, least significant bit
      first, are the bits of the little-endian field. */
  lemma {:induction false} LeFieldBits(st: BitState, buf: seq<bv8>)
    ensures BitsLsb(st.bits, st.bitsLeft) + BytesLsb(buf) ==
      BitsLsb(LeField(st, buf), st.bitsLeft + 8 * |buf|)
  {
    var b, m := st.bitsLeft, 8 * |buf|;
    var v := LeField(st, buf);
    BitsLsbSplit(v, b, m);
    LeFieldLowBits(st, buf);
    LeFieldHighBits(st, buf);
    JoinHalves(BitsLsb(st.bits, b), BytesLsb(buf), BitsLsb(v, b), BitsLsb(DivPow2(v, b), m), BitsLsb(v, b + m));
  }

  /** Below the pulled bytes, the little-endian field holds the pending bits. */
  lemma {:induction false} LeFieldLowBits(st: BitState, buf: seq<bv8>)
    ensures BitsLsb(st.bits, st.bitsLeft) == BitsLsb(LeField(st, buf), st.bitsLeft)
  {
    LeFieldParts(st, buf);
    BitsLsbMod(LeField(st, buf), st.bitsLeft);
    BitsLsbMod(st.bits, st.bitsLeft);
  }

  /** Above them, it holds the pulled bytes. */
  lemma {:induction false} LeFieldHighBits(st: BitState, buf: seq<bv8>)
    ensures BytesLsb(buf) == BitsLsb(DivPow2(LeField(st, buf), st.bitsLeft), 8 * |buf|)
  {
    LeFieldParts(st, buf);
    BytesLsbValue(buf);
  }

  /** The little-endian field splits at the pending bits into the pulled
      bytes above and the pending bits below. */
  lemma {:induction false} LeFieldParts(st: BitState, buf: seq<bv8>)
    ensures DivPow2(LeField(st, buf), st.bitsLeft) == UnsignedLe(buf)
    ensures ModPow2(LeField(st, buf), st.bitsLeft) == ModPow2(st.bits, st.bitsLeft)
  {
    var b := st.bitsLeft;
    var lo := ModPow2(st.bits, b);
    var ul := UnsignedLe(buf);
    assert LeField(st, buf) == ul * Pow2(b) + lo by {
      MulComm(Pow2(b), ul);
    }
    SplitAt(LeField(st, buf), ul, lo, b);
  }

  /** The intended big-endian read returns the first n of the pending and
      pulled bits, most significant first, and keeps exactly the rest. */
  lemma {:induction false} BeIdealNextBits(st: BitState, n: nat, buf: seq<bv8>)
    requires StepArgs(st, n, buf)
    ensures var s := BitsMsb(st.bits, st.bitsLeft) + BytesMsb(buf);
      var r := BeIdeal(st, n, buf);
      n <= |s| && r.value == ValMsb(s[..n]) && BitsMsb(r.state.bits, r.state.bitsLeft) == s[n..]
  {
    PulledEnough(st, n, buf);
    var left := st.bitsLeft + 8 * |buf|;
    var v := BeField(st, buf);
    var hi := DivPow2(v, left - n);
    var s := BitsMsb(st.bits, st.bitsLeft) + BytesMsb(buf);
    BeFieldHead(st, n, buf);
    BeFieldTop(st, n, buf);
    HeadValue(s, BitsMsb(hi, n), BitsMsb(v, left - n), hi, n);
    assert BeIdeal(st, n, buf) == BitStep(hi, BitState(ModPow2(v, left - n), left - n));
    BitsMsbMod(v, left - n);
  }

  /** The pending and pulled bits split into the top n bits of the field
      and the others. */
  lemma {:induction false} BeFieldHead(st: BitState, n: nat, buf: seq<bv8>)
    requires StepArgs(st, n, buf)
    ensures var left := st.bitsLeft + 8 * |buf|;
      var v := BeField(st, buf);
      n <= left &&
      BitsMsb(st.bits, st.bitsLeft) + BytesMsb(buf) == BitsMsb(DivPow2(v, left - n), n) + BitsMsb(v, left - n)
  {
    PulledEnough(st, n, buf);
    var left := st.bitsLeft + 8 * |buf|;
    var w := left - n;
    assert n + w == left;
    BeFieldBits(st, buf);
    BitsMsbSplit(BeField(st, buf), n, w);
  }

  /** The top n bits of the field are below 2^n. */
  lemma {:induction false} BeFieldTop(st: BitState, n: nat, buf: seq<bv8>)
    requires StepArgs(st, n, buf)
    ensures var left := st.bitsLeft + 8 * |buf|;
      n <= left && DivPow2(BeField(st, buf), left - n) < Pow2(n)
  {
    PulledEnough(st, n, buf);
    var left := st.bitsLeft + 8 * |buf|;
    var w := left - n;
    assert w + n == left;
    FieldBounds(st, buf);
    DivBound(BeField(st, buf), w, n);
  }

  /** n leading bits spelling hi < 2^n read back as hi, and cutting them
      off leaves what followed. */
  lemma {:induction false} HeadValue(s: seq<bool>, a: seq<bool>, b: seq<bool>, hi: nat, n: nat)
    requires s == a + b && a == BitsMsb(hi, n) && hi < Pow2(n)
    ensures n <= |s| && ValMsb(s[..n]) == hi && s[n..] == b
  {
    assert s[..n] == a;
    ValMsbOfBits(hi, n);
    ModBelow(hi, Pow2(n));
  }

  /** The intended little-endian read returns the first n of the pending
      and pulled bits, least significant first, and keeps exactly the rest. */
  lemma {:induction false} LeIdealNextBits(st: BitState, n: nat, buf: seq<bv8>)
    requires StepArgs(st, n, buf)
    ensures var s := BitsLsb(st.bits, st.bitsLeft) + BytesLsb(buf);
      var r := LeIdeal(st, n, buf);
      n <= |s| && r.value == ValLsb(s[..n]) && BitsLsb(r.state.bits, r.state.bitsLeft) == s[n..]
  {
    PulledEnough(st, n, buf);
    var left := st.bitsLeft + 8 * |buf|;
    var v := LeField(st, buf);
    LeFieldBits(st, buf);
    BitsLsbSplit(v, n, left - n);
    ValLsbOfBits(v, n);
  }

  // ---------------------------------------------------------------------
  // Whole reads against the unread bits of the stream
  // ---------------------------------------------------------------------

  /** The pull succeeds exactly when the pending bits and the unread bytes
      hold n bits; it then yields the next bytes of the view, and otherwise
      fails with the EOF error of `readBytes`. */
  lemma {:induction false} PullShape(view: seq<bv8>, pos: nat, st: BitState, n: nat)
    ensures Pull(view, pos, st, n).Success? <==> n <= st.bitsLeft + 8 * |Rest(view, pos)|
    ensures Pull(view, pos, st, n).Success? ==>
      |Pull(view, pos, st, n).value| == BytesNeeded(n, st.bitsLeft) &&
      Rest(view, pos) == Pull(view, pos, st, n).value + Rest(view, pos + BytesNeeded(n, st.bitsLeft))
    ensures Pull(view, pos, st, n).Failure? ==>
      Pull(view, pos, st, n).error == EOF(BytesNeeded(n, st.bitsLeft), |view| - pos)
  {
    var k := BytesNeeded(n, st.bitsLeft);
    if Pull(view, pos, st, n).Success? {
      var buf := Pull(view, pos, st, n).value;
      if k == 0 {
        assert buf == [];
      } else {
        RestIsTail(view, pos);
        RestIsTail(view, pos + k);
        assert buf == view[pos..pos + k];
        assert view[pos..] == view[pos..pos + k] + view[pos + k..];
      }
    }
  }

  /** Both readers fail exactly for n > 32 or when fewer than n bits
      remain, with BitWidthExceeded or `readBytes`'s EOF error, and a
      failed read changes neither the cursor nor the accumulator. */
  lemma {:induction false} ReadFails(view: seq<bv8>, pos: nat, st: BitState, n: nat)
    requires st.bitsLeft <= 7
    ensures BeRead(view, pos, st, n).result.Success? <==> n <= 32 && n <= |UnreadMsb(view, pos, st)|
    ensures LeRead(view, pos, st, n).result.Success? <==> n <= 32 && n <= |UnreadLsb(view, pos, st)|
    ensures BeRead(view, pos, st, n).result.Failure? ==>
      BeRead(view, pos, st, n) == BitOutcome(Failure(ReadError(view, pos, st, n)), pos, st)
    ensures LeRead(view, pos, st, n).result.Failure? ==>
      LeRead(view, pos, st, n) == BitOutcome(Failure(ReadError(view, pos, st, n)), pos, st)
    ensures BeRead(view, pos, st, n).result.Success? ==>
      BeRead(view, pos, st, n).pos == pos + BytesNeeded(n, st.bitsLeft)
    ensures LeRead(view, pos, st, n).result.Success? ==>
      LeRead(view, pos, st, n).pos == pos + BytesNeeded(n, st.bitsLeft)
  {
    if n <= 32 {
      PullShape(view, pos, st, n);
    }
  }

  /** A zero-bit read pulls nothing and returns 0.  The little-endian one
      leaves the accumulator as it was; the big-endian one masks `bits` to
      its low `bitsLeft` bits, which changes nothing when they are clean. */
  lemma {:induction false} ZeroBitRead(view: seq<bv8>, pos: nat, st: BitState)
    requires st.bitsLeft <= 7
    ensures LeRead(view, pos, st, 0) == BitOutcome(Success(0), pos, st)
    ensures BeRead(view, pos, st, 0) ==
      BitOutcome(Success(0), pos, BitState(ModPow2(st.bits, st.bitsLeft), st.bitsLeft))
    ensures Clean(st) ==> BeRead(view, pos, st, 0) == BitOutcome(Success(0), pos, st)
  {
    assert Pull(view, pos, st, 0) == Success([]);
    assert ReadMask(0) == 0;
    AndLowMask(st.bits, st.bitsLeft);
    assert BitAnd(ShrU(st.bits, st.bitsLeft), 0) == 0;
    assert BitAnd(st.bits, 0) == 0;
    assert ShrU(st.bits, 0) == st.bits;
    if Clean(st) {
      ModBelow(st.bits, Pow2(st.bitsLeft));
    }
  }

  /** The error a bit read that cannot be satisfied reports. */
  function ReadError(view: seq<bv8>, pos: nat, st: BitState, n: nat): Error {
    if n > 32 then BitWidthExceeded(n) else EOF(BytesNeeded(n, st.bitsLeft), |view| - pos)
  }

  /** Cutting n bits off the front of pending-and-pulled bits followed by
      the rest of the stream. */
  lemma {:induction false} CutFront(u: seq<bool>, s: seq<bool>, tail: seq<bool>, n: nat)
    requires u == s + tail && n <= |s|
    ensures u[..n] == s[..n] && u[n..] == s[n..] + tail
  {
  }

  /** A read that gets past its guard and its pull is the step on the
      pulled bytes, with the cursor moved past them. */
  lemma {:induction false} BeReadShape(view: seq<bv8>, pos: nat, st: BitState, n: nat)
    requires st.bitsLeft <= 7 && n <= 32 && Pull(view, pos, st, n).Success?
    ensures var buf := Pull(view, pos, st, n).value;
      BeRead(view, pos, st, n) == BitOutcome(Success(BeStep(st, n, buf).value), pos + |buf|, BeStep(st, n, buf).state)
  {
  }

  lemma {:induction false} LeReadShape(view: seq<bv8>, pos: nat, st: BitState, n: nat)
    requires st.bitsLeft <= 7 && n <= 32 && Pull(view, pos, st, n).Success?
    ensures var buf := Pull(view, pos, st, n).value;
      LeRead(view, pos, st, n) == BitOutcome(Success(LeStep(st, n, buf).value), pos + |buf|, LeStep(st, n, buf).state)
  {
  }

  /** The first n pending-and-pulled bits are the first n of everything
      from the pending bits on; the others are followed by the later bytes. */
  lemma {:induction false} MsbWithRest(st: BitState, n: nat, buf: seq<bv8>, rest: seq<bv8>)
    requires StepArgs(st, n, buf)
    ensures var s := BitsMsb(st.bits, st.bitsLeft) + BytesMsb(buf);
      var u := BitsMsb(st.bits, st.bitsLeft) + BytesMsb(buf + rest);
      n <= |s| && u[..n] == s[..n] && u[n..] == s[n..] + BytesMsb(rest)
  {
    PulledEnough(st, n, buf);
    var pend := BitsMsb(st.bits, st.bitsLeft);
    BytesMsbConcat(buf, rest);
    AppendAssoc(pend, BytesMsb(buf), BytesMsb(rest));
    CutFront(pend + BytesMsb(buf + rest), pend + BytesMsb(buf), BytesMsb(rest), n);
  }

  lemma {:induction false} LsbWithRest(st: BitState, n: nat, buf: seq<bv8>, rest: seq<bv8>)
    requires StepArgs(st, n, buf)
    ensures var s := BitsLsb(st.bits, st.bitsLeft) + BytesLsb(buf);
      var u := BitsLsb(st.bits, st.bitsLeft) + BytesLsb(buf + rest);
      n <= |s| && u[..n] == s[..n] && u[n..] == s[n..] + BytesLsb(rest)
  {
    PulledEnough(st, n, buf);
    var pend := BitsLsb(st.bits, st.bitsLeft);
    BytesLsbConcat(buf, rest);
    AppendAssoc(pend, BytesLsb(buf), BytesLsb(rest));
    CutFront(pend + BytesLsb(buf + rest), pend + BytesLsb(buf), BytesLsb(rest), n);
  }

  /** The intended big-endian read, followed by later bytes rest, returns
      the first n of the pending, pulled and later bits u and leaves the
      others. */
  lemma {:induction false} BeIdealOnStream(st: BitState, n: nat, buf: seq<bv8>, rest: seq<bv8>, u: seq<bool>)
    requires StepArgs(st, n, buf)
    requires u == BitsMsb(st.bits, st.bitsLeft) + BytesMsb(buf + rest)
    ensures n <= |u|
    ensures BeIdeal(st, n, buf).value == ValMsb(u[..n])
    ensures BitsMsb(BeIdeal(st, n, buf).state.bits, BeIdeal(st, n, buf).state.bitsLeft) + BytesMsb(rest) == u[n..]
  {
    MsbWithRest(st, n, buf, rest);
    BeIdealNextBits(st, n, buf);
  }

  /** The intended little-endian read, followed by later bytes rest,
      returns the first n of the pending, pulled and later bits u and
      leaves the others. */
  lemma {:induction false} LeIdealOnStream(st: BitState, n: nat, buf: seq<bv8>, rest: seq<bv8>, u: seq<bool>)
    requires StepArgs(st, n, buf)
    requires u == BitsLsb(st.bits, st.bitsLeft) + BytesLsb(buf + rest)
    ensures n <= |u|
    ensures LeIdeal(st, n, buf).value == ValLsb(u[..n])
    ensures BitsLsb(LeIdeal(st, n, buf).state.bits, LeIdeal(st, n, buf).state.bitsLeft) + BytesLsb(rest) == u[n..]
  {
    LsbWithRest(st, n, buf, rest);
    LeIdealNextBits(st, n, buf);
  }

  /** The pull succeeds exactly when the pending bits and the unread bytes
      hold n bits. */
  lemma {:induction false} PullSucceeds(view: seq<bv8>, pos: nat, st: BitState, n: nat)
    ensures Pull(view, pos, st, n).Success? <==> n <= |UnreadMsb(view, pos, st)|
    ensures Pull(view, pos, st, n).Success? <==> n <= |UnreadLsb(view, pos, st)|
  {
    PullShape(view, pos, st, n);
  }

  /** After a successful pull the intended big-endian step returns the next
      n unread bits of the stream and leaves the others. */
  lemma {:induction false} BePullIdeal(view: seq<bv8>, pos: nat, st: BitState, n: nat)
    requires st.bitsLeft <= 7 && n <= 32 && Pull(view, pos, st, n).Success?
    ensures var buf := Pull(view, pos, st, n).value;
      var u := UnreadMsb(view, pos, st);
      n <= |u| && BeIdeal(st, n, buf).value == ValMsb(u[..n]) &&
      UnreadMsb(view, pos + |buf|, BeIdeal(st, n, buf).state) == u[n..]
  {
    var buf := Pull(view, pos, st, n).value;
    var rest := Rest(view, pos + |buf|);
    var u := UnreadMsb(view, pos, st);
    assert StepArgs(st, n, buf) && Rest(view, pos) == buf + rest by {
      PullShape(view, pos, st, n);
    }
    assert u == BitsMsb(st.bits, st.bitsLeft) + BytesMsb(buf + rest);
    BeIdealOnStream(st, n, buf, rest, u);
  }

  /** After a successful pull the intended little-endian step returns the
      next n unread bits of the stream and leaves the others. */
  lemma {:induction false} LePullIdeal(view: seq<bv8>, pos: nat, st: BitState, n: nat)
    requires st.bitsLeft <= 7 && n <= 32 && Pull(view, pos, st, n).Success?
    ensures var buf := Pull(view, pos, st, n).value;
      var u := UnreadLsb(view, pos, st);
      n <= |u| && LeIdeal(st, n, buf).value == ValLsb(u[..n]) &&
      UnreadLsb(view, pos + |buf|, LeIdeal(st, n, buf).state) == u[n..]
  {
    var buf := Pull(view, pos, st, n).value;
    var rest := Rest(view, pos + |buf|);
    var u := UnreadLsb(view, pos, st);
    assert StepArgs(st, n, buf) && Rest(view, pos) == buf + rest by {
      PullShape(view, pos, st, n);
    }
    assert u == BitsLsb(st.bits, st.bitsLeft) + BytesLsb(buf + rest);
    LeIdealOnStream(st, n, buf, rest, u);
  }

  /** `readBitsIntBe` as evidently intended: BeIdeal in place of BeStep. */
  function BeReadIdeal(view: seq<bv8>, pos: nat, st: BitState, n: nat): (o: BitOutcome)
    requires st.bitsLeft <= 7
    ensures o.state.bitsLeft <= 7
  {
    if n > 32 then BitOutcome(Failure(BitWidthExceeded(n)), pos, st)
    else match Pull(view, pos, st, n)
      case Failure(e) => BitOutcome(Failure(e), pos, st)
      case Success(buf) =>
        var s := BeIdeal(st, n, buf);
        BitOutcome(Success(s.value), pos + |buf|, s.state)
  }

  /** `readBitsIntLe` as evidently intended: LeIdeal in place of LeStep. */
  function LeReadIdeal(view: seq<bv8>, pos: nat, st: BitState, n: nat): (o: BitOutcome)
    requires st.bitsLeft <= 7
    ensures o.state.bitsLeft <= 7
  {
    if n > 32 then BitOutcome(Failure(BitWidthExceeded(n)), pos, st)
    else match Pull(view, pos, st, n)
      case Failure(e) => BitOutcome(Failure(e), pos, st)
      case Success(buf) =>
        var s := LeIdeal(st, n, buf);
        BitOutcome(Success(s.value), pos + |buf|, s.state)
  }

  lemma {:induction false} BeReadIdealShape(view: seq<bv8>, pos: nat, st: BitState, n: nat)
    requires st.bitsLeft <= 7 && n <= 32 && Pull(view, pos, st, n).Success?
    ensures var buf := Pull(view, pos, st, n).value;
      BeReadIdeal(view, pos, st, n) == BitOutcome(Success(BeIdeal(st, n, buf).value), pos + |buf|, BeIdeal(st, n, buf).state)
  {
  }

  lemma {:induction false} LeReadIdealShape(view: seq<bv8>, pos: nat, st: BitState, n: nat)
    requires st.bitsLeft <= 7 && n <= 32 && Pull(view, pos, st, n).Success?
    ensures var buf := Pull(view, pos, st, n).value;
      LeReadIdeal(view, pos, st, n) == BitOutcome(Success(LeIdeal(st, n, buf).value), pos + |buf|, LeIdeal(st, n, buf).state)
  {
  }

  /** The intended reads fail exactly when the code's do, with the same
      error, and then change nothing. */
  lemma {:induction false} IdealReadFails(view: seq<bv8>, pos: nat, st: BitState, n: nat)
    requires st.bitsLeft <= 7
    ensures BeReadIdeal(view, pos, st, n).result.Success? <==> n <= 32 && n <= |UnreadMsb(view, pos, st)|
    ensures LeReadIdeal(view, pos, st, n).result.Success? <==> n <= 32 && n <= |UnreadLsb(view, pos, st)|
    ensures BeReadIdeal(view, pos, st, n).result.Failure? ==>
      BeReadIdeal(view, pos, st, n) == BitOutcome(Failure(ReadError(view, pos, st, n)), pos, st)
    ensures LeReadIdeal(view, pos, st, n).result.Failure? ==>
      LeReadIdeal(view, pos, st, n) == BitOutcome(Failure(ReadError(view, pos, st, n)), pos, st)
  {
    if n <= 32 {
      PullShape(view, pos, st, n);
    }
  }

  /** Whenever n bits remain, the intended big-endian read returns the next
      n bits of the stream, most significant first, and moves past exactly
      them, leaving clean pending bits. */
  lemma {:induction false} BeReadIdealNextBits(view: seq<bv8>, pos: nat, st: BitState, n: nat)
    requires st.bitsLeft <= 7 && n <= 32 && n <= |UnreadMsb(view, pos, st)|
    ensures var o := BeReadIdeal(view, pos, st, n);
      var u := UnreadMsb(view, pos, st);
      o.result == Success(ValMsb(u[..n])) && Clean(o.state) && UnreadMsb(view, o.pos, o.state) == u[n..]
  {
    PullSucceeds(view, pos, st, n);
    var buf := Pull(view, pos, st, n).value;
    var u := UnreadMsb(view, pos, st);
    assert StepArgs(st, n, buf) by {
      PullShape(view, pos, st, n);
    }
    var s := BeIdeal(st, n, buf);
    BeReadIdealShape(view, pos, st, n);
    BePullIdeal(view, pos, st, n);
    assert s.value == ValMsb(u[..n]) && UnreadMsb(view, pos + |buf|, s.state) == u[n..];
  }

  /** Whenever n bits remain, the intended little-endian read returns the
      next n bits of the stream, least significant first, and moves past
      exactly them, leaving clean pending bits. */
  lemma {:induction false} LeReadIdealNextBits(view: seq<bv8>, pos: nat, st: BitState, n: nat)
    requires st.bitsLeft <= 7 && n <= 32 && n <= |UnreadLsb(view, pos, st)|
    ensures var o := LeReadIdeal(view, pos, st, n);
      var u := UnreadLsb(view, pos, st);
      o.result == Success(ValLsb(u[..n])) && Clean(o.state) && UnreadLsb(view, o.pos, o.state) == u[n..]
  {
    PullSucceeds(view, pos, st, n);
    var buf := Pull(view, pos, st, n).value;
    var u := UnreadLsb(view, pos, st);
    assert StepArgs(st, n, buf) by {
      PullShape(view, pos, st, n);
    }
    var s := LeIdeal(st, n, buf);
    LeReadIdealShape(view, pos, st, n);
    LePullIdeal(view, pos, st, n);
    assert s.value == ValLsb(u[..n]) && UnreadLsb(view, pos + |buf|, s.state) == u[n..];
  }

  /** The big-endian code always agrees with the intended read on success,
      failure, cursor and accumulator; on the value when the pending and
      pulled bits fit in 32, as a pattern, and exactly for n < 32. */
  lemma {:induction false} BeReadAgrees(view: seq<bv8>, pos: nat, st: BitState, n: nat)
    requires st.bitsLeft <= 7
    ensures var o, i := BeRead(view, pos, st, n), BeReadIdeal(view, pos, st, n);
      o.pos == i.pos && o.state == i.state && o.result.Success? == i.result.Success? &&
      (o.result.Failure? ==> o == i) &&
      (o.result.Success? && Fits(st, n) ==>
        ToUint32(o.result.value) == i.result.value && (n < 32 ==> o.result.value == i.result.value))
  {
    if n <= 32 && Pull(view, pos, st, n).Success? {
      PullShape(view, pos, st, n);
      BeReadShape(view, pos, st, n);
      BeReadIdealShape(view, pos, st, n);
      BeStepAgrees(st, n, Pull(view, pos, st, n).value);
    }
  }

  /** From clean pending bits the little-endian code always agrees with the
      intended read on success, failure and cursor, and on the value as a
      pattern (exactly for n < 32); on the accumulator when moreover
      n < 32 and the pending and pulled bits fit in 32. */
  lemma {:induction false} LeReadAgrees(view: seq<bv8>, pos: nat, st: BitState, n: nat)
    requires st.bitsLeft <= 7 && Clean(st)
    ensures var o, i := LeRead(view, pos, st, n), LeReadIdeal(view, pos, st, n);
      o.pos == i.pos && o.state.bitsLeft == i.state.bitsLeft && o.result.Success? == i.result.Success? &&
      (o.result.Failure? ==> o == i) &&
      (o.result.Success? ==>
        ToUint32(o.result.value) == i.result.value && (n < 32 ==> o.result.value == i.result.value)) &&
      (Fits(st, n) && n < 32 ==> o.state == i.state)
  {
    if n <= 32 && Pull(view, pos, st, n).Success? {
      PullShape(view, pos, st, n);
      LeReadShape(view, pos, st, n);
      LeReadIdealShape(view, pos, st, n);
      LeStepAgrees(st, n, Pull(view, pos, st, n).value);
    }
  }

  /** A successful big-endian read always moves past exactly the next n
      bits of the stream, leaving clean pending bits. */
  lemma {:induction false} BeReadAdvances(view: seq<bv8>, pos: nat, st: BitState, n: nat)
    requires st.bitsLeft <= 7 && n <= 32 && n <= |UnreadMsb(view, pos, st)|
    ensures Clean(BeRead(view, pos, st, n).state)
    ensures UnreadMsb(view, BeRead(view, pos, st, n).pos, BeRead(view, pos, st, n).state) ==
      UnreadMsb(view, pos, st)[n..]
  {
    BeReadIdealNextBits(view, pos, st, n);
    BeReadAgrees(view, pos, st, n);
  }

  /** When the pending and pulled bits fit in 32 (always for n <= 25), a
      successful big-endian read returns the next n bits of the stream:
      as a 32-bit pattern, and exactly when n < 32. */
  lemma {:induction false} BeReadValue(view: seq<bv8>, pos: nat, st: BitState, n: nat)
    requires st.bitsLeft <= 7 && n <= 32 && n <= |UnreadMsb(view, pos, st)| && Fits(st, n)
    ensures BeRead(view, pos, st, n).result.Success?
    ensures ToUint32(BeRead(view, pos, st, n).result.value) == ValMsb(UnreadMsb(view, pos, st)[..n])
    ensures n < 32 ==> BeRead(view, pos, st, n).result.value == ValMsb(UnreadMsb(view, pos, st)[..n])
  {
    BeReadIdealNextBits(view, pos, st, n);
    BeReadAgrees(view, pos, st, n);
  }

  /** From clean pending bits a successful little-endian read returns the
      next n bits of the stream: as a 32-bit pattern, and exactly when
      n < 32. */
  lemma {:induction false} LeReadValue(view: seq<bv8>, pos: nat, st: BitState, n: nat)
    requires st.bitsLeft <= 7 && Clean(st) && n <= 32 && n <= |UnreadLsb(view, pos, st)|
    ensures LeRead(view, pos, st, n).result.Success?
    ensures ToUint32(LeRead(view, pos, st, n).result.value) == ValLsb(UnreadLsb(view, pos, st)[..n])
    ensures n < 32 ==> LeRead(view, pos, st, n).result.value == ValLsb(UnreadLsb(view, pos, st)[..n])
  {
    LeReadIdealNextBits(view, pos, st, n);
    LeReadAgrees(view, pos, st, n);
  }

  /** From clean pending bits, when the pending and pulled bits fit in 32,
      a successful little-endian read moves past exactly the next n bits;
      the pending bits stay clean when moreover n < 32. */
  lemma {:induction false} LeReadAdvances(view: seq<bv8>, pos: nat, st: BitState, n: nat)
    requires st.bitsLeft <= 7 && Clean(st) && n <= 32 && n <= |UnreadLsb(view, pos, st)| && Fits(st, n)
    ensures UnreadLsb(view, LeRead(view, pos, st, n).pos, LeRead(view, pos, st, n).state) ==
      UnreadLsb(view, pos, st)[n..]
    ensures n < 32 ==> Clean(LeRead(view, pos, st, n).state)
  {
    LeReadIdealNextBits(view, pos, st, n);
    LeReadAgrees(view, pos, st, n);
    if n == 32 {
      PullSucceeds(view, pos, st, n);
      LeReadShape(view, pos, st, n);
      LeReadIdealShape(view, pos, st, n);
      PullShape(view, pos, st, n);
    }
  }

  /** Every read of at most 25 bits fits: the big-endian value is then
      always right. */
  lemma {:induction false} ShortReadsFit(st: BitState, n: nat)
    requires st.bitsLeft <= 7 && n <= 25
    ensures Fits(st, n)
  {
  }
}
