/** Bit strings: the vocabulary in which the bit readers' promise is stated.

    The bytes of a stream, seen bit by bit, form a string of bits whose
    order depends on the reader: the big-endian reader takes each byte's
    most significant bit first, the little-endian reader its least
    significant bit first.  A value is read back from a bit string in the
    same order. */
module BitStreams {
  import opened JsInt32
  import opened IntDecoding

  /** The low w bits of x, most significant first. */
  function BitsMsb(x: nat, w: nat): (s: seq<bool>)
    ensures |s| == w
  {
    if w == 0 then [] else BitsMsb(x / 2, w - 1) + [x % 2 == 1]
  }

  /** The low w bits of x, least significant first. */
  function BitsLsb(x: nat, w: nat): (s: seq<bool>)
    ensures |s| == w
  {
    if w == 0 then [] else [x % 2 == 1] + BitsLsb(x / 2, w - 1)
  }

  /** The number a bit string denotes when its first bit is the most significant. */
  function ValMsb(s: seq<bool>): nat
  {
    if s == [] then 0 else 2 * ValMsb(s[..|s| - 1]) + (if s[|s| - 1] then 1 else 0)
  }

  /** The number a bit string denotes when its first bit is the least significant. */
  function ValLsb(s: seq<bool>): nat
  {
    if s == [] then 0 else (if s[0] then 1 else 0) + 2 * ValLsb(s[1..])
  }

  /** The bits in a byte. */
  const ByteWidth: nat := 8

  /** Bytes as bits, each byte most significant bit first. */
  function BytesMsb(bs: seq<bv8>): (s: seq<bool>)
    ensures |s| == 8 * |bs|
  {
    if bs == [] then [] else BitsMsb(bs[0] as nat, ByteWidth) + BytesMsb(bs[1..])
  }

  /** Bytes as bits, each byte least significant bit first. */
  function BytesLsb(bs: seq<bv8>): (s: seq<bool>)
    ensures |s| == 8 * |bs|
  {
    if bs == [] then [] else BitsLsb(bs[0] as nat, ByteWidth) + BytesLsb(bs[1..])
  }

  // ---------------------------------------------------------------------
  // Reading a value back
  // ---------------------------------------------------------------------

  /** Reading w bits of x back most-significant-first gives x modulo 2^w. */
  lemma {:induction false} ValMsbOfBits(x: nat, w: nat)
    ensures ValMsb(BitsMsb(x, w)) == x % Pow2(w)
  {
    if w > 0 {
      var s := BitsMsb(x, w);
      assert s[..w - 1] == BitsMsb(x / 2, w - 1);
      ValMsbOfBits(x / 2, w - 1);
      DivModMul(x, 2, Pow2(w - 1));
    }
  }

  /** Reading w bits of x back least-significant-first gives x modulo 2^w. */
  lemma {:induction false} ValLsbOfBits(x: nat, w: nat)
    ensures ValLsb(BitsLsb(x, w)) == x % Pow2(w)
  {
    if w > 0 {
      var s := BitsLsb(x, w);
      assert s[1..] == BitsLsb(x / 2, w - 1);
      ValLsbOfBits(x / 2, w - 1);
      DivModMul(x, 2, Pow2(w - 1));
    }
  }

  // ---------------------------------------------------------------------
  // Splitting and joining bit strings
  // ---------------------------------------------------------------------

  /** The bits of x depend only on x modulo 2^w. */
  lemma {:induction false} BitsMsbMod(x: nat, w: nat)
    ensures BitsMsb(x, w) == BitsMsb(x % Pow2(w), w)
  {
    if w > 0 {
      var y := x % Pow2(w);
      HalfOfMod(x, w);
      BitsMsbMod(x / 2, w - 1);
      assert BitsMsb(y, w) == BitsMsb(y / 2, w - 1) + [y % 2 == 1];
      assert BitsMsb(x, w) == BitsMsb(x / 2, w - 1) + [x % 2 == 1];
    }
  }

  lemma {:induction false} BitsLsbMod(x: nat, w: nat)
    ensures BitsLsb(x, w) == BitsLsb(x % Pow2(w), w)
  {
    if w > 0 {
      var y := x % Pow2(w);
      HalfOfMod(x, w);
      BitsLsbMod(x / 2, w - 1);
      assert BitsLsb(y, w) == [y % 2 == 1] + BitsLsb(y / 2, w - 1);
      assert BitsLsb(x, w) == [x % 2 == 1] + BitsLsb(x / 2, w - 1);
    }
  }

  /** Halving commutes with reduction modulo 2^w, and the low bit survives it. */
  lemma {:induction false} HalfOfMod(x: nat, w: nat)
    requires w > 0
    ensures (x % Pow2(w)) / 2 == (x / 2) % Pow2(w - 1)
    ensures (x % Pow2(w)) % 2 == x % 2
  {
    DivModMul(x, 2, Pow2(w - 1));
    DivModSplit((x / 2) % Pow2(w - 1), 2, x % 2);
  }

  lemma {:induction false} AppendAssoc(a: seq<bool>, b: seq<bool>, c: seq<bool>)
    ensures a + (b + c) == (a + b) + c
  {
  }

  /** The top a bits of an (a+c)-bit field, then its low c bits. */
  lemma {:induction false} BitsMsbSplit(x: nat, a: nat, c: nat)
    ensures BitsMsb(x, a + c) == BitsMsb(DivPow2(x, c), a) + BitsMsb(x, c)
  {
    if c > 0 {
      var low := [x % 2 == 1];
      assert DivPow2(x / 2, c - 1) == DivPow2(x, c) by {
        DivModMul(x, 2, Pow2(c - 1));
      }
      calc {
        BitsMsb(x, a + c);
        BitsMsb(x / 2, a + (c - 1)) + low;
        { BitsMsbSplit(x / 2, a, c - 1); }
        (BitsMsb(DivPow2(x / 2, c - 1), a) + BitsMsb(x / 2, c - 1)) + low;
        { AppendAssoc(BitsMsb(DivPow2(x / 2, c - 1), a), BitsMsb(x / 2, c - 1), low); }
        BitsMsb(DivPow2(x, c), a) + (BitsMsb(x / 2, c - 1) + low);
        BitsMsb(DivPow2(x, c), a) + BitsMsb(x, c);
      }
    }
  }

  /** The low a bits of an (a+c)-bit field, then the c bits above them. */
  lemma {:induction false} BitsLsbSplit(x: nat, a: nat, c: nat)
    ensures BitsLsb(x, a + c) == BitsLsb(x, a) + BitsLsb(DivPow2(x, a), c)
  {
    if a > 0 {
      var low := [x % 2 == 1];
      assert DivPow2(x / 2, a - 1) == DivPow2(x, a) by {
        DivModMul(x, 2, Pow2(a - 1));
      }
      calc {
        BitsLsb(x, a + c);
        low + BitsLsb(x / 2, (a - 1) + c);
        { BitsLsbSplit(x / 2, a - 1, c); }
        low + (BitsLsb(x / 2, a - 1) + BitsLsb(DivPow2(x / 2, a - 1), c));
        { AppendAssoc(low, BitsLsb(x / 2, a - 1), BitsLsb(DivPow2(x / 2, a - 1), c)); }
        (low + BitsLsb(x / 2, a - 1)) + BitsLsb(DivPow2(x, a), c);
        BitsLsb(x, a) + BitsLsb(DivPow2(x, a), c);
      }
    }
  }

  /** Two halves that equal the halves of a whole join to that whole. */
  lemma {:induction false} JoinHalves(p: seq<bool>, q: seq<bool>, p': seq<bool>, q': seq<bool>, whole: seq<bool>)
    requires whole == p' + q' && p == p' && q == q'
    ensures p + q == whole
  {
  }

  /** Bits of a big-endian field, byte after byte, are the bits of its value. */
  lemma {:induction false} BytesMsbValue(bs: seq<bv8>)
    ensures BytesMsb(bs) == BitsMsb(UnsignedBe(bs), 8 * |bs|)
  {
    if bs != [] {
      var m := 8 * (|bs| - 1);
      var v := UnsignedBe(bs);
      var rest := UnsignedBe(bs[1..]);
      calc {
        BitsMsb(v, 8 * |bs|);
        { BitsMsbSplit(v, 8, m); }
        BitsMsb(DivPow2(v, m), 8) + BitsMsb(v, m);
        { BitsMsbMod(v, m); }
        BitsMsb(DivPow2(v, m), 8) + BitsMsb(ModPow2(v, m), m);
        { UnsignedBeFirst(bs); UnsignedBeBound(bs[1..]); SplitAt(v, bs[0] as nat, rest, m); }
        BitsMsb(bs[0] as nat, 8) + BitsMsb(rest, m);
        { BytesMsbValue(bs[1..]); }
        BitsMsb(bs[0] as nat, 8) + BytesMsb(bs[1..]);
      }
    }
  }

  /** Bits of a little-endian field, byte after byte, are the bits of its value. */
  lemma {:induction false} BytesLsbValue(bs: seq<bv8>)
    ensures BytesLsb(bs) == BitsLsb(UnsignedLe(bs), 8 * |bs|)
  {
    if bs != [] {
      var m := 8 * (|bs| - 1);
      var v := UnsignedLe(bs);
      var rest := UnsignedLe(bs[1..]);
      calc {
        BitsLsb(v, 8 * |bs|);
        { BitsLsbSplit(v, 8, m); }
        BitsLsb(v, 8) + BitsLsb(DivPow2(v, 8), m);
        { BitsLsbMod(v, 8); }
        BitsLsb(ModPow2(v, 8), 8) + BitsLsb(DivPow2(v, 8), m);
        { assert Pow2(8) == 256; SplitAt(v, rest, bs[0] as nat, 8); }
        BitsLsb(bs[0] as nat, 8) + BitsLsb(rest, m);
        { BytesLsbValue(bs[1..]); }
        BitsLsb(bs[0] as nat, 8) + BytesLsb(bs[1..]);
      }
    }
  }

  lemma {:induction false} BytesMsbConcat(a: seq<bv8>, b: seq<bv8>)
    ensures BytesMsb(a + b) == BytesMsb(a) + BytesMsb(b)
  {
    if a != [] {
      assert (a + b)[1..] == a[1..] + b;
      BytesMsbConcat(a[1..], b);
    } else {
      assert a + b == b;
    }
  }

  lemma {:induction false} BytesLsbConcat(a: seq<bv8>, b: seq<bv8>)
    ensures BytesLsb(a + b) == BytesLsb(a) + BytesLsb(b)
  {
    if a != [] {
      assert (a + b)[1..] == a[1..] + b;
      BytesLsbConcat(a[1..], b);
    } else {
      assert a + b == b;
    }
  }
}
