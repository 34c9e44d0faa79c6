/** How the fixed-width integer reads interpret their bytes.

    A DataView read of w bytes gives the unsigned value of the bytes in the
    chosen byte order, or its two's-complement reading for the signed
    variants.  The 8-byte variants return a BigInt, so every value here is
    an exact, unbounded integer. */
module IntDecoding {
  import opened JsInt32

  /** Big-endian value: the sum of b[i] * 256^(w-1-i). */
  function UnsignedBe(bs: seq<bv8>): nat
  {
    if bs == [] then 0 else UnsignedBe(bs[..|bs| - 1]) * 256 + bs[|bs| - 1] as nat
  }

  /** Little-endian value: the sum of b[i] * 256^i. */
  function UnsignedLe(bs: seq<bv8>): nat
  {
    if bs == [] then 0 else bs[0] as nat + 256 * UnsignedLe(bs[1..])
  }

  /** Two's-complement reading of the unsigned value u of a w-byte field. */
  function Signed(u: nat, w: nat): int
    requires w >= 1
  {
    if u < Pow2(8 * w - 1) then u else u - Pow2(8 * w)
  }

  function Reverse(bs: seq<bv8>): (r: seq<bv8>)
    ensures |r| == |bs|
  {
    if bs == [] then [] else Reverse(bs[1..]) + [bs[0]]
  }

  /** The w-byte big-endian encoding of v modulo 256^w: the inverse the
      lemmas below use to show that decoding loses nothing. */
  ghost function EncodeBe(v: nat, w: nat): (bs: seq<bv8>)
    ensures |bs| == w
  {
    if w == 0 then [] else EncodeBe(v / 256, w - 1) + [(v % 256) as bv8]
  }

  // ---------------------------------------------------------------------
  // Properties
  // ---------------------------------------------------------------------

  /** A w-byte field holds a value below 2^(8w), in either byte order. */
  lemma {:induction false} UnsignedBeBound(bs: seq<bv8>)
    ensures UnsignedBe(bs) < Pow2(8 * |bs|)
  {
    if bs != [] {
      var n := |bs|;
      UnsignedBeBound(bs[..n - 1]);
      Pow2Add(8 * (n - 1), 8);
      assert Pow2(8) == 256;
      assert UnsignedBe(bs) < (UnsignedBe(bs[..n - 1]) + 1) * 256;
    }
  }

  lemma {:induction false} UnsignedLeBound(bs: seq<bv8>)
    ensures UnsignedLe(bs) < Pow2(8 * |bs|)
  {
    if bs != [] {
      UnsignedLeBound(bs[1..]);
      Pow2Add(8, 8 * (|bs| - 1));
      assert Pow2(8) == 256;
    }
  }

  /** Appending bytes to a big-endian field shifts what came before up. */
  lemma {:induction false} UnsignedBeConcat(a: seq<bv8>, b: seq<bv8>)
    ensures UnsignedBe(a + b) == UnsignedBe(a) * Pow2(8 * |b|) + UnsignedBe(b)
    decreases |b|
  {
    if b == [] {
      assert a + b == a;
    } else {
      var n := |b|;
      var b' := b[..n - 1];
      var last := b[n - 1] as nat;
      assert (a + b)[..|a + b| - 1] == a + b';
      UnsignedBeConcat(a, b');
      var p' := Pow2(8 * (n - 1));
      Pow2Add(8 * (n - 1), 8);
      assert Pow2(8) == 256;
      assert Pow2(8 * n) == p' * 256;
      calc {
        UnsignedBe(a + b);
        UnsignedBe(a + b') * 256 + last;
        (UnsignedBe(a) * p' + UnsignedBe(b')) * 256 + last;
        { MulAssoc(UnsignedBe(a), p', 256); }
        UnsignedBe(a) * (p' * 256) + (UnsignedBe(b') * 256 + last);
        UnsignedBe(a) * Pow2(8 * n) + UnsignedBe(b);
      }
    }
  }

  /** Appending bytes to a little-endian field adds them above what came before. */
  lemma {:induction false} UnsignedLeConcat(a: seq<bv8>, b: seq<bv8>)
    ensures UnsignedLe(a + b) == UnsignedLe(a) + Pow2(8 * |a|) * UnsignedLe(b)
  {
    if a == [] {
      assert a + b == b;
    } else {
      var n := |a|;
      assert (a + b)[1..] == a[1..] + b;
      assert (a + b)[0] == a[0];
      UnsignedLeConcat(a[1..], b);
      var p' := Pow2(8 * (n - 1));
      Pow2Add(8, 8 * (n - 1));
      assert Pow2(8) == 256;
      assert Pow2(8 * n) == 256 * p';
      calc {
        UnsignedLe(a + b);
        a[0] as nat + 256 * UnsignedLe(a[1..] + b);
        a[0] as nat + 256 * (UnsignedLe(a[1..]) + p' * UnsignedLe(b));
        { MulAssoc(256, p', UnsignedLe(b)); }
        (a[0] as nat + 256 * UnsignedLe(a[1..])) + (256 * p') * UnsignedLe(b);
        UnsignedLe(a) + Pow2(8 * n) * UnsignedLe(b);
      }
    }
  }

  /** The big-endian value of the leading byte and the rest. */
  lemma {:induction false} UnsignedBeFirst(bs: seq<bv8>)
    requires bs != []
    ensures UnsignedBe(bs) == bs[0] as nat * Pow2(8 * (|bs| - 1)) + UnsignedBe(bs[1..])
  {
    assert bs == [bs[0]] + bs[1..];
    UnsignedBeOne(bs[0]);
    UnsignedBeConcat([bs[0]], bs[1..]);
  }

  lemma {:induction false} UnsignedBeOne(b: bv8)
    ensures UnsignedBe([b]) == b as nat
  {
    assert [b][..0] == [];
  }

  /** The little-endian reading is the big-endian reading of the reversed bytes. */
  lemma {:induction false} LeIsReversedBe(bs: seq<bv8>)
    ensures UnsignedLe(bs) == UnsignedBe(Reverse(bs))
  {
    if bs != [] {
      var r := Reverse(bs[1..]);
      LeIsReversedBe(bs[1..]);
      UnsignedBeConcat(r, [bs[0]]);
      UnsignedBeOne(bs[0]);
      assert Pow2(8) == 256;
      calc {
        UnsignedBe(Reverse(bs));
        UnsignedBe(r + [bs[0]]);
        UnsignedBe(r) * 256 + bs[0] as nat;
        UnsignedLe(bs[1..]) * 256 + bs[0] as nat;
        UnsignedLe(bs);
      }
    }
  }

  /** Decoding then encoding gives the bytes back ... */
  lemma {:induction false} EncodeDecodeBe(bs: seq<bv8>)
    ensures EncodeBe(UnsignedBe(bs), |bs|) == bs
  {
    if bs != [] {
      var n := |bs|;
      var v := UnsignedBe(bs);
      DivModSplit(UnsignedBe(bs[..n - 1]), 256, bs[n - 1] as nat);
      assert v / 256 == UnsignedBe(bs[..n - 1]) && v % 256 == bs[n - 1] as nat;
      ByteBack(bs[n - 1]);
      EncodeDecodeBe(bs[..n - 1]);
      assert EncodeBe(v, n) == EncodeBe(v / 256, n - 1) + [(v % 256) as bv8];
      assert bs == bs[..n - 1] + [bs[n - 1]];
    }
  }

  /** ... and encoding then decoding keeps the value modulo 256^w. */
  lemma {:induction false} DecodeEncodeBe(v: nat, w: nat)
    ensures UnsignedBe(EncodeBe(v, w)) == v % Pow2(8 * w)
  {
    if w > 0 {
      calc {
        UnsignedBe(EncodeBe(v, w));
        { EncodeBeLast(v, w); }
        UnsignedBe(EncodeBe(v / 256, w - 1)) * 256 + v % 256;
        { DecodeEncodeBe(v / 256, w - 1); }
        ((v / 256) % Pow2(8 * (w - 1))) * 256 + v % 256;
        { ShiftInByte(v, w); }
        v % Pow2(8 * w);
      }
    }
  }

  /** The last byte of an encoding is the low byte of the value. */
  lemma {:induction false} EncodeBeLast(v: nat, w: nat)
    requires w > 0
    ensures UnsignedBe(EncodeBe(v, w)) == UnsignedBe(EncodeBe(v / 256, w - 1)) * 256 + v % 256
  {
    var bs := EncodeBe(v, w);
    assert bs[..w - 1] == EncodeBe(v / 256, w - 1);
    LowByte(v);
  }

  /** Shifting the low byte of v in below the other w-1 bytes of v / 256. */
  lemma {:induction false} ShiftInByte(v: nat, w: nat)
    requires w > 0
    ensures ((v / 256) % Pow2(8 * (w - 1))) * 256 + v % 256 == v % Pow2(8 * w)
  {
    var p' := Pow2(8 * (w - 1));
    assert Pow2(8 * w) == 256 * p' by {
      Pow2Add(8, 8 * (w - 1));
      assert Pow2(8) == 256;
    }
    DivModMul(v, 256, p');
  }

  lemma {:induction false} LowByte(v: nat)
    ensures ((v % 256) as bv8) as nat == v % 256
  {
    var x := v % 256;
    ByteRoundTrip(x);
  }

  lemma {:induction false} ByteRoundTrip(x: int)
    requires 0 <= x < 256
    ensures (x as bv8) as int == x
  {
    assert x % 256 == x;
  }

  lemma {:induction false} ByteBack(b: bv8)
    ensures (b as int) as bv8 == b
  {
  }

  /** So two fields of one width with the same value hold the same bytes. */
  lemma {:induction false} UnsignedBeInjective(a: seq<bv8>, b: seq<bv8>)
    requires |a| == |b| && UnsignedBe(a) == UnsignedBe(b)
    ensures a == b
  {
    EncodeDecodeBe(a);
    EncodeDecodeBe(b);
  }

  /** The signed reading lies in the w-byte two's-complement range, agrees
      with the unsigned value modulo 2^(8w), and is negative exactly when
      the top bit is set. */
  lemma {:induction false} SignedRange(u: nat, w: nat)
    requires w >= 1 && u < Pow2(8 * w)
    ensures -(Pow2(8 * w - 1) as int) <= Signed(u, w) < Pow2(8 * w - 1)
    ensures (u - Signed(u, w)) % Pow2(8 * w) == 0
    ensures Signed(u, w) < 0 <==> u >= Pow2(8 * w - 1)
  {
    var h := Pow2(8 * w - 1);
    var m := Pow2(8 * w);
    assert m == 2 * h;
    if u >= h {
      assert u - Signed(u, w) == 0 + 1 * m;
      ModAddMultiple(0, 1, m);
    } else {
      assert u - Signed(u, w) == 0 + 0 * m;
      ModAddMultiple(0, 0, m);
    }
  }

  /** For a big-endian field the top bit is the top bit of the first byte. */
  lemma {:induction false} SignedBeNegative(bs: seq<bv8>)
    requires bs != []
    ensures Signed(UnsignedBe(bs), |bs|) < 0 <==> bs[0] >= 0x80
  {
    var w := |bs|;
    var p := Pow2(8 * (w - 1));
    var first := bs[0] as nat;
    var rest := UnsignedBe(bs[1..]);
    var u := UnsignedBe(bs);
    assert u == first * p + rest by {
      UnsignedBeFirst(bs);
    }
    assert rest < p by {
      UnsignedBeBound(bs[1..]);
    }
    assert u < Pow2(8 * w) by {
      UnsignedBeBound(bs);
    }
    assert Pow2(8 * w - 1) == 0x80 * p by {
      Pow2Add(7, 8 * (w - 1));
      assert Pow2(7) == 0x80;
      assert 8 * w - 1 == 7 + 8 * (w - 1);
    }
    if first >= 0x80 {
      MulLeft(p, 0x80, first);
      MulComm(p, 0x80);
      MulComm(p, first);
    } else {
      MulLeft(p, first, 0x7f);
      MulAssoc(p, 0x7f, 1);
      MulComm(p, 0x80);
      MulComm(p, first);
    }
    SignedRange(u, w);
  }

  /** Bytes 01 02 03 04 read as 0x01020304 big-endian and 0x04030201 little-endian. */
  lemma {:induction false} FourByteExample()
    ensures UnsignedBe([0x01, 0x02, 0x03, 0x04]) == 0x01020304
    ensures UnsignedLe([0x01, 0x02, 0x03, 0x04]) == 0x04030201
  {
    var bs: seq<bv8> := [0x01, 0x02, 0x03, 0x04];
    UnsignedBeOne(0x01);
    assert bs[..3][..2] == [0x01, 0x02] && [0x01, 0x02][..1] == [0x01];
    assert UnsignedBe([0x01, 0x02]) == 0x0102;
    assert bs[..3] == [0x01, 0x02, 0x03];
    assert UnsignedBe([0x01, 0x02, 0x03]) == 0x010203;
    assert bs[3..] == [0x04] && [0x04][1..] == [];
    assert UnsignedLe([0x04]) == 0x04;
    assert bs[2..] == [0x03, 0x04] && [0x03, 0x04][1..] == [0x04];
    assert UnsignedLe([0x03, 0x04]) == 0x0403;
    assert bs[1..] == [0x02, 0x03, 0x04] && [0x02, 0x03, 0x04][1..] == [0x03, 0x04];
    assert UnsignedLe([0x02, 0x03, 0x04]) == 0x040302;
  }
}
