/** JavaScript's 32-bit bitwise operators, on the 32-bit patterns they produce.

    A JS number that has been through `<<`, `|`, `&` or `>>>` is a 32-bit
    integer; this module represents it by its unsigned pattern (what
    ToUint32 gives) and defines each operator on patterns exactly as the
    language does: shift counts are taken modulo 32, `<<` drops what
    leaves the 32 bits, `&` and `|` act bit by bit.  ToInt32 turns a
    pattern back into the signed value that `&`, `|` and `<<` return. */
module JsInt32 {

  /** 2 to the power k. */
  function Pow2(k: nat): (r: nat)
    ensures r >= 1
  {
    if k == 0 then 1 else 2 * Pow2(k - 1)
  }

  const Two32: int := 0x1_0000_0000

  /** The unsigned reading of a 32-bit pattern. */
  type Uint32 = x: int | 0 <= x < 0x1_0000_0000

  /** ECMAScript ToUint32 on an integer-valued number. */
  function ToUint32(v: int): (r: Uint32)
    ensures (v - r) % Two32 == 0
  {
    v % Two32
  }

  /** ECMAScript ToInt32 on a pattern: the signed value `&`, `|`, `<<` yield. */
  function ToInt32(x: Uint32): (r: int)
    ensures -0x8000_0000 <= r < 0x8000_0000
    ensures ToUint32(r) == x
    ensures x < 0x8000_0000 ==> r == x
  {
    if x < 0x8000_0000 then x else x - Two32
  }

  /** `x << count` */
  function Shl(x: Uint32, count: int): Uint32
  {
    (x * Pow2(count % 32)) % Two32
  }

  /** `x >>> count` */
  function ShrU(x: Uint32, count: int): (r: Uint32)
    ensures r <= x
  {
    var p := Pow2(count % 32);
    DivNat(x, p);
    DivSmaller(x, p);
    x / p
  }

  /** Below 32 the shift count is taken as it is. */
  lemma {:induction false} ShrUValue(x: Uint32, c: nat)
    requires c < 32
    ensures ShrU(x, c) == DivPow2(x, c)
  {
    var p := Pow2(c % 32);
    assert c % 32 == c;
    assert p == Pow2(c);
  }

  /** `x & ((1 << k) - 1)` keeps the low k bits, for k below 32. */
  lemma {:induction false} AndLowMask(x: Uint32, k: nat)
    requires k < 32
    ensures And(x, LowMask(k)) == ModPow2(x, k)
  {
    assert k % 32 == k;
    assert LowMask(k) == Pow2(k) - 1;
    AndMask(x, k);
  }

  /** A number made of hi above m low bits lo splits back into hi and lo. */
  lemma {:induction false} SplitAt(v: nat, hi: nat, lo: nat, m: nat)
    requires lo < Pow2(m) && v == hi * Pow2(m) + lo
    ensures DivPow2(v, m) == hi && ModPow2(v, m) == lo
  {
    DivModSplit(hi, Pow2(m), lo);
  }

  lemma {:induction false} ModBelow(x: nat, m: nat)
    requires x < m
    ensures x % m == x
  {
    DivModSplit(0, m, x);
  }

  /** `x | y` */
  function Or(x: Uint32, y: Uint32): Uint32
  {
    Pow2Is32();
    BitOrBound(x, y, 32);
    BitOr(x, y)
  }

  /** `x & y` */
  function And(x: Uint32, y: Uint32): (r: Uint32)
    ensures r <= x
  {
    BitAndBound(x, y);
    BitAnd(x, y)
  }

  /** `(1 << k) - 1` as an operand of `&`: the signed difference, back as a pattern. */
  function LowMask(k: int): (r: Uint32)
    ensures r == Pow2(k % 32) - 1
  {
    Pow2Bounds(k % 32);
    ToUint32(ToInt32(Shl(1, k)) - 1)
  }

  /** x shifted right by k bits, on naturals: x / 2^k. */
  function DivPow2(x: nat, k: nat): (r: nat)
    ensures r == x / Pow2(k)
  {
    var d := Pow2(k);
    DivNat(x, d);
    x / d
  }

  /** x reduced modulo 2^k: its low k bits. */
  function ModPow2(x: nat, k: nat): (r: nat)
    ensures r == x % Pow2(k) && r < Pow2(k)
  {
    x % Pow2(k)
  }

  /** Bitwise or of two naturals, lowest bit first. */
  function BitOr(x: nat, y: nat): nat
    decreases x + y
  {
    if x == 0 then y
    else if y == 0 then x
    else 2 * BitOr(x / 2, y / 2) + (if x % 2 == 1 || y % 2 == 1 then 1 else 0)
  }

  /** Bitwise and of two naturals, lowest bit first. */
  function BitAnd(x: nat, y: nat): nat
    decreases x
  {
    if x == 0 || y == 0 then 0
    else 2 * BitAnd(x / 2, y / 2) + (if x % 2 == 1 && y % 2 == 1 then 1 else 0)
  }

  // ---------------------------------------------------------------------
  // Arithmetic on powers of two
  // ---------------------------------------------------------------------

  lemma {:induction false} Pow2Is32()
    ensures Pow2(32) == Two32
  {
    assert Pow2(8) == 256;
    assert Pow2(16) == 65536;
    assert Pow2(24) == 0x100_0000;
  }

  lemma {:induction false} Pow2Bounds(k: nat)
    requires k < 32
    ensures Pow2(k) <= 0x8000_0000
  {
    Pow2Is32();
    Pow2Monotone(k, 31);
  }

  lemma {:induction false} Pow2Add(a: nat, b: nat)
    ensures Pow2(a + b) == Pow2(a) * Pow2(b)
  {
    if a > 0 {
      Pow2Add(a - 1, b);
    }
  }

  lemma {:induction false} Pow2Monotone(a: nat, b: nat)
    requires a <= b
    ensures Pow2(a) <= Pow2(b)
  {
    if a < b {
      Pow2Monotone(a, b - 1);
    }
  }

  lemma {:induction false} MulAssoc(a: int, b: int, c: int)
    ensures (a * b) * c == a * (b * c)
    ensures a * (b + c) == a * b + a * c
    ensures (a + b) * c == a * c + b * c
  {
  }

  lemma {:induction false} DivNat(x: nat, d: int)
    requires d >= 1
    ensures x / d >= 0
  {
  }

  lemma {:induction false} DivSmaller(x: nat, d: nat)
    requires d >= 1
    ensures x / d <= x
  {
  }

  /** Division is determined by quotient and remainder. */
  lemma {:induction false} DivModUnique(x: int, d: int, q: int, r: int)
    requires d > 0 && 0 <= r < d && x == d * q + r
    ensures x / d == q && x % d == r
  {
    var q', r' := x / d, x % d;
    assert d * q' + r' == x;
    assert d * (q - q') == r' - r;
    MulBetween(d, q - q');
  }

  lemma {:induction false} MulBetween(d: int, k: int)
    requires d > 0 && -d < d * k < d
    ensures k == 0
  {
    if k > 0 {
      MulAtLeast(d, k);
    } else if k < 0 {
      assert d * k == -(d * -k);
      MulAtLeast(d, -k);
    }
  }

  lemma {:induction false} MulAtLeast(d: nat, k: nat)
    requires k >= 1
    ensures d * k >= d
  {
    if k > 1 {
      MulAtLeast(d, k - 1);
      assert d * k == d * (k - 1) + d;
    }
  }

  /** Dividing by a product is dividing twice; the remainder splits likewise. */
  lemma {:induction false} DivModMul(x: nat, a: nat, b: nat)
    requires a > 0 && b > 0
    ensures x / (a * b) == x / a / b
    ensures x % (a * b) == a * ((x / a) % b) + x % a
  {
    var q, r := x / a, x % a;
    var q2, r2 := q / b, q % b;
    assert x == a * q + r;
    assert q == b * q2 + r2;
    assert x == (a * b) * q2 + (a * r2 + r) by {
      MulAssoc(a, b * q2, r2);
      MulAssoc(a, b, q2);
    }
    assert 0 <= a * r2 <= a * b - a by {
      MulLeft(a, 0, r2);
      MulLeft(a, r2, b - 1);
      MulAssoc(a, b - 1, 1);
    }
    DivModUnique(x, a * b, q2, a * r2 + r);
  }

  lemma {:induction false} ModAddMultiple(a: int, q: int, m: int)
    requires m > 0
    ensures (a + q * m) % m == a % m
  {
    DivModUnique(a + q * m, m, a / m + q, a % m);
  }

  /** (x * m + y) splits back into its parts when y < m. */
  lemma {:induction false} DivModSplit(x: int, m: nat, y: nat)
    requires 0 <= y < m
    ensures (x * m + y) / m == x && (x * m + y) % m == y
  {
    DivModUnique(x * m + y, m, x, y);
  }

  /** Reducing mod 2^a then mod 2^b (b <= a) is reducing mod 2^b. */
  lemma {:induction false} ModPow2Nested(x: nat, a: nat, b: nat)
    requires b <= a
    ensures (x % Pow2(a)) % Pow2(b) == x % Pow2(b)
  {
    Pow2Add(b, a - b);
    DivModMul(x, Pow2(b), Pow2(a - b));
    var q := x / Pow2(b);
    var r := x % Pow2(b);
    DivModSplit((q % Pow2(a - b)), Pow2(b), r);
  }

  // ---------------------------------------------------------------------
  // The bitwise operators on naturals
  // ---------------------------------------------------------------------

  lemma {:induction false} BitOrBound(x: nat, y: nat, k: nat)
    requires x < Pow2(k) && y < Pow2(k)
    ensures BitOr(x, y) < Pow2(k)
    decreases x + y
  {
    if x != 0 && y != 0 {
      assert k > 0;
      BitOrBound(x / 2, y / 2, k - 1);
    }
  }

  lemma {:induction false} BitAndBound(x: nat, y: nat)
    ensures BitAnd(x, y) <= x && BitAnd(x, y) <= y
    decreases x
  {
    if x != 0 && y != 0 {
      BitAndBound(x / 2, y / 2);
    }
  }

  /** `x & ((1 << k) - 1)` keeps the low k bits. */
  lemma {:induction false} BitAndLowMask(x: nat, k: nat)
    ensures BitAnd(x, Pow2(k) - 1) == x % Pow2(k)
  {
    if k == 0 {
    } else if x == 0 {
    } else {
      var m := Pow2(k) - 1;
      assert m / 2 == Pow2(k - 1) - 1 && m % 2 == 1;
      BitAndLowMask(x / 2, k - 1);
      DivModMul(x, 2, Pow2(k - 1));
    }
  }

  /** Or-ing a value into bits that are all zero is addition. */
  lemma {:induction false} BitOrDisjoint(a: nat, k: nat, y: nat)
    requires y < Pow2(k)
    ensures BitOr(a * Pow2(k), y) == a * Pow2(k) + y
    ensures BitOr(y, a * Pow2(k)) == a * Pow2(k) + y
  {
    var x := a * Pow2(k);
    if k == 0 || a == 0 || y == 0 {
      assert k == 0 ==> y == 0;
      assert a == 0 ==> x == 0;
    } else {
      var h := a * Pow2(k - 1);
      assert x == 2 * h by {
        MulAssoc(a, 2, Pow2(k - 1));
        MulComm(a, 2);
      }
      assert x / 2 == h && x % 2 == 0;
      assert y / 2 < Pow2(k - 1);
      BitOrDisjoint(a, k - 1, y / 2);
      assert BitOr(x, y) == 2 * BitOr(h, y / 2) + y % 2;
      assert BitOr(y, x) == 2 * BitOr(y / 2, h) + y % 2;
    }
  }

  /** `x & ((1 << k) - 1)` on patterns keeps the low k bits. */
  lemma {:induction false} AndMask(x: Uint32, k: nat)
    requires k <= 32
    ensures Pow2(k) - 1 < Two32
    ensures And(x, Pow2(k) - 1) == x % Pow2(k)
  {
    Pow2Is32();
    Pow2Monotone(k, 32);
    BitAndLowMask(x, k);
  }

  /** `lo | (hi << c)` and `(hi << c) | lo`, with lo below bit c, put hi
      above lo and drop what passes bit 32. */
  lemma {:induction false} OrShifted(lo: Uint32, hi: Uint32, c: nat)
    requires c < 32 && lo < Pow2(c)
    ensures Or(lo, Shl(hi, c)) == (hi * Pow2(c) + lo) % Two32
    ensures Or(Shl(hi, c), lo) == (hi * Pow2(c) + lo) % Two32
  {
    var p := Pow2(c);
    var m := Pow2(32 - c);
    Pow2Add(c, 32 - c);
    Pow2Is32();
    assert c % 32 == c;
    assert Two32 == p * m;
    var sh := Shl(hi, c);
    assert sh == (hi * p + 0) % (p * m);
    MulModAdd(hi, p, m, 0);
    assert sh == (hi % m) * p;
    BitOrDisjoint(hi % m, c, lo);
    assert BitOr(lo, sh) == (hi % m) * p + lo;
    assert BitOr(sh, lo) == (hi % m) * p + lo;
    MulModAdd(hi, p, m, lo);
  }

  /** Reducing hi * p + lo modulo p * m reduces hi modulo m. */
  lemma {:induction false} MulModAdd(hi: nat, p: nat, m: nat, lo: nat)
    requires lo < p && m > 0
    ensures (hi * p + lo) % (p * m) == (hi % m) * p + lo
  {
    var x: nat := hi * p + lo;
    DivModSplit(hi, p, lo);
    DivModMul(x, p, m);
  }

  /** The bits from s up to s + n of x: shift down, then keep n bits. */
  lemma {:induction false} DivModPow2(x: nat, s: nat, n: nat)
    ensures (x / Pow2(s)) % Pow2(n) == (x % Pow2(s + n)) / Pow2(s)
  {
    Pow2Add(s, n);
    DivModMul(x, Pow2(s), Pow2(n));
    DivModSplit((x / Pow2(s)) % Pow2(n), Pow2(s), x % Pow2(s));
  }

  /** Keeping the low b + m bits of hi * 2^m + lo keeps the low b bits of hi. */
  lemma {:induction false} FieldMod(hi: nat, lo: nat, b: nat, m: nat)
    requires lo < Pow2(m)
    ensures (hi * Pow2(m) + lo) % Pow2(b + m) == (hi % Pow2(b)) * Pow2(m) + lo
    ensures (hi * Pow2(m) + lo) / Pow2(m) == hi
    ensures (hi * Pow2(m) + lo) % Pow2(m) == lo
  {
    var p, q := Pow2(m), Pow2(b);
    assert Pow2(b + m) == p * q by {
      Pow2Add(m, b);
    }
    DivModSplit(hi, p, lo);
    MulModAdd(hi, p, q, lo);
  }

  /** Below 2^(a+c), shifting down by a leaves less than 2^c. */
  lemma {:induction false} DivBound(x: nat, a: nat, c: nat)
    requires x < Pow2(a + c)
    ensures x / Pow2(a) < Pow2(c)
  {
    Pow2Add(a, c);
    var q := x / Pow2(a);
    if q >= Pow2(c) {
      MulLeft(Pow2(a), Pow2(c), q);
    }
  }

  /** A digit below p under a number below q fits below p * q. */
  lemma {:induction false} PackBound(lo: nat, hi: nat, p: nat, q: nat)
    requires lo < p && hi < q
    ensures lo + p * hi < p * q
    ensures hi * p + lo < p * q
  {
    MulLeft(p, hi + 1, q);
    MulAssoc(p, hi, 1);
  }

  lemma {:induction false} MulComm(a: int, b: int)
    ensures a * b == b * a
  {
  }

  lemma {:induction false} MulLeft(a: nat, x: nat, y: nat)
    requires x <= y
    ensures a * x <= a * y
  {
  }
}
