/** The stream's static byte-array helpers.

    Each helper is a short loop over a caller's array; each is modelled as
    a method with that loop, proved to compute a specification function,
    and the specification functions carry the properties the helpers
    promise: prefixes, involutions, rotations, orderings.  Inputs are byte
    sequences (the runtime passes `Uint8Array`s or plain arrays of byte
    values); results the source allocates as fresh `Uint8Array`s are fresh
    arrays here. */
module ByteHelpers {
  import opened StreamErrors
  import opened JsInt32

  // ---------------------------------------------------------------------
  // bytesStripRight
  // ---------------------------------------------------------------------

  /** What is left of `data` once every trailing `pad` is removed. */
  function StripRight(data: seq<bv8>, pad: bv8): seq<bv8>
  {
    if data != [] && data[|data| - 1] == pad then StripRight(data[..|data| - 1], pad) else data
  }

  /** The stripped bytes are a prefix of data, everything after them is
      padding, and they do not themselves end in a pad byte. */
  lemma {:induction false} StripRightSpec(data: seq<bv8>, pad: bv8)
    ensures |StripRight(data, pad)| <= |data|
    ensures data[..|StripRight(data, pad)|] == StripRight(data, pad)
    ensures forall i | |StripRight(data, pad)| <= i < |data| :: data[i] == pad
    ensures StripRight(data, pad) == [] || StripRight(data, pad)[|StripRight(data, pad)| - 1] != pad
  {
    if data != [] && data[|data| - 1] == pad {
      var init := data[..|data| - 1];
      StripRightSpec(init, pad);
      assert init[..|StripRight(init, pad)|] == data[..|StripRight(init, pad)|];
    }
  }

  /** Those three facts single out the stripped prefix: any prefix r
      followed by pad bytes only, and not ending in a pad byte, is it. */
  lemma {:induction false} StripRightUnique(data: seq<bv8>, pad: bv8, r: seq<bv8>)
    requires |r| <= |data| && data[..|r|] == r
    requires forall i | |r| <= i < |data| :: data[i] == pad
    requires r == [] || r[|r| - 1] != pad
    ensures StripRight(data, pad) == r
    decreases |data|
  {
    if |data| == |r| {
      assert data == r;
    } else {
      var init := data[..|data| - 1];
      assert init[..|r|] == r;
      StripRightUnique(init, pad, r);
    }
  }

  /** Stripping twice strips nothing more. */
  lemma {:induction false} StripRightIdempotent(data: seq<bv8>, pad: bv8)
    ensures StripRight(StripRight(data, pad), pad) == StripRight(data, pad)
  {
    StripRightSpec(data, pad);
  }

  /** `bytesStripRight(data, padByte)`: walk `newLen` back over the pad
      bytes at the end, then slice. */
  method BytesStripRight(data: seq<bv8>, pad: bv8) returns (r: seq<bv8>)
    ensures r == StripRight(data, pad)
  {
    var newLen := |data|;
    assert data[..newLen] == data;
    while newLen > 0 && data[newLen - 1] == pad
      invariant 0 <= newLen <= |data|
      invariant StripRight(data[..newLen], pad) == StripRight(data, pad)
    {
      assert data[..newLen][..newLen - 1] == data[..newLen - 1];
      newLen := newLen - 1;
    }
    r := data[..newLen];
  }

  /** [1, 2, 3, 0, 0] stripped of zeros is [1, 2, 3]. */
  lemma {:induction false} StripRightExample()
    ensures StripRight([1, 2, 3, 0, 0], 0) == [1, 2, 3]
  {
    StripRightUnique([1, 2, 3, 0, 0], 0, [1, 2, 3]);
  }

  // ---------------------------------------------------------------------
  // bytesTerminate
  // ---------------------------------------------------------------------

  /** The index of the first `term` in data, or |data| when there is none. */
  function FirstIndex(data: seq<bv8>, term: bv8): (i: nat)
    ensures i <= |data|
    ensures forall j | 0 <= j < i :: data[j] != term
    ensures i < |data| ==> data[i] == term
  {
    if data == [] || data[0] == term then 0 else 1 + FirstIndex(data[1..], term)
  }

  /** Those properties determine the index. */
  lemma {:induction false} FirstIndexUnique(data: seq<bv8>, term: bv8, k: nat)
    requires k <= |data|
    requires forall j | 0 <= j < k :: data[j] != term
    requires k < |data| ==> data[k] == term
    ensures FirstIndex(data, term) == k
  {
  }

  /** What `bytesTerminate(data, term, include)` returns. */
  function Terminate(data: seq<bv8>, term: bv8, includeTerm: bool): seq<bv8>
  {
    var n := FirstIndex(data, term);
    data[..if includeTerm && n < |data| then n + 1 else n]
  }

  /** The result is a prefix of data, holding no terminator except, with
      `includeTerm`, the one that ends it; with no terminator it is all of data,
      and otherwise what follows it in data is the terminator. */
  lemma {:induction false} TerminateSpec(data: seq<bv8>, term: bv8, includeTerm: bool)
    ensures |Terminate(data, term, includeTerm)| <= |data|
    ensures data[..|Terminate(data, term, includeTerm)|] == Terminate(data, term, includeTerm)
    ensures term !in data ==> Terminate(data, term, includeTerm) == data
    ensures term in data && !includeTerm ==>
      term !in Terminate(data, term, includeTerm) && data[|Terminate(data, term, includeTerm)|] == term
    ensures term in data && includeTerm ==>
      var r := Terminate(data, term, includeTerm);
      |r| > 0 && r[|r| - 1] == term && term !in r[..|r| - 1]
  {
    var n := FirstIndex(data, term);
    var r := Terminate(data, term, includeTerm);
    if term in data {
      var k :| 0 <= k < |data| && data[k] == term;
      assert n < |data|;
      if includeTerm {
        assert r[..|r| - 1] == data[..n];
      }
    } else {
      assert n == |data|;
    }
  }

  /** `bytesTerminate`: count up to the first terminator, then one more
      with `include` if one was found, and slice. */
  method BytesTerminate(data: seq<bv8>, term: bv8, includeTerm: bool) returns (r: seq<bv8>)
    ensures r == Terminate(data, term, includeTerm)
  {
    var newLen := 0;
    var maxLen := |data|;
    while newLen < maxLen && data[newLen] != term
      invariant 0 <= newLen <= maxLen
      invariant forall j | 0 <= j < newLen :: data[j] != term
    {
      newLen := newLen + 1;
    }
    FirstIndexUnique(data, term, newLen);
    if includeTerm && newLen < maxLen {
      newLen := newLen + 1;
    }
    r := data[..newLen];
  }

  // ---------------------------------------------------------------------
  // processXorOne and processXorMany
  // ---------------------------------------------------------------------

  /** Every byte xor-ed with one key byte. */
  function XorOne(data: seq<bv8>, key: bv8): seq<bv8>
  {
    seq(|data|, i requires 0 <= i < |data| => data[i] ^ key)
  }

  /** The key byte `processXorMany` uses at index i: `key[i % key.length]`,
      or `undefined`, which `^` takes as 0, when the key is empty. */
  function KeyByte(key: seq<bv8>, i: nat): bv8
  {
    if |key| == 0 then 0 else key[i % |key|]
  }

  /** Every byte xor-ed with the key byte for its index. */
  function XorMany(data: seq<bv8>, key: seq<bv8>): seq<bv8>
  {
    seq(|data|, i requires 0 <= i < |data| => data[i] ^ KeyByte(key, i))
  }

  /** Xor-ing twice with the same key byte gives data back. */
  lemma {:induction false} XorOneInvolution(data: seq<bv8>, key: bv8)
    ensures XorOne(XorOne(data, key), key) == data
  {
    var once := XorOne(data, key);
    assert forall i | 0 <= i < |data| :: XorOne(once, key)[i] == (data[i] ^ key) ^ key;
  }

  /** Xor-ing twice with the same key gives data back, for every key. */
  lemma {:induction false} XorManyInvolution(data: seq<bv8>, key: seq<bv8>)
    ensures XorMany(XorMany(data, key), key) == data
  {
    var once := XorMany(data, key);
    assert forall i | 0 <= i < |data| :: XorMany(once, key)[i] == (data[i] ^ KeyByte(key, i)) ^ KeyByte(key, i);
  }

  /** A one-byte key repeats that byte; an empty key changes nothing. */
  lemma {:induction false} XorManyDegenerate(data: seq<bv8>, k: bv8)
    ensures XorMany(data, [k]) == XorOne(data, k)
    ensures XorMany(data, []) == data
  {
    assert forall i: nat :: KeyByte([k], i) == k;
    assert forall i | 0 <= i < |data| :: XorMany(data, [])[i] == data[i] ^ 0;
  }

  /** `processXorOne`: fill a fresh array with `data[i] ^ key`. */
  method ProcessXorOne(data: seq<bv8>, key: bv8) returns (r: array<bv8>)
    ensures fresh(r) && r[..] == XorOne(data, key)
  {
    r := new bv8[|data|];
    var dl := |data|;
    for i := 0 to dl
      invariant forall j | 0 <= j < i :: r[j] == data[j] ^ key
    {
      r[i] := data[i] ^ key;
    }
  }

  /** `processXorMany`: a key index that wraps to 0 at the key's length. */
  method ProcessXorMany(data: seq<bv8>, key: seq<bv8>) returns (r: array<bv8>)
    ensures fresh(r) && r[..] == XorMany(data, key)
  {
    var dl := |data|;
    r := new bv8[dl];
    var kl := |key|;
    var ki := 0;
    for i := 0 to dl
      invariant kl == 0 ==> ki == 0
      invariant kl > 0 ==> ki == i % kl
      invariant forall j | 0 <= j < i :: r[j] == data[j] ^ KeyByte(key, j)
    {
      var k: bv8 := if ki < kl then key[ki] else 0;
      assert k == KeyByte(key, i);
      r[i] := data[i] ^ k;
      if kl > 0 {
        KeyIndexStep(i, kl, ki);
      }
      ki := ki + 1;
      if ki >= kl {
        ki := 0;
      }
    }
  }

  /** The wrapped key index follows i modulo the key length. */
  lemma {:induction false} KeyIndexStep(i: nat, kl: nat, ki: nat)
    requires kl > 0 && ki == i % kl
    ensures (i + 1) % kl == if ki + 1 >= kl then 0 else ki + 1
  {
    var q := i / kl;
    DivModUnique(i, kl, q, ki);
    if ki + 1 >= kl {
      DivModUnique(i + 1, kl, q + 1, 0);
    } else {
      DivModUnique(i + 1, kl, q, ki + 1);
    }
  }

  // ---------------------------------------------------------------------
  // processRotateLeft
  // ---------------------------------------------------------------------

  /** `((b << c) & 0xff) | (b >> anti)` on the 32-bit pattern of b. */
  function Rot(b: bv8, c: nat, anti: nat): bv8
    requires c < 32 && anti < 8
  {
    var x := b as bv32;
    (((x << c) & 0xff) | (x >> anti)) as bv8
  }

  /** What `processRotateLeft` makes of one byte: `<<` takes its count
      modulo 32, and the source's `antiAmount`, `-amount & 7`, is -amount
      modulo 8. */
  function RotateByte(b: bv8, amount: int): bv8
  {
    Rot(b, amount % 32, (-amount) % 8)
  }

  /** Every byte rotated as `processRotateLeft` does it. */
  function RotateAll(data: seq<bv8>, amount: int): seq<bv8>
  {
    seq(|data|, i requires 0 <= i < |data| => RotateByte(data[i], amount))
  }

  /** For an amount from 0 to 7 this is rotation within the byte: the bits
      that leave at the top come back in at the bottom. */
  lemma {:induction false} RotateByteRotates(b: bv8, amount: int)
    requires 0 <= amount <= 7
    ensures RotateByte(b, amount) == b.RotateLeft(amount)
  {
    assert amount % 32 == amount;
    if amount == 0 {
      assert (-amount) % 8 == 0;
    } else {
      assert (-amount) % 8 == 8 - amount;
    }
    if amount < 4 {
      RotLow(b, amount);
    } else {
      RotHigh(b, amount);
    }
  }

  lemma {:induction false} RotLow(b: bv8, k: nat)
    requires k < 4
    ensures Rot(b, k, (8 - k) % 8) == b.RotateLeft(k)
  {
    if k == 0 {
      assert Rot(b, 0, 0) == b.RotateLeft(0);
    } else if k == 1 {
      assert Rot(b, 1, 7) == b.RotateLeft(1);
    } else if k == 2 {
      assert Rot(b, 2, 6) == b.RotateLeft(2);
    } else {
      assert Rot(b, 3, 5) == b.RotateLeft(3);
    }
  }

  lemma {:induction false} RotHigh(b: bv8, k: nat)
    requires 4 <= k <= 7
    ensures Rot(b, k, 8 - k) == b.RotateLeft(k)
  {
    if k == 4 {
      assert Rot(b, 4, 4) == b.RotateLeft(4);
    } else if k == 5 {
      assert Rot(b, 5, 3) == b.RotateLeft(5);
    } else if k == 6 {
      assert Rot(b, 6, 2) == b.RotateLeft(6);
    } else {
      assert Rot(b, 7, 1) == b.RotateLeft(7);
    }
  }

  /** Rotating by `amount` and then by `8 - amount` gives the byte back. */
  lemma {:induction false} RotateByteInverse(b: bv8, amount: int)
    requires 0 <= amount <= 7
    ensures RotateByte(RotateByte(b, amount), (8 - amount) % 8) == b
  {
    var k: nat := amount;
    var once := RotateByte(b, k);
    var back := (8 - k) % 8;
    RotateByteRotates(b, k);
    RotateBackBy(b, once, k, back);
  }

  lemma {:induction false} RotateBackBy(b: bv8, once: bv8, k: nat, back: nat)
    requires k <= 7 && back == (8 - k) % 8 && once == b.RotateLeft(k)
    ensures RotateByte(once, back) == b
  {
    RotateByteRotates(once, back);
    RotateBack(b, k);
  }

  /** Rotating left by k and then by (8 - k) mod 8 is the identity. */
  lemma {:induction false} RotateBack(b: bv8, k: nat)
    requires k <= 7
    ensures b.RotateLeft(k).RotateLeft((8 - k) % 8) == b
  {
    if k == 0 {
      assert b.RotateLeft(0).RotateLeft(0) == b;
    } else if k == 1 {
      assert b.RotateLeft(1).RotateLeft(7) == b;
    } else if k == 2 {
      assert b.RotateLeft(2).RotateLeft(6) == b;
    } else if k == 3 {
      assert b.RotateLeft(3).RotateLeft(5) == b;
    } else if k == 4 {
      assert b.RotateLeft(4).RotateLeft(4) == b;
    } else if k == 5 {
      assert b.RotateLeft(5).RotateLeft(3) == b;
    } else if k == 6 {
      assert b.RotateLeft(6).RotateLeft(2) == b;
    } else {
      assert b.RotateLeft(7).RotateLeft(1) == b;
    }
  }

  /** Rotating every byte back undoes `processRotateLeft`. */
  lemma {:induction false} RotateAllInverse(data: seq<bv8>, amount: int)
    requires 0 <= amount <= 7
    ensures RotateAll(RotateAll(data, amount), (8 - amount) % 8) == data
  {
    forall i | 0 <= i < |data|
      ensures RotateAll(RotateAll(data, amount), (8 - amount) % 8)[i] == data[i]
    {
      RotateByteInverse(data[i], amount);
    }
  }

  /** 0b00000011 rotated left by 3 is 0b00011000. */
  lemma {:induction false} RotateExample()
    ensures RotateAll([0x03], 3) == [0x18]
  {
    RotateByteRotates(0x03, 3);
  }

  /** `processRotateLeft`: refuse any group size but 1, then rotate each
      byte into a fresh array. */
  method ProcessRotateLeft(data: seq<bv8>, amount: int, groupSize: int) returns (r: Result<array<bv8>>)
    ensures groupSize != 1 <==> r.Failure?
    ensures r.Failure? ==> r.error == UnsupportedGroup(groupSize)
    ensures r.Success? ==> fresh(r.value) && r.value[..] == RotateAll(data, amount)
  {
    if groupSize != 1 {
      return Failure(UnsupportedGroup(groupSize));
    }
    var mask := groupSize * 8 - 1;
    var antiAmount := (-amount) % (mask + 1);
    var a := new bv8[|data|];
    for i := 0 to |data|
      invariant forall j | 0 <= j < i :: a[j] == RotateByte(data[j], amount)
    {
      a[i] := Rot(data[i], amount % 32, antiAmount);
    }
    r := Success(a);
  }

  // ---------------------------------------------------------------------
  // mod
  // ---------------------------------------------------------------------

  /** JavaScript's `a % b` for b > 0: the remainder of division truncated
      toward zero, which takes the sign of a. */
  function TruncRem(a: int, b: int): (r: int)
    requires b > 0
  {
    if a >= 0 then a % b else -((-a) % b)
  }

  /** The truncated remainder lies strictly between -b and b, on a's side
      of zero, and differs from a by a multiple of b. */
  lemma {:induction false} TruncRemSpec(a: int, b: int)
    requires b > 0
    ensures -b < TruncRem(a, b) < b
    ensures a >= 0 ==> TruncRem(a, b) >= 0
    ensures a < 0 ==> TruncRem(a, b) <= 0
    ensures (a - TruncRem(a, b)) % b == 0
  {
    var m := if a >= 0 then a else -a;
    var q := m / b;
    DivModUnique(m, b, q, m % b);
    assert m - m % b == q * b;
    if a >= 0 {
      assert a - TruncRem(a, b) == 0 + q * b;
      ModAddMultiple(0, q, b);
    } else {
      assert a - TruncRem(a, b) == 0 + (-q) * b;
      ModAddMultiple(0, -q, b);
    }
  }

  /** `mod(a, b)`: throws for b <= 0; otherwise the truncated remainder,
      moved up by b when negative. */
  function Mod(a: int, b: int): (r: Result<int>)
    ensures r.Failure? <==> b <= 0
    ensures r.Failure? ==> r.error == NonPositiveDivisor(b)
    ensures r.Success? ==> 0 <= r.value < b && (a - r.value) % b == 0
  {
    if b <= 0 then Failure(NonPositiveDivisor(b))
    else
      TruncRemSpec(a, b);
      var r := TruncRem(a, b);
      if r < 0 then ModShift(a, r, b); Success(r + b) else Success(r)
  }

  lemma {:induction false} ModShift(a: int, r: int, b: int)
    requires b > 0 && (a - r) % b == 0
    ensures (a - (r + b)) % b == 0
  {
    ModAddMultiple(a - (r + b), 1, b);
  }

  /** So `mod` agrees with the mathematical (Euclidean) remainder. */
  lemma {:induction false} ModIsEuclidean(a: int, b: int)
    requires b > 0
    ensures Mod(a, b) == Success(a % b)
  {
    var r := Mod(a, b).value;
    var q := (a - r) / b;
    DivModUnique(a - r, b, q, (a - r) % b);
    DivModUnique(a, b, q, r);
  }

  // ---------------------------------------------------------------------
  // arrayMin, arrayMax
  // ---------------------------------------------------------------------

  /** `arrayMin`: start from `arr[0]` (`undefined` for an empty array) and
      keep any smaller element. */
  method ArrayMin(arr: seq<int>) returns (r: Option<int>)
    ensures r.None? <==> |arr| == 0
    ensures r.Some? ==> r.value in arr && forall x | x in arr :: r.value <= x
  {
    if |arr| == 0 {
      return None;
    }
    var min := arr[0];
    var i := 1;
    var n := |arr|;
    while i < n
      invariant 1 <= i <= n
      invariant min in arr[..i]
      invariant forall j | 0 <= j < i :: min <= arr[j]
    {
      var x := arr[i];
      if x < min {
        min := x;
      }
      i := i + 1;
    }
    assert arr[..n] == arr;
    r := Some(min);
  }

  /** `arrayMax`: the same scan keeping any larger element. */
  method ArrayMax(arr: seq<int>) returns (r: Option<int>)
    ensures r.None? <==> |arr| == 0
    ensures r.Some? ==> r.value in arr && forall x | x in arr :: r.value >= x
  {
    if |arr| == 0 {
      return None;
    }
    var max := arr[0];
    var i := 1;
    var n := |arr|;
    while i < n
      invariant 1 <= i <= n
      invariant max in arr[..i]
      invariant forall j | 0 <= j < i :: max >= arr[j]
    {
      var x := arr[i];
      if x > max {
        max := x;
      }
      i := i + 1;
    }
    assert arr[..n] == arr;
    r := Some(max);
  }

  // ---------------------------------------------------------------------
  // byteArrayCompare
  // ---------------------------------------------------------------------

  /** Lexicographic comparison as `byteArrayCompare` reports it: the
      difference of the first differing bytes, else of the lengths. */
  function Compare(a: seq<bv8>, b: seq<bv8>): int
  {
    if a == [] || b == [] then |a| - |b|
    else if a[0] != b[0] then a[0] as int - b[0] as int
    else Compare(a[1..], b[1..])
  }

  /** The comparison is 0 exactly for equal arrays. */
  lemma {:induction false} CompareZeroIffEqual(a: seq<bv8>, b: seq<bv8>)
    ensures Compare(a, b) == 0 <==> a == b
  {
    if a != [] && b != [] && a[0] == b[0] {
      CompareZeroIffEqual(a[1..], b[1..]);
      if a[1..] == b[1..] {
        assert a == [a[0]] + a[1..] && b == [b[0]] + b[1..];
      }
    }
  }

  /** Swapping the arrays negates the comparison. */
  lemma {:induction false} CompareAntisymmetric(a: seq<bv8>, b: seq<bv8>)
    ensures Compare(b, a) == -Compare(a, b)
  {
    if a != [] && b != [] && a[0] == b[0] {
      CompareAntisymmetric(a[1..], b[1..]);
    }
  }

  /** After a common prefix of length k the comparison is decided by the
      rest: by the first differing byte, or by the lengths when one array
      ends there. */
  lemma {:induction false} CompareAfterPrefix(a: seq<bv8>, b: seq<bv8>, k: nat)
    requires k <= |a| && k <= |b| && a[..k] == b[..k]
    ensures Compare(a, b) == Compare(a[k..], b[k..])
  {
    if k > 0 {
      assert a[0] == a[..k][0] && b[0] == b[..k][0];
      assert a[1..][..k - 1] == a[1..k] == b[1..][..k - 1];
      CompareAfterPrefix(a[1..], b[1..], k - 1);
      assert a[1..][k - 1..] == a[k..] && b[1..][k - 1..] == b[k..];
    }
  }

  /** The sign of the comparison: at the first index where the arrays
      differ it is the byte difference; when one is a prefix of the other
      it is the length difference. */
  lemma {:induction false} CompareSign(a: seq<bv8>, b: seq<bv8>, k: nat)
    requires k <= |a| && k <= |b| && a[..k] == b[..k]
    ensures k < |a| && k < |b| && a[k] != b[k] ==> Compare(a, b) == a[k] as int - b[k] as int
    ensures k == |a| || k == |b| ==> Compare(a, b) == |a| - |b|
  {
    CompareAfterPrefix(a, b, k);
  }

  /** `byteArrayCompare`: scan the common length for a difference, then
      compare lengths. */
  method ByteArrayCompare(a: seq<bv8>, b: seq<bv8>) returns (r: int)
    ensures r == Compare(a, b)
  {
    var al := |a|;
    var bl := |b|;
    var minLen := if al < bl then al else bl;
    for i := 0 to minLen
      invariant a[..i] == b[..i]
    {
      var cmp := a[i] as int - b[i] as int;
      if cmp != 0 {
        CompareSign(a, b, i);
        return cmp;
      }
      assert a[..i + 1] == a[..i] + [a[i]];
      assert b[..i + 1] == b[..i] + [b[i]];
    }
    CompareSign(a, b, minLen);
    if al == bl {
      return 0;
    } else {
      return al - bl;
    }
  }

  // ---------------------------------------------------------------------
  // createStringFromArray
  // ---------------------------------------------------------------------

  /** The chunk length `String.fromCharCode.apply` is given at a time. */
  const ChunkSize: nat := 0x8000

  /** One character per byte, with the byte as its code. */
  function Chars(bs: seq<bv8>): (s: string)
    ensures |s| == |bs|
  {
    if bs == [] then "" else Chars(bs[..|bs| - 1]) + [bs[|bs| - 1] as char]
  }

  /** The characters of joined byte runs are the joined characters. */
  lemma {:induction false} CharsConcat(a: seq<bv8>, b: seq<bv8>)
    ensures Chars(a + b) == Chars(a) + Chars(b)
    decreases |b|
  {
    if b == [] {
      assert a + b == a;
    } else {
      var b' := b[..|b| - 1];
      assert (a + b)[..|a + b| - 1] == a + b';
      CharsConcat(a, b');
    }
  }

  /** Character i is byte i. */
  lemma {:induction false} CharsAt(bs: seq<bv8>, i: nat)
    requires i < |bs|
    ensures Chars(bs)[i] == bs[i] as char
  {
    if i < |bs| - 1 {
      CharsAt(bs[..|bs| - 1], i);
    }
  }

  /** The pieces joined in order, as `chunks.join('')` does. */
  function Join(chunks: seq<string>): string
  {
    if chunks == [] then "" else Join(chunks[..|chunks| - 1]) + chunks[|chunks| - 1]
  }

  /** `createStringFromArray`: convert 0x8000 bytes at a time and join the
      pieces; the chunking does not change the string. */
  method CreateStringFromArray(bytes: seq<bv8>) returns (s: string)
    ensures |s| == |bytes|
    ensures forall i | 0 <= i < |bytes| :: s[i] == bytes[i] as char
  {
    var chunks: seq<string> := [];
    var i := 0;
    while i < |bytes|
      invariant 0 <= i <= |bytes|
      invariant Join(chunks) == Chars(bytes[..i])
    {
      var end := if i + ChunkSize < |bytes| then i + ChunkSize else |bytes|;
      var chunk := Chars(bytes[i..end]);
      assert (chunks + [chunk])[..|chunks|] == chunks;
      chunks := chunks + [chunk];
      CharsConcat(bytes[..i], bytes[i..end]);
      assert bytes[..i] + bytes[i..end] == bytes[..end];
      i := end;
    }
    assert bytes[..i] == bytes;
    s := Join(chunks);
    forall k | 0 <= k < |bytes|
      ensures s[k] == bytes[k] as char
    {
      CharsAt(bytes, k);
    }
  }
}
