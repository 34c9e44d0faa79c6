/** The byte view a stream reads from, and the reads that consume whole bytes.

    A stream sees the bytes of its buffer between `byteOffset` and
    `byteLength`; `size` is their number and `pos` the cursor into them.
    Every byte read goes through one bounds check, `ensureBytesLeft`: a read
    of `len` bytes at `pos` fails with an EOF error carrying `len` and
    `size - pos` when `pos + len > size`.  The functions here state, on the
    view as a sequence, what such a read returns; the stream class's
    methods are proved to do exactly this. */
module ByteView {
  import opened JsInt32
  import opened IntDecoding
  import opened StreamErrors
  import opened ByteHelpers

  /** `ensureBytesLeft(length)` at `pos` on a view of `size` bytes. */
  function BytesLeft(size: nat, pos: nat, length: int): (r: Outcome)
    ensures r.Fail? <==> pos + length > size
    ensures r.Fail? ==> r.error == EOF(length, size - pos)
  {
    if pos + length > size then Fail(EOF(length, size - pos)) else Pass
  }

  /** `mapUint8Array(length)` at `pos`: the bounds check, then the engine's
      own refusal of a negative length, then the `length` bytes at `pos`. */
  function Take(view: seq<bv8>, pos: nat, length: int): (r: Result<seq<bv8>>)
    ensures r.Success? <==> 0 <= length && pos + length <= |view|
    ensures r.Success? ==> |r.value| == length
    ensures pos + length > |view| ==> r == Failure(EOF(length, |view| - pos))
  {
    if BytesLeft(|view|, pos, length).Fail? then Failure(BytesLeft(|view|, pos, length).error)
    else if length < 0 then Failure(RangeError)
    else Success(view[pos..pos + length])
  }

  /** Taking a bytes and then b more is taking a + b bytes at once. */
  lemma {:induction false} TakeConcat(view: seq<bv8>, pos: nat, a: nat, b: nat)
    ensures Take(view, pos, a + b).Success? <==>
      Take(view, pos, a).Success? && Take(view, pos + a, b).Success?
    ensures Take(view, pos, a + b).Success? ==>
      Take(view, pos, a + b).value == Take(view, pos, a).value + Take(view, pos + a, b).value
  {
    if pos + a + b <= |view| {
      assert view[pos..pos + a + b] == view[pos..pos + a] + view[pos + a..pos + a + b];
    }
  }

  /** The bytes a take yields are the unread bytes' prefix: what follows
      the new cursor is what follows the old one, minus them. */
  lemma {:induction false} TakeIsPrefix(view: seq<bv8>, pos: nat, length: int)
    requires pos <= |view|
    requires Take(view, pos, length).Success?
    ensures view[pos..] == Take(view, pos, length).value + view[pos + length..]
  {
    assert view[pos..] == view[pos..pos + length] + view[pos + length..];
  }

  // ---------------------------------------------------------------------
  // Fixed-width integers
  // ---------------------------------------------------------------------

  datatype ByteOrder = BigEndian | LittleEndian

  /** What a DataView getter returns for the bytes `bs`: the unsigned value
      in the given byte order, or its two's-complement reading. */
  function Decode(bs: seq<bv8>, order: ByteOrder, signed: bool): int
    requires |bs| >= 1
  {
    var u := if order == BigEndian then UnsignedBe(bs) else UnsignedLe(bs);
    if signed then Signed(u, |bs|) else u
  }

  /** A `w`-byte integer read at `pos`: the bounds check, then the value. */
  function ReadInt(view: seq<bv8>, pos: nat, w: nat, order: ByteOrder, signed: bool): Result<int>
    requires w >= 1
  {
    if BytesLeft(|view|, pos, w).Fail? then Failure(BytesLeft(|view|, pos, w).error)
    else Success(Decode(view[pos..pos + w], order, signed))
  }

  /** An integer read fails with EOF exactly when fewer than w bytes
      remain, and otherwise returns a value in the w-byte range: [0, 2^(8w))
      unsigned, [-2^(8w-1), 2^(8w-1)) signed, the two agreeing modulo 2^(8w). */
  lemma {:induction false} ReadIntRange(view: seq<bv8>, pos: nat, w: nat, order: ByteOrder, signed: bool)
    requires w >= 1
    ensures ReadInt(view, pos, w, order, signed).Failure? <==> pos + w > |view|
    ensures ReadInt(view, pos, w, order, signed).Failure? ==>
      ReadInt(view, pos, w, order, signed).error == EOF(w, |view| - pos)
    ensures ReadInt(view, pos, w, order, signed).Success? && !signed ==>
      0 <= ReadInt(view, pos, w, order, signed).value < Pow2(8 * w)
    ensures ReadInt(view, pos, w, order, signed).Success? && signed ==>
      -(Pow2(8 * w - 1) as int) <= ReadInt(view, pos, w, order, signed).value < Pow2(8 * w - 1)
    ensures ReadInt(view, pos, w, order, signed).Success? ==>
      (ReadInt(view, pos, w, order, false).value - ReadInt(view, pos, w, order, true).value) % Pow2(8 * w) == 0
  {
    if pos + w <= |view| {
      var bs := view[pos..pos + w];
      UnsignedBeBound(bs);
      UnsignedLeBound(bs);
      var u := if order == BigEndian then UnsignedBe(bs) else UnsignedLe(bs);
      SignedRange(u, w);
    }
  }

  /** A little-endian read is the big-endian read of the same bytes reversed. */
  lemma {:induction false} ReadIntOrders(view: seq<bv8>, pos: nat, w: nat, signed: bool)
    requires w >= 1 && pos + w <= |view|
    ensures ReadInt(view, pos, w, LittleEndian, signed).value ==
      Decode(Reverse(view[pos..pos + w]), BigEndian, signed)
  {
    LeIsReversedBe(view[pos..pos + w]);
  }

  /** A signed big-endian read is negative exactly when its first byte has
      the top bit set. */
  lemma {:induction false} ReadIntSign(view: seq<bv8>, pos: nat, w: nat)
    requires w >= 1 && pos + w <= |view|
    ensures ReadInt(view, pos, w, BigEndian, true).value < 0 <==> view[pos] >= 0x80
  {
    var bs := view[pos..pos + w];
    assert bs[0] == view[pos];
    SignedBeNegative(bs);
  }

  /** Bytes 01 02 03 04 read as 0x01020304 big-endian and 0x04030201
      little-endian. */
  lemma {:induction false} ReadU4Example()
    ensures ReadInt([0x01, 0x02, 0x03, 0x04], 0, 4, BigEndian, false) == Success(0x01020304)
    ensures ReadInt([0x01, 0x02, 0x03, 0x04], 0, 4, LittleEndian, false) == Success(0x04030201)
  {
    var bs: seq<bv8> := [0x01, 0x02, 0x03, 0x04];
    assert bs[0..4] == bs;
    FourByteExample();
  }

  // ---------------------------------------------------------------------
  // Whole ranges: the terminator scan and the magic-number check
  // ---------------------------------------------------------------------

  /** What a byte-range read returns and where it leaves the cursor. */
  datatype ByteOutcome = ByteOutcome(result: Result<seq<bv8>>, pos: nat)

  /** `readBytesTerm(term, include, consume, eosError)` at `pos`: find the
      first terminator in the unread bytes; without one, throw (eosError)
      or take everything; with one at offset i, take i bytes (i + 1 with
      `include`) and, with `consume`, step one byte further. */
  function ReadTerm(view: seq<bv8>, pos: nat, term: bv8, includeTerm: bool, consume: bool, eosError: bool): ByteOutcome
    requires pos <= |view|
  {
    var rest := view[pos..];
    var i := FirstIndex(rest, term);
    if i == |rest| then
      if eosError then ByteOutcome(Failure(MissingTerminator(term)), pos)
      else ByteOutcome(Success(rest), |view|)
    else
      var len := if includeTerm then i + 1 else i;
      ByteOutcome(Success(view[pos..pos + len]), pos + len + (if consume then 1 else 0))
  }

  /** The scan returns what `bytesTerminate` makes of the unread bytes,
      unless the terminator is missing and `eosError` is set, in which case
      it fails with the cursor where it was.  With a terminator at offset
      i the cursor moves i bytes, one more for `include` and one more for
      `consume`; it passes the end of the view, reaching size + 1, exactly
      when both are set and the terminator is the last byte. */
  lemma {:induction false} ReadTermSpec(view: seq<bv8>, pos: nat, term: bv8, includeTerm: bool, consume: bool, eosError: bool)
    requires pos <= |view|
    ensures var o := ReadTerm(view, pos, term, includeTerm, consume, eosError);
      var rest := view[pos..];
      && (term in rest || !eosError ==> o.result == Success(Terminate(rest, term, includeTerm)))
      && (term !in rest && eosError ==> o == ByteOutcome(Failure(MissingTerminator(term)), pos))
      && (term !in rest && !eosError ==> o.pos == |view|)
      && (term in rest ==> o.pos == pos + FirstIndex(rest, term) + (if includeTerm then 1 else 0) + (if consume then 1 else 0))
      && o.pos <= |view| + 1
      && (o.pos == |view| + 1 <==> term in rest && includeTerm && consume && FirstIndex(rest, term) == |rest| - 1)
  {
    var rest := view[pos..];
    var i := FirstIndex(rest, term);
    TerminateSpec(rest, term, includeTerm);
    if term in rest {
      assert i < |rest|;
      var len := if includeTerm then i + 1 else i;
      assert view[pos..pos + len] == rest[..len];
    } else {
      assert i == |rest|;
    }
  }

  /** The scan as `readBytesTerm` carries it out: with the terminator at
      offset i of the unread bytes, or i the count of unread bytes when it
      is missing, the result is the `mapUint8Array` of i bytes (i + 1 with
      `include`), unless the terminator is missing and `eosError` is set. */
  lemma {:induction false} ReadTermByTake(view: seq<bv8>, pos: nat, term: bv8, includeTerm: bool, consume: bool, eosError: bool)
    requires pos <= |view|
    ensures var o := ReadTerm(view, pos, term, includeTerm, consume, eosError);
      var i := FirstIndex(view[pos..], term);
      && (i == |view| - pos && eosError ==> o == ByteOutcome(Failure(MissingTerminator(term)), pos))
      && (i == |view| - pos && !eosError ==> o == ByteOutcome(Take(view, pos, i), pos + i))
      && (i < |view| - pos ==>
            var len := if includeTerm then i + 1 else i;
            o == ByteOutcome(Take(view, pos, len), pos + len + (if consume then 1 else 0)))
  {
    var i := FirstIndex(view[pos..], term);
    if i == |view| - pos {
      assert view[pos..pos + i] == view[pos..];
    }
  }

  /** 41 42 00 43 with `include` off and `consume` on: 41 42, and the
      cursor at 3, past the terminator. */
  lemma {:induction false} ReadTermExample()
    ensures ReadTerm([0x41, 0x42, 0x00, 0x43], 0, 0x00, false, true, true) ==
      ByteOutcome(Success([0x41, 0x42]), 3)
  {
    var view: seq<bv8> := [0x41, 0x42, 0x00, 0x43];
    assert view[0..] == view;
    FirstIndexUnique(view, 0x00, 2);
    assert view[0..2] == [0x41, 0x42];
  }

  /** With `include` and `consume` both set, the cursor steps over the
      terminator twice: on 41 00 it ends at 3, past the end of the
      two-byte view, where the stream holds nothing more to skip. */
  lemma {:induction false} ReadTermOverrun()
    ensures ReadTerm([0x41, 0x00], 0, 0x00, true, true, false) == ByteOutcome(Success([0x41, 0x00]), 3)
    ensures ReadTerm([0x41, 0x00, 0x42], 0, 0x00, true, true, false).pos == 3
  {
    var view: seq<bv8> := [0x41, 0x00];
    assert view[0..] == view;
    FirstIndexUnique(view, 0x00, 1);
    assert view[0..2] == view;
    var longer: seq<bv8> := [0x41, 0x00, 0x42];
    assert longer[0..] == longer;
    FirstIndexUnique(longer, 0x00, 1);
  }

  /** The terminator scan with the cursor as evidently intended: taking
      the terminator into the result already steps over it, so `consume`
      steps over it only when it was left out; the cursor ends just past
      the terminator when either flag is set, and on it otherwise. */
  function ReadTermIntended(view: seq<bv8>, pos: nat, term: bv8, includeTerm: bool, consume: bool, eosError: bool): ByteOutcome
    requires pos <= |view|
  {
    var rest := view[pos..];
    var i := FirstIndex(rest, term);
    if i == |rest| then
      if eosError then ByteOutcome(Failure(MissingTerminator(term)), pos)
      else ByteOutcome(Success(rest), |view|)
    else
      var len := if includeTerm then i + 1 else i;
      ByteOutcome(Success(view[pos..pos + len]), pos + i + (if includeTerm || consume then 1 else 0))
  }

  /** The intended scan returns what the code returns, never moves the
      cursor past the end of the view, and skips exactly the bytes before
      the terminator and, with either flag, the terminator itself; it parts
      from the code exactly when `include` and `consume` are both set and
      the terminator is found. */
  lemma {:induction false} ReadTermIntendedSpec(view: seq<bv8>, pos: nat, term: bv8, includeTerm: bool, consume: bool, eosError: bool)
    requires pos <= |view|
    ensures var o := ReadTermIntended(view, pos, term, includeTerm, consume, eosError);
      var w := ReadTerm(view, pos, term, includeTerm, consume, eosError);
      var rest := view[pos..];
      && o.result == w.result
      && pos <= o.pos <= |view|
      && (term in rest ==> o.pos == pos + FirstIndex(rest, term) + (if includeTerm || consume then 1 else 0))
      && (o.pos != w.pos <==> term in rest && includeTerm && consume)
  {
    var rest := view[pos..];
    TerminateSpec(rest, term, includeTerm);
    if term in rest {
      assert FirstIndex(rest, term) < |rest|;
    } else {
      assert FirstIndex(rest, term) == |rest|;
    }
  }

  /** `ensureFixedContents(expected)` at `pos`: read `expected.length`
      bytes, which moves the cursor, then compare them with `expected`. */
  function FixedContents(view: seq<bv8>, pos: nat, expected: seq<bv8>): ByteOutcome
  {
    match Take(view, pos, |expected|)
    case Failure(e) => ByteOutcome(Failure(e), pos)
    case Success(actual) =>
      if actual == expected then ByteOutcome(Success(actual), pos + |expected|)
      else ByteOutcome(Failure(UnexpectedData(expected, actual)), pos + |expected|)
  }

  /** The check passes exactly when the next bytes are `expected`, and
      returns them; a short view fails with EOF and the cursor unmoved; a
      mismatch fails with both byte strings, after the cursor has moved. */
  lemma {:induction false} FixedContentsSpec(view: seq<bv8>, pos: nat, expected: seq<bv8>)
    ensures var o := FixedContents(view, pos, expected);
      && (o.result.Success? <==> pos + |expected| <= |view| && view[pos..pos + |expected|] == expected)
      && (o.result.Success? ==> o == ByteOutcome(Success(expected), pos + |expected|))
      && (pos + |expected| > |view| ==> o == ByteOutcome(Failure(EOF(|expected|, |view| - pos)), pos))
      && (pos + |expected| <= |view| && view[pos..pos + |expected|] != expected ==>
            o == ByteOutcome(Failure(UnexpectedData(expected, view[pos..pos + |expected|])), pos + |expected|))
  {
  }
}
