/** The `KaitaiStream` read cursor.

    A stream holds a buffer, the window of it that is the view (from
    `byteOffset` up to `byteLength`), the cursor `pos` into the view and
    the bit accumulator `bits`/`bitsLeft` the bit readers share.  Every
    method here does what its source method does, step by step on these
    fields, and is proved to leave the result and the new state that a
    specification function of the old state gives: `Take` for the byte
    reads, `ReadInt` for the integer reads, `BeRead`/`LeRead` for the bit
    reads, `ReadTerm` and `FixedContents` for the range reads.  The
    properties those functions have are proved in their own modules. */
module Streams {
  import opened JsInt32
  import opened StreamErrors
  import opened ByteView
  import opened BitReader
  import ByteHelpers

  /** A JavaScript number as `seek` can be given it. */
  datatype JsNumber = Finite(value: int) | PosInfinity | NegInfinity | NaN

  /** `Math.min(size, x)`: NaN stays NaN. */
  function MinWith(size: nat, x: JsNumber): JsNumber
  {
    match x
    case Finite(k) => Finite(if k < size then k else size)
    case PosInfinity => Finite(size)
    case NegInfinity => NegInfinity
    case NaN => NaN
  }

  /** `Math.max(0, x)`: NaN stays NaN. */
  function MaxWithZero(x: JsNumber): JsNumber
  {
    match x
    case Finite(k) => Finite(if k > 0 then k else 0)
    case PosInfinity => PosInfinity
    case NegInfinity => Finite(0)
    case NaN => NaN
  }

  /** Where `seek(x)` puts the cursor: x clamped to [0, size], then 0 if
      that is NaN or not finite. */
  function SeekTarget(size: nat, x: JsNumber): (p: nat)
    ensures p <= size
    ensures x.Finite? && 0 <= x.value <= size ==> p == x.value
    ensures x.Finite? && x.value < 0 ==> p == 0
    ensures x.Finite? && x.value > size ==> p == size
    ensures x == PosInfinity ==> p == size
    ensures x == NegInfinity || x == NaN ==> p == 0
  {
    var npos := MaxWithZero(MinWith(size, x));
    if npos.Finite? then npos.value else 0
  }

  /** The state `alignToByte` leaves and the readers start from. */
  class KaitaiStream {
    var buffer: array<bv8>
    var byteOffset: nat
    var byteLength: nat
    var pos: nat
    var bits: Uint32
    var bitsLeft: nat

    /** The view lies in the buffer; the cursor is at most one past the
        view's end (only `readBytesTerm` can put it there); between bit
        reads fewer than 8 bits are pending. */
    predicate Valid()
      reads this
    {
      byteOffset <= byteLength <= buffer.Length && pos <= byteLength - byteOffset + 1 && bitsLeft <= 7
    }

    /** `size`: the number of bytes in the view. */
    function Size(): nat
      reads this
      requires byteOffset <= byteLength
    {
      byteLength - byteOffset
    }

    /** The bytes the stream reads. */
    function View(): (v: seq<bv8>)
      reads this, buffer
      requires Valid()
      ensures |v| == Size()
    {
      buffer[byteOffset..byteLength]
    }

    /** The bit accumulator. */
    function Accumulator(): BitState
      reads this
    {
      BitState(bits, bitsLeft)
    }

    /** What no read changes: the buffer and the window on it. */
    function Frame(): (array<bv8>, nat, nat)
      reads this
    {
      (buffer, byteOffset, byteLength)
    }

    constructor Init(data: array<bv8>, offset: nat)
      requires offset <= data.Length
      ensures Valid() && Frame() == (data, offset, data.Length)
      ensures pos == 0 && Accumulator() == Aligned
    {
      byteOffset := offset;
      buffer := data;
      byteLength := data.Length;
      pos := 0;
      bits := 0;
      bitsLeft := 0;
    }

    /** `new KaitaiStream(arrayBuffer, byteOffset)`: the view is the buffer
        from the offset on (an absent offset is 0); the DataView the setter
        builds throws a RangeError for an offset outside the buffer. */
    static method Open(data: array<bv8>, byteOffset: int) returns (r: Result<KaitaiStream>)
      ensures r.Success? <==> 0 <= byteOffset <= data.Length
      ensures r.Failure? ==> r.error == RangeError
      ensures r.Success? ==> fresh(r.value) && r.value.Valid() && r.value.buffer == data
      ensures r.Success? ==> r.value.View() == data[byteOffset..] && r.value.pos == 0
      ensures r.Success? ==> r.value.Accumulator() == Aligned
    {
      if byteOffset < 0 || byteOffset > data.Length {
        return Failure(RangeError);
      }
      var s := new KaitaiStream.Init(data, byteOffset);
      r := Success(s);
    }

    /** `new KaitaiStream(length, byteOffset)`: a fresh zero-filled buffer
        of `length || 1` bytes; a negative length is a RangeError, and so
        is an offset outside the buffer. */
    static method Allocate(length: int, byteOffset: int) returns (r: Result<KaitaiStream>)
      ensures var n := if length == 0 then 1 else length;
        r.Success? <==> n >= 0 && 0 <= byteOffset <= n
      ensures r.Failure? ==> r.error == RangeError
      ensures r.Success? ==> fresh(r.value) && fresh(r.value.buffer) && r.value.Valid()
      ensures r.Success? ==> r.value.pos == 0 && r.value.Accumulator() == Aligned
      ensures r.Success? ==> r.value.buffer.Length == (if length == 0 then 1 else length)
      ensures r.Success? ==> r.value.Frame() == (r.value.buffer, byteOffset, r.value.buffer.Length)
      ensures r.Success? ==> r.value.View() == seq(r.value.buffer.Length - byteOffset, _ => 0)
      ensures r.Success? ==> forall i | 0 <= i < |r.value.View()| :: r.value.View()[i] == 0
    {
      var n := if length == 0 then 1 else length;
      if n < 0 {
        return Failure(RangeError);
      }
      var data := new bv8[n](_ => 0);
      if byteOffset < 0 || byteOffset > n {
        return Failure(RangeError);
      }
      var s := new KaitaiStream.Init(data, byteOffset);
      assert s.View() == seq(n - byteOffset, _ => 0);
      r := Success(s);
    }

    /** `isEof()`: the cursor is at or past the end and no bits are pending,
        which is exactly when not even one bit can be read, in either bit
        order. */
    predicate IsEof()
      reads this, buffer
      requires Valid()
      ensures IsEof() <==> BeRead(View(), pos, Accumulator(), 1).result.Failure?
      ensures IsEof() <==> LeRead(View(), pos, Accumulator(), 1).result.Failure?
    {
      EofIffNoBit(View(), pos, Accumulator());
      pos >= Size() && bitsLeft == 0
    }

    /** `seek(pos)`: clamp into the view. */
    method Seek(x: JsNumber)
      requires Valid()
      modifies this
      ensures Valid() && Frame() == old(Frame()) && Accumulator() == old(Accumulator())
      ensures pos == SeekTarget(Size(), x)
    {
      pos := SeekTarget(Size(), x);
    }

    /** `_trimAlloc()`: when the buffer is longer than `byteLength`, copy
        its first `byteLength` bytes, from index 0 and not from the offset,
        into a fresh buffer of that length and install it; the view keeps
        its bytes. */
    method TrimAlloc()
      requires Valid()
      modifies this
      ensures Valid() && byteOffset == old(byteOffset) && byteLength == old(byteLength)
      ensures pos == old(pos) && Accumulator() == old(Accumulator())
      ensures buffer.Length == byteLength && buffer[..] == old(buffer[..byteLength])
      ensures View() == old(View())
      ensures old(byteLength == buffer.Length) ==> buffer == old(buffer)
      ensures old(byteLength != buffer.Length) ==> fresh(buffer)
    {
      if byteLength == buffer.Length {
        assert buffer[..] == buffer[..byteLength];
        return;
      }
      var buf := new bv8[byteLength];
      var src := buffer;
      for i := 0 to byteLength
        invariant unchanged(this)
        invariant buf[..i] == src[..i]
      {
        buf[i] := src[i];
      }
      assert buf[..] == buf[..byteLength];
      buffer := buf;
      byteLength := buf.Length;
      assert buf[byteOffset..byteLength] == src[..byteLength][byteOffset..byteLength];
    }

    /** The `buffer` getter: trim, then hand out the buffer itself. */
    method GetBuffer() returns (b: array<bv8>)
      requires Valid()
      modifies this
      ensures Valid() && byteOffset == old(byteOffset) && byteLength == old(byteLength)
      ensures pos == old(pos) && Accumulator() == old(Accumulator())
      ensures b == buffer && b[..] == old(buffer[..byteLength]) && View() == old(View())
    {
      TrimAlloc();
      b := buffer;
    }

    /** `ensureBytesLeft(length)`. */
    method EnsureBytesLeft(length: int) returns (r: Outcome)
      requires Valid()
      ensures r == BytesLeft(Size(), pos, length)
    {
      if pos + length > Size() {
        return Fail(EOF(length, Size() - pos));
      }
      r := Pass;
    }

    /** `mapUint8Array(length)`: the bounds check, the engine's refusal of
        a negative length, then the `length` bytes at the cursor, past
        which the cursor moves. */
    method MapUint8Array(length: int) returns (r: Result<seq<bv8>>)
      requires Valid()
      modifies this
      ensures Valid() && Frame() == old(Frame()) && Accumulator() == old(Accumulator())
      ensures r == Take(old(View()), old(pos), length)
      ensures pos == if r.Success? then old(pos) + length else old(pos)
    {
      var check := EnsureBytesLeft(length);
      if check.Fail? {
        return Failure(check.error);
      }
      if length < 0 {
        return Failure(RangeError);
      }
      var start := byteOffset + pos;
      var bytes := buffer[start..start + length];
      forall k | 0 <= k < length
        ensures bytes[k] == View()[pos..pos + length][k]
      {
        assert bytes[k] == buffer[start + k] == View()[pos + k];
      }
      assert bytes == View()[pos..pos + length];
      r := Success(bytes);
      pos := pos + length;
    }

    /** `readBytes(len)`. */
    method ReadBytes(len: int) returns (r: Result<seq<bv8>>)
      requires Valid()
      modifies this
      ensures Valid() && Frame() == old(Frame()) && Accumulator() == old(Accumulator())
      ensures r == Take(old(View()), old(pos), len)
      ensures pos == if r.Success? then old(pos) + len else old(pos)
    {
      r := MapUint8Array(len);
    }

    /** `readBytesFull()`: everything from the cursor to the end of the view. */
    method ReadBytesFull() returns (r: Result<seq<bv8>>)
      requires Valid()
      modifies this
      ensures Valid() && Frame() == old(Frame()) && Accumulator() == old(Accumulator())
      ensures r == Take(old(View()), old(pos), old(Size()) - old(pos))
      ensures pos == if r.Success? then old(Size()) else old(pos)
    {
      r := MapUint8Array(Size() - pos);
    }

    // -------------------------------------------------------------------
    // Fixed-width integers
    // -------------------------------------------------------------------

    /** The pattern all fourteen integer reads share: `ensureBytesLeft(w)`,
        the DataView getter at the cursor, `pos += w`. */
    method ReadInteger(w: nat, order: ByteOrder, signed: bool) returns (r: Result<int>)
      requires Valid() && w >= 1
      modifies this
      ensures Valid() && Frame() == old(Frame()) && Accumulator() == old(Accumulator())
      ensures r == ReadInt(old(View()), old(pos), w, order, signed)
      ensures pos == if r.Success? then old(pos) + w else old(pos)
    {
      var check := EnsureBytesLeft(w);
      if check.Fail? {
        return Failure(check.error);
      }
      var start := byteOffset + pos;
      assert buffer[start..start + w] == View()[pos..pos + w];
      var v := Decode(buffer[start..start + w], order, signed);
      pos := pos + w;
      r := Success(v);
    }

    method ReadS1() returns (r: Result<int>)
      requires Valid()
      modifies this
      ensures Valid() && Frame() == old(Frame()) && Accumulator() == old(Accumulator())
      ensures r == ReadInt(old(View()), old(pos), 1, BigEndian, true)
      ensures pos == if r.Success? then old(pos) + 1 else old(pos)
    {
      r := ReadInteger(1, BigEndian, true);
    }

    method ReadS2be() returns (r: Result<int>)
      requires Valid()
      modifies this
      ensures Valid() && Frame() == old(Frame()) && Accumulator() == old(Accumulator())
      ensures r == ReadInt(old(View()), old(pos), 2, BigEndian, true)
      ensures pos == if r.Success? then old(pos) + 2 else old(pos)
    {
      r := ReadInteger(2, BigEndian, true);
    }

    method ReadS4be() returns (r: Result<int>)
      requires Valid()
      modifies this
      ensures Valid() && Frame() == old(Frame()) && Accumulator() == old(Accumulator())
      ensures r == ReadInt(old(View()), old(pos), 4, BigEndian, true)
      ensures pos == if r.Success? then old(pos) + 4 else old(pos)
    {
      r := ReadInteger(4, BigEndian, true);
    }

    method ReadS8be() returns (r: Result<int>)
      requires Valid()
      modifies this
      ensures Valid() && Frame() == old(Frame()) && Accumulator() == old(Accumulator())
      ensures r == ReadInt(old(View()), old(pos), 8, BigEndian, true)
      ensures pos == if r.Success? then old(pos) + 8 else old(pos)
    {
      r := ReadInteger(8, BigEndian, true);
    }

    method ReadS2le() returns (r: Result<int>)
      requires Valid()
      modifies this
      ensures Valid() && Frame() == old(Frame()) && Accumulator() == old(Accumulator())
      ensures r == ReadInt(old(View()), old(pos), 2, LittleEndian, true)
      ensures pos == if r.Success? then old(pos) + 2 else old(pos)
    {
      r := ReadInteger(2, LittleEndian, true);
    }

    method ReadS4le() returns (r: Result<int>)
      requires Valid()
      modifies this
      ensures Valid() && Frame() == old(Frame()) && Accumulator() == old(Accumulator())
      ensures r == ReadInt(old(View()), old(pos), 4, LittleEndian, true)
      ensures pos == if r.Success? then old(pos) + 4 else old(pos)
    {
      r := ReadInteger(4, LittleEndian, true);
    }

    method ReadS8le() returns (r: Result<int>)
      requires Valid()
      modifies this
      ensures Valid() && Frame() == old(Frame()) && Accumulator() == old(Accumulator())
      ensures r == ReadInt(old(View()), old(pos), 8, LittleEndian, true)
      ensures pos == if r.Success? then old(pos) + 8 else old(pos)
    {
      r := ReadInteger(8, LittleEndian, true);
    }

    method ReadU1() returns (r: Result<int>)
      requires Valid()
      modifies this
      ensures Valid() && Frame() == old(Frame()) && Accumulator() == old(Accumulator())
      ensures r == ReadInt(old(View()), old(pos), 1, BigEndian, false)
      ensures pos == if r.Success? then old(pos) + 1 else old(pos)
    {
      r := ReadInteger(1, BigEndian, false);
    }

    method ReadU2be() returns (r: Result<int>)
      requires Valid()
      modifies this
      ensures Valid() && Frame() == old(Frame()) && Accumulator() == old(Accumulator())
      ensures r == ReadInt(old(View()), old(pos), 2, BigEndian, false)
      ensures pos == if r.Success? then old(pos) + 2 else old(pos)
    {
      r := ReadInteger(2, BigEndian, false);
    }

    method ReadU4be() returns (r: Result<int>)
      requires Valid()
      modifies this
      ensures Valid() && Frame() == old(Frame()) && Accumulator() == old(Accumulator())
      ensures r == ReadInt(old(View()), old(pos), 4, BigEndian, false)
      ensures pos == if r.Success? then old(pos) + 4 else old(pos)
    {
      r := ReadInteger(4, BigEndian, false);
    }

    method ReadU8be() returns (r: Result<int>)
      requires Valid()
      modifies this
      ensures Valid() && Frame() == old(Frame()) && Accumulator() == old(Accumulator())
      ensures r == ReadInt(old(View()), old(pos), 8, BigEndian, false)
      ensures pos == if r.Success? then old(pos) + 8 else old(pos)
    {
      r := ReadInteger(8, BigEndian, false);
    }

    method ReadU2le() returns (r: Result<int>)
      requires Valid()
      modifies this
      ensures Valid() && Frame() == old(Frame()) && Accumulator() == old(Accumulator())
      ensures r == ReadInt(old(View()), old(pos), 2, LittleEndian, false)
      ensures pos == if r.Success? then old(pos) + 2 else old(pos)
    {
      r := ReadInteger(2, LittleEndian, false);
    }

    method ReadU4le() returns (r: Result<int>)
      requires Valid()
      modifies this
      ensures Valid() && Frame() == old(Frame()) && Accumulator() == old(Accumulator())
      ensures r == ReadInt(old(View()), old(pos), 4, LittleEndian, false)
      ensures pos == if r.Success? then old(pos) + 4 else old(pos)
    {
      r := ReadInteger(4, LittleEndian, false);
    }

    method ReadU8le() returns (r: Result<int>)
      requires Valid()
      modifies this
      ensures Valid() && Frame() == old(Frame()) && Accumulator() == old(Accumulator())
      ensures r == ReadInt(old(View()), old(pos), 8, LittleEndian, false)
      ensures pos == if r.Success? then old(pos) + 8 else old(pos)
    {
      r := ReadInteger(8, LittleEndian, false);
    }

    // -------------------------------------------------------------------
    // Bit reads
    // -------------------------------------------------------------------

    /** `alignToByte()`: drop the pending bits. */
    method AlignToByte()
      requires Valid()
      modifies this
      ensures Valid() && Frame() == old(Frame()) && pos == old(pos)
      ensures Accumulator() == Aligned
    {
      bits := 0;
      bitsLeft := 0;
    }

    /** The big-endian pull loop: for each byte, `bits <<= 8`, then or the
        byte in, and count eight more pending bits. */
    method ShiftInBe(buf: seq<bv8>)
      modifies this
      ensures Frame() == old(Frame()) && pos == old(pos)
      ensures Accumulator() == BitState(BeAccumulate(old(bits), buf), old(bitsLeft) + 8 * |buf|)
    {
      for i := 0 to |buf|
        invariant Frame() == old(Frame()) && pos == old(pos)
        invariant bits == BeAccumulate(old(bits), buf[..i]) && bitsLeft == old(bitsLeft) + 8 * i
      {
        assert buf[..i + 1][..i] == buf[..i];
        bits := Shl(bits, 8);
        bits := Or(bits, buf[i] as int);
        bitsLeft := bitsLeft + 8;
      }
      assert buf[..|buf|] == buf;
    }

    /** The little-endian pull loop: for each byte, or it in above the
        pending bits, and count eight more. */
    method ShiftInLe(buf: seq<bv8>)
      modifies this
      ensures Frame() == old(Frame()) && pos == old(pos)
      ensures Accumulator() == BitState(LeAccumulate(old(bits), old(bitsLeft), buf), old(bitsLeft) + 8 * |buf|)
    {
      for i := 0 to |buf|
        invariant Frame() == old(Frame()) && pos == old(pos)
        invariant bits == LeAccumulate(old(bits), old(bitsLeft), buf[..i]) && bitsLeft == old(bitsLeft) + 8 * i
      {
        assert buf[..i + 1][..i] == buf[..i];
        bits := Or(bits, Shl(buf[i] as int, bitsLeft));
        bitsLeft := bitsLeft + 8;
      }
      assert buf[..|buf|] == buf;
    }

    /** The first half of `readBitsIntBe`: when fewer than n bits are
        pending, read the `ceil((n - bitsLeft) / 8)` bytes that lack and
        shift them in. */
    method PullBe(n: nat) returns (r: Result<seq<bv8>>)
      requires Valid()
      modifies this
      ensures Frame() == old(Frame())
      ensures r == Pull(old(View()), old(pos), old(Accumulator()), n)
      ensures r.Failure? ==> pos == old(pos) && Accumulator() == old(Accumulator())
      ensures r.Success? ==> pos == old(pos) + |r.value|
      ensures r.Success? ==>
        Accumulator() == BitState(BeAccumulate(old(bits), r.value), old(bitsLeft) + 8 * |r.value|)
    {
      var bitsNeeded := n - bitsLeft;
      if bitsNeeded <= 0 {
        return Success([]);
      }
      var bytesNeeded := (bitsNeeded + 7) / 8;
      r := ReadBytes(bytesNeeded);
      if r.Failure? {
        return;
      }
      ShiftInBe(r.value);
    }

    /** The first half of `readBitsIntLe`: when fewer than n bits are
        pending, read the `ceil((n - bitsLeft) / 8)` bytes that lack and
        or them in. */
    method PullLe(n: nat) returns (r: Result<seq<bv8>>)
      requires Valid()
      modifies this
      ensures Frame() == old(Frame())
      ensures r == Pull(old(View()), old(pos), old(Accumulator()), n)
      ensures r.Failure? ==> pos == old(pos) && Accumulator() == old(Accumulator())
      ensures r.Success? ==> pos == old(pos) + |r.value|
      ensures r.Success? ==>
        Accumulator() == BitState(LeAccumulate(old(bits), old(bitsLeft), r.value), old(bitsLeft) + 8 * |r.value|)
    {
      var bitsNeeded := n - bitsLeft;
      if bitsNeeded <= 0 {
        return Success([]);
      }
      var bytesNeeded := (bitsNeeded + 7) / 8;
      r := ReadBytes(bytesNeeded);
      if r.Failure? {
        return;
      }
      ShiftInLe(r.value);
    }

    /** The end of `readBitsIntBe`: the top n of the pending bits, which
        are then cleared from the accumulator. */
    method TakeTopBits(n: nat) returns (res: Uint32)
      requires n <= bitsLeft
      modifies this
      ensures Frame() == old(Frame()) && pos == old(pos)
      ensures var mask := if n == 32 then 0xffff_ffff else LowMask(n);
        res == And(ShrU(old(bits), old(bitsLeft) - n), mask)
      ensures Accumulator() == BitState(And(old(bits), LowMask(old(bitsLeft) - n)), old(bitsLeft) - n)
    {
      var mask := if n == 32 then 0xffff_ffff else LowMask(n);
      var shiftBits := bitsLeft - n;
      res := And(ShrU(bits, shiftBits), mask);
      bitsLeft := bitsLeft - n;
      mask := LowMask(bitsLeft);
      bits := And(bits, mask);
    }

    /** The end of `readBitsIntLe`: the low n of the pending bits, which
        are then shifted out of the accumulator. */
    method TakeLowBits(n: nat) returns (res: Uint32)
      requires n <= bitsLeft
      modifies this
      ensures Frame() == old(Frame()) && pos == old(pos)
      ensures var mask := if n == 32 then 0xffff_ffff else LowMask(n);
        res == And(old(bits), mask)
      ensures Accumulator() == BitState(ShrU(old(bits), n), old(bitsLeft) - n)
    {
      var mask := if n == 32 then 0xffff_ffff else LowMask(n);
      res := And(bits, mask);
      bits := ShrU(bits, n);
      bitsLeft := bitsLeft - n;
    }

    /** `readBitsIntBe(n)`: refuse n > 32; pull the bytes the pending bits
        lack, shifting each in below them; return the top n pending bits
        and keep the rest. */
    method ReadBitsIntBe(n: nat) returns (r: Result<int>)
      requires Valid()
      modifies this
      ensures Valid() && Frame() == old(Frame())
      ensures BitOutcome(r, pos, Accumulator()) == BeRead(old(View()), old(pos), old(Accumulator()), n)
    {
      if n > 32 {
        return Failure(BitWidthExceeded(n));
      }
      ghost var view, pos0, st := View(), pos, Accumulator();
      var pulled := PullBe(n);
      if pulled.Failure? {
        return Failure(pulled.error);
      }
      PulledEnough(st, n, pulled.value);
      BeReadShape(view, pos0, st, n);
      BeStepParts(st, n, pulled.value);
      assert bitsLeft - n == st.bitsLeft + 8 * |pulled.value| - n;
      var res := TakeTopBits(n);
      r := Success(ToInt32(res));
    }

    /** `readBitsIntLe(n)`: refuse n > 32; pull the bytes the pending bits
        lack, or-ing each in above them; return the low n pending bits and
        shift them out. */
    method ReadBitsIntLe(n: nat) returns (r: Result<int>)
      requires Valid()
      modifies this
      ensures Valid() && Frame() == old(Frame())
      ensures BitOutcome(r, pos, Accumulator()) == LeRead(old(View()), old(pos), old(Accumulator()), n)
    {
      if n > 32 {
        return Failure(BitWidthExceeded(n));
      }
      ghost var view, pos0, st := View(), pos, Accumulator();
      var pulled := PullLe(n);
      if pulled.Failure? {
        return Failure(pulled.error);
      }
      PulledEnough(st, n, pulled.value);
      LeReadShape(view, pos0, st, n);
      LeStepParts(st, n, pulled.value);
      var res := TakeLowBits(n);
      r := Success(ToInt32(res));
    }

    // -------------------------------------------------------------------
    // Byte ranges
    // -------------------------------------------------------------------

    /** The scan of `readBytesTerm`: step over the first `blen` bytes of the
        buffer from `start` while they are not the terminator. */
    method ScanFor(start: nat, blen: nat, term: bv8) returns (i: nat)
      requires start + blen <= buffer.Length
      ensures i == ByteHelpers.FirstIndex(buffer[start..start + blen], term)
    {
      ghost var data := buffer[start..start + blen];
      i := 0;
      while i < blen && buffer[start + i] != term
        invariant i <= blen
        invariant forall j | 0 <= j < i :: data[j] != term
      {
        i := i + 1;
      }
      ByteHelpers.FirstIndexUnique(data, term, i);
    }

    /** `readBytesTerm(terminator, include, consume, eosError)`: scan the
        rest of the buffer from the cursor for the terminator, then take
        the bytes before it (and it, with `include`) and, with `consume`,
        step over it. */
    method ReadBytesTerm(term: bv8, includeTerm: bool, consume: bool, eosError: bool) returns (r: Result<seq<bv8>>)
      requires Valid()
      modifies this
      ensures Valid() && Frame() == old(Frame()) && Accumulator() == old(Accumulator())
      ensures old(pos) <= old(Size()) ==>
        ByteOutcome(r, pos) == ReadTerm(old(View()), old(pos), term, includeTerm, consume, eosError)
      ensures old(pos) > old(Size()) ==> r.Failure? && pos == old(pos)
    {
      var blen := Size() - pos;
      if byteOffset + pos > buffer.Length {
        return Failure(RangeError);
      }
      if blen < 0 {
        r := MapUint8Array(if includeTerm then 1 else 0);
        return;
      }
      ghost var view, pos0 := View(), pos;
      ReadTermByTake(view, pos0, term, includeTerm, consume, eosError);
      var start := byteOffset + pos;
      assert buffer[start..start + blen] == view[pos0..];
      var i := ScanFor(start, blen, term);
      r := TakeScanned(i, term, includeTerm, consume, eosError);
    }

    /** The end of `readBytesTerm` once the scan has stopped at offset i:
        without a terminator, throw or map everything; with one, map the
        bytes before it (and it, with `include`), then step over it with
        `consume`. */
    method TakeScanned(i: nat, term: bv8, includeTerm: bool, consume: bool, eosError: bool) returns (r: Result<seq<bv8>>)
      requires Valid() && pos + i <= Size()
      modifies this
      ensures Valid() && Frame() == old(Frame()) && Accumulator() == old(Accumulator())
      ensures old(pos) + i == old(Size()) && eosError ==> r == Failure(MissingTerminator(term)) && pos == old(pos)
      ensures old(pos) + i == old(Size()) && !eosError ==>
        r == Take(old(View()), old(pos), i) && pos == old(pos) + i
      ensures old(pos) + i < old(Size()) ==>
        var len := if includeTerm then i + 1 else i;
        r == Take(old(View()), old(pos), len) && pos == old(pos) + len + (if consume then 1 else 0)
    {
      var blen := Size() - pos;
      if i == blen {
        if eosError {
          return Failure(MissingTerminator(term));
        }
        r := MapUint8Array(i);
      } else {
        if includeTerm {
          r := MapUint8Array(i + 1);
        } else {
          r := MapUint8Array(i);
        }
        if consume {
          pos := pos + 1;
        }
      }
    }

    /** `ensureFixedContents(expected)`: read `expected.length` bytes, then
        compare them byte by byte.  The source's length comparison cannot
        fail, as the read returns exactly that many bytes, and is omitted. */
    method EnsureFixedContents(expected: seq<bv8>) returns (r: Result<seq<bv8>>)
      requires Valid()
      modifies this
      ensures Valid() && Frame() == old(Frame()) && Accumulator() == old(Accumulator())
      ensures ByteOutcome(r, pos) == FixedContents(old(View()), old(pos), expected)
    {
      var read := ReadBytes(|expected|);
      if read.Failure? {
        return Failure(read.error);
      }
      var actual := read.value;
      var actLen := |actual|;
      for i := 0 to actLen
        invariant actual[..i] == expected[..i]
      {
        if actual[i] != expected[i] {
          return Failure(UnexpectedData(expected, actual));
        }
        assert actual[..i + 1] == actual[..i] + [actual[i]];
        assert expected[..i + 1] == expected[..i] + [expected[i]];
      }
      assert actual == actual[..actLen] && expected == expected[..actLen];
      r := Success(actual);
    }
  }

  /** BeStep taken apart into the statements of `readBitsIntBe`. */
  lemma {:induction false} BeStepParts(st: BitState, n: nat, buf: seq<bv8>)
    requires StepArgs(st, n, buf)
    ensures var left := st.bitsLeft + 8 * |buf|;
      var acc := BeAccumulate(st.bits, buf);
      var mask := if n == 32 then 0xffff_ffff else LowMask(n);
      n <= left &&
      BeStep(st, n, buf) ==
        BitStep(ToInt32(And(ShrU(acc, left - n), mask)), BitState(And(acc, LowMask(left - n)), left - n))
  {
    PulledEnough(st, n, buf);
  }

  /** LeStep taken apart into the statements of `readBitsIntLe`. */
  lemma {:induction false} LeStepParts(st: BitState, n: nat, buf: seq<bv8>)
    requires StepArgs(st, n, buf)
    ensures var left := st.bitsLeft + 8 * |buf|;
      var acc := LeAccumulate(st.bits, st.bitsLeft, buf);
      var mask := if n == 32 then 0xffff_ffff else LowMask(n);
      n <= left &&
      LeStep(st, n, buf) == BitStep(ToInt32(And(acc, mask)), BitState(ShrU(acc, n), left - n))
  {
    PulledEnough(st, n, buf);
  }

  // ---------------------------------------------------------------------
  // Properties of the stream state
  // ---------------------------------------------------------------------

  /** The stream is at its end exactly when not even one bit can be read:
      a one-bit read in either bit order fails exactly at EOF. */
  lemma {:induction false} EofIffNoBit(view: seq<bv8>, pos: nat, st: BitState)
    requires pos <= |view| + 1 && st.bitsLeft <= 7
    ensures (pos >= |view| && st.bitsLeft == 0) <==> BeRead(view, pos, st, 1).result.Failure?
    ensures (pos >= |view| && st.bitsLeft == 0) <==> LeRead(view, pos, st, 1).result.Failure?
  {
    ReadFails(view, pos, st, 1);
    assert |Rest(view, pos)| == if pos <= |view| then |view| - pos else 0;
  }

  /** At EOF every byte read of at least one byte fails with EOF. */
  lemma {:induction false} EofNoBytes(view: seq<bv8>, pos: nat, len: int)
    requires pos >= |view| && len >= 1
    ensures Take(view, pos, len) == Failure(EOF(len, |view| - pos))
  {
  }
}
