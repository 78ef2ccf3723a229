/** The bit reader: hands out the bits of a byte buffer one at a time,
    most significant first, and reports the end of the stream.

    A `Reader` holds the bytes not yet started (`buffer`), the byte being
    read with its unread bits left-aligned (`current`) and how many of its
    bits are unread (`pos`). `Remaining` is the bit string still to come. */
module BitReader {
  import opened Bits
  import opened Wrappers

  datatype Reader = Reader(buffer: seq<Byte>, current: Byte, pos: nat)

  predicate Valid(r: Reader)
  {
    r.pos <= 8
  }

  /** The bits `get_bit` will still return, in order. */
  function Remaining(r: Reader): seq<bool>
    requires Valid(r)
  {
    ByteBits(r.current)[..r.pos] + Flatten(r.buffer)
  }

  lemma {:induction false} FlattenFront(b: Byte, rest: seq<Byte>)
    ensures Flatten([b] + rest) == ByteBits(b) + Flatten(rest)
  {
    FlattenAppend([b], rest);
    assert Flatten([b]) == ByteBits(b) by {
      assert [b][..0] == [];
    }
  }

  /** Taking the top bit of the current byte and shifting it out. */
  lemma UnreadBitsStep(c: Byte, p: nat)
    requires 1 <= p <= 8
    ensures ByteBits(c)[..p] == [c >= 128] + ByteBits((2 * c) % 256)[..p - 1]
  {
    ByteShiftLeft(c);
  }

  lemma ShiftStep(buffer: seq<Byte>, c: Byte, p: nat)
    requires 1 <= p <= 8
    ensures [c >= 128] + Remaining(Reader(buffer, (2 * c) % 256, p - 1))
         == Remaining(Reader(buffer, c, p))
  {
    UnreadBitsStep(c, p);
  }

  /** Reading a bit from a reader that still has `all[i..]` to give. */
  lemma ReadStep(all: seq<bool>, r: Reader, i: nat)
    requires Valid(r) && i < |all| && Remaining(r) == all[i..]
    ensures GetBit(r).0 == Some(all[i])
    ensures Remaining(GetBit(r).1) == all[i + 1..]
  {
    var step := GetBit(r);
    SplitFront(all[i..], [step.0.value], Remaining(step.1));
    assert all[i..][1..] == all[i + 1..];
  }

  lemma SplitFront(s: seq<bool>, a: seq<bool>, b: seq<bool>)
    requires |a| == 1 && s == a + b
    ensures s[0] == a[0] && s[1..] == b
  {
  }

  /** One more bit shifted into the `u8` being composed. */
  lemma AccumulateBit(bs: seq<bool>, i: nat)
    requires i < 8 <= |bs|
    ensures (BitsValue(bs[..i]) * 2) % 256 == BitsValue(bs[..i]) * 2
    ensures BitsValue(bs[..i]) * 2 + 1 < 256
    ensures BitsValue(bs[..i + 1]) == BitsValue(bs[..i]) * 2 + (if bs[i] then 1 else 0)
  {
    assert bs[..i + 1][..i] == bs[..i];
    ValueFits(bs[..i], 7);
    assert Pow2(7) == 128;
  }

  /** `BitReader::new`: refuses an empty buffer. */
  function New(buffer: seq<Byte>): (r: Result<Reader>)
    ensures r.Err? <==> buffer == []
    ensures r.Err? ==> r.error == "buffer length can't be zero"
    ensures r.Ok? ==> Valid(r.value) && r.value.pos == 0
    ensures r.Ok? ==> Remaining(r.value) == Flatten(buffer)
  {
    if |buffer| == 0 then Err("buffer length can't be zero")
    else Ok(Reader(buffer, 0, 0))
  }

  /** `is_empyt`: no byte left to start and no unread bit in the current one. */
  function IsEmpty(r: Reader): (empty: bool)
    ensures Valid(r) ==> (empty <==> Remaining(r) == [])
  {
    |r.buffer| == 0 && r.pos == 0
  }

  /** `get_bit`: the next bit, starting a new byte from the front of the
      buffer when the current one is used up; `None` at the end. */
  function GetBit(r: Reader): (res: (Option<bool>, Reader))
    requires Valid(r)
    ensures Valid(res.1)
    ensures res.0.None? <==> Remaining(r) == []
    ensures res.0.None? ==> res.1 == r
    ensures res.0.Some? ==> [res.0.value] + Remaining(res.1) == Remaining(r)
  {
    if IsEmpty(r) then (None, r)
    else
      var loaded := if r.pos == 0 then Load(r) else r;
      (Some(loaded.current >= 128), Shift(loaded))
  }

  /** Starting the front byte of the buffer: all eight of its bits unread. */
  function Load(r: Reader): (loaded: Reader)
    requires Valid(r) && r.pos == 0 && r.buffer != []
    ensures Valid(loaded) && loaded.pos == 8
    ensures Remaining(loaded) == Remaining(r)
  {
    FlattenFront(r.buffer[0], r.buffer[1..]);
    assert r.buffer == [r.buffer[0]] + r.buffer[1..];
    Reader(r.buffer[1..], r.buffer[0], 8)
  }

  /** Handing out the top bit of the current byte (`& 0x80`) and shifting
      it out of the `u8`. */
  function Shift(r: Reader): (next: Reader)
    requires Valid(r) && r.pos > 0
    ensures Valid(next)
    ensures [r.current >= 128] + Remaining(next) == Remaining(r)
  {
    ShiftStep(r.buffer, r.current, r.pos);
    Reader(r.buffer, (2 * r.current) % 256, r.pos - 1)
  }

  /** Reading a fresh reader to the end: exactly the buffer's bits, eight
      per byte, followed by the end signal. */
  method ReadAll(buffer: seq<Byte>) returns (bits: Result<seq<bool>>)
    ensures bits.Err? <==> buffer == []
    ensures bits.Ok? ==> bits.value == Flatten(buffer)
    ensures bits.Ok? ==> |bits.value| == 8 * |buffer|
  {
    var started := New(buffer);
    if started.Err? {
      return Err(started.error);
    }
    var r := started.value;
    var read: seq<bool> := [];
    var step := GetBit(r);
    while step.0.Some?
      invariant Valid(r) && step == GetBit(r)
      invariant read + Remaining(r) == Flatten(buffer)
      decreases |Remaining(r)|
    {
      read := read + [step.0.value];
      r := step.1;
      step := GetBit(r);
    }
    assert Remaining(r) == [];
    bits := Ok(read);
  }

  /** `get_byte`: eight bits composed most significant first. It returns
      `None` only when no byte is left to start, even if bits of the
      current byte are unread. */
  method GetByte(r: Reader) returns (b: Option<Byte>, r': Reader)
    requires Valid(r)
    ensures r.buffer == [] ==> b == None && r' == r
    ensures r.buffer != [] ==> |Remaining(r)| >= 8 && b.Some? && Valid(r')
    ensures r.buffer != [] ==> ByteBits(b.value) == Remaining(r)[..8]
    ensures r.buffer != [] ==> Remaining(r') == Remaining(r)[8..]
  {
    if |r.buffer| == 0 {
      return None, r;
    }
    var result: Byte := 0;
    r' := r;
    assert |Remaining(r)| >= 8;
    for i := 0 to 8
      invariant Valid(r')
      invariant Remaining(r') == Remaining(r)[i..]
      invariant result == BitsValue(Remaining(r)[..i])
    {
      var step := GetBit(r');
      ReadStep(Remaining(r), r', i);
      AccumulateBit(Remaining(r), i);
      result := (result * 2) % 256;
      r' := step.1;
      if step.0.value {
        result := result + 1;
      }
    }
    ToBitsOfValue(Remaining(r)[..8]);
    b := Some(result);
  }
}
