/** The bit writer: packs bits most-significant-first into bytes, can take
    back the last bit, and can hand out its bytes zero-padded to a byte
    boundary.

    A `Writer` holds the completed bytes (`buffer`), the pending bits of the
    byte being assembled (`current`, right-aligned) and their number (`pos`).
    `Contents` is the bit string a writer stands for. */
module BitWriter {
  import opened Bits

  datatype Writer = Writer(buffer: seq<Byte>, current: Byte, pos: nat)

  /** The states the corrected operations keep: fewer than eight pending
      bits, and no bit of `current` set above position `pos`. The source's
      own `delete_last_bit` can leave them (`DeleteAfterFullByteLosesBit`);
      its operations need only `pos < 8`, which every one of them keeps. */
  predicate Valid(w: Writer)
  {
    w.pos < 8 && w.current < Pow2(w.pos)
  }

  /** The bits written so far, oldest first. */
  function Contents(w: Writer): seq<bool>
  {
    Flatten(w.buffer) + ToBits(w.current, w.pos)
  }

  /** The bit string without its last bit; the empty string stays empty. */
  function DropLast(bs: seq<bool>): seq<bool>
  {
    if bs == [] then [] else bs[..|bs| - 1]
  }

  lemma DropLastPush(bs: seq<bool>, b: bool)
    ensures DropLast(bs + [b]) == bs
  {
    assert (bs + [b])[..|bs|] == bs;
  }

  /** A valid writer is determined by the bits it holds. */
  lemma ContentsInjective(a: Writer, b: Writer)
    requires Valid(a) && Valid(b) && Contents(a) == Contents(b)
    ensures a == b
  {
    var n := |Contents(a)|;
    assert |a.buffer| == n / 8 && |b.buffer| == n / 8;
    assert Flatten(a.buffer) == Contents(a)[..8 * |a.buffer|];
    assert Flatten(b.buffer) == Contents(b)[..8 * |b.buffer|];
    FlattenInjective(a.buffer, b.buffer);
    assert ToBits(a.current, a.pos) == Contents(a)[8 * |a.buffer|..];
    assert ToBits(b.current, b.pos) == Contents(b)[8 * |b.buffer|..];
    ValueOfToBits(a.current, a.pos);
    ValueOfToBits(b.current, b.pos);
  }

  function New(): (w: Writer)
    ensures Valid(w) && Contents(w) == []
  {
    Writer([], 0, 0)
  }

  /** `write_bit`: shift the bit into the pending `u8` (its top bit falls
      off); the eighth bit moves the completed byte to the buffer. The bits
      held grow by exactly the written bit from any state the source can
      reach, valid or not. */
  function WriteBit(w: Writer, bit: Bit): (w': Writer)
    requires w.pos < 8
    ensures w'.pos < 8
    ensures Contents(w') == Contents(w) + [bit == 1]
    ensures Valid(w) ==> Valid(w')
    ensures |w'.buffer| == |w.buffer| + (if w.pos == 7 then 1 else 0)
  {
    // `<<= 1` drops the top bit and `| bit` fills the cleared low one.
    var current := (w.current * 2 + bit) % 256;
    var pos := w.pos + 1;
    ShiftInLow(w.current, w.pos, bit);
    assert Valid(w) ==> current < Pow2(pos) by {
      if Valid(w) {
        ShiftInBit(w.current, w.pos, bit);
        SmallMod(w.current * 2 + bit, 256);
      }
    }
    if pos == 8 then
      FlattenPush(w.buffer, current);
      Writer(w.buffer + [current], 0, 0)
    else
      Writer(w.buffer, current, pos)
  }

  lemma ShiftInBit(c: nat, p: nat, bit: Bit)
    requires p < 8 && c < Pow2(p)
    ensures c * 2 + bit < Pow2(p + 1) <= 256
    ensures ToBits(c * 2 + bit, p + 1) == ToBits(c, p) + [bit == 1]
  {
    Pow2Monotone(p + 1, 8);
    assert Pow2(8) == 256;
    DivUnique(c * 2 + bit, 2, c, bit);
  }

  /** The low bits of a `u8` after shifting a bit in are the old low bits
      followed by that bit. */
  lemma ShiftInLow(c: nat, p: nat, bit: Bit)
    requires p < 8
    ensures ToBits((c * 2 + bit) % 256, p + 1) == ToBits(c, p) + [bit == 1]
  {
    LowBitsOfByte(c * 2 + bit, p + 1);
    DivUnique(c * 2 + bit, 2, c, bit);
  }

  /** Truncating to a `u8` keeps the low eight bits. */
  lemma LowBitsOfByte(x: nat, n: nat)
    requires n <= 8
    ensures ToBits(x % 256, n) == ToBits(x, n)
  {
    var k := (x / 256) * Pow2(8 - n);
    Pow2Add(n, 8 - n);
    assert Pow2(8) == 256;
    assert k * Pow2(n) == (x / 256) * 256;
    DivMod(x, 256);
    ToBitsAddHigh(x % 256, k, n);
  }

  lemma FlattenPush(buffer: seq<Byte>, b: Byte)
    ensures Flatten(buffer + [b]) == Flatten(buffer) + ByteBits(b)
  {
    assert (buffer + [b])[..|buffer|] == buffer;
  }

  /** `write_bits`: the low `len` bits of `bits`, most significant first,
      one `write_bit` each. */
  method WriteBits(w: Writer, bits: nat, len: nat) returns (w': Writer)
    requires Valid(w)
    requires bits < U32
    requires len <= 32
    ensures Valid(w')
    ensures Contents(w') == Contents(w) + ToBits(bits, len)
    ensures BitsValue(Contents(w')[|Contents(w)|..]) == bits % Pow2(len)
  {
    w' := w;
    var i: nat := len;
    while i > 0
      invariant i <= len
      invariant Valid(w')
      invariant Contents(w') == Contents(w) + ToBits(ShiftRight(bits, i), len - i)
    {
      i := i - 1;
      var bit := ShiftRight(bits, i) % 2;
      WriteBitsStep(w, w', bits, i, len);
      w' := WriteBit(w', bit);
    }
    WholeWindow(Contents(w), bits, i, len);
    WrittenValue(Contents(w), bits, len);
  }

  lemma WholeWindow(pre: seq<bool>, bits: nat, i: nat, len: nat)
    requires i == 0
    ensures pre + ToBits(ShiftRight(bits, i), len - i) == pre + ToBits(bits, len)
  {
    ShiftRightZero(bits);
  }

  lemma WrittenValue(pre: seq<bool>, bits: nat, len: nat)
    ensures BitsValue((pre + ToBits(bits, len))[|pre|..]) == bits % Pow2(len)
  {
    assert (pre + ToBits(bits, len))[|pre|..] == ToBits(bits, len);
    ToBitsValueMod(bits, len);
  }

  lemma WriteBitsStep(w: Writer, w': Writer, bits: nat, i: nat, len: nat)
    requires Valid(w') && i < len
    requires Contents(w') == Contents(w) + ToBits(ShiftRight(bits, i + 1), len - (i + 1))
    ensures Contents(WriteBit(w', ShiftRight(bits, i) % 2))
         == Contents(w) + ToBits(ShiftRight(bits, i), len - i)
  {
    ToBitsShiftStep(bits, i, len - (i + 1));
  }

  /** `delete_last_bit` as the source writes it. When the pending byte is
      empty it pops the last completed byte and sets the position to 7,
      then decrements the position like any other deletion, so the
      position ends at 6 while seven bits of the byte remain. */
  function DeleteLastBit(w: Writer): (w': Writer)
    requires w.pos < 8
    ensures w'.pos < 8
    ensures Contents(w) == [] ==> w' == w
    ensures w.pos > 0 ==> Contents(w') == DropLast(Contents(w))
    ensures w.pos > 0 && Valid(w) ==> Valid(w')
    ensures w.pos == 0 && w.buffer != [] ==>
      w' == Writer(w.buffer[..|w.buffer| - 1], w.buffer[|w.buffer| - 1] / 2, 6)
    ensures w.pos == 0 && w.buffer != [] ==> |Contents(w')| == |Contents(w)| - 2
  {
    if w.pos == 0 && |w.buffer| == 0 then w
    else
      var current := if w.pos == 0 then w.buffer[|w.buffer| - 1] else w.current;
      var buffer := if w.pos == 0 then w.buffer[..|w.buffer| - 1] else w.buffer;
      var pos := if w.pos == 0 then 7 else w.pos;
      Writer(buffer, current / 2, pos - 1)
  }

  /** `delete_last_bit` with the popped byte counted as eight pending bits,
      so that one deletion removes exactly one bit. */
  function DeleteLastBitFixed(w: Writer): (w': Writer)
    requires Valid(w)
    ensures Valid(w')
    ensures Contents(w') == DropLast(Contents(w))
  {
    if w.pos == 0 && |w.buffer| == 0 then w
    else
      var current := if w.pos == 0 then w.buffer[|w.buffer| - 1] else w.current;
      var buffer := if w.pos == 0 then w.buffer[..|w.buffer| - 1] else w.buffer;
      var pos := if w.pos == 0 then 8 else w.pos;
      assert w.pos == 0 ==> w.buffer == buffer + [current];
      assert current < Pow2(pos) by {
        assert Pow2(8) == 256;
      }
      assert ToBits(current, pos) == ToBits(current / 2, pos - 1) + [current % 2 == 1];
      Writer(buffer, current / 2, pos - 1)
  }

  /** Undo restores the exact state before any write. */
  lemma DeleteUndoesWrite(w: Writer, bit: Bit)
    requires Valid(w)
    ensures DeleteLastBitFixed(WriteBit(w, bit)) == w
  {
    ContentsInjective(DeleteLastBitFixed(WriteBit(w, bit)), w);
  }

  /** The source's deletion is exact while the write did not complete a byte. */
  lemma DeleteUndoesWriteWithinByte(w: Writer, bit: Bit)
    requires Valid(w) && w.pos < 7
    ensures DeleteLastBit(WriteBit(w, bit)) == w
  {
    ContentsInjective(DeleteLastBit(WriteBit(w, bit)), w);
  }

  /** The source's deletion and the fixed one differ only after a byte was
      completed. */
  lemma DeleteLastBitAgrees(w: Writer)
    requires Valid(w) && (w.pos > 0 || w.buffer == [])
    ensures DeleteLastBit(w) == DeleteLastBitFixed(w)
  {
    ContentsInjective(DeleteLastBit(w), DeleteLastBitFixed(w));
  }

  /** Eight one-bits then one deletion: the source's writer ends with the
      seven remaining bits at position 6, an invalid state that reports six
      bits, so undoing the eighth write does not restore the writer. */
  lemma DeleteAfterFullByteLosesBit()
    ensures WriteBit(Writer([], 127, 7), 1) == Writer([255], 0, 0)
    ensures DeleteLastBit(Writer([255], 0, 0)) == Writer([], 127, 6)
    ensures !Valid(Writer([], 127, 6))
    ensures DeleteLastBitFixed(Writer([255], 0, 0)) == Writer([], 127, 7)
  {
    assert Pow2(6) == 64 && Pow2(7) == 128;
  }

  /** `get_bits` as the source writes it: the whole pending byte when the
      buffer is empty, and otherwise only the completed bytes, shifted
      together in a `u32`. */
  function GetBits(w: Writer): (r: nat)
    ensures r < U32
    ensures w.buffer == [] ==> r == BitsValue(ByteBits(w.current))
    ensures w.buffer == [] && Valid(w) ==> r == BitsValue(Contents(w))
    ensures w.buffer != [] ==> r == BitsValue(Flatten(w.buffer)) % U32
  {
    if |w.buffer| == 0 then
      PendingValue(w);
      w.current
    else
      BytesValue(w.buffer) % U32
  }

  /** With no completed byte, the pending byte read whole is its value, and
      for a valid writer it is the value of the bits held. */
  lemma PendingValue(w: Writer)
    requires w.buffer == []
    ensures w.current < U32
    ensures w.current == BitsValue(ByteBits(w.current))
    ensures Valid(w) ==> w.current == BitsValue(Contents(w))
  {
    assert Pow2(8) == 256;
    ValueOfToBits(w.current, 8);
    if Valid(w) {
      assert Contents(w) == ToBits(w.current, w.pos);
      ValueOfToBits(w.current, w.pos);
    }
  }

  /** `get_bits` with the pending bits shifted in after the completed
      bytes, so that it reports every bit written. */
  function GetBitsFixed(w: Writer): (r: nat)
    requires Valid(w)
    ensures r == BitsValue(Contents(w)) % U32
  {
    ContentsValue(w);
    (BytesValue(w.buffer) * Pow2(w.pos) + w.current) % U32
  }

  /** Up to 32 bits held, the corrected reading is exactly their value. */
  lemma GetBitsFixedExact(w: Writer)
    requires Valid(w) && |Contents(w)| <= 32
    ensures GetBitsFixed(w) == BitsValue(Contents(w))
  {
    ValueFits(Contents(w), 32);
    U32IsPow2();
  }

  /** The completed bytes shifted up past the pending bits, plus those
      bits, is the number the whole contents denote. */
  lemma ContentsValue(w: Writer)
    requires Valid(w)
    ensures BytesValue(w.buffer) * Pow2(w.pos) + w.current == BitsValue(Contents(w))
  {
    BitsValueAppend(Flatten(w.buffer), ToBits(w.current, w.pos));
    ValueOfToBits(w.current, w.pos);
  }

  /** Nine bits, the last one set: the source's `get_bits` reports 0, the
      completed byte alone. */
  lemma GetBitsDropsPendingBits()
    ensures Valid(Writer([0], 1, 1))
    ensures BitsValue(Contents(Writer([0], 1, 1))) == 1
    ensures GetBits(Writer([0], 1, 1)) == 0
    ensures GetBitsFixed(Writer([0], 1, 1)) == 1
  {
    assert BytesValue([0]) == 0;
  }

  /** The two readings agree while at most one byte's worth is held. */
  lemma GetBitsAgrees(w: Writer)
    requires Valid(w) && (w.buffer == [] || w.pos == 0)
    requires |Contents(w)| <= 32
    ensures GetBits(w) == GetBitsFixed(w)
  {
    if w.pos == 0 {
      assert Contents(w) == Flatten(w.buffer);
    }
  }

  /** `get_len`: the byte count times eight, truncated to `u8`, plus the
      pending bit count. */
  function GetLen(w: Writer): (r: nat)
    requires w.pos < 8
    ensures r == |Contents(w)| % 256
    ensures r < 256
  {
    LenWraps(|w.buffer|, w.pos);
    (|w.buffer| * 8) % 256 + w.pos
  }

  /** Wrapping the bit count of the completed bytes and then adding the
      pending bits is wrapping the whole count. */
  lemma LenWraps(n: nat, p: nat)
    requires p < 8
    ensures (n * 8) % 256 + p == (n * 8 + p) % 256
    ensures (n * 8) % 256 + p < 256
  {
    var q, s := n / 32, n % 32;
    DivMod(n, 32);
    assert n * 8 == q * 256 + s * 8;
    DivUnique(n * 8, 256, q, s * 8);
    DivUnique(n * 8 + p, 256, q, s * 8 + p);
  }

  /** The pending bits left-aligned in a byte, zeros below them. */
  function PaddedByte(w: Writer): (b: Byte)
    requires Valid(w) && w.pos > 0
    ensures ByteBits(b) == ToBits(w.current, w.pos) + Zeros(8 - w.pos)
    ensures ShiftRight(b, 8 - w.pos) == w.current
  {
    var k := 8 - w.pos;
    var shifted := w.current * Pow2(k);
    PadStep(w.current, w.pos, k);
    SmallMod(shifted, 256);
    shifted % 256
  }

  lemma PadStep(c: nat, p: nat, k: nat)
    requires 0 < p && p + k == 8 && c < Pow2(p)
    ensures c * Pow2(k) < 256
    ensures ToBits(c * Pow2(k), 8) == ToBits(c, p) + Zeros(k)
    ensures ShiftRight(c * Pow2(k), k) == c
  {
    ShiftLeftFits(c, p, k);
    assert Pow2(8) == 256;
    ToBitsShiftLeft(c, p, k);
  }

  /** `clone_bits_buffer`: the bytes written so far with the pending bits
      zero-padded into one more byte; the writer is left as it was (the
      source shifts the pending byte left and back). */
  function CloneBitsBuffer(w: Writer): (r: (seq<Byte>, Writer))
    requires Valid(w)
    ensures r.1 == w
    ensures |r.0| == (|Contents(w)| + 7) / 8
    ensures Flatten(r.0) == Contents(w) + Zeros(8 * |r.0| - |Contents(w)|)
  {
    if w.pos > 0 then
      var shifted := PaddedByte(w);
      assert Flatten(w.buffer + [shifted]) == Flatten(w.buffer) + ByteBits(shifted);
      (w.buffer + [shifted], w.(current := ShiftRight(shifted, 8 - w.pos)))
    else
      assert Zeros(0) == [];
      (w.buffer, w)
  }

  /** `get_bits_buffer`: the same bytes as `clone_bits_buffer`, after which
      the writer is empty. */
  function GetBitsBuffer(w: Writer): (r: (seq<Byte>, Writer))
    requires Valid(w)
    ensures r.0 == CloneBitsBuffer(w).0
    ensures r.1 == New()
    ensures |r.0| == (|Contents(w)| + 7) / 8
    ensures Flatten(r.0) == Contents(w) + Zeros(8 * |r.0| - |Contents(w)|)
  {
    var buffer := if w.pos > 0 then w.buffer + [PaddedByte(w)] else w.buffer;
    (buffer, Writer([], 0, 0))
  }
}
