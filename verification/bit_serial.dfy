/** An independent reference for the M17 CRC: the textbook bit-serial
    shift register. The message is read as a stream of bits, each byte
    most-significant bit first, and every bit clocks the register once;
    the polynomial is fed back when the bit leaving the top of the
    register differs from the incoming message bit.

    `CrcIsBitSerial` proves that the byte-at-a-time `CrcSpec.Crc` computes
    exactly this register. */
module BitSerial {
  import opened CrcSpec

  /** One clock of the bit-serial register with message bit `bit`. */
  function BitStep(r: bv16, bit: bool): bv16
  {
    if TopBit(r) != bit then (r << 1) ^ Poly else r << 1
  }

  /** Clock the register once per bit of `bits`, first bit first. */
  function BitFold(r: bv16, bits: seq<bool>): bv16
    decreases |bits|
  {
    if |bits| == 0 then r else BitFold(BitStep(r, bits[0]), bits[1..])
  }

  /** The eight bits of a byte in transmission order: most significant first. */
  function ByteBits(b: bv8): (bits: seq<bool>)
    ensures |bits| == 8
  {
    [b & 0x80 != 0, b & 0x40 != 0, b & 0x20 != 0, b & 0x10 != 0,
     b & 0x08 != 0, b & 0x04 != 0, b & 0x02 != 0, b & 0x01 != 0]
  }

  /** The bit stream of a message: the bits of each byte, byte by byte. */
  function MessageBits(s: seq<bv8>): (bits: seq<bool>)
    ensures |bits| == 8 * |s|
    decreases |s|
  {
    if |s| == 0 then [] else ByteBits(s[0]) + MessageBits(s[1..])
  }

  // ---------------------------------------------------------------------
  // One byte, split into a clocked part and a pending part.

  /** The bits of byte `b` not yet clocked in after `k` of its bits:
      they sit in the top `8 - k` bits of a 16-bit word. */
  function Pending(b: bv8, k: nat): bv16
  {
    if k < 8 then (b as bv16) << (8 + k) else 0
  }

  /** The bit-serial register after clocking in the first `k` bits of `b`,
      each taken from the top of the pending word. */
  function Clocked(r: bv16, b: bv8, k: nat): bv16
    decreases k
  {
    if k == 0 then r else BitStep(Clocked(r, b, k - 1), TopBit(Pending(b, k - 1)))
  }

  /** The byte-at-a-time register after `k` of the eight steps that
      consume byte `b`: the clocked part with the pending bits XORed on top. */
  function Split(r: bv16, b: bv8, k: nat): bv16
  {
    Clocked(r, b, k) ^ Pending(b, k)
  }

  // ---------------------------------------------------------------------
  // Bit-vector facts over explicit expressions. Each states one fact with
  // the bodies of the functions involved written out, so that the solver
  // sees a single bit-vector goal and nothing else; the lemmas about the
  // named functions further down only instantiate them with function terms.
  // A shift by a variable amount is proved by a case split on the amount,
  // one empty branch per value, each of which is a fixed rewiring of bits.

  /** A clock in which the bit leaving the clocked part differs from the
      incoming message bit: the polynomial is fed back. */
  lemma ClockFeedBits(s: bv16, a: bv16, p: bv16, t: bv16, a2: bv16, p2: bv16, s2: bv16)
    ensures s == a ^ p && (a & 0x8000 != 0) != (p & 0x8000 != 0)
         && t == (s << 1) ^ (Poly & (0 - (s >> 15)))
         && a2 == (a << 1) ^ Poly && p << 1 == p2 && s2 == a2 ^ p2
         ==> t == s2
  {
  }

  /** A clock in which the two bits agree: nothing is fed back. */
  lemma ClockKeepBits(s: bv16, a: bv16, p: bv16, t: bv16, a2: bv16, p2: bv16, s2: bv16)
    ensures s == a ^ p && (a & 0x8000 != 0) == (p & 0x8000 != 0)
         && t == (s << 1) ^ (Poly & (0 - (s >> 15)))
         && a2 == a << 1 && p << 1 == p2 && s2 == a2 ^ p2
         ==> t == s2
  {
  }

  /** The shift amounts are spelled out case by case: each case is a fixed
      rewiring of bits. */
  lemma PendingTopBits(b: bv8, k: nat)
    requires k < 8
    ensures (((b as bv16) << (8 + k)) & 0x8000 != 0) == ByteBits(b)[k]
  {
    if k == 0 {} else if k == 1 {} else if k == 2 {} else if k == 3 {}
    else if k == 4 {} else if k == 5 {} else if k == 6 {} else {}
  }

  lemma PendingShiftBits(b: bv8, k: nat)
    requires k < 7
    ensures ((b as bv16) << (8 + k)) << 1 == (b as bv16) << (8 + k + 1)
  {
    if k == 0 {} else if k == 1 {} else if k == 2 {} else if k == 3 {}
    else if k == 4 {} else if k == 5 {} else {}
  }

  lemma PendingLastBits(b: bv8)
    ensures ((b as bv16) << (8 + 7)) << 1 == 0
  {
  }

  // ---------------------------------------------------------------------
  // Sequences of bits.

  lemma {:induction false} BitFoldAppend(r: bv16, a: seq<bool>, b: seq<bool>)
    ensures BitFold(r, a + b) == BitFold(BitFold(r, a), b)
    decreases |a|
  {
    if |a| == 0 {
      assert a + b == b;
    } else {
      assert (a + b)[1..] == a[1..] + b;
      BitFoldAppend(BitStep(r, a[0]), a[1..], b);
    }
  }

  /** Clocking in one more bit of a prefix. */
  lemma BitFoldPrefix(r: bv16, bits: seq<bool>, k: nat)
    requires k < |bits|
    ensures BitFold(r, bits[..k + 1]) == BitStep(BitFold(r, bits[..k]), bits[k])
  {
    assert bits[..k + 1] == bits[..k] + [bits[k]];
    BitFoldAppend(r, bits[..k], [bits[k]]);
    assert BitFold(BitFold(r, bits[..k]), [bits[k]])
        == BitFold(BitStep(BitFold(r, bits[..k]), bits[k]), []);
  }

  // ---------------------------------------------------------------------
  // One byte.

  /** The bit leaving the top of the pending word after `k` bits is the
      `k`-th bit of the byte in transmission order. */
  lemma PendingTop(b: bv8, k: nat)
    requires k < 8
    ensures TopBit(Pending(b, k)) == ByteBits(b)[k]
  {
    PendingTopBits(b, k);
  }

  /** Each clock moves the pending bits up by one. */
  lemma PendingShift(b: bv8, k: nat)
    requires k < 8
    ensures Pending(b, k) << 1 == Pending(b, k + 1)
  {
    if k < 7 {
      PendingShiftBits(b, k);
    } else {
      PendingLastBits(b);
    }
  }

  /** The clocked part after `k` steps is the bit-serial register after
      the first `k` bits of the byte. */
  lemma {:induction false} ClockedIsBitFold(r: bv16, b: bv8, k: nat)
    requires k <= 8
    ensures Clocked(r, b, k) == BitFold(r, ByteBits(b)[..k])
  {
    if k == 0 {
      assert ByteBits(b)[..0] == [];
    } else {
      ClockedIsBitFold(r, b, k - 1);
      PendingTop(b, k - 1);
      BitFoldPrefix(r, ByteBits(b), k - 1);
    }
  }

  /** A step of the byte-at-a-time register is one clock of the bit-serial
      register, fed the bit leaving the pending word, while the pending
      bits move up by one. */
  lemma SplitStep(r: bv16, b: bv8, k: nat)
    requires k < 8
    ensures Step(Split(r, b, k)) == Split(r, b, k + 1)
  {
    PendingShift(b, k);
    if TopBit(Clocked(r, b, k)) != TopBit(Pending(b, k)) {
      ClockFeedBits(Split(r, b, k), Clocked(r, b, k), Pending(b, k), Step(Split(r, b, k)),
                    Clocked(r, b, k + 1), Pending(b, k + 1), Split(r, b, k + 1));
    } else {
      ClockKeepBits(Split(r, b, k), Clocked(r, b, k), Pending(b, k), Step(Split(r, b, k)),
                    Clocked(r, b, k + 1), Pending(b, k + 1), Split(r, b, k + 1));
    }
  }

  /** Before any step, the split register is the register with the byte
      XORed into its high half. */
  lemma SplitStart(r: bv16, b: bv8)
    ensures Split(r, b, 0) == r ^ ((b as bv16) << 8)
  {
  }

  /** After all eight steps nothing is pending. */
  lemma SplitEnd(r: bv16, b: bv8, k: nat)
    requires 8 <= k
    ensures Split(r, b, k) == Clocked(r, b, k)
  {
  }

  lemma {:induction false} StepsSplit(r: bv16, b: bv8, k: nat)
    requires k <= 8
    ensures Steps(Split(r, b, 0), k) == Split(r, b, k)
    decreases k
  {
    if k > 0 {
      StepsSplit(r, b, k - 1);
      StepsSucc(Split(r, b, 0), k - 1);
      SplitStep(r, b, k - 1);
    }
  }

  /** Folding one byte into the register is clocking its eight bits into
      the bit-serial register, most significant first. */
  lemma ByteUpdateIsBitSerial(r: bv16, b: bv8)
    ensures ByteUpdate(r, b) == BitFold(r, ByteBits(b))
  {
    SplitStart(r, b);
    StepsSplit(r, b, 8);
    SplitEnd(r, b, 8);
    ClockedIsBitFold(r, b, 8);
    assert ByteBits(b)[..8] == ByteBits(b);
  }

  // ---------------------------------------------------------------------
  // Whole messages.

  /** Folding a message byte by byte is clocking its bit stream in. */
  lemma {:induction false} FoldIsBitSerial(r: bv16, s: seq<bv8>)
    ensures Fold(r, s) == BitFold(r, MessageBits(s))
    decreases |s|
  {
    if |s| > 0 {
      FoldIsBitSerial(ByteUpdate(r, s[0]), s[1..]);
      ByteUpdateIsBitSerial(r, s[0]);
      BitFoldAppend(r, ByteBits(s[0]), MessageBits(s[1..]));
    }
  }

  /** The M17 CRC of a message is the final state of the bit-serial
      register started at 0xFFFF and clocked with the message's bits. */
  lemma CrcIsBitSerial(s: seq<bv8>)
    ensures Crc(s) == BitFold(0xFFFF, MessageBits(s))
  {
    FoldIsBitSerial(Init, s);
  }
}
