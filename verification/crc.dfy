/** The CRC engine as the C code computes it: a 32-bit accumulator, a
    16-bit byte count, an outer loop over the bytes and an inner loop over
    the eight bits of each byte. Its result is proved equal to the pure
    fold `CrcSpec.Crc` over the counted prefix of the buffer. */
module M17Crc {
  import opened CrcSpec

  /** An unsigned 16-bit count (`uint16_t`). */
  type Uint16 = n: nat | n < 0x1_0000

  /** An unsigned 8-bit count (`uint8_t`). */
  type Uint8 = n: nat | n < 0x100

  /** `M17_CRC_POLY`, as XORed into the 32-bit accumulator. */
  const M17CrcPoly: bv32 := 0x5935

  /** The number of leading Link Setup Frame bytes covered by its CRC:
      everything before the frame's own CRC field. */
  const LsfCrcLength: Uint16 := 28

  /** A 16-bit register as held in the 32-bit accumulator. */
  function Widen(r: bv16): bv32
  {
    r as bv32
  }

  /** The 16-bit result returned from an accumulator: its low 16 bits. */
  function Narrow(c: bv32): bv16
  {
    (c & 0xFFFF) as bv16
  }

  /** One inner-loop iteration on the 32-bit accumulator: shift left, and
      when the shift carried a bit into bit 16, XOR in the polynomial and
      mask back to 16 bits. */
  function AccStep(c: bv32): bv32
  {
    if (c << 1) & 0x10000 != 0 then ((c << 1) ^ M17CrcPoly) & 0xFFFF else c << 1
  }

  /** The start of an outer-loop iteration: byte `b` XORed into bits 8..15
      of the accumulator. This is the value C XORs in when `int` is wider
      than 16 bits, so that `in[i] << 8` cannot overflow. */
  function AccInject(c: bv32, b: bv8): bv32
  {
    c ^ ((b as bv32) << 8)
  }

  /** `n` inner-loop iterations on the accumulator. */
  function AccSteps(c: bv32, n: nat): bv32
    decreases n
  {
    if n == 0 then c else AccStep(AccSteps(c, n - 1))
  }

  /** Unfolding `AccSteps` once from the far end. */
  lemma AccStepsSucc(c: bv32, n: nat)
    ensures AccSteps(c, n + 1) == AccStep(AccSteps(c, n))
  {
  }

  /** The accumulator after the non-reducing branch of an inner-loop iteration. */
  lemma AccStepKeep(c: bv32)
    requires (c << 1) & 0x10000 == 0
    ensures AccStep(c) == c << 1
  {
  }

  // ---------------------------------------------------------------------
  // Bit-vector facts over explicit expressions. Each states one fact with
  // the bodies of the functions involved written out, so that the solver
  // sees a single bit-vector goal and nothing else; the lemmas about the
  // named functions further down only instantiate them with function terms.

  lemma CarryBits(y: bv16, c: bv32)
    requires c == y as bv32
    ensures (c << 1) & 0x10000 != 0 <==> TopBit(y)
  {
  }

  lemma KeepBits(y: bv16, c: bv32)
    requires c == y as bv32
    requires y & 0x8000 == 0
    ensures c << 1 == (y << 1) as bv32
  {
  }

  // ---------------------------------------------------------------------
  // The accumulator against the 16-bit specification.

  /** Truncating the accumulator to its low 16 bits gives back the
      register it holds. */
  lemma NarrowWiden(x: bv16)
    ensures Narrow(Widen(x)) == x
  {
  }

  /** XORing a byte into bits 8..15 of the accumulator is XORing it into
      the high byte of the register it holds; nothing reaches bit 16. */
  lemma WidenInject(x: bv16, b: bv8)
    ensures AccInject(Widen(x), b) == Widen(x ^ ((b as bv16) << 8))
  {
  }

  lemma AccStepAgreesReduce(y: bv16)
    requires TopBit(y)
    ensures AccStep(Widen(y)) == Widen(Step(y))
  {
  }

  lemma AccStepAgreesKeep(y: bv16)
    requires !TopBit(y)
    ensures AccStep(Widen(y)) == Widen(Step(y))
  {
    CarryBits(y, Widen(y));
    AccStepKeep(Widen(y));
    KeepBits(y, Widen(y));
    StepRule(y);
  }

  /** On an accumulator that holds a 16-bit register `y`, both branches of
      the inner loop leave exactly `Step(y)`: the bit carried into bit 16 is
      the register's bit 15, and masking after the reduction drops it again,
      so after the iteration the accumulator again holds at most 16
      significant bits. Bit 16 is set only between the shift and the mask. */
  lemma AccStepAgrees(y: bv16)
    ensures AccStep(Widen(y)) == Widen(Step(y))
  {
    if TopBit(y) {
      AccStepAgreesReduce(y);
    } else {
      AccStepAgreesKeep(y);
    }
  }

  /** Running `n` inner iterations on an accumulator holding `x` is running
      `n` steps of the 16-bit register. */
  lemma {:induction false} AccStepsAgree(x: bv16, n: nat)
    ensures AccSteps(Widen(x), n) == Widen(Steps(x, n))
    decreases n
  {
    if n > 0 {
      AccStepsAgree(x, n - 1);
      AccStepAgrees(Steps(x, n - 1));
      AccStepsSucc(Widen(x), n - 1);
      StepsSucc(x, n - 1);
    }
  }

  /** One outer-loop iteration: XORing byte `b` into bits 8..15 and running
      the eight inner iterations turns an accumulator holding register `x`
      into one holding `ByteUpdate(x, b)`. */
  lemma AccByteAgrees(x: bv16, b: bv8)
    ensures AccSteps(AccInject(Widen(x), b), 8) == Widen(ByteUpdate(x, b))
  {
    WidenInject(x, b);
    AccStepsAgree(x ^ ((b as bv16) << 8), 8);
  }

  // ---------------------------------------------------------------------
  // At every byte boundary and after every inner iteration the accumulator
  // holds at most 16 significant bits; bit 16 is set only between the shift
  // and the mask.

  /** An inner-loop iteration keeps an accumulator of at most 16 bits
      within 16 bits: a carry into bit 16 is masked off again. */
  lemma AccStepBound(c: bv32)
    requires c <= 0xFFFF
    ensures AccStep(c) <= 0xFFFF
  {
  }

  /** So does any number of inner-loop iterations. */
  lemma {:induction false} AccStepsBound(c: bv32, n: nat)
    requires c <= 0xFFFF
    ensures AccSteps(c, n) <= 0xFFFF
    decreases n
  {
    if n > 0 {
      AccStepsBound(c, n - 1);
      AccStepBound(AccSteps(c, n - 1));
    }
  }

  /** XORing a byte into bits 8..15 keeps the accumulator within 16 bits. */
  lemma AccInjectBound(c: bv32, b: bv8)
    requires c <= 0xFFFF
    ensures AccInject(c, b) <= 0xFFFF
  {
  }

  /** On an accumulator within 16 bits the final mask changes nothing. */
  lemma MaskKeeps(c: bv32)
    requires c <= 0xFFFF
    ensures Widen(Narrow(c)) == c
  {
  }

  /** Extending the counted prefix by one byte costs one `ByteUpdate`. */
  lemma CrcPrefixSnoc(input: seq<bv8>, i: nat)
    requires i < |input|
    ensures Crc(input[..i + 1]) == ByteUpdate(Crc(input[..i]), input[i])
  {
    assert input[..i + 1] == input[..i] + [input[i]];
    FoldSnoc(Init, input[..i], input[i]);
  }

  /** The inner loop: eight shift-and-reduce iterations on the accumulator. */
  method ShiftOut(start: bv32) returns (crc: bv32)
    ensures crc == AccSteps(start, 8)
    ensures start <= 0xFFFF ==> crc <= 0xFFFF
  {
    crc := start;
    var j: Uint8 := 0;
    while j < 8
      invariant j <= 8
      invariant crc == AccSteps(start, j)
      decreases 8 - j
    {
      ghost var prev := crc;
      AccStepsSucc(start, j);
      crc := crc << 1;
      if crc & 0x10000 != 0 {
        crc := (crc ^ M17CrcPoly) & 0xFFFF;
      }
      assert crc == AccStep(prev);
      j := j + 1;
    }
    if start <= 0xFFFF {
      AccStepsBound(start, 8);
    }
  }

  /** `CRC_M17`: the CRC of the first `len` bytes of `input`. The count is a
      16-bit value and must not exceed the buffer, which the caller
      guarantees (reading past it is undefined behaviour in C).
      The result depends on `input[..len]` alone, so bytes past `len` are
      never read; with `len == 0` it is the initial value 0xFFFF. */
  method CrcM17(input: seq<bv8>, len: Uint16) returns (crc16: bv16)
    requires len <= |input|
    ensures crc16 == Crc(input[..len])
    ensures len == 0 ==> crc16 == 0xFFFF
  {
    var crc: bv32 := 0xFFFF;
    var i: Uint16 := 0;
    while i < len
      invariant i <= len
      invariant crc == Widen(Crc(input[..i]))
      invariant crc <= 0xFFFF
      decreases len - i
    {
      AccByteAgrees(Crc(input[..i]), input[i]);
      ghost var start := AccInject(crc, input[i]);
      AccInjectBound(crc, input[i]);
      crc := crc ^ ((input[i] as bv32) << 8);
      assert crc == start;
      crc := ShiftOut(crc);
      CrcPrefixSnoc(input, i);
      i := i + 1;
    }
    NarrowWiden(Crc(input[..len]));
    MaskKeeps(crc);
    crc16 := (crc & 0xFFFF) as bv16;
    assert crc16 == Narrow(crc);
  }

  /** `LSF_CRC`: the CRC of a Link Setup Frame, taken over its first 28
      bytes. The frame is any byte sequence at least that long; its own CRC
      field and anything after it do not affect the result. */
  method LsfCrc(lsf: seq<bv8>) returns (crc16: bv16)
    requires |lsf| >= LsfCrcLength
    ensures crc16 == Crc(lsf[..LsfCrcLength])
  {
    crc16 := CrcM17(lsf, LsfCrcLength);
  }

  // ---------------------------------------------------------------------
  // What the result depends on.

  /** Only the first `len` bytes are read: two buffers that agree on them
      have the same CRC over `len` bytes, whatever follows. */
  lemma PrefixDetermines(a: seq<bv8>, b: seq<bv8>, len: Uint16)
    requires len <= |a| && len <= |b|
    requires forall i :: 0 <= i < len ==> a[i] == b[i]
    ensures Crc(a[..len]) == Crc(b[..len])
  {
    assert a[..len] == b[..len];
  }

  /** The CRC of a Link Setup Frame ignores its stored CRC field and every
      byte after the first 28. */
  lemma LsfCrcIgnoresTail(lsf1: seq<bv8>, lsf2: seq<bv8>)
    requires |lsf1| >= LsfCrcLength && |lsf2| >= LsfCrcLength
    requires forall i :: 0 <= i < LsfCrcLength ==> lsf1[i] == lsf2[i]
    ensures Crc(lsf1[..LsfCrcLength]) == Crc(lsf2[..LsfCrcLength])
  {
    PrefixDetermines(lsf1, lsf2, LsfCrcLength);
  }
}
