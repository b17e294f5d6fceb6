/** The CRC-16 of the M17 protocol as a pure function on 16-bit registers:
    generator polynomial 0x5935, initial register 0xFFFF, bits taken
    most-significant first, no reflection and no final XOR. */
module CrcSpec {

  /** The generator polynomial without its implicit x^16 term. */
  const Poly: bv16 := 0x5935

  /** The register value before any byte has been processed. */
  const Init: bv16 := 0xFFFF

  /** Bit 15 of a register, the bit the next shift pushes out. */
  predicate TopBit(r: bv16)
  {
    r & 0x8000 != 0
  }

  /** One shift-and-reduce step: shift the register left by one bit and,
      when the bit shifted out (bit 15) was set, XOR in the polynomial.
      `0 - (r >> 15)` is all ones exactly when bit 15 is set, so the mask
      selects either the polynomial or nothing. */
  function Step(r: bv16): bv16
  {
    (r << 1) ^ (Poly & (0 - (r >> 15)))
  }

  /** `n` shift-and-reduce steps in a row. */
  function Steps(r: bv16, n: nat): bv16
    decreases n
  {
    if n == 0 then r else Step(Steps(r, n - 1))
  }

  /** Fold one byte into the register: XOR it into the high byte, then
      shift all eight of its bits out. */
  function ByteUpdate(r: bv16, b: bv8): bv16
  {
    Steps(r ^ ((b as bv16) << 8), 8)
  }

  /** Unfolding `Steps` once from the far end. */
  lemma StepsSucc(r: bv16, n: nat)
    ensures Steps(r, n + 1) == Step(Steps(r, n))
  {
  }

  /** Left fold of `ByteUpdate` over `s`, starting from register `r`. */
  function Fold(r: bv16, s: seq<bv8>): bv16
    decreases |s|
  {
    if |s| == 0 then r else Fold(ByteUpdate(r, s[0]), s[1..])
  }

  /** The CRC of a whole message. */
  function Crc(s: seq<bv8>): bv16
  {
    Fold(Init, s)
  }

  /** The inverse of `Step`. Bit 0 of a stepped register is set exactly
      when a reduction took place, because the polynomial is odd; undoing
      the reduction and shifting back right restores bit 15 from it. */
  function Unstep(s: bv16): bv16
  {
    ((s ^ (Poly & (0 - (s & 1)))) >> 1) | ((s & 1) << 15)
  }

  // ---------------------------------------------------------------------
  // Bit-vector facts over explicit expressions. Each states one fact with
  // the bodies of the functions involved written out, so that the solver
  // sees a single bit-vector goal and nothing else; the lemmas about the
  // named functions further down only instantiate them with function terms.

  lemma StepLinearBits(a: bv16, b: bv16, x: bv16, y: bv16, z: bv16)
    requires x == (a << 1) ^ (Poly & (0 - (a >> 15)))
    requires y == (b << 1) ^ (Poly & (0 - (b >> 15)))
    requires z == ((a ^ b) << 1) ^ (Poly & (0 - ((a ^ b) >> 15)))
    ensures z == x ^ y
  {
  }

  // ---------------------------------------------------------------------
  // Properties of one step.

  /** `Step` is the textbook 16-bit rule: when bit 15 is set the result is
      the register shifted left (dropping bit 15) XOR the polynomial,
      otherwise it is only the shifted register. */
  lemma StepRule(r: bv16)
    ensures TopBit(r) ==> Step(r) == (r << 1) ^ Poly
    ensures !TopBit(r) ==> Step(r) == r << 1
  {
  }

  /** `Unstep` undoes `Step`: no two registers step to the same value. */
  lemma UnstepStep(r: bv16)
    ensures Unstep(Step(r)) == r
  {
  }

  /** `Step` undoes `Unstep`: every register is reached by some step, so
      together with `UnstepStep` the step is a bijection on 16-bit registers. */
  lemma StepUnstep(s: bv16)
    ensures Step(Unstep(s)) == s
  {
  }

  /** `Step` is linear over GF(2): it distributes over XOR. */
  lemma StepLinear(a: bv16, b: bv16)
    ensures Step(a ^ b) == Step(a) ^ Step(b)
  {
    StepLinearBits(a, b, Step(a), Step(b), Step(a ^ b));
  }

  // ---------------------------------------------------------------------
  // Properties of the fold.

  /** The CRC of no bytes is the untouched initial register. */
  lemma CrcEmpty()
    ensures Crc([]) == 0xFFFF
  {
  }

  /** Folding a concatenation is folding the second part from wherever the
      first part left the register: the CRC can be computed incrementally. */
  lemma {:induction false} FoldAppend(r: bv16, a: seq<bv8>, b: seq<bv8>)
    ensures Fold(r, a + b) == Fold(Fold(r, a), b)
    decreases |a|
  {
    if |a| == 0 {
      assert a + b == b;
    } else {
      assert (a + b)[1..] == a[1..] + b;
      FoldAppend(ByteUpdate(r, a[0]), a[1..], b);
    }
  }

  /** The CRC of `a + b` continues from the CRC of `a` over the bytes of `b`. */
  lemma CrcAppend(a: seq<bv8>, b: seq<bv8>)
    ensures Crc(a + b) == Fold(Crc(a), b)
  {
    FoldAppend(Init, a, b);
  }

  /** Appending one byte costs exactly one `ByteUpdate`. */
  lemma FoldSnoc(r: bv16, s: seq<bv8>, b: bv8)
    ensures Fold(r, s + [b]) == ByteUpdate(Fold(r, s), b)
  {
    FoldAppend(r, s, [b]);
    assert Fold(Fold(r, s), [b]) == Fold(ByteUpdate(Fold(r, s), b), []);
  }
}
