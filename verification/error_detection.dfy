/** What the M17 CRC guarantees about transmission errors. The register
    update is linear over GF(2), so the CRCs of two messages of the same
    length differ by the CRC-fold, from 0, of their XOR difference; and
    the shift-and-reduce step never maps a nonzero register to zero. Hence
    every error confined to a single byte, and in particular every single
    flipped bit, changes the CRC. */
module ErrorDetection {
  import opened CrcSpec

  /** Bytewise XOR of two messages of the same length: the error pattern
      that turns one into the other. */
  function XorBytes(a: seq<bv8>, b: seq<bv8>): (c: seq<bv8>)
    requires |a| == |b|
    ensures |c| == |a|
    ensures forall i :: 0 <= i < |c| ==> c[i] == a[i] ^ b[i]
    decreases |a|
  {
    if |a| == 0 then [] else [a[0] ^ b[0]] + XorBytes(a[1..], b[1..])
  }

  /** Addition of registers as polynomials over GF(2): bitwise XOR. */
  function Add(a: bv16, b: bv16): bv16
  {
    a ^ b
  }

  /** An error pattern that changes nothing. */
  predicate AllZero(e: seq<bv8>)
  {
    forall i :: 0 <= i < |e| ==> e[i] == 0
  }

  // ---------------------------------------------------------------------
  // Bit-vector facts.

  /** Adding a register to itself gives zero. */
  lemma AddSelf(x: bv16)
    ensures Add(x, x) == 0
  {
  }

  /** Folding in a zero byte only steps the register. */
  lemma ByteUpdateZeroByte(r: bv16)
    ensures ByteUpdate(r, 0) == Steps(r, 8)
  {
  }

  /** Bytes are equal exactly when their XOR is zero. */
  lemma ByteXorBits(a: bv8, b: bv8)
    ensures a ^ b == 0 <==> a == b
  {
  }

  /** The shift amount is spelled out case by case. */
  lemma FlipBits(a: bv8, j: nat)
    requires j < 8
    ensures a ^ ((1 as bv8) << j) != a
  {
    if j == 0 {} else if j == 1 {} else if j == 2 {} else if j == 3 {}
    else if j == 4 {} else if j == 5 {} else if j == 6 {} else {}
  }

  // ---------------------------------------------------------------------
  // Linearity.

  /** One step distributes over register addition. */
  lemma StepAdd(a: bv16, b: bv16)
    ensures Step(Add(a, b)) == Add(Step(a), Step(b))
  {
    StepLinear(a, b);
  }

  /** `n` steps distribute over register addition. */
  lemma {:induction false} StepsLinear(x: bv16, y: bv16, n: nat)
    ensures Steps(Add(x, y), n) == Add(Steps(x, n), Steps(y, n))
    decreases n
  {
    if n > 0 {
      StepsLinear(x, y, n - 1);
      StepsSucc(Add(x, y), n - 1);
      StepsSucc(x, n - 1);
      StepsSucc(y, n - 1);
      StepAdd(Steps(x, n - 1), Steps(y, n - 1));
    }
  }

  /** XORing a byte into a sum of registers is XORing into each. */
  lemma InjectAdd(r1: bv16, r2: bv16, b1: bv8, b2: bv8)
    ensures Add(r1, r2) ^ (((b1 ^ b2) as bv16) << 8)
         == Add(r1 ^ ((b1 as bv16) << 8), r2 ^ ((b2 as bv16) << 8))
  {
  }

  /** Folding in one byte is linear in the register and the byte together. */
  lemma ByteUpdateLinear(r1: bv16, r2: bv16, b1: bv8, b2: bv8)
    ensures ByteUpdate(Add(r1, r2), b1 ^ b2) == Add(ByteUpdate(r1, b1), ByteUpdate(r2, b2))
  {
    InjectAdd(r1, r2, b1, b2);
    StepsLinear(r1 ^ ((b1 as bv16) << 8), r2 ^ ((b2 as bv16) << 8), 8);
  }

  /** Folding two messages of the same length from two registers, and
      XORing the results, is folding their XOR from the XOR of the
      registers. */
  lemma {:induction false} FoldLinear(r1: bv16, r2: bv16, s1: seq<bv8>, s2: seq<bv8>)
    requires |s1| == |s2|
    ensures Fold(Add(r1, r2), XorBytes(s1, s2)) == Add(Fold(r1, s1), Fold(r2, s2))
    decreases |s1|
  {
    if |s1| > 0 {
      ByteUpdateLinear(r1, r2, s1[0], s2[0]);
      FoldLinear(ByteUpdate(r1, s1[0]), ByteUpdate(r2, s2[0]), s1[1..], s2[1..]);
    }
  }

  /** The CRCs of two messages of the same length differ exactly by the
      fold, from a zero register, of the error pattern between them: the
      initial value 0xFFFF cancels out. */
  lemma CrcDifference(m1: seq<bv8>, m2: seq<bv8>)
    requires |m1| == |m2|
    ensures Add(Crc(m1), Crc(m2)) == Fold(0, XorBytes(m1, m2))
  {
    FoldLinear(Init, Init, m1, m2);
    AddSelf(Init);
  }

  // ---------------------------------------------------------------------
  // Zero and nonzero registers.

  /** The zero register steps to zero. */
  lemma StepZero()
    ensures Step(0) == 0
  {
  }

  /** The inverse step maps zero to zero. */
  lemma UnstepZero()
    ensures Unstep(0) == 0
  {
  }

  /** A nonzero register never steps to zero: the step is invertible and
      its inverse maps zero to zero. */
  lemma StepNonzero(x: bv16)
    requires x != 0
    ensures Step(x) != 0
  {
    UnstepStep(x);
    UnstepZero();
  }

  /** Any number of steps leaves a register zero exactly when it was zero. */
  lemma {:induction false} StepsZeroIff(x: bv16, n: nat)
    ensures Steps(x, n) == 0 <==> x == 0
    decreases n
  {
    if n > 0 {
      StepsZeroIff(x, n - 1);
      StepsSucc(x, n - 1);
      if Steps(x, n - 1) == 0 {
        StepZero();
      } else {
        StepNonzero(Steps(x, n - 1));
      }
    }
  }

  /** Folding in zero bytes leaves a register zero exactly when it was zero. */
  lemma {:induction false} FoldZerosIff(r: bv16, e: seq<bv8>)
    requires AllZero(e)
    ensures Fold(r, e) == 0 <==> r == 0
    decreases |e|
  {
    if |e| > 0 {
      ByteUpdateZeroByte(r);
      StepsZeroIff(r, 8);
      FoldZerosIff(ByteUpdate(r, e[0]), e[1..]);
    }
  }

  /** Folding a nonzero byte into the zero register gives a nonzero register. */
  lemma ByteUpdateZeroNonzero(d: bv8)
    requires d != 0
    ensures ByteUpdate(0, d) != 0
  {
    StepsZeroIff(0 ^ ((d as bv16) << 8), 8);
  }

  /** An error pattern that is zero except for one nonzero byte folds, from
      a zero register, to a nonzero register. */
  lemma SingleByteErrorNonzero(e: seq<bv8>, k: nat)
    requires k < |e| && e[k] != 0
    requires AllZero(e[..k]) && AllZero(e[k + 1..])
    ensures Fold(0, e) != 0
  {
    assert e == e[..k] + e[k..];
    FoldAppend(0, e[..k], e[k..]);
    FoldZerosIff(0, e[..k]);
    assert e[k..][1..] == e[k + 1..];
    ByteUpdateZeroNonzero(e[k]);
    FoldZerosIff(ByteUpdate(0, e[k]), e[k + 1..]);
  }

  /** Every error confined to one byte changes the CRC: two messages of the
      same length that differ in byte `k` and nowhere else have different
      CRCs. */
  lemma SingleByteErrorDetected(m1: seq<bv8>, m2: seq<bv8>, k: nat)
    requires |m1| == |m2| && k < |m1|
    requires m1[k] != m2[k]
    requires forall i :: 0 <= i < |m1| && i != k ==> m1[i] == m2[i]
    ensures Crc(m1) != Crc(m2)
  {
    var e := XorBytes(m1, m2);
    forall i | 0 <= i < |e|
      ensures e[i] == 0 <==> i != k
    {
      ByteXorBits(m1[i], m2[i]);
    }
    assert AllZero(e[..k]);
    assert AllZero(e[k + 1..]);
    SingleByteErrorNonzero(e, k);
    CrcDifference(m1, m2);
    AddSelf(Crc(m1));
  }

  /** Every single flipped bit changes the CRC. */
  lemma BitFlipDetected(m: seq<bv8>, k: nat, j: nat)
    requires k < |m| && j < 8
    ensures Crc(m[k := m[k] ^ ((1 as bv8) << j)]) != Crc(m)
  {
    var flipped := m[k := m[k] ^ ((1 as bv8) << j)];
    FlipBits(m[k], j);
    assert flipped[k] != m[k];
    assert forall i :: 0 <= i < |flipped| && i != k ==> flipped[i] == m[i];
    SingleByteErrorDetected(flipped, m, k);
  }
}
