# M17 CRC-16 in Dafny

A model of the CRC engine of the M17 C library (`payload/crc.c`). The engine
computes the CRC-16 that the M17 protocol uses: generator polynomial 0x5935
(`M17_CRC_POLY`), initial register 0xFFFF, bits taken most-significant first,
no reflection and no final XOR. It has two entry points:

- `CRC_M17(in, len)`: the CRC of the first `len` bytes of a buffer. A 32-bit
  accumulator starts at 0xFFFF. Each byte is XORed into bits 8..15 and then
  shifted out in eight shift-and-conditional-reduce steps. The low 16 bits
  are returned.
- `LSF_CRC(lsf)`: the CRC of the first 28 bytes of a Link Setup Frame, which
  is everything before the frame's own CRC field.

The project has four modules:

- `CrcSpec` (`crc_spec.dfy`) is the 16-bit mathematical definition:
  - `Step` is one shift-and-reduce on a `bv16` register;
  - `ByteUpdate` is the byte XOR followed by eight steps;
  - `Fold` is the left fold of `ByteUpdate`;
  - `Crc` is `Fold` from 0xFFFF.

  It also proves facts about one step (the 16-bit rule, invertibility,
  linearity) and about the fold (the empty message, incremental computation
  over a concatenation).
- `M17Crc` (`crc.dfy`) follows the C code. `CrcM17` has the outer loop over a
  16-bit count. `ShiftOut` is the inner loop, taken out as a method of its own.
  Both work on a `bv32` accumulator with the same carry test, XOR and masks as
  the C code. `LsfCrc` is the 28-byte wrapper. The loops are proved equal to
  `CrcSpec.Crc` over the counted prefix. At every byte boundary and after every
  inner iteration the accumulator is proved to hold at most 16 significant
  bits; bit 16 is set only between the shift and the mask.
- `BitSerial` (`bit_serial.dfy`) is an independent reference: the textbook
  bit-at-a-time shift register, fed the message one bit at a time with each
  byte's most significant bit first. It is proved to compute exactly
  `CrcSpec.Crc`.
- `ErrorDetection` (`error_detection.dfy`) proves what the CRC is for. The
  register update is linear over GF(2), so the CRCs of two messages of the
  same length differ by the fold, from a zero register, of their XOR
  difference. A step never maps a nonzero register to zero. Together these
  mean that every error confined to one byte, and in particular every single
  flipped bit, changes the CRC.

Between bytes the accumulator holds only 16 significant bits
(`M17Crc.AccStepsBound`, `M17Crc.AccInjectBound`), and the returned value is
the whole register (`M17Crc.MaskKeeps`). So the CRC of `a + b` is the fold
over `b` started from the CRC of `a` (`CrcSpec.CrcAppend`).

Both loops terminate: their `decreases` clauses show that the outer loop
runs `len` times and the inner loop 8 times.

## Model

| member | source | states |
|---|---|---|
| `CrcSpec.Step` | payload/crc.c:32-34 | one inner iteration on a 16-bit register: shift left by one, dropping bit 15, and XOR in 0x5935 exactly when the dropped bit was set |
| `CrcSpec.Steps` | payload/crc.c:30-35 | `n` shift-and-reduce steps on the 16-bit register, in order |
| `CrcSpec.ByteUpdate` | payload/crc.c:29-35 | one outer iteration on a 16-bit register: XOR the byte into the high byte, then eight steps |
| `CrcSpec.Fold` | payload/crc.c:27-36 | the outer loop: one byte update per byte, first byte first |
| `CrcSpec.Crc` | payload/crc.c:23-39 | the whole computation: the fold of a message from the initial register 0xFFFF |
| `CrcSpec.StepRule` | payload/crc.c:32-34 | one shift-and-reduce step is the 16-bit rule: with bit 15 set, the register shifted left XOR 0x5935; otherwise only the shifted register |
| `CrcSpec.UnstepStep` | payload/crc.c:32-34 | the step can be undone: `Unstep` recovers the register, so no two registers step to the same value |
| `CrcSpec.StepUnstep` | payload/crc.c:32-34 | every register is the step of some register, so the step is a bijection on 16-bit values |
| `CrcSpec.StepLinear` | payload/crc.c:32-34 | the step distributes over XOR of registers (linear over GF(2)) |
| `CrcSpec.CrcEmpty` | payload/crc.c:25-38 | the CRC of no bytes is the initial value 0xFFFF |
| `CrcSpec.FoldAppend` | payload/crc.c:27-36 | folding a concatenation is folding the second part from the register the first part left |
| `CrcSpec.CrcAppend` | payload/crc.c:27-36 | the CRC of `a + b` is the fold over `b` started from the CRC of `a`: the CRC can be computed incrementally |
| `CrcSpec.FoldSnoc` | payload/crc.c:27-36 | appending one byte to a message costs exactly one byte update of its register |
| `M17Crc.AccStep` | payload/crc.c:32-34 | one inner iteration on the 32-bit accumulator: shift left; when bit 16 is then set, XOR in 0x5935 and mask to 16 bits |
| `M17Crc.AccSteps` | payload/crc.c:30-35 | `n` inner iterations on the accumulator, in order |
| `M17Crc.AccInject` | payload/crc.c:29 | `crc ^= in[i] << 8`: the byte XORed into bits 8..15 of the accumulator |
| `M17Crc.Narrow` | payload/crc.c:38 | `crc & 0xFFFF`: the low 16 bits of the accumulator, returned as the result |
| `M17Crc.AccStepAgrees` | payload/crc.c:32-34 | on a 32-bit accumulator that holds a 16-bit register, both branches of an inner iteration leave exactly the 16-bit step of that register |
| `M17Crc.AccStepsAgree` | payload/crc.c:30-35 | any number of inner iterations on the accumulator equals the same number of 16-bit steps |
| `M17Crc.WidenInject` | payload/crc.c:29 | XORing `in[i] << 8` into the accumulator XORs the byte into the register's high byte and reaches no bit above 15 |
| `M17Crc.AccByteAgrees` | payload/crc.c:29-35 | one outer iteration turns an accumulator that holds register `x` into one that holds the byte update of `x` |
| `M17Crc.NarrowWiden` | payload/crc.c:38 | masking the accumulator to 16 bits returns the register it holds |
| `M17Crc.AccStepBound` | payload/crc.c:32-34 | an inner iteration keeps an accumulator of at most 0xFFFF at most 0xFFFF: a carry into bit 16 is masked away |
| `M17Crc.AccStepsBound` | payload/crc.c:30-35 | after every complete inner iteration the accumulator stays at most 0xFFFF |
| `M17Crc.AccInjectBound` | payload/crc.c:29 | XORing in the next byte keeps the accumulator at most 0xFFFF |
| `M17Crc.MaskKeeps` | payload/crc.c:38 | on an accumulator of at most 0xFFFF the final mask changes nothing |
| `M17Crc.CrcPrefixSnoc` | payload/crc.c:27-36 | one more outer iteration extends the CRC of the counted prefix by one byte update |
| `M17Crc.ShiftOut` | payload/crc.c:30-35 | the inner loop performs exactly eight inner iterations; when the accumulator starts at most 0xFFFF it ends at most 0xFFFF |
| `M17Crc.CrcM17` | payload/crc.c:23-39 | the nested loops return the CRC of `in[0..len)`, the left fold of the byte update from 0xFFFF; with `len == 0` the result is 0xFFFF |
| `M17Crc.PrefixDetermines` | payload/crc.c:27-29 | only the first `len` bytes are read: buffers that agree on them give the same CRC |
| `M17Crc.LsfCrc` | payload/crc.c:47-51 | the Link Setup Frame CRC is `CRC_M17` of the frame's first 28 bytes |
| `M17Crc.LsfCrcIgnoresTail` | payload/crc.c:47-51 | two frames that agree on their first 28 bytes have the same CRC, whatever their CRC fields and later bytes hold |
| `BitSerial.ByteUpdateIsBitSerial` | payload/crc.c:29-35 | XORing a byte into the high half and stepping eight times is clocking the byte's eight bits, most significant first, into the bit-serial register |
| `BitSerial.FoldIsBitSerial` | payload/crc.c:27-36 | folding a message byte by byte is clocking its whole bit stream into the bit-serial register |
| `BitSerial.CrcIsBitSerial` | payload/crc.c:23-39 | the CRC is the bit-serial register, started at 0xFFFF, after the message's bits, most significant bit of each byte first |
| `ErrorDetection.StepsLinear` | payload/crc.c:30-35 | any number of steps distributes over XOR of registers |
| `ErrorDetection.ByteUpdateLinear` | payload/crc.c:29-35 | the byte update is linear in the register and the byte together |
| `ErrorDetection.FoldLinear` | payload/crc.c:27-36 | folding two messages of the same length and XORing the results is folding their bytewise XOR from the XOR of the start registers |
| `ErrorDetection.CrcDifference` | payload/crc.c:25-36 | the XOR of two same-length messages' CRCs is the fold, from zero, of their bytewise XOR: the initial value cancels |
| `ErrorDetection.StepNonzero` | payload/crc.c:32-34 | a nonzero register never steps to zero |
| `ErrorDetection.StepsZeroIff` | payload/crc.c:30-35 | after any number of steps a register is zero exactly when it started zero |
| `ErrorDetection.FoldZerosIff` | payload/crc.c:27-36 | folding in zero bytes leaves a register zero exactly when it was zero |
| `ErrorDetection.SingleByteErrorNonzero` | payload/crc.c:27-36 | an error pattern with exactly one nonzero byte folds, from zero, to a nonzero register |
| `ErrorDetection.SingleByteErrorDetected` | payload/crc.c:23-39 | two same-length messages that differ in exactly one byte have different CRCs |
| `ErrorDetection.BitFlipDetected` | payload/crc.c:23-39 | flipping any single bit of a message changes its CRC |

## Left out

- The `lsf_t` record and its layout are not part of this model. They live in
  `m17.h`. A Link Setup Frame is any byte sequence of at least 28 bytes.
- The pointer cast in `LSF_CRC`, which reinterprets the record's memory as
  bytes, is memory reinterpretation rather than logic. The model takes the
  bytes directly.
- A `len` larger than the buffer is undefined behaviour in C. It is the
  precondition `len <= |input|` of `M17Crc.CrcM17`.
- The C promotion of `in[i] << 8` to `int` before the XOR is not modelled
  separately. The shifted byte is at most 0xFF00, so it is modelled as a
  32-bit XOR with the same value. This assumes `int` is wider than 16 bits,
  as on 32- and 64-bit targets. With a 16-bit `int`, `in[i] << 8` overflows
  for bytes of 0x80 and above, which is undefined behaviour in C.
- `M17_CRC_POLY` is a `uint16_t` in C. It is `CrcSpec.Poly` (`bv16`) in the
  16-bit definition and `M17Crc.M17CrcPoly` (`bv32`) in the accumulator, with
  the same value 0x5935. That matches the conversion C applies when it XORs
  the constant into the 32-bit accumulator.
- `M17Crc.ShiftOut`: the inner loop is a method of its own rather than being
  written inline in `CrcM17`. It performs the same iterations in the same
  order.
- Concurrent modification of the input buffer during a call is not modelled.
  Neither the code nor the model has shared state.
- No numeric CRC value is asserted other than that of the empty input
  (0xFFFF). Test vectors come from outside the code.
