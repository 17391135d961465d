# Pressure-sensor driver model

A Dafny model of the breath-pressure sensor driver of haxo-rs. The driver
talks to one sensor on the I2C bus at address 0x4D. `read_io` reads two
bytes and decodes them as a big-endian word minus 2048, which centres the
sensor's 12-bit range around zero. `init` opens the bus, addresses the
sensor and keeps its first raw reading as the baseline. `read` subtracts the
baseline from a fresh raw reading, divides by 6 with Rust's truncating
`i32` division and clamps the result at 127. Nothing is clamped from below.

Modules:

- `RustI32` (`rust_i32.dfy`): the Rust `i32` operations the driver uses,
  on unbounded integers. It covers the value range, `<<` with
  two's-complement wrap-around, `|` on non-negative operands, `/` rounding
  toward zero (Dafny's own `/` is Euclidean) and `std::cmp::min`.
- `I2c` (`i2c.dfy`): an abstract bus standing in for the host's I2C driver.
  The host says whether the bus is enabled and whether the bus accepts a
  slave address. Reads answer from a script of device replies, either bytes
  or no acknowledgement. The bus keeps a trace of every operation issued.
- `Pressure` (`pressure.dfy`): the driver itself, covering decode,
  calibration and scaling, `init`, `read`, and a series of reads.
- `Wrappers` (`wrappers.dfy`): the `Result` type. Rust's `?` becomes
  Dafny's `:-`.

Error kinds: the source boxes whatever error the bus returns. Here each
error is named after the step that failed: `BusUnavailable` when the bus
cannot be opened, `AddressRejected` when the slave address cannot be set,
and `TransferFailed` when a read transaction fails.

## Model

| member | source | states |
|---|---|---|
| RustI32.Wrap | src/pressure.rs:66 | keeps the low 32 bits as two's complement: the result is an `i32` congruent to its input modulo 2^32, and an input already in range is unchanged |
| RustI32.Shl | src/pressure.rs:66 | `x << s` on `i32` stays in range and equals `x * 2^s` whenever that product fits |
| RustI32.ShiftOrIsBigEndian | src/pressure.rs:65-67 | for bytes `x` and `y`, `(x as i32) << 8 \| y` equals `x * 256 + y` |
| RustI32.Or | src/pressure.rs:67 | `\|` of two non-negative `i32`s is again a non-negative `i32`, and OR-ing a byte into a multiple of 256 adds it |
| RustI32.BitOrBelow | src/pressure.rs:67 | OR of two numbers below `2^k` stays below `2^k` |
| RustI32.BitOrOfDisjoint | src/pressure.rs:67 | OR of a multiple of `2^k` with a number below `2^k` is their sum, because the bits do not overlap |
| RustI32.Div | src/pressure.rs:58 | `i32` division by a positive divisor: the quotient is in range and has the dividend's sign; the remainder is smaller than the divisor and has the dividend's sign |
| RustI32.DivUnique | src/pressure.rs:58 | those remainder conditions determine the truncating quotient uniquely |
| RustI32.DivVersusEuclidean | src/pressure.rs:58 | truncating division equals Euclidean division for non-negative dividends; it is one greater for negative dividends the divisor does not divide |
| RustI32.DivOfNegativeTruncates | src/pressure.rs:58 | `-7 / 6` is -1 in Rust, while Dafny's `/` gives -2 |
| RustI32.DivMonotone | src/pressure.rs:58 | truncating division by a positive divisor never decreases as the dividend grows |
| RustI32.Min | src/pressure.rs:58 | `min` returns one of its arguments and is at most both |
| Pressure.RawOf | src/pressure.rs:62-68 | the raw reading of any reply lies in [-2048, 63487]; a byte missing from a short transfer counts as 0 |
| Pressure.ShortTransferReadsZeroBytes | src/pressure.rs:62-64 | the register starts zeroed and the byte count of the read is ignored, so a one-byte reply `hi` reads as `hi * 256 - 2048` and an empty one as -2048 |
| Pressure.Decode | src/pressure.rs:65-68 | the shift-and-OR decode equals `hi * 256 + lo - 2048` and lies in [-2048, 63487] |
| Pressure.Encode | src/pressure.rs:62-68 | each raw reading in range has a byte pair that decodes back to it |
| Pressure.EncodeDecode | src/pressure.rs:62-68 | decoding is injective: each byte pair is recovered from its raw reading |
| Pressure.DecodeMidScale | src/pressure.rs:65-68 | the mid-scale word 0x0800 decodes to 0, and 0 encodes back to it |
| Pressure.ReadIo | src/pressure.rs:61-70 | issues one 2-byte read; succeeds exactly when the device acknowledges and then returns its big-endian raw reading; otherwise reports the transfer failure with no value |
| Pressure.Scale | src/pressure.rs:57-58 | the output is never above 127; it is exactly 127 iff `raw - baseline >= 762`; below that it is the truncated quotient by 6, with no lower clamp |
| Pressure.ScaleExamples | src/pressure.rs:57-58 | 768 above baseline gives 127; 768 below gives -128; -7 gives -1; the baseline itself gives 0 |
| Pressure.ScaleMonotone | src/pressure.rs:58 | a higher raw reading never gives a lower output |
| Pressure.ScaleOfRawBounds | src/pressure.rs:41-68 | `raw - baseline` cannot overflow `i32` when both come from `read_io`; the output then lies in [-10922, 127], and the lower end is reached |
| Pressure.Init | src/pressure.rs:17-51 | fails with the failing step's error and builds no driver when opening, addressing or the first read fails; otherwise the baseline is that first read's raw value, the trace is address-then-read, and the driver is valid |
| Pressure.Read | src/pressure.rs:53-59 | for any driver `init` can build: leaves the baseline unchanged in every case and keeps the driver valid; issues exactly one read; the output is the calibrated value of the device's reply, at most 127, or the transfer failure |
| Pressure.ReadDeterministic | src/pressure.rs:53-59 | same baseline and same reply give the same result |
| Pressure.ReadSeries | src/pressure.rs:53-59 | over `n` reads, outputs follow the device's replies in call order; the baseline is never written; each read adds one transaction to the trace |
| Pressure.UnchangedPressureReadsZero | src/pressure.rs:37-58 | after `init`, a reply identical to the baseline's reads as 0 |

## Left out

- Logging (`debug!`, `error!`) is left out. So are the diagnostic queries
  `i2c.bus()` and `i2c.clock_speed()?` at src/pressure.rs:30-34. The
  `clock_speed` query runs only when debug logging is on, so its failure is
  not modelled as a way for `init` to fail.
- The host's I2C library (`rppal::i2c::I2c`) is foreign code and is not
  part of this model. Opening the bus, setting the slave address and read
  transactions are abstract operations in the `I2c` module. `I2c.Open`,
  `I2c.SetSlave` and `I2c.Read` are stand-ins for that library, not models
  of the driver's lines. They carry no contracts of their own; what the
  driver relies on from them is stated by `Pressure.ReadIo`,
  `Pressure.Init` and `Pressure.Read`. Which slave
  addresses a bus accepts is a fact about the host (`acceptsAddress`), not
  the library's own validation rules.
- Ownership of the bus handle and its release on drop are a Rust resource
  concern and carry no behaviour here. The driver is single-threaded, so
  concurrency is left out too.
- The tests at src/pressure.rs:73-164 need a physical sensor, a person
  blowing into the mouthpiece and `thread::sleep`. Nothing in them can be
  stated statically.
- RustI32.Div: only positive divisors are modelled. The driver divides only
  by the constant 6, so division by zero and `MIN / -1` cannot arise.
- RustI32.Or: only non-negative operands are modelled. The driver ORs only
  a widened byte into a shifted byte.
- `read_io` ignores the byte count returned by the bus read. The model
  follows the code: a short transfer leaves the unfilled bytes of the
  zero-initialised register at 0.
- RustI32.Shl: shift amounts of 32 or more are not modelled. With overflow
  checks on they panic; with them off the amount is masked. The driver only
  shifts by 8.
- Pressure.Scale: an overflowing `raw - baseline` is excluded by a
  precondition instead of being modelled. With overflow checks on it would
  panic; with them off it would wrap. `Pressure.ScaleOfRawBounds` shows it
  cannot overflow for values from `read_io`.
- `Pressure.Read` and `Pressure.ReadSeries` require `Pressure.Valid`. The
  driver's fields are private and only `init` builds a driver, and
  `Pressure.Init` ensures every driver it builds is valid.
