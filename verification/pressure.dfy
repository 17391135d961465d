/** The pressure-sensor driver: one sensor on the I2C bus, whose raw 12-bit
    reading is centred around zero, calibrated against a baseline captured at
    start-up, scaled down and clamped from above. */
module Pressure {
  import opened Wrappers
  import opened I2c
  import RustI32

  /** Bus address of the pressure sensor. */
  const ADDR_PRESSURE_SENSOR: int := 0x4D
  /** Subtracted from the 16-bit word to centre the sensor's 12-bit range. */
  const RAW_OFFSET: int := 2048
  /** Divisor that compresses a calibrated reading into the output range. */
  const PRESSURE_SCALING_FACTOR: int := 6
  /** Upper clamp of a calibrated reading; there is no lower clamp. */
  const PRESSURE_CEILING: int := 127

  /** Smallest and largest raw readings two bytes can decode to. */
  const RAW_MIN: int := -2048
  const RAW_MAX: int := 63487

  /** `x` is a value a raw read can produce. */
  predicate IsRaw(x: int) {
    RAW_MIN <= x <= RAW_MAX
  }

  // ---------------------------------------------------------------------
  // Raw decode

  /** The `i`-th byte of the two-byte register after a transfer of `got`:
      the register starts out zeroed, so a byte the device did not send
      reads as 0. */
  function RegisterByte(got: seq<u8>, i: nat): (byte: u8) {
    if i < |got| then got[i] else 0
  }

  /** The raw reading the sensor means by a reply: the first two bytes as a
      big-endian word, minus the centring offset. */
  function RawOf(got: seq<u8>): (raw: int)
    ensures IsRaw(raw)
  {
    RegisterByte(got, 0) * 256 + RegisterByte(got, 1) - RAW_OFFSET
  }

  /** The decode step of `read_io`, as the driver computes it on `i32`:
      widen the high byte, shift it left by 8, OR in the low byte and subtract
      the offset. The result is the big-endian word minus the offset, and
      never leaves the raw range. */
  function Decode(hi: u8, lo: u8): (raw: int)
    ensures raw == hi * 256 + lo - RAW_OFFSET
    ensures IsRaw(raw)
  {
    RustI32.ShiftOrIsBigEndian(hi, lo);
    var shifted := RustI32.Shl(hi, 8);
    var word := RustI32.Or(shifted, lo);
    word - RAW_OFFSET
  }

  /** The byte pair a sensor sends for a given raw reading. */
  function Encode(raw: int): (reg: (u8, u8))
    requires IsRaw(raw)
    ensures Decode(reg.0, reg.1) == raw
  {
    var word := raw + RAW_OFFSET;
    (word / 256, word % 256)
  }

  /** Decoding loses nothing: every byte pair is recovered from its raw
      reading, so distinct pairs give distinct readings. */
  lemma EncodeDecode(hi: u8, lo: u8)
    ensures Encode(Decode(hi, lo)) == (hi, lo)
  {
    var word := hi * 256 + lo;
    assert word / 256 == hi && word % 256 == lo;
  }

  /** The sensor's mid-scale word 0x0800 decodes to zero. */
  lemma DecodeMidScale()
    ensures Decode(0x08, 0x00) == 0
    ensures Encode(0) == (0x08, 0x00)
  {
  }

  /** A transfer that delivers fewer than two bytes leaves the rest of the
      zeroed register in place: one byte `hi` reads as `hi * 256 - 2048`, no
      byte at all as -2048. */
  lemma ShortTransferReadsZeroBytes(bus: Bus, hi: u8)
    ensures NextReply(bus) == Ack([hi]) ==> ReadIo(bus).0 == Ok(hi * 256 - RAW_OFFSET)
    ensures NextReply(bus) == Ack([]) ==> ReadIo(bus).0 == Ok(-RAW_OFFSET)
  {
  }

  /** `read_io`: one two-byte read transaction, decoded. The bus moves on by
      one read whether or not it succeeds; a failed transaction is reported
      and yields no reading. */
  function ReadIo(bus: Bus): (r: (Result<int, Error>, Bus))
    ensures r.1 == bus.(cursor := bus.cursor + 1, trace := bus.trace + [ReadBytes(2)])
    ensures r.0.Ok? <==> NextReply(bus).Ack?
    ensures r.0.Ok? ==> r.0.value == RawOf(NextReply(bus).data)
    ensures r.0.Err? ==> r.0.error == TransferFailed
  {
    var (got, after) := I2c.Read(bus, 2);
    match got
    case Err(e) => (Err(e), after)
    case Ok(reg) => (Ok(Decode(RegisterByte(reg, 0), RegisterByte(reg, 1))), after)
  }

  // ---------------------------------------------------------------------
  // Calibration and scaling

  /** The calibrated output for raw reading `raw` against `baseline`: the
      difference divided by the scaling factor, truncated toward zero, and
      clamped at the ceiling. The output reaches the ceiling exactly when the
      difference is at least ceiling times factor; below that it is the
      truncated quotient itself, however negative. */
  function Scale(raw: int, baseline: int): (p: int)
    requires RustI32.InRange(raw) && RustI32.InRange(baseline)
    requires RustI32.InRange(raw - baseline)
    ensures p <= PRESSURE_CEILING
    ensures p == PRESSURE_CEILING <==> raw - baseline >= PRESSURE_CEILING * PRESSURE_SCALING_FACTOR
    ensures raw - baseline < PRESSURE_CEILING * PRESSURE_SCALING_FACTOR ==>
              p == RustI32.Div(raw - baseline, PRESSURE_SCALING_FACTOR)
  {
    RustI32.Min(RustI32.Div(raw - baseline, PRESSURE_SCALING_FACTOR), PRESSURE_CEILING)
  }

  /** Worked values: a reading 768 above the baseline is clamped to 127; one
      768 below is -128, not clamped; -7 truncates to -1; the baseline itself
      reads as 0. */
  lemma ScaleExamples(baseline: int)
    requires IsRaw(baseline)
    ensures Scale(768, 0) == 127
    ensures Scale(-768, 0) == -128
    ensures Scale(-7, 0) == -1
    ensures Scale(baseline, baseline) == 0
  {
    RustI32.DivOfNegativeTruncates();
  }

  /** A higher raw reading never gives a lower output. */
  lemma ScaleMonotone(raw1: int, raw2: int, baseline: int)
    requires IsRaw(raw1) && IsRaw(raw2) && IsRaw(baseline)
    requires raw1 <= raw2
    ensures Scale(raw1, baseline) <= Scale(raw2, baseline)
  {
    RustI32.DivMonotone(raw1 - baseline, raw2 - baseline, PRESSURE_SCALING_FACTOR);
  }

  /** Raw readings and baselines both come from `read_io`, so their
      difference always fits in `i32`, and the output lies between -10922
      and the ceiling. */
  lemma ScaleOfRawBounds(raw: int, baseline: int)
    requires IsRaw(raw) && IsRaw(baseline)
    ensures RustI32.InRange(raw - baseline)
    ensures -10922 <= Scale(raw, baseline) <= PRESSURE_CEILING
    ensures Scale(RAW_MIN, RAW_MAX) == -10922
  {
    RustI32.DivMonotone(RAW_MIN - RAW_MAX, raw - baseline, PRESSURE_SCALING_FACTOR);
    RustI32.DivVersusEuclidean(RAW_MIN - RAW_MAX, PRESSURE_SCALING_FACTOR);
  }

  // ---------------------------------------------------------------------
  // The driver

  /** The driver: the bus it owns and the baseline captured at start-up. */
  datatype Pressure = Pressure(i2c: Bus, baseline: int)

  /** What holds of every driver `Init` builds: the bus talks to the sensor
      and the baseline is a raw reading. */
  predicate Valid(p: Pressure) {
    p.i2c.slave == ADDR_PRESSURE_SENSOR && IsRaw(p.baseline)
  }

  /** What a read against `baseline` returns when the device answers with
      `reply`: a failed transfer, or the calibrated output of its raw reading. */
  function Outcome(reply: Reply, baseline: int): (r: Result<int, Error>)
    requires IsRaw(baseline)
  {
    match reply
    case Nack => Err(TransferFailed)
    case Ack(got) => Ok(Scale(RawOf(got), baseline))
  }

  /** `init`: open the bus, address the sensor, then take one raw reading as
      the baseline. Each failing step ends initialisation with its error and
      no driver; on success the baseline is the reading of the first read
      transaction, issued after the address was set. */
  function Init(host: Host): (r: Result<Pressure, Error>)
    ensures r.Ok? <==> host.i2cEnabled && host.bus.acceptsAddress && NextReply(host.bus).Ack?
    ensures !host.i2cEnabled ==> r == Err(BusUnavailable)
    ensures host.i2cEnabled && !host.bus.acceptsAddress ==> r == Err(AddressRejected)
    ensures host.i2cEnabled && host.bus.acceptsAddress && NextReply(host.bus).Nack? ==>
              r == Err(TransferFailed)
    ensures r.Ok? ==> Valid(r.value)
    ensures r.Ok? ==> r.value.baseline == RawOf(NextReply(host.bus).data)
    ensures r.Ok? ==> r.value.i2c.trace == host.bus.trace + [SetSlaveAddress(ADDR_PRESSURE_SENSOR), ReadBytes(2)]
    ensures r.Ok? ==> r.value.i2c.cursor == host.bus.cursor + 1
    ensures r.Ok? ==> r.value.i2c.replies == host.bus.replies
  {
    var bus :- Open(host);
    var addressed :- SetSlave(bus, ADDR_PRESSURE_SENSOR);
    var (baseline, after) := ReadIo(addressed);
    match baseline
    case Err(e) => Err(e)
    case Ok(b) => Ok(Pressure(after, b))
  }

  /** `read`: one raw reading, calibrated and scaled. The output never
      exceeds the ceiling; a failed transfer is reported; the baseline is
      left as it was in every case. */
  function Read(p: Pressure): (r: (Result<int, Error>, Pressure))
    requires Valid(p)
    ensures r.1.baseline == p.baseline
    ensures Valid(r.1)
    ensures r.1.i2c == p.i2c.(cursor := p.i2c.cursor + 1, trace := p.i2c.trace + [ReadBytes(2)])
    ensures r.0 == Outcome(NextReply(p.i2c), p.baseline)
    ensures r.0.Ok? ==> r.0.value <= PRESSURE_CEILING
    ensures r.0.Err? ==> r.0.error == TransferFailed
  {
    var (raw, after) := ReadIo(p.i2c);
    var p' := p.(i2c := after);
    match raw
    case Err(e) => (Err(e), p')
    case Ok(v) => (Ok(Scale(v, p.baseline)), p')
  }

  /** Two drivers with the same baseline whose sensors answer alike read
      alike: a reading depends on nothing but the reply and the baseline. */
  lemma ReadDeterministic(p: Pressure, q: Pressure)
    requires Valid(p) && Valid(q) && q.baseline == p.baseline
    requires NextReply(p.i2c) == NextReply(q.i2c)
    ensures Read(p).0 == Read(q).0
  {
  }

  /** `n` consecutive reads. The outputs observe the device's replies in call
      order, the baseline is never written, and each read issues exactly one
      transaction. */
  function ReadSeries(p: Pressure, n: nat): (r: (seq<Result<int, Error>>, Pressure))
    requires Valid(p)
    ensures |r.0| == n
    ensures r.1.baseline == p.baseline
    ensures Valid(r.1)
    ensures r.1.i2c.replies == p.i2c.replies
    ensures r.1.i2c.cursor == p.i2c.cursor + n
    ensures |r.1.i2c.trace| == |p.i2c.trace| + n
    ensures r.1.i2c.trace[..|p.i2c.trace|] == p.i2c.trace
    ensures forall i :: |p.i2c.trace| <= i < |r.1.i2c.trace| ==> r.1.i2c.trace[i] == ReadBytes(2)
    ensures forall i :: 0 <= i < n ==> r.0[i] == Outcome(ReplyAt(p.i2c, p.i2c.cursor + i), p.baseline)
    decreases n
  {
    if n == 0 then
      ([], p)
    else
      var (first, next) := Read(p);
      var (rest, last) := ReadSeries(next, n - 1);
      ([first] + rest, last)
  }

  /** Right after start-up, a reply equal to the one the baseline was taken
      from reads as 0. */
  lemma UnchangedPressureReadsZero(host: Host, p: Pressure)
    requires Init(host) == Ok(p)
    requires ReplyAt(host.bus, host.bus.cursor + 1) == NextReply(host.bus)
    ensures Read(p).0 == Ok(0)
  {
    ScaleExamples(p.baseline);
  }
}
