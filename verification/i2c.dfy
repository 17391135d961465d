/** An abstract two-wire (I2C) bus standing in for the host's bus driver.
    Whether the bus can be opened and whether a slave address is accepted are
    facts about the host; what each read returns is a script of device
    replies. The bus records every operation issued on it, so that the order
    of the driver's steps can be stated. */
module I2c {
  import opened Wrappers

  /** An unsigned byte. */
  type u8 = x: int | 0 <= x < 256

  /** Why a bus operation failed. */
  datatype Error =
    | BusUnavailable   // the bus device could not be opened
    | AddressRejected  // the slave address could not be set
    | TransferFailed   // a read transaction failed (bus error, NACK, ...)

  /** The device's answer to one read transaction: the bytes it sent, or no
      acknowledgement. */
  datatype Reply = Ack(data: seq<u8>) | Nack

  /** An operation issued on the bus. */
  datatype Op = SetSlaveAddress(address: int) | ReadBytes(len: nat)

  /** An open bus. `replies[i]` answers the `i`-th read ever issued on it;
      reads past the end of the script are not acknowledged. `cursor` counts
      the reads issued so far and `trace` lists every operation in order. */
  datatype Bus = Bus(
    acceptsAddress: bool,
    slave: int,
    replies: seq<Reply>,
    cursor: nat,
    trace: seq<Op>)

  /** The host: whether the I2C bus is enabled, and the bus it opens. */
  datatype Host = Host(i2cEnabled: bool, bus: Bus)

  function ReplyAt(bus: Bus, i: nat): (reply: Reply) {
    if i < |bus.replies| then bus.replies[i] else Nack
  }

  /** The reply the next read transaction will receive. */
  function NextReply(bus: Bus): (reply: Reply) {
    ReplyAt(bus, bus.cursor)
  }

  /** The first `len` bytes of a reply; a device sending fewer bytes yields a
      short transfer. */
  function Received(data: seq<u8>, len: nat): (got: seq<u8>)
    ensures |got| <= len && got <= data
    ensures |data| >= len ==> |got| == len
  {
    if |data| <= len then data else data[..len]
  }

  /** Opening the bus (`I2c::new`). */
  function Open(host: Host): (r: Result<Bus, Error>)
  {
    if host.i2cEnabled then Ok(host.bus) else Err(BusUnavailable)
  }

  /** Setting the slave address that later transactions talk to. */
  function SetSlave(bus: Bus, address: int): (r: Result<Bus, Error>)
  {
    if bus.acceptsAddress then
      Ok(bus.(slave := address, trace := bus.trace + [SetSlaveAddress(address)]))
    else
      Err(AddressRejected)
  }

  /** One read transaction of up to `len` bytes. The transaction is issued
      whether or not it succeeds, so the bus moves on either way. */
  function Read(bus: Bus, len: nat): (r: (Result<seq<u8>, Error>, Bus))
  {
    var after := bus.(cursor := bus.cursor + 1, trace := bus.trace + [ReadBytes(len)]);
    match NextReply(bus)
    case Ack(data) => (Ok(Received(data, len)), after)
    case Nack => (Err(TransferFailed), after)
  }
}
