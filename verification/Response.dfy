/** The one-slot reply engine: requests from the console on one side, packets to it on the
    other, and a wrapping counter in between.
 */
module Response {
  import opened Bytes

  const EPSIZE := 64
  const REPORT_SIZE := 11
  const COUNTER_INCREMENT := 3
  const MAC_ADDRESS: seq<byte> := [0x79, 0x05, 0x44, 0xC6, 0xB5, 0x65]
  const MAX_SPI_READ := 44

  /** A reply that some request asks for. `report` is the selected report at that moment. */
  datatype Reply =
    | Command(command: byte, data: seq<byte>)
    | Subcommand(code: byte, subcommand: byte, data: seq<byte>, report: seq<byte>)
    | Standard(report: seq<byte>)

  ghost predicate WellFormed(r: Reply) {
    match r
    case Command(_, data) => |data| <= EPSIZE - 2
    case Subcommand(_, _, data, report) => |report| == REPORT_SIZE && |data| <= EPSIZE - REPORT_SIZE - 4
    case Standard(report) => |report| == REPORT_SIZE
  }

  // Packets 0x21 and 0x30 carry the counter.
  predicate Counted(r: Reply) {
    !r.Command?
  }

  function Pad(s: seq<byte>): (p: seq<byte>)
    requires |s| <= EPSIZE
    ensures |p| == EPSIZE
  {
    s + Repeat(0, EPSIZE - |s|)
  }

  /** The packet for a reply. */
  function Render(r: Reply, counter: byte): (p: seq<byte>)
    requires WellFormed(r)
    ensures |p| == EPSIZE
    ensures Counted(r) <==> p[0] == 0x21 || p[0] == 0x30
    ensures Counted(r) ==> p[1] == counter
  {
    match r
    case Command(command, data) => Pad([0x81, command] + data)
    case Subcommand(code, sub, data, report) => Pad([0x21, counter] + report + [code, sub] + data)
    case Standard(report) => Pad([0x30, counter] + report)
  }

  // ---- What each OUT report asks for ----

  function IdentityReply(): Reply {
    Command(0x01, [0x00, 0x03] + MAC_ADDRESS)
  }

  function DeviceInfo(): seq<byte> {
    [0x03, 0x48, 0x03, 0x02] + seq(6, i requires 0 <= i < 6 => MAC_ADDRESS[5 - i]) + [0x03, 0x02]
  }

  // The known contents of the emulated SPI flash at an address.
  function SpiImage(address: word): seq<byte> {
    match address
    case 0x6050 => [0x0A, 0xB9, 0xE6, 0xDD, 0xDD, 0xDD, 0xAA, 0xAA, 0xAA, 0xAA, 0xAA, 0xAA]
    case 0x6080 => [0x50, 0xfd, 0x00, 0x00, 0xc6, 0x0f, 0x0f, 0x30, 0x61, 0x96, 0x30, 0xf3,
                    0xd4, 0x14, 0x54, 0x41, 0x15, 0x54, 0xc7, 0x79, 0x9c, 0x33, 0x36, 0x63]
    case 0x6098 => [0x0f, 0x30, 0x61, 0x96, 0x30, 0xf3, 0xd4, 0x14, 0x54,
                    0x41, 0x15, 0x54, 0xc7, 0x79, 0x9c, 0x33, 0x36, 0x63]
    case 0x6020 => [0xE6, 0xFF, 0x3A, 0x00, 0x39, 0x00, 0x00, 0x40, 0x00, 0x40, 0x00, 0x40,
                    0xF7, 0xFF, 0xFC, 0xFF, 0x00, 0x00, 0xE7, 0x3B, 0xE7, 0x3B, 0xE7, 0x3B]
    case 0x603D => [0xba, 0x15, 0x62, 0x11, 0xb8, 0x7f, 0x29, 0x06, 0x5b, 0xff, 0xe7, 0x7e,
                    0x0e, 0x36, 0x56, 0x9e, 0x85, 0x60, 0xff, 0x32, 0x32, 0x32, 0xff, 0xff, 0xff]
    case 0x8010 => Repeat(0xFF, 22) + [0xB2, 0xA1]
    case 0x8028 => [0xbe, 0xff, 0x3e, 0x00, 0xf0, 0x01, 0x00, 0x40, 0x00, 0x40, 0x00, 0x40,
                    0xfe, 0xff, 0xfe, 0xff, 0x08, 0x00, 0xe7, 0x3b, 0xe7, 0x3b, 0xe7, 0x3b]
    case _ => []
  }

  // How much of the image a read returns: colours only whole.
  function SpiKnown(address: word, size: nat): (n: nat)
    ensures n <= size && n <= |SpiImage(address)|
  {
    var image := |SpiImage(address)|;
    var n := if size < image then size else image;
    if address == 0x6050 then n - n % 3 else n
  }

  /** spi_read: the known bytes, then 0xFF. */
  function SpiData(address: word, size: nat): (data: seq<byte>)
    ensures |data| == size
  {
    SpiImage(address)[..SpiKnown(address, size)] + Repeat(0xFF, size - SpiKnown(address, size))
  }

  function SpiReply(address: word, size: byte, report: seq<byte>): Reply {
    Subcommand(0x90, 0x10, [address % 256, address / 256, 0, 0, size] + SpiData(address, size), report)
  }

  function SubcommandReply(data: seq<byte>, report: seq<byte>, lowMemory: byte): Reply
    requires |data| == EPSIZE
  {
    var sub := data[10];
    match sub
    case 0x01 => Subcommand(0x81, sub, [lowMemory], report)
    case 0x02 => Subcommand(0x82, sub, DeviceInfo(), report)
    case 0x04 => Subcommand(0x83, sub, [], report)
    case 0x21 => Subcommand(0xA0, sub, [0x01, 0x00, 0xFF, 0x00, 0x03, 0x00, 0x05, 0x01], report)
    case 0x10 => SpiReply(256 * (data[12] as int) + data[11], data[15], report)
    case _ => Subcommand(0x80, sub, [], report)
  }

  /** The reply, if any, to an OUT report. `lowMemory` is the byte that the pairing reply reads
      at a constant address. */
  function ReplyTo(data: seq<byte>, size: nat, report: seq<byte>, lowMemory: byte): Option<Reply>
    requires |data| == EPSIZE
  {
    if data[0] == 0x80 then
      Some(match data[1]
           case 0x01 => IdentityReply()
           case 0x04 => Standard(report)
           case _ => Command(data[1], []))
    else if data[0] == 0x01 && size > 16 then Some(SubcommandReply(data, report, lowMemory))
    else None
  }

  // Flash reads longer than the packet can carry are outside the model.
  predicate FitsPacket(data: seq<byte>, size: nat)
    requires |data| == EPSIZE
  {
    data[0] == 0x01 && size > 16 && data[10] == 0x10 ==> data[15] <= MAX_SPI_READ
  }

  lemma ReplyWellFormed(data: seq<byte>, size: nat, report: seq<byte>, lowMemory: byte)
    requires |data| == EPSIZE && |report| == REPORT_SIZE && FitsPacket(data, size)
    ensures var r := ReplyTo(data, size, report, lowMemory);
            r.Some? ==> WellFormed(r.value)
  {
  }

  /** The packet for a subcommand acknowledges it by number, carries the selected report, and a
      flash read is answered with its own address, its size and the flash contents. */
  lemma SubcommandEchoed(data: seq<byte>, size: nat, report: seq<byte>, lowMemory: byte, counter: byte)
    requires |data| == EPSIZE && |report| == REPORT_SIZE && FitsPacket(data, size) && data[0] == 0x01 && size > 16
    ensures var r := ReplyTo(data, size, report, lowMemory);
            && r.Some? && WellFormed(r.value)
            && var p := Render(r.value, counter);
               && p[0] == 0x21 && p[1] == counter && p[2..13] == report && p[13] >= 0x80 && p[14] == data[10]
               && (data[10] == 0x10 ==>
                     && p[15] == data[11] && p[16] == data[12] && p[19] == data[15]
                     && p[20..20 + data[15] as int] == SpiData(256 * (data[12] as int) + data[11], data[15]))
  {
    hide SpiData, DeviceInfo;
    ReplyWellFormed(data, size, report, lowMemory);
    var r := SubcommandReply(data, report, lowMemory);
    var p := Render(r, counter);
    assert p[2..13] == report;
    if data[10] == 0x10 {
      var address: word := 256 * (data[12] as int) + data[11];
      assert address % 256 == data[11] && address / 256 == data[12];
      assert p[20..20 + data[15] as int] == SpiData(address, data[15]);
    }
  }

  // ---- The slot ----

  datatype Slot = Slot(buffer: seq<byte>, counter: byte, ready: bool)

  function Prepare(slot: Slot, r: Reply): Slot
    requires WellFormed(r)
  {
    if slot.ready then slot
    else
      var counter := if Counted(r) then (slot.counter + COUNTER_INCREMENT) % 256 else slot.counter;
      Slot(Render(r, counter), counter, true)
  }

  // The packet that an IN request gets.
  function Sent(slot: Slot, report: seq<byte>): seq<byte>
    requires |report| == REPORT_SIZE
  {
    Prepare(slot, Standard(report)).buffer
  }

  function AfterSend(slot: Slot, report: seq<byte>): Slot
    requires |report| == REPORT_SIZE
  {
    Prepare(slot, Standard(report)).(ready := false)
  }

  function Setup(): Slot {
    Prepare(Slot(Repeat(0, EPSIZE), 0, false), IdentityReply())
  }
}
