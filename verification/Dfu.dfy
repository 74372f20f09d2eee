/** The DFU boot loader as a state machine over class requests. */
module Dfu {
  import opened Bytes
  import opened Flash

  const PACKET := 32
  const FILLER := 26
  const SUFFIX := 16
  const OK := 0
  const ERR_WRITE := 3
  const ERR_CHECK_ERASED := 5
  const ERR_ADDRESS := 8
  const COMMAND_PROG_START := 0x01
  const COMMAND_DISP_DATA := 0x03
  const COMMAND_WRITE := 0x04
  const COMMAND_READ := 0x05
  const MAGIC_BOOT_KEY := 0xDC42

  datatype State = Idle | DnloadIdle | UploadIdle | Error {
    // The number of the state in the class specification.
    function Code(): byte {
      match this
      case Idle => 2
      case DnloadIdle => 5
      case UploadIdle => 9
      case Error => 10
    }
  }

  /** The static variables of the boot loader, the memories, and the device signature bytes. */
  datatype Device = Device(
    isSecure: bool, running: bool, waitForExit: bool, state: State, status: byte,
    command: byte, data: seq<byte>, response: byte, appStart: word, magicKey: word,
    page64: byte, start: word, end: word,
    flash: Flash, eeprom: seq<byte>, signature: seq<byte>)

  ghost predicate Valid(c: Config, d: Device) {
    ValidFlash(c, d.flash) && |d.data| == 5 && |d.signature| == 3
  }

  datatype Request =
    | Dnload(payload: seq<byte>)
    | Upload
    | GetStatus
    | ClrStatus
    | GetState
    | Abort

  // What the host sees of a request.
  datatype Reply = Reply(bytes: seq<byte>, stalled: bool)

  // ---- Addresses and memories ----

  // The 32-bit address made of the 64 KB page and a 16-bit address.
  function Long(page64: byte, low: word): nat {
    0x1_0000 * (page64 as int) + low
  }

  // Parts with at most 64 KB are read through 16-bit addresses.
  function FlashByte(c: Config, f: Flash, address: nat): byte {
    ReadByte(f, if c.flashSize > 0x1_0000 then address else address % 0x1_0000)
  }

  // (EndAddr - StartAddr) + 1 in 16 bits.
  function RangeLength(start: word, end: word): nat {
    (end as int - start + 1) % 0x1_0000
  }

  // ---- The commands carried by DNLOAD ----

  // Erases the application section from `address` on.
  function EraseFrom(c: Config, f: Flash, address: nat): (r: Flash)
    requires ValidFlash(c, f)
    ensures ValidFlash(c, r)
    decreases c.bootStart - address
  {
    hide ErasePage;
    if address >= c.bootStart then f else EraseFrom(c, ErasePage(c, f, address), address + c.pageSize)
  }

  // The least address from `address` on whose byte is not blank, or the end of the section.
  function FirstNonBlank(c: Config, f: Flash, address: nat): (r: nat)
    requires address <= c.bootStart
    ensures address <= r <= c.bootStart
    ensures forall i :: address <= i < r ==> FlashByte(c, f, i) == 0xFF
    ensures r < c.bootStart ==> FlashByte(c, f, r) != 0xFF
    decreases c.bootStart - address
  {
    if address == c.bootStart || FlashByte(c, f, address) != 0xFF then address
    else FirstNonBlank(c, f, address + 1)
  }

  function LoadAddresses(d: Device): Device
    requires |d.data| == 5
  {
    d.(start := 256 * (d.data[1] as int) + d.data[2], end := 256 * (d.data[3] as int) + d.data[4])
  }

  function MemProg(c: Config, d: Device): (r: Device)
    requires Valid(c, d)
    ensures Valid(c, r)
  {
    hide ErasePage;
    if d.data[0] == 0 then
      var l := LoadAddresses(d);
      l.(flash := ErasePage(c, l.flash, Long(l.page64, l.start)), state := DnloadIdle)
    else if d.data[0] == 1 then LoadAddresses(d).(state := DnloadIdle)
    else d
  }

  function MemRead(c: Config, d: Device): (r: Device)
    requires Valid(c, d)
    ensures Valid(c, r)
  {
    if d.data[0] == 0 || d.data[0] == 2 then LoadAddresses(d).(state := UploadIdle)
    else if d.data[0] == 1 then
      var a := FirstNonBlank(c, d.flash, 0);
      if a < c.bootStart then
        d.(page64 := a / 0x1_0000, start := a % 0x1_0000, state := Error, status := ERR_CHECK_ERASED)
      else d
    else d
  }

  // The word at address 0.
  function ResetVector(c: Config, f: Flash): word {
    256 * (FlashByte(c, f, 1) as int) + FlashByte(c, f, 0)
  }

  function StartApplication(c: Config, d: Device, dataSize: nat): (r: Device)
    requires Valid(c, d)
    ensures Valid(c, r)
  {
    var w := d.(waitForExit := true);
    if dataSize != 0 then
      if w.data[1] == 1 then w.(appStart := 256 * (w.data[3] as int) + w.data[4]) else w
    else if w.data[1] == 0 then w.(magicKey := MAGIC_BOOT_KEY)
    else if ResetVector(c, w.flash) == 0xFFFF then w.(running := false)
    else w
  }

  function Write(c: Config, d: Device, dataSize: nat): (r: Device)
    requires Valid(c, d)
    ensures Valid(c, r)
  {
    hide EraseFrom, StartApplication;
    if d.data[0] == 3 then StartApplication(c, d, dataSize)
    else if d.data[0] == 0 && d.data[1] == 0xFF then d.(flash := EraseFrom(c, d.flash, 0), isSecure := false)
    else d
  }

  // What the identification command finds: a byte, a bad address, or nothing to do.
  datatype Identity = Known(value: byte) | BadAddress | NotAsked

  function Identify(data: seq<byte>, signature: seq<byte>): Identity
    requires |data| == 5 && |signature| == 3
  {
    var i := data[1];
    if data[0] == 0 then
      if i == 0 then Known(0x20)
      else if i == 1 then Known(0xDC)
      else if i == 2 then Known(0xFB)
      else BadAddress
    else if data[0] == 1 then
      match i
      case 0x30 => Known(0x58)
      case 0x31 => Known(signature[0])
      case 0x60 => Known(signature[1])
      case 0x61 => Known(signature[2])
      case _ => BadAddress
    else NotAsked
  }

  function Read(c: Config, d: Device): (r: Device)
    requires Valid(c, d)
    ensures Valid(c, r)
  {
    match Identify(d.data, d.signature)
    case Known(value) => d.(response := value)
    case BadAddress => d.(state := Error, status := ERR_ADDRESS)
    case NotAsked => d
  }

  // In secure mode only reads of the identification bytes and a chip erase are let through.
  predicate Allowed(d: Device)
    requires |d.data| == 5
  {
    d.isSecure ==> d.command == COMMAND_READ || (d.command == COMMAND_WRITE && d.data[0] == 0 && d.data[1] == 0xFF)
  }

  /** ProcessBootloaderCommand. */
  function ProcessCommand(c: Config, d: Device, dataSize: nat): (r: Device)
    requires Valid(c, d)
    ensures Valid(c, r)
  {
    hide MemProg, MemRead, Write, Read;
    if !Allowed(d) then d.(state := Error, status := ERR_WRITE)
    else
      match d.command
      case 1 => MemProg(c, d)
      case 3 => MemRead(c, d)
      case 4 => Write(c, d, dataSize)
      case 5 => Read(c, d)
      case 6 => if d.data[0] == 3 && d.data[1] == 0 then d.(page64 := d.data[2]) else d
      case _ => d
  }

  // ---- The data stage ----

  /** The control endpoint: the unread rest of the current packet, and what the host still has. */
  datatype Endpoint = Endpoint(cur: seq<byte>, rest: seq<byte>)

  function FirstPacket(payload: seq<byte>): Endpoint {
    NextPacket(Endpoint([], payload))
  }

  function NextPacket(ep: Endpoint): Endpoint {
    var n := if |ep.rest| < PACKET then |ep.rest| else PACKET;
    Endpoint(ep.rest[..n], ep.rest[n..])
  }

  lemma FirstPacketPrefix(payload: seq<byte>)
    ensures var first := FirstPacket(payload).cur;
            first == payload[..|first|] && |first| == if |payload| < PACKET then |payload| else PACKET
  {
  }

  // A read of an exhausted endpoint yields nothing useful.
  function Peek(ep: Endpoint, i: nat): byte {
    if i < |ep.cur| then ep.cur[i] else 0
  }

  function Skip(ep: Endpoint, n: nat): Endpoint {
    ep.(cur := if n <= |ep.cur| then ep.cur[n..] else [])
  }

  /** DiscardFillerBytes: an iteration that fetches a packet discards nothing. */
  function Discard(ep: Endpoint, n: nat): Endpoint
    decreases n
  {
    if n == 0 then ep
    else if ep.cur != [] then Discard(Skip(ep, 1), n - 1)
    else if ep.rest == [] then ep
    else Discard(NextPacket(ep), n - 1)
  }

  // The endpoint ready for the next read, unless the host has gone.
  function Fetched(ep: Endpoint): Endpoint {
    if ep.cur == [] then NextPacket(ep) else ep
  }

  predicate Gone(ep: Endpoint) {
    ep.cur == [] && ep.rest == []
  }

  datatype Transfer = Transfer(flash: Flash, ep: Endpoint, complete: bool)

  /** The word loop of a flash download: `words` to go, the next one for `address`; the page at
      `page` is open with `inPage` words in it. */
  function ProgramWords(
      c: Config, f: Flash, ep: Endpoint, words: nat, address: nat, page: nat, inPage: nat): (r: Transfer)
    requires ValidFlash(c, f)
    ensures ValidFlash(c, r.flash)
    decreases words
  {
    hide FillWord, WritePage, ErasePage, Fetched;
    if words == 0 then Transfer(f, ep, true)
    else if Gone(ep) then Transfer(f, ep, false)
    else
      var e := Fetched(ep);
      var filled := FillWord(c, f, address, 256 * (Peek(e, 1) as int) + Peek(e, 0));
      var left := words - 1;
      if inPage + 1 == c.pageSize / 2 || left == 0 then
        var written := WritePage(c, filled, page);
        if left > 0 then
          ProgramWords(c, ErasePage(c, written, address + 2), Skip(e, 2), left, address + 2, address + 2, 0)
        else ProgramWords(c, written, Skip(e, 2), left, address + 2, page, inPage + 1)
      else ProgramWords(c, filled, Skip(e, 2), left, address + 2, page, inPage + 1)
  }

  // The byte loop of an EEPROM download.
  function ProgramEeprom(d: Device, ep: Endpoint, bytes: nat): Device
    decreases bytes
  {
    if bytes == 0 || Gone(ep) then d
    else
      var e := Fetched(ep);
      ProgramEeprom(d.(eeprom := EepromUpdate(d.eeprom, d.start, Peek(e, 0)), start := (d.start as int + 1) % 0x1_0000),
                    Skip(e, 1), bytes - 1)
  }

  // The firmware part of a DNLOAD request, once the command has been processed.
  function Download(c: Config, d: Device, ep: Endpoint): (r: Device)
    requires Valid(c, d)
    ensures Valid(c, r)
  {
    hide Discard, ProgramWords, ProgramEeprom;
    var e := Discard(Discard(ep, FILLER), d.start % PACKET);
    var bytes := RangeLength(d.start, d.end);
    if d.data[0] == 0 then
      var address := Long(d.page64, d.start);
      var t := ProgramWords(c, d.flash, e, bytes / 2, address, address, 0);
      d.(flash := t.flash, start := if t.complete then d.end else d.start)
    else
      EepromKeeps(d, e, bytes);
      ProgramEeprom(d, e, bytes)
  }

  lemma {:induction false} EepromKeeps(d: Device, ep: Endpoint, bytes: nat)
    ensures var r := ProgramEeprom(d, ep, bytes);
            r == d.(eeprom := r.eeprom, start := r.start)
    decreases bytes
  {
    hide Fetched, Skip, EepromUpdate;
    if bytes != 0 && !Gone(ep) {
      var e := Fetched(ep);
      EepromKeeps(d.(eeprom := EepromUpdate(d.eeprom, d.start, Peek(e, 0)), start := (d.start as int + 1) % 0x1_0000),
                  Skip(e, 1), bytes - 1);
    }
  }

  // The command bytes of a request: what is missing keeps its old value.
  function LoadCommand(d: Device, payload: seq<byte>): Device
    requires |d.data| == 5 && payload != []
  {
    var n := if |payload| < 6 then |payload| - 1 else 5;
    d.(command := payload[0], data := payload[1..n + 1] + d.data[n..])
  }

  // How much of the payload is left after the command bytes.
  function AfterCommand(payload: seq<byte>): nat {
    if |payload| < 6 then 0 else |payload| - 6
  }

  // The command bytes that the first packet holds: i of them behind the command itself.
  lemma CommandInPacket(d: Device, payload: seq<byte>, i: nat)
    requires |d.data| == 5 && payload != []
    requires var first := FirstPacket(payload).cur; i == if |first| < 6 then |first| - 1 else 5
    ensures i < |payload| && i < |FirstPacket(payload).cur|
    ensures LoadCommand(d, payload) == d.(command := payload[0], data := payload[1..i + 1] + d.data[i..])
    ensures AfterCommand(payload) == |payload| - 1 - i
    ensures Skip(FirstPacket(payload), 6) == FirstPacket(payload).(cur := FirstPacket(payload).cur[i + 1..])
  {
    FirstPacketPrefix(payload);
  }

  // A pending exit is processed when the next DNLOAD request comes.
  function Woken(c: Config, d: Device, payload: seq<byte>): (r: Device)
    requires Valid(c, d)
    ensures Valid(c, r)
  {
    hide ProcessCommand;
    if d.waitForExit then ProcessCommand(c, d, |payload|).(waitForExit := false) else d
  }

  // The commands of a DNLOAD request: a pending exit first, then its own.
  function Commands(c: Config, d: Device, payload: seq<byte>): (r: Device)
    requires Valid(c, d)
    ensures Valid(c, r)
  {
    hide ProcessCommand, Woken;
    var w := Woken(c, d, payload);
    if payload == [] then w else ProcessCommand(c, LoadCommand(w, payload), AfterCommand(payload))
  }

  // Whether the request is stalled because secure mode forbids a command.
  predicate Stalls(c: Config, d: Device, payload: seq<byte>)
    requires Valid(c, d)
  {
    hide Woken;
    (d.waitForExit && !Allowed(d)) || (payload != [] && !Allowed(LoadCommand(Woken(c, d, payload), payload)))
  }

  function DnloadStep(c: Config, d: Device, payload: seq<byte>): (r: Device)
    requires Valid(c, d)
    ensures Valid(c, r)
  {
    hide Commands, Download;
    var p := Commands(c, d, payload);
    if !p.state.DnloadIdle? then p
    else if AfterCommand(payload) == 0 then p.(state := Idle)
    else Download(c, p, Skip(FirstPacket(payload), 6))
  }

  // ---- UPLOAD ----

  function FlashBytes(c: Config, f: Flash, address: nat, words: nat): (r: seq<byte>)
    ensures |r| == 2 * words
  {
    if words == 0 then []
    else FlashBytes(c, f, address, words - 1)
         + [FlashByte(c, f, address + 2 * words - 2), FlashByte(c, f, address + 2 * words - 1)]
  }

  function EepromBytes(e: seq<byte>, address: nat, bytes: nat): seq<byte> {
    if bytes == 0 then []
    else EepromBytes(e, address, bytes - 1) + [EepromByte(e, (address + bytes - 1) % 0x1_0000)]
  }

  function UploadReply(c: Config, d: Device): seq<byte>
    requires Valid(c, d)
  {
    if !d.state.UploadIdle? then
      if d.state.Error? && d.data[0] == 1 then [d.start % 256, d.start / 256] else [d.response]
    else
      var bytes := RangeLength(d.start, d.end);
      if d.data[0] == 0 then FlashBytes(c, d.flash, Long(d.page64, d.start), bytes / 2)
      else if d.data[0] == 2 then EepromBytes(d.eeprom, d.start, bytes)
      else []
  }

  function UploadStep(d: Device): Device
    requires |d.data| == 5
  {
    if !d.state.UploadIdle? then d
    else
      var start: word :=
        if d.data[0] == 0 then d.end
        else if d.data[0] == 2 then (d.start as int + RangeLength(d.start, d.end)) % 0x1_0000
        else d.start;
      d.(start := start, state := Idle)
  }

  // ---- Requests and runs ----

  /** EVENT_USB_Device_ControlRequest. */
  function Step(c: Config, d: Device, q: Request): (r: Device)
    requires Valid(c, d)
    ensures Valid(c, r)
  {
    hide DnloadStep;
    match q
    case Dnload(payload) => DnloadStep(c, d, payload)
    case Upload => UploadStep(d)
    case GetStatus => d
    case ClrStatus => d.(status := OK)
    case GetState => d
    case Abort => d.(state := Idle)
  }

  function Answer(c: Config, d: Device, q: Request): Reply
    requires Valid(c, d)
  {
    match q
    case Dnload(payload) => Reply([], Stalls(c, d, payload))
    case Upload => Reply(UploadReply(c, d), false)
    case GetStatus => Reply([d.status, 0, 0, 0, d.state.Code(), 0], false)
    case ClrStatus => Reply([], false)
    case GetState => Reply([d.state.Code()], false)
    case Abort => Reply([], false)
  }

  // Everything the host sees during a run.
  function Answers(c: Config, d: Device, qs: seq<Request>): seq<Reply>
    requires Valid(c, d)
    decreases |qs|
  {
    hide Step, Answer;
    if qs == [] then [] else [Answer(c, d, qs[0])] + Answers(c, Step(c, d, qs[0]), qs[1..])
  }

  function After(c: Config, d: Device, qs: seq<Request>): (r: Device)
    requires Valid(c, d)
    ensures Valid(c, r)
    decreases |qs|
  {
    hide Step;
    if qs == [] then d else After(c, Step(c, d, qs[0]), qs[1..])
  }
}
