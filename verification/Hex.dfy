/** The Intel HEX stream parser of the printer boot loader, one character at a time. */
module Hex {
  import opened Bytes
  import opened Flash

  const DIGITS := "0123456789ABCDEF"

  const TYPE_DATA := 0
  const TYPE_END_OF_FILE := 1
  const TYPE_EXTENDED_SEGMENT := 2
  const TYPE_EXTENDED_LINEAR := 4

  datatype ParserState = WaitLine | ByteCount | AddressHigh | AddressLow | RecordType | ReadData | Checksum

  /** HEXParser, PageDirty and RunBootloader. */
  datatype Loader = Loader(
    state: ParserState, prevData: byte, data: byte, readMsb: bool, recordType: byte, dataRem: byte,
    checksum: byte, pageStart: nat, base: nat, address: nat, pageDirty: bool, running: bool)

  /** The loader and the flash it programs. */
  datatype Board = Board(loader: Loader, flash: Flash)

  function Reset(): Loader {
    Loader(WaitLine, 0, 0, false, 0, 0, 0, 0, 0, 0, false, true)
  }

  // flashaddr_t has 16 bits on parts with at most 64 KB, else 32.
  function AddressSpace(c: Config): (n: nat)
    ensures n >= 0x1_0000 && (n == 0x1_0000 ==> c.flashSize <= n)
  {
    if c.flashSize > 0x1_0000 then 0x1_0000_0000 else 0x1_0000
  }

  // An address moved on, within the width of flashaddr_t.
  function Advance(c: Config, address: nat, n: nat): nat {
    (address + n) % AddressSpace(c)
  }

  ghost predicate ValidBoard(c: Config, b: Board) {
    ValidFlash(c, b.flash)
  }

  /** HexToDecimal: -1 for everything but a digit. Only upper-case digits count. */
  function HexToDecimal(ch: char): (r: int)
    ensures -1 <= r < 16
  {
    if 'A' <= ch <= 'F' then 10 + (ch as int - 'A' as int)
    else if '0' <= ch <= '9' then ch as int - '0' as int
    else -1
  }

  /** Exactly the sixteen upper-case digits have a value, and it is their place in the alphabet of digits. */
  lemma HexDigits(ch: char)
    ensures HexToDecimal(ch) >= 0 <==> ch in DIGITS
    ensures HexToDecimal(ch) >= 0 ==> DIGITS[HexToDecimal(ch)] == ch
  {
    if HexToDecimal(ch) >= 0 {
      assert DIGITS[HexToDecimal(ch)] == ch;
    }
  }

  // The start of the page that an address lies in.
  function PageStart(c: Config, address: nat): nat
    requires c.pageSize > 0
  {
    address - address % c.pageSize
  }

  /** FlushPageIfRequired. */
  function Flush(c: Config, b: Board): (r: Board)
    requires ValidBoard(c, b)
    ensures ValidBoard(c, r) && r.loader.readMsb == b.loader.readMsb
    ensures r.loader.dataRem == b.loader.dataRem
  {
    var l := b.loader;
    if !l.pageDirty || l.pageStart == PageStart(c, l.address) then b
    else Board(l.(pageStart := PageStart(c, l.address), pageDirty := false), WritePage(c, b.flash, l.pageStart))
  }

  // A word of a data record: erase on first use of the page, fill, advance, flush.
  function StoreWord(c: Config, b: Board, value: word): (r: Board)
    requires ValidBoard(c, b)
    ensures ValidBoard(c, r) && r.loader.readMsb == b.loader.readMsb
    ensures r.loader.dataRem == b.loader.dataRem
  {
    hide ErasePage, FillWord, Flush;
    var l := b.loader;
    var erased := if l.pageDirty then b.flash else ErasePage(c, b.flash, l.pageStart);
    Flush(c, Board(l.(pageDirty := true, address := Advance(c, l.address, 2)),
                   FillWord(c, erased, l.address, value)))
  }

  // What a word of a record does, by record type.
  function ProcessWord(c: Config, b: Board, value: word): (r: Board)
    requires ValidBoard(c, b)
    ensures ValidBoard(c, r) && r.loader.readMsb == b.loader.readMsb
    ensures r.loader.dataRem == b.loader.dataRem
  {
    hide StoreWord;
    match b.loader.recordType
    case 0 => StoreWord(c, b, value)
    case 2 => b.(loader := b.loader.(base := value * 16 % AddressSpace(c)))
    case 4 => b.(loader := b.loader.(base := value * 65536 % AddressSpace(c)))
    case _ => b
  }

  // A byte inside the data field, `loader.data`.
  function DataByte(c: Config, b: Board): (r: Board)
    requires ValidBoard(c, b)
    ensures ValidBoard(c, r) && r.loader.readMsb == b.loader.readMsb
  {
    hide ProcessWord;
    var l := b.loader.(dataRem := (b.loader.dataRem + 255) % 256);
    if l.address >= c.bootStart then b.(loader := l.(state := WaitLine, pageDirty := false))
    else if l.dataRem % 2 == 1 then b.(loader := l.(prevData := l.data))
    else
      var stored := ProcessWord(c, b.(loader := l), 256 * (l.data as int) + l.prevData);
      if l.dataRem == 0 then stored.(loader := stored.loader.(state := Checksum)) else stored
  }

  // The checksum byte: a mismatch is ignored, a match may flush and an end-of-file record ends.
  function CheckByte(c: Config, b: Board): (r: Board)
    requires ValidBoard(c, b)
    ensures ValidBoard(c, r) && r.loader.readMsb == b.loader.readMsb
  {
    hide Flush;
    if b.loader.data != (256 - b.loader.checksum as int) % 256 then b
    else
      var flushed := Flush(c, b);
      if flushed.loader.recordType == TYPE_END_OF_FILE then flushed.(loader := flushed.loader.(running := false))
      else flushed
  }

  // A complete byte, `loader.data`, in a record.
  function ProcessByte(c: Config, b: Board): (r: Board)
    requires ValidBoard(c, b)
    ensures ValidBoard(c, r) && r.loader.readMsb == b.loader.readMsb
  {
    hide DataByte, CheckByte;
    var l := b.loader;
    var summed := l.(checksum := (l.checksum as int + l.data) % 256);
    match l.state
    case ByteCount => b.(loader := summed.(dataRem := l.data, state := AddressHigh))
    case AddressHigh =>
      b.(loader := summed.(address := Advance(c, l.address, 256 * (l.data as int)), state := AddressLow))
    case AddressLow =>
      b.(loader := summed.(address := Advance(c, l.address, l.data), state := RecordType))
    case RecordType =>
      b.(loader := summed.(recordType := l.data, state := if l.dataRem != 0 then ReadData else Checksum))
    case ReadData => DataByte(c, b.(loader := summed))
    case Checksum => CheckByte(c, b)
    case WaitLine => b.(loader := summed)
  }

  /** ParseIntelHEXByte. */
  function ParseChar(c: Config, b: Board, ch: char): (r: Board)
    requires ValidBoard(c, b)
    ensures ValidBoard(c, r)
  {
    hide ProcessByte;
    var l := b.loader;
    if l.state.WaitLine? || ch == ':' then
      b.(loader := l.(checksum := 0, address := l.base, readMsb := false,
                      state := if ch == ':' then ByteCount else l.state))
    else if HexToDecimal(ch) < 0 then b
    else
      var nibble := b.(loader := l.(data := (l.data as int * 16 + HexToDecimal(ch)) % 256, readMsb := !l.readMsb));
      if nibble.loader.readMsb then nibble else ProcessByte(c, nibble)
  }

  function Parse(c: Config, b: Board, stream: seq<char>): (r: Board)
    requires ValidBoard(c, b)
    ensures ValidBoard(c, r)
  {
    hide ParseChar;
    if stream == [] then b
    else ParseChar(c, Parse(c, b, stream[..|stream| - 1]), stream[|stream| - 1])
  }

  lemma {:induction false} ParseAppend(c: Config, b: Board, p: seq<char>, q: seq<char>)
    requires ValidBoard(c, b)
    ensures Parse(c, b, p + q) == Parse(c, Parse(c, b, p), q)
  {
    hide ParseChar;
    if q == [] {
      assert p + q == p;
    } else {
      ParseAppend(c, b, p, q[..|q| - 1]);
      assert (p + q)[..|p + q| - 1] == p + q[..|q| - 1];
    }
  }

  // ---- Noise ----

  predicate Meaningful(ch: char) {
    ch == ':' || HexToDecimal(ch) >= 0
  }

  // The stream without everything that is neither ':' nor an upper-case hexadecimal digit.
  function Clean(stream: seq<char>): seq<char> {
    if stream == [] then []
    else
      var rest, ch := Clean(stream[..|stream| - 1]), stream[|stream| - 1];
      if Meaningful(ch) then rest + [ch] else rest
  }

  // Between lines the checksum, the address and the nibble flag mean nothing.
  function Essence(b: Board): Board {
    if b.loader.state.WaitLine? then b.(loader := b.loader.(checksum := 0, address := b.loader.base, readMsb := false))
    else b
  }

  lemma NoiseIgnored(c: Config, b: Board, ch: char)
    requires ValidBoard(c, b) && !Meaningful(ch)
    ensures Essence(ParseChar(c, b, ch)) == Essence(b)
  {
    hide ProcessByte;
  }

  lemma EssenceSteps(c: Config, a: Board, b: Board, ch: char)
    requires ValidBoard(c, a) && ValidBoard(c, b) && Essence(a) == Essence(b)
    ensures Essence(ParseChar(c, a, ch)) == Essence(ParseChar(c, b, ch))
  {
    hide ProcessByte;
  }

  lemma {:induction false} CleanRun(c: Config, b: Board, stream: seq<char>)
    requires ValidBoard(c, b)
    ensures Essence(Parse(c, b, stream)) == Essence(Parse(c, b, Clean(stream)))
  {
    hide ParseChar, Meaningful, Essence;
    if stream != [] {
      var init, ch := stream[..|stream| - 1], stream[|stream| - 1];
      CleanRun(c, b, init);
      var noisy, clean := Parse(c, b, init), Parse(c, b, Clean(init));
      if Meaningful(ch) {
        EssenceSteps(c, noisy, clean, ch);
        assert (Clean(init) + [ch])[..|Clean(init)|] == Clean(init);
      } else {
        NoiseIgnored(c, noisy, ch);
      }
    }
  }

  /** Noise does not matter: for every stream, deleting every other character leaves the history of
      flash operations, the memory, the buffer and the exit flag the same. */
  lemma NoiseInsensitive(c: Config, b: Board, stream: seq<char>)
    requires ValidBoard(c, b)
    ensures var noisy, clean := Parse(c, b, stream), Parse(c, b, Clean(stream));
            noisy.flash == clean.flash && noisy.loader.running == clean.loader.running
  {
    hide Parse, Clean;
    CleanRun(c, b, stream);
  }
}
