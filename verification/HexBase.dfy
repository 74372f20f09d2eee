/** The extended address records of Intel HEX: what base they set, and what follows from it. */
module HexBase {
  import opened Bytes
  import opened Flash
  import opened Hex
  import opened HexRoundTrip

  predicate Extended(recordType: byte) {
    recordType == TYPE_EXTENDED_SEGMENT || recordType == TYPE_EXTENDED_LINEAR
  }

  function Shift(recordType: byte): nat {
    if recordType == TYPE_EXTENDED_SEGMENT then 16 else 65536
  }

  // The base that a record says, as far as flashaddr_t can hold it.
  function Says(c: Config, recordType: byte, v: word): nat {
    v as int * Shift(recordType) % AddressSpace(c)
  }

  function Swapped(v: word): word {
    256 * (v % 256) + v / 256
  }

  // ---- One record ----

  // The two data bytes of an extended address record below the boot loader, after its header.
  lemma BaseBytes(c: Config, b: Board, high: byte, low: byte)
    requires ValidBoard(c, b)
    requires var l := b.loader;
             l.state.ReadData? && !l.readMsb && l.dataRem == 2 && l.address < c.bootStart && Extended(l.recordType)
    ensures var r := Parse(c, b, HexByte(high) + HexByte(low));
            && r.loader.base == Says(c, b.loader.recordType, 256 * (low as int) + high)
            && r.loader.state.Checksum? && !r.loader.readMsb
            && r.flash == b.flash && r.loader.pageDirty == b.loader.pageDirty
            && r.loader.pageStart == b.loader.pageStart
  {
    hide Parse, HexByte, StoreWord, AddressSpace;
    ParseAppend(c, b, HexByte(high), HexByte(low));
    ParseHexByte(c, b, high);
    FirstByte(c, b, high);
    ParseHexByte(c, ProcessByte(c, With(b, high)), low);
  }

  // Between lines, nothing but a colon is looked at.
  lemma {:induction false} BetweenLines(c: Config, b: Board, stream: seq<char>)
    requires ValidBoard(c, b) && b.loader.state.WaitLine? && ':' !in stream
    ensures var r := Parse(c, b, stream);
            r.loader.state.WaitLine? && r.loader.base == b.loader.base
  {
    hide ProcessByte;
    if stream != [] {
      BetweenLines(c, b, stream[..|stream| - 1]);
    }
  }

  lemma NoColon(x: byte)
    ensures ':' !in HexByte(x)
  {
    DigitValue(x / 16);
    DigitValue(x % 16);
  }

  // A data byte at or above the boot loader ends the record.
  lemma GuardedByte(c: Config, b: Board, x: byte)
    requires ValidBoard(c, b)
    requires var l := b.loader; l.state.ReadData? && !l.readMsb && l.address >= c.bootStart
    ensures var r := Parse(c, b, HexByte(x));
            r.loader.state.WaitLine? && r.loader.base == b.loader.base
  {
    hide Parse, HexByte;
    ParseHexByte(c, b, x);
  }

  // Neither the checksum byte nor the flush it allows touches the base.
  lemma ChecksumKeepsBase(c: Config, b: Board, x: byte)
    requires ValidBoard(c, b) && b.loader.state.Checksum? && !b.loader.readMsb
    ensures Parse(c, b, HexByte(x)).loader.base == b.loader.base
  {
    hide Parse, HexByte, WritePage, PageStart;
    ParseHexByte(c, b, x);
  }

  lemma TwoHexBytes(x: byte, y: byte)
    ensures HexBytes([x, y]) == HexByte(x) + HexByte(y)
  {
    hide HexByte;
    assert [x, y][..1] == [x] && [x][..0] == [];
    assert HexBytes([x]) == HexByte(x);
  }

  lemma HeaderRead(c: Config, l: Loader, address: nat, recordType: byte)
    requires address < 0x1_0000
    ensures var r := AfterHeader(c, l, address, 2, recordType);
            && r.state.ReadData? && !r.readMsb && r.dataRem == 2 && r.recordType == recordType
            && r.address == Advance(c, l.base, address) && r.base == l.base
  {
    hide Advance, HeaderSum;
  }

  // The rest of a record whose data are not read.
  lemma Unread(c: Config, b: Board, high: byte, low: byte, sum: byte)
    requires ValidBoard(c, b)
    requires var l := b.loader; l.state.ReadData? && !l.readMsb && l.address >= c.bootStart
    ensures Parse(c, Parse(c, b, HexByte(high) + HexByte(low)), HexByte(sum)).loader.base == b.loader.base
  {
    hide Parse, HexByte;
    var b1 := Parse(c, b, HexByte(high));
    GuardedByte(c, b, high);
    ParseAppend(c, b, HexByte(high), HexByte(low));
    NoColon(low);
    NoColon(sum);
    BetweenLines(c, b1, HexByte(low));
    BetweenLines(c, Parse(c, b1, HexByte(low)), HexByte(sum));
  }

  /** What an extended address record does, for every base and every address field: if the base moved
      on by the address field lies below the boot loader, the two bytes are taken in the wrong order;
      otherwise the record is ignored. */
  lemma ExtendedAddressSwapped(c: Config, b: Board, address: nat, recordType: byte, v: word)
    requires ValidBoard(c, b) && address < 0x1_0000 && Extended(recordType)
    ensures Parse(c, b, Record(address, recordType, [v / 256, v % 256])).loader.base
         == if Advance(c, b.loader.base, address) < c.bootStart then Says(c, recordType, Swapped(v)) else b.loader.base
  {
    hide Parse, HexByte, HexBytes, HexHeader, Add, Negated, AfterHeader, Sum, Advance, HeaderSum, Says;
    var high: byte, low: byte := v / 256, v % 256;
    var data: seq<byte> := [high, low];
    var b1 := b.(loader := AfterHeader(c, b.loader, address, 2, recordType));
    ParseHeader(c, b, address, 2, recordType);
    TwoHexBytes(high, low);
    var sum := Negated(Add(HeaderSum(address, 2, recordType), Sum(data)));
    ParseParts(c, b, b1, ":" + HexHeader(address, 2, recordType), HexBytes(data), HexByte(sum));
    HeaderRead(c, b.loader, address, recordType);
    if Advance(c, b.loader.base, address) < c.bootStart {
      BaseBytes(c, b1, high, low);
      ChecksumKeepsBase(c, Parse(c, b1, HexBytes(data)), sum);
    } else {
      Unread(c, b1, high, low, sum);
    }
  }

  // On which values the exchange does not matter.
  lemma SwappedSays(c: Config, recordType: byte, v: word)
    requires Extended(recordType)
    ensures Says(c, recordType, Swapped(v)) == Says(c, recordType, v)
        <==> v / 256 == v % 256 || (recordType == TYPE_EXTENDED_LINEAR && c.flashSize <= 0x1_0000)
  {
    hide Swapped;
    var high, low := v / 256, v % 256;
    SwappedIs(v);
    if c.flashSize > 0x1_0000 {
      SaysAll(c, recordType, v);
      SaysAll(c, recordType, Swapped(v));
    } else if recordType == TYPE_EXTENDED_SEGMENT {
      SegmentsDiffer(high, low);
      assert v == 256 * high + low;
    } else {
      LinearVanishes(c, v);
      LinearVanishes(c, Swapped(v));
    }
  }

  lemma SwappedIs(v: word)
    ensures Swapped(v) == 256 * (v % 256) + v / 256 && (Swapped(v) == v <==> v / 256 == v % 256)
  {
    assert v == 256 * (v / 256) + v % 256;
  }

  // 32 bits hold every base.
  lemma SaysAll(c: Config, recordType: byte, v: word)
    requires c.flashSize > 0x1_0000
    ensures Says(c, recordType, v) == v as int * Shift(recordType)
  {
  }

  // 16 bits hold no linear base but zero.
  lemma LinearVanishes(c: Config, v: word)
    requires c.flashSize <= 0x1_0000
    ensures Says(c, TYPE_EXTENDED_LINEAR, v) == 0
  {
  }

  lemma SegmentsDiffer(high: byte, low: byte)
    ensures (256 * (high as int) + low) * 16 % 0x1_0000 == (256 * (low as int) + high) * 16 % 0x1_0000 <==> high == low
  {
    var x, y := (256 * (high as int) + low) * 16, (256 * (low as int) + high) * 16;
    if x % 0x1_0000 == y % 0x1_0000 {
      var k := x / 0x1_0000 - y / 0x1_0000;
      var d := high as int - low;
      assert 255 * (d - 16 * k) == 16 * k && -16 < k < 16;
    }
  }

  /** The exact condition under which an extended address record, with the zero address field of the
      format, leaves the base it says. Below the boot loader its two bytes must be equal, unless the
      part is so small that a linear base vanishes; above, the base must have been right already. */
  lemma BaseRightIff(c: Config, b: Board, recordType: byte, v: word)
    requires ValidBoard(c, b) && b.loader.base < AddressSpace(c) && Extended(recordType)
    ensures Parse(c, b, Record(0, recordType, [v / 256, v % 256])).loader.base == Says(c, recordType, v)
        <==> if b.loader.base < c.bootStart
             then v / 256 == v % 256 || (recordType == TYPE_EXTENDED_LINEAR && c.flashSize <= 0x1_0000)
             else b.loader.base == Says(c, recordType, v)
  {
    hide Parse, Record, Says;
    ExtendedAddressSwapped(c, b, 0, recordType, v);
    SwappedSays(c, recordType, v);
  }

  // ---- The base above the boot loader ----

  const MAX_BASE := 0xFFFF_0000

  /** The base is at or above the boot loader, and so is the address inside a record. */
  ghost predicate Stuck(c: Config, l: Loader) {
    && c.flashSize > 0x1_0000 && c.bootStart <= l.base <= MAX_BASE
    && match l.state
       case WaitLine => true
       case Checksum => true
       case ByteCount => l.address == l.base
       case AddressHigh => l.address == l.base
       case AddressLow => l.base <= l.address <= l.base + 0xFF00
       case RecordType => l.base <= l.address
       case ReadData => l.base <= l.address
  }

  // What can still happen to the flash: the page that was open is written, once.
  ghost predicate AtMostFlushed(c: Config, b: Board, r: Board)
    requires ValidBoard(c, b)
  {
    || (r.flash == b.flash && (r.loader.pageDirty ==> b.loader.pageDirty && r.loader.pageStart == b.loader.pageStart))
    || (b.loader.pageDirty && !r.loader.pageDirty && r.flash == WritePage(c, b.flash, b.loader.pageStart))
  }

  lemma StuckData(c: Config, b: Board)
    requires ValidBoard(c, b) && Stuck(c, b.loader) && b.loader.state.ReadData?
    ensures var r := DataByte(c, b);
            Stuck(c, r.loader) && r.loader.base == b.loader.base && AtMostFlushed(c, b, r)
  {
    hide WritePage, ProcessWord, ValidFlash;
  }

  lemma StuckCheck(c: Config, b: Board)
    requires ValidBoard(c, b) && Stuck(c, b.loader) && b.loader.state.Checksum?
    ensures var r := CheckByte(c, b);
            Stuck(c, r.loader) && r.loader.base == b.loader.base && AtMostFlushed(c, b, r)
  {
    hide WritePage, PageStart, ValidFlash;
  }

  lemma StuckByte(c: Config, b: Board)
    requires ValidBoard(c, b) && Stuck(c, b.loader)
    ensures var r := ProcessByte(c, b);
            Stuck(c, r.loader) && r.loader.base == b.loader.base && AtMostFlushed(c, b, r)
  {
    hide WritePage, DataByte, CheckByte, ValidFlash;
    var l := b.loader;
    if l.state.ReadData? {
      StuckData(c, b.(loader := l.(checksum := (l.checksum as int + l.data) % 256)));
    } else if l.state.Checksum? {
      StuckCheck(c, b);
    }
  }

  lemma StuckChar(c: Config, b: Board, ch: char)
    requires ValidBoard(c, b) && Stuck(c, b.loader)
    ensures var r := ParseChar(c, b, ch);
            Stuck(c, r.loader) && r.loader.base == b.loader.base && AtMostFlushed(c, b, r)
  {
    hide WritePage, ProcessByte, HexToDecimal, ValidFlash;
    var l := b.loader;
    if !l.state.WaitLine? && ch != ':' && HexToDecimal(ch) >= 0 {
      var nibble := b.(loader := l.(data := (l.data as int * 16 + HexToDecimal(ch)) % 256, readMsb := !l.readMsb));
      StuckByte(c, nibble);
    }
  }

  /** On parts over 64 KB a base at or above the boot loader is for ever: no stream changes it, no page
      is erased or filled again, and at most the page that was open is still written. */
  lemma {:induction false} StuckForEver(c: Config, b: Board, stream: seq<char>)
    requires ValidBoard(c, b) && Stuck(c, b.loader)
    ensures var r := Parse(c, b, stream);
            Stuck(c, r.loader) && r.loader.base == b.loader.base && AtMostFlushed(c, b, r)
  {
    hide ParseChar, Stuck, WritePage, ValidFlash;
    if stream != [] {
      StuckForEver(c, b, stream[..|stream| - 1]);
      StuckChar(c, Parse(c, b, stream[..|stream| - 1]), stream[|stream| - 1]);
    }
  }

  // ---- Every base that a record can set leaves room for an address field ----

  lemma StoreKeepsBase(c: Config, b: Board, value: word)
    requires ValidBoard(c, b)
    ensures StoreWord(c, b, value).loader.base == b.loader.base
  {
    hide WritePage, PageStart, ErasePage, FillWord, ValidFlash, Advance;
  }

  lemma CheckKeepsBase(c: Config, b: Board)
    requires ValidBoard(c, b)
    ensures CheckByte(c, b).loader.base == b.loader.base
  {
    hide WritePage, PageStart, ValidFlash;
  }

  lemma BoundedWord(c: Config, b: Board, value: word)
    requires ValidBoard(c, b) && c.flashSize > 0x1_0000 && b.loader.base <= MAX_BASE
    ensures ProcessWord(c, b, value).loader.base <= MAX_BASE
  {
    hide StoreWord, ValidFlash;
    StoreKeepsBase(c, b, value);
  }

  lemma BoundedData(c: Config, b: Board)
    requires ValidBoard(c, b) && c.flashSize > 0x1_0000 && b.loader.base <= MAX_BASE
    ensures DataByte(c, b).loader.base <= MAX_BASE
  {
    hide ProcessWord, ValidFlash;
    var l := b.loader.(dataRem := (b.loader.dataRem + 255) % 256);
    BoundedWord(c, b.(loader := l), 256 * (l.data as int) + l.prevData);
  }

  lemma BoundedByte(c: Config, b: Board)
    requires ValidBoard(c, b) && c.flashSize > 0x1_0000 && b.loader.base <= MAX_BASE
    ensures ProcessByte(c, b).loader.base <= MAX_BASE
  {
    hide DataByte, CheckByte, ValidFlash, Advance;
    var l := b.loader;
    BoundedData(c, b.(loader := l.(checksum := (l.checksum as int + l.data) % 256)));
    CheckKeepsBase(c, b);
  }

  lemma BoundedChar(c: Config, b: Board, ch: char)
    requires ValidBoard(c, b) && c.flashSize > 0x1_0000 && b.loader.base <= MAX_BASE
    ensures ParseChar(c, b, ch).loader.base <= MAX_BASE
  {
    hide ProcessByte, HexToDecimal, ValidFlash;
    var l := b.loader;
    if HexToDecimal(ch) >= 0 {
      BoundedByte(c, b.(loader := l.(data := (l.data as int * 16 + HexToDecimal(ch)) % 256, readMsb := !l.readMsb)));
    }
  }

  lemma {:induction false} BaseBounded(c: Config, b: Board, stream: seq<char>)
    requires ValidBoard(c, b) && c.flashSize > 0x1_0000 && b.loader.base <= MAX_BASE
    ensures Parse(c, b, stream).loader.base <= MAX_BASE
  {
    hide ParseChar, ValidFlash;
    if stream != [] {
      BaseBounded(c, b, stream[..|stream| - 1]);
      BoundedChar(c, Parse(c, b, stream[..|stream| - 1]), stream[|stream| - 1]);
    }
  }

  /** The same over whole runs: once the records sent so far have left the base at or above the boot
      loader, it is the base of every continuation. */
  lemma BaseIsForEver(c: Config, flash: Flash, sent: seq<char>, more: seq<char>)
    requires ValidFlash(c, flash) && c.flashSize > 0x1_0000
    ensures var b := Parse(c, Board(Reset(), flash), sent);
            b.loader.base >= c.bootStart && (b.loader.state.WaitLine? || b.loader.state.Checksum?) ==>
              var r := Parse(c, Board(Reset(), flash), sent + more);
              r.loader.base == b.loader.base && AtMostFlushed(c, b, r)
  {
    hide Parse, WritePage, ValidFlash;
    var start := Board(Reset(), flash);
    var b := Parse(c, start, sent);
    BaseBounded(c, start, sent);
    ParseAppend(c, start, sent, more);
    if b.loader.base >= c.bootStart && (b.loader.state.WaitLine? || b.loader.state.Checksum?) {
      StuckForEver(c, b, more);
    }
  }

  // The board behind the two bytes of an extended record.
  lemma BaseSet(c: Config, b: Board, recordType: byte, high: byte, low: byte)
    requires ValidBoard(c, b) && b.loader.base < c.bootStart <= AddressSpace(c) && Extended(recordType)
    ensures var b1 := Parse(c, b, ":" + HexHeader(0, 2, recordType));
            ValidBoard(c, b1)
            && var r := Parse(c, b1, HexByte(high) + HexByte(low));
               && r.loader.base == Says(c, recordType, 256 * (low as int) + high) && r.loader.state.Checksum?
               && r.flash == b.flash && r.loader.pageDirty == b.loader.pageDirty
               && r.loader.pageStart == b.loader.pageStart
  {
    hide Parse, HexByte, HexHeader, AfterHeader, HeaderSum, Says, ValidFlash;
    var b1 := b.(loader := AfterHeader(c, b.loader, 0, 2, recordType));
    ParseHeader(c, b, 0, 2, recordType);
    HeaderRead(c, b.loader, 0, recordType);
    HeaderKeepsPage(c, b.loader, recordType);
    BaseBytes(c, b1, high, low);
  }

  lemma HeaderKeepsPage(c: Config, l: Loader, recordType: byte)
    ensures var r := AfterHeader(c, l, 0, 2, recordType);
            r.pageDirty == l.pageDirty && r.pageStart == l.pageStart
  {
    hide Advance, HeaderSum;
  }

  /** Everything behind such a record is lost: on a part over 64 KB an extended address record whose
      exchanged value lies at or above the boot loader ends all programming, whatever follows. */
  lemma RestIsLost(c: Config, b: Board, recordType: byte, v: word, stream: seq<char>)
    requires ValidBoard(c, b) && c.flashSize > 0x1_0000 && b.loader.base < c.bootStart && Extended(recordType)
    requires Says(c, recordType, Swapped(v)) >= c.bootStart
    ensures var r := Parse(c, b, Record(0, recordType, [v / 256, v % 256]) + stream);
            r.loader.base == Says(c, recordType, Swapped(v)) && AtMostFlushed(c, b, r)
  {
    hide Parse, HexByte, HexBytes, HexHeader, Add, Negated, Sum, HeaderSum, WritePage, ValidFlash;
    var high: byte, low: byte := v / 256, v % 256;
    var data: seq<byte> := [high, low];
    TwoHexBytes(high, low);
    BaseSet(c, b, recordType, high, low);
    var header := ":" + HexHeader(0, 2, recordType);
    var b1 := Parse(c, b, header);
    var sum := HexByte(Negated(Add(HeaderSum(0, 2, recordType), Sum(data))));
    ParseParts(c, b, b1, header, HexBytes(data), sum + stream);
    assert Record(0, recordType, data) + stream == header + HexBytes(data) + (sum + stream);
    StuckForEver(c, Parse(c, b1, HexBytes(data)), sum + stream);
  }

  /** A file that is lost: the record for the second 64 KB sets the base to 16 MB. */
  lemma SecondSegmentLost(c: Config, b: Board, stream: seq<char>)
    requires ValidBoard(c, b) && b.loader.base == 0 && c.flashSize > 0x1_0000
    ensures var r := Parse(c, b, Record(0, TYPE_EXTENDED_LINEAR, [0, 1]) + stream);
            r.loader.base == 0x100_0000 && AtMostFlushed(c, b, r)
  {
    hide Parse, Record, AtMostFlushed;
    RestIsLost(c, b, TYPE_EXTENDED_LINEAR, 1, stream);
  }

  /** A record that is ignored although its bytes are equal: the base was too high already. */
  lemma EqualBytesIgnored(c: Config, b: Board)
    requires ValidBoard(c, b) && b.loader.base == 0 && c.flashSize > 0x1_0000
    ensures Parse(c, b, Record(0, TYPE_EXTENDED_LINEAR, [1, 1]) + Record(0, TYPE_EXTENDED_LINEAR, [0, 0])).loader.base
         == 0x101_0000
  {
    hide Parse, Record, AtMostFlushed;
    RestIsLost(c, b, TYPE_EXTENDED_LINEAR, 0x101, Record(0, TYPE_EXTENDED_LINEAR, [0, 0]));
  }

  /** On smaller parts the address wraps around, and a record whose address field does so moves the
      base again. */
  lemma SmallPartsRecover(c: Config, b: Board, recordType: byte, v: word)
    requires ValidBoard(c, b) && Extended(recordType) && c.flashSize <= 0x1_0000
    requires c.bootStart <= b.loader.base < 0x1_0000
    ensures Parse(c, b, Record(0x1_0000 - b.loader.base, recordType, [v / 256, v % 256])).loader.base
         == Says(c, recordType, Swapped(v))
  {
    hide Parse, Record, Says;
    ExtendedAddressSwapped(c, b, 0x1_0000 - b.loader.base, recordType, v);
  }
}
