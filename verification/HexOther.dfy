/** Intel HEX records that carry no data for the flash: what each does to the open page. */
module HexOther {
  import opened Bytes
  import opened Flash
  import opened Hex
  import opened HexRoundTrip
  import opened HexBase

  // Neither data nor an extended address.
  predicate Other(recordType: byte) {
    recordType != TYPE_DATA && !Extended(recordType)
  }

  // What of a board outlives a record.
  datatype Core = Core(flash: Flash, pageStart: nat, pageDirty: bool, base: nat, running: bool)

  function CoreOf(b: Board): Core {
    var l := b.loader;
    Core(b.flash, l.pageStart, l.pageDirty, l.base, l.running)
  }

  // ---- The checksum byte ----

  /** A wrong checksum byte is forgotten: nothing is flushed and the loader goes on. */
  lemma WrongChecksum(c: Config, b: Board, x: byte)
    requires ValidBoard(c, b) && b.loader.state.Checksum? && !b.loader.readMsb && x != Negated(b.loader.checksum)
    ensures Parse(c, b, HexByte(x)) == With(b, x)
  {
    hide Parse, HexByte, Flush, ValidFlash;
    ParseHexByte(c, b, x);
  }

  /** The right one flushes the open page if the record's address lies in another page, and the right
      one of an end-of-file record ends the loader. */
  lemma RightChecksum(c: Config, b: Board)
    requires ValidBoard(c, b) && b.loader.state.Checksum? && !b.loader.readMsb
    ensures CoreOf(Parse(c, b, HexByte(Negated(b.loader.checksum)))) ==
            Ended(Flushed(c, CoreOf(b), b.loader.address), b.loader.recordType)
  {
    hide Parse, HexByte, WritePage, PageStart, ValidFlash;
    ParseHexByte(c, b, Negated(b.loader.checksum));
  }

  // The open page is written when the address has left it.
  function Flushed(c: Config, k: Core, address: nat): Core
    requires ValidFlash(c, k.flash)
  {
    if !k.pageDirty || k.pageStart == PageStart(c, address) then k
    else k.(flash := WritePage(c, k.flash, k.pageStart), pageStart := PageStart(c, address), pageDirty := false)
  }

  function Ended(k: Core, recordType: byte): Core {
    if recordType == TYPE_END_OF_FILE then k.(running := false) else k
  }

  /** An end-of-file record ends the loader if and only if its checksum is right, whatever its address. */
  lemma EndOfFileIff(c: Config, b: Board, address: nat, x: byte)
    requires ValidBoard(c, b) && b.loader.running && address < 0x1_0000
    ensures var text := ":" + HexHeader(address, 0, TYPE_END_OF_FILE);
            !Parse(c, b, text + HexByte(x)).loader.running <==> x == Negated(HeaderSum(address, 0, TYPE_END_OF_FILE))
  {
    hide Parse, HexByte, HexHeader, HeaderSum, Negated, AfterHeader, Flushed, ValidFlash, Advance;
    var text := ":" + HexHeader(address, 0, TYPE_END_OF_FILE);
    var b1 := b.(loader := AfterHeader(c, b.loader, address, 0, TYPE_END_OF_FILE));
    ParseHeader(c, b, address, 0, TYPE_END_OF_FILE);
    ParseAppend(c, b, text, HexByte(x));
    HeaderOf(c, b.loader, address, 0, TYPE_END_OF_FILE);
    if x == Negated(b1.loader.checksum) {
      RightChecksum(c, b1);
    } else {
      WrongChecksum(c, b1, x);
    }
  }

  lemma HeaderOf(c: Config, l: Loader, address: nat, length: byte, recordType: byte)
    requires address < 0x1_0000
    ensures var r := AfterHeader(c, l, address, length, recordType);
            && r.state == (if length != 0 then ReadData else Checksum) && !r.readMsb && r.dataRem == length
            && r.recordType == recordType && r.checksum == HeaderSum(address, length, recordType)
            && r.address == Advance(c, l.base, address) && r.base == l.base && r.running == l.running
            && r.pageStart == l.pageStart && r.pageDirty == l.pageDirty
  {
    hide Advance, HeaderSum;
  }

  // ---- The data of a record of another type ----

  // i bytes of the record have been read, and `rest` are to come.
  ghost predicate Reading(k: Core, address: nat, recordType: byte, sum: byte, rest: nat, b: Board) {
    var l := b.loader;
    && CoreOf(b) == k && l.address == address && l.recordType == recordType && l.checksum == sum
    && !l.readMsb && l.dataRem == rest && l.state == if rest > 0 then ReadData else Checksum
  }

  lemma OtherByte(c: Config, k: Core, address: nat, recordType: byte, sum: byte, rest: nat, b: Board, x: byte)
    requires ValidBoard(c, b) && Other(recordType) && 0 < rest < 256 && address < c.bootStart
    requires Reading(k, address, recordType, sum, rest, b)
    ensures Reading(k, address, recordType, Add(sum, x), rest - 1, Parse(c, b, HexByte(x)))
  {
    hide Parse, HexByte, StoreWord, ValidFlash;
    ParseHexByte(c, b, x);
  }

  lemma {:induction false} OtherBytes(
      c: Config, k: Core, address: nat, recordType: byte, sum: byte, b: Board, data: seq<byte>, i: nat)
    requires ValidBoard(c, b) && Other(recordType) && i <= |data| < 256 && address < c.bootStart
    requires Reading(k, address, recordType, sum, |data|, b)
    ensures Reading(k, address, recordType, Add(sum, Sum(data[..i])), |data| - i, Parse(c, b, HexBytes(data[..i])))
    decreases i
  {
    hide Parse, HexByte, Reading, Add, Other, ValidFlash;
    if i == 0 {
      assert data[..0] == [];
      ParseNothing(c, b, sum);
    } else {
      var init := data[..i - 1];
      OtherBytes(c, k, address, recordType, sum, b, data, i - 1);
      OtherByte(c, k, address, recordType, Add(sum, Sum(init)), |data| - i + 1,
                Parse(c, b, HexBytes(init)), data[i - 1]);
      assert data[..i][..i - 1] == init;
      AddAssociative(sum, Sum(init), data[i - 1]);
      ParseAppend(c, b, HexBytes(init), HexByte(data[i - 1]));
    }
  }

  // The data and the checksum are not looked at behind a byte at or above the boot loader.
  lemma GuardedData(c: Config, b: Board, data: seq<byte>, sum: byte)
    requires ValidBoard(c, b) && data != []
    requires var l := b.loader; l.state.ReadData? && !l.readMsb && l.address >= c.bootStart
    ensures CoreOf(Parse(c, Parse(c, b, HexBytes(data)), HexByte(sum))) == CoreOf(b).(pageDirty := false)
  {
    hide Parse, HexByte, HexBytes, ValidFlash;
    HexBytesFirst(data);
    var b1 := Parse(c, b, HexByte(data[0]));
    GuardDrops(c, b, data[0]);
    ParseAppend(c, b, HexByte(data[0]), HexBytes(data[1..]));
    NoColons(data[1..]);
    NoColon(sum);
    CoreBetweenLines(c, b1, HexBytes(data[1..]));
    CoreBetweenLines(c, Parse(c, b1, HexBytes(data[1..])), HexByte(sum));
  }

  lemma GuardDrops(c: Config, b: Board, x: byte)
    requires ValidBoard(c, b)
    requires var l := b.loader; l.state.ReadData? && !l.readMsb && l.address >= c.bootStart
    ensures var r := Parse(c, b, HexByte(x));
            r.loader.state.WaitLine? && CoreOf(r) == CoreOf(b).(pageDirty := false)
  {
    hide Parse, HexByte, ValidFlash;
    ParseHexByte(c, b, x);
  }

  lemma {:induction false} CoreBetweenLines(c: Config, b: Board, stream: seq<char>)
    requires ValidBoard(c, b) && b.loader.state.WaitLine? && ':' !in stream
    ensures var r := Parse(c, b, stream); r.loader.state.WaitLine? && CoreOf(r) == CoreOf(b)
  {
    hide ProcessByte, ValidFlash;
    if stream != [] {
      CoreBetweenLines(c, b, stream[..|stream| - 1]);
    }
  }

  lemma HexBytesLast(data: seq<byte>)
    requires data != []
    ensures HexBytes(data) == HexBytes(data[..|data| - 1]) + HexByte(data[|data| - 1])
  {
    hide HexByte;
  }

  lemma HexBytesNone()
    ensures HexBytes([]) == []
  {
  }

  lemma {:induction false} HexBytesFirst(data: seq<byte>)
    requires data != []
    ensures HexBytes(data) == HexByte(data[0]) + HexBytes(data[1..])
    decreases |data|
  {
    hide HexByte, HexBytes;
    var n, first := |data| - 1, HexByte(data[0]);
    HexBytesLast(data);
    if n == 0 {
      HexBytesNone();
      assert data[..0] == [] && data[1..] == [];
      assert [] + first == first + [];
    } else {
      var init, rest, last := data[..n], data[1..], HexByte(data[n]);
      HexBytesFirst(init);
      HexBytesLast(rest);
      assert init[1..] == rest[..n - 1];
      Regroup(first, HexBytes(init[1..]), last);
    }
  }

  lemma Regroup(p: seq<char>, q: seq<char>, r: seq<char>)
    ensures p + q + r == p + (q + r)
  {
  }

  lemma {:induction false} NoColons(data: seq<byte>)
    ensures ':' !in HexBytes(data)
  {
    hide HexByte;
    if data != [] {
      NoColons(data[..|data| - 1]);
      NoColon(data[|data| - 1]);
    }
  }

  // ---- The record ----

  // Whether the parser gets to the checksum of a record at this address.
  predicate Reaches(c: Config, k: Core, address: nat, data: seq<byte>) {
    data == [] || Advance(c, k.base, address) < c.bootStart
  }

  // What a record of another type does.
  function OtherEffect(c: Config, k: Core, address: nat, recordType: byte, data: seq<byte>): Core
    requires ValidFlash(c, k.flash)
  {
    if Reaches(c, k, address, data) then Ended(Flushed(c, k, Advance(c, k.base, address)), recordType)
    else k.(pageDirty := false)
  }

  lemma OtherRecord(c: Config, b: Board, address: nat, recordType: byte, data: seq<byte>)
    requires ValidBoard(c, b) && address < 0x1_0000 && |data| < 256 && Other(recordType)
    ensures CoreOf(Parse(c, b, Record(address, recordType, data))) ==
            OtherEffect(c, CoreOf(b), address, recordType, data)
  {
    hide Parse, HexByte, HexBytes, HexHeader, Add, Negated, Sum, HeaderSum, AfterHeader, Other, Advance, Flushed, Ended,
         ValidFlash;
    var l1 := AfterHeader(c, b.loader, address, |data|, recordType);
    var b1 := b.(loader := l1);
    var h := HeaderSum(address, |data|, recordType);
    var sum := Add(h, Sum(data));
    ParseHeader(c, b, address, |data|, recordType);
    HeaderOf(c, b.loader, address, |data|, recordType);
    ParseParts(c, b, b1, ":" + HexHeader(address, |data|, recordType), HexBytes(data), HexByte(Negated(sum)));
    if data != [] && l1.address >= c.bootStart {
      GuardedData(c, b1, data, Negated(sum));
    } else if data != [] {
      OtherBytes(c, CoreOf(b), l1.address, recordType, h, b1, data, |data|);
      assert data[..|data|] == data;
      RightChecksum(c, Parse(c, b1, HexBytes(data)));
    } else {
      ParseNothing(c, b1, h);
      RightChecksum(c, b1);
    }
  }

  /** Records of other types program nothing: for every board, every address and every such record
      nothing is erased or filled, the base is kept, and at most the page that was open is written. */
  lemma OtherProgramsNothing(c: Config, b: Board, address: nat, recordType: byte, data: seq<byte>)
    requires ValidBoard(c, b) && address < 0x1_0000 && |data| < 256 && Other(recordType)
    ensures var r := Parse(c, b, Record(address, recordType, data));
            r.loader.base == b.loader.base && AtMostFlushed(c, b, r)
            && (recordType != TYPE_END_OF_FILE ==> r.loader.running == b.loader.running)
  {
    hide Parse, Record, WritePage, ValidFlash, Other, Advance, PageStart;
    OtherRecord(c, b, address, recordType, data);
  }

  /** The exact condition under which such a record leaves no trace: no page is open, or the parser
      reads the record to its end and its address lies in the open page. */
  lemma OtherTracelessIff(c: Config, b: Board, address: nat, recordType: byte, data: seq<byte>)
    requires ValidBoard(c, b) && address < 0x1_0000 && |data| < 256
    requires Other(recordType) && recordType != TYPE_END_OF_FILE
    ensures var k := CoreOf(b);
            CoreOf(Parse(c, b, Record(address, recordType, data))) == k <==>
            || !k.pageDirty
            || (Reaches(c, k, address, data) && k.pageStart == PageStart(c, Advance(c, k.base, address)))
  {
    hide Parse, Record, Other, Advance, PageStart, ValidFlash, ProgrammedMemory;
    OtherRecord(c, b, address, recordType, data);
    WriteShows(c, b.flash, b.loader.pageStart);
  }

  lemma WriteShows(c: Config, f: Flash, address: nat)
    requires ValidFlash(c, f)
    ensures WritePage(c, f, address) != f
  {
    hide ProgrammedMemory;
    assert |WritePage(c, f, address).log| == |f.log| + 1;
  }

  // ---- Extended address records ----

  /** An extended address record programs nothing either: read to its end it sets the base to its bytes in
      the wrong order and flushes as every record does; at or above the boot loader it is given up. */
  lemma ExtendedEffect(c: Config, b: Board, address: nat, recordType: byte, high: byte, low: byte)
    requires ValidBoard(c, b) && address < 0x1_0000 && Extended(recordType)
    ensures var k, a := CoreOf(b), Advance(c, b.loader.base, address);
            CoreOf(Parse(c, b, Record(address, recordType, [high, low]))) ==
            if a < c.bootStart then Flushed(c, k, a).(base := Says(c, recordType, 256 * (low as int) + high))
            else k.(pageDirty := false)
  {
    hide Parse, HexByte, HexBytes, HexHeader, Add, Negated, Sum, HeaderSum, AfterHeader, Advance, Says, ValidFlash,
         PageStart, WritePage;
    var data: seq<byte> := [high, low];
    var l1 := AfterHeader(c, b.loader, address, 2, recordType);
    var b1 := b.(loader := l1);
    var h := HeaderSum(address, 2, recordType);
    var sum := Add(h, Sum(data));
    ParseHeader(c, b, address, 2, recordType);
    HeaderOf(c, b.loader, address, 2, recordType);
    ParseParts(c, b, b1, ":" + HexHeader(address, 2, recordType), HexBytes(data), HexByte(Negated(sum)));
    TwoHexBytes(high, low);
    if l1.address >= c.bootStart {
      GuardedData(c, b1, data, Negated(sum));
    } else {
      BaseBytes(c, b1, high, low);
      BaseRead(c, b1, high, low, h);
      TwoSums(h, high, low);
      RightChecksum(c, Parse(c, b1, HexBytes(data)));
    }
  }

  lemma TwoSums(h: byte, x: byte, y: byte)
    ensures Add(h, Sum([x, y])) == Add(Add(h, x), y)
  {
    hide Add;
    assert [x, y][..1] == [x] && [x][..0] == [];
    assert Sum([x, y]) == Add(Sum([x]), y) && Sum([x]) == Add(Sum([]), x);
    AddAssociative(h, Sum([x]), y);
    AddAssociative(h, Sum([]), x);
    assert Add(h, Sum([])) == h by { NothingAdded(h); }
  }

  lemma NothingAdded(h: byte)
    ensures Add(h, Sum([])) == h
  {
  }

  // The rest of what the two data bytes leave.
  lemma BaseRead(c: Config, b: Board, high: byte, low: byte, sum: byte)
    requires ValidBoard(c, b) && b.loader.checksum == sum
    requires var l := b.loader;
             l.state.ReadData? && !l.readMsb && l.dataRem == 2 && l.address < c.bootStart && Extended(l.recordType)
    ensures var r := Parse(c, b, HexByte(high) + HexByte(low));
            && r.loader.address == b.loader.address && r.loader.recordType == b.loader.recordType
            && r.loader.checksum == Add(Add(sum, high), low) && r.loader.running == b.loader.running
  {
    hide Parse, HexByte, StoreWord, AddressSpace, ValidFlash;
    ParseAppend(c, b, HexByte(high), HexByte(low));
    ParseHexByte(c, b, high);
    FirstByte(c, b, high);
    ParseHexByte(c, ProcessByte(c, With(b, high)), low);
  }
}
