/** Printing an image as Intel HEX records and parsing the stream programs the image. */
module HexRoundTrip {
  import opened Bytes
  import opened Flash
  import opened Hex

  // ---- Printing ----

  function Digit(n: nat): char
    requires n < 16
  {
    if n < 10 then ('0' as int + n) as char else ('A' as int + n - 10) as char
  }

  function HexByte(b: byte): seq<char> {
    [Digit(b / 16), Digit(b % 16)]
  }

  function HexBytes(bytes: seq<byte>): seq<char> {
    if bytes == [] then [] else HexBytes(bytes[..|bytes| - 1]) + HexByte(bytes[|bytes| - 1])
  }

  // Eight-bit addition.
  function Add(x: byte, y: byte): byte {
    (x as int + y) % 256
  }

  // The sum of the bytes modulo 256.
  function Sum(bytes: seq<byte>): byte {
    if bytes == [] then 0 else Add(Sum(bytes[..|bytes| - 1]), bytes[|bytes| - 1])
  }

  // The byte that makes a sum zero.
  function Negated(sum: byte): byte {
    (256 - sum as int) % 256
  }

  function HeaderSum(address: nat, length: byte, recordType: byte): byte
    requires address < 0x1_0000
  {
    (((length as int + address / 256) % 256 + address % 256) % 256 + recordType) % 256
  }

  function HexHeader(address: nat, length: byte, recordType: byte): seq<char>
    requires address < 0x1_0000
  {
    HexByte(length) + HexByte(address / 256) + HexByte(address % 256) + HexByte(recordType)
  }

  // One record: the fields and the byte that makes their sum zero.
  function Record(address: nat, recordType: byte, data: seq<byte>): seq<char>
    requires address < 0x1_0000 && |data| < 256
  {
    var sum := Add(HeaderSum(address, |data|, recordType), Sum(data));
    ":" + HexHeader(address, |data|, recordType) + HexBytes(data) + HexByte(Negated(sum))
  }

  // Sizes of consecutive data records that cover an image from `start` on.
  ghost predicate Covers(sizes: seq<nat>, start: nat, length: nat) {
    if sizes == [] then start == length
    else 0 < sizes[0] < 256 && sizes[0] % 2 == 0 && Covers(sizes[1..], start + sizes[0], length)
  }

  lemma {:induction false} CoversBound(sizes: seq<nat>, start: nat, length: nat)
    requires Covers(sizes, start, length)
    ensures start <= length
  {
    if sizes != [] {
      CoversBound(sizes[1..], start + sizes[0], length);
    }
  }

  // The data records from `start` on and the end-of-file record.
  function Print(image: seq<byte>, sizes: seq<nat>, start: nat): seq<char>
    requires Covers(sizes, start, |image|) && |image| <= 0x1_0000
    decreases sizes
  {
    if sizes == [] then Record(0, TYPE_END_OF_FILE, [])
    else
      CoversBound(sizes[1..], start + sizes[0], |image|);
      Record(start, TYPE_DATA, image[start..start + sizes[0]]) + Print(image, sizes[1..], start + sizes[0])
  }

  // ---- Characters to bytes ----

  lemma DigitValue(n: nat)
    requires n < 16
    ensures HexToDecimal(Digit(n)) == n && Digit(n) != ':'
  {
  }

  // The board with the next byte decoded.
  function With(b: Board, x: byte): Board {
    b.(loader := b.loader.(data := x))
  }

  lemma ParseOne(c: Config, b: Board, x: char)
    requires ValidBoard(c, b)
    ensures Parse(c, b, [x]) == ParseChar(c, b, x)
  {
    hide ParseChar;
    assert [x][..0] == [];
  }

  // A digit inside a record shifts into the byte.
  lemma ParseDigit(c: Config, b: Board, n: nat)
    requires ValidBoard(c, b) && !b.loader.state.WaitLine? && n < 16
    ensures var l := b.loader;
            var shifted := b.(loader := l.(data := (l.data as int * 16 + n) % 256, readMsb := !l.readMsb));
            ParseChar(c, b, Digit(n)) == if shifted.loader.readMsb then shifted else ProcessByte(c, shifted)
  {
    hide ProcessByte, Digit, HexToDecimal;
    DigitValue(n);
  }

  lemma TwoNibbles(stale: byte, x: byte)
    ensures ((stale as int * 16 + x / 16) % 256 * 16 + x % 16) % 256 == x
  {
    var q: int, high: int := stale as int % 16, x as int / 16;
    var first := stale as int * 16 + high;
    UniqueRemainder(256, first / 256, first % 256, stale as int / 16, 16 * q + high);
    var second := first % 256 * 16 + x % 16;
    UniqueRemainder(256, second / 256, second % 256, q, x);
  }

  // Two digits make a byte.
  lemma ParseHexByte(c: Config, b: Board, x: byte)
    requires ValidBoard(c, b) && !b.loader.state.WaitLine? && !b.loader.readMsb
    ensures Parse(c, b, HexByte(x)) == ProcessByte(c, With(b, x))
  {
    hide ProcessByte, Parse, ParseChar, Digit;
    var high, low := Digit(x / 16), Digit(x % 16);
    ParseDigit(c, b, x / 16);
    var b1 := ParseChar(c, b, high);
    ParseDigit(c, b1, x % 16);
    TwoNibbles(b.loader.data, x);
    ParseOne(c, b, high);
    ParseOne(c, b1, low);
    ParseAppend(c, b, [high], [low]);
    assert HexByte(x) == [high] + [low];
  }

  // ---- The header ----

  // What a header byte does to the loader.
  function HeaderStep(c: Config, l: Loader, x: byte): Loader {
    var summed := l.(data := x, checksum := (l.checksum as int + x) % 256);
    match l.state
    case ByteCount => summed.(dataRem := x, state := AddressHigh)
    case AddressHigh => summed.(address := Advance(c, l.address, 256 * (x as int)), state := AddressLow)
    case AddressLow => summed.(address := Advance(c, l.address, x), state := RecordType)
    case RecordType => summed.(recordType := x, state := if l.dataRem != 0 then ReadData else Checksum)
    case _ => l
  }

  predicate InHeader(l: Loader) {
    !l.readMsb && (l.state.ByteCount? || l.state.AddressHigh? || l.state.AddressLow? || l.state.RecordType?)
  }

  lemma ParseHeaderByte(c: Config, b: Board, l: Loader, x: byte)
    requires ValidBoard(c, b) && InHeader(l)
    ensures Parse(c, b.(loader := l), HexByte(x)) == b.(loader := HeaderStep(c, l, x))
  {
    hide DataByte, CheckByte, Parse, HexByte;
    ParseHexByte(c, b.(loader := l), x);
  }

  // The loader at the start of a record.
  function AfterColon(l: Loader): Loader {
    l.(checksum := 0, address := l.base, readMsb := false, state := ByteCount)
  }

  // The loader inside a record whose header has been read.
  function AfterHeader(c: Config, l: Loader, address: nat, length: byte, recordType: byte): Loader
    requires address < 0x1_0000
  {
    l.(state := if length != 0 then ReadData else Checksum, data := recordType, readMsb := false,
       recordType := recordType, dataRem := length, checksum := HeaderSum(address, length, recordType),
       address := Advance(c, l.base, address))
  }

  lemma HeaderSteps(c: Config, l: Loader, address: nat, length: byte, recordType: byte)
    requires address < 0x1_0000
    ensures var l1 := HeaderStep(c, AfterColon(l), length);
            var l2 := HeaderStep(c, l1, address / 256);
            var l3 := HeaderStep(c, l2, address % 256);
            && InHeader(AfterColon(l)) && InHeader(l1) && InHeader(l2) && InHeader(l3)
            && HeaderStep(c, l3, recordType) == AfterHeader(c, l, address, length, recordType)
  {
    hide Advance;
    var high, low := address / 256, address % 256;
    var l0 := AfterColon(l);
    var l1 := HeaderStep(c, l0, length);
    assert l1 == l0.(data := length, checksum := length, dataRem := length, state := AddressHigh);
    var sum2, a2 := (length as int + high) % 256, Advance(c, l.base, 256 * high);
    var l2 := HeaderStep(c, l1, high);
    assert l2 == l1.(data := high, checksum := sum2, address := a2, state := AddressLow);
    AddressBytes(c, l.base, address);
    var l3 := HeaderStep(c, l2, low);
    assert l3 == l2.(data := low, checksum := (sum2 + low) % 256, address := Advance(c, l.base, address),
                     state := RecordType);
  }

  // The two bytes of an address move the base on by the address.
  lemma AddressBytes(c: Config, base: nat, address: nat)
    requires address < 0x1_0000
    ensures Advance(c, Advance(c, base, 256 * (address / 256)), address % 256) == Advance(c, base, address)
  {
    ModAdd(AddressSpace(c), address % 256, base + 256 * (address / 256));
  }

  lemma ParseColon(c: Config, b: Board)
    requires ValidBoard(c, b)
    ensures Parse(c, b, ":") == b.(loader := AfterColon(b.loader))
  {
    hide ProcessByte;
    ParseOne(c, b, ':');
  }

  lemma ParseHeader(c: Config, b: Board, address: nat, length: byte, recordType: byte)
    requires ValidBoard(c, b) && address < 0x1_0000
    ensures Parse(c, b, ":" + HexHeader(address, length, recordType))
         == b.(loader := AfterHeader(c, b.loader, address, length, recordType))
  {
    hide Parse, HeaderStep, AfterColon, AfterHeader, HexByte, InHeader;
    HeaderSteps(c, b.loader, address, length, recordType);
    var high, low := address / 256, address % 256;
    var l0 := AfterColon(b.loader);
    var l1 := HeaderStep(c, l0, length);
    var l2 := HeaderStep(c, l1, high);
    var l3 := HeaderStep(c, l2, low);
    ParseColon(c, b);
    ParseHeaderByte(c, b, l0, length);
    ParseHeaderByte(c, b, l1, high);
    ParseHeaderByte(c, b, l2, low);
    ParseHeaderByte(c, b, l3, recordType);
    ParseAppend(c, b, ":", HexByte(length));
    ParseAppend(c, b, ":" + HexByte(length), HexByte(high));
    ParseAppend(c, b, ":" + HexByte(length) + HexByte(high), HexByte(low));
    ParseAppend(c, b, ":" + HexByte(length) + HexByte(high) + HexByte(low), HexByte(recordType));
    assert ":" + HexHeader(address, length, recordType)
        == ":" + HexByte(length) + HexByte(high) + HexByte(low) + HexByte(recordType);
  }

  // ---- The data ----

  // The whole page before k, and what of the current page comes before k.
  ghost predicate Progress(c: Config, mem: seq<byte>, image: seq<byte>, k: nat, b: Board)
    requires c.pageSize > 0 && k <= |image|
  {
    var l, page := b.loader, PageStart(c, k);
    && ValidBoard(c, b) && l.base == 0 && l.running
    && l.pageStart == page && l.pageDirty == (k % c.pageSize != 0)
    && (if l.pageDirty then Filling(c, b.flash, Install(c, mem, 0, image[..page]), page, image[page..k])
        else b.flash.mem == Install(c, mem, 0, image[..k]))
  }

  lemma ProgressValid(c: Config, mem: seq<byte>, image: seq<byte>, k: nat, b: Board)
    requires ValidConfig(c) && k <= |image| && Progress(c, mem, image, k, b)
    ensures ValidBoard(c, b)
  {
  }

  lemma PageFacts(c: Config, k: nat)
    requires ValidConfig(c) && k % 2 == 0
    ensures var page, offset := PageStart(c, k), k % c.pageSize;
            && page % c.pageSize == 0 && offset % 2 == 0 && offset + 2 <= c.pageSize
            && (offset + 2 < c.pageSize ==> PageStart(c, k + 2) == page && (k + 2) % c.pageSize == offset + 2)
            && (offset + 2 == c.pageSize ==> PageStart(c, k + 2) == k + 2 && (k + 2) % c.pageSize == 0)
  {
    var page, offset, q := PageStart(c, k), k % c.pageSize, k / c.pageSize;
    hide ValidConfig;
    assert page == c.pageSize * q;
    EvenOffset(c, k);
    EvenSize(c);
    UniqueRemainder(c.pageSize, q, 0, page / c.pageSize, page % c.pageSize);
    if offset + 2 < c.pageSize {
      ModAligned(page, offset + 2, c.pageSize);
    } else {
      ModNextPage(page, c.pageSize);
    }
  }

  // Pages have an even size, so an even address has an even offset.
  lemma EvenOffset(c: Config, k: nat)
    requires ValidConfig(c) && k % 2 == 0
    ensures k % c.pageSize % 2 == 0
  {
    if c.pageSize == 128 {
      EvenRemainder128(k);
    } else {
      EvenRemainder256(k);
    }
  }

  lemma EvenRemainder128(k: nat)
    requires k % 2 == 0
    ensures k % 128 % 2 == 0
  {
    var j := k / 2;
    UniqueRemainder(128, k / 128, k % 128, j / 64, 2 * (j % 64));
  }

  lemma EvenRemainder256(k: nat)
    requires k % 2 == 0
    ensures k % 256 % 2 == 0
  {
    var j := k / 2;
    UniqueRemainder(256, k / 256, k % 256, j / 128, 2 * (j % 128));
  }

  // Where an address lies in its page.
  lemma PageAround(c: Config, k: nat)
    requires c.pageSize > 0
    ensures PageStart(c, k) <= k && k - PageStart(c, k) == k % c.pageSize < c.pageSize
  {
  }

  // What storing a word does to the loader.
  function StoredLoader(c: Config, l: Loader, k: nat): Loader
    requires c.pageSize > 0
  {
    l.(pageDirty := (k + 2) % c.pageSize != 0, pageStart := PageStart(c, k + 2), address := k + 2)
  }

  // The flash once the word at k is in the buffer.
  function FilledFlash(c: Config, image: seq<byte>, k: nat, b: Board): Flash
    requires ValidBoard(c, b) && k + 2 <= |image|
  {
    FillWord(c, if b.loader.pageDirty then b.flash else ErasePage(c, b.flash, b.loader.pageStart), k,
             256 * (image[k + 1] as int) + image[k])
  }

  lemma FillProgress(c: Config, mem: seq<byte>, image: seq<byte>, k: nat, b: Board)
    requires ValidConfig(c) && k % 2 == 0 && k + 2 <= |image| && k + 2 <= c.bootStart
    requires Progress(c, mem, image, k, b)
    ensures var page := PageStart(c, k);
            && page % c.pageSize == 0 && page <= k
            && Filling(c, FilledFlash(c, image, k, b), Install(c, mem, 0, image[..page]), page, image[page..k + 2])
  {
    hide ErasePage, FillWord, Install, Commit, Filling, PageStart, ValidConfig;
    EvenSize(c);
    PageFacts(c, k);
    PageAround(c, k);
    var page := PageStart(c, k);
    var base := Install(c, mem, 0, image[..page]);
    var erased := if b.loader.pageDirty then b.flash else ErasePage(c, b.flash, page);
    assert Filling(c, erased, base, page, image[page..k]) by {
      if !b.loader.pageDirty {
        EraseStarts(c, b.flash, page);
        assert image[page..k] == [];
      }
    }
    FillExtends(c, erased, base, page, image[page..k], image[k], image[k + 1]);
    assert image[page..k] + [image[k], image[k + 1]] == image[page..k + 2];
  }

  lemma StoreSteps(c: Config, image: seq<byte>, k: nat, b: Board)
    requires ValidBoard(c, b) && k % 2 == 0 && k + 2 <= |image| && k + 2 <= c.bootStart
    requires b.loader.address == k && b.loader.pageStart == PageStart(c, k)
    ensures StoreWord(c, b, 256 * (image[k + 1] as int) + image[k]) ==
            Board(StoredLoader(c, b.loader, k),
                  if (k + 2) % c.pageSize == 0 then WritePage(c, FilledFlash(c, image, k, b), PageStart(c, k))
                  else FilledFlash(c, image, k, b))
  {
    hide ErasePage, FillWord, WritePage;
    PageFacts(c, k);
    assert Advance(c, k, 2) == k + 2;
    hide Advance;
  }

  lemma StoreProgress(c: Config, mem: seq<byte>, image: seq<byte>, k: nat, b: Board)
    requires ValidConfig(c) && k % 2 == 0 && k + 2 <= |image| && k + 2 <= c.bootStart
    requires Progress(c, mem, image, k, b) && b.loader.address == k
    ensures var r := StoreWord(c, b, 256 * (image[k + 1] as int) + image[k]);
            Progress(c, mem, image, k + 2, r) && r.loader == StoredLoader(c, b.loader, k)
  {
    hide StoreWord, WritePage, Install, Commit, Filling, FilledFlash;
    PageFacts(c, k);
    FillProgress(c, mem, image, k, b);
    StoreSteps(c, image, k, b);
    if (k + 2) % c.pageSize == 0 {
      var page := PageStart(c, k);
      WriteCommits(c, FilledFlash(c, image, k, b), Install(c, mem, 0, image[..page]), page, image[page..k + 2]);
      InstallNext(c, mem, 0, image[..page], image[page..k + 2]);
      assert image[..page] + image[page..k + 2] == image[..k + 2];
    }
  }

  // Inside a data record: `rem` bytes are still to come, the next one is for address k.
  ghost predicate InData(c: Config, mem: seq<byte>, image: seq<byte>, k: nat, rem: nat, sum: byte, b: Board)
    requires c.pageSize > 0 && k <= |image|
  {
    var l := b.loader;
    && Progress(c, mem, image, k, b)
    && l.state == (if rem > 0 then ReadData else Checksum) && !l.readMsb && l.dataRem == rem
    && l.checksum == sum && l.recordType == TYPE_DATA && l.address == k
  }

  // The first byte of a word is remembered.
  lemma FirstByte(c: Config, b: Board, x: byte)
    requires ValidBoard(c, b)
    requires var l := b.loader; l.state.ReadData? && l.dataRem > 0 && l.dataRem % 2 == 0 && l.address < c.bootStart
    ensures var l := b.loader;
            ProcessByte(c, With(b, x)) ==
            b.(loader := l.(data := x, prevData := x, dataRem := l.dataRem - 1,
                            checksum := (l.checksum as int + x) % 256))
  {
    hide ProcessWord;
  }

  // The second one completes it.
  lemma SecondByte(c: Config, b: Board, y: byte)
    requires ValidBoard(c, b)
    requires var l := b.loader;
             l.state.ReadData? && l.dataRem % 2 == 1 && l.address < c.bootStart && l.recordType == TYPE_DATA
    ensures var l := b.loader;
            var ready := b.(loader := l.(data := y, dataRem := l.dataRem - 1,
                                         checksum := (l.checksum as int + y) % 256));
            var stored := StoreWord(c, ready, 256 * (y as int) + l.prevData);
            ProcessByte(c, With(b, y)) ==
            if l.dataRem == 1 then stored.(loader := stored.loader.(state := Checksum)) else stored
  {
    hide StoreWord;
  }

  // Progress is about the flash and the page that is open.
  lemma ProgressSame(c: Config, mem: seq<byte>, image: seq<byte>, k: nat, b: Board, r: Board)
    requires ValidConfig(c) && k <= |image| && Progress(c, mem, image, k, b) && r.flash == b.flash
    requires r.loader.base == b.loader.base && r.loader.running == b.loader.running
    requires r.loader.pageStart == b.loader.pageStart && r.loader.pageDirty == b.loader.pageDirty
    ensures Progress(c, mem, image, k, r)
  {
    hide Install, Filling, PageStart, ValidConfig, ValidFlash;
  }

  lemma StoredFields(c: Config, l: Loader, k: nat)
    requires c.pageSize > 0
    ensures var r := StoredLoader(c, l, k);
            && r.state == l.state && r.readMsb == l.readMsb && r.dataRem == l.dataRem && r.checksum == l.checksum
            && r.recordType == l.recordType && r.address == k + 2
  {
    hide PageStart;
  }

  lemma ParseWord(c: Config, mem: seq<byte>, image: seq<byte>, k: nat, rem: nat, sum: byte, b: Board)
    requires ValidConfig(c) && k % 2 == 0 && k + 2 <= |image| && k + 2 <= c.bootStart
    requires rem >= 2 && rem % 2 == 0 && InData(c, mem, image, k, rem, sum, b)
    ensures InData(c, mem, image, k + 2, rem - 2, Add(Add(sum, image[k]), image[k + 1]),
                   Parse(c, b, HexByte(image[k]) + HexByte(image[k + 1])))
  {
    hide ProcessByte, Parse, HexByte, StoreWord, Progress, StoredLoader, ValidConfig, ValidFlash;
    EvenSize(c);
    var x, y := image[k], image[k + 1];
    ProgressValid(c, mem, image, k, b);
    ParseAppend(c, b, HexByte(x), HexByte(y));
    ParseHexByte(c, b, x);
    FirstByte(c, b, x);
    var b1 := ProcessByte(c, With(b, x));
    ParseHexByte(c, b1, y);
    SecondByte(c, b1, y);
    var l1 := b1.loader;
    var ready := b1.(loader := l1.(data := y, dataRem := l1.dataRem - 1, checksum := (l1.checksum as int + y) % 256));
    ProgressSame(c, mem, image, k, b, ready);
    StoreProgress(c, mem, image, k, ready);
    StoredFields(c, ready.loader, k);
    var stored := StoreWord(c, ready, 256 * (y as int) + x);
    ProgressSame(c, mem, image, k + 2, stored, stored.(loader := stored.loader.(state := Checksum)));
  }

  // The data so far have brought the parser to address i of the record that starts at k.
  lemma ParseNextWord(
      c: Config, mem: seq<byte>, image: seq<byte>, k: nat, i: nat, rem: nat, sum: byte, b: Board)
    requires ValidConfig(c) && ValidBoard(c, b) && i % 2 == rem % 2 == 0 && k <= i && rem >= 2
    requires i + 2 <= |image| && i + 2 <= c.bootStart
    requires InData(c, mem, image, i, rem, Add(sum, Sum(image[k..i])), Parse(c, b, HexBytes(image[k..i])))
    ensures InData(c, mem, image, i + 2, rem - 2, Add(sum, Sum(image[k..i + 2])),
                   Parse(c, b, HexBytes(image[k..i + 2])))
  {
    hide InData, Parse, HexByte, HexBytes, Sum, Add, ValidBoard;
    ParseWord(c, mem, image, i, rem, Add(sum, Sum(image[k..i])), Parse(c, b, HexBytes(image[k..i])));
    SnocTwo(image, k, i, sum);
    ParseAppend(c, b, HexBytes(image[k..i]), HexByte(image[i]) + HexByte(image[i + 1]));
  }

  lemma {:induction false} ParseData(
      c: Config, mem: seq<byte>, image: seq<byte>, k: nat, i: nat, end: nat, sum: byte, b: Board)
    requires ValidConfig(c) && ValidBoard(c, b) && k % 2 == i % 2 == end % 2 == 0
    requires k <= i <= end <= |image| && end <= c.bootStart && InData(c, mem, image, k, end - k, sum, b)
    ensures InData(c, mem, image, i, end - i, Add(sum, Sum(image[k..i])), Parse(c, b, HexBytes(image[k..i])))
    decreases i
  {
    hide InData, Parse, HexBytes, Sum, Add, ValidBoard;
    if i == k {
      assert image[k..k] == [];
      ParseNothing(c, b, sum);
    } else {
      ParseData(c, mem, image, k, i - 2, end, sum, b);
      ParseNextWord(c, mem, image, k, i - 2, end - (i - 2), sum, b);
    }
  }

  lemma ParseNothing(c: Config, b: Board, sum: byte)
    requires ValidBoard(c, b)
    ensures Parse(c, b, HexBytes([])) == b && Add(sum, Sum([])) == sum
  {
  }

  // Two more bytes: their digits and their sum.
  lemma SnocTwo(image: seq<byte>, k: nat, i: nat, sum: byte)
    requires k <= i && i + 2 <= |image|
    ensures HexBytes(image[k..i + 2]) == HexBytes(image[k..i]) + (HexByte(image[i]) + HexByte(image[i + 1]))
    ensures Add(sum, Sum(image[k..i + 2])) == Add(Add(Add(sum, Sum(image[k..i])), image[i]), image[i + 1])
  {
    hide HexByte, Add;
    assert image[k..i + 2][..i + 1 - k] == image[k..i + 1];
    assert image[k..i + 1][..i - k] == image[k..i];
    AddAssociative(sum, Sum(image[k..i]), image[i]);
    AddAssociative(sum, Sum(image[k..i + 1]), image[i + 1]);
  }

  lemma AddAssociative(x: byte, y: byte, z: byte)
    ensures Add(x, Add(y, z)) == Add(Add(x, y), z)
  {
    ModAdd(256, x, y as int + z);
    ModAdd(256, z, x as int + y);
  }

  // ---- Records and files ----

  // The checksum of a data record is accepted and changes nothing.
  lemma DataChecksum(c: Config, mem: seq<byte>, image: seq<byte>, k: nat, sum: byte, b: Board)
    requires ValidConfig(c) && k <= |image| && InData(c, mem, image, k, 0, sum, b)
    ensures ValidBoard(c, b) && Progress(c, mem, image, k, Parse(c, b, HexByte(Negated(sum))))
  {
    hide Parse, HexByte, Install, Filling, WritePage;
    ParseHexByte(c, b, Negated(sum));
  }

  // Three parts of a record, one after the other.
  lemma ParseParts(c: Config, b: Board, b1: Board, p: seq<char>, q: seq<char>, r: seq<char>)
    requires ValidBoard(c, b) && Parse(c, b, p) == b1
    ensures ValidBoard(c, b1) && Parse(c, b, p + q + r) == Parse(c, Parse(c, b1, q), r)
  {
    hide Parse;
    ParseAppend(c, b, p, q);
    ParseAppend(c, b, p + q, r);
  }

  lemma ParseRecord(c: Config, mem: seq<byte>, image: seq<byte>, k: nat, n: nat, b: Board)
    requires ValidConfig(c) && k % 2 == n % 2 == 0 && 0 < n < 256 && k < 0x1_0000
    requires k + n <= |image| && k + n <= c.bootStart && Progress(c, mem, image, k, b)
    ensures Progress(c, mem, image, k + n, Parse(c, b, Record(k, TYPE_DATA, image[k..k + n])))
  {
    hide Parse, HexByte, HexBytes, HexHeader, Progress, InData, ValidBoard, HeaderSum, AfterHeader, Sum, Add, Negated;
    HeaderInData(c, mem, image, k, n, b);
    var data, h := image[k..k + n], HeaderSum(k, n, TYPE_DATA);
    var b1 := b.(loader := AfterHeader(c, b.loader, k, n, TYPE_DATA));
    var header, sum := ":" + HexHeader(k, n, TYPE_DATA), Add(h, Sum(data));
    ParseHeader(c, b, k, n, TYPE_DATA);
    ParseParts(c, b, b1, header, HexBytes(data), HexByte(Negated(sum)));
    ParseData(c, mem, image, k, k + n, k + n, h, b1);
    DataChecksum(c, mem, image, k + n, sum, Parse(c, b1, HexBytes(data)));
  }

  lemma HeaderInData(c: Config, mem: seq<byte>, image: seq<byte>, k: nat, n: nat, b: Board)
    requires ValidConfig(c) && 0 < n < 256 && k < 0x1_0000 && k + n <= |image| && Progress(c, mem, image, k, b)
    ensures ValidBoard(c, b) && b.loader.base == 0
    ensures InData(c, mem, image, k, n, HeaderSum(k, n, TYPE_DATA),
                   b.(loader := AfterHeader(c, b.loader, k, n, TYPE_DATA)))
  {
    hide Install, Filling, HeaderSum;
  }

  // The memory that a complete file leaves: a single partial page is erased but never written.
  function FinalMemory(c: Config, mem: seq<byte>, image: seq<byte>): seq<byte>
    requires c.pageSize > 0
  {
    if 0 < |image| < c.pageSize then Commit(c, mem, 0, []) else Install(c, mem, 0, image)
  }

  // The end-of-file record has address 0: it flushes the last page unless that is page 0.
  lemma ParseEndOfFile(c: Config, mem: seq<byte>, image: seq<byte>, b: Board)
    requires ValidConfig(c) && |image| <= c.bootStart && |image| % 2 == 0
    requires Progress(c, mem, image, |image|, b)
    ensures var r := Parse(c, b, Record(0, TYPE_END_OF_FILE, []));
            r.flash.mem == FinalMemory(c, mem, image) && !r.loader.running
  {
    hide Parse, HexByte, HexHeader, FinalMemory, Progress, AfterHeader, ProcessByte, Record, With, ValidConfig;
    ProgressValid(c, mem, image, |image|, b);
    var b1 := b.(loader := AfterHeader(c, b.loader, 0, 0, TYPE_END_OF_FILE));
    ParseHeader(c, b, 0, 0, TYPE_END_OF_FILE);
    ParseAppend(c, b, ":" + HexHeader(0, 0, TYPE_END_OF_FILE), HexByte(0xFF));
    EndOfFileText();
    EndOfFileRead(c, mem, image, b);
    ParseHexByte(c, b1, 0xFF);
    LastFlush(c, mem, image, With(b1, 0xFF));
  }

  // The parser in front of the checksum of the end-of-file record.
  lemma EndOfFileRead(c: Config, mem: seq<byte>, image: seq<byte>, b: Board)
    requires ValidConfig(c) && Progress(c, mem, image, |image|, b)
    ensures var b1 := b.(loader := AfterHeader(c, b.loader, 0, 0, TYPE_END_OF_FILE));
            var l := With(b1, 0xFF).loader;
            && ValidBoard(c, b1) && !b1.loader.readMsb && b1.loader.state.Checksum?
            && l.address == 0 && l.state.Checksum? && l.recordType == TYPE_END_OF_FILE
            && l.checksum == 1 && l.data == 0xFF && Progress(c, mem, image, |image|, With(b1, 0xFF))
  {
    hide Install, Filling, ValidFlash;
    assert HeaderSum(0, 0, TYPE_END_OF_FILE) == 1;
    assert Advance(c, 0, 0) == 0;
  }

  lemma EndOfFileText()
    ensures Record(0, TYPE_END_OF_FILE, []) == ":" + HexHeader(0, 0, TYPE_END_OF_FILE) + HexByte(0xFF)
  {
    hide HexByte, HexHeader;
    var prefix := ":" + HexHeader(0, 0, TYPE_END_OF_FILE);
    assert Negated(Add(HeaderSum(0, 0, TYPE_END_OF_FILE), Sum([]))) == 0xFF;
    assert prefix + HexBytes([]) == prefix;
  }

  lemma LastFlush(c: Config, mem: seq<byte>, image: seq<byte>, b: Board)
    requires ValidConfig(c) && |image| <= c.bootStart && |image| % 2 == 0
    requires Progress(c, mem, image, |image|, b)
    requires b.loader.address == 0 && b.loader.state.Checksum? && b.loader.recordType == TYPE_END_OF_FILE
    requires b.loader.checksum == 1 && b.loader.data == 0xFF
    ensures var r := ProcessByte(c, b);
            r.flash.mem == FinalMemory(c, mem, image) && !r.loader.running
  {
    hide Install, WritePage, Commit;
    var k := |image|;
    var page := PageStart(c, k);
    PageFacts(c, k);
    assert image[..k] == image;
    assert k < c.pageSize ==> page == 0 && k % c.pageSize == k;
    if page == 0 {
      InstallNothing(c, mem, 0);
    } else if b.loader.pageDirty {
      WriteCommits(c, b.flash, Install(c, mem, 0, image[..page]), page, image[page..k]);
      InstallNext(c, mem, 0, image[..page], image[page..k]);
      assert image[..page] + image[page..k] == image;
    }
  }

  // An image that can be printed from k on.
  ghost predicate Printable(c: Config, image: seq<byte>, sizes: seq<nat>, k: nat) {
    && ValidConfig(c) && |image| <= c.bootStart && |image| <= 0x1_0000 && |image| % 2 == k % 2 == 0
    && Covers(sizes, k, |image|) && k <= |image|
  }

  lemma ParseFirstRecord(c: Config, mem: seq<byte>, image: seq<byte>, sizes: seq<nat>, k: nat, b: Board)
    returns (next: Board)
    requires Printable(c, image, sizes, k) && sizes != [] && Progress(c, mem, image, k, b)
    ensures Printable(c, image, sizes[1..], k + sizes[0]) && Progress(c, mem, image, k + sizes[0], next)
    ensures ValidBoard(c, b) && ValidBoard(c, next)
    ensures Parse(c, b, Print(image, sizes, k)) == Parse(c, next, Print(image, sizes[1..], k + sizes[0]))
  {
    hide Parse, Record, Progress, ValidBoard, Print, Covers;
    ProgressValid(c, mem, image, k, b);
    PrintFirst(c, image, sizes, k);
    var n := sizes[0];
    ParseRecord(c, mem, image, k, n, b);
    var record := Record(k, TYPE_DATA, image[k..k + n]);
    next := Parse(c, b, record);
    ParseAppend(c, b, record, Print(image, sizes[1..], k + n));
  }

  // The first record of a file and the rest.
  lemma PrintFirst(c: Config, image: seq<byte>, sizes: seq<nat>, k: nat)
    requires Printable(c, image, sizes, k) && sizes != []
    ensures var n := sizes[0];
            && 0 < n < 256 && n % 2 == 0 && k < 0x1_0000 && k + n <= |image|
            && Printable(c, image, sizes[1..], k + n)
            && Print(image, sizes, k) == Record(k, TYPE_DATA, image[k..k + n]) + Print(image, sizes[1..], k + n)
  {
    hide Record, ValidConfig;
    CoversBound(sizes[1..], k + sizes[0], |image|);
  }

  lemma {:induction false} ParsePrinted(
      c: Config, mem: seq<byte>, image: seq<byte>, sizes: seq<nat>, k: nat, b: Board)
    requires Printable(c, image, sizes, k) && Progress(c, mem, image, k, b)
    ensures ValidBoard(c, b)
    ensures var r := Parse(c, b, Print(image, sizes, k));
            r.flash.mem == FinalMemory(c, mem, image) && !r.loader.running
    decreases |sizes|
  {
    hide Parse, Record, Progress, ValidBoard, FinalMemory;
    ProgressValid(c, mem, image, k, b);
    if sizes == [] {
      ParseEndOfFile(c, mem, image, b);
    } else {
      var next := ParseFirstRecord(c, mem, image, sizes, k, b);
      ParsePrinted(c, mem, image, sizes[1..], k + sizes[0], next);
    }
  }

  /** What every printed file does, in records of any even sizes and with any noise between the
      characters: the loader exits and the memory is the one described above. */
  lemma PrintedFile(c: Config, flash: Flash, image: seq<byte>, sizes: seq<nat>, stream: seq<char>)
    requires ValidFlash(c, flash) && |image| <= c.bootStart && |image| <= 0x1_0000 && |image| % 2 == 0
    requires Covers(sizes, 0, |image|)
    ensures Clean(stream) == Print(image, sizes, 0) ==>
              var r := Parse(c, Board(Reset(), flash), stream);
              r.flash.mem == FinalMemory(c, flash.mem, image) && !r.loader.running
  {
    hide Parse, Clean, Print, Install;
    var start := Board(Reset(), flash);
    NoiseInsensitive(c, start, stream);
    InstallNothing(c, flash.mem, 0);
    assert image[..0] == [];
    assert Progress(c, flash.mem, image, 0, start);
    ParsePrinted(c, flash.mem, image, sizes, 0, start);
  }

  /** Round trip: the image ends up in memory, with the rest of its last page blank and everything
      else untouched, exactly when it fills at least one page or has nothing to program. */
  lemma RoundTripIff(c: Config, flash: Flash, image: seq<byte>, sizes: seq<nat>, stream: seq<char>)
    requires ValidFlash(c, flash) && |image| <= c.bootStart && |image| <= 0x1_0000 && |image| % 2 == 0
    requires Covers(sizes, 0, |image|)
    ensures Clean(stream) == Print(image, sizes, 0) ==>
              (Parse(c, Board(Reset(), flash), stream).flash.mem == Install(c, flash.mem, 0, image)
               <==> |image| >= c.pageSize || forall i :: 0 <= i < |image| ==> image[i] == 0xFF)
  {
    hide Parse, Clean, Print;
    PrintedFile(c, flash, image, sizes, stream);
    if 0 < |image| < c.pageSize {
      var lost, wanted := Commit(c, flash.mem, 0, []), Install(c, flash.mem, 0, image);
      forall i | 0 <= i < |flash.mem|
        ensures lost[i] == if i < c.pageSize then 0xFF else flash.mem[i]
        ensures wanted[i] == if i < |image| then image[i] else if i < c.pageSize then 0xFF else flash.mem[i]
      {
        SmallInstall(c, flash.mem, image, i);
      }
      assert lost == wanted <==> forall i :: 0 <= i < |image| ==> lost[i] == wanted[i];
    }
  }

  lemma SmallInstall(c: Config, mem: seq<byte>, image: seq<byte>, i: nat)
    requires ValidConfig(c) && 0 < |image| < c.pageSize && i < |mem|
    ensures Install(c, mem, 0, image)[i] == if i < |image| then image[i] else if i < c.pageSize then 0xFF else mem[i]
  {
    ModAligned(0, |image|, c.pageSize);
  }

  // ---- A printed file holds no noise ----

  ghost predicate AllMeaningful(s: seq<char>) {
    forall i :: 0 <= i < |s| ==> Meaningful(s[i])
  }

  lemma {:induction false} CleanKeeps(s: seq<char>)
    requires AllMeaningful(s)
    ensures Clean(s) == s
  {
    hide Meaningful;
    if s != [] {
      CleanKeeps(s[..|s| - 1]);
      assert Meaningful(s[|s| - 1]);
      assert s == s[..|s| - 1] + [s[|s| - 1]];
    }
  }

  lemma HexByteMeaningful(x: byte)
    ensures AllMeaningful(HexByte(x))
  {
    DigitValue(x / 16);
    DigitValue(x % 16);
  }

  lemma {:induction false} HexBytesMeaningful(bytes: seq<byte>)
    ensures AllMeaningful(HexBytes(bytes))
  {
    hide HexByte, Meaningful;
    if bytes != [] {
      HexBytesMeaningful(bytes[..|bytes| - 1]);
      HexByteMeaningful(bytes[|bytes| - 1]);
    }
  }

  lemma RecordMeaningful(address: nat, recordType: byte, data: seq<byte>)
    requires address < 0x1_0000 && |data| < 256
    ensures AllMeaningful(Record(address, recordType, data))
  {
    assert AllMeaningful(":");
    hide HexByte, Meaningful, HexBytes, Add, Negated, Sum, HeaderSum;
    HexByteMeaningful(|data|);
    HexByteMeaningful(address / 256);
    HexByteMeaningful(address % 256);
    HexByteMeaningful(recordType);
    assert AllMeaningful(HexHeader(address, |data|, recordType));
    HexBytesMeaningful(data);
    HexByteMeaningful(Negated(Add(HeaderSum(address, |data|, recordType), Sum(data))));
  }

  lemma {:induction false} PrintMeaningful(image: seq<byte>, sizes: seq<nat>, start: nat)
    requires Covers(sizes, start, |image|) && |image| <= 0x1_0000
    ensures AllMeaningful(Print(image, sizes, start))
    decreases |sizes|
  {
    hide Record, Meaningful;
    if sizes == [] {
      RecordMeaningful(0, TYPE_END_OF_FILE, []);
    } else {
      CoversBound(sizes[1..], start + sizes[0], |image|);
      RecordMeaningful(start, TYPE_DATA, image[start..start + sizes[0]]);
      PrintMeaningful(image, sizes[1..], start + sizes[0]);
    }
  }

  // So every printed file is a stream that the round trip speaks of.
  lemma PrintIsClean(image: seq<byte>, sizes: seq<nat>)
    requires Covers(sizes, 0, |image|) && |image| <= 0x1_0000
    ensures Clean(Print(image, sizes, 0)) == Print(image, sizes, 0)
  {
    hide Print, Clean;
    PrintMeaningful(image, sizes, 0);
    CleanKeeps(Print(image, sizes, 0));
  }

  /** An image that is lost: two zero bytes erase the first page and are never written. */
  lemma ShortImageLost(c: Config, flash: Flash)
    requires ValidFlash(c, flash)
    ensures Covers([2], 0, 2)
    ensures Parse(c, Board(Reset(), flash), Print([0, 0], [2], 0)).flash.mem != Install(c, flash.mem, 0, [0, 0])
  {
    hide Parse, Print, Install;
    var image: seq<byte> := [0, 0];
    PrintIsClean(image, [2]);
    RoundTripIff(c, flash, image, [2], Print(image, [2], 0));
    assert image[0] != 0xFF;
  }
}
