/** Printed images with records of other types between the data records: when the image still ends
    up in memory, and when it does not.
 */
module HexMixed {
  import opened Bytes
  import opened Flash
  import opened Hex
  import opened HexRoundTrip
  import opened HexOther

  // ---- Data records, seen from outside ----

  // What a word of data does to what outlives the record.
  function Stored(c: Config, k: Core, address: nat, value: word): (r: Core)
    requires ValidFlash(c, k.flash)
    ensures ValidFlash(c, r.flash)
  {
    hide ErasePage, FillWord, WritePage;
    var erased := if k.pageDirty then k.flash else ErasePage(c, k.flash, k.pageStart);
    Flushed(c, k.(flash := FillWord(c, erased, address, value), pageDirty := true), Advance(c, address, 2))
  }

  lemma StoredIs(c: Config, b: Board, value: word)
    requires ValidBoard(c, b)
    ensures var r := StoreWord(c, b, value);
            && CoreOf(r) == Stored(c, CoreOf(b), b.loader.address, value)
            && r.loader.address == Advance(c, b.loader.address, 2)
            && r.loader.state == b.loader.state && r.loader.readMsb == b.loader.readMsb
            && r.loader.dataRem == b.loader.dataRem && r.loader.checksum == b.loader.checksum
            && r.loader.recordType == b.loader.recordType
  {
    hide ErasePage, FillWord, WritePage, PageStart, Advance, ValidFlash;
  }

  // The words of a record, from an even address on.
  function Words(c: Config, k: Core, address: nat, data: seq<byte>): (r: Core)
    requires ValidFlash(c, k.flash) && |data| % 2 == 0
    ensures ValidFlash(c, r.flash)
  {
    hide Stored, ValidFlash;
    if data == [] then k
    else
      var n := |data| - 2;
      Stored(c, Words(c, k, address, data[..n]), address + n, 256 * (data[n + 1] as int) + data[n])
  }

  // i bytes of a data record have been read.
  ghost predicate InRecord(c: Config, k: Core, address: nat, data: seq<byte>, i: nat, sum: byte, b: Board)
    requires i <= |data|
  {
    var l := b.loader;
    && ValidBoard(c, b) && CoreOf(b) == k && l.address == address + i && l.recordType == TYPE_DATA && l.checksum == sum
    && !l.readMsb && l.dataRem == |data| - i && l.state == if i < |data| then ReadData else Checksum
  }

  lemma PartOf(c: Config, f: Flash)
    requires ValidFlash(c, f)
    ensures ValidConfig(c) && c.pageSize % 2 == 0 && c.pageSize > 1
  {
  }

  lemma InsideSpace(c: Config, address: nat)
    requires ValidConfig(c) && address + 2 <= c.bootStart
    ensures Advance(c, address, 2) == address + 2
  {
  }

  lemma WordRead(c: Config, k: Core, address: nat, data: seq<byte>, i: nat, sum: byte, b: Board)
    requires i + 2 <= |data| < 256 && i % 2 == |data| % 2 == 0 && ValidConfig(c) && address + i + 2 <= c.bootStart
    requires InRecord(c, k, address, data, i, sum, b)
    ensures ValidFlash(c, k.flash)
    ensures InRecord(c, Stored(c, k, address + i, 256 * (data[i + 1] as int) + data[i]), address, data, i + 2,
                     Add(Add(sum, data[i]), data[i + 1]), Parse(c, b, HexByte(data[i]) + HexByte(data[i + 1])))
  {
    hide ProcessByte, Parse, HexByte, StoreWord, Stored, ValidConfig, ValidFlash, Advance;
    var x, y := data[i], data[i + 1];
    ParseAppend(c, b, HexByte(x), HexByte(y));
    ParseHexByte(c, b, x);
    FirstByte(c, b, x);
    var b1 := ProcessByte(c, With(b, x));
    ParseHexByte(c, b1, y);
    SecondByte(c, b1, y);
    var l1 := b1.loader;
    var ready := b1.(loader := l1.(data := y, dataRem := l1.dataRem - 1, checksum := (l1.checksum as int + y) % 256));
    StoredIs(c, ready, 256 * (y as int) + x);
    InsideSpace(c, address + i);
  }

  // The first i bytes of the data, parsed from b on.
  ghost predicate ReadUpTo(c: Config, k: Core, address: nat, data: seq<byte>, i: nat, sum: byte, b: Board)
    requires i <= |data| && i % 2 == 0 && ValidFlash(c, k.flash) && ValidBoard(c, b)
  {
    hide Parse, HexBytes, Sum, Add, Words, ValidFlash;
    InRecord(c, Words(c, k, address, data[..i]), address, data, i, Add(sum, Sum(data[..i])),
             Parse(c, b, HexBytes(data[..i])))
  }

  lemma {:induction false} WordsRead(
      c: Config, k: Core, address: nat, data: seq<byte>, i: nat, sum: byte, b: Board)
    requires i <= |data| < 256 && i % 2 == |data| % 2 == 0 && ValidConfig(c) && address + |data| <= c.bootStart
    requires InRecord(c, k, address, data, 0, sum, b) && ValidFlash(c, k.flash) && ValidBoard(c, b)
    ensures ReadUpTo(c, k, address, data, i, sum, b)
    decreases i
  {
    hide Parse, HexByte, HexBytes, Sum, Add, Words, Stored, ValidConfig, ValidFlash, InRecord;
    if i == 0 {
      NothingRead(c, k, address, data, sum, b);
    } else {
      var n := i - 2;
      WordsRead(c, k, address, data, n, sum, b);
      WordRead(c, Words(c, k, address, data[..n]), address, data, n, Add(sum, Sum(data[..n])),
               Parse(c, b, HexBytes(data[..n])));
      SnocTwo(data, 0, n, sum);
      assert data[0..i] == data[..i] && data[0..n] == data[..n];
      WordsNext(c, k, address, data, n);
      ParseAppend(c, b, HexBytes(data[..n]), HexByte(data[n]) + HexByte(data[n + 1]));
    }
  }

  lemma NothingRead(c: Config, k: Core, address: nat, data: seq<byte>, sum: byte, b: Board)
    requires InRecord(c, k, address, data, 0, sum, b) && ValidFlash(c, k.flash) && ValidBoard(c, b)
    ensures ReadUpTo(c, k, address, data, 0, sum, b)
  {
    hide Parse, HexBytes, Sum, Add, Words, ValidFlash, InRecord;
    assert data[..0] == [];
    NoWords(c, k, address);
    ParseNothing(c, b, sum);
  }

  lemma WordsNext(c: Config, k: Core, address: nat, data: seq<byte>, n: nat)
    requires ValidFlash(c, k.flash) && n % 2 == 0 && n + 2 <= |data|
    ensures Words(c, k, address, data[..n + 2]) ==
            Stored(c, Words(c, k, address, data[..n]), address + n, 256 * (data[n + 1] as int) + data[n])
  {
    hide Stored, ValidFlash;
    assert data[..n + 2][..n] == data[..n];
  }

  lemma NoWords(c: Config, k: Core, address: nat)
    requires ValidFlash(c, k.flash)
    ensures Words(c, k, address, []) == k
  {
  }

  // After a word, the open page is the one that the next word belongs to.
  lemma StoredSettled(c: Config, k: Core, address: nat, value: word)
    requires ValidFlash(c, k.flash)
    ensures var r := Stored(c, k, address, value); Flushed(c, r, Advance(c, address, 2)) == r
  {
    hide ErasePage, FillWord, WritePage, PageStart, Advance, ValidFlash;
  }

  lemma DataRecord(c: Config, b: Board, address: nat, data: seq<byte>)
    requires ValidBoard(c, b) && b.loader.base == 0 && address < 0x1_0000 && 0 < |data| < 256 && |data| % 2 == 0
    requires address + |data| <= c.bootStart
    ensures CoreOf(Parse(c, b, Record(address, TYPE_DATA, data))) == Words(c, CoreOf(b), address, data)
  {
    hide Parse, HexByte, HexBytes, HexHeader, Add, Negated, Sum, HeaderSum, AfterHeader, Advance, Flushed, Words,
      Stored, ValidConfig, ValidFlash;
    PartOf(c, b.flash);
    var l1 := AfterHeader(c, b.loader, address, |data|, TYPE_DATA);
    var b1 := b.(loader := l1);
    var h := HeaderSum(address, |data|, TYPE_DATA);
    var sum := Add(h, Sum(data));
    ParseHeader(c, b, address, |data|, TYPE_DATA);
    HeaderOf(c, b.loader, address, |data|, TYPE_DATA);
    AtBaseZero(c, address);
    ParseParts(c, b, b1, ":" + HexHeader(address, |data|, TYPE_DATA), HexBytes(data), HexByte(Negated(sum)));
    WordsRead(c, CoreOf(b), address, data, |data|, h, b1);
    assert data[..|data|] == data;
    var b2 := Parse(c, b1, HexBytes(data));
    RightChecksum(c, b2);
    LastWord(c, CoreOf(b), address, data);
    DataGoesOn(CoreOf(b2));
  }

  lemma DataGoesOn(k: Core)
    ensures Ended(k, TYPE_DATA) == k
  {
  }

  lemma AtBaseZero(c: Config, address: nat)
    requires address < 0x1_0000
    ensures Advance(c, 0, address) == address
  {
  }

  lemma LastWord(c: Config, k: Core, address: nat, data: seq<byte>)
    requires ValidFlash(c, k.flash) && data != [] && |data| % 2 == 0 && address + |data| <= c.bootStart
    ensures Flushed(c, Words(c, k, address, data), address + |data|) == Words(c, k, address, data)
  {
    hide Stored, Flushed, Advance, ValidConfig;
    var n := |data| - 2;
    StoredSettled(c, Words(c, k, address, data[..n]), address + n, 256 * (data[n + 1] as int) + data[n]);
    InsideSpace(c, address + n);
  }

  // ---- Files ----

  datatype Item = Data(size: nat) | Extra(address: nat, recordType: byte, data: seq<byte>)

  ghost predicate Printable(item: Item) {
    match item
    case Data(size) => 0 < size < 256 && size % 2 == 0
    case Extra(address, recordType, data) =>
      address < 0x1_0000 && |data| < 256 && Other(recordType) && recordType != TYPE_END_OF_FILE
  }

  function Size(item: Item): nat {
    if item.Data? then item.size else 0
  }

  // The items cover an image of this length from `start` on.
  ghost predicate Covering(items: seq<Item>, start: nat, length: nat) {
    if items == [] then start == length
    else Printable(items[0]) && Covering(items[1..], start + Size(items[0]), length)
  }

  lemma {:induction false} CoveringBound(items: seq<Item>, start: nat, length: nat)
    requires Covering(items, start, length)
    ensures start <= length
  {
    if items != [] {
      CoveringBound(items[1..], start + Size(items[0]), length);
    }
  }

  function ItemText(image: seq<byte>, item: Item, start: nat): seq<char>
    requires Printable(item) && start + Size(item) <= |image| <= 0x1_0000
  {
    match item
    case Data(size) => Record(start, TYPE_DATA, image[start..start + size])
    case Extra(address, recordType, data) => Record(address, recordType, data)
  }

  function PrintItems(image: seq<byte>, items: seq<Item>, start: nat): seq<char>
    requires Covering(items, start, |image|) && |image| <= 0x1_0000
    decreases items
  {
    if items == [] then Record(0, TYPE_END_OF_FILE, [])
    else
      CoveringBound(items[1..], start + Size(items[0]), |image|);
      ItemText(image, items[0], start) + PrintItems(image, items[1..], start + Size(items[0]))
  }

  // An image that fits the part, printed with these items from `start` on.
  ghost predicate Sendable(c: Config, image: seq<byte>, items: seq<Item>, start: nat) {
    && ValidConfig(c) && c.pageSize <= |image| <= c.bootStart && |image| <= 0x1_0000 && |image| % 2 == start % 2 == 0
    && Covering(items, start, |image|)
  }

  lemma FirstItem(c: Config, image: seq<byte>, items: seq<Item>, start: nat, b: Board) returns (next: Board)
    requires Sendable(c, image, items, start) && items != [] && ValidBoard(c, b)
    ensures Printable(items[0]) && start + Size(items[0]) <= |image|
    ensures Sendable(c, image, items[1..], start + Size(items[0])) && ValidBoard(c, next)
    ensures next == Parse(c, b, ItemText(image, items[0], start))
    ensures Parse(c, b, PrintItems(image, items, start)) ==
            Parse(c, next, PrintItems(image, items[1..], start + Size(items[0])))
  {
    hide Parse, ItemText, ValidConfig, ValidFlash;
    CoveringBound(items[1..], start + Size(items[0]), |image|);
    next := Parse(c, b, ItemText(image, items[0], start));
    ParseAppend(c, b, ItemText(image, items[0], start), PrintItems(image, items[1..], start + Size(items[0])));
  }

  // ---- Records that do no harm ----

  /** The record stands between pages, or the parser reads it to its end and its address lies in the
      page that is open, or the image is complete. */
  predicate Harmless(c: Config, item: Item, place: nat, length: nat)
    requires c.pageSize > 0 && item.Extra?
  {
    || place % c.pageSize == 0
    || ((item.data == [] || item.address < c.bootStart)
        && (PageStart(c, item.address) == PageStart(c, place) || place == length))
  }

  ghost predicate AllHarmless(c: Config, items: seq<Item>, start: nat, length: nat)
    requires c.pageSize > 0
  {
    items != [] ==>
      && (items[0].Extra? ==> Harmless(c, items[0], start, length))
      && AllHarmless(c, items[1..], start + Size(items[0]), length)
  }

  // The image is in memory and no page is open.
  ghost predicate Finished(c: Config, mem: seq<byte>, image: seq<byte>, b: Board)
    requires c.pageSize > 0
  {
    && ValidBoard(c, b) && b.loader.base == 0 && b.loader.running && !b.loader.pageDirty
    && b.flash.mem == Install(c, mem, 0, image)
  }

  // So far so good.
  ghost predicate OnCourse(c: Config, mem: seq<byte>, image: seq<byte>, k: nat, b: Board)
    requires c.pageSize > 0 && k <= |image|
  {
    Progress(c, mem, image, k, b) || (k == |image| && Finished(c, mem, image, b))
  }

  // Writing the last page completes the image.
  lemma LastPage(c: Config, mem: seq<byte>, image: seq<byte>, b: Board)
    requires ValidConfig(c) && |image| <= c.bootStart && |image| % 2 == 0
    requires Progress(c, mem, image, |image|, b) && b.loader.pageDirty
    ensures WritePage(c, b.flash, b.loader.pageStart).mem == Install(c, mem, 0, image)
  {
    hide Install, WritePage, Commit, Filling, ValidConfig, ValidFlash, PageStart;
    EvenSize(c);
    var k := |image|;
    var page := PageStart(c, k);
    PageFacts(c, k);
    PageAround(c, k);
    LastPageValid(c, k);
    WriteCommits(c, b.flash, Install(c, mem, 0, image[..page]), page, image[page..k]);
    InstallNext(c, mem, 0, image[..page], image[page..k]);
    assert image[..page] + image[page..k] == image;
  }

  lemma LastPageValid(c: Config, k: nat)
    requires ValidConfig(c) && k <= c.bootStart && k % c.pageSize != 0
    ensures ValidPage(c, PageStart(c, k))
  {
    var p, q := PageStart(c, k), k / c.pageSize;
    assert p == c.pageSize * q;
    UniqueRemainder(c.pageSize, q, 0, p / c.pageSize, p % c.pageSize);
  }

  lemma ExtraOnCourse(c: Config, mem: seq<byte>, image: seq<byte>, k: nat, b: Board, item: Item)
    requires ValidConfig(c) && k <= |image| <= c.bootStart && |image| % 2 == 0 && item.Extra? && Printable(item)
    requires OnCourse(c, mem, image, k, b) && Harmless(c, item, k, |image|)
    ensures ValidBoard(c, b)
    ensures OnCourse(c, mem, image, k, Parse(c, b, Record(item.address, item.recordType, item.data)))
  {
    assert ValidBoard(c, b);
    hide Parse, Record, Install, Filling, WritePage, PageStart, ValidConfig, ValidFlash, Advance, Other;
    EvenSize(c);
    OtherRecord(c, b, item.address, item.recordType, item.data);
    AtBaseZero(c, item.address);
    var r := Parse(c, b, Record(item.address, item.recordType, item.data));
    if CoreOf(r) == CoreOf(b) {
      SameCourse(c, mem, image, k, b, r);
    } else if b.loader.pageDirty {
      LastPage(c, mem, image, b);
    }
  }

  lemma SameCourse(c: Config, mem: seq<byte>, image: seq<byte>, k: nat, b: Board, r: Board)
    requires ValidConfig(c) && k <= |image| && OnCourse(c, mem, image, k, b) && CoreOf(r) == CoreOf(b)
    ensures OnCourse(c, mem, image, k, r)
  {
    hide Install, Filling, PageStart, ValidConfig, ValidFlash;
  }

  lemma DataOnCourse(c: Config, mem: seq<byte>, image: seq<byte>, k: nat, n: nat, b: Board)
    requires ValidConfig(c) && k % 2 == n % 2 == 0 && 0 < n < 256 && k < 0x1_0000
    requires k + n <= |image| && k + n <= c.bootStart && OnCourse(c, mem, image, k, b)
    ensures ValidBoard(c, b)
    ensures OnCourse(c, mem, image, k + n, Parse(c, b, Record(k, TYPE_DATA, image[k..k + n])))
  {
    hide Parse, Record, Progress, Finished, ValidConfig, ValidBoard;
    EvenSize(c);
    ProgressValid(c, mem, image, k, b);
    ParseRecord(c, mem, image, k, n, b);
  }

  lemma EndOnCourse(c: Config, mem: seq<byte>, image: seq<byte>, b: Board)
    requires ValidConfig(c) && c.pageSize <= |image| <= c.bootStart && |image| % 2 == 0
    requires OnCourse(c, mem, image, |image|, b)
    ensures ValidBoard(c, b)
    ensures var r := Parse(c, b, Record(0, TYPE_END_OF_FILE, []));
            r.flash.mem == Install(c, mem, 0, image) && !r.loader.running
  {
    assert ValidBoard(c, b);
    hide Parse, Record, Install, Filling, WritePage, PageStart, ValidConfig, ValidFlash, Advance;
    EvenSize(c);
    if Progress(c, mem, image, |image|, b) {
      ParseEndOfFile(c, mem, image, b);
    } else {
      OtherRecord(c, b, 0, TYPE_END_OF_FILE, []);
    }
  }

  lemma {:induction false} HarmlessRun(
      c: Config, mem: seq<byte>, image: seq<byte>, items: seq<Item>, k: nat, b: Board)
    requires Sendable(c, image, items, k) && k <= |image| && OnCourse(c, mem, image, k, b)
    requires AllHarmless(c, items, k, |image|)
    ensures ValidBoard(c, b)
    ensures var r := Parse(c, b, PrintItems(image, items, k));
            r.flash.mem == Install(c, mem, 0, image) && !r.loader.running
    decreases |items|
  {
    hide Parse, Record, OnCourse, ValidConfig, ValidFlash, Harmless, Install, PrintItems, Covering, ItemText;
    CourseValid(c, mem, image, k, b);
    if items == [] {
      AtEnd(c, image, k);
      EndOnCourse(c, mem, image, b);
    } else {
      var next := FirstItem(c, image, items, k, b);
      ItemOnCourse(c, mem, image, items, k, b);
      HarmlessRun(c, mem, image, items[1..], k + Size(items[0]), next);
    }
  }

  lemma CourseValid(c: Config, mem: seq<byte>, image: seq<byte>, k: nat, b: Board)
    requires ValidConfig(c) && k <= |image| && OnCourse(c, mem, image, k, b)
    ensures ValidBoard(c, b)
  {
  }

  lemma AtEnd(c: Config, image: seq<byte>, k: nat)
    requires Sendable(c, image, [], k)
    ensures k == |image| && PrintItems(image, [], k) == Record(0, TYPE_END_OF_FILE, [])
  {
  }

  lemma ItemOnCourse(c: Config, mem: seq<byte>, image: seq<byte>, items: seq<Item>, k: nat, b: Board)
    requires Sendable(c, image, items, k) && items != [] && k <= |image| && OnCourse(c, mem, image, k, b)
    requires ValidBoard(c, b) && Printable(items[0]) && k + Size(items[0]) <= |image|
    requires items[0].Extra? ==> Harmless(c, items[0], k, |image|)
    ensures OnCourse(c, mem, image, k + Size(items[0]), Parse(c, b, ItemText(image, items[0], k)))
  {
    hide Parse, Record, OnCourse, ValidConfig, ValidFlash, Harmless, Covering;
    if items[0].Data? {
      DataOnCourse(c, mem, image, k, items[0].size, b);
    } else {
      ExtraOnCourse(c, mem, image, k, b, items[0]);
    }
  }

  /** Records of other types may stand in a file: as long as each is harmless at its place, an image of
      at least one page ends up in memory and the loader exits. */
  lemma MixedFile(c: Config, flash: Flash, image: seq<byte>, items: seq<Item>)
    requires ValidFlash(c, flash) && Sendable(c, image, items, 0) && AllHarmless(c, items, 0, |image|)
    ensures var r := Parse(c, Board(Reset(), flash), PrintItems(image, items, 0));
            r.flash.mem == Install(c, flash.mem, 0, image) && !r.loader.running
  {
    hide Parse, PrintItems, AllHarmless, Covering;
    var start := Board(Reset(), flash);
    assert Progress(c, flash.mem, image, 0, start) by { StartsOnCourse(c, flash, image); }
    HarmlessRun(c, flash.mem, image, items, 0, start);
  }

  lemma StartsOnCourse(c: Config, flash: Flash, image: seq<byte>)
    requires ValidFlash(c, flash)
    ensures Progress(c, flash.mem, image, 0, Board(Reset(), flash))
  {
    hide Install;
    InstallNothing(c, flash.mem, 0);
    assert image[..0] == [];
  }

  // ---- Records that do harm ----

  /** Address x lies behind the parser and is blank, in memory and in what will be written there. */
  ghost predicate Lost(c: Config, k: Core, x: nat, at: nat)
    requires c.pageSize > 0
  {
    && ValidFlash(c, k.flash) && k.base == 0 && x < at <= c.bootStart && k.pageStart == PageStart(c, at)
    && x < |k.flash.mem| && k.flash.mem[x] == 0xFF
    && (k.pageDirty && PageStart(c, x) == k.pageStart ==> k.flash.buf[x % c.pageSize] == 0xFF)
  }

  // Writing a page keeps an address blank unless the buffer holds something for it.
  lemma WriteKeepsBlank(c: Config, f: Flash, page: nat, x: nat)
    requires ValidFlash(c, f) && x < |f.mem| && f.mem[x] == 0xFF
    requires ValidPage(c, page) && PageStart(c, x) == page ==> f.buf[x % c.pageSize] == 0xFF
    ensures WritePage(c, f, page).mem[x] == 0xFF
  {
    if ValidPage(c, page) && page <= x < page + c.pageSize {
      InPage(c, page, x);
      AndErased(0xFF);
    }
  }

  // Where an address of a page lies.
  lemma InPage(c: Config, page: nat, x: nat)
    requires ValidConfig(c) && page % c.pageSize == 0 && page <= x < page + c.pageSize
    ensures PageStart(c, x) == page && x % c.pageSize == x - page
  {
    ModAligned(page, x - page, c.pageSize);
  }

  lemma EraseKeepsBlank(c: Config, f: Flash, page: nat, x: nat)
    requires ValidFlash(c, f) && x < |f.mem| && f.mem[x] == 0xFF
    ensures var r := ErasePage(c, f, page);
            r.mem[x] == 0xFF && (ValidPage(c, page) ==> forall i :: 0 <= i < c.pageSize ==> r.buf[i] == 0xFF)
  {
  }

  lemma FillKeepsBelow(c: Config, f: Flash, address: nat, value: word, o: nat)
    requires ValidFlash(c, f) && address % 2 == 0 && o < address % c.pageSize
    ensures var r := FillWord(c, f, address, value); r.mem == f.mem && r.buf[o] == f.buf[o]
  {
    EvenOffset(c, address);
  }

  lemma FillKeepsMemory(c: Config, f: Flash, address: nat, value: word)
    requires ValidFlash(c, f)
    ensures FillWord(c, f, address, value).mem == f.mem
  {
  }

  // Two addresses of one page: the lower one has the lower place in it.
  lemma PlacesInPage(c: Config, x: nat, y: nat)
    requires c.pageSize > 0 && x < y && PageStart(c, x) == PageStart(c, y)
    ensures x % c.pageSize < y % c.pageSize
  {
  }

  lemma StoredLost(c: Config, k: Core, x: nat, at: nat, value: word)
    requires ValidConfig(c) && at % 2 == 0 && at + 2 <= c.bootStart && Lost(c, k, x, at)
    ensures Lost(c, Stored(c, k, at, value), x, at + 2)
  {
    hide ErasePage, FillWord, WritePage, PageStart, ValidConfig, Advance;
    EvenSize(c);
    InsideSpace(c, at);
    OpenValid(c, at);
    var erased := if k.pageDirty then k.flash else ErasePage(c, k.flash, k.pageStart);
    EraseKeepsBlank(c, k.flash, k.pageStart, x);
    var filled := FillWord(c, erased, at, value);
    FillKeepsMemory(c, erased, at, value);
    if PageStart(c, x) == k.pageStart {
      PlacesInPage(c, x, at);
      FillKeepsBelow(c, erased, at, value, x % c.pageSize);
    }
    WriteKeepsBlank(c, filled, k.pageStart, x);
  }

  lemma OpenValid(c: Config, at: nat)
    requires ValidConfig(c) && at < c.bootStart
    ensures ValidPage(c, PageStart(c, at))
  {
    var p, q := PageStart(c, at), at / c.pageSize;
    assert p == c.pageSize * q;
    UniqueRemainder(c.pageSize, q, 0, p / c.pageSize, p % c.pageSize);
  }

  // The words from `from` on keep it lost.
  lemma {:induction false} WordsLost(c: Config, k: Core, x: nat, at: nat, data: seq<byte>, from: nat)
    requires ValidConfig(c) && at % 2 == |data| % 2 == from % 2 == 0 && from <= |data| && at + |data| <= c.bootStart
    requires ValidFlash(c, k.flash) && Lost(c, Words(c, k, at, data[..from]), x, at + from)
    ensures Lost(c, Words(c, k, at, data), x, at + |data|)
    decreases |data|
  {
    hide Lost, Stored, ValidConfig, ValidFlash;
    EvenSize(c);
    if from == |data| {
      assert data[..from] == data;
    } else {
      var n := |data| - 2;
      assert data[..n][..from] == data[..from];
      WordsLost(c, k, x, at, data[..n], from);
      StoredLost(c, Words(c, k, at, data[..n]), x, at + n, 256 * (data[n + 1] as int) + data[n]);
    }
  }

  ghost predicate OnlyData(items: seq<Item>) {
    forall i :: 0 <= i < |items| ==> items[i].Data?
  }

  // Nothing that follows brings it back.
  lemma {:induction false} LostForGood(c: Config, image: seq<byte>, items: seq<Item>, at: nat, b: Board, x: nat)
    requires Sendable(c, image, items, at) && ValidBoard(c, b) && OnlyData(items) && Lost(c, CoreOf(b), x, at)
    ensures var r := Parse(c, b, PrintItems(image, items, at)); x < |r.flash.mem| && r.flash.mem[x] == 0xFF
    decreases |items|
  {
    hide Parse, Record, ValidConfig, ValidFlash, Words, PrintItems;
    EvenSize(c);
    if items == [] {
      EndLost(c, b, x, at);
      EndText(image);
    } else {
      var next := FirstItem(c, image, items, at, b);
      var data := image[at..at + items[0].size];
      DataRecord(c, b, at, data);
      NoWords(c, CoreOf(b), at);
      assert data[..0] == [];
      WordsLost(c, CoreOf(b), x, at, data, 0);
      LostForGood(c, image, items[1..], at + Size(items[0]), next, x);
    }
  }

  lemma EndText(image: seq<byte>)
    requires |image| <= 0x1_0000
    ensures PrintItems(image, [], |image|) == Record(0, TYPE_END_OF_FILE, [])
  {
  }

  lemma EndLost(c: Config, b: Board, x: nat, at: nat)
    requires ValidBoard(c, b) && Lost(c, CoreOf(b), x, at)
    ensures var r := Parse(c, b, Record(0, TYPE_END_OF_FILE, [])); x < |r.flash.mem| && r.flash.mem[x] == 0xFF
  {
    hide Parse, Record, WritePage, PageStart, Advance;
    OtherRecord(c, b, 0, TYPE_END_OF_FILE, []);
    if b.loader.pageDirty {
      WriteKeepsBlank(c, b.flash, b.loader.pageStart, x);
    }
  }

  // The address whose data a harmful record loses: the first of the open page if the parser gives the
  // record up, and otherwise the one at its place.
  function Victim(c: Config, item: Item, place: nat): nat
    requires c.pageSize > 0 && item.Extra?
  {
    if item.data == [] || item.address < c.bootStart then place else PageStart(c, place)
  }

  // An open page is blank from the parser's place on, and blank in memory from its start.
  lemma OpenPageBlank(c: Config, mem: seq<byte>, image: seq<byte>, k: nat, b: Board)
    requires ValidConfig(c) && k <= |image| && k < c.bootStart && Progress(c, mem, image, k, b) && b.loader.pageDirty
    ensures var page := PageStart(c, k);
            && ValidPage(c, page) && page < k < page + c.pageSize && k < |b.flash.mem|
            && b.flash.mem[page] == 0xFF && b.flash.mem[k] == 0xFF && b.flash.buf[k - page] == 0xFF
  {
    hide Install;
    OpenValid(c, k);
    NextPageFits(c, PageStart(c, k));
  }

  // A record that the parser gives up: the page is erased again when the next word comes.
  lemma GivenUp(c: Config, mem: seq<byte>, image: seq<byte>, k: nat, b: Board, r: Board)
    requires ValidConfig(c) && k <= |image| && k < c.bootStart && Progress(c, mem, image, k, b) && b.loader.pageDirty
    requires CoreOf(r) == CoreOf(b).(pageDirty := false)
    ensures Lost(c, CoreOf(r), PageStart(c, k), k)
  {
    hide Install, Filling, PageStart, ValidConfig;
    EvenSize(c);
    OpenPageBlank(c, mem, image, k, b);
  }

  // A record of another page: the open page is written early and the next word goes to that page.
  lemma WrittenEarly(
      c: Config, mem: seq<byte>, image: seq<byte>, k: nat, b: Board, r: Board, page: nat, value: word)
    requires ValidConfig(c) && k <= |image| && k % 2 == 0 && k + 2 <= c.bootStart
    requires Progress(c, mem, image, k, b) && b.loader.pageDirty && page != PageStart(c, k)
    requires CoreOf(r) == CoreOf(b).(flash := WritePage(c, b.flash, b.loader.pageStart), pageStart := page,
                                     pageDirty := false)
    ensures Lost(c, Stored(c, CoreOf(r), k, value), k, k + 2)
  {
    hide Install, Filling, PageStart, ValidConfig, ErasePage, FillWord, WritePage, Advance;
    EvenSize(c);
    OpenPageBlank(c, mem, image, k, b);
    InPage(c, PageStart(c, k), k);
    InsideSpace(c, k);
    WriteKeepsBlank(c, b.flash, b.loader.pageStart, k);
    var f := r.flash;
    EraseKeepsBlank(c, f, page, k);
    var erased := ErasePage(c, f, page);
    FillKeepsMemory(c, erased, k, value);
    WriteKeepsBlank(c, FillWord(c, erased, k, value), page, k);
  }

  lemma HarmDone(c: Config, mem: seq<byte>, image: seq<byte>, items: seq<Item>, k: nat, b: Board)
    requires Sendable(c, image, items, k) && k <= |image| && Progress(c, mem, image, k, b)
    requires items != [] && items[0].Extra? && OnlyData(items[1..]) && !Harmless(c, items[0], k, |image|)
    ensures ValidBoard(c, b)
    ensures var r := Parse(c, b, PrintItems(image, items, k));
            var x := Victim(c, items[0], k); x < |image| && x < |r.flash.mem| && r.flash.mem[x] == 0xFF
  {
    hide Parse, Progress, ValidConfig, ValidFlash, PrintItems, PageStart, Covering, ItemText, Lost, WritePage;
    ProgressValid(c, mem, image, k, b);
    EvenSize(c);
    var item, rest := items[0], items[1..];
    var next := FirstItem(c, image, items, k, b);
    PageIsOpen(c, mem, image, k, b);
    ExtraCore(c, image, item, k, b);
    if item.data == [] || item.address < c.bootStart {
      EarlyDone(c, mem, image, rest, k, b, next, PageStart(c, item.address));
    } else {
      RoomBefore(c, k, |image|);
      GivenUp(c, mem, image, k, b, next);
      LostForGood(c, image, rest, k, next, PageStart(c, k));
    }
  }

  // What a record of another type leaves while a page is open.
  lemma ExtraCore(c: Config, image: seq<byte>, item: Item, k: nat, b: Board)
    requires ValidBoard(c, b) && item.Extra? && Printable(item) && k <= |image| <= 0x1_0000
    requires b.loader.base == 0 && b.loader.pageDirty
    ensures var r, before := CoreOf(Parse(c, b, ItemText(image, item, k))), CoreOf(b);
            && (item.data != [] && item.address >= c.bootStart ==> r == before.(pageDirty := false))
            && ((item.data == [] || item.address < c.bootStart) && PageStart(c, item.address) != b.loader.pageStart ==>
                  r == before.(flash := WritePage(c, b.flash, b.loader.pageStart),
                               pageStart := PageStart(c, item.address),
                             pageDirty := false))
  {
    hide Parse, Record, ValidFlash, PageStart, WritePage, Advance, Other;
    AtBaseZero(c, item.address);
    OtherRecord(c, b, item.address, item.recordType, item.data);
  }

  lemma PageIsOpen(c: Config, mem: seq<byte>, image: seq<byte>, k: nat, b: Board)
    requires ValidConfig(c) && k <= |image| && Progress(c, mem, image, k, b) && k % c.pageSize != 0
    ensures b.loader.pageDirty && b.loader.pageStart == PageStart(c, k) && b.loader.base == 0 && b.loader.running
  {
    hide Install, Filling, PageStart;
  }

  // A place inside a page is below the boot loader, which starts with a page.
  lemma RoomBefore(c: Config, k: nat, length: nat)
    requires ValidConfig(c) && k <= length <= c.bootStart && k % c.pageSize != 0
    ensures k < c.bootStart && PageStart(c, k) < length
  {
  }

  lemma EarlyDone(
      c: Config, mem: seq<byte>, image: seq<byte>, items: seq<Item>, k: nat, b: Board, next: Board, page: nat)
    requires Sendable(c, image, items, k) && k < |image| && Progress(c, mem, image, k, b) && b.loader.pageDirty
    requires OnlyData(items) && page != PageStart(c, k) && ValidBoard(c, next) && ValidBoard(c, b)
    requires CoreOf(next) == CoreOf(b).(flash := WritePage(c, b.flash, b.loader.pageStart), pageStart := page,
                                        pageDirty := false)
    requires b.loader.base == 0
    ensures var r := Parse(c, next, PrintItems(image, items, k)); k < |r.flash.mem| && r.flash.mem[k] == 0xFF
  {
    hide Parse, Record, Progress, ValidConfig, ValidFlash, PrintItems, PageStart, Lost, WritePage;
    EvenSize(c);
    MoreToCome(items, k, |image|);
    var n := items[0].size;
    var last := FirstItem(c, image, items, k, next);
    var data := image[k..k + n];
    DataRecord(c, next, k, data);
    var value: word := 256 * (data[1] as int) + data[0];
    WrittenEarly(c, mem, image, k, b, next, page, value);
    OneWord(c, CoreOf(next), k, data);
    WordsLost(c, CoreOf(next), k, k, data, 2);
    LostForGood(c, image, items[1..], k + n, last, k);
  }

  lemma MoreToCome(items: seq<Item>, k: nat, length: nat)
    requires Covering(items, k, length) && k < length
    ensures items != [] && Printable(items[0])
  {
  }

  lemma OneWord(c: Config, k: Core, at: nat, data: seq<byte>)
    requires ValidFlash(c, k.flash) && |data| >= 2
    ensures Words(c, k, at, data[..2]) == Stored(c, k, at, 256 * (data[1] as int) + data[0])
  {
    hide Stored, ValidFlash;
    assert data[..2][..0] == [];
    NoWords(c, k, at);
  }

  // ---- One record of another type in a file ----

  // Where item i begins.
  function Place(items: seq<Item>, i: nat, start: nat): nat
    requires i <= |items|
  {
    if i == 0 then start else Place(items[1..], i - 1, start + Size(items[0]))
  }

  // Item i is the only one of another type.
  ghost predicate OnlyExtra(items: seq<Item>, i: nat) {
    i < |items| && forall j :: 0 <= j < |items| ==> (items[j].Extra? <==> j == i)
  }

  lemma {:induction false} HarmRun(
      c: Config, mem: seq<byte>, image: seq<byte>, items: seq<Item>, i: nat, k: nat, b: Board)
    requires Sendable(c, image, items, k) && k <= |image| && Progress(c, mem, image, k, b) && OnlyExtra(items, i)
    requires !Harmless(c, items[i], Place(items, i, k), |image|)
    ensures ValidBoard(c, b)
    ensures var r := Parse(c, b, PrintItems(image, items, k));
            var x := Victim(c, items[i], Place(items, i, k));
            x < |image| && x < |r.flash.mem| && r.flash.mem[x] == 0xFF
    decreases i
  {
    hide Parse, Progress, ValidConfig, ValidFlash, PrintItems, Harmless, Covering, Victim, ItemText;
    EvenSize(c);
    ProgressValid(c, mem, image, k, b);
    if i == 0 {
      HarmDone(c, mem, image, items, k, b);
    } else {
      var next := FirstItem(c, image, items, k, b);
      DataProgress(c, mem, image, items, k, b);
      HarmRun(c, mem, image, items[1..], i - 1, k + Size(items[0]), next);
    }
  }

  lemma DataProgress(c: Config, mem: seq<byte>, image: seq<byte>, items: seq<Item>, k: nat, b: Board)
    requires Sendable(c, image, items, k) && items != [] && k <= |image| && Progress(c, mem, image, k, b)
    requires ValidBoard(c, b) && Printable(items[0]) && k + Size(items[0]) <= |image| && items[0].Data?
    ensures Progress(c, mem, image, k + Size(items[0]), Parse(c, b, ItemText(image, items[0], k)))
  {
    hide Parse, Record, Progress, ValidConfig, ValidFlash, Covering;
    ParseRecord(c, mem, image, k, items[0].size, b);
  }

  lemma {:induction false} HarmlessFrom(c: Config, items: seq<Item>, i: nat, k: nat, length: nat)
    requires c.pageSize > 0 && OnlyExtra(items, i) && Harmless(c, items[i], Place(items, i, k), length)
    ensures AllHarmless(c, items, k, length)
    decreases i
  {
    hide Harmless;
    assert forall j :: 0 <= j < |items[1..]| ==> items[1..][j] == items[j + 1];
    if i == 0 {
      DataIsHarmless(c, items[1..], k + Size(items[0]), length);
    } else {
      HarmlessFrom(c, items[1..], i - 1, k + Size(items[0]), length);
    }
  }

  lemma {:induction false} DataIsHarmless(c: Config, items: seq<Item>, k: nat, length: nat)
    requires c.pageSize > 0 && OnlyData(items)
    ensures AllHarmless(c, items, k, length)
    decreases |items|
  {
    if items != [] {
      DataIsHarmless(c, items[1..], k + Size(items[0]), length);
    }
  }

  // What the printed file leaves in memory.
  function MemoryAfter(c: Config, flash: Flash, image: seq<byte>, items: seq<Item>): seq<byte>
    requires ValidFlash(c, flash) && Sendable(c, image, items, 0)
  {
    Parse(c, Board(Reset(), flash), PrintItems(image, items, 0)).flash.mem
  }

  /** The exact condition: a file with one record of another type installs every image of its length if
      and only if the record is harmless at its place. */
  lemma HarmlessIff(c: Config, flash: Flash, length: nat, items: seq<Item>, i: nat)
    requires ValidFlash(c, flash) && OnlyExtra(items, i) && Covering(items, 0, length)
    requires c.pageSize <= length <= c.bootStart && length <= 0x1_0000 && length % 2 == 0
    ensures (forall image: seq<byte> :: |image| == length ==>
               MemoryAfter(c, flash, image, items) == Install(c, flash.mem, 0, image))
            <==> Harmless(c, items[i], Place(items, i, 0), length)
  {
    hide MemoryAfter, Harmless, Install, Covering, ValidFlash, ValidConfig;
    PartOf(c, flash);
    if Harmless(c, items[i], Place(items, i, 0), length) {
      HarmlessFrom(c, items, i, 0, length);
      forall image: seq<byte> | |image| == length
        ensures MemoryAfter(c, flash, image, items) == Install(c, flash.mem, 0, image)
      {
        Installed(c, flash, image, items);
      }
    } else {
      ZerosLost(c, flash, length, items, i);
    }
  }

  lemma Installed(c: Config, flash: Flash, image: seq<byte>, items: seq<Item>)
    requires ValidFlash(c, flash) && Sendable(c, image, items, 0) && AllHarmless(c, items, 0, |image|)
    ensures MemoryAfter(c, flash, image, items) == Install(c, flash.mem, 0, image)
  {
    hide Parse, PrintItems, AllHarmless, Covering;
    MixedFile(c, flash, image, items);
  }

  /** The image of zeros shows the harm. */
  lemma ZerosLost(c: Config, flash: Flash, length: nat, items: seq<Item>, i: nat)
    requires ValidFlash(c, flash) && OnlyExtra(items, i) && Covering(items, 0, length)
    requires c.pageSize <= length <= c.bootStart && length <= 0x1_0000 && length % 2 == 0
    requires !Harmless(c, items[i], Place(items, i, 0), length)
    ensures var zeros := Repeat(0, length);
            MemoryAfter(c, flash, zeros, items) != Install(c, flash.mem, 0, zeros)
  {
    hide Parse, PrintItems, Harmless, Covering, Progress, Victim;
    var zeros, start := Repeat(0, length), Board(Reset(), flash);
    StartsOnCourse(c, flash, zeros);
    HarmRun(c, flash.mem, zeros, items, i, 0, start);
    var x := Victim(c, items[i], Place(items, i, 0));
    assert x < length ==> Install(c, flash.mem, 0, zeros)[x] == 0;
  }

  /** A file that is lost: a start-address record, with address zero, in the middle of the second page. */
  lemma StartAddressLosesImage(c: Config, flash: Flash, items: seq<Item>)
    requires ValidFlash(c, flash) && c.pageSize == 128 && c.bootStart >= 256
    requires items == [Data(128), Data(64), Extra(0, 5, [0, 0, 0, 0]), Data(64)]
    ensures Covering(items, 0, 256)
    ensures var zeros := Repeat(0, 256);
            MemoryAfter(c, flash, zeros, items) != Install(c, flash.mem, 0, zeros)
  {
    hide MemoryAfter, Install;
    assert items[1..] == [Data(64), Extra(0, 5, [0, 0, 0, 0]), Data(64)];
    assert items[1..][1..] == [Extra(0, 5, [0, 0, 0, 0]), Data(64)] && items[1..][1..][1..] == [Data(64)];
    assert items[1..][1..][1..][1..] == [];
    assert Covering([], 256, 256);
    assert Covering([Data(64)], 192, 256);
    assert Covering(items[1..][1..], 192, 256);
    assert Covering(items[1..], 128, 256);
    assert Place(items, 2, 0) == Place(items[1..], 1, 128) == 192;
    ZerosLost(c, flash, 256, items, 2);
  }
}
