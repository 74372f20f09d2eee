/** The block commands of the AVR109 boot loader. */
module Avr109 {
  import opened Bytes
  import opened Flash

  datatype MemoryType = FlashMemory | Eeprom | Unknown

  /** CurrAddress and the two memories. */
  datatype Device = Device(flash: Flash, eeprom: seq<byte>, address: nat)

  ghost predicate Valid(c: Config, d: Device) {
    ValidFlash(c, d.flash) && d.address < 0x1_0000_0000
  }

  const ERROR: byte := 0x3F  // '?'
  const DONE: byte := 0x0D   // '\r'

  // A 32-bit byte address moved on by n words.
  function Advance(address: nat, n: nat): (r: nat)
    ensures r < 0x1_0000_0000
  {
    (address + 2 * n) % 0x1_0000_0000
  }

  lemma AdvanceSteps(address: nat, n: nat)
    ensures Advance(Advance(address, n), 1) == Advance(address, n + 1)
    ensures address < 0x1_0000_0000 ==> Advance(address, 0) == address
  {
    ModAdd(0x1_0000_0000, 2, address + 2 * n);
  }

  // The EEPROM address that a byte address stands for.
  function EepromAddress(address: nat): nat {
    address / 2 % 0x1_0000
  }

  /** SetCurrentAddress: a big-endian word address. */
  function SetAddress(d: Device, high: byte, low: byte): Device {
    d.(address := 512 * (high as int) + 2 * (low as int))
  }

  // The first n words of a block, filled into the page buffer.
  function FillWords(c: Config, f: Flash, address: nat, data: seq<byte>, n: nat): (r: Flash)
    requires ValidFlash(c, f) && 2 * n <= |data|
    ensures ValidFlash(c, r)
  {
    hide FillWord;
    if n == 0 then f
    else FillWord(c, FillWords(c, f, address, data, n - 1), Advance(address, n - 1),
                  256 * (data[2 * n - 1] as int) + data[2 * n - 2])
  }

  // The first n bytes of a block, written to the EEPROM.
  function StoreBytes(e: seq<byte>, address: nat, data: seq<byte>, n: nat): (r: seq<byte>)
    requires n <= |data|
    ensures |r| == |e|
  {
    if n == 0 then e
    else EepromUpdate(StoreBytes(e, address, data, n - 1), EepromAddress(Advance(address, n - 1)), data[n - 1])
  }

  /** BlockWrite. */
  function BlockWrite(c: Config, d: Device, memory: MemoryType, data: seq<byte>): (r: Device)
    requires Valid(c, d)
    ensures Valid(c, r)
  {
    hide ErasePage, WritePage, FillWords;
    match memory
    case FlashMemory =>
      var filled := FillWords(c, ErasePage(c, d.flash, d.address), d.address, data, |data| / 2);
      d.(flash := WritePage(c, filled, d.address), address := Advance(d.address, |data| / 2))
    case Eeprom =>
      d.(eeprom := StoreBytes(d.eeprom, d.address, data, |data|), address := Advance(d.address, |data|))
    case Unknown => d
  }

  // The first n bytes that a block read of flash returns.
  function LoadFlash(f: Flash, address: nat, n: nat): seq<byte> {
    if n == 0 then []
    else LoadFlash(f, address, n - 1) + [ReadByte(f, Advance(address, (n - 1) / 2) + (n - 1) % 2)]
  }

  function LoadEeprom(e: seq<byte>, address: nat, n: nat): seq<byte> {
    if n == 0 then []
    else LoadEeprom(e, address, n - 1) + [EepromByte(e, EepromAddress(Advance(address, n - 1)))]
  }

  /** BlockRead: the answer, and the address afterwards. */
  function BlockReadReply(d: Device, memory: MemoryType, size: nat): seq<byte> {
    match memory
    case FlashMemory => LoadFlash(d.flash, d.address, size)
    case Eeprom => LoadEeprom(d.eeprom, d.address, size)
    case Unknown => [ERROR]
  }

  function BlockRead(d: Device, memory: MemoryType, size: nat): Device {
    match memory
    case FlashMemory => d.(address := Advance(d.address, size / 2))
    case Eeprom => d.(address := Advance(d.address, size))
    case Unknown => d
  }

  function BlockWriteReply(memory: MemoryType): seq<byte> {
    if memory.Unknown? then [ERROR] else [DONE]
  }

  /** A memory type that does not exist is answered with a question mark and changes nothing; a write is
      confirmed with a carriage return. */
  lemma UnknownMemory(c: Config, d: Device, data: seq<byte>, size: nat)
    requires Valid(c, d)
    ensures BlockReadReply(d, Unknown, size) == BlockWriteReply(Unknown) == [0x3F]
    ensures BlockRead(d, Unknown, size) == BlockWrite(c, d, Unknown, data) == d
    ensures BlockWriteReply(FlashMemory) == BlockWriteReply(Eeprom) == [0x0D]
  {
    hide ErasePage, WritePage, FillWords;
  }

  /** Blocks of odd size in flash: the last byte of a write is fetched and dropped, and the half-read word of
      a read does not move the address. */
  lemma OddBlocks(c: Config, d: Device, data: seq<byte>)
    requires Valid(c, d) && |data| % 2 == 1
    ensures BlockWrite(c, d, FlashMemory, data) == BlockWrite(c, d, FlashMemory, data[..|data| - 1])
    ensures BlockRead(d, FlashMemory, |data|) == BlockRead(d, FlashMemory, |data| - 1)
    ensures |BlockReadReply(d, FlashMemory, |data|)| == |data|
  {
    hide ErasePage, WritePage, FillWords, Advance, ValidFlash;
    var n := |data| / 2;
    assert (|data| - 1) / 2 == n;
    FillWordsPrefix(c, ErasePage(c, d.flash, d.address), d.address, data, n);
    LoadFlashSize(d.flash, d.address, |data|);
  }

  lemma {:induction false} FillWordsPrefix(c: Config, f: Flash, address: nat, data: seq<byte>, n: nat)
    requires ValidFlash(c, f) && 2 * n < |data|
    ensures FillWords(c, f, address, data[..|data| - 1], n) == FillWords(c, f, address, data, n)
  {
    hide FillWord, ValidFlash, Advance;
    if n > 0 {
      FillWordsPrefix(c, f, address, data, n - 1);
    }
  }

  lemma {:induction false} LoadFlashSize(f: Flash, address: nat, n: nat)
    ensures |LoadFlash(f, address, n)| == n
  {
    hide ReadByte;
    if n > 0 {
      LoadFlashSize(f, address, n - 1);
    }
  }

  /** EEPROM addresses have 16 bits. */
  lemma {:induction false} EepromWraps(e: seq<byte>, address: nat, n: nat)
    ensures LoadEeprom(e, address + 0x2_0000, n) == LoadEeprom(e, address, n)
  {
    if n > 0 {
      EepromWraps(e, address, n - 1);
      SameEepromAddress(address, n - 1);
    }
  }

  lemma SameEepromAddress(address: nat, n: nat)
    ensures EepromAddress(Advance(address + 0x2_0000, n)) == EepromAddress(Advance(address, n))
  {
    hide EepromAddress;
    var v, w := address + 0x2_0000 + 2 * n, address + 2 * n;
    EepromAddressOf(v);
    EepromAddressOf(w);
    SameModulo(w);
  }

  lemma SameModulo(w: nat)
    ensures (w + 0x2_0000) / 2 % 0x1_0000 == w / 2 % 0x1_0000
  {
    var x := w / 2;
    assert (w + 0x2_0000) / 2 == x + 0x1_0000;
    UniqueRemainder(0x1_0000, (x + 0x1_0000) / 0x1_0000, (x + 0x1_0000) % 0x1_0000, x / 0x1_0000 + 1, x % 0x1_0000);
  }

  lemma EepromAddressOf(v: nat)
    ensures EepromAddress(v % 0x1_0000_0000) == v / 2 % 0x1_0000
  {
    var q, r := v / 0x1_0000_0000, v % 0x1_0000_0000;
    assert v / 2 == 0x8000_0000 * q + r / 2;
    assert 0x8000_0000 * q == 0x1_0000 * (0x8000 * q);
    var a, b := r / 2, v / 2;
    UniqueRemainder(0x1_0000, a / 0x1_0000 + 0x8000 * q, a % 0x1_0000, b / 0x1_0000, b % 0x1_0000);
  }

  // ---- Round trips ----

  // A word address that the host can set, as the two bytes it sends.
  lemma SetAddressTo(d: Device, address: nat)
    requires address % 2 == 0 && address < 0x2_0000
    ensures SetAddress(d, address / 512, address / 2 % 256) == d.(address := address)
  {
  }

  lemma AdvanceIs(address: nat, n: nat)
    requires address + 2 * n < 0x1_0000_0000
    ensures Advance(address, n) == address + 2 * n
  {
  }

  lemma {:induction false} FillWordsFills(c: Config, f: Flash, base: seq<byte>, page: nat, data: seq<byte>, n: nat)
    requires ValidFlash(c, f) && page % c.pageSize == 0 && page < 0x1000_0000
    requires Filling(c, f, base, page, []) && 2 * n <= |data| <= c.pageSize <= 256
    ensures Filling(c, FillWords(c, f, page, data, n), base, page, data[..2 * n])
  {
    hide Filling, FillWord, Advance, ValidConfig, ValidFlash;
    if n > 0 {
      var k := 2 * (n - 1);
      FillWordsFills(c, f, base, page, data, n - 1);
      AdvanceIs(page, n - 1);
      FillExtends(c, FillWords(c, f, page, data, n - 1), base, page, data[..k], data[k], data[k + 1]);
      assert data[..k] + [data[k], data[k + 1]] == data[..k + 2];
    }
  }

  lemma {:induction false} LoadFlashIs(f: Flash, address: nat, n: nat)
    requires address % 2 == 0 && address + n <= |f.mem| <= 0x100_0000
    ensures LoadFlash(f, address, n) == f.mem[address..address + n]
  {
    hide Advance;
    if n > 0 {
      AdvanceIs(address, (n - 1) / 2);
      LoadFlashIs(f, address, n - 1);
    }
  }

  /** A block written at a page of the application section is the page's contents, the rest of the
      page is blank, other pages are kept; set address and block read return it and move on by it. */
  lemma FlashBlockRoundTrip(c: Config, d: Device, data: seq<byte>)
    requires Valid(c, d) && ValidPage(c, d.address) && d.address < 0x2_0000
    requires |data| % 2 == 0 && |data| <= c.pageSize
    ensures var written := BlockWrite(c, d, FlashMemory, data);
            var back := SetAddress(written, d.address / 512, d.address / 2 % 256);
            && written.flash.mem == Commit(c, d.flash.mem, d.address, data)
            && written.address == d.address + |data|
            && BlockReadReply(back, FlashMemory, |data|) == data
            && BlockRead(back, FlashMemory, |data|).address == d.address + |data|
  {
    hide ErasePage, WritePage, FillWords, Filling, LoadFlash, Commit, ValidFlash, ValidConfig, Advance;
    var page, n := d.address, |data| / 2;
    BlockFacts(c, d);
    EraseStarts(c, d.flash, page);
    var erased := ErasePage(c, d.flash, page);
    FillWordsFills(c, erased, d.flash.mem, page, data, n);
    assert data[..2 * n] == data;
    WriteCommits(c, FillWords(c, erased, page, data, n), d.flash.mem, page, data);
    AdvanceIs(page, n);
    var written := BlockWrite(c, d, FlashMemory, data);
    SetAddressTo(written, page);
    LoadFlashIs(written.flash, page, |data|);
    CommittedRange(c, d.flash.mem, page, data);
  }

  lemma BlockFacts(c: Config, d: Device)
    requires Valid(c, d) && ValidPage(c, d.address)
    ensures d.address % 2 == 0 && c.pageSize <= 256 && ValidConfig(c)
    ensures d.address + c.pageSize <= |d.flash.mem| <= 0x100_0000
    ensures forall f :: ValidFlash(c, f) ==> |f.mem| == |d.flash.mem|
  {
    EvenPage(c, d.address);
    NextPageFits(c, d.address);
  }

  lemma EvenPage(c: Config, page: nat)
    requires ValidConfig(c) && page % c.pageSize == 0
    ensures page % 2 == 0
  {
    var m := c.pageSize / 2 * (page / c.pageSize);
    assert page == 2 * m;
  }

  lemma CommittedRange(c: Config, mem: seq<byte>, page: nat, data: seq<byte>)
    requires |data| <= c.pageSize && page + c.pageSize <= |mem|
    ensures Commit(c, mem, page, data)[page..page + |data|] == data
  {
  }

  lemma EepromIndex(a: nat, i: nat)
    requires a + i < 0x1_0000
    ensures EepromAddress(Advance(2 * a, i)) == a + i
  {
  }

  lemma {:induction false} StoreBytesStores(e: seq<byte>, a: nat, data: seq<byte>, n: nat)
    requires n <= |data| && a + |data| <= |e| <= 0x1_0000
    ensures StoreBytes(e, 2 * a, data, n) == e[..a] + data[..n] + e[a + n..]
  {
    hide EepromAddress;
    if n > 0 {
      StoreBytesStores(e, a, data, n - 1);
      EepromIndex(a, n - 1);
      assert (e[..a] + data[..n - 1] + e[a + n - 1..])[a + n - 1 := data[n - 1]] == e[..a] + data[..n] + e[a + n..];
    }
  }

  lemma {:induction false} LoadEepromIs(e: seq<byte>, a: nat, n: nat)
    requires a + n <= |e| <= 0x1_0000
    ensures LoadEeprom(e, 2 * a, n) == e[a..a + n]
  {
    hide EepromAddress;
    if n > 0 {
      LoadEepromIs(e, a, n - 1);
      EepromIndex(a, n - 1);
    }
  }

  /** The same for the EEPROM, with any size: the address moves by two per byte. */
  lemma EepromBlockRoundTrip(c: Config, d: Device, a: nat, data: seq<byte>)
    requires Valid(c, d) && d.address == 2 * a && a < 0x1_0000 && a + |data| <= |d.eeprom| <= 0x1_0000
    ensures var written := BlockWrite(c, d, Eeprom, data);
            var back := SetAddress(written, a / 256, a % 256);
            && written.eeprom == d.eeprom[..a] + data + d.eeprom[a + |data|..]
            && written.address == 2 * (a + |data|)
            && BlockReadReply(back, Eeprom, |data|) == data
            && BlockRead(back, Eeprom, |data|).address == 2 * (a + |data|)
  {
    hide StoreBytes, LoadEeprom;
    StoreBytesStores(d.eeprom, a, data, |data|);
    assert data[..|data|] == data;
    var written := BlockWrite(c, d, Eeprom, data);
    LoadEepromIs(written.eeprom, a, |data|);
    SetAddressTo(written, 2 * a);
  }
}
