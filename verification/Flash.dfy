/** Self-programming flash memory as the boot loaders use it: a page is erased to 0xFF, a
    temporary page buffer is filled word by word, and writing the page can only clear bits.
 */
module Flash {
  import opened Bytes

  /** SPM_PAGESIZE, BOOT_START_ADDR and FLASHEND + 1. */
  datatype Config = Config(pageSize: nat, bootStart: nat, flashSize: nat)

  ghost predicate ValidConfig(c: Config) {
    && (c.pageSize == 128 || c.pageSize == 256)
    && c.bootStart % c.pageSize == 0
    && 0 < c.bootStart < c.flashSize <= 0x100_0000
  }

  // A call of the programming interface.
  datatype Operation = Erased(page: nat) | Filled(address: nat, value: word) | Written(page: nat)

  /** Memory, temporary buffer, and the history of calls. */
  datatype Flash = Flash(mem: seq<byte>, buf: seq<byte>, log: seq<Operation>)

  ghost predicate ValidFlash(c: Config, f: Flash) {
    ValidConfig(c) && |f.mem| == c.flashSize && |f.buf| == c.pageSize
  }

  function Blank(c: Config): seq<byte> {
    Repeat(0xFF, c.pageSize)
  }

  predicate ValidPage(c: Config, address: nat)
    requires c.pageSize > 0
  {
    address < c.bootStart && address % c.pageSize == 0
  }

  // Memory with one page replaced.
  function ReplacePage(c: Config, mem: seq<byte>, page: nat, data: seq<byte>): (r: seq<byte>)
    requires |data| == c.pageSize
    ensures |r| == |mem|
  {
    seq(|mem|, i requires 0 <= i < |mem| => if page <= i < page + c.pageSize then data[i - page] else mem[i])
  }

  // What writing a page leaves at one address.
  function Programmed(c: Config, f: Flash, page: nat, i: nat): byte
    requires |f.buf| == c.pageSize && i < |f.mem|
  {
    if page <= i < page + c.pageSize then And(f.mem[i], f.buf[i - page]) else f.mem[i]
  }

  // Memory after a page write.
  function ProgrammedMemory(c: Config, f: Flash, page: nat): (r: seq<byte>)
    requires |f.buf| == c.pageSize
    ensures |r| == |f.mem|
  {
    hide Programmed;
    seq(|f.mem|, i requires 0 <= i < |f.mem| => Programmed(c, f, page, i))
  }

  /** BootloaderAPI_ErasePage. */
  function ErasePage(c: Config, f: Flash, address: nat): (r: Flash)
    requires ValidFlash(c, f)
    ensures ValidFlash(c, r)
  {
    var log := f.log + [Erased(address)];
    if ValidPage(c, address) then Flash(ReplacePage(c, f.mem, address, Blank(c)), Blank(c), log)
    else f.(log := log)
  }

  /** BootloaderAPI_WritePage. */
  function WritePage(c: Config, f: Flash, address: nat): (r: Flash)
    requires ValidFlash(c, f)
    ensures ValidFlash(c, r)
  {
    var log := f.log + [Written(address)];
    if ValidPage(c, address) then Flash(ProgrammedMemory(c, f, address), Blank(c), log)
    else f.(log := log)
  }

  // The word of the temporary buffer that an address selects.
  function Offset(c: Config, address: nat): nat
    requires c.pageSize > 0
  {
    var o := address % c.pageSize;
    o - o % 2
  }

  lemma OffsetInPage(c: Config, address: nat)
    requires ValidConfig(c)
    ensures Offset(c, address) + 1 < c.pageSize
  {
  }

  /** BootloaderAPI_FillWord. */
  function FillWord(c: Config, f: Flash, address: nat, value: word): (r: Flash)
    requires ValidFlash(c, f)
    ensures ValidFlash(c, r)
  {
    OffsetInPage(c, address);
    var o := Offset(c, address);
    f.(buf := f.buf[o := value % 256][o + 1 := value / 256], log := f.log + [Filled(address, value)])
  }

  // A read of program memory; what lies beyond it reads as erased.
  function ReadByte(f: Flash, address: nat): byte {
    if address < |f.mem| then f.mem[address] else 0xFF
  }

  // ---- EEPROM ----

  function EepromByte(e: seq<byte>, address: nat): byte {
    if address < |e| then e[address] else 0xFF
  }

  function EepromUpdate(e: seq<byte>, address: nat, b: byte): seq<byte> {
    if address < |e| then e[address := b] else e
  }

  lemma EvenSize(c: Config)
    requires ValidConfig(c)
    ensures c.pageSize % 2 == 0 && c.pageSize > 1
  {
  }

  // ---- Programming one page ----

  // The bytes of a page that holds `data` and is blank after it.
  function PageOf(c: Config, data: seq<byte>): seq<byte>
    requires |data| <= c.pageSize
  {
    data + Repeat(0xFF, c.pageSize - |data|)
  }

  // Memory `base` with the page at `page` programmed with `data`.
  function Commit(c: Config, base: seq<byte>, page: nat, data: seq<byte>): seq<byte>
    requires |data| <= c.pageSize
  {
    ReplacePage(c, base, page, PageOf(c, data))
  }

  // The page has been erased and `data` is in the temporary buffer.
  ghost predicate Filling(c: Config, f: Flash, base: seq<byte>, page: nat, data: seq<byte>) {
    && ValidFlash(c, f) && |data| <= c.pageSize
    && f.mem == Commit(c, base, page, [])
    && f.buf == PageOf(c, data)
  }

  lemma EraseStarts(c: Config, f: Flash, page: nat)
    requires ValidFlash(c, f) && ValidPage(c, page)
    ensures Filling(c, ErasePage(c, f, page), f.mem, page, [])
  {
    assert PageOf(c, []) == Blank(c);
  }

  lemma ModAligned(page: nat, offset: nat, size: nat)
    requires offset < size && page % size == 0
    ensures (page + offset) % size == offset
  {
    var v := page + offset;
    UniqueRemainder(size, page / size, offset, v / size, v % size);
  }

  lemma FillExtends(c: Config, f: Flash, base: seq<byte>, page: nat, data: seq<byte>, low: byte, high: byte)
    requires Filling(c, f, base, page, data) && page % c.pageSize == 0
    requires |data| % 2 == 0 && |data| < c.pageSize
    ensures |data| + 2 <= c.pageSize
    ensures Filling(c, FillWord(c, f, page + |data|, 256 * (high as int) + low), base, page, data + [low, high])
  {
    ModAligned(page, |data|, c.pageSize);
    var r := FillWord(c, f, page + |data|, 256 * (high as int) + low);
    assert r.buf == PageOf(c, data + [low, high]);
  }

  lemma WriteCommits(c: Config, f: Flash, base: seq<byte>, page: nat, data: seq<byte>)
    requires Filling(c, f, base, page, data) && ValidPage(c, page)
    ensures WritePage(c, f, page).mem == Commit(c, base, page, data)
  {
    var r := WritePage(c, f, page);
    forall i | 0 <= i < |f.mem|
      ensures r.mem[i] == Commit(c, base, page, data)[i]
    {
      if page <= i < page + c.pageSize {
        AndErased(f.buf[i - page]);
      }
    }
  }

  // ---- Programming a range, page by page ----

  // Whether address i lies in the blank rest of the last page of a range.
  predicate InTail(c: Config, start: nat, length: nat, i: int)
    requires c.pageSize > 0
  {
    start + length <= i && length % c.pageSize != 0 && i < start + length - length % c.pageSize + c.pageSize
  }

  /** Memory with `data` at a page boundary: the rest of the last page is blank, all else is kept. */
  function Install(c: Config, base: seq<byte>, start: nat, data: seq<byte>): (r: seq<byte>)
    requires c.pageSize > 0
    ensures |r| == |base|
  {
    seq(|base|, i requires 0 <= i < |base| =>
      if start <= i < start + |data| then data[i - start]
      else if InTail(c, start, |data|, i) then 0xFF
      else base[i])
  }

  lemma InstallNothing(c: Config, base: seq<byte>, start: nat)
    requires c.pageSize > 0
    ensures Install(c, base, start, []) == base
  {
  }

  // Committing the next page extends the installed range.
  lemma InstallNext(c: Config, base: seq<byte>, start: nat, done: seq<byte>, data: seq<byte>)
    requires ValidConfig(c) && |done| % c.pageSize == 0 && 0 < |data| <= c.pageSize
    ensures Commit(c, Install(c, base, start, done), start + |done|, data) == Install(c, base, start, done + data)
  {
    if |data| < c.pageSize {
      ModAligned(|done|, |data|, c.pageSize);
    } else {
      ModNextPage(|done|, c.pageSize);
    }
  }

  lemma ModNextPage(page: nat, size: nat)
    requires size > 0 && page % size == 0
    ensures (page + size) % size == 0
  {
    var v := page + size;
    assert v == size * (page / size + 1);
    UniqueRemainder(size, page / size + 1, 0, v / size, v % size);
  }

  lemma NextPageFits(c: Config, page: nat)
    requires ValidConfig(c) && ValidPage(c, page)
    ensures page + c.pageSize <= c.bootStart
  {
    var q, r := c.bootStart / c.pageSize, page / c.pageSize;
    assert c.bootStart == c.pageSize * q && page == c.pageSize * r;
    assert r < q ==> c.pageSize * (q - r) >= c.pageSize;
    assert r >= q ==> c.pageSize * (r - q) >= 0;
  }
}
