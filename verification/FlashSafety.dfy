/** What no stream, no request and no command can do to the flash memory. */
module FlashSafety {
  import opened Bytes
  import opened Flash
  import Report
  import Hex
  import Dfu
  import Avr109

  // ---- A page write ----

  lemma {:induction false} AndBit(a: nat, b: nat, k: nat)
    ensures Report.Bit(And(a, b), k) <==> Report.Bit(a, k) && Report.Bit(b, k)
    decreases k
  {
    AndStep(a, b);
    if k > 0 {
      AndBit(a / 2, b / 2, k - 1);
    }
  }

  lemma AndStep(a: nat, b: nat)
    ensures And(a, b) / 2 == And(a / 2, b / 2)
    ensures And(a, b) % 2 == 1 <==> a % 2 == 1 && b % 2 == 1
  {
    if a > 0 && b > 0 {
      var half := And(a / 2, b / 2);
      LowestDigits(a % 2, b % 2);
      Doubled(half, a % 2 * (b % 2));
      assert And(a, b) == 2 * half + a % 2 * (b % 2);
    }
  }

  lemma LowestDigits(x: nat, y: nat)
    requires x < 2 && y < 2
    ensures x * y < 2 && (x * y == 1 <==> x == 1 && y == 1)
  {
    if x == 1 {
      assert x * y == y;
    }
  }

  lemma Doubled(half: nat, low: nat)
    requires low < 2
    ensures (2 * half + low) / 2 == half && (2 * half + low) % 2 == low
  {
  }

  /** Writing a page only clears bits: a bit of the page is set afterwards exactly when it was set before
      and is set in the buffer; every other byte stays, and the buffer is blank. */
  lemma WriteClearsBits(c: Config, f: Flash, page: nat, i: nat, k: nat)
    requires ValidFlash(c, f) && ValidPage(c, page) && i < |f.mem|
    ensures var r := WritePage(c, f, page);
            && (page <= i < page + c.pageSize ==>
                  (Report.Bit(r.mem[i], k) <==> Report.Bit(f.mem[i], k) && Report.Bit(f.buf[i - page], k)))
            && (i < page || page + c.pageSize <= i ==> r.mem[i] == f.mem[i])
            && r.buf == Repeat(0xFF, c.pageSize)
  {
    hide Report.Bit, And;
    if page <= i < page + c.pageSize {
      AndBit(f.mem[i], f.buf[i - page], k);
    }
  }

  // ---- The boot loader section ----

  // The same from the boot loader on.
  ghost predicate Protected(c: Config, f: Flash, g: Flash) {
    |f.mem| == |g.mem| && forall i :: c.bootStart <= i < |f.mem| ==> g.mem[i] == f.mem[i]
  }

  lemma EraseProtects(c: Config, f: Flash, address: nat)
    requires ValidFlash(c, f)
    ensures Protected(c, f, ErasePage(c, f, address))
  {
    if ValidPage(c, address) {
      NextPageFits(c, address);
    }
  }

  lemma WriteProtects(c: Config, f: Flash, address: nat)
    requires ValidFlash(c, f)
    ensures Protected(c, f, WritePage(c, f, address))
  {
    hide And;
    if ValidPage(c, address) {
      NextPageFits(c, address);
    }
  }

  lemma FillProtects(c: Config, f: Flash, address: nat, value: word)
    requires ValidFlash(c, f)
    ensures Protected(c, f, FillWord(c, f, address, value))
  {
  }

  // ---- Intel HEX ----

  lemma FlushProtects(c: Config, b: Hex.Board)
    requires Hex.ValidBoard(c, b)
    ensures Protected(c, b.flash, Hex.Flush(c, b).flash)
  {
    hide WritePage, Hex.PageStart, ValidFlash;
    WriteProtects(c, b.flash, b.loader.pageStart);
  }

  lemma StoreProtects(c: Config, b: Hex.Board, value: word)
    requires Hex.ValidBoard(c, b)
    ensures Protected(c, b.flash, Hex.StoreWord(c, b, value).flash)
  {
    hide ErasePage, FillWord, Hex.Flush, ValidFlash, Hex.Advance;
    var l := b.loader;
    var erased := if l.pageDirty then b.flash else ErasePage(c, b.flash, l.pageStart);
    EraseProtects(c, b.flash, l.pageStart);
    FillProtects(c, erased, l.address, value);
    FlushProtects(c, Hex.Board(l.(pageDirty := true, address := Hex.Advance(c, l.address, 2)),
                               FillWord(c, erased, l.address, value)));
  }

  lemma WordProtects(c: Config, b: Hex.Board, value: word)
    requires Hex.ValidBoard(c, b)
    ensures Protected(c, b.flash, Hex.ProcessWord(c, b, value).flash)
  {
    hide Hex.StoreWord, ValidFlash;
    StoreProtects(c, b, value);
  }

  lemma ByteProtects(c: Config, b: Hex.Board)
    requires Hex.ValidBoard(c, b)
    ensures Protected(c, b.flash, Hex.ProcessByte(c, b).flash)
  {
    hide Hex.ProcessWord, Hex.Flush, ValidFlash, Hex.Advance;
    var l := b.loader;
    var summed := b.(loader := l.(checksum := (l.checksum as int + l.data) % 256));
    var counted := summed.loader.(dataRem := (l.dataRem + 255) % 256);
    WordProtects(c, summed.(loader := counted), 256 * (counted.data as int) + counted.prevData);
    FlushProtects(c, b);
  }

  lemma CharProtects(c: Config, b: Hex.Board, ch: char)
    requires Hex.ValidBoard(c, b)
    ensures Protected(c, b.flash, Hex.ParseChar(c, b, ch).flash)
  {
    hide Hex.ProcessByte, Hex.HexToDecimal, ValidFlash;
    var l := b.loader;
    if Hex.HexToDecimal(ch) >= 0 {
      ByteProtects(c, b.(loader := l.(data := (l.data as int * 16 + Hex.HexToDecimal(ch)) % 256,
                                      readMsb := !l.readMsb)));
    }
  }

  /** No stream of characters changes the boot loader section. */
  lemma {:induction false} HexProtects(c: Config, b: Hex.Board, stream: seq<char>)
    requires Hex.ValidBoard(c, b)
    ensures Protected(c, b.flash, Hex.Parse(c, b, stream).flash)
  {
    hide Hex.ParseChar, ValidFlash;
    if stream != [] {
      HexProtects(c, b, stream[..|stream| - 1]);
      CharProtects(c, Hex.Parse(c, b, stream[..|stream| - 1]), stream[|stream| - 1]);
    }
  }

  // ---- DFU ----

  lemma {:induction false} EraseFromProtects(c: Config, f: Flash, address: nat)
    requires ValidFlash(c, f)
    ensures Protected(c, f, Dfu.EraseFrom(c, f, address))
    decreases c.bootStart - address
  {
    hide ErasePage;
    if address < c.bootStart {
      EraseProtects(c, f, address);
      EraseFromProtects(c, ErasePage(c, f, address), address + c.pageSize);
    }
  }

  lemma CommandProtects(c: Config, d: Dfu.Device, dataSize: nat)
    requires Dfu.Valid(c, d)
    ensures Protected(c, d.flash, Dfu.ProcessCommand(c, d, dataSize).flash)
  {
    hide ErasePage, Dfu.EraseFrom, Dfu.FirstNonBlank, Dfu.FlashByte, ValidFlash;
    EraseProtects(c, d.flash, Dfu.Long(Dfu.LoadAddresses(d).page64, Dfu.LoadAddresses(d).start));
    EraseFromProtects(c, d.flash, 0);
  }

  lemma {:induction false} ProgramProtects(
      c: Config, f: Flash, ep: Dfu.Endpoint, words: nat, address: nat, page: nat, inPage: nat)
    requires ValidFlash(c, f)
    ensures Protected(c, f, Dfu.ProgramWords(c, f, ep, words, address, page, inPage).flash)
    decreases words
  {
    hide FillWord, WritePage, ErasePage, Dfu.Fetched, Dfu.Peek, Dfu.Skip, ValidFlash;
    if words > 0 && !Dfu.Gone(ep) {
      var e, left := Dfu.Fetched(ep), words - 1;
      var value := 256 * (Dfu.Peek(e, 1) as int) + Dfu.Peek(e, 0);
      var filled := FillWord(c, f, address, value);
      FillProtects(c, f, address, value);
      if inPage + 1 == c.pageSize / 2 || left == 0 {
        var written := WritePage(c, filled, page);
        WriteProtects(c, filled, page);
        if left > 0 {
          EraseProtects(c, written, address + 2);
          ProgramProtects(c, ErasePage(c, written, address + 2), Dfu.Skip(e, 2), left, address + 2, address + 2, 0);
        } else {
          ProgramProtects(c, written, Dfu.Skip(e, 2), left, address + 2, page, inPage + 1);
        }
      } else {
        ProgramProtects(c, filled, Dfu.Skip(e, 2), left, address + 2, page, inPage + 1);
      }
    }
  }

  lemma CommandsProtect(c: Config, d: Dfu.Device, payload: seq<byte>)
    requires Dfu.Valid(c, d)
    ensures Protected(c, d.flash, Dfu.Commands(c, d, payload).flash)
  {
    hide Dfu.ProcessCommand, ValidFlash;
    CommandProtects(c, d, |payload|);
    if payload != [] {
      CommandProtects(c, Dfu.LoadCommand(Dfu.Woken(c, d, payload), payload), Dfu.AfterCommand(payload));
    }
  }

  lemma DownloadProtects(c: Config, d: Dfu.Device, ep: Dfu.Endpoint)
    requires Dfu.Valid(c, d)
    ensures Protected(c, d.flash, Dfu.Download(c, d, ep).flash)
  {
    hide Dfu.Discard, Dfu.ProgramWords, Dfu.ProgramEeprom, ValidFlash, Dfu.RangeLength;
    var e := Dfu.Discard(Dfu.Discard(ep, Dfu.FILLER), d.start % Dfu.PACKET);
    var bytes, address := Dfu.RangeLength(d.start, d.end), Dfu.Long(d.page64, d.start);
    ProgramProtects(c, d.flash, e, bytes / 2, address, address, 0);
    Dfu.EepromKeeps(d, e, bytes);
  }

  lemma StepProtects(c: Config, d: Dfu.Device, q: Dfu.Request)
    requires Dfu.Valid(c, d)
    ensures Protected(c, d.flash, Dfu.Step(c, d, q).flash)
  {
    hide Dfu.Commands, Dfu.Download, ValidFlash, Dfu.RangeLength;
    if q.Dnload? {
      CommandsProtect(c, d, q.payload);
      DownloadProtects(c, Dfu.Commands(c, d, q.payload), Dfu.Skip(Dfu.FirstPacket(q.payload), 6));
    }
  }

  /** No sequence of requests changes the boot loader section. */
  lemma {:induction false} DfuProtects(c: Config, d: Dfu.Device, qs: seq<Dfu.Request>)
    requires Dfu.Valid(c, d)
    ensures Protected(c, d.flash, Dfu.After(c, d, qs).flash)
    decreases |qs|
  {
    hide Dfu.Step, ValidFlash;
    if qs != [] {
      StepProtects(c, d, qs[0]);
      DfuProtects(c, Dfu.Step(c, d, qs[0]), qs[1..]);
    }
  }

  // ---- AVR109 ----

  lemma {:induction false} FillWordsProtects(c: Config, f: Flash, address: nat, data: seq<byte>, n: nat)
    requires ValidFlash(c, f) && 2 * n <= |data|
    ensures Protected(c, f, Avr109.FillWords(c, f, address, data, n))
  {
    hide FillWord, ValidFlash, Avr109.Advance;
    if n > 0 {
      FillWordsProtects(c, f, address, data, n - 1);
      FillProtects(c, Avr109.FillWords(c, f, address, data, n - 1), Avr109.Advance(address, n - 1),
                   256 * (data[2 * n - 1] as int) + data[2 * n - 2]);
    }
  }

  /** No block write, at any address and of any size, changes the boot loader section. */
  lemma Avr109Protects(c: Config, d: Avr109.Device, memory: Avr109.MemoryType, data: seq<byte>)
    requires Avr109.Valid(c, d)
    ensures Protected(c, d.flash, Avr109.BlockWrite(c, d, memory, data).flash)
  {
    hide ErasePage, WritePage, Avr109.FillWords, ValidFlash, Avr109.Advance;
    var erased := ErasePage(c, d.flash, d.address);
    var filled := Avr109.FillWords(c, erased, d.address, data, |data| / 2);
    EraseProtects(c, d.flash, d.address);
    FillWordsProtects(c, erased, d.address, data, |data| / 2);
    WriteProtects(c, filled, d.address);
  }
}
