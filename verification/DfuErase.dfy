/** The chip erase and the blank check, over requests. */
module DfuErase {
  import opened Bytes
  import opened Flash
  import opened Dfu

  // ---- The erase loop ----

  // Memory with the application section blank from an address on.
  function BlankFrom(c: Config, mem: seq<byte>, address: nat): seq<byte> {
    seq(|mem|, i requires 0 <= i < |mem| => if address <= i < c.bootStart then 0xFF else mem[i])
  }

  function BlankApplication(c: Config, mem: seq<byte>): seq<byte> {
    BlankFrom(c, mem, 0)
  }

  lemma {:induction false} EraseFromErases(c: Config, f: Flash, address: nat)
    requires ValidFlash(c, f) && address % c.pageSize == 0 && address <= c.bootStart
    ensures EraseFrom(c, f, address).mem == BlankFrom(c, f.mem, address)
    decreases c.bootStart - address
  {
    if address < c.bootStart {
      ModNextPage(address, c.pageSize);
      NextPageFits(c, address);
      var next := ErasePage(c, f, address);
      EraseFromErases(c, next, address + c.pageSize);
      assert BlankFrom(c, next.mem, address + c.pageSize) == BlankFrom(c, f.mem, address);
    } else {
      assert BlankFrom(c, f.mem, address) == f.mem;
    }
  }

  // The erase also leaves the temporary buffer blank.
  lemma {:induction false} EraseFromBuffer(c: Config, f: Flash, address: nat)
    requires ValidFlash(c, f) && address % c.pageSize == 0 && address < c.bootStart
    ensures EraseFrom(c, f, address).buf == Blank(c)
    decreases c.bootStart - address
  {
    hide ReplacePage;
    ModNextPage(address, c.pageSize);
    if address + c.pageSize < c.bootStart {
      EraseFromBuffer(c, ErasePage(c, f, address), address + c.pageSize);
    }
  }

  lemma {:induction false} EraseFromLog(c: Config, f: Flash, g: Flash, address: nat)
    requires ValidFlash(c, f) && ValidFlash(c, g) && f.log == g.log
    ensures EraseFrom(c, f, address).log == EraseFrom(c, g, address).log
    decreases c.bootStart - address
  {
    if address < c.bootStart {
      EraseFromLog(c, ErasePage(c, f, address), ErasePage(c, g, address), address + c.pageSize);
    }
  }

  lemma EraseAll(c: Config, f: Flash)
    requires ValidFlash(c, f)
    ensures EraseFrom(c, f, 0).mem == BlankApplication(c, f.mem)
    ensures EraseFrom(c, f, 0).buf == Blank(c)
  {
    hide EraseFrom;
    EraseFromErases(c, f, 0);
    EraseFromBuffer(c, f, 0);
  }

  // ---- What keeps the application section blank ----

  ghost predicate IsBlank(c: Config, f: Flash) {
    forall i :: 0 <= i < c.bootStart && i < |f.mem| ==> f.mem[i] == 0xFF
  }

  // How many page writes the history holds.
  function Writes(log: seq<Operation>): nat {
    if log == [] then 0 else Writes(log[..|log| - 1]) + if log[|log| - 1].Written? then 1 else 0
  }

  /** The history only grows, and without a page write blank memory stays blank. */
  ghost predicate Follows(c: Config, f: Flash, g: Flash) {
    && Writes(f.log) <= Writes(g.log)
    && (Writes(f.log) == Writes(g.log) && IsBlank(c, f) ==> IsBlank(c, g))
  }

  lemma WritesOne(log: seq<Operation>, op: Operation)
    ensures Writes(log + [op]) == Writes(log) + if op.Written? then 1 else 0
  {
    assert (log + [op])[..|log|] == log;
  }

  lemma EraseFollows(c: Config, f: Flash, address: nat)
    requires ValidFlash(c, f)
    ensures Follows(c, f, ErasePage(c, f, address))
  {
    WritesOne(f.log, Erased(address));
  }

  lemma FillFollows(c: Config, f: Flash, address: nat, value: word)
    requires ValidFlash(c, f)
    ensures Follows(c, f, FillWord(c, f, address, value))
  {
    WritesOne(f.log, Filled(address, value));
  }

  lemma WriteFollows(c: Config, f: Flash, address: nat)
    requires ValidFlash(c, f)
    ensures Follows(c, f, WritePage(c, f, address))
  {
    hide ProgrammedMemory;
    WritesOne(f.log, Written(address));
  }

  lemma {:induction false} EraseFromFollows(c: Config, f: Flash, address: nat)
    requires ValidFlash(c, f)
    ensures Follows(c, f, EraseFrom(c, f, address))
    decreases c.bootStart - address
  {
    hide ErasePage, IsBlank;
    if address < c.bootStart {
      EraseFollows(c, f, address);
      EraseFromFollows(c, ErasePage(c, f, address), address + c.pageSize);
    }
  }

  lemma CommandFollows(c: Config, d: Device, dataSize: nat)
    requires Dfu.Valid(c, d)
    ensures Follows(c, d.flash, ProcessCommand(c, d, dataSize).flash)
  {
    hide ErasePage, EraseFrom, FirstNonBlank, IsBlank, ValidFlash;
    EraseFollows(c, d.flash, Long(LoadAddresses(d).page64, LoadAddresses(d).start));
    EraseFromFollows(c, d.flash, 0);
  }

  lemma CommandsFollow(c: Config, d: Device, payload: seq<byte>)
    requires Dfu.Valid(c, d)
    ensures Follows(c, d.flash, Woken(c, d, payload).flash) && Follows(c, d.flash, Commands(c, d, payload).flash)
  {
    hide ProcessCommand, IsBlank, ValidFlash;
    CommandFollows(c, d, |payload|);
    if payload != [] {
      CommandFollows(c, LoadCommand(Woken(c, d, payload), payload), AfterCommand(payload));
    }
  }

  lemma {:induction false} ProgramFollows(
      c: Config, f: Flash, ep: Endpoint, words: nat, address: nat, page: nat, inPage: nat)
    requires ValidFlash(c, f)
    ensures Follows(c, f, ProgramWords(c, f, ep, words, address, page, inPage).flash)
    decreases words
  {
    hide FillWord, WritePage, ErasePage, Fetched, Peek, Skip, IsBlank, ValidFlash;
    if words > 0 && !Gone(ep) {
      var e, left := Fetched(ep), words - 1;
      var value := 256 * (Peek(e, 1) as int) + Peek(e, 0);
      var filled := FillWord(c, f, address, value);
      FillFollows(c, f, address, value);
      if inPage + 1 == c.pageSize / 2 || left == 0 {
        var written := WritePage(c, filled, page);
        WriteFollows(c, filled, page);
        if left > 0 {
          EraseFollows(c, written, address + 2);
          ProgramFollows(c, ErasePage(c, written, address + 2), Skip(e, 2), left, address + 2, address + 2, 0);
        } else {
          ProgramFollows(c, written, Skip(e, 2), left, address + 2, page, inPage + 1);
        }
      } else {
        ProgramFollows(c, filled, Skip(e, 2), left, address + 2, page, inPage + 1);
      }
    }
  }

  lemma DownloadFollows(c: Config, d: Device, ep: Endpoint)
    requires Dfu.Valid(c, d)
    ensures Follows(c, d.flash, Download(c, d, ep).flash)
  {
    hide Discard, ProgramWords, ProgramEeprom, IsBlank, ValidFlash, RangeLength;
    var e, bytes := Discard(Discard(ep, FILLER), d.start % PACKET), RangeLength(d.start, d.end);
    var address := Long(d.page64, d.start);
    ProgramFollows(c, d.flash, e, bytes / 2, address, address, 0);
    EepromKeeps(d, e, bytes);
  }

  lemma DnloadFollows(c: Config, d: Device, payload: seq<byte>)
    requires Dfu.Valid(c, d)
    ensures Follows(c, Commands(c, d, payload).flash, DnloadStep(c, d, payload).flash)
  {
    hide Commands, Download, IsBlank, ValidFlash;
    DownloadFollows(c, Commands(c, d, payload), Skip(FirstPacket(payload), 6));
  }

  lemma StepFollows(c: Config, d: Device, q: Request)
    requires Dfu.Valid(c, d)
    ensures Follows(c, d.flash, Step(c, d, q).flash)
  {
    hide DnloadStep, IsBlank, ValidFlash, RangeLength;
    if q.Dnload? {
      CommandsFollow(c, d, q.payload);
      DnloadFollows(c, d, q.payload);
    }
  }

  lemma {:induction false} RunFollows(c: Config, d: Device, qs: seq<Request>)
    requires Dfu.Valid(c, d)
    ensures Follows(c, d.flash, After(c, d, qs).flash)
    decreases |qs|
  {
    hide Step, IsBlank, ValidFlash;
    if qs != [] {
      StepFollows(c, d, qs[0]);
      RunFollows(c, Step(c, d, qs[0]), qs[1..]);
    }
  }

  // ---- Secure mode only ends ----

  lemma CommandKeepsOpen(c: Config, d: Device, dataSize: nat)
    requires Dfu.Valid(c, d) && !d.isSecure
    ensures !ProcessCommand(c, d, dataSize).isSecure
  {
    hide EraseFrom, ErasePage, FirstNonBlank;
  }

  lemma CommandsKeepOpen(c: Config, d: Device, payload: seq<byte>)
    requires Dfu.Valid(c, d) && !d.isSecure
    ensures !Woken(c, d, payload).isSecure && !Commands(c, d, payload).isSecure
  {
    hide ProcessCommand, ValidFlash;
    CommandKeepsOpen(c, d, |payload|);
    if payload != [] {
      CommandKeepsOpen(c, LoadCommand(Woken(c, d, payload), payload), AfterCommand(payload));
    }
  }

  lemma DownloadKeepsMode(c: Config, d: Device, ep: Endpoint)
    requires Dfu.Valid(c, d)
    ensures var r := Download(c, d, ep); r.isSecure == d.isSecure && r.running == d.running
  {
    hide Discard, ProgramWords, ProgramEeprom, ValidFlash, RangeLength;
    EepromKeeps(d, Discard(Discard(ep, FILLER), d.start % PACKET), RangeLength(d.start, d.end));
  }

  lemma NeverSecureAgain(c: Config, d: Device, q: Request)
    requires Dfu.Valid(c, d) && !d.isSecure
    ensures !Step(c, d, q).isSecure
  {
    hide Commands, Download, ValidFlash, RangeLength;
    if q.Dnload? {
      CommandsKeepOpen(c, d, q.payload);
      DownloadKeepsMode(c, Commands(c, d, q.payload), Skip(FirstPacket(q.payload), 6));
    }
  }

  lemma {:induction false} OpenForEver(c: Config, d: Device, qs: seq<Request>)
    requires Dfu.Valid(c, d) && !d.isSecure
    ensures !After(c, d, qs).isSecure
    decreases |qs|
  {
    hide Step, Dfu.Valid;
    if qs != [] {
      NeverSecureAgain(c, d, qs[0]);
      OpenForEver(c, Step(c, d, qs[0]), qs[1..]);
    }
  }

  // ---- The requests ----

  // The chip erase, whatever follows its three bytes in the request.
  function EraseRequest(rest: seq<byte>): Request {
    Dnload([COMMAND_WRITE, 0, 0xFF] + rest)
  }

  // The blank check, whatever follows its two bytes in the request.
  function BlankCheck(args: seq<byte>): seq<byte> {
    [COMMAND_DISP_DATA, 1] + args
  }

  // The erase command leaves the section blank, even on a secure device or one about to exit.
  lemma EraseCommand(c: Config, d: Device, rest: seq<byte>)
    requires Dfu.Valid(c, d)
    ensures var p := Commands(c, d, [COMMAND_WRITE, 0, 0xFF] + rest);
            IsBlank(c, p.flash) && !p.isSecure
  {
    hide EraseFrom, Woken, ValidFlash;
    var payload: seq<byte> := [COMMAND_WRITE, 0, 0xFF] + rest;
    var l := LoadCommand(Woken(c, d, payload), payload);
    assert l.data[0] == 0 && l.data[1] == 0xFF;
    EraseAll(c, l.flash);
  }

  // A request for the erase: blank behind it, unless the request itself goes on to program.
  lemma EraseRequested(c: Config, d: Device, rest: seq<byte>)
    requires Dfu.Valid(c, d)
    ensures var r := Step(c, d, EraseRequest(rest));
            !r.isSecure && (Writes(r.flash.log) == Writes(d.flash.log) ==> IsBlank(c, r.flash))
  {
    hide Commands, Download, IsBlank, ValidFlash;
    var payload: seq<byte> := [COMMAND_WRITE, 0, 0xFF] + rest;
    EraseCommand(c, d, rest);
    CommandsFollow(c, d, payload);
    DnloadFollows(c, d, payload);
    DownloadKeepsMode(c, Commands(c, d, payload), Skip(FirstPacket(payload), 6));
  }

  // What the check does on blank memory: it records its command, and if a download is open, it ends
  // it or, with data behind the parameters, goes on with it into the EEPROM.
  function Checked(c: Config, d: Device, args: seq<byte>): Device
    requires Dfu.Valid(c, d)
  {
    var payload := BlankCheck(args);
    var l := LoadCommand(Woken(c, d, payload), payload);
    if !l.state.DnloadIdle? then l
    else if |args| <= 4 then l.(state := Idle)
    else
      var e := Discard(Discard(Skip(FirstPacket(payload), 6), FILLER), l.start % PACKET);
      ProgramEeprom(l, e, RangeLength(l.start, l.end))
  }

  lemma CheckBlank(c: Config, d: Device, args: seq<byte>)
    requires Dfu.Valid(c, d) && !d.isSecure && IsBlank(c, d.flash)
    ensures Step(c, d, Dnload(BlankCheck(args))) == Checked(c, d, args)
  {
    hide ProcessCommand, ValidFlash, IsBlank, Follows, Discard, ProgramEeprom, ProgramWords, RangeLength, FirstPacket,
         Skip;
    var payload := BlankCheck(args);
    var w := Woken(c, d, payload);
    CommandsKeepOpen(c, d, payload);
    WokenBlank(c, d, payload);
    CheckCommand(c, LoadCommand(w, payload), AfterCommand(payload));
  }

  // The check itself raises no error and touches no flash.
  lemma CheckedIsCalm(c: Config, d: Device, args: seq<byte>)
    requires Dfu.Valid(c, d)
    ensures var w, r := Woken(c, d, BlankCheck(args)), Checked(c, d, args);
            && r.flash == w.flash && r.status == w.status
            && (r.state == w.state || (w.state.DnloadIdle? && r.state.Idle?))
  {
    hide Woken, ValidFlash, Discard, ProgramEeprom, RangeLength, FirstPacket, Skip;
    var payload := BlankCheck(args);
    var l := LoadCommand(Woken(c, d, payload), payload);
    var e := Discard(Discard(Skip(FirstPacket(payload), 6), FILLER), l.start % PACKET);
    EepromKeeps(l, e, RangeLength(l.start, l.end));
  }

  lemma WokenBlank(c: Config, d: Device, payload: seq<byte>)
    requires Dfu.Valid(c, d) && IsBlank(c, d.flash)
    ensures IsBlank(c, Woken(c, d, payload).flash)
  {
    hide EraseFrom, ErasePage, FirstNonBlank, IsBlank, ValidFlash;
    if d.waitForExit {
      EraseKeepsBlank(c, d.flash, Long(LoadAddresses(d).page64, LoadAddresses(d).start));
      AllBlank(c, d.flash);
    }
  }

  lemma EraseKeepsBlank(c: Config, f: Flash, address: nat)
    requires ValidFlash(c, f) && IsBlank(c, f)
    ensures IsBlank(c, ErasePage(c, f, address))
  {
  }

  lemma AllBlank(c: Config, f: Flash)
    requires ValidFlash(c, f)
    ensures IsBlank(c, EraseFrom(c, f, 0))
  {
    hide EraseFrom;
    EraseAll(c, f);
  }

  lemma CheckCommand(c: Config, d: Device, dataSize: nat)
    requires Dfu.Valid(c, d) && !d.isSecure && IsBlank(c, d.flash)
    requires d.command == COMMAND_DISP_DATA && d.data[0] == 1
    ensures ProcessCommand(c, d, dataSize) == d
  {
    hide FirstNonBlank, FlashByte, ValidFlash;
    BlankReads(c, d.flash);
  }

  lemma BlankReads(c: Config, f: Flash)
    requires ValidFlash(c, f) && IsBlank(c, f)
    ensures forall i :: 0 <= i < c.bootStart ==> FlashByte(c, f, i) == 0xFF
  {
  }

  /** Erase and blank check agree: after a chip erase request and any further requests that write no
      page, a blank check request with any parameters raises no error, stalls nothing and leaves the
      flash alone; it records its command, and an open download is ended or, with data, goes on. */
  lemma BlankAfterErase(c: Config, d: Device, rest: seq<byte>, qs: seq<Request>, args: seq<byte>)
    requires Dfu.Valid(c, d)
    ensures var r := After(c, Step(c, d, EraseRequest(rest)), qs);
            Writes(r.flash.log) == Writes(d.flash.log) ==>
              var q := Dnload(BlankCheck(args));
              var w, checked := Woken(c, r, BlankCheck(args)), Step(c, r, q);
              && checked == Checked(c, r, args) && Answer(c, r, q) == Reply([], false)
              && checked.flash == w.flash && checked.status == w.status
              && (checked.state == w.state || (w.state.DnloadIdle? && checked.state.Idle?))
              && (!r.waitForExit ==> w == r)
  {
    hide Step, After, IsBlank, ValidFlash, Checked;
    var e := Step(c, d, EraseRequest(rest));
    var r := After(c, e, qs);
    EraseRequested(c, d, rest);
    StepFollows(c, d, EraseRequest(rest));
    RunFollows(c, e, qs);
    OpenForEver(c, e, qs);
    if Writes(r.flash.log) == Writes(d.flash.log) {
      CheckBlank(c, r, args);
      CheckedIsCalm(c, r, args);
      NoStall(c, r, BlankCheck(args));
    }
  }

  lemma NoStall(c: Config, d: Device, payload: seq<byte>)
    requires Dfu.Valid(c, d) && !d.isSecure
    ensures Answer(c, d, Dnload(payload)) == Reply([], false)
  {
    hide ProcessCommand, ValidFlash;
    CommandsKeepOpen(c, d, payload);
  }

  /** Otherwise the check reports the least non-blank address: the request ends in an error, the two
      variables recombine to the address, and the next upload returns its low bytes. The memory is
      the one that a pending exit leaves, if there is one. */
  lemma BlankCheckReports(c: Config, d: Device, args: seq<byte>, a: nat)
    requires Dfu.Valid(c, d) && !Woken(c, d, BlankCheck(args)).isSecure && a < c.bootStart
    requires var f := Woken(c, d, BlankCheck(args)).flash;
             FlashByte(c, f, a) != 0xFF && forall i :: 0 <= i < a ==> FlashByte(c, f, i) == 0xFF
    ensures var r := Step(c, d, Dnload(BlankCheck(args)));
            && r.state.Error? && r.status == ERR_CHECK_ERASED && Long(r.page64, r.start) == a
            && Answer(c, r, Upload) == Reply([a % 256, a / 256 % 256], false)
  {
    hide Woken, ValidFlash, Download;
    assert FirstNonBlank(c, Woken(c, d, BlankCheck(args)).flash, 0) == a;
    hide FlashByte, FirstNonBlank;
    AddressSplit(a);
  }

  lemma AddressSplit(a: nat)
    ensures a / 256 % 256 == a % 0x1_0000 / 256 && a % 256 == a % 0x1_0000 % 256
    ensures 0x1_0000 * (a / 0x1_0000) + a % 0x1_0000 == a
  {
    var h, m, l := a / 0x1_0000, a / 256 % 256, a % 256;
    assert a == 0x1_0000 * h + 256 * m + l;
    assert a % 0x1_0000 == 256 * m + l;
  }
}
