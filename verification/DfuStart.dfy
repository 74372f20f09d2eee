/** Starting the application, and the smaller requests. */
module DfuStart {
  import opened Bytes
  import opened Flash
  import opened Dfu
  import opened DfuErase
  import opened DfuRoundTrip

  // ---- Two requests start the application ----

  lemma StartCommand(c: Config, d: Device, dataSize: nat)
    requires Dfu.Valid(c, d) && !d.isSecure && d.command == 0x04 && d.data[0] == 0x03
    ensures var r := ProcessCommand(c, d, dataSize);
            && r == d.(waitForExit := true, appStart := r.appStart, magicKey := r.magicKey, running := r.running)
            && r.appStart ==
               (if dataSize != 0 && d.data[1] == 1 then 256 * (d.data[3] as int) + d.data[4] else d.appStart)
            && r.magicKey == (if dataSize == 0 && d.data[1] == 0 then 0xDC42 else d.magicKey)
            && (dataSize != 0 || d.data[1] == 0 ==> r.running == d.running)
  {
    hide EraseFrom, ErasePage, FirstNonBlank, FlashByte, ValidFlash;
  }

  // The request for a start, with up to three bytes behind its kind.
  function Start(kind: byte, rest: seq<byte>): seq<byte> {
    [0x04, 0x03, kind] + rest
  }

  // The first request makes the loader wait for the second.
  lemma StartAsked(c: Config, d: Device, kind: byte, rest: seq<byte>)
    requires Ready(c, d) && |rest| <= 3
    ensures var r := Step(c, d, Dnload(Start(kind, rest)));
            && r.waitForExit && !r.isSecure && r.command == 0x04 && r.data == [0x03, kind] + rest + d.data[2 + |rest|..]
            && r.appStart == d.appStart && r.magicKey == (if kind == 0 then 0xDC42 else d.magicKey)
            && (kind == 0 ==> r.running == d.running) && r.flash == d.flash && r.eeprom == d.eeprom
  {
    hide ProcessCommand, ValidFlash;
    var payload := Start(kind, rest);
    var l := LoadCommand(d, payload);
    assert payload[1..3 + |rest|] == [0x03, kind] + rest;
    assert l.data[0] == 0x03 && l.data[1] == kind;
    StartCommand(c, l, AfterCommand(payload));
  }

  /** A start by watchdog: after it and the empty request that ends it, the key for a forced start is set,
      no exit is pending, and memories, jump address and exit flag are as before. */
  lemma WatchdogStart(c: Config, d: Device, rest: seq<byte>)
    requires Ready(c, d) && |rest| <= 3
    ensures var r := After(c, d, [Dnload(Start(0, rest)), Dnload([])]);
            && r.magicKey == 0xDC42 && !r.waitForExit && r.running == d.running && r.appStart == d.appStart
            && r.flash == d.flash && r.eeprom == d.eeprom
  {
    hide ProcessCommand, ValidFlash, Start;
    var first, second := Dnload(Start(0, rest)), Dnload([]);
    StartAsked(c, d, 0, rest);
    var d1 := Step(c, d, first);
    StartCommand(c, d1, 0);
    assert [first, second][1..] == [second] && [second][1..] == [];
    assert After(c, d1, [second]) == Step(c, d1, second);
  }

  /** A start by jump: the address is taken when the next request comes, and only if that carries data;
      with the empty request that the protocol asks for, the jump address is never loaded. */
  lemma JumpAddressIff(c: Config, d: Device, x: byte, high: byte, low: byte, payload: seq<byte>)
    requires Ready(c, d)
    ensures var d1 := Step(c, d, Dnload(Start(1, [x, high, low])));
            var w := Woken(c, d1, payload);
            && d1.appStart == d.appStart && !w.waitForExit
            && w.appStart == (if payload != [] then 256 * (high as int) + low else d.appStart)
  {
    hide ProcessCommand, ValidFlash, Start;
    StartAsked(c, d, 1, [x, high, low]);
    var d1 := Step(c, d, Dnload(Start(1, [x, high, low])));
    StartCommand(c, d1, |payload|);
  }

  // ---- Commands that mean nothing ----

  // The commands that the loader knows.
  predicate KnownCommand(d: Device)
    requires |d.data| == 5
  {
    || (d.command == 1 && d.data[0] <= 1)
    || (d.command == 3 && d.data[0] <= 2)
    || (d.command == 4 && (d.data[0] == 3 || (d.data[0] == 0 && d.data[1] == 0xFF)))
    || (d.command == 5 && d.data[0] <= 1)
    || (d.command == 6 && d.data[0] == 3 && d.data[1] == 0)
  }

  lemma UnknownCommand(c: Config, d: Device, dataSize: nat)
    requires Dfu.Valid(c, d) && Allowed(d) && !KnownCommand(d)
    ensures ProcessCommand(c, d, dataSize) == d
  {
    hide EraseFrom, ErasePage, FirstNonBlank, FlashByte, ValidFlash;
  }

  /** A request with a command that the loader does not know only records it, and ends an open download. */
  lemma UnknownIgnored(c: Config, d: Device, payload: seq<byte>)
    requires Ready(c, d) && 0 < |payload| <= 6 && !KnownCommand(LoadCommand(d, payload))
    ensures Step(c, d, Dnload(payload)) ==
            LoadCommand(d, payload).(state := if d.state.DnloadIdle? then Idle else d.state)
    ensures Answer(c, d, Dnload(payload)) == Reply([], false)
  {
    hide ProcessCommand, ValidFlash, KnownCommand;
    UnknownCommand(c, LoadCommand(d, payload), AfterCommand(payload));
    NoStall(c, d, payload);
  }

  // ---- The smaller requests ----

  /** What an upload returns outside a transfer: the start address after a blank check that failed, and the
      last response otherwise; and nothing changes. */
  lemma UploadOutside(c: Config, d: Device)
    requires Dfu.Valid(c, d) && !d.state.UploadIdle?
    ensures Answer(c, d, Upload) ==
            Reply(if d.state.Error? && d.data[0] == 1 then [d.start % 256, d.start / 256] else [d.response], false)
    ensures Step(c, d, Upload) == d
  {
    hide ValidFlash;
  }

  /** In a transfer an upload always ends it; of any memory but flash and EEPROM it returns nothing. */
  lemma UploadEnds(c: Config, d: Device)
    requires Dfu.Valid(c, d) && d.state.UploadIdle?
    ensures Step(c, d, Upload).state.Idle?
    ensures d.data[0] != 0 && d.data[0] != 2 ==>
              Answer(c, d, Upload) == Reply([], false) && Step(c, d, Upload) == d.(state := Idle)
  {
    hide ValidFlash, RangeLength, FlashBytes, EepromBytes;
  }

  /** On parts of at most 64 KB the page does not matter for reading. */
  lemma {:induction false} PageUnseen(c: Config, f: Flash, page64: byte, start: word, words: nat)
    requires c.flashSize <= 0x1_0000
    ensures FlashBytes(c, f, Long(page64, start), words) == FlashBytes(c, f, start, words)
  {
    hide ReadByte;
    if words > 0 {
      PageUnseen(c, f, page64, start, words - 1);
      SamePlace(page64, start, 2 * words - 2);
      SamePlace(page64, start, 2 * words - 1);
    }
  }

  lemma SamePlace(page64: byte, start: word, n: nat)
    ensures (Long(page64, start) + n) % 0x1_0000 == (start as int + n) % 0x1_0000
  {
    var v, w := Long(page64, start) + n, start as int + n;
    UniqueRemainder(0x1_0000, v / 0x1_0000, v % 0x1_0000, w / 0x1_0000 + page64, w % 0x1_0000);
  }

  /** Abort and CLRSTATUS each do one half: the one leaves the status, the other the state. */
  lemma AbortAndClear(c: Config, d: Device)
    requires Dfu.Valid(c, d)
    ensures Step(c, d, Abort) == d.(state := Idle) && Step(c, d, ClrStatus) == d.(status := 0)
    ensures Answer(c, d, Abort) == Answer(c, d, ClrStatus) == Reply([], false)
  {
    hide ValidFlash;
  }

  // ---- A host that goes away ----

  /** A download whose data end early is never complete, so the start address stays. */
  lemma {:induction false} CutShort(
      c: Config, f: Flash, ep: Endpoint, words: nat, address: nat, page: nat, inPage: nat)
    requires ValidFlash(c, f) && |ep.cur| + |ep.rest| < 2 * words && |ep.cur| % 2 == 0 && |ep.rest| % 2 == 0
    ensures !ProgramWords(c, f, ep, words, address, page, inPage).complete
    decreases words
  {
    hide FillWord, WritePage, ErasePage, Peek, ValidFlash;
    if !Gone(ep) {
      var e := Fetched(ep);
      var filled := FillWord(c, f, address, 256 * (Peek(e, 1) as int) + Peek(e, 0));
      ShorterByTwo(ep);
      if words == 1 {
        assert false;
      }
      var next := Skip(e, 2);
      ProgramOne(c, f, ep, words, address, page, inPage);
      if inPage + 1 == c.pageSize / 2 {
        var written := WritePage(c, filled, page);
        CutShort(c, ErasePage(c, written, address + 2), next, words - 1, address + 2, address + 2, 0);
      } else {
        CutShort(c, filled, next, words - 1, address + 2, page, inPage + 1);
      }
    }
  }

  lemma ShorterByTwo(ep: Endpoint)
    requires !Gone(ep) && |ep.cur| % 2 == 0 && |ep.rest| % 2 == 0
    ensures |ep.cur| + |ep.rest| >= 2
    ensures var e := Skip(Fetched(ep), 2);
            |e.cur| + |e.rest| == |ep.cur| + |ep.rest| - 2 && |e.cur| % 2 == 0 && |e.rest| % 2 == 0
  {
  }
}
