/** A DFU download followed by an upload of the same range. */
module DfuRoundTrip {
  import opened Bytes
  import opened Flash
  import opened Dfu

  const EEPROM_PROG: byte := 1
  const EEPROM_READ: byte := 2

  // ---- The endpoint delivers the firmware ----

  // The endpoint holds `stream`, and packets break it only between words.
  ghost predicate Delivers(ep: Endpoint, stream: seq<byte>) {
    ep.cur + ep.rest == stream && |ep.cur| % 2 == 0 && |stream| % 2 == 0
  }

  lemma NextWord(ep: Endpoint, stream: seq<byte>)
    requires Delivers(ep, stream) && |stream| >= 2
    ensures !Gone(ep)
    ensures var e := Fetched(ep);
            Peek(e, 0) == stream[0] && Peek(e, 1) == stream[1] && Delivers(Skip(e, 2), stream[2..])
  {
    var e := Fetched(ep);
    assert e.cur + e.rest == stream;
    assert |e.cur| >= 2 && |e.cur| % 2 == 0;
    assert e.cur[2..] + e.rest == (e.cur + e.rest)[2..];
  }

  // Inside a packet, discarding is skipping.
  lemma {:induction false} DiscardWithin(ep: Endpoint, n: nat)
    requires n <= |ep.cur|
    ensures Discard(ep, n) == Skip(ep, n)
    decreases n
  {
    if n == 0 {
      assert ep.cur[0..] == ep.cur;
    } else {
      DiscardWithin(Skip(ep, 1), n - 1);
      assert ep.cur[1..][n - 1..] == ep.cur[n..];
    }
  }

  // ---- The word loop ----

  // `done` bytes are committed, the page after them is open and holds the bytes up to k.
  ghost predicate Open(c: Config, f: Flash, base: seq<byte>, start: nat, data: seq<byte>, done: nat, k: nat) {
    && ValidConfig(c) && done <= k < |data| && done % c.pageSize == 0 && k - done < c.pageSize
    && k % 2 == done % 2 == |data| % 2 == 0 && start % c.pageSize == 0 && start + |data| <= c.bootStart
    && Filling(c, f, Install(c, base, start, data[..done]), start + done, data[done..k])
  }

  lemma AlignedSum(c: Config, p: nat, q: nat)
    requires ValidConfig(c) && p % c.pageSize == 0 && q % c.pageSize == 0
    ensures (p + q) % c.pageSize == 0
  {
    var size, v := c.pageSize, p + q;
    assert v == size * (p / size + q / size);
    UniqueRemainder(size, p / size + q / size, 0, v / size, v % size);
  }

  // The numbers and the shape of an open page.
  lemma OpenFacts(c: Config, f: Flash, base: seq<byte>, start: nat, data: seq<byte>, done: nat, k: nat)
    requires Open(c, f, base, start, data, done, k)
    ensures ValidFlash(c, f) && c.pageSize % 2 == 0
    ensures done <= k && k + 2 <= |data| && k + 2 - done <= c.pageSize && (k - done) % 2 == 0
    ensures (start + done) % c.pageSize == 0
    ensures Filling(c, f, Install(c, base, start, data[..done]), start + done, data[done..k])
  {
    hide Install, Filling, ValidConfig, Open, ValidFlash;
    OpenParts(c, f, base, start, data, done, k);
    EvenSize(c);
    EvenGap(c.pageSize, done, k, |data|);
    FillingValid(c, f, Install(c, base, start, data[..done]), start + done, data[done..k]);
    AlignedSum(c, start, done);
  }

  lemma OpenParts(c: Config, f: Flash, base: seq<byte>, start: nat, data: seq<byte>, done: nat, k: nat)
    requires Open(c, f, base, start, data, done, k)
    ensures ValidConfig(c) && done <= k < |data| && k - done < c.pageSize && done % 2 == k % 2 == |data| % 2 == 0
    ensures done % c.pageSize == 0 && start % c.pageSize == 0
    ensures Filling(c, f, Install(c, base, start, data[..done]), start + done, data[done..k])
  {
    hide Install, Filling, ValidConfig;
  }

  // Between even numbers there is room for a word.
  lemma EvenGap(size: nat, done: nat, k: nat, length: nat)
    requires size % 2 == done % 2 == k % 2 == length % 2 == 0 && done <= k < length && k - done < size
    ensures k + 2 <= length && k + 2 - done <= size && (k - done) % 2 == 0
  {
  }

  lemma FillingValid(c: Config, f: Flash, base: seq<byte>, page: nat, data: seq<byte>)
    requires Filling(c, f, base, page, data)
    ensures ValidFlash(c, f)
  {
  }

  lemma FillNext(c: Config, f: Flash, base: seq<byte>, start: nat, data: seq<byte>, done: nat, k: nat)
    requires Open(c, f, base, start, data, done, k)
    ensures k + 2 <= |data| && k + 2 - done <= c.pageSize && c.pageSize % 2 == 0 && ValidFlash(c, f)
    ensures Filling(c, Filled(c, f, start, data, k), Install(c, base, start, data[..done]), start + done,
                    data[done..k + 2])
  {
    hide Install, Filling, FillWord, ValidConfig, ValidFlash, Open;
    OpenFacts(c, f, base, start, data, done, k);
    FillExtends(c, f, Install(c, base, start, data[..done]), start + done, data[done..k], data[k], data[k + 1]);
    assert data[done..k] + [data[k], data[k + 1]] == data[done..k + 2];
  }

  // A full page, or the last one, is committed.
  lemma CommitNext(c: Config, filled: Flash, base: seq<byte>, start: nat, data: seq<byte>, done: nat, k: nat)
    requires ValidConfig(c) && done < k <= |data| && done % c.pageSize == 0 && k - done <= c.pageSize
    requires start % c.pageSize == 0 && start + |data| <= c.bootStart
    requires Filling(c, filled, Install(c, base, start, data[..done]), start + done, data[done..k])
    ensures WritePage(c, filled, start + done).mem == Install(c, base, start, data[..k])
  {
    hide Install, Filling, WritePage, Commit;
    AlignedSum(c, start, done);
    WriteCommits(c, filled, Install(c, base, start, data[..done]), start + done, data[done..k]);
    InstallNext(c, base, start, data[..done], data[done..k]);
    assert data[..done] + data[done..k] == data[..k];
  }

  lemma OpenNext(c: Config, written: Flash, base: seq<byte>, start: nat, data: seq<byte>, k: nat)
    requires ValidFlash(c, written) && k < |data| && k % c.pageSize == 0 && start % c.pageSize == 0
    requires k % 2 == |data| % 2 == 0 && start + |data| <= c.bootStart
    requires written.mem == Install(c, base, start, data[..k])
    ensures Open(c, ErasePage(c, written, start + k), base, start, data, k, k)
  {
    hide Install, Filling, ErasePage;
    AlignedSum(c, start, k);
    EraseStarts(c, written, start + k);
    assert data[k..k] == [];
  }

  // One turn of the loop, by what follows the word: nothing, another page, or the same page.
  lemma ProgramOne(c: Config, f: Flash, ep: Endpoint, words: nat, address: nat, page: nat, inPage: nat)
    requires ValidFlash(c, f) && words > 0 && !Gone(ep)
    ensures var e := Fetched(ep);
            var filled := FillWord(c, f, address, 256 * (Peek(e, 1) as int) + Peek(e, 0));
            ProgramWords(c, f, ep, words, address, page, inPage) ==
            if words == 1 then Transfer(WritePage(c, filled, page), Skip(e, 2), true)
            else if inPage + 1 == c.pageSize / 2 then
              ProgramWords(c, ErasePage(c, WritePage(c, filled, page), address + 2), Skip(e, 2), words - 1,
                           address + 2, address + 2, 0)
            else
              ProgramWords(c, filled, Skip(e, 2), words - 1, address + 2, page, inPage + 1)
  {
    hide FillWord, WritePage, ErasePage, Fetched, Skip, Peek, Gone;
  }

  // The rest of the loop, with the page that starts `done` bytes into the data open up to k.
  function Rest(c: Config, f: Flash, ep: Endpoint, start: nat, length: nat, done: nat, k: nat): Transfer
    requires ValidFlash(c, f) && done <= k <= length
  {
    ProgramWords(c, f, ep, (length - k) / 2, start + k, start + done, (k - done) / 2)
  }

  // The flash with the word at k in the buffer.
  function Filled(c: Config, f: Flash, start: nat, data: seq<byte>, k: nat): Flash
    requires ValidFlash(c, f) && k + 2 <= |data|
  {
    FillWord(c, f, start + k, 256 * (data[k + 1] as int) + data[k])
  }

  lemma RestStep(
      c: Config, f: Flash, start: nat, data: seq<byte>, done: nat, k: nat, ep: Endpoint, suffix: seq<byte>)
    requires ValidFlash(c, f) && done <= k && k + 2 <= |data| && |data| % 2 == k % 2 == done % 2 == 0
    requires k + 2 - done <= c.pageSize && Delivers(ep, data[k..] + suffix)
    ensures var filled, e := Filled(c, f, start, data, k), Skip(Fetched(ep), 2);
            && Delivers(e, data[k + 2..] + suffix)
            && Rest(c, f, ep, start, |data|, done, k) ==
               if k + 2 == |data| then Transfer(WritePage(c, filled, start + done), e, true)
               else if k + 2 - done == c.pageSize then
                 Rest(c, ErasePage(c, WritePage(c, filled, start + done), start + k + 2), e, start, |data|, k + 2,
                      k + 2)
               else Rest(c, filled, e, start, |data|, done, k + 2)
  {
    hide FillWord, WritePage, ErasePage, Delivers, Fetched, Skip, Peek, Gone, ProgramWords;
    NextWord(ep, data[k..] + suffix);
    assert (data[k..] + suffix)[2..] == data[k + 2..] + suffix;
    ProgramOne(c, f, ep, (|data| - k) / 2, start + k, start + done, (k - done) / 2);
    assert (|data| - (k + 2)) / 2 == (|data| - k) / 2 - 1 && (k + 2 - done) / 2 == (k - done) / 2 + 1;
  }

  lemma {:induction false} ProgramWordsInstalls(
      c: Config, f: Flash, base: seq<byte>, start: nat, data: seq<byte>, done: nat, k: nat, ep: Endpoint,
      suffix: seq<byte>)
    requires Open(c, f, base, start, data, done, k) && Delivers(ep, data[k..] + suffix)
    ensures var t := Rest(c, f, ep, start, |data|, done, k);
            t.complete && t.flash.mem == Install(c, base, start, data)
    decreases |data| - k
  {
    hide Install, Filling, FillWord, WritePage, ErasePage, Delivers, Fetched, Skip, Rest;
    FillNext(c, f, base, start, data, done, k);
    RestStep(c, f, start, data, done, k, ep, suffix);
    var filled, e := Filled(c, f, start, data, k), Skip(Fetched(ep), 2);
    if k + 2 == |data| {
      CommitNext(c, filled, base, start, data, done, k + 2);
      assert data[..k + 2] == data;
    } else if k + 2 - done == c.pageSize {
      CommitNext(c, filled, base, start, data, done, k + 2);
      ModNextPage(done, c.pageSize);
      var written := WritePage(c, filled, start + done);
      OpenNext(c, written, base, start, data, k + 2);
      ProgramWordsInstalls(c, ErasePage(c, written, start + k + 2), base, start, data, k + 2, k + 2, e, suffix);
    } else {
      ProgramWordsInstalls(c, filled, base, start, data, done, k + 2, e, suffix);
    }
  }

  // ---- The requests ----

  // The six command bytes for a range of a memory.
  function RangeCommand(command: byte, kind: byte, start: word, end: word): seq<byte> {
    [command, kind, start / 256, start % 256, end / 256, end % 256]
  }

  // A range that can be downloaded: inside the application section. It may cross a 64 KB boundary.
  ghost predicate Downloadable(c: Config, d: Device, start: word, data: seq<byte>) {
    && 0 < |data| < 0x1_0000 && |data| % 2 == 0
    && c.pageSize > 0 && start as int % c.pageSize == 0
    && Long(d.page64, start) + |data| <= c.bootStart
  }

  // The last address of the range, as the host writes it in 16 bits.
  function End(start: word, data: seq<byte>): word {
    (start as int + |data| - 1) % 0x1_0000
  }

  lemma RangeLengthIs(start: word, data: seq<byte>)
    requires |data| < 0x1_0000
    ensures RangeLength(start, End(start, data)) == |data|
  {
    var last, end := start as int + |data| - 1, End(start, data);
    var v := end as int - start + 1;
    assert v == 0x1_0000 * -(last / 0x1_0000) + |data|;
    UniqueRemainder(0x1_0000, v / 0x1_0000, v % 0x1_0000, -(last / 0x1_0000), |data|);
  }

  function DownloadPayload(start: word, data: seq<byte>, filler: seq<byte>, suffix: seq<byte>): seq<byte> {
    RangeCommand(COMMAND_PROG_START, 0, start, End(start, data)) + filler + data + suffix
  }

  // A device that takes commands.
  ghost predicate Ready(c: Config, d: Device) {
    Dfu.Valid(c, d) && !d.isSecure && !d.waitForExit
  }

  lemma CommandBytes(start: word)
    ensures 256 * (start / 256) + start % 256 == start && start / 256 < 256
  {
  }

  // A range command leaves the range in StartAddr and EndAddr.
  lemma LoadRange(c: Config, d: Device, command: byte, kind: byte, start: word, end: word, rest: seq<byte>)
    requires Ready(c, d)
    ensures var payload := RangeCommand(command, kind, start, end) + rest;
            var l := LoadCommand(d, payload);
            && l == d.(command := command, data := [kind, start / 256, start % 256, end / 256, end % 256])
            && LoadAddresses(l) == l.(start := start, end := end)
            && AfterCommand(payload) == |rest|
  {
    CommandBytes(start);
    CommandBytes(end);
    var payload := RangeCommand(command, kind, start, end) + rest;
    assert payload[1..6] == [kind, start / 256, start % 256, end / 256, end % 256];
    assert payload[1..6] + d.data[5..] == payload[1..6];
  }

  // The device once a command has loaded its range.
  function Addressed(c: Config, d: Device, command: byte, kind: byte, start: word, end: word, state: State): (r: Device)
    requires Dfu.Valid(c, d)
    ensures Dfu.Valid(c, r)
  {
    d.(command := command, data := [kind, start / 256, start % 256, end / 256, end % 256],
       start := start, end := end, state := state)
  }

  // Every range command but the flash download, which also erases a page.
  lemma CommandLoads(c: Config, d: Device, command: byte, kind: byte, start: word, end: word, rest: seq<byte>)
    requires Ready(c, d)
    requires || (command == COMMAND_PROG_START && kind == EEPROM_PROG)
             || (command == COMMAND_DISP_DATA && (kind == 0 || kind == EEPROM_READ))
    ensures var payload := RangeCommand(command, kind, start, end) + rest;
            && AfterCommand(payload) == |rest| && payload != [] && !Stalls(c, d, payload)
            && Commands(c, d, payload) ==
               Addressed(c, d, command, kind, start, end,
                         if command == COMMAND_PROG_START then DnloadIdle else UploadIdle)
  {
    hide LoadAddresses, LoadCommand, RangeCommand, AfterCommand;
    CommandNotEmpty(command, kind, start, end);
    LoadRange(c, d, command, kind, start, end, rest);
  }

  // The device when the firmware starts to arrive.
  function Opened(c: Config, d: Device, start: word, end: word): (r: Device)
    requires Dfu.Valid(c, d)
    ensures Dfu.Valid(c, r)
  {
    hide ErasePage;
    d.(command := COMMAND_PROG_START, data := [0, start / 256, start % 256, end / 256, end % 256],
       start := start, end := end, flash := ErasePage(c, d.flash, Long(d.page64, start)), state := DnloadIdle)
  }

  lemma ProgCommand(c: Config, d: Device, start: word, end: word, rest: seq<byte>)
    requires Ready(c, d)
    ensures var payload := RangeCommand(COMMAND_PROG_START, 0, start, end) + rest;
            Commands(c, d, payload) == Opened(c, d, start, end) && !Stalls(c, d, payload)
  {
    hide ErasePage, LoadAddresses, LoadCommand, RangeCommand, AfterCommand;
    LoadRange(c, d, COMMAND_PROG_START, 0, start, end, rest);
    CommandNotEmpty(COMMAND_PROG_START, 0, start, end);
  }

  lemma CommandNotEmpty(command: byte, kind: byte, start: word, end: word)
    ensures |RangeCommand(command, kind, start, end)| == 6
  {
  }

  // The first packet is the command and the filler; what follows starts with the firmware.
  lemma FirmwareNext(kind: byte, start: word, end: word, filler: seq<byte>, firmware: seq<byte>)
    requires |filler| == FILLER
    ensures var payload := RangeCommand(COMMAND_PROG_START, kind, start, end) + filler + firmware;
            Discard(Skip(FirstPacket(payload), 6), FILLER) == Endpoint([], firmware)
  {
    CommandNotEmpty(COMMAND_PROG_START, kind, start, end);
    var head := RangeCommand(COMMAND_PROG_START, kind, start, end) + filler;
    hide RangeCommand, Discard;
    FirstPacketIs(head, firmware);
    DiscardWithin(Endpoint(head[6..], firmware), FILLER);
  }

  lemma DeliversAll(stream: seq<byte>)
    requires |stream| % 2 == 0
    ensures Delivers(Endpoint([], stream), stream)
  {
  }

  lemma FirstPacketIs(head: seq<byte>, rest: seq<byte>)
    requires |head| == PACKET
    ensures Skip(FirstPacket(head + rest), 6) == Endpoint(head[6..], rest)
  {
    assert (head + rest)[..PACKET] == head && (head + rest)[PACKET..] == rest;
  }

  lemma LongAligned(c: Config, page64: byte, start: word)
    requires ValidConfig(c) && start as int % c.pageSize == 0
    ensures Long(page64, start) % c.pageSize == 0 && start % PACKET == 0
  {
    var size, v, q := c.pageSize, Long(page64, start), start as int / c.pageSize;
    var m := 0x1_0000 / size * page64;
    assert v == size * (m + q);
    UniqueRemainder(size, m + q, 0, v / size, v % size);
    assert start as int == size * q;
    var t := size / PACKET * q;
    assert size * q == PACKET * t;
  }

  /** Download: the range holds the data, the rest of its last page is blank, every other page is as
      it was, whatever was in the flash and in its buffer before. */
  lemma DownloadInstalls(
      c: Config, d: Device, start: word, data: seq<byte>, filler: seq<byte>, suffix: seq<byte>)
    requires Ready(c, d) && Downloadable(c, d, start, data) && |filler| == FILLER && |suffix| == SUFFIX
    ensures var q := Dnload(DownloadPayload(start, data, filler, suffix));
            var r := Step(c, d, q);
            && r.flash.mem == Install(c, d.flash.mem, Long(d.page64, start), data)
            && r == Opened(c, d, start, End(start, data)).(flash := r.flash, start := End(start, data))
            && Answer(c, d, q) == Reply([], false)
  {
    hide Commands, Stalls, Download, Skip, FirstPacket, Install, AfterCommand, RangeCommand, LoadCommand, Discard,
         LoadAddresses, ValidFlash, ValidConfig, Step, Answer, Delivers, End, Long, Opened;
    var end, firmware := End(start, data), data + suffix;
    var payload := DownloadPayload(start, data, filler, suffix);
    assert payload == RangeCommand(COMMAND_PROG_START, 0, start, end) + (filler + firmware);
    assert payload == RangeCommand(COMMAND_PROG_START, 0, start, end) + filler + firmware;
    LoadRange(c, d, COMMAND_PROG_START, 0, start, end, filler + firmware);
    ProgCommand(c, d, start, end, filler + firmware);
    FirmwareNext(0, start, end, filler, firmware);
    DeliversAll(firmware);
    DownloadRuns(c, d, start, data, Skip(FirstPacket(payload), 6), suffix);
    OpenedIdle(c, d, start, end);
    DownloadStep(c, d, payload, Opened(c, d, start, end));
  }

  lemma OpenedIdle(c: Config, d: Device, start: word, end: word)
    requires Dfu.Valid(c, d)
    ensures Opened(c, d, start, end).state.DnloadIdle?
  {
    hide ErasePage;
  }

  // A request whose command opens a download goes on with the firmware.
  lemma DownloadStep(c: Config, d: Device, payload: seq<byte>, p: Device)
    requires Dfu.Valid(c, d) && Commands(c, d, payload) == p && p.state.DnloadIdle? && AfterCommand(payload) != 0
    requires !Stalls(c, d, payload) && Dfu.Valid(c, p)
    ensures Step(c, d, Dnload(payload)) == Download(c, p, Skip(FirstPacket(payload), 6))
    ensures Answer(c, d, Dnload(payload)) == Reply([], false)
  {
    hide Commands, Stalls, Download, Skip, FirstPacket, AfterCommand;
  }

  lemma DownloadRuns(c: Config, d: Device, start: word, data: seq<byte>, ep: Endpoint, suffix: seq<byte>)
    requires Ready(c, d) && Downloadable(c, d, start, data) && Delivers(Discard(ep, FILLER), data + suffix)
    ensures var ready := Opened(c, d, start, End(start, data));
            var r := Download(c, ready, ep);
            && r.flash.mem == Install(c, d.flash.mem, Long(d.page64, start), data)
            && r == ready.(flash := r.flash, start := End(start, data))
  {
    hide Install, Filling, ErasePage, Delivers, Discard, ProgramWords, Download, RangeLength, End, Long, Open;
    var ready, address := Opened(c, d, start, End(start, data)), Long(d.page64, start);
    var e := Discard(ep, FILLER);
    LongAligned(c, d.page64, start);
    RangeLengthIs(start, data);
    DownloadFlash(c, ready, ep);
    OpensDownload(c, d, start, data);
    assert data[0..] == data;
    ProgramWordsInstalls(c, ready.flash, d.flash.mem, address, data, 0, 0, e, suffix);
  }

  // The data stage of a flash download whose start needs no alignment filler.
  lemma DownloadFlash(c: Config, p: Device, ep: Endpoint)
    requires Dfu.Valid(c, p) && p.data[0] == 0 && p.start % PACKET == 0
    ensures var length, address := RangeLength(p.start, p.end), Long(p.page64, p.start);
            var t := ProgramWords(c, p.flash, Discard(ep, FILLER), length / 2, address, address, 0);
            Download(c, p, ep) == p.(flash := t.flash, start := if t.complete then p.end else p.start)
  {
    hide ProgramWords, Discard, RangeLength, Long, ValidFlash;
    DiscardNothing(Discard(ep, FILLER));
  }

  // The command has erased the first page, which is open and empty.
  lemma OpensDownload(c: Config, d: Device, start: word, data: seq<byte>)
    requires Ready(c, d) && Downloadable(c, d, start, data)
    ensures Open(c, Opened(c, d, start, End(start, data)).flash, d.flash.mem, Long(d.page64, start), data, 0, 0)
  {
    hide Install, Filling, ErasePage;
    var address := Long(d.page64, start);
    LongAligned(c, d.page64, start);
    InstallNothing(c, d.flash.mem, address);
    EraseStarts(c, d.flash, address);
    assert data[..0] == [] && data[0..0] == [];
  }

  lemma DiscardNothing(ep: Endpoint)
    ensures Discard(ep, 0) == ep
  {
  }

  // Reading inside the application section is direct.
  lemma FlashByteIs(c: Config, f: Flash, address: nat)
    requires ValidFlash(c, f) && address < c.bootStart
    ensures address < |f.mem| && FlashByte(c, f, address) == f.mem[address]
  {
  }

  lemma SliceTwo(s: seq<byte>, a: nat, n: nat)
    requires a + 2 <= n <= |s|
    ensures s[a..n] == s[a..n - 2] + [s[n - 2], s[n - 1]]
  {
  }

  lemma {:induction false} FlashBytesAre(c: Config, f: Flash, address: nat, words: nat)
    requires ValidFlash(c, f) && address + 2 * words <= c.bootStart <= |f.mem|
    ensures FlashBytes(c, f, address, words) == f.mem[address..address + 2 * words]
  {
    hide FlashByte, ValidFlash;
    if words > 0 {
      var n := address + 2 * words;
      FlashByteIs(c, f, n - 2);
      FlashByteIs(c, f, n - 1);
      FlashBytesAre(c, f, address, words - 1);
      SliceTwo(f.mem, address, n);
    }
  }

  lemma UploadReads(c: Config, d: Device, start: word, data: seq<byte>)
    requires Ready(c, d) && Downloadable(c, d, start, data)
    ensures var end := End(start, data);
            var q := Dnload(RangeCommand(COMMAND_DISP_DATA, 0, start, end));
            var r := Step(c, d, q);
            var address := Long(d.page64, start);
            && Answer(c, d, q) == Reply([], false)
            && Answer(c, r, Upload) == Reply(d.flash.mem[address..address + |data|], false)
            && Step(c, r, Upload) == r.(state := Idle, start := end)
  {
    hide Commands, Stalls, RangeCommand, AfterCommand, FlashBytes, EepromBytes, Download;
    var end := End(start, data);
    var payload := RangeCommand(COMMAND_DISP_DATA, 0, start, end);
    CommandLoads(c, d, COMMAND_DISP_DATA, 0, start, end, []);
    assert payload + [] == payload;
    RangeLengthIs(start, data);
    FlashBytesAre(c, d.flash, Long(d.page64, start), |data| / 2);
  }

  /** Round trip: download, then the read command and an upload of the same range: the host gets
      exactly the data it sent. */
  lemma DownloadUpload(
      c: Config, d: Device, start: word, data: seq<byte>, filler: seq<byte>, suffix: seq<byte>)
    requires Ready(c, d) && Downloadable(c, d, start, data) && |filler| == FILLER && |suffix| == SUFFIX
    ensures var down := Dnload(DownloadPayload(start, data, filler, suffix));
            var read := Dnload(RangeCommand(COMMAND_DISP_DATA, 0, start, End(start, data)));
            Answers(c, d, [down, read, Upload]) == [Reply([], false), Reply([], false), Reply(data, false)]
  {
    hide Step, Answer, Install, Dfu.Valid;
    var down := Dnload(DownloadPayload(start, data, filler, suffix));
    var read := Dnload(RangeCommand(COMMAND_DISP_DATA, 0, start, End(start, data)));
    DownloadInstalls(c, d, start, data, filler, suffix);
    var d1 := Step(c, d, down);
    UploadReads(c, d1, start, data);
    InstalledRange(c, d.flash.mem, Long(d.page64, start), data);
    ThreeAnswers(c, d, down, read, Upload);
  }

  lemma InstalledRange(c: Config, mem: seq<byte>, start: nat, data: seq<byte>)
    requires c.pageSize > 0 && start + |data| <= |mem|
    ensures Install(c, mem, start, data)[start..start + |data|] == data
  {
  }

  lemma ThreeAnswers(c: Config, d: Device, p: Request, q: Request, r: Request)
    requires Dfu.Valid(c, d)
    ensures var d1 := Step(c, d, p);
            var d2 := Step(c, d1, q);
            Answers(c, d, [p, q, r]) == [Answer(c, d, p), Answer(c, d1, q), Answer(c, d2, r)]
  {
    hide Step, Answer;
    var d1 := Step(c, d, p);
    var d2 := Step(c, d1, q);
    assert [p, q, r][1..] == [q, r] && [q, r][1..] == [r] && [r][1..] == [];
    assert Answers(c, d2, [r]) == [Answer(c, d2, r)];
    assert Answers(c, d1, [q, r]) == [Answer(c, d1, q), Answer(c, d2, r)];
  }
}
