/** The 64 KB page command, and the round trip for addresses that need it. */
module DfuPages {
  import opened Bytes
  import opened Flash
  import opened Dfu
  import opened DfuErase
  import opened DfuRoundTrip

  // The selection of a page, whatever follows its four bytes in the request.
  function Select(page: byte, rest: seq<byte>): seq<byte> {
    [0x06, 0x03, 0x00, page] + rest
  }

  lemma SelectCommand(c: Config, d: Device, page: byte, dataSize: nat)
    requires Dfu.Valid(c, d) && !d.isSecure && d.command == 0x06
    requires d.data[0] == 0x03 && d.data[1] == 0x00 && d.data[2] == page
    ensures ProcessCommand(c, d, dataSize) == d.(page64 := page)
  {
    hide ValidFlash;
  }

  /** The request selects the page and records its command; nothing else changes, except that an open
      download is ended. */
  lemma Selects(c: Config, d: Device, page: byte, rest: seq<byte>)
    requires Ready(c, d) && |rest| <= 2
    ensures var q := Dnload(Select(page, rest));
            var r := Step(c, d, q);
            && r == d.(command := 0x06, data := [0x03, 0x00, page] + rest + d.data[3 + |rest|..], page64 := page,
                       state := if d.state.DnloadIdle? then Idle else d.state)
            && Answer(c, d, q) == Reply([], false)
  {
    hide ProcessCommand, ValidFlash;
    var payload := Select(page, rest);
    var l := LoadCommand(d, payload);
    assert payload[1..4 + |rest|] == [0x03, 0x00, page] + rest;
    assert l.data[0] == 0x03 && l.data[1] == 0x00 && l.data[2] == page;
    SelectCommand(c, l, page, AfterCommand(payload));
    NoStall(c, d, payload);
  }

  // A range that can be downloaded behind a page.
  ghost predicate InApplication(c: Config, page: byte, start: word, data: seq<byte>) {
    && 0 < |data| < 0x1_0000 && |data| % 2 == 0 && c.pageSize > 0 && start as int % c.pageSize == 0
    && 0x1_0000 * (page as int) + start + |data| <= c.bootStart
  }

  /** Select and download: the data lie at the selected page and the start address, whatever page was
      selected before. */
  lemma SelectedDownload(
      c: Config, d: Device, page: byte, rest: seq<byte>, start: word, data: seq<byte>, filler: seq<byte>,
      suffix: seq<byte>)
    requires Ready(c, d) && |rest| <= 2 && InApplication(c, page, start, data)
    requires |filler| == FILLER && |suffix| == SUFFIX
    ensures var r := After(c, d, [Dnload(Select(page, rest)), Dnload(DownloadPayload(start, data, filler, suffix))]);
            r.flash.mem == Install(c, d.flash.mem, 0x1_0000 * (page as int) + start, data) && r.page64 == page
  {
    hide Step, Install, Dfu.Valid, DownloadPayload, Select;
    var select, down := Dnload(Select(page, rest)), Dnload(DownloadPayload(start, data, filler, suffix));
    Selects(c, d, page, rest);
    var d1 := Step(c, d, select);
    SelectedReady(c, d, d1, page, start, data);
    DownloadInstalls(c, d1, start, data, filler, suffix);
    OpenedPage(c, d1, start, End(start, data));
    assert [select, down][1..] == [down] && [down][1..] == [];
    assert After(c, d1, [down]) == Step(c, d1, down);
  }

  lemma SelectedReady(c: Config, d: Device, r: Device, page: byte, start: word, data: seq<byte>)
    requires Ready(c, d) && InApplication(c, page, start, data) && Dfu.Valid(c, r)
    requires r.page64 == page && r.isSecure == d.isSecure && r.waitForExit == d.waitForExit && r.flash == d.flash
    ensures Ready(c, r) && Downloadable(c, r, start, data) && Long(r.page64, start) == 0x1_0000 * (page as int) + start
  {
    hide ValidFlash;
  }

  lemma OpenedPage(c: Config, d: Device, start: word, end: word)
    requires Dfu.Valid(c, d)
    ensures Opened(c, d, start, end).page64 == d.page64
  {
    hide ErasePage;
  }

  /** Round trip over the whole application section: select, download, read command, upload. */
  lemma SelectedRoundTrip(
      c: Config, d: Device, page: byte, rest: seq<byte>, start: word, data: seq<byte>, filler: seq<byte>,
      suffix: seq<byte>)
    requires Ready(c, d) && |rest| <= 2 && InApplication(c, page, start, data)
    requires |filler| == FILLER && |suffix| == SUFFIX
    ensures var down := Dnload(DownloadPayload(start, data, filler, suffix));
            var read := Dnload(RangeCommand(COMMAND_DISP_DATA, 0, start, End(start, data)));
            Answers(c, d, [Dnload(Select(page, rest)), down, read, Upload]) ==
            [Reply([], false), Reply([], false), Reply([], false), Reply(data, false)]
  {
    hide Step, Answer, Dfu.Valid, DownloadPayload, Select, RangeCommand;
    var select := Dnload(Select(page, rest));
    var down := Dnload(DownloadPayload(start, data, filler, suffix));
    var read := Dnload(RangeCommand(COMMAND_DISP_DATA, 0, start, End(start, data)));
    Selects(c, d, page, rest);
    var d1 := Step(c, d, select);
    SelectedReady(c, d, d1, page, start, data);
    DownloadUpload(c, d1, start, data, filler, suffix);
    assert [select, down, read, Upload][1..] == [down, read, Upload];
  }
}
