/** The EEPROM side of a DFU download: what arrives in the memory, for every start address. */
module DfuEeprom {
  import opened Bytes
  import opened Flash
  import opened Dfu
  import opened DfuRoundTrip

  // ---- The alignment filler ----

  // The bytes that the device takes for the data when `align` precedes it in the stream.
  function Taken(align: seq<byte>, data: seq<byte>): (r: seq<byte>)
    requires data != []
    ensures |r| == |data|
  {
    if align == [] then data else [align[|align| - 1]] + data[..|data| - 1]
  }

  /** The alignment filler starts in a packet of its own, so fetching that packet costs one
      iteration and the last filler byte is left in front of the data. */
  lemma AlignmentLeavesOne(align: seq<byte>, data: seq<byte>, suffix: seq<byte>)
    requires |align| < PACKET && data != []
    ensures var e := Discard(Endpoint([], align + data + suffix), |align|);
            && |e.cur + e.rest| >= |data|
            && (e.cur + e.rest)[..|data|] == Taken(align, data)
  {
    hide Discard;
    var n, stream := |align|, align + data + suffix;
    if n == 0 {
      DiscardNothing(Endpoint([], stream));
      assert stream == data + suffix;
      assert [] + stream == stream;
    } else {
      DiscardFetches(stream, n);
      TakenIs(align, data, suffix);
    }
  }

  // From an empty packet, the first of n iterations only fetches.
  lemma DiscardFetches(stream: seq<byte>, n: nat)
    requires 0 < n < PACKET && n <= |stream|
    ensures var e := Discard(Endpoint([], stream), n);
            e.cur + e.rest == stream[n - 1..]
  {
    var p := NextPacket(Endpoint([], stream));
    assert stream[..|p.cur|] + stream[|p.cur|..] == stream;
    DiscardWithin(p, n - 1);
    assert p.cur[n - 1..] + p.rest == (p.cur + p.rest)[n - 1..];
  }

  lemma TakenIs(align: seq<byte>, data: seq<byte>, suffix: seq<byte>)
    requires align != [] && data != []
    ensures (align + data + suffix)[|align| - 1..][..|data|] == Taken(align, data)
  {
  }

  // ---- The byte loop ----

  // The memory with `bytes` at `start`.
  function Patched(e: seq<byte>, start: nat, bytes: seq<byte>): (r: seq<byte>)
    requires start + |bytes| <= |e|
    ensures |r| == |e|
  {
    e[..start] + bytes + e[start + |bytes|..]
  }

  lemma NextByte(ep: Endpoint)
    requires |ep.cur + ep.rest| > 0
    ensures !Gone(ep)
    ensures var e := Fetched(ep);
            Peek(e, 0) == (ep.cur + ep.rest)[0]
            && Skip(e, 1).cur + Skip(e, 1).rest == (ep.cur + ep.rest)[1..]
  {
    var e := Fetched(ep);
    assert e.cur + e.rest == ep.cur + ep.rest;
    assert e.cur != [];
    assert e.cur[1..] + e.rest == (e.cur + e.rest)[1..];
  }

  lemma PatchNext(e: seq<byte>, start: nat, bytes: seq<byte>)
    requires bytes != [] && start + |bytes| <= |e|
    ensures Patched(e[start := bytes[0]], start + 1, bytes[1..]) == Patched(e, start, bytes)
  {
  }

  lemma {:induction false} BytesArrive(d: Device, ep: Endpoint, bytes: seq<byte>)
    requires |bytes| <= |ep.cur + ep.rest| && (ep.cur + ep.rest)[..|bytes|] == bytes
    requires d.start as int + |bytes| <= |d.eeprom| <= 0x1_0000
    ensures ProgramEeprom(d, ep, |bytes|) ==
            d.(eeprom := Patched(d.eeprom, d.start, bytes), start := (d.start as int + |bytes|) % 0x1_0000)
    decreases |bytes|
  {
    hide Fetched, Skip, Peek, Patched, Gone;
    if bytes == [] {
      assert Patched(d.eeprom, d.start, []) == d.eeprom by { PatchNothing(d.eeprom, d.start); }
    } else {
      NextByte(ep);
      var next := d.(eeprom := d.eeprom[d.start as int := bytes[0]], start := (d.start as int + 1) % 0x1_0000);
      var e := Skip(Fetched(ep), 1);
      assert bytes[0] == (ep.cur + ep.rest)[0];
      assert (e.cur + e.rest)[..|bytes| - 1] == bytes[1..];
      if |bytes| > 1 {
        BytesArrive(next, e, bytes[1..]);
        PatchNext(d.eeprom, d.start, bytes);
      } else {
        LastByte(d.eeprom, d.start, bytes);
      }
    }
  }

  lemma PatchNothing(e: seq<byte>, start: nat)
    requires start <= |e|
    ensures Patched(e, start, []) == e
  {
  }

  lemma LastByte(e: seq<byte>, start: nat, bytes: seq<byte>)
    requires |bytes| == 1 && start < |e|
    ensures Patched(e, start, bytes) == e[start := bytes[0]]
  {
  }

  // ---- The requests ----

  // A range inside the EEPROM.
  ghost predicate InEeprom(d: Device, start: word, data: seq<byte>) {
    0 < |data| < 0x1_0000 && start as int + |data| <= |d.eeprom| <= 0x1_0000
  }

  function EepromPayload(start: word, data: seq<byte>, filler: seq<byte>, align: seq<byte>, suffix: seq<byte>)
    : seq<byte>
  {
    RangeCommand(COMMAND_PROG_START, EEPROM_PROG, start, End(start, data)) + filler + (align + data + suffix)
  }

  /** An EEPROM download writes as many bytes as the range holds and nothing else: the data when the
      start address needs no alignment filler, and otherwise the data one place late, behind the last
      filler byte. */
  lemma EepromDownload(
      c: Config, d: Device, start: word, data: seq<byte>, filler: seq<byte>, align: seq<byte>, suffix: seq<byte>)
    requires Ready(c, d) && InEeprom(d, start, data) && |filler| == FILLER && |align| == start as int % PACKET
    ensures var q := Dnload(EepromPayload(start, data, filler, align, suffix));
            var r := Step(c, d, q);
            && r.eeprom == Patched(d.eeprom, start, Taken(align, data)) && r.flash == d.flash
            && Ready(c, r) && Answer(c, d, q) == Reply([], false)
  {
    hide Commands, Stalls, Skip, FirstPacket, AfterCommand, RangeCommand, Discard, Patched, ProgramEeprom, Taken,
         ValidFlash, Step, Answer;
    var end, firmware := End(start, data), align + data + suffix;
    var payload := EepromPayload(start, data, filler, align, suffix);
    assert payload == RangeCommand(COMMAND_PROG_START, EEPROM_PROG, start, end) + (filler + firmware);
    CommandLoads(c, d, COMMAND_PROG_START, EEPROM_PROG, start, end, filler + firmware);
    FirmwareNext(EEPROM_PROG, start, end, filler, firmware);
    var p := Addressed(c, d, COMMAND_PROG_START, EEPROM_PROG, start, end, DnloadIdle);
    DownloadStep(c, d, payload, p);
    AlignmentLeavesOne(align, data, suffix);
    var e := Discard(Endpoint([], firmware), |align|);
    BytesArrive(p, e, Taken(align, data));
    RangeLengthIs(start, data);
  }

  lemma {:induction false} EepromBytesAre(e: seq<byte>, address: nat, bytes: nat)
    requires address + bytes <= |e| <= 0x1_0000
    ensures EepromBytes(e, address, bytes) == e[address..address + bytes]
  {
    hide EepromByte;
    if bytes > 0 {
      var last := address + bytes - 1;
      EepromBytesAre(e, address, bytes - 1);
      assert EepromByte(e, last % 0x1_0000) == e[last] by { EepromByteIs(e, last); }
      assert e[address..last] + [e[last]] == e[address..last + 1];
    }
  }

  lemma EepromByteIs(e: seq<byte>, address: nat)
    requires address < |e| <= 0x1_0000
    ensures EepromByte(e, address % 0x1_0000) == e[address]
  {
  }

  lemma EepromUpload(c: Config, d: Device, start: word, data: seq<byte>)
    requires Ready(c, d) && InEeprom(d, start, data)
    ensures var q := Dnload(RangeCommand(COMMAND_DISP_DATA, EEPROM_READ, start, End(start, data)));
            && Answer(c, d, q) == Reply([], false)
            && Answer(c, Step(c, d, q), Upload) == Reply(d.eeprom[start as int..start as int + |data|], false)
            && var r := Step(c, Step(c, d, q), Upload); r.state.Idle? && r.start == (start as int + |data|) % 0x1_0000
  {
    hide Commands, Stalls, RangeCommand, AfterCommand, EepromBytes, FlashBytes, Download;
    var end := End(start, data);
    var payload := RangeCommand(COMMAND_DISP_DATA, EEPROM_READ, start, end);
    CommandLoads(c, d, COMMAND_DISP_DATA, EEPROM_READ, start, end, []);
    assert payload + [] == payload;
    RangeLengthIs(start, data);
    EepromBytesAre(d.eeprom, start, |data|);
  }

  /** What the host reads back after an EEPROM download, for every start address: its data when
      the address is a multiple of the packet size, and the shifted bytes otherwise. */
  lemma EepromDownloadUpload(
      c: Config, d: Device, start: word, data: seq<byte>, filler: seq<byte>, align: seq<byte>, suffix: seq<byte>)
    requires Ready(c, d) && InEeprom(d, start, data) && |filler| == FILLER && |align| == start as int % PACKET
    ensures var down := Dnload(EepromPayload(start, data, filler, align, suffix));
            var read := Dnload(RangeCommand(COMMAND_DISP_DATA, EEPROM_READ, start, End(start, data)));
            Answers(c, d, [down, read, Upload]) ==
            [Reply([], false), Reply([], false),
             Reply(if start as int % PACKET == 0 then data else [align[|align| - 1]] + data[..|data| - 1], false)]
  {
    hide Step, Answer, Dfu.Valid, RangeCommand;
    var down := Dnload(EepromPayload(start, data, filler, align, suffix));
    var read := Dnload(RangeCommand(COMMAND_DISP_DATA, EEPROM_READ, start, End(start, data)));
    EepromDownload(c, d, start, data, filler, align, suffix);
    var d1 := Step(c, d, down);
    EepromUpload(c, d1, start, data);
    assert d1.eeprom[start as int..start as int + |data|] == Taken(align, data);
    ThreeAnswers(c, d, down, read, Upload);
  }

  // The data one place late are the data exactly when they repeat the byte in front of them.
  lemma TakenIsDataIff(align: seq<byte>, data: seq<byte>)
    requires align != [] && data != []
    ensures Taken(align, data) == data <==> forall i :: 0 <= i < |data| ==> data[i] == align[|align| - 1]
  {
    var taken, last := Taken(align, data), align[|align| - 1];
    if taken == data {
      forall i | 0 <= i < |data|
        ensures data[i] == last
      {
        LateRepeats(last, data, i);
      }
    }
  }

  lemma {:induction false} LateRepeats(last: byte, data: seq<byte>, i: nat)
    requires i < |data| && [last] + data[..|data| - 1] == data
    ensures data[i] == last
  {
    var late := [last] + data[..|data| - 1];
    if i > 0 {
      LateRepeats(last, data, i - 1);
      assert late[i] == data[i - 1];
    } else {
      assert late[0] == last;
    }
  }

  /** Round trip: the host gets its data back if and only if the start address is a multiple of the
      packet size or every byte of the data equals the last filler byte. */
  lemma EepromRoundTripIff(
      c: Config, d: Device, start: word, data: seq<byte>, filler: seq<byte>, align: seq<byte>, suffix: seq<byte>)
    requires Ready(c, d) && InEeprom(d, start, data) && |filler| == FILLER && |align| == start as int % PACKET
    ensures var down := Dnload(EepromPayload(start, data, filler, align, suffix));
            var read := Dnload(RangeCommand(COMMAND_DISP_DATA, EEPROM_READ, start, End(start, data)));
            Answers(c, d, [down, read, Upload]) == [Reply([], false), Reply([], false), Reply(data, false)]
            <==> start as int % PACKET == 0 || forall i :: 0 <= i < |data| ==> data[i] == align[|align| - 1]
  {
    hide Answers, RangeCommand, EepromPayload, Dfu.Valid;
    EepromDownloadUpload(c, d, start, data, filler, align, suffix);
    if align != [] {
      TakenIsDataIff(align, data);
    }
    var ok := Reply([], false);
    assert [ok, ok, Reply(Taken(align, data), false)][2] == Reply(Taken(align, data), false);
    assert [ok, ok, Reply(data, false)][2] == Reply(data, false);
  }

  /** A byte that is lost: written to address 1, it reads back as the filler byte before it. */
  lemma UnalignedByteLost(c: Config, d: Device, filler: seq<byte>, suffix: seq<byte>)
    requires Ready(c, d) && 2 <= |d.eeprom| <= 0x1_0000 && |filler| == FILLER
    ensures var down := Dnload(EepromPayload(1, [0x55], filler, [0x00], suffix));
            var read := Dnload(RangeCommand(COMMAND_DISP_DATA, EEPROM_READ, 1, 1));
            Answers(c, d, [down, read, Upload]) == [Reply([], false), Reply([], false), Reply([0x00], false)]
  {
    hide Answers, RangeCommand;
    EepromDownloadUpload(c, d, 1, [0x55], filler, [0x00], suffix);
    var none: seq<byte> := [];
    assert [0x00] + none == [0x00];
  }

  /** EEPROM addresses have 16 bits, also in the middle of a range. */
  lemma {:induction false} EepromUploadWraps(e: seq<byte>, address: nat, bytes: nat)
    ensures EepromBytes(e, address + 0x1_0000, bytes) == EepromBytes(e, address, bytes)
  {
    hide EepromByte;
    if bytes > 0 {
      EepromUploadWraps(e, address, bytes - 1);
      var x := address + bytes - 1;
      var y := x + 0x1_0000;
      UniqueRemainder(0x1_0000, y / 0x1_0000, y % 0x1_0000, x / 0x1_0000 + 1, x % 0x1_0000);
    }
  }
}
