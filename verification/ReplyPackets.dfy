/** The packets that answer the console's requests, byte for byte. */
module ReplyPackets {
  import opened Bytes
  import opened Response

  // A packet that begins with these bytes and is zero behind them.
  ghost predicate IsPacket(p: seq<byte>, head: seq<byte>) {
    |p| == 64 && |head| <= 64 && p[..|head|] == head && forall i :: |head| <= i < 64 ==> p[i] == 0
  }

  // The reply is there and, with this counter, is this packet.
  ghost predicate Answered(r: Option<Reply>, counter: byte, head: seq<byte>) {
    r.Some? && WellFormed(r.value) && IsPacket(Render(r.value, counter), head)
  }

  lemma PadIsPacket(head: seq<byte>)
    requires |head| <= EPSIZE
    ensures IsPacket(Pad(head), head)
  {
  }

  lemma SubcommandPacket(code: byte, sub: byte, data: seq<byte>, report: seq<byte>, counter: byte)
    requires WellFormed(Subcommand(code, sub, data, report))
    ensures IsPacket(Render(Subcommand(code, sub, data, report), counter),
                     [0x21, counter] + report + [code, sub] + data)
  {
    hide Pad, IsPacket;
    PadIsPacket([0x21, counter] + report + [code, sub] + data);
  }

  lemma CommandPacket(command: byte, data: seq<byte>, counter: byte)
    requires WellFormed(Command(command, data))
    ensures IsPacket(Render(Command(command, data), counter), [0x81, command] + data)
  {
    hide Pad, IsPacket;
    PadIsPacket([0x81, command] + data);
  }

  lemma StandardPacket(report: seq<byte>, counter: byte)
    requires |report| == 11
    ensures IsPacket(Render(Standard(report), counter), [0x30, counter] + report)
  {
    hide Pad, IsPacket;
    PadIsPacket([0x30, counter] + report);
  }

  /** Requests with 0x80: the identity packet, a standard report, or an echo of the command. */
  lemma CommandAnswers(data: seq<byte>, size: nat, report: seq<byte>, lowMemory: byte, counter: byte)
    requires |data| == 64 && |report| == 11 && data[0] == 0x80
    ensures var r := ReplyTo(data, size, report, lowMemory);
            && (data[1] == 0x01 ==>
                  Answered(r, counter, [0x81, 0x01, 0x00, 0x03, 0x79, 0x05, 0x44, 0xC6, 0xB5, 0x65]))
            && (data[1] == 0x04 ==> Answered(r, counter, [0x30, counter] + report))
            && (data[1] != 0x01 && data[1] != 0x04 ==> Answered(r, counter, [0x81, data[1]]))
  {
    hide Render, IsPacket;
    var identity: seq<byte> := [0x00, 0x03, 0x79, 0x05, 0x44, 0xC6, 0xB5, 0x65];
    CommandPacket(0x01, identity, counter);
    assert [0x00, 0x03] + MAC_ADDRESS == identity;
    assert [0x81, 0x01] + identity == [0x81, 0x01, 0x00, 0x03, 0x79, 0x05, 0x44, 0xC6, 0xB5, 0x65];
    StandardPacket(report, counter);
    CommandPacket(data[1], [], counter);
    assert [0x81, data[1]] + [] == [0x81, data[1]];
  }

  /** Requests with 0x01: every subcommand is acknowledged with its code, its number and its payload
      behind the counter and the selected report. */
  lemma SubcommandAnswers(data: seq<byte>, size: nat, report: seq<byte>, lowMemory: byte, counter: byte)
    requires |data| == 64 && |report| == 11 && data[0] == 0x01 && size > 16 && FitsPacket(data, size)
    ensures var r, head := ReplyTo(data, size, report, lowMemory), [0x21, counter] + report;
            && (data[10] == 0x01 ==> Answered(r, counter, head + [0x81, 0x01, lowMemory]))
            && (data[10] == 0x02 ==>
                  Answered(r, counter, head + [0x82, 0x02, 0x03, 0x48, 0x03, 0x02,
                                               0x65, 0xB5, 0xC6, 0x44, 0x05, 0x79, 0x03, 0x02]))
            && (data[10] == 0x04 ==> Answered(r, counter, head + [0x83, 0x04]))
            && (data[10] == 0x10 ==>
                  Answered(r, counter, head + [0x90, 0x10, data[11], data[12], 0x00, 0x00, data[15]]
                                       + SpiData(256 * (data[12] as int) + data[11], data[15])))
            && (data[10] == 0x21 ==>
                  Answered(r, counter, head + [0xA0, 0x21, 0x01, 0x00, 0xFF, 0x00, 0x03, 0x00, 0x05, 0x01]))
            && (data[10] !in {0x01, 0x02, 0x04, 0x10, 0x21} ==> Answered(r, counter, head + [0x80, data[10]]))
  {
    hide Render, IsPacket, SpiData, DeviceInfo;
    var head, sub := [0x21, counter] + report, data[10];
    match sub {
      case 0x01 =>
        SubcommandPacket(0x81, sub, [lowMemory], report, counter);
        assert head + [0x81, sub] + [lowMemory] == head + [0x81, sub, lowMemory];
      case 0x02 =>
        DeviceInfoIs();
        SubcommandPacket(0x82, sub, DeviceInfo(), report, counter);
        var info: seq<byte> := [0x03, 0x48, 0x03, 0x02, 0x65, 0xB5, 0xC6, 0x44, 0x05, 0x79, 0x03, 0x02];
        assert [0x82, sub] + info == [0x82, sub, 0x03, 0x48, 0x03, 0x02,
                                      0x65, 0xB5, 0xC6, 0x44, 0x05, 0x79, 0x03, 0x02];
        assert head + [0x82, sub] + info == head + ([0x82, sub] + info);
      case 0x04 =>
        SubcommandPacket(0x83, sub, [], report, counter);
        assert head + [0x83, sub] + [] == head + [0x83, sub];
      case 0x10 =>
        FlashReply(data[11], data[12], data[15], report, counter);
      case 0x21 =>
        var config: seq<byte> := [0x01, 0x00, 0xFF, 0x00, 0x03, 0x00, 0x05, 0x01];
        SubcommandPacket(0xA0, sub, config, report, counter);
        assert [0xA0, sub] + config == [0xA0, sub, 0x01, 0x00, 0xFF, 0x00, 0x03, 0x00, 0x05, 0x01];
        assert head + [0xA0, sub] + config == head + ([0xA0, sub] + config);
      case _ =>
        SubcommandPacket(0x80, sub, [], report, counter);
        assert head + [0x80, sub] + [] == head + [0x80, sub];
    }
  }

  // The device information: firmware 3.72, a Pro Controller, the address backwards, colours in flash.
  lemma DeviceInfoIs()
    ensures DeviceInfo() == [0x03, 0x48, 0x03, 0x02, 0x65, 0xB5, 0xC6, 0x44, 0x05, 0x79, 0x03, 0x02]
  {
    var flipped := seq(6, i requires 0 <= i < 6 => MAC_ADDRESS[5 - i]);
    assert flipped == [0x65, 0xB5, 0xC6, 0x44, 0x05, 0x79];
  }

  lemma FlashReply(low: byte, high: byte, size: byte, report: seq<byte>, counter: byte)
    requires |report| == 11 && size <= 44
    ensures var address: word := 256 * (high as int) + low;
            var r := SpiReply(address, size, report);
            && WellFormed(r)
            && IsPacket(Render(r, counter), [0x21, counter] + report + [0x90, 0x10, low, high, 0x00, 0x00, size]
                                            + SpiData(address, size))
  {
    hide Render, IsPacket, SpiData;
    var address: word, head := 256 * (high as int) + low, [0x21, counter] + report;
    assert address % 256 == low && address / 256 == high;
    var data := [low, high, 0, 0, size] + SpiData(address, size);
    SubcommandPacket(0x90, 0x10, data, report, counter);
    assert head + [0x90, 0x10] + data == head + [0x90, 0x10, low, high, 0x00, 0x00, size] + SpiData(address, size);
  }

  /** Every other report asks for nothing. */
  lemma Unanswered(data: seq<byte>, size: nat, report: seq<byte>, lowMemory: byte)
    requires |data| == 64
    ensures ReplyTo(data, size, report, lowMemory).None? <==> data[0] != 0x80 && (data[0] != 0x01 || size <= 16)
  {
  }

  // ---- The emulated flash ----

  // A read of `known`, then of blank flash.
  ghost predicate Reads(address: word, size: nat, known: seq<byte>) {
    var data := SpiData(address, size);
    |data| == size && forall i :: 0 <= i < size ==> data[i] == if i < |known| then known[i] else 0xFF
  }

  /** The colours of the controller, each returned only whole: the body, the buttons and the grips. */
  lemma FlashColours(size: nat)
    ensures size < 3 ==> Reads(0x6050, size, [])
    ensures 3 <= size < 6 ==> Reads(0x6050, size, [0x0A, 0xB9, 0xE6])
    ensures 6 <= size < 9 ==> Reads(0x6050, size, [0x0A, 0xB9, 0xE6, 0xDD, 0xDD, 0xDD])
    ensures 9 <= size < 12 ==> Reads(0x6050, size, [0x0A, 0xB9, 0xE6, 0xDD, 0xDD, 0xDD, 0xAA, 0xAA, 0xAA])
    ensures size >= 12 ==>
              Reads(0x6050, size, [0x0A, 0xB9, 0xE6, 0xDD, 0xDD, 0xDD, 0xAA, 0xAA, 0xAA, 0xAA, 0xAA, 0xAA])
  {
    hide Reads;
    var image := SpiImage(0x6050);
    var known := if size < 12 then size - size % 3 else 12;
    ColoursRead(size, known);
    assert image[..0] == [] && image[..3] == [0x0A, 0xB9, 0xE6];
    assert image[..6] == [0x0A, 0xB9, 0xE6, 0xDD, 0xDD, 0xDD];
    assert image[..9] == [0x0A, 0xB9, 0xE6, 0xDD, 0xDD, 0xDD, 0xAA, 0xAA, 0xAA];
    assert image[..12] == image;
  }

  lemma ColoursRead(size: nat, known: nat)
    requires known == (if size < 12 then size - size % 3 else 12)
    ensures |SpiImage(0x6050)| == 12 && known <= 12 && Reads(0x6050, size, SpiImage(0x6050)[..known])
  {
    assert |SpiImage(0x6050)| == 12;
    hide SpiImage;
  }

  /** The factory parameters and the calibrations. */
  lemma FlashCalibration(size: nat)
    ensures Reads(0x6080, size, [0x50, 0xfd, 0x00, 0x00, 0xc6, 0x0f, 0x0f, 0x30, 0x61, 0x96, 0x30, 0xf3,
                                 0xd4, 0x14, 0x54, 0x41, 0x15, 0x54, 0xc7, 0x79, 0x9c, 0x33, 0x36, 0x63])
    ensures Reads(0x6098, size, [0x0f, 0x30, 0x61, 0x96, 0x30, 0xf3, 0xd4, 0x14, 0x54,
                                 0x41, 0x15, 0x54, 0xc7, 0x79, 0x9c, 0x33, 0x36, 0x63])
    ensures Reads(0x6020, size, [0xE6, 0xFF, 0x3A, 0x00, 0x39, 0x00, 0x00, 0x40, 0x00, 0x40, 0x00, 0x40,
                                 0xF7, 0xFF, 0xFC, 0xFF, 0x00, 0x00, 0xE7, 0x3B, 0xE7, 0x3B, 0xE7, 0x3B])
    ensures Reads(0x603D, size, [0xba, 0x15, 0x62, 0x11, 0xb8, 0x7f, 0x29, 0x06, 0x5b, 0xff, 0xe7, 0x7e,
                                 0x0e, 0x36, 0x56, 0x9e, 0x85, 0x60, 0xff, 0x32, 0x32, 0x32, 0xff, 0xff, 0xff])
    ensures Reads(0x8028, size, [0xbe, 0xff, 0x3e, 0x00, 0xf0, 0x01, 0x00, 0x40, 0x00, 0x40, 0x00, 0x40,
                                 0xfe, 0xff, 0xfe, 0xff, 0x08, 0x00, 0xe7, 0x3b, 0xe7, 0x3b, 0xe7, 0x3b])
  {
    hide Reads;
    ImageReads(0x6080, size);
    ImageReads(0x6098, size);
    ImageReads(0x6020, size);
    ImageReads(0x603D, size);
    ImageReads(0x8028, size);
  }

  // Everything but the colours is cut wherever the read ends.
  lemma ImageReads(address: word, size: nat)
    requires address != 0x6050
    ensures Reads(address, size, SpiImage(address))
  {
    hide SpiImage;
  }

  /** The user calibration is two bytes in blank flash, and every other address is blank. */
  lemma FlashElsewhere(address: word, size: nat)
    requires address !in {0x6050, 0x6080, 0x6098, 0x6020, 0x603D, 0x8028}
    ensures var data := SpiData(address, size);
            && |data| == size
            && forall i :: 0 <= i < size ==>
                 data[i] == if address == 0x8010 && i == 22 then 0xB2 else if address == 0x8010 && i == 23 then 0xA1
                            else 0xFF
  {
  }
}
