/** The reply engine as a mutable object, proved against the slot of module Response. */
module ResponseManager {
  import opened Bytes
  import opened Report
  import opened Response
  import D = Device
  import Joystick

  // A buffer that holds the first n bytes of an image and is 0xFF after them.
  function Partial(image: seq<byte>, n: nat, size: nat): seq<byte>
    requires n <= |image| && n <= size
  {
    image[..n] + Repeat(0xFF, size - n)
  }

  // memcpy of the next n bytes of an image.
  method Copy(image: seq<byte>, known: nat, n: nat, buf: array<byte>)
    requires known + n <= buf.Length && known + n <= |image| && buf[..] == Partial(image, known, buf.Length)
    modifies buf
    ensures buf[..] == Partial(image, known + n, buf.Length)
  {
    ghost var before := buf[..];
    forall i | known <= i < known + n {
      buf[i] := image[i];
    }
    assert forall i :: 0 <= i < buf.Length ==> buf[..][i] == Partial(image, known + n, buf.Length)[i] by {
      assert forall i :: 0 <= i < buf.Length && !(known <= i < known + n) ==> buf[i] == before[i];
    }
  }

  // The four colours, each only if it fits.
  method ReadColours(image: seq<byte>, buf: array<byte>)
    requires |image| == 12 && buf[..] == Partial(image, 0, buf.Length)
    modifies buf
    ensures var n := if buf.Length < 12 then buf.Length else 12;
            buf[..] == Partial(image, n - n % 3, buf.Length)
  {
    hide Partial;
    if buf.Length >= 3 {
      Copy(image, 0, 3, buf);
    }
    if buf.Length >= 6 {
      Copy(image, 3, 3, buf);
    }
    if buf.Length >= 9 {
      Copy(image, 6, 3, buf);
    }
    if buf.Length >= 12 {
      Copy(image, 9, 3, buf);
    }
  }

  /** spi_read: fills the caller's buffer. */
  method SpiRead(address: word, buf: array<byte>)
    modifies buf
    ensures buf[..] == SpiData(address, buf.Length)
  {
    var image := SpiImage(address);
    assert address == 0x6050 ==> |image| == 12;
    hide SpiImage;
    forall i | 0 <= i < buf.Length {
      buf[i] := 0xFF;
    }
    assert buf[..] == Partial(image, 0, buf.Length);
    if address == 0x6050 {
      ReadColours(image, buf);
    } else {
      Copy(image, 0, if buf.Length < |image| then buf.Length else |image|, buf);
    }
  }

  class Manager {
    const replyBuffer: array<byte>
    var counter: byte
    var nextPacketReady: bool

    ghost predicate Valid()
      reads this
    {
      replyBuffer.Length == EPSIZE
    }

    ghost function View(): Slot
      reads this, replyBuffer
    {
      Slot(replyBuffer[..], counter, nextPacketReady)
    }

    // memset to zero, then the bytes of the packet one field after the other.
    method Load(packet: seq<byte>)
      requires Valid() && |packet| <= EPSIZE
      modifies replyBuffer
      ensures replyBuffer[..] == Pad(packet)
    {
      forall i | 0 <= i < EPSIZE {
        replyBuffer[i] := 0;
      }
      for i := 0 to |packet|
        invariant forall k :: 0 <= k < i ==> replyBuffer[k] == packet[k]
        invariant forall k :: i <= k < EPSIZE ==> replyBuffer[k] == 0
      {
        replyBuffer[i] := packet[i];
      }
      assert replyBuffer[..] == packet + Repeat(0, EPSIZE - |packet|);
    }

    /** prepare_reply. */
    method PrepareReply(code: byte, command: byte, data: seq<byte>)
      requires Valid() && |data| <= EPSIZE - 2
      modifies this, replyBuffer
      ensures View() == if old(nextPacketReady) then old(View())
                        else Slot(Pad([code, command] + data), old(counter), true)
    {
      if nextPacketReady {
        return;
      }
      Load([code, command] + data);
      nextPacketReady := true;
    }

    /** prepare_uart_reply. */
    method PrepareUartReply(code: byte, subcommand: byte, data: seq<byte>, report: seq<byte>)
      requires Valid() && WellFormed(Subcommand(code, subcommand, data, report))
      modifies this, replyBuffer
      ensures View() == Prepare(old(View()), Subcommand(code, subcommand, data, report))
    {
      if nextPacketReady {
        return;
      }
      counter := (counter + COUNTER_INCREMENT) % 256;
      Load([0x21, counter] + report + [code, subcommand] + data);
      nextPacketReady := true;
    }

    /** prepare_spi_reply. */
    method PrepareSpiReply(address: word, size: byte, report: seq<byte>)
      requires Valid() && size <= MAX_SPI_READ && |report| == REPORT_SIZE
      modifies this, replyBuffer
      ensures View() == Prepare(old(View()), SpiReply(address, size, report))
    {
      hide SpiData;
      var data := new byte[size](_ => 0);
      SpiRead(address, data);
      var header: seq<byte> := [address % 256, address / 256, 0, 0, size];
      PrepareUartReply(0x90, 0x10, header + data[..], report);
    }

    /** prepare_standard_report. */
    method PrepareStandardReport(report: seq<byte>)
      requires Valid() && |report| == REPORT_SIZE
      modifies this, replyBuffer
      ensures View() == Prepare(old(View()), Standard(report))
    {
      if nextPacketReady {
        return;
      }
      counter := (counter + COUNTER_INCREMENT) % 256;
      PrepareReply(0x30, counter, report);
    }

    /** prepare_8101. */
    method Prepare8101()
      requires Valid()
      modifies this, replyBuffer
      ensures View() == Prepare(old(View()), IdentityReply())
    {
      PrepareReply(0x81, 0x01, [0x00, 0x03] + MAC_ADDRESS);
    }

    /** setup_response_manager. */
    constructor ()
      ensures Valid() && View() == Setup() && fresh(replyBuffer)
    {
      replyBuffer := new byte[EPSIZE](_ => 0);
      counter := 0;
      nextPacketReady := false;
      new;
      assert replyBuffer[..] == Repeat(0, EPSIZE);
      Prepare8101();
    }

    method ProcessSubcommand(data: seq<byte>, report: seq<byte>, lowMemory: byte)
      requires Valid() && |data| == EPSIZE && |report| == REPORT_SIZE
      requires data[10] == 0x10 ==> data[15] <= MAX_SPI_READ
      modifies this, replyBuffer
      ensures WellFormed(SubcommandReply(data, report, lowMemory))
      ensures View() == Prepare(old(View()), SubcommandReply(data, report, lowMemory))
    {
      hide SpiData;
      var sub := data[10];
      match sub
      case 0x01 => PrepareUartReply(0x81, sub, [lowMemory], report);
      case 0x02 => PrepareUartReply(0x82, sub, DeviceInfo(), report);
      case 0x04 => PrepareUartReply(0x83, sub, [], report);
      case 0x21 => PrepareUartReply(0xA0, sub, [0x01, 0x00, 0xFF, 0x00, 0x03, 0x00, 0x05, 0x01], report);
      case 0x10 => PrepareSpiReply(256 * (data[12] as int) + data[11], data[15], report);
      case _ => PrepareUartReply(0x80, sub, [], report);
    }

    /** process_OUT_report. */
    method ProcessOut(data: seq<byte>, size: nat, report: seq<byte>, lowMemory: byte)
      requires Valid() && |data| == EPSIZE && |report| == REPORT_SIZE && FitsPacket(data, size)
      modifies this, replyBuffer
      ensures var r := ReplyTo(data, size, report, lowMemory);
              && (r.Some? ==> WellFormed(r.value))
              && View() == if r.Some? then Prepare(old(View()), r.value) else old(View())
    {
      hide SpiData, SubcommandReply;
      if data[0] == 0x80 {
        match data[1]
        case 0x01 => Prepare8101();
        case 0x04 => PrepareStandardReport(report);
        case _ => PrepareReply(0x81, data[1], []);
      } else if data[0] == 0x01 && size > 16 {
        ProcessSubcommand(data, report, lowMemory);
      }
    }

    /** send_IN_report. */
    method SendIn(firmware: Joystick.Firmware) returns (packet: seq<byte>)
      requires Valid() && firmware.Valid() && firmware.input != replyBuffer
      modifies this, replyBuffer, firmware
      ensures Valid() && firmware.Valid() && firmware.View() == D.BeforeSend(old(firmware.View()))
      ensures var report := Encode(D.SelectedReport(firmware.View()));
              && |report| == REPORT_SIZE
              && packet == Sent(old(View()), report)
              && View() == AfterSend(old(View()), report)
    {
      hide D.BeforeSend, Encode, IdleReport;
      firmware.BeforeSend();
      var selected :=
        if firmware.selectedReport == D.Controller then firmware.controllerReport else firmware.idleReport;
      if !nextPacketReady {
        PrepareStandardReport(Encode(selected));
      }
      packet := replyBuffer[..];
      nextPacketReady := false;
    }
  }
}
