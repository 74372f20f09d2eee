/** The firmware's serial side and the host's serial port as mutable objects, proved against the
    state machine of module Device.
 */
module Joystick {
  import opened Bytes
  import opened Crc
  import opened Report
  import D = Device
  import opened Sync

  class Firmware {
    var state: D.SyncState
    const input: array<byte>
    var receivedBytes: nat
    var crc8: byte
    var millis: nat
    var controllerReport: StandardReport
    var idleReport: StandardReport
    var selectedReport: D.Source

    // The running CRC is the CRC of the buffered prefix.
    ghost predicate Valid()
      reads this, input
    {
      && input.Length == 8 && receivedBytes <= 8
      && crc8 == Crc8(input[..receivedBytes])
      && idleReport == IdleReport(idleReport.home)
      && D.Valid(D.State(state, input[..receivedBytes], millis, controllerReport, idleReport.home, selectedReport))
    }

    ghost function View(): (s: D.State)
      reads this, input
      requires Valid()
      ensures D.Valid(s)
    {
      D.State(state, input[..receivedBytes], millis, controllerReport, idleReport.home, selectedReport)
    }

    constructor ()
      ensures Valid() && View() == D.Initial() && fresh(input)
    {
      state := D.OutOfSync;
      input := new byte[8](_ => 0);
      receivedBytes := 0;
      crc8 := 0;
      millis := 0;
      controllerReport := IdleReport(false);
      idleReport := IdleReport(false);
      selectedReport := D.Idle;
    }

    // The receive interrupt while synchronised.
    method ReceiveSynced(b: byte) returns (sent: seq<byte>)
      requires Valid() && state.Synced?
      modifies this, input
      ensures Valid() && D.Outcome(View(), sent) == D.Receive(old(View()), b)
    {
      hide Crc8, Populate, Update, IdleReport;
      sent := [];
      if receivedBytes < 8 {
        Crc8Extend(input[..receivedBytes], b);
        input[receivedBytes] := b;
        receivedBytes := receivedBytes + 1;
        crc8 := Update(crc8, b);
        assert input[..receivedBytes] == old(input[..receivedBytes]) + [b];
      } else {
        if crc8 != b {
          if b == D.COMMAND_SYNC_START {
            state := D.SyncStart;
            sent := [D.RESP_SYNC_START];
          } else {
            sent := [D.RESP_UPDATE_NACK];
          }
        } else {
          sent := [D.RESP_UPDATE_ACK];
          controllerReport := Populate(input[..8]);
          selectedReport := D.Controller;
          millis := 0;
        }
        receivedBytes := 0;
        crc8 := 0;
        assert Crc8(input[..0]) == 0 by { Crc8Empty(); }
      }
    }

    /** The receive interrupt. */
    method Receive(b: byte) returns (sent: seq<byte>)
      requires Valid()
      modifies this, input
      ensures Valid() && D.Outcome(View(), sent) == D.Receive(old(View()), b)
    {
      hide Crc8, Populate, IdleReport;
      sent := [];
      if state == D.Synced {
        sent := ReceiveSynced(b);
        return;
      } else if state == D.SyncStart {
        if b == D.COMMAND_SYNC_1 {
          state := D.Sync1;
          sent := [D.RESP_SYNC_1];
        } else {
          state := D.OutOfSync;
        }
      } else if state == D.Sync1 {
        if b == D.COMMAND_SYNC_2 {
          state := D.Synced;
          sent := [D.RESP_SYNC_OK];
        } else {
          state := D.OutOfSync;
        }
      }
      if state == D.OutOfSync {
        if b == D.COMMAND_SYNC_START {
          state := D.SyncStart;
          sent := [D.RESP_SYNC_START];
        }
      }
    }

    /** CALLBACK_beforeSend. */
    method BeforeSend()
      requires Valid()
      modifies this
      ensures Valid() && View() == D.BeforeSend(old(View()))
    {
      hide Crc8;
      if state == D.Synced {
        if millis >= D.MILLIS_UNTIL_PAUSE {
          if D.MILLIS_UNTIL_HOME <= millis < D.MILLIS_UNTIL_HOME + D.MILLIS_HOME_PRESSED {
            idleReport := idleReport.(home := true);
            selectedReport := D.Idle;
          } else {
            idleReport := idleReport.(home := false);
            selectedReport := D.Idle;
          }
          if millis < D.MILLIS_UNTIL_HOME + D.MILLIS_HOME_PRESSED {
            millis := millis + 8;
          }
        } else {
          selectedReport := D.Controller;
          millis := millis + 8;
        }
      } else {
        idleReport := idleReport.(home := false);
        selectedReport := D.Idle;
      }
    }
  }

  lemma Crc8Empty()
    ensures Crc8([]) == 0
  {
  }

  /** The host's serial port, wired to the firmware; `inbox` is what has arrived and is unread. */
  class Uart {
    const device: Firmware
    var inbox: seq<byte>

    ghost predicate Valid()
      reads this, device, device.input
    {
      device.Valid()
    }

    constructor (device: Firmware)
      requires device.Valid()
      ensures Valid() && this.device == device && inbox == []
    {
      this.device := device;
      inbox := [];
    }

    // Every byte written reaches the device, and every answer comes back.
    method Send(bytes: seq<byte>)
      requires Valid()
      modifies this, device, device.input
      ensures Valid()
      ensures var r := D.Run(old(device.View()), bytes);
              device.View() == r.state && inbox == old(inbox) + r.sent
    {
      hide D.Receive, D.Valid;
      for i := 0 to |bytes|
        invariant Valid()
        invariant D.Outcome(device.View(), inbox) ==
                  var r := D.Run(old(device.View()), bytes[..i]); r.(sent := old(inbox) + r.sent)
      {
        var sent := device.Receive(bytes[i]);
        inbox := inbox + sent;
        assert bytes[..i + 1][..i] == bytes[..i];
      }
      assert bytes[..|bytes|] == bytes;
    }

    // UART.write: a packet and its CRC.
    method Write(data: seq<byte>)
      requires Valid()
      modifies this, device, device.input
      ensures Valid()
      ensures var r := D.Run(old(device.View()), D.Frame(data));
              device.View() == r.state && inbox == old(inbox) + r.sent
    {
      var crc := ComputeCrc8(data);
      Send(data + [crc]);
    }

    // read_until_quiet, on a line that stays quiet.
    method ReadUntilQuiet() returns (data: seq<byte>)
      modifies this
      ensures data == old(inbox) && inbox == []
    {
      data := [];
      while inbox != []
        invariant data + inbox == old(inbox)
        decreases |inbox|
      {
        data := data + [inbox[0]];
        inbox := inbox[1..];
      }
    }

    // read_expected: skips other bytes; running out of bytes is the time-out.
    method ReadExpected(expected: byte) returns (found: bool)
      modifies this
      ensures found == (expected in old(inbox))
      ensures inbox == AfterExpected(old(inbox), expected)
    {
      found := false;
      while inbox != []
        invariant expected in inbox <==> expected in old(inbox)
        invariant AfterExpected(inbox, expected) == AfterExpected(old(inbox), expected)
        decreases |inbox|
      {
        var b := inbox[0];
        assert inbox == [b] + inbox[1..];
        inbox := inbox[1..];
        if b == expected {
          return true;
        }
      }
    }

    /** UART.sync. */
    method Synchronise() returns (ok: bool)
      requires Valid()
      modifies this, device, device.input
      ensures Valid()
      ensures Attempt(device.View(), ok) == SyncAttempt(old(device.View()))
    {
      hide D.Run;
      inbox := [];
      Send(Repeat(CMD_ST, 9));
      assert inbox == D.Run(old(device.View()), Repeat(CMD_ST, 9)).sent;
      var startResponses := ReadUntilQuiet();
      if RSP_ST !in startResponses {
        return false;
      }
      ghost var started := device.View();
      Send([CMD1]);
      assert inbox == D.Run(started, [CMD1]).sent;
      ok := ReadExpected(RSP1);
      if !ok {
        return;
      }
      Send([CMD2]);
      ok := ReadExpected(RSP_OK);
    }
  }
}
