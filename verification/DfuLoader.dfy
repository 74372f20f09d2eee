/** The DFU boot loader as a mutable object, proved against the state machine of module Dfu. */
module DfuLoader {
  import opened Bytes
  import F = Flash
  import FlashMemory
  import D = Dfu

  class Loader {
    const flash: FlashMemory.Memory
    const signature: seq<byte>
    var isSecure: bool
    var runBootloader: bool
    var waitForExit: bool
    var dfuState: D.State
    var dfuStatus: byte
    var command: byte
    var data: seq<byte>
    var dataSize: nat
    var responseByte: byte
    var appStart: word
    var magicBootKey: word
    var flash64KBPage: byte
    var startAddr: word
    var endAddr: word
    var eeprom: seq<byte>
    // The control endpoint, and whether the current request has been stalled.
    var packet: seq<byte>
    var unsent: seq<byte>
    var stalled: bool

    ghost predicate Valid()
      reads this, flash
    {
      flash.Valid() && |data| == 5 && |signature| == 3
    }

    ghost function View(): (d: D.Device)
      reads this, flash, flash.mem, flash.buf
      requires Valid()
      ensures D.Valid(flash.c, d)
    {
      D.Device(isSecure, runBootloader, waitForExit, dfuState, dfuStatus, command, data, responseByte,
               appStart, magicBootKey, flash64KBPage, startAddr, endAddr, flash.View(), eeprom, signature)
    }

    ghost function Ep(): D.Endpoint
      reads this
    {
      D.Endpoint(packet, unsent)
    }

    constructor (flash: FlashMemory.Memory, eeprom: seq<byte>, signature: seq<byte>, secure: bool)
      requires flash.Valid() && |signature| == 3
      ensures Valid() && this.flash == flash && isSecure == secure && !waitForExit && dfuState == D.Idle
    {
      this.flash, this.eeprom, this.signature := flash, eeprom, signature;
      isSecure, runBootloader, waitForExit := secure, true, false;
      dfuState, dfuStatus, command, data, dataSize := D.Idle, D.OK, 0, [0, 0, 0, 0, 0], 0;
      responseByte, appStart, magicBootKey, flash64KBPage, startAddr, endAddr := 0, 0, 0, 0, 0, 0;
      packet, unsent, stalled := [], [], false;
    }

    // ---- The endpoint ----

    // Endpoint_ClearOUT and the wait for the next packet.
    method FetchPacket()
      modifies this`packet, this`unsent
      ensures Ep() == D.NextPacket(old(Ep()))
    {
      var n := if |unsent| < D.PACKET then |unsent| else D.PACKET;
      packet, unsent := unsent[..n], unsent[n..];
    }

    /** DiscardFillerBytes. */
    method DiscardFillerBytes(numberOfBytes: nat)
      modifies this`packet, this`unsent
      ensures Ep() == D.Discard(old(Ep()), numberOfBytes)
    {
      var n := numberOfBytes;
      while n > 0
        invariant D.Discard(Ep(), n) == D.Discard(old(Ep()), numberOfBytes)
      {
        if packet == [] {
          if unsent == [] {
            return;
          }
          FetchPacket();
        } else {
          packet := packet[1..];
        }
        n := n - 1;
      }
    }

    // The next byte or word of the data stage, fetching a packet first if the current one is used up.
    method ReadByte() returns (b: byte)
      modifies this`packet, this`unsent
      ensures var e := D.Fetched(old(Ep())); b == D.Peek(e, 0) && Ep() == D.Skip(e, 1)
    {
      if packet == [] {
        FetchPacket();
      }
      b := if |packet| > 0 then packet[0] else 0;
      packet := if 1 <= |packet| then packet[1..] else [];
    }

    method ReadWord() returns (value: word)
      modifies this`packet, this`unsent
      ensures var e := D.Fetched(old(Ep()));
              value == 256 * (D.Peek(e, 1) as int) + D.Peek(e, 0) && Ep() == D.Skip(e, 2)
    {
      if packet == [] {
        FetchPacket();
      }
      var low := if |packet| > 0 then packet[0] else 0;
      var high := if |packet| > 1 then packet[1] else 0;
      packet := if 2 <= |packet| then packet[2..] else [];
      value := 256 * (high as int) + low;
    }

    // ---- The loops over memory ----

    method EraseApplication()
      requires Valid()
      modifies flash, flash.mem, flash.buf
      ensures Valid() && flash.View() == D.EraseFrom(flash.c, old(flash.View()), 0)
    {
      hide F.ErasePage;
      var address := 0;
      while address < flash.c.bootStart
        invariant Valid()
        invariant D.EraseFrom(flash.c, flash.View(), address) == D.EraseFrom(flash.c, old(flash.View()), 0)
        decreases flash.c.bootStart - address
      {
        flash.ErasePage(address);
        address := address + flash.c.pageSize;
      }
    }

    method ReadFlash(address: nat) returns (b: byte)
      requires Valid()
      ensures b == D.FlashByte(flash.c, flash.View(), address)
    {
      b := flash.ReadByte(if flash.c.flashSize > 0x1_0000 then address else address % 0x1_0000);
    }

    method FindNonBlank() returns (address: nat)
      requires Valid()
      ensures address == D.FirstNonBlank(flash.c, flash.View(), 0)
    {
      hide D.FlashByte;
      address := 0;
      while address < flash.c.bootStart
        invariant address <= flash.c.bootStart
        invariant D.FirstNonBlank(flash.c, flash.View(), address) == D.FirstNonBlank(flash.c, flash.View(), 0)
      {
        var b := ReadFlash(address);
        if b != 0xFF {
          return;
        }
        address := address + 1;
      }
    }

    // The word loop of a flash download.
    method ProgramFlash(words: nat, first: nat) returns (complete: bool)
      requires Valid()
      modifies this`packet, this`unsent, flash, flash.mem, flash.buf
      ensures Valid()
      ensures D.Transfer(flash.View(), Ep(), complete)
           == D.ProgramWords(flash.c, old(flash.View()), old(Ep()), words, first, first, 0)
    {
      hide F.FillWord, F.WritePage, F.ErasePage, D.Fetched, D.Peek, D.Skip;
      var left, address, page, inPage := words, first, first, 0;
      while left > 0
        invariant Valid()
        invariant D.ProgramWords(flash.c, flash.View(), Ep(), left, address, page, inPage)
               == D.ProgramWords(flash.c, old(flash.View()), old(Ep()), words, first, first, 0)
      {
        left := left - 1;
        if packet == [] && unsent == [] {
          return false;
        }
        var value := ReadWord();
        flash.FillWord(address, value);
        inPage := inPage + 1;
        address := address + 2;
        if inPage == flash.c.pageSize / 2 || left == 0 {
          flash.WritePage(page);
          if left > 0 {
            page := address;
            inPage := 0;
            flash.ErasePage(address);
          }
        }
      }
      complete := true;
    }

    // The byte loop of an EEPROM download.
    method ProgramEeprom(bytes: nat)
      requires Valid()
      modifies this`packet, this`unsent, this`eeprom, this`startAddr
      ensures Valid() && View() == D.ProgramEeprom(old(View()), old(Ep()), bytes)
    {
      hide D.Fetched, D.Peek, D.Skip, F.EepromUpdate, F.ValidConfig, F.ValidFlash;
      var left := bytes;
      while left > 0
        invariant Valid()
        invariant D.ProgramEeprom(View(), Ep(), left) == D.ProgramEeprom(old(View()), old(Ep()), bytes)
      {
        if packet == [] && unsent == [] {
          return;
        }
        left := left - 1;
        var b := ReadByte();
        eeprom := F.EepromUpdate(eeprom, startAddr, b);
        startAddr := (startAddr as int + 1) % 0x1_0000;
      }
    }

    // ---- The commands ----

    method LoadStartEndAddresses()
      requires Valid()
      modifies this`startAddr, this`endAddr
      ensures Valid() && View() == D.LoadAddresses(old(View()))
    {
      startAddr := 256 * (data[1] as int) + data[2];
      endAddr := 256 * (data[3] as int) + data[4];
    }

    /** ProcessMemProgCommand. */
    method ProcessMemProg()
      requires Valid()
      modifies this`startAddr, this`endAddr, this`dfuState, flash, flash.mem, flash.buf
      ensures Valid() && View() == D.MemProg(flash.c, old(View()))
    {
      hide F.ErasePage;
      if data[0] == 0 || data[0] == 1 {
        LoadStartEndAddresses();
        if data[0] == 0 {
          flash.ErasePage(D.Long(flash64KBPage, startAddr));
        }
        dfuState := D.DnloadIdle;
      }
    }

    /** ProcessMemReadCommand. */
    method ProcessMemRead()
      requires Valid()
      modifies this`startAddr, this`endAddr, this`flash64KBPage, this`dfuState, this`dfuStatus
      ensures Valid() && View() == D.MemRead(flash.c, old(View()))
    {
      hide D.FirstNonBlank;
      if data[0] == 0 || data[0] == 2 {
        LoadStartEndAddresses();
        dfuState := D.UploadIdle;
      } else if data[0] == 1 {
        var address := FindNonBlank();
        if address < flash.c.bootStart {
          flash64KBPage := address / 0x1_0000;
          startAddr := address % 0x1_0000;
          dfuState := D.Error;
          dfuStatus := D.ERR_CHECK_ERASED;
        }
      }
    }

    /** ProcessWriteCommand. */
    method ProcessWrite()
      requires Valid()
      modifies this`waitForExit, this`appStart, this`magicBootKey, this`runBootloader, this`isSecure,
               flash, flash.mem, flash.buf
      ensures Valid() && View() == D.Write(flash.c, old(View()), dataSize)
    {
      hide D.EraseFrom, D.FlashByte;
      if data[0] == 3 {
        waitForExit := true;
        if dataSize != 0 {
          if data[1] == 1 {
            appStart := 256 * (data[3] as int) + data[4];
          }
        } else if data[1] == 0 {
          magicBootKey := D.MAGIC_BOOT_KEY;
        } else {
          var low := ReadFlash(0);
          var high := ReadFlash(1);
          if 256 * (high as int) + low == 0xFFFF {
            runBootloader := false;
          }
        }
      } else if data[0] == 0 && data[1] == 0xFF {
        EraseApplication();
        isSecure := false;
      }
    }

    /** ProcessReadCommand. */
    method ProcessRead()
      requires Valid()
      modifies this`responseByte, this`dfuState, this`dfuStatus
      ensures Valid() && View() == D.Read(flash.c, old(View()))
    {
      var index, invalid := data[1], false;
      if data[0] == 0 {
        if index < 3 {
          responseByte := if index == 0 then 0x20 else if index == 1 then 0xDC else 0xFB;
        } else {
          invalid := true;
        }
      } else if data[0] == 1 {
        match index {
          case 0x30 => responseByte := 0x58;
          case 0x31 => responseByte := signature[0];
          case 0x60 => responseByte := signature[1];
          case 0x61 => responseByte := signature[2];
          case _ => invalid := true;
        }
      }
      if invalid {
        dfuState := D.Error;
        dfuStatus := D.ERR_ADDRESS;
      }
    }

    /** ProcessBootloaderCommand. */
    method ProcessBootloaderCommand()
      requires Valid()
      modifies this`startAddr, this`endAddr, this`flash64KBPage, this`dfuState, this`dfuStatus, this`waitForExit,
               this`appStart, this`magicBootKey, this`runBootloader, this`isSecure, this`responseByte, this`stalled,
               flash, flash.mem, flash.buf
      ensures Valid() && View() == D.ProcessCommand(flash.c, old(View()), dataSize)
      ensures stalled == (old(stalled) || !D.Allowed(old(View())))
    {
      hide D.MemProg, D.MemRead, D.Write, D.Read;
      if isSecure {
        if !((command == D.COMMAND_WRITE && data[0] == 0 && data[1] == 0xFF) || command == D.COMMAND_READ) {
          dfuState := D.Error;
          dfuStatus := D.ERR_WRITE;
          stalled := true;
          return;
        }
      }
      match command {
        case 1 => ProcessMemProg();
        case 3 => ProcessMemRead();
        case 4 => ProcessWrite();
        case 5 => ProcessRead();
        case 6 =>
          if data[0] == 3 && data[1] == 0 {
            flash64KBPage := data[2];
          }
        case _ =>
      }
    }

    // ---- The requests ----

    // Up to five command parameters, as many as the packet has.
    method LoadParameters(payload: seq<byte>) returns (i: nat)
      requires |data| == 5 && 0 < |packet| <= |payload| && packet == payload[..|packet|] && dataSize >= |packet|
      modifies this`data, this`dataSize
      ensures i == if |packet| < 6 then |packet| - 1 else 5
      ensures data == payload[1..i + 1] + old(data)[i..] && dataSize == old(dataSize) - i
    {
      i := 0;
      while i < 5 && i + 1 < |packet|
        invariant i <= 5 && i < |packet| && dataSize == old(dataSize) - i
        invariant data == payload[1..i + 1] + old(data)[i..]
        decreases 5 - i
      {
        ParameterLoaded(payload, old(data), i);
        data := data[i := packet[i + 1]];
        i := i + 1;
        dataSize := dataSize - 1;
      }
    }

    // The command byte and its parameters, off the first packet.
    method TakeCommand(payload: seq<byte>) returns (i: nat)
      requires |data| == 5 && payload != [] && dataSize == |payload| && Ep() == D.FirstPacket(payload)
      modifies this`command, this`data, this`dataSize, this`packet
      ensures i == if old(|packet|) < 6 then old(|packet|) - 1 else 5
      ensures i < |payload| && command == payload[0] && data == payload[1..i + 1] + old(data)[i..]
      ensures dataSize == |payload| - 1 - i && i < old(|packet|) && packet == old(packet)[i + 1..]
    {
      hide D.FirstPacket;
      D.FirstPacketPrefix(payload);
      command := packet[0];
      i := LoadParameters(payload);
      dataSize := dataSize - 1;
      packet := packet[i + 1..];
    }

    // The command bytes at the start of the data stage.
    method LoadCommand(payload: seq<byte>)
      requires Valid() && payload != [] && dataSize == |payload| && Ep() == D.FirstPacket(payload)
      modifies this`command, this`data, this`dataSize, this`packet
      ensures Valid() && View() == D.LoadCommand(old(View()), payload)
      ensures dataSize == D.AfterCommand(payload) && Ep() == D.Skip(D.FirstPacket(payload), 6)
    {
      hide F.ValidConfig, F.ValidFlash, D.FirstPacket, D.LoadCommand, D.AfterCommand, D.Skip;
      ghost var d := View();
      var i := TakeCommand(payload);
      D.CommandInPacket(d, payload, i);
    }

    method Download()
      requires Valid()
      modifies this`startAddr, this`eeprom, this`packet, this`unsent, flash, flash.mem, flash.buf
      ensures Valid() && View() == D.Download(flash.c, old(View()), old(Ep()))
    {
      hide D.Discard, D.ProgramWords, D.ProgramEeprom, D.RangeLength;
      DiscardFillerBytes(D.FILLER);
      DiscardFillerBytes(startAddr % D.PACKET);
      var bytesRemaining := D.RangeLength(startAddr, endAddr);
      if data[0] == 0 {
        var complete := ProgramFlash(bytesRemaining / 2, D.Long(flash64KBPage, startAddr));
        if !complete {
          return;
        }
        startAddr := endAddr;
      } else {
        ProgramEeprom(bytesRemaining);
      }
      DiscardFillerBytes(D.SUFFIX);
    }

    // A pending exit.
    method Wake(payload: seq<byte>)
      requires Valid() && dataSize == |payload| && !stalled
      modifies this`startAddr, this`endAddr, this`flash64KBPage, this`dfuState, this`dfuStatus, this`waitForExit,
               this`appStart, this`magicBootKey, this`runBootloader, this`isSecure, this`responseByte, this`stalled,
               flash, flash.mem, flash.buf
      ensures Valid() && View() == D.Woken(flash.c, old(View()), payload)
      ensures stalled == (old(waitForExit) && !D.Allowed(old(View())))
    {
      hide D.ProcessCommand, D.Allowed;
      if waitForExit {
        ProcessBootloaderCommand();
        waitForExit := false;
      }
    }

    // The commands of a DNLOAD request, its own and one that waited for it.
    method Commands(payload: seq<byte>)
      requires Valid()
      modifies this, flash, flash.mem, flash.buf
      ensures Valid() && View() == D.Commands(flash.c, old(View()), payload)
      ensures stalled == D.Stalls(flash.c, old(View()), payload)
      ensures dataSize == D.AfterCommand(payload)
      ensures payload != [] ==> Ep() == D.Skip(D.FirstPacket(payload), 6)
    {
      hide D.ProcessCommand, D.LoadCommand, D.Allowed, D.Skip, D.NextPacket, D.Woken, F.ValidConfig, F.ValidFlash;
      dataSize, stalled, packet, unsent := |payload|, false, [], payload;
      Wake(payload);
      if dataSize != 0 {
        FetchPacket();
        LoadCommand(payload);
        ProcessBootloaderCommand();
      }
    }

    /** The DNLOAD arm of EVENT_USB_Device_ControlRequest. */
    method Dnload(payload: seq<byte>)
      requires Valid()
      modifies this, flash, flash.mem, flash.buf
      ensures Valid() && View() == D.DnloadStep(flash.c, old(View()), payload)
      ensures stalled == D.Stalls(flash.c, old(View()), payload)
    {
      hide D.Commands, D.Stalls, D.Download, D.Skip;
      Commands(payload);
      if dfuState == D.DnloadIdle {
        if dataSize == 0 {
          dfuState := D.Idle;
        } else {
          Download();
        }
      }
    }

    // The words of a flash range.
    method ReadFlashRange(first: nat, words: nat) returns (bytes: seq<byte>)
      requires Valid()
      ensures bytes == D.FlashBytes(flash.c, flash.View(), first, words)
    {
      hide D.FlashByte;
      bytes := [];
      for i := 0 to words
        invariant bytes == D.FlashBytes(flash.c, flash.View(), first, i)
      {
        var low := ReadFlash(first + 2 * i);
        var high := ReadFlash(first + 2 * i + 1);
        bytes := bytes + [low, high];
      }
    }

    // The bytes of an EEPROM range, advancing StartAddr.
    method ReadEepromRange(count: nat) returns (bytes: seq<byte>)
      requires Valid()
      modifies this`startAddr
      ensures Valid() && View() == old(View()).(start := (old(startAddr) as int + count) % 0x1_0000)
      ensures bytes == D.EepromBytes(eeprom, old(startAddr), count)
    {
      hide F.EepromByte;
      bytes := [];
      for i := 0 to count
        invariant Valid() && startAddr as int == (old(startAddr) as int + i) % 0x1_0000
        invariant bytes == D.EepromBytes(eeprom, old(startAddr), i)
      {
        bytes := bytes + [F.EepromByte(eeprom, startAddr)];
        NextStart(old(startAddr), i);
        startAddr := (startAddr as int + 1) % 0x1_0000;
      }
    }

    /** The UPLOAD arm. */
    method Upload() returns (bytes: seq<byte>)
      requires Valid()
      modifies this
      ensures Valid() && View() == D.UploadStep(old(View()))
      ensures bytes == D.UploadReply(flash.c, old(View()))
    {
      hide D.FlashBytes, D.EepromBytes, D.RangeLength;
      if dfuState != D.UploadIdle {
        if dfuState == D.Error && data[0] == 1 {
          bytes := [startAddr % 256, startAddr / 256];
        } else {
          bytes := [responseByte];
        }
      } else {
        bytes := [];
        var bytesRemaining := D.RangeLength(startAddr, endAddr);
        if data[0] == 0 {
          bytes := ReadFlashRange(D.Long(flash64KBPage, startAddr), bytesRemaining / 2);
          startAddr := endAddr;
        } else if data[0] == 2 {
          bytes := ReadEepromRange(bytesRemaining);
        }
        dfuState := D.Idle;
      }
    }

    /** EVENT_USB_Device_ControlRequest. */
    method ControlRequest(q: D.Request) returns (r: D.Reply)
      requires Valid()
      modifies this, flash, flash.mem, flash.buf
      ensures Valid() && View() == D.Step(flash.c, old(View()), q)
      ensures r == D.Answer(flash.c, old(View()), q)
    {
      hide D.DnloadStep, D.Stalls, D.UploadStep, D.UploadReply;
      match q {
        case Dnload(payload) =>
          Dnload(payload);
          r := D.Reply([], stalled);
        case Upload =>
          var bytes := Upload();
          r := D.Reply(bytes, false);
        case GetStatus =>
          r := D.Reply([dfuStatus, 0, 0, 0, dfuState.Code(), 0], false);
        case ClrStatus =>
          dfuStatus := D.OK;
          r := D.Reply([], false);
        case GetState =>
          r := D.Reply([dfuState.Code()], false);
        case Abort =>
          dfuState := D.Idle;
          r := D.Reply([], false);
      }
    }
  }

  // One more parameter replaces the old one.
  lemma ParameterLoaded(payload: seq<byte>, data: seq<byte>, i: nat)
    requires i < |data| && i + 1 < |payload|
    ensures (payload[1..i + 1] + data[i..])[i := payload[i + 1]] == payload[1..i + 2] + data[i + 1..]
  {
  }

  // Sixteen-bit increments add up.
  lemma NextStart(start: word, i: nat)
    ensures ((start as int + i) % 0x1_0000 + 1) % 0x1_0000 == (start as int + i + 1) % 0x1_0000
  {
    ModAdd(0x1_0000, 1, start as int + i);
  }
}
