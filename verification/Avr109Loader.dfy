/** The AVR109 block commands as a mutable object, proved against module Avr109. */
module Avr109Loader {
  import opened Bytes
  import F = Flash
  import FlashMemory
  import A = Avr109

  class Loader {
    const flash: FlashMemory.Memory
    var eeprom: seq<byte>
    var currAddress: nat

    ghost predicate Valid()
      reads this, flash
    {
      flash.Valid() && currAddress < 0x1_0000_0000
    }

    ghost function View(): (d: A.Device)
      reads this, flash, flash.mem, flash.buf
      requires Valid()
      ensures A.Valid(flash.c, d)
    {
      A.Device(flash.View(), eeprom, currAddress)
    }

    constructor (flash: FlashMemory.Memory, eeprom: seq<byte>)
      requires flash.Valid()
      ensures Valid() && this.flash == flash && this.eeprom == eeprom && currAddress == 0
    {
      this.flash, this.eeprom, currAddress := flash, eeprom, 0;
    }

    /** The SetCurrentAddress arm of CDC_Task. */
    method SetCurrentAddress(high: byte, low: byte)
      requires Valid()
      modifies this`currAddress
      ensures Valid() && View() == A.SetAddress(old(View()), high, low)
    {
      currAddress := 512 * (high as int);
      currAddress := currAddress + 2 * (low as int);
    }

    // A flash read returns two bytes per step of the address.
    method ReadFlashBlock(size: nat) returns (bytes: seq<byte>)
      requires Valid()
      modifies this`currAddress
      ensures Valid() && currAddress == A.Advance(old(currAddress), size / 2)
      ensures bytes == A.LoadFlash(flash.View(), old(currAddress), size)
    {
      hide F.ReadByte, A.Advance;
      A.AdvanceSteps(currAddress, 0);
      bytes := [];
      var highByte := 0;
      for i := 0 to size
        invariant Valid() && highByte == i % 2
        invariant currAddress == A.Advance(old(currAddress), i / 2)
        invariant bytes == A.LoadFlash(flash.View(), old(currAddress), i)
      {
        var b := flash.ReadByte(currAddress + highByte);
        bytes := bytes + [b];
        if highByte == 1 {
          A.AdvanceSteps(old(currAddress), i / 2);
          currAddress := A.Advance(currAddress, 1);
        }
        highByte := 1 - highByte;
      }
    }

    method ReadEepromBlock(size: nat) returns (bytes: seq<byte>)
      requires Valid()
      modifies this`currAddress
      ensures Valid() && currAddress == A.Advance(old(currAddress), size)
      ensures bytes == A.LoadEeprom(eeprom, old(currAddress), size)
    {
      hide A.Advance, A.EepromAddress;
      A.AdvanceSteps(currAddress, 0);
      bytes := [];
      for i := 0 to size
        invariant Valid() && currAddress == A.Advance(old(currAddress), i)
        invariant bytes == A.LoadEeprom(eeprom, old(currAddress), i)
      {
        bytes := bytes + [F.EepromByte(eeprom, A.EepromAddress(currAddress))];
        A.AdvanceSteps(old(currAddress), i);
        currAddress := A.Advance(currAddress, 1);
      }
    }

    // A flash write fills a word on every second byte.
    method WriteFlashBlock(data: seq<byte>)
      requires Valid()
      modifies this`currAddress, flash, flash.mem, flash.buf
      ensures Valid() && View() == A.BlockWrite(flash.c, old(View()), A.FlashMemory, data)
    {
      hide F.FillWord, F.ErasePage, F.WritePage, A.Advance;
      A.AdvanceSteps(currAddress, 0);
      var pageStartAddress := currAddress;
      flash.ErasePage(pageStartAddress);
      ghost var erased := flash.View();
      var highByte, lowByte := false, 0;
      for i := 0 to |data|
        invariant Valid() && highByte == (i % 2 == 1) && (highByte ==> lowByte == data[i - 1])
        invariant currAddress == A.Advance(pageStartAddress, i / 2)
        invariant flash.View() == A.FillWords(flash.c, erased, pageStartAddress, data, i / 2)
      {
        if highByte {
          flash.FillWord(currAddress, 256 * (data[i] as int) + lowByte);
          A.AdvanceSteps(pageStartAddress, i / 2);
          currAddress := A.Advance(currAddress, 1);
        } else {
          lowByte := data[i];
        }
        highByte := !highByte;
      }
      flash.WritePage(pageStartAddress);
    }

    method WriteEepromBlock(data: seq<byte>)
      requires Valid()
      modifies this`currAddress, this`eeprom
      ensures Valid() && View() == A.BlockWrite(flash.c, old(View()), A.Eeprom, data)
    {
      hide A.Advance, A.EepromAddress, F.EepromUpdate;
      A.AdvanceSteps(currAddress, 0);
      for i := 0 to |data|
        invariant Valid() && currAddress == A.Advance(old(currAddress), i)
        invariant eeprom == A.StoreBytes(old(eeprom), old(currAddress), data, i)
      {
        eeprom := F.EepromUpdate(eeprom, A.EepromAddress(currAddress), data[i]);
        A.AdvanceSteps(old(currAddress), i);
        currAddress := A.Advance(currAddress, 1);
      }
    }

    /** ReadWriteMemoryBlock for a read. */
    method BlockRead(memory: A.MemoryType, size: nat) returns (reply: seq<byte>)
      requires Valid()
      modifies this
      ensures Valid() && View() == A.BlockRead(old(View()), memory, size)
      ensures reply == A.BlockReadReply(old(View()), memory, size)
    {
      match memory {
        case Unknown => reply := [A.ERROR];
        case FlashMemory => reply := ReadFlashBlock(size);
        case Eeprom => reply := ReadEepromBlock(size);
      }
    }

    /** ReadWriteMemoryBlock for a write. */
    method BlockWrite(memory: A.MemoryType, data: seq<byte>) returns (reply: seq<byte>)
      requires Valid()
      modifies this, flash, flash.mem, flash.buf
      ensures Valid() && View() == A.BlockWrite(flash.c, old(View()), memory, data)
      ensures reply == A.BlockWriteReply(memory)
    {
      hide A.FillWords, F.ErasePage, F.WritePage;
      match memory {
        case Unknown =>
          reply := [A.ERROR];
          return;
        case FlashMemory => WriteFlashBlock(data);
        case Eeprom => WriteEepromBlock(data);
      }
      reply := [A.DONE];
    }
  }
}
