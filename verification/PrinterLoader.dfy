/** The printer boot loader as a mutable object, proved against the parser of module Hex. */
module PrinterLoader {
  import opened Bytes
  import F = Flash
  import FlashMemory
  import H = Hex

  class Loader {
    const flash: FlashMemory.Memory
    var parserState: H.ParserState
    var prevData: byte
    var data: byte
    var readMsb: bool
    var recordType: byte
    var dataRem: byte
    var checksum: byte
    var pageStartAddress: nat
    var currBaseAddress: nat
    var currAddress: nat
    var pageDirty: bool
    var runBootloader: bool

    ghost predicate Valid()
      reads this, flash
    {
      flash.Valid()
    }

    ghost function View(): (b: H.Board)
      reads this, flash, flash.mem, flash.buf
      requires Valid()
      ensures H.ValidBoard(flash.c, b)
    {
      H.Board(
        H.Loader(parserState, prevData, data, readMsb, recordType, dataRem, checksum,
                 pageStartAddress, currBaseAddress, currAddress, pageDirty, runBootloader),
        flash.View())
    }

    constructor (flash: FlashMemory.Memory)
      requires flash.Valid()
      ensures Valid() && this.flash == flash && View() == H.Board(H.Reset(), flash.View())
    {
      this.flash := flash;
      parserState := H.WaitLine;
      prevData, data, readMsb, recordType, dataRem, checksum := 0, 0, false, 0, 0, 0;
      pageStartAddress, currBaseAddress, currAddress := 0, 0, 0;
      pageDirty, runBootloader := false, true;
    }

    /** FlushPageIfRequired. */
    method FlushPageIfRequired()
      requires Valid()
      modifies this, flash, flash.mem, flash.buf
      ensures Valid() && View() == H.Flush(flash.c, old(View()))
    {
      hide F.WritePage;
      if !pageDirty {
        return;
      }
      var newPageStartAddress := H.PageStart(flash.c, currAddress);
      if pageStartAddress != newPageStartAddress {
        flash.WritePage(pageStartAddress);
        pageStartAddress := newPageStartAddress;
        pageDirty := false;
      }
    }

    // A word of a data record.
    method StoreWord(value: word)
      requires Valid()
      modifies this, flash, flash.mem, flash.buf
      ensures Valid() && View() == H.StoreWord(flash.c, old(View()), value)
    {
      hide F.ErasePage, F.FillWord, F.WritePage, H.Flush;
      if !pageDirty {
        flash.ErasePage(pageStartAddress);
        pageDirty := true;
      }
      flash.FillWord(currAddress, value);
      currAddress := H.Advance(flash.c, currAddress, 2);
      FlushPageIfRequired();
    }

    // A byte of the data field.
    method ReadDataByte()
      requires Valid()
      modifies this, flash, flash.mem, flash.buf
      ensures Valid() && View() == H.DataByte(flash.c, old(View()))
    {
      hide H.StoreWord;
      dataRem := (dataRem + 255) % 256;
      if currAddress >= flash.c.bootStart {
        parserState := H.WaitLine;
        pageDirty := false;
        return;
      }
      if dataRem % 2 == 1 {
        prevData := data;
        return;
      }
      var newDataWord: word := 256 * (data as int) + prevData;
      match recordType {
        case 0 => StoreWord(newDataWord);
        case 2 => currBaseAddress := newDataWord * 16 % H.AddressSpace(flash.c);
        case 4 => currBaseAddress := newDataWord * 65536 % H.AddressSpace(flash.c);
        case _ =>
      }
      if dataRem == 0 {
        parserState := H.Checksum;
      }
    }

    // A complete byte.
    method ProcessByte()
      requires Valid()
      modifies this, flash, flash.mem, flash.buf
      ensures Valid() && View() == H.ProcessByte(flash.c, old(View()))
    {
      hide H.DataByte, H.Flush;
      if parserState != H.Checksum {
        checksum := (checksum as int + data) % 256;
      }
      match parserState {
        case ByteCount =>
          dataRem := data;
          parserState := H.AddressHigh;
        case AddressHigh =>
          currAddress := H.Advance(flash.c, currAddress, 256 * (data as int));
          parserState := H.AddressLow;
        case AddressLow =>
          currAddress := H.Advance(flash.c, currAddress, data);
          parserState := H.RecordType;
        case RecordType =>
          recordType := data;
          parserState := if dataRem != 0 then H.ReadData else H.Checksum;
        case ReadData =>
          ReadDataByte();
        case Checksum =>
          if data == (256 - checksum as int) % 256 {
            FlushPageIfRequired();
            if recordType == H.TYPE_END_OF_FILE {
              runBootloader := false;
            }
          }
        case WaitLine =>
          parserState := H.WaitLine;
      }
    }

    /** ParseIntelHEXByte. */
    method ParseByte(readCharacter: char)
      requires Valid()
      modifies this, flash, flash.mem, flash.buf
      ensures Valid() && View() == H.ParseChar(flash.c, old(View()), readCharacter)
    {
      hide H.ProcessByte;
      if parserState == H.WaitLine || readCharacter == ':' {
        checksum := 0;
        currAddress := currBaseAddress;
        readMsb := false;
        if readCharacter == ':' {
          parserState := H.ByteCount;
        }
        return;
      }
      var dec := H.HexToDecimal(readCharacter);
      if dec < 0 {
        return;
      }
      data := (data as int * 16 + dec) % 256;
      readMsb := !readMsb;
      if readMsb {
        return;
      }
      ProcessByte();
    }

    /** The receive loop of `main`, over everything the host sends. */
    method ParseStream(stream: seq<char>)
      requires Valid()
      modifies this, flash, flash.mem, flash.buf
      ensures Valid() && View() == H.Parse(flash.c, old(View()), stream)
    {
      hide H.ParseChar;
      for i := 0 to |stream|
        invariant Valid() && View() == H.Parse(flash.c, old(View()), stream[..i])
      {
        ParseByte(stream[i]);
        assert stream[..i + 1][..i] == stream[..i];
      }
      assert stream[..|stream|] == stream;
    }
  }
}
