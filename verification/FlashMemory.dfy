/** The programming interface of the boot loaders as a mutable object. */
module FlashMemory {
  import opened Bytes
  import F = Flash

  class Memory {
    const c: F.Config
    const mem: array<byte>
    const buf: array<byte>
    ghost var log: seq<F.Operation>

    ghost predicate Valid()
      reads this
    {
      F.ValidConfig(c) && mem.Length == c.flashSize && buf.Length == c.pageSize && mem != buf
    }

    ghost function View(): (f: F.Flash)
      reads this, mem, buf
      requires Valid()
      ensures F.ValidFlash(c, f)
    {
      F.Flash(mem[..], buf[..], log)
    }

    constructor (c: F.Config)
      requires F.ValidConfig(c)
      ensures Valid() && fresh(mem) && fresh(buf) && this.c == c
    {
      this.c := c;
      mem := new byte[c.flashSize](_ => 0xFF);
      buf := new byte[c.pageSize](_ => 0xFF);
      log := [];
      new;
    }

    method ClearBuffer()
      requires Valid()
      modifies buf
      ensures buf[..] == F.Blank(c)
    {
      forall i | 0 <= i < buf.Length {
        buf[i] := 0xFF;
      }
    }

    method ErasePage(address: nat)
      requires Valid()
      modifies this, mem, buf
      ensures Valid() && View() == F.ErasePage(c, old(View()), address)
    {
      log := log + [F.Erased(address)];
      if address < c.bootStart && address % c.pageSize == 0 {
        F.NextPageFits(c, address);
        forall i | address <= i < address + c.pageSize {
          mem[i] := 0xFF;
        }
        ClearBuffer();
        assert mem[..] == F.ReplacePage(c, old(mem[..]), address, F.Blank(c));
      }
    }

    // Programming can only clear bits.
    method ProgramPage(address: nat)
      requires Valid() && address + c.pageSize <= mem.Length
      modifies mem
      ensures mem[..] == F.ProgrammedMemory(c, old(View()), address)
    {
      hide And;
      ghost var before := old(View());
      for i := 0 to c.pageSize
        invariant buf[..] == before.buf
        invariant forall k :: 0 <= k < address + i ==> mem[k] == F.Programmed(c, before, address, k)
        invariant forall k :: address + i <= k < mem.Length ==> mem[k] == before.mem[k]
      {
        assert buf[..][i] == buf[i];
        mem[address + i] := And(mem[address + i], buf[i]);
      }
      assert mem[..] == F.ProgrammedMemory(c, before, address);
    }

    method WritePage(address: nat)
      requires Valid()
      modifies this, mem, buf
      ensures Valid() && View() == F.WritePage(c, old(View()), address)
    {
      hide F.Programmed;
      if address < c.bootStart && address % c.pageSize == 0 {
        F.NextPageFits(c, address);
        ProgramPage(address);
        ClearBuffer();
      }
      log := log + [F.Written(address)];
    }

    method FillWord(address: nat, value: word)
      requires Valid()
      modifies this, buf
      ensures Valid() && View() == F.FillWord(c, old(View()), address, value)
    {
      F.OffsetInPage(c, address);
      var o := F.Offset(c, address);
      buf[o] := value % 256;
      buf[o + 1] := value / 256;
      log := log + [F.Filled(address, value)];
      assert buf[..] == old(buf[..])[o := value % 256][o + 1 := value / 256];
    }

    // A read of program memory; what lies beyond it reads as erased.
    method ReadByte(address: nat) returns (b: byte)
      requires Valid()
      ensures b == F.ReadByte(View(), address)
    {
      b := if address < mem.Length then mem[address] else 0xFF;
    }
  }
}
