/** BSP_EEPROM_WriteBuffer and BSP_EEPROM_WritePage
    (Drivers/BSP/STM32746G-Discovery/stm32746g_discovery_eeprom.c). */
module Eeprom {
  import opened PagedMemory
  import opened Arith

  const PAGE_SIZE := 4
  const MAX_SIZE := 0x2000

  ghost predicate IsEeprom(chip: Chip)
    reads chip
  {
    chip.Valid() && chip.page == 4 && |chip.mem| == 8192 && chip.combine == Replace
  }

  /** Whole pages, then the rest: the tail shared by the aligned and the unaligned branch. */
  method WritePages(chip: Chip, data: seq<Cell>, writeAddr: nat, offset0: nat, numofpage0: nat, numofsingle: nat,
                    ghost was: Snapshot)
    returns (ok: bool, ghost p: nat, ghost q: nat)
    requires IsEeprom(chip) && chip.Wrote(was, writeAddr, data, offset0)
    requires (writeAddr + offset0) % PAGE_SIZE == 0
    requires offset0 + numofpage0 * PAGE_SIZE + numofsingle == |data| && numofsingle < PAGE_SIZE
    modifies chip
    ensures IsEeprom(chip)
    ensures ok ==> chip.Wrote(was, writeAddr, data, |data|)
    ensures !ok ==> chip.Stopped(was, writeAddr, data, p, q)
  {
    hide Chip.Wrote;
    hide Chip.Stopped;
    var numofpage: nat, offset: nat := numofpage0, offset0;
    while numofpage != 0
      invariant IsEeprom(chip) && chip.Wrote(was, writeAddr, data, offset)
      invariant (writeAddr + offset) % PAGE_SIZE == 0
      invariant offset + numofpage * PAGE_SIZE + numofsingle == |data|
    {
      numofpage := numofpage - 1;
      ok, q := chip.WriteNext(writeAddr, data, offset, PAGE_SIZE, was);
      if !ok {
        p := offset;
        return;
      }
      offset := offset + PAGE_SIZE;
    }
    if numofsingle != 0 {
      ok, q := chip.WriteNext(writeAddr, data, offset, numofsingle, was);
      p := offset;
      return;
    }
    ok, p, q := true, |data|, |data|;
  }

  /** The branch for a start address inside a page with count bytes of room. */
  method WriteUnaligned(chip: Chip, data: seq<Cell>, writeAddr: nat, count: nat, ghost was: Snapshot)
    returns (ok: bool, ghost p: nat, ghost q: nat)
    requires IsEeprom(chip) && chip.Wrote(was, writeAddr, data, 0) && writeAddr % PAGE_SIZE == PAGE_SIZE - count
    requires count < PAGE_SIZE
    modifies chip
    ensures IsEeprom(chip)
    ensures ok ==> chip.Wrote(was, writeAddr, data, |data|)
    ensures !ok ==> chip.Stopped(was, writeAddr, data, p, q)
  {
    hide Chip.Wrote;
    hide Chip.Stopped;
    var numofpage, numofsingle := |data| / PAGE_SIZE, |data| % PAGE_SIZE;
    p, q := 0, 0;
    if numofpage == 0 {
      if |data| > count {
        ok, q := chip.WriteNext(writeAddr, data, 0, count, was);
        if ok {
          p := count;
          ok, q := chip.WriteNext(writeAddr, data, count, |data| - count, was);
        }
      } else {
        ok, q := chip.WriteNext(writeAddr, data, 0, numofsingle, was);
      }
    } else {
      var rest := |data| - count;
      numofpage, numofsingle := rest / PAGE_SIZE, rest % PAGE_SIZE;
      if count != 0 {
        ok, q := chip.WriteNext(writeAddr, data, 0, count, was);
        if !ok { return; }
      }
      ok, p, q := WritePages(chip, data, writeAddr, count, numofpage, numofsingle, was);
    }
  }

  /** The page writes amount to one flat write of the buffer, or of a prefix of it after a failure. */
  method WriteBuffer(chip: Chip, data: seq<Cell>, writeAddr: nat) returns (ok: bool, ghost p: nat, ghost q: nat)
    requires IsEeprom(chip) && writeAddr + |data| <= MAX_SIZE
    modifies chip
    ensures IsEeprom(chip)
    ensures ok ==> chip.Wrote(old(chip.Now()), writeAddr, data, |data|)
    ensures !ok ==> chip.Stopped(old(chip.Now()), writeAddr, data, p, q)
  {
    ghost var was := chip.Now();
    chip.WroteNothing(writeAddr, data);
    hide Chip.Wrote;
    hide Chip.Stopped;
    var addr := writeAddr % PAGE_SIZE;
    var count := PAGE_SIZE - addr;
    var numofpage, numofsingle := |data| / PAGE_SIZE, |data| % PAGE_SIZE;
    p, q := 0, 0;
    if addr == 0 {
      if numofpage == 0 {
        ok, q := chip.WriteNext(writeAddr, data, 0, numofsingle, was);
      } else {
        ok, p, q := WritePages(chip, data, writeAddr, 0, numofpage, numofsingle, was);
      }
    } else {
      ok, p, q := WriteUnaligned(chip, data, writeAddr, count, was);
    }
  }

  /** What BSP_EEPROM_ReadBuffer returns. */
  ghost function ReadBuffer(chip: Chip, readAddr: nat, n: nat): seq<Cell>
    reads chip
    requires readAddr + n <= |chip.mem|
  {
    chip.mem[readAddr..readAddr + n]
  }

  /** A successful write reads back, and every other byte is as before. */
  lemma WriteReadsBack(chip: Chip, was: Snapshot, data: seq<Cell>, addr: nat)
    requires IsEeprom(chip) && chip.Wrote(was, addr, data, |data|)
    ensures ReadBuffer(chip, addr, |data|) == data
    ensures forall i | 0 <= i < MAX_SIZE && !(addr <= i < addr + |data|) :: chip.mem[i] == was.mem[i]
  {
    assert data[..|data|] == data;
  }
}
