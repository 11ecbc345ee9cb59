/** BSP_QSPI_Write (Drivers/BSP/STM32746G-Discovery/stm32746g_discovery_qspi.c). */
module Qspi {
  import opened PagedMemory
  import opened Arith

  const PAGE_SIZE := 0x100
  const FLASH_SIZE := 0x1000000

  ghost predicate IsFlash(chip: Chip)
    reads chip
  {
    chip.Valid() && chip.page == 256 && |chip.mem| == 0x1000000 && chip.combine == And
  }

  /** Bytes left in the page of an address, found by stepping over pages. */
  method PageRoom(writeAddr: nat) returns (room: nat)
    ensures room == PAGE_SIZE - writeAddr % PAGE_SIZE
  {
    var currentAddr := 0;
    while currentAddr <= writeAddr
      invariant currentAddr % PAGE_SIZE == 0 && currentAddr <= writeAddr + PAGE_SIZE
    {
      currentAddr := currentAddr + PAGE_SIZE;
    }
    room := currentAddr - writeAddr;
  }

  /** The size chosen for a command reaches the end of the page or the end of the data. */
  ghost predicate Fits(addr: nat, size: nat, end: nat) {
    && addr + size <= end
    && addr % PAGE_SIZE + size <= PAGE_SIZE
    && (addr + size < end ==> addr % PAGE_SIZE + size == PAGE_SIZE)
  }

  lemma NextFits(addr: nat, size: nat, end: nat)
    requires Fits(addr, size, end)
    ensures addr + size <= end && addr % PAGE_SIZE + size <= PAGE_SIZE
    ensures addr < end ==> size > 0
    ensures var next := addr + size;
            next < end ==> Fits(next, if next + PAGE_SIZE > end then end - next else PAGE_SIZE, end)
  {
    if addr + size < end { DivModIs(addr + size, PAGE_SIZE, addr / PAGE_SIZE + 1, 0); }
  }

  /** The page programs amount to one flat write of the data, or of a prefix of it after an error. */
  method Write(chip: Chip, data: seq<Cell>, writeAddr: nat) returns (ok: bool, ghost p: nat, ghost q: nat)
    requires IsFlash(chip) && writeAddr + |data| <= FLASH_SIZE
    modifies chip
    ensures IsFlash(chip)
    ensures ok ==> chip.Wrote(old(chip.Now()), writeAddr, data, |data|)
    ensures !ok ==> chip.Stopped(old(chip.Now()), writeAddr, data, p, q)
  {
    ghost var was := chip.Now();
    chip.WroteNothing(writeAddr, data);
    hide Chip.Wrote;
    hide Chip.Stopped;
    var currentSize: nat := PageRoom(writeAddr);
    if currentSize > |data| { currentSize := |data|; }
    var currentAddr: nat := writeAddr;
    var endAddr := writeAddr + |data|;
    var offset: nat := 0;
    assert Fits(writeAddr, currentSize, endAddr);
    hide Fits;
    while true
      invariant IsFlash(chip) && chip.Wrote(was, writeAddr, data, offset)
      invariant currentAddr == writeAddr + offset && Fits(currentAddr, currentSize, endAddr)
      decreases |data| - offset
    {
      NextFits(currentAddr, currentSize, endAddr);
      ok, q := chip.WriteNext(writeAddr, data, offset, currentSize, was);
      if !ok {
        p := offset;
        return;
      }
      currentAddr := currentAddr + currentSize;
      offset := offset + currentSize;
      currentSize := if currentAddr + PAGE_SIZE > endAddr then endAddr - currentAddr else PAGE_SIZE;
      if currentAddr >= endAddr { break; }
    }
    p, q := |data|, |data|;
  }

  /** After a complete write to an erased range the range holds the data and nothing else changed. */
  lemma ErasedHoldsData(chip: Chip, was: Snapshot, data: seq<Cell>, addr: nat)
    requires IsFlash(chip) && chip.Wrote(was, addr, data, |data|)
    requires forall i | addr <= i < addr + |data| :: was.mem[i] == 0xFF
    ensures chip.mem[addr..addr + |data|] == data
    ensures forall i | 0 <= i < FLASH_SIZE && !(addr <= i < addr + |data|) :: chip.mem[i] == was.mem[i]
  {
    assert data[..|data|] == data;
    forall i | 0 <= i < |data|
      ensures chip.mem[addr + i] == data[i]
    {
      assert was.mem[addr + i] == 0xFF;
      assert And(0xFF, data[i]) == data[i];
    }
  }
}
