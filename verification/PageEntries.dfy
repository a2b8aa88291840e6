/**
 Page table entries and linear addresses (kern/mm/pmm.h, kern/mm/mmu.h), in the Sv39 format of
 section 4.4 of the RISC-V Privileged Architecture, version 1.12, as numbers.
 */
module PageEntries {

  const ENTRIES := 512
  const PGSIZE := 4096
  const PTE_U := 16

  // ---- Entries ----

  predicate Valid(pte: nat) {
    pte % 2 == 1
  }

  /** A valid entry with R, W or X set maps memory; without them it points to a table. */
  predicate Leaf(pte: nat) {
    pte / 2 % 8 != 0
  }

  /** PTE_ADDR: clears the ten flag bits and shifts left by two, in 64 bits. */
  function PteAddr(pte: nat): nat {
    pte / 1024 * 1024 * 4 % 0x1_0000_0000_0000_0000
  }

  /** The page an entry refers to: PPN of PTE_ADDR. */
  function Ppn(pte: nat): nat {
    PteAddr(pte) / PGSIZE
  }

  /** pte_create for flags below bit 10: the page number above the flags, and V set. */
  function PteCreate(ppn: nat, flags: nat): nat {
    ppn * 1024 + flags / 2 * 2 + 1
  }

  /**
   Reading back an entry: page and flags are as written, with V set, for any 44-bit page number,
   which stands from bit 10 on; the address is that of the page.
   */
  lemma EntryRoundTrip(ppn: nat, flags: nat)
    requires ppn < 0x1000_0000_0000 && flags < 1024
    ensures var pte := PteCreate(ppn, flags);
            && Valid(pte) && Ppn(pte) == ppn && pte % 1024 == flags / 2 * 2 + 1 && (Leaf(pte) <==> flags / 2 % 8 != 0)
            && pte / 1024 == ppn && PteAddr(pte) == 4096 * ppn
  {
    var h := flags / 2;
    var q := h / 8;
    assert h == 8 * q + h % 8;
    LowBits(ppn, h * 2 + 1);
    LowBit(ppn * 512 + h);
    LowThree(ppn * 64 + q, h % 8);
    AddressBits(ppn * 1024 + h * 2 + 1, ppn);
  }

  lemma LowBits(hi: nat, lo: nat)
    requires lo < 1024
    ensures (hi * 1024 + lo) / 1024 == hi && (hi * 1024 + lo) % 1024 == lo
  {
  }

  lemma LowBit(hi: nat)
    ensures (hi * 2 + 1) / 2 == hi && (hi * 2 + 1) % 2 == 1
  {
  }

  lemma LowThree(hi: nat, lo: nat)
    requires lo < 8
    ensures (hi * 8 + lo) % 8 == lo
  {
  }

  lemma AddressBits(pte: nat, ppn: nat)
    requires pte / 1024 == ppn < 0x1000_0000_0000
    ensures Ppn(pte) == ppn && PteAddr(pte) == 4096 * ppn
  {
    var x := ppn * 4096;
    assert pte / 1024 * 1024 * 4 == x;
    assert x < 0x1_0000_0000_0000_0000;
    assert x % 0x1_0000_0000_0000_0000 == x;
  }

  // ---- Addresses ----

  datatype Vpn = Vpn(i2: nat, i1: nat, i0: nat)

  /** The three indices of a linear address: PDX1, PDX0 and PTX. */
  function VpnOf(la: nat): Vpn {
    Vpn(la / 0x4000_0000 % ENTRIES, la / 0x20_0000 % ENTRIES, la / 0x1000 % ENTRIES)
  }

  /** Addresses share their indices exactly when bits 38 to 12 agree. */
  lemma VpnNamesPage(la: nat, lb: nat)
    ensures VpnOf(la) == VpnOf(lb) <==> la / PGSIZE % 0x800_0000 == lb / PGSIZE % 0x800_0000
  {
    VpnDigits(la);
    VpnDigits(lb);
  }

  lemma VpnDigits(la: nat)
    ensures var v := VpnOf(la); la / PGSIZE % 0x800_0000 == v.i2 * 0x4_0000 + v.i1 * 0x200 + v.i0
    ensures var v := VpnOf(la); v.i2 < 512 && v.i1 < 512 && v.i0 < 512
  {
    var n := la / PGSIZE;
    assert la / 0x20_0000 == n / 512 && la / 0x4000_0000 == n / 512 / 512;
    assert n == n / 512 * 512 + n % 512;
    var m := n / 512;
    assert m == m / 512 * 512 + m % 512;
    var k := m / 512;
    assert k == k / 512 * 512 + k % 512;
    assert n == k / 512 * 0x800_0000 + (k % 512 * 0x4_0000 + m % 512 * 512 + n % 512);
  }
}
