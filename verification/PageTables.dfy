// Two-level 32-bit page tables as values: entries, tables, physical memory seen as one table of
// 1024 entries per frame, and the translation of a virtual page through a directory
// (section 4.3 of the Intel 64 and IA-32 Architectures Software Developer's Manual, Volume 3A).
module PageTables {
  import opened Machine

  const ENTRIES: nat := 1024
  const KERNEL_PT_PDT_IDX: nat := 768
  const KERNEL_TMP_PT_IDX: nat := 1023
  const KERNEL_START_VADDR: u32 := 0xC000_0000
  const KERNEL_TMP_VADDR: u32 := 0xC03F_F000
  const WINDOW_PAGE: nat := 0xC03FF

  type u8 = x: int | 0 <= x < 0x100
  type u16 = x: int | 0 <= x < 0x1_0000

  // struct pde and struct pte: the flag byte, the byte whose high nibble holds address bits 12 to 15,
  // and address bits 16 to 31.
  datatype Entry = Entry(config: bv8, middle: u8, high: u16)

  const ZERO_ENTRY: Entry := Entry(0, 0, 0)

  type Table = t: seq<Entry> | |t| == 1024 witness seq(1024, _ => ZERO_ENTRY)

  function ZeroTable(): Table
  {
    seq(1024, _ => ZERO_ENTRY)
  }

  type Memory = m: seq<Table> | |m| == 0x10_0000 witness seq(0x10_0000, _ => ZeroTable())

  // IS_ENTRY_PRESENT: the logical conjunction with 1 makes any nonzero flag byte count as present.
  predicate Present(e: Entry)
  {
    e.config != 0
  }

  // The flags the processor reads.
  predicate PFlag(e: Entry) { e.config & 0x01 != 0 }

  predicate Writable(e: Entry) { e.config & 0x02 != 0 }

  predicate User(e: Entry) { e.config & 0x04 != 0 }

  predicate WriteThrough(e: Entry) { e.config & 0x08 != 0 }

  // Cache disable, accessed and dirty.
  predicate OtherFlags(e: Entry) { e.config & 0x70 != 0 }

  predicate LargePage(e: Entry) { e.config & 0x80 != 0 }

  // Entries on which the software test and the processor agree.
  predicate Sound(e: Entry)
  {
    Present(e) ==> PFlag(e)
  }

  function CreatePdtEntry(paddr: u32, ps: bv8, rw: bv8, pl: bv8): (e: Entry)
  {
    Entry(((ps & 1) << 7) | (1 << 3) | ((pl & 1) << 2) | ((rw & 1) << 1) | 1,
          paddr / 0x1000 % 0x10 * 0x10, paddr / 0x1_0000 % 0x1_0000)
  }

  function CreatePtEntry(paddr: u32, rw: bv8, pl: bv8): (e: Entry)
  {
    Entry((1 << 3) | ((1 & pl) << 2) | ((1 & rw) << 1) | 1,
          paddr / 0x1000 % 0x10 * 0x10, paddr / 0x1_0000 % 0x1_0000)
  }

  // Address bits 16 to 31 and bits 12 to 15 make a page-aligned word.
  lemma AddressParts(high: u16, nibble: nat)
    requires nibble < 0x10
    ensures high * 0x1_0000 + nibble * 0x1000 == (high * 0x10 + nibble) * 0x1000 < 0x1_0000_0000
    ensures (high * 0x1_0000 + nibble * 0x1000) % 0x1000 == 0
    ensures (high * 0x1_0000 + nibble * 0x1000) / 0x1000 == high * 0x10 + nibble
  {
    var q := high * 0x10 + nibble;
    assert high * 0x1_0000 + nibble * 0x1000 == q * 0x1000;
    assert (q * 0x1000) % 0x1000 == 0 && (q * 0x1000) / 0x1000 == q;
  }

  // get_pt_paddr on one entry.
  function GetPtPaddr(e: Entry): (paddr: u32)
    ensures paddr % 0x1000 == 0
  {
    AddressParts(e.high, e.middle / 0x10);
    e.high * 0x1_0000 + e.middle / 0x10 * 0x1000
  }

  function Frame(e: Entry): (f: nat)
    ensures f < 0x10_0000
  {
    GetPtPaddr(e) / 0x1000
  }

  // The two parts of an address that an encoder stores.
  lemma AddressSplit(paddr: u32)
    ensures
      var q := paddr / 0x1000;
      && q % 0x10 * 0x10 < 0x100 && q % 0x10 * 0x10 / 0x10 == q % 0x10
      && paddr / 0x1_0000 % 0x1_0000 == q / 0x10 && q / 0x10 * 0x10 + q % 0x10 == q
      && AlignDown(paddr, 0x1000) == q * 0x1000
  {
    var q := paddr / 0x1000;
    var n := q % 0x10;
    assert n * 0x10 / 0x10 == n;
    assert paddr == q * 0x1000 + paddr % 0x1000;
  }

  // Encoding keeps the frame of the address and drops the offset, whatever the flags.
  lemma EntryRoundTrip(paddr: u32, rw: bv8, pl: bv8)
    ensures GetPtPaddr(CreatePtEntry(paddr, rw, pl)) == AlignDown(paddr, 0x1000)
    ensures forall ps :: GetPtPaddr(CreatePdtEntry(paddr, ps, rw, pl)) == AlignDown(paddr, 0x1000)
    ensures Frame(CreatePtEntry(paddr, rw, pl)) == Frame(CreatePdtEntry(paddr, 0, rw, pl)) == paddr / 0x1000
  {
    AddressSplit(paddr);
    AddressParts(paddr / 0x1000 / 0x10, paddr / 0x1000 % 0x10);
  }

  // Encoding sets exactly the requested flags, besides present and write-through; in the byte after them, where
  // the global flag is, it sets none.
  lemma EntryFlags(paddr: u32, rw: bv8, pl: bv8)
    ensures
      var e := CreatePtEntry(paddr, rw, pl);
      && Present(e) && PFlag(e) && WriteThrough(e) && !OtherFlags(e) && !LargePage(e)
      && (Writable(e) <==> rw & 1 == 1) && (User(e) <==> pl & 1 == 1) && e.middle % 0x10 == 0
    ensures forall ps ::
      var e := CreatePdtEntry(paddr, ps, rw, pl);
      && Present(e) && PFlag(e) && WriteThrough(e) && !OtherFlags(e) && (LargePage(e) <==> ps & 1 == 1)
      && (Writable(e) <==> rw & 1 == 1) && (User(e) <==> pl & 1 == 1) && e.middle % 0x10 == 0
  {
  }
}
