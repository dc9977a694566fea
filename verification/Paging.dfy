/**
 * The page directory that kernel.c builds, and the page walk of mm.h (32-bit paging, section 4.3 of the Intel SDM,
 * Volume 3A).
 */
module Paging {
  import opened Machine

  const PAGE_PRESENT: bv32 := 0x001
  const PAGE_SIZE_4MB: bv32 := 0x080
  const ENTRIES := 1024

  /** A directory or a page table: 1024 entries. */
  type Table = t: seq<bv32> | |t| == ENTRIES witness seq(1024, _ => 0)

  /** Physical memory, as far as the walk reads it: the table at each page-aligned address. */
  type Memory = bv32 -> Table

  /** An address or entry without its low twelve bits. */
  function Frame(x: bv32): bv32 { x & !0xFFF }

  /** The entry that ten bits of an address select. */
  function Entry(t: Table, index: bv32): bv32
    requires index < 1024
  {
    IndexInRange(index);
    t[index as int]
  }

  lemma IndexInRange(index: bv32)
    requires index < 1024
    ensures index as int < ENTRIES
  {
  }

  function PdIndex(v: bv32): (i: bv32)
    ensures i < 1024
  {
    (v >> 22) & 0x3FF
  }

  function PtIndex(v: bv32): (i: bv32)
    ensures i < 1024
  {
    (v >> 12) & 0x3FF
  }

  predicate Present(entry: bv32) { entry & PAGE_PRESENT != 0 }

  predicate LargePage(pde: bv32) { Present(pde) && pde & PAGE_SIZE_4MB != 0 }

  predicate TablePointer(pde: bv32) { Present(pde) && pde & PAGE_SIZE_4MB == 0 }

  function InLargePage(pde: bv32, v: bv32): bv32 { (pde & 0xFFC00000) | (v & 0x003FFFFF) }

  function InPage(pte: bv32, v: bv32): bv32 { Frame(pte) | (v & 0xFFF) }

  /** The walk from a directory entry on; 0 stands for an address that is not mapped. */
  function FromPde(pde: bv32, mem: Memory, v: bv32): bv32 {
    if !Present(pde) then 0
    else if pde & PAGE_SIZE_4MB != 0 then InLargePage(pde, v)
    else
      var pte := Entry(mem(Frame(pde)), PtIndex(v));
      if !Present(pte) then 0 else InPage(pte, v)
  }

  /** `virt_to_phys`. */
  function VirtToPhys(paging: bool, cr3: bv32, mem: Memory, v: bv32): bv32 {
    if !paging then v else FromPde(Entry(mem(Frame(cr3)), PdIndex(v)), mem, v)
  }

  // ---------------------------------------------------------------- the directory built at boot

  /** The entry for the `i`-th 4 MB: its base (in 32 bits), present, writable, 4 MB. */
  function BootEntry(i: bv32): bv32 { (i << 22) | 0x83 }

  /** Its bits: the number of the 4 MB in the upper ten, then present, writable and 4 MB, and none else. */
  lemma BootEntryBits(i: bv32)
    requires i < 1024
    ensures BootEntry(i) >> 22 == i && BootEntry(i) & 0x3FFFFF == 0x01 | 0x02 | 0x80
  {
  }

  ghost predicate BootDirectory(t: seq<bv32>) {
    |t| == ENTRIES && forall i :: 0 <= i < ENTRIES ==> t[i] == BootEntry(i as bv32)
  }

  /**
   * The product that makes the base of an entry is an `int` in C: from entry 512 on it overflows, which leaves its
   * value to the compiler. Reduced modulo 2^32, as the machine does and as it is modelled here, it is the base for
   * every entry.
   */
  lemma ProductOverflows(i: nat)
    requires i < ENTRIES
    ensures I32(i * 4 * 1024 * 1024) == i * 4 * 1024 * 1024 <==> i < 512
    ensures U32(i * 4 * 1024 * 1024) == i * 0x40_0000
  {
  }

  method SetupPaging(page_directory: array<bv32>)
    requires page_directory.Length == ENTRIES
    modifies page_directory
    ensures BootDirectory(page_directory[..])
  {
    for i := 0 to 1024
      invariant forall j :: 0 <= j < i ==> page_directory[j] == BootEntry(j as bv32)
    {
      Scaled(i as bv32);
      page_directory[i] := ((i as bv32) * 4 * 1024 * 1024) | 0x83;
    }
  }

  lemma Scaled(i: bv32)
    ensures i * 4 * 1024 * 1024 == i << 22
  {
  }

  lemma RoundTrip(i: bv32)
    requires i < 1024
    ensures i as int < ENTRIES && (i as int) as bv32 == i
  {
    IndexInRange(i);
  }

  /** With the directory built at boot, the walk is the identity on all addresses, paging on or off. */
  lemma BootIdentity(paging: bool, cr3: bv32, mem: Memory, v: bv32)
    requires BootDirectory(mem(Frame(cr3)))
    ensures VirtToPhys(paging, cr3, mem, v) == v
  {
    RoundTrip(PdIndex(v));
    EntryBits(v);
  }

  lemma EntryBits(v: bv32)
    ensures LargePage(BootEntry(PdIndex(v))) && InLargePage(BootEntry(PdIndex(v)), v) == v
  {
  }

  // ---------------------------------------------------------------- any directory

  /** The dword at an address of memory. */
  function DwordAt(mem: Memory, a: bv32): bv32 { Entry(mem(Frame(a)), PtIndex(a << 10)) }

  /** Which 4 MB of the address space, and which 4 KB of those. */
  function Slot4MB(v: bv32): bv32 { v / 0x40_0000 }

  function Slot4KB(v: bv32): bv32 { v / 0x1000 % 0x400 }

  predicate Bit0(e: bv32) { e % 2 == 1 }

  predicate Bit7(e: bv32) { e / 0x80 % 2 == 1 }

  /** The base of a 4 MB or a 4 KB page plus the offset of the address in the page. */
  function In4MB(base: bv32, v: bv32): bv32 { base / 0x40_0000 * 0x40_0000 + v % 0x40_0000 }

  function In4KB(base: bv32, v: bv32): bv32 { base / 0x1000 * 0x1000 + v % 0x1000 }

  /** The dword number `i` of the page at `base`. */
  function DwordOf(mem: Memory, base: bv32, i: bv32): bv32 { DwordAt(mem, base / 0x1000 * 0x1000 + 4 * i) }

  /**
   * With paging on: the directory holds four bytes per 4 MB behind CR3, a table four bytes per 4 KB; an address is
   * translated to the base of its page plus its offset in the page, of 4 MB or 4 KB.
   */
  lemma PageTranslates(cr3: bv32, mem: Memory, v: bv32)
    ensures var pde := DwordOf(mem, cr3, Slot4MB(v));
      var pte := DwordOf(mem, pde, Slot4KB(v));
      VirtToPhys(true, cr3, mem, v) ==
        if !Bit0(pde) then 0 else if Bit7(pde) then In4MB(pde, v) else if !Bit0(pte) then 0 else In4KB(pte, v)
  {
    hide Slot4MB, Slot4KB, Bit0, Bit7, In4MB, In4KB;
    hide Frame, Entry, DwordOf, FromPde, PdIndex, PtIndex, Present, LargePage, TablePointer, InLargePage, InPage;
    Indices(v);
    SlotAddress(mem, cr3, PdIndex(v));
    var pde := Entry(mem(Frame(cr3)), PdIndex(v));
    SlotAddress(mem, pde, PtIndex(v));
    var pte := Entry(mem(Frame(pde)), PtIndex(v));
    Walk(pde, mem, v);
    EntryKinds(pde);
    EntryKinds(pte);
    Sums(pde, v);
    Sums(pte, v);
  }

  lemma Indices(v: bv32)
    ensures Slot4MB(v) == PdIndex(v) && Slot4KB(v) == PtIndex(v)
  {
  }

  lemma SlotAddress(mem: Memory, table: bv32, i: bv32)
    requires i < 1024
    ensures DwordOf(mem, table, i) == Entry(mem(Frame(table)), i)
  {
    hide Entry;
    SlotBits(table, i);
  }

  lemma SlotBits(table: bv32, i: bv32)
    requires i < 1024
    ensures var a := table / 0x1000 * 0x1000 + 4 * i; Frame(a) == Frame(table) && PtIndex(a << 10) == i
  {
    SlotOr(table, i);
    OrBits(table, i);
  }

  lemma SlotOr(table: bv32, i: bv32)
    requires i < 1024
    ensures table / 0x1000 * 0x1000 + 4 * i == Frame(table) | (i << 2)
  {
  }

  lemma OrBits(table: bv32, i: bv32)
    requires i < 1024
    ensures var a := Frame(table) | (i << 2); Frame(a) == Frame(table) && PtIndex(a << 10) == i
  {
  }

  lemma EntryKinds(e: bv32)
    ensures Bit0(e) <==> Present(e)
    ensures LargePage(e) <==> Bit0(e) && Bit7(e)
    ensures TablePointer(e) <==> Bit0(e) && !Bit7(e)
  {
  }

  lemma Sums(e: bv32, v: bv32)
    ensures InLargePage(e, v) == In4MB(e, v) && InPage(e, v) == In4KB(e, v)
  {
  }

  /** The addresses share a page of a large entry or, behind a table, a page of 4 KB. */
  predicate SamePageOf(pde: bv32, v: bv32, w: bv32) {
    PdIndex(v) == PdIndex(w) && (TablePointer(pde) ==> PtIndex(v) == PtIndex(w))
  }

  /** The translations differ in just the bits in which the addresses do, or neither address is mapped. */
  predicate Window(p: bv32, q: bv32, v: bv32, w: bv32) {
    p ^ q == v ^ w || p == q == 0
  }

  /** Whatever the tables hold, a page is mapped as a whole, bit by bit, or not at all. */
  lemma PagesAreWindows(cr3: bv32, mem: Memory, v: bv32, w: bv32)
    requires SamePageOf(Entry(mem(Frame(cr3)), PdIndex(v)), v, w)
    ensures Window(VirtToPhys(true, cr3, mem, v), VirtToPhys(true, cr3, mem, w), v, w)
  {
    hide Entry, Frame, FromPde, PdIndex, PtIndex, LargePage, TablePointer, Window;
    EntryIsWindow(Entry(mem(Frame(cr3)), PdIndex(v)), mem, v, w);
  }

  lemma EntryIsWindow(pde: bv32, mem: Memory, v: bv32, w: bv32)
    requires SamePageOf(pde, v, w)
    ensures Window(FromPde(pde, mem, v), FromPde(pde, mem, w), v, w)
  {
    hide Entry, Frame, PdIndex, PtIndex, Window, FromPde, Present, LargePage, TablePointer, InLargePage, InPage;
    Walk(pde, mem, v);
    Walk(pde, mem, w);
    if LargePage(pde) {
      LargeOffsets(pde, v, w);
    } else if TablePointer(pde) && Present(Entry(mem(Frame(pde)), PtIndex(v))) {
      SmallOffsets(Entry(mem(Frame(pde)), PtIndex(v)), v, w);
    } else {
      NoWindow(v, w);
    }
  }

  lemma NoWindow(v: bv32, w: bv32)
    ensures Window(0, 0, v, w)
  {
  }

  lemma LargeOffsets(pde: bv32, v: bv32, w: bv32)
    requires PdIndex(v) == PdIndex(w)
    ensures Window(InLargePage(pde, v), InLargePage(pde, w), v, w)
  {
  }

  lemma SmallOffsets(pte: bv32, v: bv32, w: bv32)
    requires PdIndex(v) == PdIndex(w) && PtIndex(v) == PtIndex(w)
    ensures Window(InPage(pte, v), InPage(pte, w), v, w)
  {
  }

  /** The walk, case by case. */
  lemma Walk(pde: bv32, mem: Memory, v: bv32)
    ensures FromPde(pde, mem, v) ==
      if LargePage(pde) then InLargePage(pde, v)
      else
        var pte := Entry(mem(Frame(pde)), PtIndex(v));
        if TablePointer(pde) && Present(pte) then InPage(pte, v) else 0
  {
    hide Entry, Frame, PtIndex;
  }

  // ---------------------------------------------------------------- 4 KB pages instead of a 4 MB page

  /** The table `pt` maps the 4 MB at the base of `pde` frame by frame. */
  ghost predicate Maps(pt: Table, pde: bv32) {
    forall i: bv32 :: i < 1024 ==>
      Present(Entry(pt, i)) && Frame(Entry(pt, i)) == (pde & 0xFFC00000) | (i << 12)
  }

  /** Behind a table pointer, a table that maps the large page translates as the large page does. */
  lemma SamePage(pde: bv32, pde': bv32, mem: Memory, mem': Memory, v: bv32)
    requires LargePage(pde) && TablePointer(pde') && Maps(mem'(Frame(pde')), pde)
    ensures FromPde(pde', mem', v) == FromPde(pde, mem, v)
  {
    hide *;
    var pt := mem'(Frame(pde'));
    MapsAt(pt, pde, PtIndex(v));
    Walk(pde, mem, v);
    Walk(pde', mem', v);
    OneKind(pde');
    FrameBits(pde, Entry(pt, PtIndex(v)), v);
  }

  lemma MapsAt(pt: Table, pde: bv32, i: bv32)
    requires Maps(pt, pde) && i < 1024
    ensures Present(Entry(pt, i)) && Frame(Entry(pt, i)) == (pde & 0xFFC00000) | (i << 12)
  {
    hide Frame, Entry;
  }

  lemma OneKind(pde: bv32)
    ensures !(LargePage(pde) && TablePointer(pde))
  {
  }

  lemma FrameBits(pde: bv32, pte: bv32, v: bv32)
    requires Frame(pte) == (pde & 0xFFC00000) | (PtIndex(v) << 12)
    ensures InPage(pte, v) == InLargePage(pde, v)
  {
  }

  /** Only the pages at `a` and `b` differ. */
  ghost predicate SameElsewhere(mem: Memory, mem': Memory, a: bv32, b: bv32) {
    forall x :: x != a && x != b ==> mem'(x) == mem(x)
  }

  /**
   * Replacing a present 4 MB entry by a present page table of 1024 present 4 KB frames from the same base leaves every
   * translation unchanged, as long as no other entry leads through one of the two pages that were rewritten.
   */
  lemma SplitLargePage(cr3: bv32, mem: Memory, mem': Memory, slot: bv32, v: bv32)
    requires slot < 1024
    requires LargePage(Entry(mem(Frame(cr3)), slot)) && TablePointer(Entry(mem'(Frame(cr3)), slot))
    requires Maps(mem'(Frame(Entry(mem'(Frame(cr3)), slot))), Entry(mem(Frame(cr3)), slot))
    requires SameElsewhere(mem, mem', Frame(cr3), Frame(Entry(mem'(Frame(cr3)), slot)))
    requires forall i: bv32 :: i < 1024 && i != slot ==> Entry(mem'(Frame(cr3)), i) == Entry(mem(Frame(cr3)), i)
    requires forall i: bv32 :: i < 1024 && i != slot && TablePointer(Entry(mem(Frame(cr3)), i)) ==>
      Frame(Entry(mem(Frame(cr3)), i)) !in {Frame(cr3), Frame(Entry(mem'(Frame(cr3)), slot))}
    ensures VirtToPhys(true, cr3, mem', v) == VirtToPhys(true, cr3, mem, v)
  {
    hide Frame, Entry, Maps, FromPde, PdIndex, PtIndex;
    var i := PdIndex(v);
    var pde, pde' := Entry(mem(Frame(cr3)), i), Entry(mem'(Frame(cr3)), i);
    if i == slot {
      SamePage(pde, pde', mem, mem', v);
    } else {
      SameWalk(pde, mem, mem', v);
    }
  }

  lemma SameWalk(pde: bv32, mem: Memory, mem': Memory, v: bv32)
    requires TablePointer(pde) ==> mem'(Frame(pde)) == mem(Frame(pde))
    ensures FromPde(pde, mem', v) == FromPde(pde, mem, v)
  {
  }
}
