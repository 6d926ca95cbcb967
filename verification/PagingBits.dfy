/** The words of Paging, written there with quotients, remainders and sums, are the C expressions of
    kernel/mm/vmm.c and kernel/include/matryoshka/vmm.h. Shifts are quotients by powers of two. */
module PagingBits {
  import opened Words
  import opened Bitwise
  import opened Paging

  lemma Zero(a: nat)
    ensures And(a, 0) == 0 && Or(a, 0) == a == Or(0, a)
  {
  }

  /** e & PTE_PRESENT, e & PTE_WRITABLE, e & PTE_USER */
  lemma FlagTests(e: u32)
    ensures Present(e) <==> And(e, 1) != 0
    ensures Writable(e) <==> And(e, 2) != 0
    ensures User(e) <==> And(e, 4) != 0
  {
    hide And;
    Zero(e / 2);
    Zero(e / 4);
    Zero(e / 8);
    AndHalves(e, 1);
    AndHalves(e, 2);
    AndHalves(e / 2, 1);
    AndHalves(e, 4);
    AndHalves(e / 2, 2);
    AndHalves(e / 4, 1);
  }

  /** e | PTE_USER */
  lemma OrUser(e: u32)
    ensures WithUser(e) == Or(e, 4)
  {
    hide Or, High, Low;
    Zero(e / 8);
    SmallOr(e % 8);
    Cut3(e);
    Cut3(4);
    Cut3(WithUser(e));
    Cut3(Or(e, 4));
    OrCut(e, 4, 3);
    Rebuild(WithUser(e), Or(e, 4), 3);
  }

  lemma SmallOr(r: nat)
    requires r < 8
    ensures Or(r, 4) == if r / 4 % 2 == 1 then r else r + 4
  {
    hide Or;
    OrHalves(r, 4);
    OrHalves(r / 2, 2);
    OrHalves(r / 4, 1);
    Zero(r / 8);
  }

  /** Joining an upper part shifted left by 12 with 12 low bits. */
  lemma Join12(a: nat, f: nat)
    requires f < 0x1000
    ensures Or(a * 0x1000, f) == a * 0x1000 + f
  {
    var x := a * 0x1000;
    hide Or, High, Low;
    Zero(a);
    Zero(f);
    Cut12(x);
    Cut12(f);
    Cut12(x + f);
    OrCut(x, f, 12);
    assert x / 0x1000 == a && (x + f) / 0x1000 == a && x % 0x1000 == 0 && (x + f) % 0x1000 == f;
    Rebuild(Or(x, f), x + f, 12);
  }

  /** A mask of twenty ones above twelve zeros keeps the upper part. */
  lemma UpperMask(e: u32, mask: nat)
    requires mask / 0x1000 == 0xF_FFFF && mask % 0x1000 == 0
    ensures And(e, mask) == e / 0x1000 * 0x1000
  {
    hide And, High, Low, Ones;
    var q, x := e / 0x1000, e / 0x1000 * 0x1000;
    Zero(e % 0x1000);
    Cut12(e);
    Cut12(mask);
    Cut12(x);
    Cut12(And(e, mask));
    Cut20(q);
    AndCut(e, mask, 12);
    AndOnes(q, 20);
    Shifted(q);
    Rebuild(And(e, mask), x, 12);
  }

  lemma Shifted(q: nat)
    ensures q * 0x1000 / 0x1000 == q && q * 0x1000 % 0x1000 == 0
  {
  }

  /** e & PTE_ADDR_MASK, e & 0xFFF */
  lemma Masks(e: u32)
    ensures And(e, 0xFFFF_F000) == e - e % 0x1000 == FrameOf(e) * 0x1000
    ensures And(e, 0xFFF) == e % 0x1000
  {
    hide And, Low, Ones;
    UpperMask(e, 0xFFFF_F000);
    Cut12(e);
    AndOnes(e, 12);
  }

  /** (physical_addr & PTE_ADDR_MASK) | (flags & 0xFFF) */
  lemma PageEntryWord(pa: u32, flags: u32)
    ensures PageEntry(pa, flags) == Or(And(pa, 0xFFFF_F000), And(flags, 0xFFF))
  {
    Masks(pa);
    Masks(flags);
    Join12(FrameOf(pa), flags % 0x1000);
  }

  /** pt_phys | PTE_PRESENT | PTE_WRITABLE */
  lemma TableEntryWord(frame: nat)
    requires frame < PAGES
    ensures TableEntry(frame) == Or(Or(frame * 0x1000, 1), 2)
  {
    hide Or;
    Join12(frame, 3);
    Join12(frame, 1);
    assert (4 * (frame * 0x400) + 1) % 4 == 1;
    OrTwo(frame * 0x1000 + 1);
  }

  /** phys | PTE_PRESENT | PTE_WRITABLE, where phys is the address of page `p` itself */
  lemma IdentityEntryWord(p: nat)
    requires p < PAGES
    ensures IdentityEntry(p) == Or(Or(p * 0x1000, 1), 2)
  {
    hide Or;
    TableEntryWord(p);
  }

  lemma OrTwo(a: nat)
    requires a % 4 == 1
    ensures Or(a, 2) == a + 2
  {
    hide Or;
    OrHalves(a, 2);
    OrHalves(a / 2, 1);
    Zero(a / 4);
  }

  /** VMM_PD_INDEX, VMM_PT_INDEX, VMM_OFFSET */
  lemma IndexWords(va: u32)
    ensures And(va / 0x40_0000, 0x3FF) == va / TABLE_SPAN == va / PAGE_SIZE / ENTRIES
    ensures And(va / 0x1000, 0x3FF) == va / PAGE_SIZE % ENTRIES
    ensures And(va, 0xFFF) == va % PAGE_SIZE
  {
    hide And, High, Low, Ones;
    Cut10(va / 0x40_0000);
    Cut10(va / 0x1000);
    AndOnes(va / 0x40_0000, 10);
    AndOnes(va / 0x1000, 10);
    Masks(va);
  }
}
