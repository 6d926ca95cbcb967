/** The pages task_create_user opens to ring 3 (kernel/proc/task.c): that of the first byte of the user stack, that of
    the entry point, and the one after it. */
module UserMemory {
  import opened Words
  import opened Paging
  import FrameAllocator

  const STACK_SIZE := 4096

  /** Ring 3 may read and write every byte of the user stack. */
  ghost predicate StackOpen(pd: seq<u32>, ram: seq<u32>, ustack: u32)
    requires |pd| == ENTRIES && ustack + STACK_SIZE <= TWO32
  {
    forall a :: ustack <= a < ustack + STACK_SIZE ==> UserWrites(pd, ram, a / PAGE_SIZE)
  }

  /** The pages of the stack are mapped, and writable for the kernel. */
  ghost predicate StackMapped(f: seq<u32>, ustack: u32)
    requires |f| == PAGES && ustack + STACK_SIZE <= TWO32
  {
    forall a :: ustack <= a < ustack + STACK_SIZE ==> Present(f[a / PAGE_SIZE]) && Writable(f[a / PAGE_SIZE])
  }

  /** The page of the last byte of the stack, where the first push writes. */
  function TopPage(ustack: u32): (p: nat)
    requires ustack + STACK_SIZE <= TWO32
    ensures p < PAGES && (p == ustack / PAGE_SIZE <==> ustack % PAGE_SIZE == 0)
  {
    (ustack + STACK_SIZE - 1) / PAGE_SIZE
  }

  /** The page of the entry point and the next one. */
  predicate CodePage(entry: u32, p: nat) { p == entry / PAGE_SIZE || p == (entry / PAGE_SIZE + 1) % PAGES }

  /** Flat map `g` is `f` with every present page of the three opened to ring 3, and no other. */
  ghost predicate Opened(f: seq<u32>, g: seq<u32>, ustack: u32, entry: u32) {
    && |f| == |g| == PAGES
    && forall p :: 0 <= p < PAGES ==>
         g[p] == if (p == ustack / PAGE_SIZE || CodePage(entry, p)) && Present(f[p]) then WithUser(f[p]) else f[p]
  }

  /** Marking the page at `va` user, if it is present. */
  ghost function Given(f: seq<u32>, p: nat): seq<u32>
    requires p < |f|
  {
    if Present(f[p]) then f[p := WithUser(f[p])] else f
  }

  lemma GivenThree(f: seq<u32>, ustack: u32, entry: u32)
    requires |f| == PAGES
    ensures var e := entry / PAGE_SIZE;
            Opened(f, Given(Given(Given(f, ustack / PAGE_SIZE), e), (e + 1) % PAGES), ustack, entry)
  {
    var s, e := ustack / PAGE_SIZE, entry / PAGE_SIZE;
    forall q | 0 <= q < PAGES
      ensures WithUser(WithUser(f[q])) == WithUser(f[q]) && Present(WithUser(f[q])) == Present(f[q])
    {
      EntryBits(0, f[q]);
    }
    hide WithUser, Present;
  }

  /** The part of task_create_user that opens memory to ring 3. The user stack is usable in ring 3 if and only if it is
      page-aligned, or the page of its top was open already, or happens to be one of the two code pages. */
  method OpenToUser(vm: PageMap, ustack: u32, entry: u32)
    requires vm.Valid() && ustack + STACK_SIZE <= TWO32
    modifies vm.pd, vm.ram
    ensures vm.Valid() && Opened(old(vm.Pages()), vm.Pages(), ustack, entry)
    ensures StackMapped(old(vm.Pages()), ustack) ==>
              (StackOpen(vm.pd[..], vm.ram[..], ustack) <==>
                 ustack % PAGE_SIZE == 0 || User(old(vm.Pages())[TopPage(ustack)]) || CodePage(entry, TopPage(ustack)))
    ensures StackMapped(old(vm.Pages()), ustack) ==>
              (StackOpen(vm.pd[..], vm.ram[..], ustack) <==> UserWrites(vm.pd[..], vm.ram[..], TopPage(ustack)))
  {
    hide PageMap.Valid, PageMap.Pages, UserAccess, UserWrites, Opened, StackOpen, WithUser, Present, Writable, User,
         TopPage, CodePage, Given, StackMapped;
    ValidPages(vm);
    ghost var f := vm.Pages();
    GivenThree(f, ustack, entry);
    var off := 0;
    while off < STACK_SIZE
      invariant off == 0 || off == STACK_SIZE
      invariant vm.Valid() && vm.Pages() == if off == 0 then f else Given(f, ustack / PAGE_SIZE)
    {
      Mark(vm, ustack + off);
      off := off + PAGE_SIZE;
    }
    var page := entry - entry % PAGE_SIZE;
    NextPage(entry);
    Mark(vm, page);
    Mark(vm, (page + PAGE_SIZE) % TWO32);
    if StackMapped(f, ustack) { StackOpenNow(vm, f, ustack, entry); }
  }

  /** vmm_set_user, its answer ignored. */
  method Mark(vm: PageMap, va: u32)
    requires vm.Valid()
    modifies vm.pd, vm.ram
    ensures vm.Valid() && vm.Pages() == Given(old(vm.Pages()), va / PAGE_SIZE)
  {
    hide WellFormed, Flat, FrameAllocator.UsedSet, PresentIn, UserAccess, UserWrites, Succeeds, VmStep, WithUser,
         Present, Writable, User;
    var ok := vm.SetUser(va);
  }

  lemma ValidPages(vm: PageMap)
    requires vm.Valid()
    ensures vm.pd.Length == ENTRIES && |vm.Pages()| == PAGES
  {
  }

  lemma StackOpenNow(vm: PageMap, f: seq<u32>, ustack: u32, entry: u32)
    requires vm.Valid() && ustack + STACK_SIZE <= TWO32 && |f| == PAGES && Opened(f, vm.Pages(), ustack, entry)
    requires StackMapped(f, ustack)
    ensures StackOpen(vm.pd[..], vm.ram[..], ustack) <==>
              ustack % PAGE_SIZE == 0 || User(f[TopPage(ustack)]) || CodePage(entry, TopPage(ustack))
    ensures StackOpen(vm.pd[..], vm.ram[..], ustack) <==> UserWrites(vm.pd[..], vm.ram[..], TopPage(ustack))
  {
    hide WellFormed, Flat, UserAccess, UserWrites, WithUser, Present, Writable, User, Opened, StackOpen, StackMapped;
    StackOpenIff(vm.pd[..], vm.ram[..], vm.pmm.Used(), f, ustack, entry);
  }

  lemma NextPage(entry: u32)
    ensures var page := entry - entry % PAGE_SIZE;
            && page / PAGE_SIZE == entry / PAGE_SIZE
            && (page + PAGE_SIZE) % TWO32 / PAGE_SIZE == (entry / PAGE_SIZE + 1) % PAGES
  {
  }

  lemma StackOpenIff(pd: seq<u32>, ram: seq<u32>, used: set<nat>, f: seq<u32>, ustack: u32, entry: u32)
    requires WellFormed(pd, ram, used) && ustack + STACK_SIZE <= TWO32 && |f| == PAGES
    requires Opened(f, Flat(pd, ram), ustack, entry)
    requires StackMapped(f, ustack)
    ensures StackOpen(pd, ram, ustack) <==>
              ustack % PAGE_SIZE == 0 || User(f[TopPage(ustack)]) || CodePage(entry, TopPage(ustack))
    ensures StackOpen(pd, ram, ustack) <==> UserWrites(pd, ram, TopPage(ustack))
  {
    hide WellFormed, Flat, UserAccess, UserWrites, WithUser, Present, Writable, User;
    var s, top := ustack / PAGE_SIZE, TopPage(ustack);
    PageOpenIff(pd, ram, used, f, ustack, ustack, entry);
    PageOpenIff(pd, ram, used, f, ustack + STACK_SIZE - 1, ustack, entry);
    forall a | ustack <= a < ustack + STACK_SIZE ensures a / PAGE_SIZE == s || a / PAGE_SIZE == top {
    }
  }

  /** Whether ring 3 may write byte `a` of the stack afterwards. */
  lemma PageOpenIff(pd: seq<u32>, ram: seq<u32>, used: set<nat>, f: seq<u32>, a: u32, ustack: u32, entry: u32)
    requires WellFormed(pd, ram, used) && |f| == PAGES && Opened(f, Flat(pd, ram), ustack, entry)
    requires Present(f[a / PAGE_SIZE]) && Writable(f[a / PAGE_SIZE])
    ensures |pd| == ENTRIES
    ensures var p := a / PAGE_SIZE;
            UserWrites(pd, ram, p) <==> p == ustack / PAGE_SIZE || User(f[p]) || CodePage(entry, p)
  {
    hide UserAccess, UserWrites, WithUser, Present, Writable, User, FrameOf;
    var p := a / PAGE_SIZE;
    EntryBits(0, f[p]);
    AccessIsFlat(pd, ram, used, p);
  }
}
