/** What the finished kernel and user tables allow, as the architecture translates through them. */
module VmPolicy {
  import opened Bits
  import opened SafeMem
  import opened PageTables
  import opened PageRanges
  import opened MapSteps
  import opened Runs
  import opened Sv39
  import opened VmInit

  /** The entry of an identity mapping. */
  function Identity(v: nat, attr: nat): Word
    requires attr < 1024 && v < 0x800_0000
  {
    LeafWord(v * 4096, attr)
  }

  /** First page past the heap. */
  function TopPage(L: Layout): nat {
    (L.maxaddr + 4095) / 4096
  }

  /** Pages of a mapping of `length` bytes at a page-aligned address. */
  predicate Covers(addr: Word, length: Word, v: nat) {
    addr / 4096 <= v < addr / 4096 + (length + 4095) / 4096
  }

  lemma SegmentLookup(log: seq<Event>, r: nat, addr: Word, length: Word, attr: nat, v: nat)
    requires addr % 4096 == 0 && addr <= 0x40_0000_0000 && length <= 0x3F_FFFF_0000 && attr < 1024 && v < 0x800_0000
    ensures Lookup(log + [Segment(r, addr, length, attr)], r, v)
            == if Covers(addr, length, v) then Identity(v, attr) else Lookup(log, r, v)
  {
    hide Lookup, LeafWord, FirstPage, PageCount;
    LookupLast(log, Segment(r, addr, length, attr), r, v);
    SegmentFits(addr, length);
    if Covers(addr, length, v) {
      IdentityPhys(addr, v);
    }
  }

  lemma IdentityPhys(addr: Word, v: nat)
    requires addr % 4096 == 0 && addr / 4096 <= v < 0x800_0000
    ensures PhysAt(addr, v - addr / 4096) == v * 4096
  {
    assert addr == addr / 4096 * 4096;
  }

  /** The kernel table, region by region; a later mapping wins over an earlier one. */
  function KernEntry(L: Layout, v: nat): Word
    requires WellLaid(L) && v < 0x800_0000
  {
    if L.datas / 4096 <= v < TopPage(L) then Identity(v, 198)
    else if L.interrupte / 4096 <= v < L.datas / 4096 then Identity(v, 234)
    else if L.ctxsws / 4096 <= v < L.ctxsws / 4096 + 2 then Identity(v, 234)
    else if L.start / 4096 <= v < L.ctxsws / 4096 then Identity(v, 234)
    else if v == 0x2500 then Identity(v, 198)
    else 0
  }

  lemma KernelTable(r: nat, L: Layout, v: nat)
    requires WellLaid(L) && v < 0x800_0000
    ensures Lookup(KernMaps(r, L), r, v) == KernEntry(L, v)
  {
    hide Lookup, Segment, Identity;
    var log0 := [Rooted(r)];
    var log1 := log0 + [Segment(r, UART_BASE, 0x1000, KERNEL_DATA)];
    var log2 := log1 + [Segment(r, L.start, L.ctxsws - L.start, KERNEL_CODE)];
    var log3 := log2 + [Segment(r, L.ctxsws, 0x2000, KERNEL_CODE)];
    var log4 := log3 + [Segment(r, L.interrupte, L.datas - L.interrupte, KERNEL_CODE)];
    var log5 := log4 + [Segment(r, L.datas, L.memheap - L.datas, KERNEL_DATA)];
    EmptyLookup(r, v);
    SegmentLookup(log0, r, UART_BASE, 0x1000, KERNEL_DATA, v);
    SegmentLookup(log1, r, L.start, L.ctxsws - L.start, KERNEL_CODE, v);
    SegmentLookup(log2, r, L.ctxsws, 0x2000, KERNEL_CODE, v);
    SegmentLookup(log3, r, L.interrupte, L.datas - L.interrupte, KERNEL_CODE, v);
    SegmentLookup(log4, r, L.datas, L.memheap - L.datas, KERNEL_DATA, v);
    SegmentLookup(log5, r, L.memheap, L.maxaddr - L.memheap, KERNEL_DATA, v);
  }

  lemma EmptyLookup(r: nat, v: nat)
    ensures Lookup([Rooted(r)], r, v) == 0
  {
    LookupLast([], Rooted(r), r, v);
    assert [] + [Rooted(r)] == [Rooted(r)];
  }

  /** The user table, region by region. */
  function UserEntry(L: Layout, v: nat): Word
    requires WellLaid(L) && v < 0x800_0000
  {
    if v == 0x3FF_FFFE then LeafWord(SWAPAREAADDR, 198)
    else if v == 0x3FF_FFFD then LeafWord(SWAPAREAADDR, 214)
    else if L.datas / 4096 <= v < L.memheap / 4096 then Identity(v, 210)
    else if L.interrupte / 4096 <= v < L.datas / 4096 then Identity(v, 250)
    else if L.ctxsws / 4096 <= v < L.ctxsws / 4096 + 2 then Identity(v, 234)
    else if L.start / 4096 <= v < L.ctxsws / 4096 then Identity(v, 250)
    else if v == 0x2500 then Identity(v, 214)
    else 0
  }

  lemma UserTable(r: nat, L: Layout, v: nat)
    requires WellLaid(L) && v < 0x800_0000
    ensures Lookup(UserMaps(r, L), r, v) == UserEntry(L, v)
  {
    hide Lookup, Segment, Identity, LeafWord, PhysAt, PageOf;
    var log0 := [Rooted(r)];
    var log1 := log0 + [Segment(r, UART_BASE, 0x1000, USER_STACK)];
    var log2 := log1 + [Segment(r, L.start, L.ctxsws - L.start, USER_CODE)];
    var log3 := log2 + [Segment(r, L.ctxsws, 0x2000, KERNEL_CODE)];
    var log4 := log3 + [Segment(r, L.interrupte, L.datas - L.interrupte, USER_CODE)];
    var log5 := log4 + [Segment(r, L.datas, L.memheap - L.datas, USER_DATA)];
    var log6 := log5 + [Mapped(r, PageOf(PROCSTACKADDR), 1, SWAPAREAADDR, USER_STACK)];
    EmptyLookup(r, v);
    SegmentLookup(log0, r, UART_BASE, 0x1000, USER_STACK, v);
    SegmentLookup(log1, r, L.start, L.ctxsws - L.start, USER_CODE, v);
    SegmentLookup(log2, r, L.ctxsws, 0x2000, KERNEL_CODE, v);
    SegmentLookup(log3, r, L.interrupte, L.datas - L.interrupte, USER_CODE, v);
    SegmentLookup(log4, r, L.datas, L.memheap - L.datas, USER_DATA, v);
    TopPages();
    PhysStep(SWAPAREAADDR, 0);
    LookupLast(log5, Mapped(r, PageOf(PROCSTACKADDR), 1, SWAPAREAADDR, USER_STACK), r, v);
    LookupLast(log6, Mapped(r, PageOf(SWAPAREAADDR), 1, SWAPAREAADDR, KERNEL_DATA), r, v);
  }

  lemma TopPages()
    ensures PageOf(PROCSTACKADDR) == 0x3FF_FFFD && PageOf(SWAPAREAADDR) == 0x3FF_FFFE
  {
  }

  /** What one slot makes of an address. */
  function Through(e: Word, va: Word): Translation {
    if !Canonical(va) then PageFault
    else
      match SlotMeaning(e)
      case Fault => PageFault
      case Leaf(pte, _) => Physical(Ppn(pte) * 4096 + va % 4096, pte % 1024)
  }

  /** Tree r of s reads as the kernel table above ... */
  ghost predicate KernelTree(s: State, r: nat, L: Layout)
    requires WellLaid(L)
  {
    IsRoot(s.own, r) && forall v: nat | v < 0x800_0000 :: View(s.m, r, v) == KernEntry(L, v)
  }

  /** ... or as the user table. */
  ghost predicate UserTree(s: State, r: nat, L: Layout)
    requires WellLaid(L)
  {
    IsRoot(s.own, r) && forall v: nat | v < 0x800_0000 :: View(s.m, r, v) == UserEntry(L, v)
  }

  /** What the kernel script builds is exactly that table. */
  lemma KernelBuilt(s: State, r: nat, L: Layout)
    requires WellLaid(L)
    ensures Built(s, r, KernMaps(r, L)) <==> KernelTree(s, r, L)
  {
    hide Lookup, KernMaps, KernEntry, View;
    forall v: nat | v < 0x800_0000 ensures Lookup(KernMaps(r, L), r, v) == KernEntry(L, v) {
      KernelTable(r, L, v);
    }
  }

  lemma UserBuilt(s: State, r: nat, L: Layout)
    requires WellLaid(L)
    ensures Built(s, r, UserMaps(r, L)) <==> UserTree(s, r, L)
  {
    hide Lookup, UserMaps, UserEntry, View;
    forall v: nat | v < 0x800_0000 ensures Lookup(UserMaps(r, L), r, v) == UserEntry(L, v) {
      UserTable(r, L, v);
    }
  }

  lemma TranslateView(s: State, r: nat, va: Word)
    requires Consistent(s) && IsRoot(s.own, r)
    ensures PageOf(va) < 0x800_0000 && Translate(s.m, r, va) == Through(View(s.m, r, PageOf(va)), va)
  {
    hide Walk, View, Has, Ppn, Reserved;
    WalkIsView(s.m, s.own, r, PageOf(va));
  }

  /** Slots of the two scripts: a mapped page, and an empty one. */
  lemma ThroughLeaf(pa: Word, attr: nat, va: Word)
    requires attr in {198, 210, 214, 234, 250} && pa < 0x100_0000_0000_0000 && pa % 4096 == 0
    ensures Through(LeafWord(pa, attr), va) == if Canonical(va) then Physical(pa + va % 4096, attr + 1) else PageFault
  {
    hide And, Or, LeafWord, TruncPage, Reserved, SlotMeaning;
    SlotOfLeaf(pa, attr);
    PageRounding(pa);
    PermissionBits(attr);
    OrStep(attr, PTE_V);
    OrZero(attr / 2);
    assert pa == pa / 4096 * 4096;
  }

  lemma ThroughEmpty(va: Word)
    ensures Through(0, va) == PageFault
  {
    NoBits();
  }

  /** For pages of the low half, an address is its page and its offset. */
  lemma LowHalf(va: Word)
    requires Canonical(va) && PageOf(va) < 0x400_0000
    ensures va < 0x40_0000_0000 && PageOf(va) == va / 4096 && va == PageOf(va) * 4096 + va % 4096
  {
    if va >= TWO64 - 0x40_0000_0000 {
      var d := va - (TWO64 - 0x40_0000_0000);
      DivUnique(va, 4096, 0xF_FFFF_FC00_0000 + d / 4096, d % 4096);
      DivUnique(va / 4096, 0x800_0000, 0x1FF_FFFF, 0x400_0000 + d / 4096);
    }
  }

  lemma HalfPages(va: Word)
    requires va < 0x40_0000_0000
    ensures Canonical(va) && PageOf(va) == va / 4096 && va == PageOf(va) * 4096 + va % 4096
  {
  }

  /** The kernel table, as addresses: an identity map of the covered pages with these flags, and a
      page fault everywhere else. */
  lemma KernelTranslates(s: State, r: nat, L: Layout, va: Word)
    requires WellLaid(L) && Consistent(s) && KernelTree(s, r, L)
    ensures var v := PageOf(va);
            Translate(s.m, r, va)
            == if !Canonical(va) then PageFault
               else if L.datas / 4096 <= v < TopPage(L) || v == 0x2500 then Physical(va, 199)
               else if L.start / 4096 <= v < L.datas / 4096 && !(L.ctxsws / 4096 + 2 <= v < L.interrupte / 4096)
                 then Physical(va, 235)
               else PageFault
  {
    hide Translate, Through, View, LeafWord, PageOf, Trees, FreeList, Apart;
    var v := PageOf(va);
    TranslateView(s, r, va);
    ThroughEmpty(va);
    if v < 0x400_0000 {
      SlotIdentities(v, va);
      if Canonical(va) {
        LowHalf(va);
      }
    }
    NonCanonical(va);
  }

  lemma NonCanonical(va: Word)
    ensures forall e: Word :: !Canonical(va) ==> Through(e, va) == PageFault
  {
  }

  /** The kernel table is the identity on [_start, roundpage(maxaddr)), except for a hole when the
      context-switch and interrupt code together are longer than two pages. */
  lemma KernelIdentity(s: State, r: nat, L: Layout, va: Word)
    requires WellLaid(L) && Consistent(s) && KernelTree(s, r, L)
    requires L.start <= va < TopPage(L) * 4096
    ensures Translate(s.m, r, va) == (if L.ctxsws + 0x2000 <= va < L.interrupte then PageFault
                                      else Physical(va, if va < L.datas then 235 else 199))
  {
    hide Translate, PageOf, KernelTree;
    KernelTranslates(s, r, L, va);
    HalfPages(va);
  }

  /** No page of the kernel table is both writable and executable. */
  lemma KernelWriteXorExecute(s: State, r: nat, L: Layout, va: Word)
    requires WellLaid(L) && Consistent(s) && KernelTree(s, r, L)
    ensures var t := Translate(s.m, r, va); t.Physical? ==> !(Has(t.flags, PTE_W) && Has(t.flags, PTE_X))
  {
    hide Translate, PageOf, KernelTree, And;
    KernelTranslates(s, r, L, va);
    PermissionBits(199);
    PermissionBits(235);
  }

  /** The user table, as addresses. */
  lemma UserTranslates(s: State, r: nat, L: Layout, va: Word)
    requires WellLaid(L) && Consistent(s) && UserTree(s, r, L)
    ensures var v := PageOf(va);
            Translate(s.m, r, va)
            == if !Canonical(va) then PageFault
               else if v == 0x3FF_FFFE then Physical(SWAPAREAADDR + va % 4096, 199)
               else if v == 0x3FF_FFFD then Physical(SWAPAREAADDR + va % 4096, 215)
               else if L.datas / 4096 <= v < L.memheap / 4096 then Physical(va, 211)
               else if L.interrupte / 4096 <= v < L.datas / 4096 then Physical(va, 251)
               else if L.ctxsws / 4096 <= v < L.ctxsws / 4096 + 2 then Physical(va, 235)
               else if L.start / 4096 <= v < L.ctxsws / 4096 then Physical(va, 251)
               else if v == 0x2500 then Physical(va, 215)
               else PageFault
  {
    hide Translate, Through, View, LeafWord, PageOf, Trees, FreeList, Apart;
    var v := PageOf(va);
    TranslateView(s, r, va);
    ThroughEmpty(va);
    NonCanonical(va);
    ThroughLeaf(SWAPAREAADDR, 198, va);
    ThroughLeaf(SWAPAREAADDR, 214, va);
    if v < 0x400_0000 {
      SlotIdentities(v, va);
      if Canonical(va) {
        LowHalf(va);
      }
    }
  }

  lemma SlotIdentities(v: nat, va: Word)
    requires v < 0x400_0000
    ensures forall attr | attr in {198, 210, 214, 234, 250} ::
              Through(Identity(v, attr), va)
              == if Canonical(va) then Physical(v * 4096 + va % 4096, attr + 1) else PageFault
  {
    hide Through, LeafWord;
    ThroughLeaf(v * 4096, 198, va);
    ThroughLeaf(v * 4096, 210, va);
    ThroughLeaf(v * 4096, 214, va);
    ThroughLeaf(v * 4096, 234, va);
    ThroughLeaf(v * 4096, 250, va);
  }

  /** In a user table exactly two pages are writable from user mode: the UART and PROCSTACKADDR. */
  lemma UserWritable(s: State, r: nat, L: Layout, va: Word)
    requires WellLaid(L) && Consistent(s) && UserTree(s, r, L)
    ensures var t := Translate(s.m, r, va);
            (t.Physical? && Has(t.flags, PTE_U) && Has(t.flags, PTE_W))
            <==> UART_BASE <= va < UART_BASE + 0x1000 || PROCSTACKADDR <= va < PROCSTACKADDR + 0x1000
  {
    hide Translate, PageOf, UserTree, And;
    UserTranslates(s, r, L, va);
    UserFlagBits();
    if Canonical(va) && PageOf(va) < 0x400_0000 {
      LowHalf(va);
    }
    if va < 0x40_0000_0000 {
      HalfPages(va);
    }
  }

  lemma UserFlagBits()
    ensures !Has(199, PTE_U) && !Has(199, PTE_X) && Has(199, PTE_W)
    ensures Has(215, PTE_U) && Has(215, PTE_W) && !Has(215, PTE_X)
    ensures !Has(211, PTE_W) && Has(211, PTE_U) && Has(211, PTE_R)
    ensures !Has(251, PTE_W) && Has(251, PTE_U) && Has(251, PTE_X)
    ensures !Has(235, PTE_W) && !Has(235, PTE_U) && Has(235, PTE_X)
  {
    hide And;
    PermissionBits(199);
    PermissionBits(215);
    PermissionBits(211);
    PermissionBits(251);
    PermissionBits(235);
  }

  /** No page of a user table is both writable and executable. */
  lemma UserWriteXorExecute(s: State, r: nat, L: Layout, va: Word)
    requires WellLaid(L) && Consistent(s) && UserTree(s, r, L)
    ensures var t := Translate(s.m, r, va); t.Physical? ==> !(Has(t.flags, PTE_W) && Has(t.flags, PTE_X))
  {
    hide Translate, PageOf, UserTree, And;
    UserTranslates(s, r, L, va);
    UserFlagBits();
  }

  /** User code can read the kernel's data but not write it. */
  lemma UserReadsKernelData(s: State, r: nat, L: Layout, va: Word)
    requires WellLaid(L) && Consistent(s) && UserTree(s, r, L) && L.datas <= va < L.memheap
    ensures var t := Translate(s.m, r, va);
            t == Physical(va, 211) && Has(211, PTE_U) && Has(211, PTE_R) && !Has(211, PTE_W)
  {
    hide Translate, PageOf, UserTree, And;
    UserTranslates(s, r, L, va);
    UserFlagBits();
    HalfPages(va);
  }

  /** The context-switch pages are closed to user mode, but only up to _interrupte: a second page that
      the later user-code mapping overlaps is open again. */
  lemma UserKeptOut(s: State, r: nat, L: Layout, va: Word)
    requires WellLaid(L) && Consistent(s) && UserTree(s, r, L)
    requires L.ctxsws <= va < L.ctxsws + 0x2000 && va < L.memheap
    ensures var t := Translate(s.m, r, va);
            t.Physical? && t.address == va && (Has(t.flags, PTE_U) <==> L.interrupte <= va)
  {
    hide Translate, PageOf, UserTree, And;
    UserTranslates(s, r, L, va);
    UserFlagBits();
    HalfPages(va);
  }

  /** The stack page and the swap page translate to one and the same physical page, SWAPAREAADDR; so the
      stack address reaches the page create.c allocated if and only if that page is SWAPAREAADDR. */
  lemma StackAndSwapCoincide(s: State, r: nat, L: Layout, stack: Word, offset: nat)
    requires WellLaid(L) && Consistent(s) && UserTree(s, r, L) && offset < 4096
    ensures Translate(s.m, r, PROCSTACKADDR + offset) == Physical(SWAPAREAADDR + offset, 215)
    ensures Translate(s.m, r, SWAPAREAADDR + offset) == Physical(SWAPAREAADDR + offset, 199)
    ensures Translate(s.m, r, PROCSTACKADDR + offset) == Physical(stack + offset, 215) <==> stack == SWAPAREAADDR
  {
    hide Translate, PageOf, UserTree;
    UserTranslates(s, r, L, PROCSTACKADDR + offset);
    UserTranslates(s, r, L, SWAPAREAADDR + offset);
    HalfPages(PROCSTACKADDR + offset);
    HalfPages(SWAPAREAADDR + offset);
  }

  /** ... which never happens: the pages pgInit frees lie below the end of memory, and that lies below SWAPAREAADDR. */
  lemma StackNeverReached(s: State, r: nat, L: Layout, p: nat, offset: nat, flags: nat)
    requires WellLaid(L) && Consistent(s) && UserTree(s, r, L) && offset < 4096
    requires p in PageRun(FirstWhole(L.memheap), RangePages(L.memheap, L.maxaddr))
    ensures p * 4096 + 4096 <= L.maxaddr < SWAPAREAADDR
    ensures Translate(s.m, r, PROCSTACKADDR + offset) != Physical(p * 4096 + offset, flags)
  {
    hide Translate, PageOf, UserTree, RangePages, FirstWhole;
    PoolBelow(L, p);
    StackAndSwapCoincide(s, r, L, p * 4096, offset);
  }

  lemma PoolBelow(L: Layout, p: nat)
    requires WellLaid(L) && p in PageRun(FirstWhole(L.memheap), RangePages(L.memheap, L.maxaddr))
    ensures p * 4096 + 4096 <= L.maxaddr
  {
    hide RoundPage, PageRun;
    PageRounding(L.memheap);
    var first, n := FirstWhole(L.memheap), RangePages(L.memheap, L.maxaddr);
    var k :| 0 <= k < n && PageRun(first, n)[k] == p;
    assert p == first + n - 1 - k;
  }

  /** The flag sets of the two scripts with V, bit by bit; all have A and D, so step 7 never matters. */
  lemma FlagSets(flags: nat, a: Access)
    requires flags in {199, 211, 215, 235, 251}
    ensures Permits(flags, a)
            <==> (if a.kind.Store? then flags in {199, 215} else if a.kind.Fetch? then flags in {235, 251} else true)
                 && (if a.user then flags !in {199, 235} else flags in {199, 235} || (a.sum && !a.kind.Fetch?))
    ensures UpToDate(flags, a)
  {
    hide And;
    PermissionBits(flags);
    AccessBits(flags);
  }

  lemma FlagChecks(a: Access)
    ensures forall flags, pa: nat | flags in {199, 211, 215, 235, 251} ::
              Checked(Physical(pa, flags), a)
              == if (if a.kind.Store? then flags in {199, 215} else if a.kind.Fetch? then flags in {235, 251} else true)
                    && (if a.user then flags !in {199, 235} else flags in {199, 235} || (a.sum && !a.kind.Fetch?))
                 then Physical(pa, flags) else PageFault
  {
    hide Permits, UpToDate;
    forall flags | flags in {199, 211, 215, 235, 251} ensures Permits(flags, a)
      <==> (if a.kind.Store? then flags in {199, 215} else if a.kind.Fetch? then flags in {235, 251} else true)
           && (if a.user then flags !in {199, 235} else flags in {199, 235} || (a.sum && !a.kind.Fetch?))
    {
      FlagSets(flags, a);
    }
    forall flags | flags in {199, 211, 215, 235, 251} ensures UpToDate(flags, a) {
      FlagSets(flags, a);
    }
  }

  /** With the kernel table the kernel loads from every mapped page, stores to the UART, its data and the heap, and
      fetches from its code; on every implementation of the A and D bits. */
  lemma KernelAccess(s: State, r: nat, L: Layout, va: Word, a: Access)
    requires WellLaid(L) && Consistent(s) && KernelTree(s, r, L) && !a.user
    ensures var t := Accessed(s.m, r, va, a);
            var uart := UART_BASE <= va < UART_BASE + 0x1000;
            var code := L.start <= va < L.datas && !(L.ctxsws + 0x2000 <= va < L.interrupte);
            var data := L.datas <= va < TopPage(L) * 4096;
            && (t.Physical? ==> t.address == va)
            && (t.Physical?
                <==> if a.kind.Store? then uart || data else if a.kind.Fetch? then code else uart || code || data)
  {
    hide Translate, PageOf, KernelTree, Checked, Trees, FreeList, Apart;
    KernelTranslates(s, r, L, va);
    FlagChecks(a);
    NoFault(a);
    if Canonical(va) && PageOf(va) < 0x400_0000 {
      LowHalf(va);
    }
    if va < 0x40_0000_0000 {
      HalfPages(va);
    }
  }

  lemma NoFault(a: Access)
    ensures Checked(PageFault, a) == PageFault
  {
  }

  /** With a user table user code stores to the UART and its stack only, fetches from kernel code outside the
      context-switch pages, and loads from there, from the kernel's data and from where it stores. */
  lemma UserAccess(s: State, r: nat, L: Layout, va: Word, a: Access)
    requires WellLaid(L) && Consistent(s) && UserTree(s, r, L) && a.user
    ensures var ok := Accessed(s.m, r, va, a).Physical?;
            var own := UART_BASE <= va < UART_BASE + 0x1000 || PROCSTACKADDR <= va < PROCSTACKADDR + 0x1000;
            var code := L.start <= va < L.ctxsws || L.interrupte <= va < L.datas;
            var data := L.datas <= va < L.memheap;
            ok <==> if a.kind.Store? then own else if a.kind.Fetch? then code else own || code || data
  {
    hide Translate, PageOf, UserTree, Checked, Trees, FreeList, Apart;
    UserTranslates(s, r, L, va);
    FlagChecks(a);
    NoFault(a);
    if Canonical(va) && PageOf(va) < 0x400_0000 {
      LowHalf(va);
    }
    if va < 0x40_0000_0000 {
      HalfPages(va);
    }
  }

  /** Under a user table the kernel fetches from the context-switch pages up to _interrupte only, and stores to the swap
      page; with SUM set, as start.S leaves it, it also stores where the user does and loads from every mapped page. */
  lemma TrapAccess(s: State, r: nat, L: Layout, va: Word, a: Access)
    requires WellLaid(L) && Consistent(s) && UserTree(s, r, L) && !a.user
    ensures var ok := Accessed(s.m, r, va, a).Physical?;
            var entry := L.ctxsws <= va < L.ctxsws + 0x2000 && va < L.interrupte;
            var swap := SWAPAREAADDR <= va < SWAPAREAADDR + 0x1000;
            var own := UART_BASE <= va < UART_BASE + 0x1000 || PROCSTACKADDR <= va < PROCSTACKADDR + 0x1000;
            var code := L.start <= va < L.ctxsws || L.interrupte <= va < L.datas;
            var data := L.datas <= va < L.memheap;
            ok <==> if a.kind.Store? then swap || (a.sum && own)
                    else if a.kind.Fetch? then entry
                    else entry || swap || (a.sum && (own || code || data))
  {
    hide Translate, PageOf, UserTree, Checked, Trees, FreeList, Apart;
    UserTranslates(s, r, L, va);
    FlagChecks(a);
    NoFault(a);
    if Canonical(va) && PageOf(va) < 0x400_0000 {
      LowHalf(va);
    }
    if va < 0x40_0000_0000 {
      HalfPages(va);
    }
  }

  /** Kernel code outside the context-switch pages is user code in a user table, so the kernel cannot fetch it there.
      That holds for the interrupt handler: interrupt.S names no section, so it is not in those pages. */
  lemma HandlerFaults(s: State, r: nat, L: Layout, va: Word, a: Access)
    requires WellLaid(L) && Consistent(s) && UserTree(s, r, L) && !a.user && a.kind.Fetch?
    requires L.start <= va < L.ctxsws || L.interrupte <= va < L.datas
    ensures Accessed(s.m, r, va, a) == PageFault && Translate(s.m, r, va) == Physical(va, 251)
  {
    hide Translate, PageOf, UserTree, Accessed, Trees, FreeList, Apart;
    UserTranslates(s, r, L, va);
    TrapAccess(s, r, L, va, a);
    HalfPages(va);
    FaultOrNot(Accessed(s.m, r, va, a));
  }

  lemma FaultOrNot(t: Translation)
    ensures t.Physical? || t == PageFault
  {
  }
}
