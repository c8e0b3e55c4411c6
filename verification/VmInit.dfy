/** The mapping scripts of vm_kerninit.c and vm_userinit.c, and what the two kinds of table allow. */
module VmInit {
  import opened Bits
  import opened SafeMem
  import opened PageTables
  import opened PageRanges
  import opened MapSteps
  import opened Runs
  import opened Paging
  import opened StackStore

  const UART_BASE: Word := 0x250_0000
  const PROCSTACKADDR: Word := 0x3F_FFFF_D000
  const SWAPAREAADDR: Word := 0x3F_FFFF_E000
  const CTX_KERNSP: nat := 33

  // The flag sets of the two scripts; the bits are distinct, so `|` of the source is addition here.
  const KERNEL_DATA: nat := PTE_R + PTE_W + PTE_A + PTE_D
  const KERNEL_CODE: nat := PTE_R + PTE_X + PTE_A + PTE_D + PTE_G
  const USER_CODE: nat := PTE_R + PTE_X + PTE_U + PTE_A + PTE_D + PTE_G
  const USER_DATA: nat := PTE_R + PTE_U + PTE_A + PTE_D
  const USER_STACK: nat := PTE_R + PTE_W + PTE_U + PTE_A + PTE_D

  /** Linker symbols and platform limits. */
  datatype Layout = Layout(start: Word, ctxsws: Word, interrupte: Word, datas: Word, memheap: Word, maxaddr: Word)

  /** ld.script aligns every symbol to a page and places them in this order; start.S puts memheap
      16384 bytes of stack past the image; maxaddr need not be aligned. */
  predicate WellLaid(L: Layout) {
    && L.start % 4096 == 0 && L.ctxsws % 4096 == 0 && L.interrupte % 4096 == 0 && L.datas % 4096 == 0
    && L.memheap % 4096 == 0
    && UART_BASE < L.start <= L.ctxsws <= L.interrupte <= L.datas < L.datas + 0x4000 <= L.memheap <= L.maxaddr
    && L.maxaddr <= 0x3F_FFFF_0000
  }

  function Segment(r: nat, addr: Word, length: Word, attr: nat): Event {
    Mapped(r, FirstPage(addr), PageCount(length), addr, attr)
  }

  function KernMaps(r: nat, L: Layout): seq<Event>
    requires WellLaid(L)
  {
    [Rooted(r)]
    + [Segment(r, UART_BASE, 0x1000, KERNEL_DATA)]
    + [Segment(r, L.start, L.ctxsws - L.start, KERNEL_CODE)]
    + [Segment(r, L.ctxsws, 0x2000, KERNEL_CODE)]
    + [Segment(r, L.interrupte, L.datas - L.interrupte, KERNEL_CODE)]
    + [Segment(r, L.datas, L.memheap - L.datas, KERNEL_DATA)]
    + [Segment(r, L.memheap, L.maxaddr - L.memheap, KERNEL_DATA)]
  }

  function UserMaps(r: nat, L: Layout): seq<Event>
    requires WellLaid(L)
  {
    [Rooted(r)]
    + [Segment(r, UART_BASE, 0x1000, USER_STACK)]
    + [Segment(r, L.start, L.ctxsws - L.start, USER_CODE)]
    + [Segment(r, L.ctxsws, 0x2000, KERNEL_CODE)]
    + [Segment(r, L.interrupte, L.datas - L.interrupte, USER_CODE)]
    + [Segment(r, L.datas, L.memheap - L.datas, USER_DATA)]
    + [Mapped(r, PageOf(PROCSTACKADDR), 1, SWAPAREAADDR, USER_STACK)]
    + [Mapped(r, PageOf(SWAPAREAADDR), 1, SWAPAREAADDR, KERNEL_DATA)]
  }

  function SegmentBound(length: Word): nat {
    TableBound(PageCount(length))
  }

  /** Free pages that are always enough for the kernel table: its root and every table on the way. */
  function KernNeed(L: Layout): nat
    requires WellLaid(L)
  {
    1 + SegmentBound(0x1000) + SegmentBound(L.ctxsws - L.start) + SegmentBound(0x2000)
    + SegmentBound(L.datas - L.interrupte) + SegmentBound(L.memheap - L.datas) + SegmentBound(L.maxaddr - L.memheap)
  }

  /** ... and for a user table and its swap page. */
  function UserNeed(L: Layout): nat
    requires WellLaid(L)
  {
    2 + SegmentBound(0x1000) + SegmentBound(L.ctxsws - L.start) + SegmentBound(0x2000)
    + SegmentBound(L.datas - L.interrupte) + SegmentBound(L.memheap - L.datas) + TableBound(1) + TableBound(1)
  }

  /** Tree r reads as the script `log` says. */
  ghost predicate Built(s: State, r: nat, log: seq<Event>) {
    IsRoot(s.own, r) && forall v: nat | v < 0x800_0000 :: View(s.m, r, v) == Lookup(log, r, v)
  }

  /** The trees of s0 are still there, of the same tables, and read as they did; and all flags are still low. */
  ghost predicate OthersKept(s0: State, s: State) {
    && (forall r | IsRoot(s0.own, r) :: IsRoot(s.own, r))
    && (forall p | p in s0.own && s0.own[p].Table? :: p in s.own && s.own[p] == s0.own[p])
    && (ViewsLow(s0) ==> ViewsLow(s))
    && (forall r, v: nat | IsRoot(s0.own, r) && v < 0x800_0000 :: View(s.m, r, v) == View(s0.m, r, v))
  }

  lemma StepKeeps(s0: State, s: State, e: Event, t: State)
    requires Step(s, e, t) && OthersKept(s0, s) && (e.Mapped? ==> e.attr < 512)
    ensures forall p | p in s0.own && s0.own[p].Table? :: p in t.own && t.own[p] == s0.own[p]
    ensures ViewsLow(s0) ==> ViewsLow(t)
  {
    hide Step, ViewsLow;
    forall p | p in s0.own && s0.own[p].Table? ensures p in t.own && t.own[p] == s0.own[p] {
      TableStays(s, e, t, p);
    }
    if ViewsLow(s0) {
      StepLow(s, e, t);
    }
  }

  lemma BuiltStep(s0: State, s: State, e: Event, t: State, r: nat, log: seq<Event>)
    requires Step(s, e, t) && Built(s, r, log) && OthersKept(s0, s) && r !in s0.own
    requires e.Mapped? ==> e.root == r && e.attr < 512
    requires e.Rooted? ==> e.page != r && e.page !in s0.own
    ensures Built(t, r, log + [e]) && OthersKept(s0, t)
  {
    hide View, Lookup, LeafWord, PhysAt, Trees, FreeList, Apart, Mids, Lows, Needed, Prefixed, ViewsLow;
    StepPool(s, e, t);
    StepKeeps(s0, s, e, t);
    forall v: nat | v < 0x800_0000
      ensures View(t.m, r, v) == Lookup(log + [e], r, v)
    {
      LookupLast(log, e, r, v);
    }
    forall r', v: nat | IsRoot(s0.own, r') && v < 0x800_0000
      ensures View(t.m, r', v) == View(s0.m, r', v)
    {
      assert IsRoot(s.own, r') && r' != r;
      assert View(s.m, r', v) == View(s0.m, r', v);
    }
  }

  /** pgalloc a page and use it as an empty root table. */
  method NewRoot(k: Machine) returns (pagetable: Word)
    requires k.Ok() && k.free != []
    modifies k`pgfreelist, k`free, k`own, k.mem
    ensures k.Ok() && pagetable % 4096 == 0 && k.free == old(k.free)[1..]
    ensures pagetable / 4096 !in old(k.own)
    ensures Downwards(old(k.free)) ==> TableOnTop(k.Now())
    ensures Built(k.Now(), pagetable / 4096, [Rooted(pagetable / 4096)]) && OthersKept(old(k.Now()), k.Now())
  {
    hide *;
    k.OkIs();
    k.NowIs();
    ghost var s0, p := k.Now(), k.free[0];
    FreeHead(k.mem[..], k.own, k.pgfreelist, k.free);
    pagetable := k.PgAlloc();
    ghost var s1 := k.Now();
    k.NowIs();
    k.AdoptRoot(p);
    k.NowIs();
    RootBuilt(s0, s1, k.Now(), p);
    BuiltRoot(k.Now(), p, [Rooted(p)]);
    if Downwards(s0.free) {
      RootOnTop(s0, k.Now(), p);
    }
  }

  lemma RootBuilt(s: State, s1: State, t: State, p: nat)
    requires Step(s, Allocated, s1) && Step(s1, Rooted(p), t) && p !in s.own
    ensures Built(t, p, [Rooted(p)]) && OthersKept(s, t)
  {
    hide View, Lookup, Trees, FreeList, Apart, Mids, Lows, ViewsLow;
    assert OthersKept(s, s);
    StepKeeps(s, s, Allocated, s1);
    assert OthersKept(s, s1);
    StepKeeps(s, s1, Rooted(p), t);
    forall v: nat | v < 0x800_0000
      ensures View(t.m, p, v) == Lookup([Rooted(p)], p, v)
    {
      EmptyTree(t.m, p, v);
      LookupLast([], Rooted(p), p, v);
      assert [] + [Rooted(p)] == [Rooted(p)];
    }
    forall r, v: nat | IsRoot(s.own, r) && v < 0x800_0000
      ensures View(t.m, r, v) == View(s.m, r, v)
    {
      assert IsRoot(s1.own, r);
    }
  }

  /** One identity mapping of a script; both scripts ignore the result of mapAddress. */
  method MapSegment(k: Machine, pagetable: Word, addr: Word, length: Word, attr: nat,
                    ghost s0: State, ghost log: seq<Event>, ghost left: nat)
    requires k.Ok() && attr < 512 && pagetable % 4096 == 0
    requires (FirstPage(addr) + PageCount(length)) * 4096 <= 0x80_0000_0000
    requires Built(k.Now(), pagetable / 4096, log) && OthersKept(s0, k.Now()) && pagetable / 4096 !in s0.own
    requires SegmentBound(length) + left <= |k.free|
    modifies k`pgfreelist, k`free, k`own, k.mem
    ensures k.Ok() && left <= |k.free|
    ensures Built(k.Now(), pagetable / 4096, log + [Segment(pagetable / 4096, addr, length, attr)])
    ensures OthersKept(s0, k.Now())
    ensures TableOnTop(old(k.Now())) ==> TableOnTop(k.Now())
  {
    hide *;
    ghost var s, r := k.Now(), pagetable / 4096;
    k.NowIs();
    BuiltRoot(s, r, log);
    NeededBound(k.mem[..], r, FirstPage(addr), PageCount(length));
    SegmentIs(r, addr, length, attr);
    var result := k.MapAddress(pagetable, addr, addr, length, attr);
    k.NowIs();
    BuiltStep(s0, s, Segment(r, addr, length, attr), k.Now(), r, log);
    MappedFacts(s, r, FirstPage(addr), PageCount(length), addr, attr, k.Now());
    MappedOnTop(s, r, FirstPage(addr), PageCount(length), addr, attr, k.Now());
  }

  lemma BuiltRoot(s: State, r: nat, log: seq<Event>)
    requires Built(s, r, log)
    ensures IsRoot(s.own, r)
  {
  }

  lemma SegmentIs(r: nat, addr: Word, length: Word, attr: nat)
    ensures Segment(r, addr, length, attr) == Mapped(r, FirstPage(addr), PageCount(length), addr, attr)
    ensures SegmentBound(length) == TableBound(PageCount(length))
  {
  }

  lemma MappedFacts(s: State, r: nat, lo: nat, n: nat, pa: Word, attr: nat, t: State)
    requires Step(s, Mapped(r, lo, n, pa, attr), t)
    ensures |t.free| == |s.free| - Needed(s.m, r, lo, n) >= |s.free| - TableBound(n)
    ensures SameData(s.m, t.m, s.own) && forall p | p in s.own :: p in t.own && t.own[p] == s.own[p]
  {
    NeededBound(s.m, r, lo, n);
  }

  /** vm_kerninit.c, without the switch to the new table. */
  method VmKernInit(k: Machine, L: Layout) returns (kernpgtbl: Word, kernsp: Word)
    requires k.Ok() && WellLaid(L) && KernNeed(L) <= |k.free|
    modifies k`pgfreelist, k`free, k`own, k.mem
    ensures k.Ok() && kernpgtbl % 4096 == 0
    ensures Built(k.Now(), kernpgtbl / 4096, KernMaps(kernpgtbl / 4096, L))
    ensures OthersKept(old(k.Now()), k.Now())
    ensures |k.free| >= |old(k.free)| - KernNeed(L) && (Downwards(old(k.free)) ==> TableOnTop(k.Now()))
    ensures kernsp == (L.memheap + TWO64 - 65536) % TWO64
  {
    hide *;
    ghost var s0 := k.Now();
    k.NowIs();
    LayoutFacts(L);
    KernNeedIs(L);
    var pagetable := NewRoot(k);
    ghost var r := pagetable / 4096;
    KernMapsIs(r, L);
    ghost var log := [Rooted(r)];
    ghost var left := |k.free| - SegmentBound(0x1000);
    MapSegment(k, pagetable, UART_BASE, 0x1000, KERNEL_DATA, s0, log, left);
    log := log + [Segment(r, UART_BASE, 0x1000, KERNEL_DATA)];
    left := left - SegmentBound(L.ctxsws - L.start);
    MapSegment(k, pagetable, L.start, L.ctxsws - L.start, KERNEL_CODE, s0, log, left);
    log := log + [Segment(r, L.start, L.ctxsws - L.start, KERNEL_CODE)];
    left := left - SegmentBound(0x2000);
    MapSegment(k, pagetable, L.ctxsws, 0x2000, KERNEL_CODE, s0, log, left);
    log := log + [Segment(r, L.ctxsws, 0x2000, KERNEL_CODE)];
    left := left - SegmentBound(L.datas - L.interrupte);
    MapSegment(k, pagetable, L.interrupte, L.datas - L.interrupte, KERNEL_CODE, s0, log, left);
    log := log + [Segment(r, L.interrupte, L.datas - L.interrupte, KERNEL_CODE)];
    left := left - SegmentBound(L.memheap - L.datas);
    MapSegment(k, pagetable, L.datas, L.memheap - L.datas, KERNEL_DATA, s0, log, left);
    log := log + [Segment(r, L.datas, L.memheap - L.datas, KERNEL_DATA)];
    left := left - SegmentBound(L.maxaddr - L.memheap);
    MapSegment(k, pagetable, L.memheap, L.maxaddr - L.memheap, KERNEL_DATA, s0, log, left);
    kernpgtbl := pagetable;
    kernsp := (L.memheap + TWO64 - 65536) % TWO64;
  }

  lemma LayoutFacts(L: Layout)
    requires WellLaid(L)
    ensures KERNEL_DATA < 512 && KERNEL_CODE < 512 && USER_CODE < 512 && USER_DATA < 512 && USER_STACK < 512
    ensures TWO64 == 0x1_0000_0000_0000_0000
    ensures UART_BASE < L.start <= L.ctxsws <= L.interrupte <= L.datas <= L.memheap <= L.maxaddr
    ensures (FirstPage(UART_BASE) + PageCount(0x1000)) * 4096 <= 0x80_0000_0000
    ensures (FirstPage(L.start) + PageCount(L.ctxsws - L.start)) * 4096 <= 0x80_0000_0000
    ensures (FirstPage(L.ctxsws) + PageCount(0x2000)) * 4096 <= 0x80_0000_0000
    ensures (FirstPage(L.interrupte) + PageCount(L.datas - L.interrupte)) * 4096 <= 0x80_0000_0000
    ensures (FirstPage(L.datas) + PageCount(L.memheap - L.datas)) * 4096 <= 0x80_0000_0000
    ensures (FirstPage(L.memheap) + PageCount(L.maxaddr - L.memheap)) * 4096 <= 0x80_0000_0000
  {
    hide FirstPage, PageCount;
    SegmentFits(UART_BASE, 0x1000);
    SegmentFits(L.start, L.ctxsws - L.start);
    SegmentFits(L.ctxsws, 0x2000);
    SegmentFits(L.interrupte, L.datas - L.interrupte);
    SegmentFits(L.datas, L.memheap - L.datas);
    SegmentFits(L.memheap, L.maxaddr - L.memheap);
  }

  lemma SegmentFits(addr: Word, length: Word)
    requires addr <= 0x40_0000_0000 && length <= 0x3F_FFFF_0000
    ensures FirstPage(addr) == addr / 4096 && PageCount(length) == (length + 4095) / 4096
    ensures (FirstPage(addr) + PageCount(length)) * 4096 <= 0x80_0000_0000
  {
    hide TruncPage, RoundPage;
    PageRounding(addr);
    PageRounding(length);
    Multiple(TruncPage(addr), addr / 4096);
    Multiple(RoundPage(length), (length + 4095) / 4096);
  }

  lemma KernNeedIs(L: Layout)
    requires WellLaid(L)
    ensures KernNeed(L) == 1 + SegmentBound(0x1000) + SegmentBound(L.ctxsws - L.start) + SegmentBound(0x2000)
            + SegmentBound(L.datas - L.interrupte) + SegmentBound(L.memheap - L.datas)
            + SegmentBound(L.maxaddr - L.memheap)
  {
    hide SegmentBound;
  }

  lemma KernMapsIs(r: nat, L: Layout)
    requires WellLaid(L)
    ensures KernMaps(r, L)
         == [Rooted(r)]
            + [Segment(r, UART_BASE, 0x1000, KERNEL_DATA)]
            + [Segment(r, L.start, L.ctxsws - L.start, KERNEL_CODE)]
            + [Segment(r, L.ctxsws, 0x2000, KERNEL_CODE)]
            + [Segment(r, L.interrupte, L.datas - L.interrupte, KERNEL_CODE)]
            + [Segment(r, L.datas, L.memheap - L.datas, KERNEL_DATA)]
            + [Segment(r, L.memheap, L.maxaddr - L.memheap, KERNEL_DATA)]
  {
    hide Segment;
  }

  /** One mapPage call of a script. */
  method MapOne(k: Machine, pagetable: Word, pg: Word, va: Word, attr: nat, pa: Word,
                ghost s0: State, ghost log: seq<Event>, ghost left: nat)
    requires k.Ok() && attr < 512 && pagetable % 4096 == 0
    requires Built(k.Now(), pagetable / 4096, log) && OthersKept(s0, k.Now()) && pagetable / 4096 !in s0.own
    requires TableBound(1) + left <= |k.free|
    modifies k`pgfreelist, k`free, k`own, k.mem
    ensures k.Ok() && left <= |k.free|
    ensures Built(k.Now(), pagetable / 4096, log + [Mapped(pagetable / 4096, PageOf(va), 1, pa, attr)])
    ensures OthersKept(s0, k.Now())
    ensures SameData(old(k.mem[..]), k.mem[..], old(k.own))
    ensures forall p | p in old(k.own) :: p in k.own && k.own[p] == old(k.own)[p]
  {
    hide *;
    ghost var s, r := k.Now(), pagetable / 4096;
    k.NowIs();
    BuiltRoot(s, r, log);
    NeededBound(k.mem[..], r, PageOf(va), 1);
    OnePage(k.mem[..], r, PageOf(va));
    var result := k.MapPage(pagetable, pg, va, attr, pa);
    k.NowIs();
    BuiltStep(s0, s, Mapped(r, PageOf(va), 1, pa, attr), k.Now(), r, log);
    MappedFacts(s, r, PageOf(va), 1, pa, attr, k.Now());
  }

  /** vm_userinit.c, lines 45 to 47: the swap page and its saved kernel stack pointer. */
  method NewSwapArea(k: Machine, kernsp: Word, ghost r: nat, ghost s0: State, ghost log: seq<Event>)
      returns (swaparea: Word)
    requires k.Ok() && k.free != []
    requires Built(k.Now(), r, log) && OthersKept(s0, k.Now()) && r !in s0.own
    modifies k`pgfreelist, k`free, k`own, k.mem
    ensures k.Ok() && swaparea % 4096 == 0 && |k.free| == |old(k.free)| - 1
    ensures Built(k.Now(), r, log) && OthersKept(s0, k.Now())
    ensures swaparea / 4096 in k.own && k.own[swaparea / 4096] == Data
    ensures At(k.mem[..], swaparea / 4096, CTX_KERNSP) == kernsp
  {
    hide *;
    ghost var s, p := k.Now(), k.free[0];
    k.NowIs();
    SwapSlot();
    swaparea := k.PgAlloc();
    k.NowIs();
    BuiltStep(s0, s, Allocated, k.Now(), r, log);
    Unlogged(k.Now(), r, log, Allocated);
    ghost var s1 := k.Now();
    k.WriteData(swaparea, CTX_KERNSP, kernsp);
    k.NowIs();
    BuiltStep(s0, s1, Wrote(p), k.Now(), r, log);
    Unlogged(k.Now(), r, log, Wrote(p));
  }

  lemma SwapSlot()
    ensures 0 <= CTX_KERNSP < 512
  {
  }

  /** Allocations and data writes do not show in any table. */
  lemma Unlogged(s: State, r: nat, log: seq<Event>, e: Event)
    requires Built(s, r, log + [e]) && (e.Allocated? || e.Wrote?)
    ensures Built(s, r, log)
  {
    hide View, Lookup;
    forall v: nat | v < 0x800_0000
      ensures View(s.m, r, v) == Lookup(log, r, v)
    {
      LookupLast(log, e, r, v);
    }
  }

  /** vm_userinit.c.  `stack` is the page create.c allocated; the source passes SWAPAREAADDR as the
      physical address of both the stack page and the swap page. */
  method VmUserInit(k: Machine, L: Layout, stack: Word, kernsp: Word) returns (pagetable: Word, swaparea: Word)
    requires k.Ok() && WellLaid(L) && UserNeed(L) <= |k.free|
    modifies k`pgfreelist, k`free, k`own, k.mem
    ensures k.Ok() && pagetable % 4096 == 0 && swaparea % 4096 == 0
    ensures Built(k.Now(), pagetable / 4096, UserMaps(pagetable / 4096, L))
    ensures OthersKept(old(k.Now()), k.Now())
    ensures swaparea / 4096 in k.own && k.own[swaparea / 4096] == Data
    ensures At(k.mem[..], swaparea / 4096, CTX_KERNSP) == kernsp
  {
    hide *;
    ghost var s0 := k.Now();
    k.NowIs();
    LayoutFacts(L);
    UserNeedIs(L);
    pagetable := NewRoot(k);
    ghost var r := pagetable / 4096;
    UserMapsIs(r, L);
    ghost var log := [Rooted(r)];
    ghost var left := |k.free| - SegmentBound(0x1000);
    MapSegment(k, pagetable, UART_BASE, 0x1000, USER_STACK, s0, log, left);
    log := log + [Segment(r, UART_BASE, 0x1000, USER_STACK)];
    left := left - SegmentBound(L.ctxsws - L.start);
    MapSegment(k, pagetable, L.start, L.ctxsws - L.start, USER_CODE, s0, log, left);
    log := log + [Segment(r, L.start, L.ctxsws - L.start, USER_CODE)];
    left := left - SegmentBound(0x2000);
    MapSegment(k, pagetable, L.ctxsws, 0x2000, KERNEL_CODE, s0, log, left);
    log := log + [Segment(r, L.ctxsws, 0x2000, KERNEL_CODE)];
    left := left - SegmentBound(L.datas - L.interrupte);
    MapSegment(k, pagetable, L.interrupte, L.datas - L.interrupte, USER_CODE, s0, log, left);
    log := log + [Segment(r, L.interrupte, L.datas - L.interrupte, USER_CODE)];
    left := left - SegmentBound(L.memheap - L.datas);
    MapSegment(k, pagetable, L.datas, L.memheap - L.datas, USER_DATA, s0, log, left);
    log := log + [Segment(r, L.datas, L.memheap - L.datas, USER_DATA)];
    left := left - TableBound(1);
    MapOne(k, pagetable, stack, PROCSTACKADDR, USER_STACK, SWAPAREAADDR, s0, log, left);
    log := log + [Mapped(r, PageOf(PROCSTACKADDR), 1, SWAPAREAADDR, USER_STACK)];
    swaparea := NewSwapArea(k, kernsp, r, s0, log);
    left := left - 1 - TableBound(1);
    ghost var m1, own1, p := k.mem[..], k.own, swaparea / 4096;
    MapOne(k, pagetable, swaparea, SWAPAREAADDR, KERNEL_DATA, SWAPAREAADDR, s0, log, left);
    SwapKept(m1, k.mem[..], own1, p);
  }

  lemma SwapKept(m: Mem, m': Mem, own: Roles, p: nat)
    requires SameData(m, m', own) && p in own && own[p] == Data
    ensures At(m', p, CTX_KERNSP) == At(m, p, CTX_KERNSP)
  {
  }

  lemma UserNeedIs(L: Layout)
    requires WellLaid(L)
    ensures UserNeed(L) == 2 + SegmentBound(0x1000) + SegmentBound(L.ctxsws - L.start) + SegmentBound(0x2000)
            + SegmentBound(L.datas - L.interrupte) + SegmentBound(L.memheap - L.datas) + TableBound(1) + TableBound(1)
  {
    hide SegmentBound;
  }

  lemma UserMapsIs(r: nat, L: Layout)
    requires WellLaid(L)
    ensures UserMaps(r, L)
         == [Rooted(r)]
            + [Segment(r, UART_BASE, 0x1000, USER_STACK)]
            + [Segment(r, L.start, L.ctxsws - L.start, USER_CODE)]
            + [Segment(r, L.ctxsws, 0x2000, KERNEL_CODE)]
            + [Segment(r, L.interrupte, L.datas - L.interrupte, USER_CODE)]
            + [Segment(r, L.datas, L.memheap - L.datas, USER_DATA)]
            + [Mapped(r, PageOf(PROCSTACKADDR), 1, SWAPAREAADDR, USER_STACK)]
            + [Mapped(r, PageOf(SWAPAREAADDR), 1, SWAPAREAADDR, KERNEL_DATA)]
  {
    hide Segment;
  }

  /** Boot: pgInit and then vm_kerninit, with no page left over from before.  There are
      then pages enough for a process, the page after the next one to be allocated is a table, and no entry has flags
      past bit 8. */
  method Boot(k: Machine, L: Layout) returns (kernpgtbl: Word, kernsp: Word)
    requires k.Ok() && k.free == [] && k.own == map[]
    requires WellLaid(L) && k.memheap == L.memheap && k.maxaddr == L.maxaddr && L.maxaddr <= k.mem.Length * 8
    requires L.maxaddr == 0x78FF_FFFF && L.memheap <= 0x7700_0000
    modifies k, k.mem
    ensures k.Ok() && kernpgtbl % 4096 == 0
    ensures Built(k.Now(), kernpgtbl / 4096, KernMaps(kernpgtbl / 4096, L))
    ensures UserNeed(L) < |k.free| && TableOnTop(k.Now()) && ViewsLow(k.Now())
  {
    hide *;
    LayoutFacts(L);
    MemoryLimit();
    k.PgInit();
    BootSuffices(L);
    RunLength(FirstWhole(L.memheap), RangePages(L.memheap, L.maxaddr));
    RunDownwards(FirstWhole(L.memheap), RangePages(L.memheap, L.maxaddr));
    k.NowIs();
    NoTrees(k.Now());
    ghost var s0 := k.Now();
    kernpgtbl, kernsp := VmKernInit(k, L);
    KeptLow(s0, k.Now());
  }

  lemma NoTrees(s: State)
    requires s.own == map[]
    ensures ViewsLow(s)
  {
    assert forall r :: !IsRoot(s.own, r);
  }

  lemma KeptLow(s0: State, s: State)
    requires OthersKept(s0, s)
    ensures ViewsLow(s0) ==> ViewsLow(s)
    ensures forall p | p in s0.own && s0.own[p].Table? :: p in s.own && s.own[p] == s0.own[p]
  {
  }

  /** The pages create takes (create.c, lines 50 and 65): a stack page, and a user table with its swap page.  By then
      the page after the stack page is still the table it was before. */
  method CreatePages(k: Machine, L: Layout, kernsp: Word) returns (stack: Word, pagetable: Word, swaparea: Word)
    requires k.Ok() && WellLaid(L) && UserNeed(L) < |k.free|
    modifies k`pgfreelist, k`free, k`own, k.mem
    ensures k.Ok() && stack == old(k.free)[0] * 4096 && pagetable % 4096 == 0
    ensures Built(k.Now(), pagetable / 4096, UserMaps(pagetable / 4096, L))
    ensures old(TableOnTop(k.Now()) && ViewsLow(k.Now())) ==>
              InMem(k.mem[..], stack / 4096 + 1) && !Unharmed(k.Now(), stack / 4096 + 1)
  {
    hide *;
    ghost var s0 := k.Now();
    k.NowIs();
    stack := k.PgAlloc();
    ghost var s1 := k.Now();
    k.NowIs();
    pagetable, swaparea := VmUserInit(k, L, stack, kernsp);
    k.NowIs();
    if TableOnTop(s0) && ViewsLow(s0) {
      StackPageNext(s0, s1, k.Now());
    }
  }

  lemma StackPageNext(s0: State, s1: State, s: State)
    requires Step(s0, Allocated, s1) && OthersKept(s1, s) && Consistent(s) && TableOnTop(s0) && ViewsLow(s0)
    ensures var q := s0.free[0] + 1; s0.free != [] && InMem(s.m, q) && !Unharmed(s, q)
  {
    hide ViewsLow, Trees, FreeList, Unharmed, SameViews, SameData, ZeroPage, View;
    var q := s0.free[0] + 1;
    TableStays(s0, Allocated, s1, q);
    StepLow(s0, Allocated, s1);
    KeptLow(s1, s);
    InMemory(s);
    StackMagicExactly(s, q);
  }

  /** From power-up to the first process: create's store past the stack page (create.c, lines 74 and 75) then always
      harms a page table. */
  method FirstProcess(k: Machine, L: Layout) returns (stack: Word, kernpgtbl: Word, pagetable: Word)
    requires k.Ok() && k.free == [] && k.own == map[]
    requires WellLaid(L) && k.memheap == L.memheap && k.maxaddr == L.maxaddr && L.maxaddr <= k.mem.Length * 8
    requires L.maxaddr == 0x78FF_FFFF && L.memheap <= 0x7700_0000
    modifies k, k.mem
    ensures k.Ok() && InMem(k.mem[..], stack / 4096 + 1) && !Unharmed(k.Now(), stack / 4096 + 1)
  {
    hide *;
    var kernsp, swaparea;
    kernpgtbl, kernsp := Boot(k, L);
    stack, pagetable, swaparea := CreatePages(k, L, kernsp);
  }

  lemma MemoryLimit()
    ensures 0 < UART_BASE
  {
  }

  lemma RunLength(first: nat, n: nat)
    ensures |PageRun(first, n)| == n
  {
  }

  /** On the board platforminit describes, the pages pgInit frees are enough for the kernel table and a first
      process, so no pgalloc inside vm_kerninit returns SYSERR. */
  lemma BootSuffices(L: Layout)
    requires WellLaid(L) && L.maxaddr == 0x78FF_FFFF && L.memheap <= 0x7700_0000
    ensures KernNeed(L) + UserNeed(L) < RangePages(L.memheap, L.maxaddr)
  {
    hide SegmentBound, RangePages;
    assert TableBound(1) == 4;
    SegmentSize(0x1000);
    SegmentSize(L.ctxsws - L.start);
    SegmentSize(0x2000);
    SegmentSize(L.datas - L.interrupte);
    SegmentSize(L.memheap - L.datas);
    SegmentSize(L.maxaddr - L.memheap);
    RangeSize(L.memheap, L.maxaddr);
  }

  lemma SegmentSize(length: Word)
    requires length <= 0x3F_FFFF_0000
    ensures SegmentBound(length) * 0x10_0000 <= length + 0x40_1000
  {
    hide PageCount, TableBound;
    SegmentFits(0, length);
    BoundSize(PageCount(length));
  }

  lemma BoundSize(n: nat)
    ensures TableBound(n) * 256 <= n + 1024
  {
  }

  lemma RangeSize(start: Word, end: Word)
    requires start <= end <= 0x3F_FFFF_0000
    ensures RangePages(start, end) * 4096 + 0x2000 >= end - start
  {
    hide RoundPage;
    PageRounding(start);
  }
}
