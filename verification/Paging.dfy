/** The page allocator (pgalloc.c, pgFree.c, pgInit.c) and the page-table builder (map.c),
    working in place on one memory.  The free list is threaded through the free pages and the
    tables are built out of pages popped from it. */
module Paging {
  import opened Bits
  import opened SafeMem
  import opened PageTables
  import opened PageRanges
  import opened MapSteps
  import opened Runs
  import opened Status

  /** (void *)SYSERR */
  const BADPAGE: Word := 0xFFFF_FFFF_FFFF_FFFF

  class Machine {
    const mem: array<Word>
    const memheap: Word
    const maxaddr: Word
    var pgfreelist: Word
    var pgtbl_nents: nat
    ghost var free: seq<nat>
    ghost var own: Roles

    ghost function Now(): State
      reads this, mem
    {
      State(mem[..], pgfreelist, free, own)
    }

    ghost predicate Ok()
      reads this, mem
    {
      Consistent(Now())
    }

    /** Memory before pgInit: nothing free, nothing handed out. */
    constructor (words: nat, memheap: Word, maxaddr: Word)
      requires words <= 0x20_0000_0000_0000
      ensures Ok() && free == [] && own == map[] && mem.Length == words
      ensures this.memheap == memheap && this.maxaddr == maxaddr
    {
      mem := new Word[words];
      this.memheap := memheap;
      this.maxaddr := maxaddr;
      pgfreelist := 0;
      pgtbl_nents := 0;
      free := [];
      own := map[];
    }

    /** pgalloc.c: pop the head of the free list and clear the page. */
    method PgAlloc() returns (page: Word)
      requires Ok()
      modifies this`pgfreelist, this`free, this`own, mem
      ensures Ok()
      ensures old(free) == [] ==>
                page == BADPAGE && free == [] && own == old(own) && mem[..] == old(mem[..])
      ensures old(free) != [] ==>
                && page == old(free)[0] * 4096
                && free == old(free)[1..]
                && own == old(own)[old(free)[0] := Data]
                && ZeroPage(mem[..], old(free)[0])
                && SameTables(old(mem[..]), mem[..], old(own))
                && SameData(old(mem[..]), mem[..], old(own))
                && SameViews(old(mem[..]), mem[..], old(own))
      ensures old(free) != [] ==> Step(old(Now()), Allocated, Now())
    {
      if pgfreelist == 0 {
        return BADPAGE;
      }
      ghost var m0, p := mem[..], free[0];
      page := pgfreelist;
      pgfreelist := mem[page / 8];
      for i := 0 to 512
        modifies mem
        invariant forall k | 0 <= k < mem.Length :: mem[k] == if p * 512 <= k < p * 512 + i then 0 else m0[k]
      {
        mem[page / 8 + i] := 0;
      }
      free := free[1..];
      own := own[p := Data];
      PageTaken(m0, mem[..], old(pgfreelist), old(free), old(own));
    }

    /** pgFree.c, pgfree: push a page on the free list. */
    method PgFree(addr: Word) returns (result: int)
      requires Ok() && (addr % 4096 == 0 ==> FreeablePage(mem[..], own, free, addr / 4096))
      modifies this`pgfreelist, this`free, this`own, mem
      ensures Ok()
      ensures addr % 4096 != 0 ==>
                result == SYSERR && free == old(free) && own == old(own) && mem[..] == old(mem[..])
      ensures addr % 4096 == 0 ==>
                && result == OK
                && free == [addr / 4096] + old(free)
                && own == old(own) - {addr / 4096}
                && SameTables(old(mem[..]), mem[..], old(own))
                && SameData(old(mem[..]), mem[..], own)
                && SameViews(old(mem[..]), mem[..], old(own))
      ensures addr % 4096 == 0 && addr / 4096 in old(own) ==> Step(old(Now()), Freed(addr / 4096), Now())
    {
      hide *;
      OkIs();
      NowIs();
      FreeableIs(mem[..], own, free, addr / 4096);
      ghost var s := Now();
      Codes();
      if addr % 4096 != 0 {
        return SYSERR;
      }
      ghost var m0, p := mem[..], addr / 4096;
      PageFreed(m0, own, pgfreelist, free, p);
      WordIndex(m0, addr, 0);
      mem[addr / 8] := pgfreelist;
      StoreIs(m0, mem[..], p, 0, pgfreelist);
      pgfreelist := addr;
      free := [p] + free;
      own := own - {p};
      IsOk();
      NowIs();
      if p in s.own {
        FreedStep(s, Now(), p);
      }
      return OK;
    }

    /** pgFree.c, pgfreerange */
    method PgFreeRange(start: Word, end: Word) returns (result: int)
      requires Ok() && maxaddr <= 0x100_0000_0000_0000
      requires memheap <= start <= end <= maxaddr ==>
                 forall p: nat | FirstWhole(start) <= p < FirstWhole(start) + RangePages(start, end) ::
                   FreeablePage(mem[..], own, free, p)
      modifies this`pgfreelist, this`free, this`own, mem
      ensures Ok()
      ensures !(memheap <= start <= end <= maxaddr) ==>
                result == SYSERR && free == old(free) && own == old(own) && mem[..] == old(mem[..])
      ensures memheap <= start <= end <= maxaddr ==>
                && result == OK
                && Pushed(old(mem[..]), mem[..], old(own), own, old(free), free, FirstWhole(start),
                          RangePages(start, end))
    {
      hide *;
      Codes();
      if end > maxaddr || start < memheap || end < start {
        return SYSERR;
      }
      RangeCount(start, end, 0);
      ghost var m0, own0, free0, first, n, k := mem[..], own, free, FirstWhole(start), RangePages(start, end), 0;
      PushedNone(m0, own0, free0, first);
      var pgstart := RoundPage(start);
      while pgstart + 4096 < end
        invariant k <= n && pgstart == (first + k) * 4096 && pgstart <= end + 4095
        invariant Ok() && Pushed(m0, mem[..], own0, own, free0, free, first, k)
        decreases n - k
      {
        RangeCount(start, end, k);
        ghost var m1, own1, free1 := mem[..], own, free;
        NextFreeable(m0, m1, own0, own1, free0, free1, first, k, n);
        var r := PgFree(pgstart);
        PushedMore(m0, m1, mem[..], own0, own1, free0, free1, first, k);
        if r == SYSERR {
          return SYSERR;
        }
        pgstart := pgstart + 4096;
        k := k + 1;
      }
      RangeCount(start, end, k);
      return OK;
    }

    /** pgInit.c: count the pages of the heap and free them all. */
    method PgInit()
      requires Ok() && memheap <= maxaddr <= 0x100_0000_0000_0000 && free == [] && own == map[]
      requires 0 < memheap && maxaddr <= mem.Length * 8
      modifies this, mem
      ensures Ok() && own == map[]
      ensures free == PageRun(FirstWhole(memheap), RangePages(memheap, maxaddr))
      ensures RoundPage(maxaddr - memheap) / 4096 < 0x1_0000_0000 ==> |free| <= pgtbl_nents
    {
      hide Trees, FreeList, Apart, RoundPage, RangePages, View, Mids, Lows, FirstWhole;
      pgtbl_nents := RoundPage(maxaddr - memheap) / 4096 % 0x1_0000_0000;
      EntriesSuffice(memheap, maxaddr);
      RangeInMemory(mem[..], memheap, maxaddr);
      assert Ok();
      var r := PgFreeRange(memheap, maxaddr);
    }

    /** pgalloc a page and link it into slot i of a table: PA2PTE of the new page, then `| PTE_V`. */
    method NewTable(table: Word, i: nat) returns (child: Word)
      requires Ok() && free != []
      requires table % 4096 == 0 && i < 512
      requires table / 4096 in own && own[table / 4096].Table? && own[table / 4096].level > 0
      requires At(mem[..], table / 4096, i) == 0
      modifies this`pgfreelist, this`free, this`own, mem
      ensures Ok()
      ensures child == old(free)[0] * 4096 && free == old(free)[1..] && Link(old(free)[0]) < TWO64
      ensures TableLinked(old(mem[..]), mem[..], old(own), own, table / 4096, i, old(free)[0])
      ensures TookTables(old(own), old(free), own, free, 1)
    {
      hide *;
      OkIs();
      ghost var m0, own0, p, c := mem[..], own, table / 4096, free[0];
      FreeHead(m0, own0, pgfreelist, free);
      child := PgAlloc();
      OkIs();
      ghost var m1 := mem[..];
      LinkWord(c);
      LinkIs(c);
      PageIn(m1, own, p);
      WordIndex(m1, table, i);
      mem[table / 8 + i] := Pa2Pte(child);
      mem[table / 8 + i] := BitOr(mem[table / 8 + i], PTE_V);
      BitOrIs(Pa2Pte(child), PTE_V);
      StoreIs(m1, mem[..], p, i, Link(c));
      own := own0[c := Table(own0[p].root, own0[p].level - 1, own0[p].prefix * 512 + i, p, i)];
      TableMade(m0, m1, own0, pgfreelist, free, p, i, c);
      TookOne(m0, own0, old(free), p, i);
      IsOk();
    }

    /** The level-0 table under an existing level-1 table: follow the link or create it. */
    method LowTable(lvl1: Word, va1: nat, ghost r: nat, ghost va2: nat) returns (lvl0: Word)
      requires Ok() && va2 < 512 && va1 < 512 && IsRoot(own, r)
      requires HasMid(mem[..], r, va2) && lvl1 == Child(At(mem[..], r, va2)) * 4096
      requires MissingAt(mem[..], r, va2, va1) <= |free|
      modifies this`pgfreelist, this`free, this`own, mem
      ensures Ok() && lvl0 % 4096 == 0
      ensures PathReady(old(mem[..]), mem[..], old(own), own, old(free), free, r, va2, va1, lvl0 / 4096)
    {
      hide *;
      OkIs();
      ghost var m0, own0, free0 := mem[..], own, free;
      ghost var q := Child(At(m0, r, va2));
      PathMid(m0, own0, free0, r, va2, va1);
      WordIndex(m0, lvl1, va1);
      if And(mem[lvl1 / 8 + va1], PTE_V) != 0 {
        lvl0 := Pte2Pa(mem[lvl1 / 8 + va1]);
        PathThere(m0, own0, free0, r, va2, va1);
      } else {
        lvl0 := NewTable(lvl1, va1);
        PathLow(m0, mem[..], own0, own, free0, free, r, va2, va1, q);
      }
    }

    /** A new level-1 table and a new level-0 table below it. */
    method NewPath(pagetable: Word, va2: nat, va1: nat) returns (lvl0: Word)
      requires Ok() && va2 < 512 && va1 < 512
      requires pagetable % 4096 == 0 && IsRoot(own, pagetable / 4096)
      requires !HasMid(mem[..], pagetable / 4096, va2) && 2 <= |free|
      modifies this`pgfreelist, this`free, this`own, mem
      ensures Ok() && lvl0 % 4096 == 0
      ensures PathReady(old(mem[..]), mem[..], old(own), own, old(free), free, pagetable / 4096, va2, va1, lvl0 / 4096)
    {
      hide *;
      OkIs();
      ghost var m0, own0, free0, r := mem[..], own, free, pagetable / 4096;
      PathTop(m0, own0, r, va2);
      var lvl1 := NewTable(pagetable, va2);
      ghost var m1, own1, free1 := mem[..], own, free;
      NewIsEmpty(m0, m1, own0, own1, r, va2, free0[0], va1);
      lvl0 := NewTable(lvl1, va1);
      PathBoth(m0, m1, mem[..], own0, own1, own, free0, free1, free, r, va2, va1);
    }

    /** The walk of pgTraverseAndCreate down to the level-0 table, creating what is missing. */
    method FindLow(pagetable: Word, va2: nat, va1: nat) returns (lvl0: Word)
      requires Ok() && va2 < 512 && va1 < 512
      requires pagetable % 4096 == 0 && IsRoot(own, pagetable / 4096)
      requires MissingAt(mem[..], pagetable / 4096, va2, va1) <= |free|
      modifies this`pgfreelist, this`free, this`own, mem
      ensures Ok() && lvl0 % 4096 == 0
      ensures PathReady(old(mem[..]), mem[..], old(own), own, old(free), free, pagetable / 4096, va2, va1, lvl0 / 4096)
    {
      hide *;
      OkIs();
      ghost var r := pagetable / 4096;
      PathTop(mem[..], own, r, va2);
      MissingTop(mem[..], r, va2, va1);
      WordIndex(mem[..], pagetable, va2);
      if And(mem[pagetable / 8 + va2], PTE_V) != 0 {
        lvl0 := LowTable(Pte2Pa(mem[pagetable / 8 + va2]), va1, r, va2);
      } else {
        lvl0 := NewPath(pagetable, va2, va1);
      }
    }

    /** map.c, pgTraverseAndCreate */
    method PgTraverseAndCreate(pagetable: Word, va: Word, attr: nat, pa: Word) returns (result: int)
      requires Ok() && attr < 1024
      requires pagetable % 4096 == 0 && IsRoot(own, pagetable / 4096)
      requires Missing(mem[..], pagetable / 4096, PageOf(va)) <= |free|
      modifies this`pgfreelist, this`free, this`own, mem
      ensures Ok() && result == OK
      ensures Remapped(old(mem[..]), mem[..], old(own), pagetable / 4096, PageOf(va), 1, pa, attr)
      ensures TookTables(old(own), old(free), own, free, old(Missing(mem[..], pagetable / 4096, PageOf(va))))
      ensures Prefixed(old(mem[..]), mem[..], old(own), pagetable / 4096, {PageOf(va) / 0x4_0000}, {PageOf(va) / 512})
      ensures SameData(old(mem[..]), mem[..], old(own))
    {
      hide *;
      var va2, va1, va0 := Index2(va), Index1(va), Index0(va);
      ghost var m0, own0, free0, r := mem[..], own, free, pagetable / 4096;
      PageDigits(va);
      MissingIs(m0, r, va2, va1, va0);
      var lvl0 := FindLow(pagetable, va2, va1);
      OkIs();
      ghost var m2, p := mem[..], lvl0 / 4096;
      LeafWritten(m0, m2, own0, own, pgfreelist, free0, free, r, va2, va1, va0, p, pa, attr);
      WordIndex(m2, lvl0, va0);
      LeafWordIs(pa, attr);
      mem[lvl0 / 8 + va0] := Pa2Pte(pa);
      mem[lvl0 / 8 + va0] := BitOr(BitOr(mem[lvl0 / 8 + va0], attr), PTE_V);
      StoreIs(m2, mem[..], p, va0, LeafWord(pa, attr));
      IsOk();
      return OK;
    }

    /** map.c, mapAddress */
    method MapAddress(pagetable: Word, va: Word, pa: Word, length: Word, attr: nat) returns (result: int)
      requires Ok() && attr < 1024
      requires pagetable % 4096 == 0 && IsRoot(own, pagetable / 4096)
      requires (FirstPage(va) + PageCount(length)) * 4096 <= 0x80_0000_0000
      requires Needed(mem[..], pagetable / 4096, FirstPage(va), PageCount(length)) <= |free|
      modifies this`pgfreelist, this`free, this`own, mem
      ensures Ok() && result == if length == 0 then SYSERR else OK
      ensures Step(old(Now()), Mapped(pagetable / 4096, FirstPage(va), PageCount(length), pa, attr), Now())
    {
      hide *;
      ghost var m0, own0, free0, r, lo, n := mem[..], own, free, pagetable / 4096, FirstPage(va), PageCount(length);
      ghost var s := Now();
      NowIs();
      RangeStart(m0, own0, free0, r, lo, pa, attr);
      SameDataHere(m0, own0);
      RangeBounds(va, length);
      Codes();
      PhysStep(pa, 0);
      if length == 0 {
        MappedStep(s, Now(), r, lo, n, pa, attr);
        return SYSERR;
      }
      var nlength := RoundPage(length);
      var addr := TruncPage(va);
      var end := Add(addr, nlength);
      var physicaladdr := pa;
      ghost var k := 0;
      while addr < end
        invariant k <= n && addr == (lo + k) * 4096 && physicaladdr == PhysAt(pa, k)
        invariant Ok()
        invariant Remapped(m0, mem[..], own0, r, lo, k, pa, attr)
        invariant Prefixed(m0, mem[..], own0, r, Mids2(lo, k), Lows2(lo, k))
        invariant TookTables(own0, free0, own, free, Needed(m0, r, lo, k))
        invariant SameData(m0, mem[..], own0)
        decreases n - k
      {
        ghost var m1, own1, free1 := mem[..], own, free;
        EnoughForNext(m0, m1, own0, own1, free0, free1, r, lo, k, n);
        PageOfStep(addr, lo + k);
        var step := PgTraverseAndCreate(pagetable, addr, attr, physicaladdr);
        RangeStep(m0, m1, mem[..], own0, own1, own, free0, free1, free, r, lo, k, pa, attr);
        SameDataTwice(m0, m1, mem[..], own0, free0, own1, free1, Needed(m0, r, lo, k));
        PhysStep(pa, k);
        if step == SYSERR {
          return SYSERR;
        }
        addr := Add(addr, 4096);
        physicaladdr := Add(physicaladdr, 4096);
        k := k + 1;
      }
      NowIs();
      MappedStep(s, Now(), r, lo, n, pa, attr);
      return OK;
    }

    /** map.c, mapPage; the page argument is not used. */
    method MapPage(pagetable: Word, pg: Word, va: Word, attr: nat, pa: Word) returns (result: int)
      requires Ok() && attr < 1024
      requires pagetable % 4096 == 0 && IsRoot(own, pagetable / 4096)
      requires Missing(mem[..], pagetable / 4096, PageOf(va)) <= |free|
      modifies this`pgfreelist, this`free, this`own, mem
      ensures Ok() && result == OK
      ensures Step(old(Now()), Mapped(pagetable / 4096, PageOf(va), 1, pa, attr), Now())
    {
      hide *;
      var addr := TruncPage(va);
      ghost var s := Now();
      NowIs();
      OnePage(mem[..], pagetable / 4096, PageOf(va));
      SamePage(va);
      Codes();
      var r := PgTraverseAndCreate(pagetable, addr, attr, pa);
      NowIs();
      MappedStep(s, Now(), pagetable / 4096, PageOf(va), 1, pa, attr);
      if r == SYSERR {
        return SYSERR;
      }
      return OK;
    }

    /** A freshly allocated page starts serving as a root table; nothing is written. */
    ghost method AdoptRoot(p: nat)
      requires Ok() && p in own && own[p] == Data && ZeroPage(mem[..], p)
      modifies this`own
      ensures Ok() && own == old(own)[p := Table(p, 2, 0, p, 0)]
      ensures Step(old(Now()), Rooted(p), Now())
    {
      hide *;
      OkIs();
      NowIs();
      ghost var s := Now();
      RootMade(mem[..], own, p);
      ApartStill(free, own, own, own[p := Table(p, 2, 0, p, 0)], p);
      own := own[p := Table(p, 2, 0, p, 0)];
      IsOk();
      NowIs();
      RootedStep(s, Now(), p);
    }

    /** A store through a pointer to an allocated page that is not a table. */
    method WriteData(page: Word, i: nat, w: Word)
      requires Ok() && page % 4096 == 0 && i < 512 && page / 4096 in own && own[page / 4096] == Data
      modifies mem
      ensures Ok() && SameTables(old(mem[..]), mem[..], own) && SameViews(old(mem[..]), mem[..], own)
      ensures At(mem[..], page / 4096, i) == w && Step(old(Now()), Wrote(page / 4096), Now())
    {
      hide *;
      OkIs();
      NowIs();
      ghost var s := Now();
      ghost var m0, p := mem[..], page / 4096;
      DataWritten(m0, own, pgfreelist, free, p, i, w);
      WordIndex(m0, page, i);
      mem[page / 8 + i] := w;
      StoreIs(m0, mem[..], p, i, w);
      AtStore(m0, p, i, w, p, i);
      IsOk();
      NowIs();
      WroteStep(s, Now(), p);
    }

    lemma OkIs()
      requires Ok()
      ensures Trees(mem[..], own) && FreeList(mem[..], pgfreelist, free) && Apart(free, own)
    {
    }

    lemma IsOk()
      requires Trees(mem[..], own) && FreeList(mem[..], pgfreelist, free) && Apart(free, own)
      ensures Ok()
    {
    }

    lemma NowIs()
      ensures Now() == State(mem[..], pgfreelist, free, own)
      ensures Ok() == Consistent(Now())
    {
    }
  }

  lemma Codes()
    ensures OK == 1 && SYSERR == -1
  {
  }
}
