/** create.c writes STACKMAGIC to word 0 of the page after the stack page it allocated (lines 74 and 75).  When that
    store harms the free list or a page table, and what the page after the first stack page is. */
module StackStore {
  import opened Bits
  import opened SafeMem
  import opened PageTables
  import opened PageRanges
  import opened MapSteps
  import opened Runs

  const STACKMAGIC: Word := 0x0A0A_AA99

  function Stored(s: State, q: nat): State
    requires InMem(s.m, q)
  {
    s.(m := Store(s.m, q, 0, STACKMAGIC))
  }

  /** After the store the free list and all trees are well formed and every tree reads as before. */
  ghost predicate Unharmed(s: State, q: nat)
    requires InMem(s.m, q)
  {
    Consistent(Stored(s, q)) && SameViews(s.m, Stored(s, q).m, s.own)
  }

  /** The store is harmless exactly when page q is not free and, if it is a table, held STACKMAGIC there already. */
  lemma StackMagicIff(s: State, q: nat)
    requires Consistent(s) && InMem(s.m, q)
    ensures Unharmed(s, q) <==> q !in s.free && (q in s.own && s.own[q].Table? ==> At(s.m, q, 0) == STACKMAGIC)
  {
    hide Trees, FreeList, SameViews, At, Unharmed;
    if q in s.free {
      HitsFreePage(s, q);
    } else if q in s.own && s.own[q].Table? {
      if At(s.m, q, 0) == STACKMAGIC {
        NothingStored(s, q);
      } else if s.own[q].level > 0 {
        HitsUpperTable(s, q);
      } else {
        HitsLeafTable(s, q);
      }
    } else {
      MissesAll(s, q);
    }
  }

  lemma MissesAll(s: State, q: nat)
    requires Consistent(s) && InMem(s.m, q) && q !in s.free && (q in s.own ==> s.own[q] == Data)
    ensures Unharmed(s, q)
  {
    hide At, Trees, SameViews;
    var t := Stored(s, q);
    StoreEverywhere(s.m, q, 0, STACKMAGIC);
    InMemory(s);
    TablesFrame(s.m, t.m, s.own, s.own);
    FreeListFrame(s.m, t.m, s.head, s.free);
  }

  lemma InMemory(s: State)
    requires Consistent(s)
    ensures forall p | p in s.own :: InMem(s.m, p)
  {
  }

  lemma NothingStored(s: State, q: nat)
    requires Consistent(s) && InMem(s.m, q) && q !in s.free && At(s.m, q, 0) == STACKMAGIC
    ensures Unharmed(s, q)
  {
    hide Trees, FreeList, Apart, View, Mids, Lows;
    assert s.m[q * 512 := s.m[q * 512]] == s.m;
    assert Stored(s, q) == s;
  }

  lemma HitsFreePage(s: State, q: nat)
    requires Consistent(s) && InMem(s.m, q) && q in s.free
    ensures !Unharmed(s, q)
  {
    hide Trees, SameViews;
    var k :| 0 <= k < |s.free| && s.free[k] == q;
    AtStore(s.m, q, 0, STACKMAGIC, q, 0);
    FreeListNext(Stored(s, q).m, s.head, s.free, k);
  }

  lemma HitsUpperTable(s: State, q: nat)
    requires Consistent(s) && InMem(s.m, q) && q in s.own && s.own[q].Table? && s.own[q].level > 0
    ensures !Unharmed(s, q)
  {
    hide FreeList, Apart, SameViews;
    AtStore(s.m, q, 0, STACKMAGIC, q, 0);
    TreesSlot(Stored(s, q).m, s.own, q, 0);
  }

  lemma FreeListNext(m: Mem, head: Word, pages: seq<nat>, k: nat)
    requires k < |pages|
    ensures FreeList(m, head, pages) ==> NextAt(m, pages, k)
  {
  }

  lemma TreesSlot(m: Mem, own: Roles, p: nat, i: nat)
    requires p in own && own[p].Table? && own[p].level > 0 && i < 512
    ensures Trees(m, own) ==> SlotOk(m, own, p, i)
  {
  }

  /** The word of a leaf table is the view of one page of its tree. */
  lemma LeafTableView(m: Mem, own: Roles, q: nat, d: nat)
    requires Trees(m, own) && q in own && own[q].Table? && own[q].level == 0 && d < 512
    ensures IsRoot(own, own[q].root) && own[q].prefix * 512 + d < 0x800_0000
    ensures View(m, own[q].root, own[q].prefix * 512 + d) == At(m, q, d)
  {
    hide At, Trees, Link, Child, Valid;
    TreesLinked(m, own, q);
    var parent, slot := own[q].parent, own[q].slot;
    TreesLinked(m, own, parent);
    var root, top := own[parent].parent, own[parent].slot;
    TreesLinked(m, own, root);
    LinkFacts(q);
    LinkFacts(parent);
    Undigits(own[q].prefix * 512 + d, top, slot, d);
  }

  lemma TreesLinked(m: Mem, own: Roles, p: nat)
    requires Trees(m, own) && p in own && own[p].Table?
    ensures LinkedOk(m, own, p)
  {
  }

  lemma HitsLeafTable(s: State, q: nat)
    requires Consistent(s) && InMem(s.m, q) && q in s.own && s.own[q].Table? && s.own[q].level == 0
    requires At(s.m, q, 0) != STACKMAGIC
    ensures !Unharmed(s, q)
  {
    hide Trees, FreeList, Apart, At, View, Mids, Lows;
    AtStore(s.m, q, 0, STACKMAGIC, q, 0);
    LeafTableView(s.m, s.own, q, 0);
    if Unharmed(s, q) {
      LeafTableView(Stored(s, q).m, s.own, q, 0);
    }
  }

  /** The free pages go down one by one. */
  ghost predicate Downwards(free: seq<nat>) {
    forall k | 0 <= k < |free| :: free[k] == free[0] - k
  }

  /** The page after the first free page is a table. */
  ghost predicate TableOnTop(s: State) {
    Downwards(s.free) && (s.free != [] ==> s.free[0] + 1 in s.own && s.own[s.free[0] + 1].Table?)
  }

  lemma RunDownwards(first: nat, n: nat)
    ensures Downwards(PageRun(first, n))
  {
    hide PageRun;
    var s := PageRun(first, n);
    assert forall k | 0 <= k < |s| :: s[k] == first + n - 1 - k;
  }

  lemma RestDownwards(free: seq<nat>, c: nat)
    requires Downwards(free) && c <= |free|
    ensures Downwards(free[c..]) && (0 < c < |free| ==> free[c..][0] + 1 == free[c - 1])
  {
    var rest := free[c..];
    forall k | 0 <= k < |rest| ensures rest[k] == rest[0] - k {
      assert rest[k] == free[c + k] && rest[0] == free[c];
    }
  }

  /** A new root taken from the list is the table on top of the rest. */
  lemma RootOnTop(s: State, t: State, p: nat)
    requires s.free != [] && p == s.free[0] && t.free == s.free[1..] && IsRoot(t.own, p) && Downwards(s.free)
    ensures TableOnTop(t)
  {
    RestDownwards(s.free, 1);
  }

  /** mapAddress takes its tables from the top. */
  lemma MappedOnTop(s: State, r: nat, lo: nat, n: nat, pa: Word, attr: nat, t: State)
    requires Step(s, Mapped(r, lo, n, pa, attr), t)
    ensures TableOnTop(s) ==> TableOnTop(t)
  {
    hide Consistent, Remapped, Prefixed, SameData, Needed;
    if TableOnTop(s) {
      var c := Needed(s.m, r, lo, n);
      TablesTaken(s, r, lo, n, pa, attr, t);
      RestDownwards(s.free, c);
      if c == 0 {
        assert t.free == s.free;
      } else if t.free != [] {
        assert s.free[c - 1] in s.free[..c];
      }
    }
  }

  lemma TablesTaken(s: State, r: nat, lo: nat, n: nat, pa: Word, attr: nat, t: State)
    requires Step(s, Mapped(r, lo, n, pa, attr), t)
    ensures var c := Needed(s.m, r, lo, n);
            && c <= |s.free| && t.free == s.free[c..] && (forall p | p in s.own :: p in t.own && t.own[p] == s.own[p])
            && forall p | p in s.free[..c] :: p in t.own && t.own[p].Table?
  {
    hide Trees, FreeList, Remapped, Prefixed, SameData, Needed;
    var c := Needed(s.m, r, lo, n);
    forall p | p in s.free[..c] ensures p in t.own && t.own[p].Table? {
      assert p in Pages(s.free[..c]);
      var k :| 0 <= k < c && s.free[k] == p;
      assert s.free[k] !in s.own;
    }
  }

  /** A table stays one: no operation gives a table page back or turns it into another table. */
  lemma {:induction false} TablesStay(states: seq<State>, log: seq<Event>, q: nat)
    requires IsRun(states, log) && q in states[0].own && states[0].own[q].Table?
    ensures q in states[|log|].own && states[|log|].own[q] == states[0].own[q]
    decreases |log|
  {
    hide Step;
    if log == [] {
    } else {
      var k := |log| - 1;
      var before, logBefore := states[..k + 1], log[..k];
      forall i | 0 <= i < k ensures Step(before[i], logBefore[i], before[i + 1]) {
        assert Step(states[i], log[i], states[i + 1]);
      }
      TablesStay(before, logBefore, q);
      TableStays(states[k], log[k], states[k + 1], q);
    }
  }

  lemma TableStays(s: State, e: Event, t: State, q: nat)
    requires Step(s, e, t) && q in s.own && s.own[q].Table?
    ensures q in t.own && t.own[q] == s.own[q]
  {
    hide Trees, FreeList, SameViews, SameData, Remapped, Prefixed, ZeroPage, Needed;
    if e.Allocated? {
      assert s.free[0] !in s.own;
    }
  }

  /** Flags below bit 9: all that any caller of mapAddress passes are. */
  ghost predicate ViewsLow(s: State) {
    forall r, v: nat | IsRoot(s.own, r) && v < 0x800_0000 :: View(s.m, r, v) % 1024 < 512
  }

  ghost predicate AttributesLow(log: seq<Event>) {
    forall i | 0 <= i < |log| && log[i].Mapped? :: log[i].attr < 512
  }

  lemma LeafLow(pa: Word, attr: nat)
    requires attr < 512
    ensures LeafWord(pa, attr) % 1024 < 512
  {
    hide Or;
    LeafWordFields(pa, attr);
    assert Pow2(9) == 512;
    OrBound(attr, PTE_V, 9);
    DivUnique(LeafWord(pa, attr), 1024, pa / 4096, Or(attr, PTE_V));
  }

  lemma StepLow(s: State, e: Event, t: State)
    requires Step(s, e, t) && ViewsLow(s) && (e.Mapped? ==> e.attr < 512)
    ensures ViewsLow(t)
  {
    hide Consistent, View, LeafWord, PhysAt, Prefixed, SameData, Needed, Mids, Lows;
    forall r, v: nat | IsRoot(t.own, r) && v < 0x800_0000 ensures View(t.m, r, v) % 1024 < 512 {
      if e.Rooted? && e.page == r {
        EmptyTree(s.m, r, v);
      } else {
        assert IsRoot(s.own, r);
        if e.Mapped? && r == e.root && e.lo <= v < e.lo + e.n {
          LeafLow(PhysAt(e.pa, v - e.lo), e.attr);
        }
      }
    }
  }

  lemma {:induction false} RunLow(states: seq<State>, log: seq<Event>)
    requires IsRun(states, log) && ViewsLow(states[0]) && AttributesLow(log)
    ensures ViewsLow(states[|log|])
    decreases |log|
  {
    hide Step, ViewsLow;
    if log == [] {
    } else {
      var k := |log| - 1;
      var before, logBefore := states[..k + 1], log[..k];
      forall i | 0 <= i < k ensures Step(before[i], logBefore[i], before[i + 1]) {
        assert Step(states[i], log[i], states[i + 1]);
      }
      RunLow(before, logBefore);
      assert Step(states[k], log[k], states[k + 1]);
      StepLow(states[k], log[k], states[k + 1]);
    }
  }

  /** No word of a table is STACKMAGIC: it is 0, a link or a leaf with low flags. */
  lemma NoMagicInTables(s: State, q: nat)
    requires Consistent(s) && ViewsLow(s) && q in s.own && s.own[q].Table?
    ensures At(s.m, q, 0) != STACKMAGIC
  {
    hide FreeList, Apart, View, At, Trees;
    if s.own[q].level == 0 {
      LeafTableView(s.m, s.own, q, 0);
    } else {
      TreesSlot(s.m, s.own, q, 0);
    }
  }

  /** With such flags only, the store is harmless exactly when the page is neither free nor a table. */
  lemma StackMagicExactly(s: State, q: nat)
    requires Consistent(s) && InMem(s.m, q) && ViewsLow(s)
    ensures Unharmed(s, q) <==> q !in s.free && (q in s.own ==> s.own[q] == Data)
  {
    hide Trees, FreeList, At, Unharmed, ViewsLow;
    StackMagicIff(s, q);
    if q in s.own && s.own[q].Table? {
      NoMagicInTables(s, q);
    }
  }

  /** ... so in every state a run reaches from the start. */
  lemma StackMagicAfterRuns(states: seq<State>, log: seq<Event>, q: nat)
    requires IsRun(states, log) && states[0].own == map[] && AttributesLow(log)
    requires Consistent(states[|log|]) && InMem(states[|log|].m, q)
    ensures var s := states[|log|];
            Unharmed(s, q) <==> q !in s.free && (q in s.own ==> s.own[q] == Data)
  {
    hide Step, Consistent, Unharmed, View;
    assert forall r :: !IsRoot(states[0].own, r);
    RunLow(states, log);
    StackMagicExactly(states[|log|], q);
  }

  /** The first create after boot: its stack page is the first free page, the page after it is a table and, whatever
      happens until the store, still is; so the store always harms it. */
  lemma FirstStackHarms(states: seq<State>, log: seq<Event>)
    requires IsRun(states, log) && log != [] && log[0] == Allocated && AttributesLow(log)
    requires TableOnTop(states[0]) && ViewsLow(states[0])
    ensures states[0].free != []
    ensures var q, s := states[0].free[0] + 1, states[|log|];
            q in s.own && s.own[q].Table? && InMem(s.m, q) && !Unharmed(s, q)
  {
    hide At, Trees, FreeList, Unharmed, SameViews, SameData, ZeroPage, ViewsLow;
    assert Step(states[0], log[0], states[1]);
    var last := |log| - 1;
    assert Step(states[last], log[last], states[last + 1]);
    var q, s := states[0].free[0] + 1, states[|log|];
    TablesStay(states, log, q);
    RunLow(states, log);
    InMemory(s);
    StackMagicExactly(s, q);
  }
}
