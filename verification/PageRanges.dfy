/** What mapping a range of pages changes, and how many new tables it takes. */
module PageRanges {
  import opened Bits
  import opened SafeMem
  import opened PageTables

  predicate Within(a: nat, x: nat, b: nat) {
    a <= x < b
  }

  /** The interval [a, b). */
  function Interval(a: nat, b: nat): set<nat> {
    set x: nat | x < b && Within(a, x, b)
  }

  lemma {:induction false} IntervalSize(a: nat, b: nat)
    requires a <= b
    ensures |Interval(a, b)| == b - a
    decreases b - a
  {
    if a < b {
      IntervalSize(a + 1, b);
      assert Interval(a, b) == {a} + Interval(a + 1, b) by {
        assert forall x: nat :: Within(a, x, b) <==> x == a || Within(a + 1, x, b);
      }
    } else {
      assert Interval(a, b) == {};
    }
  }

  /** The VPN[2] prefixes of pages lo .. lo+n-1. */
  function Mids2(lo: nat, n: nat): set<nat> {
    if n == 0 then {} else Interval(lo / 0x4_0000, (lo + n - 1) / 0x4_0000 + 1)
  }

  /** The VPN[2..1] prefixes of pages lo .. lo+n-1. */
  function Lows2(lo: nat, n: nat): set<nat> {
    if n == 0 then {} else Interval(lo / 512, (lo + n - 1) / 512 + 1)
  }

  /** Tables that mapping pages lo .. lo+n-1 of tree r has to create. */
  ghost function Needed(m: Mem, r: nat, lo: nat, n: nat): nat {
    |Mids2(lo, n) - Mids(m, r)| + |Lows2(lo, n) - Lows(m, r)|
  }

  /** A contiguous range needs at most this many new tables, whatever is already mapped. */
  function TableBound(n: nat): nat {
    if n == 0 then 0 else ((n - 1) / 512 + 2) + ((n - 1) / 0x4_0000 + 2)
  }

  lemma NeededBound(m: Mem, r: nat, lo: nat, n: nat)
    ensures Needed(m, r, lo, n) <= TableBound(n)
  {
    SubsetSize(Mids2(lo, n) - Mids(m, r), Mids2(lo, n));
    SubsetSize(Lows2(lo, n) - Lows(m, r), Lows2(lo, n));
    PrefixCount(lo, n);
  }

  lemma PrefixCount(lo: nat, n: nat)
    ensures n > 0 ==> |Mids2(lo, n)| == (lo + n - 1) / 0x4_0000 - lo / 0x4_0000 + 1
    ensures n > 0 ==> |Lows2(lo, n)| == (lo + n - 1) / 512 - lo / 512 + 1
    ensures |Mids2(lo, n)| + |Lows2(lo, n)| <= TableBound(n)
  {
    if n > 0 {
      Quotients(lo, n - 1);
      IntervalSize(lo / 0x4_0000, (lo + n - 1) / 0x4_0000 + 1);
      IntervalSize(lo / 512, (lo + n - 1) / 512 + 1);
    }
  }

  lemma Quotients(x: nat, d: nat)
    ensures x / 512 <= (x + d) / 512 <= x / 512 + d / 512 + 1
    ensures x / 0x4_0000 <= (x + d) / 0x4_0000 <= x / 0x4_0000 + d / 0x4_0000 + 1
  {
  }

  lemma {:induction false} SubsetSize(a: set<nat>, b: set<nat>)
    requires a <= b
    ensures |a| <= |b|
  {
    if a == {} {
    } else {
      var x :| x in a;
      SubsetSize(a - {x}, b - {x});
    }
  }

  /** Adding one prefix needs a table exactly when the prefix is new. */
  lemma AddOne(s: set<nat>, x: nat, have: set<nat>)
    ensures |(s + {x}) - have| == |s - have| + (if x in have + s then 0 else 1)
  {
    if x in have + s {
      assert (s + {x}) - have == s - have;
    } else {
      assert (s + {x}) - have == (s - have) + {x};
    }
  }

  lemma IntervalSnoc(a: nat, b: nat, x: nat)
    requires a < b && (x == b || x + 1 == b)
    ensures Interval(a, x + 1) == Interval(a, b) + {x}
  {
    forall y: nat ensures y in Interval(a, x + 1) <==> y in Interval(a, b) + {x} {
      assert Within(a, y, x + 1) <==> Within(a, y, b) || y == x;
    }
  }

  lemma OneInterval(a: nat)
    ensures Interval(a, a + 1) == {} + {a}
  {
    forall y: nat ensures y in Interval(a, a + 1) <==> y in {} + {a} {
      assert Within(a, y, a + 1) <==> y == a;
    }
  }

  lemma PrefixStep(lo: nat, n: nat)
    ensures Mids2(lo, n + 1) == Mids2(lo, n) + {(lo + n) / 0x4_0000}
    ensures Lows2(lo, n + 1) == Lows2(lo, n) + {(lo + n) / 512}
  {
    hide Interval;
    if n == 0 {
      OneInterval(lo / 0x4_0000);
      OneInterval(lo / 512);
    } else {
      Quotients(lo, n - 1);
      Quotients(lo + n - 1, 1);
      IntervalSnoc(lo / 0x4_0000, (lo + n - 1) / 0x4_0000 + 1, (lo + n) / 0x4_0000);
      IntervalSnoc(lo / 512, (lo + n - 1) / 512 + 1, (lo + n) / 512);
    }
  }

  /** How many tables page v of tree r still misses. */
  ghost function Missing(m: Mem, r: nat, v: nat): nat {
    (if v / 0x4_0000 in Mids(m, r) then 0 else 1) + (if v / 512 in Lows(m, r) then 0 else 1)
  }

  /** Need grows by what the next page misses once the earlier ones are mapped. */
  lemma NeededStep(m: Mem, m': Mem, r: nat, lo: nat, n: nat)
    requires Mids(m', r) == Mids(m, r) + Mids2(lo, n)
    requires Lows(m', r) == Lows(m, r) + Lows2(lo, n)
    ensures Needed(m, r, lo, n + 1) == Needed(m, r, lo, n) + Missing(m', r, lo + n)
  {
    PrefixStep(lo, n);
    AddOne(Mids2(lo, n), (lo + n) / 0x4_0000, Mids(m, r));
    AddOne(Lows2(lo, n), (lo + n) / 512, Lows(m, r));
  }

  lemma {:induction false} NeededMono(m: Mem, r: nat, lo: nat, k: nat, n: nat)
    requires k <= n
    ensures Needed(m, r, lo, k) <= Needed(m, r, lo, n)
    decreases n - k
  {
    if k == n {
    } else {
      PrefixStep(lo, k);
      SubsetSize(Mids2(lo, k) - Mids(m, r), Mids2(lo, k + 1) - Mids(m, r));
      SubsetSize(Lows2(lo, k) - Lows(m, r), Lows2(lo, k + 1) - Lows(m, r));
      NeededMono(m, r, lo, k + 1, n);
    }
  }

  /** From m to m' tree r gained the tables for the given prefixes, and no tree's views changed. */
  ghost predicate Grown(m: Mem, m': Mem, own: Roles, r: nat, ms: set<nat>, ls: set<nat>) {
    && (forall r', v: nat | IsRoot(own, r') && v < 0x800_0000 :: View(m', r', v) == View(m, r', v))
    && Prefixed(m, m', own, r, ms, ls)
  }

  ghost predicate Prefixed(m: Mem, m': Mem, own: Roles, r: nat, ms: set<nat>, ls: set<nat>) {
    && (forall r' | IsRoot(own, r') :: Mids(m', r') == if r' == r then Mids(m, r') + ms else Mids(m, r'))
    && (forall r' | IsRoot(own, r') :: Lows(m', r') == if r' == r then Lows(m, r') + ls else Lows(m, r'))
  }

  /** The k-th page-sized step from physical address pa. */
  function PhysAt(pa: Word, k: nat): Word {
    (pa + k * 4096) % TWO64
  }

  lemma PhysStep(pa: Word, k: nat)
    ensures PhysAt(pa, 0) == pa
    ensures Add(PhysAt(pa, k), 4096) == PhysAt(pa, k + 1)
    ensures PhysAt(PhysAt(pa, k), 0) == PhysAt(pa, k)
  {
    var x := pa + k * 4096;
    var q, r := x / TWO64, x % TWO64;
    var q', r' := (r + 4096) / TWO64, (r + 4096) % TWO64;
    DivUnique(x + 4096, TWO64, q + q', r');
  }

  /** From m to m' pages lo .. lo+n-1 of tree r were mapped to consecutive pages from pa, with flags
      attr|V; every other page of every tree kept its entry. */
  ghost predicate Remapped(m: Mem, m': Mem, own: Roles, r: nat, lo: nat, n: nat, pa: Word, attr: nat)
    requires attr < 1024
  {
    forall r', v: nat | IsRoot(own, r') && v < 0x800_0000 ::
      View(m', r', v) == if r' == r && lo <= v < lo + n then LeafWord(PhysAt(pa, v - lo), attr)
                         else View(m, r', v)
  }

  ghost function Pages(s: seq<nat>): set<nat> {
    set p | p in s
  }

  /** From (own, free) to (own', free') the first c free pages became tables; old roles stay. */
  ghost predicate TookTables(own: Roles, free: seq<nat>, own': Roles, free': seq<nat>, c: nat) {
    && c <= |free|
    && free' == free[c..]
    && own'.Keys == own.Keys + Pages(free[..c])
    && (forall p | p in own :: p in own' && own'[p] == own[p])
    && (forall p | p in own' && p !in own :: own'[p].Table? && own'[p].level < 2)
  }

  lemma TookMore(own: Roles, free: seq<nat>, own1: Roles, free1: seq<nat>, own2: Roles, free2: seq<nat>, c: nat, d: nat)
    requires TookTables(own, free, own1, free1, c) && TookTables(own1, free1, own2, free2, d)
    ensures TookTables(own, free, own2, free2, c + d)
  {
    assert free[..c + d] == free[..c] + free1[..d];
    assert Pages(free[..c + d]) == Pages(free[..c]) + Pages(free1[..d]);
    forall p | p in own2 && p !in own
      ensures own2[p].Table? && own2[p].level < 2
    {
      if p in own1 {
        assert own2[p] == own1[p];
      }
    }
  }

  lemma SameRoots(own: Roles, free: seq<nat>, own': Roles, free': seq<nat>, c: nat)
    requires TookTables(own, free, own', free', c)
    ensures forall r :: IsRoot(own, r) <==> IsRoot(own', r)
  {
    forall r | IsRoot(own', r)
      ensures IsRoot(own, r)
    {
      assert r in own;
    }
  }

  /** Mapping pages lo .. lo+k-1 and then page lo+k is mapping lo .. lo+k. */
  lemma RemapStep(m: Mem, m1: Mem, m2: Mem, own: Roles, own1: Roles, r: nat, lo: nat, k: nat, pa: Word, attr: nat)
    requires attr < 1024
    requires forall r' | IsRoot(own, r') :: IsRoot(own1, r')
    requires Remapped(m, m1, own, r, lo, k, pa, attr)
    requires Remapped(m1, m2, own1, r, lo + k, 1, PhysAt(pa, k), attr)
    ensures Remapped(m, m2, own, r, lo, k + 1, pa, attr)
  {
    hide LeafWord, View, PhysAt;
    PhysStep(pa, k);
  }

  lemma PrefixedStep(m: Mem, m1: Mem, m2: Mem, own: Roles, own1: Roles, r: nat, ms: set<nat>, ls: set<nat>,
                     ms': set<nat>, ls': set<nat>)
    requires forall r' | IsRoot(own, r') :: IsRoot(own1, r')
    requires Prefixed(m, m1, own, r, ms, ls)
    requires Prefixed(m1, m2, own1, r, ms', ls')
    ensures Prefixed(m, m2, own, r, ms + ms', ls + ls')
  {
    hide Mids, Lows;
    forall r' | IsRoot(own, r')
      ensures Mids(m2, r') == if r' == r then Mids(m, r') + (ms + ms') else Mids(m, r')
      ensures Lows(m2, r') == if r' == r then Lows(m, r') + (ls + ls') else Lows(m, r')
    {
      assert IsRoot(own1, r');
    }
  }

  /** Stores outside word 0 of the listed pages keep the free list. */
  lemma FreeListFrame(m: Mem, m': Mem, head: Word, pages: seq<nat>)
    requires FreeList(m, head, pages) && |m'| == |m|
    requires forall k | 0 <= k < |pages| :: At(m', pages[k], 0) == At(m, pages[k], 0)
    ensures FreeList(m', head, pages)
  {
    forall k | 0 <= k < |pages|
      ensures NextAt(m', pages, k) && InMem(m', pages[k])
    {
      assert NextAt(m, pages, k) && InMem(m, pages[k]);
    }
  }

  /** Nothing mapped yet. */
  lemma RangeStart(m: Mem, own: Roles, free: seq<nat>, r: nat, lo: nat, pa: Word, attr: nat)
    requires attr < 1024
    ensures Needed(m, r, lo, 0) == 0
    ensures Remapped(m, m, own, r, lo, 0, pa, attr)
    ensures Prefixed(m, m, own, r, Mids2(lo, 0), Lows2(lo, 0))
    ensures TookTables(own, free, own, free, 0)
  {
    hide LeafWord, View, Mids, Lows, PhysAt;
    assert {} - Mids(m, r) == {} && {} - Lows(m, r) == {};
    assert forall s: set<nat> :: s + {} == s;
    assert Pages(free[..0]) == {};
  }

  /** One iteration of mapAddress: what holds of the first k pages holds of the first k+1. */
  lemma RangeStep(m: Mem, m1: Mem, m2: Mem, own: Roles, own1: Roles, own2: Roles,
                  free: seq<nat>, free1: seq<nat>, free2: seq<nat>, r: nat, lo: nat, k: nat, pa: Word, attr: nat)
    requires attr < 1024 && IsRoot(own, r)
    requires Remapped(m, m1, own, r, lo, k, pa, attr) && Remapped(m1, m2, own1, r, lo + k, 1, PhysAt(pa, k), attr)
    requires Prefixed(m, m1, own, r, Mids2(lo, k), Lows2(lo, k))
    requires Prefixed(m1, m2, own1, r, {(lo + k) / 0x4_0000}, {(lo + k) / 512})
    requires TookTables(own, free, own1, free1, Needed(m, r, lo, k))
    requires TookTables(own1, free1, own2, free2, Missing(m1, r, lo + k))
    ensures Remapped(m, m2, own, r, lo, k + 1, pa, attr)
    ensures Prefixed(m, m2, own, r, Mids2(lo, k + 1), Lows2(lo, k + 1))
    ensures TookTables(own, free, own2, free2, Needed(m, r, lo, k + 1))
  {
    hide *;
    SameRoots(own, free, own1, free1, Needed(m, r, lo, k));
    RemapStep(m, m1, m2, own, own1, r, lo, k, pa, attr);
    PrefixedStep(m, m1, m2, own, own1, r, Mids2(lo, k), Lows2(lo, k), {(lo + k) / 0x4_0000}, {(lo + k) / 512});
    PrefixStep(lo, k);
    PrefixedAt(m, m1, own, r, Mids2(lo, k), Lows2(lo, k));
    NeededStep(m, m1, r, lo, k);
    TookMore(own, free, own1, free1, own2, free2, Needed(m, r, lo, k), Missing(m1, r, lo + k));
  }

  lemma SameDataTwice(m: Mem, m1: Mem, m2: Mem, own: Roles, free: seq<nat>, own1: Roles, free1: seq<nat>, c: nat)
    requires SameData(m, m1, own) && SameData(m1, m2, own1) && TookTables(own, free, own1, free1, c)
    ensures SameData(m, m2, own)
  {
    hide At;
    forall p, i: nat | p in own && own[p] == Data && i < 512
      ensures At(m2, p, i) == At(m, p, i)
    {
      assert p in own1 && own1[p] == Data;
    }
  }

  lemma PrefixedAt(m: Mem, m': Mem, own: Roles, r: nat, ms: set<nat>, ls: set<nat>)
    requires IsRoot(own, r) && Prefixed(m, m', own, r, ms, ls)
    ensures Mids(m', r) == Mids(m, r) + ms && Lows(m', r) == Lows(m, r) + ls
  {
  }

  /** Enough pages for the whole range are enough for the next page. */
  lemma EnoughForNext(m: Mem, m1: Mem, own: Roles, own1: Roles, free: seq<nat>, free1: seq<nat>, r: nat, lo: nat,
                      k: nat, n: nat)
    requires k < n && IsRoot(own, r) && Needed(m, r, lo, n) <= |free|
    requires Prefixed(m, m1, own, r, Mids2(lo, k), Lows2(lo, k))
    requires TookTables(own, free, own1, free1, Needed(m, r, lo, k))
    ensures IsRoot(own1, r) && Missing(m1, r, lo + k) <= |free1|
  {
    hide Needed, Mids, Lows, Mids2, Lows2, Missing;
    PrefixedAt(m, m1, own, r, Mids2(lo, k), Lows2(lo, k));
    NeededStep(m, m1, r, lo, k);
    NeededMono(m, r, lo, k + 1, n);
  }
}
