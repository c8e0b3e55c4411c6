/** Runs of the paging subsystem: every step the operations of Paging can take, as a relation
    between two states, and what holds of every run of such steps. */
module Runs {
  import opened Bits
  import opened SafeMem
  import opened PageTables
  import opened PageRanges

  datatype State = State(m: Mem, head: Word, free: seq<nat>, own: Roles)

  datatype Event =
    | Allocated
    | Freed(page: nat)
    | Rooted(page: nat)
    | Wrote(page: nat)
    | Mapped(root: nat, lo: nat, n: nat, pa: Word, attr: nat)

  ghost predicate Consistent(s: State) {
    Trees(s.m, s.own) && FreeList(s.m, s.head, s.free) && Apart(s.free, s.own)
  }

  ghost predicate Step(s: State, e: Event, t: State) {
    Consistent(s) && Consistent(t) &&
    match e
    case Allocated =>
      s.free != [] && t.free == s.free[1..] && t.own == s.own[s.free[0] := Data] && SameViews(s.m, t.m, s.own)
      && SameData(s.m, t.m, s.own) && ZeroPage(t.m, s.free[0])
    case Freed(p) =>
      p in s.own && s.own[p] == Data && t.free == [p] + s.free && t.own == s.own - {p} && SameViews(s.m, t.m, s.own)
      && SameData(s.m, t.m, t.own)
    case Rooted(p) =>
      p in s.own && s.own[p] == Data && ZeroPage(s.m, p)
      && t == s.(own := s.own[p := Table(p, 2, 0, p, 0)])
    case Wrote(p) =>
      p in s.own && s.own[p] == Data && t.free == s.free && t.own == s.own && SameViews(s.m, t.m, s.own)
      && SameData(s.m, t.m, s.own - {p})
    case Mapped(r, lo, n, pa, attr) =>
      attr < 1024 && IsRoot(s.own, r)
      && Remapped(s.m, t.m, s.own, r, lo, n, pa, attr)
      && TookTables(s.own, s.free, t.own, t.free, Needed(s.m, r, lo, n))
      && Prefixed(s.m, t.m, s.own, r, Mids2(lo, n), Lows2(lo, n))
      && SameData(s.m, t.m, s.own)
  }

  /** The entry the last mapping of page v of tree r left, or 0 if there is none. */
  function Lookup(log: seq<Event>, r: nat, v: nat): Word {
    if log == [] then 0
    else
      var rest := log[..|log| - 1];
      match log[|log| - 1]
      case Mapped(r', lo, n, pa, attr) =>
        if r' == r && lo <= v < lo + n && attr < 1024 then LeafWord(PhysAt(pa, v - lo), attr) else Lookup(rest, r, v)
      case Rooted(p) => if p == r then 0 else Lookup(rest, r, v)
      case _ => Lookup(rest, r, v)
  }

  /** Every page of every tree reads as the log says. */
  ghost predicate History(m: Mem, own: Roles, log: seq<Event>) {
    forall r, v: nat | IsRoot(own, r) && v < 0x800_0000 :: View(m, r, v) == Lookup(log, r, v)
  }

  /** All pages the subsystem manages. */
  ghost function Pool(s: State): set<nat> {
    Pages(s.free) + s.own.Keys
  }

  ghost predicate IsRun(states: seq<State>, log: seq<Event>) {
    |states| == |log| + 1 && forall i | 0 <= i < |log| :: Step(states[i], log[i], states[i + 1])
  }

  lemma LookupLast(log: seq<Event>, e: Event, r: nat, v: nat)
    ensures Lookup(log + [e], r, v)
            == match e
               case Mapped(r', lo, n, pa, attr) =>
                 if r' == r && lo <= v < lo + n && attr < 1024 then LeafWord(PhysAt(pa, v - lo), attr)
                 else Lookup(log, r, v)
               case Rooted(p) => if p == r then 0 else Lookup(log, r, v)
               case _ => Lookup(log, r, v)
  {
    assert (log + [e])[..|log + [e]| - 1] == log;
  }

  /** One step keeps the log in step with the memory. */
  lemma StepHistory(s: State, e: Event, t: State, log: seq<Event>)
    requires Step(s, e, t) && History(s.m, s.own, log)
    ensures History(t.m, t.own, log + [e])
  {
    hide View, LeafWord, PhysAt, Lookup, Trees, FreeList, Apart, Mids, Lows, Needed, Prefixed;
    forall r, v: nat | IsRoot(t.own, r) && v < 0x800_0000
      ensures View(t.m, r, v) == Lookup(log + [e], r, v)
    {
      LookupLast(log, e, r, v);
      if e.Rooted? && e.page == r {
        EmptyTree(s.m, r, v);
      } else {
        assert IsRoot(s.own, r);
      }
    }
  }

  lemma EmptyTree(m: Mem, p: nat, v: nat)
    requires ZeroPage(m, p) && v < 0x800_0000
    ensures View(m, p, v) == 0
  {
    assert At(m, p, v / 0x4_0000) == 0;
  }

  /** One step neither loses a page nor creates one, and no root ever stops being one. */
  lemma StepPool(s: State, e: Event, t: State)
    requires Step(s, e, t)
    ensures Pool(t) == Pool(s)
    ensures forall r | IsRoot(s.own, r) :: IsRoot(t.own, r)
  {
    hide View, LeafWord, PhysAt, Trees, FreeList, Mids, Lows, Needed, Prefixed, Remapped, SameViews;
    match e
    case Allocated =>
      assert s.free == [s.free[0]] + t.free;
      assert Pages(s.free) == {s.free[0]} + Pages(t.free);
      assert s.free[0] !in s.own;
    case Freed(p) =>
      assert Pages(t.free) == {p} + Pages(s.free);
    case Rooted(p) =>
    case Wrote(p) =>
    case Mapped(r, lo, n, pa, attr) =>
      var c := Needed(s.m, r, lo, n);
      assert s.free == s.free[..c] + s.free[c..];
      assert Pages(s.free) == Pages(s.free[..c]) + Pages(t.free);
      assert forall r' | IsRoot(s.own, r') :: r' in t.own && t.own[r'] == s.own[r'];
  }

  /** Over every run that starts before any page is handed out: each page of each tree reads as the
      last mapping of it (overlapping maps are last-wins, and no other tree's mapping, allocation,
      free or data write shows), and free plus allocated pages stay the same set. */
  lemma {:induction false} RunsAreLastWins(states: seq<State>, log: seq<Event>)
    requires IsRun(states, log) && states[0].own == map[]
    ensures History(states[|log|].m, states[|log|].own, log)
    ensures Pool(states[|log|]) == Pool(states[0])
  {
    hide Step, History, Pool, Lookup;
    if log != [] {
      var k := |log| - 1;
      var before, logBefore := states[..k + 1], log[..k];
      assert IsRun(before, logBefore) by {
        forall i | 0 <= i < k
          ensures Step(before[i], logBefore[i], before[i + 1])
        {
          assert Step(states[i], log[i], states[i + 1]);
        }
      }
      RunsAreLastWins(before, logBefore);
      assert Step(states[k], log[k], states[k + 1]);
      StepHistory(states[k], log[k], states[k + 1], logBefore);
      StepPool(states[k], log[k], states[k + 1]);
      assert logBefore + [log[k]] == log;
    } else {
      NoHistory(states[0]);
    }
  }

  lemma NoHistory(s: State)
    requires s.own == map[]
    ensures History(s.m, s.own, [])
  {
    assert forall r :: !IsRoot(s.own, r);
  }

  /** A page that stays handed out as data keeps every word over a run that does not write to it: page tables built
      and pages taken or freed beside it never touch it. */
  lemma {:induction false} DataSurvives(states: seq<State>, log: seq<Event>, p: nat, i: nat)
    requires IsRun(states, log) && i < 512
    requires forall k | 0 <= k < |states| :: p in states[k].own && states[k].own[p] == Data
    requires Wrote(p) !in log
    ensures At(states[|log|].m, p, i) == At(states[0].m, p, i)
    decreases |log|
  {
    hide View, At, Trees, FreeList, Apart, SameViews, Remapped, Prefixed, TookTables, ZeroPage, Lookup, Needed;
    if log == [] {
    } else {
      var k := |log| - 1;
      var before, logBefore := states[..k + 1], log[..k];
      forall i | 0 <= i < k ensures Step(before[i], logBefore[i], before[i + 1]) {
        assert Step(states[i], log[i], states[i + 1]);
      }
      DataSurvives(before, logBefore, p, i);
      assert Step(states[k], log[k], states[k + 1]);
      assert log[k] in log;
    }
  }

  /** In every reachable state the table pages of all trees are apart: a page is reached by one path
      of one tree only, tables of different levels never coincide, and none is on the free list. */
  lemma Separation(s: State, r: nat, a: nat, b: nat, r': nat, a': nat, b': nat)
    requires Consistent(s) && IsRoot(s.own, r) && IsRoot(s.own, r')
    requires a < 512 && b < 512 && a' < 512 && b' < 512
    requires HasLowAt(s.m, r, a, b) && HasLowAt(s.m, r', a', b')
    ensures var mid, mid' := Child(At(s.m, r, a)), Child(At(s.m, r', a'));
            var low, low' := Child(At(s.m, mid, b)), Child(At(s.m, mid', b'));
            && (mid == mid' <==> r == r' && a == a')
            && (low == low' <==> r == r' && a == a' && b == b')
            && r != mid' && r != low' && mid != low'
            && r !in s.free && mid !in s.free && low !in s.free
  {
    hide At, Child, Link, Valid, FreeList, Trees;
    PathDown(s.m, s.own, r, a, b);
    PathDown(s.m, s.own, r', a', b');
    Digits2(a, b, a', b');
  }

  lemma Digits2(a: nat, b: nat, a': nat, b': nat)
    requires b < 512 && b' < 512
    ensures a * 512 + b == a' * 512 + b' <==> a == a' && b == b'
  {
  }

  lemma MappedStep(s: State, t: State, r: nat, lo: nat, n: nat, pa: Word, attr: nat)
    requires Consistent(s) && Consistent(t) && attr < 1024 && IsRoot(s.own, r)
    requires Remapped(s.m, t.m, s.own, r, lo, n, pa, attr)
    requires TookTables(s.own, s.free, t.own, t.free, Needed(s.m, r, lo, n))
    requires Prefixed(s.m, t.m, s.own, r, Mids2(lo, n), Lows2(lo, n)) && SameData(s.m, t.m, s.own)
    ensures Step(s, Mapped(r, lo, n, pa, attr), t)
  {
  }

  /** A range of one page. */
  lemma OnePage(m: Mem, r: nat, v: nat)
    ensures Needed(m, r, v, 1) == Missing(m, r, v)
    ensures Mids2(v, 1) == {v / 0x4_0000} && Lows2(v, 1) == {v / 512}
  {
    hide *;
    PrefixStep(v, 0);
    NoPrefixes(m, r, v);
    NeededStep(m, m, r, v, 0);
  }

  lemma NoPrefixes(m: Mem, r: nat, v: nat)
    ensures Mids2(v, 0) == {} && Lows2(v, 0) == {} && Needed(m, r, v, 0) == 0
  {
    hide Mids, Lows;
    assert {} - Mids(m, r) == {} && {} - Lows(m, r) == {};
  }

  lemma FreedStep(s: State, t: State, p: nat)
    requires Consistent(s) && Consistent(t) && p in s.own && s.own[p] == Data
    requires t.free == [p] + s.free && t.own == s.own - {p} && SameViews(s.m, t.m, s.own)
    requires SameData(s.m, t.m, t.own)
    ensures Step(s, Freed(p), t)
  {
  }

  lemma RootedStep(s: State, t: State, p: nat)
    requires Consistent(s) && Consistent(t) && p in s.own && s.own[p] == Data && ZeroPage(s.m, p)
    requires t == s.(own := s.own[p := Table(p, 2, 0, p, 0)])
    ensures Step(s, Rooted(p), t)
  {
  }

  lemma WroteStep(s: State, t: State, p: nat)
    requires Consistent(s) && Consistent(t) && p in s.own && s.own[p] == Data
    requires t.free == s.free && t.own == s.own && SameViews(s.m, t.m, s.own) && SameData(s.m, t.m, s.own - {p})
    ensures Step(s, Wrote(p), t)
  {
  }
}
