/** The single steps of pgTraverseAndCreate and pgalloc as changes of the memory contents. */
module MapSteps {
  import opened Bits
  import opened SafeMem
  import opened PageTables
  import opened PageRanges

  /** The word a table pointer and an index address, and its V-bit test. */
  lemma WordIndex(m: Mem, table: Word, i: nat)
    requires table % 4096 == 0 && InMem(m, table / 4096) && i < 512
    ensures table / 8 + i < |m| && m[table / 8 + i] == At(m, table / 4096, i)
    ensures table / 8 + i == table / 4096 * 512 + i
    ensures (And(m[table / 8 + i], PTE_V) != 0) == Valid(At(m, table / 4096, i))
  {
    assert table / 8 == table / 4096 * 512;
    EntryBits(At(m, table / 4096, i));
  }

  lemma StoreIs(m: Mem, m': Mem, p: nat, i: nat, w: Word)
    requires InMem(m, p) && i < 512 && p * 512 + i < |m| && m' == m[p * 512 + i := w]
    ensures m' == Store(m, p, i, w)
  {
  }

  lemma PageIn(m: Mem, own: Roles, p: nat)
    requires Trees(m, own) && p in own
    ensures InMem(m, p)
  {
  }

  lemma FreeHead(m: Mem, own: Roles, head: Word, free: seq<nat>)
    requires Trees(m, own) && FreeList(m, head, free) && Apart(free, own) && free != []
    ensures free[0] !in own && InMem(m, free[0]) && free[0] * 4096 < TWO64 && Link(free[0]) < TWO64
  {
    assert InMem(m, free[0]);
  }

  lemma LinkIs(c: nat)
    ensures 0 <= Link(c) == c * 1024 + 1
    ensures Link(c) < TWO64 ==> Link(c) < 0x1_0000_0000_0000_0000
  {
  }

  lemma BitOrIs(x: Word, y: Word)
    ensures BitOr(x, y) == Or(x, y)
  {
  }

  lemma LeafWordIs(pa: Word, attr: nat)
    requires attr < 1024
    ensures LeafWord(pa, attr) == BitOr(BitOr(Pa2Pte(pa), attr), PTE_V)
  {
  }

  /** The page of the 39-bit address space an address falls in. */
  function PageOf(va: Word): nat {
    va / 4096 % 0x800_0000
  }

  /** The first page of the range starting at va, and the pages a length rounds up to. */
  function FirstPage(va: Word): nat {
    TruncPage(va) / 4096
  }

  function PageCount(length: Word): nat {
    RoundPage(length) / 4096
  }

  lemma RangeBounds(va: Word, length: Word)
    requires (FirstPage(va) + PageCount(length)) * 4096 <= 0x80_0000_0000
    ensures TruncPage(va) == FirstPage(va) * 4096
    ensures Add(TruncPage(va), RoundPage(length)) == (FirstPage(va) + PageCount(length)) * 4096
    ensures length == 0 ==> PageCount(length) == 0
  {
    hide TruncPage, RoundPage;
    PageRounding(va);
    PageRounding(length);
    Multiple(TruncPage(va), va / 4096);
    Multiple(RoundPage(length), if length + 4095 < TWO64 then (length + 4095) / 4096 else 0);
  }

  lemma Multiple(x: nat, q: nat)
    requires x == q * 4096
    ensures x / 4096 == q
  {
  }

  lemma SameDataHere(m: Mem, own: Roles)
    ensures SameData(m, m, own)
  {
  }

  lemma PageOfStep(addr: Word, v: nat)
    requires addr == v * 4096 && addr + 4096 <= 0x80_0000_0000
    ensures PageOf(addr) == v < 0x800_0000 && Add(addr, 4096) == (v + 1) * 4096
  {
  }

  lemma SamePage(va: Word)
    ensures PageOf(TruncPage(va)) == PageOf(va)
  {
    hide TruncPage;
    PageRounding(va);
    Multiple(TruncPage(va), va / 4096);
  }

  lemma PageDigits(va: Word)
    ensures Index2(va) < 512 && Index1(va) < 512 && Index0(va) < 512
    ensures PageOf(va) == Vpn(Index2(va), Index1(va), Index0(va)) < 0x800_0000
    ensures PageOf(va) / 0x4_0000 == Index2(va) && PageOf(va) / 512 == Index2(va) * 512 + Index1(va)
  {
    IndicesAreVpn(va);
    var t := va / 4096;
    var h, v := t / 0x800_0000, t % 0x800_0000;
    DivUnique(va, 0x20_0000, t / 512, t % 512 * 4096 + va % 4096);
    DivUnique(va, 0x4000_0000, t / 0x4_0000, t % 0x4_0000 * 4096 + va % 4096);
    VpnParts(t, h, v);
  }

  lemma VpnParts(t: nat, h: nat, v: nat)
    requires v < 0x800_0000 && t == h * 0x800_0000 + v
    ensures v / 0x4_0000 == t / 0x4_0000 % 512 < 512
    ensures v / 512 % 512 == t / 512 % 512 < 512
    ensures v % 512 == t % 512 < 512
    ensures v / 512 == v / 0x4_0000 * 512 + v / 512 % 512
  {
    var a, b, d := v / 0x4_0000, v / 512, v % 512;
    assert b == a * 512 + b % 512 by {
      DivUnique(b, 512, a, b - a * 512);
    }
    DivUnique(t, 512, h * 0x4_0000 + b, d);
    DivUnique(t, 0x4_0000, h * 512 + a, v % 0x4_0000);
    DivUnique(h * 512 + a, 512, h, a);
    DivUnique(h * 0x4_0000 + b, 512, h * 512 + a, b % 512);
  }

  /** The V-bit test of the source. */
  lemma EntryBits(e: Word)
    ensures (And(e, PTE_V) != 0) == Valid(e)
  {
    BitZero(e);
  }

  /** A table c was popped and linked at slot i of table p; no other word of any page handed out changed. */
  ghost predicate TableLinked(m: Mem, m': Mem, own: Roles, own': Roles, p: nat, i: nat, c: nat)
    requires p in own && own[p].Table? && own[p].level > 0
  {
    var role := own[p];
    && c !in own
    && own' == own[c := Table(role.root, role.level - 1, role.prefix * 512 + i, p, i)]
    && At(m', p, i) == Link(c) && ZeroPage(m', c)
    && (forall q, j: nat | q in own && j < 512 && !(q == p && j == i) :: At(m', q, j) == At(m, q, j))
    && Grown(m, m', own, role.root, if role.level == 2 then {i} else {},
             if role.level == 1 then {role.prefix * 512 + i} else {})
  }

  lemma PathTop(m: Mem, own: Roles, r: nat, a: nat)
    requires Trees(m, own) && IsRoot(own, r) && a < 512
    ensures InMem(m, r) && r in own && own[r] == Table(r, 2, 0, r, 0)
    ensures !HasMid(m, r, a) ==> At(m, r, a) == 0
    ensures HasMid(m, r, a) == Valid(At(m, r, a))
    ensures Valid(At(m, r, a)) ==>
              var q := Child(At(m, r, a));
              q in own && own[q] == Table(r, 1, a, r, a) && Pte2Pa(At(m, r, a)) == q * 4096 && InMem(m, q)
  {
    assert SlotOk(m, own, r, a);
    LinkFacts(Child(At(m, r, a)));
    if Valid(At(m, r, a)) {
      LinkWord(Child(At(m, r, a)));
    }
  }

  lemma PathMid(m: Mem, own: Roles, free: seq<nat>, r: nat, a: nat, b: nat)
    requires Trees(m, own) && IsRoot(own, r) && a < 512 && b < 512 && HasMid(m, r, a)
    requires MissingAt(m, r, a, b) <= |free|
    ensures HasLowAt(m, r, a, b) == Valid(At(m, Child(At(m, r, a)), b))
    ensures !HasLowAt(m, r, a, b) ==> free != []
    ensures var q := Child(At(m, r, a));
            && q in own && own[q] == Table(r, 1, a, r, a) && InMem(m, q) && q * 4096 < TWO64
            && (!Valid(At(m, q, b)) ==> At(m, q, b) == 0)
            && (Valid(At(m, q, b)) ==>
                  var p := Child(At(m, q, b));
                  && p in own && own[p] == Table(r, 0, a * 512 + b, q, b)
                  && Pte2Pa(At(m, q, b)) == p * 4096 && InMem(m, p))
  {
    PathDown(m, own, r, a, b);
    var q := Child(At(m, r, a));
    assert InMem(m, q);
    if Valid(At(m, q, b)) {
      assert InMem(m, Child(At(m, q, b)));
      LinkWord(Child(At(m, q, b)));
    }
  }

  /** How many tables are missing on the way to the level-0 table with digits a, b. */
  ghost function MissingAt(m: Mem, r: nat, a: nat, b: nat): nat {
    if !HasMid(m, r, a) then 2 else if !HasLowAt(m, r, a, b) then 1 else 0
  }

  lemma MissingTop(m: Mem, r: nat, a: nat, b: nat)
    ensures !HasMid(m, r, a) ==> MissingAt(m, r, a, b) == 2
  {
  }

  lemma MissingIs(m: Mem, r: nat, a: nat, b: nat, d: nat)
    requires a < 512 && b < 512 && d < 512
    ensures Missing(m, r, Vpn(a, b, d)) == MissingAt(m, r, a, b)
  {
    Undigits(Vpn(a, b, d), a, b, d);
    InSets(m, r, a, b);
  }

  lemma InSets(m: Mem, r: nat, a: nat, b: nat)
    requires a < 512 && b < 512
    ensures (a in Mids(m, r)) == HasMid(m, r, a)
    ensures (a * 512 + b in Lows(m, r)) == HasLowAt(m, r, a, b)
  {
    DivUnique(a * 512 + b, 512, a, b);
    assert (a * 512 + b in Lows(m, r)) == HasLow(m, r, a * 512 + b);
  }

  /** The level-0 table for digits a, b is in place at page p, and only the missing tables were added. */
  ghost predicate PathReady(m: Mem, m': Mem, own: Roles, own': Roles, free: seq<nat>, free': seq<nat>,
                            r: nat, a: nat, b: nat, p: nat) {
    && HasLowAt(m', r, a, b)
    && p == Child(At(m', Child(At(m', r, a)), b))
    && Grown(m, m', own, r, {a}, {a * 512 + b})
    && TookTables(own, free, own', free', MissingAt(m, r, a, b))
    && SameData(m, m', own)
  }

  lemma PathThere(m: Mem, own: Roles, free: seq<nat>, r: nat, a: nat, b: nat)
    requires a < 512 && b < 512 && HasLowAt(m, r, a, b)
    ensures PathReady(m, m, own, own, free, free, r, a, b, Child(At(m, Child(At(m, r, a)), b)))
  {
    InSets(m, r, a, b);
    assert Mids(m, r) == Mids(m, r) + {a};
    assert Lows(m, r) == Lows(m, r) + {a * 512 + b};
    assert Pages(free[..0]) == {};
  }

  lemma NewIsEmpty(m: Mem, m': Mem, own: Roles, own': Roles, p: nat, i: nat, c: nat, j: nat)
    requires p in own && own[p].Table? && own[p].level > 0 && TableLinked(m, m', own, own', p, i, c) && j < 512
    ensures c in own' && own'[c] == Table(own[p].root, own[p].level - 1, own[p].prefix * 512 + i, p, i)
    ensures At(m', c, j) == 0
  {
  }

  lemma PathLow(m: Mem, m': Mem, own: Roles, own': Roles, free: seq<nat>, free': seq<nat>, r: nat, a: nat, b: nat,
                q: nat)
    requires Trees(m, own) && IsRoot(own, r) && a < 512 && b < 512 && free != []
    requires HasMid(m, r, a) && q == Child(At(m, r, a))
    requires q in own && own[q] == Table(r, 1, a, r, a) && !Valid(At(m, q, b))
    requires TableLinked(m, m', own, own', q, b, free[0])
    requires TookTables(own, free, own', free', 1) && Link(free[0]) < TWO64
    ensures PathReady(m, m', own, own', free, free', r, a, b, free[0])
  {
    hide At, Child, Link, Valid, View, Mids, Lows, Trees, TookTables;
    LinkFacts(free[0]);
    assert At(m', r, a) == At(m, r, a);
    assert At(m', q, b) == Link(free[0]);
    InSets(m, r, a, b);
    assert Mids(m, r) + {a} == Mids(m, r) == Mids(m, r) + {};
    assert {a * 512 + b} + {} == {a * 512 + b};
  }

  lemma PathBoth(m: Mem, m1: Mem, m2: Mem, own: Roles, own1: Roles, own2: Roles,
                 free: seq<nat>, free1: seq<nat>, free2: seq<nat>, r: nat, a: nat, b: nat)
    requires IsRoot(own, r) && a < 512 && b < 512 && free != [] && free1 != []
    requires !HasMid(m, r, a)
    requires TableLinked(m, m1, own, own1, r, a, free[0])
    requires TableLinked(m1, m2, own1, own2, free[0], b, free1[0])
    requires TookTables(own, free, own1, free1, 1) && TookTables(own1, free1, own2, free2, 1)
    requires Link(free[0]) < TWO64 && Link(free1[0]) < TWO64
    ensures PathReady(m, m2, own, own2, free, free2, r, a, b, free1[0])
  {
    TookMore(own, free, own1, free1, own2, free2, 1, 1);
    hide At, Child, Link, Valid, View, Mids, Lows, Grown;
    LinkFacts(free[0]);
    LinkFacts(free1[0]);
    assert forall q, j: nat | q in own && j < 512 && own[q] == Data :: At(m1, q, j) == At(m, q, j);
    assert At(m2, r, a) == At(m1, r, a) == Link(free[0]);
    assert At(m2, free[0], b) == Link(free1[0]);
    GrownTwice(m, m1, m2, own, own1, r, a, a * 512 + b);
  }

  lemma GrownTwice(m: Mem, m1: Mem, m2: Mem, own: Roles, own1: Roles, r: nat, a: nat, b: nat)
    requires forall r' | IsRoot(own, r') :: IsRoot(own1, r')
    requires Grown(m, m1, own, r, {a}, {}) && Grown(m1, m2, own1, r, {}, {b})
    ensures Grown(m, m2, own, r, {a}, {b})
  {
    hide View, Mids, Lows;
    PrefixedStep(m, m1, m2, own, own1, r, {a}, {}, {}, {b});
    assert {a} + {} == {a} && {} + {b} == {b};
  }

  lemma LeafWritten(m: Mem, m2: Mem, own: Roles, own2: Roles, head: Word, free: seq<nat>, free2: seq<nat>,
                    r: nat, a: nat, b: nat, d: nat, p: nat, pa: Word, attr: nat)
    requires IsRoot(own, r) && a < 512 && b < 512 && d < 512 && attr < 1024
    requires Trees(m2, own2) && FreeList(m2, head, free2) && Apart(free2, own2)
    requires PathReady(m, m2, own, own2, free, free2, r, a, b, p)
    ensures InMem(m2, p)
    ensures var m3 := Store(m2, p, d, LeafWord(pa, attr));
            && Trees(m3, own2) && FreeList(m3, head, free2)
            && Remapped(m, m3, own, r, Vpn(a, b, d), 1, pa, attr)
            && Prefixed(m, m3, own, r, {a}, {a * 512 + b})
            && TookTables(own, free, own2, free2, MissingAt(m, r, a, b))
            && SameData(m, m3, own)
  {
    hide *;
    LeafWordValid(pa, attr);
    PathReadyIs(m, m2, own, own2, free, free2, r, a, b, p);
    LeafFreeList(m2, own2, head, free2, p, d, LeafWord(pa, attr));
    var m3 := Store(m2, p, d, LeafWord(pa, attr));
    LeafStore(m2, own2, r, a, b, d, p, LeafWord(pa, attr));
    LeafRemaps(m, m2, m3, own, own2, r, Vpn(a, b, d), {a}, {a * 512 + b}, pa, attr);
    LeafKeepsData(m, m2, own, p, d, LeafWord(pa, attr));
  }

  lemma LeafKeepsData(m: Mem, m2: Mem, own: Roles, p: nat, d: nat, w: Word)
    requires InMem(m2, p) && d < 512 && SameData(m, m2, own) && (p in own ==> own[p].Table?)
    ensures SameData(m, Store(m2, p, d, w), own)
  {
    StoreEverywhere(m2, p, d, w);
    hide At, Store;
  }

  lemma LeafWordValid(pa: Word, attr: nat)
    requires attr < 1024
    ensures Valid(LeafWord(pa, attr))
  {
    LeafWordFields(pa, attr);
    Odd(LeafWord(pa, attr), pa / 4096 * 512 + Or(attr, PTE_V) / 2);
  }

  lemma PathReadyIs(m: Mem, m': Mem, own: Roles, own': Roles, free: seq<nat>, free': seq<nat>, r: nat, a: nat, b: nat,
                    p: nat)
    requires Trees(m', own') && IsRoot(own, r) && a < 512 && b < 512
    requires PathReady(m, m', own, own', free, free', r, a, b, p)
    ensures HasLowAt(m', r, a, b) && p == Child(At(m', Child(At(m', r, a)), b))
    ensures Grown(m, m', own, r, {a}, {a * 512 + b})
    ensures TookTables(own, free, own', free', MissingAt(m, r, a, b))
    ensures SameData(m, m', own) && (p in own ==> own[p].Table?)
    ensures p in own' && InMem(m', p) && forall r' | IsRoot(own, r') :: IsRoot(own', r')
  {
    assert IsRoot(own', r);
    PathDown(m', own', r, a, b);
  }

  lemma LeafFreeList(m: Mem, own: Roles, head: Word, free: seq<nat>, p: nat, i: nat, w: Word)
    requires InMem(m, p) && i < 512 && p in own && FreeList(m, head, free) && Apart(free, own)
    ensures FreeList(Store(m, p, i, w), head, free)
  {
    forall k | 0 <= k < |free|
      ensures At(Store(m, p, i, w), free[k], 0) == At(m, free[k], 0)
    {
      AtStore(m, p, i, w, free[k], 0);
    }
    FreeListFrame(m, Store(m, p, i, w), head, free);
  }

  lemma LeafRemaps(m: Mem, m2: Mem, m3: Mem, own: Roles, own2: Roles, r: nat, v: nat, ms: set<nat>, ls: set<nat>,
                   pa: Word, attr: nat)
    requires attr < 1024
    requires forall r' | IsRoot(own, r') :: IsRoot(own2, r')
    requires Grown(m, m2, own, r, ms, ls)
    requires forall r', v': nat | IsRoot(own2, r') && v' < 0x800_0000 ::
               View(m3, r', v') == if r' == r && v' == v then LeafWord(pa, attr) else View(m2, r', v')
    requires forall r' | IsRoot(own2, r') :: Mids(m3, r') == Mids(m2, r') && Lows(m3, r') == Lows(m2, r')
    ensures Remapped(m, m3, own, r, v, 1, pa, attr)
    ensures Prefixed(m, m3, own, r, ms, ls)
  {
    hide View, Mids, Lows, LeafWord;
    PhysStep(pa, 0);
  }

  lemma TookOne(m: Mem, own: Roles, free: seq<nat>, p: nat, i: nat)
    requires Trees(m, own) && free != [] && free[0] !in own
    requires p in own && own[p].Table? && own[p].level > 0
    ensures TookTables(own, free,
                       own[free[0] := Table(own[p].root, own[p].level - 1, own[p].prefix * 512 + i, p, i)], free[1..],
                       1)
  {
    assert LinkedOk(m, own, p);
    assert Pages(free[..1]) == {free[0]};
  }

  lemma TableMade(m: Mem, m1: Mem, own: Roles, head: Word, free: seq<nat>, p: nat, i: nat, c: nat)
    requires p in own && own[p].Table? && own[p].level > 0 && i < 512 && At(m, p, i) == 0
    requires c !in own && Trees(m, own) && Trees(m1, own[c := Data])
    requires FreeList(m1, head, free) && Apart(free, own[c := Data])
    requires ZeroPage(m1, c) && SameTables(m, m1, own) && SameData(m, m1, own) && SameViews(m, m1, own)
    requires Link(c) < TWO64
    ensures var m2 := Store(m1, p, i, Link(c));
            var own2 := own[c := Table(own[p].root, own[p].level - 1, own[p].prefix * 512 + i, p, i)];
            Trees(m2, own2) && FreeList(m2, head, free) && Apart(free, own2) && TableLinked(m, m2, own, own2, p, i, c)
  {
    hide *;
    var own1 := own[c := Data];
    PageIn(m1, own1, p);
    LinkIs(c);
    var m2 := Store(m1, p, i, Link(c));
    var own2 := own[c := Table(own[p].root, own[p].level - 1, own[p].prefix * 512 + i, p, i)];
    assert own1[c := Table(own[p].root, own[p].level - 1, own[p].prefix * 512 + i, p, i)] == own2;
    SameSlot(m, m1, own, p, i);
    LinkStore(m1, own1, p, i, c);
    LinkStoreViews(m1, own1, p, i, c);
    LeafFreeList(m1, own1, head, free, p, i, Link(c));
    StoreEverywhere(m1, p, i, Link(c));
    LinkedIntro(m, m1, m2, own, own1, own2, p, i, c);
    ApartStill(free, own, own1, own2, c);
  }

  lemma SameSlot(m: Mem, m1: Mem, own: Roles, p: nat, i: nat)
    requires SameTables(m, m1, own) && p in own && own[p].Table? && i < 512
    ensures At(m1, p, i) == At(m, p, i)
  {
  }

  lemma StoreEverywhere(m: Mem, p: nat, i: nat, w: Word)
    requires InMem(m, p) && i < 512
    ensures forall q, j: nat | j < 512 :: At(Store(m, p, i, w), q, j) == if q == p && j == i then w else At(m, q, j)
  {
    forall q, j: nat | j < 512
      ensures At(Store(m, p, i, w), q, j) == if q == p && j == i then w else At(m, q, j)
    {
      AtStore(m, p, i, w, q, j);
    }
  }

  lemma ApartStill(free: seq<nat>, own: Roles, own1: Roles, own2: Roles, c: nat)
    requires Apart(free, own1) && own1.Keys == own2.Keys
    ensures Apart(free, own2)
  {
  }

  lemma LinkedIntro(m: Mem, m1: Mem, m2: Mem, own: Roles, own1: Roles, own2: Roles, p: nat, i: nat, c: nat)
    requires p in own && own[p].Table? && own[p].level > 0 && i < 512 && c !in own
    requires own1 == own[c := Data]
    requires own2 == own[c := Table(own[p].root, own[p].level - 1, own[p].prefix * 512 + i, p, i)]
    requires ZeroPage(m1, c) && SameTables(m, m1, own) && SameData(m, m1, own) && SameViews(m, m1, own)
    requires Link(c) < TWO64
    requires forall q, j: nat | j < 512 :: At(m2, q, j) == if q == p && j == i then Link(c) else At(m1, q, j)
    requires forall r, v: nat | IsRoot(own1, r) && v < 0x800_0000 :: View(m2, r, v) == View(m1, r, v)
    requires forall r | IsRoot(own1, r) ::
               && Mids(m2, r) == (if r == own[p].root && own[p].level == 2 then Mids(m1, r) + {i} else Mids(m1, r))
               && Lows(m2, r) == (if r == own[p].root && own[p].level == 1
                                  then Lows(m1, r) + {own[p].prefix * 512 + i} else Lows(m1, r))
    ensures TableLinked(m, m2, own, own2, p, i, c)
  {
    hide At, View, Mids, Lows, Link;
    assert forall r | IsRoot(own, r) :: IsRoot(own1, r);
  }

  /** Popping and clearing the head page keeps the rest of the list and every table. */
  lemma PageTaken(m: Mem, m': Mem, head: Word, free: seq<nat>, own: Roles)
    requires free != [] && Trees(m, own) && FreeList(m, head, free) && Apart(free, own)
    requires |m'| == |m|
    requires forall k | 0 <= k < |m| :: m'[k] == if free[0] * 512 <= k < free[0] * 512 + 512 then 0 else m[k]
    ensures Trees(m', own[free[0] := Data])
    ensures FreeList(m', At(m, free[0], 0), free[1..]) && Apart(free[1..], own[free[0] := Data])
    ensures ZeroPage(m', free[0]) && SameTables(m, m', own) && SameData(m, m', own) && SameViews(m, m', own)
  {
    var p := free[0];
    forall q, j: nat | j < 512
      ensures At(m', q, j) == if q == p then 0 else At(m, q, j)
    {
    }
    assert p !in own;
    TablesFrame(m, m', own, own[p := Data]);
    assert NextAt(m, free, 0);
    var rest := free[1..];
    forall k | 0 <= k < |rest|
      ensures InMem(m', rest[k]) && NextAt(m', rest, k)
    {
      assert rest[k] == free[k + 1] && InMem(m, free[k + 1]) && NextAt(m, free, k + 1);
    }
  }

  /** Pushing a page that is neither free nor a table, by writing the old head into its word 0. */
  lemma PageFreed(m: Mem, own: Roles, head: Word, free: seq<nat>, p: nat)
    requires Trees(m, own) && FreeList(m, head, free) && Apart(free, own)
    requires FreeablePage(m, own, free, p)
    ensures InMem(m, p) && p * 4096 < TWO64
    ensures var m' := Store(m, p, 0, head);
            && Trees(m', own - {p}) && FreeList(m', p * 4096, [p] + free) && Apart([p] + free, own - {p})
            && SameTables(m, m', own) && SameData(m, m', own - {p}) && SameViews(m, m', own)
  {
    var m' := Store(m, p, 0, head);
    StoreEverywhere(m, p, 0, head);
    TablesFrame(m, m', own, own - {p});
    PushList(m, m', head, free, p);
  }

  lemma PushList(m: Mem, m': Mem, head: Word, free: seq<nat>, p: nat)
    requires FreeList(m, head, free) && InMem(m, p) && p !in free && |m'| == |m|
    requires forall q, j: nat | j < 512 :: At(m', q, j) == if q == p && j == 0 then head else At(m, q, j)
    requires p * 4096 < TWO64
    ensures FreeList(m', p * 4096, [p] + free)
  {
    var pages := [p] + free;
    forall k | 0 <= k < |pages|
      ensures InMem(m', pages[k]) && NextAt(m', pages, k)
    {
      if k > 0 {
        assert pages[k] == free[k - 1] && InMem(m, free[k - 1]) && NextAt(m, free, k - 1);
      }
    }
  }

  /** Writing a data page touches no table and no free page. */
  lemma DataWritten(m: Mem, own: Roles, head: Word, free: seq<nat>, p: nat, i: nat, w: Word)
    requires Trees(m, own) && FreeList(m, head, free) && Apart(free, own)
    requires p in own && own[p] == Data && i < 512
    ensures InMem(m, p)
    ensures var m' := Store(m, p, i, w);
            Trees(m', own) && FreeList(m', head, free) && SameTables(m, m', own) && SameViews(m, m', own)
            && SameData(m, m', own - {p})
  {
    StoreEverywhere(m, p, i, w);
    TablesFrame(m, Store(m, p, i, w), own, own);
    LeafFreeList(m, own, head, free, p, i, w);
  }

  /** The pages first .. first+n-1, last one first: the order in which a range ends up on the list. */
  function PageRun(first: nat, n: nat): (s: seq<nat>)
    ensures |s| == n && forall k | 0 <= k < n :: s[k] == first + n - 1 - k
  {
    if n == 0 then [] else [first + n - 1] + PageRun(first, n - 1)
  }

  /** How many whole pages pgfreerange frees: pages that end strictly before `end`. */
  function RangePages(start: Word, end: Word): nat {
    if RoundPage(start) < end then (end - RoundPage(start) - 1) / 4096 else 0
  }

  /** The first whole page at or above an address. */
  function FirstWhole(start: Word): nat {
    RoundPage(start) / 4096
  }

  lemma RangeInMemory(m: Mem, start: Word, end: Word)
    requires 0 < start <= end <= |m| * 8 && end <= 0x100_0000_0000_0000
    ensures forall p: nat | FirstWhole(start) <= p < FirstWhole(start) + RangePages(start, end) ::
              FreeablePage(m, map[], [], p)
  {
    hide RoundPage;
    PageRounding(start);
    Multiple(RoundPage(start), (start + 4095) / 4096);
    forall p: nat | FirstWhole(start) <= p < FirstWhole(start) + RangePages(start, end)
      ensures InMem(m, p)
    {
      RangeCount(start, end, p - FirstWhole(start));
    }
  }

  lemma RangeCount(start: Word, end: Word, k: nat)
    requires start <= end <= 0x100_0000_0000_0000
    ensures RoundPage(start) % 4096 == 0 && RoundPage(start) <= end + 4095
    ensures k < RangePages(start, end) <==> RoundPage(start) + k * 4096 + 4096 < end
    ensures RoundPage(start) == FirstWhole(start) * 4096
  {
    hide RoundPage;
    PageRounding(start);
    var d := end - RoundPage(start);
    Multiple(RoundPage(start), (start + 4095) / 4096);
    if d > 0 {
      var q := (d - 1) / 4096;
      assert k < q <==> k * 4096 + 4096 <= d - 1;
    }
  }

  /** The pages of a range freed so far, and one more. */
  lemma RunStep(first: nat, k: nat, free: seq<nat>, own: Roles)
    ensures [first + k] + (PageRun(first, k) + free) == PageRun(first, k + 1) + free
    ensures own - Interval(first, first + k) - {first + k} == own - Interval(first, first + k + 1)
  {
    var e, e' := first + k, first + k + 1;
    assert forall x: nat :: Within(first, x, e') <==> Within(first, x, e) || x == e;
    assert Interval(first, e') == Interval(first, e) + {e};
  }

  /** A page a caller may free: in memory, not free already, and not part of a page table. */
  ghost predicate FreeablePage(m: Mem, own: Roles, free: seq<nat>, p: nat) {
    InMem(m, p) && p !in free && (p in own ==> own[p] == Data)
  }

  /** The pages first .. first+k-1 have been pushed, last on top; no tree and no other data page was touched. */
  ghost predicate Pushed(m: Mem, m': Mem, own: Roles, own': Roles, free: seq<nat>, free': seq<nat>, first: nat,
                         k: nat) {
    && |m'| == |m|
    && free' == PageRun(first, k) + free
    && own' == own - Interval(first, first + k)
    && SameData(m, m', own')
    && (forall r | IsRoot(own, r) :: IsRoot(own', r))
    && (forall r, v: nat | IsRoot(own, r) && v < 0x800_0000 :: View(m', r, v) == View(m, r, v))
  }

  lemma PushedNone(m: Mem, own: Roles, free: seq<nat>, first: nat)
    ensures Pushed(m, m, own, own, free, free, first, 0)
  {
    assert own - Interval(first, first + 0) == own;
  }

  lemma PushedMore(m: Mem, m1: Mem, m2: Mem, own: Roles, own1: Roles, free: seq<nat>, free1: seq<nat>, first: nat,
                   k: nat)
    requires Pushed(m, m1, own, own1, free, free1, first, k)
    requires FreeablePage(m1, own1, free1, first + k)
    requires |m2| == |m1| && SameViews(m1, m2, own1) && SameData(m1, m2, own1 - {first + k})
    ensures Pushed(m, m2, own, own1 - {first + k}, free, [first + k] + free1, first, k + 1)
  {
    hide View, Mids, Lows;
    RunStep(first, k, free, own);
    forall r | IsRoot(own, r)
      ensures IsRoot(own1 - {first + k}, r)
    {
      assert IsRoot(own1, r);
    }
  }

  lemma NextFreeable(m: Mem, m1: Mem, own: Roles, own1: Roles, free: seq<nat>, free1: seq<nat>, first: nat, k: nat,
                     n: nat)
    requires Pushed(m, m1, own, own1, free, free1, first, k) && k < n
    requires forall p: nat | first <= p < first + n :: FreeablePage(m, own, free, p)
    ensures FreeablePage(m1, own1, free1, first + k)
  {
    assert FreeablePage(m, own, free, first + k);
    StillFreeable(m, m1, own, free, first, k);
  }

  lemma FreeableIs(m: Mem, own: Roles, free: seq<nat>, p: nat)
    ensures FreeablePage(m, own, free, p) ==> InMem(m, p) && p !in free && (p in own ==> own[p] == Data)
  {
  }

  lemma StillFreeable(m: Mem, m': Mem, own: Roles, free: seq<nat>, first: nat, k: nat)
    requires FreeablePage(m, own, free, first + k) && |m'| == |m|
    ensures FreeablePage(m', own - Interval(first, first + k), PageRun(first, k) + free, first + k)
  {
    assert first + k !in PageRun(first, k);
  }

  /** What pgInit computes bounds what it frees. */
  lemma EntriesSuffice(memheap: Word, maxaddr: Word)
    requires memheap <= maxaddr <= 0x100_0000_0000_0000
    ensures RangePages(memheap, maxaddr) <= RoundPage(maxaddr - memheap) / 4096
  {
    hide RoundPage;
    PageRounding(memheap);
    PageRounding(maxaddr - memheap);
    Multiple(RoundPage(maxaddr - memheap), (maxaddr - memheap + 4095) / 4096);
    Multiple(RoundPage(memheap), (memheap + 4095) / 4096);
    if RoundPage(memheap) < maxaddr {
      DivLe(maxaddr - RoundPage(memheap) - 1, maxaddr - memheap + 4095);
    }
  }

  lemma DivLe(x: nat, y: nat)
    requires x <= y
    ensures x / 4096 <= y / 4096
  {
  }
}
