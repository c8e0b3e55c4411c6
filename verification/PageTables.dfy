/** Page tables and the free-page list as contents of one word-addressed memory.

    Page p occupies words p*512 .. p*512+511.  A ghost map `own` gives every page that has left
    the free list its role; the predicates below say what the memory words must be for it. */
module PageTables {
  import opened Bits

  type Mem = seq<Word>

  /** Data: handed out and not a table.  Table: the interior page of tree `root` that covers the
      addresses whose leading VPN digits are `prefix` (level 2 is the root table, level 0 holds
      leaves), linked from slot `slot` of page `parent`. */
  datatype Role = Data | Table(root: nat, level: nat, prefix: nat, parent: nat, slot: nat)

  type Roles = map<nat, Role>

  ghost predicate InMem(m: Mem, p: nat) {
    0 < p && p * 512 + 512 <= |m|
  }

  /** Word i of page p; 0 outside the memory. */
  function At(m: Mem, p: nat, i: nat): Word {
    if p * 512 + i < |m| then m[p * 512 + i] else 0
  }

  function Store(m: Mem, p: nat, i: nat, w: Word): Mem
    requires InMem(m, p) && i < 512
  {
    m[p * 512 + i := w]
  }

  predicate Valid(e: nat) {
    e % 2 == 1
  }

  function Child(e: Word): nat {
    e / 1024
  }

  /** The entry that links to table page c; also past the widest page, where no table can be. */
  function Link(c: nat): nat {
    c * 1024 + 1
  }

  lemma LinkFacts(c: nat)
    ensures Valid(Link(c)) && Link(c) / 1024 == c && Link(c) != 0 && !Valid(0)
    ensures Link(c) < TWO64 ==> Child(Link(c)) == c
  {
    Odd(Link(c), c * 512);
  }

  lemma Odd(x: nat, h: nat)
    requires x == 2 * h + 1
    ensures x % 2 == 1
  {
  }

  ghost predicate IsTable(own: Roles, p: nat, level: nat) {
    p in own && own[p].Table? && own[p].level == level
  }

  ghost predicate IsRoot(own: Roles, r: nat) {
    r in own && own[r] == Table(r, 2, 0, r, 0)
  }

  /** A slot of a level-2 or level-1 table is empty or links to the table one level down. */
  ghost predicate SlotOk(m: Mem, own: Roles, p: nat, i: nat)
    requires p in own && own[p].Table? && own[p].level > 0
  {
    var e := At(m, p, i);
    e == 0 || (e == Link(Child(e)) && Child(e) in own
               && own[Child(e)] == Table(own[p].root, own[p].level - 1, own[p].prefix * 512 + i, p, i))
  }

  /** A table is a root, or its parent links to it at the slot its prefix names. */
  ghost predicate LinkedOk(m: Mem, own: Roles, p: nat)
    requires p in own && own[p].Table?
  {
    var Table(root, level, prefix, parent, slot) := own[p];
    if level >= 2 then own[p] == Table(p, 2, 0, p, 0)
    else
      && IsTable(own, parent, level + 1)
      && own[parent].root == root
      && slot < 512 && prefix == own[parent].prefix * 512 + slot
      && At(m, parent, slot) == Link(p)
  }

  /** The structural invariant of all page tables in memory. */
  ghost predicate Trees(m: Mem, own: Roles) {
    && |m| <= 0x20_0000_0000_0000
    && (forall p | p in own :: InMem(m, p))
    && (forall p | p in own && own[p].Table? :: LinkedOk(m, own, p))
    && (forall p, i: nat | p in own && own[p].Table? && own[p].level > 0 && i < 512 :: SlotOk(m, own, p, i))
    && (forall p, i: nat | p in own && own[p].Table? && own[p].level == 0 && i < 512 ::
          At(m, p, i) == 0 || Valid(At(m, p, i)))
  }

  /** Word 0 of the k-th free page holds the address of the next one, or NULL. */
  ghost predicate NextAt(m: Mem, pages: seq<nat>, k: nat)
    requires k < |pages|
  {
    At(m, pages[k], 0) == if k + 1 < |pages| then pages[k + 1] * 4096 else 0
  }

  /** `pages` is the list threaded through word 0 of the free pages, from `head`. */
  ghost predicate FreeList(m: Mem, head: Word, pages: seq<nat>) {
    && |m| <= 0x20_0000_0000_0000
    && head == (if pages == [] then 0 else pages[0] * 4096)
    && (forall k | 0 <= k < |pages| :: InMem(m, pages[k]))
    && (forall k | 0 <= k < |pages| :: NextAt(m, pages, k))
    && (forall j, k | 0 <= j < k < |pages| :: pages[j] != pages[k])
  }

  ghost predicate Apart(pages: seq<nat>, own: Roles) {
    forall k | 0 <= k < |pages| :: pages[k] !in own
  }

  /** The slot for page v of the address space in tree r: 0 when a table on the way is missing. */
  function View(m: Mem, r: nat, v: nat): Word {
    ViewAt(m, r, v / 0x4_0000, v / 512 % 512, v % 512)
  }

  /** ... by the three digits of the page number. */
  function ViewAt(m: Mem, r: nat, a: nat, b: nat, d: nat): Word {
    if !Valid(At(m, r, a)) then 0
    else
      var e1 := At(m, Child(At(m, r, a)), b);
      if !Valid(e1) then 0 else At(m, Child(e1), d)
  }

  ghost predicate HasMid(m: Mem, r: nat, a: nat) {
    Valid(At(m, r, a))
  }

  ghost predicate HasLowAt(m: Mem, r: nat, a: nat, b: nat) {
    HasMid(m, r, a) && Valid(At(m, Child(At(m, r, a)), b))
  }

  ghost predicate HasLow(m: Mem, r: nat, b: nat) {
    HasLowAt(m, r, b / 512, b % 512)
  }

  /** The VPN[2] prefixes of tree r that have a level-1 table. */
  ghost function Mids(m: Mem, r: nat): set<nat> {
    set a: nat | a < 512 && HasMid(m, r, a)
  }

  /** The VPN[2..1] prefixes of tree r that have a level-0 table. */
  ghost function Lows(m: Mem, r: nat): set<nat> {
    set b: nat | b < 0x4_0000 && HasLow(m, r, b)
  }

  lemma AtStore(m: Mem, p: nat, i: nat, w: Word, q: nat, j: nat)
    requires InMem(m, p) && i < 512 && j < 512
    ensures At(Store(m, p, i, w), q, j) == if q == p && j == i then w else At(m, q, j)
  {
  }

  /** Two memories with the same words in every table page. */
  ghost predicate SameTables(m: Mem, m': Mem, own: Roles) {
    && |m'| == |m|
    && forall p, i: nat | p in own && own[p].Table? && i < 512 :: At(m', p, i) == At(m, p, i)
  }

  /** Two memories with the same words in every page that is handed out and not a table. */
  ghost predicate SameData(m: Mem, m': Mem, own: Roles) {
    forall p, i: nat | p in own && own[p] == Data && i < 512 :: At(m', p, i) == At(m, p, i)
  }

  /** Trees, views and prefix sets depend on the table pages only. */
  lemma TablesFrame(m: Mem, m': Mem, own: Roles, own': Roles)
    requires Trees(m, own)
    requires SameTables(m, m', own)
    requires forall p | p in own && own[p].Table? :: p in own' && own'[p] == own[p]
    requires forall p | p in own' && own'[p].Table? :: p in own && own[p] == own'[p]
    requires forall p | p in own' :: InMem(m', p)
    ensures Trees(m', own')
    ensures SameViews(m, m', own)
  {
    TreesFrame(m, m', own, own');
    hide At, Trees, SameTables, View, HasMid, HasLow;
    forall r, v: nat | IsRoot(own, r) && v < 0x800_0000
      ensures SameAt(m, m', r, v)
    {
      SamePath(m, m', own, r, v / 0x4_0000, v / 512 % 512, v % 512);
      SameFromDigits(m, m', r, v);
    }
    SameViewsFromPaths(m, m', own);
  }

  lemma SameFromDigits(m: Mem, m': Mem, r: nat, v: nat)
    requires var a, b, d := v / 0x4_0000, v / 512 % 512, v % 512;
             && ViewAt(m', r, a, b, d) == ViewAt(m, r, a, b, d)
             && HasMid(m', r, a) == HasMid(m, r, a) && HasLowAt(m', r, a, b) == HasLowAt(m, r, a, b)
    ensures SameAt(m, m', r, v)
  {
    hide ViewAt, HasLowAt, HasMid, At;
    LowDigits(v);
  }

  lemma LowDigits(v: nat)
    ensures v / 512 / 512 == v / 0x4_0000
  {
    var x := v / 512;
    DivUnique(v, 0x4_0000, x / 512, x % 512 * 512 + v % 512);
  }

  lemma TreesFrame(m: Mem, m': Mem, own: Roles, own': Roles)
    requires Trees(m, own)
    requires SameTables(m, m', own)
    requires forall p | p in own && own[p].Table? :: p in own' && own'[p] == own[p]
    requires forall p | p in own' && own'[p].Table? :: p in own && own[p] == own'[p]
    requires forall p | p in own' :: InMem(m', p)
    ensures Trees(m', own')
  {
    hide At, Child, Link, Valid;
    forall p | p in own' && own'[p].Table?
      ensures LinkedOk(m', own', p)
    {
      assert LinkedOk(m, own, p);
    }
    forall p, i: nat | p in own' && own'[p].Table? && own'[p].level > 0 && i < 512
      ensures SlotOk(m', own', p, i)
    {
      assert SlotOk(m, own, p, i);
    }
  }

  /** Everything tree r says about page v, unchanged from m to m'. */
  ghost predicate SameAt(m: Mem, m': Mem, r: nat, v: nat) {
    && View(m', r, v) == View(m, r, v)
    && HasMid(m', r, v / 0x4_0000) == HasMid(m, r, v / 0x4_0000)
    && HasLow(m', r, v / 512) == HasLow(m, r, v / 512)
  }

  ghost predicate SameViews(m: Mem, m': Mem, own: Roles) {
    && (forall r, v: nat | IsRoot(own, r) && v < 0x800_0000 :: View(m', r, v) == View(m, r, v))
    && (forall r | IsRoot(own, r) :: Mids(m', r) == Mids(m, r) && Lows(m', r) == Lows(m, r))
  }

  lemma SamePath(m: Mem, m': Mem, own: Roles, r: nat, a: nat, b: nat, d: nat)
    requires Trees(m, own) && IsRoot(own, r) && a < 512 && b < 512 && d < 512
    requires SameTables(m, m', own)
    ensures ViewAt(m', r, a, b, d) == ViewAt(m, r, a, b, d)
    ensures HasMid(m', r, a) == HasMid(m, r, a) && HasLowAt(m', r, a, b) == HasLowAt(m, r, a, b)
  {
    PathDown(m, own, r, a, b);
    hide At, Child, Link, Valid, Trees;
    assert At(m', r, a) == At(m, r, a);
    if HasMid(m, r, a) {
      var q := Child(At(m, r, a));
      assert At(m', q, b) == At(m, q, b);
    }
  }

  lemma SameViewsFromPaths(m: Mem, m': Mem, own: Roles)
    requires forall r, v: nat | IsRoot(own, r) && v < 0x800_0000 :: SameAt(m, m', r, v)
    ensures SameViews(m, m', own)
  {
    forall r | IsRoot(own, r)
      ensures Mids(m', r) == Mids(m, r) && Lows(m', r) == Lows(m, r)
    {
      forall a: nat | a < 512
        ensures HasMid(m', r, a) == HasMid(m, r, a)
      {
        assert SameAt(m, m', r, a * 0x4_0000);
      }
      forall b: nat | b < 0x4_0000
        ensures HasLow(m', r, b) == HasLow(m, r, b)
      {
        assert SameAt(m, m', r, b * 512);
      }
    }
    forall r, v: nat | IsRoot(own, r) && v < 0x800_0000
      ensures View(m', r, v) == View(m, r, v)
    {
      assert SameAt(m, m', r, v);
    }
  }

  /** Two tables of one tree with one level and one prefix are one page: no table is reached twice. */
  lemma {:induction false} TablePathsUnique(m: Mem, own: Roles, p: nat, p': nat)
    requires Trees(m, own)
    requires p in own && own[p].Table? && p' in own && own[p'].Table?
    requires own[p].root == own[p'].root && own[p].level == own[p'].level && own[p].prefix == own[p'].prefix
    ensures p == p'
    decreases 3 - own[p].level
  {
    assert LinkedOk(m, own, p) && LinkedOk(m, own, p');
    if own[p].level >= 2 {
    } else {
      TablePathsUnique(m, own, own[p].parent, own[p'].parent);
    }
  }

  /** Page number from its three VPN digits. */
  function Vpn(a: nat, b: nat, d: nat): nat {
    a * 0x4_0000 + b * 512 + d
  }

  /** Writing a leaf slot changes the view of exactly one page of exactly one tree. */
  lemma LeafStore(m: Mem, own: Roles, r: nat, a: nat, b: nat, d: nat, p: nat, w: Word)
    requires Trees(m, own) && IsRoot(own, r) && a < 512 && b < 512 && d < 512
    requires HasLowAt(m, r, a, b) && p == Child(At(m, Child(At(m, r, a)), b))
    requires Valid(w) && InMem(m, p)
    ensures var m' := Store(m, p, d, w);
            && Trees(m', own)
            && (forall r', v': nat | IsRoot(own, r') && v' < 0x800_0000 ::
                  View(m', r', v') == if r' == r && v' == Vpn(a, b, d) then w else View(m, r', v'))
            && (forall r' | IsRoot(own, r') :: Mids(m', r') == Mids(m, r') && Lows(m', r') == Lows(m, r'))
  {
    var m' := Store(m, p, d, w);
    forall q, j: nat | j < 512
      ensures At(m', q, j) == if q == p && j == d then w else At(m, q, j)
    {
      AtStore(m, p, d, w, q, j);
    }
    PathDown(m, own, r, a, b);
    LeafStoreTrees(m, m', own, p, d, w);
    forall r', v': nat | IsRoot(own, r') && v' < 0x800_0000
      ensures LeafStored(m, m', r', v', r, Vpn(a, b, d), w)
    {
      LeafStoreAt(m, m', own, r, a, b, d, p, w, r', v' / 0x4_0000, v' / 512 % 512, v' % 512);
      Undigits(v', a, b, d);
    }
    LeafStoredSets(m, m', own, r, Vpn(a, b, d), w);
  }

  lemma LeafStoreTrees(m: Mem, m': Mem, own: Roles, p: nat, d: nat, w: Word)
    requires Trees(m, own) && p in own && own[p].Table? && own[p].level == 0 && Valid(w) && |m'| == |m|
    requires forall q, j: nat | j < 512 :: At(m', q, j) == if q == p && j == d then w else At(m, q, j)
    ensures Trees(m', own)
  {
    hide At, Valid, Child, Link;
    forall q | q in own && own[q].Table? ensures LinkedOk(m', own, q) { assert LinkedOk(m, own, q); }
    forall q, j: nat | q in own && own[q].Table? && own[q].level > 0 && j < 512
      ensures SlotOk(m', own, q, j)
    {
      assert SlotOk(m, own, q, j);
    }
  }

  /** The tables on the way down, by digits. */
  lemma PathDown(m: Mem, own: Roles, r: nat, a: nat, b: nat)
    requires Trees(m, own) && IsRoot(own, r) && a < 512 && b < 512
    ensures HasMid(m, r, a) ==>
              var q := Child(At(m, r, a)); q in own && own[q] == Table(r, 1, a, r, a) && At(m, r, a) == Link(q)
    ensures HasLowAt(m, r, a, b) ==>
              var q := Child(At(m, r, a));
              var p := Child(At(m, q, b));
              p in own && own[p] == Table(r, 0, a * 512 + b, q, b) && At(m, q, b) == Link(p)
    ensures !HasMid(m, r, a) ==> At(m, r, a) == 0
    ensures HasMid(m, r, a) && !HasLowAt(m, r, a, b) ==> At(m, Child(At(m, r, a)), b) == 0
  {
    hide At, Child, Link, Valid;
    LinkFacts(0);
    assert SlotOk(m, own, r, a);
    var q := Child(At(m, r, a));
    LinkFacts(q);
    if HasMid(m, r, a) {
      assert SlotOk(m, own, q, b);
      LinkFacts(Child(At(m, q, b)));
    }
  }

  ghost predicate LeafStored(m: Mem, m': Mem, r': nat, v': nat, r: nat, v: nat, w: Word) {
    && View(m', r', v') == (if r' == r && v' == v then w else View(m, r', v'))
    && HasMid(m', r', v' / 0x4_0000) == HasMid(m, r', v' / 0x4_0000)
    && HasLow(m', r', v' / 512) == HasLow(m, r', v' / 512)
  }

  lemma LeafStoreAt(m: Mem, m': Mem, own: Roles, r: nat, a: nat, b: nat, d: nat, p: nat, w: Word,
                    r': nat, a': nat, b': nat, d': nat)
    requires Trees(m, own) && IsRoot(own, r) && a < 512 && b < 512 && d < 512
    requires IsRoot(own, r') && a' < 512 && b' < 512 && d' < 512
    requires HasLowAt(m, r, a, b) && p == Child(At(m, Child(At(m, r, a)), b))
    requires forall q, j: nat | j < 512 :: At(m', q, j) == if q == p && j == d then w else At(m, q, j)
    ensures ViewAt(m', r', a', b', d')
            == if r' == r && a' == a && b' == b && d' == d then w else ViewAt(m, r', a', b', d')
    ensures HasMid(m', r', a') == HasMid(m, r', a') && HasLowAt(m', r', a', b') == HasLowAt(m, r', a', b')
  {
    PathDown(m, own, r, a, b);
    PathDown(m, own, r', a', b');
    hide At, Child, Link, Valid, Trees;
    assert At(m', r', a') == At(m, r', a');
    if HasMid(m, r', a') {
      var q := Child(At(m, r', a'));
      assert At(m', q, b') == At(m, q, b');
    }
  }

  lemma LeafStoredSets(m: Mem, m': Mem, own: Roles, r: nat, v: nat, w: Word)
    requires forall r', v': nat | IsRoot(own, r') && v' < 0x800_0000 :: LeafStored(m, m', r', v', r, v, w)
    ensures forall r', v': nat | IsRoot(own, r') && v' < 0x800_0000 ::
              View(m', r', v') == if r' == r && v' == v then w else View(m, r', v')
    ensures forall r' | IsRoot(own, r') :: Mids(m', r') == Mids(m, r') && Lows(m', r') == Lows(m, r')
  {
    forall r' | IsRoot(own, r')
      ensures Mids(m', r') == Mids(m, r') && Lows(m', r') == Lows(m, r')
    {
      forall a: nat | a < 512
        ensures HasMid(m', r', a) == HasMid(m, r', a)
      {
        assert LeafStored(m, m', r', a * 0x4_0000, r, v, w);
      }
      forall b: nat | b < 0x4_0000
        ensures HasLow(m', r', b) == HasLow(m, r', b)
      {
        assert LeafStored(m, m', r', b * 512, r, v, w);
      }
    }
    forall r', v': nat | IsRoot(own, r') && v' < 0x800_0000
      ensures View(m', r', v') == if r' == r && v' == v then w else View(m, r', v')
    {
      assert LeafStored(m, m', r', v', r, v, w);
    }
  }

  ghost predicate ZeroPage(m: Mem, p: nat) {
    forall i: nat | i < 512 :: At(m, p, i) == 0
  }

  /** Linking a zeroed page into an empty slot makes it a table and changes no view. */
  lemma LinkStore(m: Mem, own: Roles, p: nat, i: nat, c: nat)
    requires Trees(m, own)
    requires p in own && own[p].Table? && own[p].level > 0 && i < 512 && At(m, p, i) == 0
    requires c in own && own[c] == Data && ZeroPage(m, c) && Link(c) < TWO64
    ensures var m' := Store(m, p, i, Link(c));
            var own' := own[c := Table(own[p].root, own[p].level - 1, own[p].prefix * 512 + i, p, i)];
            Trees(m', own')
  {
    var m' := Store(m, p, i, Link(c));
    var own' := own[c := Table(own[p].root, own[p].level - 1, own[p].prefix * 512 + i, p, i)];
    assert forall q, j: nat | j < 512 :: At(m', q, j) == if q == p && j == i then Link(c) else At(m, q, j) by {
      forall q, j: nat | j < 512
        ensures At(m', q, j) == if q == p && j == i then Link(c) else At(m, q, j)
      {
        AtStore(m, p, i, Link(c), q, j);
      }
    }
    hide At, Child, Link, Valid, Store;
    LinkFacts(c);
    assert LinkedOk(m, own, p);
    assert p != c;
    forall q | q in own' && own'[q].Table?
      ensures LinkedOk(m', own', q)
    {
      if q != c {
        assert LinkedOk(m, own, q);
        LinkFacts(q);
      }
    }
    forall q, j: nat | q in own' && own'[q].Table? && own'[q].level > 0 && j < 512
      ensures SlotOk(m', own', q, j)
    {
      if q != c {
        assert SlotOk(m, own, q, j);
      }
    }
  }

  /** ... the views before and after, page by page. */
  lemma LinkStoreViews(m: Mem, own: Roles, p: nat, i: nat, c: nat)
    requires Trees(m, own)
    requires p in own && own[p].Table? && own[p].level > 0 && i < 512 && At(m, p, i) == 0
    requires c in own && own[c] == Data && ZeroPage(m, c) && Link(c) < TWO64
    ensures var m' := Store(m, p, i, Link(c));
            var role := own[p];
            && (forall r, v: nat | IsRoot(own, r) && v < 0x800_0000 :: View(m', r, v) == View(m, r, v))
            && (forall r | IsRoot(own, r) ::
                  && Mids(m', r) == (if r == role.root && role.level == 2 then Mids(m, r) + {i} else Mids(m, r))
                  && Lows(m', r) == (if r == role.root && role.level == 1
                                     then Lows(m, r) + {role.prefix * 512 + i} else Lows(m, r)))
  {
    var m' := Store(m, p, i, Link(c));
    assert LinkedOk(m, own, p);
    forall q, j: nat | j < 512
      ensures At(m', q, j) == if q == p && j == i then Link(c) else At(m, q, j)
    {
      AtStore(m, p, i, Link(c), q, j);
    }
    forall r, v: nat | IsRoot(own, r) && v < 0x800_0000
      ensures Linked(m, m', own[p], i, r, v)
    {
      LinkStoreAt(m, m', own, p, i, c, r, v);
    }
    if own[p].level == 1 {
      assert LinkedOk(m, own, own[p].parent);
    }
    LinkedSets(m, m', own, own[p], i);
  }

  ghost predicate Linked(m: Mem, m': Mem, role: Role, i: nat, r: nat, v: nat)
    requires role.Table?
  {
    && View(m', r, v) == View(m, r, v)
    && HasMid(m', r, v / 0x4_0000)
       == (HasMid(m, r, v / 0x4_0000) || (r == role.root && role.level == 2 && v / 0x4_0000 == i))
    && HasLow(m', r, v / 512)
       == (HasLow(m, r, v / 512) || (r == role.root && role.level == 1 && v / 512 == role.prefix * 512 + i))
  }

  lemma LinkStoreAt(m: Mem, m': Mem, own: Roles, p: nat, i: nat, c: nat, r: nat, v: nat)
    requires Trees(m, own) && IsRoot(own, r) && v < 0x800_0000
    requires p in own && own[p].Table? && own[p].level > 0 && i < 512 && At(m, p, i) == 0
    requires c in own && own[c] == Data && ZeroPage(m, c) && Link(c) < TWO64
    requires forall q, j: nat | j < 512 ::
               At(m', q, j) == if q == p && j == i then Link(c) else At(m, q, j)
    ensures Linked(m, m', own[p], i, r, v)
  {
    var a, b, d := v / 0x4_0000, v / 512 % 512, v % 512;
    LinkStorePath(m, m', own, p, i, c, r, a, b, d);
    hide At, Valid, Child, Link, Trees;
    Undigits(v, a, b, d);
    Undigits2(v, own[p].prefix, i);
  }

  /** ... in terms of the three digits of the page. */
  lemma LinkStorePath(m: Mem, m': Mem, own: Roles, p: nat, i: nat, c: nat, r: nat, a: nat, b: nat, d: nat)
    requires Trees(m, own) && IsRoot(own, r) && a < 512 && b < 512 && d < 512
    requires p in own && own[p].Table? && own[p].level > 0 && i < 512 && At(m, p, i) == 0
    requires c in own && own[c] == Data && ZeroPage(m, c) && Link(c) < TWO64
    requires forall q, j: nat | j < 512 ::
               At(m', q, j) == if q == p && j == i then Link(c) else At(m, q, j)
    ensures HasMid(m', r, a) == (HasMid(m, r, a) || (r == own[p].root && own[p].level == 2 && a == i))
    ensures HasLowAt(m', r, a, b)
            == (HasLowAt(m, r, a, b) || (r == own[p].root && own[p].level == 1 && own[p].prefix == a && b == i))
    ensures ViewAt(m', r, a, b, d) == ViewAt(m, r, a, b, d)
  {
    if Valid(At(m, r, a)) {
      LinkStoreLow(m, m', own, p, i, c, r, a, b, d);
      assert LinkedOk(m, own, p);
    } else {
      LinkStoreTop(m, m', own, p, i, c, r, a, b, d);
    }
  }

  lemma LinkStoreTop(m: Mem, m': Mem, own: Roles, p: nat, i: nat, c: nat, r: nat, a: nat, b: nat, d: nat)
    requires Trees(m, own) && IsRoot(own, r) && a < 512 && b < 512 && d < 512
    requires p in own && own[p].Table? && own[p].level > 0 && i < 512 && At(m, p, i) == 0
    requires c in own && own[c] == Data && ZeroPage(m, c) && Link(c) < TWO64
    requires forall q, j: nat | j < 512 ::
               At(m', q, j) == if q == p && j == i then Link(c) else At(m, q, j)
    requires !Valid(At(m, r, a))
    ensures HasMid(m', r, a) == (r == own[p].root && own[p].level == 2 && a == i)
    ensures !HasLowAt(m', r, a, b) && !HasLowAt(m, r, a, b)
    ensures !(r == own[p].root && own[p].level == 1 && own[p].prefix == a)
    ensures ViewAt(m', r, a, b, d) == ViewAt(m, r, a, b, d)
  {
    hide At, Link, Child, Valid;
    LinkFacts(c);
    assert LinkedOk(m, own, p);
    if own[p].level == 1 && own[p].root == r && own[p].prefix == a {
      assert own[p].parent == r by { assert LinkedOk(m, own, own[p].parent); }
      assert At(m, r, a) == Link(p);
      LinkFacts(p);
    }
    if r == p && a == i {
      assert At(m', r, a) == Link(c) && Child(Link(c)) == c;
      assert At(m', c, b) == 0;
    } else {
      assert At(m', r, a) == At(m, r, a);
    }
  }

  lemma LinkStoreLow(m: Mem, m': Mem, own: Roles, p: nat, i: nat, c: nat, r: nat, a: nat, b: nat, d: nat)
    requires Trees(m, own) && IsRoot(own, r) && a < 512 && b < 512 && d < 512
    requires p in own && own[p].Table? && own[p].level > 0 && i < 512 && At(m, p, i) == 0
    requires c in own && own[c] == Data && ZeroPage(m, c) && Link(c) < TWO64
    requires forall q, j: nat | j < 512 ::
               At(m', q, j) == if q == p && j == i then Link(c) else At(m, q, j)
    requires Valid(At(m, r, a))
    ensures HasMid(m', r, a) && !(r == p && a == i)
    ensures HasLowAt(m', r, a, b)
            == (HasLowAt(m, r, a, b) || (r == own[p].root && own[p].level == 1 && own[p].prefix == a && b == i))
    ensures ViewAt(m', r, a, b, d) == ViewAt(m, r, a, b, d)
  {
    hide At, Link, Child, Valid;
    LinkFacts(c);
    assert SlotOk(m, own, r, a);
    var q := Child(At(m, r, a));
    assert own[q] == Table(r, 1, a, r, a);
    assert SlotOk(m, own, q, b);
    if own[p].level == 1 && own[p].root == r && own[p].prefix == a {
      TablePathsUnique(m, own, p, q);
    }
    if q == p && b == i {
      assert At(m', q, b) == Link(c);
      assert At(m', c, d) == 0;
    } else {
      assert At(m', q, b) == At(m, q, b);
      if Valid(At(m, q, b)) {
        assert own[Child(At(m, q, b))].level == 0;
      }
    }
  }

  lemma Undigits(v: nat, a: nat, b: nat, d: nat)
    requires a < 512 && b < 512 && d < 512
    ensures v == Vpn(v / 0x4_0000, v / 512 % 512, v % 512)
    ensures v / 512 / 512 == v / 0x4_0000 && v / 512 == v / 0x4_0000 * 512 + v / 512 % 512
    ensures v == Vpn(a, b, d) <==> v / 0x4_0000 == a && v / 512 % 512 == b && v % 512 == d
    ensures Vpn(a, b, d) / 512 == a * 512 + b
  {
    var x := v / 512;
    DivUnique(v, 0x4_0000, x / 512, x % 512 * 512 + v % 512);
    DivUnique(Vpn(a, b, d), 512, a * 512 + b, d);
    DivUnique(Vpn(a, b, d), 0x4_0000, a, b * 512 + d);
    DivUnique(a * 512 + b, 512, a, b);
  }

  lemma Undigits2(v: nat, a: nat, b: nat)
    requires b < 512
    ensures v / 512 == a * 512 + b <==> v / 0x4_0000 == a && v / 512 % 512 == b
  {
    var x := v / 512;
    DivUnique(v, 0x4_0000, x / 512, x % 512 * 512 + v % 512);
    DivUnique(a * 512 + b, 512, a, b);
  }

  lemma LinkedSets(m: Mem, m': Mem, own: Roles, role: Role, i: nat)
    requires role.Table? && (role.level == 2 ==> i < 512) && (role.level == 1 ==> role.prefix * 512 + i < 0x4_0000)
    requires forall r, v: nat | IsRoot(own, r) && v < 0x800_0000 :: Linked(m, m', role, i, r, v)
    ensures forall r, v: nat | IsRoot(own, r) && v < 0x800_0000 :: View(m', r, v) == View(m, r, v)
    ensures forall r | IsRoot(own, r) ::
              && Mids(m', r) == (if r == role.root && role.level == 2 then Mids(m, r) + {i} else Mids(m, r))
              && Lows(m', r) == (if r == role.root && role.level == 1
                                 then Lows(m, r) + {role.prefix * 512 + i} else Lows(m, r))
  {
    forall r, v: nat | IsRoot(own, r) && v < 0x800_0000
      ensures View(m', r, v) == View(m, r, v)
    {
      assert Linked(m, m', role, i, r, v);
    }
    forall r | IsRoot(own, r)
      ensures Mids(m', r) == (if r == role.root && role.level == 2 then Mids(m, r) + {i} else Mids(m, r))
      ensures Lows(m', r) == (if r == role.root && role.level == 1
                              then Lows(m, r) + {role.prefix * 512 + i} else Lows(m, r))
    {
      forall a: nat | a < 512
        ensures HasMid(m', r, a) == (HasMid(m, r, a) || (r == role.root && role.level == 2 && a == i))
      {
        assert Linked(m, m', role, i, r, a * 0x4_0000);
      }
      forall b: nat | b < 0x4_0000
        ensures HasLow(m', r, b)
             == (HasLow(m, r, b) || (r == role.root && role.level == 1 && b == role.prefix * 512 + i))
      {
        assert Linked(m, m', role, i, r, b * 512);
      }
    }
  }

  /** A zeroed data page becomes the root of an empty tree. */
  lemma RootMade(m: Mem, own: Roles, p: nat)
    requires Trees(m, own) && p in own && own[p] == Data && ZeroPage(m, p)
    ensures Trees(m, own[p := Table(p, 2, 0, p, 0)])
    ensures forall v: nat | v < 0x800_0000 :: View(m, p, v) == 0
    ensures Mids(m, p) == {} && Lows(m, p) == {}
  {
    var own' := own[p := Table(p, 2, 0, p, 0)];
    forall q | q in own' && own'[q].Table?
      ensures LinkedOk(m, own', q)
    {
      if q != p {
        assert LinkedOk(m, own, q);
      }
    }
    forall q, j: nat | q in own' && own'[q].Table? && own'[q].level > 0 && j < 512
      ensures SlotOk(m, own', q, j)
    {
      if q != p {
        assert SlotOk(m, own, q, j);
      }
    }
    forall v: nat | v < 0x800_0000
      ensures View(m, p, v) == 0
    {
      assert At(m, p, v / 0x4_0000) == 0;
    }
  }
}
