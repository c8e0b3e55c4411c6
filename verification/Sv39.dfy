/** Address translation as the RISC-V Privileged Architecture (version 20211203) defines it,
    sections 4.3.2 and 4.4: the reference the page tables are judged by. */
module Sv39 {
  import opened Bits
  import opened SafeMem
  import opened PageTables
  import opened PageRanges
  import opened MapSteps

  datatype Walked = Fault | Leaf(pte: Word, level: nat)

  datatype Translation = PageFault | Physical(address: nat, flags: nat)

  /** Bits 63..54 must be zero when no extension defines them. */
  predicate Reserved(pte: Word) {
    pte >= 0x40_0000_0000_0000
  }

  function Ppn(pte: Word): nat {
    pte / 1024
  }

  function VpnDigit(v: nat, level: nat): nat {
    if level == 2 then v / 0x4_0000 else if level == 1 then v / 512 % 512 else v % 512
  }

  /** A leaf above level 0 must be aligned to its size. */
  predicate Misaligned(pte: Word, level: nat) {
    (level >= 1 && Ppn(pte) % 512 != 0) || (level >= 2 && Ppn(pte) / 512 % 512 != 0)
  }

  /** Steps 2 to 6 of the translation process, from table page a at the given level. */
  function Walk(m: Mem, a: nat, v: nat, level: nat): Walked
    decreases level
  {
    var pte := At(m, a, VpnDigit(v, level));
    if !Has(pte, PTE_V) || (!Has(pte, PTE_R) && Has(pte, PTE_W)) || Reserved(pte) then Fault
    else if Has(pte, PTE_R) || Has(pte, PTE_X) then
      if Misaligned(pte, level) then Fault else Leaf(pte, level)
    else if level == 0 then Fault
    else Walk(m, Ppn(pte), v, level - 1)
  }

  /** Bits 63..39 of a virtual address must equal bit 38. */
  predicate Canonical(va: Word) {
    va < 0x40_0000_0000 || va >= TWO64 - 0x40_0000_0000
  }

  /** The translation of a page table: root page r, and the physical address of step 8 for each leaf level.  The checks
      that depend on the access, steps 5 and 7, come on top of it. */
  function Translate(m: Mem, r: nat, va: Word): Translation {
    if !Canonical(va) then PageFault
    else
      match Walk(m, r, PageOf(va), 2)
      case Fault => PageFault
      case Leaf(pte, level) =>
        var size := if level == 0 then 0x1000 else if level == 1 then 0x20_0000 else 0x4000_0000;
        Physical(Ppn(pte) * 4096 + va % size, pte % 1024)
  }

  datatype Kind = Load | Store | Fetch

  /** An access: from user mode or not, and the SUM and MXR fields of mstatus.  `faults` says that this implementation
      raises a page fault at step 7 where another would set A or D in memory. */
  datatype Access = Access(kind: Kind, user: bool, sum: bool, mxr: bool, faults: bool)

  /** Step 5: the permissions and the privilege mode allow the access. */
  predicate Permits(flags: nat, a: Access) {
    && (match a.kind
        case Load => Has(flags, PTE_R) || (a.mxr && Has(flags, PTE_X))
        case Store => Has(flags, PTE_W)
        case Fetch => Has(flags, PTE_X))
    && (if a.user then Has(flags, PTE_U) else Has(flags, PTE_U) ==> a.sum && !a.kind.Fetch?)
  }

  /** Step 7: the accessed and dirty bits need no update. */
  predicate UpToDate(flags: nat, a: Access) {
    Has(flags, PTE_A) && (a.kind.Store? ==> Has(flags, PTE_D))
  }

  /** What the access makes of a translation. */
  function Checked(t: Translation, a: Access): Translation {
    if t.Physical? && Permits(t.flags, a) && (UpToDate(t.flags, a) || !a.faults) then t else PageFault
  }

  /** The whole process: the translation, and the checks of steps 5 and 7. */
  function Accessed(m: Mem, r: nat, va: Word, a: Access): Translation {
    Checked(Translate(m, r, va), a)
  }

  /** Can these flags stand in a leaf: readable or executable, and not writable only? */
  predicate LeafFlags(f: nat) {
    (Has(f, PTE_R) || Has(f, PTE_X)) && (Has(f, PTE_W) ==> Has(f, PTE_R))
  }

  /** What a level-0 slot means. */
  function SlotMeaning(e: Word): Walked {
    if Has(e, PTE_V) && LeafFlags(e) && !Reserved(e) then Leaf(e, 0) else Fault
  }

  /** The architecture's walk of a well-formed tree is the View: one leaf slot decides. */
  lemma WalkIsView(m: Mem, own: Roles, r: nat, v: nat)
    requires Trees(m, own) && IsRoot(own, r) && v < 0x800_0000
    ensures Walk(m, r, v, 2) == SlotMeaning(View(m, r, v))
  {
    hide At, Trees, Has, Reserved, Ppn, Link, Child, Valid, VpnDigit;
    var a, b, d := v / 0x4_0000, v / 512 % 512, v % 512;
    PathDown(m, own, r, a, b);
    Digit(v);
    NoBits();
    if HasMid(m, r, a) {
      var q := Child(At(m, r, a));
      LinkBits(m, own, q);
      assert Walk(m, r, v, 2) == Walk(m, q, v, 1);
      if HasLowAt(m, r, a, b) {
        var p := Child(At(m, q, b));
        LinkBits(m, own, p);
        assert Walk(m, q, v, 1) == Walk(m, p, v, 0);
        assert Walk(m, p, v, 0) == SlotMeaning(At(m, p, d));
      }
    }
  }

  lemma NoBits()
    ensures forall mask :: !Has(0, mask)
  {
  }

  lemma Digit(v: nat)
    requires v < 0x800_0000
    ensures VpnDigit(v, 2) == v / 0x4_0000 < 512 && VpnDigit(v, 1) == v / 512 % 512 && VpnDigit(v, 0) == v % 512
  {
  }

  /** A link entry is valid, not a leaf, has no reserved bit, and names its table. */
  lemma LinkBits(m: Mem, own: Roles, q: nat)
    requires Trees(m, own) && q in own && Link(q) < TWO64
    ensures Has(Link(q), PTE_V) && !Has(Link(q), PTE_R) && !Has(Link(q), PTE_W) && !Has(Link(q), PTE_X)
    ensures !Reserved(Link(q)) && Ppn(Link(q)) == q
  {
    assert InMem(m, q);
    HasFlags(q, 1, PTE_V);
    HasFlags(q, 1, PTE_R);
    HasFlags(q, 1, PTE_W);
    HasFlags(q, 1, PTE_X);
    PermissionBits(1);
  }

  /** What a page mapped to physical address pa with the given flags translates to. */
  function Mapped(pa: Word, attr: nat, va: Word): Translation
    requires attr < 1024
  {
    if Canonical(va) && LeafFlags(attr) && pa < 0x100_0000_0000_0000
    then Physical(TruncPage(pa) + va % 4096, Or(attr, PTE_V))
    else PageFault
  }

  /** mapAddress refines a map update: after it, an address in the range translates to the matching
      offset from `pa` with exactly the flags attr|V, and every other address of every tree
      translates as before; so every access in the range succeeds exactly when attr permits it. */
  lemma RangeTranslates(m: Mem, own: Roles, m': Mem, own': Roles, r: nat, lo: nat, n: nat, pa: Word, attr: nat,
                        r': nat, va: Word)
    requires attr < 1024 && Trees(m, own) && Trees(m', own') && IsRoot(own, r') && IsRoot(own', r')
    requires Remapped(m, m', own, r, lo, n, pa, attr)
    ensures Translate(m', r', va)
            == if r' == r && lo <= PageOf(va) < lo + n then Mapped(PhysAt(pa, PageOf(va) - lo), attr, va)
               else Translate(m, r', va)
    ensures forall a: Access ::
              Accessed(m', r', va, a)
              == if r' == r && lo <= PageOf(va) < lo + n then Checked(Mapped(PhysAt(pa, PageOf(va) - lo), attr, va), a)
                 else Accessed(m, r', va, a)
  {
    hide At, Trees, View, PhysAt, LeafWord, Walk, Has, TruncPage, Remapped, Or;
    var v := PageOf(va);
    WalkIsView(m, own, r', v);
    WalkIsView(m', own', r', v);
    RemappedAt(m, m', own, r, lo, n, pa, attr, r', v);
    if r' == r && lo <= v < lo + n {
      SlotOfLeaf(PhysAt(pa, v - lo), attr);
    }
  }

  lemma RemappedAt(m: Mem, m': Mem, own: Roles, r: nat, lo: nat, n: nat, pa: Word, attr: nat, r': nat, v: nat)
    requires attr < 1024 && IsRoot(own, r') && v < 0x800_0000 && Remapped(m, m', own, r, lo, n, pa, attr)
    ensures View(m', r', v)
            == if r' == r && lo <= v < lo + n then LeafWord(PhysAt(pa, v - lo), attr) else View(m, r', v)
  {
  }

  lemma SlotOfLeaf(pa: Word, attr: nat)
    requires attr < 1024
    ensures var e := LeafWord(pa, attr);
            && SlotMeaning(e) == (if LeafFlags(attr) && pa < 0x100_0000_0000_0000 then Leaf(e, 0) else Fault)
            && Ppn(e) * 4096 == TruncPage(pa) && e % 1024 == Or(attr, PTE_V)
  {
    hide Or, And, Has, TruncPage, LeafWord, LeafFlags, Reserved;
    LeafWordFields(pa, attr);
    PageRounding(pa);
    Fields(pa / 4096, Or(attr, PTE_V));
    LeafTests(pa / 4096, attr);
    ReservedIs(pa, Or(attr, PTE_V));
  }

  lemma LeafTests(ppn: nat, attr: nat)
    requires attr < 1024 && Or(attr, PTE_V) < 1024
    ensures Has(ppn * 1024 + Or(attr, PTE_V), PTE_V)
    ensures LeafFlags(ppn * 1024 + Or(attr, PTE_V)) == LeafFlags(attr)
  {
    hide Or, And;
    HasFlags(ppn, Or(attr, PTE_V), PTE_V);
    HasFlags(ppn, Or(attr, PTE_V), PTE_R);
    HasFlags(ppn, Or(attr, PTE_V), PTE_W);
    HasFlags(ppn, Or(attr, PTE_V), PTE_X);
    ValidFlags(attr);
  }

  lemma ReservedIs(pa: Word, f: nat)
    requires f < 1024
    ensures pa / 4096 * 1024 + f < TWO64
    ensures Reserved(pa / 4096 * 1024 + f) <==> pa >= 0x100_0000_0000_0000
  {
  }
}
