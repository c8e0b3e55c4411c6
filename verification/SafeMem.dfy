/** Address and page-table-entry arithmetic (safemem.h), and the three index expressions of map.c. */
module SafeMem {
  import opened Bits

  const PTE_V: Word := 0x01
  const PTE_R: Word := 0x02
  const PTE_W: Word := 0x04
  const PTE_X: Word := 0x08
  const PTE_U: Word := 0x10
  const PTE_G: Word := 0x20
  const PTE_A: Word := 0x40
  const PTE_D: Word := 0x80

  function RoundPage(x: Word): Word {
    Masked(Add(4095, x), Not(0x0FFF))
  }

  function TruncPage(x: Word): Word {
    Masked(x, Not(0x0FFF))
  }

  function Pte2Pa(pte: Word): Word {
    Shr(pte, 10) * 4096 % TWO64
  }

  function Pa2Pte(pa: Word): Word {
    Shl(pa / 4096, 10)
  }

  /** The three indices pgTraverseAndCreate computes. */
  function Index2(va: Word): nat {
    And(Shr(va, 30), 0x1FF)
  }

  function Index1(va: Word): nat {
    And(Shr(Shl(va, 9), 30), 0x1FF)
  }

  function Index0(va: Word): nat {
    And(Shr(Shl(va, 18), 30), 0x1FF)
  }

  /** Does an entry carry any of the bits in `mask`? */
  predicate Has(pte: nat, mask: nat) {
    And(pte, mask) != 0
  }

  /** `&` between two words, which is again a word. */
  function Masked(x: Word, y: Word): Word {
    AndBound(x, y);
    And(x, y)
  }

  lemma {:induction false} AndBound(x: nat, y: nat)
    ensures And(x, y) <= x
  {
    if x == 0 || y == 0 {
    } else {
      AndBound(x / 2, y / 2);
    }
  }

  lemma PageMask(x: Word)
    ensures And(x, Not(0x0FFF)) == x / 4096 * 4096
  {
    PageField(x, Not(0x0FFF));
    OrZero(x % 4096);
    HighOnes(x / 4096);
  }

  lemma PageField(x: nat, y: nat)
    ensures And(x, y) / 4096 == And(x / 4096, y / 4096) && And(x, y) % 4096 == And(x % 4096, y % 4096)
  {
    FieldsAct(x, y, 12);
    ShiftBy12(x);
    ShiftBy12(y);
    ShiftBy12(And(x, y));
  }

  lemma HighOnes(q: nat)
    requires q < 0x10_0000_0000_0000
    ensures And(q, 0xF_FFFF_FFFF_FFFF) == q
  {
    PowersOfTwo();
    AndOnes(q, 52);
  }

  /** truncpage rounds down; roundpage rounds up, and wraps to 0 in the last page of the address space. */
  lemma PageRounding(x: Word)
    ensures TruncPage(x) == x / 4096 * 4096
    ensures RoundPage(x) == if x + 4095 < TWO64 then (x + 4095) / 4096 * 4096 else 0
  {
    hide And;
    PageMask(x);
    var y := Add(4095, x);
    PageMask(y);
    if x + 4095 >= TWO64 {
      assert y / 4096 == 0;
    }
  }

  /** The index expressions are VPN[2], VPN[1] and VPN[0] of the address, for every 64-bit word. */
  lemma IndicesAreVpn(va: Word)
    ensures Index2(va) == va / 0x4000_0000 % 512
    ensures Index1(va) == va / 0x20_0000 % 512
    ensures Index0(va) == va / 0x1000 % 512
  {
    NineBits(va);
    NineBits(Shl(va, 9));
    NineBits(Shl(va, 18));
    PowersOfTwo();
    assert Pow2(9) == 0x200;
    DropHighBits9(va);
    DropHighBits18(va);
  }

  lemma NineBits(x: nat)
    ensures And(Shr(x, 30), 0x1FF) == x / 0x4000_0000 % 512
  {
    ShiftBy30(x);
    AndOnes(Shr(x, 30), 9);
    assert Pow2(9) == 0x200;
    ShiftBy9(Shr(x, 30));
  }

  /** Shifting left and back right drops the high bits, which `& 0x1FF` would drop anyway. */
  lemma DropHighBits9(va: Word)
    ensures va * 0x200 % TWO64 / 0x4000_0000 % 512 == va / 0x20_0000 % 512
  {
    var t := va / 0x20_0000;
    var h, l := t / 0x4_0000_0000, t % 0x4_0000_0000;
    DivUnique(va * 0x200, TWO64, h, l * 0x4000_0000 + va % 0x20_0000 * 0x200);
    DivUnique(l * 0x4000_0000 + va % 0x20_0000 * 0x200, 0x4000_0000, l, va % 0x20_0000 * 0x200);
    DivUnique(t, 512, h * 0x200_0000 + l / 512, l % 512);
  }

  lemma DropHighBits18(va: Word)
    ensures va * 0x4_0000 % TWO64 / 0x4000_0000 % 512 == va / 0x1000 % 512
  {
    var t := va / 0x1000;
    var h, l := t / 0x4_0000_0000, t % 0x4_0000_0000;
    DivUnique(va * 0x4_0000, TWO64, h, l * 0x4000_0000 + va % 0x1000 * 0x4_0000);
    DivUnique(l * 0x4000_0000 + va % 0x1000 * 0x4_0000, 0x4000_0000, l, va % 0x1000 * 0x4_0000);
    DivUnique(t, 512, h * 0x200_0000 + l / 512, l % 512);
  }

  /** Below 2^39 the three indices together determine the page. */
  lemma IndicesAreInjective(va: Word, va': Word)
    requires va < 0x80_0000_0000 && va' < 0x80_0000_0000
    requires Index2(va) == Index2(va') && Index1(va) == Index1(va') && Index0(va) == Index0(va')
    ensures TruncPage(va) == TruncPage(va')
  {
    IndicesAreVpn(va);
    IndicesAreVpn(va');
    PageRounding(va);
    PageRounding(va');
    VpnDigits(va / 0x1000);
    VpnDigits(va' / 0x1000);
    assert va / 0x20_0000 == va / 0x1000 / 512 && va' / 0x20_0000 == va' / 0x1000 / 512;
    assert va / 0x4000_0000 == va / 0x1000 / 0x4_0000 && va' / 0x4000_0000 == va' / 0x1000 / 0x4_0000;
  }

  lemma VpnDigits(v: nat)
    requires v < 0x800_0000
    ensures v == (v / 0x4_0000 % 512) * 0x4_0000 + (v / 512 % 512) * 512 + v % 512
  {
  }

  lemma FlagField(x: nat, y: nat)
    ensures Or(x, y) / 1024 == Or(x / 1024, y / 1024) && Or(x, y) % 1024 == Or(x % 1024, y % 1024)
    ensures And(x, y) / 1024 == And(x / 1024, y / 1024) && And(x, y) % 1024 == And(x % 1024, y % 1024)
  {
    FieldsAct(x, y, 10);
    ShiftBy10(x);
    ShiftBy10(y);
    ShiftBy10(Or(x, y));
    ShiftBy10(And(x, y));
  }

  /** Or-ing flags onto an entry changes the flag field only. */
  lemma OrFlags(ppn: nat, f: nat, g: nat)
    requires f < 1024 && g < 1024
    ensures Or(f, g) < 1024
    ensures Or(ppn * 1024 + f, g) == ppn * 1024 + Or(f, g)
  {
    FlagField(ppn * 1024 + f, g);
    FlagField(f, g);
    OrZero(ppn);
    OrZero(0);
    Fields(ppn, f);
    Fields(0, g);
    Fields(0, f);
  }

  lemma Fields(q: nat, r: nat)
    requires r < 1024
    ensures (q * 1024 + r) / 1024 == q && (q * 1024 + r) % 1024 == r
  {
  }

  /** A flag test on an entry looks at the flag field only. */
  lemma HasFlags(ppn: nat, f: nat, mask: nat)
    requires f < 1024 && mask < 1024
    ensures And(ppn * 1024 + f, mask) == And(f, mask)
  {
    FlagField(ppn * 1024 + f, mask);
    FlagField(f, mask);
    OrZero(ppn);
    OrZero(0);
    Fields(ppn, f);
    Fields(0, mask);
    Fields(0, f);
  }

  lemma Pa2PteIs(pa: Word)
    ensures Pa2Pte(pa) == pa / 4096 * 1024
  {
    assert Pow2(10) == 1024;
  }

  lemma Pte2PaIs(pte: Word)
    ensures Pte2Pa(pte) == pte / 1024 * 4096 % TWO64
  {
    ShiftBy10(pte);
  }

  /** Packing an address with flag bits: the address comes back page-aligned, the flags unchanged. */
  lemma EntryRoundTrip(pa: Word, flags: nat)
    requires flags < 1024
    ensures Or(Pa2Pte(pa), flags) == pa / 4096 * 1024 + flags < TWO64
    ensures Pte2Pa(Or(Pa2Pte(pa), flags)) == TruncPage(pa)
    ensures And(Or(Pa2Pte(pa), flags), 0x3FF) == flags
  {
    hide And, Or;
    var ppn := pa / 4096;
    PageRounding(pa);
    PackEntry(pa, flags);
    HasFlags(ppn, flags, 0x3FF);
    AllFlags(flags);
    UnpackEntry(ppn, flags);
  }

  lemma PackEntry(pa: Word, flags: nat)
    requires flags < 1024
    ensures Or(Pa2Pte(pa), flags) == pa / 4096 * 1024 + flags < TWO64
  {
    Pa2PteIs(pa);
    OrFlags(pa / 4096, 0, flags);
    OrZero(flags);
  }

  lemma UnpackEntry(ppn: nat, flags: nat)
    requires flags < 1024 && ppn * 4096 < TWO64
    ensures Pte2Pa(ppn * 1024 + flags) == ppn * 4096
  {
    Pte2PaIs(ppn * 1024 + flags);
    Fields(ppn, flags);
  }

  lemma AllFlags(flags: nat)
    requires flags < 1024
    ensures And(flags, 0x3FF) == flags
  {
    AndOnes(flags, 10);
    assert Pow2(10) == 1024;
  }

  /** What pgTraverseAndCreate stores in a leaf slot. */
  function LeafWord(pa: Word, attr: nat): (e: Word)
    requires attr < 1024
  {
    BitOr(BitOr(Pa2Pte(pa), attr), PTE_V)
  }

  /** ... is the page of `pa` with exactly the flags attr|V. */
  lemma LeafWordFields(pa: Word, attr: nat)
    requires attr < 1024
    ensures Or(attr, PTE_V) < 1024 && Or(attr, PTE_V) % 2 == 1
    ensures LeafWord(pa, attr) == pa / 4096 * 1024 + Or(attr, PTE_V)
  {
    PackEntry(pa, attr);
    OrFlags(pa / 4096, attr, PTE_V);
    OrStep(attr, PTE_V);
  }

  /** What it stores in a link slot: PA2PTE of the table, then `| PTE_V`. */
  lemma LinkWord(p: nat)
    requires p * 4096 < TWO64
    ensures Or(Pa2Pte(p * 4096), PTE_V) == p * 1024 + 1
    ensures Pte2Pa(p * 1024 + 1) == p * 4096
  {
    PackEntry(p * 4096, PTE_V);
    UnpackEntry(p, 1);
  }

  /** The R, W and X tests as arithmetic on the flag bits. */
  lemma PermissionBits(x: nat)
    ensures Has(x, PTE_V) <==> x % 2 == 1
    ensures Has(x, PTE_R) <==> x / 2 % 2 == 1
    ensures Has(x, PTE_W) <==> x / 4 % 2 == 1
    ensures Has(x, PTE_X) <==> x / 8 % 2 == 1
    ensures Has(x, PTE_U) <==> x / 16 % 2 == 1
  {
    BitIs(x, 0, 1);
    BitIs(x, 1, 2);
    BitIs(x, 2, 4);
    BitIs(x, 3, 8);
    BitIs(x, 4, 16);
  }

  lemma AccessBits(x: nat)
    ensures Has(x, PTE_A) <==> x / 64 % 2 == 1
    ensures Has(x, PTE_D) <==> x / 128 % 2 == 1
  {
    assert Pow2(6) == 64;
    BitIs(x, 6, 64);
    BitIs(x, 7, 128);
  }

  lemma BitIs(x: nat, k: nat, p: nat)
    requires p == Pow2(k) && p > 0
    ensures Has(x, p) <==> x / p % 2 == 1
  {
    BitTest(x, k);
    ShiftBy(x, k, p);
  }

  lemma Halves(x: nat)
    ensures x / 2 / 2 == x / 4 && x / 4 / 2 == x / 8 && x / 8 / 2 == x / 16
  {
  }

  /** x & 2^k tests the bit that remains after shifting right by k. */
  lemma {:induction false} BitTest(x: nat, k: nat)
    ensures And(x, Pow2(k)) != 0 <==> Shr(x, k) % 2 == 1
  {
    AndStep(x, Pow2(k));
    if k > 0 {
      BitTest(x / 2, k - 1);
      assert Pow2(k) / 2 == Pow2(k - 1) && Pow2(k) % 2 == 0;
    } else {
      OrZero(x / 2);
    }
  }

  /** Adding the V bit changes none of the permission tests. */
  lemma ValidFlags(attr: nat)
    ensures forall mask | mask in {PTE_R, PTE_W, PTE_X, PTE_U} :: Has(Or(attr, PTE_V), mask) == Has(attr, mask)
    ensures Has(Or(attr, PTE_V), PTE_V)
  {
    BitZero(attr);
    PermissionBits(attr);
    PermissionBits(Or(attr, PTE_V));
    Halves(attr);
    Halves(Or(attr, PTE_V));
  }
}
