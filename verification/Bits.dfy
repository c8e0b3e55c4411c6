/** Unsigned 64-bit words and the C operators the paging code applies to them.
    A word is a natural number below 2^64.  `&`, `|` and `>>` are defined one bit at a time,
    and the lemmas turn the masks and shifts of the source into division and remainder. */
module Bits {

  const TWO64: nat := 0x1_0000_0000_0000_0000

  type Word = w: nat | w < 0x1_0000_0000_0000_0000

  function Pow2(k: nat): nat {
    if k == 0 then 1 else 2 * Pow2(k - 1)
  }

  /** `x & y` */
  function And(x: nat, y: nat): nat {
    if x == 0 || y == 0 then 0
    else 2 * And(x / 2, y / 2) + (if x % 2 == 1 && y % 2 == 1 then 1 else 0)
  }

  /** `x | y` */
  function Or(x: nat, y: nat): nat
    decreases x + y
  {
    if x == 0 then y
    else if y == 0 then x
    else 2 * Or(x / 2, y / 2) + (if x % 2 == 1 || y % 2 == 1 then 1 else 0)
  }

  /** `x >> k` on an unsigned value. */
  function Shr(x: nat, k: nat): nat {
    if k == 0 then x else Shr(x / 2, k - 1)
  }

  /** The low k bits of x. */
  function Low(x: nat, k: nat): nat {
    if k == 0 then 0 else 2 * Low(x / 2, k - 1) + x % 2
  }

  /** `x | y` between two words, which is again a word. */
  function BitOr(x: Word, y: Word): Word {
    WordBound();
    OrBound(x, y, 64);
    Or(x, y)
  }

  lemma WordBound()
    ensures Pow2(64) == TWO64
  {
    PowersOfTwo();
    assert Pow2(58) == 0x400_0000_0000_0000;
    assert Pow2(64) == 0x1_0000_0000_0000_0000;
  }

  lemma {:induction false} OrBound(x: nat, y: nat, k: nat)
    requires x < Pow2(k) && y < Pow2(k)
    ensures Or(x, y) < Pow2(k)
  {
    if x == 0 || y == 0 {
    } else {
      OrBound(x / 2, y / 2, k - 1);
    }
  }

  /** `~x` on 64 bits. */
  function Not(x: Word): Word {
    TWO64 - 1 - x
  }

  /** `x << k` on 64 bits: the high bits are lost. */
  function Shl(x: Word, k: nat): Word {
    x * Pow2(k) % TWO64
  }

  /** `x + y` on 64 bits. */
  function Add(x: Word, y: Word): Word {
    (x + y) % TWO64
  }

  lemma PowersOfTwo()
    ensures Pow2(18) == 0x4_0000 && Pow2(30) == 0x4000_0000 && Pow2(52) == 0x10_0000_0000_0000
  {
    assert Pow2(10) == 0x400;
    assert Pow2(18) == 0x4_0000;
    assert Pow2(26) == 0x400_0000;
    assert Pow2(30) == 0x4000_0000;
    assert Pow2(38) == 0x40_0000_0000;
    assert Pow2(46) == 0x4000_0000_0000;
    assert Pow2(52) == 0x10_0000_0000_0000;
  }

  /** A word is its shifted-out high part and its low field. */
  lemma {:induction false} Split(x: nat, k: nat)
    ensures x == Shr(x, k) * Pow2(k) + Low(x, k)
    ensures Low(x, k) < Pow2(k)
  {
    if k == 0 {
    } else {
      Split(x / 2, k - 1);
      var q, p := Shr(x, k), Pow2(k - 1);
      assert x / 2 == q * p + Low(x / 2, k - 1);
      assert q * Pow2(k) == q * (2 * p) == 2 * (q * p);
    }
  }

  /** Quotient and remainder from any decomposition. */
  lemma DivUnique(x: nat, d: nat, q: nat, r: nat)
    requires r < d && x == q * d + r
    ensures x / d == q && x % d == r
  {
    var q', r' := x / d, x % d;
    assert x == q' * d + r';
    if q' > q {
      ProductMono(q + 1, q', d);
    } else if q' < q {
      ProductMono(q' + 1, q, d);
    }
  }

  lemma ProductMono(a: nat, b: nat, d: nat)
    requires a <= b
    ensures a * d <= b * d
  {
  }

  lemma ShiftBy(x: nat, k: nat, p: nat)
    requires p == Pow2(k) && p > 0
    ensures Low(x, k) == x % p && Shr(x, k) == x / p
  {
    Split(x, k);
    DivUnique(x, p, Shr(x, k), Low(x, k));
  }

  lemma ShiftBy9(x: nat)
    ensures Low(x, 9) == x % 0x200 && Shr(x, 9) == x / 0x200
  {
    assert Pow2(9) == 0x200;
    ShiftBy(x, 9, 0x200);
  }

  lemma ShiftBy10(x: nat)
    ensures Low(x, 10) == x % 0x400 && Shr(x, 10) == x / 0x400
  {
    assert Pow2(10) == 0x400;
    ShiftBy(x, 10, 0x400);
  }

  lemma ShiftBy12(x: nat)
    ensures Low(x, 12) == x % 0x1000 && Shr(x, 12) == x / 0x1000
  {
    assert Pow2(12) == 0x1000;
    ShiftBy(x, 12, 0x1000);
  }

  lemma ShiftBy30(x: nat)
    ensures Shr(x, 30) == x / 0x4000_0000
  {
    PowersOfTwo();
    ShiftBy(x, 30, 0x4000_0000);
  }

  /** `&` and `|` act separately on the low k bits and on the rest. */
  lemma FieldsAct(x: nat, y: nat, k: nat)
    ensures Shr(And(x, y), k) == And(Shr(x, k), Shr(y, k))
    ensures Low(And(x, y), k) == And(Low(x, k), Low(y, k))
    ensures Shr(Or(x, y), k) == Or(Shr(x, k), Shr(y, k))
    ensures Low(Or(x, y), k) == Or(Low(x, k), Low(y, k))
  {
    AndActs(x, y, k);
    OrActs(x, y, k);
  }

  lemma {:induction false} AndActs(x: nat, y: nat, k: nat)
    ensures Shr(And(x, y), k) == And(Shr(x, k), Shr(y, k))
    ensures Low(And(x, y), k) == And(Low(x, k), Low(y, k))
  {
    hide And;
    if k == 0 {
      OrZero(0);
    } else {
      AndActs(x / 2, y / 2, k - 1);
      AndStep(x, y);
      AndStep(Low(x, k), Low(y, k));
    }
  }

  lemma {:induction false} OrActs(x: nat, y: nat, k: nat)
    ensures Shr(Or(x, y), k) == Or(Shr(x, k), Shr(y, k))
    ensures Low(Or(x, y), k) == Or(Low(x, k), Low(y, k))
  {
    hide Or;
    if k == 0 {
      OrZero(0);
    } else {
      OrActs(x / 2, y / 2, k - 1);
      OrStep(x, y);
      OrStep(Low(x, k), Low(y, k));
    }
  }

  lemma AndStep(x: nat, y: nat)
    ensures And(x, y) / 2 == And(x / 2, y / 2)
    ensures And(x, y) % 2 == if x % 2 == 1 && y % 2 == 1 then 1 else 0
  {
  }

  lemma OrStep(x: nat, y: nat)
    ensures Or(x, y) / 2 == Or(x / 2, y / 2)
    ensures Or(x, y) % 2 == if x % 2 == 1 || y % 2 == 1 then 1 else 0
  {
  }

  /** `x & (2^k - 1)` is the low field. */
  lemma {:induction false} AndOnes(x: nat, k: nat)
    ensures Pow2(k) > 0 && And(x, Pow2(k) - 1) == Low(x, k)
    ensures x < Pow2(k) ==> Low(x, k) == x
  {
    if k == 0 {
    } else {
      AndOnes(x / 2, k - 1);
      assert (Pow2(k) - 1) / 2 == Pow2(k - 1) - 1;
      if x == 0 || Pow2(k) - 1 == 0 {
        assert x == 0;
      }
    }
  }

  /** `x & 1` is the parity, and `| 1` sets it without touching the other bits. */
  lemma BitZero(x: nat)
    ensures And(x, 1) == x % 2
    ensures Or(x, 1) == x / 2 * 2 + 1
  {
    AndOnes(x, 1);
    OrStep(x, 1);
  }

  lemma OrZero(x: nat)
    ensures Or(x, 0) == x && Or(0, x) == x && And(x, 0) == 0
  {
  }
}
