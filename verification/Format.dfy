/** What sbInit puts on a fresh disk: a run of collectors that splits blocks lo .. hi-1 among them. */
module Format {
  import opened FreeChain
  import opened DiskImage
  import opened Bits

  const DISKBLOCKTOTAL := 256
  const FREEBLOCKMAX := 61

  /** Blocks lo .. hi-1, each exactly once: a collector, then its entries in order, then the next collector. */
  ghost predicate Fills(chain: seq<FNode>, lo: int, hi: int) {
    if chain == [] then lo == hi
    else
      var n := chain[0];
      && n.blk == lo && 0 <= n.count <= |n.entries|
      && (forall e | 0 <= e < n.count :: n.entries[e] == lo + 1 + e)
      && Fills(chain[1..], lo + 1 + n.count, hi)
  }

  /** The records of a chain whose last one names `next`. */
  ghost predicate OnDiskTo(blocks: Blocks, chain: seq<FNode>, next: int) {
    chain != [] ==>
      && 0 < chain[0].blk < |blocks|
      && blocks[chain[0].blk] == FreeRecord(chain[0].blk, chain[0].count,
                                            if |chain| > 1 then chain[1].blk else next, chain[0].entries)
      && OnDiskTo(blocks, chain[1..], next)
  }

  lemma {:induction false} OnDiskToEnd(blocks: Blocks, chain: seq<FNode>)
    ensures OnDiskTo(blocks, chain, 0) == OnDisk(blocks, chain)
  {
    if chain == [] {
    } else {
      OnDiskToEnd(blocks, chain[1..]);
    }
  }

  /** One more record, at the block the last one names. */
  lemma {:induction false} OnDiskToAppend(blocks: Blocks, chain: seq<FNode>, n: FNode, next: int)
    requires OnDiskTo(blocks, chain, n.blk) && 0 < n.blk < |blocks|
    requires blocks[n.blk] == FreeRecord(n.blk, n.count, next, n.entries)
    ensures OnDiskTo(blocks, chain + [n], next)
  {
    if chain == [] {
      assert chain + [n] == [n] && [n][1..] == [];
    } else {
      assert (chain + [n])[1..] == chain[1..] + [n];
      OnDiskToAppend(blocks, chain[1..], n, next);
    }
  }

  lemma {:induction false} OnDiskToFrame(blocks: Blocks, chain: seq<FNode>, next: int, lo: int, hi: int, b: int,
                                         w: DiskBlock)
    requires OnDiskTo(blocks, chain, next) && Fills(chain, lo, hi) && 0 <= b < |blocks| && !(lo <= b < hi)
    ensures OnDiskTo(blocks[b := w], chain, next)
  {
    if chain == [] {
    } else {
      FillsRange(chain, lo, hi);
      OnDiskToFrame(blocks, chain[1..], next, lo + 1 + chain[0].count, hi, b, w);
    }
  }

  lemma {:induction false} FillsRange(chain: seq<FNode>, lo: int, hi: int)
    requires Fills(chain, lo, hi)
    ensures lo <= hi && (chain != [] ==> lo < hi && chain[0].blk == lo)
    ensures forall i | 0 <= i < |chain| :: lo <= chain[i].blk < hi
  {
    if chain == [] {
    } else {
      FillsRange(chain[1..], lo + 1 + chain[0].count, hi);
      forall i | 0 <= i < |chain| ensures lo <= chain[i].blk < hi {
        assert i > 0 ==> chain[i] == chain[1..][i - 1];
      }
    }
  }

  lemma {:induction false} FillsAppend(chain: seq<FNode>, lo: int, mid: int, n: FNode)
    requires Fills(chain, lo, mid) && n.blk == mid && 0 <= n.count <= |n.entries|
    requires forall e | 0 <= e < n.count :: n.entries[e] == mid + 1 + e
    ensures Fills(chain + [n], lo, mid + 1 + n.count)
  {
    if chain == [] {
      assert chain + [n] == [n] && [n][1..] == [];
    } else {
      assert (chain + [n])[1..] == chain[1..] + [n];
      FillsAppend(chain[1..], lo + 1 + chain[0].count, mid, n);
    }
  }

  /** How often b occurs among lo .. hi-1. */
  function Once(lo: int, b: int, hi: int): nat {
    if lo <= b < hi then 1 else 0
  }

  lemma {:induction false} RunCount(s: seq<int>, lo: int, b: int)
    requires forall e | 0 <= e < |s| :: s[e] == lo + e
    ensures Times(Rev(s), b) == Once(lo, b, lo + |s|)
  {
    if s == [] {
    } else {
      var last := |s| - 1;
      RunCount(s[..last], lo, b);
      TimesAppend([s[last]], Rev(s[..last]), b);
      TimesOne(s[last], b);
    }
  }

  /** A node that fills lo .. lo+count, with what comes after it. */
  lemma NodeCount(n: FNode, rest: seq<FNode>, lo: int, hi: int, b: int)
    requires n.blk == lo && 0 <= n.count <= |n.entries| && Fills(rest, lo + 1 + n.count, hi)
    requires forall e | 0 <= e < n.count :: n.entries[e] == lo + 1 + e
    requires Times(Later(rest), b) == Once(lo + 1 + n.count, b, hi) && |Later(rest)| == hi - (lo + 1 + n.count)
    ensures Times(Later([n] + rest), b) == Once(lo, b, hi) && |Later([n] + rest)| == hi - lo
    ensures Times(Handout([n] + rest), b) == Once(lo, b, hi) && |Handout([n] + rest)| == hi - lo
  {
    hide Later, Handout, Rev, Fills, Times;
    var mine, others := Rev(Live(n)), Later(rest);
    RunCount(Live(n), lo + 1, b);
    FillsRange(rest, lo + 1 + n.count, hi);
    HandoutCons(n, rest);
    TimesOne(n.blk, b);
    TimesAppend([n.blk], mine, b);
    TimesAppend([n.blk] + mine, others, b);
    TimesAppend(mine, others, b);
    TimesAppend(mine + others, [n.blk], b);
  }

  lemma {:induction false} LaterCount(chain: seq<FNode>, lo: int, hi: int, b: int)
    requires Fills(chain, lo, hi)
    ensures Times(Later(chain), b) == Once(lo, b, hi) && |Later(chain)| == hi - lo
  {
    if chain == [] {
    } else {
      var n, rest := chain[0], chain[1..];
      LaterCount(rest, lo + 1 + n.count, hi, b);
      NodeCount(n, rest, lo, hi, b);
      assert chain == [n] + rest;
    }
  }

  /** sbInit partitions [lo, hi): every block is handed out exactly once, and block lo comes last. */
  lemma FillsPartition(chain: seq<FNode>, lo: int, hi: int)
    requires Fills(chain, lo, hi) && chain != []
    ensures forall b :: Times(Handout(chain), b) == Once(lo, b, hi)
    ensures |Handout(chain)| == hi - lo && Handout(chain)[hi - lo - 1] == lo
  {
    hide Later, Rev, Live, Handout, Times;
    var n, rest := chain[0], chain[1..];
    assert chain == [n] + rest;
    HandoutCons(n, rest);
    forall b ensures Times(Handout(chain), b) == Once(lo, b, hi) && |Handout(chain)| == hi - lo {
      LaterCount(rest, lo + 1 + n.count, hi, b);
      NodeCount(n, rest, lo, hi, b);
    }
    LaterCount(rest, lo + 1 + n.count, hi, lo);
    NodeCount(n, rest, lo, hi, lo);
  }

  lemma {:induction false} FillsDistinct(chain: seq<FNode>, lo: int, hi: int)
    requires Fills(chain, lo, hi)
    ensures Distinct(Blks(chain)) && forall i | 0 <= i < |Blks(chain)| :: lo <= Blks(chain)[i] < hi
  {
    if chain == [] {
    } else {
      FillsDistinct(chain[1..], lo + 1 + chain[0].count, hi);
      FillsRange(chain[1..], lo + 1 + chain[0].count, hi);
      var s := Blks(chain[1..]);
      forall i, j | 0 <= i < j < |Blks(chain)| ensures Blks(chain)[i] != Blks(chain)[j] {
        assert Blks(chain)[j] == s[j - 1] && (i > 0 ==> Blks(chain)[i] == s[i - 1]);
      }
    }
  }

  /** No list can be rebuilt from block `first` of this disk. */
  ghost predicate NoListFrom(blocks: Blocks, first: int) {
    forall chain :: First(chain) == first && first != 0 ==> !OnDisk(blocks, chain)
  }

  /** If the run of records ends by naming a block past the disk, no list can be read back. */
  lemma {:induction false} DanglingRun(blocks: Blocks, run: seq<FNode>, next: int, chain: seq<FNode>)
    requires run != [] && OnDiskTo(blocks, run, next) && next >= |blocks|
    requires First(chain) == run[0].blk
    ensures !OnDisk(blocks, chain)
  {
    if OnDisk(blocks, chain) {
      assert chain != [];
      if |run| > 1 {
        DanglingRun(blocks, run[1..], next, chain[1..]);
      }
    }
  }

  /** The collectors before the last are full, so the first block of the last one is fixed. */
  ghost predicate AllFull(chain: seq<FNode>, max: nat) {
    forall i | 0 <= i < |chain| :: chain[i].count == max && |chain[i].entries| == max
  }

  lemma {:induction false} FullRunEnd(chain: seq<FNode>, lo: int, hi: int, max: nat)
    requires Fills(chain, lo, hi) && AllFull(chain, max)
    ensures hi == lo + |chain| * (max + 1)
  {
    if chain == [] {
    } else {
      assert AllFull(chain[1..], max) by {
        forall i | 0 <= i < |chain[1..]| ensures chain[1..][i].count == max && |chain[1..][i].entries| == max {
          assert chain[1..][i] == chain[i + 1];
        }
      }
      FullRunEnd(chain[1..], lo + 1 + max, hi, max);
      assert |chain| * (max + 1) == (|chain| - 1) * (max + 1) + (max + 1);
    }
  }

  /** The run ends in the middle of a collector exactly when the block count is not a multiple. */
  lemma Remainder(chain: seq<FNode>, cur: int, j: nat, total: int, max: nat)
    requires Fills(chain, 2, cur) && AllFull(chain, max) && max > 0
    ensures cur == total ==> (total - 2) % (max + 1) == 0
    ensures cur + 1 + j == total && j < max ==> (total - 2) % (max + 1) != 0
  {
    FullRunEnd(chain, 2, cur, max);
    FillsRange(chain, 2, cur);
    if cur == total {
      DivUnique(total - 2, max + 1, |chain|, 0);
    }
    if cur + 1 + j == total && j < max {
      DivUnique(total - 2, max + 1, |chain|, j + 1);
    }
  }

  /** The list sbInit makes of blocks 2 .. total-1: every collector full but the last. */
  ghost predicate FreshList(chain: seq<FNode>, total: int, max: nat) {
    && chain != [] && Fills(chain, 2, total) && ChainOk(chain, max)
    && AllFull(chain[..|chain| - 1], max) && chain[|chain| - 1].count < max
  }

  lemma FreshParts(chain: seq<FNode>, total: int, max: nat)
    requires FreshList(chain, total, max)
    ensures chain != [] && Fills(chain, 2, total) && ChainOk(chain, max)
  {
  }

  lemma IsFresh(full: seq<FNode>, n: FNode, total: int, max: nat)
    requires Fills(full + [n], 2, total) && ChainOk(full + [n], max) && AllFull(full, max) && n.count < max
    ensures FreshList(full + [n], total, max) && (full + [n])[0].blk == 2
  {
    FillsRange(full + [n], 2, total);
    assert (full + [n])[..|full|] == full;
  }

  lemma NoRun(blocks: Blocks, max: nat)
    ensures Fills([], 2, 2) && AllFull([], max) && OnDiskTo(blocks, [], 2)
  {
  }

  /** A run of full collectors, with one more. */
  lemma FullStep(chain: seq<FNode>, cur: int, n: FNode, max: nat)
    requires Fills(chain, 2, cur) && AllFull(chain, max) && n.blk == cur && n.count == max && |n.entries| == max
    requires forall e | 0 <= e < max :: n.entries[e] == cur + 1 + e
    ensures Fills(chain + [n], 2, cur + 1 + max) && AllFull(chain + [n], max)
    ensures (chain + [n])[0].blk == 2
  {
    FillsAppend(chain, 2, cur, n);
    FillsRange(chain + [n], 2, cur + 1 + max);
  }

  lemma FullOk(chain: seq<FNode>, max: nat)
    requires AllFull(chain, max)
    ensures ChainOk(chain, max)
  {
  }

  /** Draining a fresh list gives hi - lo different blocks, block lo last, and then SYSERR for ever. */
  lemma FreshListDrains(chain: seq<FNode>, lo: int, hi: int, max: nat, k: nat)
    requires Fills(chain, lo, hi) && chain != [] && ChainOk(chain, max)
    ensures Distinct(Handout(chain)) && |Handout(chain)| == hi - lo
    ensures Drain(chain, k) == [] <==> k >= hi - lo
    ensures k < hi - lo ==> Get(Drain(chain, k)).0 == Handout(chain)[k] && lo <= Handout(chain)[k] < hi
    ensures k == hi - lo - 1 ==> Get(Drain(chain, k)).0 == lo
  {
    hide Fills, Handout, Drain, Get, Times, ChainOk;
    FillsPartition(chain, lo, hi);
    DrainGivesHandout(chain, max, k);
    var h := Handout(chain);
    if k < hi - lo {
      GetPops(Drain(chain, k), max);
      assert h[k..][0] == h[k];
      TimesIn(h, k);
      assert Times(h, h[k]) == Once(lo, h[k], hi);
    }
    forall i, j | 0 <= i < j < |h| ensures h[i] != h[j] {
      assert Times(h, h[i]) == Once(lo, h[i], hi) <= 1;
      if h[i] == h[j] {
        TimesTwice(h, i, j);
      }
    }
  }
}
