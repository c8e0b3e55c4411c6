/** Runs of sbGetBlock and sbFreeBlock on their own: the disk always describes the list in memory, and no
    block is lost or handed out twice. */
module FreeRuns {
  import opened FreeChain
  import opened DiskImage

  /** The free list in memory, the disk, and the blocks that were handed out and not given back. */
  datatype State = State(chain: seq<FNode>, blocks: Blocks, taken: seq<int>)

  datatype Call = GetBlock | FreeBlock(k: nat, junk: seq<int>)

  /** One call; FreeBlock gives back the k-th taken block and is refused above max + 1. */
  function Step(s: State, call: Call, dir: int, max: nat): State {
    match call
    case GetBlock =>
      if s.chain == [] then s
      else State(Get(s.chain).1, GetWrites(s.blocks, s.chain, dir), s.taken + [Get(s.chain).0])
    case FreeBlock(k, junk) =>
      if k < |s.taken| && Accepted(s.taken[k], max) then
        State(Put(s.chain, s.taken[k], junk), PutWrites(s.blocks, s.chain, s.taken[k], junk, dir),
              s.taken[..k] + s.taken[k + 1..])
      else s
  }

  /** The list has room for what is given back. */
  predicate Fine(s: State, call: Call, max: nat) {
    call.FreeBlock? ==> Room(s.chain) && |call.junk| == max
  }

  function Run(s: State, calls: seq<Call>, dir: int, max: nat): State
    decreases |calls|
  {
    if calls == [] then s else Run(Step(s, calls[0], dir, max), calls[1..], dir, max)
  }

  predicate RunFine(s: State, calls: seq<Call>, dir: int, max: nat)
    decreases |calls|
  {
    calls != [] ==> Fine(s, calls[0], max) && RunFine(Step(s, calls[0], dir, max), calls[1..], dir, max)
  }

  function Count(s: State, b: int): nat {
    Times(Handout(s.chain), b) + Times(s.taken, b)
  }

  /** All blocks in play are on the disk. */
  ghost predicate InRange(s: State) {
    forall b | Count(s, b) > 0 :: 0 < b < |s.blocks|
  }

  lemma StepKeeps(s: State, call: Call, dir: int, max: nat)
    requires ChainOk(s.chain, max) && Agree(s.blocks, s.chain, dir) && InRange(s) && Fine(s, call, max)
    ensures var s' := Step(s, call, dir, max);
            && ChainOk(s'.chain, max) && Agree(s'.blocks, s'.chain, dir) && |s'.blocks| == |s.blocks|
            && forall b :: Count(s', b) == Count(s, b)
  {
    hide Handout, Times, ChainOk, Agree, Get, Put, Room, PutWrites, GetWrites, PutPosition;
    var s' := Step(s, call, dir, max);
    match call {
      case GetBlock =>
        if s.chain != [] {
          var b0 := Get(s.chain).0;
          GetPops(s.chain, max);
          GetKeepsAgreement(s.blocks, s.chain, dir, max);
          SameSize(s, 0, [], dir);
          forall b ensures Count(s', b) == Count(s, b) {
            TimesAppend([b0], Handout(s'.chain), b);
            TimesAppend(s.taken, [b0], b);
          }
        }
      case FreeBlock(k, junk) =>
        if k < |s.taken| && Accepted(s.taken[k], max) {
          var x, h, at := s.taken[k], Handout(s.chain), PutPosition(s.chain);
          TimesIn(s.taken, k);
          assert Count(s, x) > 0;
          PutInserts(s.chain, max, x, junk);
          PutKeepsAgreement(s.blocks, s.chain, x, junk, dir);
          SameSize(s, x, junk, dir);
          forall b ensures Count(s', b) == Count(s, b) {
            Moved(h, at, s.taken, k, b);
          }
        }
    }
  }

  lemma SameSize(s: State, b: int, junk: seq<int>, dir: int)
    ensures s.chain != [] ==> |GetWrites(s.blocks, s.chain, dir)| == |s.blocks|
    ensures |PutWrites(s.blocks, s.chain, b, junk, dir)| == |s.blocks|
  {
  }

  lemma Moved(h: seq<int>, at: int, taken: seq<int>, k: nat, b: int)
    requires 0 <= at <= |h| && k < |taken|
    ensures Times(h[..at] + [taken[k]] + h[at..], b) + Times(taken[..k] + taken[k + 1..], b)
         == Times(h, b) + Times(taken, b)
  {
    hide Times;
    var x := taken[k];
    assert h == h[..at] + h[at..] && taken == taken[..k] + ([x] + taken[k + 1..]);
    TimesAppend(h[..at], h[at..], b);
    TimesAppend(h[..at] + [x], h[at..], b);
    TimesAppend(h[..at], [x], b);
    TimesAppend(taken[..k], [x] + taken[k + 1..], b);
    TimesAppend([x], taken[k + 1..], b);
    TimesAppend(taken[..k], taken[k + 1..], b);
  }

  /** Over every run: the disk describes the list in memory, and free plus taken stays the same, block by block. */
  lemma {:induction false} RunsAgree(s: State, calls: seq<Call>, dir: int, max: nat)
    requires ChainOk(s.chain, max) && Agree(s.blocks, s.chain, dir) && InRange(s) && RunFine(s, calls, dir, max)
    ensures var s' := Run(s, calls, dir, max);
            && ChainOk(s'.chain, max) && Agree(s'.blocks, s'.chain, dir) && |s'.blocks| == |s.blocks|
            && forall b :: Count(s', b) == Count(s, b)
    decreases |calls|
  {
    hide Step, Agree, ChainOk, Fine, Count;
    if calls == [] {
    } else {
      StepKeeps(s, calls[0], dir, max);
      RunsAgree(Step(s, calls[0], dir, max), calls[1..], dir, max);
    }
  }

  /** ... so whatever list the superblock leads to on disk after a run is the list in memory. */
  lemma RereadAfterRun(s: State, calls: seq<Call>, dir: int, max: nat, found: seq<FNode>)
    requires ChainOk(s.chain, max) && Agree(s.blocks, s.chain, dir) && InRange(s) && RunFine(s, calls, dir, max)
    ensures var s' := Run(s, calls, dir, max);
            && |s'.blocks| > 0 && s'.blocks[0].SuperRecord?
            && (First(found) == s'.blocks[0].freelst && OnDisk(s'.blocks, found) ==> found == s'.chain)
            && First(s'.chain) == s'.blocks[0].freelst && OnDisk(s'.blocks, s'.chain)
  {
    hide Run, RunFine, InRange, OnDisk, ChainOk;
    RunsAgree(s, calls, dir, max);
    var s' := Run(s, calls, dir, max);
    if First(found) == s'.blocks[0].freelst && OnDisk(s'.blocks, found) {
      OnDiskUnique(s'.blocks, found, s'.chain);
    }
  }

  /** sbFreeBlock moves a taken block back to the free list exactly when its number is from 1 to max + 1; any other it
      refuses, and nothing changes. */
  lemma ReturnsIff(s: State, k: nat, junk: seq<int>, dir: int, max: nat)
    requires ChainOk(s.chain, max) && k < |s.taken| && Fine(s, FreeBlock(k, junk), max)
    ensures var b, s' := s.taken[k], Step(s, FreeBlock(k, junk), dir, max);
            if 1 <= b <= max + 1 then
              multiset(Handout(s'.chain)) == multiset(Handout(s.chain)) + multiset{b} && b in Handout(s'.chain)
              && multiset(s'.taken) == multiset(s.taken) - multiset{b}
            else s' == s
  {
    hide Handout, ChainOk, Put, Room, PutWrites, PutPosition;
    var b := s.taken[k];
    if 1 <= b <= max + 1 {
      PutInserts(s.chain, max, b, junk);
      Inserted(Handout(s.chain), PutPosition(s.chain), b);
      assert b in multiset(Handout(s.chain)) + multiset{b};
      assert s.taken == s.taken[..k] + [b] + s.taken[k + 1..];
    }
  }

  /** Over every run, with room or without, a block outside that range stays out once it was handed out. */
  lemma {:induction false} OutsideStaysTaken(s: State, calls: seq<Call>, dir: int, max: nat, b: int)
    requires (b < 1 || b > max + 1) && b in s.taken
    ensures b in Run(s, calls, dir, max).taken
    decreases |calls|
  {
    hide Step;
    if calls == [] {
    } else {
      OutsideStep(s, calls[0], dir, max, b);
      OutsideStaysTaken(Step(s, calls[0], dir, max), calls[1..], dir, max, b);
    }
  }

  lemma OutsideStep(s: State, call: Call, dir: int, max: nat, b: int)
    requires (b < 1 || b > max + 1) && b in s.taken
    ensures b in Step(s, call, dir, max).taken
  {
    if call.FreeBlock? && call.k < |s.taken| && s.taken[call.k] != b {
      var j :| 0 <= j < |s.taken| && s.taken[j] == b;
      assert j < call.k ==> s.taken[..call.k][j] == b;
      assert j > call.k ==> s.taken[call.k + 1..][j - call.k - 1] == b;
    }
  }
}
