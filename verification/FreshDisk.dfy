/** The source's own disk, 256 blocks and collectors of 61 entries, from sbInit on: short runs of calls at the end of
    which blocks are lost, and which blocks can be used only once. */
module FreshDisk {
  import opened FreeChain
  import opened DiskImage
  import opened Format
  import opened Files
  import opened FileRuns
  import opened Deletion
  import FreeRuns

  /** sbInit's list there: five collectors, four full ones and one with five entries. */
  lemma FiveCollectors(chain: seq<FNode>)
    requires FreshList(chain, DISKBLOCKTOTAL, FREEBLOCKMAX)
    ensures |chain| == 5 && chain[0].count == FREEBLOCKMAX && chain[4].count == 5
    ensures |chain[0].entries| == |chain[4].entries| == FREEBLOCKMAX
    ensures forall e | 0 <= e < FREEBLOCKMAX :: chain[0].entries[e] == 3 + e
  {
    var full, n := chain[..|chain| - 1], chain[|chain| - 1];
    assert chain == full + [n] && NodeOk(n, FREEBLOCKMAX) && NodeOk(chain[0], FREEBLOCKMAX);
    var mid := FillsSplit(full, n, 2, DISKBLOCKTOTAL);
    FullRunEnd(full, 2, mid, FREEBLOCKMAX);
    assert full[0] == chain[0];
  }

  lemma {:induction false} FillsSplit(full: seq<FNode>, n: FNode, lo: int, hi: int) returns (mid: int)
    requires Fills(full + [n], lo, hi)
    ensures Fills(full, lo, mid) && mid + 1 + n.count == hi && 0 <= n.count
  {
    if full == [] {
      mid := lo;
      assert full + [n] == [n] && [n][1..] == [];
    } else {
      assert (full + [n])[1..] == full[1..] + [n];
      mid := FillsSplit(full[1..], n, lo + 1 + full[0].count, hi);
    }
  }

  function Repeat(call: FreeRuns.Call, c: nat): (r: seq<FreeRuns.Call>)
    ensures |r| == c
  {
    if c == 0 then [] else [call] + Repeat(call, c - 1)
  }

  /** The last c live entries of a node, from the top. */
  function Top(n: FNode, c: nat): seq<int>
    requires c <= n.count <= |n.entries|
  {
    Rev(n.entries[n.count - c..n.count])
  }

  function WithoutTop(n: FNode): FNode
    requires 0 < n.count <= |n.entries|
  {
    FNode(n.blk, n.count - 1, n.entries[n.count - 1 := 0])
  }

  lemma TopStep(n: FNode, c: nat)
    requires 0 < c <= n.count <= |n.entries|
    ensures Top(n, c) == [n.entries[n.count - 1]] + Top(WithoutTop(n), c - 1)
  {
    hide Rev;
    var more := n.entries[n.count - c..n.count - 1];
    assert WithoutTop(n).entries[n.count - c..n.count - 1] == more;
    assert n.entries[n.count - c..n.count] == more + [n.entries[n.count - 1]];
    RevPush(more, n.entries[n.count - 1]);
  }

  /** Taking c entries of the first collector. */
  lemma {:induction false} TakeEntries(s: FreeRuns.State, n: FNode, rest: seq<FNode>, c: nat, dir: int, max: nat)
    returns (n': FNode)
    requires s.chain == [n] + rest && c <= n.count && NodeOk(n, max)
    ensures var calls := Repeat(FreeRuns.GetBlock, c);
            var s' := FreeRuns.Run(s, calls, dir, max);
            FreeRuns.RunFine(s, calls, dir, max) && s'.chain == [n'] + rest && s'.taken == s.taken + Top(n, c)
    decreases c
  {
    hide Top, FreeRuns.Run, FreeRuns.RunFine, FreeRuns.Step;
    if c == 0 {
      n' := n;
      NoCallsMade(s, dir, max);
      NothingTaken(n);
    } else {
      TakeOne(s, n, rest, dir, max);
      n' := TakeEntries(FreeRuns.Step(s, FreeRuns.GetBlock, dir, max), WithoutTop(n), rest, c - 1, dir, max);
      FirstOf(s, FreeRuns.GetBlock, c, dir, max);
      TopStep(n, c);
    }
  }

  lemma NothingTaken(n: FNode)
    requires 0 <= n.count <= |n.entries|
    ensures Top(n, 0) == []
  {
  }

  lemma NoCallsMade(s: FreeRuns.State, dir: int, max: nat)
    ensures FreeRuns.Run(s, [], dir, max) == s && FreeRuns.RunFine(s, [], dir, max)
  {
  }

  lemma FirstOf(s: FreeRuns.State, call: FreeRuns.Call, c: nat, dir: int, max: nat)
    requires c > 0
    ensures var s1 := FreeRuns.Step(s, call, dir, max);
            && FreeRuns.Run(s, Repeat(call, c), dir, max) == FreeRuns.Run(s1, Repeat(call, c - 1), dir, max)
            && (FreeRuns.RunFine(s, Repeat(call, c), dir, max)
                <==> FreeRuns.Fine(s, call, max) && FreeRuns.RunFine(s1, Repeat(call, c - 1), dir, max))
            && (call.GetBlock? ==> FreeRuns.Fine(s, call, max))
  {
    hide FreeRuns.Step;
    assert Repeat(call, c)[1..] == Repeat(call, c - 1);
  }

  lemma TakeOne(s: FreeRuns.State, n: FNode, rest: seq<FNode>, dir: int, max: nat)
    requires s.chain == [n] + rest && 0 < n.count && NodeOk(n, max)
    ensures var s1 := FreeRuns.Step(s, FreeRuns.GetBlock, dir, max);
            && s1.chain == [WithoutTop(n)] + rest
            && s1.taken == s.taken + [n.entries[n.count - 1]]
  {
    hide GetWrites;
  }

  lemma {:induction false} RevAt(s: seq<int>, j: nat)
    requires j < |s|
    ensures Rev(s)[j] == s[|s| - 1 - j]
  {
    if j == 0 {
    } else {
      RevAt(s[..|s| - 1], j - 1);
    }
  }

  /** Giving back c taken blocks to the last collector, each time the second of those still taken. */
  lemma {:induction false} FillLast(s: FreeRuns.State, front: seq<FNode>, n: FNode, junk: seq<int>, c: nat, dir: int,
                                    max: nat) returns (n': FNode)
    requires s.chain == front + [n] && |n.entries| == max && 0 <= n.count && n.count + c <= max && |junk| == max
    requires |s.taken| > c && forall j | 1 <= j <= c :: Accepted(s.taken[j], max)
    ensures var calls := Repeat(FreeRuns.FreeBlock(1, junk), c);
            var s' := FreeRuns.Run(s, calls, dir, max);
            && FreeRuns.RunFine(s, calls, dir, max)
            && s'.chain == front + [n'] && n'.count == n.count + c && |n'.entries| == max
            && s'.taken == s.taken[..1] + s.taken[1 + c..]
    decreases c
  {
    hide FreeRuns.Run, FreeRuns.RunFine, FreeRuns.Step, Accepted, AddEntry;
    var call := FreeRuns.FreeBlock(1, junk);
    if c == 0 {
      n' := n;
      NoCallsMade(s, dir, max);
    } else {
      var s1, n1 := FreeRuns.Step(s, call, dir, max), AddEntry(n, s.taken[1]);
      GiveOne(s, front, n, junk, dir, max);
      forall j | 1 <= j <= c - 1 ensures Accepted(s1.taken[j], max) {
        assert s1.taken[j] == s.taken[j + 1];
      }
      n' := FillLast(s1, front, n1, junk, c - 1, dir, max);
      FirstOf(s, call, c, dir, max);
      assert s1.taken[..1] + s1.taken[c..] == s.taken[..1] + s.taken[1 + c..];
    }
  }

  lemma GiveOne(s: FreeRuns.State, front: seq<FNode>, n: FNode, junk: seq<int>, dir: int, max: nat)
    requires s.chain == front + [n] && |n.entries| == |junk| == max && 0 <= n.count < max
    requires |s.taken| > 1 && Accepted(s.taken[1], max)
    ensures var call, n1 := FreeRuns.FreeBlock(1, junk), AddEntry(n, s.taken[1]);
            var s1 := FreeRuns.Step(s, call, dir, max);
            && FreeRuns.Fine(s, call, max) && s1.chain == front + [n1] && s1.taken == s.taken[..1] + s.taken[2..]
            && n1.count == n.count + 1 && |n1.entries| == max
  {
    hide PutWrites, Accepted;
    assert s.chain[..|front|] == front && s.chain[|front|] == n;
  }

  lemma {:induction false} RunTwice(s: FreeRuns.State, a: seq<FreeRuns.Call>, b: seq<FreeRuns.Call>, dir: int, max: nat)
    ensures FreeRuns.Run(s, a + b, dir, max) == FreeRuns.Run(FreeRuns.Run(s, a, dir, max), b, dir, max)
    ensures FreeRuns.RunFine(s, a + b, dir, max)
            <==> FreeRuns.RunFine(s, a, dir, max) && FreeRuns.RunFine(FreeRuns.Run(s, a, dir, max), b, dir, max)
    decreases |a|
  {
    if a == [] {
      assert a + b == b;
    } else {
      assert (a + b)[1..] == a[1..] + b;
      RunTwice(FreeRuns.Step(s, a[0], dir, max), a[1..], b, dir, max);
    }
  }

  /** 61 calls of sbGetBlock and 56 of sbFreeBlock: blocks 63 to 3 come out, and 62 down to 7 go back. */
  function Filling(junk: seq<int>): seq<FreeRuns.Call> {
    Repeat(FreeRuns.GetBlock, 61) + Repeat(FreeRuns.FreeBlock(1, junk), 56)
  }

  lemma FillingRun(s: FreeRuns.State, junk: seq<int>) returns (n: FNode)
    requires FreshList(s.chain, DISKBLOCKTOTAL, FREEBLOCKMAX) && s.taken == [] && |junk| == FREEBLOCKMAX
    ensures var s' := FreeRuns.Run(s, Filling(junk), 1, FREEBLOCKMAX);
            && FreeRuns.RunFine(s, Filling(junk), 1, FREEBLOCKMAX)
            && |s'.chain| == 5 && s'.chain[4] == n && n.count == |n.entries| == FREEBLOCKMAX
            && |s'.taken| == 5 && s'.taken[1] == 6
  {
    hide Fills, ChainOk, AllFull, Repeat, Rev, FreeRuns.Run, FreeRuns.RunFine;
    FiveCollectors(s.chain);
    var chain := s.chain;
    assert chain == [chain[0]] + chain[1..];
    var n0 := TakeEntries(s, chain[0], chain[1..], 61, 1, FREEBLOCKMAX);
    var gets, puts := Repeat(FreeRuns.GetBlock, 61), Repeat(FreeRuns.FreeBlock(1, junk), 56);
    var s1 := FreeRuns.Run(s, gets, 1, FREEBLOCKMAX);
    var e := chain[0].entries[0..61];
    assert Top(chain[0], 61) == Rev(e);
    assert [n0] + chain[1..] == ([n0] + chain[1..4]) + [chain[4]];
    forall j | 0 <= j < 61 ensures s1.taken[j] == 63 - j {
      RevAt(e, j);
      assert e[60 - j] == 63 - j;
    }
    n := FillLast(s1, [n0] + chain[1..4], chain[4], junk, 56, 1, FREEBLOCKMAX);
    RunTwice(s, gets, puts, 1, FREEBLOCKMAX);
    assert s1.taken[57] == 6;
  }

  /** The state sbInit leaves, for runs of sbGetBlock and sbFreeBlock. */
  function Start(fs: Fs): FreeRuns.State {
    FreeRuns.State(fs.chain, fs.blocks, [])
  }

  /** On the source's disk the full-node branch is met with five collectors, giving back a block that was handed out:
      blocks are lost, and memory and disk no longer agree. */
  lemma FullNodeIsReached(fs: Fs, junk: FNode)
    requires Fresh(fs, FREEBLOCKMAX, DISKBLOCKTOTAL) && |junk.entries| == FREEBLOCKMAX
    ensures var s := FreeRuns.Run(Start(fs), Filling(junk.entries), 1, FREEBLOCKMAX);
            && FreeRuns.RunFine(Start(fs), Filling(junk.entries), 1, FREEBLOCKMAX)
            && |s.taken| > 1 && Accepted(s.taken[1], FREEBLOCKMAX) && !Room(s.chain)
            && multiset(Handout(Put(s.chain, s.taken[1], junk.entries)))
               != multiset(Handout(s.chain)) + multiset{s.taken[1]}
            && |Handout(Put(s.chain, s.taken[1], junk.entries))| <= |Handout(s.chain)| - 62
            && !Agree(FreeWrites(s.blocks, s.chain, s.taken[1], junk, 1), Put(s.chain, s.taken[1], junk.entries), 1)
  {
    hide FreshList, Good, Whole, Filling, FreeRuns.Run, FreeRuns.RunFine, Handout, Put, FreeWrites, Agree, ChainOk;
    var start := Start(fs);
    var n := FillingRun(start, junk.entries);
    FreshParts(fs.chain, DISKBLOCKTOTAL, FREEBLOCKMAX);
    GoodParts(fs, FREEBLOCKMAX, DISKBLOCKTOTAL);
    StartInRange(fs);
    FreeRuns.RunsAgree(start, Filling(junk.entries), 1, FREEBLOCKMAX);
    var s := FreeRuns.Run(start, Filling(junk.entries), 1, FREEBLOCKMAX);
    PutConservesIff(s.chain, FREEBLOCKMAX, s.taken[1], junk.entries);
    PutLoses(s.chain, FREEBLOCKMAX, s.taken[1], junk.entries, 0);
    CountsOk(s.chain, FREEBLOCKMAX);
    PutAgreesIff(s.blocks, s.chain, s.taken[1], junk, 1);
  }

  lemma StartInRange(fs: Fs)
    requires OneOwner(fs, DISKBLOCKTOTAL) && |fs.blocks| == DISKBLOCKTOTAL
    ensures FreeRuns.InRange(Start(fs))
  {
    hide Handout, Held;
    forall b | FreeRuns.Count(Start(fs), b) > 0 ensures 0 < b < |fs.blocks| {
      assert Owners(fs, b) <= Once(2, b, DISKBLOCKTOTAL);
    }
  }

  lemma CountsOk(chain: seq<FNode>, max: nat)
    requires ChainOk(chain, max)
    ensures forall i | 0 <= i < |chain| :: chain[i].count >= 0
  {
    forall i | 0 <= i < |chain| ensures chain[i].count >= 0 {
      assert NodeOk(chain[i], max);
    }
  }

  /** The first file on the source's disk gets descriptor 0 and block 63. */
  lemma FirstFile(fs: Fs, name: string, junk: seq<int>)
    requires Fresh(fs, FREEBLOCKMAX, DISKBLOCKTOTAL) && |junk| == DISKBLOCKLEN
    ensures var (r, fs') := Create(fs, name, junk);
            && r == 0 && Good(fs', FREEBLOCKMAX, DISKBLOCKTOTAL) && Whole(fs', DISKBLOCKTOTAL)
            && |fs'.files| == DIRENTRIES && Holds(fs'.files[0], 63) && 63 !in Handout(fs'.chain) && Room(fs'.chain)
  {
    hide Good, Owners, Handout, FreshList, Agree;
    FiveCollectors(fs.chain);
    GoodParts(fs, FREEBLOCKMAX, DISKBLOCKTOTAL);
    CreateStep(fs, name, junk, FREEBLOCKMAX, DISKBLOCKTOTAL);
    FirstGet(fs.chain);
    var fs' := Create(fs, name, junk).1;
    OwnershipMeans(fs', FREEBLOCKMAX, DISKBLOCKTOTAL);
  }

  lemma FirstGet(chain: seq<FNode>)
    requires |chain| == 5 && chain[0].count == |chain[0].entries| == FREEBLOCKMAX && chain[0].entries[60] == 63
    requires chain[4].count == 5 && |chain[4].entries| == FREEBLOCKMAX
    ensures Get(chain).0 == 63 && Room(Get(chain).1)
  {
    var rest := Get(chain).1;
    assert |rest| == 5 && rest[4] == chain[4];
  }

  /** ... and is not in the directory on disk. */
  lemma FirstFileUnlisted(fs: Fs, name: string, junk: seq<int>)
    requires Fresh(fs, FREEBLOCKMAX, DISKBLOCKTOTAL) && |junk| == DISKBLOCKLEN
    ensures var fs' := Create(fs, name, junk).1;
            forall i | 0 <= i < |Listed(fs')| :: Listed(fs')[i].state == FILE_FREE
  {
    hide Good, Owners, Handout, FreshList, Listed, Agree, Get, GetWrites;
    FirstFile(fs, name, junk);
    var fs' := Create(fs, name, junk).1;
    ListedStep(fs, OpCreate(name, junk), FREEBLOCKMAX, DISKBLOCKTOTAL);
    GoodParts(fs', FREEBLOCKMAX, DISKBLOCKTOTAL);
    assert !AllListed(fs') && Lists(Listed(fs'), fs'.files);
    forall i | 0 < i < |fs'.files| ensures fs'.files[i].state == FILE_FREE {
    }
  }

  /** Create a file and remount without a close: block 63 is nobody's. */
  lemma CreateRemountLoses(fs: Fs, name: string, junk: seq<int>)
    requires Fresh(fs, FREEBLOCKMAX, DISKBLOCKTOTAL) && |junk| == DISKBLOCKLEN
    ensures var ops := [OpCreate(name, junk), OpRemount];
            && RunAllowed(fs, ops) && Owners(fs, 63) == 1 && Owners(Run(fs, ops), 63) == 0
            && !Whole(Run(fs, ops), DISKBLOCKTOTAL)
  {
    hide Good, Owners, Handout, FreshList, Create, Remount, Allowed, Run, RunAllowed;
    var fs1 := Create(fs, name, junk).1;
    assert Owners(fs, 63) == Once(2, 63, DISKBLOCKTOTAL);
    TwoCalls(fs, name, junk);
    FirstFile(fs, name, junk);
    FirstFileUnlisted(fs, name, junk);
    EmptyDirectory(fs1, 63);
    assert Owners(Remount(fs1), 63) != Once(2, 63, DISKBLOCKTOTAL);
  }

  lemma TwoCalls(fs: Fs, name: string, junk: seq<int>)
    requires |junk| == DISKBLOCKLEN
    ensures var ops := [OpCreate(name, junk), OpRemount];
            RunAllowed(fs, ops) && Run(fs, ops) == Remount(Create(fs, name, junk).1)
  {
    hide Create, Remount;
    var ops := [OpCreate(name, junk), OpRemount];
    assert ops[1..] == [OpRemount] && [OpRemount][1..] == [];
    var fs1 := Apply(fs, ops[0]);
    assert Run(fs1, [OpRemount]) == Run(Remount(fs1), []);
    assert RunAllowed(fs1, [OpRemount]);
  }

  /** Reading back a directory without files. */
  lemma EmptyDirectory(fs: Fs, b: int)
    requires b !in Handout(fs.chain) && forall i | 0 <= i < |Listed(fs)| :: Listed(fs)[i].state == FILE_FREE
    ensures Owners(Remount(fs), b) == 0
  {
    hide Handout, Times, Held, Listed;
    TimesNotIn(Handout(fs.chain), b);
    var files := ReadBackAll(Listed(fs));
    NotUsedIfFree(FILE_FREE);
    if Held(files, b) > 0 {
      var i := HeldBy(files, b);
    }
  }

  /** Create a file and delete it: sbFreeBlock refuses block 0, and block 63 is nobody's. */
  lemma CreateDeleteLoses(fs: Fs, name: string, junk: seq<int>, node: FNode)
    requires Fresh(fs, FREEBLOCKMAX, DISKBLOCKTOTAL) && |junk| == DISKBLOCKLEN && |node.entries| == FREEBLOCKMAX
    ensures var (fd, fs1) := Create(fs, name, junk);
            var fs2 := Delete(fs1, fd, node, FREEBLOCKMAX);
            fd == 0 && fs2.chain == fs1.chain && Owners(fs1, 63) == 1 && Owners(fs2, 63) == 0
  {
    hide Good, Owners, Handout, FreshList, Create, Agree;
    var fs1 := Create(fs, name, junk).1;
    FirstFile(fs, name, junk);
    assert Owners(fs1, 63) == Once(2, 63, DISKBLOCKTOTAL);
    DeleteOwners(fs1, 0, node, FREEBLOCKMAX, DISKBLOCKTOTAL, 63);
  }

  /** ... and deleting descriptor 1 next puts the directory's block on the free list. */
  lemma DeleteOneFreesDirectory(fs: Fs, name: string, junk: seq<int>, node: FNode)
    requires Fresh(fs, FREEBLOCKMAX, DISKBLOCKTOTAL) && |junk| == DISKBLOCKLEN && |node.entries| == FREEBLOCKMAX
    ensures var fs' := Delete(Create(fs, name, junk).1, 1, node, FREEBLOCKMAX);
            1 in Handout(fs'.chain) && !OneOwner(fs', DISKBLOCKTOTAL)
  {
    hide Good, Owners, Handout, FreshList, Create, Delete, OneOwner, Room;
    FirstFile(fs, name, junk);
    DeleteFreesDirectory(Create(fs, name, junk).1, node, FREEBLOCKMAX, DISKBLOCKTOTAL);
  }

  /** On the source's disk blocks 63 to 255, three of four, can be used once only: whatever calls come before and after,
      one of them that was handed out is never free again. */
  lemma HighBlocksUsedOnce(fs: Fs, before: seq<FreeRuns.Call>, after: seq<FreeRuns.Call>, b: int)
    requires Fresh(fs, FREEBLOCKMAX, DISKBLOCKTOTAL) && b >= 63
    requires FreeRuns.RunFine(Start(fs), before + after, 1, FREEBLOCKMAX)
    requires b in FreeRuns.Run(Start(fs), before, 1, FREEBLOCKMAX).taken
    ensures var s := FreeRuns.Run(Start(fs), before + after, 1, FREEBLOCKMAX);
            b in s.taken && b !in Handout(s.chain)
  {
    hide FreshList, Good, Whole, FreeRuns.Run, FreeRuns.RunFine, Handout, Agree, ChainOk, Times;
    var s := FreeRuns.Run(Start(fs), before + after, 1, FREEBLOCKMAX);
    FreeRuns.OutsideStaysTaken(FreeRuns.Run(Start(fs), before, 1, FREEBLOCKMAX), after, 1, FREEBLOCKMAX, b);
    RunTwice(Start(fs), before, after, 1, FREEBLOCKMAX);
    GoodParts(fs, FREEBLOCKMAX, DISKBLOCKTOTAL);
    StartInRange(fs);
    FreeRuns.RunsAgree(Start(fs), before + after, 1, FREEBLOCKMAX);
    var j :| 0 <= j < |s.taken| && s.taken[j] == b;
    TimesIn(s.taken, j);
    StartOnce(fs, b);
    if b in Handout(s.chain) {
      var i :| 0 <= i < |Handout(s.chain)| && Handout(s.chain)[i] == b;
      TimesIn(Handout(s.chain), i);
    }
  }

  lemma StartOnce(fs: Fs, b: int)
    requires OneOwner(fs, DISKBLOCKTOTAL)
    ensures FreeRuns.Count(Start(fs), b) <= 1
  {
    hide Handout, Held;
    assert Owners(fs, b) <= Once(2, b, DISKBLOCKTOTAL);
  }

  /** ... and blocks 2 to 62 go back to the free list whenever it has room. */
  lemma LowBlocksReturn(fs: Fs, calls: seq<FreeRuns.Call>, k: nat, junk: seq<int>)
    requires Fresh(fs, FREEBLOCKMAX, DISKBLOCKTOTAL) && |junk| == FREEBLOCKMAX
    requires FreeRuns.RunFine(Start(fs), calls, 1, FREEBLOCKMAX)
    ensures var s := FreeRuns.Run(Start(fs), calls, 1, FREEBLOCKMAX);
            var s' := FreeRuns.Step(s, FreeRuns.FreeBlock(k, junk), 1, FREEBLOCKMAX);
            k < |s.taken| && Room(s.chain) ==>
              2 <= s.taken[k] < DISKBLOCKTOTAL && (s.taken[k] in Handout(s'.chain) <==> s.taken[k] <= 62)
  {
    hide FreshList, Good, Whole, FreeRuns.Run, FreeRuns.RunFine, Handout, Agree, ChainOk, Times, FreeRuns.Step, Room;
    var s := FreeRuns.Run(Start(fs), calls, 1, FREEBLOCKMAX);
    if k < |s.taken| && Room(s.chain) {
      var b := s.taken[k];
      GoodParts(fs, FREEBLOCKMAX, DISKBLOCKTOTAL);
      StartInRange(fs);
      FreeRuns.RunsAgree(Start(fs), calls, 1, FREEBLOCKMAX);
      TimesIn(s.taken, k);
      StartTwo(fs, b);
      FreeRuns.ReturnsIff(s, k, junk, 1, FREEBLOCKMAX);
      if b > 62 {
        assert calls + [] == calls;
        HighBlocksUsedOnce(fs, calls, [], b);
      }
    }
  }

  lemma StartTwo(fs: Fs, b: int)
    requires OneOwner(fs, DISKBLOCKTOTAL) && FreeRuns.Count(Start(fs), b) > 0
    ensures 2 <= b < DISKBLOCKTOTAL
  {
    hide Handout, Held;
    assert Owners(fs, b) <= Once(2, b, DISKBLOCKTOTAL);
  }
}
