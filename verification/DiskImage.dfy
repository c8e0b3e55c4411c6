/** Disk blocks, and when the records on disk describe the free list in memory.  A record on disk
    holds block numbers where the structure in memory holds pointers. */
module DiskImage {
  import opened FreeChain

  datatype Buffer = Dangling | Loaded(bytes: seq<int>)

  /** struct filenode; `data` stands for the buffer fn_data points to. */
  datatype FileNode = FileNode(state: bv8, length: int, cursor: int, blocknum: int, name: string, data: Buffer)

  datatype DiskBlock =
    | FreeRecord(blocknum: int, count: int, next: int, entries: seq<int>)
    | SuperRecord(magic: int, blocknum: int, blocktotal: int, freelst: int, dirlst: int)
    | DirRecord(blocknum: int, fnodes: seq<FileNode>)
    | Bytes(data: seq<int>)
    | Raw

  type Blocks = seq<DiskBlock>

  const DISKMAGIC: int := 0x0B0BBCCD

  /** The block number a record stores for a pointer to the first node of a chain. */
  function First(chain: seq<FNode>): int {
    if chain == [] then 0 else chain[0].blk
  }

  /** The record of the first node of a chain: its pointer swizzled to a block number. */
  function RecordOf(chain: seq<FNode>): DiskBlock
    requires chain != []
  {
    FreeRecord(chain[0].blk, chain[0].count, First(chain[1..]), chain[0].entries)
  }

  /** Every node of the chain is on disk at its own block, entries, count and successor. */
  ghost predicate OnDisk(blocks: Blocks, chain: seq<FNode>) {
    chain != [] ==>
      && 0 < chain[0].blk < |blocks|
      && blocks[chain[0].blk] == RecordOf(chain)
      && OnDisk(blocks, chain[1..])
  }

  function Blks(chain: seq<FNode>): seq<int> {
    if chain == [] then [] else [chain[0].blk] + Blks(chain[1..])
  }

  ghost predicate Distinct(s: seq<int>) {
    forall i, j | 0 <= i < j < |s| :: s[i] != s[j]
  }

  /** The disk describes the chain: the superblock in block 0 names its first node. */
  ghost predicate Agree(blocks: Blocks, chain: seq<FNode>, dir: int) {
    && |blocks| > 0
    && OnDisk(blocks, chain) && Distinct(Blks(chain))
    && blocks[0] == SuperRecord(DISKMAGIC, 0, |blocks|, First(chain), dir)
  }

  /** Writing a block no node lives in leaves the chain on disk. */
  lemma {:induction false} OnDiskFrame(blocks: Blocks, chain: seq<FNode>, b: int, w: DiskBlock)
    requires OnDisk(blocks, chain) && 0 <= b < |blocks| && b !in Blks(chain)
    ensures OnDisk(blocks[b := w], chain)
  {
    if chain == [] {
    } else {
      OnDiskFrame(blocks, chain[1..], b, w);
    }
  }

  lemma BlksCons(n: FNode, rest: seq<FNode>)
    ensures Blks([n] + rest) == [n.blk] + Blks(rest)
  {
    assert ([n] + rest)[1..] == rest;
  }

  lemma {:induction false} BlksAppend(a: seq<FNode>, b: seq<FNode>)
    ensures Blks(a + b) == Blks(a) + Blks(b)
  {
    if a == [] {
      assert a + b == b;
    } else {
      assert (a + b)[1..] == a[1..] + b;
      BlksAppend(a[1..], b);
    }
  }

  lemma OnDiskCons(blocks: Blocks, n: FNode, rest: seq<FNode>)
    ensures OnDisk(blocks, [n] + rest)
            <==> 0 < n.blk < |blocks| && blocks[n.blk] == FreeRecord(n.blk, n.count, First(rest), n.entries)
                 && OnDisk(blocks, rest)
  {
    assert ([n] + rest)[1..] == rest;
  }

  /** sbGetBlock writes one record: the first node's, or the superblock when the list runs out. */
  function GetWrites(blocks: Blocks, chain: seq<FNode>, dir: int): Blocks
    requires chain != []
  {
    var chain' := Get(chain).1;
    if chain' == [] then
      if |blocks| > 0 then blocks[0 := SuperRecord(DISKMAGIC, 0, |blocks|, 0, dir)] else blocks
    else if 0 <= chain[0].blk < |blocks| then blocks[chain[0].blk := RecordOf(chain')] else blocks
  }

  /** ... and that keeps disk and memory in agreement. */
  lemma GetKeepsAgreement(blocks: Blocks, chain: seq<FNode>, dir: int, max: nat)
    requires chain != [] && ChainOk(chain, max) && Agree(blocks, chain, dir)
    ensures Agree(GetWrites(blocks, chain, dir), Get(chain).1, dir)
  {
    hide OnDisk, Blks, Get, ChainOk;
    var n, rest := chain[0], chain[1..];
    assert chain == [n] + rest;
    ChainCons(n, rest, max);
    OnDiskCons(blocks, n, rest);
    BlksCons(n, rest);
    GetCases(chain);
    NothingOnDisk(GetWrites(blocks, chain, dir));
    if n.count > 0 {
      FirstRewritten(blocks, n, FNode(n.blk, n.count - 1, n.entries[n.count - 1 := 0]), rest, dir);
    } else if rest != [] {
      var n2, more := rest[0], rest[1..];
      assert rest == [n2] + more && more == chain[2..];
      OnDiskCons(blocks, n2, more);
      BlksCons(n2, more);
      SkipSecond(n.blk, n2.blk, Blks(more));
      FirstRewritten(blocks, n, Absorb(n, n2), more, dir);
    }
  }

  lemma GetCases(chain: seq<FNode>)
    requires chain != []
    ensures var n := chain[0];
            Get(chain).1
            == if 0 < n.count <= |n.entries| then [FNode(n.blk, n.count - 1, n.entries[n.count - 1 := 0])] + chain[1..]
               else if |chain| == 1 then [] else [Absorb(n, chain[1])] + chain[2..]
  {
  }

  lemma NothingOnDisk(blocks: Blocks)
    ensures OnDisk(blocks, []) && Blks([]) == []
  {
  }

  lemma SkipSecond(a: int, b: int, s: seq<int>)
    requires Distinct([a] + ([b] + s))
    ensures Distinct([a] + s)
  {
    var u, t := [a] + ([b] + s), [a] + s;
    forall i, j | 0 <= i < j < |t| ensures t[i] != t[j] {
      assert t[j] == u[j + 1] && t[i] == if i == 0 then u[0] else u[i + 1];
    }
  }

  lemma FirstRewritten(blocks: Blocks, n: FNode, n': FNode, rest: seq<FNode>, dir: int)
    requires 0 < n.blk < |blocks| && n'.blk == n.blk && OnDisk(blocks, rest) && Distinct([n.blk] + Blks(rest))
    requires blocks[0] == SuperRecord(DISKMAGIC, 0, |blocks|, n.blk, dir)
    ensures Agree(blocks[n.blk := RecordOf([n'] + rest)], [n'] + rest, dir)
  {
    hide OnDisk, Blks;
    var w := RecordOf([n'] + rest);
    assert ([n'] + rest)[1..] == rest;
    NotLater(n.blk, Blks(rest));
    OnDiskFrame(blocks, rest, n.blk, w);
    OnDiskCons(blocks[n.blk := w], n', rest);
    BlksCons(n', rest);
  }

  lemma NotLater(a: int, s: seq<int>)
    requires Distinct([a] + s)
    ensures a !in s
  {
    assert forall j | 0 <= j < |s| :: s[j] == ([a] + s)[j + 1] != ([a] + s)[0];
  }

  /** sbFreeBlock with room: the last node's record is rewritten, or a new node and the superblock are written. */
  function PutWrites(blocks: Blocks, chain: seq<FNode>, b: int, junk: seq<int>, dir: int): Blocks {
    if chain == [] then
      if 0 < b < |blocks| then
        blocks[b := FreeRecord(b, 0, 0, junk)][0 := SuperRecord(DISKMAGIC, 0, |blocks|, b, dir)]
      else blocks
    else
      var last := chain[|chain| - 1];
      if 0 <= last.count < |last.entries| && 0 <= last.blk < |blocks|
      then blocks[last.blk := RecordOf([AddEntry(last, b)])] else blocks
  }

  /** What sbFreeBlock writes: without room, only the record of the new node, whose count and entries are `junk`. */
  function FreeWrites(blocks: Blocks, chain: seq<FNode>, b: int, junk: FNode, dir: int): Blocks {
    if Room(chain) then PutWrites(blocks, chain, b, junk.entries, dir)
    else if |chain| > 1 && 0 <= b < |blocks| then
      blocks[b := FreeRecord(b, junk.count, chain[|chain| - 2].blk, junk.entries)]
    else blocks
  }

  lemma PutKeepsAgreement(blocks: Blocks, chain: seq<FNode>, b: int, junk: seq<int>, dir: int)
    requires Room(chain) && Agree(blocks, chain, dir) && 0 < b < |blocks|
    ensures Agree(PutWrites(blocks, chain, b, junk, dir), Put(chain, b, junk), dir)
  {
    if chain == [] {
      var n := FNode(b, 0, junk);
      assert [n] == [n] + [];
      NothingOnDisk(PutWrites(blocks, chain, b, junk, dir));
      OnDiskCons(PutWrites(blocks, chain, b, junk, dir), n, []);
      BlksCons(n, []);
    } else {
      var k := |chain| - 1;
      var n, n' := chain[k], AddEntry(chain[k], b);
      assert chain == chain[..k] + [n];
      LastRewritten(blocks, chain[..k], n, n');
      BlksAppend(chain[..k], [n]);
      BlksAppend(chain[..k], [n']);
      BlksCons(n, []);
      BlksCons(n', []);
      assert [n] == [n] + [] && [n'] == [n'] + [];
      LastOnDisk(blocks, chain[..k], n);
    }
  }

  /** sbFreeBlock keeps disk and memory in agreement exactly when there is room: otherwise the disk still links the
      collector that became the last one to the node that was cut off. */
  lemma PutAgreesIff(blocks: Blocks, chain: seq<FNode>, b: int, junk: FNode, dir: int)
    requires Agree(blocks, chain, dir) && 0 < b < |blocks| && (|chain| == 1 ==> Room(chain))
    ensures Agree(FreeWrites(blocks, chain, b, junk, dir), Put(chain, b, junk.entries), dir) <==> Room(chain)
  {
    hide OnDisk, Blks;
    if Room(chain) {
      PutKeepsAgreement(blocks, chain, b, junk.entries, dir);
    } else {
      var k := |chain| - 2;
      var p, n := chain[k], chain[k + 1];
      assert chain == chain[..k] + [p, n] && [p, n] == [p] + ([n] + []);
      OnDiskTail(blocks, chain[..k], [p, n]);
      OnDiskCons(blocks, p, [n] + []);
      OnDiskCons(blocks, n, []);
      var blocks', p' := FreeWrites(blocks, chain, b, junk, dir), p.(count := 0);
      assert Put(chain, b, junk.entries) == chain[..k] + [p'] && [p'] == [p'] + [];
      if OnDisk(blocks', chain[..k] + [p']) {
        OnDiskTail(blocks', chain[..k], [p']);
        OnDiskCons(blocks', p', []);
      }
    }
  }

  /** Freeing a block that is no collector, the full-node branch writes only the record of the new one, which points
      back at the last one but one: no list leads to it, and the disk still describes the list as it was before. */
  lemma FullNodeKeepsOld(blocks: Blocks, chain: seq<FNode>, b: int, junk: FNode, dir: int)
    requires Agree(blocks, chain, dir) && 0 < b < |blocks| && |chain| > 1 && !Room(chain) && b !in Blks(chain)
    ensures var blocks' := FreeWrites(blocks, chain, b, junk, dir);
            && Agree(blocks', chain, dir) && blocks'[b].FreeRecord? && blocks'[b].next == chain[|chain| - 2].blk
            && forall c | 0 <= c < |blocks| && c != b :: blocks'[c] == blocks[c]
  {
    hide OnDisk, Blks;
    OnDiskFrame(blocks, chain, b, FreeRecord(b, junk.count, chain[|chain| - 2].blk, junk.entries));
  }

  lemma {:induction false} OnDiskTail(blocks: Blocks, front: seq<FNode>, rest: seq<FNode>)
    requires OnDisk(blocks, front + rest)
    ensures OnDisk(blocks, rest)
  {
    if front == [] {
      assert front + rest == rest;
    } else {
      assert (front + rest)[1..] == front[1..] + rest;
      OnDiskTail(blocks, front[1..], rest);
    }
  }

  lemma {:induction false} LastOnDisk(blocks: Blocks, front: seq<FNode>, n: FNode)
    requires OnDisk(blocks, front + [n])
    ensures 0 < n.blk < |blocks|
  {
    if front != [] {
      assert (front + [n])[1..] == front[1..] + [n];
      LastOnDisk(blocks, front[1..], n);
    } else {
      assert front + [n] == [n];
    }
  }

  lemma {:induction false} LastRewritten(blocks: Blocks, front: seq<FNode>, n: FNode, n': FNode)
    requires OnDisk(blocks, front + [n]) && Distinct(Blks(front + [n])) && n'.blk == n.blk
    ensures 0 < n.blk < |blocks| && OnDisk(blocks[n.blk := RecordOf([n'])], front + [n'])
  {
    if front == [] {
      assert front + [n] == [n] && front + [n'] == [n'];
    } else {
      var f, more := front[0], front[1..];
      assert front + [n] == [f] + (more + [n]) && front + [n'] == [f] + (more + [n']);
      OnDiskCons(blocks, f, more + [n]);
      BlksCons(f, more + [n]);
      TailDistinct(f.blk, Blks(more + [n]));
      LastRewritten(blocks, more, n, n');
      BlksAppend(more, [n]);
      BlksCons(n, []);
      assert [n] == [n] + [];
      NotLater(f.blk, Blks(more + [n]));
      assert f.blk != n.blk by { assert Blks(more + [n])[|Blks(more)|] == n.blk; }
      assert First(more + [n]) == First(more + [n']);
      OnDiskCons(blocks[n.blk := RecordOf([n'])], f, more + [n']);
    }
  }

  lemma TailDistinct(a: int, s: seq<int>)
    requires Distinct([a] + s)
    ensures Distinct(s)
  {
    forall i, j | 0 <= i < j < |s| ensures s[i] != s[j] {
      assert ([a] + s)[i + 1] != ([a] + s)[j + 1];
    }
  }

  /** The disk determines the chain: following block numbers from a first node cannot give two lists. */
  lemma {:induction false} OnDiskUnique(blocks: Blocks, chain: seq<FNode>, chain': seq<FNode>)
    requires OnDisk(blocks, chain) && OnDisk(blocks, chain') && First(chain) == First(chain')
    ensures chain == chain'
  {
    if chain == [] {
    } else {
      assert chain' != [];
      OnDiskUnique(blocks, chain[1..], chain'[1..]);
      assert chain == [chain[0]] + chain[1..] && chain' == [chain'[0]] + chain'[1..];
    }
  }

  /** The collectors' own blocks are among the blocks handed out. */
  lemma BlksAreFree(chain: seq<FNode>, b: int)
    ensures Times(Blks(chain), b) <= Times(Handout(chain), b)
  {
    hide Rev, Live, Later;
    if chain != [] {
      var n, rest := chain[0], chain[1..];
      BlksLater(rest, b);
      TimesOne(n.blk, b);
      TimesAppend([n.blk], Blks(rest), b);
      TimesAppend(Rev(Live(n)), Later(rest), b);
      TimesAppend(Rev(Live(n)) + Later(rest), [n.blk], b);
    }
  }

  lemma {:induction false} BlksLater(chain: seq<FNode>, b: int)
    ensures Times(Blks(chain), b) <= Times(Later(chain), b)
  {
    hide Rev, Live, Times;
    if chain == [] {
    } else {
      var n, rest := chain[0], chain[1..];
      BlksLater(rest, b);
      TimesAppend([n.blk], Blks(rest), b);
      TimesAppend([n.blk], Rev(Live(n)), b);
      TimesAppend([n.blk] + Rev(Live(n)), Later(rest), b);
    }
  }
}
