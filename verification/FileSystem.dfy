/** The file system in memory and on disk (the file directory of the MIPS tree): collector nodes linked
    by pointers, the open directory, and the disk they are written back to. */
module FileSystem {
  import opened FreeChain
  import opened DiskImage
  import opened Format
  import opened Files
  import opened FileRuns
  import opened Status

  /** struct freeblock.  fr_free is embedded in the struct, so it is a field of fixed length here; the
      constructor is malloc, which leaves in the fields what was there before (`junk`); no path reads
      fr_next of a new node before setting it. */
  class FreeBlock {
    var frBlocknum: int
    var frCount: int
    var frNext: FreeBlock?
    var frFree: seq<int>

    constructor (junk: FNode)
      ensures frBlocknum == junk.blk && frCount == junk.count && frFree == junk.entries && frNext == null
    {
      frBlocknum, frCount, frFree := junk.blk, junk.count, junk.entries;
      frNext := null;
    }

    /** This node in memory is the node f. */
    ghost predicate Is(f: FNode)
      reads this
    {
      frBlocknum == f.blk && frCount == f.count && frFree == f.entries
    }
  }

  /** The nodes ns hold the values `chain`, each linked to the next and the last one to `next`. */
  ghost predicate Segment(ns: seq<FreeBlock>, chain: seq<FNode>, next: FreeBlock?)
    reads ns
  {
    |ns| == |chain| &&
    (ns != [] ==>
       && ns[0].Is(chain[0]) && ns[0] !in ns[1..]
       && ns[0].frNext == (if |ns| > 1 then ns[1] else next)
       && Segment(ns[1..], chain[1..], next))
  }

  ghost predicate BlksOn(chain: seq<FNode>, total: int) {
    0 < total && forall i | 0 <= i < |chain| :: 0 < chain[i].blk < total
  }

  class FileSystem {
    const max: nat
    const disk: array<DiskBlock>
    var sbFreelst: FreeBlock?
    var filetab: array?<FileNode>
    var dbBlocknum: int
    ghost var nodes: seq<FreeBlock>
    ghost var chain: seq<FNode>

    /** The file system of a disk before sbOpen: nothing of it is in memory. */
    constructor (disk: array<DiskBlock>, max: nat)
      ensures this.disk == disk && this.max == max && filetab == null && chain == [] && Linked()
    {
      this.disk, this.max := disk, max;
      sbFreelst := null;
      filetab := null;
      dbBlocknum := 0;
      nodes, chain := [], [];
    }

    /** The pointers from sb_freelst run through `nodes`, which hold the values `chain`. */
    ghost predicate Linked()
      reads this, nodes
    {
      sbFreelst == (if nodes == [] then null else nodes[0]) && Segment(nodes, chain, null)
    }

    /** The free list is well formed and its nodes' blocks are on this disk. */
    ghost predicate Ready()
      reads this, nodes
    {
      Linked() && ChainOk(chain, max) && BlksOn(chain, disk.Length)
    }

    /** ... and the directory is in memory. */
    ghost predicate Mounted()
      reads this, nodes
    {
      Ready() && filetab != null && filetab.Length == DIRENTRIES
    }

    ghost function Now(): Fs
      requires filetab != null
      reads this, disk, filetab
    {
      Fs(chain, filetab[..], disk[..], dbBlocknum)
    }

    /** sbGetBlock.c */
    method SbGetBlock() returns (result: int)
      requires Ready()
      modifies this`sbFreelst, this`nodes, this`chain, nodes, disk
      ensures Ready() && (forall n | n in nodes :: n in old(nodes))
      ensures old(chain) == [] ==> result == SYSERR && chain == [] && disk[..] == old(disk[..])
      ensures old(chain) != [] ==>
                var (b, rest) := Get(old(chain));
                && result == (if b == 0 then SYSERR else b)
                && chain == rest
                && disk[..] == GetWrites(old(disk[..]), old(chain), dbBlocknum)
    {
      var freeblk := sbFreelst;
      if freeblk == null {
        return SYSERR;
      }
      assert NodeOk(chain[0], max);
      if freeblk.frCount > 0 {
        result := TakeEntry(freeblk);
      } else if freeblk.frNext == null {
        sbFreelst := null;
        disk[0] := SuperRecord(DISKMAGIC, 0, disk.Length, 0, dbBlocknum);
        result := freeblk.frBlocknum;
        nodes, chain := [], [];
      } else {
        result := AbsorbNext(freeblk);
      }
    }

    /** swizzle: write a node's record to its block, with a block number for the pointer (the source
        overwrites fr_next for the write and then restores it). */
    method Swizzle(freeblk: FreeBlock)
      requires 0 <= freeblk.frBlocknum < disk.Length
      modifies disk
      ensures disk[..] == old(disk[..])[freeblk.frBlocknum :=
                FreeRecord(freeblk.frBlocknum, freeblk.frCount,
                           if freeblk.frNext == null then 0 else freeblk.frNext.frBlocknum, freeblk.frFree)]
    {
      disk[freeblk.frBlocknum] :=
        FreeRecord(freeblk.frBlocknum, freeblk.frCount,
                   if freeblk.frNext == null then 0 else freeblk.frNext.frBlocknum, freeblk.frFree);
    }

    /** The branch of sbGetBlock that takes an entry of the first node. */
    method TakeEntry(freeblk: FreeBlock) returns (result: int)
      requires Ready() && freeblk == sbFreelst && freeblk.frCount > 0
      modifies freeblk`frCount, freeblk`frFree, this`chain, disk
      ensures Ready()
      ensures var (b, rest) := Get(old(chain));
              && result == (if b == 0 then SYSERR else b)
              && chain == rest
              && disk[..] == GetWrites(old(disk[..]), old(chain), dbBlocknum)
    {
      hide Get, ChainOk, BlksOn, GetWrites, Absorb;
      ghost var n, rest := chain[0], chain[1..];
      FirstNode(disk[..], chain, max, dbBlocknum);
      freeblk.frCount := freeblk.frCount - 1;
      result := freeblk.frFree[freeblk.frCount];
      freeblk.frFree := freeblk.frFree[freeblk.frCount := 0];
      chain := [FNode(n.blk, n.count - 1, n.entries[n.count - 1 := 0])] + rest;
      assert chain[1..] == rest && Segment(nodes[1..], rest, null);
      Swizzle(freeblk);
      if result == 0 {
        result := SYSERR;
      }
    }

    /** The branch that copies the next node into the first and gives out the next node's block. */
    method AbsorbNext(freeblk: FreeBlock) returns (result: int)
      requires Ready() && freeblk == sbFreelst && freeblk.frCount <= 0 && freeblk.frNext != null
      modifies freeblk`frCount, freeblk`frNext, freeblk`frFree, this`nodes, this`chain, disk
      ensures Ready() && (forall n | n in nodes :: n in old(nodes))
      ensures var (b, rest) := Get(old(chain));
              && result == b
              && chain == rest
              && disk[..] == GetWrites(old(disk[..]), old(chain), dbBlocknum)
    {
      hide Get, ChainOk, BlksOn, GetWrites, Absorb;
      FirstNode(disk[..], chain, max, dbBlocknum);
      var free2 := freeblk.frNext;
      ghost var more, rest := nodes[2..], chain[2..];
      assert nodes[1..][1..] == more && chain[1..][1..] == rest && free2 == nodes[1..][0];
      assert Segment(nodes[1..], chain[1..], null) && Segment(more, rest, null);
      result := free2.frBlocknum;
      CopyEntries(freeblk, free2);
      freeblk.frCount := free2.frCount;
      freeblk.frNext := free2.frNext;
      nodes, chain := [freeblk] + more, [Absorb(chain[0], chain[1])] + rest;
      assert nodes[1..] == more && chain[1..] == rest && Segment(more, rest, null);
      Swizzle(freeblk);
    }

    /** sbFreeBlock on an empty list: the block becomes a collector of its own. */
    method StartList(block: int, junk: FNode)
      requires Ready() && sbFreelst == null && |junk.entries| == max && 0 < block < disk.Length
      modifies this`sbFreelst, this`nodes, this`chain, disk
      ensures Ready() && (forall n | n in nodes :: fresh(n))
      ensures chain == Put(old(chain), block, junk.entries)
      ensures disk[..] == PutWrites(old(disk[..]), old(chain), block, junk.entries, dbBlocknum)
    {
      var freeblk := new FreeBlock(junk);
      freeblk.frBlocknum := block;
      freeblk.frCount := 0;
      freeblk.frNext := null;
      sbFreelst := freeblk;
      nodes, chain := [freeblk], [FNode(block, 0, junk.entries)];
      Swizzle(freeblk);
      disk[0] := SuperRecord(DISKMAGIC, 0, disk.Length, freeblk.frBlocknum, dbBlocknum);
    }

    /** sbFreeBlock with room in the last node. */
    method AddToLast(block: int, freeblk: FreeBlock)
      requires Ready() && |chain| == |nodes| > 0 && freeblk == nodes[|nodes| - 1]
      requires Room(chain) && 0 < block < disk.Length
      modifies freeblk`frCount, freeblk`frFree, this`chain, disk
      ensures Ready() && chain == Put(old(chain), block, [])
      ensures disk[..] == PutWrites(old(disk[..]), old(chain), block, [], dbBlocknum)
    {
      hide ChainOk, BlksOn, Put, PutWrites, Room, AddEntry, Segment;
      ghost var last := |nodes| - 1;
      ghost var front, cfront, n := nodes[..last], chain[..last], chain[last];
      SegmentSplit(nodes, chain, null, last);
      PutLast(disk[..], chain, max, block, dbBlocknum);
      assert nodes[last..] == [freeblk] && chain[last..] == [n] && nodes == front + [freeblk];
      assert freeblk in nodes[last..] && freeblk !in front;
      SegmentHead(nodes[last..], chain[last..], null);
      freeblk.frFree := freeblk.frFree[freeblk.frCount := block];
      freeblk.frCount := freeblk.frCount + 1;
      chain := cfront + [AddEntry(n, block)];
      assert Segment(front, cfront, freeblk);
      SegmentOne(freeblk, AddEntry(n, block));
      SegmentJoin(front, cfront, [freeblk], [AddEntry(n, block)], null);
      Swizzle(freeblk);
    }

    /** sbFreeBlock with a full last node, lines 105 to 110: the node before it is emptied and made the
        last one, and the new node, which nothing in memory points to, is written to disk. */
    method CutOff(block: int, full: FreeBlock, newfreeblk: FreeBlock?, junk: FNode)
      requires Ready() && |chain| == |nodes| > 1 && newfreeblk == nodes[|nodes| - 2] && !Room(chain)
      requires 0 < block < disk.Length && |junk.entries| == max
      modifies newfreeblk`frCount, newfreeblk`frNext, this`nodes, this`chain, disk
      ensures Ready() && (forall n | n in nodes :: n in old(nodes))
      ensures chain == Put(old(chain), block, junk.entries)
      ensures disk[..] == old(disk[..])[block := FreeRecord(block, junk.count, old(chain)[|old(chain)| - 2].blk,
                                                            junk.entries)]
    {
      hide ChainOk, BlksOn, Put, Room, Segment;
      ghost var last := |nodes| - 2;
      ghost var front, cfront, n := nodes[..last], chain[..last], chain[last];
      SegmentSplit(nodes, chain, null, last);
      PutCuts(chain, max, block, junk.entries, disk.Length);
      assert nodes[last..][0] == newfreeblk && chain[last..][0] == n;
      SegmentHead(nodes[last..], chain[last..], null);
      assert newfreeblk in nodes[last..] && newfreeblk !in front;
      newfreeblk.frCount := 0;
      newfreeblk.frNext := null;
      nodes, chain := front + [newfreeblk], cfront + [n.(count := 0)];
      assert Segment(front, cfront, newfreeblk);
      SegmentOne(newfreeblk, n.(count := 0));
      SegmentJoin(front, cfront, [newfreeblk], [n.(count := 0)], null);
      assert nodes == old(nodes)[..last + 1];
      WriteOrphan(block, newfreeblk, junk);
    }

    /** The new node of that branch: its count and entries are whatever malloc left there. */
    method WriteOrphan(block: int, newfreeblk: FreeBlock, junk: FNode)
      requires 0 < block < disk.Length
      modifies disk
      ensures disk[..] == old(disk[..])[block := FreeRecord(block, junk.count, newfreeblk.frBlocknum, junk.entries)]
    {
      var freeblk := new FreeBlock(junk);
      freeblk.frBlocknum := block;
      freeblk.frNext := newfreeblk;
      Swizzle(freeblk);
    }

    /** sbFreeBlock.c.  `junk` is what malloc finds in a new node. */
    method SbFreeBlock(block: int, junk: FNode) returns (result: int)
      requires Ready() && |junk.entries| == max
      requires Accepted(block, max) ==> block < disk.Length && (|chain| == 1 ==> Room(chain))
      modifies this`sbFreelst, this`nodes, this`chain, nodes, disk
      ensures Ready() && (forall n | n in nodes :: n in old(nodes) || fresh(n))
      ensures result == if 1 <= block <= max + 1 then OK else SYSERR
      ensures !Accepted(block, max) ==>
                result == SYSERR && chain == old(chain) && nodes == old(nodes) && disk[..] == old(disk[..])
      ensures Accepted(block, max) ==>
                && result == OK && chain == Put(old(chain), block, junk.entries)
                && disk[..] == FreeWrites(old(disk[..]), old(chain), block, junk, dbBlocknum)
    {
      if block <= 0 || block > max + 1 {
        return SYSERR;
      }
      if sbFreelst == null {
        StartList(block, junk);
        return OK;
      }
      var newfreeblk := null;
      var freeblk := sbFreelst;
      ghost var k := 0;
      assert nodes[0..] == nodes && chain[0..] == chain;
      while freeblk.frNext != null
        invariant 0 <= k < |nodes| && freeblk == nodes[k] && newfreeblk == (if k > 0 then nodes[k - 1] else null)
        invariant Segment(nodes[k..], chain[k..], null)
        decreases |nodes| - k
      {
        assert nodes[k..][1..] == nodes[k + 1..] && chain[k..][1..] == chain[k + 1..];
        newfreeblk := freeblk;
        freeblk := freeblk.frNext;
        k := k + 1;
      }
      assert freeblk.Is(chain[k]) && k == |nodes| - 1;
      LastNode(chain, max);
      if freeblk.frCount == |freeblk.frFree| {
        CutOff(block, freeblk, newfreeblk, junk);
      } else {
        AddToLast(block, freeblk);
      }
      return OK;
    }

    /** The list half of sbInit (lines 31 to 70): split the blocks from 2 on among collectors, the last one
        not full.  `junk(b)` is what malloc leaves in the node that will live in block b. */
    method FormatList(junk: nat -> FNode) returns (head: FreeBlock, ghost ns: seq<FreeBlock>, ghost c: seq<FNode>)
      requires disk.Length >= 4 && max >= 1 && forall k :: |junk(k).entries| == max
      modifies disk
      ensures disk[0] == old(disk[0]) && disk[1] == old(disk[1])
      ensures c != [] && c[0].blk == 2
      ensures (disk.Length - 2) % (max + 1) != 0 ==>
                && ns != [] && head == ns[0] && Segment(ns, c, null) && (forall n | n in ns :: fresh(n))
                && FreshList(c, disk.Length, max) && OnDisk(disk[..], c)
      ensures (disk.Length - 2) % (max + 1) == 0 ==> Fills(c, 2, disk.Length) && OnDiskTo(disk[..], c, disk.Length)
      ensures forall b | 0 <= b < disk.Length :: disk[b] == old(disk[b]) || disk[b].FreeRecord?
    {
      hide FreshList, Fills, OnDiskTo, OnDisk, ChainOk, AllFull, First, Segment;
      NoRun(disk[..], max);
      var curblock := 2;
      var i, j := curblock + 1, 0;
      var freeblk := new FreeBlock(junk(curblock));
      head := freeblk;
      ns, c := [], [];
      SegmentNone(freeblk);
      var more := true;
      while more
        invariant i == curblock + 1 + j && 0 <= j < max && 2 <= curblock <= disk.Length && |freeblk.frFree| == max
        invariant if more then i < disk.Length else i == disk.Length || (i == disk.Length + 1 && j == 0)
        invariant more || c != [] || j > 0
        invariant fresh(freeblk) && freeblk !in ns && head == (ns + [freeblk])[0] && (forall n | n in ns :: fresh(n))
        invariant forall e | 0 <= e < j :: freeblk.frFree[e] == curblock + 1 + e
        invariant Segment(ns, c, freeblk) && Fills(c, 2, curblock) && AllFull(c, max) && OnDiskTo(disk[..], c, curblock)
        invariant c != [] ==> c[0].blk == 2
        invariant disk[0] == old(disk[0]) && disk[1] == old(disk[1])
        invariant forall b | 0 <= b < disk.Length :: disk[b] == old(disk[b]) || disk[b].FreeRecord?
        decreases disk.Length + 2 - i
      {
        freeblk.frFree := freeblk.frFree[j := i];
        i := i + 1;
        j := j + 1;
        assert Segment(ns, c, freeblk);
        if j == max {
          ghost var f := FNode(curblock, j, freeblk.frFree);
          ghost var last := freeblk;
          freeblk := FullNode(freeblk, curblock, i, junk(i), ns, c);
          FullStep(c, curblock, f, max);
          ns, c := ns + [last], c + [f];
          curblock := i;
          i := curblock + 1;
          j := 0;
        }
        more := i < disk.Length;
      }
      Remainder(c, curblock, j, disk.Length, max);
      if disk.Length != curblock {
        ghost var f := FNode(curblock, j, freeblk.frFree);
        LastPart(freeblk, curblock, j, ns, c);
        ns, c := ns + [freeblk], c + [f];
      }
    }

    /** A full collector: write it, naming the next free block, and malloc the one that will live there. */
    method FullNode(freeblk: FreeBlock, curblock: int, i: int, junk: FNode, ghost ns: seq<FreeBlock>,
                    ghost c: seq<FNode>)
      returns (free2: FreeBlock)
      requires Segment(ns, c, freeblk) && freeblk !in ns && Fills(c, 2, curblock) && OnDiskTo(disk[..], c, curblock)
      requires 2 <= curblock < disk.Length && |freeblk.frFree| == max
      modifies freeblk, disk
      ensures fresh(free2) && free2.frFree == junk.entries
      ensures var f := FNode(curblock, max, old(freeblk.frFree));
              Segment(ns + [freeblk], c + [f], free2) && OnDiskTo(disk[..], c + [f], i)
      ensures disk[0] == old(disk[0]) && disk[1] == old(disk[1])
      ensures forall b | 0 <= b < disk.Length :: disk[b] == old(disk[b]) || disk[b].FreeRecord?
    {
      ghost var f := FNode(curblock, max, freeblk.frFree);
      freeblk.frBlocknum := curblock;
      freeblk.frCount := max;
      OnDiskToFrame(disk[..], c, curblock, 2, curblock, curblock, FreeRecord(curblock, max, i, freeblk.frFree));
      ghost var before := disk[..];
      disk[curblock] := FreeRecord(curblock, max, i, freeblk.frFree);
      assert disk[..] == before[curblock := FreeRecord(curblock, max, i, freeblk.frFree)];
      OnDiskToAppend(disk[..], c, f, i);
      free2 := new FreeBlock(junk);
      freeblk.frNext := free2;
      assert Segment(ns, c, freeblk);
      SegmentOne(freeblk, f);
      SegmentJoin(ns, c, [freeblk], [f], free2);
    }

    /** The last collector: no successor. */
    method LastPart(freeblk: FreeBlock, curblock: int, j: int, ghost ns: seq<FreeBlock>, ghost c: seq<FNode>)
      requires Segment(ns, c, freeblk) && freeblk !in ns && Fills(c, 2, curblock) && OnDiskTo(disk[..], c, curblock)
      requires AllFull(c, max) && 0 <= j < max && curblock + 1 + j == disk.Length && |freeblk.frFree| == max
      requires 2 <= curblock && forall e | 0 <= e < j :: freeblk.frFree[e] == curblock + 1 + e
      modifies freeblk, disk
      ensures var f := FNode(curblock, j, old(freeblk.frFree));
              && Segment(ns + [freeblk], c + [f], null) && OnDisk(disk[..], c + [f])
              && FreshList(c + [f], disk.Length, max) && (c + [f])[0].blk == 2
      ensures disk[0] == old(disk[0]) && disk[1] == old(disk[1])
      ensures forall b | 0 <= b < disk.Length :: disk[b] == old(disk[b]) || disk[b].FreeRecord?
    {
      hide FreshList, Fills, AllFull, ChainOk, OnDisk, OnDiskTo, Segment;
      ghost var f := FNode(curblock, j, freeblk.frFree);
      freeblk.frBlocknum := curblock;
      freeblk.frCount := j;
      freeblk.frNext := null;
      OnDiskToFrame(disk[..], c, curblock, 2, curblock, curblock, FreeRecord(curblock, j, 0, freeblk.frFree));
      ghost var before := disk[..];
      disk[curblock] := FreeRecord(curblock, j, 0, freeblk.frFree);
      assert disk[..] == before[curblock := FreeRecord(curblock, j, 0, freeblk.frFree)];
      OnDiskToAppend(disk[..], c, f, 0);
      OnDiskToEnd(disk[..], c + [f]);
      FillsAppend(c, 2, curblock, f);
      assert Segment(ns, c, freeblk);
      SegmentOne(freeblk, f);
      SegmentJoin(ns, c, [freeblk], [f], null);
      FullOk(c, max);
      ChainSnoc(c, f, max);
      IsFresh(c, f, disk.Length, max);
    }

    /** sbOpenFreeList: rebuild the list from the records on disk. */
    method SbOpenFreeList(firstblk: int, ghost c: seq<FNode>) returns (head: FreeBlock?, ghost ns: seq<FreeBlock>)
      requires OnDisk(disk[..], c) && First(c) == firstblk
      ensures Segment(ns, c, null) && head == (if ns == [] then null else ns[0])
      ensures forall n | n in ns :: fresh(n)
    {
      hide OnDisk, Segment;
      SegmentNone(null);
      OnDiskFirst(disk[..], c);
      if firstblk == 0 {
        return null, [];
      }
      var freeblk := new FreeBlock(FNode(0, 0, []));
      head := freeblk;
      var nextblk := ReadRecord(freeblk, firstblk);
      assert freeblk.Is(c[0]) && nextblk == First(c[1..]);
      ghost var front, k := [], 0;
      SegmentNone(freeblk);
      assert c[..0] == [];
      while nextblk != 0
        invariant 0 <= k < |c| && freeblk.Is(c[k]) && freeblk.frNext == null && freeblk !in front && fresh(freeblk)
        invariant Segment(front, c[..k], freeblk) && (forall n | n in front :: fresh(n))
        invariant head == (front + [freeblk])[0]
        invariant OnDisk(disk[..], c[k + 1..]) && nextblk == First(c[k + 1..])
        decreases |c| - k
      {
        ghost var last := freeblk;
        freeblk, nextblk := LoadNext(freeblk, nextblk, front, c[..k], c[k], c[k + 1..]);
        SliceStep(c, k);
        front := front + [last];
        k := k + 1;
      }
      OnDiskFirst(disk[..], c[k + 1..]);
      SegmentOne(freeblk, c[k]);
      SegmentJoin(front, c[..k], [freeblk], [c[k]], null);
      assert c[..k] + [c[k]] == c;
      ns := front + [freeblk];
    }

    /** One iteration: read the next record into a new node and link the last node to it. */
    method LoadNext(freeblk: FreeBlock, blk: int, ghost front: seq<FreeBlock>, ghost cfront: seq<FNode>, ghost f: FNode,
                    ghost rest: seq<FNode>) returns (free2: FreeBlock, nextblk: int)
      requires Segment(front, cfront, freeblk) && freeblk.Is(f) && freeblk !in front
      requires OnDisk(disk[..], rest) && rest != [] && blk == First(rest)
      modifies freeblk`frNext
      ensures fresh(free2) && free2.Is(rest[0]) && free2.frNext == null
      ensures Segment(front + [freeblk], cfront + [f], free2)
      ensures nextblk == First(rest[1..]) && OnDisk(disk[..], rest[1..])
    {
      free2 := new FreeBlock(FNode(0, 0, []));
      nextblk := ReadRecord(free2, blk);
      freeblk.frNext := free2;
      assert Segment(front, cfront, freeblk);
      SegmentOne(freeblk, f);
      SegmentJoin(front, cfront, [freeblk], [f], free2);
    }

    /** read a collector's record into a node; the block number of the next record is returned. */
    method ReadRecord(freeblk: FreeBlock, blk: int) returns (nextblk: int)
      requires 0 <= blk < disk.Length && disk[blk].FreeRecord?
      modifies freeblk`frBlocknum, freeblk`frCount, freeblk`frFree
      ensures nextblk == disk[blk].next
      ensures freeblk.Is(FNode(disk[blk].blocknum, disk[blk].count, disk[blk].entries))
    {
      var record := disk[blk];
      freeblk.frBlocknum, freeblk.frCount, freeblk.frFree := record.blocknum, record.count, record.entries;
      nextblk := record.next;
    }

    /** sbInit.c.  `junk` and `dirjunk` are what malloc leaves in the nodes and in the directory. */
    method SbInit(junk: nat -> FNode, dirjunk: seq<FileNode>)
      requires disk.Length >= 4 && max >= 1 && (forall k :: |junk(k).entries| == max) && |dirjunk| == DIRENTRIES
      requires WholeBlocks(disk[..])
      modifies this, disk
      ensures filetab != null && fresh(filetab) && filetab.Length == DIRENTRIES && dbBlocknum == 1
      ensures forall i | 0 <= i < DIRENTRIES :: filetab[i].state == FILE_FREE
      ensures (disk.Length - 2) % (max + 1) != 0 ==>
                && Mounted() && (forall n | n in nodes :: fresh(n))
                && Fresh(Now(), max, disk.Length)
      ensures (disk.Length - 2) % (max + 1) == 0 ==>
                disk[0] == SuperRecord(DISKMAGIC, 0, disk.Length, 2, 1) && NoListFrom(disk[..], 2)
    {
      hide FreshList, Fills, OnDisk, OnDiskTo, ChainOk, Good, Whole, Blks;
      ghost var total := disk.Length;
      disk[0] := SuperRecord(DISKMAGIC, 0, disk.Length, 2, 1);
      assert WholeBlocks(disk[..]);
      ghost var ns, c;
      sbFreelst, ns, c := FormatList(junk);
      ghost var blocks := disk[..];
      nodes, chain := ns, c;
      dbBlocknum := 1;
      MakeDirectory(dirjunk);
      assert disk[..] == blocks[1 := DirRecord(1, filetab[..])];
      if (total - 2) % (max + 1) != 0 {
        Formatted(blocks, c, max, filetab[..]);
      } else {
        Unformatted(blocks, c, DirRecord(1, filetab[..]));
      }
    }

    /** The directory half of sbInit (lines 73 to 87). */
    method MakeDirectory(dirjunk: seq<FileNode>)
      requires disk.Length > dbBlocknum >= 0 && |dirjunk| == DIRENTRIES
      modifies this`filetab, disk
      ensures filetab != null && fresh(filetab) && filetab.Length == DIRENTRIES
      ensures forall i | 0 <= i < DIRENTRIES :: filetab[i].state == FILE_FREE
      ensures disk[..] == old(disk[..])[dbBlocknum := DirRecord(dbBlocknum, filetab[..])]
    {
      var fnodes := new FileNode[DIRENTRIES](i requires 0 <= i < DIRENTRIES => dirjunk[i]);
      for i := 0 to DIRENTRIES
        invariant forall k | 0 <= k < i :: fnodes[k].state == FILE_FREE
        invariant disk[..] == old(disk[..])
      {
        fnodes[i] := fnodes[i].(state := FILE_FREE);
      }
      disk[dbBlocknum] := DirRecord(dbBlocknum, fnodes[..]);
      filetab := fnodes;
    }

    /** sbOpenDirectory: read the directory back; nothing to do for block 0. */
    method SbOpenDirectory(firstblk: int)
      requires firstblk != 0 ==>
                 0 < firstblk < disk.Length && disk[firstblk].DirRecord? && |disk[firstblk].fnodes| == DIRENTRIES
      modifies this`filetab, this`dbBlocknum
      ensures firstblk == 0 ==> filetab == old(filetab) && dbBlocknum == old(dbBlocknum)
      ensures firstblk != 0 ==>
                && filetab != null && fresh(filetab) && filetab.Length == DIRENTRIES
                && dbBlocknum == disk[firstblk].blocknum && filetab[..] == ReadBackAll(disk[firstblk].fnodes)
    {
      if firstblk == 0 {
        return;
      }
      var record := disk[firstblk];
      var fnodes := new FileNode[DIRENTRIES](i requires 0 <= i < DIRENTRIES => record.fnodes[i].(data := Dangling));
      for i := 0 to DIRENTRIES
        invariant forall k | 0 <= k < i :: fnodes[k] == ReadBack(record.fnodes[k])
        invariant forall k | i <= k < DIRENTRIES :: fnodes[k] == record.fnodes[k].(data := Dangling)
      {
        fnodes[i] := fnodes[i].(state := fnodes[i].state & FILE_USED);
      }
      dbBlocknum := record.blocknum;
      filetab := fnodes;
      assert filetab[..] == ReadBackAll(record.fnodes);
    }

    /** sbOpen.c: a disk with a superblock is read back, any other is initialised.  `c` is the list on disk. */
    method SbOpen(ghost c: seq<FNode>, junk: nat -> FNode, dirjunk: seq<FileNode>)
      requires disk.Length > 0
      requires !HasSuper(disk[0]) ==>
                 && disk.Length >= 4 && max >= 1 && (forall k :: |junk(k).entries| == max) && |dirjunk| == DIRENTRIES
                 && WholeBlocks(disk[..])
      requires HasSuper(disk[0]) ==>
                 && OnDisk(disk[..], c) && First(c) == disk[0].freelst && ChainOk(c, max) && BlksOn(c, disk.Length)
                 && 0 < disk[0].dirlst < disk.Length
                 && disk[disk[0].dirlst].DirRecord? && |disk[disk[0].dirlst].fnodes| == DIRENTRIES
      modifies this, disk
      ensures old(HasSuper(disk[0])) ==>
                && Mounted() && (forall n | n in nodes :: fresh(n)) && fresh(filetab)
                && chain == c && disk[..] == old(disk[..])
                && dbBlocknum == disk[disk[0].dirlst].blocknum
                && filetab[..] == ReadBackAll(disk[disk[0].dirlst].fnodes)
      ensures !old(HasSuper(disk[0])) && (disk.Length - 2) % (max + 1) != 0 ==>
                Mounted() && Fresh(Now(), max, disk.Length)
      ensures !old(HasSuper(disk[0])) && (disk.Length - 2) % (max + 1) == 0 ==>
                disk[0] == SuperRecord(DISKMAGIC, 0, disk.Length, 2, 1) && NoListFrom(disk[..], 2)
    {
      hide NoListFrom, Fresh, Fills, OnDisk, ChainOk, BlksOn, Good, Whole, WholeBlocks;
      if HasSuper(disk[0]) {
        var super := disk[0];
        ghost var ns;
        sbFreelst, ns := SbOpenFreeList(super.freelst, c);
        nodes, chain := ns, c;
        SbOpenDirectory(super.dirlst);
      } else {
        SbInit(junk, dirjunk);
      }
    }

    /** fileCreate.c; `junk` is what malloc leaves in the buffer. */
    method FileCreate(name: string, junk: seq<int>) returns (result: int)
      requires filetab != null ==> Mounted()
      modifies this`sbFreelst, this`nodes, this`chain, nodes, disk, filetab
      ensures filetab == null ==>
                result == SYSERR && nodes == old(nodes) && chain == old(chain) && disk[..] == old(disk[..])
      ensures filetab != null ==>
                && Mounted() && (forall n | n in nodes :: n in old(nodes))
                && (result, Now()) == Create(old(Now()), name, junk)
    {
      hide Get, GetWrites, Ready;
      if filetab == null {
        return SYSERR;
      }
      ghost var fs := Now();
      var fd := 0;
      while fd < DIRENTRIES && filetab[fd].state != FILE_FREE
        invariant 0 <= fd <= DIRENTRIES && Mounted() && Now() == fs
        invariant FreeSlot(fs.files, 0) == FreeSlot(fs.files, fd)
        decreases DIRENTRIES - fd
      {
        fd := fd + 1;
      }
      assert FreeSlot(fs.files, 0) == fd;
      if fd >= DIRENTRIES {
        return SYSERR;
      }
      filetab[fd] := filetab[fd].(length := 0, cursor := 0, name := ShortName(name), data := Loaded(junk));
      filetab[fd] := filetab[fd].(state := FILE_USED | FILE_OPEN);
      var block := SbGetBlock();
      filetab[fd] := filetab[fd].(blocknum := block);
      assert filetab[..] == fs.files[fd := filetab[fd]];
      if filetab[fd].blocknum == SYSERR {
        return SYSERR;
      }
      return fd;
    }

    /** fileOpen.c; `raw` is what the disk gives for a block that holds no file data. */
    method FileOpen(name: string, raw: seq<int>) returns (result: int)
      requires filetab != null ==> filetab.Length == DIRENTRIES
      modifies filetab
      ensures filetab == null ==> result == SYSERR
      ensures filetab != null ==> (result, Now()) == Open(old(Now()), name, raw)
    {
      if filetab == null {
        return SYSERR;
      }
      ghost var fs := Now();
      for fd := 0 to DIRENTRIES
        invariant Now() == fs && NamedSlot(fs.files, name, 0) == NamedSlot(fs.files, name, fd)
      {
        if Matches(filetab[fd], name) {
          if filetab[fd].state & FILE_OPEN != 0 {
            return fd;
          }
          var curblock := filetab[fd].blocknum;
          filetab[fd] := filetab[fd].(data := Loaded(Content(disk[..], curblock, raw)));
          filetab[fd] := filetab[fd].(state := filetab[fd].state | FILE_OPEN);
          filetab[fd] := filetab[fd].(cursor := 0);
          assert filetab[..] == fs.files[fd := filetab[fd]];
          return fd;
        }
      }
      return SYSERR;
    }

    /** fileSeek.c */
    method FileSeek(fd: int, offset: int) returns (result: int)
      requires filetab != null ==> filetab.Length == DIRENTRIES
      modifies filetab
      ensures filetab == null ==> result == SYSERR
      ensures filetab != null ==> (result, Now()) == Seek(old(Now()), fd, offset)
    {
      if filetab == null || BadFd(fd) || filetab[fd].state == FILE_FREE {
        return SYSERR;
      }
      ghost var fs := Now();
      if filetab[fd].cursor < 0 || filetab[fd].cursor > filetab[fd].length || filetab[fd].cursor > DISKBLOCKLEN {
        assert fs.files[fd := filetab[fd]] == fs.files;
        return SYSERR;
      }
      if offset < 0 || offset > filetab[fd].length || offset >= DISKBLOCKLEN {
        assert fs.files[fd := filetab[fd]] == fs.files;
        return SYSERR;
      }
      filetab[fd] := filetab[fd].(cursor := offset);
      return OK;
    }

    /** filePutChar.c; a file that is written to has been opened or created since the disk was last opened. */
    method FilePutChar(fd: int, c: int) returns (result: int)
      requires filetab != null ==> filetab.Length == DIRENTRIES
      requires filetab != null ==> NoFile(Now(), fd) || PutRefused(filetab[fd]) || HasBuffer(filetab[fd])
      modifies filetab
      ensures filetab == null ==> result == SYSERR
      ensures filetab != null ==> (result, Now()) == PutChar(old(Now()), fd, c)
    {
      hide PutIn;
      if filetab == null || BadFd(fd) || filetab[fd].state == FILE_FREE {
        return SYSERR;
      }
      ghost var fs := Now();
      PutCases(filetab[fd], c);
      if filetab[fd].cursor < 0 || filetab[fd].cursor > filetab[fd].length || filetab[fd].cursor >= DISKBLOCKLEN {
        assert fs.files[fd := filetab[fd]] == fs.files;
        return SYSERR;
      }
      var f := filetab[fd];
      f := f.(data := Loaded(f.data.bytes[f.cursor := c]));
      if f.length < DISKBLOCKLEN && f.length == f.cursor {
        f := f.(length := f.length + 1);
      }
      f := f.(cursor := f.cursor + 1, state := f.state | FILE_DIRTY);
      filetab[fd] := f;
      assert f == PutIn(fs.files[fd], c).1;
      assert filetab[..] == fs.files[fd := f];
      return OK;
    }

    /** fileGetChar.c, with the same demand. */
    method FileGetChar(fd: int) returns (result: int)
      requires filetab != null ==> filetab.Length == DIRENTRIES
      requires filetab != null ==> NoFile(Now(), fd) || GetRefused(filetab[fd]) || HasBuffer(filetab[fd])
      modifies filetab
      ensures filetab == null ==> result == SYSERR
      ensures filetab != null ==> (result, Now()) == GetChar(old(Now()), fd)
    {
      if filetab == null || BadFd(fd) || filetab[fd].state == FILE_FREE {
        return SYSERR;
      }
      ghost var fs := Now();
      if filetab[fd].cursor < 0 || filetab[fd].cursor >= filetab[fd].length {
        assert fs.files[fd := filetab[fd]] == fs.files;
        return SYSERR;
      }
      var c := filetab[fd].data.bytes[filetab[fd].cursor];
      if filetab[fd].cursor < filetab[fd].length {
        filetab[fd] := filetab[fd].(cursor := filetab[fd].cursor + 1);
      }
      return c;
    }

    /** fileClose.c; a file to be written back has a buffer and a block. */
    method FileClose(fd: int) returns (result: int)
      requires filetab != null ==> filetab.Length == DIRENTRIES && 0 <= dbBlocknum < disk.Length
      requires filetab != null && !NoFile(Now(), fd) && filetab[fd].state & FILE_DIRTY != 0 ==>
                 HasBuffer(filetab[fd]) && 0 <= filetab[fd].blocknum < disk.Length
      modifies filetab, disk
      ensures filetab == null ==> result == SYSERR && disk[..] == old(disk[..])
      ensures filetab != null ==> (result, Now()) == Close(old(Now()), fd)
    {
      if filetab == null || BadFd(fd) || filetab[fd].state == FILE_FREE {
        return SYSERR;
      }
      ghost var fs := Now();
      if filetab[fd].state & FILE_DIRTY != 0 {
        disk[filetab[fd].blocknum] := Bytes(filetab[fd].data.bytes);
        filetab[fd] := filetab[fd].(state := filetab[fd].state & !FILE_DIRTY);
      }
      assert disk[..] == SaveData(fs.blocks, fs.files[fd]);
      CleanState(fs.files[fd].state);
      filetab[fd] := filetab[fd].(state := filetab[fd].state & !FILE_OPEN);
      disk[dbBlocknum] := DirRecord(dbBlocknum, filetab[..]);
      assert filetab[..] == fs.files[fd := Closed(fs.files[fd])];
      return OK;
    }

    /** fileDelete.c, for a descriptor in the table; sbFreeBlock does not meet a list of one full node. */
    method FileDelete(fd: int, junk: FNode) returns (result: int)
      requires Mounted() && DIRENTRIES < disk.Length && |junk.entries| == max
      requires 0 <= fd < DIRENTRIES && (Accepted(fd, max) && |chain| == 1 ==> Room(chain))
      modifies this`sbFreelst, this`nodes, this`chain, nodes, disk, filetab
      ensures filetab == old(filetab) && Mounted() && (forall n | n in nodes :: n in old(nodes) || fresh(n))
      ensures result == OK && Now() == Delete(old(Now()), fd, junk, max)
    {
      hide Put, FreeWrites, Ready, Room;
      ghost var fs := Now();
      filetab[fd] := filetab[fd].(length := 0, cursor := 0);
      filetab[fd] := filetab[fd].(state := FILE_FREE);
      assert filetab[..] == fs.files[fd := Freed(fs.files[fd])];
      var _ := SbFreeBlock(fd, junk);
      return OK;
    }

    /** Any one of the calls, made as FileRuns allows it, takes a good file system to the state FileRuns says; so
        every run of FileRuns is a run of these methods. */
    method Perform(op: Op)
      requires Mounted() && Good(Now(), max, disk.Length) && Allowed(Now(), op)
      modifies this, nodes, disk, filetab
      ensures Mounted() && Good(Now(), max, disk.Length) && Now() == Apply(old(Now()), op)
    {
      hide Ready, Good, Create, Open, Seek, PutChar, GetChar, Close, Remount, Agree, FileOk, Listed, Lists, OnDisk,
        ChainOk;
      ghost var fs := Now();
      OneStep(fs, op, max, disk.Length);
      GoodMounts(fs, max, disk.Length);
      match op {
        case OpCreate(name, junk) =>
          var _ := FileCreate(name, junk);
        case OpOpen(name, raw) =>
          var _ := FileOpen(name, raw);
        case OpSeek(fd, offset) =>
          var _ := FileSeek(fd, offset);
        case OpPut(fd, c) =>
          BufferOk(fs, fd, max, disk.Length);
          var _ := FilePutChar(fd, c);
        case OpGet(fd) =>
          BufferOk(fs, fd, max, disk.Length);
          var _ := FileGetChar(fd);
        case OpClose(fd) =>
          BufferOk(fs, fd, max, disk.Length);
          var _ := FileClose(fd);
        case OpRemount =>
          var none := b => FNode(0, 0, []);
          SbOpen(chain, none, []);
          RemountIs(fs, filetab[..]);
      }
    }
  }

  /** sbGetBlock.c, lines 94 to 97: copy the live entries of one node over those of another. */
  method CopyEntries(freeblk: FreeBlock, free2: FreeBlock)
    requires freeblk != free2 && 0 <= free2.frCount <= |free2.frFree| && free2.frCount <= |freeblk.frFree|
    modifies freeblk`frFree
    ensures freeblk.frFree == free2.frFree[..free2.frCount] + old(freeblk.frFree)[free2.frCount..]
  {
    var i := free2.frCount - 1;
    while i >= 0
      invariant -1 <= i < free2.frCount && |freeblk.frFree| == |old(freeblk.frFree)|
      invariant forall j | 0 <= j < |freeblk.frFree| ::
                  freeblk.frFree[j] == if i < j < free2.frCount then free2.frFree[j] else old(freeblk.frFree)[j]
    {
      freeblk.frFree := freeblk.frFree[i := free2.frFree[i]];
      i := i - 1;
    }
  }

  lemma PutLast(blocks: Blocks, chain: seq<FNode>, max: nat, b: int, dir: int)
    requires chain != [] && ChainOk(chain, max) && Room(chain) && BlksOn(chain, |blocks|)
    ensures var n := chain[|chain| - 1];
            && 0 <= n.count < |n.entries| && 0 < n.blk < |blocks|
            && AddEntry(n, b) == FNode(n.blk, n.count + 1, n.entries[n.count := b])
            && Put(chain, b, []) == chain[..|chain| - 1] + [AddEntry(n, b)]
            && PutWrites(blocks, chain, b, [], dir)
               == blocks[n.blk := FreeRecord(n.blk, n.count + 1, 0, n.entries[n.count := b])]
    ensures ChainOk(Put(chain, b, []), max) && BlksOn(Put(chain, b, []), |blocks|)
  {
    var n := chain[|chain| - 1];
    assert NodeOk(n, max);
    ChainSnoc(chain[..|chain| - 1], n, max);
    ChainSnoc(chain[..|chain| - 1], AddEntry(n, b), max);
    assert chain == chain[..|chain| - 1] + [n];
  }

  lemma PutCuts(chain: seq<FNode>, max: nat, b: int, junk: seq<int>, total: int)
    requires |chain| > 1 && ChainOk(chain, max) && !Room(chain) && BlksOn(chain, total)
    ensures Put(chain, b, junk) == chain[..|chain| - 2] + [chain[|chain| - 2].(count := 0)]
    ensures ChainOk(Put(chain, b, junk), max) && BlksOn(Put(chain, b, junk), total)
  {
    assert NodeOk(chain[|chain| - 1], max) && NodeOk(chain[|chain| - 2], max);
  }

  lemma SliceStep(c: seq<FNode>, k: int)
    requires 0 <= k && k + 1 < |c|
    ensures c[..k] + [c[k]] == c[..k + 1] && c[k + 1..][1..] == c[k + 2..] && c[k + 1..][0] == c[k + 1]
  {
  }

  lemma LastNode(chain: seq<FNode>, max: nat)
    requires chain != [] && ChainOk(chain, max)
    ensures NodeOk(chain[|chain| - 1], max)
  {
  }

  /** A segment is its first k nodes, ending at node k, and the rest, with no node in common. */
  lemma {:induction false} SegmentSplit(ns: seq<FreeBlock>, chain: seq<FNode>, next: FreeBlock?, k: nat)
    requires Segment(ns, chain, next) && k < |ns|
    ensures |chain| == |ns|
    ensures Segment(ns[..k], chain[..k], ns[k]) && Segment(ns[k..], chain[k..], next)
    ensures forall n | n in ns[..k] :: n !in ns[k..]
  {
    if k == 0 {
      assert ns[0..] == ns && chain[0..] == chain;
    } else {
      SegmentSplit(ns[1..], chain[1..], next, k - 1);
      assert ns[1..][..k - 1] == ns[..k][1..] && chain[1..][..k - 1] == chain[..k][1..];
      assert ns[1..][k - 1..] == ns[k..] && chain[1..][k - 1..] == chain[k..];
      assert ns[1..][k - 1] == ns[k];
      assert k > 1 ==> ns[..k][1] == ns[1];
    }
  }

  lemma SegmentHead(ns: seq<FreeBlock>, chain: seq<FNode>, next: FreeBlock?)
    requires Segment(ns, chain, next) && ns != []
    ensures |chain| == |ns| && ns[0].Is(chain[0]) && ns[0].frNext == (if |ns| > 1 then ns[1] else next)
  {
  }

  lemma SegmentNone(next: FreeBlock?)
    ensures Segment([], [], next)
  {
  }

  lemma OnDiskFirst(blocks: Blocks, chain: seq<FNode>)
    requires OnDisk(blocks, chain)
    ensures chain == [] <==> First(chain) == 0
    ensures chain != [] ==>
              0 < chain[0].blk < |blocks| && blocks[chain[0].blk] == RecordOf(chain) && OnDisk(blocks, chain[1..])
  {
  }

  lemma SegmentOne(n: FreeBlock, f: FNode)
    requires n.Is(f)
    ensures Segment([n], [f], n.frNext)
  {
    assert [n][1..] == [] && [f][1..] == [];
  }

  lemma {:induction false} SegmentJoin(a: seq<FreeBlock>, ca: seq<FNode>, b: seq<FreeBlock>, cb: seq<FNode>,
                                       next: FreeBlock?)
    requires b != [] && Segment(a, ca, b[0]) && Segment(b, cb, next)
    requires forall n | n in a :: n !in b
    ensures Segment(a + b, ca + cb, next)
  {
    if a == [] {
      assert a + b == b && ca + cb == cb;
    } else {
      SegmentJoin(a[1..], ca[1..], b, cb, next);
      assert (a + b)[1..] == a[1..] + b && (ca + cb)[1..] == ca[1..] + cb;
    }
  }

  lemma Absorbed(chain: seq<FNode>, max: nat)
    requires chain != [] && ChainOk(chain, max)
    ensures |chain| > 1 ==>
              var n, n2 := chain[0], chain[1];
              && Absorb(n, n2).blk == n.blk && Absorb(n, n2).count == n2.count && 0 <= n2.count <= max
              && |n.entries| == |n2.entries| == max
              && Absorb(n, n2).entries == n2.entries[..n2.count] + n.entries[n2.count..]
  {
    assert |chain| > 1 ==> NodeOk(chain[0], max) && NodeOk(chain[1], max);
  }

  lemma FirstNode(blocks: Blocks, chain: seq<FNode>, max: nat, dir: int)
    requires chain != [] && ChainOk(chain, max) && BlksOn(chain, |blocks|)
    ensures NodeOk(chain[0], max) && 0 < chain[0].blk < |blocks|
    ensures ChainOk(Get(chain).1, max) && BlksOn(Get(chain).1, |blocks|)
    ensures chain[0].count > 0 ==>
              && Get(chain) == (chain[0].entries[chain[0].count - 1],
                                [FNode(chain[0].blk, chain[0].count - 1, chain[0].entries[chain[0].count - 1 := 0])]
                                + chain[1..])
              && GetWrites(blocks, chain, dir)
                 == blocks[chain[0].blk := FreeRecord(chain[0].blk, chain[0].count - 1, First(chain[1..]),
                                                      chain[0].entries[chain[0].count - 1 := 0])]
    ensures chain[0].count == 0 && |chain| > 1 ==>
              && NodeOk(chain[1], max)
              && Get(chain) == (chain[1].blk, [Absorb(chain[0], chain[1])] + chain[2..])
              && Absorb(chain[0], chain[1]).blk == chain[0].blk && Absorb(chain[0], chain[1]).count == chain[1].count
              && Absorb(chain[0], chain[1]).entries
                 == chain[1].entries[..chain[1].count] + chain[0].entries[chain[1].count..]
              && GetWrites(blocks, chain, dir)
                 == blocks[chain[0].blk := FreeRecord(chain[0].blk, chain[1].count, First(chain[2..]),
                                                      Absorb(chain[0], chain[1]).entries)]
  {
    hide Handout, Absorb, Live;
    GetPops(chain, max);
    GetCases(chain);
    Absorbed(chain, max);
    assert NodeOk(chain[0], max);
    assert |chain| > 1 ==> NodeOk(chain[1], max);
    var rest := Get(chain).1;
    assert chain[0].count > 0 ==> rest[1..] == chain[1..];
    assert chain[0].count == 0 && |chain| > 1 ==> rest[1..] == chain[2..];
  }

  predicate HasSuper(w: DiskBlock) {
    w.SuperRecord? && w.magic == DISKMAGIC
  }

  /** sbInit leaves a good file system in which nothing is lost ... */
  lemma Formatted(blocks: Blocks, c: seq<FNode>, max: nat, files: seq<FileNode>)
    requires |blocks| >= 4 && blocks[0] == SuperRecord(DISKMAGIC, 0, |blocks|, 2, 1)
    requires FreshList(c, |blocks|, max) && c[0].blk == 2
    requires OnDisk(blocks, c) && WholeBlocks(blocks)
    requires |files| == DIRENTRIES && forall i | 0 <= i < |files| :: files[i].state == FILE_FREE
    ensures var fs := Fs(c, files, blocks[1 := DirRecord(1, files)], 1);
            Fresh(fs, max, |blocks|) && BlksOn(c, |blocks|) && ChainOk(c, max)
  {
    hide FreshList, Fills, ChainOk, OnDisk, Good, Whole, Blks;
    FreshParts(c, |blocks|, max);
    FillsDistinct(c, 2, |blocks|);
    FillsRange(c, 2, |blocks|);
    OnDiskFrame(blocks, c, 1, DirRecord(1, files));
    FreshIsGood(Fs(c, files, blocks[1 := DirRecord(1, files)], 1), max, |blocks|);
  }

  /** ... except when the blocks fill the collectors exactly: then the last record names a block past the disk. */
  lemma Unformatted(blocks: Blocks, c: seq<FNode>, w: DiskBlock)
    requires |blocks| >= 4 && c != [] && c[0].blk == 2 && Fills(c, 2, |blocks|) && OnDiskTo(blocks, c, |blocks|)
    ensures NoListFrom(blocks[1 := w], 2)
  {
    OnDiskToFrame(blocks, c, |blocks|, 2, |blocks|, 1, w);
    forall chain | First(chain) == 2 ensures !OnDisk(blocks[1 := w], chain) {
      DanglingRun(blocks[1 := w], c, |blocks|, chain);
    }
  }

  /** The buffer fn_data points to is this file's block in memory. */
  predicate HasBuffer(f: FileNode) {
    f.data.Loaded? && f.length <= |f.data.bytes| == DISKBLOCKLEN
  }

  lemma PutCases(f: FileNode, c: int)
    requires PutRefused(f) || HasBuffer(f)
    ensures PutIn(f, c) == if f.cursor < 0 || f.cursor > f.length || f.cursor >= DISKBLOCKLEN then (SYSERR, f)
                           else (OK, f.(data := Loaded(f.data.bytes[f.cursor := c]),
                                        length := if f.length == f.cursor then f.length + 1 else f.length,
                                        cursor := f.cursor + 1, state := f.state | FILE_DIRTY))
  {
  }

  lemma CleanState(s: bv8)
    ensures s & FILE_DIRTY == 0 ==> s & !FILE_DIRTY == s
  {
  }

  /** What a good file system offers to sbOpen. */
  lemma GoodMounts(fs: Fs, max: nat, total: int)
    requires Good(fs, max, total)
    ensures total > 2 && |fs.blocks| == total && fs.dir == 1 && |fs.files| == DIRENTRIES
    ensures HasSuper(fs.blocks[0]) && fs.blocks[0].dirlst == 1 && First(fs.chain) == fs.blocks[0].freelst
    ensures OnDisk(fs.blocks, fs.chain) && ChainOk(fs.chain, max) && BlksOn(fs.chain, total)
    ensures fs.blocks[1] == DirRecord(1, Listed(fs)) && |Listed(fs)| == DIRENTRIES
  {
    OnDiskRange(fs.blocks, fs.chain);
  }

  lemma {:induction false} OnDiskRange(blocks: Blocks, chain: seq<FNode>)
    requires OnDisk(blocks, chain) && |blocks| > 0
    ensures BlksOn(chain, |blocks|)
  {
    if chain == [] {
    } else {
      OnDiskRange(blocks, chain[1..]);
      forall i | 0 <= i < |chain| ensures 0 < chain[i].blk < |blocks| {
        assert i > 0 ==> chain[i] == chain[1..][i - 1];
      }
    }
  }

  lemma BufferOk(fs: Fs, fd: int, max: nat, total: int)
    requires Good(fs, max, total)
    ensures !NoFile(fs, fd) ==>
              var f := fs.files[fd];
              && (f.data.Loaded? ==> HasBuffer(f))
              && (f.state & FILE_DIRTY != 0 ==> HasBuffer(f) && (f.blocknum == SYSERR || 0 <= f.blocknum < total))
  {
    if !NoFile(fs, fd) {
      assert FileOk(fs.files[fd], total);
      if fs.files[fd].state & FILE_DIRTY != 0 {
        DirtyIsLoaded(fs.files[fd].state);
      }
    }
  }

  lemma RemountIs(fs: Fs, files: seq<FileNode>)
    requires files == ReadBackAll(Listed(fs))
    ensures Fs(fs.chain, files, fs.blocks, fs.dir) == Remount(fs)
  {
  }

  /** sbOpen of a disk of the source's size that has no superblock yet. */
  method OpenBlankDisk(disk: array<DiskBlock>, junk: nat -> FNode, dirjunk: seq<FileNode>) returns (fs: FileSystem)
    requires disk.Length == DISKBLOCKTOTAL && !HasSuper(disk[0]) && WholeBlocks(disk[..])
    requires (forall k :: |junk(k).entries| == FREEBLOCKMAX) && |dirjunk| == DIRENTRIES
    modifies disk
    ensures fresh(fs) && fs.disk == disk && fs.max == FREEBLOCKMAX
    ensures fs.Mounted() && Fresh(fs.Now(), FREEBLOCKMAX, DISKBLOCKTOTAL)
  {
    hide Fresh, WholeBlocks, Good, Whole;
    fs := new FileSystem(disk, FREEBLOCKMAX);
    fs.SbOpen([], junk, dirjunk);
  }
}
