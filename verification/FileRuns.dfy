/** Runs of file calls: who owns each disk block, and what is left of that after a remount. */
module FileRuns {
  import opened FreeChain
  import opened DiskImage
  import opened Format
  import opened Files
  import opened Status

  /** A used file whose fileCreate found a block. */
  predicate HasBlock(f: FileNode) {
    f.state != FILE_FREE && f.blocknum != SYSERR
  }

  predicate Holds(f: FileNode, b: int) {
    HasBlock(f) && f.blocknum == b
  }

  /** How many used files have block b. */
  function Held(files: seq<FileNode>, b: int): nat {
    if files == [] then 0 else (if Holds(files[0], b) then 1 else 0) + Held(files[1..], b)
  }

  /** How many owners block b has: places in the free list and used files. */
  function Owners(fs: Fs, b: int): nat {
    Times(Handout(fs.chain), b) + Held(fs.files, b)
  }

  /** A free slot, or a used one with a block (or -1 if fileCreate found none) and a cursor inside the file. */
  predicate FileOk(f: FileNode, total: int) {
    f.state == FILE_FREE ||
    (&& f.state & FILE_USED != 0
     && 0 <= f.cursor <= f.length <= DISKBLOCKLEN
     && (f.blocknum == SYSERR || 2 <= f.blocknum < total)
     && (f.data.Loaded? ==> |f.data.bytes| == DISKBLOCKLEN)
     && (f.state & (FILE_OPEN | FILE_DIRTY) != 0 ==> f.data.Loaded?))
  }

  predicate FilesOk(files: seq<FileNode>, total: int) {
    |files| == DIRENTRIES && forall i | 0 <= i < |files| :: FileOk(files[i], total)
  }

  /** A directory on disk lists only files that are still used, under the block they have. */
  predicate Lists(listed: seq<FileNode>, files: seq<FileNode>) {
    |listed| == |files| &&
    forall i | 0 <= i < |files| :: listed[i].state != FILE_FREE ==>
      files[i].state != FILE_FREE && files[i].blocknum == listed[i].blocknum
  }

  /** What every run keeps: memory and disk agree on the free list, and no block has two owners. */
  ghost predicate Good(fs: Fs, max: nat, total: int) {
    && total > 2 && |fs.blocks| == total && fs.dir == 1
    && ChainOk(fs.chain, max) && Agree(fs.blocks, fs.chain, 1)
    && fs.blocks[1] == DirRecord(1, Listed(fs))
    && FilesOk(fs.files, total) && FilesOk(Listed(fs), total) && Lists(Listed(fs), fs.files)
    && WholeBlocks(fs.blocks) && OneOwner(fs, total)
  }

  /** File data on disk fills its block. */
  predicate WholeBlocks(blocks: Blocks) {
    forall b | 0 <= b < |blocks| && blocks[b].Bytes? :: |blocks[b].data| == DISKBLOCKLEN
  }

  ghost predicate OneOwner(fs: Fs, total: int) {
    forall b :: Owners(fs, b) <= Once(2, b, total)
  }

  /** Every block from 2 on is free or in a used file: none is lost. */
  ghost predicate Whole(fs: Fs, total: int) {
    forall b :: Owners(fs, b) == Once(2, b, total)
  }

  lemma {:induction false} HeldUpdate(files: seq<FileNode>, fd: nat, f: FileNode, b: int)
    requires fd < |files|
    ensures Held(files[fd := f], b) + Held([files[fd]], b) == Held(files, b) + Held([f], b)
  {
    if fd == 0 {
      assert files[0 := f][1..] == files[1..] && [f][1..] == [] && [files[0]][1..] == [];
    } else {
      assert files[fd := f][1..] == files[1..][fd - 1 := f];
      HeldUpdate(files[1..], fd - 1, f, b);
    }
  }

  lemma HeldOne(f: FileNode, b: int)
    ensures Held([f], b) == if Holds(f, b) then 1 else 0
  {
    assert [f][1..] == [];
  }

  lemma {:induction false} HeldAt(files: seq<FileNode>, i: nat)
    requires i < |files| && HasBlock(files[i])
    ensures Held(files, files[i].blocknum) >= 1
  {
    if i == 0 {
    } else {
      HeldAt(files[1..], i - 1);
    }
  }

  lemma {:induction false} HeldTwice(files: seq<FileNode>, i: nat, j: nat)
    requires i < j < |files| && HasBlock(files[i]) && Holds(files[j], files[i].blocknum)
    ensures Held(files, files[i].blocknum) >= 2
  {
    if i > 0 {
      HeldTwice(files[1..], i - 1, j - 1);
    } else {
      HeldAt(files[1..], j - 1);
    }
  }

  lemma {:induction false} HeldBy(files: seq<FileNode>, b: int) returns (i: nat)
    requires Held(files, b) > 0
    ensures i < |files| && Holds(files[i], b)
  {
    if Holds(files[0], b) {
      i := 0;
    } else {
      i := HeldBy(files[1..], b);
      i := i + 1;
    }
  }

  lemma {:induction false} OccursAt(s: seq<int>, b: int)
    requires Times(s, b) > 0
    ensures b in s
  {
    if s[0] == b {
    } else {
      OccursAt(s[1..], b);
    }
  }

  /** The state bits the calls set and clear. */
  lemma StateBits(s: bv8)
    ensures (s & FILE_USED) & FILE_USED == s & FILE_USED && (s & FILE_USED) & (FILE_OPEN | FILE_DIRTY) == 0
    ensures (s & !FILE_DIRTY & !FILE_OPEN) & FILE_USED == s & FILE_USED
    ensures (s & !FILE_DIRTY & !FILE_OPEN) & (FILE_OPEN | FILE_DIRTY) == 0
    ensures (s | FILE_OPEN) & FILE_USED == s & FILE_USED && (s | FILE_DIRTY) & FILE_USED == s & FILE_USED
    ensures s & FILE_USED != 0 ==> s != FILE_FREE
    ensures s & FILE_USED == 0 ==> s & FILE_USED == FILE_FREE
    ensures (FILE_USED | FILE_OPEN) & FILE_USED != 0
  {
  }

  /** Ownership in words: a used file's block is not 0 or 1, not free, and no other file's; no block is
      free twice; and nothing is lost exactly when every other block is free or in a file. */
  lemma OwnershipMeans(fs: Fs, max: nat, total: int)
    requires Good(fs, max, total)
    ensures forall i | 0 <= i < |fs.files| && HasBlock(fs.files[i]) ::
              2 <= fs.files[i].blocknum < total && fs.files[i].blocknum !in Handout(fs.chain)
    ensures forall i, j | 0 <= i < j < |fs.files| && HasBlock(fs.files[i]) && HasBlock(fs.files[j]) ::
              fs.files[i].blocknum != fs.files[j].blocknum
    ensures Distinct(Handout(fs.chain)) && forall b | b in Handout(fs.chain) :: 2 <= b < total
    ensures Whole(fs, total) <==> forall b | 2 <= b < total :: b in Handout(fs.chain) || SomeHolds(fs.files, b)
  {
    hide Agree, ChainOk, Handout, Held, Times, Lists;
    var h := Handout(fs.chain);
    forall i | 0 <= i < |fs.files| && HasBlock(fs.files[i])
      ensures 2 <= fs.files[i].blocknum < total && fs.files[i].blocknum !in h
    {
      assert FileOk(fs.files[i], total);
      HeldAt(fs.files, i);
      NotFreeIfHeld(fs, total, fs.files[i].blocknum);
    }
    forall i, j | 0 <= i < j < |fs.files| && HasBlock(fs.files[i]) && HasBlock(fs.files[j])
      ensures fs.files[i].blocknum != fs.files[j].blocknum
    {
      assert Owners(fs, fs.files[i].blocknum) <= 1;
      if fs.files[i].blocknum == fs.files[j].blocknum {
        HeldTwice(fs.files, i, j);
      }
    }
    HandoutDistinct(fs, total);
    forall b ensures Owners(fs, b) > 0 <==> b in h || SomeHolds(fs.files, b) {
      OwnedSomewhere(fs, b);
    }
    if Whole(fs, total) {
      forall b | 2 <= b < total ensures b in h || SomeHolds(fs.files, b) { assert Owners(fs, b) == 1; }
    }
    if forall b | 2 <= b < total :: b in h || SomeHolds(fs.files, b) {
      forall b ensures Owners(fs, b) == Once(2, b, total) { assert Owners(fs, b) <= Once(2, b, total); }
    }
  }

  ghost predicate SomeHolds(files: seq<FileNode>, b: int) {
    exists i :: 0 <= i < |files| && Holds(files[i], b)
  }

  lemma NotFreeIfHeld(fs: Fs, total: int, b: int)
    requires OneOwner(fs, total) && Held(fs.files, b) >= 1
    ensures b !in Handout(fs.chain) && 2 <= b < total
  {
    hide Handout, Held, Times;
    var h := Handout(fs.chain);
    assert Owners(fs, b) <= Once(2, b, total);
    if b in h {
      var k :| 0 <= k < |h| && h[k] == b;
      TimesIn(h, k);
    }
  }

  lemma HandoutDistinct(fs: Fs, total: int)
    requires OneOwner(fs, total)
    ensures Distinct(Handout(fs.chain)) && forall b | b in Handout(fs.chain) :: 2 <= b < total
  {
    hide Handout, Held, Times;
    var h := Handout(fs.chain);
    forall i, j | 0 <= i < j < |h| ensures h[i] != h[j] {
      assert Owners(fs, h[i]) <= 1;
      if h[i] == h[j] {
        TimesTwice(h, i, j);
      }
    }
    forall b | b in h ensures 2 <= b < total {
      var k :| 0 <= k < |h| && h[k] == b;
      TimesIn(h, k);
      assert Owners(fs, b) <= Once(2, b, total);
    }
  }

  lemma OwnedSomewhere(fs: Fs, b: int)
    ensures Owners(fs, b) > 0 <==> b in Handout(fs.chain) || SomeHolds(fs.files, b)
  {
    hide Handout, Held, Times;
    var h := Handout(fs.chain);
    if Times(h, b) > 0 {
      OccursAt(h, b);
    }
    if Held(fs.files, b) > 0 {
      var i := HeldBy(fs.files, b);
    }
    if b in h {
      var k :| 0 <= k < |h| && h[k] == b;
      TimesIn(h, k);
    }
    if SomeHolds(fs.files, b) {
      var i :| 0 <= i < |fs.files| && Holds(fs.files[i], b);
      HeldAt(fs.files, i);
    }
  }

  datatype Op =
    | OpCreate(name: string, junk: seq<int>)
    | OpOpen(name: string, raw: seq<int>)
    | OpSeek(fd: int, offset: int)
    | OpPut(fd: int, c: int)
    | OpGet(fd: int)
    | OpClose(fd: int)
    | OpRemount

  function Apply(fs: Fs, op: Op): Fs {
    match op
    case OpCreate(name, junk) => Create(fs, name, junk).1
    case OpOpen(name, raw) => Open(fs, name, raw).1
    case OpSeek(fd, offset) => Seek(fs, fd, offset).1
    case OpPut(fd, c) => PutChar(fs, fd, c).1
    case OpGet(fd) => GetChar(fs, fd).1
    case OpClose(fd) => Close(fs, fd).1
    case OpRemount => Remount(fs)
  }

  /** What the calls leave to their callers: buffers have the size of a block, a file read from disk is
      opened before it is used, and a file that got no block is not written back. */
  predicate Allowed(fs: Fs, op: Op) {
    match op
    case OpCreate(_, junk) => |junk| == DISKBLOCKLEN
    case OpOpen(_, raw) => |raw| == DISKBLOCKLEN
    case OpPut(fd, _) => NoFile(fs, fd) || PutRefused(fs.files[fd]) || fs.files[fd].data.Loaded?
    case OpGet(fd) => NoFile(fs, fd) || GetRefused(fs.files[fd]) || fs.files[fd].data.Loaded?
    case OpClose(fd) => NoFile(fs, fd) || fs.files[fd].state & FILE_DIRTY == 0 || fs.files[fd].blocknum != SYSERR
    case _ => true
  }

  /** Every used file with a block is in the directory on disk. */
  predicate AllListed(fs: Fs) {
    forall i | 0 <= i < |fs.files| && i < |Listed(fs)| && HasBlock(fs.files[i]) :: Listed(fs)[i].state != FILE_FREE
  }

  /** Replacing a used file by a used file with the same block changes nothing about ownership. */
  lemma SameOwner(fs: Fs, fs': Fs, fd: nat, f: FileNode, max: nat, total: int)
    requires Good(fs, max, total) && fd < |fs.files| && fs.files[fd].state != FILE_FREE
    requires f.state != FILE_FREE && f.blocknum == fs.files[fd].blocknum && FileOk(f, total)
    requires fs' == fs.(files := fs.files[fd := f])
    ensures Good(fs', max, total) && forall b :: Owners(fs', b) == Owners(fs, b)
  {
    hide Handout, Held, Times, Agree, ChainOk, FileOk, Listed;
    assert Listed(fs') == Listed(fs) by { SameListed(fs, fs'); }
    forall b ensures Owners(fs', b) == Owners(fs, b) {
      HeldUpdate(fs.files, fd, f, b);
      HeldOne(f, b);
      HeldOne(fs.files[fd], b);
    }
  }

  lemma SameListed(fs: Fs, fs': Fs)
    requires fs'.dir == fs.dir && 0 <= fs.dir < |fs.blocks| == |fs'.blocks| && fs'.blocks[fs.dir] == fs.blocks[fs.dir]
    ensures Listed(fs') == Listed(fs)
  {
  }

  /** The calls that work on one file keep it well formed and keep its block. */
  lemma SeekGetOk(f: FileNode, offset: int, total: int)
    requires FileOk(f, total) && f.state != FILE_FREE
    ensures FileOk(SeekIn(f, offset).1, total) && SeekIn(f, offset).1.state == f.state
    ensures SeekIn(f, offset).1.blocknum == f.blocknum
    ensures FileOk(GetIn(f).1, total) && GetIn(f).1.state == f.state && GetIn(f).1.blocknum == f.blocknum
  {
  }

  lemma PutOk(f: FileNode, c: int, total: int)
    requires FileOk(f, total) && f.state != FILE_FREE && (PutRefused(f) || f.data.Loaded?)
    ensures FileOk(PutIn(f, c).1, total) && PutIn(f, c).1.state != FILE_FREE && PutIn(f, c).1.blocknum == f.blocknum
  {
    StateBits(f.state);
    StateBits(f.state | FILE_DIRTY);
  }

  lemma ClosedOk(f: FileNode, total: int)
    requires FileOk(f, total) && f.state != FILE_FREE
    ensures FileOk(Closed(f), total) && Closed(f).state != FILE_FREE && Closed(f).blocknum == f.blocknum
  {
    StateBits(f.state);
    StateBits(Closed(f).state);
  }

  lemma OpenStep(fs: Fs, name: string, raw: seq<int>, max: nat, total: int)
    requires Good(fs, max, total) && |raw| == DISKBLOCKLEN
    ensures var fs' := Open(fs, name, raw).1;
            Good(fs', max, total) && forall b :: Owners(fs', b) == Owners(fs, b)
  {
    hide Handout, Held, Times, Agree, ChainOk, Good, Owners;
    var fd := NamedSlot(fs.files, name, 0);
    if fd < |fs.files| && fs.files[fd].state & FILE_OPEN == 0 {
      GoodParts(fs, max, total);
      var f := fs.files[fd];
      assert FileOk(f, total);
      StateBits(f.state);
      StateBits(f.state | FILE_OPEN);
      var g := f.(data := Loaded(Content(fs.blocks, f.blocknum, raw)), state := f.state | FILE_OPEN, cursor := 0);
      SameOwner(fs, Open(fs, name, raw).1, fd, g, max, total);
    }
  }

  /** What sbInit leaves: its list, an empty directory, nothing lost and nothing unlisted. */
  ghost predicate Fresh(fs: Fs, max: nat, total: int) {
    && Good(fs, max, total) && Whole(fs, total) && AllListed(fs) && FreshList(fs.chain, total, max)
    && forall i | 0 <= i < |fs.files| :: fs.files[i].state == FILE_FREE
  }

  /** A fresh disk: sbInit's partition, no file, and a directory that says so. */
  lemma FreshIsGood(fs: Fs, max: nat, total: int)
    requires total > 2 && |fs.blocks| == total && fs.dir == 1 && fs.blocks[1] == DirRecord(1, fs.files)
    requires |fs.files| == DIRENTRIES && forall i | 0 <= i < |fs.files| :: fs.files[i].state == FILE_FREE
    requires ChainOk(fs.chain, max) && Agree(fs.blocks, fs.chain, 1) && WholeBlocks(fs.blocks)
    requires fs.chain != [] && Fills(fs.chain, 2, total)
    ensures Good(fs, max, total) && Whole(fs, total) && AllListed(fs)
  {
    hide Handout, Times, Held, Agree, ChainOk, Fills;
    FillsPartition(fs.chain, 2, total);
    forall b ensures Owners(fs, b) == Once(2, b, total) {
      if Held(fs.files, b) > 0 {
        var i := HeldBy(fs.files, b);
      }
    }
  }

  lemma GoodParts(fs: Fs, max: nat, total: int)
    requires Good(fs, max, total)
    ensures total > 2 && |fs.blocks| == total && fs.dir == 1 && ChainOk(fs.chain, max) && Agree(fs.blocks, fs.chain, 1)
    ensures fs.blocks[1] == DirRecord(1, Listed(fs))
    ensures FilesOk(fs.files, total) && FilesOk(Listed(fs), total) && Lists(Listed(fs), fs.files)
    ensures WholeBlocks(fs.blocks) && OneOwner(fs, total)
  {
  }

  lemma SeekPutGetStep(fs: Fs, op: Op, max: nat, total: int)
    requires Good(fs, max, total) && Allowed(fs, op) && (op.OpSeek? || op.OpPut? || op.OpGet?)
    ensures Good(Apply(fs, op), max, total) && forall b :: Owners(Apply(fs, op), b) == Owners(fs, b)
  {
    hide Handout, Held, Times, Agree, ChainOk, Good, Owners, SeekIn, PutIn, GetIn, FileOk;
    GoodParts(fs, max, total);
    if !NoFile(fs, op.fd) {
      var f := fs.files[op.fd];
      assert FileOk(f, total);
      match op {
        case OpSeek(fd, offset) =>
          SeekGetOk(f, offset, total);
          SameOwner(fs, Apply(fs, op), fd, SeekIn(f, offset).1, max, total);
        case OpPut(fd, c) =>
          PutOk(f, c, total);
          SameOwner(fs, Apply(fs, op), fd, PutIn(f, c).1, max, total);
        case OpGet(fd) =>
          SeekGetOk(f, 0, total);
          SameOwner(fs, Apply(fs, op), fd, GetIn(f).1, max, total);
      }
    }
  }

  /** fileCreate moves the first block of the handout sequence from the free list to the file. */
  lemma CreateStep(fs: Fs, name: string, junk: seq<int>, max: nat, total: int)
    requires Good(fs, max, total) && |junk| == DISKBLOCKLEN
    ensures var (r, fs') := Create(fs, name, junk);
            && Good(fs', max, total) && (forall b :: Owners(fs', b) == Owners(fs, b))
            && (r == SYSERR ==> fs'.chain == fs.chain)
            && (r != SYSERR ==>
                  && r == FreeSlot(fs.files, 0) < |fs.files| == |fs'.files| && HasBlock(fs'.files[r])
                  && Handout(fs.chain) == [fs'.files[r].blocknum] + Handout(fs'.chain))
  {
    hide Handout, Held, Times, Agree, ChainOk, Good, FileOk, Get, GetWrites, Listed;
    GoodParts(fs, max, total);
    var fd := FreeSlot(fs.files, 0);
    if fd < |fs.files| {
      var (r, popped) := Pop(fs);
      PopStep(fs, max, total);
      var f := FileNode(FILE_USED | FILE_OPEN, 0, 0, r, ShortName(name), Loaded(junk));
      var fs' := popped.(files := fs.files[fd := f]);
      assert FileOk(f, total) by { NewFileOk(f, total); }
      SameListed(fs, fs');
      forall b ensures Owners(fs', b) == Owners(fs, b) {
        HeldUpdate(fs.files, fd, f, b);
        HeldOne(f, b);
        HeldOne(fs.files[fd], b);
      }
      MakeGood(fs', max, total);
    }
  }

  lemma NewFileOk(f: FileNode, total: int)
    requires f.state == FILE_USED | FILE_OPEN && f.cursor == f.length == 0
    requires (f.blocknum == SYSERR || 2 <= f.blocknum < total) && f.data.Loaded? && |f.data.bytes| == DISKBLOCKLEN
    ensures FileOk(f, total) && f.state != FILE_FREE
  {
  }

  lemma MakeGood(fs: Fs, max: nat, total: int)
    requires total > 2 && |fs.blocks| == total && fs.dir == 1 && ChainOk(fs.chain, max) && Agree(fs.blocks, fs.chain, 1)
    requires fs.blocks[1] == DirRecord(1, Listed(fs))
    requires FilesOk(fs.files, total) && FilesOk(Listed(fs), total) && Lists(Listed(fs), fs.files)
    requires WholeBlocks(fs.blocks) && OneOwner(fs, total)
    ensures Good(fs, max, total)
  {
  }

  /** A pop takes one place in the free list from one block in range, and touches neither files nor directory. */
  lemma PopStep(fs: Fs, max: nat, total: int)
    requires Good(fs, max, total)
    ensures var (r, fs') := Pop(fs);
            && fs'.files == fs.files && fs'.dir == fs.dir && |fs'.blocks| == |fs.blocks|
            && fs'.blocks[1] == fs.blocks[1]
            && ChainOk(fs'.chain, max) && Agree(fs'.blocks, fs'.chain, 1) && WholeBlocks(fs'.blocks)
            && (r == SYSERR <==> fs.chain == [])
            && (r != SYSERR ==> 2 <= r < total && Handout(fs.chain) == [r] + Handout(fs'.chain))
            && (forall b :: Times(Handout(fs.chain), b)
                            == Times(Handout(fs'.chain), b) + (if r != SYSERR && r == b then 1 else 0))
  {
    hide Handout, Held, Times, Agree, ChainOk, Get, OnDisk, Lists, FilesOk, Listed, OneOwner;
    var (r, fs') := Pop(fs);
    if fs.chain != [] {
      GetPops(fs.chain, max);
      GetKeepsAgreement(fs.blocks, fs.chain, 1, max);
      HandoutDistinct(fs, total);
      FirstIsFree(fs.chain);
      var b0 := Get(fs.chain).0;
      assert Handout(fs.chain)[0] == b0 && b0 in Handout(fs.chain);
      forall b ensures Times(Handout(fs.chain), b) == Times(Handout(fs'.chain), b) + (if r == b then 1 else 0) {
        TimesAppend([b0], Handout(fs'.chain), b);
        TimesOne(b0, b);
      }
    }
  }

  /** The first collector's own block is free. */
  lemma FirstIsFree(chain: seq<FNode>)
    requires chain != []
    ensures chain[0].blk in Handout(chain)
  {
    hide Later, Rev, Live;
    assert Handout(chain)[|Handout(chain)| - 1] == chain[0].blk;
  }

  /** fileClose writes the file's own block and the directory, neither of which the free list uses. */
  lemma CloseStep(fs: Fs, fd: int, max: nat, total: int)
    requires Good(fs, max, total) && Allowed(fs, OpClose(fd))
    ensures var fs' := Close(fs, fd).1;
            && Good(fs', max, total) && (forall b :: Owners(fs', b) == Owners(fs, b))
            && (!NoFile(fs, fd) ==> Listed(fs') == fs'.files && AllListed(fs'))
  {
    hide Handout, Held, Times, Agree, ChainOk, Good, FileOk, Closed;
    GoodParts(fs, max, total);
    if !NoFile(fs, fd) {
      var f := fs.files[fd];
      assert FileOk(f, total);
      ClosedOk(f, total);
      var g := Closed(f);
      SaveKeeps(fs, fd, max, total);
      var fs' := Close(fs, fd).1;
      forall b ensures Owners(fs', b) == Owners(fs, b) {
        HeldUpdate(fs.files, fd, g, b);
        HeldOne(g, b);
        HeldOne(f, b);
      }
      MakeGood(fs', max, total);
    }
  }

  lemma SaveKeeps(fs: Fs, fd: int, max: nat, total: int)
    requires Good(fs, max, total) && Allowed(fs, OpClose(fd)) && !NoFile(fs, fd)
    ensures var fs' := Close(fs, fd).1;
            && |fs'.blocks| == total && Agree(fs'.blocks, fs.chain, 1) && WholeBlocks(fs'.blocks)
            && Listed(fs') == fs'.files && fs'.blocks[1] == DirRecord(1, fs'.files)
  {
    hide Handout, Held, Times, ChainOk, OnDisk, Blks, Lists, Closed;
    var f, fs' := fs.files[fd], Close(fs, fd).1;
    var files := fs'.files;
    assert FileOk(f, total);
    StateBits(f.state);
    NotCollector(fs, 1, total);
    if f.state & FILE_DIRTY != 0 {
      DirtyIsLoaded(f.state);
      HeldAt(fs.files, fd);
      NotFreeIfHeld(fs, total, f.blocknum);
      NotCollector(fs, f.blocknum, total);
      OnDiskFrame(fs.blocks, fs.chain, f.blocknum, Bytes(f.data.bytes));
    }
    OnDiskFrame(SaveData(fs.blocks, f), fs.chain, 1, DirRecord(1, files));
  }

  lemma DirtyIsLoaded(s: bv8)
    requires s & FILE_DIRTY != 0
    ensures s & (FILE_OPEN | FILE_DIRTY) != 0
  {
  }

  /** A block that is not free holds no collector. */
  lemma NotCollector(fs: Fs, b: int, total: int)
    requires OneOwner(fs, total) && (b < 2 || b !in Handout(fs.chain))
    ensures b !in Blks(fs.chain)
  {
    hide Handout, Blks, Times;
    BlksAreFree(fs.chain, b);
    assert Owners(fs, b) <= Once(2, b, total);
    if b in Blks(fs.chain) {
      var k :| 0 <= k < |Blks(fs.chain)| && Blks(fs.chain)[k] == b;
      TimesIn(Blks(fs.chain), k);
      OccursAt(Handout(fs.chain), b);
    }
  }

  /** Reading an older directory back never gives a block a second owner; it takes one away from exactly the
      blocks of used files that are not listed. */
  lemma {:induction false} ReadBackHeld(listed: seq<FileNode>, files: seq<FileNode>, b: int)
    requires Lists(listed, files)
    requires forall i | 0 <= i < |listed| :: listed[i].state & FILE_USED != 0 || listed[i].state == FILE_FREE
    ensures Held(ReadBackAll(listed), b) <= Held(files, b)
    ensures Held(ReadBackAll(listed), b) == Held(files, b)
            <==> forall i | 0 <= i < |files| && Holds(files[i], b) :: listed[i].state != FILE_FREE
  {
    if listed == [] {
    } else {
      var rest, more := listed[1..], files[1..];
      assert Lists(rest, more) by {
        forall i | 0 <= i < |more| && rest[i].state != FILE_FREE
          ensures more[i].state != FILE_FREE && more[i].blocknum == rest[i].blocknum
        {
          assert rest[i] == listed[i + 1] && more[i] == files[i + 1];
        }
      }
      ReadBackHeld(rest, more, b);
      StateBits(listed[0].state);
      assert ReadBackAll(listed)[1..] == ReadBackAll(rest);
      forall i | 0 <= i < |files| && i > 0 ensures files[i] == more[i - 1] && listed[i] == rest[i - 1] {}
      if forall i | 0 <= i < |files| && Holds(files[i], b) :: listed[i].state != FILE_FREE {
        forall i | 0 <= i < |more| && Holds(more[i], b) ensures rest[i].state != FILE_FREE {
          assert files[i + 1] == more[i];
        }
      }
    }
  }

  /** After a remount no block has two owners, and those that lost theirs are the blocks of unlisted files. */
  lemma RemountStep(fs: Fs, max: nat, total: int)
    requires Good(fs, max, total)
    ensures var fs' := Remount(fs);
            && Good(fs', max, total) && (forall b :: Owners(fs', b) <= Owners(fs, b))
            && ((forall b :: Owners(fs', b) == Owners(fs, b)) <==> AllListed(fs))
  {
    hide Handout, Held, Times, Agree, ChainOk, Good, FileOk, Listed;
    GoodParts(fs, max, total);
    var listed, fs' := Listed(fs), Remount(fs);
    SameListed(fs, fs');
    forall i | 0 <= i < |listed| ensures FileOk(ReadBack(listed[i]), total)
      && (listed[i].state & FILE_USED != 0 || listed[i].state == FILE_FREE)
      && (listed[i].state != FILE_FREE ==> ReadBack(listed[i]).state != FILE_FREE)
    {
      ReadBackOk(listed[i], total);
    }
    forall b ensures Owners(fs', b) <= Owners(fs, b)
      && (Owners(fs', b) == Owners(fs, b) <==> AllListedAt(fs, b))
    {
      ReadBackHeld(listed, fs.files, b);
    }
    ListedBlocks(fs);
    forall b ensures Owners(fs', b) <= Once(2, b, total) { assert Owners(fs, b) <= Once(2, b, total); }
    MakeGood(fs', max, total);
  }

  lemma ReadBackOk(f: FileNode, total: int)
    requires FileOk(f, total)
    ensures FileOk(ReadBack(f), total) && (f.state & FILE_USED != 0 || f.state == FILE_FREE)
    ensures f.state != FILE_FREE ==> ReadBack(f).state != FILE_FREE
  {
    StateBits(f.state);
  }

  predicate AllListedAt(fs: Fs, b: int) {
    forall i | 0 <= i < |fs.files| && i < |Listed(fs)| && Holds(fs.files[i], b) :: Listed(fs)[i].state != FILE_FREE
  }

  lemma ListedBlocks(fs: Fs)
    ensures AllListed(fs) <==> forall b :: AllListedAt(fs, b)
  {
    hide Listed;
    if forall b :: AllListedAt(fs, b) {
      forall i | 0 <= i < |fs.files| && i < |Listed(fs)| && HasBlock(fs.files[i])
        ensures Listed(fs)[i].state != FILE_FREE
      {
        assert AllListedAt(fs, fs.files[i].blocknum);
      }
    }
  }

  function Run(fs: Fs, ops: seq<Op>): Fs
    decreases |ops|
  {
    if ops == [] then fs else Run(Apply(fs, ops[0]), ops[1..])
  }

  predicate RunAllowed(fs: Fs, ops: seq<Op>)
    decreases |ops|
  {
    ops != [] ==> Allowed(fs, ops[0]) && RunAllowed(Apply(fs, ops[0]), ops[1..])
  }

  /** Every remount of the run finds all files in the directory. */
  predicate RemountsListed(fs: Fs, ops: seq<Op>)
    decreases |ops|
  {
    ops != [] ==>
      (ops[0].OpRemount? ==> AllListed(fs)) && RemountsListed(Apply(fs, ops[0]), ops[1..])
  }

  lemma OneStep(fs: Fs, op: Op, max: nat, total: int)
    requires Good(fs, max, total) && Allowed(fs, op)
    ensures Good(Apply(fs, op), max, total) && forall b :: Owners(Apply(fs, op), b) <= Owners(fs, b)
    ensures (forall b :: Owners(Apply(fs, op), b) == Owners(fs, b)) <==> (op.OpRemount? ==> AllListed(fs))
  {
    hide Good, Owners, Create, Open, Seek, PutChar, GetChar, Close, Remount, AllListed;
    match op {
      case OpCreate(name, junk) => CreateStep(fs, name, junk, max, total);
      case OpOpen(name, raw) => OpenStep(fs, name, raw, max, total);
      case OpClose(fd) => CloseStep(fs, fd, max, total);
      case OpRemount => RemountStep(fs, max, total);
      case _ => SeekPutGetStep(fs, op, max, total);
    }
  }

  /** Along a run owners are only ever lost, and only by remounts that miss a file. */
  lemma {:induction false} RunOwners(fs: Fs, ops: seq<Op>, max: nat, total: int)
    requires Good(fs, max, total) && RunAllowed(fs, ops)
    ensures Good(Run(fs, ops), max, total) && forall b :: Owners(Run(fs, ops), b) <= Owners(fs, b)
    ensures (forall b :: Owners(Run(fs, ops), b) == Owners(fs, b)) <==> RemountsListed(fs, ops)
    decreases |ops|
  {
    hide Good, Owners, Apply, Allowed, AllListed;
    if ops == [] {
    } else {
      var fs1 := Apply(fs, ops[0]);
      OneStep(fs, ops[0], max, total);
      RunOwners(fs1, ops[1..], max, total);
      if forall b :: Owners(Run(fs, ops), b) == Owners(fs, b) {
        forall b ensures Owners(fs1, b) == Owners(fs, b) {
          assert Owners(Run(fs, ops), b) <= Owners(fs1, b) <= Owners(fs, b);
        }
      }
    }
  }

  /** What a call returns to its caller. */
  function Result(fs: Fs, op: Op): int {
    match op
    case OpCreate(name, junk) => Create(fs, name, junk).0
    case OpOpen(name, raw) => Open(fs, name, raw).0
    case OpSeek(fd, offset) => Seek(fs, fd, offset).0
    case OpPut(fd, c) => PutChar(fs, fd, c).0
    case OpGet(fd) => GetChar(fs, fd).0
    case OpClose(fd) => Close(fs, fd).0
    case OpRemount => OK
  }

  function Results(fs: Fs, ops: seq<Op>): (r: seq<int>)
    ensures |r| == |ops|
    decreases |ops|
  {
    if ops == [] then [] else [Result(fs, ops[0])] + Results(Apply(fs, ops[0]), ops[1..])
  }

  predicate Creates(op: Op, result: int) {
    op.OpCreate? && result != SYSERR
  }

  predicate Saves(op: Op, result: int) {
    op.OpClose? && result == OK
  }

  /** A fileCreate that returned a descriptor, and a remount after it with no successful fileClose, of whatever file, in
      between.  This is a property of the calls and what they returned. */
  predicate Unsaved(ops: seq<Op>, results: seq<int>, i: int, k: int)
    requires |results| == |ops|
  {
    && 0 <= i < k < |ops| && Creates(ops[i], results[i]) && ops[k].OpRemount?
    && forall j | i < j < k :: !Saves(ops[j], results[j])
  }

  ghost predicate NoneUnsaved(ops: seq<Op>, results: seq<int>)
    requires |results| == |ops|
  {
    forall i, k :: !Unsaved(ops, results, i, k)
  }

  /** A remount with no successful fileClose before it. */
  predicate Early(ops: seq<Op>, results: seq<int>, k: int)
    requires |results| == |ops|
  {
    0 <= k < |ops| && ops[k].OpRemount? && forall j | 0 <= j < k :: !Saves(ops[j], results[j])
  }

  ghost predicate NoneEarly(ops: seq<Op>, results: seq<int>)
    requires |results| == |ops|
  {
    forall k :: !Early(ops, results, k)
  }

  function ListedAfter(op: Op, result: int, listed: bool): bool {
    if Creates(op, result) then false else if Saves(op, result) || op.OpRemount? then true else listed
  }

  /** A successful create leaves a file that is not in the directory on disk; a successful close or a remount leaves
      none; every other call leaves that as it was. */
  lemma ListedStep(fs: Fs, op: Op, max: nat, total: int)
    requires Good(fs, max, total) && Allowed(fs, op)
    ensures AllListed(Apply(fs, op)) == ListedAfter(op, Result(fs, op), AllListed(fs))
  {
    hide Good, Agree, ChainOk, Get, GetWrites, SeekIn, PutIn, GetIn, Open, Close, Listed;
    match op {
      case OpCreate(name, junk) => CreateListed(fs, name, junk, max, total);
      case OpOpen(name, raw) => OpenListed(fs, name, raw, max, total);
      case OpClose(fd) => CloseListed(fs, fd, max, total);
      case OpRemount => RemountListed(fs, max, total);
      case _ => OneFileListed(fs, op, max, total);
    }
  }

  lemma CreateListed(fs: Fs, name: string, junk: seq<int>, max: nat, total: int)
    requires Good(fs, max, total)
    ensures var (r, fs') := Create(fs, name, junk);
            AllListed(fs') == if r != SYSERR then false else AllListed(fs)
  {
    hide Agree, ChainOk, OneOwner, Listed, FileOk, GetWrites, Get;
    var fd := FreeSlot(fs.files, 0);
    if fd < |fs.files| {
      PopStep(fs, max, total);
      var fs' := Create(fs, name, junk).1;
      SameListed(fs, fs');
      assert Listed(fs)[fd].state == FILE_FREE;
      forall i | 0 <= i < |fs.files| && i != fd ensures fs'.files[i] == fs.files[i] {}
    }
  }

  /** Replacing a used file by one with the same block, on the same disk. */
  lemma SwapListed(fs: Fs, fd: nat, f: FileNode)
    requires fd < |fs.files| && HasBlock(f) == HasBlock(fs.files[fd])
    ensures AllListed(fs.(files := fs.files[fd := f])) == AllListed(fs)
  {
    hide Listed, HasBlock;
    var fs' := fs.(files := fs.files[fd := f]);
    assert Listed(fs') == Listed(fs) by { SameDisk(fs, fs'); }
    forall i | 0 <= i < |fs.files| ensures HasBlock(fs'.files[i]) == HasBlock(fs.files[i]) {
    }
  }

  lemma SameDisk(fs: Fs, fs': Fs)
    requires fs'.blocks == fs.blocks && fs'.dir == fs.dir
    ensures Listed(fs') == Listed(fs)
  {
  }

  lemma OneFileListed(fs: Fs, op: Op, max: nat, total: int)
    requires Good(fs, max, total) && Allowed(fs, op) && (op.OpSeek? || op.OpPut? || op.OpGet?)
    ensures AllListed(Apply(fs, op)) == AllListed(fs)
  {
    hide Good, SeekIn, PutIn, GetIn, FileOk, AllListed;
    GoodParts(fs, max, total);
    if !NoFile(fs, op.fd) {
      var f := fs.files[op.fd];
      assert FileOk(f, total);
      match op {
        case OpSeek(fd, offset) =>
          SeekGetOk(f, offset, total);
          SwapListed(fs, fd, SeekIn(f, offset).1);
        case OpPut(fd, c) =>
          PutOk(f, c, total);
          SwapListed(fs, fd, PutIn(f, c).1);
        case OpGet(fd) =>
          SeekGetOk(f, 0, total);
          SwapListed(fs, fd, GetIn(f).1);
      }
    }
  }

  lemma OpenListed(fs: Fs, name: string, raw: seq<int>, max: nat, total: int)
    requires Good(fs, max, total)
    ensures AllListed(Open(fs, name, raw).1) == AllListed(fs)
  {
    hide Good, AllListed;
    var fd := NamedSlot(fs.files, name, 0);
    if fd < |fs.files| && fs.files[fd].state & FILE_OPEN == 0 {
      var f := fs.files[fd];
      StateBits(f.state);
      StateBits(f.state | FILE_OPEN);
      var data := Loaded(Content(fs.blocks, f.blocknum, raw));
      SwapListed(fs, fd, f.(data := data, state := f.state | FILE_OPEN, cursor := 0));
    }
  }

  lemma CloseListed(fs: Fs, fd: int, max: nat, total: int)
    requires Good(fs, max, total) && Allowed(fs, OpClose(fd))
    ensures var (r, fs') := Close(fs, fd);
            AllListed(fs') == if r == OK then true else AllListed(fs)
  {
    hide Good, AllListed;
    CloseStep(fs, fd, max, total);
  }

  lemma RemountListed(fs: Fs, max: nat, total: int)
    requires Good(fs, max, total)
    ensures AllListed(Remount(fs))
  {
    hide Good, FileOk, Listed;
    GoodParts(fs, max, total);
    SameDisk(fs, Remount(fs));
    forall i | 0 <= i < |Listed(fs)| && HasBlock(Remount(fs).files[i]) ensures Listed(fs)[i].state != FILE_FREE {
      NotUsedIfFree(Listed(fs)[i].state);
    }
  }

  lemma NotUsedIfFree(s: bv8)
    ensures s == FILE_FREE ==> s & FILE_USED == FILE_FREE
  {
  }

  /** The directory's state along a run, kept by the caller from what the calls return. */
  predicate RemountsSafe(ops: seq<Op>, results: seq<int>, listed: bool)
    requires |results| == |ops|
    decreases |ops|
  {
    ops != [] ==>
      (ops[0].OpRemount? ==> listed) && RemountsSafe(ops[1..], results[1..], ListedAfter(ops[0], results[0], listed))
  }

  lemma {:induction false} RemountsSafeIs(fs: Fs, ops: seq<Op>, max: nat, total: int)
    requires Good(fs, max, total) && RunAllowed(fs, ops)
    ensures RemountsListed(fs, ops) == RemountsSafe(ops, Results(fs, ops), AllListed(fs))
    decreases |ops|
  {
    hide Good, Owners, Apply, Allowed, AllListed, Result, ListedAfter;
    if ops == [] {
    } else {
      OneStep(fs, ops[0], max, total);
      ListedStep(fs, ops[0], max, total);
      RemountsSafeIs(Apply(fs, ops[0]), ops[1..], max, total);
      assert Results(fs, ops)[1..] == Results(Apply(fs, ops[0]), ops[1..]);
    }
  }

  lemma {:induction false} RemountsSafeIff(ops: seq<Op>, results: seq<int>, listed: bool)
    requires |results| == |ops|
    ensures RemountsSafe(ops, results, listed) <==> NoneUnsaved(ops, results) && (listed || NoneEarly(ops, results))
    decreases |ops|
  {
    hide NoneUnsaved, NoneEarly, Creates, Saves;
    if ops == [] {
      NoCalls(ops, results);
    } else {
      RemountsSafeIff(ops[1..], results[1..], ListedAfter(ops[0], results[0], listed));
      FirstCall(ops, results);
      OneKind(ops[0], results[0]);
    }
  }

  lemma OneKind(op: Op, result: int)
    ensures Creates(op, result) ==> op.OpCreate?
    ensures Saves(op, result) ==> op.OpClose?
  {
  }

  lemma NoCalls(ops: seq<Op>, results: seq<int>)
    requires ops == [] && results == []
    ensures NoneUnsaved(ops, results) && NoneEarly(ops, results)
  {
  }

  lemma FirstCall(ops: seq<Op>, results: seq<int>)
    requires |results| == |ops| > 0
    ensures var rest, more := ops[1..], results[1..];
            && (NoneEarly(ops, results)
                <==> !ops[0].OpRemount? && (Saves(ops[0], results[0]) || NoneEarly(rest, more)))
            && (NoneUnsaved(ops, results)
                <==> NoneUnsaved(rest, more) && (Creates(ops[0], results[0]) ==> NoneEarly(rest, more)))
  {
    hide Creates, Saves;
    var rest, more := ops[1..], results[1..];
    forall k ensures Early(ops, results, k)
      <==> (k == 0 && ops[0].OpRemount?) || (k > 0 && !Saves(ops[0], results[0]) && Early(rest, more, k - 1))
    {
      EarlyShift(ops, results, k);
    }
    forall i, k ensures Unsaved(ops, results, i, k)
      <==> (i == 0 && Creates(ops[0], results[0]) && Early(rest, more, k - 1))
           || (i > 0 && Unsaved(rest, more, i - 1, k - 1))
    {
      UnsavedShift(ops, results, i, k);
    }
    if !NoneEarly(rest, more) {
      var k :| Early(rest, more, k);
      assert k == (k + 1) - 1;
      assert Early(ops, results, k + 1) <==> !Saves(ops[0], results[0]);
      assert Unsaved(ops, results, 0, k + 1) <==> Creates(ops[0], results[0]);
    }
    if !NoneUnsaved(rest, more) {
      var i, k :| Unsaved(rest, more, i, k);
      assert i == (i + 1) - 1 && k == (k + 1) - 1;
      assert Unsaved(ops, results, i + 1, k + 1);
    }
    assert Early(ops, results, 0) <==> ops[0].OpRemount?;
  }

  lemma EarlyShift(ops: seq<Op>, results: seq<int>, k: int)
    requires |results| == |ops| > 0
    ensures Early(ops, results, k)
            <==> (k == 0 && ops[0].OpRemount?)
                 || (k > 0 && !Saves(ops[0], results[0]) && Early(ops[1..], results[1..], k - 1))
  {
    hide Saves;
    var rest, more := ops[1..], results[1..];
    if 0 < k < |ops| {
      assert ops[k] == rest[k - 1];
      forall j | 0 < j < k ensures Saves(ops[j], results[j]) == Saves(rest[j - 1], more[j - 1]) {
      }
      if Early(rest, more, k - 1) && !Saves(ops[0], results[0]) {
        forall j | 0 <= j < k ensures !Saves(ops[j], results[j]) {
          if j > 0 {
            assert !Saves(rest[j - 1], more[j - 1]);
          }
        }
      }
      if Early(ops, results, k) {
        forall j | 0 <= j < k - 1 ensures !Saves(rest[j], more[j]) {
          assert !Saves(ops[j + 1], results[j + 1]);
        }
      }
    }
  }

  lemma UnsavedShift(ops: seq<Op>, results: seq<int>, i: int, k: int)
    requires |results| == |ops| > 0
    ensures Unsaved(ops, results, i, k)
            <==> (i == 0 && Creates(ops[0], results[0]) && Early(ops[1..], results[1..], k - 1))
                 || (i > 0 && Unsaved(ops[1..], results[1..], i - 1, k - 1))
  {
    hide Saves, Creates;
    var rest, more := ops[1..], results[1..];
    if 0 <= i < k < |ops| {
      assert ops[k] == rest[k - 1] && (i > 0 ==> ops[i] == rest[i - 1] && results[i] == more[i - 1]);
      if forall j | i < j < k :: !Saves(ops[j], results[j]) {
        forall j | i - 1 < j < k - 1 && j >= 0 ensures !Saves(rest[j], more[j]) {
          assert !Saves(ops[j + 1], results[j + 1]);
        }
      }
      if forall j | i - 1 < j < k - 1 && j >= 0 :: !Saves(rest[j], more[j]) {
        forall j | i < j < k ensures !Saves(ops[j], results[j]) {
          assert !Saves(rest[j - 1], more[j - 1]);
        }
      }
    }
  }

  /** Over every run of create, open, seek, put, get, close and remount: memory and disk agree, no block ever has
      two owners, and no block is lost exactly when no remount comes after a successful create with no successful
      close in between (nor, if a file was missing from the directory to begin with, before any such close). */
  lemma RunsKeepOwnership(fs: Fs, ops: seq<Op>, max: nat, total: int)
    requires Good(fs, max, total) && RunAllowed(fs, ops)
    ensures Good(Run(fs, ops), max, total) && forall b :: Owners(Run(fs, ops), b) <= Owners(fs, b)
    ensures (forall b :: Owners(Run(fs, ops), b) == Owners(fs, b))
            <==> NoneUnsaved(ops, Results(fs, ops)) && (AllListed(fs) || NoneEarly(ops, Results(fs, ops)))
  {
    hide Good, Owners, AllListed, Results, RemountsListed, RemountsSafe, NoneUnsaved, NoneEarly, RunAllowed, Run;
    RunOwners(fs, ops, max, total);
    RemountsSafeIs(fs, ops, max, total);
    RemountsSafeIff(ops, Results(fs, ops), AllListed(fs));
  }

  /** ... so a run that starts with nothing lost ends so exactly then; from a fresh disk, where all files are in the
      directory, exactly when no remount comes after a successful create with no successful close in between. */
  lemma WholeIff(fs: Fs, ops: seq<Op>, max: nat, total: int)
    requires Good(fs, max, total) && Whole(fs, total) && RunAllowed(fs, ops)
    ensures Whole(Run(fs, ops), total)
            <==> NoneUnsaved(ops, Results(fs, ops)) && (AllListed(fs) || NoneEarly(ops, Results(fs, ops)))
    ensures AllListed(fs) ==> (Whole(Run(fs, ops), total) <==> NoneUnsaved(ops, Results(fs, ops)))
  {
    hide Good, Owners, AllListed, Results, NoneUnsaved, NoneEarly, RunAllowed, Run;
    RunsKeepOwnership(fs, ops, max, total);
    if Whole(Run(fs, ops), total) {
      forall b ensures Owners(Run(fs, ops), b) == Owners(fs, b) {
        assert Owners(Run(fs, ops), b) == Once(2, b, total) == Owners(fs, b);
      }
    }
    if NoneUnsaved(ops, Results(fs, ops)) && (AllListed(fs) || NoneEarly(ops, Results(fs, ops))) {
      forall b ensures Owners(Run(fs, ops), b) == Once(2, b, total) {
        assert Owners(Run(fs, ops), b) == Owners(fs, b) == Once(2, b, total);
      }
    }
  }

  /** Closing a file again writes nothing new and changes nothing. */
  lemma CloseTwice(fs: Fs, fd: int, max: nat, total: int)
    requires Good(fs, max, total) && Allowed(fs, OpClose(fd))
    ensures var (r, fs') := Close(fs, fd); Close(fs', fd) == (r, fs')
  {
    hide Agree, ChainOk, OneOwner, Lists, FileOk, Listed;
    if !NoFile(fs, fd) {
      var f := fs.files[fd];
      assert FileOk(f, total);
      ClosedOk(f, total);
      ClosedState(f.state);
      var g, fs' := Closed(f), Close(fs, fd).1;
      assert Closed(g) == g && fs'.files[fd := g] == fs'.files;
      assert SaveData(fs'.blocks, g) == fs'.blocks;
      assert fs'.blocks[1] == DirRecord(1, fs'.files) && fs'.blocks[1 := fs'.blocks[1]] == fs'.blocks;
    }
  }

  lemma ClosedState(s: bv8)
    ensures (s & !FILE_DIRTY & !FILE_OPEN) & !FILE_DIRTY & !FILE_OPEN == s & !FILE_DIRTY & !FILE_OPEN
    ensures (s & !FILE_DIRTY & !FILE_OPEN) & FILE_DIRTY == 0
  {
  }

  /** Opening a file again finds it open: the same descriptor, and cursor and unsaved text stay. */
  lemma OpenTwice(fs: Fs, name: string, raw: seq<int>, raw': seq<int>)
    ensures var (fd, fs') := Open(fs, name, raw); Open(fs', name, raw') == (fd, fs')
  {
    hide Content, ShortName;
    var fd := NamedSlot(fs.files, name, 0);
    if fd < |fs.files| {
      var f := fs.files[fd];
      OpenState(f.state);
      var fs' := Open(fs, name, raw).1;
      forall i | 0 <= i < |fs.files| ensures Matches(fs'.files[i], name) == Matches(fs.files[i], name) {
      }
      assert NamedSlot(fs'.files, name, 0) == fd;
    }
  }

  lemma OpenState(s: bv8)
    ensures (s | FILE_OPEN) & FILE_USED == s & FILE_USED && (s | FILE_OPEN) & FILE_OPEN != 0
  {
  }
}
