/** Text that has been written back: what keeps it on disk and in its file over runs of other calls, and how it comes
    back over text that was put after the close. */
module SavedFiles {
  import opened FreeChain
  import opened DiskImage
  import opened Files
  import opened FileRuns
  import opened RoundTrip
  import opened Status

  /** This call writes a file's buffer to block b. */
  predicate WritesBack(fs: Fs, op: Op, b: int) {
    op.OpClose? && !NoFile(fs, op.fd) && fs.files[op.fd].state & FILE_DIRTY != 0 && fs.files[op.fd].blocknum == b
  }

  predicate NeverWritten(fs: Fs, ops: seq<Op>, b: int)
    decreases |ops|
  {
    ops != [] ==> !WritesBack(fs, ops[0], b) && NeverWritten(Apply(fs, ops[0]), ops[1..], b)
  }

  lemma GetWritesElsewhere(blocks: Blocks, chain: seq<FNode>, dir: int, b: int)
    requires chain != [] && 0 < b < |blocks| && b != chain[0].blk
    ensures |GetWrites(blocks, chain, dir)| == |blocks| && GetWrites(blocks, chain, dir)[b] == blocks[b]
  {
  }

  /** One call that does not write a file to block b leaves a block that is not free alone, and does not free it. */
  lemma BlockStep(fs: Fs, op: Op, b: int, max: nat, total: int)
    requires Good(fs, max, total) && Allowed(fs, op) && 2 <= b < total && b !in Handout(fs.chain)
    requires !WritesBack(fs, op, b)
    ensures var fs' := Apply(fs, op);
            |fs'.blocks| == total && fs'.blocks[b] == fs.blocks[b] && b !in Handout(fs'.chain)
  {
    hide Handout, Agree, ChainOk, Get, GetWrites, OneOwner, FilesOk, Lists, Listed, SeekIn, PutIn, GetIn;
    match op {
      case OpCreate(name, junk) =>
        if FreeSlot(fs.files, 0) < |fs.files| && fs.chain != [] {
          FirstIsFree(fs.chain);
          GetWritesElsewhere(fs.blocks, fs.chain, fs.dir, b);
          PopStep(fs, max, total);
        }
      case _ =>
    }
  }

  /** The bytes in a block that is not free stay over every run, remounts included, in which no close writes a file back
      to it; whether or not a file still has the block at the end. */
  lemma {:induction false} BlockStays(fs: Fs, ops: seq<Op>, b: int, max: nat, total: int)
    requires Good(fs, max, total) && RunAllowed(fs, ops) && 2 <= b < total && b !in Handout(fs.chain)
    requires NeverWritten(fs, ops, b)
    ensures var fs' := Run(fs, ops);
            |fs'.blocks| == total && fs'.blocks[b] == fs.blocks[b] && b !in Handout(fs'.chain)
    decreases |ops|
  {
    hide Good, Handout, Apply, Allowed, WritesBack;
    if ops == [] {
      GoodParts(fs, max, total);
    } else {
      BlockStep(fs, ops[0], b, max, total);
      OneStep(fs, ops[0], max, total);
      BlockStays(Apply(fs, ops[0]), ops[1..], b, max, total);
      GoodParts(fs, max, total);
    }
  }

  /** What a file looks like once its text is on disk. */
  datatype Saved = Saved(b: int, name: string, length: int, data: seq<int>)

  /** The entries of file fd in memory and in the directory on disk. */
  predicate Entries(f: FileNode, listed: FileNode, t: Saved) {
    && SameText(f, t) && SameText(listed, t)
    && f.state & FILE_DIRTY == 0 && (f.data.Loaded? ==> f.data.bytes == t.data)
  }

  predicate IsSaved(fs: Fs, fd: int, t: Saved) {
    && 0 <= fd < |fs.files| && fd < |Listed(fs)| && 2 <= t.b < |fs.blocks|
    && fs.blocks[t.b] == Bytes(t.data) && t.b !in Handout(fs.chain)
    && Entries(fs.files[fd], Listed(fs)[fd], t)
  }

  predicate SameText(f: FileNode, t: Saved) {
    f.state & FILE_USED != 0 && f.blocknum == t.b && f.name == t.name && f.length == t.length
  }

  /** A successful close of a file with a block saves it. */
  lemma CloseSaves(fs: Fs, fd: int, max: nat, total: int)
    requires Good(fs, max, total) && !NoFile(fs, fd) && HasBlock(fs.files[fd]) && fs.files[fd].data.Loaded?
    requires fs.files[fd].state & FILE_DIRTY != 0 || fs.blocks[fs.files[fd].blocknum] == Bytes(fs.files[fd].data.bytes)
    ensures var f, fs' := fs.files[fd], Close(fs, fd).1;
            IsSaved(fs', fd, Saved(f.blocknum, f.name, f.length, f.data.bytes))
  {
    hide Handout, Agree, ChainOk, OneOwner, Lists, Listed, Owners;
    var f, fs' := fs.files[fd], Close(fs, fd).1;
    assert FileOk(f, total);
    HeldAt(fs.files, fd);
    NotFreeIfHeld(fs, total, f.blocknum);
    CloseStep(fs, fd, max, total);
    StateBits(f.state);
    CleanBits(f.state);
  }

  lemma CleanBits(s: bv8)
    ensures (s & !FILE_DIRTY & !FILE_OPEN) & FILE_DIRTY == 0
    ensures (s & FILE_USED) & FILE_DIRTY == 0
    ensures s & FILE_DIRTY == 0 ==> (s | FILE_OPEN) & FILE_DIRTY == 0
  {
  }

  /** Only a close of the file itself could write to its block, and that one has nothing to write. */
  lemma SavedNotWritten(fs: Fs, op: Op, fd: int, t: Saved, max: nat, total: int)
    requires Good(fs, max, total) && Allowed(fs, op) && IsSaved(fs, fd, t)
    ensures !WritesBack(fs, op, t.b)
  {
    hide Good, Handout, Listed, NoFile, BadFd;
    if WritesBack(fs, op, t.b) {
      GoodParts(fs, max, total);
      UsedFile(fs, op.fd);
      UsedBits(fs.files[fd].state);
      OwnershipMeans(fs, max, total);
    }
  }

  lemma UsedFile(fs: Fs, fd: int)
    ensures !NoFile(fs, fd) ==> 0 <= fd < |fs.files| && fs.files[fd].state != FILE_FREE
  {
  }

  lemma UsedBits(s: bv8)
    ensures s & FILE_USED != 0 ==> s != FILE_FREE && (s & FILE_USED) & FILE_USED != 0
    ensures s & FILE_USED != 0 ==> (s | FILE_OPEN) & FILE_USED != 0 && (s & !FILE_DIRTY & !FILE_OPEN) & FILE_USED != 0
  {
  }

  predicate Kept(fs: Fs, fd: int, t: Saved) {
    0 <= fd < |fs.files| && fd < |Listed(fs)| && Entries(fs.files[fd], Listed(fs)[fd], t)
  }

  lemma KeptByCreate(fs: Fs, name: string, junk: seq<int>, fd: int, t: Saved, max: nat, total: int)
    requires Good(fs, max, total) && IsSaved(fs, fd, t)
    ensures Kept(Create(fs, name, junk).1, fd, t)
  {
    hide Agree, ChainOk, Get, GetWrites, Handout, Listed, OneOwner, FilesOk, Lists;
    UsedBits(fs.files[fd].state);
    PopStep(fs, max, total);
    SameListed(fs, Create(fs, name, junk).1);
  }

  lemma KeptByOpen(fs: Fs, name: string, raw: seq<int>, fd: int, t: Saved)
    requires IsSaved(fs, fd, t)
    ensures Kept(Open(fs, name, raw).1, fd, t)
  {
    hide Handout, Listed, Matches;
    UsedBits(fs.files[fd].state);
    CleanBits(fs.files[fd].state);
    SameDisk(fs, Open(fs, name, raw).1);
  }

  lemma KeptByClose(fs: Fs, d: int, fd: int, t: Saved, max: nat, total: int)
    requires Good(fs, max, total) && Allowed(fs, OpClose(d)) && IsSaved(fs, fd, t)
    ensures Kept(Close(fs, d).1, fd, t)
  {
    hide Good, Handout, Listed, Owners, SaveData, SaveDirectory;
    UsedBits(fs.files[fd].state);
    CleanBits(fs.files[fd].state);
    CloseStep(fs, d, max, total);
  }

  lemma KeptByRemount(fs: Fs, fd: int, t: Saved)
    requires IsSaved(fs, fd, t) && |Listed(fs)| == |fs.files|
    ensures Kept(Remount(fs), fd, t)
  {
    hide Handout, Listed;
    UsedBits(Listed(fs)[fd].state);
    CleanBits(Listed(fs)[fd].state);
    SameDisk(fs, Remount(fs));
  }

  lemma KeptByOthers(fs: Fs, op: Op, fd: int, t: Saved)
    requires IsSaved(fs, fd, t) && (op.OpSeek? || op.OpGet? || (op.OpPut? && op.fd != fd))
    ensures Kept(Apply(fs, op), fd, t)
  {
    hide Handout, Listed;
    SameDisk(fs, Apply(fs, op));
  }

  /** What one call does to the entries of file fd. */
  lemma EntryStep(fs: Fs, op: Op, fd: int, t: Saved, max: nat, total: int)
    requires Good(fs, max, total) && Allowed(fs, op) && IsSaved(fs, fd, t) && !(op.OpPut? && op.fd == fd)
    ensures Kept(Apply(fs, op), fd, t)
  {
    hide Good, IsSaved, Kept, Create, Open, Close, Seek, PutChar, GetChar, Remount;
    GoodParts(fs, max, total);
    match op {
      case OpCreate(name, junk) => KeptByCreate(fs, name, junk, fd, t, max, total);
      case OpOpen(name, raw) => KeptByOpen(fs, name, raw, fd, t);
      case OpClose(d) => KeptByClose(fs, d, fd, t, max, total);
      case OpRemount => KeptByRemount(fs, fd, t);
      case _ => KeptByOthers(fs, op, fd, t);
    }
  }

  /** Every call but filePutChar on the file itself keeps it saved. */
  lemma SavedStep(fs: Fs, op: Op, fd: int, t: Saved, max: nat, total: int)
    requires Good(fs, max, total) && Allowed(fs, op) && IsSaved(fs, fd, t) && !(op.OpPut? && op.fd == fd)
    ensures IsSaved(Apply(fs, op), fd, t)
  {
    hide Good, Handout, Apply, Entries, WritesBack;
    GoodParts(fs, max, total);
    SavedNotWritten(fs, op, fd, t, max, total);
    BlockStep(fs, op, t.b, max, total);
    EntryStep(fs, op, fd, t, max, total);
  }

  predicate NeverPut(ops: seq<Op>, fd: int) {
    forall i | 0 <= i < |ops| :: !(ops[i].OpPut? && ops[i].fd == fd)
  }

  /** Over every run of other calls, remounts included, a saved file stays saved. */
  lemma {:induction false} RunsKeepSaved(fs: Fs, ops: seq<Op>, fd: int, t: Saved, max: nat, total: int)
    requires Good(fs, max, total) && RunAllowed(fs, ops) && IsSaved(fs, fd, t) && NeverPut(ops, fd)
    ensures Good(Run(fs, ops), max, total) && IsSaved(Run(fs, ops), fd, t)
    decreases |ops|
  {
    hide Good, IsSaved, Apply, Allowed, Owners;
    if ops == [] {
    } else {
      SavedStep(fs, ops[0], fd, t, max, total);
      OneStep(fs, ops[0], max, total);
      RunsKeepSaved(Apply(fs, ops[0]), ops[1..], fd, t, max, total);
    }
  }

  /** Opening a saved file by its name gives its text. */
  lemma SavedOpens(fs: Fs, fd: int, t: Saved, name: string, raw: seq<int>, max: nat, total: int)
    requires Good(fs, max, total) && IsSaved(fs, fd, t) && |raw| == DISKBLOCKLEN
    requires OnlyName(fs.files, fd) && ShortName(t.name) == ShortName(name)
    ensures var (r, fs') := Open(fs, name, raw);
            && r == fd && Opened(fs'.files[fd]) && |t.data| == DISKBLOCKLEN && t.length <= DISKBLOCKLEN
            && Text(fs'.files[fd]) == t.data[..t.length]
  {
    hide Good, Handout, Listed, ShortName;
    GoodParts(fs, max, total);
    var f := fs.files[fd];
    UsedBits(f.state);
    assert FileOk(f, total);
    forall i | 0 <= i < |fs.files| ensures Matches(fs.files[i], name) <==> i == fd {
      SameName(fs.files[i], f.name, name);
    }
    assert NamedSlot(fs.files, name, 0) == fd;
    OpenBit(f.state);
  }

  lemma OpenBit(s: bv8)
    ensures s & FILE_OPEN != 0 ==> s & (FILE_OPEN | FILE_DIRTY) != 0
  {
  }

  /** The text of a file that is closed comes back after any run of calls, remounts included, that puts nothing
      to it. */
  lemma SavedTextStays(fs: Fs, fd: int, ops: seq<Op>, name: string, raw: seq<int>, max: nat, total: int)
    requires Good(fs, max, total) && !NoFile(fs, fd) && HasBlock(fs.files[fd]) && Opened(fs.files[fd])
    requires fs.files[fd].state & FILE_DIRTY != 0 || fs.blocks[fs.files[fd].blocknum] == Bytes(fs.files[fd].data.bytes)
    requires RunAllowed(Close(fs, fd).1, ops) && NeverPut(ops, fd) && |raw| == DISKBLOCKLEN
    requires OnlyName(Run(Close(fs, fd).1, ops).files, fd) && ShortName(fs.files[fd].name) == ShortName(name)
    ensures var (r, fs') := Open(Run(Close(fs, fd).1, ops), name, raw);
            r == fd && Opened(fs'.files[fd]) && Text(fs'.files[fd]) == Text(fs.files[fd])
  {
    hide Good, IsSaved, Run, RunAllowed, Close, Open, Owners, Listed;
    var f, closed := fs.files[fd], Close(fs, fd).1;
    var t := Saved(f.blocknum, f.name, f.length, f.data.bytes);
    BlockPresent(fs, fd, max, total);
    CloseSaves(fs, fd, max, total);
    CloseStep(fs, fd, max, total);
    RunsKeepSaved(closed, ops, fd, t, max, total);
    SavedOpens(Run(closed, ops), fd, t, name, raw, max, total);
  }

  lemma BlockPresent(fs: Fs, fd: int, max: nat, total: int)
    requires Good(fs, max, total) && !NoFile(fs, fd) && HasBlock(fs.files[fd])
    ensures 0 <= fs.files[fd].blocknum < |fs.blocks|
  {
    assert FileOk(fs.files[fd], total);
  }

  /** When fileOpen discards text: a closed file still takes characters, but the next open reads the block again and
      keeps the longer length.  What was put is gone, unless it is what the block held anyway. */
  lemma PutAfterCloseIsLost(fs: Fs, fd: int, t: Saved, c: int, name: string, raw: seq<int>, max: nat, total: int)
    requires Good(fs, max, total) && IsSaved(fs, fd, t) && Opened(fs.files[fd]) && fs.files[fd].state & FILE_OPEN == 0
    requires OnlyName(fs.files, fd) && ShortName(t.name) == ShortName(name) && fs.files[fd].cursor < DISKBLOCKLEN
    ensures var f := fs.files[fd];
            var (r, put) := PutChar(fs, fd, c);
            var (r', fs') := Open(put, name, raw);
            var length := if f.cursor == f.length then f.length + 1 else f.length;
            && r == OK && r' == fd && Opened(put.files[fd]) && Opened(fs'.files[fd])
            && Text(put.files[fd])[f.cursor] == c && |Text(put.files[fd])| == length
            && Text(fs'.files[fd]) == t.data[..length]
            && (Text(fs'.files[fd]) == Text(put.files[fd]) <==> c == t.data[f.cursor])
  {
    hide Good, Handout, Listed, ShortName;
    var f := fs.files[fd];
    GoodParts(fs, max, total);
    UsedBits(f.state);
    PutBits(f.state);
    PutRefines(f, c);
    var put := PutChar(fs, fd, c).1;
    var g := put.files[fd];
    forall i | 0 <= i < |put.files| ensures Matches(put.files[i], name) <==> i == fd {
      SameName(put.files[i], f.name, name);
    }
    assert NamedSlot(put.files, name, 0) == fd;
    assert g.data.bytes == t.data[f.cursor := c];
    var text, now := t.data[..g.length], g.data.bytes[..g.length];
    assert text[f.cursor] == t.data[f.cursor] && now[f.cursor] == c && now == text[f.cursor := c];
  }

  lemma PutBits(s: bv8)
    ensures s & FILE_USED != 0 ==> (s | FILE_DIRTY) & FILE_USED != 0 && s != FILE_FREE
    ensures s & FILE_OPEN == 0 ==> (s | FILE_DIRTY) & FILE_OPEN == 0
  {
  }
}
