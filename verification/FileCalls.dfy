/** What single file calls and pairs of them do to one file, as their callers see it: finding a file by its name, a new
    file, seeking and then reading or writing, and what fileDelete leaves in memory and on disk. */
module FileCalls {
  import opened FreeChain
  import opened DiskImage
  import opened Files
  import opened FileRuns
  import opened RoundTrip
  import opened SavedFiles
  import opened Deletion
  import opened Status

  /** strncmp(a, b, n) == 0 */
  predicate EqualWithin(a: string, b: string, n: nat)
    decreases n
  {
    n == 0 || (a == b == "") || (a != "" && b != "" && a[0] == b[0] && EqualWithin(a[1..], b[1..], n - 1))
  }

  lemma {:induction false} EqualWithinIs(a: string, b: string, n: nat)
    ensures EqualWithin(a, b, n) <==> Take(a, n) == Take(b, n)
    decreases n
  {
    if n == 0 || a == "" || b == "" {
    } else {
      EqualWithinIs(a[1..], b[1..], n - 1);
      assert Take(a, n) == [a[0]] + Take(a[1..], n - 1);
      assert Take(b, n) == [b[0]] + Take(b[1..], n - 1);
    }
  }

  /** A used file whose name the source's comparison accepts. */
  predicate Named(f: FileNode, name: string) {
    f.state & FILE_USED != 0 && EqualWithin(f.name, name, 7)
  }

  lemma NamedIs(f: FileNode, name: string)
    ensures Matches(f, name) <==> Named(f, name)
  {
    EqualWithinIs(f.name, name, 7);
  }

  /** fileOpen fails, and changes nothing, exactly when no used file has the name; otherwise it returns the first that
      has, as it is if it was open already and else from the start of what its block holds. */
  lemma OpenFinds(fs: Fs, name: string, raw: seq<int>)
    ensures var (r, fs') := Open(fs, name, raw);
            && fs'.chain == fs.chain && fs'.blocks == fs.blocks && |fs'.files| == |fs.files|
            && (r == SYSERR <==> forall i | 0 <= i < |fs.files| :: !Named(fs.files[i], name))
            && (r == SYSERR ==> fs' == fs)
            && (r != SYSERR ==>
                  && 0 <= r < |fs.files| && Named(fs.files[r], name) && fs'.files[r].state & FILE_OPEN != 0
                  && (forall i | 0 <= i < r :: !Named(fs.files[i], name))
                  && (forall i | 0 <= i < |fs.files| && i != r :: fs'.files[i] == fs.files[i])
                  && (fs.files[r].state & FILE_OPEN != 0 ==> fs' == fs)
                  && (fs.files[r].state & FILE_OPEN == 0 ==>
                        fs'.files[r].cursor == 0
                        && fs'.files[r].data == Loaded(Content(fs.blocks, fs.files[r].blocknum, raw))))
  {
    hide Matches, Named, Content;
    forall i | 0 <= i < |fs.files| ensures Matches(fs.files[i], name) <==> Named(fs.files[i], name) {
      NamedIs(fs.files[i], name);
    }
    var fd := NamedSlot(fs.files, name, 0);
    if fd < |fs.files| {
      OpenState(fs.files[fd].state);
    }
  }

  /** fileCreate takes the first free slot for an empty, open file of that name, and nothing else in the table changes.
      It fails for want of a slot or of a block; in the second case the slot is taken all the same. */
  lemma CreateGives(fs: Fs, name: string, junk: seq<int>, max: nat, total: int)
    requires Good(fs, max, total) && |junk| == DISKBLOCKLEN
    ensures var (r, fs') := Create(fs, name, junk);
            var full := forall i | 0 <= i < |fs.files| :: fs.files[i].state != FILE_FREE;
            && (r == SYSERR <==> full || fs.chain == []) && (full ==> fs' == fs)
            && (!full ==>
                  exists fd :: 0 <= fd < |fs.files| == |fs'.files| && fs.files[fd].state == FILE_FREE
                    && (forall i | 0 <= i < fd :: fs.files[i].state != FILE_FREE)
                    && (forall i | 0 <= i < |fs.files| && i != fd :: fs'.files[i] == fs.files[i])
                    && (r == fd || r == SYSERR) && NewFile(fs'.files[fd], name) && HasBlock(fs'.files[fd]) == (r == fd))
  {
    hide Good, Handout, Agree, ChainOk, Get, GetWrites, Named;
    PopStep(fs, max, total);
    var fd := FreeSlot(fs.files, 0);
    if fd < |fs.files| {
      NewFileIs(name, junk, Pop(fs).0);
    }
  }

  /** An empty file, open under this name. */
  predicate NewFile(f: FileNode, name: string) {
    Named(f, name) && f.state & FILE_OPEN != 0 && Opened(f) && Text(f) == []
  }

  lemma NewFileIs(name: string, junk: seq<int>, b: int)
    requires |junk| == DISKBLOCKLEN
    ensures NewFile(FileNode(FILE_USED | FILE_OPEN, 0, 0, b, ShortName(name), Loaded(junk)), name)
  {
    EqualWithinIs(ShortName(name), name, 7);
  }

  /** Only file fd differs. */
  predicate OnlyFile(fs: Fs, fs': Fs, fd: int) {
    && fs'.chain == fs.chain && fs'.blocks == fs.blocks && fs'.dir == fs.dir && |fs'.files| == |fs.files|
    && forall i | 0 <= i < |fs.files| && i != fd :: fs'.files[i] == fs.files[i]
  }

  /** Seeking to a place inside the text and reading gives the character there. */
  lemma SeekThenGet(fs: Fs, fd: int, offset: int)
    requires !NoFile(fs, fd) && Opened(fs.files[fd])
    ensures var text := Text(fs.files[fd]);
            var (r, sought) := Seek(fs, fd, offset);
            var (c, fs') := GetChar(sought, fd);
            && r == (if 0 <= offset <= |text| && offset < DISKBLOCKLEN then OK else SYSERR)
            && (r == SYSERR ==> sought == fs) && OnlyFile(fs, sought, fd) && OnlyFile(fs, fs', fd)
            && Opened(fs'.files[fd]) && Text(fs'.files[fd]) == text
            && (r == OK ==> c == (if offset < |text| then text[offset] else SYSERR)
                            && fs'.files[fd].cursor == if offset < |text| then offset + 1 else offset)
  {
    hide SeekIn, GetIn;
    var f := fs.files[fd];
    SeekRefines(f, offset);
    SeekResult(f, offset);
    GetRefines(SeekIn(f, offset).1);
  }

  /** ... and writing replaces it, or appends at the end. */
  lemma SeekThenPut(fs: Fs, fd: int, offset: int, c: int)
    requires !NoFile(fs, fd) && Opened(fs.files[fd])
    ensures var text := Text(fs.files[fd]);
            var (r, sought) := Seek(fs, fd, offset);
            var (r', fs') := PutChar(sought, fd, c);
            OnlyFile(fs, fs', fd)
            && (r == OK ==>
                  && r' == OK && Opened(fs'.files[fd]) && fs'.files[fd].cursor == offset + 1
                  && fs'.files[fd].state & FILE_DIRTY != 0
                  && Text(fs'.files[fd]) == if offset < |text| then text[offset := c] else text + [c])
  {
    hide SeekIn, PutIn;
    var f := fs.files[fd];
    SeekRefines(f, offset);
    SeekResult(f, offset);
    PutRefines(SeekIn(f, offset).1, c);
    PutDirties(SeekIn(f, offset).1, c);
  }

  lemma SeekResult(f: FileNode, offset: int)
    ensures var (r, g) := SeekIn(f, offset); (r == OK || (r == SYSERR && g == f)) && g.state == f.state
  {
  }

  lemma PutDirties(f: FileNode, c: int)
    ensures var (r, g) := PutIn(f, c); r == OK ==> g.state & FILE_DIRTY != 0
  {
    DirtyState(f.state);
  }

  /** Which descriptors the calls take: 0 to 8, with a file behind them.  All others change nothing. */
  lemma DescriptorsTaken(fs: Fs, fd: int, offset: int, c: int)
    requires |fs.files| == DIRENTRIES
    ensures Close(fs, fd).0 == OK <==> 0 <= fd <= 8 && fs.files[fd].state != FILE_FREE
    ensures Close(fs, fd).0 != OK ==>
              Close(fs, fd) == Seek(fs, fd, offset) == GetChar(fs, fd) == PutChar(fs, fd, c) == (SYSERR, fs)
  {
  }

  /** After a remount no file is open or dirty, or in memory at all. */
  lemma RemountCloses(fs: Fs)
    ensures forall f | f in Remount(fs).files :: f.state & (FILE_OPEN | FILE_DIRTY) == 0 && !f.data.Loaded?
  {
    hide Listed;
    forall f | f in Remount(fs).files ensures f.state & (FILE_OPEN | FILE_DIRTY) == 0 && !f.data.Loaded? {
      var i :| 0 <= i < |Listed(fs)| && ReadBack(Listed(fs)[i]) == f;
      StateBits(Listed(fs)[i].state);
    }
  }

  /** A deleted file is gone from memory: no call reaches it by descriptor or name, and its slot can be given again. */
  lemma DeletedIsGone(fs: Fs, fd: int, junk: FNode, max: nat, name: string, raw: seq<int>, offset: int, c: int)
    requires 0 <= fd < |fs.files| == DIRENTRIES
    ensures var fs' := Delete(fs, fd, junk, max);
            && |fs'.files| == |fs.files| && (forall i | 0 <= i < |fs.files| && i != fd :: fs'.files[i] == fs.files[i])
            && Close(fs', fd) == Seek(fs', fd, offset) == GetChar(fs', fd) == PutChar(fs', fd, c) == (SYSERR, fs')
            && Open(fs', name, raw).0 != fd && FreeSlot(fs'.files, 0) <= fd
            && (Named(fs.files[fd], name) && OnlyName(fs.files, fd) ==> Open(fs', name, raw) == (SYSERR, fs'))
  {
    hide Put, FreeWrites, Named, Matches, ShortName;
    var fs' := Delete(fs, fd, junk, max);
    NamedIs(fs.files[fd], name);
    FreedHasNoName(fs.files[fd], name);
    if Matches(fs.files[fd], name) && OnlyName(fs.files, fd) {
      forall i | 0 <= i < |fs.files| ensures !Matches(fs'.files[i], name) {
        NameOf(fs.files[fd], name);
        SameName(fs.files[i], fs.files[fd].name, name);
      }
    }
  }

  lemma FreedHasNoName(f: FileNode, name: string)
    ensures Freed(f).state == FILE_FREE && !Matches(Freed(f), name)
  {
    NotUsedIfFree(FILE_FREE);
  }

  lemma NameOf(f: FileNode, name: string)
    ensures Matches(f, name) ==> ShortName(f.name) == ShortName(name)
  {
  }

  /** The block whose number is the descriptor is written, as a collector. */
  predicate Overwrites(fs: Fs, fd: int, max: nat) {
    Accepted(fd, max) && (fs.chain == [] || !Room(fs.chain))
  }

  /** What fileDelete writes to disk: the last collector, or the superblock and the block numbered by the descriptor. */
  lemma DeleteElsewhere(fs: Fs, fd: int, junk: FNode, max: nat, b: int)
    requires 0 < b < |fs.blocks| && b !in Handout(fs.chain) && (Overwrites(fs, fd, max) ==> b != fd)
    ensures var fs' := Delete(fs, fd, junk, max);
            |fs'.blocks| == |fs.blocks| && fs'.blocks[b] == fs.blocks[b] && fs'.dir == fs.dir
  {
    hide Handout, Put, Freed;
    if fs.chain != [] {
      LastIsFree(fs.chain);
    }
  }

  lemma LastIsFree(chain: seq<FNode>)
    requires chain != []
    ensures chain[|chain| - 1].blk in Handout(chain)
  {
    hide Handout, Times;
    var front, n := chain[..|chain| - 1], chain[|chain| - 1];
    assert chain == front + [n] && [n] == [n] + [];
    BlksAppend(front, [n]);
    BlksCons(n, []);
    assert Blks(chain) == Blks(front) + [n.blk];
    TimesIn(Blks(chain), |Blks(front)|);
    BlksAreFree(chain, n.blk);
    OccursAt(Handout(chain), n.blk);
  }

  /** fileDelete does not write the directory: a remount brings every deleted file back as it was there, unless a close
      of some file comes first. */
  lemma DeleteNeedsClose(fs: Fs, fd: int, junk: FNode, max: nat, total: int, d: int)
    requires Good(fs, max, total) && Deletable(fs, fd, max) && (Overwrites(fs, fd, max) ==> fd != 1)
    ensures var deleted := Delete(fs, fd, junk, max);
            && Remount(deleted).files == Remount(fs).files
            && (!NoFile(deleted, d) ==>
                  Close(deleted, d).0 == OK && Remount(Close(deleted, d).1).files[fd].state == FILE_FREE)
  {
    hide Handout, Agree, ChainOk, OneOwner, FileOk, Lists, Listed, Delete;
    DirectoryNotFree(fs, total);
    DeleteElsewhere(fs, fd, junk, max, 1);
    var deleted := Delete(fs, fd, junk, max);
    SameListed(fs, deleted);
    SameDirectory(fs, deleted);
    DeletedIsGone(fs, fd, junk, max, "", [], 0, 0);
    if !NoFile(deleted, d) {
      CloseLists(deleted, d);
      FreedHasNoName(fs.files[fd], "");
      DeletedSlot(fs, fd, junk, max);
    }
  }

  lemma DirectoryNotFree(fs: Fs, total: int)
    requires OneOwner(fs, total)
    ensures 1 !in Handout(fs.chain)
  {
    hide Handout;
    HandoutDistinct(fs, total);
  }

  lemma SameDirectory(fs: Fs, fs': Fs)
    requires Listed(fs') == Listed(fs)
    ensures Remount(fs').files == Remount(fs).files
  {
  }

  lemma DeletedSlot(fs: Fs, fd: int, junk: FNode, max: nat)
    requires 0 <= fd < |fs.files|
    ensures var files := Delete(fs, fd, junk, max).files; |files| == |fs.files| && files[fd].state == FILE_FREE
  {
  }

  lemma CloseLists(fs: Fs, d: int)
    requires !NoFile(fs, d) && fs.dir == 1 && |fs.blocks| > 1
    ensures var (r, fs') := Close(fs, d);
            && r == OK && |fs'.files| == |fs.files| && Listed(fs') == fs'.files
            && forall i | 0 <= i < |fs.files| && fs.files[i].state == FILE_FREE ::
                 Remount(fs').files[i].state == FILE_FREE
  {
    NotUsedIfFree(FILE_FREE);
  }

  /** ... with its text, if that was on disk: delete, remount and open by the name give it back. */
  lemma DeletedTextReturns(fs: Fs, fd: int, t: Saved, junk: FNode, name: string, raw: seq<int>, max: nat, total: int)
    requires Good(fs, max, total) && Deletable(fs, fd, max) && IsSaved(fs, fd, t) && |raw| == DISKBLOCKLEN
    requires Overwrites(fs, fd, max) ==> fd != 1 && fd != t.b
    requires OnlyName(Remount(fs).files, fd) && ShortName(t.name) == ShortName(name)
    ensures var (r, fs') := Open(Remount(Delete(fs, fd, junk, max)), name, raw);
            && r == fd && Opened(fs'.files[fd]) && |t.data| == DISKBLOCKLEN && t.length <= DISKBLOCKLEN
            && Text(fs'.files[fd]) == t.data[..t.length] && fs'.files[fd].cursor == 0
  {
    hide Good, Handout, Listed, ShortName, Delete, Overwrites, Matches;
    GoodParts(fs, max, total);
    DeleteNeedsClose(fs, fd, junk, max, total, -1);
    DeleteElsewhere(fs, fd, junk, max, t.b);
    RemountStep(fs, max, total);
    var again, f := Remount(Delete(fs, fd, junk, max)), Listed(fs)[fd];
    assert FileOk(f, total);
    UsedBits(f.state);
    ReadBackClosed(f.state);
    forall i | 0 <= i < |again.files| ensures Matches(again.files[i], name) <==> i == fd {
      NameKept(f, name);
      SameName(again.files[i], f.name, name);
    }
    OpensAlone(again, fd, name, raw);
    ContentIs(again.blocks, t.b, raw);
  }

  lemma ReadBackClosed(s: bv8)
    ensures (s & FILE_USED) & FILE_OPEN == 0
  {
  }
}
