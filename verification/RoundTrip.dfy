/** One file as a text with a cursor, and the round trip of a text through the disk. */
module RoundTrip {
  import opened FreeChain
  import opened DiskImage
  import opened Files
  import opened FileRuns
  import opened Status

  /** An open file: its buffer is a whole block and the cursor is inside the text. */
  predicate Opened(f: FileNode) {
    f.data.Loaded? && |f.data.bytes| == DISKBLOCKLEN && 0 <= f.cursor <= f.length <= DISKBLOCKLEN
  }

  function Text(f: FileNode): seq<int>
    requires Opened(f)
  {
    f.data.bytes[..f.length]
  }

  /** filePutChar overwrites at the cursor or appends at the end, and fails exactly at a full block's end. */
  lemma PutRefines(f: FileNode, c: int)
    requires Opened(f)
    ensures var (r, g) := PutIn(f, c);
            && Opened(g) && (r == OK <==> f.cursor < DISKBLOCKLEN) && (r == SYSERR ==> g == f)
            && (r == OK ==>
                  && g.cursor == f.cursor + 1
                  && Text(g) == if f.cursor < |Text(f)| then Text(f)[f.cursor := c] else Text(f) + [c])
            && g.blocknum == f.blocknum && g.name == f.name
  {
  }

  /** fileGetChar gives the character under the cursor and moves on; at the end it fails. */
  lemma GetRefines(f: FileNode)
    requires Opened(f)
    ensures var (r, g) := GetIn(f);
            && Opened(g) && Text(g) == Text(f)
            && (if f.cursor < |Text(f)| then r == Text(f)[f.cursor] && g.cursor == f.cursor + 1
                else r == SYSERR && g == f)
  {
  }

  /** fileSeek reaches every place in the text except the end of a full block. */
  lemma SeekRefines(f: FileNode, offset: int)
    requires Opened(f)
    ensures var (r, g) := SeekIn(f, offset);
            && Opened(g) && Text(g) == Text(f)
            && (r == OK <==> 0 <= offset <= |Text(f)| && offset < DISKBLOCKLEN)
            && g.cursor == if r == OK then offset else f.cursor
  {
  }

  /** filePutChar for each character in turn. */
  function PutAll(fs: Fs, fd: int, text: seq<int>): Fs
    decreases |text|
  {
    if text == [] then fs else PutAll(PutChar(fs, fd, text[0]).1, fd, text[1..])
  }

  /** fileGetChar until it returns SYSERR. */
  function ReadUntilError(fs: Fs, fd: int): seq<int>
    decreases if NoFile(fs, fd) then 0 else fs.files[fd].length - fs.files[fd].cursor
  {
    var (c, fs') := GetChar(fs, fd);
    if c == SYSERR then [] else [c] + ReadUntilError(fs', fd)
  }

  /** The text up to the first character that looks like SYSERR (the byte 0xFF as a signed char). */
  function BeforeError(s: seq<int>): seq<int> {
    if s == [] || s[0] == SYSERR then [] else [s[0]] + BeforeError(s[1..])
  }

  lemma {:induction false} BeforeErrorIs(s: seq<int>)
    ensures BeforeError(s) <= s && (BeforeError(s) == s <==> SYSERR !in s)
  {
    if s == [] || s[0] == SYSERR {
    } else {
      BeforeErrorIs(s[1..]);
      assert s == [s[0]] + s[1..];
      assert SYSERR in s <==> SYSERR in s[1..];
    }
  }

  /** What fits in the block. */
  function Fit(s: seq<int>): seq<int> {
    if |s| <= DISKBLOCKLEN then s else s[..DISKBLOCKLEN]
  }

  lemma {:induction false} ReadUntilErrorGives(fs: Fs, fd: int)
    requires !NoFile(fs, fd) && Opened(fs.files[fd])
    ensures ReadUntilError(fs, fd) == BeforeError(Text(fs.files[fd])[fs.files[fd].cursor..])
    decreases fs.files[fd].length - fs.files[fd].cursor
  {
    hide GetIn;
    var f := fs.files[fd];
    GetRefines(f);
    var (c, fs') := GetChar(fs, fd);
    GetInParts(f);
    var rest := Text(f)[f.cursor..];
    if f.cursor == |Text(f)| || c == SYSERR {
    } else {
      ReadUntilErrorGives(fs', fd);
      assert rest[1..] == Text(f)[f.cursor + 1..];
    }
  }

  lemma GetInParts(f: FileNode)
    ensures GetIn(f).1.state == f.state && GetIn(f).1.length == f.length
  {
  }

  function PutAllIn(f: FileNode, text: seq<int>): FileNode
    decreases |text|
  {
    if text == [] then f else PutAllIn(PutIn(f, text[0]).1, text[1..])
  }

  /** Putting a text at the end of a file appends what fits. */
  lemma {:induction false} PutAllAppends(f: FileNode, text: seq<int>)
    requires Opened(f) && f.cursor == f.length && f.state != FILE_FREE
    ensures var g := PutAllIn(f, text);
            && Opened(g) && Text(g) == Fit(Text(f) + text) && g.blocknum == f.blocknum && g.name == f.name
            && g.state == (if text == [] || f.length == DISKBLOCKLEN then f.state else f.state | FILE_DIRTY)
    decreases |text|
  {
    hide PutIn;
    if text == [] {
      assert Text(f) + text == Text(f);
    } else {
      var g := PutIn(f, text[0]).1;
      PutRefines(f, text[0]);
      PutState(f, text[0]);
      PutAllAppends(g, text[1..]);
      if f.cursor < DISKBLOCKLEN {
        assert Text(f) + text == Text(g) + text[1..];
      } else {
        assert Fit(Text(f) + text) == Text(f) == Fit(Text(f) + text[1..]);
      }
    }
  }

  lemma PutState(f: FileNode, c: int)
    requires Opened(f) && f.cursor == f.length && f.state != FILE_FREE
    ensures var (r, g) := PutIn(f, c);
            && g.state == (if r == OK then f.state | FILE_DIRTY else f.state)
            && g.cursor == g.length && g.state != FILE_FREE && (r != OK ==> g == f)
    ensures (f.state | FILE_DIRTY) | FILE_DIRTY == f.state | FILE_DIRTY
  {
    DirtyState(f.state);
  }

  lemma DirtyState(s: bv8)
    ensures s != FILE_FREE ==> s | FILE_DIRTY != FILE_FREE
    ensures (s | FILE_DIRTY) | FILE_DIRTY == s | FILE_DIRTY && (s | FILE_DIRTY) & FILE_DIRTY != 0
    ensures (s | FILE_DIRTY) & FILE_USED == s & FILE_USED
  {
  }

  /** The other files, the free list and the disk are left alone. */
  lemma {:induction false} PutAllInPlace(fs: Fs, fd: int, text: seq<int>)
    requires !NoFile(fs, fd) && Opened(fs.files[fd]) && fs.files[fd].cursor == fs.files[fd].length
    ensures PutAll(fs, fd, text) == SetFile(fs, fd, PutAllIn(fs.files[fd], text))
    decreases |text|
  {
    hide PutIn;
    var f := fs.files[fd];
    if text == [] {
      assert fs.files[fd := f] == fs.files;
    } else {
      PutRefines(f, text[0]);
      PutState(f, text[0]);
      var fs1 := PutChar(fs, fd, text[0]).1;
      PutAllInPlace(fs1, fd, text[1..]);
      assert fs1.files[fd] == PutIn(f, text[0]).1;
    }
  }

  /** No other used file has the name of file fd (in the characters the directory keeps). */
  predicate OnlyName(files: seq<FileNode>, fd: int) {
    forall i | 0 <= i < |files| && i != fd && 0 <= fd < |files| :: !Matches(files[i], files[fd].name)
  }

  /** A file closed, lost from memory and opened again by its name has the text it had, from the start. */
  lemma ReopenedText(fs: Fs, fd: int, name: string, raw: seq<int>, max: nat, total: int)
    requires Good(fs, max, total) && !NoFile(fs, fd) && HasBlock(fs.files[fd]) && Opened(fs.files[fd])
    requires fs.files[fd].state & FILE_DIRTY != 0 || fs.files[fd].length == 0
    requires OnlyName(fs.files, fd) && ShortName(fs.files[fd].name) == ShortName(name) && |raw| == DISKBLOCKLEN
    ensures var (r, closed) := Close(fs, fd);
            var (fd', fs') := Open(Remount(closed), name, raw);
            && r == OK && fd' == fd && !NoFile(fs', fd) && Opened(fs'.files[fd])
            && Text(fs'.files[fd]) == Text(fs.files[fd]) && fs'.files[fd].cursor == 0
  {
    hide Good, Owners, ShortName, Matches, Listed, Lists, Agree, ChainOk;
    GoodParts(fs, max, total);
    CloseStep(fs, fd, max, total);
    var f, closed := fs.files[fd], Close(fs, fd).1;
    assert FileOk(f, total);
    ClosedOk(f, total);
    var again := Remount(closed);
    assert Listed(closed) == closed.files;
    forall i | 0 <= i < |fs.files| ensures Matches(again.files[i], name) <==> i == fd {
      NameKept(fs.files[i], name);
      NameKept(f, name);
      SameName(fs.files[i], f.name, name);
    }
    if f.state & FILE_DIRTY != 0 {
      SavedText(fs, fd, total);
    }
    GoodParts(closed, max, total);
    ContentWhole(closed.blocks, f.blocknum, raw);
    ReopenState(f.state);
    Reopened(closed, fd, name, raw);
  }

  lemma ContentWhole(blocks: Blocks, b: int, raw: seq<int>)
    requires WholeBlocks(blocks) && |raw| == DISKBLOCKLEN
    ensures |Content(blocks, b, raw)| == DISKBLOCKLEN
  {
  }

  /** Opening the one file with this name after a remount reads its block. */
  lemma Reopened(closed: Fs, fd: int, name: string, raw: seq<int>)
    requires Listed(closed) == closed.files && 0 <= fd < |closed.files|
    requires forall i | 0 <= i < |closed.files| :: Matches(Remount(closed).files[i], name) <==> i == fd
    requires (closed.files[fd].state & FILE_USED) & FILE_OPEN == 0
    ensures var f := closed.files[fd];
            Open(Remount(closed), name, raw)
            == (fd, Remount(closed).(files := Remount(closed).files[fd :=
                  f.(data := Loaded(Content(closed.blocks, f.blocknum, raw)),
                     state := (f.state & FILE_USED) | FILE_OPEN, cursor := 0)]))
  {
    hide Matches, Content, Listed, Open;
    OpensAlone(Remount(closed), fd, name, raw);
  }

  lemma NameKept(f: FileNode, name: string)
    ensures Matches(ReadBack(f), name) <==> Matches(f, name)
    ensures Matches(ReadBack(Closed(f)), name) <==> Matches(f, name)
    ensures f.state & FILE_USED != 0 && ShortName(f.name) == ShortName(name) <==> Matches(f, name)
  {
    StateBits(f.state);
    StateBits(Closed(f).state);
  }

  lemma SameName(f: FileNode, name: string, name': string)
    requires ShortName(name) == ShortName(name')
    ensures Matches(f, name) <==> Matches(f, name')
  {
  }

  lemma ReopenState(s: bv8)
    ensures ((s & !FILE_DIRTY & !FILE_OPEN) & FILE_USED) & FILE_OPEN == 0
    ensures (s & FILE_USED) | FILE_OPEN != FILE_FREE
  {
  }

  lemma SavedText(fs: Fs, fd: int, total: int)
    requires |fs.blocks| == total && fs.dir == 1 && !NoFile(fs, fd) && FileOk(fs.files[fd], total)
    requires HasBlock(fs.files[fd]) && fs.files[fd].state & FILE_DIRTY != 0 && fs.files[fd].data.Loaded?
    ensures var blocks, b := Close(fs, fd).1.blocks, fs.files[fd].blocknum;
            0 <= b < |blocks| && blocks[b] == Bytes(fs.files[fd].data.bytes)
  {
  }

  /** The text is on disk, or goes there at the next close. */
  predicate TextSafe(fs: Fs, fd: int)
    requires 0 <= fd < |fs.files| && Opened(fs.files[fd])
  {
    var f := fs.files[fd];
    f.state & FILE_DIRTY != 0 || f.length == 0
    || (0 <= f.blocknum < |fs.blocks| && fs.blocks[f.blocknum] == Bytes(f.data.bytes))
  }

  /** The same without losing memory: fileClose leaves the file neither open nor dirty, so that fileOpen reads it again
      from the start, and reading to the error gives the text. */
  lemma OpenAfterClose(fs: Fs, fd: int, name: string, raw: seq<int>, max: nat, total: int)
    requires Good(fs, max, total) && !NoFile(fs, fd) && HasBlock(fs.files[fd]) && Opened(fs.files[fd])
    requires TextSafe(fs, fd)
    requires OnlyName(fs.files, fd) && ShortName(fs.files[fd].name) == ShortName(name) && |raw| == DISKBLOCKLEN
    ensures var (r, closed) := Close(fs, fd);
            var (fd', fs') := Open(closed, name, raw);
            && r == OK && closed.files[fd].state & (FILE_OPEN | FILE_DIRTY) == 0
            && fd' == fd && !NoFile(fs', fd) && Opened(fs'.files[fd]) && fs'.files[fd].state & FILE_OPEN != 0
            && Text(fs'.files[fd]) == Text(fs.files[fd]) && fs'.files[fd].cursor == 0
            && ReadUntilError(fs', fd) == BeforeError(Text(fs.files[fd]))
  {
    hide Good, Owners, ShortName, Matches, Listed, Lists, Agree, ChainOk, ReadUntilError, Content, Open;
    GoodParts(fs, max, total);
    CloseStep(fs, fd, max, total);
    var f, closed := fs.files[fd], Close(fs, fd).1;
    assert FileOk(f, total);
    ClosedOk(f, total);
    ClosedBits(f.state);
    if f.length > 0 {
      SavedBytes(fs, fd, total);
    }
    GoodParts(closed, max, total);
    ContentWhole(closed.blocks, f.blocknum, raw);
    ContentIs(closed.blocks, f.blocknum, raw);
    forall i | 0 <= i < |fs.files| ensures Matches(closed.files[i], name) <==> i == fd {
      StillMatches(fs.files[i], name);
      NameKept(f, name);
      SameName(fs.files[i], f.name, name);
    }
    OpensAlone(closed, fd, name, raw);
    var fs' := Open(closed, name, raw).1;
    assert Text(fs'.files[fd])[0..] == Text(fs.files[fd]);
    ReadUntilErrorGives(fs', fd);
  }

  /** Opening the one file with this name reads its block, if it is not open. */
  lemma OpensAlone(fs: Fs, fd: int, name: string, raw: seq<int>)
    requires 0 <= fd < |fs.files| && forall i | 0 <= i < |fs.files| :: Matches(fs.files[i], name) <==> i == fd
    requires fs.files[fd].state & FILE_OPEN == 0
    ensures var f := fs.files[fd];
            Open(fs, name, raw)
            == (fd, fs.(files := fs.files[fd :=
                  f.(data := Loaded(Content(fs.blocks, f.blocknum, raw)), state := f.state | FILE_OPEN, cursor := 0)]))
  {
    hide Matches, Content;
    assert NamedSlot(fs.files, name, 0) == fd;
  }

  lemma ContentIs(blocks: Blocks, b: int, raw: seq<int>)
    ensures 0 <= b < |blocks| && blocks[b].Bytes? ==> Content(blocks, b, raw) == blocks[b].data
  {
  }

  lemma ClosedBits(s: bv8)
    ensures (s & !FILE_DIRTY & !FILE_OPEN) & (FILE_OPEN | FILE_DIRTY) == 0
    ensures (s & !FILE_DIRTY & !FILE_OPEN) & FILE_OPEN == 0
    ensures forall t: bv8 {:trigger t | FILE_OPEN} :: t | FILE_OPEN != FILE_FREE && (t | FILE_OPEN) & FILE_OPEN != 0
  {
  }

  lemma StillMatches(f: FileNode, name: string)
    ensures Matches(Closed(f), name) <==> Matches(f, name)
  {
    StateBits(f.state);
  }

  lemma SavedBytes(fs: Fs, fd: int, total: int)
    requires |fs.blocks| == total && fs.dir == 1 && !NoFile(fs, fd) && FileOk(fs.files[fd], total)
    requires HasBlock(fs.files[fd]) && Opened(fs.files[fd]) && TextSafe(fs, fd) && fs.files[fd].length > 0
    ensures var blocks, b := Close(fs, fd).1.blocks, fs.files[fd].blocknum;
            0 <= b < |blocks| && blocks[b] == Bytes(fs.files[fd].data.bytes)
  {
  }

  /** Create a file, put a text, close it, lose memory, open it by name and read to the error: what comes back is
      the text as far as it fits in a block, up to its first character that looks like SYSERR. */
  lemma TextSurvives(fs: Fs, name: string, junk: seq<int>, text: seq<int>, raw: seq<int>, max: nat, total: int)
    requires Good(fs, max, total) && |junk| == |raw| == DISKBLOCKLEN
    requires FreeSlot(fs.files, 0) < |fs.files| && fs.chain != []
    requires forall i | 0 <= i < |fs.files| :: !Matches(fs.files[i], name)
    ensures var (fd, created) := Create(fs, name, junk);
            var (r, closed) := Close(PutAll(created, fd, text), fd);
            var (fd', reopened) := Open(Remount(closed), name, raw);
            && fd != SYSERR && r == OK && fd' == fd && ReadUntilError(reopened, fd) == BeforeError(Fit(text))
  {
    hide Good, Owners, Matches, Agree, ChainOk, PutAll, PutAllIn, Open, Remount, Close, ReadUntilError, FileOk;
    var (fd, created) := Create(fs, name, junk);
    Created(fs, name, junk, max, total);
    var f := created.files[fd];
    PutAllInPlace(created, fd, text);
    PutAllAppends(f, text);
    var written, g := PutAll(created, fd, text), PutAllIn(f, text);
    assert Text(f) + text == text;
    DirtyState(f.state);
    WrittenOk(f, g, total);
    SameOwner(created, written, fd, g, max, total);
    forall i | 0 <= i < |written.files| && i != fd ensures !Matches(written.files[i], g.name) {
      SameName(fs.files[i], name, g.name);
    }
    ReopenedText(written, fd, name, raw, max, total);
    var reopened := Open(Remount(Close(written, fd).1), name, raw).1;
    ReadUntilErrorGives(reopened, fd);
    assert Text(reopened.files[fd])[0..] == Fit(text);
  }

  lemma WrittenOk(f: FileNode, g: FileNode, total: int)
    requires FileOk(f, total) && f.state == FILE_USED | FILE_OPEN && Opened(g) && g.blocknum == f.blocknum
    requires g.state == f.state || g.state == f.state | FILE_DIRTY
    ensures FileOk(g, total) && g.state != FILE_FREE
  {
  }

  lemma Created(fs: Fs, name: string, junk: seq<int>, max: nat, total: int)
    requires Good(fs, max, total) && |junk| == DISKBLOCKLEN
    requires FreeSlot(fs.files, 0) < |fs.files| && fs.chain != []
    ensures var (fd, fs') := Create(fs, name, junk);
            && 0 <= fd < DIRENTRIES == |fs'.files| == |fs.files| && Good(fs', max, total)
            && (forall i | 0 <= i < |fs.files| && i != fd :: fs'.files[i] == fs.files[i])
            && var f := fs'.files[fd];
               && FileOk(f, total) && Opened(f) && f.length == f.cursor == 0 && f.state == FILE_USED | FILE_OPEN
               && HasBlock(f) && ShortName(f.name) == ShortName(name)
  {
    hide Handout, Held, Times, Agree, ChainOk, Get, GetWrites, Listed;
    PopStep(fs, max, total);
    CreateStep(fs, name, junk, max, total);
  }

  /** The text comes back whole exactly when it fits and no character looks like SYSERR. */
  lemma WholeTextIff(text: seq<int>)
    ensures BeforeError(Fit(text)) == text <==> |text| <= DISKBLOCKLEN && SYSERR !in text
  {
    BeforeErrorIs(Fit(text));
  }
}
