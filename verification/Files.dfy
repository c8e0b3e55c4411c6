/** The file layer as functions on values: the directory table in memory, the free list and the disk.
    Each function gives what the source call of the same name returns and the state it leaves. */
module Files {
  import opened FreeChain
  import opened DiskImage
  import opened Status

  const FILE_FREE: bv8 := 0
  const FILE_USED: bv8 := 1
  const FILE_OPEN: bv8 := 2
  const FILE_DIRTY: bv8 := 4

  const FNAMLEN := 7
  const DISKBLOCKLEN := 256
  const DIRENTRIES := 9

  datatype Fs = Fs(chain: seq<FNode>, files: seq<FileNode>, blocks: Blocks, dir: int)

  predicate BadFd(fd: int) {
    fd < 0 || fd >= DIRENTRIES
  }

  /** No file behind this descriptor. */
  predicate NoFile(fs: Fs, fd: int) {
    BadFd(fd) || fd >= |fs.files| || fs.files[fd].state == FILE_FREE
  }

  function Take(s: string, n: nat): string {
    if |s| <= n then s else s[..n]
  }

  /** The first FNAMLEN characters: what strncpy keeps and strncmp compares. */
  function ShortName(name: string): string {
    Take(name, FNAMLEN)
  }

  /** The first free slot at or after `from`, or |files|. */
  function FreeSlot(files: seq<FileNode>, from: nat): (fd: nat)
    requires from <= |files|
    ensures from <= fd <= |files| && (fd < |files| ==> files[fd].state == FILE_FREE)
    ensures forall i | from <= i < fd :: files[i].state != FILE_FREE
    decreases |files| - from
  {
    if from == |files| || files[from].state == FILE_FREE then from else FreeSlot(files, from + 1)
  }

  predicate Matches(f: FileNode, name: string) {
    f.state & FILE_USED != 0 && ShortName(f.name) == ShortName(name)
  }

  /** The first used slot with this name at or after `from`, or |files|. */
  function NamedSlot(files: seq<FileNode>, name: string, from: nat): (fd: nat)
    requires from <= |files|
    ensures from <= fd <= |files| && (fd < |files| ==> Matches(files[fd], name))
    ensures forall i | from <= i < fd :: !Matches(files[i], name)
    decreases |files| - from
  {
    if from == |files| || Matches(files[from], name) then from else NamedSlot(files, name, from + 1)
  }

  /** sbGetBlock. */
  function Pop(fs: Fs): (int, Fs) {
    if fs.chain == [] then (SYSERR, fs)
    else
      var (b, rest) := Get(fs.chain);
      (if b == 0 then SYSERR else b, fs.(chain := rest, blocks := GetWrites(fs.blocks, fs.chain, fs.dir)))
  }

  /** fileCreate; `junk` is what malloc leaves in the buffer. */
  function Create(fs: Fs, name: string, junk: seq<int>): (int, Fs) {
    var fd := FreeSlot(fs.files, 0);
    if fd == |fs.files| then (SYSERR, fs)
    else
      var (b, popped) := Pop(fs);
      var f := FileNode(FILE_USED | FILE_OPEN, 0, 0, b, ShortName(name), Loaded(junk));
      (if b == SYSERR then SYSERR else fd, popped.(files := fs.files[fd := f]))
  }

  /** The bytes read from block b; `raw` if that block holds a record or was never written. */
  function Content(blocks: Blocks, b: int, raw: seq<int>): seq<int> {
    if 0 <= b < |blocks| && blocks[b].Bytes? then blocks[b].data else raw
  }

  /** fileOpen. */
  function Open(fs: Fs, name: string, raw: seq<int>): (int, Fs) {
    var fd := NamedSlot(fs.files, name, 0);
    if fd == |fs.files| then (SYSERR, fs)
    else
      var f := fs.files[fd];
      if f.state & FILE_OPEN != 0 then (fd, fs)
      else
        var g := f.(data := Loaded(Content(fs.blocks, f.blocknum, raw)), state := f.state | FILE_OPEN, cursor := 0);
        (fd, fs.(files := fs.files[fd := g]))
  }

  /** fileSeek on one file. */
  function SeekIn(f: FileNode, offset: int): (int, FileNode) {
    if f.cursor < 0 || f.cursor > f.length || f.cursor > DISKBLOCKLEN then (SYSERR, f)
    else if offset < 0 || offset > f.length || offset >= DISKBLOCKLEN then (SYSERR, f)
    else (OK, f.(cursor := offset))
  }

  /** The cursor is where filePutChar refuses to write ... */
  predicate PutRefused(f: FileNode) {
    f.cursor < 0 || f.cursor > f.length || f.cursor >= DISKBLOCKLEN
  }

  /** ... and where fileGetChar refuses to read. */
  predicate GetRefused(f: FileNode) {
    f.cursor < 0 || f.cursor >= f.length
  }

  /** filePutChar on one file. */
  function PutIn(f: FileNode, c: int): (int, FileNode) {
    if PutRefused(f) then (SYSERR, f)
    else
      (OK, f.(data := Write(f.data, f.cursor, c),
              length := if f.length < DISKBLOCKLEN && f.length == f.cursor then f.length + 1 else f.length,
              cursor := f.cursor + 1,
              state := f.state | FILE_DIRTY))
  }

  function Write(data: Buffer, i: int, c: int): Buffer {
    if data.Loaded? && 0 <= i < |data.bytes| then Loaded(data.bytes[i := c]) else data
  }

  /** fileGetChar on one file. */
  function GetIn(f: FileNode): (int, FileNode) {
    if GetRefused(f) then (SYSERR, f)
    else (if f.data.Loaded? && f.cursor < |f.data.bytes| then f.data.bytes[f.cursor] else 0,
          f.(cursor := f.cursor + 1))
  }

  function SetFile(fs: Fs, fd: int, f: FileNode): Fs {
    if 0 <= fd < |fs.files| then fs.(files := fs.files[fd := f]) else fs
  }

  function Seek(fs: Fs, fd: int, offset: int): (int, Fs) {
    if NoFile(fs, fd) then (SYSERR, fs)
    else var (r, f) := SeekIn(fs.files[fd], offset); (r, SetFile(fs, fd, f))
  }

  function PutChar(fs: Fs, fd: int, c: int): (int, Fs) {
    if NoFile(fs, fd) then (SYSERR, fs)
    else var (r, f) := PutIn(fs.files[fd], c); (r, SetFile(fs, fd, f))
  }

  function GetChar(fs: Fs, fd: int): (int, Fs) {
    if NoFile(fs, fd) then (SYSERR, fs)
    else var (r, f) := GetIn(fs.files[fd]); (r, SetFile(fs, fd, f))
  }

  /** What fileClose leaves of a file's state. */
  function Closed(f: FileNode): FileNode {
    f.(state := f.state & !FILE_DIRTY & !FILE_OPEN)
  }

  function SaveData(blocks: Blocks, f: FileNode): Blocks {
    if f.state & FILE_DIRTY != 0 && 0 <= f.blocknum < |blocks| && f.data.Loaded?
    then blocks[f.blocknum := Bytes(f.data.bytes)] else blocks
  }

  function SaveDirectory(blocks: Blocks, dir: int, files: seq<FileNode>): Blocks {
    if 0 <= dir < |blocks| then blocks[dir := DirRecord(dir, files)] else blocks
  }

  /** fileClose. */
  function Close(fs: Fs, fd: int): (int, Fs) {
    if NoFile(fs, fd) then (SYSERR, fs)
    else
      var files := fs.files[fd := Closed(fs.files[fd])];
      (OK, fs.(files := files, blocks := SaveDirectory(SaveData(fs.blocks, fs.files[fd]), fs.dir, files)))
  }

  /** fileDelete: the slot becomes free, and block number fd - not the file's block - goes back to the list.
      `junk` is what malloc leaves in a new collector. */
  function Delete(fs: Fs, fd: int, junk: FNode, max: nat): Fs {
    if 0 <= fd < |fs.files| then
      var files := fs.files[fd := Freed(fs.files[fd])];
      if Accepted(fd, max) then
        fs.(files := files, chain := Put(fs.chain, fd, junk.entries),
            blocks := FreeWrites(fs.blocks, fs.chain, fd, junk, fs.dir))
      else fs.(files := files)
    else fs
  }

  function Freed(f: FileNode): FileNode {
    f.(length := 0, cursor := 0, state := FILE_FREE)
  }

  /** A directory entry read back: only FILE_USED survives and the buffer pointer is stale. */
  function ReadBack(f: FileNode): FileNode {
    f.(state := f.state & FILE_USED, data := Dangling)
  }

  function ReadBackAll(files: seq<FileNode>): (r: seq<FileNode>)
    ensures |r| == |files| && forall i | 0 <= i < |r| :: r[i] == ReadBack(files[i])
  {
    if files == [] then [] else [ReadBack(files[0])] + ReadBackAll(files[1..])
  }

  /** The directory on disk. */
  function Listed(fs: Fs): seq<FileNode> {
    if 0 <= fs.dir < |fs.blocks| && fs.blocks[fs.dir].DirRecord? then fs.blocks[fs.dir].fnodes else []
  }

  /** Losing memory and opening the disk again, when the disk describes the free list. */
  function Remount(fs: Fs): Fs {
    fs.(files := ReadBackAll(Listed(fs)))
  }
}
