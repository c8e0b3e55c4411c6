/** fileDelete, which gives back the block whose number is the descriptor: when it loses blocks, and when it gives one
    two owners. */
module Deletion {
  import opened FreeChain
  import opened DiskImage
  import opened Format
  import opened Files
  import opened FileRuns

  /** sbFreeBlock does not meet the list of one full node, on which the source writes through an uninitialised
      pointer. */
  predicate Deletable(fs: Fs, fd: int, max: nat) {
    0 <= fd < DIRENTRIES && (Accepted(fd, max) && |fs.chain| == 1 ==> Room(fs.chain))
  }

  /** What fileDelete does to the owners of block b. */
  lemma DeleteOwners(fs: Fs, fd: int, junk: FNode, max: nat, total: int, b: int)
    requires Good(fs, max, total) && Deletable(fs, fd, max) && |junk.entries| == max
    ensures var fs', f := Delete(fs, fd, junk, max), fs.files[fd];
            var held := if Holds(f, b) then 1 else 0;
            if !Accepted(fd, max) then Owners(fs', b) == Owners(fs, b) - held
            else if Room(fs.chain) then Owners(fs', b) == Owners(fs, b) - held + (if b == fd then 1 else 0)
            else
              var n, p := fs.chain[|fs.chain| - 1], fs.chain[|fs.chain| - 2];
              Owners(fs', b)
              == Owners(fs, b) - held - Times([n.blk], b) - Times(n.entries, b) - Times(Live(p), b)
  {
    hide Handout, Held, Times, Put, FreeWrites, Agree, ChainOk, PutPosition, Lists, Room, FileOk, Live;
    var f := fs.files[fd];
    HeldUpdate(fs.files, fd, Freed(f), b);
    HeldOne(f, b);
    HeldOne(Freed(f), b);
    if Accepted(fd, max) {
      if Room(fs.chain) {
        PutInserts(fs.chain, max, fd, junk.entries);
        InsertedTimes(Handout(fs.chain), PutPosition(fs.chain), fd, b);
      } else {
        NoRoom(fs.chain);
        PutLoses(fs.chain, max, fd, junk.entries, b);
      }
    }
  }

  lemma NoRoom(chain: seq<FNode>)
    requires !Room(chain)
    ensures chain != []
  {
  }

  /** fileDelete keeps every block's owners exactly when it gives back the file's own block to a list with room, or
      gives back nothing and the slot holds no block. */
  lemma DeleteConservesIff(fs: Fs, fd: int, junk: FNode, max: nat, total: int)
    requires Good(fs, max, total) && Deletable(fs, fd, max) && |junk.entries| == max
    ensures (forall b :: Owners(Delete(fs, fd, junk, max), b) == Owners(fs, b))
            <==> if Accepted(fd, max) then Room(fs.chain) && Holds(fs.files[fd], fd) else !HasBlock(fs.files[fd])
  {
    hide Owners, Delete, Agree, ChainOk, OneOwner, Lists, FileOk, Live, Times, Room;
    var f, fs' := fs.files[fd], Delete(fs, fd, junk, max);
    forall b ensures Owners(fs', b) == Owners(fs, b)
      <==> if !Accepted(fd, max) then !Holds(f, b)
           else if Room(fs.chain) then Holds(f, b) <==> b == fd
           else DeleteLosesNone(fs, fd, b)
    {
      if !Room(fs.chain) {
        NoRoom(fs.chain);
      }
      DeleteOwners(fs, fd, junk, max, total, b);
    }
    if Accepted(fd, max) && !Room(fs.chain) {
      NoRoom(fs.chain);
      var last := fs.chain[|fs.chain| - 1].blk;
      TimesOne(last, last);
      assert !DeleteLosesNone(fs, fd, last);
    } else {
      assert Holds(f, f.blocknum) <==> HasBlock(f);
    }
  }

  /** The full-node branch takes no owner from block b. */
  predicate DeleteLosesNone(fs: Fs, fd: int, b: int) {
    |fs.chain| > 1 && 0 <= fd < |fs.files| && !Holds(fs.files[fd], b)
    && var n, p := fs.chain[|fs.chain| - 1], fs.chain[|fs.chain| - 2];
       Times([n.blk], b) == Times(n.entries, b) == Times(Live(p), b) == 0
  }

  /** ... and it leaves no block with two owners exactly when the block it puts on the list, if any, is the file's own
      or one that had been lost; block 1, the directory, never is. */
  lemma DeleteSafeIff(fs: Fs, fd: int, junk: FNode, max: nat, total: int)
    requires Good(fs, max, total) && Deletable(fs, fd, max) && |junk.entries| == max
    ensures OneOwner(Delete(fs, fd, junk, max), total)
            <==> (Accepted(fd, max) && Room(fs.chain) ==>
                    2 <= fd < total && (Holds(fs.files[fd], fd) || Owners(fs, fd) == 0))
  {
    hide Owners, Delete, Agree, ChainOk, Lists, FileOk, Live, Times, Room;
    var f, fs' := fs.files[fd], Delete(fs, fd, junk, max);
    forall b ensures Owners(fs, b) <= Once(2, b, total)
      && (if Accepted(fd, max) && Room(fs.chain)
          then Owners(fs', b) == Owners(fs, b) - (if Holds(f, b) then 1 else 0) + (if b == fd then 1 else 0)
          else Owners(fs', b) <= Owners(fs, b))
    {
      DeleteOwners(fs, fd, junk, max, total, b);
    }
    assert FileOk(f, total);
    if HasBlock(f) {
      HasBlockIs(f, total);
    }
    if OneOwner(fs', total) {
      assert Owners(fs', fd) <= Once(2, fd, total);
    }
  }

  /** ... and memory and disk still agree on the free list exactly when it gives back nothing or the list has room. */
  lemma DeleteAgreesIff(fs: Fs, fd: int, junk: FNode, max: nat, total: int)
    requires Good(fs, max, total) && Deletable(fs, fd, max) && |junk.entries| == max && fd < total
    ensures var fs' := Delete(fs, fd, junk, max);
            Agree(fs'.blocks, fs'.chain, 1) <==> (Accepted(fd, max) ==> Room(fs.chain))
  {
    hide Agree, ChainOk, OneOwner, Lists, FileOk, Room, Put, FreeWrites;
    if Accepted(fd, max) {
      PutAgreesIff(fs.blocks, fs.chain, fd, junk, 1);
    }
  }

  /** Deleting descriptor 1 on a list with room puts the directory's block on the free list. */
  lemma DeleteFreesDirectory(fs: Fs, junk: FNode, max: nat, total: int)
    requires Good(fs, max, total) && Room(fs.chain) && |junk.entries| == max
    ensures 1 in Handout(Delete(fs, 1, junk, max).chain) && !OneOwner(Delete(fs, 1, junk, max), total)
  {
    hide Handout, Put, FreeWrites, Agree, ChainOk, Lists, FileOk, PutPosition, OneOwner, Room;
    PutInserts(fs.chain, max, 1, junk.entries);
    var h, k := Handout(fs.chain), PutPosition(fs.chain);
    assert (h[..k] + [1] + h[k..])[k] == 1;
    DeleteSafeIff(fs, 1, junk, max, total);
  }

  lemma HasBlockIs(f: FileNode, total: int)
    requires FileOk(f, total) && HasBlock(f)
    ensures 2 <= f.blocknum < total
  {
  }

  lemma InsertedTimes(h: seq<int>, k: int, x: int, b: int)
    requires 0 <= k <= |h|
    ensures Times(h[..k] + [x] + h[k..], b) == Times(h, b) + (if x == b then 1 else 0)
  {
    hide Times;
    assert h == h[..k] + h[k..];
    TimesAppend(h[..k] + [x], h[k..], b);
    TimesAppend(h[..k], [x], b);
    TimesAppend(h[..k], h[k..], b);
    TimesOne(x, b);
  }
}
