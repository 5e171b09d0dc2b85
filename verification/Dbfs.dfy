/**
 fs/dbfs.c, the operations: growing, reading, writing and creating files.  Seen from
 outside, the file system is a map from inode numbers to byte strings.
 */
module Dbfs {
  import opened DiskBytes
  import opened DbfsDisk
  import opened DbfsFiles
  import Arith

  const DENT_NAME: nat := 64
  const E_NO_SPACE: nat := 8
  const NO_INODE: nat := U64 - E_NO_SPACE   // what alloc_block returns on a full disk, as an inode number

  ghost function FilesOf(im: seq<Block>, files: set<nat>): (m: map<nat, seq<Byte>>)
    requires Fs(im, files)
    ensures m.Keys == files
  {
    map f | f in files :: Content(im, files, f)
  }

  // Free blocks.

  ghost function FreeBlocks(sb: Block): set<nat>
    requires |sb| == BS
  {
    set b: nat | b < BLOCKS && !Used(sb, b)
  }

  lemma OneFewer(im: seq<Block>, im': seq<Block>, b: nat)
    requires Sizes(im) && Sizes(im') && Taken(im, im', b)
    ensures |FreeBlocks(im'[0])| == |FreeBlocks(im[0])| - 1
  {
    hide Used;
    assert FreeBlocks(im'[0]) == FreeBlocks(im[0]) - {b};
  }

  lemma NoneLeft(sb: Block)
    requires |sb| == BS && forall c :: 0 <= c < BLOCKS ==> Used(sb, c)
    ensures FreeBlocks(sb) == {}
  {
    hide Used;
  }

  /** The block count, computed in 64 bits. */
  function NBlocks64(n: nat): nat {
    ((n + BS - 1) % U64) / BS
  }

  lemma NBlocksFits(n: nat)
    requires n + BS <= U64
    ensures NBlocks64(n) == NBlocks(n)
    ensures NBlocks(n) <= PTRS <==> n <= LIMIT
  {
  }

  /** Close to 2^64 the count wraps to zero, so that no block is taken. */
  lemma NBlocksWraps(n: nat)
    requires n < U64 < n + BS
    ensures NBlocks64(n) == 0
  {
  }

  /** The length of f on the disk is size, all else is as it was, and this is not a file system. */
  ghost predicate Wrecked(im: seq<Block>, d: seq<Byte>, files: set<nat>, f: nat, size: nat) {
    && DiskOk(d) && f < |im| && |im[f]| == BS
    && Image(d) == im[f := SetLen(im[f], size)] && !Fs(Image(d), files)
  }

  lemma Unbacked(im: seq<Block>, files: set<nat>, f: nat, size: nat)
    requires Fs(im, files) && f in files && f < TOTAL && LIMIT < size < U64
    ensures !Fs(im[f := SetLen(im[f], size)], files)
  {
    var im' := im[f := SetLen(im[f], size)];
    LenSet(im[f], size, 0);
    hide SetLen, Len;
    assert Sizes(im') ==> !InodeOk(im', f);
  }

  lemma NBlocksMonotone(m: nat, n: nat)
    requires m <= n
    ensures NBlocks(m) <= NBlocks(n)
  {
  }

  // How an operation ends and how many blocks it leaves free, for a file of len bytes and free blocks before.

  /** Taking blocks for a file that has n of them and needs nb. */
  function TakeStatus(n: nat, nb: nat, free: nat): Status
    requires n <= PTRS
  {
    if nb <= n || (nb <= PTRS && nb - n <= free) then Ok else if free <= PTRS - n then Panic else TooBig
  }

  function TakeFree(n: nat, nb: nat, free: nat): nat
    requires n <= PTRS
  {
    match TakeStatus(n, nb, free)
    case Ok => if nb <= n then free else free - (nb - n)
    case TooBig => free - (PTRS - n) - 1
    case _ => 0
  }

  function GrowStatus(len: nat, size: nat, free: nat): Status
    requires len <= LIMIT
  {
    if size < len then Inval
    else if size + BS > U64 then Wild
    else TakeStatus(NBlocks(len), NBlocks(size), free)
  }

  function GrowFree(len: nat, size: nat, free: nat): nat
    requires len <= LIMIT
  {
    if size < len then free else TakeFree(NBlocks(len), NBlocks(size), free)
  }

  function WriteStatus(len: nat, off: nat, count: nat, free: nat): Status
    requires len <= LIMIT
  {
    var end := (off + count) % U64;
    var grow := if end <= len then Ok else GrowStatus(len, end, free);
    if grow != Ok || off + count < U64 then grow
    else if NBlocks64(end) <= off / BS then Lost
    else Overrun
  }

  function WriteFree(len: nat, off: nat, count: nat, free: nat): nat
    requires len <= LIMIT
  {
    var end := (off + count) % U64;
    if end <= len then free else GrowFree(len, end, free)
  }

  function CreateStatus(len: nat, free: nat): Status
    requires len <= LIMIT
  {
    if free == 0 then
      var r := GrowStatus(len, len + DENT_NAME + 8, 0);
      if r == Ok then Stray else r
    else GrowStatus(len, len + DENT_NAME + 8, free - 1)
  }

  function CreateFree(len: nat, free: nat): nat
    requires len <= LIMIT
  {
    GrowFree(len, len + DENT_NAME + 8, if free == 0 then 0 else free - 1)
  }

  /** When a file of len bytes can be made size bytes long, with so many blocks free. */
  predicate CanGrow(len: nat, size: nat, free: nat) {
    len <= size <= LIMIT && NBlocks(size) - NBlocks(len) <= free
  }

  /** Growing succeeds exactly within the 256 blocks of an inode and the free blocks, and takes what it needs. */
  lemma GrowsExactly(len: nat, size: nat, free: nat)
    requires len <= LIMIT && size < U64
    ensures GrowStatus(len, size, free) == Ok <==> CanGrow(len, size, free)
    ensures CanGrow(len, size, free) ==> GrowFree(len, size, free) == free - (NBlocks(size) - NBlocks(len))
    ensures GrowStatus(len, size, free) in {Ok, Inval, Wild, Panic, TooBig}
  {
    if len <= size {
      NBlocksMonotone(len, size);
    }
    if size + BS <= U64 {
      NBlocksFits(size);
    }
  }

  /** Writing at the end is growing. */
  lemma AppendGrows(len: nat, count: nat, free: nat)
    requires len <= LIMIT && 0 < count <= BS
    ensures WriteStatus(len, len, count, free) == GrowStatus(len, len + count, free)
    ensures GrowStatus(len, len + count, free) in {Ok, Panic, TooBig}
    ensures WriteFree(len, len, count, free) == GrowFree(len, len + count, free)
  {
    GrowKinds(len, len + count, free);
    hide GrowStatus, GrowFree, NBlocks, NBlocks64;
    Arith.DivModOf(len + count, U64, 0, len + count);
  }

  lemma GrowKinds(len: nat, size: nat, free: nat)
    requires len <= LIMIT && len <= size && size + BS <= U64
    ensures GrowStatus(len, size, free) in {Ok, Panic, TooBig}
  {
    hide NBlocks;
  }

  class FileSystem {
    const disk: Disk
    ghost var files: set<nat>
    ghost var spare: set<nat>    // blocks taken for an inode that is not written yet

    /** dbfs_init with reset; junk is what the buffer of the root inode happens to hold. */
    constructor (disk: Disk, junk: Block)
      requires DiskOk(disk.bytes) && |junk| == BS
      modifies disk
      ensures Valid() && this.disk == disk && files == {ROOT} && spare == {} && Files() == map[ROOT := []]
      ensures Free() == BLOCKS - 2
    {
      this.disk, files, spare := disk, {ROOT}, {};
      new;
      hide Image, Fs, Content, Len, Used;
      var sb: Block := [3] + seq(BS - 1, _ => 0);
      disk.WriteSuperblock(sb);
      WholeBlock(Image(disk.bytes)[ROOT], 0, SetLen(junk, 0));
      var r := disk.WriteBlock(ROOT, SetLen(junk, 0), 0);
      EmptyFs(Image(disk.bytes), junk);
      ResetFree(sb);
    }

    ghost predicate Valid()
      reads this, disk
    {
      DiskOk(disk.bytes) && Fs(Image(disk.bytes), files) && Spare(Image(disk.bytes), files, spare)
    }

    ghost function Files(): map<nat, seq<Byte>>
      reads this, disk
      requires Valid()
    {
      FilesOf(Image(disk.bytes), files)
    }

    ghost function Free(): nat
      reads this, disk
      requires Valid()
    {
      |FreeBlocks(Image(disk.bytes)[0])|
    }

    /** dbfs_read_inode. */
    method ReadInode(f: nat) returns (ino: Block)
      requires Valid() && f in files
      ensures f < BLOCKS && ino == Image(disk.bytes)[f] && |ino| == BS && Len(ino) == |Files()[f]| <= LIMIT
    {
      hide Image, Fs, Content, Len, Whole;
      InodeFacts(Image(disk.bytes), files, f);
      WholeIn(f, 0);
      var r;
      r, ino := disk.ReadBlock(f, 0, BS);
    }

    /** The blocks a longer file takes, put into its inode in memory. */
    method TakeBlocks(f: nat, ino0: Block, nb: nat, ghost len: nat) returns (r: Status, ino: Block, ghost ps: seq<nat>)
      requires Valid() && f in files && f < TOTAL && ino0 == Image(disk.bytes)[f] && len == Len(ino0)
      modifies disk
      ensures Valid() && Files() == old(Files()) && f < TOTAL && Image(disk.bytes)[f] == ino0
      ensures forall i :: 0 <= i < |ps| ==> ps[i] !in spare
      ensures r == Ok ==> AllFresh(Image(disk.bytes), files, ps) && Extends(ino0, ino, ps)
      ensures r == Ok ==> NBlocks(len) + |ps| == if nb < NBlocks(len) then NBlocks(len) else nb
      ensures NBlocks(len) <= PTRS && r == TakeStatus(NBlocks(len), nb, old(Free()))
      ensures Free() == TakeFree(NBlocks(len), nb, old(Free()))
    {
      hide Image, Fs, Content, Len, Used, FilesOf, AllFresh, Extends, NBlocks, Spare;
      ino, ps := ino0, [];
      ghost var im0 := Image(disk.bytes);
      StartTaking(im0, files, f);
      var i := NBlocks(Len(ino0));
      while i < nb
        invariant Valid() && Files() == old(Files()) && Image(disk.bytes)[f] == ino0 && |ino| == BS
        invariant AllFresh(Image(disk.bytes), files, ps) && Extends(ino0, ino, ps)
        invariant i == NBlocks(len) + |ps| <= PTRS && (i <= nb || ps == [])
        invariant Free() == old(Free()) - |ps| && forall j :: 0 <= j < |ps| ==> ps[j] !in spare
      {
        ghost var im := Image(disk.bytes);
        var b;
        r, b := disk.AllocBlock();
        if r == NoSpace {
          NoneLeft(im[0]);
          return Panic, ino, ps;
        }
        TakenKeeps(im, Image(disk.bytes), files, b, f);
        SpareTaken(im, Image(disk.bytes), files, b, spare);
        MoreFresh(im, Image(disk.bytes), files, ps, b);
        OneFewer(im, Image(disk.bytes), b);
        if i == PTRS {
          return TooBig, ino, ps;
        }
        ExtendsStep(ino0, ino, ps, b);
        ino, ps := SetPtr(ino, i, b), ps + [b];
        i := i + 1;
      }
      r := Ok;
    }

    /**
     dbfs_truncate: files only grow.  Growing keeps every byte there was; it panics where the
     bitmap runs out of free blocks, and leaves the array of block numbers where that comes first.
     Where the block count wraps, the length is stored without blocks, and the disk is no
     longer a file system.
     */
    method Truncate(f: nat, size: nat) returns (r: Status)
      requires Valid() && f in files && size < U64
      modifies disk
      ensures |old(Files())[f]| <= LIMIT && r == GrowStatus(|old(Files())[f]|, size, old(Free()))
      ensures r != Wild ==> Valid() && Free() == GrowFree(|old(Files())[f]|, size, old(Free()))
      ensures r == Ok ==> Grown(old(Files()), Files(), f, size)
      ensures r == Wild ==> Wrecked(old(Image(disk.bytes)), disk.bytes, files, f, size)
      ensures r !in {Ok, Wild} ==> Files() == old(Files())
    {
      hide Image, Fs, Content, Len, Used, FilesOf, AllFresh, Extends, NBlocks, SetLen, Spare;
      ghost var im0 := Image(disk.bytes);
      InodeFacts(im0, files, f);
      var ino := ReadInode(f);
      if size < Len(ino) {
        return Inval;
      }
      if size + BS > U64 {
        NBlocksWraps(size);
        Unbacked(im0, files, f, size);
        WholeBlock(im0[f], 0, SetLen(ino, size));
        r := disk.WriteBlock(f, SetLen(ino, size), 0);
        return Wild;
      }
      NBlocksFits(size);
      NBlocksMonotone(Len(ino), size);
      ghost var ps;
      ghost var old_ := ino;
      r, ino, ps := TakeBlocks(f, ino, NBlocks64(size), Len(ino));
      if r != Ok {
        return;
      }
      ghost var im := Image(disk.bytes);
      ExtendsLen(old_, ino, ps, size);
      InodeGrown(im, files, f, SetLen(ino, size), ps);
      SpareGrown(im, files, f, SetLen(ino, size), ps, spare);
      WholeBlock(im[f], 0, SetLen(ino, size));
      r := disk.WriteBlock(f, SetLen(ino, size), 0);
      GrownFiles(im, files, f, SetLen(ino, size), size);
    }

    /**
     dbfs_file_pread: succeeds exactly at sector offsets within the file, and returns the
     bytes of the file from there and their number n.  Where the end of the request wraps, it
     reports n bytes and reads none.
     */
    method Pread(f: nat, count: nat, off: nat) returns (r: Status, buf: seq<Byte>, n: nat)
      requires Valid() && f in files && off < U64 && count < U64
      ensures off + count >= U64 ==>
                r == if NBlocks64(Clip((off + count) % U64, |Files()[f]|)) <= off / BS then Lost else Overrun
      ensures r == Lost ==> buf == [] && n > 0
      ensures off + count < U64 ==> r == if off <= |Files()[f]| && Whole(off) then Ok else Panic
      ensures r == Ok ==> buf == Files()[f][off..End(off, count, |Files()[f]|)] && n == |buf|
    {
      hide Image, Fs, Content, Len, Used, FilesOf, NBlocks, Whole;
      var ino := ReadInode(f);
      var end := Clip((off + count) % U64, Len(ino));
      n := Minus64(end, off);
      ReadEnds(off, count, Len(ino));
      hide Clip, Minus64, NBlocks64;
      if count < n {
        return Panic, [], n;
      }
      if off + count >= U64 {
        return if NBlocks64(end) <= off / BS then Lost else Overrun, [], n;
      }
      r, buf := ReadPieces(f, ino, off, end);
    }

    /** The loop over the blocks of a read. */
    method ReadPieces(f: nat, ino: Block, off: nat, end: nat) returns (r: Status, buf: seq<Byte>)
      requires Valid() && f in files && f < TOTAL && ino == Image(disk.bytes)[f] && off <= end <= |Files()[f]|
      ensures r == if Whole(off) then Ok else Panic
      ensures r == Ok ==> buf == Files()[f][off..end]
    {
      hide Image, Fs, Content, Len, Used, FilesOf, NBlocks, Whole, Piece, PieceOff, PieceLen, Ptr, HasBlock;
      InodeFacts(Image(disk.bytes), files, f);
      var start := off / BS;
      var i := start;
      buf := [];
      Pieces(off, end, start, i, 0);
      while i < NBlocks(end)
        invariant start <= i && off + |buf| <= end && Piece(off, end, i, |buf|)
        invariant i > start ==> Whole(off)
        invariant buf == Files()[f][off..off + |buf|]
      {
        Pieces(off, end, start, i, |buf|);
        var blkoff, blklen := PieceOff(off, i), PieceLen(off, end, i);
        NBlocksMonotone(end, Len(ino));
        DataBlock(Image(disk.bytes), files, f, i, blkoff, blklen);
        SliceNext(Files()[f], off, |buf|, blklen);
        var piece;
        r, piece := disk.ReadBlock(Ptr(ino, i), blkoff, blklen);
        if r != Ok {
          return Panic, buf;
        }
        buf, i := buf + piece, i + 1;
      }
      Pieces(off, end, start, i, |buf|);
      if i == start {
        NoPieces(off, end);
      }
      r := Ok;
    }

    /** The loop over the blocks of a write. */
    method WritePieces(f: nat, ino: Block, off: nat, data: seq<Byte>) returns (r: Status)
      requires Valid() && f in files && f < TOTAL && ino == Image(disk.bytes)[f] && off + |data| <= |Files()[f]|
      modifies disk
      ensures r == Ok && Valid() && Files() == old(Files())[f := Overlay(old(Files())[f], off, data)]
      ensures Free() == old(Free())
    {
      hide Image, Fs, Content, Len, Used, FilesOf, NBlocks, Piece, PieceOff, PieceLen, Ptr, HasBlock, Overlay, Spare;
      ghost var a := Files();
      InodeFacts(Image(disk.bytes), files, f);
      var end, start, done := off + |data|, off / BS, 0;
      var i := start;
      Pieces(off, end, start, i, 0);
      OverlayNothing(a, f, off, data);
      while i < NBlocks(end)
        invariant start <= i && 0 <= done && off + done <= end && Piece(off, end, i, done)
        invariant Valid() && Image(disk.bytes)[f] == ino && Free() == old(Free())
        invariant Files() == a[f := Overlay(a[f], off, data[..done])]
      {
        Pieces(off, end, start, i, done);
        var blkoff, blklen := PieceOff(off, i), PieceLen(off, end, i);
        ghost var im := Image(disk.bytes);
        InodeFacts(im, files, f);
        NBlocksMonotone(end, Len(ino));
        DataBlock(im, files, f, i, blkoff, blklen);
        var piece := data[done..done + blklen];
        PieceWritten(im, files, f, i, blkoff, piece, spare);
        r := disk.WriteBlock(Ptr(ino, i), piece, blkoff);
        OverlayPiece(a, f, off, data, done, blklen);
        done, i := done + blklen, i + 1;
      }
      Pieces(off, end, start, i, done);
      assert data[..done] == data;
      r := Ok;
    }

    /**
     dbfs_file_pwrite: grows the file if need be, then overwrites bytes off to off+count of
     this one file.  It succeeds exactly when the file can grow that far.  Where the end of
     the request wraps, it reports success and writes nothing, but may still grow the file; only
     where the wrapped end is past the start of the block of off does it move a negative length.
     */
    method Pwrite(f: nat, data: seq<Byte>, off: nat) returns (r: Status)
      requires Valid() && f in files && off < U64 && |data| < U64
      modifies disk
      ensures |old(Files())[f]| <= LIMIT && r == WriteStatus(|old(Files())[f]|, off, |data|, old(Free()))
      ensures r !in {Wild, Overrun} ==>
                Valid() && Free() == WriteFree(|old(Files())[f]|, off, |data|, old(Free()))
      ensures r == Ok ==> Written(old(Files()), Files(), f, off, data)
      ensures r == Lost ==> LostWrite(old(Files()), Files(), f, (off + |data|) % U64)
      ensures r == Wild ==> Wrecked(old(Image(disk.bytes)), disk.bytes, files, f, (off + |data|) % U64)
      ensures r !in {Ok, Lost, Wild, Overrun} ==> Files() == old(Files())
    {
      hide Image, Fs, Content, Len, Used, FilesOf, NBlocks, Overlay, Wrecked;
      var ino := ReadInode(f);
      var end := (off + |data|) % U64;
      ghost var a := Files();
      if end > Len(ino) {
        r := Truncate(f, end);
        if r != Ok {
          return;
        }
        ino := ReadInode(f);
      }
      ghost var b := Files();
      if off + |data| >= U64 {
        return if NBlocks64(end) <= off / BS then Lost else Overrun;
      }
      r := WritePieces(f, ino, off, data);
      WrittenBy(a, b, f, off, data);
    }

    /**
     dbfs_file_create: a new, empty file, and its entry at the end of the directory.  With a
     full bitmap the entry gets the error number as its inode, and writing that inode panics.
     */
    method Create(dir: nat, name: seq<Byte>, junk: Block) returns (r: Status, n: nat)
      requires Valid() && dir in files && |name| == DENT_NAME && |junk| == BS && spare == {}
      modifies this, disk
      ensures Valid() && spare == {}
      ensures |old(Files())[dir]| <= LIMIT && r == CreateStatus(|old(Files())[dir]|, old(Free()))
      ensures Free() == CreateFree(|old(Files())[dir]|, old(Free()))
      ensures r == Ok ==> n !in old(files) && files == old(files) + {n}
      ensures r == Ok ==> Files() == old(Files())[dir := old(Files())[dir] + name + ToBytes(n, 8)][n := []]
      ensures r == Stray ==> Files() == old(Files())[dir := old(Files())[dir] + name + ToBytes(NO_INODE, 8)]
      ensures r != Ok ==> files == old(files)
      ensures r !in {Ok, Stray} ==> Files() == old(Files())
    {
      hide Image, Fs, Content, Len, Used, FilesOf, NBlocks, SetLen, ToBytes, Spare, Taken, Fresh;
      hide Written, WriteStatus, WriteFree, GrowStatus, GrowFree, Wrecked, LostWrite;
      var ino := ReadInode(dir);
      ghost var a, im := Files(), Image(disk.bytes);
      r, n := disk.AllocBlock();
      if r == NoSpace {
        NoneLeft(im[0]);
        r := EnterStray(dir, name, Len(ino));
        return r, NO_INODE;
      }
      TakenKeeps(im, Image(disk.bytes), files, n, dir);
      SpareTaken(im, Image(disk.bytes), files, n, spare);
      OneFewer(im, Image(disk.bytes), n);
      spare := {n};
      OneSpare(Image(disk.bytes), files, n);
      r := Pwrite(dir, name + ToBytes(n, 8), Len(ino));
      AppendGrows(Len(ino), DENT_NAME + 8, old(Free()) - 1);
      if r != Ok {
        spare := {};
        NoSpare(Image(disk.bytes), files);
        return;
      }
      Appended(a, Files(), dir, name + ToBytes(n, 8));
      assert a[dir] + name + ToBytes(n, 8) == a[dir] + (name + ToBytes(n, 8));
      PutInode(n, junk);
    }

    /** The block taken for a new file becomes its inode. */
    method PutInode(n: nat, junk: Block)
      requires Valid() && spare == {n} && |junk| == BS
      modifies this, disk
      ensures Valid() && spare == {} && n !in old(files) && files == old(files) + {n}
      ensures Files() == old(Files())[n := []] && Free() == old(Free())
    {
      hide Image, Fs, Content, Len, Used, FilesOf, SetLen, Spare, Fresh;
      ghost var im := Image(disk.bytes);
      OneSpare(im, files, n);
      LenSet(junk, 0, 0);
      InodeCreated(im, files, n, SetLen(junk, 0));
      WholeBlock(im[n], 0, SetLen(junk, 0));
      var r := disk.WriteBlock(n, SetLen(junk, 0), 0);
      CreatedFiles(im, files, n, SetLen(junk, 0));
      files, spare := files + {n}, {};
      NoSpare(Image(disk.bytes), files);
    }

    /** The rest of a creation for which there was no block: the entry is written, its inode cannot be. */
    method EnterStray(dir: nat, name: seq<Byte>, len: nat) returns (r: Status)
      requires Valid() && dir in files && |name| == DENT_NAME && len == |Files()[dir]| && Free() == 0
      modifies disk
      ensures Valid() && len <= LIMIT && r == CreateStatus(len, 0) && Free() == CreateFree(len, 0)
      ensures Files() == if r == Stray then old(Files())[dir := old(Files())[dir] + name + ToBytes(NO_INODE, 8)]
                         else old(Files())
    {
      hide Image, Fs, Content, Len, Used, FilesOf, NBlocks, ToBytes, Spare, Whole;
      hide Written, WriteStatus, WriteFree, GrowStatus, GrowFree, Wrecked, LostWrite;
      InodeFacts(Image(disk.bytes), files, dir);
      ghost var a := Files();
      r := Pwrite(dir, name + ToBytes(NO_INODE, 8), len);
      AppendGrows(len, DENT_NAME + 8, 0);
      if r != Ok {
        return;
      }
      Appended(a, Files(), dir, name + ToBytes(NO_INODE, 8));
      assert a[dir] + name + ToBytes(NO_INODE, 8) == a[dir] + (name + ToBytes(NO_INODE, 8));
      WholeIn(NO_INODE, 0);
      NoSuchBlock();
      r := disk.Write(BS * NO_INODE % U64, seq(BS, _ => 0));
      return Stray;
    }
  }

  /** The block that the error number stands for lies past the end of any disk. */
  lemma NoSuchBlock()
    ensures Whole(BS * NO_INODE % U64) && BS * NO_INODE % U64 > U64 / 2
  {
    Arith.DivModOf(BS * NO_INODE, U64, BS - 1, U64 - 8 * BS);
    assert U64 - 8 * BS == SECTOR * ((U64 - 8 * BS) / SECTOR);
  }

  lemma OneSpare(im: seq<Block>, files: set<nat>, n: nat)
    requires Sizes(im)
    ensures Spare(im, files, {n}) <==> Fresh(im, files, n)
    ensures Fresh(im, files, n) ==> 0 < n < BLOCKS && n !in files
  {
  }

  lemma NoSpare(im: seq<Block>, files: set<nat>)
    requires Sizes(im)
    ensures Spare(im, files, {})
  {
  }

  lemma CreatedFiles(im: seq<Block>, files: set<nat>, n: nat, ino: Block)
    requires Fs(im, files) && n < TOTAL && n !in files && Fs(im[n := ino], files + {n})
    requires Content(im[n := ino], files + {n}, n) == []
    requires forall g :: g in files ==> Content(im[n := ino], files + {n}, g) == Content(im, files, g)
    ensures FilesOf(im[n := ino], files + {n}) == FilesOf(im, files)[n := []]
  {
    hide Content, Fs;
  }

  /** Writing at the end appends. */
  lemma Appended(a: map<nat, seq<Byte>>, b: map<nat, seq<Byte>>, f: nat, data: seq<Byte>)
    requires f in a && Written(a, b, f, |a[f]|, data)
    ensures b == a[f := a[f] + data]
  {
    assert b[f] == a[f] + data;
  }

  /**
   Bytes off to off+count of f are the data, every other byte f had is as before, f is no
   longer than it needs to be, and every other file is as before.
   */
  ghost predicate Written(a: map<nat, seq<Byte>>, b: map<nat, seq<Byte>>, f: nat, off: nat, data: seq<Byte>) {
    && f in a && f in b && b == a[f := b[f]]
    && |b[f]| == (if off + |data| < |a[f]| then |a[f]| else off + |data|)
    && b[f][off..off + |data|] == data
    && forall k :: 0 <= k < |a[f]| && !(off <= k < off + |data|) ==> b[f][k] == a[f][k]
  }

  lemma WrittenBy(a: map<nat, seq<Byte>>, b: map<nat, seq<Byte>>, f: nat, off: nat, data: seq<Byte>)
    requires f in a && (if off + |data| <= |a[f]| then b == a else Grown(a, b, f, off + |data|))
    ensures Written(a, b[f := Overlay(b[f], off, data)], f, off, data)
  {
    hide Overlay;
    OverlaySlice(b[f], off, data, off, off + |data|);
  }

  lemma OverlayNothing(a: map<nat, seq<Byte>>, f: nat, off: nat, data: seq<Byte>)
    requires f in a && off + |data| <= |a[f]|
    ensures a == a[f := Overlay(a[f], off, data[..0])]
  {
    hide Overlay;
    assert Overlay(a[f], off, data[..0]) == a[f];
  }

  lemma OverlayPiece(a: map<nat, seq<Byte>>, f: nat, off: nat, data: seq<Byte>, done: nat, l: nat)
    requires f in a && off + |data| <= |a[f]| && done + l <= |data|
    ensures var b := a[f := Overlay(a[f], off, data[..done])];
            b[f := Overlay(b[f], off + done, data[done..done + l])] == a[f := Overlay(a[f], off, data[..done + l])]
  {
    hide Overlay;
    OverlayNext(a[f], off, data[..done], data[done..done + l]);
    assert data[..done] + data[done..done + l] == data[..done + l];
  }

  lemma PieceWritten(im: seq<Block>, files: set<nat>, f: nat, i: nat, o: nat, y: seq<Byte>, spare: set<nat>)
    requires Fs(im, files) && Spare(im, files, spare) && f in files && f < TOTAL && i < PTRS && HasBlock(im, f, i)
             && o + |y| <= BS && BS * i + o + |y| <= Len(im[f])
    ensures var p := Ptr(im[f], i);
            && 0 < p < TOTAL && |im[p]| == BS
            && var im' := im[p := Overlay(im[p], o, y)];
            && Fs(im', files) && Spare(im', files, spare) && im'[f] == im[f]
               && BS * i + o + |y| <= |FilesOf(im, files)[f]|
            && FilesOf(im', files) == FilesOf(im, files)[f := Overlay(FilesOf(im, files)[f], BS * i + o, y)]
  {
    DataWritten(im, files, f, i, o, y);
    assert DataOk(im, files, f, i);
    hide Overlay, Len, Ptr, Content, Fs, HasBlock, Spare;
    var p := BlockOf(im, f, i);
    var im' := im[p := Overlay(im[p], o, y)];
    SpareSame(im, im', files, spare);
    assert FilesOf(im', files) == FilesOf(im, files)[f := Overlay(FilesOf(im, files)[f], BS * i + o, y)];
  }

  function Clip(want: nat, len: nat): nat {
    if len < want then len else want
  }

  function End(off: nat, count: nat, len: nat): (e: nat) {
    if len < off + count then (if len < off then off else len) else off + count
  }

  function Minus64(a: nat, b: nat): nat {
    (a - b) % U64
  }

  /** The assertion of a read fails exactly past the end of the file. */
  lemma ReadEnds(off: nat, count: nat, len: nat)
    requires off < U64 && count < U64 && len <= LIMIT
    ensures var end := Clip((off + count) % U64, len);
            && (count < Minus64(end, off) <==> off + count < U64 && off > len)
            && (off + count >= U64 ==> Minus64(end, off) > 0)
            && (off + count < U64 && off <= len ==>
               off <= end == End(off, count, len) && Minus64(end, off) == end - off)
  {
  }

  /** Before block i of a transfer of bytes off to end, done bytes have been moved. */
  predicate Piece(off: nat, end: nat, i: nat, done: nat) {
    off / BS <= i && (if i == off / BS then done == 0 else off + done == if i * BS < end then i * BS else end)
  }

  /** Where the transfer starts in block i, and how much of it lies there. */
  function PieceOff(off: nat, i: nat): nat {
    if i == off / BS then off % BS else 0
  }

  function PieceLen(off: nat, end: nat, i: nat): int {
    (if end - i * BS < BS then end - i * BS else BS) - PieceOff(off, i)
  }

  lemma Pieces(off: nat, end: nat, start: nat, i: nat, done: nat)
    requires off <= end && start == off / BS
    ensures i == start && done == 0 ==> Piece(off, end, i, done)
    ensures Piece(off, end, i, done) && i < NBlocks(end) ==>
              var o, l := PieceOff(off, i), PieceLen(off, end, i);
              0 <= l && o + l <= BS && BS * i + o == off + done && off + done + l <= end
                && Piece(off, end, i + 1, done + l)
    ensures Piece(off, end, i, done) && i >= NBlocks(end) ==> off + done == end
    ensures Whole(PieceOff(off, i)) <==> i != start || Whole(off)
  {
    WholeAt(off);
  }

  /** A transfer that moves no block starts and ends at a block boundary. */
  lemma NoPieces(off: nat, end: nat)
    requires off <= end && NBlocks(end) <= off / BS
    ensures Whole(off)
  {
    assert off == BS * (off / BS) + off % BS;
    WholeIn(off / BS, off % BS);
  }

  lemma WholeAt(off: nat)
    ensures Whole(off % BS) <==> Whole(off)
    ensures Whole(0)
  {
    WholeIn(off / BS, off % BS);
  }

  /** Block i of the file holds its bytes from BS*i on. */
  lemma DataBlock(im: seq<Block>, files: set<nat>, f: nat, i: nat, o: nat, l: nat)
    requires Fs(im, files) && f in files && f < TOTAL && i < NBlocks(Len(im[f])) && o + l <= BS
             && BS * i + o + l <= Len(im[f])
    ensures i < PTRS && HasBlock(im, f, i) && Ptr(im[f], i) < BLOCKS && BlockOf(im, f, i) == Ptr(im[f], i)
    ensures im[Ptr(im[f], i)][o..o + l] == FilesOf(im, files)[f][BS * i + o..BS * i + o + l]
  {
    hide Len, Ptr, Used;
    assert InodeOk(im, f);
    Below(Len(im[f]));
    assert DataOk(im, files, f, i);
    var c := Content(im, files, f);
    var x, y := im[Ptr(im[f], i)][o..o + l], c[BS * i + o..BS * i + o + l];
    forall k | 0 <= k < l ensures x[k] == y[k] {
      assert (BS * i + o + k) / BS == i && (BS * i + o + k) % BS == o + k;
    }
  }

  lemma Below(n: nat)
    requires n <= LIMIT
    ensures NBlocks(n) <= PTRS
  {
  }

  lemma SliceNext(c: seq<Byte>, off: nat, done: nat, l: nat)
    requires off + done + l <= |c|
    ensures c[off..off + done] + c[off + done..off + done + l] == c[off..off + done + l]
  {
  }

  /** A write that moves nothing: f may have grown to the wrapped end. */
  ghost predicate LostWrite(a: map<nat, seq<Byte>>, b: map<nat, seq<Byte>>, f: nat, end: nat) {
    f in a && if end <= |a[f]| then b == a else Grown(a, b, f, end)
  }

  /** File f is now size bytes long and starts with what it held; the others are as they were. */
  ghost predicate Grown(a: map<nat, seq<Byte>>, b: map<nat, seq<Byte>>, f: nat, size: nat) {
    f in a && f in b && b == a[f := b[f]] && a[f] <= b[f] && |b[f]| == size
  }

  lemma ExtendsLen(old_: Block, ino: Block, ps: seq<nat>, size: nat)
    requires Extends(old_, ino, ps) && size < U64
    ensures |ino| == BS && Extends(old_, SetLen(ino, size), ps) && Len(SetLen(ino, size)) == size
  {
    hide Len, Ptr, SetLen, NBlocks;
    LenSet(ino, size, 0);
    forall i | 0 <= i < PTRS ensures Ptr(SetLen(ino, size), i) == Ptr(ino, i) { LenSet(ino, size, i); }
  }

  lemma GrownFiles(im: seq<Block>, files: set<nat>, f: nat, ino: Block, size: nat)
    requires Fs(im, files) && f in files && f < TOTAL && |ino| == BS && Len(ino) == size && Fs(im[f := ino], files)
    requires Content(im, files, f) <= Content(im[f := ino], files, f)
    requires forall g :: g in files && g != f ==> Content(im[f := ino], files, g) == Content(im, files, g)
    ensures Grown(FilesOf(im, files), FilesOf(im[f := ino], files), f, size)
  {
    assert |im| == TOTAL;
    hide Fs, Len, Content;
    var a, b := FilesOf(im, files), FilesOf(im[f := ino], files);
    assert b == a[f := b[f]];
  }

  lemma EmptyFs(im: seq<Block>, junk: Block)
    requires Sizes(im) && |junk| == BS && im[0] == [3] + seq(BS - 1, _ => 0) && im[ROOT] == SetLen(junk, 0)
    ensures Fs(im, {ROOT}) && FilesOf(im, {ROOT}) == map[ROOT := []]
  {
    assert Used(im[0], 0) && Used(im[0], 1) by {
      assert Arith.Pow2(0) == 1 && Arith.Pow2(1) == 2;
    }
    hide Used;
    LenSet(junk, 0, 0);
    NoBlocks(0);
    assert InodeOk(im, ROOT);
  }

  /** The reset leaves every block free but the superblock and the root. */
  lemma ResetFree(sb: Block)
    requires sb == [3] + seq(BS - 1, _ => 0)
    ensures |FreeBlocks(sb)| == BLOCKS - 2
  {
    forall b: nat | b < BLOCKS ensures Used(sb, b) <==> b < 2 { ResetBit(sb, b); }
    hide Used;
    BetweenSize(2, BLOCKS, FreeBlocks(sb));
  }

  lemma ResetBit(sb: Block, b: nat)
    requires sb == [3] + seq(BS - 1, _ => 0) && b < BLOCKS
    ensures Used(sb, b) <==> b < 2
  {
    hide Bit;
    assert sb[b / 8] == if b < 8 then 3 else 0;
    SmallBits(b % 8);
  }

  lemma SmallBits(j: nat)
    ensures (Bit(3, j) <==> j < 2) && !Bit(0, j)
  {
    assert Arith.Pow2(0) == 1 && Arith.Pow2(1) == 2 && Arith.Pow2(2) == 4;
    if j >= 2 {
      Arith.Pow2Monotone(2, j);
    }
  }

  lemma {:induction false} BetweenSize(i: nat, n: nat, s: set<nat>)
    requires i <= n && forall b :: b in s <==> i <= b < n
    ensures |s| == n - i
  {
    if i < n {
      BetweenSize(i, n - 1, s - {n - 1});
    } else {
      assert s == {};
    }
  }

  lemma SpareTaken(im: seq<Block>, im': seq<Block>, files: set<nat>, b: nat, spare: set<nat>)
    requires Fs(im, files) && Sizes(im') && Taken(im, im', b) && Spare(im, files, spare)
    ensures Spare(im', files, spare) && b !in spare && Fresh(im', files, b)
  {
    BlockTaken(im, im', files, b);
    hide Len, Ptr, Used, Fs;
    SpareSame(im, im', files, spare);
    assert b in spare ==> Fresh(im, files, b);
    forall f, i | f in files && HasBlock(im', f, i) ensures BlockOf(im', f, i) != b { assert HasBlock(im, f, i); }
  }

  lemma InodeFacts(im: seq<Block>, files: set<nat>, f: nat)
    requires Fs(im, files) && f in files
    ensures 0 < f < BLOCKS && |im[f]| == BS && Len(im[f]) == |FilesOf(im, files)[f]| <= LIMIT
            && im[f][0..0 + BS] == im[f]
    ensures NBlocks(Len(im[f])) <= PTRS
  {
    assert InodeOk(im, f);
    hide Len;
  }

  lemma StartTaking(im: seq<Block>, files: set<nat>, f: nat)
    requires Fs(im, files) && f in files && f < TOTAL
    ensures AllFresh(im, files, []) && Extends(im[f], im[f], []) && |im[f]| == BS && NBlocks(Len(im[f])) <= PTRS
  {
    assert InodeOk(im, f);
    hide Len, Ptr;
  }

  lemma TakenKeeps(im: seq<Block>, im': seq<Block>, files: set<nat>, b: nat, f: nat)
    requires Fs(im, files) && Sizes(im') && Taken(im, im', b) && f in files
    ensures Fs(im', files) && FilesOf(im', files) == FilesOf(im, files) && f < TOTAL && im'[f] == im[f]
  {
    BlockTaken(im, im', files, b);
    hide Content, Fs;
  }

  // Whole runs.

  /** An operation through handle h: the root directory, or a file created earlier in the run. */
  datatype Op =
    | WriteOp(h: nat, off: nat, data: seq<Byte>)
    | GrowOp(h: nat, size: nat)
    | CreateOp(h: nat, name: seq<Byte>, junk: Block)

  predicate Possible(op: Op, handles: nat) {
    match op
    case WriteOp(h, off, data) => h < handles && off < U64 && |data| < U64
    case GrowOp(h, size) => h < handles && size < U64
    case CreateOp(h, name, junk) => h < handles && |name| == DENT_NAME && |junk| == BS
  }

  /** The disk at some point of a run. */
  datatype Snapshot = Snapshot(im: seq<Block>, files: set<nat>)

  ghost predicate Sound(v: Snapshot) {
    Fs(v.im, v.files)
  }

  ghost function Shown(v: Snapshot): map<nat, seq<Byte>>
    requires Sound(v)
  {
    FilesOf(v.im, v.files)
  }

  ghost function FreeIn(v: Snapshot): nat
    requires Sound(v)
  {
    |FreeBlocks(v.im[0])|
  }

  /** How a step ends on a file of len bytes, with so many blocks free. */
  function Outcome(op: Op, len: nat, free: nat): Status
    requires len <= LIMIT
  {
    match op
    case WriteOp(h, off, data) => WriteStatus(len, off, |data|, free)
    case GrowOp(h, size) => GrowStatus(len, size, free)
    case CreateOp(h, name, junk) => CreateStatus(len, free)
  }

  /** How many blocks are free then. */
  function FreeAfter(op: Op, len: nat, free: nat): nat
    requires len <= LIMIT
  {
    match op
    case WriteOp(h, off, data) => WriteFree(len, off, |data|, free)
    case GrowOp(h, size) => GrowFree(len, size, free)
    case CreateOp(h, name, junk) => CreateFree(len, free)
  }

  /** What a step on file f does to the files; n is the inode of a file it creates. */
  ghost predicate Effect(op: Op, f: nat, r: Status, n: nat, a: map<nat, seq<Byte>>, b: map<nat, seq<Byte>>) {
    if r == Lost then op.WriteOp? && LostWrite(a, b, f, (op.off + |op.data|) % U64)
    else if r == Stray then op.CreateOp? && f in a && b == a[f := a[f] + op.name + ToBytes(NO_INODE, 8)]
    else if r != Ok then b == a
    else match op
    case WriteOp(h, off, data) => Written(a, b, f, off, data)
    case GrowOp(h, size) => Grown(a, b, f, size)
    case CreateOp(h, name, junk) => f in a && n !in a && b == a[f := a[f] + name + ToBytes(n, 8)][n := []]
  }

  method Do(fs: FileSystem, op: Op, f: nat) returns (r: Status, n: nat)
    requires fs.Valid() && fs.spare == {} && f in fs.files && Possible(op, op.h + 1)
    modifies fs, fs.disk
    ensures |old(fs.Files())[f]| <= LIMIT && r == Outcome(op, |old(fs.Files())[f]|, old(fs.Free()))
    ensures fs.spare == {} && old(fs.files) <= fs.files && (op.CreateOp? && r == Ok ==> n in fs.files)
    ensures r !in {Wild, Overrun} ==> fs.Valid() && Effect(op, f, r, n, old(fs.Files()), fs.Files())
    ensures r !in {Wild, Overrun} ==> fs.Free() == FreeAfter(op, |old(fs.Files())[f]|, old(fs.Free()))
  {
    hide Image, Fs, Content, FilesOf, ToBytes, Written, Grown, Wrecked, LostWrite;
    hide WriteStatus, WriteFree, GrowStatus, GrowFree, CreateStatus, CreateFree;
    InodeFacts(Image(fs.disk.bytes), fs.files, f);
    StatusKinds(|fs.Files()[f]|, op, fs.Free());
    n := 0;
    match op {
      case WriteOp(h, off, data) => r := fs.Pwrite(f, data, off);
      case GrowOp(h, size) => r := fs.Truncate(f, size);
      case CreateOp(h, name, junk) => r, n := fs.Create(f, name, junk);
    }
  }

  lemma StatusKinds(len: nat, op: Op, free: nat)
    requires len <= LIMIT && Possible(op, op.h + 1)
    ensures Outcome(op, len, free) in {Ok, Inval, Panic, TooBig, Wild, Lost, Stray, Overrun}
    ensures Outcome(op, len, free) in {Lost, Overrun} ==> op.WriteOp?
    ensures Outcome(op, len, free) == Stray ==> op.CreateOp?
    ensures Outcome(op, len, free) == Wild ==> !op.CreateOp?
  {
  }

  /** A step of a run: the operation was done on file f, or skipped. */
  datatype Step = Did(op: Op, f: nat, r: Status, n: nat) | Skipped(op: Op)

  /** The handles there are after some steps. */
  function Handles(steps: seq<Step>): (hs: seq<nat>) {
    if steps == [] then [ROOT]
    else
      var hs, s := Handles(steps[..|steps| - 1]), steps[|steps| - 1];
      if s.Did? && s.op.CreateOp? && s.r == Ok then hs + [s.n] else hs
  }

  predicate Stops(s: Step) {
    s.Did? && s.r in {Panic, TooBig, Wild, Stray, Overrun}
  }

  /** Nothing is known of the disk after the last step. */
  predicate Ruined(steps: seq<Step>) {
    steps != [] && var s := steps[|steps| - 1]; s.Did? && s.r in {Wild, Overrun}
  }

  /** The step ends as the state before it decides. */
  ghost predicate Ends(s: Step, a: Snapshot)
    requires Sound(a) && s.Did?
  {
    s.f in Shown(a) && |Shown(a)[s.f]| <= LIMIT && s.r == Outcome(s.op, |Shown(a)[s.f]|, FreeIn(a))
  }

  /** Step i does op on the file its handle stands for, or skips it if there is no such handle. */
  ghost predicate StepOk(op: Op, steps: seq<Step>, i: nat, a: Snapshot)
    requires i < |steps| && Sound(a)
  {
    var hs := Handles(steps[..i]);
    if Possible(op, |hs|) then
      && steps[i].Did? && steps[i].op == op && steps[i].f == hs[op.h]
      && Ends(steps[i], a)
    else steps[i] == Skipped(op)
  }

  ghost predicate Moves(s: Step, a: Snapshot, b: Snapshot)
    requires Sound(a) && Sound(b)
  {
    if s.Did? then
      && Effect(s.op, s.f, s.r, s.n, Shown(a), Shown(b))
      && s.f in Shown(a) && |Shown(a)[s.f]| <= LIMIT && FreeIn(b) == FreeAfter(s.op, |Shown(a)[s.f]|, FreeIn(a))
    else b == a
  }

  /** A run of ops: the states are sound, each step is the operation asked for, and only a failure ends it early. */
  ghost predicate IsRun(ops: seq<Op>, steps: seq<Step>, trace: seq<Snapshot>) {
    && |steps| <= |ops| && |trace| == |steps| + (if Ruined(steps) then 0 else 1)
    && (forall i :: 0 <= i < |trace| ==> Sound(trace[i]))
    && (forall i :: 0 <= i < |steps| ==> StepOk(ops[i], steps, i, trace[i]))
    && (forall i :: 0 <= i < |trace| - 1 ==> Moves(steps[i], trace[i], trace[i + 1]))
    && (forall i :: 0 <= i < |steps| - 1 ==> !Stops(steps[i]))
    && (|steps| < |ops| ==> steps != [] && Stops(steps[|steps| - 1]))
  }

  /** Where a run stands before its next operation. */
  ghost predicate Going(ops: seq<Op>, steps: seq<Step>, trace: seq<Snapshot>, now: Snapshot) {
    && |steps| <= |ops| && IsRun(ops[..|steps|], steps, trace) && |trace| == |steps| + 1 && trace[|steps|] == now
    && (forall i :: 0 <= i < |steps| ==> !Stops(steps[i]))
    && (forall h :: 0 <= h < |Handles(steps)| ==> Handles(steps)[h] in now.files)
  }

  /** One more step. */
  lemma GoesOn(ops: seq<Op>, steps: seq<Step>, trace: seq<Snapshot>, a: Snapshot, step: Step, b: Snapshot)
    requires Going(ops, steps, trace, a) && |steps| < |ops| && Sound(a)
    requires StepOk(ops[|steps|], steps + [step], |steps|, a)
    requires !Ruined([step]) ==> Sound(b) && Moves(step, a, b) && a.files <= b.files
    requires step.Did? && step.op.CreateOp? && step.r == Ok ==> step.n in b.files
    ensures !Stops(step) ==> Going(ops, steps + [step], trace + [b], b)
    ensures Stops(step) ==> IsRun(ops, steps + [step], if Ruined([step]) then trace else trace + [b])
  {
    hide Sound, Shown, FreeIn, Outcome, Effect, StepOk, Moves, Handles;
    var n := |steps|;
    var steps' := steps + [step];
    var trace' := if Ruined([step]) then trace else trace + [b];
    StepsMore(ops, steps, step, trace);
    HandlesMore(steps, step);
    assert ops[..n] == ops[..n + 1][..n];
    forall k | 0 <= k < n ensures StepOk(ops[k], steps', k, trace[k]) {
      assert ops[..n][k] == ops[k] && StepOk(ops[..n][k], steps, k, trace[k]);
    }
    forall k | 0 <= k < |trace'| - 1 ensures Moves(steps'[k], trace'[k], trace'[k + 1]) {
      assert k < n ==> Moves(steps[k], trace[k], trace[k + 1]);
    }
  }

  lemma HandlesMore(steps: seq<Step>, step: Step)
    ensures Handles(steps + [step]) ==
            Handles(steps) + if step.Did? && step.op.CreateOp? && step.r == Ok then [step.n] else []
  {
    assert (steps + [step])[..|steps|] == steps;
  }

  /** Every sequence of writes, growths and creations is such a run from the state before to the one after. */
  method Run(fs: FileSystem, ops: seq<Op>) returns (ghost steps: seq<Step>, ghost trace: seq<Snapshot>)
    requires fs.Valid() && fs.spare == {}
    modifies fs, fs.disk
    ensures IsRun(ops, steps, trace) && |trace| > 0 && trace[0] == old(Snapshot(Image(fs.disk.bytes), fs.files))
    ensures !Ruined(steps) ==> fs.Valid() && trace[|steps|] == Snapshot(Image(fs.disk.bytes), fs.files)
  {
    hide Image, Fs, Content, FilesOf, Effect, Outcome, FreeAfter, FreeBlocks, Handles, IsRun;
    var handles := [ROOT];
    steps, trace := [], [Snapshot(Image(fs.disk.bytes), fs.files)];
    ghost var now := trace[0];
    RunStart(ops, now);
    var i := 0;
    while i < |ops|
      invariant 0 <= i == |steps| <= |ops| && fs.Valid() && fs.spare == {} && handles == Handles(steps)
      invariant |trace| == i + 1 && trace[0] == old(Snapshot(Image(fs.disk.bytes), fs.files))
      invariant now == Snapshot(Image(fs.disk.bytes), fs.files) && Going(ops, steps, trace, now)
    {
      if Possible(ops[i], |handles|) {
        ghost var before := now;
        var f := handles[ops[i].h];
        var r, n := Do(fs, ops[i], f);
        if r != Wild && r != Overrun {
          now := Snapshot(Image(fs.disk.bytes), fs.files);
        }
        ghost var step := Did(ops[i], f, r, n);
        assert (steps + [step])[..i] == steps;
        GoesOn(ops, steps, trace, before, step, now);
        HandlesMore(steps, step);
        steps, trace := steps + [step], if r in {Wild, Overrun} then trace else trace + [now];
        if ops[i].CreateOp? && r == Ok {
          handles := handles + [n];
        }
        if r == Panic || r == TooBig || r == Stray || r == Wild || r == Overrun {
          return;
        }
      } else {
        assert (steps + [Skipped(ops[i])])[..i] == steps;
        GoesOn(ops, steps, trace, now, Skipped(ops[i]), now);
        HandlesMore(steps, Skipped(ops[i]));
        steps, trace := steps + [Skipped(ops[i])], trace + [now];
      }
      i := i + 1;
    }
    assert ops[..i] == ops;
  }

  lemma RunStart(ops: seq<Op>, now: Snapshot)
    requires Sound(now)
    ensures Going(ops, [], [now], now) && Handles([]) == [ROOT]
  {
    hide Sound, Shown;
    assert ops[..0] == [];
    assert ROOT in now.files by { RootIn(now); }
  }

  lemma RootIn(now: Snapshot)
    requires Sound(now)
    ensures ROOT in now.files
  {
  }

  /** What is known of the steps so far stays known when one is added. */
  lemma StepsMore(ops: seq<Op>, steps: seq<Step>, step: Step, trace: seq<Snapshot>)
    requires |steps| < |ops| && |trace| == |steps| + 1 && forall k :: 0 <= k < |trace| ==> Sound(trace[k])
    ensures (steps + [step])[..|steps|] == steps
    ensures forall k :: 0 <= k < |steps| && StepOk(ops[k], steps, k, trace[k]) ==>
              StepOk(ops[k], steps + [step], k, trace[k])
  {
    hide Sound, Shown, FreeIn, Outcome;
    forall k | 0 <= k < |steps| ensures (steps + [step])[..k] == steps[..k] {}
  }

  /** A file keeps every byte over any stretch of a run with no step on it. */
  lemma {:induction false} Untouched(ops: seq<Op>, steps: seq<Step>, trace: seq<Snapshot>, g: nat, i: nat, j: nat)
    requires IsRun(ops, steps, trace) && i <= j < |trace| && g in Shown(trace[i])
    requires forall k :: i <= k < j && steps[k].Did? ==> steps[k].f != g
    ensures g in Shown(trace[j]) && Shown(trace[j])[g] == Shown(trace[i])[g]
  {
    hide Sound, Shown, IsRun;
    if i < j {
      IsRunParts(ops, steps, trace, j - 1);
      Untouched(ops, steps, trace, g, i, j - 1);
      OthersKept(steps[j - 1], trace[j - 1], trace[j], g);
    }
  }

  /** What is used of a run for step i that is followed by a state. */
  lemma IsRunParts(ops: seq<Op>, steps: seq<Step>, trace: seq<Snapshot>, i: nat)
    requires IsRun(ops, steps, trace) && i + 1 < |trace|
    ensures i < |steps| <= |ops| && Sound(trace[i]) && Sound(trace[i + 1])
    ensures StepOk(ops[i], steps, i, trace[i]) && Moves(steps[i], trace[i], trace[i + 1]) && !Ruined([steps[i]])
  {
    hide Sound, Shown, StepOk, Moves;
  }

  lemma OthersKept(s: Step, a: Snapshot, b: Snapshot, g: nat)
    requires Sound(a) && Sound(b) && Moves(s, a, b) && g in Shown(a) && (s.Did? ==> s.f != g)
    ensures g in Shown(b) && Shown(b)[g] == Shown(a)[g]
  {
    hide Sound, Shown, ToBytes, FreeIn, FreeAfter;
  }

  /** The step writes byte k of file g. */
  predicate Covers(s: Step, g: nat, k: nat) {
    s.Did? && s.f == g && s.r == Ok && s.op.WriteOp? && s.op.off <= k < s.op.off + |s.op.data|
  }

  /** A step that does not write a byte of a file leaves it as it is. */
  lemma ByteKept(s: Step, a: Snapshot, b: Snapshot, g: nat, k: nat)
    requires Sound(a) && Sound(b) && Moves(s, a, b) && !Covers(s, g, k)
    requires g in Shown(a) && k < |Shown(a)[g]|
    ensures g in Shown(b) && k < |Shown(b)[g]| && Shown(b)[g][k] == Shown(a)[g][k]
  {
    hide Sound, Shown, ToBytes, FreeIn, FreeAfter;
  }

  /** A step that writes a byte of a file puts it there. */
  lemma BytePut(s: Step, a: Snapshot, b: Snapshot, g: nat, k: nat)
    requires Sound(a) && Sound(b) && Moves(s, a, b) && Covers(s, g, k)
    ensures g in Shown(b) && k < |Shown(b)[g]| && Shown(b)[g][k] == s.op.data[k - s.op.off]
  {
    hide Sound, Shown, FreeIn, FreeAfter;
    assert Shown(b)[g][s.op.off..s.op.off + |s.op.data|][k - s.op.off] == s.op.data[k - s.op.off];
  }

  /** The last write wins: in every run, a byte of a file is what the last write that covers it put there. */
  lemma {:induction false} LastWrite(ops: seq<Op>, steps: seq<Step>, trace: seq<Snapshot>, i: nat, j: nat, g: nat,
      k: nat)
    requires IsRun(ops, steps, trace) && i < j < |trace| && Covers(steps[i], g, k)
    requires forall l :: i < l < j ==> !Covers(steps[l], g, k)
    ensures g in Shown(trace[j]) && k < |Shown(trace[j])[g]|
    ensures Shown(trace[j])[g][k] == steps[i].op.data[k - steps[i].op.off]
  {
    hide Sound, Shown, IsRun, Covers, Moves, StepOk;
    IsRunParts(ops, steps, trace, j - 1);
    if j == i + 1 {
      BytePut(steps[i], trace[i], trace[j], g, k);
    } else {
      LastWrite(ops, steps, trace, i, j - 1, g, k);
      ByteKept(steps[j - 1], trace[j - 1], trace[j], g, k);
    }
  }

  // Runs that cannot fail.

  /** How far an operation reaches into its file, unless it appends an entry. */
  function Reach(op: Op): nat {
    match op
    case WriteOp(h, off, data) => off + |data|
    case GrowOp(h, size) => size
    case CreateOp(h, name, junk) => 0
  }

  /** The blocks it may need. */
  function Cost(op: Op): nat {
    if op.CreateOp? then 2 else NBlocks(Reach(op))
  }

  function Demand(ops: seq<Op>): nat {
    if ops == [] then 0 else Cost(ops[0]) + Demand(ops[1..])
  }

  function Creations(ops: seq<Op>): nat {
    if ops == [] then 0 else (if ops[0].CreateOp? then 1 else 0) + Creations(ops[1..])
  }

  /** No file can outgrow its inode: none is written beyond e bytes, and every entry may be added to any of them. */
  predicate Fits(ops: seq<Op>, e: nat) {
    e + (DENT_NAME + 8) * Creations(ops) <= LIMIT && forall i :: 0 <= i < |ops| ==> Reach(ops[i]) <= e
  }

  predicate Fails(s: Step) {
    s.Did? && s.r != Ok && !(s.r == Inval && s.op.GrowOp?)
  }

  ghost predicate Bounded(v: Snapshot, e: nat)
    requires Sound(v)
  {
    forall g :: g in Shown(v) ==> |Shown(v)[g]| <= e
  }

  /** One operation, with room in the inode and the blocks it may need. */
  lemma FitsOne(op: Op, len: nat, free: nat)
    requires len <= LIMIT && Reach(op) <= LIMIT && Cost(op) <= free
    requires op.CreateOp? ==> len + DENT_NAME + 8 <= LIMIT
    ensures Outcome(op, len, free) == Ok || (Outcome(op, len, free) == Inval && op.GrowOp?)
    ensures FreeAfter(op, len, free) >= free - Cost(op)
  {
    if op.CreateOp? {
      GrowsExactly(len, len + DENT_NAME + 8, free - 1);
    } else {
      GrowsExactly(len, Reach(op), free);
    }
  }

  /** One step adds at most an entry to what a file may hold. */
  lemma BoundedStep(s: Step, a: Snapshot, b: Snapshot, e: nat)
    requires Sound(a) && Sound(b) && Moves(s, a, b) && Bounded(a, e) && Reach(s.op) <= e && !Fails(s)
    requires s.Did? ==> Possible(s.op, s.op.h + 1)
    ensures Bounded(b, if s.op.CreateOp? then e + DENT_NAME + 8 else e)
  {
    hide Sound, Shown, FreeIn, FreeAfter, ToBytes;
    var e' := if s.op.CreateOp? then e + DENT_NAME + 8 else e;
    forall g | g in Shown(b) ensures |Shown(b)[g]| <= e' {
      if g in Shown(a) {
        assert |Shown(a)[g]| <= e;
      }
    }
  }

  /** Where a run that fits stands before operation i. */
  lemma {:induction false} FitsSoFar(ops: seq<Op>, steps: seq<Step>, trace: seq<Snapshot>, e: nat, i: nat)
    requires IsRun(ops, steps, trace) && |trace| > 0 && Bounded(trace[0], e) && Fits(ops, e)
    requires Demand(ops) <= FreeIn(trace[0]) && i <= |ops|
    ensures i < |trace| && (forall k :: 0 <= k < i && k < |steps| ==> !Fails(steps[k]))
    ensures FreeIn(trace[i]) >= Demand(ops[i..])
    ensures Creations(ops[i..]) <= Creations(ops)
    ensures Bounded(trace[i], e + (DENT_NAME + 8) * (Creations(ops) - Creations(ops[i..])))
  {
    hide Sound, Shown, FreeIn, Bounded, StepOk, Moves;
    if i == 0 {
      assert ops[0..] == ops;
    } else {
      FitsSoFar(ops, steps, trace, e, i - 1);
      assert ops[i - 1..][1..] == ops[i..];
      FitsNext(ops, steps, trace, e, i - 1);
    }
  }

  lemma FitsNext(ops: seq<Op>, steps: seq<Step>, trace: seq<Snapshot>, e: nat, i: nat)
    requires IsRun(ops, steps, trace) && Fits(ops, e) && i < |ops| && i < |trace|
    requires FreeIn(trace[i]) >= Demand(ops[i..]) && Creations(ops[i..]) <= Creations(ops)
    requires Bounded(trace[i], e + (DENT_NAME + 8) * (Creations(ops) - Creations(ops[i..])))
    requires forall k :: 0 <= k < i && k < |steps| ==> !Fails(steps[k])
    ensures i + 1 < |trace| && i < |steps| && !Fails(steps[i])
    ensures FreeIn(trace[i + 1]) >= Demand(ops[i + 1..]) && Creations(ops[i + 1..]) <= Creations(ops)
    ensures Bounded(trace[i + 1], e + (DENT_NAME + 8) * (Creations(ops) - Creations(ops[i + 1..])))
  {
    hide IsRun, Sound, FreeIn, Bounded, StepOk, Moves, Fails, Creations, Demand, Cost, Reach, FreeAfter, Shown;
    Onwards(ops, i);
    var e' := e + (DENT_NAME + 8) * (Creations(ops) - Creations(ops[i..]));
    NotOver(ops, steps, trace, i);
    StepFits(ops[i], steps, i, trace[i], e');
    IsRunParts(ops, steps, trace, i);
    BoundedStep(steps[i], trace[i], trace[i + 1], e');
    FreeStep(steps[i], trace[i], trace[i + 1]);
  }

  lemma Onwards(ops: seq<Op>, i: nat)
    requires i < |ops|
    ensures Demand(ops[i..]) == Cost(ops[i]) + Demand(ops[i + 1..])
    ensures Creations(ops[i..]) == (if ops[i].CreateOp? then 1 else 0) + Creations(ops[i + 1..])
  {
    hide Cost;
    assert ops[i..][1..] == ops[i + 1..];
  }

  /** While no step has failed, there is a next one. */
  lemma NotOver(ops: seq<Op>, steps: seq<Step>, trace: seq<Snapshot>, i: nat)
    requires IsRun(ops, steps, trace) && i < |ops| && i < |trace|
    requires forall k :: 0 <= k < i && k < |steps| ==> !Fails(steps[k])
    ensures i < |steps| && Sound(trace[i]) && StepOk(ops[i], steps, i, trace[i])
    ensures !Fails(steps[i]) ==> i + 1 < |trace|
  {
    hide Sound, Shown, StepOk, Moves;
  }

  lemma StepFits(op: Op, steps: seq<Step>, i: nat, a: Snapshot, e: nat)
    requires i < |steps| && Sound(a) && StepOk(op, steps, i, a) && Bounded(a, e) && Cost(op) <= FreeIn(a)
    requires Reach(op) <= e && (if op.CreateOp? then e + DENT_NAME + 8 else e) <= LIMIT
    ensures steps[i].op == op && !Fails(steps[i]) && (steps[i].Did? ==> Possible(op, op.h + 1))
    ensures steps[i].Did? ==> Ends(steps[i], a) && Cost(op) <= FreeIn(a)
    ensures steps[i].Did? ==> FreeAfter(op, |Shown(a)[steps[i].f]|, FreeIn(a)) >= FreeIn(a) - Cost(op)
  {
    hide Sound, Shown, FreeIn, Outcome, FreeAfter, Handles;
    if steps[i].Did? {
      FitsOne(op, |Shown(a)[steps[i].f]|, FreeIn(a));
    }
  }

  lemma FreeStep(s: Step, a: Snapshot, b: Snapshot)
    requires Sound(a) && Sound(b) && Moves(s, a, b)
    ensures s.Did? ==> s.f in Shown(a) && |Shown(a)[s.f]| <= LIMIT
    ensures FreeIn(b) == if s.Did? then FreeAfter(s.op, |Shown(a)[s.f]|, FreeIn(a)) else FreeIn(a)
  {
    hide Sound, Shown, FreeIn, FreeAfter;
  }

  /**
   A run within the 256 blocks of an inode and the free blocks does every operation, and none
   fails; a step may only refuse to shrink a file or skip a handle that does not exist.
   */
  lemma NeverFails(ops: seq<Op>, steps: seq<Step>, trace: seq<Snapshot>, e: nat)
    requires IsRun(ops, steps, trace) && |trace| > 0 && Bounded(trace[0], e) && Fits(ops, e)
    requires Demand(ops) <= FreeIn(trace[0])
    ensures |steps| == |ops| && |trace| == |steps| + 1
    ensures forall i :: 0 <= i < |steps| ==> !Fails(steps[i])
  {
    hide Sound, Shown, FreeIn, Bounded, StepOk, Moves, Fits;
    FitsSoFar(ops, steps, trace, e, |ops|);
  }

  /** From a reset disk, every such sequence of operations runs to its end. */
  method FromReset(disk: Disk, junk: Block, ops: seq<Op>, ghost e: nat)
    returns (fs: FileSystem, ghost steps: seq<Step>, ghost trace: seq<Snapshot>)
    requires DiskOk(disk.bytes) && |junk| == BS && Fits(ops, e) && Demand(ops) <= BLOCKS - 2
    modifies disk
    ensures fs.disk == disk && fs.Valid() && IsRun(ops, steps, trace) && |trace| == |ops| + 1 == |steps| + 1
    ensures Shown(trace[0]) == map[ROOT := []] && trace[|ops|] == Snapshot(Image(disk.bytes), fs.files)
    ensures forall i :: 0 <= i < |steps| ==> !Fails(steps[i])
  {
    hide Image, Fs, FilesOf, Fits, Demand, IsRun, FreeBlocks, Fails;
    fs := new FileSystem(disk, junk);
    steps, trace := Run(fs, ops);
    NeverFails(ops, steps, trace, e);
    assert !Ruined(steps) by { EndsWell(ops, steps, trace); }
  }

  lemma EndsWell(ops: seq<Op>, steps: seq<Step>, trace: seq<Snapshot>)
    requires IsRun(ops, steps, trace) && |trace| == |steps| + 1
    ensures !Ruined(steps)
  {
  }

  /** What was written is read back. */
  method WriteThenRead(fs: FileSystem, f: nat, data: seq<Byte>, off: nat) returns (r: Status, buf: seq<Byte>)
    requires fs.Valid() && f in fs.files && off < U64 && |data| < U64
    modifies fs.disk
    ensures r == Ok ==> buf == data
    ensures r == Ok <==> off + |data| < U64 && Whole(off)
                         && (off + |data| <= |old(fs.Files())[f]|
                            || CanGrow(|old(fs.Files())[f]|, off + |data|, old(fs.Free())))
  {
    hide Image, Fs, Content, FilesOf, CanGrow, Whole, Wrecked, GrowStatus, GrowFree, WriteFree;
    InodeFacts(Image(fs.disk.bytes), fs.files, f);
    GrowsExactly(|fs.Files()[f]|, (off + |data|) % U64, fs.Free());
    r := fs.Pwrite(f, data, off);
    buf := [];
    if r == Ok {
      var n;
      r, buf, n := fs.Pread(f, |data|, off);
    }
  }
}
