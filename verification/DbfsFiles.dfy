/**
 fs/dbfs.c, inodes and files: who owns which block, and what a file contains.
 */
module DbfsFiles {
  import opened DiskBytes
  import opened DbfsDisk

  const PTRS: nat := 256
  const LIMIT: nat := PTRS * BS
  const ROOT: nat := 1

  // Inodes.

  function Len(ino: Block): nat
    requires |ino| == BS
  {
    Num(ino[8..16])
  }

  function Ptr(ino: Block, i: nat): nat
    requires |ino| == BS && i < PTRS
  {
    Num(ino[16 + 8 * i..24 + 8 * i])
  }

  function SetLen(ino: Block, n: nat): (r: Block)
    requires |ino| == BS
    ensures |r| == BS
  {
    Overlay(ino, 8, ToBytes(n, 8))
  }

  function SetPtr(ino: Block, i: nat, b: nat): (r: Block)
    requires |ino| == BS && i < PTRS
    ensures |r| == BS
  {
    Overlay(ino, 16 + 8 * i, ToBytes(b, 8))
  }

  lemma LenSet(ino: Block, n: nat, i: nat)
    requires |ino| == BS && n < U64 && i < PTRS
    ensures Len(SetLen(ino, n)) == n && Ptr(SetLen(ino, n), i) == Ptr(ino, i)
  {
    hide Overlay, Num, ToBytes;
    Words(n);
    OverlaySlice(ino, 8, ToBytes(n, 8), 8, 16);
    OverlaySlice(ino, 8, ToBytes(n, 8), 16 + 8 * i, 24 + 8 * i);
  }

  lemma PtrSet(ino: Block, i: nat, b: nat, j: nat)
    requires |ino| == BS && b < U64 && i < PTRS && j < PTRS
    ensures Len(SetPtr(ino, i, b)) == Len(ino)
    ensures Ptr(SetPtr(ino, i, b), j) == if j == i then b else Ptr(ino, j)
  {
    hide Overlay, Num, ToBytes;
    Words(b);
    OverlaySlice(ino, 16 + 8 * i, ToBytes(b, 8), 8, 16);
    OverlaySlice(ino, 16 + 8 * i, ToBytes(b, 8), 16 + 8 * j, 24 + 8 * j);
  }

  /** nblocks: the blocks that n bytes take. */
  function NBlocks(n: nat): nat {
    (n + BS - 1) / BS
  }

  // Ownership.

  ghost predicate Sizes(im: seq<Block>) {
    |im| == TOTAL && forall b :: 0 <= b < TOTAL ==> |im[b]| == BS
  }

  /** Block b is in use for something: marked, and not the superblock. */
  ghost predicate Marked(im: seq<Block>, b: nat)
    requires Sizes(im)
  {
    0 < b < BLOCKS && Used(im[0], b)
  }

  ghost predicate InodeOk(im: seq<Block>, f: nat)
    requires Sizes(im)
  {
    Marked(im, f) && Len(im[f]) <= LIMIT
  }

  /** The i-th block of file f, as its inode says. */
  ghost function BlockOf(im: seq<Block>, f: nat, i: nat): nat
    requires Sizes(im) && f < TOTAL && i < PTRS
  {
    Ptr(im[f], i)
  }

  ghost predicate HasBlock(im: seq<Block>, f: nat, i: nat)
    requires Sizes(im)
  {
    f < TOTAL && i < PTRS && i < NBlocks(Len(im[f]))
  }

  ghost predicate DataOk(im: seq<Block>, files: set<nat>, f: nat, i: nat)
    requires Sizes(im) && HasBlock(im, f, i)
  {
    Marked(im, BlockOf(im, f, i)) && BlockOf(im, f, i) !in files
  }

  ghost predicate Apart(im: seq<Block>, f: nat, i: nat, g: nat, j: nat)
    requires Sizes(im) && HasBlock(im, f, i) && HasBlock(im, g, j)
  {
    BlockOf(im, f, i) == BlockOf(im, g, j) ==> f == g && i == j
  }

  /** The superblock, the inodes and all data blocks are pairwise distinct and marked used. */
  ghost predicate Fs(im: seq<Block>, files: set<nat>) {
    && Sizes(im) && Used(im[0], 0) && ROOT in files
    && (forall f :: f in files ==> InodeOk(im, f))
    && (forall f, i :: f in files && HasBlock(im, f, i) ==> DataOk(im, files, f, i))
    && (forall f, i, g, j :: f in files && g in files && HasBlock(im, f, i) && HasBlock(im, g, j) ==>
       Apart(im, f, i, g, j))
  }

  // Contents.

  ghost function ByteAt(im: seq<Block>, f: nat, k: nat): Byte
    requires Sizes(im) && f < TOTAL && k / BS < PTRS && BlockOf(im, f, k / BS) < TOTAL
  {
    im[BlockOf(im, f, k / BS)][k % BS]
  }

  /** Every byte below the length lies in a block of the file. */
  lemma ByteInBlock(im: seq<Block>, files: set<nat>, f: nat, k: nat)
    requires Fs(im, files) && f in files && k < Len(im[f])
    ensures f < TOTAL && HasBlock(im, f, k / BS) && 0 < BlockOf(im, f, k / BS) < BLOCKS
            && BlockOf(im, f, k / BS) !in files
  {
    assert InodeOk(im, f);
    BlockBelow(k, Len(im[f]));
    assert DataOk(im, files, f, k / BS);
  }

  lemma BlockBelow(k: nat, n: nat)
    requires k < n
    ensures k / BS < NBlocks(n)
    ensures n <= LIMIT ==> NBlocks(n) <= PTRS
  {
  }

  ghost function Content(im: seq<Block>, files: set<nat>, f: nat): (c: seq<Byte>)
    requires Fs(im, files) && f in files
    ensures f < TOTAL && |c| == Len(im[f])
  {
    assert InodeOk(im, f);
    seq(Len(im[f]), k requires 0 <= k < Len(im[f]) => ByteInBlock(im, files, f, k); ByteAt(im, f, k))
  }

  // What the steps keep.

  /** Writing to a data block of f moves one stretch of f's bytes and nothing else. */
  lemma DataWritten(im: seq<Block>, files: set<nat>, f: nat, i: nat, o: nat, y: seq<Byte>)
    requires Fs(im, files) && f in files && f < TOTAL && HasBlock(im, f, i) && o + |y| <= BS
             && BS * i + o + |y| <= Len(im[f])
    ensures var p := BlockOf(im, f, i);
            && p < BLOCKS && p !in files
            && var im' := im[p := Overlay(im[p], o, y)];
            && Fs(im', files)
            && Content(im', files, f) == Overlay(Content(im, files, f), BS * i + o, y)
            && (forall g :: g in files && g != f ==> Content(im', files, g) == Content(im, files, g))
            && (forall g :: g in files ==> g < TOTAL && im'[g] == im[g])
  {
    hide Overlay, Len, Ptr, Used;
    assert DataOk(im, files, f, i);
    var p := BlockOf(im, f, i);
    var im' := im[p := Overlay(im[p], o, y)];
    SameInodes(im, im', files);
    var c, c' := Content(im, files, f), Content(im', files, f);
    forall k | 0 <= k < |c| ensures c'[k] == Overlay(c, BS * i + o, y)[k] {
      ByteInBlock(im, files, f, k);
      assert Apart(im, f, i, f, k / BS);
    }
    assert c' == Overlay(c, BS * i + o, y);
    forall g | g in files && g != f ensures Content(im', files, g) == Content(im, files, g) {
      forall k | 0 <= k < Len(im[g]) ensures Content(im', files, g)[k] == Content(im, files, g)[k] {
        ByteInBlock(im, files, g, k);
        assert Apart(im, f, i, g, k / BS);
      }
    }
  }

  /** While inodes stay as they are and blocks only become used, the file system stays sound. */
  lemma SameInodes(im: seq<Block>, im': seq<Block>, files: set<nat>)
    requires Fs(im, files) && Sizes(im') && (forall f :: f in files && f < TOTAL ==> im'[f] == im[f])
    requires forall b :: 0 <= b < BLOCKS && Used(im[0], b) ==> Used(im'[0], b)
    ensures Fs(im', files) && forall f :: f in files ==> f < TOTAL
  {
    hide Len, Ptr, Used;
    forall f | f in files ensures f < TOTAL && InodeOk(im', f) { assert InodeOk(im, f); }
    forall f, i | f in files && HasBlock(im', f, i) ensures DataOk(im', files, f, i) {
      assert HasBlock(im, f, i);
      assert DataOk(im, files, f, i);
    }
    forall f, i, g, j | f in files && g in files && HasBlock(im', f, i) && HasBlock(im', g, j)
        ensures Apart(im', f, i, g, j) {
      assert HasBlock(im, f, i) && HasBlock(im, g, j);
      assert Apart(im, f, i, g, j);
    }
  }

  /** Taking a block from the bitmap touches no file. */
  lemma BlockTaken(im: seq<Block>, im': seq<Block>, files: set<nat>, b: nat)
    requires Fs(im, files) && Sizes(im') && Taken(im, im', b)
    ensures Fs(im', files) && b != 0 && b !in files
    ensures forall f :: f in files ==> f < TOTAL && im'[f] == im[f] && Content(im', files, f) == Content(im, files, f)
    ensures forall f, i :: f in files && HasBlock(im, f, i) ==> BlockOf(im, f, i) != b
  {
    hide Len, Ptr, Used;
    assert b in files ==> InodeOk(im, b);
    forall f | f in files ensures f < TOTAL && im'[f] == im[f] { assert InodeOk(im, f); }
    SameInodes(im, im', files);
    forall f | f in files ensures Content(im', files, f) == Content(im, files, f) {
      forall k | 0 <= k < Len(im[f]) ensures Content(im', files, f)[k] == Content(im, files, f)[k] {
        ByteInBlock(im, files, f, k);
      }
    }
    forall f, i | f in files && HasBlock(im, f, i) ensures BlockOf(im, f, i) != b { assert DataOk(im, files, f, i); }
  }

  /** Block b is used, but no file has it. */
  ghost predicate Fresh(im: seq<Block>, files: set<nat>, b: nat)
    requires Sizes(im)
  {
    Marked(im, b) && b !in files && forall f, i :: f in files && HasBlock(im, f, i) ==> BlockOf(im, f, i) != b
  }

  ghost predicate AllFresh(im: seq<Block>, files: set<nat>, ps: seq<nat>)
    requires Sizes(im)
  {
    && (forall i :: 0 <= i < |ps| ==> Fresh(im, files, ps[i]))
    && (forall i, j :: 0 <= i < j < |ps| ==> ps[i] != ps[j])
  }

  /** One more block taken is one more fresh block. */
  lemma MoreFresh(im: seq<Block>, im': seq<Block>, files: set<nat>, ps: seq<nat>, b: nat)
    requires Fs(im, files) && Sizes(im') && Taken(im, im', b) && AllFresh(im, files, ps)
    ensures AllFresh(im', files, ps + [b])
  {
    hide Len, Ptr, Used;
    BlockTaken(im, im', files, b);
    forall i | 0 <= i < |ps| + 1 ensures Fresh(im', files, (ps + [b])[i]) {
      if i < |ps| { assert Fresh(im, files, ps[i]); }
      forall f, k | f in files && HasBlock(im', f, k) ensures BlockOf(im', f, k) != (ps + [b])[i] {
        assert HasBlock(im, f, k) && BlockOf(im', f, k) == BlockOf(im, f, k);
      }
    }
    forall i | 0 <= i < |ps| ensures ps[i] != b { assert Fresh(im, files, ps[i]); }
  }

  /** The new inode keeps the old block numbers and adds the fresh ones. */
  ghost predicate Extends(old_: Block, ino: Block, ps: seq<nat>) {
    && |old_| == |ino| == BS && Len(old_) <= LIMIT && NBlocks(Len(old_)) + |ps| <= PTRS
    && (forall i :: 0 <= i < NBlocks(Len(old_)) ==> Ptr(ino, i) == Ptr(old_, i))
    && (forall i :: 0 <= i < |ps| ==> Ptr(ino, NBlocks(Len(old_)) + i) == ps[i])
  }

  lemma ExtendsStep(old_: Block, ino: Block, ps: seq<nat>, b: nat)
    requires Extends(old_, ino, ps) && b < BLOCKS && NBlocks(Len(old_)) + |ps| < PTRS
    ensures Extends(old_, SetPtr(ino, NBlocks(Len(old_)) + |ps|, b), ps + [b])
  {
    hide Len, Ptr, SetPtr, NBlocks;
    var at := NBlocks(Len(old_)) + |ps|;
    forall j | 0 <= j < PTRS
        ensures Ptr(SetPtr(ino, at, b), j) == if j == at then b else Ptr(ino, j) { PtrSet(ino, at, b, j); }
  }

  /** Writing the extended inode makes the file longer and keeps its bytes, and every other file. */
  lemma InodeGrown(im: seq<Block>, files: set<nat>, f: nat, ino: Block, ps: seq<nat>)
    requires Fs(im, files) && f in files && f < TOTAL && Extends(im[f], ino, ps) && AllFresh(im, files, ps)
    requires Len(im[f]) <= Len(ino) <= LIMIT && NBlocks(Len(ino)) == NBlocks(Len(im[f])) + |ps|
    ensures Fs(im[f := ino], files)
    ensures Content(im, files, f) <= Content(im[f := ino], files, f)
    ensures forall g :: g in files && g != f ==> Content(im[f := ino], files, g) == Content(im, files, g)
  {
    hide Len, Ptr, Used, NBlocks;
    var im', nb := im[f := ino], NBlocks(Len(im[f]));
    assert InodeOk(im, f);
    forall g | g in files ensures InodeOk(im', g) { assert InodeOk(im, g); }
    forall g, i | g in files && HasBlock(im', g, i)
        ensures DataOk(im', files, g, i) { GrownBlock(im, files, f, ino, ps, g, i); }
    forall g, i, h, j | g in files && h in files && HasBlock(im', g, i) && HasBlock(im', h, j)
        ensures Apart(im', g, i, h, j) {
      GrownBlock(im, files, f, ino, ps, g, i);
      GrownBlock(im, files, f, ino, ps, h, j);
      if HasBlock(im, g, i) && HasBlock(im, h, j) { assert Apart(im, g, i, h, j); }
    }
    assert Fs(im', files);
    forall g, k | g in files && g < TOTAL && 0 <= k < Len(im[g])
        ensures k < Len(im'[g]) && Content(im', files, g)[k] == Content(im, files, g)[k] {
      ByteInBlock(im, files, g, k);
      ByteInBlock(im', files, g, k);
      GrownBlock(im, files, f, ino, ps, g, k / BS);
    }
    assert Content(im', files, f)[..Len(im[f])] == Content(im, files, f);
    forall g | g in files && g != f ensures Content(im', files, g) == Content(im, files, g) { assert InodeOk(im, g); }
  }

  lemma GrownBlock(im: seq<Block>, files: set<nat>, f: nat, ino: Block, ps: seq<nat>, g: nat, i: nat)
    requires Fs(im, files) && f in files && f < TOTAL && Extends(im[f], ino, ps) && AllFresh(im, files, ps)
    requires NBlocks(Len(ino)) == NBlocks(Len(im[f])) + |ps|
    requires g in files && HasBlock(im[f := ino], g, i)
    ensures var im' := im[f := ino];
            && DataOk(im', files, g, i) && BlockOf(im', g, i) < TOTAL
            && (HasBlock(im, g, i) ==>
               BlockOf(im', g, i) == BlockOf(im, g, i) && im'[BlockOf(im, g, i)] == im[BlockOf(im, g, i)])
            && (!HasBlock(im, g, i) ==>
                  && g == f && NBlocks(Len(im[f])) <= i < NBlocks(Len(im[f])) + |ps|
                  && BlockOf(im', g, i) == ps[i - NBlocks(Len(im[f]))])
  {
    hide Len, Ptr, Used, NBlocks;
    var nb := NBlocks(Len(im[f]));
    assert InodeOk(im, f);
    if HasBlock(im, g, i) {
      assert DataOk(im, files, g, i);
    } else {
      assert Fresh(im, files, ps[i - nb]);
    }
  }

  /** A fresh block becomes an empty file. */
  lemma InodeCreated(im: seq<Block>, files: set<nat>, n: nat, ino: Block)
    requires Fs(im, files) && Fresh(im, files, n) && |ino| == BS && Len(ino) == 0
    ensures Fs(im[n := ino], files + {n})
    ensures Content(im[n := ino], files + {n}, n) == []
    ensures forall g :: g in files ==> Content(im[n := ino], files + {n}, g) == Content(im, files, g)
  {
    hide Len, Ptr, Used;
    var im', files' := im[n := ino], files + {n};
    NoBlocks(0);
    forall g | g in files' ensures InodeOk(im', g) { assert g in files ==> InodeOk(im, g); }
    forall g, i | g in files' && HasBlock(im', g, i) ensures DataOk(im', files', g, i) {
      assert HasBlock(im, g, i);
      assert DataOk(im, files, g, i);
    }
    forall g, i, h, j | g in files' && h in files' && HasBlock(im', g, i) && HasBlock(im', h, j)
        ensures Apart(im', g, i, h, j) {
      assert HasBlock(im, g, i) && HasBlock(im, h, j);
      assert Apart(im, g, i, h, j);
    }
    assert Fs(im', files');
    forall g | g in files ensures Content(im', files', g) == Content(im, files, g) {
      assert InodeOk(im, g);
      forall k | 0 <= k < Len(im[g]) ensures Content(im', files', g)[k] == Content(im, files, g)[k] {
        ByteInBlock(im, files, g, k);
      }
    }
  }

  lemma NoBlocks(n: nat)
    ensures n == 0 ==> NBlocks(n) == 0
  {
  }

  /** Blocks set aside: used, but not part of any file yet. */
  ghost predicate Spare(im: seq<Block>, files: set<nat>, spare: set<nat>)
    requires Sizes(im)
  {
    forall b :: b in spare ==> Fresh(im, files, b)
  }

  /** Blocks set aside stay so while inodes stay as they are and blocks only become used. */
  lemma SpareSame(im: seq<Block>, im': seq<Block>, files: set<nat>, spare: set<nat>)
    requires Fs(im, files) && Spare(im, files, spare) && Sizes(im')
             && (forall f :: f in files && f < TOTAL ==> im'[f] == im[f])
    requires forall b :: 0 <= b < BLOCKS && Used(im[0], b) ==> Used(im'[0], b)
    ensures Spare(im', files, spare)
  {
    assert Sizes(im);
    hide Len, Ptr, Used, Fs;
    forall b | b in spare ensures Fresh(im', files, b) {
      assert Fresh(im, files, b);
      forall f, i | f in files && HasBlock(im', f, i) ensures BlockOf(im', f, i) != b { assert HasBlock(im, f, i); }
    }
  }

  lemma SpareGrown(im: seq<Block>, files: set<nat>, f: nat, ino: Block, ps: seq<nat>, spare: set<nat>)
    requires Fs(im, files) && f in files && f < TOTAL && Extends(im[f], ino, ps) && AllFresh(im, files, ps)
    requires NBlocks(Len(ino)) == NBlocks(Len(im[f])) + |ps|
    requires Spare(im, files, spare) && forall i :: 0 <= i < |ps| ==> ps[i] !in spare
    ensures Spare(im[f := ino], files, spare)
  {
    hide Len, Ptr, Used, NBlocks;
    var im' := im[f := ino];
    assert InodeOk(im, f);
    forall b | b in spare ensures Fresh(im', files, b) {
      assert Fresh(im, files, b);
      forall g, i | g in files && HasBlock(im', g, i)
          ensures BlockOf(im', g, i) != b { GrownBlock(im, files, f, ino, ps, g, i); }
    }
  }
}
