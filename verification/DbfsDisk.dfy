/**
 fs/dbfs.c: a flat file system on a disk of 4096-byte blocks.  Block 0 is a bitmap of used
 blocks; an inode is a block with a length and 256 block numbers.  The disk transfers whole
 512-byte sectors.
 */
module DbfsDisk {
  import opened DiskBytes
  import Arith

  const BS: nat := 4096
  const SECTOR: nat := 512
  const BLOCKS: nat := 8 * BS        // bits in the bitmap
  const TOTAL: nat := BLOCKS + 1     // blocks on the disk: reads run past the end of a block
  const MAX_IO: nat := 65024         // 16 pages less the header, rounded down to sectors

  type Block = seq<Byte>

  /** A whole number of sectors. */
  predicate Whole(n: nat) {
    n % SECTOR == 0
  }

  lemma WholeIn(block: nat, off: nat)
    ensures Whole(BS * block + off) <==> Whole(off)
    ensures Whole(BS) && Whole(0)
  {
    var q, r := off / SECTOR, off % SECTOR;
    Arith.DivModOf(BS * block + off, SECTOR, 8 * block + q, r);
  }

  datatype Status =
    | Ok | Inval | Io | NoSpace | Panic
    | TooBig     // the code runs past the block numbers of an inode
    | Wild       // it stores a length without blocks, and reports success
    | Lost       // it moves no byte, and reports success
    | Stray      // it enters the error number as an inode, and then panics
    | Overrun    // it moves a block with a negative length

  ghost predicate DiskOk(d: seq<Byte>) {
    TOTAL * BS <= |d| <= U64 / 2
  }

  ghost function Image(d: seq<Byte>): (im: seq<Block>)
    requires DiskOk(d)
    ensures |im| == TOTAL && forall b :: 0 <= b < TOTAL ==> |im[b]| == BS
  {
    seq(TOTAL, b requires 0 <= b < TOTAL => d[BS * b..BS * b + BS])
  }

  /** Writing inside one block changes that block and no other. */
  lemma ImageWrite(d: seq<Byte>, b: nat, off: nat, y: seq<Byte>)
    requires DiskOk(d) && b < TOTAL && off + |y| <= BS
    ensures DiskOk(Overlay(d, BS * b + off, y))
    ensures Image(Overlay(d, BS * b + off, y)) == Image(d)[b := Overlay(Image(d)[b], off, y)]
  {
    hide Overlay;
    var d' := Overlay(d, BS * b + off, y);
    var im, im' := Image(d), Image(d');
    forall c | 0 <= c < TOTAL ensures im'[c] == im[b := Overlay(im[b], off, y)][c] {
      if c == b {
        var x := Overlay(im[b], off, y);
        forall k | 0 <= k < BS ensures im'[b][k] == x[k] {
          assert im'[b][k] == d'[BS * b + k] && im[b][k] == d[BS * b + k];
        }
        assert im'[b] == x;
      } else {
        OverlaySlice(d, BS * b + off, y, BS * c, BS * c + BS);
      }
    }
  }

  lemma ImageSlice(d: seq<Byte>, b: nat, off: nat, count: nat)
    requires DiskOk(d) && b < TOTAL && off + count <= BS
    ensures Image(d)[b][off..off + count] == d[BS * b + off..BS * b + off + count]
  {
    var x := d[BS * b..BS * b + BS];
    assert x == Image(d)[b];
    assert x[off..off + count] == d[BS * b + off..BS * b + off + count];
  }

  /** Block b is marked used in the bitmap. */
  predicate Used(sb: Block, b: nat)
    requires |sb| == BS && b < BLOCKS
  {
    Bit(sb[b / 8], b % 8)
  }

  /** Setting bit j of byte i marks block 8i+j and no other. */
  lemma MarkUsed(sb: Block, i: nat, j: nat)
    requires |sb| == BS && i < BS && j < 8 && !Bit(sb[i], j)
    ensures sb[i] + Arith.Pow2(j) < 256
    ensures forall c :: 0 <= c < BLOCKS ==> (Used(sb[i := sb[i] + Arith.Pow2(j)], c) <==> c == 8 * i + j || Used(sb, c))
  {
    SetBitFits(sb[i], j);
    var sb' := sb[i := sb[i] + Arith.Pow2(j)];
    forall c | 0 <= c < BLOCKS ensures Used(sb', c) <==> c == 8 * i + j || Used(sb, c) {
      if c / 8 == i { SetBit(sb[i], j, c % 8); }
    }
  }

  /** Block b, the first free one, is now marked used, and nothing else changed. */
  ghost predicate Taken(im: seq<Block>, im': seq<Block>, b: nat) {
    && |im| == |im'| == TOTAL && |im[0]| == |im'[0]| == BS && b < BLOCKS
    && im' == im[0 := im'[0]]
    && !Used(im[0], b) && (forall c :: 0 <= c < b ==> Used(im[0], c))
    && forall c :: 0 <= c < BLOCKS ==> (Used(im'[0], c) <==> c == b || Used(im[0], c))
  }

  lemma MarkFirst(sb: Block, i: nat, j: nat)
    requires |sb| == BS && i < BS && j < 8 && !Bit(sb[i], j)
    requires forall k, l :: 0 <= k < i && 0 <= l < 8 ==> Bit(sb[k], l)
    requires forall l :: 0 <= l < j ==> Bit(sb[i], l)
    ensures sb[i] + Arith.Pow2(j) < 256
    ensures !Used(sb, 8 * i + j) && forall c :: 0 <= c < 8 * i + j ==> Used(sb, c)
    ensures forall c :: 0 <= c < BLOCKS ==> (Used(sb[i := sb[i] + Arith.Pow2(j)], c) <==> c == 8 * i + j || Used(sb, c))
  {
    MarkUsed(sb, i, j);
    hide Bit;
    assert (8 * i + j) / 8 == i && (8 * i + j) % 8 == j;
    forall c | 0 <= c < 8 * i + j ensures Used(sb, c) { BlockBits(sb, i, j, c); }
  }

  class Disk {
    var bytes: seq<Byte>

    /** dbfs_disk_read: whole sectors, in pieces that fit the transfer buffer. */
    method Read(offset: nat, nbytes: nat) returns (r: Status, buf: seq<Byte>)
      ensures r == Inval <==> !Whole(offset) || !Whole(nbytes)
      ensures r == Io <==> Whole(offset) && Whole(nbytes) && nbytes > 0 && offset + nbytes > |bytes|
      ensures r == Inval || r == Io || r == Ok
      ensures r == Ok && nbytes > 0 ==> offset + nbytes <= |bytes| && buf == bytes[offset..offset + nbytes]
      ensures r == Ok && nbytes == 0 ==> buf == []
    {
      buf := [];
      if !Whole(offset) || !Whole(nbytes) {
        return Inval, buf;
      }
      var n := nbytes;
      while n > 0
        invariant 0 <= n <= nbytes && |buf| == nbytes - n
        invariant |buf| > 0 ==> offset + |buf| <= |bytes| && buf == bytes[offset..offset + |buf|]
      {
        var size := if MAX_IO < n then MAX_IO else n;
        var at := offset + |buf|;
        if at + size > |bytes| {
          return Io, buf;
        }
        buf, n := buf + bytes[at..at + size], n - size;
      }
      return Ok, buf;
    }

    /** dbfs_disk_write. */
    method Write(offset: nat, buf: seq<Byte>) returns (r: Status)
      modifies this
      ensures r == Inval <==> !Whole(offset) || !Whole(|buf|)
      ensures r == Inval ==> bytes == old(bytes)
      ensures r == Io <==> Whole(offset) && Whole(|buf|) && buf != [] && offset + |buf| > |old(bytes)|
      ensures r == Io && |buf| <= MAX_IO ==> bytes == old(bytes)
      ensures r == Inval || r == Io || r == Ok
      ensures r == Ok && |buf| > 0 ==> offset + |buf| <= |old(bytes)| && bytes == Overlay(old(bytes), offset, buf)
      ensures r == Ok && buf == [] ==> bytes == old(bytes)
    {
      hide Overlay;
      if !Whole(offset) || !Whole(|buf|) {
        return Inval;
      }
      var cc := 0;
      assert buf == [] || offset > |bytes| || bytes == Overlay(bytes, offset, buf[..0]);
      while cc < |buf|
        invariant 0 <= cc <= |buf| && |bytes| == |old(bytes)| && (|buf| <= MAX_IO ==> cc == 0 || cc == |buf|)
        invariant cc == 0 ==> bytes == old(bytes)
        invariant cc > 0 ==> offset + cc <= |bytes| && bytes == Overlay(old(bytes), offset, buf[..cc])
      {
        var size := if MAX_IO < |buf| - cc then MAX_IO else |buf| - cc;
        if offset + cc + size > |bytes| {
          return Io;
        }
        if cc > 0 {
          OverlayNext(old(bytes), offset, buf[..cc], buf[cc..cc + size]);
        }
        assert buf[..cc + size] == buf[..cc] + buf[cc..cc + size];
        bytes := Overlay(bytes, offset + cc, buf[cc..cc + size]);
        cc := cc + size;
      }
      assert buf[..cc] == buf;
      return Ok;
    }

    /** dbfs_read_block: succeeds exactly at sector offsets; the length need not be whole sectors. */
    method ReadBlock(block: nat, off: nat, count: nat) returns (r: Status, buf: seq<Byte>)
      requires DiskOk(bytes) && block < BLOCKS && off <= BS && count <= BS && off + count <= BS
      ensures r == if Whole(off) then Ok else Panic
      ensures r == Ok ==> buf == Image(bytes)[block][off..off + count]
    {
      hide Image, Whole;
      WholeIn(block, off);
      ImageSlice(bytes, block, off, count);
      var at := BS * block + off;
      InDisk(bytes, block, off);
      if Whole(off) && Whole(count) {
        r, buf := Read(at, count);
        assert count == 0 ==> buf == bytes[at..at + count];
      } else {
        r, buf := Read(at, BS);
        if r != Ok {
          return Panic, [];
        }
        assert bytes[at..at + BS][..count] == bytes[at..at + count];
        buf := buf[..count];
      }
    }

    /** alloc_block: takes the first block that the bitmap has free, and marks it. */
    method AllocBlock() returns (r: Status, b: nat)
      requires DiskOk(bytes)
      modifies this
      ensures DiskOk(bytes) && (r == Ok || r == NoSpace)
      ensures r == Ok ==> b < BLOCKS && Taken(Image(old(bytes)), Image(bytes), b)
      ensures r == NoSpace ==> bytes == old(bytes) && forall c :: 0 <= c < BLOCKS ==> Used(Image(bytes)[0], c)
    {
      hide Image, Bit;
      var sb;
      r, sb := ReadSuperblock();
      var i := 0;
      while i < BS
        invariant 0 <= i <= BS && bytes == old(bytes)
        invariant forall k, l :: 0 <= k < i && 0 <= l < 8 ==> Bit(sb[k], l)
      {
        var j := 0;
        while j < 8
          invariant 0 <= j <= 8 && bytes == old(bytes)
          invariant forall l :: 0 <= l < j ==> Bit(sb[i], l)
        {
          if !Bit(sb[i], j) {
            b := 8 * i + j;
            MarkFirst(sb, i, j);
            sb := sb[i := sb[i] + Arith.Pow2(j)];
            WriteSuperblock(sb);
            return Ok, b;
          }
          j := j + 1;
        }
        i := i + 1;
      }
      forall c | 0 <= c < BLOCKS ensures Used(Image(bytes)[0], c) {
        assert Bit(sb[c / 8], c % 8);
      }
      return NoSpace, 0;
    }

    method ReadSuperblock() returns (r: Status, sb: Block)
      requires DiskOk(bytes)
      ensures r == Ok && sb == Image(bytes)[0]
    {
      WholeIn(0, 0);
      r, sb := ReadBlock(0, 0, BS);
    }

    method WriteSuperblock(sb: Block)
      requires DiskOk(bytes) && |sb| == BS
      modifies this
      ensures DiskOk(bytes) && Image(bytes) == Image(old(bytes))[0 := sb]
    {
      var r := WriteBlock(0, sb, 0);
      assert Overlay(Image(old(bytes))[0], 0, sb) == sb;
    }

    /** dbfs_write_block: any offset and length inside the block, by reading the rest first. */
    method WriteBlock(block: nat, buf: seq<Byte>, off: nat) returns (r: Status)
      requires DiskOk(bytes) && block < BLOCKS && off + |buf| <= BS
      modifies this
      ensures r == Ok && DiskOk(bytes)
      ensures Image(bytes) == Image(old(bytes))[block := Overlay(Image(old(bytes))[block], off, buf)]
    {
      hide Image, Overlay, Whole;
      WholeIn(block, off);
      WholeIn(block, 0);
      ImageWrite(bytes, block, off, buf);
      if Whole(off) && Whole(|buf|) {
        r := Write(BS * block + off, buf);
        if buf == [] {
          assert Overlay(Image(bytes)[block], off, buf) == Image(bytes)[block];
        }
      } else {
        var tmp;
        r, tmp := ReadBlock(block, 0, BS);
        tmp := Overlay(tmp, off, buf);
        ImageWrite(bytes, block, 0, tmp);
        r := Write(BS * block, tmp);
        WholeBlock(Image(old(bytes))[block], off, buf);
      }
    }
  }

  lemma InDisk(d: seq<Byte>, block: nat, off: nat)
    requires DiskOk(d) && block < BLOCKS && off <= BS
    ensures BS * block + off + BS <= |d|
  {
  }

  lemma BlockBits(sb: Block, i: nat, j: nat, c: nat)
    requires |sb| == BS && i < BS && j <= 8 && c < 8 * i + j
    requires forall k, l :: 0 <= k < i && 0 <= l < 8 ==> Bit(sb[k], l)
    requires forall l :: 0 <= l < j ==> Bit(sb[i], l)
    ensures Used(sb, c)
  {
  }

  lemma WholeBlock(x: Block, off: nat, y: seq<Byte>)
    requires |x| == BS && off + |y| <= BS
    ensures x[0..0 + BS] == x && Overlay(x, 0, Overlay(x, off, y)) == Overlay(x, off, y)
    ensures |y| == BS ==> Overlay(x, 0, y) == y
  {
    hide Overlay;
    assert |y| == BS ==> Overlay(x, 0, y) == y;
    assert Overlay(x, 0, Overlay(x, off, y)) == Overlay(x, off, y);
  }
}
