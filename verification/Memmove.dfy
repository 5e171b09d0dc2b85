/**
 lib/memmove.c: overlap-safe copying, by words where both addresses allow it.  Memory is
 one array of bytes; an address is an index into it.
 */
module Memmove {

  type Byte = b: int | 0 <= b < 256

  const WSIZE: nat := 8

  predicate Aligned(a: nat) {
    a % WSIZE == 0
  }

  lemma AlignedStep(a: nat, k: nat)
    requires Aligned(a)
    ensures Aligned(a + WSIZE * k)
  {
  }

  /** The bytes to move singly before words can be moved, going up and going down. */
  function LeadUp(dst: nat, src: nat, length: nat): (t: nat)
    requires length > 0
    ensures t <= length
    ensures length - t >= WSIZE ==> Aligned(dst + t) && Aligned(src + t)
  {
    if src % WSIZE == 0 && dst % WSIZE == 0 then 0
    else if src % WSIZE != dst % WSIZE || length < WSIZE then length
    else WSIZE - src % WSIZE
  }

  function LeadDown(dst: nat, src: nat, length: nat): (t: nat)
    requires length > 0 && dst >= length && src >= length
    ensures t <= length
    ensures length - t >= WSIZE ==> Aligned(dst - t) && Aligned(src - t)
  {
    if src % WSIZE == 0 && dst % WSIZE == 0 then 0
    else if src % WSIZE != dst % WSIZE || length <= WSIZE then length
    else src % WSIZE
  }

  /** Whole words and the bytes left over. */
  lemma WordsAndRest(n: nat)
    ensures n == WSIZE * (n / WSIZE) + n % WSIZE
    ensures n / WSIZE > 0 ==> n >= WSIZE
  {
  }

  /** Memory after n bytes from src have been moved to dst. */
  ghost function Moved(s: seq<Byte>, dst: nat, src: nat, n: nat): (r: seq<Byte>)
    requires dst + n <= |s| && src + n <= |s|
    ensures |r| == |s|
    ensures forall k :: 0 <= k < |s| ==> r[k] == if dst <= k < dst + n then s[src + (k - dst)] else s[k]
  {
    s[..dst] + s[src..src + n] + s[dst + n..]
  }

  /** Moving a block upward in memory order, first piece first, when it goes to lower addresses. */
  lemma UpInPieces(s: seq<Byte>, dst: nat, src: nat, a: nat, b: nat)
    requires dst < src && src + a + b <= |s|
    ensures Moved(Moved(s, dst, src, a), dst + a, src + a, b) == Moved(s, dst, src, a + b)
  {
    assert Moved(Moved(s, dst, src, a), dst + a, src + a, b) == Moved(s, dst, src, a + b);
  }

  /** Last piece first, when it goes to higher addresses. */
  lemma DownInPieces(s: seq<Byte>, dst: nat, src: nat, a: nat, b: nat)
    requires src < dst && dst + a + b <= |s|
    ensures Moved(Moved(s, dst + a, src + a, b), dst, src, a) == Moved(s, dst, src, a + b)
  {
    assert Moved(Moved(s, dst + a, src + a, b), dst, src, a) == Moved(s, dst, src, a + b);
  }

  lemma MovedNothing(s: seq<Byte>, dst: nat, src: nat)
    requires dst <= |s| && src <= |s|
    ensures Moved(s, dst, src, 0) == s
  {
  }

  /** One word, read whole before it is written; both addresses are aligned. */
  method CopyWord(m: array<Byte>, dst: nat, src: nat)
    requires Aligned(dst) && Aligned(src)
    requires dst + WSIZE <= m.Length && src + WSIZE <= m.Length
    modifies m
    ensures m[..] == Moved(old(m[..]), dst, src, WSIZE)
  {
    var w := m[src..src + WSIZE];
    forall k | 0 <= k < WSIZE {
      m[dst + k] := w[k];
    }
    assert m[..] == Moved(old(m[..]), dst, src, WSIZE);
  }

  method BytesUp(m: array<Byte>, dst: nat, src: nat, t: nat)
    requires dst < src && src + t <= m.Length
    modifies m
    ensures m[..] == Moved(old(m[..]), dst, src, t)
  {
    hide Moved;
    MovedNothing(m[..], dst, src);
    for k := 0 to t
      invariant m[..] == Moved(old(m[..]), dst, src, k)
    {
      UpInPieces(old(m[..]), dst, src, k, 1);
      CopyByte(m, dst + k, src + k);
    }
  }

  method BytesDown(m: array<Byte>, dst: nat, src: nat, t: nat)
    requires src < dst && dst + t <= m.Length
    modifies m
    ensures m[..] == Moved(old(m[..]), dst, src, t)
  {
    hide Moved;
    MovedNothing(m[..], dst + t, src + t);
    for k := 0 to t
      invariant m[..] == Moved(old(m[..]), dst + (t - k), src + (t - k), k)
    {
      DownInPieces(old(m[..]), dst + (t - k) - 1, src + (t - k) - 1, 1, k);
      CopyByte(m, dst + (t - k) - 1, src + (t - k) - 1);
    }
  }

  method CopyByte(m: array<Byte>, dst: nat, src: nat)
    requires dst < m.Length && src < m.Length
    modifies m
    ensures m[..] == Moved(old(m[..]), dst, src, 1)
  {
    m[dst] := m[src];
    assert m[..] == Moved(old(m[..]), dst, src, 1);
  }

  method WordsUp(m: array<Byte>, dst: nat, src: nat, t: nat)
    requires dst < src && src + WSIZE * t <= m.Length && (t > 0 ==> Aligned(dst) && Aligned(src))
    modifies m
    ensures m[..] == Moved(old(m[..]), dst, src, WSIZE * t)
  {
    hide Moved;
    MovedNothing(m[..], dst, src);
    for k := 0 to t
      invariant m[..] == Moved(old(m[..]), dst, src, WSIZE * k)
    {
      UpInPieces(old(m[..]), dst, src, WSIZE * k, WSIZE);
      AlignedStep(dst, k);
      AlignedStep(src, k);
      CopyWord(m, dst + WSIZE * k, src + WSIZE * k);
    }
  }

  method WordsDown(m: array<Byte>, dst: nat, src: nat, t: nat)
    requires src < dst && dst + WSIZE * t <= m.Length && (t > 0 ==> Aligned(dst) && Aligned(src))
    modifies m
    ensures m[..] == Moved(old(m[..]), dst, src, WSIZE * t)
  {
    hide Moved;
    MovedNothing(m[..], dst + WSIZE * t, src + WSIZE * t);
    for k := 0 to t
      invariant m[..] == Moved(old(m[..]), dst + WSIZE * (t - k), src + WSIZE * (t - k), WSIZE * k)
    {
      ghost var lo := WSIZE * (t - k - 1);
      DownInPieces(old(m[..]), dst + lo, src + lo, WSIZE, WSIZE * k);
      AlignedStep(dst, t - k - 1);
      AlignedStep(src, t - k - 1);
      CopyWord(m, dst + WSIZE * (t - k - 1), src + WSIZE * (t - k - 1));
    }
  }

  /**
   memmove: for every pair of addresses and every length, overlapping or not, the
   destination holds the old source bytes and no other byte changes.  Words are only moved
   between aligned addresses.
   */
  method Move(m: array<Byte>, dst0: nat, src0: nat, length0: nat)
    requires dst0 + length0 <= m.Length && src0 + length0 <= m.Length
    modifies m
    ensures m[..] == Moved(old(m[..]), dst0, src0, length0)
  {
    if length0 == 0 || dst0 == src0 {
      assert m[..] == Moved(m[..], dst0, src0, length0);
      return;
    }
    if dst0 < src0 {
      MoveUp(m, dst0, src0, length0);
    } else {
      MoveDown(m, dst0, src0, length0);
    }
  }

  method MoveUp(m: array<Byte>, dst0: nat, src0: nat, length0: nat)
    requires dst0 < src0 && src0 + length0 <= m.Length && length0 > 0
    modifies m
    ensures m[..] == Moved(old(m[..]), dst0, src0, length0)
  {
    hide Moved, Aligned, LeadUp;
    ghost var s := m[..];
    var a := LeadUp(dst0, src0, length0);
    var length := length0 - a;
    BytesUp(m, dst0, src0, a);
    WordsAndRest(length);
    var t, u := length / WSIZE, length % WSIZE;
    var b := WSIZE * t;
    WordsUp(m, dst0 + a, src0 + a, t);
    UpInPieces(s, dst0, src0, a, b);
    BytesUp(m, dst0 + a + b, src0 + a + b, u);
    UpInPieces(s, dst0, src0, a + b, u);
  }

  method MoveDown(m: array<Byte>, dst0: nat, src0: nat, length0: nat)
    requires src0 < dst0 && dst0 + length0 <= m.Length && length0 > 0
    modifies m
    ensures m[..] == Moved(old(m[..]), dst0, src0, length0)
  {
    hide Moved, Aligned, LeadDown;
    ghost var s := m[..];
    var a := LeadDown(dst0 + length0, src0 + length0, length0);
    var length := length0 - a;
    BytesDown(m, dst0 + length, src0 + length, a);
    WordsAndRest(length);
    var t, u := length / WSIZE, length % WSIZE;
    var b := WSIZE * t;
    AlignedBack(dst0 + length, t);
    AlignedBack(src0 + length, t);
    WordsDown(m, dst0 + u, src0 + u, t);
    DownInPieces(s, dst0 + u, src0 + u, b, a);
    BytesDown(m, dst0, src0, u);
    DownInPieces(s, dst0, src0, u, b + a);
  }

  lemma AlignedBack(a: nat, k: nat)
    requires a >= WSIZE * k
    ensures Aligned(a) ==> Aligned(a - WSIZE * k)
  {
  }
}
