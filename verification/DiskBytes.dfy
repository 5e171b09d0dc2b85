/**
 Bytes as the file system lays them out: overlays of buffers, 64-bit little-endian numbers,
 and the bits of the free-block map.
 */
module DiskBytes {
  import Arith

  type Byte = b: int | 0 <= b < 256

  /** x with y copied over it at off. */
  function Overlay(x: seq<Byte>, off: nat, y: seq<Byte>): (r: seq<Byte>)
    requires off + |y| <= |x|
    ensures |r| == |x|
    ensures forall k :: 0 <= k < |x| ==> r[k] == if off <= k < off + |y| then y[k - off] else x[k]
  {
    x[..off] + y + x[off + |y|..]
  }

  lemma OverlaySlice(x: seq<Byte>, off: nat, y: seq<Byte>, lo: nat, hi: nat)
    requires off + |y| <= |x| && lo <= hi <= |x|
    ensures hi <= off || off + |y| <= lo ==> Overlay(x, off, y)[lo..hi] == x[lo..hi]
    ensures lo == off && hi == off + |y| ==> Overlay(x, off, y)[lo..hi] == y
  {
    hide Overlay;
  }

  /** Copying two adjoining pieces is copying their concatenation. */
  lemma OverlayNext(x: seq<Byte>, off: nat, y: seq<Byte>, z: seq<Byte>)
    requires off + |y| + |z| <= |x|
    ensures Overlay(Overlay(x, off, y), off + |y|, z) == Overlay(x, off, y + z)
  {
    hide Overlay;
    assert Overlay(Overlay(x, off, y), off + |y|, z) == Overlay(x, off, y + z);
  }

  // Numbers.

  function Num(bs: seq<Byte>): nat {
    if bs == [] then 0 else bs[0] + 256 * Num(bs[1..])
  }

  function ToBytes(n: nat, k: nat): (bs: seq<Byte>)
    ensures |bs| == k
  {
    if k == 0 then [] else [n % 256] + ToBytes(n / 256, k - 1)
  }

  function Pow256(k: nat): nat {
    if k == 0 then 1 else 256 * Pow256(k - 1)
  }

  const U64: nat := 0x1_0000_0000_0000_0000

  lemma {:induction false} NumOfBytes(n: nat, k: nat)
    requires n < Pow256(k)
    ensures Num(ToBytes(n, k)) == n
  {
    if k > 0 {
      NumOfBytes(n / 256, k - 1);
      assert ToBytes(n, k)[1..] == ToBytes(n / 256, k - 1);
    }
  }

  lemma Words(n: nat)
    requires n < U64
    ensures Num(ToBytes(n, 8)) == n
  {
    assert Pow256(4) == 0x1_0000_0000;
    assert Pow256(8) == U64;
    NumOfBytes(n, 8);
  }

  // Bits.

  /** Bit j of c. */
  predicate Bit(c: nat, j: nat) {
    c / Arith.Pow2(j) % 2 == 1
  }

  lemma Clear(c: nat, p: nat) returns (a: nat, b: nat)
    requires p > 0 && c / p % 2 != 1
    ensures b < p && c == p * (2 * a) + b
  {
    a, b := c / p / 2, c % p;
    assert c / p == 2 * a;
    assert c == p * (c / p) + b;
  }

  lemma Powers(j: nat, k: nat)
    ensures k < j ==> Arith.Pow2(j) == Arith.Pow2(k) * (2 * Arith.Pow2(j - k - 1))
    ensures j < k ==> Arith.Pow2(k) == 2 * Arith.Pow2(j) * Arith.Pow2(k - j - 1)
  {
    if k < j { Arith.Pow2Sum(k, j - k); }
    if j < k { Arith.Pow2Sum(j + 1, k - j - 1); }
  }

  /** Adding the value of a bit that is clear sets that bit and no other. */
  lemma SetBit(c: nat, j: nat, k: nat)
    requires !Bit(c, j)
    ensures Bit(c + Arith.Pow2(j), k) <==> k == j || Bit(c, k)
  {
    hide Arith.Pow2;
    Powers(j, k);
    var p, q := Arith.Pow2(j), Arith.Pow2(k);
    var a, b := Clear(c, p);
    if k == j {
      OddQuotient(c, p, a, b);
    } else if k < j {
      EvenShift(c, q, Arith.Pow2(j - k - 1));
    } else {
      HighPart(a, b, p, Arith.Pow2(k - j - 1));
    }
  }

  lemma OddQuotient(c: nat, p: nat, a: nat, b: nat)
    requires p > 0 && b < p && c == p * (2 * a) + b
    ensures (c + p) / p % 2 == 1
  {
    assert c + p == p * (2 * a + 1) + b;
    Arith.DivModOf(c + p, p, 2 * a + 1, b);
  }

  lemma EvenShift(c: nat, q: nat, m: nat)
    requires q > 0
    ensures (c + q * (2 * m)) / q % 2 == c / q % 2
  {
    assert c == q * (c / q) + c % q;
    assert c + q * (2 * m) == q * (c / q + 2 * m) + c % q;
    Arith.DivModOf(c + q * (2 * m), q, c / q + 2 * m, c % q);
  }

  lemma HighPart(a: nat, b: nat, p: nat, m: nat)
    requires b < p && m > 0
    ensures (p * (2 * a) + b + p) / (2 * p * m) == (p * (2 * a) + b) / (2 * p * m)
  {
    var x, r := a / m, a % m;
    assert a == m * x + r;
    assert p * (2 * a) == 2 * p * m * x + 2 * p * r;
    assert 2 * p * r + 2 * p <= 2 * p * m by { assert 2 * p * (r + 1) <= 2 * p * m; }
    Arith.DivModOf(p * (2 * a) + b + p, 2 * p * m, x, 2 * p * r + b + p);
    Arith.DivModOf(p * (2 * a) + b, 2 * p * m, x, 2 * p * r + b);
  }

  /** Setting a bit of a byte gives a byte. */
  lemma SetBitFits(c: Byte, j: nat)
    requires j < 8 && !Bit(c, j)
    ensures c + Arith.Pow2(j) < 256
  {
    hide Arith.Pow2;
    var p, m := Arith.Pow2(j), Arith.Pow2(7 - j);
    Arith.Pow2Sum(j, 7 - j);
    Eighth();
    var a, b := Clear(c, p);
    FitsBy(c, p, m, a, b);
  }

  lemma FitsBy(c: nat, p: nat, m: nat, a: nat, b: nat)
    requires p > 0 && p * m == 128 && c < 256 && b < p && c == p * (2 * a) + b
    ensures c + p < 256
  {
    assert p * (2 * a) == 2 * (p * a);
    assert p * a < p * m;
    assert a < m by { assert a >= m ==> p * a >= p * m; }
    assert p * (a + 1) <= p * m;
  }

  lemma Eighth()
    ensures Arith.Pow2(7) == 128
  {
    assert Arith.Pow2(3) == 8;
  }
}
