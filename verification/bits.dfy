/** Bit strings and big-endian byte strings: the vocabulary shared by the
    base32 decoder (RFC 4648) and the HOTP counter and truncation (RFC 4226). */
module Bits {

  /** An octet. */
  type Byte = b: int | 0 <= b < 256

  /** An unsigned 64-bit integer, the width of the seconds and of the counter. */
  type U64 = x: int | 0 <= x < 0x1_0000_0000_0000_0000

  function Pow2(n: nat): (r: nat)
    ensures r >= 1
  {
    if n == 0 then 1 else 2 * Pow2(n - 1)
  }

  function Pow256(n: nat): (r: nat)
    ensures r >= 1
  {
    if n == 0 then 1 else 256 * Pow256(n - 1)
  }

  // ---------------------------------------------------------------------------
  // Bits, most significant first

  /** The `width` low-order bits of `x`, most significant first. */
  function ToBits(x: nat, width: nat): (b: seq<bool>)
    ensures |b| == width
  {
    if width == 0 then [] else ToBits(x / 2, width - 1) + [x % 2 == 1]
  }

  /** The number whose binary representation, most significant bit first, is `b`. */
  function FromBits(b: seq<bool>): (x: nat)
    ensures x < Pow2(|b|)
  {
    if b == [] then 0 else 2 * FromBits(b[..|b| - 1]) + (if b[|b| - 1] then 1 else 0)
  }

  lemma {:induction false} FromBitsToBits(x: nat, width: nat)
    requires x < Pow2(width)
    ensures FromBits(ToBits(x, width)) == x
  {
    if width > 0 {
      ToBitsStep(x, width);
      assert x / 2 < Pow2(width - 1) by {
        assert Pow2(width) == 2 * Pow2(width - 1);
        DivLess(x, 2, Pow2(width - 1));
      }
      FromBitsToBits(x / 2, width - 1);
      assert x == 2 * (x / 2) + x % 2;
    } else {
      assert ToBits(x, width) == [];
    }
  }

  lemma HalfOf(y: nat, e: nat)
    requires e < 2
    ensures (2 * y + e) / 2 == y && (2 * y + e) % 2 == e
  {
  }

  lemma ToBitsStep(x: nat, width: nat)
    requires width > 0
    ensures FromBits(ToBits(x, width)) == 2 * FromBits(ToBits(x / 2, width - 1)) + x % 2
  {
    var b := ToBits(x, width);
    assert b[..|b| - 1] == ToBits(x / 2, width - 1);
    assert b[|b| - 1] == (x % 2 == 1);
  }

  lemma {:induction false} ToBitsFromBits(b: seq<bool>)
    ensures ToBits(FromBits(b), |b|) == b
  {
    if b != [] {
      var init := b[..|b| - 1];
      var x := FromBits(b);
      var e := if b[|b| - 1] then 1 else 0;
      assert x == 2 * FromBits(init) + e;
      HalfOf(FromBits(init), e);
      ToBitsFromBits(init);
      assert b == init + [b[|b| - 1]];
    }
  }

  // ---------------------------------------------------------------------------
  // Big-endian bytes

  /** The number whose big-endian representation is `b`. */
  function FromBytes(b: seq<Byte>): (x: nat)
    ensures x < Pow256(|b|)
  {
    if b == [] then 0 else 256 * FromBytes(b[..|b| - 1]) + b[|b| - 1]
  }

  /** The `n` low-order bytes of `x`, most significant first. */
  function ToBytes(x: nat, n: nat): (b: seq<Byte>)
    ensures |b| == n
  {
    if n == 0 then [] else ToBytes(x / 256, n - 1) + [x % 256]
  }

  lemma {:induction false} FromBytesToBytes(x: nat, n: nat)
    requires x < Pow256(n)
    ensures FromBytes(ToBytes(x, n)) == x
  {
    if n > 0 {
      ToBytesStep(x, n);
      assert x / 256 < Pow256(n - 1) by {
        assert Pow256(n) == 256 * Pow256(n - 1);
        DivLess(x, 256, Pow256(n - 1));
      }
      FromBytesToBytes(x / 256, n - 1);
      assert x == 256 * (x / 256) + x % 256;
    } else {
      assert ToBytes(x, n) == [];
    }
  }

  lemma ToBytesStep(x: nat, n: nat)
    requires n > 0
    ensures FromBytes(ToBytes(x, n)) == 256 * FromBytes(ToBytes(x / 256, n - 1)) + x % 256
  {
    var b := ToBytes(x, n);
    assert b[..|b| - 1] == ToBytes(x / 256, n - 1);
    assert b[|b| - 1] == x % 256;
  }

  /** Reading `b` as a number and writing it back in |b| bytes gives `b`. */
  lemma {:induction false} ToBytesFromBytes(b: seq<Byte>)
    ensures ToBytes(FromBytes(b), |b|) == b
  {
    if b != [] {
      var init := b[..|b| - 1];
      var x := FromBytes(b);
      assert x == 256 * FromBytes(init) + b[|b| - 1];
      ByteOf(FromBytes(init), b[|b| - 1]);
      ToBytesFromBytes(init);
      assert b == init + [b[|b| - 1]];
    }
  }

  lemma ByteOf(y: nat, e: nat)
    requires e < 256
    ensures (256 * y + e) / 256 == y && (256 * y + e) % 256 == e
  {
  }

  lemma DivLess(x: nat, d: nat, p: nat)
    requires 0 < d && x < d * p
    ensures x / d < p
  {
  }

  // ---------------------------------------------------------------------------
  // Bytes as bits and bits as bytes

  /** The bits of `k`, eight per byte, most significant first. */
  function BytesBits(k: seq<Byte>): (b: seq<bool>)
    ensures |b| == 8 * |k|
  {
    if k == [] then [] else ToBits(k[0], 8) + BytesBits(k[1..])
  }

  /** Groups `b` into bytes, eight bits each, most significant first; fewer
      than eight bits left over at the end are dropped. */
  function PackBytes(b: seq<bool>): (k: seq<Byte>)
    ensures |k| == |b| / 8
  {
    if |b| < 8 then [] else [FromBits(b[..8]) as Byte] + PackBytes(b[8..])
  }

  /** Cutting a whole number of bytes' worth of bits into bytes and writing
      those bytes as bits again gives the bits back. */
  lemma {:induction false} BytesBitsPackBytes(b: seq<bool>)
    requires |b| % 8 == 0
    ensures BytesBits(PackBytes(b)) == b
  {
    if b != [] {
      var k := PackBytes(b);
      assert k[0] == FromBits(b[..8]);
      assert k[1..] == PackBytes(b[8..]);
      ToBitsFromBits(b[..8]);
      BytesBitsPackBytes(b[8..]);
      assert b == b[..8] + b[8..];
    }
  }

  /** Packing the bits of `k`, followed by fewer than eight more bits, gives `k` back. */
  lemma {:induction false} PackBytesBits(k: seq<Byte>, tail: seq<bool>)
    requires |tail| < 8
    ensures PackBytes(BytesBits(k) + tail) == k
  {
    if k != [] {
      var b := BytesBits(k) + tail;
      assert b[..8] == ToBits(k[0], 8);
      assert b[8..] == BytesBits(k[1..]) + tail;
      FromBitsToBits(k[0], 8);
      PackBytesBits(k[1..], tail);
    }
  }

  lemma {:induction false} PackBytesAppend(a: seq<bool>, b: seq<bool>)
    requires |a| % 8 == 0
    ensures PackBytes(a + b) == PackBytes(a) + PackBytes(b)
  {
    if a != [] {
      assert (a + b)[..8] == a[..8];
      assert (a + b)[8..] == a[8..] + b;
      PackBytesAppend(a[8..], b);
    } else {
      assert a + b == b;
    }
  }

  /** The value of a concatenation of bit strings. */
  lemma {:induction false} FromBitsAppend(a: seq<bool>, b: seq<bool>)
    ensures FromBits(a + b) == FromBits(a) * Pow2(|b|) + FromBits(b)
  {
    if b == [] {
      assert a + b == a;
    } else {
      var b' := b[..|b| - 1];
      assert (a + b)[..|a + b| - 1] == a + b';
      assert (a + b)[|a + b| - 1] == b[|b| - 1];
      FromBitsAppend(a, b');
      var x, p, e := FromBits(a), Pow2(|b'|), if b[|b| - 1] then 1 else 0;
      var y := FromBits(b');
      assert FromBits(a + b) == 2 * (x * p + y) + e;
      assert FromBits(b) == 2 * y + e;
      assert Pow2(|b|) == 2 * p;
      TwiceProduct(x, p, y, e);
    }
  }

  lemma TwiceProduct(x: int, p: int, y: int, e: int)
    ensures 2 * (x * p + y) + e == x * (2 * p) + (2 * y + e)
  {
  }

  /** `x` halved `n` times, i.e. shifted right by `n` bits. */
  function Shift(x: nat, n: nat): (y: nat)
    ensures y <= x
  {
    if n == 0 then x else Shift(x / 2, n - 1)
  }

  /** The low `m + n` bits of `x` are its bits above position `n` followed by
      its low `n` bits. */
  lemma {:induction false} ToBitsSplit(x: nat, m: nat, n: nat)
    ensures ToBits(x, m + n) == ToBits(Shift(x, n), m) + ToBits(x, n)
  {
    if n > 0 {
      ToBitsSplit(x / 2, m, n - 1);
    }
  }

  /** ToBitsSplit, followed by more bits. */
  lemma ToBitsSplitAppend(x: nat, m: nat, n: nat, rest: seq<bool>)
    ensures ToBits(x, m + n) + rest == ToBits(Shift(x, n), m) + (ToBits(x, n) + rest)
  {
    ToBitsSplit(x, m, n);
    assert (ToBits(Shift(x, n), m) + ToBits(x, n)) + rest == ToBits(Shift(x, n), m) + (ToBits(x, n) + rest);
  }

  /** The low `w` bits of `x`, read back, give `x` modulo 2^w. */
  lemma {:induction false} LowBits(x: nat, w: nat)
    ensures FromBits(ToBits(x, w)) == x % Pow2(w)
  {
    if w == 0 {
      assert ToBits(x, w) == [] && Pow2(w) == 1;
    } else {
      LowBits(x / 2, w - 1);
      LowBitsStep(x, w);
    }
  }

  lemma LowBitsStep(x: nat, w: nat)
    requires w > 0
    requires FromBits(ToBits(x / 2, w - 1)) == x / 2 % Pow2(w - 1)
    ensures FromBits(ToBits(x, w)) == x % Pow2(w)
  {
    var p := Pow2(w - 1);
    ToBitsStep(x, w);
    ModHalving(x, p);
    assert Pow2(w) == 2 * p;
  }

  /** x mod 2p is twice (x/2 mod p) plus the lowest bit of x. */
  lemma ModHalving(x: nat, p: nat)
    requires p > 0
    ensures 2 * (x / 2 % p) + x % 2 == x % (2 * p)
  {
    var q, r := x / 2 / p, x / 2 % p;
    assert x / 2 == p * q + r;
    assert x == (2 * p) * q + (2 * r + x % 2);
    ModUnique(x, 2 * p, q, 2 * r + x % 2);
  }

  /** The remainder is the unique r in [0, m) with x == m * q + r. */
  lemma ModUnique(x: nat, m: nat, q: nat, r: nat)
    requires r < m && x == m * q + r
    ensures x % m == r
  {
    var q', r' := x / m, x % m;
    var k: int := q as int - q';
    assert m * k == r' - r;
    MulAtLeast(m, k);
  }

  /** A nonzero multiple of m is at least m away from zero. */
  lemma MulAtLeast(m: int, k: int)
    requires m >= 0
    ensures k >= 1 ==> m * k >= m
    ensures k <= -1 ==> m * k <= -m
  {
    if k >= 1 {
      assert m * k == m + m * (k - 1);
    } else if k <= -1 {
      assert m * k == -m + m * (k + 1);
    }
  }

  /** Packing eight bits followed by more bits starts with the byte they form. */
  lemma PackBytesCons(x: seq<bool>, rest: seq<bool>)
    requires |x| == 8
    ensures PackBytes(x + rest) == [FromBits(x) as Byte] + PackBytes(rest)
  {
    assert (x + rest)[..8] == x;
    assert (x + rest)[8..] == rest;
  }

  /** PackBytesCons for a byte whose bits come in two pieces. */
  lemma PackBytesCons2(x: seq<bool>, y: seq<bool>, rest: seq<bool>)
    requires |x| + |y| == 8
    ensures PackBytes(x + (y + rest)) == [FromBits(x + y) as Byte] + PackBytes(rest)
  {
    assert x + (y + rest) == (x + y) + rest;
    PackBytesCons(x + y, rest);
  }

  /** PackBytesCons for a byte whose bits come in three pieces. */
  lemma PackBytesCons3(x: seq<bool>, y: seq<bool>, z: seq<bool>, rest: seq<bool>)
    requires |x| + |y| + |z| == 8
    ensures PackBytes(x + (y + (z + rest))) == [FromBits(x + y + z) as Byte] + PackBytes(rest)
  {
    assert x + (y + (z + rest)) == (x + y + z) + rest;
    PackBytesCons(x + y + z, rest);
  }
}
