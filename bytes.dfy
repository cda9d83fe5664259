/** Bytes and the big-endian fixed-width integers both halves of the codec read and write
    (Go's encoding/binary.BigEndian and the intN/uintN conversions). */
module Bytes {

  newtype byte = x: int | 0 <= x < 0x100

  /** Raw 32- and 64-bit patterns, such as the IEEE-754 bits of a float. */
  newtype uint32 = x: int | 0 <= x < 0x1_0000_0000
  newtype uint64 = x: int | 0 <= x < 0x1_0000_0000_0000_0000

  /** 256^n, the number of values an n-byte field can hold. */
  function Pow256(n: nat): (p: nat)
    ensures p >= 1
  {
    if n == 0 then 1 else 0x100 * Pow256(n - 1)
  }

  /** The unsigned number a byte string denotes when read most significant byte first. */
  function BigEndian(s: seq<byte>): (u: nat)
    ensures u < Pow256(|s|)
  {
    if s == [] then 0
    else
      var init := s[..|s| - 1];
      var u := BigEndian(init) * 0x100 + s[|s| - 1] as nat;
      assert u < Pow256(|s|) by {
        assert BigEndian(init) + 1 <= Pow256(|init|);
        assert (BigEndian(init) + 1) * 0x100 <= Pow256(|init|) * 0x100;
      }
      u
  }

  /** The w bytes, most significant first, of n modulo 256^w. */
  function ToBigEndian(n: nat, w: nat): (s: seq<byte>)
    ensures |s| == w
  {
    if w == 0 then [] else ToBigEndian(n / 0x100, w - 1) + [(n % 0x100) as byte]
  }

  lemma ModOfDecomposition(n: int, m: int, q: int, r: int)
    requires m > 0 && 0 <= r < m && n == m * q + r
    ensures n % m == r && n / m == q
  {
    var q', r' := n / m, n % m;
    assert m * (q - q') == r' - r;
    if q > q' {
      MulAtLeast(m, q - q');
    } else if q < q' {
      MulAtLeast(m, q' - q);
    }
  }

  lemma MulAtLeast(m: int, k: int)
    requires m > 0 && k >= 1
    ensures m * k >= m
  {
    assert m * k == m * (k - 1) + m;
  }

  /** Writing w bytes and reading them back gives n modulo 256^w. */
  lemma {:induction false} BigEndianOfToBigEndian(n: nat, w: nat)
    ensures BigEndian(ToBigEndian(n, w)) == n % Pow256(w)
  {
    if w == 0 {
      assert ToBigEndian(n, 0) == [];
    } else {
      var s := ToBigEndian(n, w);
      var q, r := n / 0x100, n % 0x100;
      assert s[..w - 1] == ToBigEndian(q, w - 1);
      BigEndianOfToBigEndian(q, w - 1);
      var p := Pow256(w - 1);
      var b := q % p;
      assert BigEndian(s) == b * 0x100 + r;
      ShiftedMod(n, p);
    }
  }

  /** Splitting off the last byte: n mod 256p is (n / 256 mod p) * 256 + n mod 256. */
  lemma ShiftedMod(n: nat, p: nat)
    requires p >= 1
    ensures n % (0x100 * p) == (n / 0x100) % p * 0x100 + n % 0x100
  {
    var q, r := n / 0x100, n % 0x100;
    var a, b := q / p, q % p;
    assert n == 0x100 * q + r;
    assert q == p * a + b;
    assert 0x100 * q == (0x100 * p) * a + 0x100 * b by {
      assert 0x100 * (p * a) == (0x100 * p) * a;
    }
    assert b * 0x100 + r < 0x100 * p by {
      MulAtLeast(0x100, p - b);
    }
    ModOfDecomposition(n, 0x100 * p, a, b * 0x100 + r);
  }

  /** Reading a byte string and writing the number back with the same width gives the string again. */
  lemma {:induction false} ToBigEndianOfBigEndian(s: seq<byte>)
    ensures ToBigEndian(BigEndian(s), |s|) == s
  {
    if s != [] {
      var init, last := s[..|s| - 1], s[|s| - 1];
      var u := BigEndian(s);
      ModOfDecomposition(u, 0x100, BigEndian(init), last as int);
      ToBigEndianOfBigEndian(init);
      assert s == init + [last];
    }
  }

  /** 2^k. */
  function Pow2(k: nat): (p: nat)
    ensures p >= 1
  {
    if k == 0 then 1 else 2 * Pow2(k - 1)
  }

  /** Go's bitwise `|` on unsigned integers, one binary digit at a time from the lowest. */
  function BitOr(a: nat, b: nat): (r: nat)
    ensures a <= r && b <= r && r <= a + b
    decreases a + b
  {
    if a == 0 then b
    else if b == 0 then a
    else 2 * BitOr(a / 2, b / 2) + (if a % 2 == 1 || b % 2 == 1 then 1 else 0)
  }

  /** Or-ing the bit 2^k into a number below 2^(k+1) sets that bit and keeps the lower ones:
      the result is 2^k plus the number modulo 2^k. */
  lemma {:induction false} BitOrTopBit(k: nat, x: nat)
    requires x < 2 * Pow2(k)
    ensures BitOr(Pow2(k), x) == Pow2(k) + x % Pow2(k)
    decreases k
  {
    if x == 0 {
    } else if k == 0 {
      assert x == 1;
      assert BitOr(1, 1) == 2 * BitOr(0, 0) + 1;
    } else {
      var m := Pow2(k - 1);
      var q, r := x / 2, x % 2;
      assert Pow2(k) == 2 * m && Pow2(k) % 2 == 0;
      BitOrTopBit(k - 1, q);
      assert BitOr(Pow2(k), x) == 2 * BitOr(m, q) + r;
      HalfMod(x, m);
    }
  }

  /** x mod 2m is twice (x / 2 mod m) plus the lowest binary digit of x. */
  lemma HalfMod(x: nat, m: nat)
    requires m >= 1
    ensures x % (2 * m) == 2 * ((x / 2) % m) + x % 2
  {
    var q, r := x / 2, x % 2;
    var t, s := q / m, q % m;
    assert q == m * t + s;
    assert x == (2 * m) * t + (2 * s + r) by {
      assert 2 * (m * t) == (2 * m) * t;
    }
    ModOfDecomposition(x, 2 * m, t, 2 * s + r);
  }

  /** The two's-complement reading of a w-byte unsigned value (Go's intN(uintN) conversion). */
  function Signed(u: nat, w: nat): (v: int)
    requires 1 <= w && u < Pow256(w)
    ensures v < 0 <==> u >= 0x80 * Pow256(w - 1)
  {
    if u < 0x80 * Pow256(w - 1) then u else u - Pow256(w)
  }

  /** The signed reading lies in the w-byte two's-complement range and differs from the unsigned
      one by a multiple of 256^w. */
  lemma SignedRange(u: nat, w: nat)
    requires 1 <= w && u < Pow256(w)
    ensures -0x80 * Pow256(w - 1) <= Signed(u, w) < 0x80 * Pow256(w - 1)
    ensures (Signed(u, w) - u) % Pow256(w) == 0
  {
    var p := Pow256(w);
    if u < 0x80 * Pow256(w - 1) {
      ModOfDecomposition(0, p, 0, 0);
    } else {
      assert p == 0x100 * Pow256(w - 1);
      ModOfDecomposition(-(p as int), p, -1, 0);
      assert Signed(u, w) - u == -(p as int);
    }
  }

  /** A value already in the signed w-byte range survives truncation to w bytes and the signed reading. */
  lemma SignedOfTruncation(v: int, w: nat)
    requires 1 <= w && -0x80 * Pow256(w - 1) <= v < 0x80 * Pow256(w - 1)
    ensures Signed(v % Pow256(w), w) == v
  {
    var p := Pow256(w);
    if v >= 0 {
      ModOfDecomposition(v, p, 0, v);
    } else {
      ModOfDecomposition(v, p, -1, v + p);
    }
  }
}
