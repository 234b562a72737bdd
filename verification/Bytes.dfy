/** Byte strings and the little-endian integers every format in the system is
    built from. */
module Bytes {

  type Byte = b: int | 0 <= b < 256

  type Bytes = seq<Byte>

  /** 256 to the k: one more than the largest k-byte integer. */
  function Pow256(k: nat): (p: nat)
    ensures p > 0
  {
    if k == 0 then 1 else 256 * Pow256(k - 1)
  }

  /** The k-byte little-endian form of n; higher bytes of n are cut off, as a Go
      conversion to a narrower unsigned type does. */
  function LE(n: nat, k: nat): (s: Bytes)
    ensures |s| == k
    decreases k, n
  {
    if k == 0 then [] else [n % 256] + LE(n / 256, k - 1)
  }

  function FromLE(s: Bytes): (r: nat) {
    if s == [] then 0 else s[0] + 256 * FromLE(s[1..])
  }

  /** The bytes are the digits to base 256, the lowest first. */
  lemma LEDigits(n: nat)
    ensures LE(n, 2) == [n % 256, n / 0x100 % 256]
    ensures LE(n, 4) == [n % 256, n / 0x100 % 256, n / 0x1_0000 % 256, n / 0x100_0000 % 256]
    ensures LE(n, 8) == LE(n, 4) + LE(n / 0x1_0000_0000, 4)
  {
    hide LE, Shr;
    FourDigits(n);
    LEJoin(n, 4, 4);
    FourTimes(n);
  }

  lemma FourTimes(n: nat)
    ensures n / 256 / 256 == n / 0x1_0000 && n / 256 / 256 / 256 == n / 0x100_0000
    ensures Shr(n, 4) == n / 0x1_0000_0000
  {
    var d := n / 256 / 256 / 256;
    assert d / 256 == n / 0x1_0000_0000;
    assert Shr(d, 1) == Shr(d / 256, 0);
    assert Shr(n / 256, 3) == Shr(n / 256 / 256, 2) == Shr(d, 1);
  }

  lemma FourDigits(n: nat)
    ensures LE(n, 2) == [n % 256, n / 256 % 256]
    ensures LE(n, 4) == [n % 256, n / 256 % 256, n / 256 / 256 % 256, n / 256 / 256 / 256 % 256]
  {
    var a, b, c, d := n, n / 256, n / 256 / 256, n / 256 / 256 / 256;
    assert LE(d / 256, 0) == [] && LE(c, 0) == [];
    assert LE(d, 1) == [d % 256] && LE(b, 1) == [b % 256];
    assert LE(c, 2) == [c % 256, d % 256];
    assert LE(b, 3) == [b % 256, c % 256, d % 256];
  }

  ghost function Shr(n: nat, j: nat): (r: nat) {
    if j == 0 then n else Shr(n / 256, j - 1)
  }

  lemma {:induction false} LEJoin(n: nat, j: nat, k: nat)
    ensures LE(n, j + k) == LE(n, j) + LE(Shr(n, j), k)
    decreases j
  {
    if j > 0 {
      LEJoin(n / 256, j - 1, k);
    }
  }

  lemma {:induction false} FromLEBound(s: Bytes)
    ensures FromLE(s) < Pow256(|s|)
  {
    if s != [] {
      FromLEBound(s[1..]);
    }
  }

  /** Decoding inverts encoding on every integer that fits. */
  lemma {:induction false} FromLEofLE(n: nat, k: nat)
    requires n < Pow256(k)
    ensures FromLE(LE(n, k)) == n
    decreases k
  {
    if k > 0 {
      FromLEofLE(n / 256, k - 1);
      assert LE(n, k)[1..] == LE(n / 256, k - 1);
    }
  }

  /** Encoding inverts decoding, so the form of an integer is unique. */
  lemma {:induction false} LEofFromLE(s: Bytes)
    ensures LE(FromLE(s), |s|) == s
  {
    if s != [] {
      LEofFromLE(s[1..]);
      assert FromLE(s) / 256 == FromLE(s[1..]);
      assert FromLE(s) % 256 == s[0];
    }
  }

  const U16: nat := 0x1_0000
  const U32: nat := 0x1_0000_0000
  const U64: nat := 0x1_0000_0000_0000_0000

  lemma Pow256Values()
    ensures Pow256(1) == 256 && Pow256(2) == U16 && Pow256(4) == U32 && Pow256(8) == U64
  {
    assert Pow256(3) == 256 * Pow256(2);
    assert Pow256(5) == 256 * Pow256(4);
    assert Pow256(7) == 256 * Pow256(6);
  }

  /** The two round trips at the widths the formats use. */
  lemma LEFits(n: nat, k: nat)
    requires (k == 2 && n < U16) || (k == 4 && n < U32) || (k == 8 && n < U64)
    ensures FromLE(LE(n, k)) == n
  {
    Pow256Values();
    FromLEofLE(n, k);
  }

  lemma FromLEFits(s: Bytes)
    ensures |s| == 2 ==> FromLE(s) < U16
    ensures |s| == 4 ==> FromLE(s) < U32
    ensures |s| == 8 ==> FromLE(s) < U64
    ensures LE(FromLE(s), |s|) == s
  {
    Pow256Values();
    FromLEBound(s);
    LEofFromLE(s);
  }

  // Powers of two

  function Pow2(k: nat): (p: nat)
    ensures p > 0
  {
    if k == 0 then 1 else 2 * Pow2(k - 1)
  }

  lemma Pow2Values()
    ensures Pow2(8) == 256 && Pow2(32) == U32
  {
    assert Pow2(4) == 16;
    assert Pow2(8) == 256;
    assert Pow2(12) == 4096;
    assert Pow2(16) == 0x1_0000;
    assert Pow2(20) == 0x10_0000;
    assert Pow2(24) == 0x100_0000;
    assert Pow2(28) == 0x1000_0000;
    assert Pow2(32) == 0x1_0000_0000;
  }

  // Sequences

  /** The sequence without one occurrence. */
  function Without<T>(s: seq<T>, i: nat): (r: seq<T>)
    requires i < |s|
  {
    s[..i] + s[i + 1..]
  }

  lemma JoinAssoc<T>(a: seq<T>, b: seq<T>, c: seq<T>)
    ensures a + (b + c) == (a + b) + c
  {
  }

  lemma JoinEmpty<T>(a: seq<T>, b: seq<T>)
    ensures a + b == b <==> a == []
  {
    assert |a + b| == |a| + |b|;
  }

  /** Slices of a sequence that grows by one. */
  lemma SliceOfMore<T>(s: seq<T>, x: T, a: nat, b: nat)
    requires a <= b <= |s|
    ensures (s + [x])[a..b] == s[a..b] && (s + [x])[b..] == s[b..] + [x]
  {
  }

  lemma SliceJoin<T>(s: seq<T>, a: nat, b: nat)
    requires a + b <= |s|
    ensures s[..a + b] == s[..a] + s[a..][..b] && s[a + b..] == s[a..][b..]
  {
  }

  lemma JoinTail<T>(a: seq<T>, b: seq<T>)
    requires a != []
    ensures a + b != [] && (a + b)[0] == a[0] && (a + b)[1..] == a[1..] + b
  {
  }
}
