/** CRC-32C, bit by bit, with the Castagnoli polynomial of RFC 3720 section 12.1
    in reflected form, as Go's hash/crc32 computes it. The shift register is a
    sequence of bits, least significant first. */
module Crc32c {
  import opened Bytes

  type Register = x: seq<bool> | |x| == 32 witness seq(32, i => false)

  // Numbers as bits

  function Bits(n: nat, k: nat): (x: seq<bool>)
    ensures |x| == k
    decreases k, n
  {
    if k == 0 then [] else [n % 2 == 1] + Bits(n / 2, k - 1)
  }

  function Num(x: seq<bool>): (r: nat) {
    if x == [] then 0 else (if x[0] then 1 else 0) + 2 * Num(x[1..])
  }

  lemma {:induction false} BitsOfNum(x: seq<bool>)
    ensures Bits(Num(x), |x|) == x && Num(x) < Pow2(|x|)
  {
    if x != [] {
      BitsOfNum(x[1..]);
      assert Num(x) / 2 == Num(x[1..]);
    }
  }

  lemma {:induction false} NumOfBits(n: nat, k: nat)
    requires n < Pow2(k)
    ensures Num(Bits(n, k)) == n
    decreases k
  {
    if k > 0 {
      NumOfBits(n / 2, k - 1);
      assert Bits(n, k)[1..] == Bits(n / 2, k - 1);
    }
  }

  // The register

  function Xor(x: Register, y: Register): (z: Register) {
    seq(32, i requires 0 <= i < 32 => x[i] != y[i])
  }

  function Not(x: Register): (r: Register) {
    seq(32, i requires 0 <= i < 32 => !x[i])
  }

  /** 0x82F63B78. */
  function Poly(): (p: Register)
    ensures p[31]
  {
    [false, false, false, true, true, true, true, false,
     true, true, false, true, true, true, false, false,
     false, true, true, false, true, true, true, true,
     false, true, false, false, false, false, false, true]
  }

  /** One bit of polynomial division. */
  function Shift(x: Register): (z: Register)
    ensures z[31] == x[0]
    ensures forall i | 1 <= i < 32 :: x[i] == (z[i - 1] != (z[31] && Poly()[i - 1]))
  {
    assert Poly()[31];
    seq(32, i requires 0 <= i < 32 => (i < 31 && x[i + 1]) != (x[0] && Poly()[i]))
  }

  /** n bits of polynomial division. */
  function Shifts(x: Register, n: nat): (r: Register)
    decreases n, x
  {
    if n == 0 then x else Shifts(Shift(x), n - 1)
  }

  /** A byte in the low end of the register. */
  function Word(b: Byte): (r: Register) {
    Bits(b, 8) + seq(24, i => false)
  }

  /** One byte of input. */
  function Absorb(x: Register, b: Byte): (r: Register) {
    Shifts(Xor(x, Word(b)), 8)
  }

  function Feed(x: Register, s: Bytes): (r: Register)
    decreases |s|
  {
    if s == [] then x else Feed(Absorb(x, s[0]), s[1..])
  }

  /** crc32.Update: extends a finished checksum by more bytes. */
  function Update(crc: nat, s: Bytes): (r: nat)
    ensures r < U32
  {
    var x := Not(Feed(Not(Bits(crc, 32)), s));
    Pow2Values();
    BitsOfNum(x);
    Num(x)
  }

  /** crc32.Checksum. */
  function Checksum(s: Bytes): (r: nat)
    ensures r < U32
  {
    Update(0, s)
  }

  // The register loses no information

  lemma ShiftInjective(x: Register, y: Register)
    requires Shift(x) == Shift(y)
    ensures x == y
  {
    forall i | 0 <= i < 32 ensures x[i] == y[i] {
    }
  }

  lemma {:induction false} ShiftsInjective(x: Register, y: Register, n: nat)
    requires Shifts(x, n) == Shifts(y, n)
    ensures x == y
    decreases n
  {
    if n > 0 {
      ShiftsInjective(Shift(x), Shift(y), n - 1);
      ShiftInjective(x, y);
    }
  }

  lemma XorInjective(x: Register, y: Register, w: Register)
    requires Xor(x, w) == Xor(y, w)
    ensures x == y
  {
    forall i | 0 <= i < 32 ensures x[i] == y[i] {
      assert Xor(x, w)[i] == Xor(y, w)[i];
    }
  }

  lemma {:induction false} FeedConcat(x: Register, s: Bytes, t: Bytes)
    ensures Feed(x, s + t) == Feed(Feed(x, s), t)
    decreases |s|
  {
    if s == [] {
      assert s + t == t;
    } else {
      FeedConcat(Absorb(x, s[0]), s[1..], t);
      assert (s + t)[1..] == s[1..] + t;
    }
  }

  /** Checksumming in chunks equals checksumming in one go. */
  lemma UpdateConcat(crc: nat, s: Bytes, t: Bytes)
    ensures Update(Update(crc, s), t) == Update(crc, s + t)
  {
    var mid := Feed(Not(Bits(crc, 32)), s);
    BitsOfNum(Not(mid));
    assert Not(Not(mid)) == mid;
    FeedConcat(Not(Bits(crc, 32)), s, t);
  }

  lemma {:induction false} FeedInjective(x: Register, y: Register, s: Bytes)
    requires Feed(x, s) == Feed(y, s)
    ensures x == y
    decreases |s|
  {
    if s != [] {
      var w := Word(s[0]);
      FeedInjective(Absorb(x, s[0]), Absorb(y, s[0]), s[1..]);
      ShiftsInjective(Xor(x, w), Xor(y, w), 8);
      XorInjective(x, y, w);
    }
  }

  // Bursts: up to four adjacent bytes act as one register word

  /** Up to four bytes packed low byte first. */
  function Pack(s: Bytes): (r: Register)
    requires |s| <= 4
  {
    Spread(s) + seq(32 - 8 * |s|, i => false)
  }

  function Spread(s: Bytes): (x: seq<bool>)
    ensures |x| == 8 * |s|
  {
    if s == [] then [] else Bits(s[0], 8) + Spread(s[1..])
  }

  lemma {:induction false} SpreadInjective(s: Bytes, t: Bytes)
    requires |s| == |t| && Spread(s) == Spread(t)
    ensures s == t
  {
    if s != [] {
      assert Spread(s)[..8] == Bits(s[0], 8) && Spread(t)[..8] == Bits(t[0], 8);
      assert Spread(s)[8..] == Spread(s[1..]) && Spread(t)[8..] == Spread(t[1..]);
      Pow2Values();
      NumOfBits(s[0], 8);
      NumOfBits(t[0], 8);
      SpreadInjective(s[1..], t[1..]);
      assert s == [s[0]] + s[1..] && t == [t[0]] + t[1..];
    }
  }

  /** y with its n low bits, all clear, dropped. */
  function Down(y: Register, n: nat): (r: Register)
    requires n <= 8
  {
    y[n..] + seq(n, i => false)
  }

  /** Bits above those being divided out pass through unchanged. */
  lemma {:induction false} ShiftsXor(x: Register, y: Register, n: nat)
    requires n <= 8 && forall i | 0 <= i < n :: !y[i]
    ensures Shifts(Xor(x, y), n) == Xor(Shifts(x, n), Down(y, n))
    decreases n
  {
    if n == 0 {
      assert Down(y, 0) == y;
    } else {
      var y' := Down(y, 1);
      assert Shift(Xor(x, y)) == Xor(Shift(x), y');
      ShiftsXor(Shift(x), y', n - 1);
      assert Down(y', n - 1) == Down(y, n);
    }
  }

  /** Feeding up to four bytes is one xor and one long division. */
  lemma {:induction false} FeedPacked(x: Register, s: Bytes)
    requires |s| <= 4
    ensures Feed(x, s) == Shifts(Xor(x, Pack(s)), 8 * |s|)
    decreases |s|
  {
    if s == [] {
      assert Xor(x, Pack([])) == x;
    } else {
      var rest := s[1..];
      var high: Register := seq(8, i => false) + Pack(rest)[..24];
      assert Xor(x, Pack(s)) == Xor(Xor(x, Word(s[0])), high);
      ShiftsXor(Xor(x, Word(s[0])), high, 8);
      assert Down(high, 8) == Pack(rest);
      FeedPacked(Absorb(x, s[0]), rest);
      ShiftsAdd(Xor(x, Pack(s)), 8, 8 * |rest|);
    }
  }

  lemma {:induction false} ShiftsAdd(x: Register, m: nat, n: nat)
    ensures Shifts(x, m + n) == Shifts(Shifts(x, m), n)
    decreases m
  {
    if m > 0 {
      ShiftsAdd(Shift(x), m - 1, n);
    }
  }

  /** A change confined to at most four adjacent bytes, wherever it sits and however long the
      message, leaves the register in another state. */
  lemma SameFeed(before: Bytes, s: Bytes, t: Bytes, after: Bytes)
    requires |s| == |t| <= 4
    requires var x := Not(Bits(0, 32)); Feed(x, before + s + after) == Feed(x, before + t + after)
    ensures s == t
  {
    hide Feed, Bits;
    var x := Not(Bits(0, 32));
    FeedConcat(x, before + s, after);
    FeedConcat(x, before + t, after);
    FeedConcat(x, before, s);
    FeedConcat(x, before, t);
    var y := Feed(x, before);
    FeedInjective(Feed(y, s), Feed(y, t), after);
    SameBurst(y, s, t);
  }

  /** Such a change always changes the checksum. */
  lemma BurstDetected(before: Bytes, s: Bytes, t: Bytes, after: Bytes)
    requires |s| == |t| <= 4 && s != t
    ensures Checksum(before + s + after) != Checksum(before + t + after)
  {
    hide Feed, Bits, Num;
    if Checksum(before + s + after) == Checksum(before + t + after) {
      var x := Not(Bits(0, 32));
      var fs, ft := Feed(x, before + s + after), Feed(x, before + t + after);
      BitsOfNum(Not(fs));
      BitsOfNum(Not(ft));
      assert Not(Not(fs)) == fs && Not(Not(ft)) == ft;
      SameFeed(before, s, t, after);
      assert false;
    }
  }

  lemma SameBurst(y: Register, s: Bytes, t: Bytes)
    requires |s| == |t| <= 4 && Feed(y, s) == Feed(y, t)
    ensures s == t
  {
    FeedPacked(y, s);
    FeedPacked(y, t);
    ShiftsInjective(Xor(y, Pack(s)), Xor(y, Pack(t)), 8 * |s|);
    forall i | 0 <= i < 32 ensures Pack(s)[i] == Pack(t)[i] {
      assert Xor(y, Pack(s))[i] == Xor(y, Pack(t))[i];
    }
    assert Spread(s) == Pack(s)[..8 * |s|] && Spread(t) == Pack(t)[..8 * |t|];
    SpreadInjective(s, t);
  }

  // A message followed by its own checksum

  lemma {:induction false} BitsJoin(b: nat, m: nat, j: nat, k: nat)
    requires b < Pow2(j)
    ensures Bits(b + Pow2(j) * m, j + k) == Bits(b, j) + Bits(m, k)
    decreases j
  {
    if j == 0 {
      assert Pow2(0) * m == m;
    } else {
      var pm := Pow2(j - 1) * m;
      assert Pow2(j) * m == 2 * pm;
      assert (b + 2 * pm) / 2 == b / 2 + pm;
      BitsJoin(b / 2, m, j - 1, k);
    }
  }

  lemma NoBits(n: nat)
    ensures Bits(n, 0) == []
  {
  }

  lemma {:induction false} SpreadIsBits(s: Bytes)
    ensures Spread(s) == Bits(FromLE(s), 8 * |s|)
  {
    hide Bits;
    if s == [] {
      NoBits(0);
    } else {
      SpreadIsBits(s[1..]);
      Pow2Values();
      BitsJoin(s[0], FromLE(s[1..]), 8, 8 * |s[1..]|);
    }
  }

  /** The last four bytes are the checksum of the rest. */
  predicate Sealed(f: Bytes) {
    |f| >= 4 && Checksum(f[..|f| - 4]) == FromLE(f[|f| - 4..])
  }

  /** Whatever was sealed, the register ends in one and the same state. */
  lemma Residue(f: Bytes)
    requires Sealed(f)
    ensures Feed(Not(Bits(0, 32)), f) == Shifts(seq(32, i => true), 32)
  {
    hide Shifts, Feed, FromLE, Spread, Bits;
    var init, m, crc := Not(Bits(0, 32)), f[..|f| - 4], f[|f| - 4..];
    assert f == m + crc;
    var x := Feed(init, m);
    FeedConcat(init, m, crc);
    FeedPacked(x, crc);
    SpreadIsBits(crc);
    BitsOfNum(Not(x));
    assert Pack(crc) == Not(x);
    assert Xor(x, Not(x)) == seq(32, i => true);
  }

  /** A change within four adjacent bytes breaks the seal, even where it straddles the checksum. */
  lemma BrokenSeal(before: Bytes, s: Bytes, t: Bytes, after: Bytes)
    requires |s| == |t| <= 4 && s != t && Sealed(before + s + after)
    ensures !Sealed(before + t + after)
  {
    if Sealed(before + t + after) {
      hide Sealed, Shifts, Feed, Bits;
      Residue(before + s + after);
      Residue(before + t + after);
      SameFeed(before, s, t, after);
      assert false;
    }
  }

  // Known checksums

  lemma {:induction false} FreeShifts(x: Register, n: nat)
    requires n <= 32 && forall i :: 0 <= i < n ==> !x[i]
    ensures Shifts(x, n) == x[n..] + seq(n, i => false)
    decreases n
  {
    if n > 0 {
      var y := Shift(x);
      assert y == x[1..] + [false];
      FreeShifts(y, n - 1);
      assert y[n - 1..] + seq(n - 1, i => false) == x[n..] + seq(n, i => false);
    }
  }

  lemma {:induction false} ZeroBits(k: nat)
    ensures Bits(0, k) == seq(k, i => false)
  {
    if k > 0 {
      ZeroBits(k - 1);
    }
  }

  lemma NumCons(a: bool, t: seq<bool>)
    ensures Num([a] + t) == (if a then 1 else 0) + 2 * Num(t)
  {
    assert ([a] + t)[1..] == t;
  }

  /** A hexadecimal digit in front. */
  lemma NumDigit(a: bool, b: bool, c: bool, d: bool, t: seq<bool>) returns (r: seq<bool>)
    ensures r == [a, b, c, d] + t
    ensures Num(r) ==
            (if a then 1 else 0) + (if b then 2 else 0) + (if c then 4 else 0) + (if d then 8 else 0) + 16 * Num(t)
  {
    hide Num;
    NumCons(d, t);
    NumCons(c, [d] + t);
    NumCons(b, [c] + ([d] + t));
    NumCons(a, [b] + ([c] + ([d] + t)));
    r := [a] + ([b] + ([c] + ([d] + t)));
  }

  lemma NumNone()
    ensures Num([]) == 0
  {
  }

  /** 0x7DF63B78: the polynomial with its top byte inverted. */
  lemma LowDigits() returns (r: seq<bool>)
    ensures r == Poly()[..24] + [true, false, true, true, true, true, true, false] && Num(r) == 0x7DF6_3B78
  {
    hide Num;
    NumNone();
    r := NumDigit(true, true, true, false, []);
    r := NumDigit(true, false, true, true, r);
    r := NumDigit(true, true, true, true, r);
    r := NumDigit(false, true, true, false, r);
    r := NumDigit(true, true, false, false, r);
    r := NumDigit(true, true, false, true, r);
    r := NumDigit(true, true, true, false, r);
    r := NumDigit(false, false, false, true, r);
  }

  lemma OneByte(b: Byte)
    ensures Checksum([b]) == Num(Not(Absorb(seq(32, i => true), b)))
  {
    hide Num, Bits, Absorb, Feed;
    ZeroBits(32);
    assert Not(Bits(0, 32)) == seq(32, i => true);
    FeedOne(seq(32, i => true), b);
  }

  lemma FeedOne(x: Register, b: Byte)
    ensures Feed(x, [b]) == Absorb(x, b)
  {
    hide Absorb;
    assert [b][1..] == [];
  }

  /** The first bit of the register meets the polynomial only after seven free shifts. */
  lemma LastBit(x: Register)
    requires x == [false, false, false, false, false, false, false, true] + seq(24, i => true)
    ensures Not(Shifts(x, 8)) == Poly()[..24] + [true, false, true, true, true, true, true, false]
  {
    hide Shifts;
    FreeShifts(x, 7);
    ShiftsAdd(x, 7, 1);
    var y := Shifts(x, 7);
    assert y == seq(25, i => true) + seq(7, i => false);
    OneShift(y);
  }

  lemma OneShift(x: Register)
    ensures Shifts(x, 1) == Shift(x)
  {
  }

  /** The checksum of the byte 0x7F, which fixes the polynomial, the register's start and what is done
      to it in the end. */
  lemma CheckValue()
    ensures Checksum([0x7F]) == 0x7DF6_3B78
  {
    hide Num, Shifts, Bits;
    OneByte(0x7F);
    var r := LowDigits();
    var x := Xor(seq(32, i => true), Word(0x7F));
    BitsOf7F();
    assert x == [false, false, false, false, false, false, false, true] + seq(24, i => true);
    LastBit(x);
  }

  lemma BitsOf7F()
    ensures Bits(0x7F, 8) == [true, true, true, true, true, true, true, false]
  {
    assert Bits(7, 4) == [true, true, true, false];
  }
}
