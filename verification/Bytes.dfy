/** Octets, alignment and fixed-width integers in the two byte orders of the
    D-Bus wire format. */
module Bytes {

  type byte = x: int | 0 <= x < 256

  datatype Endianess = Little | Big

  /** The result of a read at a position: the value and the position after it,
      or an aborted read (a failed bounds assertion, a read outside the data, or
      an exception). */
  datatype Parsed<+T> = Parsed(value: T, pos: nat) | Abort

  datatype Option<+T> = None | Some(value: T)

  const TWO8: int := 0x100
  const TWO16: int := 0x1_0000
  const TWO32: int := 0x1_0000_0000
  const TWO64: int := 0x1_0000_0000_0000_0000

  type uint16 = x: int | 0 <= x < 0x1_0000
  type uint32 = x: int | 0 <= x < 0x1_0000_0000
  type uint64 = x: int | 0 <= x < 0x1_0000_0000_0000_0000
  type int16 = x: int | -0x8000 <= x < 0x8000
  type int32 = x: int | -0x8000_0000 <= x < 0x8000_0000
  type int64 = x: int | -0x8000_0000_0000_0000 <= x < 0x8000_0000_0000_0000

  // ----- alignment -----

  /** The alignments of the wire format. */
  type Alignment = a: int | a == 1 || a == 2 || a == 4 || a == 8 witness 1

  /** The number of padding bytes that bring offset `off` to a multiple of `a`. */
  function Gap(off: nat, a: Alignment): (g: nat)
    ensures g < a
  {
    if a == 1 then 0
    else if a == 2 then (if off % 2 == 0 then 0 else 2 - off % 2)
    else if a == 4 then (if off % 4 == 0 then 0 else 4 - off % 4)
    else (if off % 8 == 0 then 0 else 8 - off % 8)
  }

  function AlignUp(off: nat, a: Alignment): nat { off + Gap(off, a) }

  function Zeros(n: nat): (z: seq<byte>)
    ensures |z| == n
  {
    seq(n, _ => 0)
  }

  function Pad(off: nat, a: Alignment): seq<byte> { Zeros(Gap(off, a)) }

  predicate Multiple(off: nat, a: Alignment) {
    if a == 1 then true else if a == 2 then off % 2 == 0
    else if a == 4 then off % 4 == 0 else off % 8 == 0
  }

  /** Division by an alignment has one quotient and one remainder. */
  lemma QuotientUnique(x: nat, n: nat, k: nat, r: nat)
    requires n == 2 || n == 4 || n == 8
    requires x == n * k + r && r < n
    ensures x % n == r
  {
  }

  lemma AlignUpIsMultiple(off: nat, a: Alignment)
    ensures Multiple(AlignUp(off, a), a)
    ensures Multiple(off, a) <==> AlignUp(off, a) == off
  {
    if a == 2 { NextMultiple(off, 2); } else if a == 4 { NextMultiple(off, 4); } else if a == 8 { NextMultiple(off, 8); }
  }

  lemma NextMultiple(off: nat, n: nat)
    requires n == 2 || n == 4 || n == 8
    ensures (off + (n - off % n)) % n == 0
  {
    var k := off / n;
    assert off == n * k + off % n;
    QuotientUnique(off + (n - off % n), n, k + 1, 0);
  }

  /** `AlignUp` is the least multiple of the alignment that is not below the offset. */
  lemma AlignUpIsLeast(off: nat, a: Alignment, m: nat)
    requires off <= m && Multiple(m, a)
    ensures off <= AlignUp(off, a) <= m
  {
    if a == 2 { NextIsLeast(off, m, 2); } else if a == 4 { NextIsLeast(off, m, 4); } else if a == 8 { NextIsLeast(off, m, 8); }
  }

  lemma NextIsLeast(off: nat, m: nat, n: nat)
    requires n == 2 || n == 4 || n == 8
    requires off <= m && m % n == 0
    ensures off % n != 0 ==> off + (n - off % n) <= m
  {
    var k, j, r := m / n, off / n, off % n;
    assert m == n * k && off == n * j + r;
    assert n * (k - j) == n * k - n * j;
    ProductGrows(n, k - j);
  }

  /** Alignment only depends on the offset modulo a multiple of the alignment:
      data laid out from a base that is a multiple of `b` is padded as if the base were 0. */
  lemma GapShift(base: nat, off: nat, a: Alignment, b: Alignment)
    requires Multiple(base, b) && a <= b
    ensures Gap(base + off, a) == Gap(off, a)
  {
    MultipleOfSmaller(base, a, b);
    SumModulo(base, off, a);
  }

  lemma MultipleOfSmaller(base: nat, a: Alignment, b: Alignment)
    requires Multiple(base, b) && a <= b
    ensures Multiple(base, a)
  {
    if b == 8 {
      var k := base / 8;
      QuotientUnique(base, 4, 2 * k, 0);
      QuotientUnique(base, 2, 4 * k, 0);
    } else if b == 4 {
      QuotientUnique(base, 2, 2 * (base / 4), 0);
    }
  }

  lemma SumModulo(base: nat, off: nat, a: Alignment)
    requires Multiple(base, a)
    ensures Gap(base + off, a) == Gap(off, a)
  {
    if a == 2 { SumModuloNumber(base, off, 2); }
    else if a == 4 { SumModuloNumber(base, off, 4); }
    else if a == 8 { SumModuloNumber(base, off, 8); }
  }

  lemma SumModuloNumber(base: nat, off: nat, n: nat)
    requires n == 2 || n == 4 || n == 8
    requires base % n == 0
    ensures (base + off) % n == off % n
  {
    var k, j, r := base / n, off / n, off % n;
    assert base == n * k && off == n * j + r;
    QuotientUnique(base + off, n, k + j, r);
  }

  // ----- fixed-width integers -----

  /** `n` octets of `v`, least significant first. */
  function LittleBytes(v: nat, n: nat): (s: seq<byte>)
    ensures |s| == n
  {
    if n == 0 then [] else [v % 256] + LittleBytes(v / 256, n - 1)
  }

  function Reverse(s: seq<byte>): (r: seq<byte>)
    ensures |r| == |s|
    ensures forall i :: 0 <= i < |s| ==> r[i] == s[|s| - 1 - i]
  {
    if s == [] then [] else Reverse(s[1..]) + [s[0]]
  }

  function FromLittle(s: seq<byte>): nat {
    if s == [] then 0 else s[0] + 256 * FromLittle(s[1..])
  }

  /** `n` octets of `v` in byte order `e`. */
  function Fixed(v: nat, n: nat, e: Endianess): (s: seq<byte>)
    ensures |s| == n
  {
    if e == Little then LittleBytes(v, n) else Reverse(LittleBytes(v, n))
  }

  function FromFixed(s: seq<byte>, e: Endianess): nat {
    if e == Little then FromLittle(s) else FromLittle(Reverse(s))
  }

  function Pow256(n: nat): (p: nat)
    ensures p > 0
  {
    if n == 0 then 1 else 256 * Pow256(n - 1)
  }

  lemma {:induction false} FromLittleBytes(v: nat, n: nat)
    requires v < Pow256(n)
    ensures FromLittle(LittleBytes(v, n)) == v
  {
    if n > 0 {
      assert v / 256 < Pow256(n - 1);
      FromLittleBytes(v / 256, n - 1);
      assert LittleBytes(v, n)[1..] == LittleBytes(v / 256, n - 1);
    }
  }

  lemma {:induction false} FromLittleBound(s: seq<byte>)
    ensures FromLittle(s) < Pow256(|s|)
  {
    if s != [] { FromLittleBound(s[1..]); }
  }

  lemma ReverseTwice(s: seq<byte>)
    ensures Reverse(Reverse(s)) == s
  {
    var r := Reverse(Reverse(s));
    assert |r| == |s|;
    forall i | 0 <= i < |s| ensures r[i] == s[i] {}
  }

  lemma Pow256Values()
    ensures Pow256(1) == 256 && Pow256(2) == TWO16 && Pow256(4) == TWO32 && Pow256(8) == TWO64
  {
    assert Pow256(1) == 256;
    assert Pow256(2) == 256 * Pow256(1);
    assert Pow256(3) == 256 * Pow256(2);
    assert Pow256(4) == 256 * Pow256(3);
    assert Pow256(5) == 256 * Pow256(4);
    assert Pow256(6) == 256 * Pow256(5);
    assert Pow256(7) == 256 * Pow256(6);
    assert Pow256(8) == 256 * Pow256(7);
  }

  /** Reading back a fixed-width integer, in either byte order. */
  lemma FixedRoundTrip(v: nat, n: nat, e: Endianess)
    requires v < Pow256(n)
    ensures FromFixed(Fixed(v, n, e), e) == v
  {
    FromLittleBytes(v, n);
    ReverseTwice(LittleBytes(v, n));
  }

  lemma FromFixedBound(s: seq<byte>, e: Endianess)
    ensures FromFixed(s, e) < Pow256(|s|)
  {
    FromLittleBound(s);
    FromLittleBound(Reverse(s));
  }

  lemma DivideTwice(v: nat, p: nat)
    requires p > 0
    ensures v / 256 / p == v / (256 * p)
  {
    var q, r := v / 256, v % 256;
    var a, b := q / p, q % p;
    assert v == 256 * q + r && q == p * a + b;
    assert 256 * (p * a) == (256 * p) * a;
    assert v == (256 * p) * a + (256 * b + r) && 256 * b + r < 256 * p;
    OneQuotient(v, 256 * p, a, 256 * b + r);
  }

  lemma OneQuotient(v: nat, n: nat, a: nat, r: nat)
    requires n > 0 && v == n * a + r && r < n
    ensures v / n == a
  {
    var d := v / n - a;
    assert v == n * (v / n) + v % n;
    assert n * d == n * (v / n) - n * a;
    ProductGrows(n, d);
  }

  lemma ProductGrows(n: nat, d: int)
    ensures d >= 1 ==> n * d >= n
    ensures d <= -1 ==> n * d + n <= 0
  {
  }

  /** The octets of an integer, by weight: the first is the lowest in little-endian order and the
      highest in big-endian order. */
  lemma {:induction false} FixedOctets(v: nat, n: nat, e: Endianess, i: nat)
    requires i < n
    ensures Fixed(v, n, e)[i] == v / Pow256(if e == Little then i else n - 1 - i) % 256
  {
    OctetOf(v, n, if e == Little then i else n - 1 - i);
  }

  lemma {:induction false} OctetOf(v: nat, n: nat, i: nat)
    requires i < n
    ensures LittleBytes(v, n)[i] == v / Pow256(i) % 256
  {
    if i == 0 {
      assert Pow256(0) == 1;
    } else {
      OctetOf(v / 256, n - 1, i - 1);
      DivideTwice(v, Pow256(i - 1));
      assert Pow256(i) == 256 * Pow256(i - 1);
    }
  }

  /** Only the number 0 has octets that are all zero. */
  lemma FixedIsZero(v: nat, n: nat, e: Endianess)
    requires v < Pow256(n)
    ensures Fixed(v, n, e) == Zeros(n) <==> v == 0
  {
    hide Pow256, FromFixed;
    ZeroOctets(n, e);
    ZeroFits(n);
    FixedRoundTrip(v, n, e);
    FixedRoundTrip(0, n, e);
  }

  lemma ZeroFits(n: nat)
    ensures 0 < Pow256(n)
  {
  }

  lemma {:induction false} ZeroOctets(n: nat, e: Endianess)
    ensures LittleBytes(0, n) == Zeros(n) && Fixed(0, n, e) == Zeros(n)
  {
    if n > 0 {
      ZeroOctets(n - 1, e);
      assert LittleBytes(0, n) == [0] + Zeros(n - 1) == Zeros(n);
    }
    assert Reverse(Zeros(n)) == Zeros(n);
  }

  // ----- two's complement -----

  /** The unsigned pattern of a signed value at modulus `m`. */
  function Unsigned(v: int, m: int): (u: nat)
    requires m > 0 && -m <= v < m
    ensures u < m
  {
    if v < 0 then v + m else v
  }

  /** The signed reading of a pattern of modulus `m`. */
  function Signed(u: nat, m: int): (v: int)
    requires m > 0 && u < m && m % 2 == 0
    ensures -m / 2 <= v < m / 2
    ensures Unsigned(v, m) == u
  {
    if u < m / 2 then u else u - m
  }

  // ----- slices -----

  /** `bytes` (of any kind) stand in `data` at position `p`. */
  ghost predicate At<T>(data: seq<T>, p: nat, bytes: seq<T>) {
    p + |bytes| <= |data| && data[p..p + |bytes|] == bytes
  }

  lemma AtSplit<T>(data: seq<T>, p: nat, a: seq<T>, b: seq<T>)
    ensures At(data, p, a + b) <==> At(data, p, a) && At(data, p + |a|, b)
  {
    var ab := a + b;
    if At(data, p, ab) {
      assert data[p..p + |a|] == ab[..|a|];
      assert data[p + |a|..p + |a| + |b|] == ab[|a|..];
    }
    if At(data, p, a) && At(data, p + |a|, b) {
      assert data[p..p + |ab|] == data[p..p + |a|] + data[p + |a|..p + |a| + |b|];
    }
  }

  lemma Associative<T>(a: seq<T>, b: seq<T>, c: seq<T>)
    ensures a + (b + c) == a + b + c
  {
  }

  lemma Cancel<T>(a: seq<T>, b: seq<T>, c: seq<T>, d: seq<T>)
    requires a + b == c + d && |a| == |c|
    ensures a == c && b == d
  {
    assert (a + b)[..|a|] == a && (c + d)[..|c|] == c;
    assert (a + b)[|a|..] == b && (c + d)[|c|..] == d;
  }

  /** A growable octet vector (`std::vector<uint8_t>`), shared by reference. */
  class Buffer {
    var data: seq<byte>
    constructor ()
      ensures data == []
    {
      data := [];
    }
  }
}
