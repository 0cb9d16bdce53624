/** Bytes, the machine integers of the program and their fixed-width encodings. */
module Bytes {
  import opened NumberTheory

  type byte = x: int | 0 <= x < 256

  const TWO_63: int := 0x8000_0000_0000_0000
  const TWO_64: int := 0x1_0000_0000_0000_0000
  const TWO_32: int := 0x1_0000_0000

  /** The signed 64-bit integers. */
  type i64 = x: int | -TWO_63 <= x < TWO_63

  datatype Option<+T> = None | Some(value: T)

  /** The value a wrapping 64-bit operation leaves when its exact result is x. */
  function Wrap64(x: int): i64 {
    (x + TWO_63) % TWO_64 - TWO_63
  }

  function Neg64(x: i64): i64 {
    Wrap64(0 - x)
  }

  lemma WrapInRange(x: int)
    ensures -TWO_63 <= x < TWO_63 ==> Wrap64(x) == x
    ensures TWO_63 <= x < TWO_63 + TWO_64 ==> Wrap64(x) == x - TWO_64
  {
  }

  /** Two's complement image of a signed 64-bit integer. */
  function Unsigned64(x: i64): nat {
    if x < 0 then x + TWO_64 else x
  }

  function Signed64(u: nat): i64
    requires u < TWO_64
  {
    if u < TWO_63 then u else u - TWO_64
  }

  function Pow256(w: nat): (p: nat)
    ensures p > 0
  {
    if w == 0 then 1 else 256 * Pow256(w - 1)
  }

  /** With Pow256(1) == 256 this makes Pow256(w) the w-th power of 256. */
  lemma {:induction false} Pow256Of(v: nat, w: nat)
    ensures Pow256(v + w) == Pow256(v) * Pow256(w) && Pow256(1) == 256
  {
    if v > 0 { Pow256Of(v - 1, w); }
  }

  /** The image is x modulo 2^64, and its top bit is the sign. */
  lemma TwosComplement(x: i64)
    ensures 0 <= Unsigned64(x) < TWO_64 && Unsigned64(x) == x % TWO_64
    ensures Unsigned64(x) >= TWO_63 <==> x < 0
    ensures Signed64(Unsigned64(x)) == x
  {
  }

  lemma Pow256Of4()
    ensures Pow256(4) == TWO_32
  {
    assert Pow256(2) == 65536;
  }

  lemma Pow256Of8()
    ensures Pow256(8) == TWO_64
  {
    Pow256Of4();
    assert Pow256(6) == 65536 * TWO_32;
  }

  // ----- Big-endian -----

  function BigEndian(v: nat, w: nat): (b: seq<byte>)
    ensures |b| == w
  {
    if w == 0 then [] else BigEndian(v / 256, w - 1) + [v % 256]
  }

  function FromBigEndian(b: seq<byte>): nat {
    if b == [] then 0 else 256 * FromBigEndian(b[..|b| - 1]) + b[|b| - 1]
  }

  lemma {:induction false} BigEndianRoundTrip(v: nat, w: nat)
    requires v < Pow256(w)
    ensures FromBigEndian(BigEndian(v, w)) == v
  {
    if w > 0 {
      BigEndianRoundTrip(v / 256, w - 1);
      assert BigEndian(v, w)[..w - 1] == BigEndian(v / 256, w - 1);
    }
  }

  lemma {:induction false} FromBigEndianRoundTrip(b: seq<byte>)
    ensures FromBigEndian(b) < Pow256(|b|)
    ensures BigEndian(FromBigEndian(b), |b|) == b
  {
    if b != [] {
      var front := b[..|b| - 1];
      FromBigEndianRoundTrip(front);
      assert FromBigEndian(b) / 256 == FromBigEndian(front);
      assert b == front + [b[|b| - 1]];
    }
  }

  /** Equal-width big-endian values are equal only for equal bytes. */
  lemma FromBigEndianInjective(a: seq<byte>, b: seq<byte>)
    requires |a| == |b| && FromBigEndian(a) == FromBigEndian(b)
    ensures a == b
  {
    FromBigEndianRoundTrip(a);
    FromBigEndianRoundTrip(b);
  }

  lemma DivideTwice(v: nat, m: nat)
    requires m > 0
    ensures v / (256 * m) == v / 256 / m
  {
    var q, r := v / 256 / m, v / 256 % m;
    assert v == 256 * (q * m + r) + v % 256;
    assert v == q * (256 * m) + (256 * r + v % 256);
    QuotientUnique(v, q, 256 * r + v % 256, 256 * m);
  }

  /** The most significant byte comes first. */
  lemma {:induction false} BigEndianPlaces(v: nat, w: nat, i: nat)
    requires i < w
    ensures BigEndian(v, w)[i] == v / Pow256(w - 1 - i) % 256
  {
    if i < w - 1 {
      BigEndianPlaces(v / 256, w - 1, i);
      DivideTwice(v, Pow256(w - 2 - i));
    }
  }

  lemma FromBigEndianPlaces(b: seq<byte>, i: nat)
    requires i < |b|
    ensures FromBigEndian(b) < Pow256(|b|) && FromBigEndian(b) / Pow256(|b| - 1 - i) % 256 == b[i]
  {
    FromBigEndianRoundTrip(b);
    BigEndianPlaces(FromBigEndian(b), |b|, i);
  }

  lemma BigEndianOf4(b: seq<byte>)
    requires |b| == 4
    ensures FromBigEndian(b) ==
              b[0] as int * 0x100_0000 + b[1] as int * 0x1_0000 + b[2] as int * 0x100 + b[3] as int
  {
    var b3 := b[..3];
    var b2 := b3[..2];
    var b1 := b2[..1];
    assert b1[..0] == [] && FromBigEndian(b1) == b[0];
    assert FromBigEndian(b2) == 256 * b[0] as int + b[1] as int;
    assert FromBigEndian(b3) == 256 * FromBigEndian(b2) + b[2];
  }

  // ----- Little-endian -----

  function LittleEndian(v: nat, w: nat): (b: seq<byte>)
    ensures |b| == w
  {
    if w == 0 then [] else [v % 256] + LittleEndian(v / 256, w - 1)
  }

  function FromLittleEndian(b: seq<byte>): nat {
    if b == [] then 0 else b[0] + 256 * FromLittleEndian(b[1..])
  }

  lemma {:induction false} LittleEndianRoundTrip(v: nat, w: nat)
    requires v < Pow256(w)
    ensures FromLittleEndian(LittleEndian(v, w)) == v
  {
    if w > 0 {
      LittleEndianRoundTrip(v / 256, w - 1);
      assert LittleEndian(v, w)[1..] == LittleEndian(v / 256, w - 1);
    }
  }

  lemma {:induction false} FromLittleEndianRoundTrip(b: seq<byte>)
    ensures FromLittleEndian(b) < Pow256(|b|)
    ensures LittleEndian(FromLittleEndian(b), |b|) == b
  {
    if b != [] {
      FromLittleEndianRoundTrip(b[1..]);
      assert FromLittleEndian(b) / 256 == FromLittleEndian(b[1..]);
      assert b == [b[0]] + b[1..];
    }
  }

  /** The least significant byte comes first. */
  lemma {:induction false} LittleEndianPlaces(v: nat, w: nat, i: nat)
    requires i < w
    ensures LittleEndian(v, w)[i] == v / Pow256(i) % 256
  {
    if i > 0 {
      LittleEndianPlaces(v / 256, w - 1, i - 1);
      DivideTwice(v, Pow256(i - 1));
    }
  }

  lemma LittleEndianOf8(b: seq<byte>)
    requires |b| == 8
    ensures FromLittleEndian(b) ==
              b[0] as int + b[1] as int * 0x100 + b[2] as int * 0x1_0000 + b[3] as int * 0x100_0000
              + (b[4] as int + b[5] as int * 0x100 + b[6] as int * 0x1_0000 + b[7] as int * 0x100_0000) * TWO_32
  {
    LittleEndianOf4(b[4..]);
    LittleEndianTail(b);
    LittleEndianTail(b[1..]);
    LittleEndianTail(b[2..]);
    LittleEndianTail(b[3..]);
    assert b[1..][1..] == b[2..] && b[2..][1..] == b[3..] && b[3..][1..] == b[4..];
  }

  lemma LittleEndianOf4(b: seq<byte>)
    requires |b| == 4
    ensures FromLittleEndian(b) ==
              b[0] as int + b[1] as int * 0x100 + b[2] as int * 0x1_0000 + b[3] as int * 0x100_0000
  {
    LittleEndianTail(b);
    LittleEndianTail(b[1..]);
    LittleEndianTail(b[2..]);
    LittleEndianTail(b[3..]);
    assert b[1..][1..] == b[2..] && b[2..][1..] == b[3..] && b[3..][1..] == [];
  }

  lemma LittleEndianTail(b: seq<byte>)
    requires b != []
    ensures FromLittleEndian(b) == b[0] + 256 * FromLittleEndian(b[1..]) && FromLittleEndian([]) == 0
  {
  }
}
