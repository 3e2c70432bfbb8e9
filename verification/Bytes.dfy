/** Bytes, 32-bit words, and the little-endian layout that the file formats share. */
module Bytes {

  type byte = b: nat | b < 256
  type u32 = x: nat | x < 0x1_0000_0000

  function Min(a: int, b: int): int { if a < b then a else b }
  function Max(a: int, b: int): int { if a < b then b else a }

  /** The value modulo 2^32, as unsigned arithmetic of 32 bits leaves it. */
  function Wrap32(x: nat): u32 { x % 0x1_0000_0000 }

  lemma WrapAdd(a: nat, b: nat)
    ensures Wrap32(Wrap32(a) + b) == Wrap32(a + b)
  {
  }

  /** The sum of two words in 32 bits. */
  function Add32(a: u32, b: u32): u32 {
    var s: int := a as int + b as int;
    if s < 0x1_0000_0000 then s else s - 0x1_0000_0000
  }

  /** The product in 32 bits, by repeated addition. */
  function Mul32(a: u32, n: nat): u32 { if n == 0 then 0 else Add32(Mul32(a, n - 1), a) }

  lemma AddWraps(p: nat, a: u32)
    ensures Wrap32(p + a) == Add32(Wrap32(p), a)
  {
  }

  lemma {:induction false} Mul32Is(a: u32, n: nat)
    ensures Mul32(a, n) == Wrap32(a * n)
  {
    if n > 0 {
      Mul32Is(a, n - 1);
      var p := a * (n - 1);
      assert a * n == p + a;
      AddWraps(p, a);
    }
  }

  /** Multiplies as unsigned arithmetic of 32 bits does. */
  method Times32(a: u32, b: nat) returns (c: u32)
    ensures c == Mul32(a, b)
  {
    Mul32Is(a, b);
    c := Wrap32(a * b);
  }

  function PutU16(x: nat): (s: seq<byte>)
    requires x < 0x1_0000
    ensures |s| == 2
  {
    [x % 256, x / 256]
  }

  function GetU16(s: seq<byte>, at: nat): (x: nat)
    requires at + 2 <= |s|
    ensures x < 0x1_0000
  {
    var a: nat, b: nat := s[at], s[at + 1];
    a + 0x100 * b
  }

  function PutU32(x: u32): (s: seq<byte>)
    ensures |s| == 4
  {
    [x % 256, x / 0x100 % 256, x / 0x1_0000 % 256, x / 0x100_0000]
  }

  function GetU32(s: seq<byte>, at: nat): (x: u32)
    requires at + 4 <= |s|
  {
    var a: nat, b: nat, c: nat, d: nat := s[at], s[at + 1], s[at + 2], s[at + 3];
    a + 0x100 * b + 0x1_0000 * c + 0x100_0000 * d
  }

  lemma U32RoundTrip(x: u32)
    ensures GetU32(PutU32(x), 0) == x
  {
    var a, b := x / 0x100, x / 0x1_0000;
    assert b == a / 0x100 && x / 0x100_0000 == b / 0x100;
  }

  /** A word that was put anywhere in a longer sequence is read back from there. */
  lemma GetPutU32(s: seq<byte>, at: nat, x: u32)
    requires at + 4 <= |s| && s[at..at + 4] == PutU32(x)
    ensures GetU32(s, at) == x
  {
    U32RoundTrip(x);
    var w := s[at..at + 4];
    assert w[0] == s[at] && w[1] == s[at + 1] && w[2] == s[at + 2] && w[3] == s[at + 3];
  }

  lemma GetPutU16(s: seq<byte>, at: nat, x: nat)
    requires x < 0x1_0000 && at + 2 <= |s| && s[at..at + 2] == PutU16(x)
    ensures GetU16(s, at) == x
  {
    var w := s[at..at + 2];
    assert w[0] == s[at] && w[1] == s[at + 1];
  }

  /** What stands at an offset in two parts stands there part by part. */
  lemma SliceSplits<T>(b: seq<T>, off: nat, p: seq<T>, q: seq<T>)
    requires off + |p| + |q| <= |b| && b[off..off + |p| + |q|] == p + q
    ensures b[off..off + |p|] == p && b[off + |p|..off + |p| + |q|] == q
  {
    var s := b[off..off + |p| + |q|];
    assert b[off..off + |p|] == s[..|p|] && b[off + |p|..off + |p| + |q|] == s[|p|..];
  }

  lemma Assoc<T>(a: seq<T>, b: seq<T>, c: seq<T>)
    ensures (a + b) + c == a + (b + c)
  {
  }

  // ----------------------------------------------------------------- the bytes of a number

  /** 256 to the power of k. */
  function Unit(k: nat): (u: nat)
    ensures u > 0
  {
    if k == 0 then 1 else 0x100 * Unit(k - 1)
  }

  lemma UnitsAre()
    ensures Unit(1) == 0x100 && Unit(2) == 0x1_0000 && Unit(3) == 0x100_0000
  {
  }

  /** The lowest byte of a number comes first: byte k of it is its k-th digit to base 256. */
  predicate LittleEndian(b: seq<byte>, at: nat, n: nat, x: int) {
    at + n <= |b| && forall k :: 0 <= k < n ==> b[at + k] == x / Unit(k) % 256
  }

  lemma Split2(v: int)
    ensures v % 0x100 + 0x100 * (v / 0x100 % 0x100) == v % 0x1_0000
  {
    var a := v / 0x100;
    assert v == 0x100 * a + v % 0x100 && a == 0x100 * (a / 0x100) + a % 0x100;
  }

  lemma Split3(v: int)
    ensures v % 0x100 + 0x100 * (v / 0x100 % 0x100) + 0x1_0000 * (v / 0x1_0000 % 0x100) == v % 0x100_0000
  {
    Split2(v);
    var a := v / 0x1_0000;
    assert v == 0x1_0000 * a + v % 0x1_0000 && a == 0x100 * (a / 0x100) + a % 0x100;
  }

  lemma Split4(v: int)
    ensures v % 0x100 + 0x100 * (v / 0x100 % 0x100) + 0x1_0000 * (v / 0x1_0000 % 0x100)
            + 0x100_0000 * (v / 0x100_0000 % 0x100) == v % 0x1_0000_0000
  {
    Split3(v);
    var a := v / 0x100_0000;
    assert v == 0x100_0000 * a + v % 0x100_0000 && a == 0x100 * (a / 0x100) + a % 0x100;
  }

  /** The lowest digit of a number, and the number without it. */
  lemma Digit(v: int, a: int, x: int)
    requires v == a + 0x100 * x && 0 <= a < 0x100
    ensures v % 0x100 == a && v / 0x100 == x
  {
  }

  lemma Shifted(v: int)
    ensures v / 0x1_0000 == v / 0x100 / 0x100 && v / 0x100_0000 == v / 0x1_0000 / 0x100
  {
  }

  /** The number that is read from four bytes is the one whose digits they are. */
  lemma WordAt(b: seq<byte>, at: nat, x: u32)
    requires at + 4 <= |b|
    ensures GetU32(b, at) == x <==> LittleEndian(b, at, 4, x)
  {
    UnitsAre();
    if GetU32(b, at) == x {
      var p: int, q: int, r: int, t: int := b[at], b[at + 1], b[at + 2], b[at + 3];
      Digit(x, p, q + 0x100 * (r + 0x100 * t));
      Digit(x / 0x100, q, r + 0x100 * t);
      Digit(x / 0x1_0000, r, t);
      Shifted(x);
    }
    if LittleEndian(b, at, 4, x) { Split4(x); }
  }

  lemma HalfwordAt(b: seq<byte>, at: nat, x: nat)
    requires at + 2 <= |b| && x < 0x1_0000
    ensures GetU16(b, at) == x <==> LittleEndian(b, at, 2, x)
  {
    UnitsAre();
    Split2(x);
    if GetU16(b, at) == x { Digit(x, b[at], b[at + 1]); }
  }
}
