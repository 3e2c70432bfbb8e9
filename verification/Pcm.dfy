/** Integer samples as bytes in a WAV file, src/core/cwAudioFile.cpp: one to four bytes, the lowest
    first, in two's complement; but samples of one byte are stored with 128 added. */
module Pcm {
  import opened Bytes
  import opened Stride

  /** The number of bytes of a sample. */
  predicate IsWidth(w: nat) { 1 <= w <= 4 }

  /** Half the number of values of a sample of w bytes. */
  function Half(w: nat): int
    requires IsWidth(w)
  {
    match w
    case 1 => 0x80
    case 2 => 0x8000
    case 3 => 0x80_0000
    case _ => 0x8000_0000
  }

  predicate InRange(v: int, w: nat)
    requires IsWidth(w)
  {
    -Half(w) <= v < Half(w)
  }

  /** What w bytes keep of an integer: the value in range that differs from it by a multiple of the
      number of values. */
  function Truncate(v: int, w: nat): (r: int)
    requires IsWidth(w)
    ensures InRange(r, w) && (r == v <==> InRange(v, w))
  {
    (v + Half(w)) % (2 * Half(w)) - Half(w)
  }

  function Pack(v: int, w: nat): (s: seq<byte>)
    requires IsWidth(w)
    ensures |s| == w
  {
    match w
    case 1 => [(v + 128) % 0x100]
    case 2 => [v % 0x100, v / 0x100 % 0x100]
    case 3 => [v % 0x100, v / 0x100 % 0x100, v / 0x1_0000 % 0x100]
    case _ => [v % 0x100, v / 0x100 % 0x100, v / 0x1_0000 % 0x100, v / 0x100_0000 % 0x100]
  }

  function Unpack(s: seq<byte>): int
    requires IsWidth(|s|)
  {
    match |s|
    case 1 => s[0] as int - 128
    case 2 =>
      var u := GetU16(s, 0);
      if u >= 0x8000 then u - 0x1_0000 else u
    case 3 =>
      var sign: nat, c: nat, b: nat, a: nat := if s[2] > 127 then 255 else 0, s[2], s[1], s[0];
      ToInt32(sign * 0x100_0000 + c * 0x1_0000 + b * 0x100 + a)
    case _ => ToInt32(GetU32(s, 0))
  }

  /** The 32-bit word read as a signed integer. */
  function ToInt32(u: nat): int { if u >= 0x8000_0000 then u - 0x1_0000_0000 else u }

  /** The remainder u of a number, read as a signed one of h negative values. */
  function Signed(u: int, h: int): int { if u >= h then u - 2 * h else u }

  lemma Unpacked(v: int, w: nat)
    requires IsWidth(w) && w > 1
    ensures Unpack(Pack(v, w)) == Signed(v % (2 * Half(w)), Half(w))
  {
    match w
    case 2 => Split2(v);
    case 3 =>
      Split3(v);
      var s := Pack(v, w);
      assert s[2] > 127 <==> v % 0x100_0000 >= 0x80_0000;
    case _ => Split4(v);
  }

  lemma Truncated(v: int, w: nat)
    requires IsWidth(w)
    ensures Truncate(v, w) == Signed(v % (2 * Half(w)), Half(w))
  {
  }

  /** Reading back what was written truncates to the width, so it gives the sample exactly when that is
      in range. */
  lemma UnpackPack(v: int, w: nat)
    requires IsWidth(w)
    ensures Unpack(Pack(v, w)) == Truncate(v, w)
    ensures Unpack(Pack(v, w)) == v <==> InRange(v, w)
  {
    if w > 1 {
      Unpacked(v, w);
      Truncated(v, w);
    }
  }

  // ----------------------------------------------------------------- the bytes themselves

  /** A sample of one byte is stored with 128 added; of more bytes, byte k has its k-th digit to base 256. */
  predicate HasBytes(b: seq<byte>, at: nat, v: int, w: nat) {
    if w == 1 then at < |b| && b[at] == (v + 128) % 256 else LittleEndian(b, at, w, v)
  }

  lemma PackedBytes(b: seq<byte>, at: nat, v: int, w: nat)
    requires IsWidth(w) && at + w <= |b| && b[at..at + w] == Pack(v, w)
    ensures HasBytes(b, at, v, w)
  {
    UnitsAre();
    var s: seq<byte> := b[at..at + w];
    assert forall k :: 0 <= k < w ==> s[k] == b[at + k];
    if w > 1 {
      forall k | 0 <= k < w ensures b[at + k] == v / Unit(k) % 256 { assert s[k] == Pack(v, w)[k]; }
    }
  }

  /** The number that the bytes at a place stand for: the lowest first, in two's complement; one byte has
      128 added. */
  function NumberAt(b: seq<byte>, at: nat, w: nat): int
    requires IsWidth(w) && at + w <= |b|
  {
    var p: int := b[at];
    if w == 1 then p - 128
    else
      var q: int := b[at + 1];
      if w == 2 then
        var u := p + 256 * q;
        if u < 32768 then u else u - 65536
      else
        var r: int := b[at + 2];
        if w == 3 then
          var u := p + 256 * q + 65536 * r;
          if u < 8388608 then u else u - 16777216
        else
          var t: int := b[at + 3];
          var u := p + 256 * q + 65536 * r + 16777216 * t;
          if u < 2147483648 then u else u - 4294967296
  }

  lemma NumberIs(b: seq<byte>, at: nat, w: nat)
    requires IsWidth(w) && at + w <= |b|
    ensures NumberAt(b, at, w) == Unpack(b[at..at + w])
  {
    var s: seq<byte> := b[at..at + w];
    assert forall k :: 0 <= k < w ==> s[k] == b[at + k];
  }

  /** Any bytes are those of the number that they stand for. */
  lemma PackUnpack(s: seq<byte>)
    requires IsWidth(|s|)
    ensures Pack(Unpack(s), |s|) == s
  {
    var w, v := |s|, Unpack(s);
    var a: int := s[0];
    match w
    case 1 =>
    case 2 => Digit(v, a, Top(s[1]));
    case 3 =>
      var b: int := s[1];
      Digit(v, a, b + 0x100 * Top(s[2]));
      Digit(v / 0x100, b, Top(s[2]));
      Shifted(v);
    case _ =>
      var b: int, c: int := s[1], s[2];
      Digit(v, a, b + 0x100 * (c + 0x100 * Top(s[3])));
      Digit(v / 0x100, b, c + 0x100 * Top(s[3]));
      Digit(v / 0x1_0000, c, Top(s[3]));
      Shifted(v);
  }

  /** The highest byte, with its sign. */
  function Top(b: byte): (t: int)
    ensures t % 0x100 == b
  {
    if b >= 0x80 then b as int - 0x100 else b
  }
}
