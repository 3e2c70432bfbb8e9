/** Block convolution by overlap-add of src/core/cwDsp.h. The transform, the product of the spectra
    and the inverse transform together are circular convolution; everything around them is here. */
module Convolve {
  import opened Sums

  type Sample = real

  // ----------------------------------------------------------------- linear convolution

  function At(x: seq<Sample>, i: int): Sample { if 0 <= i < |x| then x[i] else 0.0 }

  /** The first k terms of the sum of h[m] * x[n - m]. */
  function Terms(h: seq<Sample>, x: seq<Sample>, k: nat, n: int): Sample
    requires k <= |h|
  {
    if k == 0 then 0.0 else Terms(h, x, k - 1, n) + h[k - 1] * At(x, n - (k - 1))
  }

  /** Multiplication that is zero where a factor is, without further thought. */
  function Product(a: Sample, b: Sample): Sample { if a == 0.0 || b == 0.0 then 0.0 else a * b }

  lemma ProductIs(a: Sample, b: Sample)
    ensures Product(a, b) == a * b
  {
  }

  /** The same terms, by that product. */
  function ConvOf(h: seq<Sample>, x: seq<Sample>, k: nat, n: int): Sample
    requires k <= |h|
  {
    if k == 0 then 0.0 else ConvOf(h, x, k - 1, n) + Product(h[k - 1], At(x, n - (k - 1)))
  }

  lemma {:induction false} ConvOfIsTerms(h: seq<Sample>, x: seq<Sample>, k: nat, n: int)
    requires k <= |h|
    ensures ConvOf(h, x, k, n) == Terms(h, x, k, n)
  {
    if k > 0 {
      ConvOfIsTerms(h, x, k - 1, n);
      ProductIs(h[k - 1], At(x, n - (k - 1)));
    }
  }

  /** Sample n of the linear convolution. */
  function Conv(h: seq<Sample>, x: seq<Sample>, n: int): (y: Sample)
    ensures y == Terms(h, x, |h|, n)
  {
    ConvOfIsTerms(h, x, |h|, n);
    ConvOf(h, x, |h|, n)
  }

  lemma {:induction false} ConvOfZero(h: seq<Sample>, x: seq<Sample>, k: nat, n: int)
    requires k <= |h| && (n < 0 || n >= k - 1 + |x|)
    ensures ConvOf(h, x, k, n) == 0.0
  {
    if k > 0 { ConvOfZero(h, x, k - 1, n); }
  }

  /** The convolution of a stream is the convolution of its front plus that of the rest, later by
      the length of the front. */
  lemma {:induction false} ConvOfSplit(h: seq<Sample>, x: seq<Sample>, y: seq<Sample>, k: nat, n: int)
    requires k <= |h|
    ensures ConvOf(h, x + y, k, n) == ConvOf(h, x, k, n) + ConvOf(h, y, k, n - |x|)
  {
    if k > 0 { ConvOfSplit(h, x, y, k - 1, n); }
  }

  lemma {:induction false} ConvOfPadded(h: seq<Sample>, x: seq<Sample>, z: nat, k: nat, n: int)
    requires k <= |h|
    ensures ConvOf(h, Padded(x, z), k, n) == ConvOf(h, x, k, n)
  {
    if k > 0 { ConvOfPadded(h, x, z, k - 1, n); }
  }

  function Padded(x: seq<Sample>, z: nat): seq<Sample> { x + seq(z, _ => 0.0) }

  // ----------------------------------------------------------------- circular convolution

  function Wrap(i: int, n: nat): int
    requires 0 <= i + n && i < n
  {
    if i >= 0 then i else i + n
  }

  /** The first k terms of sample i of the circular convolution of length n. */
  function CircularOf(h: seq<Sample>, x: seq<Sample>, n: nat, k: nat, i: nat): Sample
    requires k <= n && i < n
  {
    if k == 0 then 0.0 else CircularOf(h, x, n, k - 1, i) + Product(At(h, k - 1), At(x, Wrap(i - (k - 1), n)))
  }

  /** What transform, product and inverse transform of length n compute. */
  function Circular(h: seq<Sample>, x: seq<Sample>, n: nat): (y: seq<Sample>)
    ensures |y| == n
  {
    seq(n, i requires 0 <= i < n => CircularOf(h, x, n, n, i))
  }

  /** Long enough to hold the whole linear convolution, the circular one does not alias. */
  lemma {:induction false} CircularOfIsLinear(h: seq<Sample>, x: seq<Sample>, n: nat, k: nat, i: nat)
    requires k <= n && i < n && |h| + |x| <= n + 1
    ensures CircularOf(h, x, n, k, i) == ConvOf(h, x, if k <= |h| then k else |h|, i)
  {
    if k > 0 { CircularOfIsLinear(h, x, n, k - 1, i); }
  }

  lemma CircularIsLinear(h: seq<Sample>, x: seq<Sample>, n: nat)
    requires |h| <= n && |h| + |x| <= n + 1
    ensures forall i :: 0 <= i < n ==> Circular(h, x, n)[i] == Conv(h, x, i)
  {
    forall i | 0 <= i < n ensures Circular(h, x, n)[i] == Conv(h, x, i) {
      CircularOfIsLinear(h, x, n, n, i);
    }
  }

  // ----------------------------------------------------------------- block size

  function Pow2(e: nat): (r: nat)
    ensures r >= 1
  {
    if e == 0 then 1 else 2 * Pow2(e - 1)
  }

  ghost predicate IsPow2(n: nat) { exists e: nat :: n == Pow2(e) }

  lemma {:induction false} Pow2Above(e: nat, f: nat)
    requires e < f
    ensures 2 * Pow2(e) <= Pow2(f) && Pow2(e) >= 1
  {
    if e + 1 < f { Pow2Above(e, f - 1); } else if e > 0 { Pow2Above(e - 1, e); }
  }

  /** The transform length is enough for the carry buffer to hold a whole block, except when the
      filter has one coefficient and the block length is itself a power of two. */
  lemma CarryHoldsBlock(hN: nat, procSmpN: nat, cN: nat)
    requires hN >= 1 && procSmpN >= 1
    requires IsPow2(cN) && hN + procSmpN - 1 <= cN < 2 * (hN + procSmpN - 1)
    ensures procSmpN <= cN - 1 <==> !(hN == 1 && IsPow2(procSmpN))
  {
    if hN == 1 && IsPow2(procSmpN) {
      var e: nat :| procSmpN == Pow2(e);
      var f: nat :| cN == Pow2(f);
      if e < f { Pow2Above(e, f); }
      if f < e { Pow2Above(f, e); }
    }
  }

  /** One set bit, which the source tests as x & (x - 1). */
  predicate SingleBit(x: nat) { x == 1 || (x >= 2 && x % 2 == 0 && SingleBit(x / 2)) }

  lemma {:induction false} SingleBitIsPow2(x: nat)
    requires SingleBit(x)
    ensures IsPow2(x)
  {
    if x == 1 {
      assert x == Pow2(0);
    } else {
      SingleBitIsPow2(x / 2);
      var e: nat :| x / 2 == Pow2(e);
      assert x == Pow2(e + 1);
    }
  }

  /** The smallest power of two that is not below the value. */
  ghost predicate IsNextPow2(r: nat, val: nat) { IsPow2(r) && val <= r && r < 2 * val }

  /** The bits below the i-th, of which msb is the highest set one. */
  ghost predicate Scanned(val: nat, mask: nat, i: nat, msb: nat) {
    mask == Pow2(i) && (val % Pow2(i) == 0 || (msb < i && Pow2(msb) <= val % Pow2(i) < Pow2(msb + 1)))
  }

  lemma NextBit(val: nat, mask: nat)
    requires mask > 0
    ensures (val / mask) % 2 == 1 ==> val % (2 * mask) == val % mask + mask
    ensures (val / mask) % 2 == 0 ==> val % (2 * mask) == val % mask
  {
    var q, r := val / mask, val % mask;
    assert val == mask * q + r;
    var b := q % 2;
    assert q == 2 * (q / 2) + b;
    assert val == 2 * mask * (q / 2) + (mask * b + r) by {
      assert mask * (2 * (q / 2) + b) == 2 * mask * (q / 2) + mask * b;
    }
    Remainder(val, 2 * mask, q / 2, mask * b + r);
  }

  lemma ScanBit(val: nat, mask: nat, i: nat, msb: nat)
    requires Scanned(val, mask, i, msb)
    ensures Scanned(val, 2 * mask, i + 1, if (val / mask) % 2 == 1 then i else msb)
  {
    NextBit(val, mask);
    assert 2 * mask == Pow2(i + 1);
  }

  lemma Remainder(v: nat, d: nat, q: nat, r: nat)
    requires d > 0 && v == d * q + r && r < d
    ensures v % d == r
  {
    var e, s := v / d, v % d;
    assert v == d * e + s;
    assert e < q ==> d * (e + 1) <= d * q;
    assert q < e ==> d * (q + 1) <= d * e;
  }

  lemma {:induction false} Pow2IsSingleBit(e: nat)
    ensures SingleBit(Pow2(e))
  {
    if e > 0 { Pow2IsSingleBit(e - 1); }
  }

  lemma AllScanned(val: nat, mask: nat, i: nat, msb: nat)
    requires Scanned(val, mask, i, msb) && 0 < val < mask && !SingleBit(val)
    ensures IsNextPow2(Pow2(msb + 1), val)
  {
    Remainder(val, mask, 0, val);
    Pow2IsSingleBit(msb);
  }

  method TestBit(val: nat, mask: nat, i: nat, msb0: nat) returns (msb: nat)
    requires Scanned(val, mask, i, msb0)
    ensures Scanned(val, 2 * mask, i + 1, msb)
  {
    ScanBit(val, mask, i, msb0);
    msb := if (val / mask) % 2 == 1 then i else msb0;
  }

  /** The next power of two of a 32-bit value, found by scanning for its highest set bit. That of zero
      is two. */
  method NextPowerOfTwo(val: nat) returns (r: nat)
    requires val <= Pow2(31)
    ensures if val == 0 then r == 2 else IsNextPow2(r, val)
  {
    r := 2;
    if val > 0 { r := NextPowerWithin(val, 31); }
  }

  method NextPowerWithin(val: nat, bits: nat) returns (r: nat)
    requires 0 < val <= Pow2(bits)
    ensures IsNextPow2(r, val)
  {
    if SingleBit(val) {
      SingleBitIsPow2(val);
      return val;
    }
    Pow2IsSingleBit(bits);
    var msb := HighestBit(val, bits);
    r := ShiftLeft(msb + 1);
  }

  method HighestBit(val: nat, n: nat) returns (msb: nat)
    requires 0 < val < Pow2(n) && !SingleBit(val)
    ensures IsNextPow2(Pow2(msb + 1), val)
  {
    var mask: nat, i: nat := 1, 0;
    msb := 0;
    while i < n
      invariant i <= n && Scanned(val, mask, i, msb)
    {
      msb := TestBit(val, mask, i, msb);
      i, mask := i + 1, 2 * mask;
    }
    AllScanned(val, mask, n, msb);
  }

  method ShiftLeft(n: nat) returns (r: nat)
    ensures r == Pow2(n)
  {
    r := 1;
    for e := 0 to n
      invariant r == Pow2(e)
    {
      r := 2 * r;
    }
  }

  // ----------------------------------------------------------------- the object

  function Min(a: nat, b: nat): nat { if a < b then a else b }

  function Scaled(h: seq<Sample>, scale: Sample): seq<Sample> {
    seq(|h|, m requires 0 <= m < |h| => scale * h[m])
  }

  /** The scaled product h[m] * x[n - m] for each m, as far as there is one. */
  function Taps(h: seq<Sample>, scale: Sample, x: seq<Sample>, n: int): nat -> Sample {
    (m: nat) => if m < |h| && 0 <= n - m < |x| then scale * h[m] * x[n - m] else 0.0
  }

  lemma {:induction false} TermsAre(h: seq<Sample>, scale: Sample, x: seq<Sample>, k: nat, n: int)
    requires k <= |h|
    ensures Terms(Scaled(h, scale), x, k, n) == Sigma(k, Taps(h, scale, x, n))
  {
    if k > 0 {
      TermsAre(h, scale, x, k - 1, n);
      TermIs(h, scale, x, k - 1, n);
    }
  }

  lemma TermIs(h: seq<Sample>, scale: Sample, x: seq<Sample>, m: nat, n: int)
    requires m < |h|
    ensures Scaled(h, scale)[m] * At(x, n - m) == Taps(h, scale, x, n)(m)
  {
  }

  /** The convolution with the scaled response, by the response itself. */
  lemma ConvIsSum(h: seq<Sample>, scale: Sample, x: seq<Sample>, n: int)
    ensures Conv(Scaled(h, scale), x, n) ==
            Sigma(|h|, (m: nat) => if m < |h| && 0 <= n - m < |x| then scale * h[m] * x[n - m] else 0.0)
  {
    TermsAre(h, scale, x, |h|, n);
  }

  /** The carry buffer holds the part of the convolution that lies beyond the input so far. */
  ghost predicate Carries(ola: seq<Sample>, h: seq<Sample>, input: seq<Sample>) {
    forall m :: 0 <= m < |ola| ==> ola[m] == Conv(h, input, |input| + m)
  }

  /** The transform of this length takes the whole filter, and the carry buffer a whole block. */
  ghost predicate Suits(hN: nat, procSmpN: nat) {
    if procSmpN > 0 then !(hN == 1 && IsPow2(procSmpN)) else hN == 1 || (hN >= 4 && !IsPow2(hN - 1))
  }

  class Convolver {
    const hV: seq<Sample>           // the scaled filter, whose spectrum the source keeps
    const cN: nat                   // transform length
    const outN: nat                 // block length
    const olaV: array<Sample>
    const outV: array<Sample>
    ghost var input: seq<Sample>    // all blocks so far, each padded to the block length
    ghost const response: seq<Sample>   // the filter and the scale that it was made with
    ghost const scale: Sample

    ghost predicate Valid()
      reads this, olaV
    {
      && outN <= cN - 1 && |hV| <= cN && |hV| + outN <= cN + 1
      && olaV.Length == cN - 1 && outV.Length == cN && olaV != outV
      && Carries(olaV[..], hV, input) && hV == Scaled(response, scale)
    }

    constructor (h: seq<Sample>, procSmpN: nat, scale: Sample)
      requires |h| >= 1 && Suits(|h|, procSmpN) && |h| + procSmpN - 1 <= Pow2(31)
      ensures Valid() && hV == Scaled(h, scale) && outN == procSmpN && input == []
      ensures response == h && this.scale == scale
      ensures fresh(olaV) && fresh(outV)
    {
      var n := NextPowerOfTwo(|h| + procSmpN - 1);
      if procSmpN > 0 { CarryHoldsBlock(|h|, procSmpN, n); }
      hV, cN, outN, input := Scaled(h, scale), n, procSmpN, [];
      response, this.scale := h, scale;
      olaV := new Sample[n - 1](_ => 0.0);
      outV := new Sample[n](_ => 0.0);
      new;
      forall m | 0 <= m < cN - 1 ensures Conv(hV, [], m) == 0.0 { SilenceConv(hV, m); }
    }

    /** One block in, the next block of the linear convolution out: the sum, over the response, of its
        scaled samples times those of the input so far. */
    method Exec(x: seq<Sample>)
      requires Valid() && |x| <= outN && outN > 0
      modifies `input, olaV, outV
      ensures Valid() && input == old(input) + (x + seq(outN - |x|, _ => 0.0))
      ensures forall i :: 0 <= i < outN ==> outV[i] == Conv(hV, input, |old(input)| + i)
      ensures var h, all, from := response, input, |old(input)|;
              forall i :: 0 <= i < outN ==>
                outV[i] == Sigma(|h|, (m: nat) =>
                  if m < |h| && 0 <= from + i - m < |all| then scale * h[m] * all[from + i - m] else 0.0)
    {
      ExecBlock(x);
      var h, all, from := response, input, |old(input)|;
      forall i | 0 <= i < outN
        ensures outV[i] == Sigma(|h|, (m: nat) =>
                  if m < |h| && 0 <= from + i - m < |all| then scale * h[m] * all[from + i - m] else 0.0)
      {
        ConvIsSum(h, scale, all, from + i);
      }
    }

    method ExecBlock(x: seq<Sample>)
      requires Valid() && |x| <= outN && outN > 0
      modifies `input, olaV, outV
      ensures Valid() && input == old(input) + Padded(x, outN - |x|)
      ensures forall i :: 0 <= i < outN ==> outV[i] == Conv(hV, input, |old(input)| + i)
    {
      var y := Circular(hV, x, cN);
      ghost var was, ola := input, olaV[..];
      for i := 0 to outN
        invariant olaV[..] == ola && input == was
        invariant forall j :: 0 <= j < i ==> outV[j] == ola[j] + y[j]
      {
        outV[i] := olaV[i] + y[i];
      }
      ShiftAndAdd(y);
      input := input + Padded(x, outN - |x|);
      BlockAdvances(hV, was, x, outN, cN, ola, y);
      assert olaV[..] == Carried(ola, y, outN);
    }

    /** Shift the carry buffer by a block, zero what is vacated, and add the tail of the result. */
    method ShiftAndAdd(y: seq<Sample>)
      requires 1 <= outN <= cN - 1 && olaV.Length == cN - 1 && |y| == cN
      modifies olaV
      ensures olaV[..] == Carried(old(olaV[..]), y, outN)
    {
      ghost var was := olaV[..];
      Shift();
      AddTail(y);
      assert olaV[..] == Carried(was, y, outN);
    }

    method AddTail(y: seq<Sample>)
      requires outN <= cN && olaV.Length == cN - 1 && |y| == cN
      modifies olaV
      ensures forall m :: 0 <= m < olaV.Length ==> olaV[m] == old(olaV[m]) + At(y, m + outN)
    {
      var remainingN := Min(olaV.Length, cN - outN);
      for i := 0 to remainingN
        invariant forall m :: 0 <= m < i ==> olaV[m] == old(olaV[m]) + At(y, m + outN)
        invariant forall m :: i <= m < olaV.Length ==> olaV[m] == old(olaV[m])
      {
        olaV[i] := olaV[i] + y[outN + i];
      }
    }

    method Shift()
      requires 1 <= outN
      modifies olaV
      ensures forall m :: 0 <= m < olaV.Length ==> olaV[m] == At(old(olaV[..]), m + outN)
    {
      var olaN := olaV.Length;
      var moveN := if olaN > outN then olaN - outN else 0;
      forall i | 0 <= i < moveN { olaV[i] := olaV[i + outN]; }
      var zeroN := Min(olaN, outN);
      forall i | moveN <= i < moveN + zeroN { olaV[i] := 0.0; }
    }
  }

  /** The carry buffer after a block: the old one a block later, plus the tail of the new result. */
  function Carried(ola: seq<Sample>, y: seq<Sample>, outN: nat): seq<Sample> {
    seq(|ola|, m requires 0 <= m < |ola| => At(ola, m + outN) + At(y, m + outN))
  }

  lemma SilenceConv(h: seq<Sample>, n: int)
    ensures Conv(h, [], n) == 0.0
  {
    if n < 0 || n >= |h| - 1 { ConvOfZero(h, [], |h|, n); }
    SilenceConvOf(h, |h|, n);
  }

  lemma {:induction false} SilenceConvOf(h: seq<Sample>, k: nat, n: int)
    requires k <= |h|
    ensures ConvOf(h, [], k, n) == 0.0
  {
    if k > 0 { SilenceConvOf(h, k - 1, n); }
  }

  /** After one block the output is the next block of the convolution of the longer input, and the
      carry buffer again holds the part beyond it. */
  lemma BlockAdvances(h: seq<Sample>, input: seq<Sample>, x: seq<Sample>, outN: nat, cN: nat, ola: seq<Sample>,
                      y: seq<Sample>)
    requires 1 <= outN <= cN - 1 && |h| + outN <= cN + 1 && |x| <= outN
    requires |ola| == cN - 1 && Carries(ola, h, input) && y == Circular(h, x, cN)
    ensures var z := input + Padded(x, outN - |x|);
            && (forall i :: 0 <= i < outN ==> ola[i] + y[i] == Conv(h, z, |input| + i))
            && Carries(Carried(ola, y, outN), h, z)
  {
    var p := Padded(x, outN - |x|);
    var z := input + p;
    forall m: nat ensures At(ola, m) + At(y, m) == Conv(h, z, |input| + m) {
      ConvOfSplit(h, input, p, |h|, |input| + m);
      ConvOfPadded(h, x, outN - |x|, |h|, m);
      if m < cN { CircularIsLinear(h, x, cN); } else { ConvOfZero(h, x, |h|, m); }
      if m >= cN - 1 { ConvOfZero(h, input, |h|, |input| + m); }
    }
    forall i | 0 <= i < outN ensures ola[i] + y[i] == Conv(h, z, |input| + i) {
      assert At(ola, i) + At(y, i) == ola[i] + y[i];
    }
    forall m | 0 <= m < cN - 1 ensures Carried(ola, y, outN)[m] == Conv(h, z, |z| + m) {
      assert |z| + m == |input| + (m + outN);
    }
  }

  // ----------------------------------------------------------------- whole signals

  lemma ConvIsCausal(h: seq<Sample>, x: seq<Sample>, y: seq<Sample>, n: int)
    requires n < |x|
    ensures Conv(h, x + y, n) == Conv(h, x, n)
  {
    ConvOfSplit(h, x, y, |h|, n);
    ConvOfZero(h, y, |h|, n - |x|);
  }

  /** Convolve a whole signal block by block: the last block may be short, and what remains in the
      carry buffer is flushed. Every sample of the result is that of the linear convolution, the sum of
      h[m] * x[i - m], which is zero beyond the two lengths together less one. An empty signal is taken,
      too, if the transform made for it takes the filter. */
  method Apply(xV: seq<Sample>, hV: seq<Sample>, yV: array<Sample>, hScale: Sample)
    requires |hV| >= 1 && Suits(|hV|, Min(|xV|, |hV|)) && |hV| + Min(|xV|, |hV|) - 1 <= Pow2(31)
    modifies yV
    ensures forall i :: 0 <= i < yV.Length ==> yV[i] == Conv(Scaled(hV, hScale), xV, i)
    ensures forall i :: 0 <= i < yV.Length ==>
              yV[i] == Sigma(|hV|, (m: nat) =>
                if m < |hV| && 0 <= i - m < |xV| then hScale * hV[m] * xV[i - m] else 0.0)
    ensures forall i :: |xV| + |hV| - 1 <= i < yV.Length ==> yV[i] == 0.0
  {
    ApplyBlocks(xV, hV, yV, hScale);
    forall i | 0 <= i < yV.Length
      ensures yV[i] == Sigma(|hV|, (m: nat) =>
                if m < |hV| && 0 <= i - m < |xV| then hScale * hV[m] * xV[i - m] else 0.0)
    {
      ConvIsSum(hV, hScale, xV, i);
    }
  }

  method ApplyBlocks(xV: seq<Sample>, hV: seq<Sample>, yV: array<Sample>, hScale: Sample)
    requires |hV| >= 1 && Suits(|hV|, Min(|xV|, |hV|)) && |hV| + Min(|xV|, |hV|) - 1 <= Pow2(31)
    modifies yV
    ensures forall i :: 0 <= i < yV.Length ==> yV[i] == Conv(Scaled(hV, hScale), xV, i)
    ensures forall i :: |xV| + |hV| - 1 <= i < yV.Length ==> yV[i] == 0.0
  {
    var procSmpN := Min(|xV|, |hV|);
    var p := new Convolver(hV, procSmpN, hScale);
    ghost var h := p.hV;
    var xi, yi := 0, 0;
    while xi < |xV| && yi < yV.Length
      invariant p.Valid() && p.hV == h && p.outN == procSmpN && fresh(p) && fresh(p.olaV) && fresh(p.outV)
      invariant Covers(p.input, xV, xi) && yi == Min(xi, yV.Length)
      invariant forall i :: 0 <= i < yi ==> yV[i] == Conv(h, xV, i)
    {
      yi := NextBlock(p, xV, xi, yi, yV);
      xi := xi + procSmpN;
    }
    if yi < yV.Length {
      Flush(p, xV, xi, yV);
    }
    forall i | |xV| + |hV| - 1 <= i ensures Conv(h, xV, i) == 0.0 {
      ConvOfZero(h, xV, |h|, i);
    }
  }

  /** One block of the signal through the convolver and into the result. */
  method NextBlock(p: Convolver, xV: seq<Sample>, xi: nat, yi: nat, yV: array<Sample>) returns (yn: nat)
    requires p.Valid() && p.outN > 0 && xi < |xV| && yi == xi < yV.Length && Covers(p.input, xV, xi)
    requires yV != p.olaV && yV != p.outV
    modifies p`input, p.olaV, p.outV, yV
    ensures p.Valid() && Covers(p.input, xV, xi + p.outN) && yn == Min(xi + p.outN, yV.Length)
    ensures forall i :: 0 <= i < yi ==> yV[i] == old(yV[i])
    ensures forall i :: yi <= i < yn ==> yV[i] == Conv(p.hV, xV, i)
  {
    var curXN := Min(p.outN, |xV| - xi);
    CoversMore(p.input, xV, xi, p.outN);
    p.Exec(xV[xi..xi + curXN]);
    var outN := Min(yV.Length - yi, p.outN);
    forall i | 0 <= i < outN ensures p.outV[i] == Conv(p.hV, xV, yi + i) {
      CoveredConv(p.hV, p.input, xV, xi + p.outN, yi + i);
    }
    Copy(yV, yi, p.outV, outN);
    yn := yi + outN;
  }

  /** After the last block: the carry buffer, then zeros. */
  method Flush(p: Convolver, ghost xV: seq<Sample>, yi: nat, yV: array<Sample>)
    requires p.Valid() && Covers(p.input, xV, yi) && yi >= |xV| && yi <= yV.Length && yV != p.olaV
    modifies yV
    ensures forall i :: 0 <= i < yi ==> yV[i] == old(yV[i])
    ensures forall i :: yi <= i < yV.Length ==> yV[i] == Conv(p.hV, xV, i)
  {
    var outN := Min(yV.Length - yi, p.olaV.Length);
    forall i | 0 <= i < outN ensures p.olaV[i] == Conv(p.hV, xV, yi + i) {
      assert p.olaV[..][i] == Conv(p.hV, p.input, |p.input| + i);
      FlushedConv(p.hV, p.input, xV, yi, yi + i);
    }
    Copy(yV, yi, p.olaV, outN);
    var at := yi + outN;
    forall i | at <= i < yV.Length { yV[i] := 0.0; }
    forall i | yi <= i < yV.Length ensures yV[i] == Conv(p.hV, xV, i) {
      if i >= at {
        ConvOfZero(p.hV, xV, |p.hV|, i);
      }
    }
  }

  method Copy(yV: array<Sample>, at: nat, v: array<Sample>, n: nat)
    requires at + n <= yV.Length && n <= v.Length && yV != v
    modifies yV
    ensures forall i :: at <= i < at + n ==> yV[i] == v[i - at]
    ensures forall i :: 0 <= i < yV.Length && !(at <= i < at + n) ==> yV[i] == old(yV[i])
  {
    forall i | at <= i < at + n { yV[i] := v[i - at]; }
  }

  /** The blocks so far are the first xi samples of x; past its end, x followed by zeros. */
  ghost predicate Covers(input: seq<Sample>, x: seq<Sample>, xi: nat) {
    input == if xi <= |x| then x[..xi] else Padded(x, xi - |x|)
  }

  lemma CoversMore(input: seq<Sample>, x: seq<Sample>, xi: nat, n: nat)
    requires Covers(input, x, xi) && xi < |x|
    ensures var cur := Min(n, |x| - xi);
            Covers(input + Padded(x[xi..xi + cur], n - cur), x, xi + n)
  {
  }

  lemma CoveredConv(h: seq<Sample>, input: seq<Sample>, x: seq<Sample>, xi: nat, n: nat)
    requires Covers(input, x, xi) && n < xi
    ensures Conv(h, input, n) == Conv(h, x, n)
  {
    if xi <= |x| {
      assert x == x[..xi] + x[xi..];
      ConvIsCausal(h, x[..xi], x[xi..], n);
    } else {
      ConvOfPadded(h, x, xi - |x|, |h|, n);
    }
  }

  lemma FlushedConv(h: seq<Sample>, input: seq<Sample>, x: seq<Sample>, xi: nat, n: nat)
    requires Covers(input, x, xi) && xi >= |x|
    ensures Conv(h, input, n) == Conv(h, x, n)
  {
    if xi == |x| {
      assert x[..xi] == x;
    } else {
      ConvOfPadded(h, x, xi - |x|, |h|, n);
    }
  }
}
