/** The samples of a WAV file, src/core/cwAudioFile.cpp: writing interleaves the channels block by
    block into bytes, and reading takes a range of channels out of the bytes again. */
module WavAudio {
  import opened Bytes
  import opened Stride
  import opened Pcm
  import opened WavFile

  const WriteFrames := 1024
  const ReadFrames := 8192

  // ----------------------------------------------------------------- where a sample stands

  /** The offset of the sample of channel c in frame f. */
  function Slot(f: nat, c: nat, chCnt: nat, w: nat): nat { Pos(f, Pos(chCnt, w)) + Pos(c, w) }

  lemma SlotFits(f: nat, c: nat, chCnt: nat, w: nat, n: nat)
    requires f < n && c < chCnt
    ensures Slot(f, c, chCnt, w) + w <= Pos(f + 1, Pos(chCnt, w)) <= Pos(n, Pos(chCnt, w))
  {
    PosMonotone(c + 1, chCnt, w);
    PosMonotone(f + 1, n, Pos(chCnt, w));
  }

  /** Two samples do not overlap. */
  lemma SlotsApart(f: nat, c: nat, g: nat, d: nat, chCnt: nat, w: nat)
    requires c < chCnt && d < chCnt && (f, c) != (g, d)
    ensures Slot(f, c, chCnt, w) + w <= Slot(g, d, chCnt, w) || Slot(g, d, chCnt, w) + w <= Slot(f, c, chCnt, w)
  {
    if f < g {
      SlotFits(f, c, chCnt, w, g);
    } else if g < f {
      SlotFits(g, d, chCnt, w, f);
    } else if c < d {
      PosMonotone(c + 1, d, w);
    } else {
      PosMonotone(d + 1, c, w);
    }
  }

  lemma SlotFrom(f: nat, g: nat, c: nat, chCnt: nat, w: nat)
    ensures Slot(f + g, c, chCnt, w) == Pos(f, Pos(chCnt, w)) + Slot(g, c, chCnt, w)
  {
    PosAdd(f, g, Pos(chCnt, w));
  }

  /** The sample v stands at an offset. */
  predicate Stands(b: seq<byte>, at: nat, v: int, w: nat)
    requires IsWidth(w)
  {
    at + w <= |b| && b[at..at + w] == Pack(v, w)
  }

  /** Each channel has at least n samples. */
  predicate Lasts(audio: seq<seq<int>>, n: nat) { forall c :: 0 <= c < |audio| ==> |audio[c]| >= n }

  /** The samples of the audio from frame from on stand in n frames at off. */
  ghost predicate Holds(b: seq<byte>, off: nat, audio: seq<seq<int>>, from: nat, n: nat, w: nat)
    requires IsWidth(w) && Lasts(audio, from + n)
  {
    forall j, c :: 0 <= j < n && 0 <= c < |audio| ==> Stands(b, off + Slot(j, c, |audio|, w), audio[c][from + j], w)
  }

  /** The same, as far as channel c1 and frame j1 of it. */
  ghost predicate Filled(b: seq<byte>, audio: seq<seq<int>>, from: nat, n: nat, w: nat, c1: nat, j1: nat)
    requires IsWidth(w) && Lasts(audio, from + n)
  {
    forall j, c :: 0 <= j < n && 0 <= c < |audio| && (c < c1 || (c == c1 && j < j1)) ==>
      Stands(b, Slot(j, c, |audio|, w), audio[c][from + j], w)
  }

  /** Bytes that did not change still hold what stood there. */
  lemma StillStands(b: seq<byte>, b': seq<byte>, at: nat, v: int, w: nat)
    requires IsWidth(w) && Stands(b, at, v, w) && |b'| >= at + w
    requires forall i :: at <= i < at + w ==> b'[i] == b[i]
    ensures Stands(b', at, v, w)
  {
    assert b'[at..at + w] == b[at..at + w];
  }

  lemma FilledNext(b: seq<byte>, b': seq<byte>, audio: seq<seq<int>>, from: nat, n: nat, w: nat, c: nat, j: nat)
    requires IsWidth(w) && Lasts(audio, from + n) && c < |audio| && j < n && |b'| == |b|
    requires Filled(b, audio, from, n, w, c, j)
    requires var at := Slot(j, c, |audio|, w);
             && Stands(b', at, audio[c][from + j], w)
             && forall i :: 0 <= i < |b| && (i < at || i >= at + w) ==> b'[i] == b[i]
    ensures Filled(b', audio, from, n, w, c, j + 1)
  {
    forall k, d | 0 <= k < n && 0 <= d < |audio| && (d < c || (d == c && k < j + 1))
      ensures Stands(b', Slot(k, d, |audio|, w), audio[d][from + k], w)
    {
      if (k, d) != (j, c) {
        SlotsApart(k, d, j, c, |audio|, w);
        StillStands(b, b', Slot(k, d, |audio|, w), audio[d][from + k], w);
      }
    }
  }

  // ----------------------------------------------------------------- appending to a file

  /** The channels with n more samples of another. */
  function Append(audio: seq<seq<int>>, src: seq<seq<int>>, from: nat, n: nat): (a: seq<seq<int>>)
    requires |src| == |audio| && Lasts(src, from + n)
    ensures |a| == |audio| && forall c :: 0 <= c < |a| ==> a[c] == audio[c] + src[c][from..from + n]
  {
    seq(|audio|, c requires 0 <= c < |audio| => audio[c] + src[c][from..from + n])
  }

  lemma AppendNothing(audio: seq<seq<int>>, src: seq<seq<int>>)
    requires |src| == |audio|
    ensures Lasts(src, 0) && Append(audio, src, 0, 0) == audio
  {
    assert forall c :: 0 <= c < |audio| ==> audio[c] + src[c][0..0] == audio[c];
  }

  lemma AppendTwice(audio: seq<seq<int>>, src: seq<seq<int>>, n: nat, m: nat)
    requires |src| == |audio| && Lasts(src, n + m)
    ensures Append(Append(audio, src, 0, n), src, n, m) == Append(audio, src, 0, n + m)
  {
    forall c | 0 <= c < |audio|
      ensures audio[c] + src[c][0..n] + src[c][n..n + m] == audio[c] + src[c][0..n + m]
    {
      assert src[c][0..n] + src[c][n..n + m] == src[c][0..n + m];
    }
  }

  predicate AllAre(audio: seq<seq<int>>, n: nat) { forall c :: 0 <= c < |audio| ==> |audio[c]| == n }

  /** The file has a header and the frames of the audio. */
  ghost predicate IsFile(b: seq<byte>, audio: seq<seq<int>>, n: nat, w: nat) {
    && IsWidth(w) && AllAre(audio, n) && |b| == HeaderSize + Pos(n, Pos(|audio|, w))
    && Holds(b, HeaderSize, audio, 0, n, w)
  }

  lemma FileGrows(b: seq<byte>, audio: seq<seq<int>>, n: nat, w: nat, block: seq<byte>, src: seq<seq<int>>,
                  from: nat, m: nat)
    requires IsFile(b, audio, n, w) && |src| == |audio| && Lasts(src, from + m)
    requires |block| == Pos(m, Pos(|audio|, w)) && Holds(block, 0, src, from, m, w)
    ensures IsFile(b + block, Append(audio, src, from, m), n + m, w)
  {
    PosAdd(n, m, Pos(|audio|, w));
    forall j, c | 0 <= j < n + m && 0 <= c < |audio|
      ensures Stands(b + block, HeaderSize + Slot(j, c, |audio|, w), Append(audio, src, from, m)[c][0 + j], w) == true
    {
      GrownStands(b, audio, n, w, block, src, from, m, j, c);
    }
  }

  lemma GrownStands(b: seq<byte>, audio: seq<seq<int>>, n: nat, w: nat, block: seq<byte>, src: seq<seq<int>>, from: nat,
                    m: nat, j: nat, c: nat)
    requires IsFile(b, audio, n, w) == true && |src| == |audio| && Lasts(src, from + m) && j < n + m && c < |audio|
    requires IsWidth(w) && Holds(block, 0, src, from, m, w) == true
    ensures |Append(audio, src, from, m)[c]| == n + m
    ensures Stands(b + block, HeaderSize + Slot(j, c, |audio|, w), Append(audio, src, from, m)[c][j], w) == true
  {
    AppendedAt(audio, src, from, n, m, c, j);
    if j < n {
      OldStands(b, audio, n, w, block, src, from, m, j, c);
    } else {
      NewStands(b, n, w, block, src, from, m, j - n, c);
    }
  }

  lemma AppendedAt(audio: seq<seq<int>>, src: seq<seq<int>>, from: nat, n: nat, m: nat, c: nat, j: nat)
    requires |src| == |audio| && Lasts(src, from + m) && AllAre(audio, n) && c < |audio| && j < n + m
    ensures |Append(audio, src, from, m)[c]| == n + m
    ensures Append(audio, src, from, m)[c][j] == if j < n then audio[c][j] else src[c][from + (j - n)]
  {
  }

  lemma OldStands(b: seq<byte>, audio: seq<seq<int>>, n: nat, w: nat, block: seq<byte>, src: seq<seq<int>>,
                  from: nat, m: nat,
                  j: nat, c: nat)
    requires IsFile(b, audio, n, w) && |src| == |audio| && Lasts(src, from + m) && j < n && c < |audio|
    ensures |Append(audio, src, from, m)[c]| == n + m
    ensures Stands(b + block, HeaderSize + Slot(j, c, |audio|, w), Append(audio, src, from, m)[c][j], w)
  {
    AppendedAt(audio, src, from, n, m, c, j);
    assert Stands(b, HeaderSize + Slot(j, c, |audio|, w), audio[c][0 + j], w);
    StillStands(b, b + block, HeaderSize + Slot(j, c, |audio|, w), audio[c][j], w);
  }

  lemma NewStands(b: seq<byte>, n: nat, w: nat, block: seq<byte>, src: seq<seq<int>>, from: nat, m: nat, k: nat, c: nat)
    requires IsWidth(w) && Lasts(src, from + m) && |b| == HeaderSize + Pos(n, Pos(|src|, w))
    requires Holds(block, 0, src, from, m, w) && k < m && c < |src|
    ensures Stands(b + block, HeaderSize + Slot(n + k, c, |src|, w), src[c][from + k], w)
  {
    assert Stands(block, 0 + Slot(k, c, |src|, w), src[c][from + k], w);
    SlotFrom(n, k, c, |src|, w);
    StandsBehind(b, block, Slot(k, c, |src|, w), src[c][from + k], w);
  }

  lemma StandsBehind(b: seq<byte>, block: seq<byte>, at: nat, v: int, w: nat)
    requires IsWidth(w) && Stands(block, at, v, w)
    ensures Stands(b + block, |b| + at, v, w)
  {
    assert (b + block)[|b| + at..|b| + at + w] == block[at..at + w];
  }

  /** Only the header changes. */
  lemma NewHeader(b: seq<byte>, h: seq<byte>, audio: seq<seq<int>>, n: nat, w: nat)
    requires IsFile(b, audio, n, w) && |h| == HeaderSize
    ensures IsFile(h + b[HeaderSize..], audio, n, w)
  {
    var b' := h + b[HeaderSize..];
    forall j, c | 0 <= j < n && 0 <= c < |audio|
      ensures Stands(b', HeaderSize + Slot(j, c, |audio|, w), audio[c][j], w)
    {
      StillStands(b, b', HeaderSize + Slot(j, c, |audio|, w), audio[c][j], w);
    }
  }

  /** The bytes of a sample in a file. */
  lemma FileHasBytes(b: seq<byte>, audio: seq<seq<int>>, n: nat, w: nat, f: nat, c: nat)
    requires IsFile(b, audio, n, w) && f < n && c < |audio|
    ensures HasBytes(b, HeaderSize + Pos(f, Pos(|audio|, w)) + Pos(c, w), audio[c][f], w)
  {
    var at := HeaderSize + Slot(f, c, |audio|, w);
    assert Stands(b, at, audio[c][0 + f], w);
    PackedBytes(b, at, audio[c][f], w);
  }

  lemma SlotInside(n: nat, chCnt: nat, w: nat, f: nat, c: nat)
    requires f < n && c < chCnt
    ensures Pos(f, Pos(chCnt, w)) + Pos(c, w) + w <= Pos(n, Pos(chCnt, w))
  {
    SlotFits(f, c, chCnt, w, n);
  }

  /** Any bytes behind a header are a file: of the samples that they stand for. */
  lemma AnyBytes(b: seq<byte>, chCnt: nat, n: nat, w: nat) returns (audio: seq<seq<int>>)
    requires IsWidth(w) && |b| == HeaderSize + Pos(n, Pos(chCnt, w))
    ensures |audio| == chCnt && IsFile(b, audio, n, w)
  {
    forall f: nat, c: nat | f < n && c < chCnt ensures HeaderSize + Slot(f, c, chCnt, w) + w <= |b| {
      SlotInside(n, chCnt, w, f, c);
    }
    audio := seq(chCnt, c requires 0 <= c < chCnt =>
                   seq(n, f requires 0 <= f < n => NumberAt(b, HeaderSize + Slot(f, c, chCnt, w), w)));
    forall j, c | 0 <= j < n && 0 <= c < |audio|
      ensures Stands(b, HeaderSize + Slot(j, c, |audio|, w), audio[c][0 + j], w) == true
    {
      var at := HeaderSize + Slot(j, c, chCnt, w);
      NumberIs(b, at, w);
      PackUnpack(b[at..at + w]);
    }
  }

  class Writer {
    const w: nat
    const chCnt: nat
    const srate: u32
    var frameCnt: nat
    var bytes: seq<byte>
    ghost var audio: seq<seq<int>>     // the samples written, channel by channel

    ghost predicate Valid()
      reads this
    {
      0 < chCnt == |audio| < 0x8000 && IsFile(bytes, audio, frameCnt, w)
    }

    /** Creates a file with a header for no samples. */
    constructor (rate: u32, bits: nat, channels: nat)
      requires bits == 8 || bits == 16 || bits == 24 || bits == 32
      requires 0 < channels < 0x8000
      ensures Valid() && w == bits / 8 && chCnt == channels && srate == rate && frameCnt == 0
    {
      w, chCnt, srate, frameCnt := bits / 8, channels, rate, 0;
      bytes := Header(channels, bits, rate, false, 0);
      audio := seq(channels, _ => []);
    }

    /** Writes a sample into a buffer. */
    static method PutSample(buf: array<byte>, at: nat, v: int, w: nat)
      requires IsWidth(w) && at + w <= buf.Length
      modifies buf
      ensures Stands(buf[..], at, v, w)
      ensures forall i :: 0 <= i < buf.Length && (i < at || i >= at + w) ==> buf[i] == old(buf[i])
    {
      var s := Pack(v, w);
      for k := 0 to w
        invariant forall i :: 0 <= i < k ==> buf[at + i] == s[i]
        invariant forall i :: 0 <= i < buf.Length && (i < at || i >= at + w) ==> buf[i] == old(buf[i])
      {
        buf[at + k] := s[k];
      }
      assert buf[..][at..at + w] == s;
    }

    /** Interleaves n frames of the source into a buffer. */
    method Interleave(buf: array<byte>, src: seq<seq<int>>, from: nat, n: nat)
      requires IsWidth(w) && |src| == chCnt && Lasts(src, from + n) && buf.Length >= Pos(n, Pos(chCnt, w))
      modifies buf
      ensures Holds(buf[..], 0, src, from, n, w)
    {
      var bpf, offs := Pos(chCnt, w), 0;
      for ci := 0 to chCnt
        invariant offs == Pos(ci, w) && Filled(buf[..], src, from, n, w, ci, 0)
      {
        InterleaveChannel(buf, src, from, n, ci, offs);
        offs := offs + w;
      }
    }

    method InterleaveChannel(buf: array<byte>, src: seq<seq<int>>, from: nat, n: nat, ci: nat, offs: nat)
      requires IsWidth(w) && ci < |src| == chCnt && Lasts(src, from + n) && buf.Length >= Pos(n, Pos(chCnt, w))
      requires offs == Pos(ci, w) && Filled(buf[..], src, from, n, w, ci, 0)
      modifies buf
      ensures Filled(buf[..], src, from, n, w, ci + 1, 0)
    {
      var dbp := offs;
      for j := 0 to n
        invariant dbp == Slot(j, ci, chCnt, w) && Filled(buf[..], src, from, n, w, ci, j)
      {
        SlotFits(j, ci, chCnt, w, n);
        ghost var b := buf[..];
        PutSample(buf, dbp, src[ci][from + j], w);
        FilledNext(b, buf[..], src, from, n, w, ci, j);
        dbp := dbp + Pos(chCnt, w);
      }
    }

    /** Appends frames, in blocks of at most 1024. */
    method WriteInt(frmCnt: nat, src: seq<seq<int>>)
      requires Valid() && |src| == chCnt && Lasts(src, frmCnt)
      modifies this
      ensures Valid() == true && frameCnt == old(frameCnt) + frmCnt && audio == Append(old(audio), src, 0, frmCnt)
      ensures HoldsSamples() == true
    {
      WriteBlocks(frmCnt, src);
      SamplesAreHeld();
    }

    lemma SamplesAreHeld()
      requires Valid()
      ensures HoldsSamples() == true
    {
      forall f, c | 0 <= f < frameCnt && 0 <= c < chCnt
        ensures HasBytes(bytes, HeaderSize + Pos(f, Pos(chCnt, w)) + Pos(c, w), audio[c][f], w)
      {
        FileHasBytes(bytes, audio, frameCnt, w, f, c);
      }
    }

    /** Behind the header the samples stand frame by frame and in a frame channel by channel, a sample of
        one byte with 128 added, the others as their digits to base 256, the lowest first. */
    ghost predicate HoldsSamples()
      requires Valid()
      reads this
    {
      forall f, c :: 0 <= f < frameCnt && 0 <= c < chCnt ==>
        var at, v := HeaderSize + Pos(f, Pos(chCnt, w)) + Pos(c, w), audio[c][f];
        && at + w <= |bytes|
        && if w == 1 then bytes[at] == (v + 128) % 256
           else forall k :: 0 <= k < w ==> bytes[at + k] == v / Unit(k) % 256
    }

    method WriteBlocks(frmCnt: nat, src: seq<seq<int>>)
      requires Valid() && |src| == chCnt && Lasts(src, frmCnt)
      modifies this
      ensures Valid() && frameCnt == old(frameCnt) + frmCnt && audio == Append(old(audio), src, 0, frmCnt)
    {
      AppendNothing(audio, src);
      var wrFrmCnt := 0;
      var buf := new byte[Pos(WriteFrames, Pos(chCnt, w))];
      while wrFrmCnt < frmCnt
        invariant wrFrmCnt <= frmCnt && chCnt == |audio| && frameCnt == old(frameCnt)
        invariant audio == Append(old(audio), src, 0, wrFrmCnt)
        invariant IsFile(bytes, audio, frameCnt + wrFrmCnt, w) && buf.Length == Pos(WriteFrames, Pos(chCnt, w))
      {
        var n := Min(frmCnt - wrFrmCnt, WriteFrames);
        WriteBlock(buf, src, wrFrmCnt, n);
        AppendTwice(old(audio), src, wrFrmCnt, n);
        wrFrmCnt := wrFrmCnt + n;
      }
      frameCnt := frameCnt + wrFrmCnt;
    }

    method WriteBlock(buf: array<byte>, src: seq<seq<int>>, from: nat, n: nat)
      requires chCnt == |audio| == |src| && Lasts(src, from + n) && n <= WriteFrames
      requires IsFile(bytes, audio, frameCnt + from, w) && buf.Length == Pos(WriteFrames, Pos(chCnt, w))
      modifies this`bytes, this`audio, buf
      ensures IsFile(bytes, audio, frameCnt + from + n, w) && audio == Append(old(audio), src, from, n)
    {
      PosMonotone(n, WriteFrames, Pos(chCnt, w));
      Interleave(buf, src, from, n);
      var block := buf[..Pos(n, Pos(chCnt, w))];
      BlockHolds(buf[..], block, src, from, n, w);
      FileGrows(bytes, audio, frameCnt + from, w, block, src, from, n);
      bytes := bytes + block;
      audio := Append(audio, src, from, n);
    }

    /** Writes the header for the samples written. */
    method Close()
      requires Valid()
      modifies this`bytes
      ensures Valid() == true && HoldsSamples() == true
      ensures bytes[..HeaderSize] == Header(chCnt, 8 * w, srate, false, Pos(frameCnt, Pos(chCnt, w)))
    {
      DataSize(frameCnt, chCnt, w);
      var h := Header(chCnt, 8 * w, srate, false, chCnt * frameCnt * w);
      NewHeader(bytes, h, audio, frameCnt, w);
      bytes := h + bytes[HeaderSize..];
      SamplesAreHeld();
    }
  }

  /** The part of a buffer that is written holds the frames. */
  lemma BlockHolds(b: seq<byte>, block: seq<byte>, src: seq<seq<int>>, from: nat, n: nat, w: nat)
    requires IsWidth(w) && Lasts(src, from + n) && Holds(b, 0, src, from, n, w)
    requires |b| >= Pos(n, Pos(|src|, w)) && block == b[..Pos(n, Pos(|src|, w))]
    ensures Holds(block, 0, src, from, n, w)
  {
    forall j, c | 0 <= j < n && 0 <= c < |src| ensures Stands(block, Slot(j, c, |src|, w), src[c][from + j], w) {
      SlotFits(j, c, |src|, w, n);
      assert Stands(b, 0 + Slot(j, c, |src|, w), src[c][from + j], w);
      StillStands(b, block, Slot(j, c, |src|, w), src[c][from + j], w);
    }
  }

  // ----------------------------------------------------------------- reading a file

  /** Opening a written file gives back its format; and its frame count exactly when the file is not
      mono with an odd number of one-byte samples. */
  lemma OpenFile(b: seq<byte>, audio: seq<seq<int>>, n: nat, w: nat, srate: u32)
    requires IsFile(b, audio, n, w) && 0 < |audio| < 0x8000 && |b| < 0xFFFF_FFFF
    requires b[..HeaderSize] == Header(|audio|, 8 * w, srate, false, Pos(n, Pos(|audio|, w)))
    ensures OpenAs(b).Good? && var i := OpenAs(b).info;
            && i.chCnt == |audio| && i.bits == 8 * w && i.srate == srate && !i.isFloat
            && i.frameCnt == (if |audio| == 1 && w == 1 && n % 2 == 1 then n + 1 else n)
            && i.smpByteOffs == if n == 0 then 0 else HeaderSize
  {
    var bpf := Pos(|audio|, w);
    HeaderHas(b, |audio|, 8 * w, srate, false, Pos(n, bpf));
    OpenWritten(b, |audio|, w, srate, false, Pos(n, bpf));
    FramesFoundIs(n, bpf);
    if w > 1 || |audio| > 1 { PosMonotone(if |audio| > 1 then 2 else 1, |audio|, w); }
    if n > 0 { PosMonotone(1, n, bpf); }
  }

  /** The first n numbers of a buffer are the samples from frame from on, as w bytes keep them, added to
      what was there or in place of it; the others are as they were. */
  ghost predicate Delivered(now: seq<int>, was: seq<int>, samples: seq<int>, from: nat, n: nat, w: nat, sumFl: bool)
    requires IsWidth(w)
  {
    && |now| == |was| >= n && (n > 0 ==> |samples| >= from + n)
    && (forall i :: 0 <= i < n ==> now[i] == (if sumFl then was[i] else 0) + Truncate(samples[from + i], w))
    && forall i :: n <= i < |now| ==> now[i] == was[i]
  }

  /** The block is a part of the bytes. */
  ghost predicate IsPart(b: seq<byte>, at: nat, block: seq<byte>) {
    at + |block| <= |b| && block == b[at..at + |block|]
  }

  lemma StandsInside(b: seq<byte>, at: nat, block: seq<byte>, s: nat, t: nat, v: int, w: nat)
    requires IsWidth(w) && t == at + s && s + w <= |block| && IsPart(b, at, block) == true
    requires Stands(b, t, v, w) == true
    ensures Stands(block, s, v, w) == true
  {
    var p, q := block[s..s + w], b[t..t + w];
    assert forall i :: 0 <= i < w ==> p[i] == q[i];
  }

  lemma FramesFit(n: nat, from: nat, m: nat, bpf: nat)
    requires from + m <= n
    ensures Pos(from, bpf) + Pos(m, bpf) == Pos(from + m, bpf) <= Pos(n, bpf)
  {
    PosAdd(from, m, bpf);
    PosMonotone(from + m, n, bpf);
  }

  /** Samples that replace what was there come back exactly when they are in range. */
  lemma SamplesComeBackExactlyWhen(now: seq<int>, was: seq<int>, samples: seq<int>, from: nat, n: nat, w: nat)
    requires IsWidth(w) && n > 0 && Delivered(now, was, samples, from, n, w, false)
    ensures now[..n] == samples[from..from + n] <==> forall i :: from <= i < from + n ==> InRange(samples[i], w)
  {
    if now[..n] == samples[from..from + n] {
      forall i | from <= i < from + n ensures InRange(samples[i], w) {
        assert now[..n][i - from] == samples[from..from + n][i - from];
        assert Truncate(samples[from + (i - from)], w) == now[i - from];
      }
    }
  }

  /** What m frames of a file hold, taken out of it. */
  lemma FramesHold(b: seq<byte>, audio: seq<seq<int>>, n: nat, w: nat, from: nat, m: nat, block: seq<byte>)
    requires IsFile(b, audio, n, w) && from + m <= n && |block| == Pos(m, Pos(|audio|, w))
    requires IsPart(b, HeaderSize + Pos(from, Pos(|audio|, w)), block) == true
    ensures Lasts(audio, from + m) && Holds(block, 0, audio, from, m, w)
  {
    forall j, c | 0 <= j < m && 0 <= c < |audio|
      ensures Stands(block, 0 + Slot(j, c, |audio|, w), audio[c][from + j], w) == true
    {
      assert Stands(b, HeaderSize + Slot(from + j, c, |audio|, w), audio[c][0 + (from + j)], w);
      BlockStands(b, w, from, m, block, j, c, |audio|, audio[c][from + j]);
    }
  }

  lemma BlockStands(b: seq<byte>, w: nat, from: nat, m: nat, block: seq<byte>, j: nat, c: nat, chCnt: nat, v: int)
    requires IsWidth(w) && j < m && c < chCnt && |block| == Pos(m, Pos(chCnt, w))
    requires IsPart(b, HeaderSize + Pos(from, Pos(chCnt, w)), block) == true
    requires Stands(b, HeaderSize + Slot(from + j, c, chCnt, w), v, w) == true
    ensures Stands(block, Slot(j, c, chCnt, w), v, w) == true
  {
    var at, s := HeaderSize + Pos(from, Pos(chCnt, w)), Slot(j, c, chCnt, w);
    SlotFrom(from, j, c, chCnt, w);
    SlotFits(j, c, chCnt, w, m);
    StandsInside(b, at, block, s, HeaderSize + Slot(from + j, c, chCnt, w), v, w);
  }

  /** Frames have bytes, and those behind the last one lie behind the file. */
  lemma FramesLieBehind(audio: seq<seq<int>>, n: nat, w: nat, from: nat, m: nat)
    requires IsWidth(w) && |audio| > 0 && m > 0
    ensures var bpf := Pos(|audio|, w);
            Pos(m, bpf) > 0 && (from + m > n ==> Pos(from, bpf) + Pos(m, bpf) > Pos(n, bpf))
  {
    var bpf := Pos(|audio|, w);
    PosMonotone(1, |audio|, w);
    PosMonotone(1, m, bpf);
    PosAdd(from, m, bpf);
    if from + m > n { PosMonotone(n + 1, from + m, bpf); }
  }

  /** The samples of one channel from frame from on stand in n frames. */
  ghost predicate HoldsChannel(b: seq<byte>, samples: seq<int>, from: nat, n: nat, ch: nat, chCnt: nat, w: nat)
    requires IsWidth(w) && |samples| >= from + n
  {
    forall j :: 0 <= j < n ==> Stands(b, Slot(j, ch, chCnt, w), samples[from + j], w)
  }

  lemma ChannelOf(b: seq<byte>, audio: seq<seq<int>>, from: nat, n: nat, w: nat, ch: nat)
    requires IsWidth(w) && Lasts(audio, from + n) && Holds(b, 0, audio, from, n, w) && ch < |audio|
    ensures HoldsChannel(b, audio[ch], from, n, ch, |audio|, w)
  {
    forall j | 0 <= j < n ensures Stands(b, Slot(j, ch, |audio|, w), audio[ch][from + j], w) {
      assert Stands(b, 0 + Slot(j, ch, |audio|, w), audio[ch][from + j], w);
    }
  }

  method SampleAt(b: seq<byte>, at: nat, w: nat, ghost sample: int) returns (v: int)
    requires IsWidth(w) && Stands(b, at, sample, w)
    ensures v == Truncate(sample, w)
  {
    UnpackPack(sample, w);
    v := Unpack(b[at..at + w]);
  }

  /** Sets n numbers of a buffer to zero. */
  method Clear(dst: array<int>, at: nat, n: nat)
    requires at + n <= dst.Length
    modifies dst
    ensures forall k :: 0 <= k < dst.Length ==> dst[k] == if at <= k < at + n then 0 else old(dst[k])
  {
    for i := 0 to n
      invariant forall k :: 0 <= k < dst.Length ==> dst[k] == if at <= k < at + i then 0 else old(dst[k])
    {
      dst[at + i] := 0;
    }
  }

  /** Adds n samples of a channel, out of interleaved frames, to the numbers of a buffer. */
  method AddChannel(fbuf: seq<byte>, n: nat, ch: nat, chCnt: nat, w: nat, dst: array<int>, at: nat,
                    ghost samples: seq<int>, ghost from: nat)
    requires IsWidth(w) && ch < chCnt && at + n <= dst.Length && |samples| >= from + n
    requires HoldsChannel(fbuf, samples, from, n, ch, chCnt, w)
    modifies dst
    ensures forall k :: 0 <= k < dst.Length ==>
              dst[k] == old(dst[k]) + if at <= k < at + n then Truncate(samples[from + k - at], w) else 0
  {
    var sp := Pos(ch, w);
    for i := 0 to n
      invariant sp == Slot(i, ch, chCnt, w)
      invariant forall k :: 0 <= k < dst.Length ==>
                  dst[k] == old(dst[k]) + if at <= k < at + i then Truncate(samples[from + k - at], w) else 0
    {
      assert Stands(fbuf, Slot(i, ch, chCnt, w), samples[from + i], w);
      var v := SampleAt(fbuf, sp, w, samples[from + i]);
      dst[at + i] := dst[at + i] + v;
      sp := sp + Pos(chCnt, w);
    }
  }

  /** Reads n samples of a channel out of interleaved frames into a buffer behind those it has. */
  method DecodeChannel(fbuf: seq<byte>, n: nat, ch: nat, chCnt: nat, w: nat, dst: array<int>, at: nat, sumFl: bool,
                       ghost was: seq<int>, ghost samples: seq<int>, ghost from: nat)
    requires IsWidth(w) && ch < chCnt && at + n <= dst.Length && |samples| >= from + at + n
    requires Delivered(dst[..], was, samples, from, at, w, sumFl)
    requires HoldsChannel(fbuf, samples, from + at, n, ch, chCnt, w)
    modifies dst
    ensures Delivered(dst[..], was, samples, from, at + n, w, sumFl)
  {
    if !sumFl { Clear(dst, at, n); }
    AddChannel(fbuf, n, ch, chCnt, w, dst, at, samples, from + at);
  }

  /** The buffers are different arrays with room for n samples. */
  ghost predicate AreBuffers(bufs: seq<array<int>>, n: nat) {
    && (forall c :: 0 <= c < |bufs| ==> bufs[c].Length >= n)
    && forall c, d :: 0 <= c < d < |bufs| ==> bufs[c] != bufs[d]
  }

  /** How many of left frames are read in whole blocks of b. */
  function InBlocks(left: nat, b: nat): nat
    requires b > 0
  {
    Pos(Steps(left, b), b)
  }

  /** What a call for total frames reads when left frames can be read. If the header counts the frames
      right, it reads them all. If it counts one too many, the block that would hold that one is not
      read at all, and only the whole blocks before it are. */
  function Delivery(total: nat, left: nat, exact: bool): nat {
    if total <= left then total else if exact then left else InBlocks(left, Min(total, ReadFrames))
  }

  /** What was read after some blocks: everything, all there is, or whole blocks. */
  predicate OnTheWay(total: nat, left: nat, exact: bool, k: nat, actual: nat) {
    actual <= left && actual <= total
    && (actual == total || (exact && actual == left) || actual == Pos(k, Min(total, ReadFrames)))
  }

  /** The size of the next block: what the header says is left, but no more than is asked for and than
      the buffer takes. */
  function NextBlock(total: nat, left: nat, exact: bool, actual: nat): nat
    requires actual <= left && actual <= total
  {
    Min(left - actual + (if exact then 0 else 1), Min(total - actual, Min(total, ReadFrames)))
  }

  lemma BlockRead(total: nat, left: nat, exact: bool, k: nat, actual: nat)
    requires OnTheWay(total, left, exact, k, actual) && actual < total
    requires var m := NextBlock(total, left, exact, actual); m > 0 && actual + m <= left
    ensures var next := actual + NextBlock(total, left, exact, actual);
            OnTheWay(total, left, exact, k + 1, next) == true && next <= total
  {
  }

  /** Where the next block cannot be read, what was read is what the call delivers. */
  lemma NoBlock(total: nat, left: nat, exact: bool, k: nat, actual: nat, m: nat)
    requires OnTheWay(total, left, exact, k, actual) && actual < total && !(0 < m <= left - actual)
    requires left > actual ==> m == NextBlock(total, left, exact, actual)
    ensures total > left && actual == Delivery(total, left, exact)
  {
    if !exact { StepsAre(k, Min(total, ReadFrames), left - actual); }
  }

  lemma WrapIsSmaller(x: nat)
    ensures Wrap32(x) == x <==> x < 0x1_0000_0000
  {
  }

  lemma NumberStands(b: seq<byte>, at: nat, v: int, w: nat)
    requires IsWidth(w) && Stands(b, at, v, w)
    ensures at + w <= |b| && NumberAt(b, at, w) == Truncate(v, w)
  {
    UnpackPack(v, w);
    NumberIs(b, at, w);
  }

  class Reader {
    const bytes: seq<byte>
    const info: Info
    const w: nat
    var pos: nat
    var curFrmIdx: nat
    ghost const audio: seq<seq<int>>
    ghost const n: nat                 // the number of frames in the file

    ghost predicate Valid()
      reads this
    {
      && IsFile(bytes, audio, n, w) && 0 < n <= info.frameCnt <= n + 1 && info.frameCnt < 0x1_0000_0000
      && info.chCnt == |audio| > 0 && curFrmIdx < 0x1_0000_0000
      && (InStep() || pos >= |bytes|)
    }

    /** The file stands at the current frame. After a block that could not be read to its end it stands
        at the end of the file instead, until the next seek. */
    ghost predicate InStep()
      reads this
    {
      pos == HeaderSize + Pos(curFrmIdx, Pos(info.chCnt, w))
    }

    /** Opens a file that was written with the given audio. */
    constructor (b: seq<byte>, i: Info, ghost a: seq<seq<int>>, ghost frames: nat)
      requires OpenAs(b) == Good(i) && IsFile(b, a, frames, i.bits / 8) == true && i.chCnt == |a| > 0
      requires 0 < frames <= i.frameCnt <= frames + 1 && i.smpByteOffs == HeaderSize && i.frameCnt < 0x1_0000_0000
      ensures Valid() && InStep() && audio == a && info == i && bytes == b && w == i.bits / 8
      ensures curFrmIdx == 0 && n == frames
    {
      bytes, info, w, audio, n := b, i, i.bits / 8, a, frames;
      pos, curFrmIdx := i.smpByteOffs, 0;
    }

    /** Goes to a frame, which may even lie behind the last one. Its place is computed in 32 bits, so from
        4 GB on the file stands at a place before that. */
    method Seek(frmIdx: u32)
      requires Valid()
      modifies this
      ensures curFrmIdx == frmIdx && pos == Wrap32(HeaderSize + Pos(frmIdx, Pos(info.chCnt, w)))
      ensures InStep() <==> HeaderSize + Pos(frmIdx, Pos(info.chCnt, w)) < 0x1_0000_0000
      ensures InStep() ==> Valid()
    {
      pos := Wrap32(HeaderSize + Pos(frmIdx, Pos(info.chCnt, w)));
      curFrmIdx := frmIdx;
      WrapIsSmaller(HeaderSize + Pos(frmIdx, Pos(info.chCnt, w)));
    }

    /** Reads n bytes; a read of no bytes fails, too. */
    method ReadBytes(n: nat) returns (ok: bool, b: seq<byte>)
      modifies this`pos
      ensures ok == (n > 0 && old(pos) + n <= |bytes|)
      ensures ok ==> pos == old(pos) + n <= |bytes| && b == bytes[old(pos)..pos]
      ensures !ok ==> pos == if n == 0 then old(pos) else Max(old(pos), |bytes|)
    {
      ok, b := n > 0 && pos + n <= |bytes|, [];
      if ok {
        b := bytes[pos..pos + n];
        pos := pos + n;
      } else if n > 0 {
        pos := Max(pos, |bytes|);
      }
    }

    /** How many frames can be read from here on. */
    ghost function Left(): nat
      reads this
    {
      if InStep() && curFrmIdx <= n then n - curFrmIdx else 0
    }

    /** Reads frames of some neighbouring channels, in blocks of at most 8192. It succeeds exactly when
        there are that many frames. */
    method ReadInt(total: nat, chIdx: nat, bufs: seq<array<int>>, sumFl: bool) returns (rc: RC, actual: nat)
      requires Valid() && AreBuffers(bufs, total)
      modifies this, bufs
      ensures Valid() && curFrmIdx == old(curFrmIdx) + actual && (rc == Ok ==> InStep() == old(InStep()))
      ensures chIdx + |bufs| > info.chCnt ==>
                rc == InvalidArg && actual == 0 && forall c :: 0 <= c < |bufs| ==> bufs[c][..] == old(bufs[c][..])
      ensures chIdx + |bufs| <= info.chCnt ==>
                && rc == (if total <= old(Left()) then Ok else ReadFail)
                && actual == Delivery(total, old(Left()), info.frameCnt == n)
                && forall c :: 0 <= c < |bufs| ==>
                     Delivered(bufs[c][..], old(bufs[c][..]), audio[chIdx + c], old(curFrmIdx), actual, w, sumFl)
      ensures forall c :: 0 <= c < |bufs| ==>
                AreNumbers(bufs[c][..], old(bufs[c][..]), chIdx + c, old(curFrmIdx), actual, sumFl)
    {
      if chIdx + |bufs| > info.chCnt { return InvalidArg, 0; }
      ghost var was := seq(|bufs|, c requires 0 <= c < |bufs| reads bufs => bufs[c][..]);
      rc, actual := ReadBlocks(total, chIdx, bufs, sumFl, was);
      forall c | 0 <= c < |bufs|
        ensures AreNumbers(bufs[c][..], was[c], chIdx + c, old(curFrmIdx), actual, sumFl) == true
      {
        DeliveredNumbers(bufs[c][..], was[c], chIdx + c, old(curFrmIdx), actual, sumFl);
      }
    }

    /** The first m numbers are those of the bytes of channel ch from frame from on, added to what was
        there or in place of it. */
    ghost predicate AreNumbers(now: seq<int>, was: seq<int>, ch: nat, from: nat, m: nat, sumFl: bool)
      requires IsWidth(w)
    {
      && |now| == |was| >= m
      && forall i :: 0 <= i < m ==> IsNumber(now[i], was[i], ch, from + i, sumFl)
    }

    lemma DeliveredNumbers(now: seq<int>, was: seq<int>, ch: nat, from: nat, m: nat, sumFl: bool)
      requires IsFile(bytes, audio, n, w) == true && IsWidth(w)
      requires m > 0 ==> info.chCnt == |audio| && ch < |audio|
      requires if m > 0 then Delivered(now, was, audio[ch], from, m, w, sumFl) == true else |now| == |was|
      ensures AreNumbers(now, was, ch, from, m, sumFl) == true
    {
      forall i | 0 <= i < m ensures IsNumber(now[i], was[i], ch, from + i, sumFl) {
        DeliveredNumber(now, was, ch, from, m, i, sumFl);
      }
    }

    /** What the bytes of channel ch in frame f stand for, added to what was there or in place of it. */
    ghost predicate IsNumber(now: int, was: int, ch: nat, f: nat, sumFl: bool)
      requires IsWidth(w)
    {
      var at := HeaderSize + Pos(f, Pos(info.chCnt, w)) + Pos(ch, w);
      at + w <= |bytes| && now == (if sumFl then was else 0) + NumberAt(bytes, at, w)
    }

    lemma DeliveredNumber(now: seq<int>, was: seq<int>, ch: nat, from: nat, m: nat, i: nat, sumFl: bool)
      requires IsFile(bytes, audio, n, w) && info.chCnt == |audio| && ch < |audio| && i < m
      requires Delivered(now, was, audio[ch], from, m, w, sumFl) == true
      ensures IsNumber(now[i], was[i], ch, from + i, sumFl)
    {
      var at := HeaderSize + Slot(from + i, ch, |audio|, w);
      assert Stands(bytes, at, audio[ch][0 + (from + i)], w);
      NumberStands(bytes, at, audio[ch][from + i], w);
    }

    method ReadBlocks(total: nat, chIdx: nat, bufs: seq<array<int>>, sumFl: bool, ghost was: seq<seq<int>>)
      returns (rc: RC, actual: nat)
      requires Valid() && AreBuffers(bufs, total) && chIdx + |bufs| <= info.chCnt && |was| == |bufs|
      requires AllDelivered(bufs, was, chIdx, curFrmIdx, 0, |bufs|, 0, sumFl)
      modifies this, bufs
      ensures Valid() == true && curFrmIdx == old(curFrmIdx) + actual && (rc == Ok ==> InStep() == old(InStep()))
      ensures rc == (if total <= old(Left()) then Ok else ReadFail)
      ensures actual == Delivery(total, old(Left()), info.frameCnt == n)
      ensures AllDelivered(bufs, was, chIdx, old(curFrmIdx), actual, |bufs|, actual, sumFl) == true
    {
      actual := 0;
      ghost var left, k, from := Left(), 0, curFrmIdx;
      while actual < total
        invariant Valid() == true && curFrmIdx == from + actual && InStep() == old(InStep())
        invariant actual <= left && actual <= total && (actual < total ==> Left() == left - actual)
        invariant OnTheWay(total, left, info.frameCnt == n, k, actual) == true
        invariant AllDelivered(bufs, was, chIdx, from, actual, |bufs|, actual, sumFl) == true
      {
        var ok, frmCnt := ReadStep(total, actual, chIdx, bufs, sumFl, was, from, left, k);
        if !ok { return ReadFail, actual; }
        actual, k := actual + frmCnt, k + 1;
      }
      rc := Ok;
    }

    /** The next block of a call, or the outcome of the call if there is none. */
    method ReadStep(total: nat, actual: nat, chIdx: nat, bufs: seq<array<int>>, sumFl: bool, ghost was: seq<seq<int>>,
                    ghost from: nat, ghost left: nat, ghost k: nat) returns (ok: bool, frmCnt: nat)
      requires Valid() && AreBuffers(bufs, total) && chIdx + |bufs| <= info.chCnt && |was| == |bufs|
      requires curFrmIdx == from + actual && actual < total && actual <= left && Left() == left - actual
      requires OnTheWay(total, left, info.frameCnt == n, k, actual) == true
      requires AllDelivered(bufs, was, chIdx, from, actual, |bufs|, actual, sumFl) == true
      modifies this, bufs
      ensures Valid() == true && curFrmIdx == old(curFrmIdx) + if ok then frmCnt else 0
      ensures ok ==> InStep() == old(InStep()) && Left() == left - actual - frmCnt && actual + frmCnt <= total
      ensures ok ==> actual + frmCnt <= left && frmCnt > 0
      ensures ok ==> OnTheWay(total, left, info.frameCnt == n, k + 1, actual + frmCnt) == true
      ensures ok ==> AllDelivered(bufs, was, chIdx, from, actual + frmCnt, |bufs|, actual + frmCnt, sumFl) == true
      ensures !ok ==> total > left && actual == Delivery(total, left, info.frameCnt == n)
      ensures !ok ==> AllDelivered(bufs, was, chIdx, from, actual, |bufs|, actual, sumFl) == true
    {
      frmCnt := FrameCount(total, actual);
      ok := ReadBlock(frmCnt, chIdx, bufs, actual, sumFl, was, from);
      if ok {
        BlockRead(total, left, info.frameCnt == n, k, actual);
      } else {
        NoBlock(total, left, info.frameCnt == n, k, actual, frmCnt);
      }
    }

    /** The size of the next block. */
    method FrameCount(total: nat, actual: nat) returns (frmCnt: nat)
      requires Valid() && actual < total
      ensures frmCnt <= total - actual
      ensures Left() > 0 ==> frmCnt == NextBlock(total, actual + Left(), info.frameCnt == n, actual)
    {
      var bufFrmCnt := Min(total, ReadFrames);
      frmCnt := Min((info.frameCnt - curFrmIdx) % 0x1_0000_0000, Min(total - actual, bufFrmCnt));
    }

    /** The first k buffers have n samples each, the others m. */
    ghost predicate AllDelivered(bufs: seq<array<int>>, was: seq<seq<int>>, chIdx: nat, from: nat, n: nat, k: nat,
                                 m: nat, sumFl: bool)
      requires IsWidth(w) && chIdx + |bufs| <= |audio| && |was| == |bufs|
      reads bufs
    {
      forall c :: 0 <= c < |bufs| ==>
        Delivered(bufs[c][..], was[c], audio[chIdx + c], from, if c < k then n else m, w, sumFl)
    }

    method ReadBlock(frmCnt: nat, chIdx: nat, bufs: seq<array<int>>, done: nat, sumFl: bool,
                     ghost was: seq<seq<int>>, ghost from: nat) returns (ok: bool)
      requires Valid() && chIdx + |bufs| <= info.chCnt && AreBuffers(bufs, done + frmCnt) && |was| == |bufs|
      requires curFrmIdx == from + done
      requires AllDelivered(bufs, was, chIdx, from, done, |bufs|, done, sumFl) == true
      modifies this, bufs
      ensures Valid() == true && ok == (0 < frmCnt <= old(Left()))
      ensures curFrmIdx == old(curFrmIdx) + (if ok then frmCnt else 0) && (ok ==> InStep())
      ensures ok ==> AllDelivered(bufs, was, chIdx, from, done + frmCnt, |bufs|, done + frmCnt, sumFl) == true
      ensures !ok ==> AllDelivered(bufs, was, chIdx, from, done, |bufs|, done, sumFl) == true
    {
      var fbuf;
      ok, fbuf := ReadFramesOf(frmCnt);
      if ok {
        FramesAreFew(n, Pos(info.chCnt, w));
        DecodeBlock(fbuf, frmCnt, chIdx, bufs, done, sumFl, was, from);
        curFrmIdx := curFrmIdx + frmCnt;
      }
    }

    method ReadFramesOf(frmCnt: nat) returns (ok: bool, fbuf: seq<byte>)
      requires Valid()
      modifies this`pos
      ensures ok == (0 < frmCnt <= old(Left()))
      ensures ok ==> pos == HeaderSize + Pos(curFrmIdx + frmCnt, Pos(info.chCnt, w))
      ensures !ok ==> pos == old(pos) || pos >= |bytes|
      ensures ok ==> Lasts(audio, curFrmIdx + frmCnt) && Holds(fbuf, 0, audio, curFrmIdx, frmCnt, w) == true
    {
      ghost var bpf := Pos(info.chCnt, w);
      if frmCnt > 0 { FramesLieBehind(audio, n, w, curFrmIdx, frmCnt); }
      if frmCnt <= Left() && InStep() && curFrmIdx <= n { FramesFit(n, curFrmIdx, frmCnt, bpf); }
      ok, fbuf := ReadBytes(Pos(frmCnt, Pos(info.chCnt, w)));
      if ok { FramesHold(bytes, audio, n, w, curFrmIdx, frmCnt, fbuf); }
    }

    method DecodeInto(fbuf: seq<byte>, frmCnt: nat, ch: nat, dst: array<int>, done: nat, sumFl: bool,
                      ghost was: seq<int>, ghost from: nat)
      requires IsWidth(w) && ch < info.chCnt == |audio| && done + frmCnt <= dst.Length
      requires Lasts(audio, from + done + frmCnt) && Holds(fbuf, 0, audio, from + done, frmCnt, w) == true
      requires Delivered(dst[..], was, audio[ch], from, done, w, sumFl) == true
      modifies dst
      ensures Delivered(dst[..], was, audio[ch], from, done + frmCnt, w, sumFl) == true
    {
      ChannelOf(fbuf, audio, from + done, frmCnt, w, ch);
      DecodeChannel(fbuf, frmCnt, ch, info.chCnt, w, dst, done, sumFl, was, audio[ch], from);
    }

    /** Gives each buffer the samples of its channel. */
    method DecodeBlock(fbuf: seq<byte>, frmCnt: nat, chIdx: nat, bufs: seq<array<int>>, done: nat, sumFl: bool,
                       ghost was: seq<seq<int>>, ghost from: nat)
      requires IsWidth(w) && chIdx + |bufs| <= info.chCnt == |audio|
      requires AreBuffers(bufs, done + frmCnt) && |was| == |bufs|
      requires Lasts(audio, from + done + frmCnt) && Holds(fbuf, 0, audio, from + done, frmCnt, w) == true
      requires AllDelivered(bufs, was, chIdx, from, done, |bufs|, done, sumFl)
      modifies bufs
      ensures AllDelivered(bufs, was, chIdx, from, done + frmCnt, |bufs|, done, sumFl)
    {
      for ci := 0 to |bufs|
        invariant AllDelivered(bufs, was, chIdx, from, done + frmCnt, ci, done, sumFl) == true
      {
        label Before:
        DecodeInto(fbuf, frmCnt, chIdx + ci, bufs[ci], done, sumFl, was[ci], from);
        forall c | 0 <= c < |bufs|
          ensures Delivered(bufs[c][..], was[c], audio[chIdx + c], from, if c < ci + 1 then done + frmCnt else done, w,
                            sumFl) == true
        {
          if c != ci { assert bufs[c] != bufs[ci] && bufs[c][..] == old@Before(bufs[c][..]); }
        }
      }
    }
  }

  lemma {:induction false} FramesAreFew(n: nat, bpf: nat)
    requires bpf > 0
    ensures n <= Pos(n, bpf)
  {
    if n > 0 { FramesAreFew(n - 1, bpf); }
  }

  /** Opens a closed file again; what reads from it delivers is the audio that was written. The header
      counts the frames right, or, for mono with an odd number of one-byte samples, one too many. */
  method Reopen(b: seq<byte>, ghost audio: seq<seq<int>>, ghost n: nat, ghost w: nat, ghost srate: u32)
    returns (rd: Reader)
    requires IsFile(b, audio, n, w) && 0 < |audio| < 0x8000 && |b| < 0xFFFF_FFFF && n > 0
    requires b[..HeaderSize] == Header(|audio|, 8 * w, srate, false, Pos(n, Pos(|audio|, w)))
    ensures rd.Valid() && rd.InStep() && rd.audio == audio && rd.curFrmIdx == 0 && rd.n == n && rd.w == w
    ensures rd.info.frameCnt == if |audio| == 1 && w == 1 && n % 2 == 1 then n + 1 else n
    ensures rd.info.srate == srate && rd.info.chCnt == |audio| && fresh(rd)
  {
    OpenedFits(b, audio, n, w, srate);
    var o := Open(b);
    rd := new Reader(b, o.info, audio, n);
  }

  lemma OpenedFits(b: seq<byte>, audio: seq<seq<int>>, n: nat, w: nat, srate: u32)
    requires IsFile(b, audio, n, w) && 0 < |audio| < 0x8000 && |b| < 0xFFFF_FFFF && n > 0
    requires b[..HeaderSize] == Header(|audio|, 8 * w, srate, false, Pos(n, Pos(|audio|, w)))
    ensures OpenAs(b).Good?
    ensures var i := OpenAs(b).info;
            && i.chCnt == |audio| && i.srate == srate && i.bits / 8 == w && i.smpByteOffs == HeaderSize
            && i.frameCnt == (if |audio| == 1 && w == 1 && n % 2 == 1 then n + 1 else n) < 0x1_0000_0000
  {
    OpenFile(b, audio, n, w, srate);
    PosMonotone(1, |audio|, w);
    FramesAreFew(n, Pos(|audio|, w));
  }

  // ----------------------------------------------------------------- the round trip

  /** The number of frames of some audio. */
  function FrameN(part: seq<seq<int>>): nat { if part == [] then 0 else |part[0]| }

  /** All parts have this many channels, of the same length within a part. */
  predicate AreParts(parts: seq<seq<seq<int>>>, chCnt: nat) {
    forall i :: 0 <= i < |parts| ==> |parts[i]| == chCnt && AllAre(parts[i], FrameN(parts[i]))
  }

  /** The first k parts one behind the other. */
  function Joined(parts: seq<seq<seq<int>>>, chCnt: nat, k: nat): (a: seq<seq<int>>)
    requires k <= |parts| && AreParts(parts, chCnt)
    ensures |a| == chCnt
  {
    if k == 0 then seq(chCnt, _ => [])
    else Append(Joined(parts, chCnt, k - 1), parts[k - 1], 0, FrameN(parts[k - 1]))
  }

  function JoinedN(parts: seq<seq<seq<int>>>, k: nat): nat
    requires k <= |parts|
  {
    if k == 0 then 0 else JoinedN(parts, k - 1) + FrameN(parts[k - 1])
  }

  predicate AllInRange(samples: seq<int>, w: nat)
    requires IsWidth(w)
  {
    forall i :: 0 <= i < |samples| ==> InRange(samples[i], w)
  }

  /** The first k parts were written. */
  ghost predicate HasParts(f: Writer, parts: seq<seq<seq<int>>>, k: nat)
    requires k <= |parts| && AreParts(parts, f.chCnt)
    reads f
  {
    f.audio == Joined(parts, f.chCnt, k) && f.frameCnt == JoinedN(parts, k)
  }

  method WritePart(f: Writer, parts: seq<seq<seq<int>>>, i: nat)
    requires i < |parts| && AreParts(parts, f.chCnt) && f.Valid() && HasParts(f, parts, i)
    modifies f
    ensures f.Valid() == true && HasParts(f, parts, i + 1) == true
  {
    f.WriteInt(FrameN(parts[i]), parts[i]);
  }

  /** Creates a file, writes the parts one after the other, and closes it. */
  method WriteFile(rate: u32, bits: nat, chCnt: nat, parts: seq<seq<seq<int>>>) returns (b: seq<byte>)
    requires bits == 8 || bits == 16 || bits == 24 || bits == 32
    requires 0 < chCnt < 0x8000 && AreParts(parts, chCnt)
    ensures var n, w := JoinedN(parts, |parts|), bits / 8;
            && IsFile(b, Joined(parts, chCnt, |parts|), n, w) == true
            && b[..HeaderSize] == Header(chCnt, 8 * w, rate, false, Pos(n, Pos(chCnt, w)))
  {
    var f := new Writer(rate, bits, chCnt);
    assert f.audio == Joined(parts, chCnt, 0);
    for i := 0 to |parts|
      invariant f.Valid() == true && f.w == bits / 8 && f.chCnt == chCnt && f.srate == rate && fresh(f)
      invariant HasParts(f, parts, i) == true
    {
      WritePart(f, parts, i);
    }
    f.Close();
    b := f.bytes;
  }

  /** From the samples to a file and back: whatever the parts they are written in, each buffer gets the
      samples of its channel, cut to the width; so it gets the channel exactly when that is in range. */
  method RoundTrip(rate: u32, bits: nat, chCnt: nat, parts: seq<seq<seq<int>>>, chIdx: nat, bufs: seq<array<int>>)
    returns (rc: RC, actual: nat)
    requires bits == 8 || bits == 16 || bits == 24 || bits == 32
    requires 0 < chCnt < 0x8000 && AreParts(parts, chCnt) && chIdx + |bufs| <= chCnt
    requires var n := JoinedN(parts, |parts|);
             n > 0 && HeaderSize + Pos(n, Pos(chCnt, bits / 8)) < 0xFFFF_FFFF && AreBuffers(bufs, n)
    modifies bufs
    ensures rc == Ok && actual == JoinedN(parts, |parts|)
    ensures var audio, w := Joined(parts, chCnt, |parts|), bits / 8;
            forall c :: 0 <= c < |bufs| ==>
              && Delivered(bufs[c][..], old(bufs[c][..]), audio[chIdx + c], 0, actual, w, false)
              && (bufs[c][..actual] == audio[chIdx + c] <==> AllInRange(audio[chIdx + c], w))
  {
    ghost var audio, n, w := Joined(parts, chCnt, |parts|), JoinedN(parts, |parts|), bits / 8;
    var b := WriteFile(rate, bits, chCnt, parts);
    var rd := Reopen(b, audio, n, w, rate);
    var total := FrameTotal(parts);
    rc, actual := rd.ReadInt(total, chIdx, bufs, false);
    forall c | 0 <= c < |bufs|
      ensures bufs[c][..n] == audio[chIdx + c] <==> AllInRange(audio[chIdx + c], w)
    {
      ChannelComesBack(bufs[c][..], old(bufs[c][..]), audio[chIdx + c], n, w);
    }
  }

  method FrameTotal(parts: seq<seq<seq<int>>>) returns (n: nat)
    ensures n == JoinedN(parts, |parts|)
  {
    n := 0;
    for i := 0 to |parts|
      invariant n == JoinedN(parts, i)
    {
      n := n + FrameN(parts[i]);
    }
  }

  lemma ChannelComesBack(now: seq<int>, was: seq<int>, samples: seq<int>, n: nat, w: nat)
    requires IsWidth(w) && |samples| == n > 0 && Delivered(now, was, samples, 0, n, w, false)
    ensures now[..n] == samples <==> AllInRange(samples, w)
  {
    SamplesComeBackExactlyWhen(now, was, samples, 0, n, w);
    assert samples[0..0 + n] == samples;
  }
}
