/** The shift buffer feeding the overlap-add ring through a unity window: the stream comes back,
    scaled by the number of windows that overlap at each sample. */
module Chain {
  import opened Stride
  import opened ShiftBuf
  import opened Ola

  /** A position in hop j lies in window k exactly when k is one of the last r. */
  lemma InWindow(j: nat, t: nat, k: nat, r: nat, hop: nat)
    requires Pos(j, hop) <= t < Pos(j, hop) + hop && k <= j
    ensures Pos(k, hop) <= t && (t < Pos(k, hop) + Pos(r, hop) <==> j < k + r)
  {
    PosMonotone(k, j, hop);
    PosAdd(k, r, hop);
    if j < k + r { PosMonotone(j + 1, k + r, hop); } else { PosMonotone(k + r, j, hop); }
  }

  /** How many of the first n windows reach hop j. */
  function Overlaps(n: nat, j: nat, r: nat): nat {
    var first := if j + 1 >= r then j + 1 - r else 0;
    if n <= first then 0 else n - first
  }

  function Times(n: nat, v: Sample): Sample { if n == 0 then 0.0 else Times(n - 1, v) + v }

  lemma {:induction false} TimesIs(n: nat, v: Sample)
    ensures Times(n, v) == n as real * v
  {
    if n > 0 {
      TimesIs(n - 1, v);
      calc {
        n as real * v;
        ((n - 1) as real + 1.0) * v;
        (n - 1) as real * v + v;
      }
    }
  }

  /** At a sample in hop j, the first k windows add up to the sample times their overlaps there. */
  lemma {:induction false} SumOfWindows(x: seq<Sample>, frames: seq<seq<Sample>>, k: nat, r: nat, hop: nat, j: nat,
                                        t: nat)
    requires Pos(j, hop) <= t < Pos(j, hop) + hop && t < |x| && 0 < r
    requires k <= |frames| && k <= j + 1 && AreWindows(frames, x, Pos(r, hop), hop, 0)
    ensures SumOf(frames, k, hop, t) == Times(Overlaps(k, j, r), x[t])
  {
    if k > 0 {
      SumOfWindows(x, frames, k - 1, r, hop, j, t);
      TapOfWindow(x, frames[k - 1], k - 1, r, hop, j, t);
    }
  }

  lemma TapOfWindow(x: seq<Sample>, frame: seq<Sample>, k: nat, r: nat, hop: nat, j: nat, t: nat)
    requires Pos(j, hop) <= t < Pos(j, hop) + hop && t < |x| && k <= j && IsWindow(frame, x, Pos(r, hop), hop, k)
    ensures Tap(frame, t - Pos(k, hop)) == if j < k + r then x[t] else 0.0
  {
    InWindow(j, t, k, r, hop);
  }

  lemma UnityWindow(frame: seq<Sample>)
    ensures Windowed(Ones(|frame|), frame) == frame
  {
  }

  lemma WindowCovers(x: seq<Sample>, frames: seq<seq<Sample>>, r: nat, hop: nat, j: nat, t: nat)
    requires 1 <= r && AreWindows(frames, x, Pos(r, hop), hop, 0)
    requires Pos(j, hop) <= t < Pos(j, hop) + hop && t < Pos(|frames|, hop)
    ensures j < |frames| && t < |x|
  {
    if |frames| <= j { PosMonotone(|frames|, j, hop); }
    assert IsWindow(frames[j], x, Pos(r, hop), hop, 0 + j);
    PosMonotone(1, r, hop);
  }

  lemma SampleReconstructs(x: seq<Sample>, frames: seq<seq<Sample>>, r: nat, hop: nat, j: nat, t: nat)
    requires 2 <= r && AreWindows(frames, x, Pos(r, hop), hop, 0)
    requires Pos(j, hop) <= t < Pos(j + 1, hop) && j < |frames| && t < |x|
    ensures SumOf(frames, |frames|, hop, t) == Times(Overlaps(j + 1, j, r), x[t])
  {
    SumIsFinal(frames, j + 1, |frames|, hop, t);
    SumOfWindows(x, frames, j + 1, r, hop, j, t);
  }

  /** The number of windows over the sample at t: a ramp 1, 2, ... over the first hops, then r. */
  function Gain(t: nat, r: nat, hop: nat): nat
    requires 0 < hop
  {
    if t / hop + 1 < r then t / hop + 1 else r
  }

  lemma SampleIs(x: seq<Sample>, frames: seq<seq<Sample>>, r: nat, hop: nat, t: nat)
    requires 2 <= r && 0 < hop && AreWindows(frames, x, Pos(r, hop), hop, 0) && t < Pos(|frames|, hop)
    ensures t < |x| && Sum(frames, hop, t) == Times(Gain(t, r, hop), x[t])
  {
    var j := t / hop;
    PosBounds(t, hop);
    WindowCovers(x, frames, r, hop, j, t);
    SampleReconstructs(x, frames, r, hop, j, t);
    assert Overlaps(j + 1, j, r) == Gain(t, r, hop);
  }

  // ----------------------------------------------------------------- the two objects together

  function Concat(blocks: seq<seq<Sample>>, n: nat): seq<Sample>
    requires n <= |blocks|
  {
    if n == 0 then [] else Concat(blocks, n - 1) + blocks[n - 1]
  }

  /** Windows stay windows when the stream goes on. */
  lemma WindowsLast(frames: seq<seq<Sample>>, x: seq<Sample>, y: seq<Sample>, wnd: nat, hop: nat, k: nat)
    requires AreWindows(frames, x, wnd, hop, k)
    ensures AreWindows(frames, x + y, wnd, hop, k)
  {
    forall i | 0 <= i < |frames| ensures IsWindow(frames[i], x + y, wnd, hop, k + i) {
      assert IsWindow(frames[i], x, wnd, hop, k + i);
      var at := Pos(k + i, hop);
      assert (x + y)[at..at + wnd] == x[at..at + wnd];
    }
  }

  /** The windows that one block brings follow those before it. */
  lemma WindowsJoin(front: seq<seq<Sample>>, more: seq<seq<Sample>>, x: seq<Sample>, wnd: nat, hop: nat)
    requires AreWindows(front, x, wnd, hop, 0) && AreWindows(more, x, wnd, hop, |front|)
    ensures AreWindows(front + more, x, wnd, hop, 0)
  {
    forall i | 0 <= i < |front + more| ensures IsWindow((front + more)[i], x, wnd, hop, 0 + i) {
      if i < |front| {
        assert IsWindow(front[i], x, wnd, hop, 0 + i);
      } else {
        assert IsWindow(more[i - |front|], x, wnd, hop, |front| + (i - |front|));
      }
    }
  }

  /** The samples handed out so far are the overlap-add of the frames so far, as far as it is final. */
  ghost predicate Sums(out: seq<Sample>, frames: seq<seq<Sample>>, hop: nat) {
    |out| == Pos(|frames|, hop) && AreSums(out, frames, hop, 0)
  }

  /** A further frame adds a hop and changes nothing before it. */
  lemma SumsGrow(out: seq<Sample>, frames: seq<seq<Sample>>, f: seq<Sample>, hop: nat, more: seq<Sample>)
    requires Sums(out, frames, hop) && |more| == hop && AreSums(more, frames + [f], hop, Pos(|frames|, hop))
    ensures Sums(out + more, frames + [f], hop)
  {
    forall t | 0 <= t < |out + more| ensures (out + more)[t] == Sum(frames + [f], hop, 0 + t) {
      if t < |out| {
        assert out[t] == Sum(frames, hop, 0 + t);
        SumIsFinal(frames + [f], |frames|, |frames| + 1, hop, t);
        SumOfPrefix(frames, [f], |frames|, hop, t);
      } else {
        assert more[t - |out|] == Sum(frames + [f], hop, Pos(|frames|, hop) + (t - |out|));
      }
    }
  }

  /** Takes blocks out of the ring until there are none. */
  method Drain(o: OverlapAdd) returns (out: seq<Sample>)
    requires o.Valid()
    modifies o`outPtr, o`left
    ensures o.Valid() && out == old(o.Pending())
  {
    out := [];
    var block := o.ExecOut();
    while block.Some?
      invariant o.Valid() && (block.None? ==> o.Pending() == [])
      invariant old(o.Pending()) == out + (if block.Some? then block.value else []) + o.Pending()
      decreases block.Some?, o.left
    {
      out := out + block.value;
      block := o.ExecOut();
    }
  }

  /** One frame through the ring. */
  method Pass(o: OverlapAdd, frame: seq<Sample>, was: seq<Sample>) returns (out: seq<Sample>)
    requires Ready(o) && |frame| == o.wndSmpCnt && Sums(was, o.frames, o.hopSmpCnt)
    modifies o, o.bufV, o.outV
    ensures Ready(o) && o.frames == old(o.frames) + [frame] && Sums(out, o.frames, o.hopSmpCnt)
  {
    UnityWindow(frame);
    o.Exec(frame);
    var more := Drain(o);
    SumsGrow(was, old(o.frames), frame, o.hopSmpCnt, more);
    out := was + more;
  }

  /** The ring has a unity window of a length for which it works. */
  ghost predicate Ready(o: OverlapAdd)
    reads o, o.bufV, o.outV
  {
    o.Valid() && o.bufV != o.outV && Works(o.wndSmpCnt, o.hopSmpCnt) && o.wndV == Ones(o.wndSmpCnt)
  }

  function Ones(n: nat): seq<Sample> { seq(n, _ => 1.0) }

  /** Some frames through the ring. */
  method PassAll(o: OverlapAdd, frames: seq<seq<Sample>>, was: seq<Sample>) returns (out: seq<Sample>)
    requires Ready(o) && Frames(frames, o.wndSmpCnt) && Sums(was, o.frames, o.hopSmpCnt)
    modifies o, o.bufV, o.outV
    ensures Ready(o) && o.frames == old(o.frames) + frames && Sums(out, o.frames, o.hopSmpCnt)
  {
    out := was;
    for i := 0 to |frames|
      invariant Ready(o) && o.frames == old(o.frames) + frames[..i] && Sums(out, o.frames, o.hopSmpCnt)
    {
      out := Pass(o, frames[i], out);
      assert old(o.frames) + frames[..i] + [frames[i]] == old(o.frames) + frames[..i + 1];
    }
    assert frames[..|frames|] == frames;
  }

  /** The ring has taken exactly the windows of the stream that the shift buffer has taken. */
  ghost predicate InStep(p: ShiftBuffer, o: OverlapAdd)
    reads p, p.bufV, o, o.bufV, o.outV
  {
    && p.Valid() && !p.fl && 0 < p.hopSmpCnt <= p.wndSmpCnt && Ready(o) && Apart(p, o)
    && p.hopSmpCnt == o.hopSmpCnt && p.wndSmpCnt == o.wndSmpCnt
    && Drained(|p.stream|, p.wndSmpCnt, p.hopSmpCnt, p.shifts)
    && |o.frames| == p.shifts && AreWindows(o.frames, p.stream, p.wndSmpCnt, p.hopSmpCnt, 0)
  }

  ghost predicate Apart(p: ShiftBuffer, o: OverlapAdd) { p.bufV != o.bufV && p.bufV != o.outV }

  /** One block of input through both. */
  method Chain(p: ShiftBuffer, o: OverlapAdd, block: seq<Sample>, was: seq<Sample>) returns (out: seq<Sample>)
    requires InStep(p, o) && |block| <= p.procSmpCnt && Sums(was, o.frames, o.hopSmpCnt)
    modifies p, p.bufV, o, o.bufV, o.outV
    ensures InStep(p, o) && p.stream == old(p.stream) + block && Sums(out, o.frames, o.hopSmpCnt)
  {
    ghost var n := p.wndSmpCnt;
    var frames := p.Feed(block);
    WindowsLast(o.frames, old(p.stream), block, n, p.hopSmpCnt, 0);
    WindowsJoin(o.frames, frames, p.stream, n, p.hopSmpCnt);
    WindowLengths(frames, p.stream, n, p.hopSmpCnt, |o.frames|);
    out := PassAll(o, frames, was);
  }

  lemma WindowLengths(frames: seq<seq<Sample>>, x: seq<Sample>, wnd: nat, hop: nat, k: nat)
    requires AreWindows(frames, x, wnd, hop, k)
    ensures Frames(frames, wnd)
  {
    forall i | 0 <= i < |frames| ensures |frames[i]| == wnd {
      assert IsWindow(frames[i], x, wnd, hop, k + i);
    }
  }

  /** A shift buffer that feeds an overlap-add ring with a unity window of r hops reconstructs the
      stream, whatever its blocks: every window of the stream gives a hop of output, and sample t is the
      input sample times the number of windows over it. */
  method Reconstruct(blocks: seq<seq<Sample>>, procSmpCnt: nat, r: nat, hop: nat, outSmpCnt: nat)
    returns (out: seq<Sample>)
    requires 2 <= r && 0 < hop && 0 < outSmpCnt && hop % outSmpCnt == 0
    requires forall i :: 0 <= i < |blocks| ==> |blocks[i]| <= procSmpCnt
    ensures var x := Concat(blocks, |blocks|);
            && |out| == Pos(WindowCount(|x|, Pos(r, hop), hop), hop)
            && forall t :: 0 <= t < |out| ==> IsGained(out[t], x, r, hop, t)
  {
    var wnd := Pos(r, hop);
    PosMonotone(2, r, hop);
    assert Pos(2, hop) == Pos(1, hop) + hop;
    var rc, p := ShiftBuffer.Create(procSmpCnt, wnd, wnd, hop);
    var o := new OverlapAdd(Ones(wnd), hop, outSmpCnt);
    out := [];
    for i := 0 to |blocks|
      invariant InStep(p, o) && p.stream == Concat(blocks, i) && Sums(out, o.frames, hop)
      invariant fresh(p) && fresh(p.bufV) && fresh(o) && fresh(o.bufV) && fresh(o.outV)
      invariant p.procSmpCnt == procSmpCnt && p.hopSmpCnt == hop && p.wndSmpCnt == wnd
    {
      out := Chain(p, o, blocks[i], out);
    }
    DrainedIs(|p.stream|, wnd, hop, p.shifts);
    Gained(out, p.stream, o.frames, r, hop);
  }

  /** Sample t is the input sample times the number of windows over it. */
  ghost predicate IsGained(y: Sample, x: seq<Sample>, r: nat, hop: nat, t: nat)
    requires 0 < hop
  {
    t < |x| && y == Gain(t, r, hop) as real * x[t]
  }

  lemma Gained(out: seq<Sample>, x: seq<Sample>, frames: seq<seq<Sample>>, r: nat, hop: nat)
    requires 2 <= r && 0 < hop && AreWindows(frames, x, Pos(r, hop), hop, 0) && AreSums(out, frames, hop, 0)
    requires |out| == Pos(|frames|, hop)
    ensures forall t :: 0 <= t < |out| ==> IsGained(out[t], x, r, hop, t)
  {
    forall t | 0 <= t < |out| ensures IsGained(out[t], x, r, hop, t) {
      assert out[t] == Sum(frames, hop, 0 + t);
      SampleIs(x, frames, r, hop, t);
      TimesIs(Gain(t, r, hop), x[t]);
    }
  }
}
