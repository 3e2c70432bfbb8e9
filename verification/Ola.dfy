/** The overlap-add ring of src/core/cwAudioTransforms.h and what it must compute: the sum of the
    windowed frames, each one hop later than the one before. */
module Ola {
  import opened Stride
  import opened ShiftBuf
  import opened Sums

  datatype Option<T> = None | Some(value: T)

  // ----------------------------------------------------------------- the mathematical sum

  /** A frame with the window applied. */
  function Windowed(w: seq<Sample>, frame: seq<Sample>): (f: seq<Sample>)
    requires |frame| == |w|
    ensures |f| == |w|
  {
    seq(|w|, m requires 0 <= m < |w| => frame[m] * w[m])
  }

  /** What a windowed frame adds m samples after its start. */
  function Tap(f: seq<Sample>, m: int): Sample { if 0 <= m < |f| then f[m] else 0.0 }

  /** The sum at stream position t of the first k windowed frames, frame i starting at i hops. */
  function SumOf(frames: seq<seq<Sample>>, k: nat, hop: nat, t: int): Sample
    requires k <= |frames|
  {
    if k == 0 then 0.0 else SumOf(frames, k - 1, hop, t) + Tap(frames[k - 1], t - Pos(k - 1, hop))
  }

  /** The sum of all of them: what overlap-add has to put out. */
  function Sum(frames: seq<seq<Sample>>, hop: nat, t: int): Sample { SumOf(frames, |frames|, hop, t) }

  /** The frames are the raw ones with the window applied. */
  ghost predicate AreWindowed(frames: seq<seq<Sample>>, raws: seq<seq<Sample>>, w: seq<Sample>) {
    |frames| == |raws| && forall k :: 0 <= k < |raws| ==> |raws[k]| == |w| && frames[k] == Windowed(w, raws[k])
  }

  /** What raw frame k adds at a stream position: its sample there times that of the window. */
  function Weighted(w: seq<Sample>, raws: seq<seq<Sample>>, hop: nat, t: int): nat -> Sample {
    (k: nat) =>
      var m := t - Pos(k, hop);
      if k < |raws| && 0 <= m < |w| && m < |raws[k]| then w[m] * raws[k][m] else 0.0
  }

  lemma {:induction false} SumIsWeighted(frames: seq<seq<Sample>>, raws: seq<seq<Sample>>, w: seq<Sample>, n: nat,
                                         hop: nat, t: int)
    requires n <= |frames| && AreWindowed(frames, raws, w)
    ensures SumOf(frames, n, hop, t) == Sigma(n, Weighted(w, raws, hop, t))
  {
    if n > 0 {
      SumIsWeighted(frames, raws, w, n - 1, hop, t);
      TapIsWeighted(frames, raws, w, n - 1, hop, t);
    }
  }

  lemma TapIsWeighted(frames: seq<seq<Sample>>, raws: seq<seq<Sample>>, w: seq<Sample>, k: nat, hop: nat, t: int)
    requires k < |frames| && AreWindowed(frames, raws, w)
    ensures Tap(frames[k], t - Pos(k, hop)) == Weighted(w, raws, hop, t)(k)
  {
    assert |raws[k]| == |w|;
  }

  ghost predicate Frames(frames: seq<seq<Sample>>, wnd: nat) {
    forall i :: 0 <= i < |frames| ==> |frames[i]| == wnd
  }

  /** Past the end of the last frame the sum is zero. */
  lemma {:induction false} SumEnds(frames: seq<seq<Sample>>, k: nat, wnd: nat, hop: nat, t: int)
    requires k <= |frames| && Frames(frames, wnd) && (k == 0 || t >= Pos(k - 1, hop) + wnd)
    ensures SumOf(frames, k, hop, t) == 0.0
  {
    if k > 0 {
      if k > 1 { PosMonotone(k - 2, k - 1, hop); }
      SumEnds(frames, k - 1, wnd, hop, t);
    }
  }

  /** A frame adds nothing before its start, so a position is final once the frames have passed it. */
  lemma {:induction false} SumIsFinal(frames: seq<seq<Sample>>, k: nat, n: nat, hop: nat, t: int)
    requires k <= n <= |frames| && t < Pos(k, hop)
    ensures SumOf(frames, n, hop, t) == SumOf(frames, k, hop, t)
  {
    if k < n {
      PosMonotone(k, n - 1, hop);
      SumIsFinal(frames, k, n - 1, hop, t);
    }
  }

  lemma {:induction false} SumOfPrefix(frames: seq<seq<Sample>>, more: seq<seq<Sample>>, k: nat, hop: nat, t: int)
    requires k <= |frames|
    ensures SumOf(frames + more, k, hop, t) == SumOf(frames, k, hop, t)
  {
    if k > 0 { SumOfPrefix(frames, more, k - 1, hop, t); }
  }

  lemma SumAppend(frames: seq<seq<Sample>>, f: seq<Sample>, hop: nat, i: int)
    ensures Sum(frames + [f], hop, Pos(|frames|, hop) + i) == Sum(frames, hop, Pos(|frames|, hop) + i) + Tap(f, i)
  {
    SumOfPrefix(frames, [f], |frames|, hop, Pos(|frames|, hop) + i);
  }

  // ----------------------------------------------------------------- one round of the ring

  /** The ring slot m places after idx. */
  function Slot(idx: nat, m: nat, wnd: nat): nat
    requires idx < wnd && m <= wnd
  {
    if idx + m < wnd then idx + m else idx + m - wnd
  }

  /** How many places after idx the slot p is. */
  function Place(idx: nat, p: nat, wnd: nat): (m: nat)
    requires idx < wnd && p < wnd
    ensures m < wnd && Slot(idx, m, wnd) == p
  {
    if p >= idx then p - idx else p + wnd - idx
  }

  datatype Ring = Ring(buf: seq<Sample>, idx: nat)

  ghost predicate Fits(r: Ring, f: seq<Sample>, hop: nat) {
    |r.buf| == |f| && r.idx < |f| && hop <= |f|
  }

  /** The samples put out: the head of the windowed frame on top of the ring. */
  function Emit(r: Ring, f: seq<Sample>, hop: nat): seq<Sample>
    requires Fits(r, f, hop)
  {
    seq(hop, i requires 0 <= i < hop => r.buf[Slot(r.idx, i, |f|)] + f[i])
  }

  /** What a slot becomes: the head is left behind, the middle added to, the tail overwritten. */
  function Cell(r: Ring, f: seq<Sample>, hop: nat, p: nat): Sample
    requires Fits(r, f, hop) && p < |f|
  {
    var m := Place(r.idx, p, |f|);
    if m < hop then r.buf[p] else if m < |f| - hop then r.buf[p] + f[m] else f[m]
  }

  function Step(r: Ring, f: seq<Sample>, hop: nat): (q: Ring)
    requires Fits(r, f, hop)
    ensures |q.buf| == |f| && q.idx < |f|
  {
    Ring(seq(|f|, p requires 0 <= p < |f| => Cell(r, f, hop, p)), Slot(r.idx, hop, |f|))
  }

  /** The ring holds the unfinished sums, from the first position not yet put out on. */
  ghost predicate Holds(r: Ring, frames: seq<seq<Sample>>, wnd: nat, hop: nat) {
    && |r.buf| == wnd && r.idx < wnd && Frames(frames, wnd)
    && forall m {:trigger Slot(r.idx, m, wnd)} :: 0 <= m < wnd && (m < wnd - hop || m < hop) ==>
         r.buf[Slot(r.idx, m, wnd)] == Sum(frames, hop, Pos(|frames|, hop) + m)
  }

  /** The window lengths for which the ring works: two hops or more, or exactly one hop. */
  predicate Works(wnd: nat, hop: nat) { hop <= wnd && 0 < wnd && (2 * hop <= wnd || hop == wnd) }

  /** One round puts out the finished sums of all frames so far. */
  lemma StepEmitsSums(r: Ring, frames: seq<seq<Sample>>, f: seq<Sample>, hop: nat, i: nat)
    requires Works(|f|, hop) && Holds(r, frames, |f|, hop) && i < hop
    ensures Emit(r, f, hop)[i] == Sum(frames + [f], hop, Pos(|frames|, hop) + i)
  {
    SumAppend(frames, f, hop, i);
  }

  /** The samples are the overlap-add of the frames from a stream position on. */
  ghost predicate AreSums(out: seq<Sample>, frames: seq<seq<Sample>>, hop: nat, at: nat) {
    forall i :: 0 <= i < |out| ==> out[i] == Sum(frames, hop, at + i)
  }

  lemma StepEmitsAll(r: Ring, frames: seq<seq<Sample>>, f: seq<Sample>, hop: nat)
    requires Works(|f|, hop) && Holds(r, frames, |f|, hop)
    ensures AreSums(Emit(r, f, hop), frames + [f], hop, Pos(|frames|, hop))
  {
    forall i | 0 <= i < hop ensures Emit(r, f, hop)[i] == Sum(frames + [f], hop, Pos(|frames|, hop) + i) {
      StepEmitsSums(r, frames, f, hop, i);
    }
  }

  /** The frames before reach no further than wnd - hop samples past the next frame's start. */
  lemma SumPast(frames: seq<seq<Sample>>, wnd: nat, hop: nat, m: nat)
    requires Frames(frames, wnd) && hop + m >= wnd
    ensures Sum(frames, hop, Pos(|frames|, hop) + m) == 0.0
  {
    SumEnds(frames, |frames|, wnd, hop, Pos(|frames|, hop) + m);
  }

  lemma CellAfterHop(r: Ring, f: seq<Sample>, hop: nat, m: nat)
    requires Fits(r, f, hop) && Works(|f|, hop) && m < |f| && (m < |f| - hop || m < hop)
    ensures Cell(r, f, hop, Slot(Slot(r.idx, hop, |f|), m, |f|)) ==
            if hop == |f| then r.buf[Slot(r.idx, m, |f|)]
            else if hop + m < |f| - hop then r.buf[Slot(r.idx, hop + m, |f|)] + Tap(f, hop + m)
            else Tap(f, hop + m)
  {
  }

  lemma Held(r: Ring, frames: seq<seq<Sample>>, wnd: nat, hop: nat, m: nat)
    requires Holds(r, frames, wnd, hop) && m < wnd && (m < wnd - hop || m < hop)
    ensures r.buf[Slot(r.idx, m, wnd)] == Sum(frames, hop, Pos(|frames|, hop) + m)
  {
  }

  /** The old content under a slot that stays unfinished is the old frames' sum there. */
  lemma OldContent(r: Ring, frames: seq<seq<Sample>>, wnd: nat, hop: nat, m: nat)
    requires Works(wnd, hop) && Holds(r, frames, wnd, hop) && m < wnd && (m < wnd - hop || m < hop)
    ensures Sum(frames, hop, Pos(|frames|, hop) + (hop + m)) ==
            if hop == wnd then r.buf[Slot(r.idx, m, wnd)]
            else if hop + m < wnd - hop then r.buf[Slot(r.idx, hop + m, wnd)]
            else 0.0
  {
    if hop == wnd {
      Held(r, frames, wnd, hop, m);
      SumPast(frames, wnd, hop, m);
      SumPast(frames, wnd, hop, hop + m);
    } else if hop + m < wnd - hop {
      Held(r, frames, wnd, hop, hop + m);
    } else {
      SumPast(frames, wnd, hop, hop + m);
    }
  }

  /** And it leaves the unfinished ones in the ring. */
  lemma StepHoldsSums(r: Ring, frames: seq<seq<Sample>>, f: seq<Sample>, hop: nat)
    requires Works(|f|, hop) && Holds(r, frames, |f|, hop)
    ensures Holds(Step(r, f, hop), frames + [f], |f|, hop)
  {
    var wnd, q := |f|, Step(r, f, hop);
    forall m | 0 <= m < wnd && (m < wnd - hop || m < hop)
      ensures q.buf[Slot(q.idx, m, wnd)] == Sum(frames + [f], hop, Pos(|frames|, hop) + (hop + m))
    {
      CellAfterHop(r, f, hop, m);
      OldContent(r, frames, wnd, hop, m);
      SumAppend(frames, f, hop, hop + m);
    }
  }

  // ----------------------------------------------------------------- whole runs

  function Zeros(n: nat): seq<Sample> { seq(n, _ => 0.0) }

  /** The ring and all samples put out after a run of frames, from the cleared ring. */
  function Run(frames: seq<seq<Sample>>, wnd: nat, hop: nat): (x: (Ring, seq<Sample>))
    requires 0 < wnd && hop <= wnd && Frames(frames, wnd)
    ensures |x.0.buf| == wnd && x.0.idx < wnd && |x.1| == Pos(|frames|, hop)
  {
    if frames == [] then (Ring(Zeros(wnd), 0), [])
    else
      var n := |frames| - 1;
      var (r, out) := Run(frames[..n], wnd, hop);
      (Step(r, frames[n], hop), out + Emit(r, frames[n], hop))
  }

  /** Every sample put out is the sum of all windowed frames at its position. */
  ghost predicate IsOverlapAdd(frames: seq<seq<Sample>>, wnd: nat, hop: nat)
    requires 0 < wnd && hop <= wnd && Frames(frames, wnd)
  {
    var out := Run(frames, wnd, hop).1;
    forall t :: 0 <= t < |out| ==> out[t] == Sum(frames, hop, t)
  }

  lemma {:induction false} RunIsOverlapAdd(frames: seq<seq<Sample>>, wnd: nat, hop: nat)
    requires Works(wnd, hop) && Frames(frames, wnd)
    ensures Holds(Run(frames, wnd, hop).0, frames, wnd, hop) && IsOverlapAdd(frames, wnd, hop)
  {
    if frames != [] {
      var n := |frames| - 1;
      var front, f := frames[..n], frames[n];
      assert frames == front + [f];
      RunIsOverlapAdd(front, wnd, hop);
      var (r, out) := Run(front, wnd, hop);
      StepHoldsSums(r, front, f, hop);
      forall t | 0 <= t < |out| + hop
        ensures (out + Emit(r, f, hop))[t] == Sum(frames, hop, t)
      {
        if t < |out| {
          SumIsFinal(frames, n, n + 1, hop, t);
          SumOfPrefix(front, [f], n, hop, t);
        } else {
          StepEmitsSums(r, front, f, hop, t - |out|);
        }
      }
    }
  }

  lemma RunStep(frames: seq<seq<Sample>>, f: seq<Sample>, wnd: nat, hop: nat)
    requires 0 < wnd && hop <= wnd && Frames(frames, wnd) && |f| == wnd
    ensures Frames(frames + [f], wnd)
    ensures Run(frames + [f], wnd, hop).0 == Step(Run(frames, wnd, hop).0, f, hop)
    ensures Works(wnd, hop) ==>
              AreSums(Emit(Run(frames, wnd, hop).0, f, hop), frames + [f], hop, Pos(|frames|, hop))
  {
    assert (frames + [f])[..|frames|] == frames;
    if Works(wnd, hop) {
      RunIsOverlapAdd(frames, wnd, hop);
      StepEmitsAll(Run(frames, wnd, hop).0, frames, f, hop);
    }
  }

  /** The ring adds overlapped frames correctly, for every run, exactly when the window is at least
      two hops long or exactly one: for a window in between, the third frame is put out on top of
      samples left over from the first. */
  lemma OverlapAddExactlyWhen(wnd: nat, hop: nat)
    requires 0 < wnd && hop <= wnd
    ensures Works(wnd, hop) <==> forall frames :: Frames(frames, wnd) ==> IsOverlapAdd(frames, wnd, hop)
  {
    if Works(wnd, hop) {
      forall frames | Frames(frames, wnd) ensures IsOverlapAdd(frames, wnd, hop) {
        RunIsOverlapAdd(frames, wnd, hop);
      }
    } else {
      StaleSamples(wnd, hop);
    }
  }

  lemma StaleSamples(wnd: nat, hop: nat)
    requires hop < wnd < 2 * hop
    ensures var one := seq(wnd, _ => 1.0); !IsOverlapAdd([one, one, one], wnd, hop)
  {
    var one := seq(wnd, _ => 1.0);
    var fs := [one, one, one];
    assert fs[..2] == [one, one] && [one, one][..1] == [one];
    var none: seq<seq<Sample>> := [];
    assert [one][..0] == none;
    var r0 := Run(none, wnd, hop).0;
    var r1 := Step(r0, one, hop);
    var r2 := Step(r1, one, hop);
    assert Run([one], wnd, hop).0 == r1 && Run([one, one], wnd, hop).0 == r2;
    assert r1.buf[hop] == 1.0 && r2.buf[hop] == 1.0;
    var t := 2 * hop + (wnd - hop);
    assert Pos(1, hop) == hop && Pos(2, hop) == 2 * hop;
    assert Run(fs, wnd, hop).1[t] == Emit(r2, one, hop)[wnd - hop] == 2.0;
    assert SumOf(fs, 1, hop, t) == SumOf(fs, 0, hop, t) + Tap(one, t) == 0.0;
    assert SumOf(fs, 2, hop, t) == SumOf(fs, 1, hop, t) + Tap(one, t - hop) == 0.0;
    assert Sum(fs, hop, t) == SumOf(fs, 2, hop, t) + Tap(one, t - 2 * hop) == 1.0;
  }

  // ----------------------------------------------------------------- the object

  lemma WholeBlocks(n: nat, p: nat)
    requires 0 < p && n % p == 0
    ensures Pos(n / p, p) == n
  {
    PosIs(n / p, p);
    assert n == (n / p) * p + n % p;
  }

  class OverlapAdd {
    const wndV: seq<Sample>         // the window
    const wndSmpCnt: nat
    const hopSmpCnt: nat
    const procSmpCnt: nat
    const bufV: array<Sample>
    const outV: array<Sample>
    var outPtr: nat                 // offset in outV of the next samples to hand out
    var idx: nat                    // offset in bufV of the next sample to put out
    ghost var left: nat             // blocks still to be handed out
    ghost var frames: seq<seq<Sample>>  // the windowed frames so far
    ghost var raws: seq<seq<Sample>>    // the frames as they came

    ghost predicate Valid()
      reads this, bufV, outV
    {
      && Shaped() && Frames(frames, wndSmpCnt) && AreWindowed(frames, raws, wndV) == true
      && Abstract() == Run(frames, wndSmpCnt, hopSmpCnt).0
    }

    ghost predicate Shaped()
      reads this, bufV, outV
    {
      && 0 < wndSmpCnt == |wndV| == bufV.Length && hopSmpCnt == outV.Length <= wndSmpCnt
      && 0 < procSmpCnt && idx < wndSmpCnt
      && outPtr <= hopSmpCnt && hopSmpCnt % procSmpCnt == 0 && hopSmpCnt - outPtr == Pos(left, procSmpCnt)
    }

    ghost function Abstract(): Ring
      reads this, bufV
    {
      Ring(bufV[..], idx)
    }

    /** The samples put out and not yet handed out. */
    ghost function Pending(): seq<Sample>
      requires outPtr <= outV.Length
      reads this, outV
    {
      outV[outPtr..]
    }

    constructor (wndV: seq<Sample>, hopSmpCnt: nat, procSmpCnt: nat)
      requires 0 < |wndV| && hopSmpCnt <= |wndV| && 0 < procSmpCnt && hopSmpCnt % procSmpCnt == 0
      ensures Valid() && fresh(bufV) && fresh(outV) && bufV != outV && Pending() == []
      ensures this.wndV == wndV && this.hopSmpCnt == hopSmpCnt && this.procSmpCnt == procSmpCnt
      ensures frames == [] && raws == []
    {
      this.wndV, wndSmpCnt := wndV, |wndV|;
      this.hopSmpCnt, this.procSmpCnt := hopSmpCnt, procSmpCnt;
      bufV := new Sample[|wndV|](_ => 0.0);
      outV := new Sample[hopSmpCnt](_ => 0.0);
      outPtr, idx, left, frames, raws := hopSmpCnt, 0, 0, [], [];
      new;
      assert bufV[..] == Zeros(wndSmpCnt);
    }

    /** One frame into the ring: the next hop samples of the overlap-add of all windowed frames so far
        become ready to be handed out. Sample i of them is the sum, over all frames so far, of the window
        times the frame at that place of the stream. */
    method Exec(sp: seq<Sample>)
      requires Valid() && |sp| == wndSmpCnt && bufV != outV
      modifies this, bufV, outV
      ensures Valid() && left == hopSmpCnt / procSmpCnt && frames == old(frames) + [Windowed(wndV, sp)]
      ensures |Pending()| == hopSmpCnt
      ensures Works(wndSmpCnt, hopSmpCnt) ==>
                AreSums(Pending(), frames, hopSmpCnt, Pos(|old(frames)|, hopSmpCnt))
      ensures raws == old(raws) + [sp]
      ensures var w, all, hop := wndV, raws, hopSmpCnt;
              Works(wndSmpCnt, hop) ==> forall i :: 0 <= i < hop ==>
                Pending()[i] == Sigma(|all|, (k: nat) =>
                  var m := Pos(|all| - 1, hop) + i - Pos(k, hop);
                  if k < |all| && 0 <= m < |w| && m < |all[k]| then w[m] * all[k][m] else 0.0)
    {
      ghost var f, was := Windowed(wndV, sp), frames;
      ExecRing(sp);
      RunStep(was, f, wndSmpCnt, hopSmpCnt);
      frames, raws := was + [f], raws + [sp];
      if Works(wndSmpCnt, hopSmpCnt) {
        var w, all, hop := wndV, raws, hopSmpCnt;
        forall i | 0 <= i < hop
          ensures Pending()[i] == Sigma(|all|, (k: nat) =>
                    var m := Pos(|all| - 1, hop) + i - Pos(k, hop);
                    if k < |all| && 0 <= m < |w| && m < |all[k]| then w[m] * all[k][m] else 0.0)
        {
          PendingIs(i, (k: nat) =>
            var m := Pos(|all| - 1, hop) + i - Pos(k, hop);
            if k < |all| && 0 <= m < |w| && m < |all[k]| then w[m] * all[k][m] else 0.0);
        }
      }
    }

    lemma PendingIs(i: nat, f: nat -> Sample)
      requires outPtr <= outV.Length && AreWindowed(frames, raws, wndV) == true && |raws| > 0 && i < |Pending()|
      requires AreSums(Pending(), frames, hopSmpCnt, Pos(|raws| - 1, hopSmpCnt))
      requires forall k :: 0 <= k < |raws| ==>
                 f(k) == Weighted(wndV, raws, hopSmpCnt, Pos(|raws| - 1, hopSmpCnt) + i)(k)
      ensures Pending()[i] == Sigma(|raws|, f)
    {
      var t := Pos(|raws| - 1, hopSmpCnt) + i;
      SumIsWeighted(frames, raws, wndV, |raws|, hopSmpCnt, t);
      SigmaEqual(|raws|, Weighted(wndV, raws, hopSmpCnt, t), f);
    }

    method ExecRing(sp: seq<Sample>)
      requires Shaped() && |sp| == wndSmpCnt && bufV != outV
      modifies `idx, `outPtr, `left, bufV, outV
      ensures Shaped() && left == hopSmpCnt / procSmpCnt
      ensures Pending() == Emit(old(Abstract()), Windowed(wndV, sp), hopSmpCnt)
      ensures Abstract() == Step(old(Abstract()), Windowed(wndV, sp), hopSmpCnt)
    {
      ghost var r, f := Abstract(), Windowed(wndV, sp);
      AddHead(sp);
      AddRest(sp, r, f);
      outPtr, left := 0, hopSmpCnt / procSmpCnt;
      WholeBlocks(hopSmpCnt, procSmpCnt);
      assert bufV[..] == Step(r, f, hopSmpCnt).buf;
    }

    /** Sum the head of the frame with the ring into the output. */
    method AddHead(sp: seq<Sample>)
      requires Shaped() && |sp| == wndSmpCnt && bufV != outV
      modifies `idx, outV
      ensures outV[..] == Emit(old(Abstract()), Windowed(wndV, sp), hopSmpCnt)
      ensures idx == Slot(old(idx), hopSmpCnt, wndSmpCnt) && idx < wndSmpCnt
    {
      ghost var r, f := Abstract(), Windowed(wndV, sp);
      for i := 0 to hopSmpCnt
        invariant idx < wndSmpCnt && idx == Slot(old(idx), i, wndSmpCnt)
        invariant forall j :: 0 <= j < i ==> outV[j] == Emit(r, f, hopSmpCnt)[j]
      {
        var x := sp[i] * wndV[i];
        assert x == f[i];
        outV[i] := bufV[idx] + x;
        idx := idx + 1;
        if idx == wndSmpCnt { idx := 0; }
      }
      assert outV[..] == Emit(r, f, hopSmpCnt);
    }

    /** Add the middle of the frame to the ring and overwrite the ring with its tail. */
    method AddRest(sp: seq<Sample>, ghost r: Ring, ghost f: seq<Sample>)
      requires 0 < wndSmpCnt == |wndV| == bufV.Length == |sp| && hopSmpCnt <= wndSmpCnt
      requires f == Windowed(wndV, sp) && Fits(r, f, hopSmpCnt) && bufV[..] == r.buf
      requires idx == Slot(r.idx, hopSmpCnt, wndSmpCnt) && idx < wndSmpCnt
      modifies bufV
      ensures forall p :: 0 <= p < wndSmpCnt ==> bufV[p] == Cell(r, f, hopSmpCnt, p)
    {
      var n := wndSmpCnt - 2 * hopSmpCnt;
      var k, i, j := idx, hopSmpCnt, 0;
      while j < n
        invariant i == hopSmpCnt + j && (j <= n || j == 0) && i <= wndSmpCnt
        invariant k < wndSmpCnt && k == Slot(r.idx, i, wndSmpCnt)
        invariant Partial(r, f, i)
      {
        var x := sp[i] * wndV[i];
        assert x == f[i];
        bufV[k] := bufV[k] + x;
        k, i, j := k + 1, i + 1, j + 1;
        if k == wndSmpCnt { k := 0; }
      }
      AssignTail(sp, i, k, r, f);
    }

    method AssignTail(sp: seq<Sample>, i0: nat, k0: nat, ghost r: Ring, ghost f: seq<Sample>)
      requires 0 < wndSmpCnt == |wndV| == bufV.Length == |sp| && hopSmpCnt <= i0 <= wndSmpCnt
      requires f == Windowed(wndV, sp) && Fits(r, f, hopSmpCnt)
      requires i0 >= wndSmpCnt - hopSmpCnt && k0 < wndSmpCnt && k0 == Slot(r.idx, i0, wndSmpCnt)
      requires Partial(r, f, i0)
      modifies bufV
      ensures forall p :: 0 <= p < wndSmpCnt ==> bufV[p] == Cell(r, f, hopSmpCnt, p)
    {
      var i, k := i0, k0;
      while i < wndSmpCnt
        invariant i0 <= i <= wndSmpCnt
        invariant k < wndSmpCnt && k == Slot(r.idx, i, wndSmpCnt)
        invariant Partial(r, f, i)
      {
        var x := sp[i] * wndV[i];
        assert x == f[i];
        bufV[k] := x;
        k, i := k + 1, i + 1;
        if k == wndSmpCnt { k := 0; }
      }
    }

    /** The slots of the first i samples of the frame are done, the others still as before. */
    ghost predicate Partial(r: Ring, f: seq<Sample>, i: nat)
      requires Fits(r, f, hopSmpCnt) && bufV.Length == |f|
      reads this, bufV
    {
      forall p :: 0 <= p < |f| ==>
        bufV[p] == if Place(r.idx, p, |f|) < i then Cell(r, f, hopSmpCnt, p) else r.buf[p]
    }

    /** Hand out the next block of pending samples; none when all were handed out. */
    method ExecOut() returns (block: Option<seq<Sample>>)
      requires Valid()
      modifies `outPtr, `left
      ensures Valid()
      ensures block.None? <==> old(Pending()) == []
      ensures block.None? ==> Pending() == []
      ensures left == if block.None? then 0 else old(left) - 1
      ensures block.Some? ==> |block.value| == procSmpCnt && old(Pending()) == block.value + Pending()
    {
      if outPtr >= hopSmpCnt {
        return None;
      }
      block := Some(outV[outPtr..outPtr + procSmpCnt]);
      outPtr, left := outPtr + procSmpCnt, left - 1;
    }
  }
}
