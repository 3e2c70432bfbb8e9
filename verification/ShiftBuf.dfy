/** The shift buffer of src/core/cwAudioTransforms.h: blocks of samples in, overlapping windows of
    the stream out. */
module ShiftBuf {
  import opened Stride

  type Sample = real

  datatype RC = OkRC | InvalidArgRC

  /** How many windows of wnd samples, hop samples apart, a stream of n samples holds. */
  function WindowCount(n: nat, wnd: nat, hop: nat): nat
    requires hop > 0
  {
    if n < wnd then 0 else (n - wnd) / hop + 1
  }

  /** The first k windows fit into n samples and the next one does not. */
  predicate Drained(n: nat, wnd: nat, hop: nat, k: nat) {
    Pos(k, hop) + wnd > n && (k > 0 ==> Pos(k - 1, hop) + wnd <= n)
  }

  /** The windows found so far are all of them exactly when no further one fits. */
  lemma DrainedIs(n: nat, wnd: nat, hop: nat, k: nat)
    requires hop > 0
    ensures Drained(n, wnd, hop, k) <==> k == WindowCount(n, wnd, hop)
  {
    if n >= wnd {
      var q := (n - wnd) / hop;
      PosBounds(n - wnd, hop);
      if k < q + 1 { PosMonotone(k, q, hop); }
      if k > q + 1 { PosMonotone(q + 1, k - 1, hop); }
    } else if k > 0 {
      assert wnd > n;
    }
  }

  function Window(stream: seq<Sample>, wnd: nat, hop: nat, k: nat): seq<Sample>
    requires Pos(k, hop) + wnd <= |stream|
  {
    stream[Pos(k, hop)..Pos(k, hop) + wnd]
  }

  /** The frames are the windows of the stream from the k-th on. */
  ghost predicate AreWindows(frames: seq<seq<Sample>>, stream: seq<Sample>, wnd: nat, hop: nat, k: nat) {
    forall i :: 0 <= i < |frames| ==> IsWindow(frames[i], stream, wnd, hop, k + i)
  }

  ghost predicate IsWindow(frame: seq<Sample>, stream: seq<Sample>, wnd: nat, hop: nat, k: nat) {
    Pos(k, hop) + wnd <= |stream| && frame == Window(stream, wnd, hop, k)
  }

  lemma AddWindow(frames: seq<seq<Sample>>, frame: seq<Sample>, stream: seq<Sample>, wnd: nat, hop: nat, k: nat)
    requires AreWindows(frames, stream, wnd, hop, k) && IsWindow(frame, stream, wnd, hop, k + |frames|)
    ensures AreWindows(frames + [frame], stream, wnd, hop, k)
  {
  }

  // ----------------------------------------------------------------- how many samples are held

  /** What a call depends on besides the samples: how many are held, and the last value returned. */
  datatype Level = Level(held: nat, fl: bool)

  /** A shift by a hop needs as many samples; with fewer the output position would pass the input position,
      and the count of samples to move would be negative. */
  predicate CanExec(v: Level, hop: nat) { v.fl ==> hop <= v.held }

  /** The level after a call with sn samples. */
  function NextLevel(v: Level, sn: nat, wnd: nat, hop: nat): Level
    requires CanExec(v, hop)
  {
    var held := if v.fl then v.held - hop else v.held + sn;
    Level(held, held >= wnd)
  }

  /** Calls with blocks of these sizes come to a shift that finds less than a hop. */
  predicate Overruns(v: Level, wnd: nat, hop: nat, sizes: seq<nat>)
    decreases |sizes|
  {
    sizes != [] && (!CanExec(v, hop) || Overruns(NextLevel(v, sizes[0], wnd, hop), wnd, hop, sizes[1..]))
  }

  predicate AllFit(sizes: seq<nat>, procSmpCnt: nat) { forall i :: 0 <= i < |sizes| ==> sizes[i] <= procSmpCnt }

  /** A window of a hop or more keeps every later call safe. */
  lemma {:induction false} LongWindowIsSafe(v: Level, wnd: nat, hop: nat, sizes: seq<nat>)
    requires hop <= wnd && CanExec(v, hop)
    ensures !Overruns(v, wnd, hop, sizes)
    decreases |sizes|
  {
    if sizes != [] { LongWindowIsSafe(NextLevel(v, sizes[0], wnd, hop), wnd, hop, sizes[1..]); }
  }

  /** Sizes that make a shorter window fail: shift out what is held, then single samples up to a window,
      and then the shift that finds too little. */
  lemma {:induction false} ShortWindowOverruns(v: Level, wnd: nat, hop: nat, procSmpCnt: nat) returns (sizes: seq<nat>)
    requires wnd < hop && procSmpCnt >= 1
    ensures AllFit(sizes, procSmpCnt) && Overruns(v, wnd, hop, sizes)
    decreases if !CanExec(v, hop) then 0 else if v.fl then 2 else if v.held < wnd then 1 else 3,
              if v.fl then v.held else if v.held < wnd then wnd - v.held else 0
  {
    if !CanExec(v, hop) {
      sizes := [0];
    } else {
      var sn := if !v.fl && v.held < wnd then 1 else 0;
      var rest := ShortWindowOverruns(NextLevel(v, sn, wnd, hop), wnd, hop, procSmpCnt);
      sizes := [sn] + rest;
      assert sizes[1..] == rest;
    }
  }

  predicate IsSafe(v: Level, wnd: nat, hop: nat, procSmpCnt: nat, sizes: seq<nat>) {
    AllFit(sizes, procSmpCnt) ==> !Overruns(v, wnd, hop, sizes)
  }

  /** Whatever the sizes of the blocks, no call overruns, exactly when the next one does not and the window
      is not shorter than the hop. */
  lemma SafeExactlyWhen(v: Level, wnd: nat, hop: nat, procSmpCnt: nat)
    requires procSmpCnt >= 1
    ensures (forall sizes :: IsSafe(v, wnd, hop, procSmpCnt, sizes)) <==> CanExec(v, hop) && hop <= wnd
  {
    if CanExec(v, hop) && hop <= wnd {
      forall sizes ensures IsSafe(v, wnd, hop, procSmpCnt, sizes) { LongWindowIsSafe(v, wnd, hop, sizes); }
    } else if CanExec(v, hop) {
      var sizes := ShortWindowOverruns(v, wnd, hop, procSmpCnt);
      assert !IsSafe(v, wnd, hop, procSmpCnt, sizes);
    } else {
      assert !IsSafe(v, wnd, hop, procSmpCnt, [0]);
    }
  }

  /** An empty buffer with a hop of four is set to a window of two: one block of two samples fills it, and
      the next call shifts by four. */
  lemma TwoSamplesOverrun()
    ensures Overruns(Level(0, false), 2, 4, [2, 0])
  {
    assert [2, 0][1..] == [0];
    assert NextLevel(Level(0, false), 2, 2, 4) == Level(2, true);
    assert Overruns(Level(2, true), 2, 4, [0]);
  }

  // ----------------------------------------------------------------- the buffer

  class ShiftBuffer {
    const procSmpCnt: nat
    const maxWndSmpCnt: nat
    const hopSmpCnt: nat
    const bufSmpCnt: nat
    const bufV: array<Sample>
    var wndSmpCnt: nat
    var outV: nat                   // offset in bufV of the output window
    var inPtr: nat                  // offset in bufV of the next incoming sample
    var fl: bool                    // the last value returned by Exec
    ghost var stream: seq<Sample>   // all samples accepted so far
    ghost var shifts: nat           // windows shifted out so far
    ghost var base: nat             // position in the stream of the output window

    ghost predicate Valid()
      reads this, bufV
    {
      && bufSmpCnt == maxWndSmpCnt + procSmpCnt == bufV.Length
      && wndSmpCnt <= maxWndSmpCnt && outV <= inPtr <= bufSmpCnt
      && base == Pos(shifts, hopSmpCnt) && |stream| == base + (inPtr - outV)
      && bufV[outV..inPtr] == stream[base..]
      && (!fl ==> outV == 0 && inPtr <= maxWndSmpCnt)
    }

    ghost function LevelNow(): Level
      reads this
      requires outV <= inPtr
    {
      Level(inPtr - outV, fl)
    }

    /** The window at outV is the window of the stream after the hops shifted out so far. */
    ghost predicate Exposes()
      reads this, bufV
    {
      outV + wndSmpCnt <= bufV.Length && base == Pos(shifts, hopSmpCnt) && base + wndSmpCnt <= |stream|
      && bufV[outV..outV + wndSmpCnt] == stream[base..base + wndSmpCnt]
    }

    constructor Init(procSmpCnt: nat, maxWndSmpCnt: nat, wndSmpCnt: nat, hopSmpCnt: nat)
      requires hopSmpCnt <= wndSmpCnt <= maxWndSmpCnt
      ensures Valid() && fresh(bufV) && stream == [] && shifts == 0 && !fl
      ensures this.procSmpCnt == procSmpCnt && this.maxWndSmpCnt == maxWndSmpCnt
      ensures this.wndSmpCnt == wndSmpCnt && this.hopSmpCnt == hopSmpCnt
    {
      this.procSmpCnt, this.maxWndSmpCnt, this.hopSmpCnt := procSmpCnt, maxWndSmpCnt, hopSmpCnt;
      this.wndSmpCnt, bufSmpCnt := wndSmpCnt, maxWndSmpCnt + procSmpCnt;
      bufV := new Sample[maxWndSmpCnt + procSmpCnt];
      outV, inPtr, fl, stream, shifts, base := 0, 0, false, [], 0, 0;
    }

    /** A window may not be longer than the maximum nor shorter than the hop. */
    static method Create(procSmpCnt: nat, maxWndSmpCnt: nat, wndSmpCnt: nat, hopSmpCnt: nat)
      returns (rc: RC, p: ShiftBuffer?)
      ensures rc == OkRC <==> hopSmpCnt <= wndSmpCnt <= maxWndSmpCnt
      ensures rc == OkRC ==>
                p != null && fresh(p) && fresh(p.bufV) && p.Valid() && p.stream == [] && !p.fl && p.shifts == 0
      ensures rc == OkRC ==> p.procSmpCnt == procSmpCnt && p.wndSmpCnt == wndSmpCnt && p.hopSmpCnt == hopSmpCnt
    {
      p := null;
      if wndSmpCnt > maxWndSmpCnt || hopSmpCnt > wndSmpCnt {
        return InvalidArgRC, null;
      }
      p := new ShiftBuffer.Init(procSmpCnt, maxWndSmpCnt, wndSmpCnt, hopSmpCnt);
      rc := OkRC;
    }

    /** The window length may change between any two calls. It is not compared with the hop, as it is when
        the buffer is made: unless no block holds a sample, all later calls are safe exactly when the next
        one is and the window is not shorter than that. */
    method SetWindowSampleCount(n: nat) returns (rc: RC)
      requires Valid()
      modifies `wndSmpCnt
      ensures Valid() && LevelNow() == old(LevelNow())
      ensures rc == OkRC <==> n <= maxWndSmpCnt
      ensures wndSmpCnt == if n <= maxWndSmpCnt then n else old(wndSmpCnt)
      ensures procSmpCnt >= 1 ==>
                ((forall sizes :: IsSafe(LevelNow(), wndSmpCnt, hopSmpCnt, procSmpCnt, sizes))
                 <==> CanExec(LevelNow(), hopSmpCnt) && hopSmpCnt <= wndSmpCnt)
    {
      rc := InvalidArgRC;
      if n <= maxWndSmpCnt {
        wndSmpCnt := n;
        rc := OkRC;
      }
      if procSmpCnt >= 1 { SafeExactlyWhen(LevelNow(), wndSmpCnt, hopSmpCnt, procSmpCnt); }
    }

    /** After a call that returned true the buffer is shifted by one hop and the argument ignored;
        otherwise all of the argument is taken, and none of it is ever lost. The k-th call that
        returns true, whatever the window lengths were before, exposes the window of the stream at
        k hops. */
    method Exec(sp: seq<Sample>) returns (r: bool)
      requires Valid() && CanExec(LevelNow(), hopSmpCnt) && |sp| <= procSmpCnt
      modifies this, bufV
      ensures Valid() == true && wndSmpCnt == old(wndSmpCnt) && r == fl
      ensures LevelNow() == NextLevel(old(LevelNow()), |sp|, wndSmpCnt, hopSmpCnt)
      ensures old(fl) ==> stream == old(stream)
      ensures !old(fl) ==> stream == old(stream) + sp
      ensures shifts == (if old(fl) then old(shifts) + 1 else old(shifts)) && base == Pos(shifts, hopSmpCnt)
      ensures r <==> base + wndSmpCnt <= |stream|
      ensures r ==> Exposes() == true
    {
      if fl {
        Shift();
      } else {
        Append(sp);
      }
      fl := inPtr - outV >= wndSmpCnt;
      r := fl;
      if fl { FullBufferExposes(); }
    }

    lemma FullBufferExposes()
      requires outV + wndSmpCnt <= inPtr <= bufV.Length && base <= |stream|
      requires bufV[outV..inPtr] == stream[base..] && base == Pos(shifts, hopSmpCnt)
      ensures Exposes()
    {
      assert |bufV[outV..inPtr]| == |stream[base..]|;
      var held, x, y := bufV[outV..inPtr], bufV[outV..outV + wndSmpCnt], stream[base..base + wndSmpCnt];
      forall i | 0 <= i < wndSmpCnt ensures x[i] == y[i] {
        assert x[i] == held[i] == stream[base..][i] == y[i];
      }
    }

    method Shift()
      requires Valid() && fl && hopSmpCnt <= inPtr - outV
      modifies bufV, `outV, `inPtr, `shifts, `base
      ensures outV <= inPtr <= bufSmpCnt && shifts == old(shifts) + 1
      ensures base == Pos(shifts, hopSmpCnt) && |stream| == base + (inPtr - outV)
      ensures bufV[outV..inPtr] == stream[base..]
      ensures inPtr - outV < wndSmpCnt ==> outV == 0
      ensures inPtr - outV == old(inPtr - outV) - hopSmpCnt
    {
      ghost var kept := stream[base..];
      assert bufV[outV + hopSmpCnt..inPtr] == kept[hopSmpCnt..];
      outV := outV + hopSmpCnt;
      shifts, base := shifts + 1, base + hopSmpCnt;
      assert stream[base..] == kept[hopSmpCnt..];
      if inPtr - outV < wndSmpCnt {
        MoveToBase();
      }
    }

    method MoveToBase()
      requires outV <= inPtr <= bufV.Length
      modifies bufV, `outV, `inPtr
      ensures outV == 0 && inPtr == old(inPtr - outV) && bufV[..inPtr] == old(bufV[outV..inPtr])
    {
      var n := inPtr - outV;
      forall i | 0 <= i < n { bufV[i] := bufV[outV + i]; }
      inPtr := n;
      outV := 0;
    }

    method Append(sp: seq<Sample>)
      requires Valid() && !fl && |sp| <= procSmpCnt
      modifies bufV, `inPtr, `stream
      ensures inPtr == old(inPtr) + |sp| && inPtr <= bufSmpCnt && stream == old(stream) + sp
      ensures |stream| == base + (inPtr - outV) && bufV[outV..inPtr] == stream[base..]
    {
      ghost var kept := bufV[outV..inPtr];
      assert inPtr + |sp| <= bufSmpCnt;   // so the branch that truncates the block is never taken
      forall i | 0 <= i < |sp| { bufV[inPtr + i] := sp[i]; }
      inPtr := inPtr + |sp|;
      stream := stream + sp;
      assert bufV[outV..inPtr] == kept + sp;
    }

    /** The window a caller reads at outV after a call that returned true. */
    method Output() returns (frame: seq<Sample>)
      requires Exposes()
      ensures IsWindow(frame, stream, wndSmpCnt, hopSmpCnt, shifts)
    {
      frame := bufV[outV..outV + wndSmpCnt];
    }

    /** The caller's loop: offer a block and take windows until there is no further one. Whatever
        the block sizes, the windows taken are, in order, all windows of the stream. */
    method Feed(sp: seq<Sample>) returns (frames: seq<seq<Sample>>)
      requires Valid() && |sp| <= procSmpCnt && 0 < hopSmpCnt <= wndSmpCnt && !fl
      requires Drained(|stream|, wndSmpCnt, hopSmpCnt, shifts)
      modifies this, bufV
      ensures Valid() == true && !fl && wndSmpCnt == old(wndSmpCnt) && stream == old(stream) + sp
      ensures Drained(|stream|, wndSmpCnt, hopSmpCnt, shifts) && shifts == old(shifts) + |frames|
      ensures AreWindows(frames, stream, wndSmpCnt, hopSmpCnt, old(shifts))
    {
      ghost var all, from := stream + sp, shifts;
      frames := [];
      var more := Exec(sp);
      while more
        invariant Draining(frames, all, from) == true && more == fl && wndSmpCnt == old(wndSmpCnt)
        decreases |all| - base
      {
        frames, more := TakeWindow(frames, sp, all, from);
      }
    }

    /** Between the windows of one block: the frames are the windows from number from on, and a true last
        call means that there is a further one. */
    ghost predicate Draining(frames: seq<seq<Sample>>, all: seq<Sample>, from: nat)
      reads this, bufV
    {
      && Valid() && hopSmpCnt <= wndSmpCnt && stream == all && shifts == from + |frames| && base <= |all|
      && (shifts > 0 ==> base - hopSmpCnt + wndSmpCnt <= |all|)
      && (fl <==> base + wndSmpCnt <= |all|) && (fl ==> Exposes())
      && AreWindows(frames, all, wndSmpCnt, hopSmpCnt, from)
    }

    method TakeWindow(was: seq<seq<Sample>>, sp: seq<Sample>, ghost all: seq<Sample>, ghost from: nat)
      returns (frames: seq<seq<Sample>>, more: bool)
      requires Draining(was, all, from) && fl && |sp| <= procSmpCnt && hopSmpCnt > 0
      modifies this, bufV
      ensures Draining(frames, all, from) == true && more == fl && wndSmpCnt == old(wndSmpCnt)
      ensures old(base) < base <= |all|
    {
      var frame := Output();
      AddWindow(was, frame, all, wndSmpCnt, hopSmpCnt, from);
      frames := was + [frame];
      more := Exec(sp);
    }
  }
}
