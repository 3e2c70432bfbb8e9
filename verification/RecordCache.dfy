/** The record cache of the dataset reader, src/core/cwDataSets.cpp: a buffer over a file of
    length-prefixed records, with refills, seeks and shuffling. The plain meaning it must keep is the
    list of records in the file. */
module RecordCache {
  import opened Bytes

  type Record = r: seq<byte> | |r| < 0x1_0000_0000

  const HeaderSize := 4

  // ----------------------------------------------------------------- records in a file

  /** A record behind its length. */
  function Framed(r: Record): (s: seq<byte>)
    ensures |s| == HeaderSize + |r|
  {
    PutU32(|r|) + r
  }

  /** The file contents from record i on. */
  function Encode(recs: seq<Record>, i: nat): (s: seq<byte>)
    requires i <= |recs|
    ensures |s| == Size(recs, i, |recs| - i)
    decreases |recs| - i
  {
    if i == |recs| then [] else
      SizeSplits(recs, i, 1, |recs| - i - 1);
      Framed(recs[i]) + Encode(recs, i + 1)
  }

  /** The bytes that k records from number i on take. */
  function Size(recs: seq<Record>, i: nat, k: nat): nat
    requires i + k <= |recs|
  {
    if k == 0 then 0 else Size(recs, i, k - 1) + HeaderSize + |recs[i + k - 1]|
  }

  lemma {:induction false} SizeSplits(recs: seq<Record>, i: nat, k: nat, m: nat)
    requires i + k + m <= |recs|
    ensures Size(recs, i, k + m) == Size(recs, i, k) + Size(recs, i + k, m)
  {
    if m > 0 { SizeSplits(recs, i, k, m - 1); }
  }

  lemma {:induction false} SizeGrows(recs: seq<Record>, i: nat, k: nat, m: nat)
    requires k <= m && i + m <= |recs|
    ensures Size(recs, i, k) + HeaderSize * (m - k) <= Size(recs, i, m)
  {
    if k < m { SizeGrows(recs, i, k, m - 1); }
  }

  /** A record appended to the file is the last one in it. */
  lemma {:induction false} EncodeAppend(recs: seq<Record>, r: Record, i: nat)
    requires i <= |recs|
    ensures Encode(recs + [r], i) == Encode(recs, i) + Framed(r)
    decreases |recs| - i
  {
    if i < |recs| {
      EncodeAppend(recs, r, i + 1);
      assert (recs + [r])[i] == recs[i];
    } else {
      assert Encode(recs + [r], i + 1) == [];
    }
  }

  /** From position s on a file goes on like this. */
  predicate IsRest(file: seq<byte>, s: nat, rest: seq<byte>) { s <= |file| && file[s..] == rest }

  lemma SplitAt(s: seq<byte>, o: nat, p: seq<byte>, q: seq<byte>)
    requires IsRest(s, o, p + q) == true
    ensures IsRest(s, o + |p|, q) == true && o + |p| + |q| == |s|
    ensures s[o..o + |p|] == p
  {
    assert s == s[..o] + (p + q);
  }

  lemma SliceInside(s: seq<byte>, j: nat, e: seq<byte>, k: nat, f: seq<byte>, n: nat)
    requires IsRest(s, j, e) == true && IsRest(e, k, f) == true && n <= |f|
    ensures j + k + |f| == |s| && s[j + k..j + k + n] == f[..n]
  {
    assert s[j + k..] == f;
  }

  /** Behind k records the file goes on with the next one. */
  lemma {:induction false} EncodeDrop(recs: seq<Record>, i: nat, k: nat)
    requires i + k <= |recs|
    ensures IsRest(Encode(recs, i), Size(recs, i, k), Encode(recs, i + k)) == true
  {
    if k > 0 {
      EncodeDrop(recs, i, k - 1);
      SplitAt(Encode(recs, i), Size(recs, i, k - 1), Framed(recs[i + k - 1]), Encode(recs, i + k));
    }
  }

  /** Record r stands in b behind its length at offset o. */
  predicate RecordIn(b: seq<byte>, o: nat, r: Record) {
    && o + HeaderSize + |r| <= |b| && GetU32(b, o) == |r|
    && b[o + HeaderSize..o + HeaderSize + |r|] == r
  }

  lemma FramedIn(b: seq<byte>, o: nat, r: Record)
    requires o + HeaderSize + |r| <= |b| && b[o..o + HeaderSize + |r|] == Framed(r)
    ensures RecordIn(b, o, r)
  {
    var f := Framed(r);
    assert b[o..o + HeaderSize] == f[..HeaderSize] == PutU32(|r|);
    GetPutU32(b, o, |r|);
    assert b[o + HeaderSize..o + HeaderSize + |r|] == f[HeaderSize..] == r;
  }

  /** Where record i + k stands, behind record i. */
  lemma RecordAt(recs: seq<Record>, i: nat, k: nat)
    requires i + k < |recs|
    ensures RecordIn(Encode(recs, i), Size(recs, i, k), recs[i + k])
    ensures Size(recs, i, k) + HeaderSize + |recs[i + k]| == Size(recs, i, k + 1)
  {
    var o, e, r := Size(recs, i, k), Encode(recs, i), recs[i + k];
    EncodeDrop(recs, i, k);
    SplitAt(e, o, Framed(r), Encode(recs, i + k + 1));
    FramedIn(e, o, r);
  }

  /** A record that stands in s stands in every b that agrees with s that far. */
  lemma RecordInPrefix(s: seq<byte>, n: nat, b: seq<byte>, o: nat, r: Record)
    requires RecordIn(s, o, r) && o + HeaderSize + |r| <= n <= |s| && n <= |b| && b[..n] == s[..n]
    ensures RecordIn(b, o, r)
  {
    assert forall j :: 0 <= j < n ==> b[j] == b[..n][j] == s[..n][j] == s[j];
  }

  // ----------------------------------------------------------------- what a refill counts

  /** The number of records a refill counts in the bytes b that it read, from offset off on. The
      second test leaves out the length of the record's header. */
  function Count(b: seq<byte>, off: nat): nat
    decreases |b| - off
  {
    if off + HeaderSize >= |b| then 0
    else
      var n := GetU32(b, off);
      if off + n > |b| then 0 else 1 + Count(b, off + HeaderSize + n)
  }

  /** The offset at which that count ends. */
  function Ends(b: seq<byte>, off: nat): nat
    decreases |b| - off
  {
    if off + HeaderSize >= |b| then off
    else
      var n := GetU32(b, off);
      if off + n > |b| then off else Ends(b, off + HeaderSize + n)
  }

  /** How far a refill moves the file position: it backs up to the end of the count, when that does
      not lie beyond what was read. */
  function Consumed(b: seq<byte>): nat { Min(Ends(b, 0), |b|) }

  /** How many bytes a refill at record i reads into a buffer of max bytes. */
  function Reach(recs: seq<Record>, i: nat, max: nat): nat
    requires i <= |recs|
  {
    Min(max, Size(recs, i, |recs| - i))
  }

  /** Those bytes. */
  function Window(recs: seq<Record>, i: nat, max: nat): (w: seq<byte>)
    requires i <= |recs|
    ensures |w| == Reach(recs, i, max)
  {
    Encode(recs, i)[..Reach(recs, i, max)]
  }

  // ----------------------------------------------------------------- what it should count

  /** The number of records from i on that lie whole within n bytes, k of which are known to. */
  function Whole(recs: seq<Record>, i: nat, k: nat, n: nat): (w: nat)
    requires i + k <= |recs|
    ensures k <= w && i + w <= |recs|
    ensures Size(recs, i, k) <= n ==> Size(recs, i, w) <= n
    decreases |recs| - k
  {
    if i + k < |recs| && Size(recs, i, k) + HeaderSize < n && Size(recs, i, k + 1) <= n
    then Whole(recs, i, k + 1, n)
    else k
  }

  /** The number of records in the cache after a refill at record i. */
  function Fill(recs: seq<Record>, i: nat, max: nat): (n: nat)
    requires i <= |recs|
    ensures i + n <= |recs|
  {
    Whole(recs, i, 0, Reach(recs, i, max))
  }

  /** The n bytes from record i on end inside the last four bytes of the record behind the k whole
      ones. */
  predicate TornAt(recs: seq<Record>, i: nat, k: nat, n: nat)
    requires i + k <= |recs|
  {
    && i + k < |recs| && Size(recs, i, k) + HeaderSize < n
    && Size(recs, i, k + 1) - HeaderSize <= n < Size(recs, i, k + 1)
  }

  /** A refill at record i tears a record. */
  predicate Torn(recs: seq<Record>, i: nat, max: nat)
    requires i <= |recs|
  {
    TornAt(recs, i, Fill(recs, i, max), Reach(recs, i, max))
  }

  lemma CountStep(recs: seq<Record>, i: nat, k: nat, b: seq<byte>)
    requires i + k < |recs| && Size(recs, i, k) + HeaderSize < |b| <= |Encode(recs, i)|
    requires b == Encode(recs, i)[..|b|]
    ensures var o, e := Size(recs, i, k), Size(recs, i, k + 1);
            if e - HeaderSize > |b| then Count(b, o) == 0 && Ends(b, o) == o
            else Count(b, o) == 1 + Count(b, e) && Ends(b, o) == Ends(b, e)
  {
    RecordAt(recs, i, k);
    assert GetU32(b, Size(recs, i, k)) == GetU32(Encode(recs, i), Size(recs, i, k));
  }

  /** What is counted behind the first k records in the front b of the file. */
  predicate CountsBehind(recs: seq<Record>, i: nat, k: nat, b: seq<byte>)
    requires i + k <= |recs|
  {
    var o, w := Size(recs, i, k), Whole(recs, i, k, |b|);
    if TornAt(recs, i, w, |b|) then k + Count(b, o) == w + 1 && Ends(b, o) == Size(recs, i, w + 1)
    else k + Count(b, o) == w && Ends(b, o) == Size(recs, i, w)
  }

  lemma {:induction false} CountFrom(recs: seq<Record>, i: nat, k: nat, b: seq<byte>)
    requires i + k <= |recs| && Size(recs, i, k) <= |b| <= |Encode(recs, i)| && b == Encode(recs, i)[..|b|]
    ensures CountsBehind(recs, i, k, b) == true
    decreases |recs| - k
  {
    if i + k < |recs| && Size(recs, i, k) + HeaderSize < |b| {
      CountStep(recs, i, k, b);
      if Size(recs, i, k + 1) <= |b| { CountFrom(recs, i, k + 1, b); }
    }
  }

  /** A refill counts exactly the whole records and leaves the file behind the last of them, unless
      the buffer ends inside the last four bytes of a record: then it counts that record too and
      leaves the file inside it. */
  lemma RefillCounts(recs: seq<Record>, i: nat, max: nat)
    requires i <= |recs|
    ensures var b, w := Window(recs, i, max), Fill(recs, i, max);
            if Torn(recs, i, max)
            then Count(b, 0) == w + 1 && Size(recs, i, w) < Consumed(b) == |b| < Size(recs, i, w + 1)
            else Count(b, 0) == w && Consumed(b) == Size(recs, i, w) <= |b|
  {
    CountFrom(recs, i, 0, Window(recs, i, max));
  }

  // ----------------------------------------------------------------- all refills of a pass

  /** Every record fits the buffer, which has more than the bytes of one header. */
  predicate Fits(recs: seq<Record>, max: nat) {
    max > HeaderSize && forall i :: 0 <= i < |recs| ==> HeaderSize + |recs[i]| <= max
  }

  /** A record without a body at the end of the file is never counted. */
  predicate EndsInBody(recs: seq<Record>) { recs != [] ==> recs[|recs| - 1] != [] }

  /** No refill from record i on tears a record. */
  predicate NoneTorn(recs: seq<Record>, i: nat, max: nat)
    requires i <= |recs|
    decreases |recs| - i
  {
    i < |recs| ==>
      && !Torn(recs, i, max)
      && (var n := Fill(recs, i, max); n > 0 ==> NoneTorn(recs, i + n, max))
  }

  /** The number of records that a refill at record i does count. */
  function Counted(recs: seq<Record>, i: nat, max: nat): nat
    requires i <= |recs|
  {
    Count(Window(recs, i, max), 0)
  }

  /** A refill at record i counts at least one record, only records that it read to their end, and
      leaves the file at the start of the next record. */
  predicate GoodRefill(recs: seq<Record>, i: nat, max: nat)
    requires i <= |recs|
  {
    var b, n := Window(recs, i, max), Counted(recs, i, max);
    0 < n && i + n <= |recs| && Size(recs, i, n) == Consumed(b) <= |b|
  }

  /** All refills from record i on are good. */
  predicate Sound(recs: seq<Record>, i: nat, max: nat)
    requires i <= |recs|
    decreases |recs| - i
  {
    i < |recs| ==> GoodRefill(recs, i, max) && Sound(recs, i + Counted(recs, i, max), max)
  }

  lemma RefillIsGood(recs: seq<Record>, i: nat, max: nat)
    requires i <= |recs|
    ensures GoodRefill(recs, i, max) <==> !Torn(recs, i, max) && Fill(recs, i, max) > 0
    ensures !Torn(recs, i, max) ==> Counted(recs, i, max) == Fill(recs, i, max)
  {
    RefillCounts(recs, i, max);
  }

  /** A refill that tears nothing counts what fills the cache, and stops behind it. */
  lemma CleanRefill(recs: seq<Record>, i: nat, max: nat, b: seq<byte>)
    requires i <= |recs| && NoneTorn(recs, i, max) && b == Window(recs, i, max)
    ensures Count(b, 0) == Fill(recs, i, max) && Consumed(b) == Size(recs, i, Fill(recs, i, max))
  {
    RefillCounts(recs, i, max);
  }

  lemma FillIsPositive(recs: seq<Record>, i: nat, max: nat)
    requires i < |recs| && Fits(recs, max) && EndsInBody(recs)
    ensures Fill(recs, i, max) > 0
  {
    SizeGrows(recs, i, 1, |recs| - i);
    assert Size(recs, i, 1) == HeaderSize + |recs[i]|;
  }

  lemma {:induction false} WholeIsStrict(recs: seq<Record>, i: nat, k: nat, n: nat)
    requires i + k <= |recs|
    ensures var w := Whole(recs, i, k, n); w > k ==> Size(recs, i, w - 1) + HeaderSize < n
    decreases |recs| - k
  {
    if i + k < |recs| && Size(recs, i, k) + HeaderSize < n && Size(recs, i, k + 1) <= n {
      WholeIsStrict(recs, i, k + 1, n);
    }
  }

  lemma LastFillNeedsBody(recs: seq<Record>, i: nat, max: nat)
    requires i < |recs| && Fill(recs, i, max) == |recs| - i
    ensures recs[|recs| - 1] != []
  {
    WholeIsStrict(recs, i, 0, Reach(recs, i, max));
    var n := |recs| - i;
    assert Size(recs, i, n) == Size(recs, i, n - 1) + HeaderSize + |recs[|recs| - 1]|;
  }

  /** Every refill from record i on finds a whole record, and tears none. */
  predicate Fills(recs: seq<Record>, i: nat, max: nat)
    requires i <= |recs|
    decreases |recs| - i
  {
    i < |recs| ==> !Torn(recs, i, max) && Fill(recs, i, max) > 0 && Fills(recs, i + Fill(recs, i, max), max)
  }

  /** A pass is sound from record i on if the refill there is good and the rest of it is. */
  lemma SoundStep(recs: seq<Record>, i: nat, max: nat, n: nat)
    requires i < |recs| && n == Counted(recs, i, max) && GoodRefill(recs, i, max) == true
    ensures i + n <= |recs| && Sound(recs, i, max) == Sound(recs, i + n, max)
  {
  }

  lemma BadStep(recs: seq<Record>, i: nat, max: nat)
    requires i < |recs| && !GoodRefill(recs, i, max)
    ensures !Sound(recs, i, max)
  {
  }

  lemma SoundGoesOn(recs: seq<Record>, i: nat, max: nat, n: nat)
    requires i < |recs| && n == Fill(recs, i, max)
    ensures Torn(recs, i, max) || n == 0 ==> !Sound(recs, i, max)
    ensures !Torn(recs, i, max) && n > 0 ==> Sound(recs, i, max) == Sound(recs, i + n, max)
  {
    RefillIsGood(recs, i, max);
    if GoodRefill(recs, i, max) == true { SoundStep(recs, i, max, n); } else { BadStep(recs, i, max); }
  }

  lemma FillsGoesOn(recs: seq<Record>, i: nat, max: nat, n: nat)
    requires i < |recs| && n == Fill(recs, i, max)
    ensures Torn(recs, i, max) || n == 0 ==> !Fills(recs, i, max)
    ensures !Torn(recs, i, max) && n > 0 ==> Fills(recs, i, max) == Fills(recs, i + n, max)
  {
  }

  lemma {:induction false} SoundIsFills(recs: seq<Record>, i: nat, max: nat)
    requires i <= |recs|
    ensures Sound(recs, i, max) == Fills(recs, i, max)
    decreases |recs| - i
  {
    if i < |recs| {
      var n := Fill(recs, i, max);
      SoundGoesOn(recs, i, max, n);
      FillsGoesOn(recs, i, max, n);
      if n > 0 { SoundIsFills(recs, i + n, max); }
    }
  }

  /** The last record is reached by some refill, and that refill counts nothing if the record has no
      body. */
  lemma {:induction false} FillsNeedsBody(recs: seq<Record>, i: nat, max: nat)
    requires i < |recs| && Fills(recs, i, max)
    ensures recs[|recs| - 1] != []
    decreases |recs| - i
  {
    var n := Fill(recs, i, max);
    if i + n < |recs| { FillsNeedsBody(recs, i + n, max); } else { LastFillNeedsBody(recs, i, max); }
  }

  lemma {:induction false} FillsTearsNothing(recs: seq<Record>, i: nat, max: nat)
    requires i <= |recs| && Fills(recs, i, max)
    ensures NoneTorn(recs, i, max)
    decreases |recs| - i
  {
    if i < |recs| { FillsTearsNothing(recs, i + Fill(recs, i, max), max); }
  }

  lemma {:induction false} NothingTornFills(recs: seq<Record>, i: nat, max: nat)
    requires i <= |recs| && Fits(recs, max) && EndsInBody(recs) && NoneTorn(recs, i, max)
    ensures Fills(recs, i, max)
    decreases |recs| - i
  {
    if i < |recs| {
      FillIsPositive(recs, i, max);
      NothingTornFills(recs, i + Fill(recs, i, max), max);
    }
  }

  /** For records that fit the buffer, a pass over the file is sound exactly when the last record has
      a body and no refill ends inside the last four bytes of a record. */
  lemma CacheSoundExactlyWhen(recs: seq<Record>, max: nat)
    requires Fits(recs, max)
    ensures Sound(recs, 0, max) <==> EndsInBody(recs) && NoneTorn(recs, 0, max)
  {
    SoundIsFills(recs, 0, max);
    if Fills(recs, 0, max) {
      FillsTearsNothing(recs, 0, max);
      if recs != [] { FillsNeedsBody(recs, 0, max); }
    } else if EndsInBody(recs) && NoneTorn(recs, 0, max) {
      NothingTornFills(recs, 0, max);
    }
  }

  /** A buffer that takes the whole file is always good. */
  lemma OneRefillIsSound(recs: seq<Record>, max: nat)
    requires Fits(recs, max) && EndsInBody(recs) && Size(recs, 0, |recs|) <= max
    ensures Sound(recs, 0, max)
  {
    AllWhole(recs, 0);
    if recs != [] {
      assert Fill(recs, 0, max) == |recs|;
      RefillIsGood(recs, 0, max);
    }
  }

  lemma {:induction false} AllWhole(recs: seq<Record>, k: nat)
    requires k <= |recs| && EndsInBody(recs)
    ensures Whole(recs, 0, k, Size(recs, 0, |recs|)) == |recs|
    decreases |recs| - k
  {
    if k < |recs| {
      SizeGrows(recs, 0, k + 1, |recs|);
      if k + 1 == |recs| { assert |recs[k]| > 0; }
      AllWhole(recs, k + 1);
    }
  }

  /** Two records of six bytes behind their headers in a buffer of 17 bytes: the second record lacks
      three bytes, is counted all the same, and the next refill would start inside it. */
  lemma TornRecordIsCounted()
    ensures var r: Record := [1, 2, 3, 4, 5, 6]; var recs := [r, r];
            var b := Window(recs, 0, 17);
            Fits(recs, 17) && !Sound(recs, 0, 17) && Count(b, 0) == 2 && Consumed(b) == 17 < Size(recs, 0, 2)
  {
    var r: Record := [1, 2, 3, 4, 5, 6];
    var recs := [r, r];
    assert Size(recs, 0, 1) == 10 && Size(recs, 0, 2) == 20;
    assert Whole(recs, 0, 1, 17) == 1;
    assert Whole(recs, 0, 0, 17) == 1;
    RefillCounts(recs, 0, 17);
  }

  // ----------------------------------------------------------------- the order of a shuffled cache

  function Ascending(n: nat): seq<nat> { seq(n, i => i) }

  /** These are the numbers from zero on. */
  predicate InOrder(which: seq<nat>) { which == Ascending(|which|) }

  lemma InOrderNext(which: seq<nat>, w: nat)
    requires InOrder(which) == true && w == |which|
    ensures InOrder(which + [w]) == true
  {
  }

  /** Every number below n once, in some order. */
  predicate IsOrder(order: seq<nat>, n: nat) {
    && |order| == n && (forall j :: 0 <= j < n ==> order[j] < n)
    && forall j, k :: 0 <= j < k < n ==> order[j] != order[k]
  }

  /** No number below n is missing. */
  lemma {:induction false} OrderIsFull(order: seq<nat>, n: nat, x: nat)
    requires IsOrder(order, n) && x < n
    ensures x in order
  {
    var found := set j: nat | 0 <= j < n :: order[j];
    CountFound(order, n);
    if x !in order {
      assert found <= Below(n) - {x};
      SubsetIsSmaller(found, Below(n) - {x});
    }
  }

  function Below(n: nat): (s: set<nat>)
    ensures |s| == n && forall x: nat :: x in s <==> x < n
  {
    if n == 0 then {} else Below(n - 1) + {n - 1}
  }

  lemma {:induction false} CountFound(order: seq<nat>, k: nat)
    requires k <= |order| && forall j, l :: 0 <= j < l < |order| ==> order[j] != order[l]
    ensures var s := set j: nat | 0 <= j < k :: order[j]; |s| == k
  {
    if k > 0 {
      CountFound(order, k - 1);
      assert (set j: nat | 0 <= j < k :: order[j]) == (set j: nat | 0 <= j < k - 1 :: order[j]) + {order[k - 1]};
    }
  }

  lemma {:induction false} SubsetIsSmaller(s: set<nat>, t: set<nat>)
    requires s <= t
    ensures |s| <= |t|
  {
    if s != {} {
      var x :| x in s;
      SubsetIsSmaller(s - {x}, t - {x});
    }
  }

  /** The records a pass has returned, none of them twice, in the end from the slots of a cache that
      starts at record i. */
  predicate Dealt(which: seq<nat>, i: nat, order: seq<nat>) {
    && i <= |which| <= i + |order|
    && (forall k :: 0 <= k < i ==> which[k] < i)
    && (forall k :: i <= k < |which| ==> which[k] == i + order[k - i])
    && forall j, k :: 0 <= j < k < |which| ==> which[j] != which[k]
  }

  /** The next record may come from the same cache or, as its first, from the one behind it. */
  lemma DealtNext(which: seq<nat>, i: nat, order: seq<nat>, i': nat, order': seq<nat>, w: nat)
    requires Dealt(which, i, order) == true && IsOrder(order, |order|) == true
    requires Follows(i, order, i', order', |which|, w) == true && IsOrder(order', |order'|) == true
    ensures Dealt(which + [w], i', order') == true
  {
  }

  /** Record w is the one for position k of a pass, in the slots of the same cache or, as its first, in
      those of the cache behind it. */
  predicate Follows(i: nat, order: seq<nat>, i': nat, order': seq<nat>, k: nat, w: nat) {
    && ((i' == i && order' == order) || (i' == k == i + |order|))
    && i' <= k < i' + |order'| && w == i' + order'[k - i']
  }

  /** The records with these indexes. */
  predicate AreRecords(recs: seq<Record>, which: seq<nat>, out: seq<seq<byte>>) {
    |out| == |which| && forall k :: 0 <= k < |which| ==> which[k] < |recs| && out[k] == recs[which[k]]
  }

  lemma PassIsOrder(recs: seq<Record>, which: seq<nat>, out: seq<seq<byte>>, i: nat, order: seq<nat>)
    requires AreRecords(recs, which, out) && Dealt(which, i, order) && |which| == |recs|
    ensures IsOrder(which, |recs|) && (which == Ascending(|recs|) ==> out == recs)
  {
  }

  // ----------------------------------------------------------------- the buffer and the file

  /** The slots of a table of contents are where the buffer holds the records they stand for. */
  ghost predicate SlotsHold(b: seq<byte>, recs: seq<Record>, i: nat, tocV: seq<nat>, order: seq<nat>) {
    && i + |tocV| <= |recs| && IsOrder(order, |tocV|)
    && forall j :: 0 <= j < |tocV| ==> RecordIn(b, tocV[j], recs[i + order[j]])
  }

  lemma SwapSlots(b: seq<byte>, recs: seq<Record>, i: nat, tocV: seq<nat>, order: seq<nat>, j: nat, k: nat)
    requires SlotsHold(b, recs, i, tocV, order) && j < |tocV| && k < |tocV|
    ensures SlotsHold(b, recs, i, tocV[j := tocV[k]][k := tocV[j]], order[j := order[k]][k := order[j]])
  {
  }

  /** A counted record lies whole in the buffer. */
  lemma RecordInWindow(recs: seq<Record>, i: nat, max: nat, b: seq<byte>, k: nat)
    requires i <= |recs| && k < Fill(recs, i, max) && Reach(recs, i, max) <= |b|
    requires b[..Reach(recs, i, max)] == Window(recs, i, max)
    ensures Size(recs, i, k + 1) == Size(recs, i, k) + HeaderSize + |recs[i + k]|
    ensures RecordIn(b, Size(recs, i, k), recs[i + k])
  {
    RecordAt(recs, i, k);
    SizeGrows(recs, i, k + 1, Fill(recs, i, max));
    RecordInPrefix(Encode(recs, i), Reach(recs, i, max), b, Size(recs, i, k), recs[i + k]);
  }

  /** Behind a refill that tears no record the pass goes on without tearing one. */
  /** The first record lies whole within the bytes, if more than its length does. */
  predicate HeadFits(b: seq<byte>) { |b| > HeaderSize ==> HeaderSize + GetU32(b, 0) <= |b| }

  /** What a refill finds that tears no record: n records are counted, and the pass goes on behind them. */
  lemma RefillCounted(recs: seq<Record>, i: nat, max: nat, b: seq<byte>, n: nat)
    requires i <= |recs| && Fits(recs, max) && NoneTorn(recs, i, max) && b == Window(recs, i, max)
    requires n == Fill(recs, i, max)
    ensures HeadFits(b) == true && Count(b, 0) == n && NoneTorn(recs, i + n, max) == true
    ensures Size(recs, 0, i) + Consumed(b) == Size(recs, 0, i + n)
  {
    FirstFits(recs, i, max);
    CleanRefill(recs, i, max, b);
    PassGoesOn(recs, i, max);
  }

  lemma PassGoesOn(recs: seq<Record>, i: nat, max: nat)
    requires i <= |recs| && NoneTorn(recs, i, max)
    ensures var n := Fill(recs, i, max);
            && i + n <= |recs| && NoneTorn(recs, i + n, max) == true
            && Size(recs, 0, i + n) == Size(recs, 0, i) + Size(recs, i, n)
  {
    SizeSplits(recs, 0, i, Fill(recs, i, max));
  }

  lemma FirstFits(recs: seq<Record>, i: nat, max: nat)
    requires i <= |recs| && Fits(recs, max)
    ensures var w := Window(recs, i, max); |w| > HeaderSize ==> HeaderSize + GetU32(w, 0) <= |w|
  {
    if i < |recs| {
      RecordAt(recs, i, 0);
      SizeGrows(recs, i, 1, |recs| - i);
      var w := Window(recs, i, max);
      assert |w| >= HeaderSize ==> GetU32(w, 0) == GetU32(Encode(recs, i), 0);
    }
  }

  /** A read of max bytes at position p gives w. */
  predicate IsRead(bytes: seq<byte>, p: nat, max: nat, w: seq<byte>) {
    p <= |bytes| && |w| == Min(max, |bytes| - p) && bytes[p..p + |w|] == w
  }

  /** The first max bytes of e, or all. */
  predicate IsFront(e: seq<byte>, max: nat, w: seq<byte>) { w == e[..Min(max, |e|)] }

  lemma WindowIsFront(recs: seq<Record>, i: nat, max: nat)
    requires i <= |recs|
    ensures IsFront(Encode(recs, i), max, Window(recs, i, max)) == true
  {
  }

  lemma FrontIsRead(bytes: seq<byte>, base: nat, file: seq<byte>, s: nat, e: seq<byte>, max: nat, w: seq<byte>)
    requires IsRest(bytes, base, file) == true && IsRest(file, s, e) == true && IsFront(e, max, w) == true
    ensures IsRead(bytes, base + s, max, w) == true
  {
    SliceInside(bytes, base, file, s, e, Min(max, |e|));
  }

  // ----------------------------------------------------------------- the file and the cache

  datatype RC = Ok | Eof | SeekFail

  /** A file open for reading. A read that comes short leaves an end-of-file mark, under which further
      reads deliver nothing until a seek succeeds. */
  class File {
    const bytes: seq<byte>
    var pos: nat
    var lastRC: RC

    ghost predicate Valid()
      reads this
    {
      pos <= |bytes| && (lastRC != Ok ==> pos == |bytes|)
    }

    constructor (content: seq<byte>, at: nat)
      requires at <= |content|
      ensures Valid() && bytes == content && pos == at
    {
      bytes, pos, lastRC := content, at, Ok;
    }

    method Read(buf: array<byte>, n: nat) returns (rc: RC, act: nat)
      requires Valid() && n <= buf.Length
      modifies this, buf
      ensures Valid() && pos == old(pos) + act && act == Min(n, |bytes| - old(pos))
      ensures buf[..act] == bytes[old(pos)..pos] && buf[act..] == old(buf[act..])
    {
      act := 0;
      if lastRC == Ok {
        act := Min(n, |bytes| - pos);
        forall i | 0 <= i < act { buf[i] := bytes[pos + i]; }
        pos := pos + act;
        if act < n { lastRC := Eof; }
      }
      rc := lastRC;
    }

    method Seek(at: nat)
      requires Valid() && at <= |bytes|
      modifies this
      ensures Valid() && pos == at
    {
      pos, lastRC := at, Ok;
    }
  }

  class Cache {
    const file: File
    const totalRecdN: nat
    const buf: array<byte>
    const baseFileOffs: nat
    const shuffleFl: bool
    var bufByteN: nat
    var tocV: seq<nat>
    var tocN: nat
    var tocBaseIdx: nat
    var tocIdx: nat
    var eofState: bool
    ghost const recs: seq<Record>     // the records in the file
    ghost var order: seq<nat>         // the record, counted from tocBaseIdx, of each slot in tocV[]

    /** The file holds the records, and no pass over it goes wrong. */
    ghost predicate Sane() {
      && totalRecdN == |recs| && baseFileOffs <= |file.bytes|
      && file.bytes[baseFileOffs..] == Encode(recs, 0)
      && Fits(recs, buf.Length) && EndsInBody(recs) && NoneTorn(recs, 0, buf.Length)
    }

    ghost predicate Good()
      reads file
    {
      file.Valid() && Sane() == true
    }

    /** The file position is at record i, from which on no refill tears a record. */
    ghost predicate At(i: nat)
      reads file
    {
      i <= |recs| && file.pos == baseFileOffs + Size(recs, 0, i) && NoneTorn(recs, i, buf.Length)
    }

    /** The buffer holds what was read at record i. */
    ghost predicate Loaded(i: nat)
      reads buf
    {
      && i <= |recs|
      && var w := Window(recs, i, buf.Length); buf[..|w|] == w
    }

    /** The table of contents lists where the buffer holds the records from i on. */
    ghost predicate Lists(i: nat)
      reads this`tocN, this`tocV, this`order, buf
    {
      && tocN == |tocV| && (i < |recs| ==> tocN > 0) && (!shuffleFl ==> order == Ascending(tocN))
      && SlotsHold(buf[..], recs, i, tocV, order)
    }

    ghost predicate Cached()
      reads this`tocBaseIdx, this`tocN, this`tocV, this`order, file, buf
    {
      Good() && Lists(tocBaseIdx) && At(tocBaseIdx + tocN)
    }

    /** The cache is as its records say, and the next record to return is in it or just behind it. */
    ghost predicate Valid()
      reads this`tocIdx, this`tocBaseIdx, this`tocN, this`tocV, this`order, file, buf
    {
      Cached() && tocBaseIdx <= tocIdx <= tocBaseIdx + tocN
    }

    /** Opens the cache on a file whose records no pass tears. */
    constructor (f: File, max: nat, base: nat, total: nat, shuffle: bool, ghost records: seq<Record>)
      requires f.Valid() && total == |records| && base <= |f.bytes| && f.bytes[base..] == Encode(records, 0)
      requires Fits(records, max) && EndsInBody(records) && NoneTorn(records, 0, max)
      modifies f
      ensures Valid() && fresh(buf) && file == f && recs == records && shuffleFl == shuffle
      ensures buf.Length == max && tocBaseIdx == tocIdx == 0
    {
      file, totalRecdN, baseFileOffs, shuffleFl, recs := f, total, base, shuffle, records;
      buf := new byte[max];
      bufByteN, tocV, tocN, tocBaseIdx, tocIdx, eofState := 0, [], 0, 0, 0, false;
      new;
      Rewind();
    }

    /** Counts the records in the act bytes just read and moves the file position back to where the
        count ends. */
    method CountAndAlign(act: nat, ghost b: seq<byte>)
      requires file.Valid() && act <= buf.Length && act <= file.pos && b == buf[..act] && HeadFits(b) == true
      modifies this`tocN, this`bufByteN, file
      ensures file.Valid() && file.pos == old(file.pos) - act + Consumed(b)
      ensures tocN == Count(b, 0) && bufByteN == Ends(b, 0)
    {
      tocN, bufByteN := 0, 0;
      while bufByteN < act
        invariant file.Valid() && file.pos == old(file.pos)
        invariant tocN + Count(b, bufByteN) == Count(b, 0) && Ends(b, bufByteN) == Ends(b, 0)
        invariant tocN == 0 ==> bufByteN == 0
        decreases act - bufByteN
      {
        if bufByteN + HeaderSize >= act {
          Backup(act, bufByteN);
          break;
        }
        var recdByteN := GetU32(buf[..act], bufByteN);
        assert tocN == 0 ==> act >= HeaderSize + recdByteN;
        if bufByteN + recdByteN > act {
          Backup(act, bufByteN);
          break;
        }
        bufByteN, tocN := bufByteN + HeaderSize + recdByteN, tocN + 1;
      }
    }

    method Backup(act: nat, cacheByteN: nat)
      requires file.Valid() && cacheByteN <= act <= file.pos
      modifies file
      ensures file.Valid() && file.pos == old(file.pos) - act + cacheByteN
    {
      file.Seek(file.pos - (act - cacheByteN));
    }

    /** Lists the offsets of the counted records. */
    method FillToc(ghost i: nat)
      requires Loaded(i) && tocN == Fill(recs, i, buf.Length)
      modifies this`tocV, this`order
      ensures |tocV| == tocN && order == Ascending(tocN)
      ensures forall j :: 0 <= j < tocN ==> RecordIn(buf[..], tocV[j], recs[i + j])
    {
      var cacheByteOffs := 0;
      tocV := [];
      while |tocV| < tocN
        invariant |tocV| <= tocN && cacheByteOffs == Size(recs, i, |tocV|)
        invariant forall j :: 0 <= j < |tocV| ==> RecordIn(buf[..], tocV[j], recs[i + j])
        decreases tocN - |tocV|
      {
        RecordInWindow(recs, i, buf.Length, buf[..], |tocV|);
        var recdByteN := GetU32(buf[..], cacheByteOffs);
        tocV, cacheByteOffs := tocV + [cacheByteOffs], cacheByteOffs + HeaderSize + recdByteN;
      }
      order := Ascending(tocN);
    }

    /** Exchanges every slot with one drawn at random. */
    method ShuffleToc(ghost i: nat)
      requires shuffleFl && Lists(i)
      modifies this`tocV, this`order
      ensures Lists(i) == true
    {
      for k := 0 to tocN
        invariant Lists(i) == true
      {
        var idx: nat :| idx < tocN;
        SwapSlots(buf[..], recs, i, tocV, order, k, idx);
        tocV := tocV[k := tocV[idx]][idx := tocV[k]];
        order := order[k := order[idx]][idx := order[k]];
      }
    }

    /** Refills the cache from the file, which stands at record i. */
    method Refill(ghost i: nat)
      requires Good() && At(i)
      modifies this`bufByteN, this`tocV, this`tocN, this`order, this`eofState, file, buf
      ensures Good() && Lists(i) && At(i + tocN)
    {
      var act := Load(i);
      CountRecords(i, act);
      ListRecords(i);
    }

    method CountRecords(ghost i: nat, act: nat)
      requires Good() && Loaded(i) == true && act == Reach(recs, i, buf.Length) && NoneTorn(recs, i, buf.Length)
      requires file.pos == baseFileOffs + Size(recs, 0, i) + act
      modifies this`bufByteN, this`tocN, file
      ensures Good() && Loaded(i) == true && tocN == Fill(recs, i, buf.Length) && At(i + tocN) == true
    {
      ghost var b, n := Window(recs, i, buf.Length), Fill(recs, i, buf.Length);
      RefillCounted(recs, i, buf.Length, b, n);
      CountAndAlign(act, b);
    }

    method ListRecords(ghost i: nat)
      requires Loaded(i) && tocN == Fill(recs, i, buf.Length) && Fits(recs, buf.Length) && EndsInBody(recs)
      modifies this`tocV, this`order
      ensures Lists(i) == true
    {
      if i < |recs| { FillIsPositive(recs, i, buf.Length); }
      FillToc(i);
      if shuffleFl { ShuffleToc(i); }
    }

    /** Reads as much of the file as fits the buffer. */
    method Load(ghost i: nat) returns (act: nat)
      requires Good() && At(i)
      modifies this`eofState, file, buf
      ensures Good() && Loaded(i) == true && file.pos == old(file.pos) + act && act == Reach(recs, i, buf.Length)
    {
      EncodeDrop(recs, 0, i);
      WindowIsFront(recs, i, buf.Length);
      ghost var b, w := file.bytes, Window(recs, i, buf.Length);
      FrontIsRead(b, baseFileOffs, Encode(recs, 0), Size(recs, 0, i), Encode(recs, i), buf.Length, w);
      act := LoadWindow(w);
    }

    method LoadWindow(ghost w: seq<byte>) returns (act: nat)
      requires file.Valid() && IsRead(file.bytes, file.pos, buf.Length, w) == true
      modifies this`eofState, file, buf
      ensures file.Valid() && act == |w| <= buf.Length && buf[..|w|] == w && file.pos == old(file.pos) + act
    {
      var rc;
      rc, act := file.Read(buf, buf.Length);
      if rc == Eof { eofState := true; }
    }

    method Rewind()
      requires Good()
      modifies this, file, buf
      ensures Valid() && tocBaseIdx == tocIdx == 0
    {
      file.Seek(baseFileOffs);
      Refill(0);
      tocBaseIdx, tocIdx := 0, 0;
    }

    method Advance()
      requires Cached() && tocBaseIdx + tocN < totalRecdN
      modifies this, file, buf
      ensures Cached() && tocN > 0 && tocBaseIdx == old(tocBaseIdx + tocN) && tocIdx == old(tocIdx)
    {
      var n := tocN;
      Refill(tocBaseIdx + n);
      tocBaseIdx := tocBaseIdx + n;
    }

    /** Hands out the next record, as its offset and length in the buffer; which is its index. Without
        shuffling that is tocIdx. */
    method Read() returns (rc: RC, recdOffs: nat, recdByteN: nat, ghost which: nat)
      requires Valid()
      modifies this, file, buf
      ensures Valid() == true && (rc == Ok || rc == Eof) && (rc == Eof <==> old(tocIdx) == totalRecdN)
      ensures rc == Eof ==> tocIdx == old(tocIdx) && tocBaseIdx == old(tocBaseIdx) && order == old(order)
      ensures rc == Ok ==> tocIdx == old(tocIdx) + 1 <= totalRecdN && recdOffs + recdByteN <= buf.Length
      ensures rc == Ok ==> which < |recs| && buf[recdOffs..recdOffs + recdByteN] == recs[which]
      ensures rc == Ok ==> Follows(old(tocBaseIdx), old(order), tocBaseIdx, order, old(tocIdx), which) == true
      ensures rc == Ok && !shuffleFl ==> which == old(tocIdx)
      ensures rc == Ok ==> OrderFits() == true
    {
      rc, recdOffs, recdByteN, which := Ok, 0, 0, 0;
      if tocIdx == totalRecdN {
        rc, eofState := Eof, true;
      } else {
        recdOffs, recdByteN, which := ReadRecord();
      }
    }

    method ReadRecord() returns (recdOffs: nat, recdByteN: nat, ghost which: nat)
      requires Valid() && tocIdx < totalRecdN
      modifies this, file, buf
      ensures Valid() == true && tocIdx == old(tocIdx) + 1 <= totalRecdN
      ensures recdOffs + recdByteN <= buf.Length && which < |recs|
      ensures buf[recdOffs..recdOffs + recdByteN] == recs[which]
      ensures Follows(old(tocBaseIdx), old(order), tocBaseIdx, order, old(tocIdx), which) == true
      ensures !shuffleFl ==> which == old(tocIdx)
      ensures OrderFits() == true
    {
      AdvanceIfNeeded();
      recdOffs, recdByteN, which := ReadNext();
    }

    /** Record which is the one in the slot for position k of a pass. */
    ghost predicate IsNext(k: nat, which: nat)
      reads this`tocBaseIdx, this`order
    {
      tocBaseIdx <= k < tocBaseIdx + |order| && which == tocBaseIdx + order[k - tocBaseIdx]
    }

    method ReadNext() returns (recdOffs: nat, recdByteN: nat, ghost which: nat)
      requires Valid() && tocIdx < tocBaseIdx + tocN
      modifies this`tocIdx
      ensures Valid() == true && tocIdx == old(tocIdx) + 1 <= totalRecdN
      ensures recdOffs + recdByteN <= buf.Length && which < |recs|
      ensures buf[recdOffs..recdOffs + recdByteN] == recs[which]
      ensures IsNext(old(tocIdx), which) == true && (!shuffleFl ==> which == old(tocIdx))
      ensures OrderFits() == true
    {
      recdOffs, recdByteN := ReadSlot(tocIdx - tocBaseIdx);
      ghost var k := tocIdx - tocBaseIdx;
      which := tocBaseIdx + order[k];
      tocIdx := tocIdx + 1;
    }

    method AdvanceIfNeeded()
      requires Valid() && tocIdx < totalRecdN
      modifies this, file, buf
      ensures Valid() && tocIdx == old(tocIdx) < tocBaseIdx + tocN
      ensures (tocBaseIdx == old(tocBaseIdx) && order == old(order))
              || tocBaseIdx == old(tocIdx) == old(tocBaseIdx + |order|)
    {
      if tocIdx == tocBaseIdx + tocN { Advance(); }
    }

    /** Where the record of a slot stands in the buffer. */
    method ReadSlot(k: nat) returns (recdOffs: nat, recdByteN: nat)
      requires Lists(tocBaseIdx) && k < tocN
      ensures recdOffs + recdByteN <= buf.Length
      ensures buf[recdOffs..recdOffs + recdByteN] == recs[tocBaseIdx + order[k]]
    {
      assert RecordIn(buf[..], tocV[k], recs[tocBaseIdx + order[k]]);
      recdByteN := GetU32(buf[..], tocV[k]);
      recdOffs := HeaderSize + tocV[k];
    }

    /** Makes the record with the given index the next one to return. */
    method Seek(recordIdx: nat) returns (rc: RC)
      requires Valid()
      modifies this, file, buf
      ensures Valid() && (rc == Ok || rc == SeekFail) && (rc == Ok <==> recordIdx < totalRecdN)
      ensures tocIdx == if rc == Ok then recordIdx else old(tocIdx)
    {
      if recordIdx >= totalRecdN { return SeekFail; }
      if !(tocBaseIdx <= recordIdx < tocBaseIdx + tocN) {
        if recordIdx < tocBaseIdx { Rewind(); }
        while recordIdx >= tocBaseIdx + tocN
          invariant Cached() && tocBaseIdx <= recordIdx
          decreases totalRecdN - tocBaseIdx - tocN
        {
          Advance();
        }
      }
      tocIdx := recordIdx;
      rc := Ok;
    }

    ghost predicate OrderFits()
      reads this`order
    {
      IsOrder(order, |order|)
    }

    /** A pass has dealt out these records so far. */
    ghost predicate Dealing(which: seq<nat>)
      reads this`tocIdx, this`tocBaseIdx, this`tocN, this`tocV, this`order, file, buf
    {
      (Valid() && |which| == tocIdx <= totalRecdN && Dealt(which, tocBaseIdx, order) && OrderFits()) == true
    }

    lemma DealsNothing()
      requires Valid() == true && tocIdx == tocBaseIdx == 0
      ensures Dealing([])
    {
    }

    lemma DealtAll(which: seq<nat>)
      requires Dealing(which) && tocIdx >= totalRecdN
      ensures |which| == |recs| && IsOrder(which, |recs|) == true
    {
    }

    method ReadOn(ghost which: seq<nat>) returns (record: seq<byte>, ghost w: nat)
      requires Dealing(which) && tocIdx < totalRecdN
      modifies this, file, buf
      ensures Dealing(which + [w]) && tocIdx == old(tocIdx) + 1
      ensures w < |recs| && record == recs[w] && (!shuffleFl ==> w == |which|)
    {
      ghost var i, o := tocBaseIdx, order;
      record, w := ReadBytes();
      DealtNext(which, i, o, tocBaseIdx, order, w);
    }

    method ReadBytes() returns (record: seq<byte>, ghost w: nat)
      requires Valid() && tocIdx < totalRecdN
      modifies this, file, buf
      ensures Valid() == true && tocIdx == old(tocIdx) + 1 <= totalRecdN && OrderFits() == true
      ensures w < |recs| && record == recs[w] && (!shuffleFl ==> w == old(tocIdx))
      ensures Follows(old(tocBaseIdx), old(order), tocBaseIdx, order, old(tocIdx), w) == true
    {
      var rc, at, n, which := Read();
      record, w := buf[at..at + n], which;
    }

    /** One pass over a cache that was just opened or rewound returns every record once. */
    method ReadAll() returns (out: seq<seq<byte>>, ghost which: seq<nat>)
      requires Valid() && tocIdx == tocBaseIdx == 0
      modifies this, file, buf
      ensures IsOrder(which, |recs|) && AreRecords(recs, which, out)
      ensures !shuffleFl ==> out == recs
    {
      out, which := [], [];
      while tocIdx < totalRecdN
        invariant Dealing(which)
        invariant AreRecords(recs, which, out) == true && (!shuffleFl ==> InOrder(which) == true)
        decreases totalRecdN - tocIdx
      {
        var record, w := ReadOn(which);
        if !shuffleFl { InOrderNext(which, w); }
        out, which := out + [record], which + [w];
      }
      PassIsOrder(recs, which, out, tocBaseIdx, order);
    }
  }
}
