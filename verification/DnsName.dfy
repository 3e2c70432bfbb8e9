/** The names in DNS messages, apps/fdr/cwMdns.cpp, after sections 3.1 and 4.1.4 of RFC 1035: labels
    behind their lengths, then a zero, or a pointer to the labels of another name in the message. */
module DnsName {
  import opened Bytes

  type Label = seq<byte>

  const Dot: byte := 46
  const PointerMark: byte := 0xc0
  const MaxLabel := 63

  // ----------------------------------------------------------------- names in a message

  /** The bytes that the first k labels take, each with its length. */
  function Size(ls: seq<Label>, k: nat): nat
    requires k <= |ls|
  {
    if k == 0 then 0 else Size(ls, k - 1) + |ls[k - 1]| + 1
  }

  /** The text of the first k labels, with dots between them. */
  function Join(ls: seq<Label>, k: nat): seq<byte>
    requires k <= |ls|
  {
    if k == 0 then []
    else if k == 1 then ls[0]
    else Join(ls, k - 1) + [Dot] + ls[k - 1]
  }

  function Text(ls: seq<Label>): seq<byte> { Join(ls, |ls|) }

  /** A label stands in the message: not empty, of at most 63 bytes, and none of them zero. */
  ghost predicate IsLabel(msg: seq<byte>, at: nat, l: Label) {
    && 0 < |l| <= MaxLabel && 0 !in l
    && at + 1 + |l| <= |msg| && msg[at] == |l| && msg[at + 1..at + 1 + |l|] == l
  }

  /** The first n of these labels stand in the message one behind the other. */
  ghost predicate LabelsAt(msg: seq<byte>, at: nat, ls: seq<Label>, n: nat)
    requires n <= |ls|
  {
    n > 0 ==> LabelsAt(msg, at, ls, n - 1) && IsLabel(msg, at + Size(ls, n - 1), ls[n - 1])
  }

  lemma {:induction false} LabelAt(msg: seq<byte>, at: nat, ls: seq<Label>, n: nat, k: nat)
    requires k < n <= |ls| && LabelsAt(msg, at, ls, n)
    ensures IsLabel(msg, at + Size(ls, k), ls[k]) == true
  {
    if k < n - 1 { LabelAt(msg, at, ls, n - 1, k); }
  }

  /** What stands behind the labels of a name. */
  datatype Tail = Root | Pointer(rest: seq<Label>)

  /** Where a pointer leads: the number in it without its two mark bits. */
  function Offset(hi: byte, lo: byte): nat
    requires hi >= PointerMark
  {
    (hi as int - 0xc0) * 256 + lo as int
  }

  /** The labels up to a zero or a pointer. */
  ghost predicate PlainAt(msg: seq<byte>, at: nat, ls: seq<Label>) {
    var e := at + Size(ls, |ls|);
    LabelsAt(msg, at, ls, |ls|) && e < |msg| && (msg[e] == 0 || msg[e] >= PointerMark)
  }

  /** A name in a message: labels, and then either a zero or a pointer to further labels. */
  ghost predicate NameAt(msg: seq<byte>, at: nat, ls: seq<Label>, tail: Tail) {
    var e := at + Size(ls, |ls|);
    && LabelsAt(msg, at, ls, |ls|)
    && match tail
       case Root => e < |msg| && msg[e] == 0
       case Pointer(rest) =>
         e + 1 < |msg| && msg[e] >= PointerMark && PlainAt(msg, Offset(msg[e], msg[e + 1]), rest)
  }

  function AllLabels(ls: seq<Label>, tail: Tail): seq<Label> { if tail.Root? then ls else ls + tail.rest }

  /** The bytes of the name itself. */
  function NameSize(ls: seq<Label>, tail: Tail): nat { Size(ls, |ls|) + if tail.Root? then 1 else 2 }

  /** The text is as long as the labels with their lengths, less one. */
  lemma {:induction false} JoinLength(ls: seq<Label>, k: nat)
    requires k <= |ls|
    ensures |Join(ls, k)| == if k == 0 then 0 else Size(ls, k) - 1
  {
    if k > 1 { JoinLength(ls, k - 1); }
  }

  lemma {:induction false} SizeOfPrefix(ls: seq<Label>, rest: seq<Label>, k: nat)
    requires k <= |ls|
    ensures Size(ls + rest, k) == Size(ls, k) && Join(ls + rest, k) == Join(ls, k)
  {
    if k > 0 { SizeOfPrefix(ls, rest, k - 1); }
  }

  lemma {:induction false} SizeOfSum(ls: seq<Label>, rest: seq<Label>, k: nat)
    requires k <= |rest|
    ensures Size(ls + rest, |ls| + k) == Size(ls, |ls|) + Size(rest, k)
  {
    if k == 0 {
      SizeOfPrefix(ls, rest, |ls|);
    } else {
      SizeOfSum(ls, rest, k - 1);
      assert (ls + rest)[|ls| + k - 1] == rest[k - 1];
    }
  }

  lemma {:induction false} SizeGrows(ls: seq<Label>, j: nat, k: nat)
    requires j <= k <= |ls|
    ensures Size(ls, j) + (k - j) <= Size(ls, k)
  {
    if j < k { SizeGrows(ls, j, k - 1); }
  }

  // ----------------------------------------------------------------- writing a name

  predicate IsEnd(name: seq<byte>, i: nat) { i >= |name| || name[i] == Dot }

  /** Where the label that starts at s ends. */
  function LabelEnd(name: seq<byte>, s: nat): (e: nat)
    requires s <= |name|
    ensures s <= e <= |name| && IsEnd(name, e) && forall i :: s <= i < e ==> name[i] != Dot
    decreases |name| - s
  {
    if IsEnd(name, s) then s else LabelEnd(name, s + 1)
  }

  /** A label starts at s, or ends there without a character. */
  predicate IsStart(name: seq<byte>, s: nat) { s <= |name| && (s == 0 || name[s - 1] == Dot) }

  /** The labels that start before position j are written with their lengths, each kept in one byte; and
      the characters before position i. The place of a dot takes the length of the label behind it. */
  ghost predicate Partly(b: seq<byte>, name: seq<byte>, j: nat, i: nat) {
    && i <= |name| < |b|
    && (forall s :: 0 <= s < j && IsStart(name, s) ==> b[s] == (LabelEnd(name, s) - s) % 256)
    && (forall k :: 0 < k <= i && name[k - 1] != Dot ==> b[k] == name[k - 1])
  }

  /** What is written for a name: its labels and a zero. */
  ghost predicate IsEncoding(b: seq<byte>, name: seq<byte>) {
    |b| == |name| + 2 && b[|name| + 1] == 0 && Partly(b, name, |name| + 1, |name|)
  }

  /** A name that starts with the pointer mark is a pointer already. */
  ghost predicate IsWritten(b: seq<byte>, name: seq<byte>) {
    if |name| >= 2 && name[0] == PointerMark then b == name[..2] else IsEncoding(b, name)
  }

  lemma {:induction false} LabelEndIs(name: seq<byte>, s: nat, e: nat)
    requires s <= e <= |name| && IsEnd(name, e) && forall i :: s <= i < e ==> name[i] != Dot
    ensures LabelEnd(name, s) == e
    decreases |name| - s
  {
    if s < e { LabelEndIs(name, s + 1, e); }
  }

  /** Writes a name, without its zero at the end, into a buffer, and says where it ends there. */
  method FormatName(b: array<byte>, name: seq<byte>) returns (end: nat)
    requires b.Length >= |name| + 2 && (|name| > 0 && name[0] == PointerMark ==> |name| >= 2)
    modifies b
    ensures end <= b.Length && IsWritten(b[..end], name)
    ensures forall k :: end <= k < b.Length ==> b[k] == old(b[k])
  {
    if |name| > 0 && name[0] == PointerMark {
      b[0], b[1] := name[0], name[1];
      assert b[..2] == name[..2];
      return 2;
    }
    FormatLabels(b, name);
    b[|name| + 1] := 0;
    end := |name| + 2;
  }

  method FormatLabels(b: array<byte>, name: seq<byte>)
    requires b.Length >= |name| + 2
    modifies b
    ensures Partly(b[..], name, |name| + 1, |name|)
    ensures forall k :: |name| + 1 <= k < b.Length ==> b[k] == old(b[k])
  {
    var n: nat, j: nat := 0, 0;
    for i := 0 to |name|
      invariant n == i - j && InLabel(name, j, i) && Partly(b[..], name, j, i) == true
      invariant forall k :: |name| + 1 <= k < b.Length ==> b[k] == old(b[k])
    {
      ghost var was: seq<byte> := b[..];
      if name[i] == Dot {
        EndLabel(was, name, j, i);
        b[j] := n % 256;
        assert b[..] == was[j := n % 256];
        j, n := i + 1, 0;
      } else {
        n := n + 1;
        b[j + n] := name[i];
        assert b[..] == was[i + 1 := name[i]];
        AddCharacter(was, name, j, i);
      }
    }
    EndLabel(b[..], name, j, |name|);
    b[j] := n % 256;
  }

  /** Position i is in the label that starts at j, or at its end. */
  ghost predicate InLabel(name: seq<byte>, j: nat, i: nat) {
    (j <= i <= |name| && IsStart(name, j) && forall k :: j <= k < i ==> name[k] != Dot) == true
  }

  lemma EndLabel(b: seq<byte>, name: seq<byte>, j: nat, i: nat)
    requires InLabel(name, j, i) && IsEnd(name, i) && Partly(b, name, j, i) == true
    ensures var c := b[j := (i - j) % 256]; i < |name| ==> Partly(c, name, i + 1, i + 1) == true
    ensures var c := b[j := (i - j) % 256]; i == |name| ==> Partly(c, name, i + 1, i) == true
    ensures i < |name| ==> InLabel(name, i + 1, i + 1)
  {
    LabelEndIs(name, j, i);
  }

  lemma AddCharacter(b: seq<byte>, name: seq<byte>, j: nat, i: nat)
    requires InLabel(name, j, i) && i < |name| && name[i] != Dot && Partly(b, name, j, i) == true
    ensures Partly(b[i + 1 := name[i]], name, j, i + 1) == true && InLabel(name, j, i + 1)
  {
  }

  // ----------------------------------------------------------------- sizes

  /** The labels that a pointer leads to, in characters of text, with or without a first dot. */
  method CalcPtrStringByteCount(msg: seq<byte>, at: nat, dotFl: bool, ghost ls: seq<Label>) returns (n: nat)
    requires PlainAt(msg, at, ls) == true
    ensures n == if dotFl || ls == [] then Size(ls, |ls|) else Size(ls, |ls|) - 1
  {
    var i: nat, dot: bool := at, dotFl;
    n := 0;
    ghost var k: nat := 0;
    while msg[i] != 0 && msg[i] < PointerMark
      invariant k <= |ls| && i == at + Size(ls, k) < |msg| && dot == (dotFl || k > 0)
      invariant n == if dotFl || k == 0 then Size(ls, k) else Size(ls, k) - 1
      decreases |ls| - k
    {
      LabelStep(msg, at, ls, k);
      var len: int := msg[i];
      n := n + len + if dot then 1 else 0;
      i := i + len + 1;
      dot, k := true, k + 1;
    }
    LabelStep(msg, at, ls, k);
  }

  /** Behind k labels there is the length of the next one, or the end. */
  lemma LabelStep(msg: seq<byte>, at: nat, ls: seq<Label>, k: nat)
    requires PlainAt(msg, at, ls) == true && k <= |ls|
    ensures var i := at + Size(ls, k);
            && i < |msg|
            && if k == |ls| then msg[i] == 0 || msg[i] >= PointerMark
               else 0 < msg[i] == |ls[k]| < PointerMark && Size(ls, k + 1) == Size(ls, k) + msg[i] + 1
                    && at + Size(ls, k + 1) < |msg|
  {
    if k < |ls| {
      LabelAt(msg, at, ls, |ls|, k);
      SizeGrows(ls, k + 1, |ls|);
    }
  }

  lemma NameIsPlain(msg: seq<byte>, at: nat, ls: seq<Label>, tail: Tail)
    requires NameAt(msg, at, ls, tail)
    ensures PlainAt(msg, at, ls) == true
  {
  }

  /** A name of some labels has as many bytes as some of its first labels. */
  ghost predicate IsCut(ls: seq<Label>, max: nat) { exists k :: 0 <= k <= |ls| && Size(ls, k) == max }

  datatype Counted = Counted(srcN: nat, strN: nat) | Malformed

  /** Counts the bytes of a name in a message, and those of its text with a zero behind it. A limit of
      zero is none. Where the limit cuts the name off, this is an error, but not if it does so right
      behind a label. */
  method CalcNameByteCount(msg: seq<byte>, at: nat, max: nat, ghost ls: seq<Label>, ghost tail: Tail)
    returns (c: Counted)
    requires NameAt(msg, at, ls, tail)
    ensures max == 0 || max >= NameSize(ls, tail) ==> c == Counted(NameSize(ls, tail), |Text(AllLabels(ls, tail))| + 1)
    ensures 0 < max < NameSize(ls, tail) ==>
              if IsCut(ls, max) then c.Counted? && c.srcN == max else c == Malformed
  {
    NameIsPlain(msg, at, ls, tail);
    var i, strByteN, ended;
    ghost var k;
    i, strByteN, ended, k := CountBytes(msg, at, max, ls, tail);
    if !ended { SizeGrows(ls, k, |ls|); }
    if max != 0 && i > max {
      NotCut(ls, tail, max, if ended then |ls| else k - 1);
      return Malformed;
    }
    c := Counted(i, strByteN);
  }

  /** The counts behind k labels, or behind the whole name. */
  ghost predicate CountedTo(ls: seq<Label>, tail: Tail, k: nat, ended: bool, i: nat, strByteN: nat) {
    && k <= |ls|
    && if ended then i == NameSize(ls, tail) && strByteN == |Text(AllLabels(ls, tail))| + 1
       else i == Size(ls, k) && strByteN == if k == 0 then 0 else i - 1
  }

  /** The last step began below the limit. */
  ghost predicate Below(ls: seq<Label>, k: nat, ended: bool, max: nat)
    requires k <= |ls|
  {
    max > 0 ==> if ended then Size(ls, |ls|) < max else k == 0 || Size(ls, k - 1) < max
  }

  method CountBytes(msg: seq<byte>, at: nat, max: nat, ghost ls: seq<Label>, ghost tail: Tail)
    returns (i: nat, strByteN: nat, ended: bool, ghost k: nat)
    requires NameAt(msg, at, ls, tail) == true && PlainAt(msg, at, ls) == true
    ensures CountedTo(ls, tail, k, ended, i, strByteN) && Below(ls, k, ended, max)
    ensures ended || (max > 0 && i >= max)
  {
    i, strByteN, ended, k := 0, 0, false, 0;
    while !ended && (max == 0 || i < max)
      invariant CountedTo(ls, tail, k, ended, i, strByteN) == true && Below(ls, k, ended, max) == true
      decreases !ended, |ls| - k
    {
      LabelStep(msg, at, ls, k);
      if msg[at + i] >= PointerMark {
        TextLength(ls, tail);
        var n := CalcPtrStringByteCount(msg, Offset(msg[at + i], msg[at + i + 1]), i != 0, tail.rest);
        strByteN, i, ended := strByteN + n + 1, i + 2, true;
      } else if msg[at + i] == 0 {
        TextLength(ls, tail);
        i, strByteN, ended := i + 1, strByteN + 1, true;
      } else {
        var len: int := msg[at + i];
        strByteN := strByteN + len + if i == 0 then 0 else 1;
        i, k := i + len + 1, k + 1;
      }
    }
  }

  lemma TextLength(ls: seq<Label>, tail: Tail)
    ensures var n := Size(ls, |ls|) + (if tail.Root? then 0 else Size(tail.rest, |tail.rest|));
            |Text(AllLabels(ls, tail))| == if n == 0 then 0 else n - 1
  {
    var all := AllLabels(ls, tail);
    JoinLength(all, |all|);
    SizeGrows(all, 0, |all|);
    if tail.Pointer? { SizeOfSum(ls, tail.rest, |tail.rest|); }
  }

  /** A limit between the sizes of k and of k + 1 labels, or inside the tail, cuts no name. */
  lemma NotCut(ls: seq<Label>, tail: Tail, max: nat, k: nat)
    requires k <= |ls| && Size(ls, k) < max && (k < |ls| ==> max < Size(ls, k + 1))
    ensures !IsCut(ls, max)
  {
    forall j | 0 <= j <= |ls| ensures Size(ls, j) != max {
      if j <= k { SizeGrows(ls, j, k); } else { SizeGrows(ls, k + 1, j); }
    }
  }

  // ----------------------------------------------------------------- reading a name

  /** Copies a label behind the text so far, with a dot before it if there is one to set. */
  method CopyOutSegment(msg: seq<byte>, at: nat, buf: array<byte>, pos: nat, dotFl: bool, ghost l: Label)
    returns (n: nat)
    requires IsLabel(msg, at, l) && pos + (if dotFl then 1 else 0) + |l| <= buf.Length
    modifies buf
    ensures n == (if dotFl then 1 else 0) + |l|
    ensures buf[..pos + n] == old(buf[..pos]) + (if dotFl then [Dot] else []) + l
    ensures forall j :: pos + n <= j < buf.Length ==> buf[j] == old(buf[j])
  {
    var i := 0;
    if dotFl {
      buf[pos] := Dot;
      i := 1;
    }
    var start := pos + i;
    for k := 0 to msg[at]
      invariant forall j :: 0 <= j < k ==> buf[start + j] == l[j]
      invariant forall j :: 0 <= j < pos ==> buf[j] == old(buf[j])
      invariant dotFl ==> buf[pos] == Dot
      invariant forall j :: start + k <= j < buf.Length ==> buf[j] == old(buf[j])
    {
      assert msg[at + 1 + k] == msg[at + 1..at + 1 + |l|][k];
      buf[start + k] := msg[at + 1 + k];
    }
    n := i + msg[at];
    SegmentStands(old(buf[..]), buf[..], pos, dotFl, l);
    assert old(buf[..])[..pos] == old(buf[..pos]) && buf[..][..pos + n] == buf[..pos + n];
  }

  lemma SegmentStands(was: seq<byte>, now: seq<byte>, pos: nat, dotFl: bool, l: Label)
    requires var start := pos + if dotFl then 1 else 0;
             && |was| == |now| && start + |l| <= |now|
             && (forall j :: 0 <= j < |l| ==> now[start + j] == l[j])
             && (forall j :: 0 <= j < pos ==> now[j] == was[j]) && (dotFl ==> now[pos] == Dot)
    ensures var n := (if dotFl then 1 else 0) + |l|;
            now[..pos + n] == was[..pos] + (if dotFl then [Dot] else []) + l
  {
  }

  /** The labels ls are those of all from number off on. */
  ghost predicate IsPart(ls: seq<Label>, all: seq<Label>, off: nat) {
    off + |ls| <= |all| && forall k :: 0 <= k < |ls| ==> ls[k] == all[off + k]
  }

  /** Copies the labels of a name, the last of all, behind the text of those before them. */
  method GetPtrName(msg: seq<byte>, at: nat, buf: array<byte>, pos: nat, dotFl: bool, ghost ls: seq<Label>,
                    ghost all: seq<Label>, ghost off: nat) returns (n: nat)
    requires PlainAt(msg, at, ls) == true && IsPart(ls, all, off) == true && dotFl == (off > 0)
    requires |Text(all)| <= buf.Length && Copied(buf[..], all, off, pos) == true
    modifies buf
    ensures Copied(buf[..], all, off + |ls|, pos + n) == true
    ensures forall j :: pos + n <= j < buf.Length ==> buf[j] == old(buf[j])
  {
    var i: nat, dot: bool := at, dotFl;
    n := 0;
    ghost var k: nat := 0;
    LabelStep(msg, at, ls, 0);
    while msg[i] != 0 && msg[i] < PointerMark
      invariant k <= |ls| && i == at + Size(ls, k) < |msg| && dot == (off + k > 0)
      invariant (msg[i] == 0 || msg[i] >= PointerMark) == (k == |ls|)
      invariant Copied(buf[..], all, off + k, pos + n) == true
      invariant forall j :: pos + n <= j < buf.Length ==> buf[j] == old(buf[j])
      decreases |ls| - k
    {
      var m, next := CopyNext(msg, i, buf, pos + n, dot, at, ls, k, all, off);
      dot, k, i, n := true, k + 1, next, n + m;
    }
  }

  /** The buffer holds the text of the first k labels, pos characters long. */
  ghost predicate Copied(b: seq<byte>, ls: seq<Label>, k: nat, pos: nat) {
    k <= |ls| && pos <= |b| && b[..pos] == Join(ls, k)
  }

  method CopyLabel(msg: seq<byte>, at: nat, buf: array<byte>, pos: nat, dotFl: bool, ghost ls: seq<Label>, ghost k: nat)
    returns (n: nat)
    requires k < |ls| && IsLabel(msg, at, ls[k]) == true && dotFl == (k > 0) && |Text(ls)| <= buf.Length
    requires Copied(buf[..], ls, k, pos) == true
    modifies buf
    ensures Copied(buf[..], ls, k + 1, pos + n) == true
    ensures forall j :: pos + n <= j < buf.Length ==> buf[j] == old(buf[j])
  {
    JoinLength(ls, k);
    JoinLength(ls, k + 1);
    JoinLength(ls, |ls|);
    SizeGrows(ls, k + 1, |ls|);
    ghost var was: seq<byte> := buf[..];
    n := CopyOutSegment(msg, at, buf, pos, dotFl, ls[k]);
    ghost var now: seq<byte> := buf[..];
    assert was[..pos] == old(buf[..pos]) && now[..pos + n] == buf[..pos + n];
  }

  /** Copies label k of a name, which is label off + k of the text, and says where the next one is. */
  method CopyNext(msg: seq<byte>, i: nat, buf: array<byte>, pos: nat, dotFl: bool, ghost at: nat, ghost ls: seq<Label>,
                  ghost k: nat, ghost all: seq<Label>, ghost off: nat) returns (n: nat, next: nat)
    requires PlainAt(msg, at, ls) == true && k < |ls| && i == at + Size(ls, k)
    requires IsPart(ls, all, off) == true && dotFl == (off + k > 0) && |Text(all)| <= buf.Length
    requires Copied(buf[..], all, off + k, pos) == true
    modifies buf
    ensures Copied(buf[..], all, off + k + 1, pos + n) == true && next == at + Size(ls, k + 1) < |msg|
    ensures (msg[next] == 0 || msg[next] >= PointerMark) == (k + 1 == |ls|)
    ensures forall j :: pos + n <= j < buf.Length ==> buf[j] == old(buf[j])
  {
    LabelStep(msg, at, ls, k);
    LabelStep(msg, at, ls, k + 1);
    LabelAt(msg, at, ls, |ls|, k);
    assert all[off + k] == ls[k];
    n := CopyLabel(msg, i, buf, pos, dotFl, all, off + k);
    var len: int := msg[i];
    next := i + len + 1;
  }

  /** Writes the text of a name, and a zero behind it. */
  method GetName(msg: seq<byte>, at: nat, buf: array<byte>, ghost ls: seq<Label>, ghost tail: Tail)
    requires NameAt(msg, at, ls, tail) && |Text(AllLabels(ls, tail))| < buf.Length
    modifies buf
    ensures var n := |Text(AllLabels(ls, tail))|;
            && buf[..n] == Text(AllLabels(ls, tail)) && buf[n] == 0
            && forall j :: n < j < buf.Length ==> buf[j] == old(buf[j])
  {
    NameIsPlain(msg, at, ls, tail);
    ghost var all := AllLabels(ls, tail);
    PartsOfAll(ls, tail);
    var pos := GetLabels(msg, at, buf, ls, tail, all);
    assert buf[..pos] == Text(all);
    buf[pos] := 0;
    assert buf[..pos] == Text(all);
  }

  /** The labels of a name, and those that its pointer leads to, are all labels. */
  lemma PartsOfAll(ls: seq<Label>, tail: Tail)
    ensures IsPart(ls, AllLabels(ls, tail), 0) == true
    ensures if tail.Root? then AllLabels(ls, tail) == ls
            else IsPart(tail.rest, AllLabels(ls, tail), |ls|) == true && |AllLabels(ls, tail)| == |ls| + |tail.rest|
  {
  }

  method GetLabels(msg: seq<byte>, at: nat, buf: array<byte>, ghost ls: seq<Label>, ghost tail: Tail,
                   ghost all: seq<Label>) returns (pos: nat)
    requires NameAt(msg, at, ls, tail) == true && PlainAt(msg, at, ls) == true && |Text(all)| <= buf.Length
    requires IsPart(ls, all, 0) == true && |all| == |ls| + (if tail.Root? then 0 else |tail.rest|)
    requires tail.Pointer? ==> IsPart(tail.rest, all, |ls|) == true
    modifies buf
    ensures Copied(buf[..], all, |all|, pos) == true
    ensures forall j :: pos <= j < buf.Length ==> buf[j] == old(buf[j])
  {
    var i: nat := at;
    pos := 0;
    ghost var k: nat := 0;
    while true
      invariant k <= |ls| && i == at + Size(ls, k) && Copied(buf[..], all, k, pos) == true
      invariant forall j :: pos <= j < buf.Length ==> buf[j] == old(buf[j])
      decreases |ls| - k
    {
      LabelStep(msg, at, ls, k);
      if msg[i] >= PointerMark {
        var n := GetPtrName(msg, Offset(msg[i], msg[i + 1]), buf, pos, i != at, tail.rest, all, |ls|);
        pos := pos + n;
        break;
      } else if msg[i] == 0 {
        break;
      } else {
        var n, next := CopyNext(msg, i, buf, pos, i != at, at, ls, k, all, 0);
        pos, i, k := pos + n, next, k + 1;
      }
    }
  }

  // ----------------------------------------------------------------- the round trip

  /** The labels of a name from a position on, as far as the first empty one. */
  function Leading(name: seq<byte>, s: nat): seq<Label>
    requires s <= |name|
    decreases |name| - s
  {
    var e := LabelEnd(name, s);
    if e == s then [] else [name[s..e]] + if e < |name| then Leading(name, e + 1) else []
  }

  /** All labels from a position on have at most 63 bytes. */
  predicate AllShort(name: seq<byte>, s: nat)
    requires s <= |name|
    decreases |name| - s
  {
    var e := LabelEnd(name, s);
    e - s <= MaxLabel && (e < |name| ==> AllShort(name, e + 1))
  }

  /** None of them is empty. */
  predicate NoneEmpty(name: seq<byte>, s: nat)
    requires s <= |name|
    decreases |name| - s
  {
    var e := LabelEnd(name, s);
    e > s && (e < |name| ==> NoneEmpty(name, e + 1))
  }

  lemma Regroup(l: seq<byte>, d: seq<byte>, j: seq<byte>, x: seq<byte>)
    ensures l + (d + j) + d + x == l + (d + (j + d + x))
  {
    Assoc(j, d, x);
    Assoc(d, j, d + x);
    Assoc(l, d + j, d + x);
    Assoc(l + (d + j), d, x);
  }

  lemma {:induction false} SizeCons(l: Label, ls: seq<Label>, k: nat)
    requires k <= |ls|
    ensures Size([l] + ls, k + 1) == |l| + 1 + Size(ls, k)
  {
    if k > 0 {
      SizeCons(l, ls, k - 1);
      assert ([l] + ls)[k] == ls[k - 1];
    }
  }

  lemma {:induction false} JoinCons(l: Label, ls: seq<Label>, k: nat)
    requires 0 < k <= |ls|
    ensures Join([l] + ls, k + 1) == l + ([Dot] + Join(ls, k))
  {
    assert ([l] + ls)[k] == ls[k - 1];
    if k == 1 {
      Assoc(l, [Dot], ls[0]);
    } else {
      JoinCons(l, ls, k - 1);
      Regroup(l, [Dot], Join(ls, k - 1), ls[k - 1]);
    }
  }

  lemma {:induction false} LabelsCons(msg: seq<byte>, at: nat, l: Label, ls: seq<Label>, n: nat)
    requires n <= |ls| && IsLabel(msg, at, l) && LabelsAt(msg, at + |l| + 1, ls, n)
    ensures LabelsAt(msg, at, [l] + ls, n + 1)
  {
    SizeCons(l, ls, n);
    if n > 0 {
      LabelsCons(msg, at, l, ls, n - 1);
      SizeCons(l, ls, n - 1);
    } else {
      assert LabelsAt(msg, at, [l] + ls, 0);
    }
  }

  /** Labels with a zero behind them. */
  ghost predicate RootAt(msg: seq<byte>, at: nat, ls: seq<Label>) {
    var e := at + Size(ls, |ls|);
    LabelsAt(msg, at, ls, |ls|) && e < |msg| && msg[e] == 0
  }

  /** A label before a name is a name. */
  lemma RootCons(msg: seq<byte>, at: nat, l: Label, next: nat, ls: seq<Label>)
    requires IsLabel(msg, at, l) == true && next == at + |l| + 1 && RootAt(msg, next, ls) == true
    ensures RootAt(msg, at, [l] + ls) == true
  {
    LabelsCons(msg, at, l, ls, |ls|);
    SizeCons(l, ls, |ls|);
  }

  lemma NoLabels(msg: seq<byte>, at: nat)
    requires at < |msg| && msg[at] == 0
    ensures RootAt(msg, at, [])
  {
  }

  lemma LeadingCons(name: seq<byte>, s: nat, e: nat)
    requires s < e <= |name| && e == LabelEnd(name, s)
    ensures Leading(name, s) == [name[s..e]] + if e < |name| then Leading(name, e + 1) else []
  {
  }

  /** The label that starts at s in a written name. */
  lemma LabelStands(b: seq<byte>, name: seq<byte>, s: nat, e: nat)
    requires IsEncoding(b, name) && IsStart(name, s) && e == LabelEnd(name, s) && e - s <= MaxLabel && 0 !in name
    ensures b[s] == e - s && (e > s ==> IsLabel(b, s, name[s..e]) == true)
    ensures e < |name| ==> IsStart(name, e + 1)
  {
    var l, k: seq<byte> := name[s..e], b[s + 1..s + 1 + (e - s)];
    assert forall i :: 0 <= i < e - s ==> k[i] == b[s + 1 + i] == name[s + i] == l[i];
  }

  /** A written name stands there as its leading labels, with a zero behind them. */
  lemma {:induction false} LeadingStands(b: seq<byte>, name: seq<byte>, s: nat)
    requires IsEncoding(b, name) && IsStart(name, s) && AllShort(name, s) && 0 !in name
    ensures RootAt(b, s, Leading(name, s)) == true
    decreases |name| - s
  {
    var e := LabelEnd(name, s);
    LabelStands(b, name, s, e);
    if e > s {
      if e < |name| { LeadingStands(b, name, e + 1); } else { NoLabels(b, e + 1); }
      StandsOn(b, name, s, e, if e < |name| then Leading(name, e + 1) else []);
    } else {
      NoLabels(b, s);
    }
  }

  lemma StandsOn(b: seq<byte>, name: seq<byte>, s: nat, e: nat, ls: seq<Label>)
    requires s < e <= |name| && e == LabelEnd(name, s) && ls == (if e < |name| then Leading(name, e + 1) else [])
    requires IsLabel(b, s, name[s..e]) == true && RootAt(b, e + 1, ls) == true
    ensures RootAt(b, s, Leading(name, s)) == true
  {
    LeadingCons(name, s, e);
    RootCons(b, s, name[s..e], e + 1, ls);
  }

  lemma TextCons(l: Label, ls: seq<Label>)
    requires ls != []
    ensures Text([l] + ls) == l + ([Dot] + Text(ls))
    ensures |Text([l] + ls)| == |l| + 1 + |Text(ls)|
  {
    JoinCons(l, ls, |ls|);
  }

  /** The labels spell the name from a position on. */
  ghost predicate Spell(ls: seq<Label>, name: seq<byte>, s: nat)
    requires s <= |name|
  {
    ls != [] && Text(ls) == name[s..]
  }

  /** If none of its labels is empty, the leading labels spell the name. */
  lemma {:induction false} LeadingSpells(name: seq<byte>, s: nat)
    requires s <= |name| && NoneEmpty(name, s)
    ensures Spell(Leading(name, s), name, s) == true
    decreases |name| - s
  {
    var e := LabelEnd(name, s);
    if e < |name| {
      LeadingSpells(name, e + 1);
      SpellsOn(name, s, e, Leading(name, e + 1));
    } else {
      LeadingCons(name, s, e);
      LastSpells(name, s);
    }
  }

  lemma SpellsOn(name: seq<byte>, s: nat, e: nat, ls: seq<Label>)
    requires s < e < |name| && e == LabelEnd(name, s) && ls == Leading(name, e + 1)
    requires Spell(ls, name, e + 1) == true
    ensures Spell(Leading(name, s), name, s) == true
  {
    LeadingCons(name, s, e);
    SpellsCons(name, s, e, ls);
  }

  lemma SpellsCons(name: seq<byte>, s: nat, e: nat, ls: seq<Label>)
    requires s <= e < |name| && name[e] == Dot && Spell(ls, name, e + 1) == true
    ensures Spell([name[s..e]] + ls, name, s) == true
  {
    TextCons(name[s..e], ls);
    SplitName(name, s, e);
  }

  lemma LastSpells(name: seq<byte>, s: nat)
    requires s <= |name|
    ensures Spell([name[s..|name|]] + [], name, s) == true
  {
    var l: Label := name[s..|name|];
    OneText(l);
  }

  lemma OneText(l: Label)
    ensures Text([l] + []) == l
  {
    var one: seq<Label> := [l] + [];
    assert |one| == 1 && one[0] == l;
  }

  /** Less than n characters. */
  ghost predicate FallShort(ls: seq<Label>, n: nat) { ls == [] || |Text(ls)| < n }

  /** Else, if there is something to spell, they fall short of it. */
  lemma {:induction false} LeadingFallsShort(name: seq<byte>, s: nat)
    requires s <= |name| && !NoneEmpty(name, s)
    ensures FallShort(Leading(name, s), |name| - s) == true
    decreases |name| - s
  {
    var e := LabelEnd(name, s);
    if e > s {
      LeadingFallsShort(name, e + 1);
      ShortOn(name, s, e, Leading(name, e + 1));
    }
  }

  lemma ShortOn(name: seq<byte>, s: nat, e: nat, ls: seq<Label>)
    requires s < e < |name| && e == LabelEnd(name, s) && ls == Leading(name, e + 1)
    requires FallShort(ls, |name| - (e + 1)) == true
    ensures FallShort(Leading(name, s), |name| - s) == true
  {
    LeadingCons(name, s, e);
    ShortCons(name[s..e], ls, |name| - (e + 1));
  }

  lemma ShortCons(l: Label, ls: seq<Label>, n: nat)
    requires FallShort(ls, n) == true
    ensures FallShort([l] + ls, |l| + 1 + n) == true
  {
    if ls == [] { OneText(l); } else { TextCons(l, ls); }
  }

  lemma SplitName(name: seq<byte>, s: nat, e: nat)
    requires s <= e < |name| && name[e] == Dot
    ensures name[s..] == name[s..e] + ([Dot] + name[e + 1..])
  {
  }

  /** Reading a written name gives the name exactly when none of its labels is empty, or the name is; the
      writer does not check this. And unless it is empty, its size is what was written. */
  lemma NameRoundTripExactlyWhen(name: seq<byte>, b: seq<byte>)
    requires 0 !in name && AllShort(name, 0) && (name != [] ==> name[0] != PointerMark) && IsWritten(b, name)
    ensures var ls := Leading(name, 0);
            && NameAt(b, 0, ls, Root)
            && (Text(ls) == name <==> name == [] || NoneEmpty(name, 0))
            && (NoneEmpty(name, 0) ==> NameSize(ls, Root) == |b|)
  {
    var ls := Leading(name, 0);
    LeadingStands(b, name, 0);
    if NoneEmpty(name, 0) {
      LeadingSpells(name, 0);
    } else if name != [] {
      LeadingFallsShort(name, 0);
    }
    JoinLength(ls, |ls|);
    assert name[0..] == name;
  }

  /** Writes a name, counts what reading it takes, and reads it into a buffer of just that size: the text
      is that of the labels before the first empty one, with a zero, and so is the name exactly when there
      is no empty label. */
  method RoundTrip(name: seq<byte>) returns (text: seq<byte>)
    requires 0 !in name && AllShort(name, 0) && (name != [] ==> name[0] != PointerMark)
    ensures text == Text(Leading(name, 0)) + [0]
    ensures text == name + [0] <==> name == [] || NoneEmpty(name, 0)
  {
    var b := new byte[|name| + 2];
    var end := FormatName(b, name);
    var msg := b[..end];
    NameRoundTripExactlyWhen(name, msg);
    ghost var ls := Leading(name, 0);
    var c;
    c, text := CountAndRead(msg, 0, 0, ls, Root);
    SameBehind(Text(ls), name);
  }

  lemma LastIsZero(b: seq<byte>, s: seq<byte>)
    requires |b| == |s| + 1 && b[..|s|] == s && b[|s|] == 0
    ensures b == s + [0]
  {
  }

  lemma SameBehind(s: seq<byte>, t: seq<byte>)
    ensures s + [0] == t + [0] <==> s == t
  {
    if s + [0] == t + [0] { assert s == (s + [0])[..|s|] && t == (t + [0])[..|t|]; }
  }

  // ----------------------------------------------------------------- the round trip through a pointer

  /** Every offset of fourteen bits has a pointer, and this leads there. */
  lemma PointerIs(x: nat)
    requires x < 0x4000
    ensures var hi, lo := 0xc0 + x / 256, x % 256; PointerMark <= hi < 256 && Offset(hi, lo) == x
  {
  }

  /** Examples of what is written: for a name with two labels of one letter, and for a pointer. */
  lemma TwoLabels(b: seq<byte>, lo: byte)
    ensures IsWritten(b, [97, 46, 98]) <==> b == [1, 97, 1, 98, 0]
    ensures IsWritten(b, [0xc0, lo]) <==> b == [0xc0, lo]
  {
    var name: seq<byte> := [97, 46, 98];
    LabelEndIs(name, 0, 1);
    LabelEndIs(name, 2, 3);
    if |b| == 5 { assert b == [b[0], b[1], b[2], b[3], b[4]]; }
  }

  /** The first n bytes of a part stand in the message. */
  ghost predicate Agree(msg: seq<byte>, off: nat, part: seq<byte>, n: nat) {
    n <= |part| && off + n <= |msg| && msg[off..off + n] == part[..n]
  }

  lemma AgreesAt(msg: seq<byte>, off: nat, part: seq<byte>, n: nat, i: nat)
    requires Agree(msg, off, part, n) && i < n
    ensures msg[off + i] == part[i]
  {
    assert msg[off + i] == msg[off..off + n][i] && part[i] == part[..n][i];
  }

  lemma LabelMoves(msg: seq<byte>, off: nat, part: seq<byte>, n: nat, at: nat, l: Label)
    requires Agree(msg, off, part, n) && IsLabel(part, at, l) && at + 1 + |l| <= n
    ensures IsLabel(msg, off + at, l) == true
  {
    AgreesAt(msg, off, part, n, at);
    forall i | 0 <= i < |l| ensures msg[off + at + 1 + i] == l[i] {
      AgreesAt(msg, off, part, n, at + 1 + i);
      assert l[i] == part[at + 1..at + 1 + |l|][i];
    }
    assert msg[off + at + 1..off + at + 1 + |l|] == l;
  }

  /** Labels stand in the message where the part of it does that they stand in. */
  lemma {:induction false} LabelsMove(msg: seq<byte>, off: nat, part: seq<byte>, n: nat, ls: seq<Label>, k: nat)
    requires Agree(msg, off, part, n) == true && k <= |ls| && LabelsAt(part, 0, ls, k) && Size(ls, k) <= n
    ensures LabelsAt(msg, off, ls, k)
  {
    if k > 0 {
      LabelsMove(msg, off, part, n, ls, k - 1);
      LabelMoves(msg, off, part, n, Size(ls, k - 1), ls[k - 1]);
    }
  }

  /** Labels that can stand before a pointer: none, or none that is empty. */
  predicate AreLabels(labels: seq<byte>) { IsText(labels) && (labels == [] || NoneEmpty(labels, 0)) }

  /** What a name can be made of: labels of at most 63 characters, none of them zero. */
  predicate IsText(name: seq<byte>) {
    0 !in name && AllShort(name, 0) && (name != [] ==> name[0] != PointerMark)
  }

  /** The leading labels of a written name stand in the message. */
  lemma NameMoves(msg: seq<byte>, off: nat, b: seq<byte>, name: seq<byte>, ls: seq<Label>)
    requires IsText(name) && IsWritten(b, name) && Agree(msg, off, b, |b|) == true && ls == Leading(name, 0)
    ensures PlainAt(msg, off, ls) == true
  {
    LeadingStands(b, name, 0);
    LabelsMove(msg, off, b, |b|, ls, |ls|);
    AgreesAt(msg, off, b, |b|, Size(ls, |ls|));
  }

  /** The labels of a name, without the zero behind them. */
  ghost predicate IsHead(head: seq<byte>, labels: seq<byte>) {
    if labels == [] then head == []
    else exists b: seq<byte> :: |b| == |labels| + 2 && IsWritten(b, labels) && head == b[..|labels| + 1]
  }

  /** Labels of n bytes in all stand in the message. */
  ghost predicate HeadAt(msg: seq<byte>, at: nat, ls: seq<Label>, n: nat) {
    LabelsAt(msg, at, ls, |ls|) && Size(ls, |ls|) == n
  }

  lemma HeadStands(msg: seq<byte>, off: nat, head: seq<byte>, labels: seq<byte>, ls: seq<Label>)
    requires AreLabels(labels) && ls == Leading(labels, 0)
    requires IsHead(head, labels) && Agree(msg, off, head, |head|) == true
    ensures HeadAt(msg, off, ls, |head|) == true
  {
    if labels != [] {
      var b: seq<byte> :| |b| == |labels| + 2 && IsWritten(b, labels) && head == b[..|labels| + 1];
      NameRoundTripExactlyWhen(labels, b);
      assert Agree(msg, off, b, |head|);
      LabelsMove(msg, off, b, |head|, ls, |ls|);
    }
  }

  lemma PointerBehind(msg: seq<byte>, at: nat, ls: seq<Label>, n: nat, x: nat, rs: seq<Label>)
    requires HeadAt(msg, at, ls, n) && PlainAt(msg, x, rs) == true && x < 0x4000
    requires var e := at + n; e + 1 < |msg| && msg[e] == 0xc0 + x / 256 && msg[e + 1] == x % 256
    ensures NameAt(msg, at, ls, Pointer(rs)) == true && NameSize(ls, Pointer(rs)) == n + 2
  {
    PointerIs(x);
  }

  lemma PartsAgree(front: seq<byte>, b: seq<byte>, between: seq<byte>, head: seq<byte>, hi: byte, lo: byte)
    ensures var msg, at := front + b + between + head + [hi, lo], |front| + |b| + |between|;
            && Agree(msg, |front|, b, |b|) == true && Agree(msg, at, head, |head|) == true
            && |msg| == at + |head| + 2 && msg[at + |head|] == hi && msg[at + |head| + 1] == lo
  {
  }

  /** A name with a pointer to another one stands in the message. */
  lemma PointerStands(msg: seq<byte>, front: seq<byte>, b: seq<byte>, rest: seq<byte>, between: seq<byte>,
                      head: seq<byte>, labels: seq<byte>, ls: seq<Label>, rs: seq<Label>)
    requires |front| < 0x4000 && IsText(rest) == true && AreLabels(labels) == true
    requires ls == Leading(labels, 0) && rs == Leading(rest, 0)
    requires IsWritten(b, rest) == true && IsHead(head, labels) == true
    requires var x := |front|; msg == front + b + between + head + [0xc0 + x / 256, x % 256]
    ensures NameAt(msg, |front| + |b| + |between|, ls, Pointer(rs)) == true
    ensures NameSize(ls, Pointer(rs)) == |head| + 2
  {
    var at, x := |front| + |b| + |between|, |front|;
    PartsAgree(front, b, between, head, 0xc0 + x / 256, x % 256);
    NameMoves(msg, x, b, rest, rs);
    HeadStands(msg, at, head, labels, ls);
    PointerBehind(msg, at, ls, |head|, x, rs);
  }

  lemma {:induction false} JoinSum(ls: seq<Label>, rest: seq<Label>, k: nat)
    requires ls != [] && 0 < k <= |rest|
    ensures Join(ls + rest, |ls| + k) == Text(ls) + [Dot] + Join(rest, k)
  {
    var all := ls + rest;
    assert all[|ls| + k - 1] == rest[k - 1];
    if k == 1 {
      SizeOfPrefix(ls, rest, |ls|);
    } else {
      JoinSum(ls, rest, k - 1);
      JoinSumStep(Text(ls), Join(rest, k - 1), rest[k - 1]);
    }
  }

  lemma JoinSumStep(s: seq<byte>, t: seq<byte>, l: Label)
    ensures s + [Dot] + t + [Dot] + l == s + [Dot] + (t + [Dot] + l)
  {
  }

  /** If none of its labels is empty, or there is none, the leading labels are those of the name. */
  lemma LeadingIs(name: seq<byte>, ls: seq<Label>)
    requires ls == Leading(name, 0) && (name == [] || NoneEmpty(name, 0) == true)
    ensures Text(ls) == name && (ls == [] <==> name == [])
  {
    if name != [] {
      LeadingSpells(name, 0);
      assert name[0..] == name;
    }
  }

  /** The text of all labels: the one, a dot and the other. */
  lemma TextOfAll(ls: seq<Label>, rs: seq<Label>)
    ensures Text(ls + rs) == if ls == [] then Text(rs) else if rs == [] then Text(ls) else Text(ls) + [Dot] + Text(rs)
  {
    if ls == [] {
      assert ls + rs == rs;
    } else if rs == [] {
      assert ls + rs == ls;
    } else {
      JoinSum(ls, rs, |rs|);
    }
  }

  lemma TextOfBoth(labels: seq<byte>, rest: seq<byte>, ls: seq<Label>, rs: seq<Label>)
    requires ls == Leading(labels, 0) && (labels == [] || NoneEmpty(labels, 0) == true)
    requires rs == Leading(rest, 0) && (rest == [] || NoneEmpty(rest, 0) == true)
    ensures Text(ls + rs) == if labels == [] then rest else if rest == [] then labels else labels + [Dot] + rest
  {
    LeadingIs(labels, ls);
    LeadingIs(rest, rs);
    TextOfAll(ls, rs);
  }

  method Encode(name: seq<byte>) returns (b: seq<byte>)
    requires name != [] ==> name[0] != PointerMark
    ensures IsWritten(b, name) == true && |b| == |name| + 2
  {
    var buf := new byte[|name| + 2];
    var end := FormatName(buf, name);
    b := buf[..end];
  }

  method EncodeHead(labels: seq<byte>) returns (head: seq<byte>)
    requires labels != [] ==> labels[0] != PointerMark
    ensures IsHead(head, labels) == true && |head| == if labels == [] then 0 else |labels| + 1
  {
    if labels == [] { return []; }
    var b := Encode(labels);
    head := b[..|labels| + 1];
  }

  /** Writes a name somewhere in a message, and further on labels with a pointer to it, whose bytes are
      said here by numbers. The count is that of the labels and the pointer, and of the text, and the text
      read is that of all labels of both. */
  method PointerRoundTrip(front: seq<byte>, rest: seq<byte>, between: seq<byte>, labels: seq<byte>)
    returns (c: Counted, text: seq<byte>)
    requires |front| < 0x4000 && IsText(rest) && AreLabels(labels)
    ensures text == Text(Leading(labels, 0) + Leading(rest, 0)) + [0]
    ensures NoneEmpty(rest, 0) ==> text == (if labels == [] then rest else labels + [46] + rest) + [0]
    ensures rest == [] ==> text == labels + [0]
    ensures c == Counted((if labels == [] then 0 else |labels| + 1) + 2, |text|)
  {
    var b := Encode(rest);
    var head := EncodeHead(labels);
    var x, at := |front|, |front| + |b| + |between|;
    var msg: seq<byte> := front + b + between + head + [0xc0 + x / 256, x % 256];
    ghost var ls, rs := Leading(labels, 0), Leading(rest, 0);
    PointerStands(msg, front, b, rest, between, head, labels, ls, rs);
    c, text := CountAndRead(msg, at, |msg| - at, ls, Pointer(rs));
    if rest == [] || NoneEmpty(rest, 0) { TextOfBoth(labels, rest, ls, rs); }
  }

  /** Counts the bytes of a name, and reads it into a buffer of just that size. */
  method CountAndRead(msg: seq<byte>, at: nat, max: nat, ghost ls: seq<Label>, ghost tail: Tail)
    returns (c: Counted, text: seq<byte>)
    requires NameAt(msg, at, ls, tail) == true && (max == 0 || max >= NameSize(ls, tail))
    ensures text == Text(AllLabels(ls, tail)) + [0] && c == Counted(NameSize(ls, tail), |text|)
  {
    c := CalcNameByteCount(msg, at, max, ls, tail);
    var buf := new byte[c.strN];
    GetName(msg, at, buf, ls, tail);
    text := buf[..];
    LastIsZero(text, Text(AllLabels(ls, tail)));
  }
}
