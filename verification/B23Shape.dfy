/** The 2-3 tree of src/core/cwB23Tree.h as a value: the shape of the tree without its node
    objects, textbook recursive insertion, and what an insertion means for the key/value pairs. */
module B23Shape {

  /** The key that marks an unused pair; the repository instantiates the tree with kInvalidIdx. */
  const NullKey: int := 0xFFFF_FFFF

  type Value = string

  /** A key and the chain of values stored under it, the latest one first. */
  datatype KeyValue = KeyValue(key: int, valueL: seq<Value>) {
    predicate IsEmpty() { key == NullKey }
    function Push(v: Value): KeyValue { KeyValue(key, [v] + valueL) }
  }

  const EmptyPair := KeyValue(NullKey, [])

  datatype Shape =
    | Leaf1(a: KeyValue)
    | Leaf2(a: KeyValue, b: KeyValue)
    | Node2(a: KeyValue, l: Shape, h: Shape)
    | Node3(a: KeyValue, b: KeyValue, l: Shape, m: Shape, h: Shape)

  /** What an insertion into a subtree hands to the level above: a subtree of the same height, or
      a pair with two subtrees of that height. */
  datatype Outcome = Done(t: Shape) | Split(x: KeyValue, p: Shape, q: Shape)

  // ----------------------------------------------------------------- insertion

  function Low(a: KeyValue, o: Outcome, h: Shape): Outcome {
    match o
    case Done(t) => Done(Node2(a, t, h))
    case Split(x, p, q) => Done(Node3(x, a, p, q, h))
  }

  function High(a: KeyValue, l: Shape, o: Outcome): Outcome {
    match o
    case Done(t) => Done(Node2(a, l, t))
    case Split(x, p, q) => Done(Node3(a, x, l, p, q))
  }

  function Low3(a: KeyValue, b: KeyValue, o: Outcome, m: Shape, h: Shape): Outcome {
    match o
    case Done(t) => Done(Node3(a, b, t, m, h))
    case Split(x, p, q) => Split(a, Node2(x, p, q), Node2(b, m, h))
  }

  function Mid3(a: KeyValue, b: KeyValue, l: Shape, o: Outcome, h: Shape): Outcome {
    match o
    case Done(t) => Done(Node3(a, b, l, t, h))
    case Split(x, p, q) => Split(x, Node2(a, l, p), Node2(b, q, h))
  }

  function High3(a: KeyValue, b: KeyValue, l: Shape, m: Shape, o: Outcome): Outcome {
    match o
    case Done(t) => Done(Node3(a, b, l, m, t))
    case Split(x, p, q) => Split(b, Node2(a, l, m), Node2(x, p, q))
  }

  /** Textbook insertion into a 2-3 tree, by recursion on the tree. */
  function InsertShape(t: Shape, k: int, v: Value): Outcome {
    if k == t.a.key then Done(t.(a := t.a.Push(v)))
    else if (t.Leaf2? || t.Node3?) && k == t.b.key then Done(t.(b := t.b.Push(v)))
    else
      var kv := KeyValue(k, [v]);
      match t
      case Leaf1(a) => Done(if k > a.key then Leaf2(a, kv) else Leaf2(kv, a))
      case Leaf2(a, b) =>
        if k < a.key then Split(a, Leaf1(kv), Leaf1(b))
        else if k > b.key then Split(b, Leaf1(a), Leaf1(kv))
        else Split(kv, Leaf1(a), Leaf1(b))
      case Node2(a, l, h) =>
        if k < a.key then Low(a, InsertShape(l, k, v), h) else High(a, l, InsertShape(h, k, v))
      case Node3(a, b, l, m, h) =>
        if k < a.key then Low3(a, b, InsertShape(l, k, v), m, h)
        else if k < b.key then Mid3(a, b, l, InsertShape(m, k, v), h)
        else High3(a, b, l, m, InsertShape(h, k, v))
  }

  /** The new root: a split at the top makes the tree one level higher. */
  function Top(o: Outcome): Shape {
    match o
    case Done(t) => t
    case Split(x, p, q) => Node2(x, p, q)
  }

  // ----------------------------------------------------------------- balance

  /** All leaves at depth h; each 2-node has two children and each 3-node three. */
  predicate Balanced(t: Shape, h: nat) {
    match t
    case Leaf1(_) => h == 0
    case Leaf2(_, _) => h == 0
    case Node2(_, l, hi) => h > 0 && Balanced(l, h - 1) && Balanced(hi, h - 1)
    case Node3(_, _, l, m, hi) => h > 0 && Balanced(l, h - 1) && Balanced(m, h - 1) && Balanced(hi, h - 1)
  }

  /** The height as the source computes it, along the low links. */
  function Height(t: Shape): nat {
    match t
    case Leaf1(_) => 0
    case Leaf2(_, _) => 0
    case Node2(_, l, _) => Height(l) + 1
    case Node3(_, _, l, _, _) => Height(l) + 1
  }

  lemma {:induction false} BalancedHeight(t: Shape, h: nat)
    requires Balanced(t, h)
    ensures Height(t) == h
  {
    match t
    case Leaf1(_) =>
    case Leaf2(_, _) =>
    case Node2(_, l, _) => BalancedHeight(l, h - 1);
    case Node3(_, _, l, _, _) => BalancedHeight(l, h - 1);
  }

  lemma {:induction false} InsertKeepsBalance(t: Shape, h: nat, k: int, v: Value)
    requires Balanced(t, h)
    ensures var o := InsertShape(t, k, v);
            if o.Done? then Balanced(o.t, h) else Balanced(o.p, h) && Balanced(o.q, h)
  {
    match t
    case Leaf1(_) =>
    case Leaf2(_, _) =>
    case Node2(_, l, hi) =>
      InsertKeepsBalance(l, h - 1, k, v);
      InsertKeepsBalance(hi, h - 1, k, v);
    case Node3(_, _, l, m, hi) =>
      InsertKeepsBalance(l, h - 1, k, v);
      InsertKeepsBalance(m, h - 1, k, v);
      InsertKeepsBalance(hi, h - 1, k, v);
  }

  // ----------------------------------------------------------------- order

  /** The pairs of the tree from left to right. */
  function InOrder(t: Shape): seq<KeyValue> {
    match t
    case Leaf1(a) => [a]
    case Leaf2(a, b) => [a, b]
    case Node2(a, l, h) => InOrder(l) + [a] + InOrder(h)
    case Node3(a, b, l, m, h) => InOrder(l) + [a] + InOrder(m) + [b] + InOrder(h)
  }

  function OutcomeInOrder(o: Outcome): seq<KeyValue> {
    match o
    case Done(t) => InOrder(t)
    case Split(x, p, q) => InOrder(p) + [x] + InOrder(q)
  }

  /** Keys strictly ascending, so strictly ordered across all subtrees. */
  predicate Ascending(s: seq<KeyValue>) {
    forall i, j :: 0 <= i < j < |s| ==> s[i].key < s[j].key
  }

  /** Insertion into an ascending list of pairs: what inserting into the tree must mean. */
  function ListInsert(s: seq<KeyValue>, k: int, v: Value): seq<KeyValue> {
    if s == [] then [KeyValue(k, [v])]
    else if k == s[0].key then [s[0].Push(v)] + s[1..]
    else if k < s[0].key then [KeyValue(k, [v])] + s
    else [s[0]] + ListInsert(s[1..], k, v)
  }

  lemma {:induction false} ListInsertRight(s: seq<KeyValue>, r: seq<KeyValue>, k: int, v: Value)
    requires forall i :: 0 <= i < |s| ==> s[i].key < k
    ensures ListInsert(s + r, k, v) == s + ListInsert(r, k, v)
  {
    if s == [] {
      assert s + r == r;
      assert s + ListInsert(r, k, v) == ListInsert(r, k, v);
    } else {
      ListInsertRight(s[1..], r, k, v);
      assert (s + r)[1..] == s[1..] + r;
      assert [s[0]] + (s[1..] + ListInsert(r, k, v)) == s + ListInsert(r, k, v);
    }
  }

  lemma {:induction false} ListInsertLeft(s: seq<KeyValue>, x: KeyValue, r: seq<KeyValue>, k: int, v: Value)
    requires k < x.key
    ensures ListInsert(s + [x] + r, k, v) == ListInsert(s, k, v) + [x] + r
  {
    if s == [] {
      assert s + [x] + r == [x] + r;
    } else {
      var w := s + [x] + r;
      assert w[1..] == s[1..] + [x] + r;
      ListInsertLeft(s[1..], x, r, k, v);
    }
  }

  lemma {:induction false} ListInsertHit(s: seq<KeyValue>, x: KeyValue, r: seq<KeyValue>, v: Value)
    requires forall i :: 0 <= i < |s| ==> s[i].key < x.key
    ensures ListInsert(s + [x] + r, x.key, v) == s + [x.Push(v)] + r
  {
    assert s + [x] + r == s + ([x] + r);
    ListInsertRight(s, [x] + r, x.key, v);
    assert ([x] + r)[1..] == r;
    assert s + [x.Push(v)] + r == s + ([x.Push(v)] + r);
  }

  lemma AscendingSplit(s: seq<KeyValue>, x: KeyValue, r: seq<KeyValue>)
    requires Ascending(s + [x] + r)
    ensures Ascending(s) && Ascending(r)
    ensures forall i :: 0 <= i < |s| ==> s[i].key < x.key
    ensures forall i :: 0 <= i < |r| ==> x.key < r[i].key
  {
    var w := s + [x] + r;
    assert forall i :: 0 <= i < |s| ==> w[i] == s[i];
    assert w[|s|] == x;
    assert forall i :: 0 <= i < |r| ==> w[|s| + 1 + i] == r[i];
  }

  lemma Assoc3(p: seq<KeyValue>, q: seq<KeyValue>, r: seq<KeyValue>)
    ensures p + (q + r) == p + q + r
  {
  }

  /** What stands before a list in parts is the same before each form of it. */
  lemma Before(L: seq<KeyValue>, p: seq<KeyValue>, x: seq<KeyValue>, q: seq<KeyValue>)
    ensures L + (p + x + q) == L + p + x + q
  {
    Assoc3(L, p + x, q);
    Assoc3(L, p, x);
  }

  /** Absorbing or passing on a split keeps the pairs in their order. */
  lemma SplitKeepsOrder(a: KeyValue, o: Outcome, l: Shape, h: Shape)
    ensures OutcomeInOrder(Low(a, o, h)) == OutcomeInOrder(o) + [a] + InOrder(h)
    ensures OutcomeInOrder(High(a, l, o)) == InOrder(l) + [a] + OutcomeInOrder(o)
  {
    if o.Split? { Before(InOrder(l) + [a], InOrder(o.p), [o.x], InOrder(o.q)); }
  }

  lemma SplitLow3(a: KeyValue, b: KeyValue, o: Outcome, m: Shape, h: Shape)
    ensures OutcomeInOrder(Low3(a, b, o, m, h)) == OutcomeInOrder(o) + [a] + InOrder(m) + [b] + InOrder(h)
  {
    if o.Split? { Before(OutcomeInOrder(o) + [a], InOrder(m), [b], InOrder(h)); }
  }

  lemma SplitMid3(a: KeyValue, b: KeyValue, o: Outcome, l: Shape, h: Shape)
    ensures OutcomeInOrder(Mid3(a, b, l, o, h)) == InOrder(l) + [a] + OutcomeInOrder(o) + [b] + InOrder(h)
  {
    if o.Split? {
      var p, q := InOrder(o.p), InOrder(o.q);
      Before(InOrder(l) + [a], p, [o.x], q);
      Before(InOrder(l) + [a] + p + [o.x], q, [b], InOrder(h));
    }
  }

  lemma SplitHigh3(a: KeyValue, b: KeyValue, o: Outcome, l: Shape, m: Shape)
    ensures OutcomeInOrder(High3(a, b, l, m, o)) == InOrder(l) + [a] + InOrder(m) + [b] + OutcomeInOrder(o)
  {
    if o.Split? { Before(InOrder(l) + [a] + InOrder(m) + [b], InOrder(o.p), [o.x], InOrder(o.q)); }
  }

  /** Insertion into the tree is insertion into its in-order list of pairs, wherever the pairs
      are moved to by leaf splits, absorptions and 3-node splits. */
  lemma {:induction false} InsertInOrder(t: Shape, k: int, v: Value)
    requires Ascending(InOrder(t))
    ensures OutcomeInOrder(InsertShape(t, k, v)) == ListInsert(InOrder(t), k, v)
  {
    match t
    case Leaf1(a) =>
    case Leaf2(a, b) => InsertIntoLeaf2(a, b, k, v);
    case Node2(a, l, h) =>
      AscendingSplit(InOrder(l), a, InOrder(h));
      InsertIntoTwo(InOrder(l), a, InOrder(h), k, v);
      if k < a.key { InsertInOrder(l, k, v); SplitKeepsOrder(a, InsertShape(l, k, v), l, h); }
      if k > a.key { InsertInOrder(h, k, v); SplitKeepsOrder(a, InsertShape(h, k, v), l, h); }
    case Node3(a, b, l, m, h) =>
      var L, M, H := InOrder(l), InOrder(m), InOrder(h);
      AscendingSplit(L + [a] + M, b, H);
      AscendingSplit(L, a, M);
      InsertIntoThree(L, a, M, b, H, k, v);
      if k == a.key || k == b.key {
      } else if k < a.key {
        InsertInOrder(l, k, v);
        SplitLow3(a, b, InsertShape(l, k, v), m, h);
      } else if k < b.key {
        InsertInOrder(m, k, v);
        SplitMid3(a, b, InsertShape(m, k, v), l, h);
      } else {
        InsertInOrder(h, k, v);
        SplitHigh3(a, b, InsertShape(h, k, v), l, m);
      }
  }

  lemma InsertIntoLeaf2(a: KeyValue, b: KeyValue, k: int, v: Value)
    requires Ascending([a, b])
    ensures OutcomeInOrder(InsertShape(Leaf2(a, b), k, v)) == ListInsert([a, b], k, v)
  {
    assert [a, b][0].key < [a, b][1].key;
    assert [a, b] == [] + [a] + [] + [b] + [];
    InsertIntoThree([], a, [], b, [], k, v);
    assert ListInsert([], k, v) == [KeyValue(k, [v])];
  }

  lemma InsertIntoTwo(L: seq<KeyValue>, a: KeyValue, H: seq<KeyValue>, k: int, v: Value)
    requires forall i :: 0 <= i < |L| ==> L[i].key < a.key
    ensures ListInsert(L + [a] + H, k, v) ==
            if k == a.key then L + [a.Push(v)] + H
            else if k < a.key then ListInsert(L, k, v) + [a] + H
            else L + [a] + ListInsert(H, k, v)
  {
    if k == a.key { ListInsertHit(L, a, H, v); }
    else if k < a.key { ListInsertLeft(L, a, H, k, v); }
    else { ListInsertRight(L + [a], H, k, v); }
  }

  lemma InsertIntoThree(L: seq<KeyValue>, a: KeyValue, M: seq<KeyValue>, b: KeyValue, H: seq<KeyValue>, k: int,
                        v: Value)
    requires Ascending(L + [a] + M)
    requires forall i :: 0 <= i < |L| ==> L[i].key < a.key
    requires forall i :: 0 <= i < |L + [a] + M| ==> (L + [a] + M)[i].key < b.key
    ensures ListInsert(L + [a] + M + [b] + H, k, v) ==
            if k == a.key then L + [a.Push(v)] + M + [b] + H
            else if k == b.key then L + [a] + M + [b.Push(v)] + H
            else if k < a.key then ListInsert(L, k, v) + [a] + M + [b] + H
            else if k < b.key then L + [a] + ListInsert(M, k, v) + [b] + H
            else L + [a] + M + [b] + ListInsert(H, k, v)
  {
    assert (L + [a] + M)[|L|] == a;
    InsertIntoTwo(L + [a] + M, b, H, k, v);
    if k < b.key { InsertIntoTwo(L, a, M, k, v); }
  }

  // ----------------------------------------------------------------- the multimap

  /** The values stored under a key, the latest first; empty when the key was never inserted. */
  function ValuesOf(s: seq<KeyValue>, k: int): seq<Value> {
    if s == [] then [] else if s[0].key == k then s[0].valueL else ValuesOf(s[1..], k)
  }

  lemma {:induction false} ValuesOfAbsent(s: seq<KeyValue>, k: int)
    requires forall i :: 0 <= i < |s| ==> s[i].key != k
    ensures ValuesOf(s, k) == []
  {
    if s != [] { ValuesOfAbsent(s[1..], k); }
  }

  lemma {:induction false} ValuesOfPresent(s: seq<KeyValue>, i: nat)
    requires Ascending(s) && i < |s|
    ensures ValuesOf(s, s[i].key) == s[i].valueL
  {
    if i > 0 {
      assert s[0].key < s[i].key;
      ValuesOfPresent(s[1..], i - 1);
    }
  }

  /** Only the list of the inserted key changes, and the new value goes to its front. */
  lemma {:induction false} ListInsertValues(s: seq<KeyValue>, k: int, v: Value, q: int)
    requires Ascending(s)
    ensures ValuesOf(ListInsert(s, k, v), q) == if q == k then [v] + ValuesOf(s, k) else ValuesOf(s, q)
  {
    if s != [] {
      assert forall i :: 0 < i < |s| ==> s[0].key < s[i].key;
      if k == s[0].key {
        assert ListInsert(s, k, v)[1..] == s[1..];
      } else if k < s[0].key {
        assert ListInsert(s, k, v)[1..] == s;
        ValuesOfAbsent(s, k);
      } else {
        assert ListInsert(s, k, v)[1..] == ListInsert(s[1..], k, v);
        ListInsertValues(s[1..], k, v, q);
      }
    }
  }

  predicate HasKey(s: seq<KeyValue>, k: int) { exists i :: 0 <= i < |s| && s[i].key == k }

  lemma {:induction false} ValuesOfParts(s: seq<KeyValue>, r: seq<KeyValue>, k: int)
    ensures ValuesOf(s + r, k) == if HasKey(s, k) then ValuesOf(s, k) else ValuesOf(r, k)
    ensures !HasKey(s, k) ==> ValuesOf(s, k) == []
  {
    if s == [] {
      assert s + r == r;
    } else {
      assert (s + r)[1..] == s[1..] + r;
      ValuesOfParts(s[1..], r, k);
      if HasKey(s[1..], k) {
        var i :| 0 <= i < |s[1..]| && s[1..][i].key == k;
        assert s[i + 1].key == k;
      }
      if HasKey(s, k) && s[0].key != k {
        var i :| 0 <= i < |s| && s[i].key == k;
        assert s[1..][i - 1].key == k;
      }
    }
  }

  /** The subtree to search next for a key that is not in the node itself. */
  function Child(t: Shape, k: int): Shape
    requires t.Node2? || t.Node3?
  {
    if k < t.a.key then t.l else if t.Node3? && k < t.b.key then t.m else t.h
  }

  /** Searching below a node leads to the one subtree that can hold the key. */
  lemma SearchStep(t: Shape, k: int)
    requires (t.Node2? || t.Node3?) && Ascending(InOrder(t)) && k != t.a.key && (t.Node3? ==> k != t.b.key)
    requires Proper(InOrder(t))
    ensures Ascending(InOrder(Child(t, k))) && Proper(InOrder(Child(t, k)))
    ensures ValuesOf(InOrder(t), k) == ValuesOf(InOrder(Child(t, k)), k)
  {
    match t
    case Node2(a, l, h) => SearchTwo(InOrder(l), a, InOrder(h), k);
    case Node3(a, b, l, m, h) =>
      var L := InOrder(l) + [a] + InOrder(m);
      SearchTwo(L, b, InOrder(h), k);
      assert L[|InOrder(l)|] == a;
      AscendingSplit(L, b, InOrder(h));
      if k < b.key { SearchTwo(InOrder(l), a, InOrder(m), k); }
  }

  lemma SearchTwo(L: seq<KeyValue>, a: KeyValue, H: seq<KeyValue>, k: int)
    requires Ascending(L + [a] + H) && Proper(L + [a] + H) && k != a.key
    ensures Ascending(L) && Ascending(H) && Proper(L) && Proper(H)
    ensures ValuesOf(L + [a] + H, k) == if k < a.key then ValuesOf(L, k) else ValuesOf(H, k)
  {
    AscendingSplit(L, a, H);
    var w := L + [a] + H;
    assert forall i :: 0 <= i < |L| ==> w[i] == L[i];
    assert forall i :: 0 <= i < |H| ==> w[|L| + 1 + i] == H[i];
    ValuesOfParts(L + [a], H, k);
    ValuesOfParts(L, [a], k);
    if k < a.key { ValuesOfAbsent(H, k); }
  }

  function Keys(s: seq<KeyValue>): set<int> { set i | 0 <= i < |s| :: s[i].key }

  lemma KeysCons(x: KeyValue, s: seq<KeyValue>)
    ensures Keys([x] + s) == {x.key} + Keys(s)
  {
    var w := [x] + s;
    assert w[0] == x;
    forall q | q in {x.key} + Keys(s) ensures q in Keys(w) {
      if q != x.key {
        var i :| 0 <= i < |s| && s[i].key == q;
        assert w[i + 1].key == q;
      }
    }
  }

  lemma {:induction false} ListInsertKeys(s: seq<KeyValue>, k: int, v: Value)
    ensures Keys(ListInsert(s, k, v)) == Keys(s) + {k}
  {
    var x := KeyValue(k, [v]);
    KeysCons(x, s);
    if s == [] {
      assert ListInsert(s, k, v) == [x] + [];
    } else {
      assert s == [s[0]] + s[1..];
      KeysCons(s[0], s[1..]);
      KeysCons(s[0].Push(v), s[1..]);
      ListInsertKeys(s[1..], k, v);
      KeysCons(s[0], ListInsert(s[1..], k, v));
    }
  }

  lemma {:induction false} ListInsertAscends(s: seq<KeyValue>, k: int, v: Value)
    requires Ascending(s)
    ensures Ascending(ListInsert(s, k, v))
  {
    if s != [] && k > s[0].key {
      var r := ListInsert(s[1..], k, v);
      ListInsertAscends(s[1..], k, v);
      ListInsertKeys(s[1..], k, v);
      forall i | 0 <= i < |r| ensures s[0].key < r[i].key {
        assert r[i].key in Keys(r);
      }
    }
  }

  /** No chain is empty and no used pair carries the null key. */
  predicate Proper(s: seq<KeyValue>) {
    forall i :: 0 <= i < |s| ==> s[i].key != NullKey && s[i].valueL != []
  }

  lemma {:induction false} ListInsertProper(s: seq<KeyValue>, k: int, v: Value)
    requires Proper(s) && k != NullKey
    ensures Proper(ListInsert(s, k, v))
  {
    if s != [] && k > s[0].key { ListInsertProper(s[1..], k, v); }
  }

  // ----------------------------------------------------------------- size

  function Pow(b: nat, e: nat): nat { if e == 0 then 1 else b * Pow(b, e - 1) }

  /** A tree of height h holds between 2^(h+1)-1 and 3^(h+1)-1 keys. */
  lemma {:induction false} SizeBounds(t: Shape, h: nat)
    requires Balanced(t, h)
    ensures Pow(2, h + 1) - 1 <= |InOrder(t)| <= Pow(3, h + 1) - 1
  {
    match t
    case Leaf1(_) =>
    case Leaf2(_, _) =>
    case Node2(_, l, hi) => SizeBounds(l, h - 1); SizeBounds(hi, h - 1);
    case Node3(_, _, l, m, hi) => SizeBounds(l, h - 1); SizeBounds(m, h - 1); SizeBounds(hi, h - 1);
  }

  // ----------------------------------------------------------------- runs

  datatype Entry = Entry(key: int, value: Value)

  /** The tree after a non-empty run of insertions into the empty tree. */
  function Build(log: seq<Entry>): Shape
    requires log != []
  {
    var e := log[|log| - 1];
    if |log| == 1 then Leaf1(KeyValue(e.key, [e.value]))
    else Top(InsertShape(Build(log[..|log| - 1]), e.key, e.value))
  }

  /** The values inserted under k, the latest first. */
  function Inserted(log: seq<Entry>, k: int): seq<Value> {
    if log == [] then []
    else
      var e := log[|log| - 1];
      (if e.key == k then [e.value] else []) + Inserted(log[..|log| - 1], k)
  }

  predicate NoNullKey(log: seq<Entry>) { forall i :: 0 <= i < |log| ==> log[i].key != NullKey }

  lemma InsertKeepsSearchTree(t: Shape, h: nat, k: int, v: Value)
    requires Balanced(t, h) && Ascending(InOrder(t))
    ensures var r := Top(InsertShape(t, k, v));
            && Ascending(InOrder(r)) && InOrder(r) == ListInsert(InOrder(t), k, v)
            && Balanced(r, if InsertShape(t, k, v).Done? then h else h + 1)
  {
    InsertKeepsBalance(t, h, k, v);
    InsertInOrder(t, k, v);
    ListInsertAscends(InOrder(t), k, v);
  }

  function LoggedKeys(log: seq<Entry>): set<int> { set i | 0 <= i < |log| :: log[i].key }

  lemma LoggedKeysLast(log: seq<Entry>)
    requires log != []
    ensures LoggedKeys(log) == LoggedKeys(log[..|log| - 1]) + {log[|log| - 1].key}
  {
    var n := |log| - 1;
    forall q | q in LoggedKeys(log[..n]) ensures q in LoggedKeys(log) {
      var i :| 0 <= i < n && log[..n][i].key == q;
      assert log[i].key == q;
    }
    forall q | q in LoggedKeys(log) ensures q in LoggedKeys(log[..n]) || q == log[n].key {
      var i :| 0 <= i < |log| && log[i].key == q;
      if i < n { assert log[..n][i].key == q; }
    }
  }

  /** A balanced search tree that is exactly the multimap of the inserted pairs, and whose height
      bounds its number of distinct keys from both sides. */
  ghost predicate Represents(t: Shape, log: seq<Entry>) {
    && Balanced(t, Height(t)) && Ascending(InOrder(t)) && Proper(InOrder(t))
    && (forall k :: ValuesOf(InOrder(t), k) == Inserted(log, k))
    && Keys(InOrder(t)) == LoggedKeys(log)
    && Pow(2, Height(t) + 1) - 1 <= |InOrder(t)| <= Pow(3, Height(t) + 1) - 1
  }

  lemma SingletonRepresents(e: Entry)
    requires e.key != NullKey
    ensures Represents(Leaf1(KeyValue(e.key, [e.value])), [e])
  {
    var x := KeyValue(e.key, [e.value]);
    var t := Leaf1(x);
    KeysCons(x, []);
    assert InOrder(t) == [x] + [];
    assert LoggedKeys([e]) == {e.key} by { LoggedKeysLast([e]); }
    assert [e][..0] == [];
    SizeBounds(t, 0);
  }

  lemma InsertRepresents(t: Shape, log: seq<Entry>, e: Entry)
    requires Represents(t, log) && e.key != NullKey
    ensures Represents(Top(InsertShape(t, e.key, e.value)), log + [e])
  {
    var u := Top(InsertShape(t, e.key, e.value));
    InsertKeepsSearchTree(t, Height(t), e.key, e.value);
    var h := if InsertShape(t, e.key, e.value).Done? then Height(t) else Height(t) + 1;
    BalancedHeight(u, h);
    SizeBounds(u, h);
    ListInsertProper(InOrder(t), e.key, e.value);
    ListInsertKeys(InOrder(t), e.key, e.value);
    LoggedKeysLast(log + [e]);
    assert (log + [e])[..|log|] == log;
    forall k ensures ValuesOf(InOrder(u), k) == Inserted(log + [e], k) {
      ListInsertValues(InOrder(t), e.key, e.value, k);
    }
  }

  /** Every run of insertions into the empty tree. */
  lemma {:induction false} BuildRepresents(log: seq<Entry>)
    requires log != [] && NoNullKey(log)
    ensures Represents(Build(log), log)
  {
    var n := |log| - 1;
    assert log == log[..n] + [log[n]];
    if n == 0 {
      SingletonRepresents(log[0]);
    } else {
      BuildRepresents(log[..n]);
      InsertRepresents(Build(log[..n]), log[..n], log[n]);
    }
  }

  lemma {:induction false} InsertedIffLogged(log: seq<Entry>, k: int)
    ensures Inserted(log, k) != [] <==> k in LoggedKeys(log)
  {
    if log != [] {
      InsertedIffLogged(log[..|log| - 1], k);
      LoggedKeysLast(log);
    }
  }
}
