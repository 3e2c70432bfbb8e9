/** The restructuring steps on a whole subtree: what a node and its children become. */
module B23Steps {
  import opened B23Shape
  import opened B23Heap
  import opened B23Relink

  /** A 2-node absorbs its 2-node child. */
  method Absorb(n: Node, child: Node, ghost f: Tree) returns (ghost w: Tree)
    requires f.N2? && n == f.n && Hangs(f, n.parent) && Sep(f)
    requires (f.l.N2? && child == f.l.n) || (f.h.N2? && child == f.h.n)
    modifies Nodes(f)
    ensures w.N3? && w.n == n && Hangs(w, old(n.parent)) && Sep(w)
    ensures Nodes(w) == Nodes(f) - {child} && child in Nodes(f)
    ensures child.kv0 == EmptyPair && child.kv1 == EmptyPair
    ensures n.parent == old(n.parent)
    ensures Done(ShapeOf(w)) ==
            if child == f.l.n then Low(f.a, Came(f.l), ShapeOf(f.h)) else High(f.a, ShapeOf(f.l), Came(f.h))
  {
    assert Rep(f, n.parent);
    if child == n.lLink {
      var c := f.l;
      assert Rep(c, n) && Sep(c);
      AbsorbLow(n, child, c.l, c.h, f.h);
      w := N3(n, c.a, f.a, c.l, c.h, f.h);
    } else {
      var c := f.h;
      assert Rep(c, n) && Sep(c);
      AbsorbHigh(n, child, f.l, c.l, c.h);
      w := N3(n, f.a, c.a, f.l, c.l, c.h);
    }
  }

  /** A 3-node whose low or high child was split becomes a balanced 2-node: its other two subtrees
      move below the new node y. */
  method BalanceOuter(n: Node, child: Node, y: Node, ghost f: Tree) returns (ghost w: Tree)
    requires f.N3? && n == f.n && Hangs(f, n.parent) && Sep(f)
    requires child == f.l.n || child == f.h.n
    requires y !in Nodes(f) && Blank(y, n)
    modifies Nodes(f), y
    ensures w.N2? && w.n == n && Hangs(w, old(n.parent)) && Sep(w) && Nodes(w) == Nodes(f) + {y}
    ensures n.parent == old(n.parent)
    ensures w == if child == f.l.n then N2(n, f.a, f.l, N2(y, f.b, f.m, f.h))
                 else N2(n, f.b, N2(y, f.a, f.l, f.m), f.h)
  {
    assert Rep(f, n.parent);
    if child == n.lLink {
      SplitAtLow(n, y, f.a, f.b, f.l, f.m, f.h);
      w := N2(n, f.a, f.l, N2(y, f.b, f.m, f.h));
    } else {
      SplitAtHigh(n, y, f.a, f.b, f.l, f.m, f.h);
      w := N2(n, f.b, N2(y, f.a, f.l, f.m), f.h);
    }
  }

  /** A 3-node whose middle child was split becomes a balanced 2-node: the child's subtrees go to
      the new nodes y and z, and the child itself is cut off. */
  method BalanceMiddle(n: Node, child: Node, y: Node, z: Node, ghost f: Tree) returns (ghost w: Tree)
    requires f.N3? && n == f.n && Hangs(f, n.parent) && Sep(f) && f.m.N2? && child == f.m.n
    requires y !in Nodes(f) && z !in Nodes(f) && y != z && Blank(y, n) && Blank(z, n)
    modifies Nodes(f), y, z
    ensures w.N2? && w.n == n && Hangs(w, old(n.parent)) && Sep(w)
    ensures Nodes(w) == Nodes(f) - {child} + {y, z} && child in Nodes(f)
    ensures n.parent == old(n.parent)
    ensures w == N2(n, f.m.a, N2(y, f.a, f.l, f.m.l), N2(z, f.b, f.m.h, f.h))
  {
    assert Rep(f, n.parent);
    var c := f.m;
    assert Rep(c, n);
    FourParts(y, z, f);
    SplitAtMid(n, child, y, z, f.l, c.l, c.h, f.h);
    w := N2(n, c.a, N2(y, f.a, f.l, c.l), N2(z, f.b, c.h, f.h));
  }

  /** The parts of a 3-node whose middle child is a 2-node are separate, and so are the new nodes. */
  lemma FourParts(y: Node, z: Node, f: Tree)
    requires f.N3? && f.m.N2? && Sep(f) && y !in Nodes(f) && z !in Nodes(f)
    ensures Four({f.n, f.m.n, y, z}, f.l, f.m.l, f.m.h, f.h) == true
    ensures f.n != f.m.n && f.m.n in Nodes(f)
    ensures var w := N2(f.n, f.m.a, N2(y, f.a, f.l, f.m.l), N2(z, f.b, f.m.h, f.h));
            Nodes(w) == Nodes(f) - {f.m.n} + {y, z}
  {
    var c := f.m;
    FourSeparate(y, z, f);
    Replaced(f.n, c.n, y, z, Nodes(f.l), Nodes(c.l), Nodes(c.h), Nodes(f.h));
  }

  lemma FourSeparate(y: Node, z: Node, f: Tree)
    requires f.N3? && f.m.N2? && Sep(f) && y !in Nodes(f) && z !in Nodes(f)
    ensures Four({f.n, f.m.n, y, z}, f.l, f.m.l, f.m.h, f.h) == true
    ensures f.n != f.m.n && f.m.n in Nodes(f)
    ensures f.m.n !in {f.n} + Nodes(f.l) + Nodes(f.m.l) + Nodes(f.m.h) + Nodes(f.h)
  {
    assert Sep(f.m);
  }

  lemma Replaced(n: Node, c: Node, y: Node, z: Node, l: set<Node>, p: set<Node>, q: set<Node>, h: set<Node>)
    requires c !in {n} + l + p + q + h
    ensures {n} + ({y} + l + p) + ({z} + q + h) == {n} + l + ({c} + p + q) + h - {c} + {y, z}
  {
  }

  // ---- the same steps below a path to the root, which they leave alone

  method SplitLeafAt(n: Node, l: Node, h: Node, key: int, value: Value, ghost p: Path, ghost t: Tree)
    returns (ghost w: Tree)
    requires Focus(p, t) && t.L2? && n == t.n && key != NullKey && key != t.a.key && key != t.b.key
    requires {l, h} !! PathNodes(p) + Nodes(t) && l != h && Blank(l, n) && Blank(h, n)
    modifies n, l, h
    ensures Focus(p, w) && w.N2? && w.n == n && Nodes(w) == {n, l, h}
    ensures Came(w) == InsertShape(ShapeOf(t), key, value)
  {
    PathAlive(p);
    assert Hangs(t, n.parent);
    w := SplitLeaf(n, l, h, key, value, t);
    assert PathRep(p, n);
  }

  method AbsorbAt(n: Node, child: Node, ghost up: Path, ghost f: Tree) returns (ghost w: Tree)
    requires Focus(up, f) && f.N2? && n == f.n
    requires (f.l.N2? && child == f.l.n) || (f.h.N2? && child == f.h.n)
    modifies Nodes(f)
    ensures Focus(up, w) && w.N3? && w.n == n
    ensures Nodes(w) == Nodes(f) - {child} && child in Nodes(f)
    ensures child.kv0 == EmptyPair && child.kv1 == EmptyPair
    ensures Done(ShapeOf(w)) ==
            if child == f.l.n then Low(f.a, Came(f.l), ShapeOf(f.h)) else High(f.a, ShapeOf(f.l), Came(f.h))
  {
    PathAlive(up);
    w := Absorb(n, child, f);
    assert PathRep(up, n);
  }

  /** The low or the high child of a 3-node is a 2-node. */
  ghost predicate IsOuter(f: Tree, child: Node) {
    f.N3? && ((f.l.N2? && child == f.l.n) || (f.h.N2? && child == f.h.n))
  }

  /** What the 3-node becomes when that child came up from below. */
  ghost function OuterSplit(f: Tree, child: Node): Outcome
    requires IsOuter(f, child)
  {
    if f.l.N2? && child == f.l.n then Low3(f.a, f.b, Came(f.l), ShapeOf(f.m), ShapeOf(f.h))
    else High3(f.a, f.b, ShapeOf(f.l), ShapeOf(f.m), Came(f.h))
  }

  method BalanceOuterAt(n: Node, child: Node, y: Node, ghost up: Path, ghost f: Tree) returns (ghost w: Tree)
    requires Focus(up, f) && n == f.n && IsOuter(f, child)
    requires y !in PathNodes(up) && y !in Nodes(f) && Blank(y, n)
    modifies Nodes(f), y
    ensures Focus(up, w) && w.N2? && w.n == n && Nodes(w) == Nodes(f) + {y}
    ensures Came(w) == OuterSplit(f, child)
  {
    PathAlive(up);
    w := BalanceOuter(n, child, y, f);
    assert PathRep(up, n);
  }

  /** The middle child of a 3-node is a 2-node. */
  ghost predicate IsMiddle(f: Tree, child: Node) { f.N3? && f.m.N2? && child == f.m.n }

  /** What the 3-node becomes when that child came up from below. */
  ghost function MiddleSplit(f: Tree): Outcome
    requires f.N3? && f.m.N2?
  {
    Mid3(f.a, f.b, ShapeOf(f.l), Came(f.m), ShapeOf(f.h))
  }

  /** The tree w of two new nodes in place of the child. */
  ghost predicate IsMiddleSplit(f: Tree, child: Node, w: Tree, made: set<Node>) {
    && IsMiddle(f, child) && w.N2? && w.n == f.n && Came(w) == MiddleSplit(f)
    && child in Nodes(f) && Nodes(w) == Nodes(f) - {child} + made
  }

  method BalanceMiddleAt(n: Node, child: Node, y: Node, z: Node, ghost up: Path, ghost f: Tree) returns (ghost w: Tree)
    requires Focus(up, f) && n == f.n && IsMiddle(f, child)
    requires {y, z} !! PathNodes(up) + Nodes(f) && y != z && Blank(y, n) && Blank(z, n)
    modifies Nodes(f), y, z
    ensures Focus(up, w) && IsMiddleSplit(f, child, w, {y, z}) == true
  {
    PathAlive(up);
    w := BalanceMiddle(n, child, y, z, f);
    assert PathRep(up, n);
  }

  /** A blank node takes its first pair. */
  method FillLeaf(n: Node, key: int, value: Value)
    requires Blank(n, null) && key != NullKey
    modifies n
    ensures Hangs(L1(n, KeyValue(key, [value])), null)
  {
    n.kv0 := KeyValue(key, [value] + n.kv0.valueL);
    assert [value] + [] == [value];
  }

  lemma SameNodes(t: Tree, kv: KeyValue)
    requires Sep(t)
    ensures Nodes(t.(a := kv)) == Nodes(t) && Sep(t.(a := kv)) == true
  {
  }

  /** The key is already in the node: its value goes to the front of the pair's chain. */
  method PushFirst(n: Node, value: Value, ghost p: Path, ghost t: Tree) returns (ghost w: Tree)
    requires Focus(p, t) && n == t.n
    modifies n
    ensures Focus(p, w) && Nodes(w) == Nodes(t) && w.n == n
    ensures Done(ShapeOf(w)) == InsertShape(ShapeOf(t), t.a.key, value)
  {
    assert Hangs(t, n.parent) && Sep(t);
    SameNodes(t, n.kv0.Push(value));
    n.kv0 := n.kv0.Push(value);
    w := t.(a := n.kv0);
  }

  method PushSecond(n: Node, value: Value, ghost p: Path, ghost t: Tree) returns (ghost w: Tree)
    requires Focus(p, t) && n == t.n && (t.L2? || t.N3?) && t.a.key != t.b.key
    modifies n
    ensures Focus(p, w) && Nodes(w) == Nodes(t) && w.n == n
    ensures Done(ShapeOf(w)) == InsertShape(ShapeOf(t), t.b.key, value)
  {
    assert Hangs(t, n.parent) && Sep(t);
    n.kv1 := n.kv1.Push(value);
    w := t.(b := n.kv1);
  }

  /** A leaf with one pair takes the new pair in key order. */
  method InsertIntoOneLeaf(n: Node, key: int, value: Value, ghost p: Path, ghost t: Tree) returns (ghost w: Tree)
    requires Focus(p, t) && t.L1? && n == t.n && key != NullKey && key != t.a.key
    modifies n
    ensures Focus(p, w) && Nodes(w) == Nodes(t) && w.n == n
    ensures Done(ShapeOf(w)) == InsertShape(ShapeOf(t), key, value)
  {
    assert Hangs(t, n.parent);
    if key > n.kv0.key {
      n.kv1 := KeyValue(key, [value] + n.kv1.valueL);
    } else {
      n.kv1, n.kv0 := n.kv0, EmptyPair;
      n.kv0 := KeyValue(key, [value] + n.kv0.valueL);
    }
    w := L2(n, n.kv0, n.kv1);
    assert [value] + [] == [value];
  }

  /** The key belongs in this node: its pair has it, or the node is a leaf with room for it. */
  method InsertInPlace(n: Node, key: int, value: Value, ghost p: Path, ghost t: Tree) returns (ghost w: Tree)
    requires Focus(p, t) && n == t.n && key != NullKey && (key == n.kv0.key || key == n.kv1.key || t.L1?)
    modifies n
    ensures Focus(p, w) && Nodes(w) == Nodes(t) && w.n == n
    ensures Done(ShapeOf(w)) == InsertShape(ShapeOf(t), key, value)
  {
    assert Hangs(t, n.parent);
    if key == n.kv0.key {
      w := PushFirst(n, value, p, t);
    } else if !n.kv1.IsEmpty() && key == n.kv1.key {
      w := PushSecond(n, value, p, t);
    } else {
      w := InsertIntoOneLeaf(n, key, value, p, t);
    }
  }

  /** The path to the child that the key leads to. */
  ghost function Toward(p: Path, t: Tree, key: int): (r: (Path, Tree))
    requires t.N2? || t.N3?
    ensures !r.0.Root? && r.0.up == p && Fill(r.0, r.1) == t && r.1 < t
  {
    match t
    case N2(n, a, l, h) => if key < a.key then (AtLow2(p, n, a, h), l) else (AtHigh2(p, n, a, l), h)
    case N3(n, a, b, l, m, h) =>
      if key < a.key then (AtLow3(p, n, a, b, m, h), l)
      else if key < b.key then (AtMid3(p, n, a, b, l, h), m)
      else (AtHigh3(p, n, a, b, l, m), h)
  }

  /** Inserting at the child and finishing along the longer path is inserting here. */
  lemma DescendFinishes(p: Path, t: Tree, key: int, value: Value)
    requires (t.N2? || t.N3?) && key != t.a.key && (t.N3? ==> key != t.b.key)
    ensures var (q, u) := Toward(p, t, key);
            Finish(q, InsertShape(ShapeOf(u), key, value)) == Finish(p, InsertShape(ShapeOf(t), key, value))
  {
  }

  /** One step down: the child that the key leads to comes into focus. */
  lemma Descend(p: Path, t: Tree, key: int)
    requires (t.N2? || t.N3?) && Focus(p, t)
    ensures var (q, u) := Toward(p, t, key);
            && Focus(q, u) && PathNodes(q) + Nodes(u) == PathNodes(p) + Nodes(t)
            && TopNode(q, u.n) == TopNode(p, t.n)
  {
    var (q, u) := Toward(p, t, key);
    ChildInFocus(q, u);
    assert Nodes(t) == {t.n} + Beside(q) + Nodes(u);
  }

  lemma ChildInFocus(p: Path, t: Tree)
    requires !p.Root? && Focus(p.up, Fill(p, t))
    ensures Focus(p, t)
  {
  }
}
