/** The pointer surgery of src/core/cwB23Tree.h: leaf split, absorption into a 2-node and the
    splitting of a 3-node, each on one node and the subtrees that change their place. */
module B23Relink {
  import opened B23Shape
  import opened B23Heap

  /** Hang a subtree below another node. */
  method Adopt(x: Node, p: Node, ghost t: Tree)
    requires x == t.n && Sep(t) && Hangs(t, x.parent)
    modifies x`parent
    ensures Hangs(t, p)
  {
    x.parent := p;
  }

  /** Hang two subtrees below another node. */
  method AdoptBoth(x: Node, y: Node, p: Node, ghost t: Tree, ghost u: Tree)
    requires x == t.n && Sep(t) && Hangs(t, x.parent) && y == u.n && Sep(u) && Hangs(u, y.parent)
    requires Nodes(t) !! Nodes(u)
    modifies x`parent, y`parent
    ensures Hangs(t, p) && Hangs(u, p)
  {
    Alive(u); Alive(t);
    Adopt(x, p, t);
    Adopt(y, p, u);
  }

  /** A new node x takes the pair and the two subtrees. */
  method LinkParts(x: Node, kv: KeyValue, lSub: Node, hSub: Node, ghost l: Tree, ghost h: Tree)
    requires l.n == lSub && h.n == hSub && Sep(l) && Sep(h)
    requires Nodes(l) !! Nodes(h) && x !in Nodes(l) && x !in Nodes(h)
    requires Hangs(l, lSub.parent) && Hangs(h, hSub.parent)
    requires kv.key != NullKey && x.kv1 == EmptyPair && x.mLink == null
    modifies x, lSub`parent, hSub`parent
    ensures Hangs(N2(x, kv, l, h), old(x.parent)) && Sep(N2(x, kv, l, h))
  {
    Alive(l); Alive(h);
    x.kv0, x.lLink, x.hLink := kv, lSub, hSub;
    AdoptBoth(lSub, hSub, x, l, h);
  }

  /** A full leaf and two blank nodes become a 2-node with two leaves. */
  method SplitLeaf(n: Node, l: Node, h: Node, key: int, value: Value, ghost t: Tree) returns (ghost w: Tree)
    requires t.L2? && n == t.n && key != NullKey && key != t.a.key && key != t.b.key
    requires Hangs(t, n.parent) && n != l && n != h && l != h
    requires Blank(l, n) && Blank(h, n)
    modifies n, l, h
    ensures w.N2? && w.n == n && Nodes(w) == {n, l, h} && Sep(w) && Hangs(w, old(n.parent))
    ensures Split(w.a, ShapeOf(w.l), ShapeOf(w.h)) == InsertShape(ShapeOf(t), key, value)
  {
    n.lLink, n.hLink := l, h;
    if key < n.kv0.key {
      l.kv0 := KeyValue(key, [value] + l.kv0.valueL);
      h.kv0, n.kv1 := n.kv1, EmptyPair;
    } else if key > n.kv1.key {
      l.kv0, n.kv0 := n.kv0, EmptyPair;
      h.kv0 := KeyValue(key, [value] + h.kv0.valueL);
      n.kv0, n.kv1 := n.kv1, EmptyPair;
    } else {
      l.kv0, n.kv0 := n.kv0, EmptyPair;
      h.kv0, n.kv1 := n.kv1, EmptyPair;
      n.kv0 := KeyValue(key, [value] + n.kv0.valueL);
    }
    w := N2(n, n.kv0, L1(l, l.kv0), L1(h, h.kv0));
    assert [value] + [] == [value];
  }

  /** The low child of a 2-node is absorbed. */
  method AbsorbLow(n: Node, child: Node, ghost p: Tree, ghost q: Tree, ghost h: Tree)
    requires Nodes(p) !! Nodes(q) && Nodes(p) !! Nodes(h) && Nodes(q) !! Nodes(h)
    requires n != child && {n, child} !! Nodes(p) + Nodes(q) + Nodes(h)
    requires Sep(p) && Sep(q) && Sep(h) && Hangs(p, child) && Hangs(q, child) && Hangs(h, n)
    requires n.lLink == child && n.hLink == h.n && child.lLink == p.n && child.hLink == q.n
    requires n.kv0.key != NullKey && child.kv0.key != NullKey && child.kv1 == EmptyPair
    modifies n, child, p.n`parent, q.n`parent
    ensures var w := N3(n, old(child.kv0), old(n.kv0), p, q, h); Hangs(w, old(n.parent)) && Sep(w)
    ensures child.kv0 == EmptyPair && child.kv1 == EmptyPair
  {
    Alive(h);
    AdoptBoth(child.lLink, child.hLink, n, p, q);
    n.kv1, n.kv0, child.kv0 := n.kv0, child.kv0, EmptyPair;
    n.lLink, n.mLink := child.lLink, child.hLink;
  }

  /** The high child of a 2-node is absorbed. */
  method AbsorbHigh(n: Node, child: Node, ghost l: Tree, ghost p: Tree, ghost q: Tree)
    requires Nodes(p) !! Nodes(q) && Nodes(p) !! Nodes(l) && Nodes(q) !! Nodes(l)
    requires n != child && {n, child} !! Nodes(p) + Nodes(q) + Nodes(l)
    requires Sep(p) && Sep(q) && Sep(l) && Hangs(p, child) && Hangs(q, child) && Hangs(l, n)
    requires n.lLink == l.n && n.hLink == child && child.lLink == p.n && child.hLink == q.n
    requires n.kv0.key != NullKey && child.kv0.key != NullKey && child.kv1 == EmptyPair
    modifies n, child, p.n`parent, q.n`parent
    ensures var w := N3(n, old(n.kv0), old(child.kv0), l, p, q); Hangs(w, old(n.parent)) && Sep(w)
    ensures child.kv0 == EmptyPair && child.kv1 == EmptyPair
  {
    Alive(l);
    AdoptBoth(child.lLink, child.hLink, n, p, q);
    n.kv1, child.kv0 := child.kv0, EmptyPair;
    n.mLink, n.hLink := child.lLink, child.hLink;
  }

  /** Two neighbours of three separate subtrees are separate below a node of their own. */
  lemma SepTwo(n: Node, y: Node, a: KeyValue, l: Tree, b: KeyValue, m: Tree, h: Tree)
    requires Sep(N3(n, a, b, l, m, h)) && y !in Nodes(N3(n, a, b, l, m, h))
    ensures Sep(N2(n, a, l, N2(y, b, m, h))) == true && Sep(N2(n, b, N2(y, a, l, m), h)) == true
  {
  }

  /** A 3-node whose low child was split: the middle and high subtrees move below the new node y. */
  method SplitAtLow(n: Node, y: Node, ghost a: KeyValue, ghost b: KeyValue, ghost l: Tree, ghost m: Tree, ghost h: Tree)
    requires Hangs(N3(n, a, b, l, m, h), n.parent) && Sep(N3(n, a, b, l, m, h))
    requires y !in Nodes(N3(n, a, b, l, m, h))
    requires y.parent == n && y.kv1 == EmptyPair && y.mLink == null
    modifies n, y, m.n`parent, h.n`parent
    ensures Hangs(N2(n, a, l, N2(y, b, m, h)), old(n.parent)) && Sep(N2(n, a, l, N2(y, b, m, h))) == true
  {
    Alive(l); Alive(m); Alive(h);
    assert Hangs(m, n) && Hangs(h, n);
    SepTwo(n, y, a, l, b, m, h);
    LinkParts(y, n.kv1, n.mLink, n.hLink, m, h);
    ghost var w := N2(y, b, m, h);
    Alive(w);
    assert n !in Nodes(w) && Hangs(w, n) && Hangs(l, n);
    n.kv1 := EmptyPair;
    n.hLink := y;
    n.mLink := null;
  }

  /** A 3-node whose high child was split: the low and middle subtrees move below the new node y. */
  method SplitAtHigh(n: Node, y: Node, ghost a: KeyValue, ghost b: KeyValue, ghost l: Tree, ghost m: Tree,
                     ghost h: Tree)
    requires Hangs(N3(n, a, b, l, m, h), n.parent) && Sep(N3(n, a, b, l, m, h))
    requires y !in Nodes(N3(n, a, b, l, m, h))
    requires y.parent == n && y.kv1 == EmptyPair && y.mLink == null
    modifies n, y, l.n`parent, m.n`parent
    ensures Hangs(N2(n, b, N2(y, a, l, m), h), old(n.parent)) && Sep(N2(n, b, N2(y, a, l, m), h)) == true
  {
    Alive(l); Alive(m); Alive(h);
    assert Hangs(l, n) && Hangs(m, n) && Hangs(h, n);
    SepTwo(n, y, a, l, b, m, h);
    LinkParts(y, n.kv0, n.lLink, n.mLink, l, m);
    ghost var w := N2(y, a, l, m);
    Alive(w);
    assert n !in Nodes(w) && Hangs(w, n) && Hangs(h, n);
    n.kv0, n.lLink := EmptyPair, y;
    n.kv0, n.kv1, n.mLink := n.kv1, EmptyPair, null;
  }

  /** Two subtrees are separate from each other and from the nodes in s. */
  ghost predicate Two(s: set<Node>, l: Tree, h: Tree) {
    Sep(l) && Sep(h) && Nodes(l) !! Nodes(h) && s !! Nodes(l) && s !! Nodes(h)
  }

  ghost predicate Three(s: set<Node>, l: Tree, m: Tree, h: Tree) {
    Two(s, l, m) && Two(s, l, h) && Two(s, m, h)
  }

  ghost predicate Four(s: set<Node>, l: Tree, p: Tree, q: Tree, h: Tree) {
    Two(s, l, p) && Three(s, l, q, h) && Three(s, p, q, h)
  }

  lemma Fewer(r: set<Node>, s: set<Node>, l: Tree, h: Tree)
    requires Two(s, l, h) && r <= s
    ensures Two(r, l, h) == true
  {
  }

  lemma Joined(s: set<Node>, y: Node, kv: KeyValue, l: Tree, p: Tree, q: Tree)
    requires Two(s + {y}, l, p) && Two(s + {y}, l, q) && Two(s + {y}, p, q) && y !in s
    ensures Two(s, N2(y, kv, l, p), q) == true
  {
  }

  lemma LowerHalf(n: Node, child: Node, y: Node, z: Node, kv: KeyValue, l: Tree, p: Tree, q: Tree, h: Tree)
    requires Four({n, child, y, z}, l, p, q, h) && y !in {n, child, z}
    ensures Two({n, child, y}, l, p) == true && Three({n, child, z}, N2(y, kv, l, p), q, h) == true
  {
    var all, s := {n, child, y, z}, {n, child, z};
    assert s + {y} == all;
    Fewer({n, child, y}, all, l, p);
    Fewer(s, all, q, h);
    Joined(s, y, kv, l, p, q);
    Joined(s, y, kv, l, p, h);
  }

  /** A 3-node whose middle child was split: the child's subtrees go to two new nodes, its pair
      moves up, and the child itself is cut off. */
  method SplitAtMid(n: Node, child: Node, y: Node, z: Node, ghost l: Tree, ghost p: Tree, ghost q: Tree, ghost h: Tree)
    requires Four({n, child, y, z}, l, p, q, h) == true && n != child && y !in {n, child, z} && z !in {n, child}
    requires Hangs(l, n) && Hangs(p, child) && Hangs(q, child) && Hangs(h, n)
    requires n.lLink == l.n && n.hLink == h.n && child.lLink == p.n && child.hLink == q.n
    requires n.kv0.key != NullKey && n.kv1.key != NullKey && child.kv0.key != NullKey
    requires y.parent == n && y.kv1 == EmptyPair && y.mLink == null
    requires z.parent == n && z.kv1 == EmptyPair && z.mLink == null
    modifies n, child, y, z, l.n`parent, p.n`parent, q.n`parent, h.n`parent
    ensures var w := N2(n, old(child.kv0), N2(y, old(n.kv0), l, p), N2(z, old(n.kv1), q, h));
            Hangs(w, old(n.parent)) && Sep(w) == true
  {
    Alive(q); Alive(h);
    LowerHalf(n, child, y, z, n.kv0, l, p, q, h);
    ghost var w := StartMid(n, child, y, l, p);
    FinishMid(n, child, z, w, q, h);
  }

  method StartMid(n: Node, child: Node, y: Node, ghost l: Tree, ghost p: Tree) returns (ghost w: Tree)
    requires Two({n, child, y}, l, p) == true
    requires Hangs(l, n) && Hangs(p, child) && n.lLink == l.n && child.lLink == p.n && y != n && y != child
    requires n.kv0.key != NullKey && y.parent == n && y.kv1 == EmptyPair && y.mLink == null
    modifies n`kv0, n`lLink, y, l.n`parent, p.n`parent
    ensures w == N2(y, old(n.kv0), l, p) && Hangs(w, n) && n.lLink == y
  {
    LinkParts(y, n.kv0, n.lLink, child.lLink, l, p);
    n.kv0, n.lLink := EmptyPair, y;
    w := N2(y, old(n.kv0), l, p);
  }

  lemma SepBelow(n: Node, z: Node, a: KeyValue, b: KeyValue, l: Tree, q: Tree, h: Tree)
    requires Three({n, z}, l, q, h) && n != z
    ensures Sep(N2(n, a, l, N2(z, b, q, h))) == true
  {
  }

  method FinishMid(n: Node, child: Node, z: Node, ghost w: Tree, ghost q: Tree, ghost h: Tree)
    requires Three({n, child, z}, w, q, h) == true && n != child && z !in {n, child}
    requires Hangs(w, n) && Hangs(q, child) && Hangs(h, n)
    requires n.lLink == w.n && n.hLink == h.n && child.hLink == q.n
    requires child.kv0.key != NullKey && n.kv1.key != NullKey
    requires z.parent == n && z.kv1 == EmptyPair && z.mLink == null
    modifies n, child, z, q.n`parent, h.n`parent
    ensures var x := N2(n, old(child.kv0), w, N2(z, old(n.kv1), q, h));
            Hangs(x, old(n.parent)) && Sep(x) == true
  {
    Alive(w);
    Fewer({n, z}, {n, child, z}, w, q);
    Fewer({n, z}, {n, child, z}, w, h);
    Fewer({n, z}, {n, child, z}, q, h);
    SepBelow(n, z, child.kv0, n.kv1, w, q, h);
    LinkParts(z, n.kv1, child.hLink, n.hLink, q, h);
    n.kv1, n.hLink := EmptyPair, z;
    n.kv0, child.kv0, n.mLink := child.kv0, EmptyPair, null;
  }
}
