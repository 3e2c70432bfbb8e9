/** Insertion and search of src/core/cwB23Tree.h on the linked nodes. */
module B23Tree {
  import opened B23Shape
  import opened B23Heap
  import opened B23Arena
  import opened B23Steps

  /** The tree's nodes in use: those above the focus, those in focus, and the leaked ones. */
  ghost predicate Accounts(all: set<Node>, p: Path, t: Tree, leaked: set<Node>) {
    all == PathNodes(p) + Nodes(t) + leaked && leaked !! PathNodes(p) + Nodes(t)
  }

  lemma Exchanged(all: set<Node>, P: set<Node>, T: set<Node>, W: set<Node>, L: set<Node>, A: set<Node>, R: set<Node>,
                  C: set<Node>)
    requires all == P + T + L && L !! P + T && P !! T && A !! all
    requires R + C <= T && R !! C && W == T - R - C + A
    ensures all + A - R == P + W + (L + C) && L + C !! P + W
  {
  }

  /** The accounts after the subtree in focus took up new nodes. */
  lemma Enlarged(all: set<Node>, now: set<Node>, p: Path, t: Tree, u: Tree, leaked: set<Node>, made: set<Node>)
    requires Accounts(all, p, t, leaked) && made !! all && now == all + made && Nodes(u) == Nodes(t) + made
    ensures Accounts(now, p, u, leaked) == true
  {
  }

  lemma Refocused(all: set<Node>, p: Path, t: Tree, leaked: set<Node>)
    requires Focus(p, t) && !p.Root? && Accounts(all, p, t, leaked)
    ensures var f := Fill(p, t);
            && Focus(p.up, f) && PathNodes(p.up) + Nodes(f) <= all && PathNodes(p.up) !! Nodes(f)
            && Nodes(f) == {p.n} + Beside(p) + Nodes(t)
  {
    Ascend(p, t);
  }

  /** The accounts after one step up from (p, t) to w at p's node: made nodes were added, cut ones
      were leaked and released ones were given back. */
  lemma Risen(all: set<Node>, now: set<Node>, p: Path, t: Tree, w: Tree, leaked: set<Node>,
              made: set<Node>, released: set<Node>, cut: set<Node>)
    requires now == (if released == {} then all + made else all - released) && (made == {} || released == {})
    requires !p.Root? && Accounts(all, p, t, leaked) && made !! all
    requires var s := Nodes(Fill(p, t));
             && s == {p.n} + Beside(p) + Nodes(t) && PathNodes(p.up) !! s
             && released + cut <= s && released !! cut && Nodes(w) == s - released - cut + made
    ensures Accounts(now, p.up, w, leaked + cut)
    ensures cut == {} ==> leaked + cut == leaked
  {
    Exchanged(all, PathNodes(p.up), Nodes(Fill(p, t)), Nodes(w), leaked, made, released, cut);
  }

  /** A split that comes up to an outer child of a 3-node splits that, and the walk goes on. */
  lemma OuterCame(p: Path, t: Tree)
    requires (p.AtLow3? || p.AtHigh3?) && t.N2? && Focus(p, t)
    ensures IsOuter(Fill(p, t), t.n) == true
    ensures Finish(p, Came(t)) == Finish(p.up, OuterSplit(Fill(p, t), t.n))
  {
    assert PathNodes(p) !! Nodes(t) && t.n in Nodes(t);
    if p.AtHigh3? { assert p.l.n in Nodes(p.l) && p.l.n in PathNodes(p); }
  }

  /** The two splits, each at the end of its path, make the same tree of the same root object. */
  ghost predicate Leads(p: Path, t: Tree, q: Path, u: Tree) {
    (t.N2? && u.N2? && TopNode(p, t.n) == TopNode(q, u.n) && Finish(p, Came(t)) == Finish(q, Came(u))) == true
  }

  /** The whole tree comes into focus. */
  lemma Closed(all: set<Node>, p: Path, t: Tree, leaked: set<Node>)
    requires Focus(p, t) && Accounts(all, p, t, leaked)
    ensures Focus(Root, Plug(p, t)) && Accounts(all, Root, Plug(p, t), leaked)
    ensures Plug(p, t).n == TopNode(p, t.n)
    ensures ShapeOf(Plug(p, t)) == Finish(p, Done(ShapeOf(t)))
  {
    PlugForms(p, t);
    PlugFinishes(p, t);
  }

  datatype Held = NoTree | Held(t: Tree)

  ghost function HeldNodes(x: Held): set<Node> { if x.NoTree? then {} else Nodes(x.t) }

  class TwoThreeTree {
    const arena: Arena
    var root: Node?
    ghost var tree: Held            // the tree the nodes form
    ghost var leaked: set<Node>     // nodes that were cut off without being released
    ghost var log: seq<Entry>       // all insertions so far

    constructor (nodesPerBlock: nat)
      requires nodesPerBlock > 0
      ensures Valid() == true && log == []
      ensures fresh(Repr())
    {
      var a := new Arena(nodesPerBlock);
      arena := a;
      root, tree, leaked, log := null, NoTree, {}, [];
      new;
      EmptyIsValid();
    }

    lemma EmptyIsValid()
      requires arena.Valid() == true && arena.inUse == {} && root == null && tree.NoTree? && leaked == {} && log == []
      ensures Valid() == true
    {
    }

    ghost function Repr(): set<object>
      reads this, arena
    {
      {this, arena} + arena.slots
    }

    /** The nodes form the tree that the insertions build, and every node in use is part of it or
        leaked. */
    ghost predicate Valid()
      reads this, arena, arena.unused, arena.Free(), HeldNodes(tree)
    {
      && arena.Valid() == true && NoNullKey(log)
      && if root == null then log == [] && tree.NoTree? && arena.inUse == {} && leaked == {}
         else
           && log != [] && tree.Held? && tree.t.n == root
           && Focus(Root, tree.t) && Accounts(arena.inUse, Root, tree.t, leaked)
           && ShapeOf(tree.t) == Build(log)
    }

    /** The subtree t in focus below the path p, beside a sound arena. */
    ghost predicate Stands(p: Path, t: Tree)
      reads arena, arena.unused, arena.Free(), PathNodes(p), Nodes(t)
    {
      (Focus(p, t) && arena.Valid()) == true
    }

    /** Besides, the accounts of all nodes in use. */
    ghost predicate Holds(p: Path, t: Tree, leaked: set<Node>)
      reads arena, arena.unused, arena.Free(), PathNodes(p), Nodes(t)
    {
      (Stands(p, t) && Accounts(arena.inUse, p, t, leaked)) == true
    }

    /** The nodes made since those in all were in use. */
    ghost predicate Adds(all: set<Node>, made: set<Node>)
      reads arena
    {
      (made !! all && arena.inUse == all + made) == true
    }

    method AllocTwoAt(parent: Node, ghost p: Path, ghost t: Tree) returns (x: Node, y: Node, ghost made: set<Node>)
      requires Stands(p, t) && PathNodes(p) + Nodes(t) <= arena.inUse
      modifies arena, arena.unused, arena.Free()
      ensures Stands(p, t) && arena.freeNodeList == null
      ensures x != y && Blank(x, parent) && Blank(y, parent)
      ensures made == {x, y} && Adds(old(arena.inUse), made)
      ensures fresh(arena.slots - old(arena.slots))
    {
      PathAlive(p); Alive(t);
      x, y := arena.AllocTwo(parent);
      made := {x, y};
    }

    method AllocOneAt(parent: Node, ghost p: Path, ghost t: Tree) returns (x: Node, ghost made: set<Node>)
      requires Stands(p, t) && PathNodes(p) + Nodes(t) <= arena.inUse
      modifies arena, arena.unused, arena.Free()
      ensures Stands(p, t) && arena.freeNodeList == null
      ensures Blank(x, parent)
      ensures made == {x} && Adds(old(arena.inUse), made)
      ensures fresh(arena.slots - old(arena.slots))
    {
      PathAlive(p); Alive(t);
      x := arena.AllocNode(parent);
      made := {x};
    }

    /** Release a node that is no longer part of the tree in focus. */
    method ReleaseAt(c: Node, ghost p: Path, ghost t: Tree)
      requires Stands(p, t) && c !in PathNodes(p) && c !in Nodes(t)
      requires c in arena.inUse && arena.freeNodeList == null
      requires c.kv0 == EmptyPair && c.kv1 == EmptyPair
      modifies arena`freeNodeList, arena`inUse, c
      ensures Stands(p, t) && arena.inUse == old(arena.inUse) - {c}
    {
      PathAlive(p); Alive(t);
      arena.ValidIsShort([]);
      arena.FreeNode(c, []);
      assert [c] + [] == [c];
      arena.OneIsValid(c);
    }

    /** A full leaf becomes a 2-node with two leaves. */
    method TwoLeafToTwoNode(n: Node, key: int, value: Value, ghost p: Path, ghost t: Tree)
      returns (ghost w: Tree, ghost made: set<Node>)
      requires t.L2? && n == t.n && key != NullKey && key != t.a.key && key != t.b.key
      requires Stands(p, t) && PathNodes(p) + Nodes(t) <= arena.inUse
      modifies arena, arena.slots
      ensures w.N2? && w.n == n && Stands(p, w) && Nodes(w) == Nodes(t) + made
      ensures arena.freeNodeList == null
      ensures Adds(old(arena.inUse), made)
      ensures fresh(arena.slots - old(arena.slots))
      ensures Came(w) == InsertShape(ShapeOf(t), key, value)
    {
      var l, h;
      l, h, made := AllocTwoAt(n, p, t);
      w := SplitLeafAt(n, l, h, key, value, p, t);
    }

    /** A 2-node absorbs the 2-node that came up from below and releases it. */
    method TwoNodeToThreeNode(n: Node, child: Node, ghost up: Path, ghost f: Tree)
      returns (ghost w: Tree)
      requires f.N2? && n == f.n && ((f.l.N2? && child == f.l.n) || (f.h.N2? && child == f.h.n))
      requires Stands(up, f) && PathNodes(up) + Nodes(f) <= arena.inUse && arena.freeNodeList == null
      modifies arena, arena.slots
      ensures w.N3? && w.n == n && Stands(up, w)
      ensures child in Nodes(f) && Nodes(w) == Nodes(f) - {child}
      ensures arena.inUse == old(arena.inUse) - {child} && arena.slots == old(arena.slots)
      ensures Done(ShapeOf(w)) ==
              if child == f.l.n then Low(f.a, Came(f.l), ShapeOf(f.h)) else High(f.a, ShapeOf(f.l), Came(f.h))
    {
      assert PathNodes(up) !! Nodes(f);
      w := AbsorbAt(n, child, up, f);
      ReleaseAt(child, up, w);
    }

    method SplitOuter(n: Node, child: Node, ghost up: Path, ghost f: Tree)
      returns (ghost w: Tree, ghost made: set<Node>)
      requires n == f.n && IsOuter(f, child) == true
      requires Stands(up, f) && PathNodes(up) + Nodes(f) <= arena.inUse && arena.freeNodeList == null
      modifies arena, arena.slots
      ensures w.N2? && w.n == n && Stands(up, w) && arena.freeNodeList == null
      ensures Adds(old(arena.inUse), made) && Nodes(w) == Nodes(f) + made
      ensures fresh(arena.slots - old(arena.slots))
      ensures Came(w) == OuterSplit(f, child)
    {
      var y;
      y, made := AllocOneAt(n, up, f);
      label Taken:
      w := BalanceOuterAt(n, child, y, up, f);
      assert unchanged@Taken(arena) && unchanged@Taken(arena.unused);
    }

    method SplitMiddle(n: Node, child: Node, ghost up: Path, ghost f: Tree)
      returns (ghost w: Tree, ghost made: set<Node>)
      requires n == f.n && IsMiddle(f, child) == true
      requires Stands(up, f) && PathNodes(up) + Nodes(f) <= arena.inUse && arena.freeNodeList == null
      modifies arena, arena.slots
      ensures Stands(up, w) && arena.freeNodeList == null && IsMiddleSplit(f, child, w, made) == true
      ensures Adds(old(arena.inUse), made)
      ensures fresh(arena.slots - old(arena.slots))
    {
      var y, z;
      y, z, made := AllocTwoAt(n, up, f);
      label Taken:
      w := BalanceMiddleAt(n, child, y, z, up, f);
      assert unchanged@Taken(arena) && unchanged@Taken(arena.unused);
    }
  
    /** One round of the upward walk at a 2-node, which ends it. */
    method UpAtTwoNode(n: Node, sub: Node, ghost p: Path, ghost t: Tree, ghost leaked: set<Node>)
      returns (ghost w: Tree)
      requires (p.AtLow2? || p.AtHigh2?) && n == p.n && t.N2? && sub == t.n
      requires Holds(p, t, leaked) && arena.freeNodeList == null
      modifies arena, arena.slots
      ensures fresh(arena.slots - old(arena.slots))
      ensures Holds(p.up, w, leaked) && w.n == n
      ensures Finish(p, Came(t)) == Finish(p.up, Done(ShapeOf(w)))
    {
      ghost var f := Fill(p, t);
      Refocused(arena.inUse, p, t, leaked);
      w := TwoNodeToThreeNode(n, sub, p.up, f);
      Risen(old(arena.inUse), arena.inUse, p, t, w, leaked, {}, {sub}, {});
    }

    method UpFromOuter(n: Node, sub: Node, ghost p: Path, ghost t: Tree, ghost leaked: set<Node>)
      returns (ghost w: Tree, ghost leaked': set<Node>)
      requires (p.AtLow3? || p.AtHigh3?) && n == p.n && t.N2? && sub == t.n
      requires Holds(p, t, leaked) && arena.freeNodeList == null
      modifies arena, arena.slots
      ensures fresh(arena.slots - old(arena.slots))
      ensures Holds(p.up, w, leaked') && arena.freeNodeList == null && w.N2? && w.n == n
      ensures Finish(p, Came(t)) == Finish(p.up, Came(w))
    {
      ghost var f := Fill(p, t);
      Refocused(arena.inUse, p, t, leaked);
      OuterCame(p, t);
      ghost var made;
      w, made := SplitOuter(n, sub, p.up, f);
      Risen(old(arena.inUse), arena.inUse, p, t, w, leaked, made, {}, {});
      leaked' := leaked;
    }

    method UpFromMiddle(n: Node, sub: Node, ghost p: Path, ghost t: Tree, ghost leaked: set<Node>)
      returns (ghost w: Tree, ghost leaked': set<Node>)
      requires p.AtMid3? && n == p.n && t.N2? && sub == t.n
      requires Holds(p, t, leaked) && arena.freeNodeList == null
      modifies arena, arena.slots
      ensures fresh(arena.slots - old(arena.slots))
      ensures Holds(p.up, w, leaked') && arena.freeNodeList == null && w.N2? && w.n == n
      ensures Finish(p, Came(t)) == Finish(p.up, Came(w))
    {
      ghost var f := Fill(p, t);
      Refocused(arena.inUse, p, t, leaked);
      ghost var made;
      w, made := SplitMiddle(n, sub, p.up, f);
      Risen(old(arena.inUse), arena.inUse, p, t, w, leaked, made, {}, {sub});
      leaked' := leaked + {sub};
    }

    /** One round of the upward walk at a 3-node: the middle child, if split, is cut off without
        being released. */
    method UpAtThreeNode(n: Node, sub: Node, ghost p: Path, ghost t: Tree, ghost leaked: set<Node>)
      returns (ghost w: Tree, ghost leaked': set<Node>)
      requires (p.AtLow3? || p.AtMid3? || p.AtHigh3?) && n == p.n && t.N2? && sub == t.n
      requires Holds(p, t, leaked) && arena.freeNodeList == null
      modifies arena, arena.slots
      ensures fresh(arena.slots - old(arena.slots))
      ensures Holds(p.up, w, leaked') && arena.freeNodeList == null && w.N2? && w.n == n
      ensures Finish(p, Came(t)) == Finish(p.up, Came(w))
    {
      assert PathRep(p, sub) && PathSep(p) && PathNodes(p) !! Nodes(t);
      if sub == n.lLink || sub == n.hLink {
        w, leaked' := UpFromOuter(n, sub, p, t, leaked);
      } else {
        w, leaked' := UpFromMiddle(n, sub, p, t, leaked);
      }
    }

    /** A split has come up to t, and the walk goes on at the holder n of t. */
    ghost predicate Rising(n: Node?, sub: Node, p: Path, t: Tree, leaked: set<Node>)
      reads arena, arena.unused, arena.Free(), PathNodes(p), Nodes(t)
    {
      (n == Holder(p) && t.N2? && sub == t.n && arena.freeNodeList == null && Holds(p, t, leaked)) == true
    }

    method RoundUp(n: Node, sub: Node, ghost p: Path, ghost t: Tree, ghost leaked: set<Node>)
      returns (above: Node?, holder: Node, ghost w: Tree, ghost leaked': set<Node>)
      requires Rising(n, sub, p, t, leaked) && !n.Is2Node()
      modifies arena, arena.slots
      ensures fresh(arena.slots - old(arena.slots))
      ensures !p.Root? && Rising(above, holder, p.up, w, leaked') && Leads(p, t, p.up, w)
    {
      assert PathRep(p, sub);
      w, leaked' := UpAtThreeNode(n, sub, p, t, leaked);
      assert Hangs(w, Holder(p.up));
      holder, above := n, n.parent;
    }

    /** The upward walk past the 3-nodes. */
    method Climb(n0: Node?, sub0: Node, ghost p0: Path, ghost t0: Tree, ghost leaked0: set<Node>)
      returns (n: Node?, sub: Node, ghost p: Path, ghost t: Tree, ghost leaked: set<Node>)
      requires Rising(n0, sub0, p0, t0, leaked0)
      modifies arena, arena.slots
      ensures fresh(arena.slots - old(arena.slots))
      ensures Rising(n, sub, p, t, leaked) && (n == null || n.Is2Node()) && Leads(p0, t0, p, t)
    {
      n, sub, p, t, leaked := n0, sub0, p0, t0, leaked0;
      while n != null && !n.Is2Node()
        invariant Rising(n, sub, p, t, leaked) && Leads(p0, t0, p, t)
        invariant fresh(arena.slots - old(arena.slots))
        decreases p
      {
        n, sub, t, leaked := RoundUp(n, sub, p, t, leaked);
        p := p.up;
      }
    }

    /** The end of the upward walk: at a 2-node, which absorbs the split, or beyond the root. */
    method EndUp(n: Node?, sub: Node, ghost p: Path, ghost t: Tree, ghost leaked: set<Node>) returns (ghost w: Tree)
      requires Rising(n, sub, p, t, leaked) && (n == null || n.Is2Node())
      modifies arena, arena.slots
      ensures fresh(arena.slots - old(arena.slots))
      ensures Holds(Root, w, leaked)
      ensures w.n == TopNode(p, t.n) && ShapeOf(w) == Finish(p, Came(t))
    {
      assert PathRep(p, sub);
      if n == null {
        w := t;
      } else {
        ghost var u := UpAtTwoNode(n, sub, p, t, leaked);
        Closed(arena.inUse, p.up, u, leaked);
        w := Plug(p.up, u);
      }
    }

    /** The walk up to the first 2-node, or to the root, whose node object stays the root. */
    method InsertUp(n0: Node?, sub0: Node, ghost p0: Path, ghost t0: Tree, ghost leaked0: set<Node>)
      returns (ghost w: Tree, ghost leaked: set<Node>)
      requires Rising(n0, sub0, p0, t0, leaked0)
      modifies arena, arena.slots
      ensures fresh(arena.slots - old(arena.slots))
      ensures Holds(Root, w, leaked)
      ensures w.n == TopNode(p0, t0.n) && ShapeOf(w) == Finish(p0, Came(t0))
    {
      var n, sub;
      ghost var p, t;
      n, sub, p, t, leaked := Climb(n0, sub0, p0, t0, leaked0);
      w := EndUp(n, sub, p, t, leaked);
    }

    /** The new pair splits a full leaf, and the split moves up. */
    method SplitAndRise(n: Node, key: int, value: Value, ghost p: Path, ghost t: Tree, ghost leaked0: set<Node>)
      returns (ghost w: Tree, ghost leaked: set<Node>)
      requires t.L2? && n == t.n && key != NullKey && key != t.a.key && key != t.b.key
      requires Holds(p, t, leaked0)
      modifies arena, arena.slots
      ensures fresh(arena.slots - old(arena.slots))
      ensures Holds(Root, w, leaked)
      ensures w.n == TopNode(p, n)
      ensures ShapeOf(w) == Finish(p, InsertShape(ShapeOf(t), key, value))
    {
      ghost var made;
      ghost var u;
      assert PathNodes(p) !! Nodes(t);
      u, made := TwoLeafToTwoNode(n, key, value, p, t);
      Enlarged(old(arena.inUse), arena.inUse, p, t, u, leaked0, made);
      w, leaked := InsertUp(n.parent, n, p, u, leaked0);
    }
  
    /** The insertion at the node where the downward walk ends. */
    method InsertHere(n: Node, key: int, value: Value, ghost p: Path, ghost t: Tree, ghost leaked0: set<Node>)
      returns (ghost w: Tree, ghost leaked: set<Node>)
      requires n == t.n && key != NullKey && (t.L1? || t.L2? || key == n.kv0.key || key == n.kv1.key)
      requires Holds(p, t, leaked0)
      modifies arena, arena.slots
      ensures fresh(arena.slots - old(arena.slots))
      ensures Holds(Root, w, leaked)
      ensures w.n == TopNode(p, n)
      ensures ShapeOf(w) == Finish(p, InsertShape(ShapeOf(t), key, value))
    {
      assert Hangs(t, n.parent);
      if key == n.kv0.key || key == n.kv1.key || n.kv1.IsEmpty() {
        w := Place(n, key, value, p, t, leaked0);
        leaked := leaked0;
      } else {
        w, leaked := SplitAndRise(n, key, value, p, t, leaked0);
      }
    }

    method Place(n: Node, key: int, value: Value, ghost p: Path, ghost t: Tree, ghost leaked: set<Node>)
      returns (ghost w: Tree)
      requires n == t.n && key != NullKey && (t.L1? || key == n.kv0.key || key == n.kv1.key)
      requires Holds(p, t, leaked)
      modifies n
      ensures Holds(Root, w, leaked)
      ensures w.n == TopNode(p, n)
      ensures ShapeOf(w) == Finish(p, InsertShape(ShapeOf(t), key, value))
    {
      ghost var u := InsertInPlace(n, key, value, p, t);
      w := Plug(p, u);
      Closed(arena.inUse, p, u, leaked);
    }

    /** The downward walk to the pair or the leaf where the key belongs, and the insertion there. */
    method InsertDown(start: Node, key: int, value: Value, ghost t0: Tree, ghost leaked0: set<Node>)
      returns (ghost w: Tree, ghost leaked: set<Node>)
      requires start == t0.n && key != NullKey
      requires Holds(Root, t0, leaked0)
      modifies arena, arena.slots
      ensures fresh(arena.slots - old(arena.slots))
      ensures Holds(Root, w, leaked)
      ensures w.n == start && ShapeOf(w) == Top(InsertShape(ShapeOf(t0), key, value))
    {
      var n := start;
      ghost var p, t := Root, t0;
      while !n.IsLeaf() && key != n.kv0.key && (n.kv1.IsEmpty() || key != n.kv1.key)
        invariant n == t.n && Focus(p, t)
        invariant PathNodes(p) + Nodes(t) == Nodes(t0)
        invariant TopNode(p, t.n) == start
        invariant Finish(p, InsertShape(ShapeOf(t), key, value)) == Top(InsertShape(ShapeOf(t0), key, value))
        decreases t
        modifies {}
      {
        assert Hangs(t, n.parent);
        ghost var (q, u) := Toward(p, t, key);
        Descend(p, t, key);
        DescendFinishes(p, t, key, value);
        if n.Is2Node() {
          n := if key < n.kv0.key then n.lLink else n.hLink;
        } else {
          n := if key < n.kv0.key then n.lLink else if key < n.kv1.key then n.mLink else n.hLink;
        }
        p, t := q, u;
      }
      assert Hangs(t, n.parent);
      w, leaked := InsertHere(n, key, value, p, t, leaked0);
    }
  
    /** The books after an insertion that left the tree w. */
    ghost method Record(w: Tree, cut: set<Node>, e: Entry)
      requires arena.Valid() && NoNullKey(log) && e.key != NullKey && w.n == root
      requires Focus(Root, w) && Accounts(arena.inUse, Root, w, cut)
      requires ShapeOf(w) == Build(log + [e])
      modifies `tree, `leaked, `log
      ensures Valid() && log == old(log) + [e]
    {
      Alive(w);
      tree, leaked, log := Held(w), cut, log + [e];
    }

    method AllocLeaf(key: int, value: Value) returns (n: Node)
      requires arena.Valid() && key != NullKey
      modifies arena, arena.unused, arena.Free()
      ensures arena.Valid() && arena.inUse == old(arena.inUse) + {n} && fresh(arena.slots - old(arena.slots))
      ensures Hangs(L1(n, KeyValue(key, [value])), null)
    {
      n := arena.AllocNode(null);
      FillLeaf(n, key, value);
    }

    /** The first node, which stays the root for good. */
    method InsertFirst(key: int, value: Value)
      requires Valid() && root == null && key != NullKey
      modifies Repr()
      ensures Valid() && log == old(log) + [Entry(key, value)] && root != null
      ensures fresh(Repr() - old(Repr()))
    {
      var n := AllocLeaf(key, value);
      root := n;
      Record(L1(n, KeyValue(key, [value])), {}, Entry(key, value));
    }

    method InsertMore(key: int, value: Value)
      requires Valid() && root != null && key != NullKey
      modifies Repr()
      ensures Valid() && log == old(log) + [Entry(key, value)] && root == old(root)
      ensures fresh(Repr() - old(Repr()))
    {
      ghost var e := Entry(key, value);
      ghost var w, cut := InsertDown(root, key, value, tree.t, leaked);
      assert (log + [e])[..|log|] == log;
      Record(w, cut, e);
    }
  
    /** Insertion: the tree stays a balanced search tree that is exactly the multimap of all
        insertions so far, and the root object, once there, is never replaced. */
    method Insert(key: int, value: Value)
      requires Valid() && key != NullKey
      modifies Repr()
      ensures Valid() && log == old(log) + [Entry(key, value)]
      ensures root != null && (old(root) != null ==> root == old(root))
      ensures fresh(Repr() - old(Repr()))
      ensures Represents(ShapeOf(tree.t), log)
    {
      if root == null {
        InsertFirst(key, value);
      } else {
        InsertMore(key, value);
      }
      BuildRepresents(log);
    }

    /** The node and slot of a key, found in at most height + 1 nodes; no node exactly when the key
        was never inserted. */
    method KeyToNode(key: int) returns (r: Node?, slot: nat, ghost visits: nat)
      requires Valid() && root != null
      ensures r != null <==> key in LoggedKeys(log)
      ensures r != null ==> r in Nodes(tree.t) && slot < 2 && slot == r.SlotOf(key)
      ensures r != null ==> (if slot == 0 then r.kv0 else r.kv1) == KeyValue(key, Inserted(log, key))
      ensures visits <= Height(ShapeOf(tree.t)) + 1
    {
      InsertedIffLogged(log, key);
      SearchStarts(tree.t, key, log);
      r, slot, visits := Search(root, key, tree.t, log, Height(ShapeOf(tree.t)));
    }
  }

  /** The walk down from the root of a tree that is h levels high. */
  method Search(start: Node, key: int, ghost whole: Tree, ghost log: seq<Entry>, ghost h: nat)
    returns (r: Node?, slot: nat, ghost visits: nat)
    requires start == whole.n && SearchAt(whole, whole, key, log, h)
    ensures r != null <==> Inserted(log, key) != []
    ensures r != null ==> r in Nodes(whole) && slot < 2 && slot == r.SlotOf(key)
    ensures r != null ==> (if slot == 0 then r.kv0 else r.kv1) == KeyValue(key, Inserted(log, key))
    ensures visits <= h + 1
  {
    r, visits, slot := start, 0, 2;
    ghost var t := whole;
    while r != null
      invariant r != null ==> r == t.n && visits <= h && SearchAt(whole, t, key, log, h - visits)
      invariant r == null ==> Inserted(log, key) == [] && visits <= h + 1
      decreases if r == null then 0 else 1, t
    {
      slot := r.SlotOf(key);
      if slot < 2 {
        FoundPair(whole, t, key, slot, log, h - visits);
        visits := visits + 1;
        break;
      }
      SeekOn(whole, t, key, log, h - visits);
      r, visits := r.Next(key), visits + 1;
      t := if t.N2? || t.N3? then Toward(Root, t, key).1 else t;
    }
  }

  /** The search has come to a subtree that alone can hold the key. */
  ghost predicate Seeking(t: Tree, key: int, log: seq<Entry>)
    reads Nodes(t)
  {
    var s := InOrder(ShapeOf(t));
    Hangs(t, t.n.parent) && Ascending(s) && Proper(s) && ValuesOf(s, key) == Inserted(log, key)
  }

  /** It is part of the tree and h levels high. */
  ghost predicate SearchAt(whole: Tree, t: Tree, key: int, log: seq<Entry>, h: nat)
    reads Nodes(t)
  {
    (Nodes(t) <= Nodes(whole) && Balanced(ShapeOf(t), h) && Seeking(t, key, log)) == true
  }

  lemma SearchStarts(t: Tree, key: int, log: seq<Entry>)
    requires Focus(Root, t) && log != [] && NoNullKey(log) && ShapeOf(t) == Build(log)
    ensures SearchAt(t, t, key, log, Height(ShapeOf(t)))
  {
    BuildRepresents(log);
    assert Rep(t, null);
  }

  lemma FoundPair(whole: Tree, t: Tree, key: int, slot: nat, log: seq<Entry>, h: nat)
    requires SearchAt(whole, t, key, log, h) && slot == t.n.SlotOf(key) && slot < 2
    ensures (if slot == 0 then t.n.kv0 else t.n.kv1) == KeyValue(key, Inserted(log, key))
    ensures Inserted(log, key) != [] && t.n in Nodes(whole)
  {
    var s := InOrder(ShapeOf(t));
    var i :=
      match t
      case L1(_, _) => 0
      case L2(_, _, _) => slot
      case N2(_, _, l, _) => |InOrder(ShapeOf(l))|
      case N3(_, _, _, l, m, _) => |InOrder(ShapeOf(l))| + slot * (1 + |InOrder(ShapeOf(m))|);
    assert Rep(t, t.n.parent);
    assert s[i] == if slot == 0 then t.n.kv0 else t.n.kv1;
    ValuesOfPresent(s, i);
  }

  lemma SeekOn(whole: Tree, t: Tree, key: int, log: seq<Entry>, h: nat)
    requires SearchAt(whole, t, key, log, h) && t.n.SlotOf(key) == 2
    ensures if t.N2? || t.N3? then
              var u := Toward(Root, t, key).1;
              h > 0 && t.n.Next(key) == u.n && SearchAt(whole, u, key, log, h - 1)
            else t.n.Next(key) == null && Inserted(log, key) == []
  {
    assert Rep(t, t.n.parent);
    if t.N2? || t.N3? {
      SearchStep(ShapeOf(t), key);
      assert Rep(Toward(Root, t, key).1, t.n);
    } else {
      ValuesOfAbsent(InOrder(ShapeOf(t)), key);
    }
  }
}
