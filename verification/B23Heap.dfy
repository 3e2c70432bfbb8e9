/** The linked form of the 2-3 tree: node objects with low, middle, high and parent links, the
    ghost value that says which tree they form, and the path from a subtree up to the root. */
module B23Heap {
  import opened B23Shape

  class Node {
    var nid: nat
    var parent: Node?
    var lLink: Node?
    var mLink: Node?
    var hLink: Node?
    var kv0: KeyValue
    var kv1: KeyValue

    /** Zeroed memory, as the node blocks are allocated. */
    constructor ()
      ensures Zeroed()
    {
      nid, parent, lLink, mLink, hLink := 0, null, null, null, null;
      kv0, kv1 := KeyValue(0, []), KeyValue(0, []);
    }

    ghost predicate Zeroed()
      reads this
    {
      parent == null && lLink == null && mLink == null && hLink == null && kv0.valueL == [] && kv1.valueL == []
    }

    method Init(id: nat, p: Node?)
      requires Zeroed()
      modifies this
      ensures nid == id && Blank(this, p)
    {
      nid := id;
      parent := p;
      kv0 := kv0.(key := NullKey);
      kv1 := kv1.(key := NullKey);
    }

    predicate IsLeaf()
      reads this
    {
      lLink == null
    }

    predicate Is2Node()
      reads this
    {
      !IsLeaf() && mLink == null
    }

    /** The slot of this node that holds the key, or 2. */
    function SlotOf(key: int): nat
      reads this
    {
      if kv0.key == key then 0 else if !kv1.IsEmpty() && kv1.key == key then 1 else 2
    }

    /** The child to search next; null on a leaf. */
    function Next(key: int): Node?
      reads this
    {
      if key < kv0.key then lLink
      else if key > (if !kv1.IsEmpty() then kv1.key else kv0.key) then hLink
      else mLink
    }
  }

  /** A newly allocated node below p, with no pair and no children yet. */
  ghost predicate Blank(n: Node, p: Node?)
    reads n
  {
    && n.parent == p && n.kv0 == EmptyPair && n.kv1 == EmptyPair
    && n.lLink == null && n.mLink == null && n.hLink == null
  }

  datatype Tree =
    | L1(n: Node, a: KeyValue)
    | L2(n: Node, a: KeyValue, b: KeyValue)
    | N2(n: Node, a: KeyValue, l: Tree, h: Tree)
    | N3(n: Node, a: KeyValue, b: KeyValue, l: Tree, m: Tree, h: Tree)

  ghost function Nodes(t: Tree): (s: set<Node>)
    ensures t.n in s
  {
    match t
    case L1(n, _) => {n}
    case L2(n, _, _) => {n}
    case N2(n, _, l, h) => {n} + Nodes(l) + Nodes(h)
    case N3(n, _, _, l, m, h) => {n} + Nodes(l) + Nodes(m) + Nodes(h)
  }

  /** The nodes of a tree exist, so a later call that does not mention them leaves them alone. */
  lemma {:induction false} Alive(t: Tree)
    ensures forall x :: x in Nodes(t) ==> allocated(x)
  {
    match t
    case L1(_, _) =>
    case L2(_, _, _) =>
    case N2(_, _, l, h) => Alive(l); Alive(h);
    case N3(_, _, _, l, m, h) => Alive(l); Alive(m); Alive(h);
  }

  ghost function ShapeOf(t: Tree): Shape {
    match t
    case L1(_, a) => Leaf1(a)
    case L2(_, a, b) => Leaf2(a, b)
    case N2(_, a, l, h) => Node2(a, ShapeOf(l), ShapeOf(h))
    case N3(_, a, b, l, m, h) => Node3(a, b, ShapeOf(l), ShapeOf(m), ShapeOf(h))
  }

  /** The outcome that a 2-node coming up from below stands for. */
  ghost function Came(t: Tree): Outcome
    requires t.N2?
  {
    Split(t.a, ShapeOf(t.l), ShapeOf(t.h))
  }

  /** No node occurs twice. */
  ghost predicate Sep(t: Tree) {
    match t
    case L1(_, _) => true
    case L2(_, _, _) => true
    case N2(n, _, l, h) =>
      && Sep(l) && Sep(h)
      && n !in Nodes(l) && n !in Nodes(h) && Nodes(l) !! Nodes(h)
    case N3(n, _, _, l, m, h) =>
      && Sep(l) && Sep(m) && Sep(h)
      && n !in Nodes(l) && n !in Nodes(m) && n !in Nodes(h)
      && Nodes(l) !! Nodes(m) && Nodes(l) !! Nodes(h) && Nodes(m) !! Nodes(h)
  }

  /** The node objects form the tree t, hanging below p: every link, every pair and every child's
      parent pointer agrees. */
  ghost predicate Rep(t: Tree, p: Node?)
    reads Nodes(t)
  {
    && t.n.parent == p && t.n.kv0 == t.a && t.a.key != NullKey
    && match t
       case L1(n, _) => n.kv1 == EmptyPair && n.lLink == null && n.mLink == null && n.hLink == null
       case L2(n, _, b) => n.kv1 == b && b.key != NullKey && n.lLink == null && n.mLink == null && n.hLink == null
       case N2(n, _, l, h) =>
         && n.kv1 == EmptyPair && n.lLink == l.n && n.mLink == null && n.hLink == h.n
         && Rep(l, n) && Rep(h, n)
       case N3(n, _, b, l, m, h) =>
         && n.kv1 == b && b.key != NullKey && n.lLink == l.n && n.mLink == m.n && n.hLink == h.n
         && Rep(l, n) && Rep(m, n) && Rep(h, n)
  }

  /** Rep as one opaque fact: comparing with true keeps callers from unfolding it conjunct by
      conjunct. */
  ghost predicate Hangs(t: Tree, p: Node?)
    reads Nodes(t)
  {
    Rep(t, p) == true
  }

  /** The way from a subtree up to the root: at each ancestor, its pairs and its other children. */
  datatype Path =
    | Root
    | AtLow2(up: Path, n: Node, a: KeyValue, h: Tree)
    | AtHigh2(up: Path, n: Node, a: KeyValue, l: Tree)
    | AtLow3(up: Path, n: Node, a: KeyValue, b: KeyValue, m: Tree, h: Tree)
    | AtMid3(up: Path, n: Node, a: KeyValue, b: KeyValue, l: Tree, h: Tree)
    | AtHigh3(up: Path, n: Node, a: KeyValue, b: KeyValue, l: Tree, m: Tree)

  ghost function Holder(p: Path): Node? { if p.Root? then null else p.n }

  /** The nodes of the children that the path does not go through. */
  ghost function Beside(p: Path): set<Node>
    requires !p.Root?
  {
    match p
    case AtLow2(_, _, _, h) => Nodes(h)
    case AtHigh2(_, _, _, l) => Nodes(l)
    case AtLow3(_, _, _, _, m, h) => Nodes(m) + Nodes(h)
    case AtMid3(_, _, _, _, l, h) => Nodes(l) + Nodes(h)
    case AtHigh3(_, _, _, _, l, m) => Nodes(l) + Nodes(m)
  }

  ghost function PathNodes(p: Path): set<Node> {
    if p.Root? then {} else {p.n} + Beside(p) + PathNodes(p.up)
  }

  /** The ancestor's tree with t in the place the path goes through. */
  ghost function Fill(p: Path, t: Tree): Tree
    requires !p.Root?
  {
    match p
    case AtLow2(_, n, a, h) => N2(n, a, t, h)
    case AtHigh2(_, n, a, l) => N2(n, a, l, t)
    case AtLow3(_, n, a, b, m, h) => N3(n, a, b, t, m, h)
    case AtMid3(_, n, a, b, l, h) => N3(n, a, b, l, t, h)
    case AtHigh3(_, n, a, b, l, m) => N3(n, a, b, l, m, t)
  }

  ghost function Plug(p: Path, t: Tree): Tree {
    if p.Root? then t else Plug(p.up, Fill(p, t))
  }

  ghost function TopNode(p: Path, c: Node): Node { if p.Root? then c else TopNode(p.up, p.n) }

  /** What the whole tree becomes when the subtree at the end of the path has outcome o. */
  ghost function Finish(p: Path, o: Outcome): Shape {
    match p
    case Root => Top(o)
    case AtLow2(up, _, a, h) => Finish(up, Low(a, o, ShapeOf(h)))
    case AtHigh2(up, _, a, l) => Finish(up, High(a, ShapeOf(l), o))
    case AtLow3(up, _, a, b, m, h) => Finish(up, Low3(a, b, o, ShapeOf(m), ShapeOf(h)))
    case AtMid3(up, _, a, b, l, h) => Finish(up, Mid3(a, b, ShapeOf(l), o, ShapeOf(h)))
    case AtHigh3(up, _, a, b, l, m) => Finish(up, High3(a, b, ShapeOf(l), ShapeOf(m), o))
  }

  ghost predicate PathSep(p: Path) {
    p.Root? || (
      && PathSep(p.up)
      && p.n !in Beside(p) && p.n !in PathNodes(p.up) && Beside(p) !! PathNodes(p.up)
      && match p
         case AtLow2(_, _, _, h) => Sep(h)
         case AtHigh2(_, _, _, l) => Sep(l)
         case AtLow3(_, _, _, _, m, h) => Sep(m) && Sep(h) && Nodes(m) !! Nodes(h)
         case AtMid3(_, _, _, _, l, h) => Sep(l) && Sep(h) && Nodes(l) !! Nodes(h)
         case AtHigh3(_, _, _, _, l, m) => Sep(l) && Sep(m) && Nodes(l) !! Nodes(m))
  }

  /** The ancestors' objects agree with the path, with c as the child it goes through. */
  ghost predicate PathRep(p: Path, c: Node)
    reads PathNodes(p)
  {
    p.Root? || (
      && p.n.parent == Holder(p.up) && p.n.kv0 == p.a && p.a.key != NullKey
      && PathRep(p.up, p.n)
      && match p
         case AtLow2(_, n, _, h) =>
           n.kv1 == EmptyPair && n.lLink == c && n.mLink == null && n.hLink == h.n && Rep(h, n)
         case AtHigh2(_, n, _, l) =>
           n.kv1 == EmptyPair && n.lLink == l.n && n.mLink == null && n.hLink == c && Rep(l, n)
         case AtLow3(_, n, _, b, m, h) =>
           && n.kv1 == b && b.key != NullKey && n.lLink == c && n.mLink == m.n && n.hLink == h.n
           && Rep(m, n) && Rep(h, n)
         case AtMid3(_, n, _, b, l, h) =>
           && n.kv1 == b && b.key != NullKey && n.lLink == l.n && n.mLink == c && n.hLink == h.n
           && Rep(l, n) && Rep(h, n)
         case AtHigh3(_, n, _, b, l, m) =>
           && n.kv1 == b && b.key != NullKey && n.lLink == l.n && n.mLink == m.n && n.hLink == c
           && Rep(l, n) && Rep(m, n))
  }

  /** The objects form the tree Plug(p, t), and t is the part of it in focus. */
  ghost predicate Focus(p: Path, t: Tree)
    reads PathNodes(p), Nodes(t)
  {
    (&& Sep(t) && PathSep(p) && Nodes(t) !! PathNodes(p)
     && Rep(t, Holder(p)) && PathRep(p, t.n)) == true
  }

  /** One step up: the holder of the focused subtree comes into focus. */
  lemma Ascend(p: Path, t: Tree)
    requires Focus(p, t) && !p.Root?
    ensures Focus(p.up, Fill(p, t)) && Nodes(Fill(p, t)) == {p.n} + Beside(p) + Nodes(t)
  {
  }

  lemma {:induction false} PathAlive(p: Path)
    ensures forall x :: x in PathNodes(p) ==> allocated(x)
  {
    match p
    case Root =>
    case AtLow2(up, _, _, h) => PathAlive(up); Alive(h);
    case AtHigh2(up, _, _, l) => PathAlive(up); Alive(l);
    case AtLow3(up, _, _, _, m, h) => PathAlive(up); Alive(m); Alive(h);
    case AtMid3(up, _, _, _, l, h) => PathAlive(up); Alive(l); Alive(h);
    case AtHigh3(up, _, _, _, l, m) => PathAlive(up); Alive(l); Alive(m);
  }

  lemma {:induction false} PlugForms(p: Path, t: Tree)
    requires Focus(p, t)
    ensures Sep(Plug(p, t)) && Rep(Plug(p, t), null)
    ensures Nodes(Plug(p, t)) == PathNodes(p) + Nodes(t)
    ensures Plug(p, t).n == TopNode(p, t.n)
    decreases p
  {
    if !p.Root? {
      Ascend(p, t);
      PlugForms(p.up, Fill(p, t));
    }
  }

  /** Plugging in a finished subtree is what finishing the insertion along the path means. */
  lemma {:induction false} PlugFinishes(p: Path, t: Tree)
    ensures ShapeOf(Plug(p, t)) == Finish(p, Done(ShapeOf(t)))
    decreases p
  {
    if !p.Root? {
      PlugFinishes(p.up, Fill(p, t));
    }
  }
}
