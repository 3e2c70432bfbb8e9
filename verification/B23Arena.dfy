/** The node arena of the 2-3 tree: fixed-size blocks handed out slot by slot, and a free list
    linked through the parent pointers of released nodes. */
module B23Arena {
  import opened B23Shape
  import opened B23Heap

  ghost predicate NoDup(s: seq<Node>) { forall i, j :: 0 <= i < j < |s| ==> s[i] != s[j] }

  ghost function Elements(s: seq<Node>): set<Node> { set x | x in s }

  lemma HeadApart(s: seq<Node>)
    requires s != [] && NoDup(s)
    ensures Elements(s) == {s[0]} + Elements(s[1..]) && s[0] !in Elements(s[1..]) && NoDup(s[1..])
  {
  }

  lemma Lost(slots: set<Node>, inUse: set<Node>, unused: set<Node>, n: Node, rest: set<Node>)
    requires slots == inUse + ({n} + rest) + unused && n !in rest && n !in unused
    requires inUse !! unused && rest !! inUse && rest !! unused
    ensures var all := inUse + {n}; all !! unused && all + unused <= slots && slots - all - unused == rest
  {
  }

  ghost function AllSlots(bs: seq<seq<Node>>): set<Node> {
    if bs == [] then {} else AllSlots(bs[..|bs| - 1]) + Elements(bs[|bs| - 1])
  }

  /** The nodes of a free list, linked by their parents. */
  ghost predicate IsChain(head: Node?, s: seq<Node>)
    reads s
  {
    if s == [] then head == null else head == s[0] && IsChain(s[0].parent, s[1..])
  }

  class Arena {
    var nodeBlocks: seq<seq<Node>>  // all blocks but the last are used up
    var nextAvail: nat              // next unused slot of the last block
    var nodesPerBlock: nat
    var freeNodeList: Node?
    var nextNid: nat
    ghost var inUse: set<Node>      // the slots handed out and not on the free list
    ghost var unused: set<Node>     // the slots never handed out
    ghost var slots: set<Node>      // all slots of all blocks

    /** The slots of the last block that are not handed out yet. */
    ghost function Rest(): seq<Node>
      reads `nodeBlocks, `nextAvail
    {
      var last := if nodeBlocks == [] then [] else nodeBlocks[|nodeBlocks| - 1];
      if nextAvail <= |last| then last[nextAvail..] else []
    }

    ghost function Free(): set<Node>
      reads `freeNodeList
    {
      if freeNodeList == null then {} else {freeNodeList}
    }

    /** The unused slots are the rest of the last block. */
    ghost predicate Layout()
      reads `nodeBlocks, `nextAvail, `nodesPerBlock, `unused
    {
      && nodesPerBlock > 0 && nodeBlocks != []
      && nextAvail <= |nodeBlocks[|nodeBlocks| - 1]|
      && (forall i :: 0 <= i < |nodeBlocks| ==> |nodeBlocks[i]| == nodesPerBlock)
      && unused == Elements(Rest()) && NoDup(Rest())
    }

    /** Every slot of every block is in use, free or still unused, and only one of these; unused
        slots are zeroed, and the free list holds at most one node. */
    ghost predicate Valid()
      reads this, unused, Free()
    {
      && Layout()
      && inUse !! unused && Free() !! inUse && Free() !! unused
      && inUse + Free() + unused == slots && slots == AllSlots(nodeBlocks)
      && (forall x :: x in unused ==> x.Zeroed())
      && (freeNodeList != null ==> freeNodeList.parent == null)
    }

    /** The same for a free list of any length: no slot is lost. */
    ghost predicate Accounts(s: seq<Node>)
      reads this, unused, s
    {
      && Layout() && IsChain(freeNodeList, s) && NoDup(s)
      && inUse !! unused && Elements(s) !! inUse && Elements(s) !! unused
      && inUse + Elements(s) + unused == slots && slots == AllSlots(nodeBlocks)
      && AllZeroed()
    }

    lemma ValidIsShort(s: seq<Node>)
      requires Valid() && |s| <= 1 && (s == [] <==> freeNodeList == null) && (s != [] ==> s[0] == freeNodeList)
      ensures Accounts(s)
    {
      if s != [] { assert s[1..] == [] && Elements(s) == Free(); }
    }

    lemma OneIsValid(n: Node)
      requires Accounts([n])
      ensures Valid() && freeNodeList == n && n.parent == null
    {
      assert IsChain(n.parent, [n][1..]);
      assert n in Elements([n]) && Elements([n]) == Free();
    }

    constructor (n: nat)
      requires n > 0
      ensures Valid() && inUse == {} && freeNodeList == null
      ensures fresh(slots)
    {
      nodesPerBlock, nodeBlocks, nextAvail := n, [], 0;
      freeNodeList, nextNid, inUse := null, 0, {};
      new;
      var b := NewBlock(n);
      nodeBlocks := [b];
      assert nodeBlocks[..0] == [] && Rest() == b;
      unused, slots := Elements(b), Elements(b);
    }

    static method NewBlock(n: nat) returns (b: seq<Node>)
      ensures |b| == n && NoDup(b)
      ensures forall x :: x in b ==> fresh(x) && x.Zeroed()
    {
      b := [];
      while |b| < n
        invariant |b| <= n && NoDup(b)
        invariant forall x :: x in b ==> fresh(x) && x.Zeroed()
      {
        var x := new Node();
        b := b + [x];
      }
    }

    method AllocNodeBlock()
      requires Valid() && nextAvail == |nodeBlocks[|nodeBlocks| - 1]|
      modifies `nodeBlocks, `nextAvail, `unused, `slots
      ensures Valid() && nextAvail < |nodeBlocks[|nodeBlocks| - 1]|
      ensures fresh(slots - old(slots)) && inUse == old(inUse)
    {
      ghost var was := nodeBlocks;
      assert Rest() == [];
      var b := NewBlock(nodesPerBlock);
      nodeBlocks := nodeBlocks + [b];
      nextAvail := 0;
      unused, slots := Elements(b), slots + Elements(b);
      assert nodeBlocks[..|was|] == was && Rest() == b;
    }

    method TakeNext() returns (n: Node)
      requires Valid() && nextAvail < |nodeBlocks[|nodeBlocks| - 1]|
      modifies `nextAvail, `inUse, `unused
      ensures Valid() && n.Zeroed()
      ensures n in old(unused) && inUse == old(inUse) + {n} && unused == old(unused) - {n}
    {
      ghost var rest := Rest();
      n := nodeBlocks[|nodeBlocks| - 1][nextAvail];
      nextAvail := nextAvail + 1;
      assert rest[0] == n && rest[1..] == Rest();
      HeadApart(rest);
      inUse, unused := inUse + {n}, unused - {n};
    }

    method TakeUnused() returns (n: Node)
      requires Valid()
      modifies `nodeBlocks, `nextAvail, `inUse, `unused, `slots
      ensures Valid() && n.Zeroed()
      ensures n !in old(inUse) && inUse == old(inUse) + {n} && n !in unused
      ensures n in old(unused) || fresh(n)
      ensures fresh(slots - old(slots))
    {
      if nextAvail >= |nodeBlocks[|nodeBlocks| - 1]| {
        AllocNodeBlock();
      }
      n := TakeNext();
    }

    /** The node at the head of the free list. Its parent link is read only after the node was cleared, so
        the rest of the list is dropped: these slots, and no others, are lost. So none is lost exactly
        when the list had one node. */
    method TakeFree(ghost s: seq<Node>) returns (n: Node)
      requires Accounts(s) && s != []
      modifies `freeNodeList, `inUse, s[0]
      ensures n == s[0] && freeNodeList == null && n.Zeroed() && inUse == old(inUse) + {n}
      ensures inUse !! unused && slots - inUse - unused == Elements(s[1..])
      ensures Accounts([]) <==> |s| == 1
    {
      HeadApart(s);
      Lost(slots, inUse, unused, s[0], Elements(s[1..]));
      n := TakeHead();
      LostIsRest(s[1..]);
    }

    method TakeHead() returns (n: Node)
      requires freeNodeList != null && freeNodeList !in unused && AllZeroed() == true
      modifies `freeNodeList, `inUse, freeNodeList
      ensures n == old(freeNodeList) && freeNodeList == null && n.Zeroed() && inUse == old(inUse) + {n}
      ensures AllZeroed() == true
    {
      n := freeNodeList;
      n.nid, n.parent, n.lLink, n.mLink, n.hLink := 0, null, null, null, null;
      n.kv0, n.kv1 := KeyValue(0, []), KeyValue(0, []);
      freeNodeList := freeNodeList.parent;
      inUse := inUse + {n};
    }

    ghost predicate AllZeroed()
      reads this`unused, unused
    {
      forall x :: x in unused ==> x.Zeroed()
    }

    /** Of an arena without a free list the slots are accounted for exactly when none are lost. */
    lemma LostIsRest(lost: seq<Node>)
      requires Layout() && freeNodeList == null && inUse !! unused && inUse + unused <= slots
      requires slots == AllSlots(nodeBlocks) && slots - inUse - unused == Elements(lost)
      requires AllZeroed() == true
      ensures Accounts([]) <==> lost == []
    {
      if lost != [] { assert lost[0] in Elements(lost); }
    }

    /** A cleared node, from the free list or from the next unused slot: nodes only move from free
        or unused to in use. */
    method AllocNode(parent: Node?) returns (n: Node)
      requires Valid()
      modifies this, unused, Free()
      ensures Valid() && freeNodeList == null
      ensures n !in old(inUse) && inUse == old(inUse) + {n}
      ensures fresh(slots - old(slots))
      ensures Blank(n, parent)
    {
      n := TakeNode();
      n.Init(nextNid, parent);
      nextNid := nextNid + 1;
    }

    method TakeNode() returns (n: Node)
      requires Valid()
      modifies this, unused, Free()
      ensures Valid() && freeNodeList == null && n.Zeroed() && n !in unused
      ensures n in old(unused) || n in old(Free()) || fresh(n)
      ensures n !in old(inUse) && inUse == old(inUse) + {n}
      ensures fresh(slots - old(slots))
    {
      if freeNodeList != null {
        ValidIsShort([freeNodeList]);
        n := TakeFree([freeNodeList]);
      } else {
        n := TakeUnused();
      }
    }

    method AllocTwo(parent: Node) returns (x: Node, y: Node)
      requires Valid()
      modifies this, unused, Free()
      ensures Valid() && freeNodeList == null && x != y
      ensures {x, y} !! old(inUse) && inUse == old(inUse) + {x, y}
      ensures fresh(slots - old(slots))
      ensures Blank(x, parent) && Blank(y, parent)
    {
      x := AllocNode(parent);
      y := AllocNode(parent);
    }

    /** Release a node, with the values it may still have, to the front of the free list, which may be of
        any length. */
    method FreeNode(n: Node, ghost s: seq<Node>)
      requires Accounts(s) && n in inUse
      modifies `freeNodeList, `inUse, n
      ensures Accounts([n] + s)
      ensures inUse == old(inUse) - {n} && n.kv0 == EmptyPair && n.kv1 == EmptyPair
    {
      n.kv0 := EmptyPair;
      n.kv1 := EmptyPair;
      n.parent := freeNodeList;
      freeNodeList := n;
      inUse := inUse - {n};
    }
  }
}
