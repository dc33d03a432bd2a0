/** A fetched slice of nodes and the tree its parent links describe. */
module NodeSlices {
  import opened Sequences
  import opened Outlines

  /** The nodes of the slice whose parent is p, in slice order. */
  function ChildrenOf(nodes: seq<Node>, p: Id): seq<Node> {
    if nodes == [] then []
    else ChildrenOf(nodes[..|nodes| - 1], p)
         + (if nodes[|nodes| - 1].parent == Some(p) then [nodes[|nodes| - 1]] else [])
  }

  function Lookup(m: map<Id, seq<Node>>, p: Id): seq<Node> {
    if p in m then m[p] else []
  }

  /** Group the slice by parent. */
  method GroupByParent(nodes: seq<Node>) returns (m: map<Id, seq<Node>>)
    ensures forall p :: Lookup(m, p) == ChildrenOf(nodes, p)
  {
    m := map[];
    for i := 0 to |nodes|
      invariant forall p :: Lookup(m, p) == ChildrenOf(nodes[..i], p)
    {
      ghost var before := m;
      assert nodes[..i + 1][..i] == nodes[..i];
      match nodes[i].parent {
        case Some(p) => m := m[p := Lookup(m, p) + [nodes[i]]];
        case None =>
      }
      forall p ensures Lookup(m, p) == ChildrenOf(nodes[..i + 1], p) {
        assert Lookup(before, p) == ChildrenOf(nodes[..i], p);
      }
    }
    assert nodes[..|nodes|] == nodes;
  }

  function FirstWithId(nodes: seq<Node>, id: Id): Option<Node> {
    if nodes == [] then None else if nodes[0].id == id then Some(nodes[0]) else FirstWithId(nodes[1..], id)
  }

  lemma {:induction false} ChildrenOfMembers(nodes: seq<Node>, p: Id, n: Node)
    ensures n in ChildrenOf(nodes, p) <==> n in nodes && n.parent == Some(p)
  {
    if nodes != [] {
      var k := |nodes| - 1;
      assert nodes == nodes[..k] + [nodes[k]];
      ChildrenOfMembers(nodes[..k], p, n);
    }
  }

  /** The children come in slice order. */
  lemma {:induction false} ChildrenInOrder(nodes: seq<Node>, p: Id)
    ensures Subseq(ChildrenOf(nodes, p), nodes)
  {
    if nodes != [] {
      var k := |nodes| - 1;
      var last := [nodes[k]];
      ChildrenInOrder(nodes[..k], p);
      assert nodes == nodes[..k] + last;
      SubseqRefl(last);
      if nodes[k].parent == Some(p) {
        SubseqAppend(ChildrenOf(nodes[..k], p), nodes[..k], last, last);
      } else {
        SubseqExtend(ChildrenOf(nodes[..k], p), nodes[..k], last);
        assert ChildrenOf(nodes, p) == ChildrenOf(nodes[..k], p);
      }
    }
  }

  lemma {:induction false} ChildrenOfDistinct(nodes: seq<Node>, p: Id)
    requires NoDup(nodes)
    ensures NoDup(ChildrenOf(nodes, p))
  {
    if nodes != [] {
      var k := |nodes| - 1;
      ChildrenOfDistinct(nodes[..k], p);
      ChildrenOfMembers(nodes[..k], p, nodes[k]);
      assert nodes[k] !in nodes[..k];
      if nodes[k].parent == Some(p) {
        NoDupAppend(ChildrenOf(nodes[..k], p), [nodes[k]]);
      }
    }
  }

  lemma {:induction false} FirstWithIdFound(nodes: seq<Node>, id: Id)
    ensures FirstWithId(nodes, id).Some? ==>
              FirstWithId(nodes, id).value in nodes && FirstWithId(nodes, id).value.id == id
    ensures FirstWithId(nodes, id).None? <==> id !in Ids(nodes)
  {
    if nodes != [] {
      FirstWithIdFound(nodes[1..], id);
    }
  }

  lemma DistinctNodes(nodes: seq<Node>)
    requires DistinctIds(nodes)
    ensures NoDup(nodes)
    ensures forall a, b :: a in nodes && b in nodes && a.id == b.id ==> a == b
  {
    forall i, j | 0 <= i < j < |nodes| ensures nodes[i].id != nodes[j].id {
      assert Ids(nodes)[i] != Ids(nodes)[j];
    }
  }
}
