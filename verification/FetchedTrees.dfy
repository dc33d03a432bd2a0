/** What a subtree fetch hands to its consumers: the returned nodes are a tree under the scope node,
    which is what the deep copy and the printers take for granted. */
module FetchedTrees {
  import opened Sequences
  import opened Outlines
  import opened LevelOrder
  import opened Network
  import opened SubtreeFetch
  import opened NodeSlices
  import DeepCopy
  import Markdown

  /** A parent the scope node claims is the one it hangs under. */
  ghost predicate RootPlaced(o: Outline, root: Node) {
    root.parent.Some? ==> Owns(o, root.parent.value, root.id)
  }

  lemma {:induction false} ListedOwned(o: Outline, level: seq<Node>, d: nat, n: Node) returns (p: Id)
    requires ParentsAgree(o) && n in Listed(o, level, d) && n !in level
    ensures n in Listing(o, p)
    decreases d
  {
    hide Listing;
    hide Blocks;
    hide Listed;
    InListed(o, level, d, n);
    var next := Blocks(o, Ids(level));
    if n in next {
      BlocksMembers(o, Ids(level), n);
      p := n.parent.value;
    } else {
      p := ListedOwned(o, next, d - 1, n);
    }
  }

  /** A returned node other than the scope node hangs under its parent, deeper than the scope. */
  lemma BelowScope(o: Outline, root: Node, d: nat, rank: map<Id, nat>, n: Node)
    requires OneOwner(o) && ParentsAgree(o) && Ranked(o, rank)
    requires n in Listed(o, Listing(o, root.id), d)
    ensures n.parent.Some? && n.id in rank && n.parent.value in rank && rank[n.id] == rank[n.parent.value] + 1
    ensures root.id in rank && rank[n.id] > rank[root.id]
  {
    hide Listed;
    hide Listing;
    var first := Listing(o, root.id);
    if first == [] {
      EmptyListed(o, d);
    } else {
      ChildrenRank(o, root.id, rank);
      ListedDeeper(o, first, d, rank, rank[root.id]);
      var p := root.id;
      if n !in first {
        p := ListedOwned(o, first, d, n);
      }
      ListingMember(o, p, n);
    }
  }

  lemma ReturnedBelow(o: Outline, root: Node, d: nat, limit: nat, f: Fetch, rank: map<Id, nat>, n: Node)
    requires OneOwner(o) && ParentsAgree(o) && Ranked(o, rank)
    requires NodesSound(o, Some(root), d, limit, f) && n in f.nodes && n != root
    ensures n.parent.Some? && n.parent.value in Ids(f.nodes)
    ensures n.id in rank && n.parent.value in rank && rank[n.id] == rank[n.parent.value] + 1
    ensures root.id in rank && rank[n.id] > rank[root.id]
  {
    hide Listed;
    hide Listing;
    hide SkipsSound;
    hide Ranked;
    hide Ids;
    SubseqMembers(f.nodes, Canonical(o, Some(root), d));
    hide Subseq;
    BelowScope(o, root, d, rank, n);
    assert IsStart(o, Some(root), n) || n.parent.value in Ids(f.nodes);
  }

  /** The nodes of a fetch that returned its scope node are a tree under it. */
  lemma FetchedIsTree(o: Outline, root: Node, d: nat, limit: nat, f: Fetch)
    requires Forest(o) && RootPlaced(o, root) && NodesSound(o, Some(root), d, limit, f) && root in f.nodes
    ensures DeepCopy.TreeUnder(f.nodes, root)
    ensures FirstWithId(f.nodes, root.id) == Some(root)
  {
    hide NodesSound;
    hide Listed;
    hide Listing;
    hide Canonical;
    hide DistinctIds;
    hide OneOwner;
    hide ParentsAgree;
    hide Ids;
    hide FirstWithId;
    var rank :| Ranked(o, rank);
    ReturnedDistinct(o, Some(root), d, limit, f);
    DistinctNodes(f.nodes);
    FirstWithIdFound(f.nodes, root.id);
    IdIn(f.nodes, root);
    forall n | n in f.nodes && n != root
      ensures n.parent.Some? && n.parent.value in Ids(f.nodes)
      ensures n.id in rank && n.parent.value in rank && rank[n.id] == rank[n.parent.value] + 1
      ensures root.id in rank && rank[n.id] > rank[root.id]
    {
      ReturnedBelow(o, root, d, limit, f, rank, n);
    }
    forall p | p in f.nodes ensures root.parent != Some(p.id) {
    }
    if root.parent.Some? && root.parent.value in Ids(f.nodes) {
      var p := NodeWithId(f.nodes, root.parent.value);
    }
    assert DeepCopy.RankedTree(f.nodes, root, rank);
  }

  datatype DuplicateResult = SourceUnread | Attempted(copy: DeepCopy.CopyResult)

  /** Fetch the source and copy it. A copy that succeeds made one node for each node of the source's
      whole listing down to the walk depth; a fetch that was not whole makes none. */
  method DuplicateSubtree(o: Outline, net: Net, source: Node, walkDepth: nat, limit: nat, target: Id,
                          f: DeepCopy.Transform, ans: nat -> DeepCopy.CopyAnswer)
    returns (r: DuplicateResult, created: seq<DeepCopy.Copy>, stray: Option<DeepCopy.Copy>, idMap: map<Id, Id>,
             ghost order: seq<Node>)
    requires Forest(o) && RootPlaced(o, source)
    ensures r.Attempted? && r.copy.Copied? ==>
              var nodes := Canonical(o, Some(source), walkDepth);
              DeepCopy.TreeUnder(nodes, source)
              && DeepCopy.IsCopy(nodes, source, target, f, order, created, idMap)
              && r.copy.count == |nodes|
    ensures r.SourceUnread? || r.copy.PartialSource? ==> created == [] && stray.None?
    ensures stray.Some? ==> r.Attempted? && r.copy.CreateFailed?
    ensures created != [] ==> DeepCopy.BreadthFirst(Canonical(o, Some(source), walkDepth), source, f, order, idMap, stray)
    ensures r.Attempted? ==> !r.copy.NotFound?
    ensures r.Attempted? && r.copy.Copied? && walkDepth == 0 ==>
              r.copy.count == 1 + |Listing(o, source.id)|
    ensures Quiet(net) ==>
              r.Attempted? && (r.copy.PartialSource? <==> CapBinds(o, Some(source), walkDepth, limit))
  {
    hide NodesSound;
    hide ReasonSound;
    hide CapBinds;
    hide DeepCopy.Copies;
    hide DeepCopy.IsCopy;
    hide DeepCopy.BreadthFirst;
    hide DeepCopy.TreeUnder;
    hide DeepCopy.AllMade;
    hide DeepCopy.Acknowledged;
    hide Forest;
    var walk, t := GetSubtree(o, net, Some(source), walkDepth, limit, false);
    if walk.WalkFailed? {
      return SourceUnread, [], None, map[], [];
    }
    var nodes := walk.fetch.nodes;
    if !walk.fetch.truncated {
      WholeIsTree(o, source, walkDepth, limit, walk.fetch);
    }
    DepthZeroExactly(o, source);
    hide Canonical;
    var copy;
    copy, created, stray, idMap, order := DeepCopy.DeepCopySubtree(nodes, walk.fetch.truncated, source.id, target, f, ans);
    r := Attempted(copy);
  }

  lemma WholeIsTree(o: Outline, root: Node, d: nat, limit: nat, f: Fetch)
    requires Forest(o) && RootPlaced(o, root) && NodesSound(o, Some(root), d, limit, f)
    requires f.nodes == Canonical(o, Some(root), d)
    ensures DeepCopy.TreeUnder(f.nodes, root)
    ensures FirstWithId(f.nodes, root.id) == Some(root) && root.id in Ids(f.nodes)
  {
    hide NodesSound;
    assert f.nodes[0] == root;
    FetchedIsTree(o, root, d, limit, f);
    IdIn(f.nodes, root);
  }

  // ---------------------------------------------------------------------
  // The tree the printers walk
  // ---------------------------------------------------------------------

  lemma {:induction false} RankBound(nodes: seq<Node>, rank: map<Id, nat>) returns (top: nat)
    ensures forall n :: n in nodes && n.id in rank ==> rank[n.id] <= top
  {
    if nodes == [] {
      top := 0;
    } else {
      var k := |nodes| - 1;
      top := RankBound(nodes[..k], rank);
      assert nodes == nodes[..k] + [nodes[k]];
      if nodes[k].id in rank && rank[nodes[k].id] > top {
        top := rank[nodes[k].id];
      }
    }
  }

  ghost predicate Bounded(nodes: seq<Node>, root: Node, rank: map<Id, nat>, top: nat) {
    DeepCopy.RankedTree(nodes, root, rank) && forall n :: n in nodes && n.id in rank ==> rank[n.id] <= top
  }

  lemma {:induction false} BuildTree(nodes: seq<Node>, root: Node, rank: map<Id, nat>, top: nat, n: Node)
    returns (t: Markdown.Tree)
    requires Bounded(nodes, root, rank, top) && n in nodes
    ensures t.node == n && Markdown.Represents(nodes, t)
    decreases top - (if n.id in rank then rank[n.id] else 0), 1, 0
  {
    var kids := ChildrenOf(nodes, n.id);
    IdIn(nodes, n);
    forall c | c in kids
      ensures c in nodes && n.id in rank && c.id in rank && rank[c.id] == rank[n.id] + 1
    {
      ChildrenOfMembers(nodes, n.id, c);
    }
    hide ChildrenOf;
    var ts := [];
    if kids != [] {
      assert kids[0] in kids;
      ts := BuildAll(nodes, root, rank, top, rank[n.id], kids);
    }
    t := Markdown.Tree.Tree(n, ts);
  }

  lemma {:induction false} BuildAll(nodes: seq<Node>, root: Node, rank: map<Id, nat>, top: nat, r: nat, ns: seq<Node>)
    returns (ts: seq<Markdown.Tree>)
    requires Bounded(nodes, root, rank, top)
    requires forall c :: c in ns ==> c in nodes && c.id in rank && rank[c.id] == r + 1
    ensures Markdown.RepresentsAll(nodes, ts, ns)
    decreases top - r, 0, |ns|
  {
    ts := [];
    if ns != [] {
      assert ns[0] in ns;
      var t := BuildTree(nodes, root, rank, top, ns[0]);
      var rest := BuildAll(nodes, root, rank, top, r, ns[1..]);
      ts := [t] + rest;
      assert ts[1..] == rest;
    }
  }

  /** Every tree-shaped slice, in whatever order, is represented by a tree the printer can render. */
  lemma TreeRepresented(nodes: seq<Node>, root: Node) returns (t: Markdown.Tree)
    requires DeepCopy.TreeUnder(nodes, root)
    ensures t.node == root && Markdown.Represents(nodes, t)
  {
    var rank :| DeepCopy.RankedTree(nodes, root, rank);
    var top := RankBound(nodes, rank);
    t := BuildTree(nodes, root, rank, top, root);
  }
}
