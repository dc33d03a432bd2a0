/** Copying a fetched subtree breadth first through a map from source ids to new ids. */
module DeepCopy {
  import opened Sequences
  import opened Outlines
  import opened NodeSlices

  type Transform = Node -> (string, Option<string>)

  /** A create reported as failed may have landed all the same. */
  datatype CopyReply = Made(id: Id) | CreateRefused(landed: Option<Id>)

  datatype CopyAnswer = CopyAnswer(cancelled: bool, expired: bool, create: CopyReply)

  /** A created copy, as the server holds it. */
  datatype Copy = Copy(id: Id, name: string, note: Option<string>, parent: Id)

  datatype CopyResult =
    | PartialSource
    | NotFound
    | CreateFailed
    | Interrupted(cancelled: bool, created: nat)
    | Copied(newRoot: Id, count: nat)

  /** The children of the visited nodes, block after block. */
  function Expand(nodes: seq<Node>, visited: seq<Node>): seq<Node> {
    if visited == [] then []
    else Expand(nodes, visited[..|visited| - 1]) + ChildrenOf(nodes, visited[|visited| - 1].id)
  }

  lemma ExpandSnoc(nodes: seq<Node>, visited: seq<Node>, n: Node)
    ensures Expand(nodes, visited + [n]) == Expand(nodes, visited) + ChildrenOf(nodes, n.id)
  {
    assert (visited + [n])[..|visited|] == visited;
  }

  lemma {:induction false} ExpandMembers(nodes: seq<Node>, visited: seq<Node>, n: Node)
    ensures n in Expand(nodes, visited) <==> n in nodes && n.parent.Some? && n.parent.value in Ids(visited)
  {
    if visited != [] {
      var k := |visited| - 1;
      ExpandMembers(nodes, visited[..k], n);
      ChildrenOfMembers(nodes, visited[k].id, n);
      assert visited == visited[..k] + [visited[k]];
      IdsAppend(visited[..k], [visited[k]]);
    }
  }

  lemma {:induction false} ExpandDistinct(nodes: seq<Node>, visited: seq<Node>)
    requires NoDup(nodes) && DistinctIds(visited)
    ensures NoDup(Expand(nodes, visited))
  {
    if visited != [] {
      var k := |visited| - 1;
      var a, b := Expand(nodes, visited[..k]), ChildrenOf(nodes, visited[k].id);
      DistinctPrefix(visited, k);
      ExpandDistinct(nodes, visited[..k]);
      ChildrenOfDistinct(nodes, visited[k].id);
      forall x | x in a ensures x !in b {
        ExpandMembers(nodes, visited[..k], x);
        ChildrenOfMembers(nodes, visited[k].id, x);
      }
      NoDupAppend(a, b);
    }
  }

  lemma DistinctPrefix(visited: seq<Node>, k: nat)
    requires k < |visited| && DistinctIds(visited)
    ensures DistinctIds(visited[..k]) && visited[k].id !in Ids(visited[..k])
  {
    assert forall i :: 0 <= i < k ==> Ids(visited[..k])[i] == Ids(visited)[i];
  }

  // ---------------------------------------------------------------------
  // The source tree and its copy
  // ---------------------------------------------------------------------

  /** The slice is a tree under root: distinct ids, and every other node one below its parent. */
  ghost predicate RankedTree(nodes: seq<Node>, root: Node, rank: map<Id, nat>) {
    && DistinctIds(nodes) && root in nodes
    && (root.parent.Some? ==> root.parent.value !in Ids(nodes))
    && forall n :: n in nodes && n != root ==>
         n.parent.Some? && n.parent.value in Ids(nodes) && n.id in rank && n.parent.value in rank
         && rank[n.id] == rank[n.parent.value] + 1
  }

  ghost predicate TreeUnder(nodes: seq<Node>, root: Node) {
    exists rank :: RankedTree(nodes, root, rank)
  }

  /** created[i] is the copy of order[i], hung under the copy of its parent. */
  ghost predicate CopyAt(order: seq<Node>, target: Id, f: Transform, created: seq<Copy>, idMap: map<Id, Id>, i: nat)
    requires i < |order| && |created| == |order|
  {
    && order[i].id in idMap && idMap[order[i].id] == created[i].id
    && created[i].name == f(order[i]).0 && created[i].note == f(order[i]).1
    && (if i == 0 then created[i].parent == target
        else order[i].parent.Some? && order[i].parent.value in idMap
             && created[i].parent == idMap[order[i].parent.value])
  }

  ghost predicate Copies(order: seq<Node>, target: Id, f: Transform, created: seq<Copy>, idMap: map<Id, Id>) {
    && |created| == |order|
    && idMap.Keys == (set x | x in Ids(order))
    && forall i: nat :: i < |order| ==> CopyAt(order, target, f, created, idMap, i)
  }

  /** A complete copy: one created node per source node, breadth first from the root. */
  ghost predicate IsCopy(nodes: seq<Node>, root: Node, target: Id, f: Transform, order: seq<Node>,
                         created: seq<Copy>, idMap: map<Id, Id>) {
    && Copies(order, target, f, created, idMap)
    && multiset(order) == multiset(nodes)
    && order == [root] + Expand(nodes, order)
  }

  /** The breadth-first position: what was visited, and what is queued in the order it will be. */
  ghost predicate Frontier(nodes: seq<Node>, root: Node, visited: seq<Node>, queue: seq<Node>) {
    && visited != [] && DistinctIds(visited)
    && visited + queue == [root] + Expand(nodes, visited)
  }

  /** The copied nodes are the first of the breadth-first order; if one more copy landed although its
      create was reported as failed, it is that of the next. */
  ghost predicate BreadthFirst(nodes: seq<Node>, root: Node, f: Transform, order: seq<Node>, idMap: map<Id, Id>,
                               stray: Option<Copy>) {
    exists queue :: Frontier(nodes, root, order, queue) && (stray.Some? ==> IsNext(f, queue, idMap, stray.value))
  }

  ghost predicate IsNext(f: Transform, queue: seq<Node>, idMap: map<Id, Id>, stray: Copy) {
    queue != [] && queue[0].parent.Some? && queue[0].parent.value in idMap
    && stray == Copy(stray.id, f(queue[0]).0, f(queue[0]).1, idMap[queue[0].parent.value])
  }

  lemma FrontierStart(nodes: seq<Node>, root: Node)
    ensures Frontier(nodes, root, [root], ChildrenOf(nodes, root.id))
  {
    ExpandSnoc(nodes, [], root);
    assert [] + [root] == [root];
  }

  lemma FrontierStep(nodes: seq<Node>, root: Node, visited: seq<Node>, queue: seq<Node>)
    requires TreeUnder(nodes, root) && Frontier(nodes, root, visited, queue) && queue != []
    ensures queue[0] in nodes && queue[0] !in visited && queue[0].id !in Ids(visited)
    ensures queue[0].parent.Some? && queue[0].parent.value in Ids(visited)
    ensures |visited| < |nodes|
    ensures Frontier(nodes, root, visited + [queue[0]], queue[1..] + ChildrenOf(nodes, queue[0].id))
  {
    hide Expand;
    hide TreeUnder;
    var n := queue[0];
    FrontierFits(nodes, root, visited, queue);
    QueueMember(nodes, root, visited, queue);
    ExpandMembers(nodes, visited, n);
    VisitedExtends(visited, n);
    hide NoDup;
    FrontierNext(nodes, root, visited, queue);
  }

  lemma FrontierNext(nodes: seq<Node>, root: Node, visited: seq<Node>, queue: seq<Node>)
    requires Frontier(nodes, root, visited, queue) && queue != [] && DistinctIds(visited + [queue[0]])
    ensures Frontier(nodes, root, visited + [queue[0]], queue[1..] + ChildrenOf(nodes, queue[0].id))
  {
    hide Expand;
    hide ChildrenOf;
    hide DistinctIds;
    ExpandSnoc(nodes, visited, queue[0]);
    Requeue([root], Expand(nodes, visited), visited, queue, ChildrenOf(nodes, queue[0].id));
  }

  lemma Requeue(a: seq<Node>, b: seq<Node>, visited: seq<Node>, queue: seq<Node>, kids: seq<Node>)
    requires queue != [] && visited + queue == a + b
    ensures (visited + [queue[0]]) + (queue[1..] + kids) == a + (b + kids)
  {
    Shift(visited, queue, kids);
    assert a + (b + kids) == (a + b) + kids;
  }

  lemma VisitedExtends(visited: seq<Node>, n: Node)
    requires DistinctIds(visited) && n.id !in Ids(visited)
    ensures DistinctIds(visited + [n]) && n !in visited
  {
    IdsAppend(visited, [n]);
    assert Ids([n]) == [n.id];
    NoDupAppend(Ids(visited), [n.id]);
    if n in visited {
      IdIn(visited, n);
    }
  }

  lemma Shift(visited: seq<Node>, queue: seq<Node>, more: seq<Node>)
    requires queue != []
    ensures (visited + [queue[0]]) + (queue[1..] + more) == (visited + queue) + more
  {
  }

  lemma QueueMember(nodes: seq<Node>, root: Node, visited: seq<Node>, queue: seq<Node>)
    requires Frontier(nodes, root, visited, queue) && queue != []
    ensures queue[0] in Expand(nodes, visited)
  {
    assert (visited + queue)[|visited|] == queue[0];
    assert ([root] + Expand(nodes, visited))[|visited|] == Expand(nodes, visited)[|visited| - 1];
  }

  /** Visited and queued nodes are distinct nodes of the slice. */
  lemma FrontierFits(nodes: seq<Node>, root: Node, visited: seq<Node>, queue: seq<Node>)
    requires TreeUnder(nodes, root) && Frontier(nodes, root, visited, queue)
    ensures NoDup(visited + queue) && |visited| + |queue| <= |nodes|
    ensures forall n :: n in visited + queue ==> n in nodes
    ensures forall i :: 0 <= i < |queue| ==> queue[i].id !in Ids(visited)
  {
    var rank :| RankedTree(nodes, root, rank);
    DistinctNodes(nodes);
    VisitedInside(nodes, root, visited, queue);
    ExpandDistinct(nodes, visited);
    var all := [root] + Expand(nodes, visited);
    forall x | x in Expand(nodes, visited) ensures x in nodes && x != root {
      ExpandMembers(nodes, visited, x);
      if x == root {
        IdsInside(visited, nodes, x.parent.value);
        assert false;
      }
    }
    NoDupAppend([root], Expand(nodes, visited));
    assert NoDup(visited + queue);
    NoDupLength(visited + queue, nodes);
    forall i | 0 <= i < |queue| ensures queue[i].id !in Ids(visited) {
      QueuedNotVisited(nodes, visited, queue, i);
    }
  }

  lemma QueuedNotVisited(nodes: seq<Node>, visited: seq<Node>, queue: seq<Node>, i: nat)
    requires DistinctIds(nodes) && NoDup(visited + queue) && i < |queue|
    requires forall n :: n in visited + queue ==> n in nodes
    ensures queue[i].id !in Ids(visited)
  {
    DistinctNodes(nodes);
    var all := visited + queue;
    assert all[|visited| + i] == queue[i];
    forall j | 0 <= j < |visited| ensures visited[j].id != queue[i].id {
      assert all[j] == visited[j] && all[j] != all[|visited| + i];
      assert all[j] in all && all[|visited| + i] in all;
    }
  }

  lemma VisitedInside(nodes: seq<Node>, root: Node, visited: seq<Node>, queue: seq<Node>)
    requires root in nodes && Frontier(nodes, root, visited, queue)
    ensures forall n :: n in visited + queue ==> n in nodes
    ensures forall n :: n in visited ==> n in nodes
  {
    forall n | n in visited + queue ensures n in nodes {
      assert n in [root] + Expand(nodes, visited);
      ExpandMembers(nodes, visited, n);
    }
    forall n | n in visited ensures n in nodes {
      assert n in visited + queue;
    }
  }

  lemma IdsInside(some: seq<Node>, nodes: seq<Node>, x: Id)
    requires x in Ids(some) && forall n :: n in some ==> n in nodes
    ensures x in Ids(nodes)
  {
    var n := NodeWithId(some, x);
    IdIn(nodes, n);
  }

  /** When the queue runs dry every node of the tree has been visited. */
  lemma {:induction false} AllVisited(nodes: seq<Node>, root: Node, visited: seq<Node>, rank: map<Id, nat>, n: Node)
    requires RankedTree(nodes, root, rank) && Frontier(nodes, root, visited, []) && n in nodes
    ensures n in visited
    decreases if n.id in rank then rank[n.id] else 0
  {
    assert visited + [] == visited;
    if n == root {
      assert visited[0] == root;
    } else {
      var p := NodeWithId(nodes, n.parent.value);
      AllVisited(nodes, root, visited, rank, p);
      IdIn(visited, p);
      ExpandMembers(nodes, visited, n);
    }
  }

  lemma VisitedIsPermutation(nodes: seq<Node>, root: Node, visited: seq<Node>)
    requires TreeUnder(nodes, root) && Frontier(nodes, root, visited, [])
    ensures multiset(visited) == multiset(nodes) && |visited| == |nodes|
    ensures visited == [root] + Expand(nodes, visited)
  {
    hide Expand;
    var rank :| RankedTree(nodes, root, rank);
    FrontierFits(nodes, root, visited, []);
    assert visited + [] == visited;
    DistinctNodes(nodes);
    forall n | n in nodes ensures n in visited {
      AllVisited(nodes, root, visited, rank, n);
    }
    hide RankedTree;
    hide NoDup;
    SameMembers(visited, nodes);
  }

  // ---------------------------------------------------------------------
  // The copy
  // ---------------------------------------------------------------------

  lemma CopiesStep(order: seq<Node>, target: Id, f: Transform, created: seq<Copy>, idMap: map<Id, Id>, n: Node, id: Id)
    requires Copies(order, target, f, created, idMap) && order != []
    requires n.parent.Some? && n.parent.value in Ids(order) && n.id !in Ids(order)
    ensures n.parent.value in idMap
    ensures Copies(order + [n], target, f, created + [Copy(id, f(n).0, f(n).1, idMap[n.parent.value])],
                   idMap[n.id := id])
  {
    var more, copies, bigger := order + [n], created + [Copy(id, f(n).0, f(n).1, idMap[n.parent.value])], idMap[n.id := id];
    IdsAppend(order, [n]);
    assert Ids([n]) == [n.id];
    assert bigger.Keys == (set x | x in Ids(more));
    forall i: nat | i < |more| ensures CopyAt(more, target, f, copies, bigger, i) {
      if i < |order| {
        CopyAtKeeps(order, target, f, created, idMap, n, id, copies[|order|], i);
      }
    }
  }

  lemma CopyAtKeeps(order: seq<Node>, target: Id, f: Transform, created: seq<Copy>, idMap: map<Id, Id>,
                    n: Node, id: Id, c: Copy, i: nat)
    requires |created| == |order| && i < |order| && CopyAt(order, target, f, created, idMap, i)
    requires n.id !in idMap
    ensures CopyAt(order + [n], target, f, created + [c], idMap[n.id := id], i)
  {
  }

  /** Every answer lets the copy go on. */
  ghost predicate AllMade(ans: nat -> CopyAnswer, n: nat) {
    forall k :: 0 <= k < n ==> Good(ans, k)
  }

  predicate Good(ans: nat -> CopyAnswer, k: nat) {
    ans(k).create.Made? && (k > 0 ==> !ans(k).cancelled && !ans(k).expired)
  }

  /** The created ids are the ones the server answered with, in order. */
  ghost predicate Acknowledged(ans: nat -> CopyAnswer, created: seq<Copy>) {
    forall i :: 0 <= i < |created| ==> ans(i).create == Made(created[i].id)
  }

  /** Why the copy ended after n nodes: it was interrupted before the next create, or that create was
      reported as failed and one more copy landed if the server says so. */
  ghost predicate Ended(ans: nat -> CopyAnswer, n: nat, r: CopyResult, stray: Option<Copy>) {
    && (r.Interrupted? ==>
          r.created == n > 0 && (ans(n).cancelled || ans(n).expired) && r.cancelled == ans(n).cancelled && stray == None)
    && (r.CreateFailed? ==>
          && (n > 0 ==> !ans(n).cancelled && !ans(n).expired) && ans(n).create.CreateRefused?
          && match ans(n).create.landed
             case Some(id) => stray.Some? && stray.value.id == id
             case None => stray == None)
  }

  lemma EndedBetween(ans: nat -> CopyAnswer, n: nat)
    requires n > 0 && (ans(n).cancelled || ans(n).expired)
    ensures Ended(ans, n, Interrupted(ans(n).cancelled, n), None)
  {
  }

  lemma EndedAt(ans: nat -> CopyAnswer, n: nat, stray: Option<Copy>)
    requires n > 0 ==> !ans(n).cancelled && !ans(n).expired
    requires ans(n).create.CreateRefused? && (stray.Some? <==> ans(n).create.landed.Some?)
    requires stray.Some? ==> ans(n).create.landed == Some(stray.value.id)
    ensures Ended(ans, n, CreateFailed, stray)
  {
  }

  lemma EndedWhole(ans: nat -> CopyAnswer, n: nat, r: CopyResult)
    requires r.Copied?
    ensures Ended(ans, n, r, None)
  {
  }

  lemma MadeFirst(ans: nat -> CopyAnswer, c: Copy)
    requires ans(0).create == Made(c.id)
    ensures Acknowledged(ans, [c]) && AllMade(ans, 1)
  {
  }

  lemma MadeStep(ans: nat -> CopyAnswer, created: seq<Copy>, c: Copy)
    requires Acknowledged(ans, created) && Good(ans, |created|) && ans(|created|).create == Made(c.id)
    ensures Acknowledged(ans, created + [c])
    ensures AllMade(ans, |created|) ==> AllMade(ans, |created| + 1)
  {
  }

  lemma NotAllMade(ans: nat -> CopyAnswer, k: nat, n: nat)
    requires k < n && !Good(ans, k)
    ensures !AllMade(ans, n)
  {
  }

  /** Copy the fetched subtree of sourceId under target. A truncated fetch is refused; a failed or
      interrupted run leaves the copies of the first nodes in breadth-first order, and one more if
      the create it failed at landed after all. */
  method DeepCopySubtree(nodes: seq<Node>, truncated: bool, sourceId: Id, target: Id, f: Transform,
                         ans: nat -> CopyAnswer)
    returns (r: CopyResult, created: seq<Copy>, stray: Option<Copy>, idMap: map<Id, Id>, ghost order: seq<Node>)
    requires !truncated && FirstWithId(nodes, sourceId).Some? ==> TreeUnder(nodes, FirstWithId(nodes, sourceId).value)
    ensures r.PartialSource? <==> truncated
    ensures r.NotFound? <==> !truncated && sourceId !in Ids(nodes)
    ensures r.PartialSource? || r.NotFound? ==> created == [] && order == [] && stray.None?
    ensures created != [] ==>
              && FirstWithId(nodes, sourceId).Some?
              && Copies(order, target, f, created, idMap)
              && BreadthFirst(nodes, FirstWithId(nodes, sourceId).value, f, order, idMap, stray)
    ensures created == [] && stray.Some? ==>
              && FirstWithId(nodes, sourceId).Some?
              && var root := FirstWithId(nodes, sourceId).value;
                 stray.value == Copy(stray.value.id, f(root).0, f(root).1, target)
    ensures stray.Some? ==> r.CreateFailed? && ans(|created|).create == CreateRefused(Some(stray.value.id))
    ensures Ended(ans, |created|, r, stray)
    ensures r.Copied? ==>
              && FirstWithId(nodes, sourceId).Some?
              && IsCopy(nodes, FirstWithId(nodes, sourceId).value, target, f, order, created, idMap)
              && r.count == |nodes| && r.newRoot == created[0].id
    ensures !truncated && sourceId in Ids(nodes) ==> (r.Copied? <==> AllMade(ans, |nodes|))
    ensures Acknowledged(ans, created)
  {
    created, stray, idMap, order := [], None, map[], [];
    if truncated {
      return PartialSource, created, stray, idMap, order;
    }
    FirstWithIdFound(nodes, sourceId);
    var found := FirstWithId(nodes, sourceId);
    if found.None? {
      return NotFound, created, stray, idMap, order;
    }
    var root := found.value;
    if ans(0).create.CreateRefused? {
      assert |nodes| > 0;
      NotAllMade(ans, 0, |nodes|);
      if ans(0).create.landed.Some? {
        stray := Some(Copy(ans(0).create.landed.value, f(root).0, f(root).1, target));
      }
      return CreateFailed, created, stray, idMap, order;
    }
    hide TreeUnder;
    hide Copies;
    hide IsCopy;
    hide AllMade;
    hide Acknowledged;
    hide BreadthFirst;
    var copy := Copy(ans(0).create.id, f(root).0, f(root).1, target);
    MadeFirst(ans, copy);
    CopiesStart(root, target, f, copy.id);
    r, created, stray, idMap, order := CopyDescendants(nodes, root, target, f, ans, copy);
  }

  /** The breadth-first part: the queue starts with the root's children. */
  method CopyDescendants(nodes: seq<Node>, root: Node, target: Id, f: Transform, ans: nat -> CopyAnswer, copy: Copy)
    returns (r: CopyResult, created: seq<Copy>, stray: Option<Copy>, idMap: map<Id, Id>, ghost order: seq<Node>)
    requires TreeUnder(nodes, root) && Copies([root], target, f, [copy], map[root.id := copy.id])
    requires Acknowledged(ans, [copy]) && AllMade(ans, 1) && nodes != []
    ensures r.Copied? || r.CreateFailed? || r.Interrupted?
    ensures Copies(order, target, f, created, idMap) && Acknowledged(ans, created)
    ensures BreadthFirst(nodes, root, f, order, idMap, stray) && created != []
    ensures stray.Some? ==> r.CreateFailed? && ans(|created|).create == CreateRefused(Some(stray.value.id))
    ensures Ended(ans, |created|, r, stray)
    ensures r.Copied? ==> IsCopy(nodes, root, target, f, order, created, idMap) && r.count == |nodes|
                          && created != [] && r.newRoot == created[0].id
    ensures r.Copied? <==> AllMade(ans, |nodes|)
  {
    hide Expand;
    hide TreeUnder;
    hide Copies;
    hide Frontier;
    hide IsCopy;
    hide AllMade;
    hide Acknowledged;
    hide ChildrenOf;
    hide IsNext;
    hide BreadthFirst;
    hide Ended;
    stray := None;
    created, idMap, order := [copy], map[root.id := copy.id], [root];
    var childrenOf := GroupByParent(nodes);
    var queue := Lookup(childrenOf, root.id);
    FrontierStart(nodes, root);
    while queue != []
      invariant Frontier(nodes, root, order, queue)
      invariant Copies(order, target, f, created, idMap)
      invariant |created| == |order| && created != [] && created[0] == copy && order != []
      invariant AllMade(ans, |order|) && Acknowledged(ans, created)
      invariant |order| <= |nodes|
      decreases |nodes| - |order|
    {
      var a := ans(|created|);
      FrontierStep(nodes, root, order, queue);
      if !Good(ans, |order|) {
        NotAllMade(ans, |order|, |nodes|);
      }
      if a.cancelled || a.expired {
        StoppedAt(nodes, root, f, order, queue, idMap, None);
        EndedBetween(ans, |created|);
        return Interrupted(a.cancelled, |created|), created, stray, idMap, order;
      }
      var n := queue[0];
      KeysAre(order, target, f, created, idMap);
      if a.create.CreateRefused? {
        if a.create.landed.Some? {
          var under := if n.parent.Some? && n.parent.value in idMap then idMap[n.parent.value] else copy.id;
          stray := Some(Copy(a.create.landed.value, f(n).0, f(n).1, under));
        }
        StoppedAt(nodes, root, f, order, queue, idMap, stray);
        EndedAt(ans, |created|, stray);
        return CreateFailed, created, stray, idMap, order;
      }
      var id := a.create.id;
      CopiesStep(order, target, f, created, idMap, n, id);
      var parent := if n.parent.Some? && n.parent.value in idMap then idMap[n.parent.value] else copy.id;
      MadeStep(ans, created, Copy(id, f(n).0, f(n).1, parent));
      created := created + [Copy(id, f(n).0, f(n).1, parent)];
      idMap := idMap[n.id := id];
      order := order + [n];
      queue := queue[1..] + Lookup(childrenOf, n.id);
    }
    VisitedIsPermutation(nodes, root, order);
    CopyDone(nodes, root, target, f, order, created, idMap);
    StoppedAt(nodes, root, f, order, [], idMap, None);
    EndedWhole(ans, |created|, Copied(copy.id, |created|));
    return Copied(copy.id, |created|), created, stray, idMap, order;
  }

  lemma StoppedAt(nodes: seq<Node>, root: Node, f: Transform, order: seq<Node>, queue: seq<Node>, idMap: map<Id, Id>,
                  stray: Option<Copy>)
    requires Frontier(nodes, root, order, queue)
    requires stray.Some? ==>
               && queue != [] && queue[0].parent.Some? && queue[0].parent.value in idMap
               && stray.value.name == f(queue[0]).0 && stray.value.note == f(queue[0]).1
               && stray.value.parent == idMap[queue[0].parent.value]
    ensures BreadthFirst(nodes, root, f, order, idMap, stray)
  {
  }

  lemma KeysAre(order: seq<Node>, target: Id, f: Transform, created: seq<Copy>, idMap: map<Id, Id>)
    requires Copies(order, target, f, created, idMap)
    ensures idMap.Keys == (set x | x in Ids(order))
  {
  }

  lemma CopiesStart(root: Node, target: Id, f: Transform, id: Id)
    ensures Copies([root], target, f, [Copy(id, f(root).0, f(root).1, target)], map[root.id := id])
  {
  }

  lemma CopyDone(nodes: seq<Node>, root: Node, target: Id, f: Transform, order: seq<Node>, created: seq<Copy>,
                 idMap: map<Id, Id>)
    requires Copies(order, target, f, created, idMap)
    requires multiset(order) == multiset(nodes) && order == [root] + Expand(nodes, order)
    ensures IsCopy(nodes, root, target, f, order, created, idMap)
  {
  }

  // ---------------------------------------------------------------------
  // What a complete copy looks like
  // ---------------------------------------------------------------------

  /** The server's side of the bargain: new ids are distinct and none is the target. */
  ghost predicate FreshCopies(created: seq<Copy>, target: Id) {
    && (forall i, j :: 0 <= i < j < |created| ==> created[i].id != created[j].id)
    && (forall i :: 0 <= i < |created| ==> created[i].id != target)
  }

  /** The id map is a bijection from source ids to created ids. */
  lemma IdMapBijective(order: seq<Node>, target: Id, f: Transform, created: seq<Copy>, idMap: map<Id, Id>, x: Id, y: Id)
    requires Copies(order, target, f, created, idMap) && FreshCopies(created, target)
    requires x in idMap && y in idMap && idMap[x] == idMap[y]
    ensures x == y
    ensures idMap[x] != target
  {
    var i: nat :| i < |Ids(order)| && Ids(order)[i] == x;
    var j: nat :| j < |Ids(order)| && Ids(order)[j] == y;
    hide Ids;
    assert CopyAt(order, target, f, created, idMap, i) && CopyAt(order, target, f, created, idMap, j);
    assert order[i].id == x && order[j].id == y;
  }

  /** The copy of n under the copy of its parent. */
  function CopyOf(n: Node, f: Transform, idMap: map<Id, Id>, parent: Id): Copy {
    Copy(if n.id in idMap then idMap[n.id] else n.id, f(n).0, f(n).1, parent)
  }

  function CopiesOf(ns: seq<Node>, f: Transform, idMap: map<Id, Id>, parent: Id): seq<Copy> {
    if ns == [] then []
    else CopiesOf(ns[..|ns| - 1], f, idMap, parent) + [CopyOf(ns[|ns| - 1], f, idMap, parent)]
  }

  /** The created nodes under parent, in creation order. */
  function CreatedUnder(created: seq<Copy>, parent: Id): seq<Copy> {
    if created == [] then []
    else CreatedUnder(created[..|created| - 1], parent)
         + (if created[|created| - 1].parent == parent then [created[|created| - 1]] else [])
  }

  lemma CopiesPrefix(order: seq<Node>, target: Id, f: Transform, created: seq<Copy>, idMap: map<Id, Id>,
                     root: Node, p: Id, k: nat)
    requires Copies(order, target, f, created, idMap) && FreshCopies(created, target)
    requires p in idMap && order != [] && order[0] == root && root.parent != Some(p)
    requires k <= |order| == |created|
    ensures CreatedUnder(created[..k], idMap[p]) == CopiesOf(ChildrenOf(order[..k], p), f, idMap, idMap[p])
    decreases k
  {
    hide Copies;
    hide CopyOf;
    hide FreshCopies;
    if k == 0 {
      assert created[..0] == [] && order[..0] == [];
    } else {
      var i: nat := k - 1;
      SameLength(order, target, f, created, idMap);
      CopiesPrefix(order, target, f, created, idMap, root, p, i);
      UnderSame(order, target, f, created, idMap, root, p, i);
      CreatedSnoc(created, idMap[p], i);
      ChildrenSnoc(order, p, i);
      if order[i].parent == Some(p) {
        CopiesSnoc(ChildrenOf(order[..i], p), order[i], f, idMap, idMap[p]);
      }
    }
  }

  lemma SameLength(order: seq<Node>, target: Id, f: Transform, created: seq<Copy>, idMap: map<Id, Id>)
    requires Copies(order, target, f, created, idMap)
    ensures |order| == |created|
  {
  }

  lemma CreatedSnoc(created: seq<Copy>, parent: Id, i: nat)
    requires i < |created|
    ensures CreatedUnder(created[..i + 1], parent)
            == if created[i].parent == parent then CreatedUnder(created[..i], parent) + [created[i]]
               else CreatedUnder(created[..i], parent)
  {
    assert created[..i + 1][..i] == created[..i];
    assert CreatedUnder(created[..i], parent) + [] == CreatedUnder(created[..i], parent);
  }

  lemma ChildrenSnoc(order: seq<Node>, p: Id, i: nat)
    requires i < |order|
    ensures ChildrenOf(order[..i + 1], p)
            == if order[i].parent == Some(p) then ChildrenOf(order[..i], p) + [order[i]]
               else ChildrenOf(order[..i], p)
  {
    assert order[..i + 1][..i] == order[..i];
    assert ChildrenOf(order[..i], p) + [] == ChildrenOf(order[..i], p);
  }

  lemma CopiesSnoc(ns: seq<Node>, n: Node, f: Transform, idMap: map<Id, Id>, parent: Id)
    ensures CopiesOf(ns + [n], f, idMap, parent) == CopiesOf(ns, f, idMap, parent) + [CopyOf(n, f, idMap, parent)]
  {
    assert (ns + [n])[..|ns|] == ns;
  }

  /** A created node hangs under the copy of p exactly when its source hung under p. */
  lemma UnderSame(order: seq<Node>, target: Id, f: Transform, created: seq<Copy>, idMap: map<Id, Id>,
                  root: Node, p: Id, i: nat)
    requires Copies(order, target, f, created, idMap) && FreshCopies(created, target)
    requires p in idMap && order != [] && order[0] == root && root.parent != Some(p) && i < |order| == |created|
    ensures created[i].parent == idMap[p] <==> order[i].parent == Some(p)
    ensures order[i].parent == Some(p) ==> created[i] == CopyOf(order[i], f, idMap, idMap[p])
  {
    assert CopyAt(order, target, f, created, idMap, i);
    IdMapBijective(order, target, f, created, idMap, p, p);
    if i > 0 && created[i].parent == idMap[p] {
      IdMapBijective(order, target, f, created, idMap, order[i].parent.value, p);
    }
  }

  lemma NoChildren(p: Id)
    ensures ChildrenOf([], p) == []
  {
  }

  lemma LastNotBefore(s: seq<Node>)
    requires DistinctIds(s) && s != []
    ensures s[|s| - 1].id !in Ids(s[..|s| - 1])
  {
    assert forall i :: 0 <= i < |s| ==> Ids(s)[i] == s[i].id;
  }

  lemma {:induction false} ExpandChildren(nodes: seq<Node>, visited: seq<Node>, p: Id)
    requires DistinctIds(visited)
    ensures ChildrenOf(Expand(nodes, visited), p) == if p in Ids(visited) then ChildrenOf(nodes, p) else []
  {
    hide ChildrenOf;
    hide DistinctIds;
    if visited == [] {
      NoChildren(p);
    } else {
      var k := |visited| - 1;
      var q := visited[k].id;
      DistinctPrefix(visited, k);
      LastNotBefore(visited);
      ExpandChildren(nodes, visited[..k], p);
      assert visited == visited[..k] + [visited[k]];
      IdsAppend(visited[..k], [visited[k]]);
      ChildrenAppend(Expand(nodes, visited[..k]), ChildrenOf(nodes, q), p);
      ChildrenTwice(nodes, q, p);
    }
  }

  lemma {:induction false} ChildrenAppend(a: seq<Node>, b: seq<Node>, p: Id)
    ensures ChildrenOf(a + b, p) == ChildrenOf(a, p) + ChildrenOf(b, p)
    decreases b
  {
    if b == [] {
      assert a + b == a;
    } else {
      var k := |b| - 1;
      assert (a + b)[..|a + b| - 1] == a + b[..k];
      ChildrenAppend(a, b[..k], p);
    }
  }

  lemma {:induction false} ChildrenTwice(nodes: seq<Node>, q: Id, p: Id)
    ensures ChildrenOf(ChildrenOf(nodes, q), p) == if p == q then ChildrenOf(nodes, p) else []
  {
    if nodes != [] {
      var k: nat := |nodes| - 1;
      ChildrenTwice(nodes[..k], q, p);
      assert nodes[..k + 1] == nodes;
      ChildrenSnoc(nodes, q, k);
      ChildrenSnoc(nodes, p, k);
      var one := [nodes[k]];
      assert one[..0] == [] && one[..1] == one;
      ChildrenSnoc(one, p, 0);
      if nodes[k].parent == Some(q) {
        ChildrenAppend(ChildrenOf(nodes[..k], q), one, p);
      }
    }
  }

  /** In a complete copy, the children of each source node were created, in source order, under
      its copy and nothing else was. */
  lemma CopyKeepsChildren(nodes: seq<Node>, root: Node, target: Id, f: Transform, order: seq<Node>,
                          created: seq<Copy>, idMap: map<Id, Id>, p: Node)
    requires TreeUnder(nodes, root) && IsCopy(nodes, root, target, f, order, created, idMap)
    requires FreshCopies(created, target) && p in nodes
    ensures p.id in idMap
    ensures CreatedUnder(created, idMap[p.id]) == CopiesOf(ChildrenOf(nodes, p.id), f, idMap, idMap[p.id])
    ensures idMap.Keys == set n | n in nodes :: n.id
    ensures |created| == |nodes|
  {
    hide Copies;
    hide Expand;
    PermutationMembers(order, nodes);
    CopiedIds(order, nodes, target, f, created, idMap);
    IdIn(order, p);
    RootParent(nodes, root, p);
    assert order[0] == root;
    CopiesPrefix(order, target, f, created, idMap, root, p.id, |order|);
    assert created[..|order|] == created && order[..|order|] == order;
    OrderChildren(nodes, root, order, p.id);
  }

  lemma CopiedIds(order: seq<Node>, nodes: seq<Node>, target: Id, f: Transform, created: seq<Copy>, idMap: map<Id, Id>)
    requires Copies(order, target, f, created, idMap) && forall n :: n in order <==> n in nodes
    ensures |created| == |order|
    ensures idMap.Keys == set n | n in nodes :: n.id
    ensures forall x :: x in Ids(order) ==> x in idMap
  {
    forall x | x in idMap ensures exists n :: n in nodes && n.id == x {
      var n := NodeWithId(order, x);
    }
    forall n | n in nodes ensures n.id in idMap {
      IdIn(order, n);
    }
  }

  lemma RootParent(nodes: seq<Node>, root: Node, p: Node)
    requires TreeUnder(nodes, root) && p in nodes
    ensures root.parent != Some(p.id)
    ensures DistinctIds(nodes)
  {
    IdIn(nodes, p);
  }

  lemma OrderChildren(nodes: seq<Node>, root: Node, order: seq<Node>, p: Id)
    requires DistinctIds(nodes) && multiset(order) == multiset(nodes)
    requires order == [root] + Expand(nodes, order) && root.parent != Some(p) && p in Ids(order)
    ensures ChildrenOf(order, p) == ChildrenOf(nodes, p)
  {
    PermutedDistinct(nodes, order);
    ExpandChildren(nodes, order, p);
    hide Expand;
    ChildrenAppend([root], Expand(nodes, order), p);
    assert [root][..0] == [];
    assert ChildrenOf([root], p) == [];
  }
}
