/** The reference meaning of a subtree walk: the level-order listing of a forest, the same
    listing with some branches pruned, and why re-sorting a level restores it. */
module LevelOrder {
  import opened Sequences
  import opened Outlines

  /** The given level followed by d further levels, siblings in display order. */
  function Listed(o: Outline, level: seq<Node>, d: nat): seq<Node>
    decreases d
  {
    level + if d == 0 then [] else Listed(o, Blocks(o, Ids(level)), d - 1)
  }

  /** The same, without the children of the branches in s. */
  function Pruned(o: Outline, level: seq<Node>, d: nat, s: set<Id>): seq<Node>
    decreases d
  {
    level + if d == 0 then [] else Pruned(o, Blocks(o, Except(Ids(level), s)), d - 1, s)
  }

  lemma ListedStep(o: Outline, level: seq<Node>, d: nat)
    ensures Listed(o, level, d) == if d == 0 then level else level + Listed(o, Blocks(o, Ids(level)), d - 1)
  {
    hide Listing;
    hide Blocks;
  }

  lemma InListed(o: Outline, level: seq<Node>, d: nat, n: Node)
    ensures n in Listed(o, level, d)
            <==> n in level || (d > 0 && n in Listed(o, Blocks(o, Ids(level)), d - 1))
  {
    hide Listing;
    hide Blocks;
  }

  lemma InPruned(o: Outline, level: seq<Node>, d: nat, s: set<Id>, n: Node)
    ensures n in Pruned(o, level, d, s)
            <==> n in level || (d > 0 && n in Pruned(o, Blocks(o, Except(Ids(level), s)), d - 1, s))
  {
    hide Listing;
    hide Blocks;
  }

  /** Each node of the path is a child of the one before. */
  ghost predicate Descends(o: Outline, path: seq<Node>) {
    |path| > 1 ==> path[1] in Listing(o, path[0].id) && Descends(o, path[1..])
  }

  lemma {:induction false} ListedToPath(o: Outline, level: seq<Node>, d: nat, n: Node) returns (path: seq<Node>)
    requires ParentsAgree(o) && n in Listed(o, level, d)
    ensures 0 < |path| <= d + 1 && path[0] in level && path[|path| - 1] == n && Descends(o, path)
    decreases d
  {
    InListed(o, level, d, n);
    hide Listed;
    hide Listing;
    if n in level {
      path := [n];
    } else {
      var rest := ListedToPath(o, Blocks(o, Ids(level)), d - 1, n);
      BlocksMembers(o, Ids(level), rest[0]);
      var p := NodeWithId(level, rest[0].parent.value);
      path := [p] + rest;
      assert path[1..] == rest;
    }
  }

  lemma ChildInNext(o: Outline, level: seq<Node>, p: Node, c: Node)
    requires ParentsAgree(o) && p in level && c in Listing(o, p.id)
    ensures c in Blocks(o, Ids(level))
  {
    hide Blocks;
    ListingMember(o, p.id, c);
    IdIn(level, p);
    BlocksMembers(o, Ids(level), c);
  }

  lemma {:induction false} PathToListed(o: Outline, level: seq<Node>, d: nat, path: seq<Node>)
    requires ParentsAgree(o)
    requires 0 < |path| <= d + 1 && path[0] in level && Descends(o, path)
    ensures path[|path| - 1] in Listed(o, level, d)
    decreases d
  {
    hide Listed;
    hide Listing;
    hide Blocks;
    var last := path[|path| - 1];
    InListed(o, level, d, last);
    if |path| > 1 {
      var rest := path[1..];
      ChildInNext(o, level, path[0], rest[0]);
      PathToListed(o, Blocks(o, Ids(level)), d - 1, rest);
      assert rest[|rest| - 1] == last;
    }
  }

  /** The listing holds precisely the nodes reached from its first level by at most d child steps. */
  lemma ListedIsReachable(o: Outline, level: seq<Node>, d: nat, n: Node)
    requires ParentsAgree(o)
    ensures n in Listed(o, level, d) <==>
            exists path ::
              0 < |path| <= d + 1 && path[0] in level && path[|path| - 1] == n && Descends(o, path)
  {
    hide Listed;
    hide Listing;
    if n in Listed(o, level, d) {
      var path := ListedToPath(o, level, d, n);
    }
    if exists path ::
         0 < |path| <= d + 1 && path[0] in level && path[|path| - 1] == n && Descends(o, path) {
      var path :|
        0 < |path| <= d + 1 && path[0] in level && path[|path| - 1] == n && Descends(o, path);
      PathToListed(o, level, d, path);
    }
  }

  // ---------------------------------------------------------------------
  // Levels of a forest share a depth, so nothing is listed twice
  // ---------------------------------------------------------------------

  ghost predicate AtDepth(level: seq<Node>, rank: map<Id, nat>, r: nat) {
    forall n :: n in level ==> n.id in rank && rank[n.id] == r
  }

  /** A legitimate first level: distinct nodes of one depth. */
  ghost predicate FirstLevel(o: Outline, level: seq<Node>) {
    DistinctIds(level) && exists rank, r :: Ranked(o, rank) && AtDepth(level, rank, r)
  }

  lemma ChildRank(o: Outline, rank: map<Id, nat>, p: Id, m: Node)
    requires ParentsAgree(o) && Ranked(o, rank) && m in Listing(o, p)
    ensures p in rank && m.id in rank && rank[m.id] == rank[p] + 1
  {
    hide Listing;
    ListingMember(o, p, m);
  }

  lemma NextDepth(o: Outline, ps: seq<Id>, rank: map<Id, nat>, r: nat)
    requires ParentsAgree(o) && Ranked(o, rank)
    requires forall p :: p in ps ==> p in rank ==> rank[p] == r
    ensures AtDepth(Blocks(o, ps), rank, r + 1)
  {
    forall n | n in Blocks(o, ps) ensures n.id in rank && rank[n.id] == r + 1 {
      BlocksMembers(o, ps, n);
      ListingMember(o, n.parent.value, n);
    }
  }

  lemma ListingDepth(o: Outline, p: Id)
    requires Forest(o)
    ensures FirstLevel(o, Listing(o, p))
  {
    var rank :| Ranked(o, rank);
    ListingDistinct(o, p);
    forall n | n in Listing(o, p) ensures n.id in rank && p in rank && rank[n.id] == rank[p] + 1 {
      ListingMember(o, p, n);
    }
    assert AtDepth(Listing(o, p), rank, if p in rank then rank[p] + 1 else 0);
  }

  lemma TopLevelDepth(o: Outline)
    requires Forest(o)
    ensures FirstLevel(o, TopLevel(o))
  {
    var rank :| Ranked(o, rank);
    TopLevelDistinct(o);
    StableSortProps(Raw(o, WORKSPACE), PriorityKey);
    assert AtDepth(TopLevel(o), rank, if WORKSPACE in rank then rank[WORKSPACE] + 1 else 0);
  }

  lemma NextListed(o: Outline, level: seq<Node>, rank: map<Id, nat>, r: nat)
    requires ParentsAgree(o) && Ranked(o, rank) && AtDepth(level, rank, r)
    ensures AtDepth(Blocks(o, Ids(level)), rank, r + 1)
  {
    forall p | p in Ids(level) ensures p in rank && rank[p] == r {
      var n := NodeWithId(level, p);
    }
    NextDepth(o, Ids(level), rank, r);
  }

  lemma {:induction false} ListedDepth(o: Outline, level: seq<Node>, d: nat, rank: map<Id, nat>, r: nat, n: Node)
    requires ParentsAgree(o) && Ranked(o, rank) && AtDepth(level, rank, r)
    requires n in Listed(o, level, d)
    ensures n.id in rank && rank[n.id] >= r
    decreases d
  {
    InListed(o, level, d, n);
    hide Listed;
    if n !in level {
      NextListed(o, level, rank, r);
      ListedDepth(o, Blocks(o, Ids(level)), d - 1, rank, r + 1, n);
    }
  }

  lemma ListedDeeper(o: Outline, level: seq<Node>, d: nat, rank: map<Id, nat>, r: nat)
    requires ParentsAgree(o) && Ranked(o, rank) && AtDepth(level, rank, r + 1)
    ensures forall n :: n in Listed(o, level, d) ==> n.id in rank && rank[n.id] > r
  {
    hide Listed;
    forall n | n in Listed(o, level, d) ensures n.id in rank && rank[n.id] > r {
      ListedDepth(o, level, d, rank, r + 1, n);
    }
  }

  lemma {:induction false} ListedDistinct(o: Outline, level: seq<Node>, d: nat, rank: map<Id, nat>, r: nat)
    requires OneOwner(o) && ParentsAgree(o) && Ranked(o, rank)
    requires DistinctIds(level) && AtDepth(level, rank, r)
    ensures DistinctIds(Listed(o, level, d))
    decreases d
  {
    hide Listing;
    hide Blocks;
    hide NoDup;
    hide AtDepth;
    hide Ranked;
    hide Listed;
    hide Ids;
    hide OneOwner;
    hide ParentsAgree;
    ListedStep(o, level, d);
    if d > 0 {
      var next := Blocks(o, Ids(level));
      NextListed(o, level, rank, r);
      BlocksDistinct(o, Ids(level));
      ListedDistinct(o, next, d - 1, rank, r + 1);
      ListedDeeper(o, next, d - 1, rank, r);
      DisjointLevels(level, Listed(o, next, d - 1), rank, r);
    }
  }

  lemma DisjointLevels(a: seq<Node>, b: seq<Node>, rank: map<Id, nat>, r: nat)
    requires DistinctIds(a) && DistinctIds(b) && AtDepth(a, rank, r)
    requires forall n :: n in b ==> n.id in rank && rank[n.id] > r
    ensures DistinctIds(a + b)
  {
    IdsAppend(a, b);
    forall x | x in Ids(a) ensures x !in Ids(b) {
      var n := NodeWithId(a, x);
      if x in Ids(b) {
        var m := NodeWithId(b, x);
      }
    }
    NoDupAppend(Ids(a), Ids(b));
  }

  lemma FirstLevelDistinct(o: Outline, level: seq<Node>, d: nat)
    requires Forest(o) && FirstLevel(o, level)
    ensures DistinctIds(Listed(o, level, d))
  {
    var rank, r :| Ranked(o, rank) && AtDepth(level, rank, r);
    ListedDistinct(o, level, d, rank, r);
  }

  /** A scope node is never among its own descendants. */
  lemma RootNotBelow(o: Outline, root: Node, d: nat)
    requires Forest(o)
    ensures DistinctIds([root] + Listed(o, Listing(o, root.id), d))
  {
    var first := Listing(o, root.id);
    if first == [] {
      EmptyListed(o, d);
    } else {
      var rank :| Ranked(o, rank);
      ListingDistinct(o, root.id);
      forall n | n in first
        ensures root.id in rank && n.id in rank && rank[n.id] == rank[root.id] + 1
      {
        ListingMember(o, root.id, n);
      }
      assert first[0] in first;
      var r := rank[root.id];
      hide Listing;
      hide Listed;
      ListedDistinct(o, first, d, rank, r + 1);
      ListedDeeper(o, first, d, rank, r);
      DisjointLevels([root], Listed(o, first, d), rank, r);
    }
  }

  lemma {:induction false} EmptyListed(o: Outline, d: nat)
    ensures Listed(o, [], d) == []
  {
    if d > 0 {
      EmptyListed(o, d - 1);
    }
  }

  lemma {:induction false} EmptyPruned(o: Outline, d: nat, s: set<Id>)
    ensures Pruned(o, [], d, s) == []
  {
    if d > 0 {
      EmptyPruned(o, d - 1, s);
    }
  }

  // ---------------------------------------------------------------------
  // Pruning
  // ---------------------------------------------------------------------

  /** Pruning nothing leaves the full listing. */
  lemma {:induction false} PrunedNothing(o: Outline, level: seq<Node>, d: nat)
    ensures Pruned(o, level, d, {}) == Listed(o, level, d)
    decreases d
  {
    hide Listing;
    hide Blocks;
    if d > 0 {
      ExceptNothing(Ids(level), {});
      PrunedNothing(o, Blocks(o, Ids(level)), d - 1);
    }
  }

  /** Every pruned listing is a subsequence of the full one. */
  lemma {:induction false} PrunedSubseq(o: Outline, a: seq<Node>, b: seq<Node>, d: nat, s: set<Id>)
    requires Subseq(a, b)
    ensures Subseq(Pruned(o, a, d, s), Listed(o, b, d))
    decreases d
  {
    hide Listing;
    hide Blocks;
    hide Subseq;
    hide Ids;
    hide Except;
    if d == 0 {
      assert Pruned(o, a, d, s) == a && Listed(o, b, d) == b;
    } else {
      NextLevelSubseq(o, a, b, s);
      var na, nb := Blocks(o, Except(Ids(a), s)), Blocks(o, Ids(b));
      PrunedSubseq(o, na, nb, d - 1, s);
      SubseqAppend(a, b, Pruned(o, na, d - 1, s), Listed(o, nb, d - 1));
    }
  }

  lemma NextLevelSubseq(o: Outline, a: seq<Node>, b: seq<Node>, s: set<Id>)
    requires Subseq(a, b)
    ensures Subseq(Blocks(o, Except(Ids(a), s)), Blocks(o, Ids(b)))
  {
    IdsSubseq(a, b);
    ExceptSubseq(Ids(a), s, Ids(b));
    BlocksSubseq(o, Except(Ids(a), s), Ids(b));
  }

  lemma NextPruned(o: Outline, level: seq<Node>, s: set<Id>, rank: map<Id, nat>, r: nat)
    requires ParentsAgree(o) && Ranked(o, rank) && AtDepth(level, rank, r)
    ensures AtDepth(Blocks(o, Except(Ids(level), s)), rank, r + 1)
  {
    forall p | p in Except(Ids(level), s) ensures p in rank && rank[p] == r {
      var n := NodeWithId(level, p);
    }
    NextDepth(o, Except(Ids(level), s), rank, r);
  }

  lemma {:induction false} PrunedDepth(o: Outline, level: seq<Node>, d: nat, s: set<Id>,
                                       rank: map<Id, nat>, r: nat, n: Node)
    requires ParentsAgree(o) && Ranked(o, rank) && AtDepth(level, rank, r)
    requires n in Pruned(o, level, d, s)
    ensures n.id in rank && rank[n.id] >= r
    decreases d
  {
    InPruned(o, level, d, s, n);
    hide Pruned;
    if n !in level {
      NextPruned(o, level, s, rank, r);
      PrunedDepth(o, Blocks(o, Except(Ids(level), s)), d - 1, s, rank, r + 1, n);
    }
  }

  /** The k-th level down is k ranks below the first. */
  lemma {:induction false} PrunedRank(o: Outline, level: seq<Node>, d: nat, s: set<Id>,
                                      rank: map<Id, nat>, r: nat, n: Node)
    requires ParentsAgree(o) && Ranked(o, rank) && AtDepth(level, rank, r)
    requires n in Pruned(o, level, d, s)
    ensures n.id in rank && r <= rank[n.id] <= r + d
    decreases d
  {
    InPruned(o, level, d, s, n);
    hide Pruned;
    hide Ranked;
    if n !in level {
      NextPruned(o, level, s, rank, r);
      hide AtDepth;
      PrunedRank(o, Blocks(o, Except(Ids(level), s)), d - 1, s, rank, r + 1, n);
    }
  }

  /** A listed node of a small rank is listed already down to that rank. */
  lemma {:induction false} ShallowPruned(o: Outline, level: seq<Node>, k: nat, j: nat, s: set<Id>,
                                         rank: map<Id, nat>, r: nat, n: Node)
    requires ParentsAgree(o) && Ranked(o, rank) && AtDepth(level, rank, r)
    requires n in Pruned(o, level, k, s) && n.id in rank && rank[n.id] <= r + j
    ensures n in Pruned(o, level, j, s)
    decreases k
  {
    InPruned(o, level, k, s, n);
    InPruned(o, level, j, s, n);
    hide Pruned;
    hide Ranked;
    if n !in level {
      var next := Blocks(o, Except(Ids(level), s));
      NextPruned(o, level, s, rank, r);
      PrunedRank(o, next, k - 1, s, rank, r + 1, n);
      hide AtDepth;
      ShallowPruned(o, next, k - 1, j - 1, s, rank, r + 1, n);
    }
  }

  /** Children of a pruned branch are not listed. */
  lemma {:induction false} PrunedBranch(o: Outline, level: seq<Node>, d: nat, s: set<Id>, b: Id, m: Node)
    requires ParentsAgree(o) && b in s && m in Listing(o, b) && m !in level
    ensures m !in Pruned(o, level, d, s)
    decreases d
  {
    InPruned(o, level, d, s, m);
    hide Pruned;
    if d > 0 {
      ListingMember(o, b, m);
      BlocksMembers(o, Except(Ids(level), s), m);
      PrunedBranch(o, Blocks(o, Except(Ids(level), s)), d - 1, s, b, m);
    }
  }

  lemma CoveredHere(o: Outline, level: seq<Node>, d: nat, s: set<Id>, n: Node, m: Node)
    requires ParentsAgree(o)
    requires d > 0 && n in level && n.id !in s && m in Listing(o, n.id)
    ensures m in Pruned(o, level, d, s)
  {
    var next := Blocks(o, Except(Ids(level), s));
    InPruned(o, level, d, s, m);
    InPruned(o, next, d - 1, s, m);
    hide Pruned;
    IdIn(level, n);
    ListingMember(o, n.id, m);
    BlocksMembers(o, Except(Ids(level), s), m);
  }

  lemma {:induction false} CoveredBranch(o: Outline, level: seq<Node>, d: nat, s: set<Id>, n: Node, m: Node)
    requires ParentsAgree(o)
    requires d > 0 && n in Pruned(o, level, d - 1, s) && n.id !in s && m in Listing(o, n.id)
    ensures m in Pruned(o, level, d, s)
    decreases d
  {
    hide Pruned;
    hide Listing;
    hide Blocks;
    if n in level {
      CoveredHere(o, level, d, s, n, m);
    } else {
      InPruned(o, level, d, s, m);
      InPruned(o, level, d - 1, s, n);
      CoveredBranch(o, Blocks(o, Except(Ids(level), s)), d - 1, s, n, m);
    }
  }

  /** Pruned by s, each node above the last level either has its whole child listing
      present or is in s, and then has none of it. */
  lemma PrunedCoverage(o: Outline, level: seq<Node>, d: nat, s: set<Id>, n: Node, m: Node)
    requires Forest(o) && FirstLevel(o, level)
    requires d > 0 && n in Pruned(o, level, d - 1, s) && m in Listing(o, n.id)
    ensures m in Pruned(o, level, d, s) <==> n.id !in s
  {
    hide Pruned;
    hide Listing;
    if n.id !in s {
      CoveredBranch(o, level, d, s, n, m);
    } else {
      var rank, r :| Ranked(o, rank) && AtDepth(level, rank, r);
      PrunedDepth(o, level, d - 1, s, rank, r, n);
      ListingMember(o, n.id, m);
      assert rank[m.id] == rank[n.id] + 1;
      PrunedBranch(o, level, d, s, n.id, m);
    }
  }

  // ---------------------------------------------------------------------
  // Restoring document order to a level assembled in completion order
  // ---------------------------------------------------------------------

  /** Position of the last occurrence of x in ids, or |ids| when absent. */
  function LastIndex(ids: seq<Id>, x: Id): (r: nat)
    ensures r <= |ids|
    ensures r < |ids| ==> ids[r] == x
    ensures r == |ids| ==> x !in ids
  {
    if ids == [] then 0
    else
      var n := |ids| - 1;
      var r := LastIndex(ids[..n], x);
      assert ids == ids[..n] + [ids[n]];
      if ids[n] == x then n else if r == n then n + 1 else r
  }

  function ParentRank(ids: seq<Id>, n: Node): int {
    match n.parent
    case Some(p) => LastIndex(ids, p)
    case None => |ids|
  }

  /** The sort key of a level: its parent's position in the level above. */
  function ParentKey(ids: seq<Id>): Node -> int {
    n => ParentRank(ids, n)
  }

  lemma {:induction false} BlockOfKey(o: Outline, ids: seq<Id>, ps: seq<Id>, k: int)
    requires ParentsAgree(o) && NoDup(ids) && NoDup(ps)
    requires forall p :: p in ps ==> p in ids
    ensures WithKey(Blocks(o, ps), ParentKey(ids), k)
            == if 0 <= k < |ids| && ids[k] in ps then Listing(o, ids[k]) else []
  {
    if ps != [] {
      var j := LastIndex(ids, ps[0]);
      assert ps[0] in ids;
      forall n | n in Listing(o, ps[0]) ensures ParentKey(ids)(n) == j {
        ListingMember(o, ps[0], n);
      }
      BlockOfKey(o, ids, ps[1..], k);
      WithKeyAppend(Listing(o, ps[0]), Blocks(o, ps[1..]), ParentKey(ids), k);
      WithKeyUniform(Listing(o, ps[0]), ParentKey(ids), j, k);
      assert ps[0] !in ps[1..];
    }
  }

  /** Blocks of parents taken in level order are ordered by parent position. */
  lemma {:induction false} BlocksInOrder(o: Outline, ids: seq<Id>, lo: nat, s: set<Id>)
    requires ParentsAgree(o) && NoDup(ids) && lo <= |ids|
    ensures SortedBy(Blocks(o, Except(ids[lo..], s)), ParentKey(ids))
    ensures forall n :: n in Blocks(o, Except(ids[lo..], s)) ==> ParentKey(ids)(n) >= lo
    decreases |ids| - lo
  {
    if lo < |ids| {
      BlocksInOrder(o, ids, lo + 1, s);
      assert ids[lo..][1..] == ids[lo + 1..];
      if ids[lo] !in s {
        var a, b := Listing(o, ids[lo]), Blocks(o, Except(ids[lo + 1..], s));
        forall n | n in a ensures ParentKey(ids)(n) == lo {
          ListingMember(o, ids[lo], n);
          assert ids[LastIndex(ids, ids[lo])] == ids[lo];
        }
        SortedAppend(a, b, ParentKey(ids), lo);
        assert Except(ids[lo..], s) == [ids[lo]] + Except(ids[lo + 1..], s);
        assert Blocks(o, Except(ids[lo..], s)) == a + b;
      }
    }
  }

  lemma SortedAppend(a: seq<Node>, b: seq<Node>, key: Node -> int, k: int)
    requires forall n :: n in a ==> key(n) == k
    requires SortedBy(b, key) && forall n :: n in b ==> key(n) >= k
    ensures SortedBy(a + b, key)
  {
    var s := a + b;
    forall i, j | 0 <= i < j < |s| ensures key(s[i]) <= key(s[j]) {
      assert i < |a| ==> s[i] in a;
      assert j < |a| ==> s[j] in a;
      assert j >= |a| ==> s[j] == b[j - |a|] && s[j] in b;
      assert i >= |a| ==> s[i] == b[i - |a|];
    }
  }

  /** The blocks of a level's fetched parents, in whatever order the fetches completed,
      sort back to level order: only the unfetched branches s are missing. */
  lemma DocumentOrder(o: Outline, ids: seq<Id>, done: seq<Id>, s: set<Id>)
    requires OneOwner(o) && ParentsAgree(o) && NoDup(ids) && NoDup(done)
    requires forall x :: x in done <==> x in ids && x !in s
    ensures StableSort(Blocks(o, done), ParentKey(ids)) == Blocks(o, Except(ids, s))
  {
    var key := ParentKey(ids);
    var level, wanted := Blocks(o, done), Blocks(o, Except(ids, s));
    StableSortProps(level, key);
    assert ids[0..] == ids;
    BlocksInOrder(o, ids, 0, s);
    ExceptNoDup(ids, s);
    forall k ensures WithKey(StableSort(level, key), key, k) == WithKey(wanted, key, k) {
      BlockOfKey(o, ids, done, k);
      BlockOfKey(o, ids, Except(ids, s), k);
      assert 0 <= k < |ids| ==> (ids[k] in done <==> ids[k] in Except(ids, s));
    }
    StableSortUnique(StableSort(level, key), wanted, key);
  }
}
