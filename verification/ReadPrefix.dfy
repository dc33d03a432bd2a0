/** Where a read without some branches parts from the full read. */
module ReadPrefix {
  import opened Sequences
  import opened Outlines
  import opened LevelOrder
  import opened SkipLists

  /** Position of the first lost parent that has children, or the number of parents. */
  function FirstGap(o: Outline, ids: seq<Id>, lost: set<Id>): (g: nat)
    ensures g <= |ids|
  {
    if ids == [] || (ids[0] in lost && Listing(o, ids[0]) != []) then 0 else 1 + FirstGap(o, ids[1..], lost)
  }

  lemma {:induction false} GapIsFirst(o: Outline, ids: seq<Id>, lost: set<Id>)
    ensures var g := FirstGap(o, ids, lost);
            && (g < |ids| ==> ids[g] in lost && Listing(o, ids[g]) != [])
            && forall i :: 0 <= i < g ==> ids[i] !in lost || Listing(o, ids[i]) == []
  {
    hide Listing;
    if ids != [] && !(ids[0] in lost && Listing(o, ids[0]) != []) {
      GapIsFirst(o, ids[1..], lost);
      forall i | 0 <= i < FirstGap(o, ids, lost) ensures ids[i] !in lost || Listing(o, ids[i]) == [] {
        assert i > 0 ==> ids[i] == ids[1..][i - 1];
      }
    }
  }

  /** The parents whose children a full read lists, in the order it lists them. */
  function Parents(o: Outline, initial: seq<Node>, d: nat): seq<Id> {
    if d == 0 then [] else Ids(Listed(o, initial, d - 1))
  }

  /** How many nodes the full read lists before the children of the first lost parent. */
  function BeforeLoss(o: Outline, initial: seq<Node>, d: nat, lost: set<Id>): nat {
    var ps := Parents(o, initial, d);
    |initial| + |Blocks(o, ps[..FirstGap(o, ps, lost)])|
  }

  /** The full read is the initial level and the children of its parents, in their order. */
  lemma {:induction false} ListedByParents(o: Outline, initial: seq<Node>, d: nat)
    ensures Listed(o, initial, d) == initial + Blocks(o, Parents(o, initial, d))
    decreases d
  {
    hide Listing;
    ListedStep(o, initial, d);
    if d > 0 {
      var next := Blocks(o, Ids(initial));
      ListedStep(o, initial, d - 1);
      ListedByParents(o, next, d - 1);
      hide Listed;
      if d > 1 {
        var below := Listed(o, next, d - 2);
        IdsAppend(initial, below);
        BlocksAppend(o, Ids(initial), Ids(below));
        hide Blocks;
        assert initial + (next + Blocks(o, Ids(below))) == initial + Blocks(o, Ids(initial) + Ids(below));
      }
    }
  }

  lemma {:induction false} ListedRank(o: Outline, level: seq<Node>, d: nat, rank: map<Id, nat>, r: nat, n: Node)
    requires ParentsAgree(o) && Ranked(o, rank) && AtDepth(level, rank, r) && n in Listed(o, level, d)
    ensures n.id in rank && r <= rank[n.id] <= r + d
  {
    PrunedNothing(o, level, d);
    PrunedRank(o, level, d, {}, rank, r, n);
  }

  ghost predicate Sorted(s: seq<Node>, rank: map<Id, nat>, r: nat) {
    && (forall n :: n in s ==> n.id in rank && r <= rank[n.id])
    && forall i, j :: 0 <= i <= j < |s| ==> rank[s[i].id] <= rank[s[j].id]
  }

  lemma SortedJoin(a: seq<Node>, b: seq<Node>, rank: map<Id, nat>, r: nat)
    requires AtDepth(a, rank, r) && Sorted(b, rank, r + 1)
    ensures Sorted(a + b, rank, r)
  {
    var s := a + b;
    forall i, j | 0 <= i <= j < |s| ensures rank[s[i].id] <= rank[s[j].id] {
      assert i < |a| ==> s[i] in a;
      assert j < |a| ==> s[j] in a;
      assert j >= |a| ==> s[j] == b[j - |a|] && s[j] in b;
    }
  }

  /** Ranks never fall along the full read. */
  lemma {:induction false} ListedSorted(o: Outline, level: seq<Node>, d: nat, rank: map<Id, nat>, r: nat)
    requires ParentsAgree(o) && Ranked(o, rank) && AtDepth(level, rank, r)
    ensures Sorted(Listed(o, level, d), rank, r)
    decreases d
  {
    hide Listed;
    hide AtDepth;
    hide Ranked;
    hide Sorted;
    hide Blocks;
    hide Ids;
    ListedStep(o, level, d);
    if d == 0 {
      FlatSorted(level, rank, r);
    } else {
      NextListed(o, level, rank, r);
      ListedSorted(o, Blocks(o, Ids(level)), d - 1, rank, r + 1);
      SortedJoin(level, Listed(o, Blocks(o, Ids(level)), d - 1), rank, r);
    }
  }

  lemma FlatSorted(level: seq<Node>, rank: map<Id, nat>, r: nat)
    requires AtDepth(level, rank, r)
    ensures Sorted(level, rank, r)
  {
    forall i | 0 <= i < |level| ensures level[i].id in rank && rank[level[i].id] == r {
      assert level[i] in level;
    }
  }

  /** A node below the first level is found among the children of a node listed one level higher. */
  lemma ParentListed(o: Outline, initial: seq<Node>, d: nat, rank: map<Id, nat>, r: nat, m: Node) returns (i: nat)
    requires ParentsAgree(o) && Ranked(o, rank) && AtDepth(initial, rank, r)
    requires m in Listed(o, initial, d) && m !in initial
    ensures d > 0 && i < |Parents(o, initial, d)| && m in Listing(o, Parents(o, initial, d)[i])
    ensures Parents(o, initial, d)[i] in rank && m.id in rank && rank[m.id] == rank[Parents(o, initial, d)[i]] + 1
  {
    hide Listing;
    ListedByParents(o, initial, d);
    var ps := Parents(o, initial, d);
    hide Listed;
    BlocksMembers(o, ps, m);
    var p := m.parent.value;
    i :| 0 <= i < |ps| && ps[i] == p;
    ListingMember(o, p, m);
  }

  /** Reads to a smaller depth are prefixes of reads to a larger one. */
  lemma ListedMonotone(o: Outline, level: seq<Node>, k: nat, d: nat)
    requires k <= d
    ensures Listed(o, level, k) <= Listed(o, level, d)
  {
    hide Listed;
    hide Pruned;
    PrunedNothing(o, level, k);
    PrunedNothing(o, level, d);
    PrunedMonotone(o, level, k, d, {});
  }

  // ---------------------------------------------------------------------
  // Up to the first gap nothing is lost, and its first child is
  // ---------------------------------------------------------------------

  lemma RankBelow(s: seq<Node>, rank: map<Id, nat>, r: nat, i: nat, j: nat)
    requires Sorted(s, rank, r) && i < |s| && j < |s|
    requires s[i].id in rank && s[j].id in rank && rank[s[i].id] < rank[s[j].id]
    ensures i < j
  {
  }

  /** Every parent before the first gap is still read. */
  lemma {:induction false} BeforeGapKept(o: Outline, initial: seq<Node>, d: nat, lost: set<Id>, rank: map<Id, nat>,
                                         r: nat, j: nat)
    requires ParentsAgree(o) && Ranked(o, rank) && AtDepth(initial, rank, r)
    requires d > 0 && j < |Listed(o, initial, d - 1)| && j < FirstGap(o, Parents(o, initial, d), lost)
    ensures Listed(o, initial, d - 1)[j] in Pruned(o, initial, d - 1, lost)
    decreases j
  {
    hide Listed;
    hide Pruned;
    hide Listing;
    hide AtDepth;
    hide Ranked;
    hide Sorted;
    hide Ids;
    var all := Listed(o, initial, d - 1);
    var n := all[j];
    if n in initial {
      InPruned(o, initial, d - 1, lost, n);
    } else {
      var i := ParentAbove(o, initial, d - 1, rank, r, j);
      GapIsFirst(o, Parents(o, initial, d), lost);
      assert Parents(o, initial, d)[i] == all[i].id;
      BeforeGapKept(o, initial, d, lost, rank, r, i);
      KeptBelow(o, initial, d - 1, lost, rank, r, all[i], n);
    }
  }

  /** The parent of a node of the full read stands before it in the read. */
  lemma ParentAbove(o: Outline, initial: seq<Node>, d: nat, rank: map<Id, nat>, r: nat, j: nat) returns (i: nat)
    requires ParentsAgree(o) && Ranked(o, rank) && AtDepth(initial, rank, r)
    requires j < |Listed(o, initial, d)| && Listed(o, initial, d)[j] !in initial
    ensures i < j && Listed(o, initial, d)[j] in Listing(o, Listed(o, initial, d)[i].id)
  {
    hide Listed;
    hide Listing;
    hide AtDepth;
    hide Ranked;
    hide Sorted;
    var all := Listed(o, initial, d);
    i := ParentListed(o, initial, d, rank, r, all[j]);
    ListedMonotone(o, initial, d - 1, d);
    assert Parents(o, initial, d)[i] == Listed(o, initial, d - 1)[i].id == all[i].id;
    ListedSorted(o, initial, d, rank, r);
    RankBelow(all, rank, r, i, j);
  }

  /** A node of the full read is read when its parent is, and is not lost. */
  lemma KeptBelow(o: Outline, initial: seq<Node>, d: nat, lost: set<Id>, rank: map<Id, nat>, r: nat, n: Node, m: Node)
    requires ParentsAgree(o) && Ranked(o, rank) && AtDepth(initial, rank, r)
    requires n in Pruned(o, initial, d, lost) && n.id !in lost
    requires m in Listed(o, initial, d) && m in Listing(o, n.id)
    ensures m in Pruned(o, initial, d, lost)
  {
    hide Listed;
    hide Pruned;
    hide Listing;
    hide AtDepth;
    PrunedRank(o, initial, d, lost, rank, r, n);
    ListedRank(o, initial, d, rank, r, m);
    hide Ranked;
    ChildRank(o, rank, n.id, m);
    ShallowPruned(o, initial, d, d - 1, lost, rank, r, n);
    CoveredBranch(o, initial, d, lost, n, m);
  }

  /** So is every node before the first gap's children. */
  lemma BeforeLossKept(o: Outline, initial: seq<Node>, d: nat, lost: set<Id>, rank: map<Id, nat>, r: nat, m: Node)
    requires ParentsAgree(o) && Ranked(o, rank) && AtDepth(initial, rank, r)
    requires m in Listed(o, initial, d)
    requires var ps := Parents(o, initial, d); m in initial + Blocks(o, ps[..FirstGap(o, ps, lost)])
    ensures m in Pruned(o, initial, d, lost)
  {
    hide Listed;
    hide Pruned;
    hide Listing;
    hide AtDepth;
    hide Ranked;
    hide Blocks;
    var ps := Parents(o, initial, d);
    var g := FirstGap(o, ps, lost);
    if m in initial {
      InPruned(o, initial, d, lost, m);
    } else {
      BlocksMembers(o, ps[..g], m);
      var i :| 0 <= i < g && ps[i] == m.parent.value;
      GapIsFirst(o, ps, lost);
      BeforeGapKept(o, initial, d, lost, rank, r, i);
      var n := Listed(o, initial, d - 1)[i];
      PrunedMonotone(o, initial, d - 1, d, lost);
      KeptBelow(o, initial, d, lost, rank, r, n, m);
    }
  }

  /** The first child of the first gap is not read. */
  lemma GapLost(o: Outline, initial: seq<Node>, d: nat, lost: set<Id>, rank: map<Id, nat>, r: nat, p: Id, m: Node)
    requires ParentsAgree(o) && Ranked(o, rank) && AtDepth(initial, rank, r)
    requires p in Parents(o, initial, d) && p in lost && m in Listing(o, p)
    ensures m !in Pruned(o, initial, d, lost)
  {
    hide Listed;
    hide Pruned;
    hide Listing;
    hide Ids;
    hide AtDepth;
    hide Ranked;
    var n := NodeWithId(Listed(o, initial, d - 1), p);
    ListedRank(o, initial, d - 1, rank, r, n);
    ChildRank(o, rank, p, m);
    NotInitial(initial, rank, r, m);
    PrunedBranch(o, initial, d, lost, p, m);
  }

  lemma {:induction false} SubseqPrefix<T>(a: seq<T>, b: seq<T>, n: nat)
    requires Subseq(a, b) && NoDup(b) && n <= |b| && forall x :: x in b[..n] ==> x in a
    ensures n <= |a| && a[..n] == b[..n]
    decreases |b|
  {
    if n > 0 {
      assert b[0] in b[..n];
      assert b[0] !in b[1..];
      if Subseq(a, b[1..]) {
        SubseqMembers(a, b[1..]);
        assert false;
      } else {
        forall x | x in b[1..][..n - 1] ensures x in a[1..] {
          assert x in b[..n] && x != a[0];
        }
        assert NoDup(b[1..]);
        SubseqPrefix(a[1..], b[1..], n - 1);
        assert a[..n] == [a[0]] + a[1..][..n - 1] && b[..n] == [b[0]] + b[1..][..n - 1];
      }
    }
  }

  // ---------------------------------------------------------------------
  // A prefix of the read without lost branches, against the full read
  // ---------------------------------------------------------------------

  /** Where a read with gaps has its first gap, if it has one, it parts from the full read. */
  lemma PartsAtGap(o: Outline, initial: seq<Node>, d: nat, lost: set<Id>)
    requires Forest(o) && FirstLevel(o, initial)
    ensures var b := BeforeLoss(o, initial, d, lost);
            var all, kept := Listed(o, initial, d), Pruned(o, initial, d, lost);
            && b <= |all| && b <= |kept| && kept[..b] == all[..b]
            && (b < |all| ==> all[b] !in kept)
  {
    var rank, r :| Ranked(o, rank) && AtDepth(initial, rank, r);
    hide Listed;
    hide Pruned;
    hide Listing;
    hide AtDepth;
    hide Ranked;
    hide Blocks;
    hide Subseq;
    var ps := Parents(o, initial, d);
    var g := FirstGap(o, ps, lost);
    var b := BeforeLoss(o, initial, d, lost);
    var all, kept := Listed(o, initial, d), Pruned(o, initial, d, lost);
    SplitAtGap(o, initial, d, lost);
    forall m | m in all[..b] ensures m in kept {
      BeforeLossKept(o, initial, d, lost, rank, r, m);
    }
    SubseqRefl(initial);
    PrunedSubseq(o, initial, initial, d, lost);
    FirstLevelDistinct(o, initial, d);
    DistinctMembers(all);
    SubseqPrefix(kept, all, b);
    if b < |all| {
      GapLost(o, initial, d, lost, rank, r, ps[g], all[b]);
    }
  }

  lemma SplitAtGap(o: Outline, initial: seq<Node>, d: nat, lost: set<Id>)
    ensures var ps := Parents(o, initial, d);
            var g := FirstGap(o, ps, lost);
            var all := Listed(o, initial, d);
            var b := BeforeLoss(o, initial, d, lost);
            && b <= |all| && all[..b] == initial + Blocks(o, ps[..g])
            && (b < |all| ==> g < |ps| && ps[g] in lost && all[b] in Listing(o, ps[g]))
  {
    hide Listed;
    hide Listing;
    hide Parents;
    var ps := Parents(o, initial, d);
    var g := FirstGap(o, ps, lost);
    ListedByParents(o, initial, d);
    GapIsFirst(o, ps, lost);
    hide FirstGap;
    assert ps == ps[..g] + ps[g..];
    BlocksAppend(o, ps[..g], ps[g..]);
    var front := initial + Blocks(o, ps[..g]);
    assert Listed(o, initial, d) == front + Blocks(o, ps[g..]);
    if g < |ps| {
      assert ps[g..][0] == ps[g];
      hide Blocks;
      FirstOfBlocks(o, ps[g..]);
    }
  }

  lemma FirstOfBlocks(o: Outline, ps: seq<Id>)
    requires ps != [] && Listing(o, ps[0]) != []
    ensures Blocks(o, ps) != [] && Blocks(o, ps)[0] in Listing(o, ps[0])
  {
    hide Listing;
  }

  /** A prefix of the read without the lost branches is a prefix of the full read exactly when it ends
      before the children of the first lost parent that has any. */
  lemma PrefixExactly(o: Outline, initial: seq<Node>, d: nat, lost: set<Id>, e: seq<Node>)
    requires Forest(o) && FirstLevel(o, initial) && e <= Pruned(o, initial, d, lost)
    ensures e <= Listed(o, initial, d) <==> |e| <= BeforeLoss(o, initial, d, lost)
  {
    hide BeforeLoss;
    hide Listed;
    hide Pruned;
    hide Forest;
    hide FirstLevel;
    PartsAtGap(o, initial, d, lost);
    var b := BeforeLoss(o, initial, d, lost);
    var all, kept := Listed(o, initial, d), Pruned(o, initial, d, lost);
    if |e| <= b {
      assert e == kept[..b][..|e|] == all[..b][..|e|] == all[..|e|];
    } else if b < |all| {
      assert e[b] == kept[b] && kept[b] in kept;
      assert e[b] != all[b];
    }
  }
}
