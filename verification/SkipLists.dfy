/** What a walk's list of dropped branches accounts for, wherever the walk stops. */
module SkipLists {
  import opened Sequences
  import opened Outlines
  import opened LevelOrder
  import opened WalkInvariant

  /** The k-th level below the given one, without the children of the branches in s. */
  function PrunedLevel(o: Outline, level: seq<Node>, k: nat, s: set<Id>): seq<Node>
    decreases k
  {
    if k == 0 then level else PrunedLevel(o, Blocks(o, Except(Ids(level), s)), k - 1, s)
  }

  /** The levels above the k-th. */
  function Above(o: Outline, level: seq<Node>, k: nat, s: set<Id>): seq<Node> {
    if k == 0 then [] else Pruned(o, level, k - 1, s)
  }

  lemma {:induction false} NextPrunedLevel(o: Outline, level: seq<Node>, k: nat, s: set<Id>)
    ensures PrunedLevel(o, level, k + 1, s) == Blocks(o, Except(Ids(PrunedLevel(o, level, k, s)), s))
    decreases k
  {
    hide Blocks;
    hide Except;
    hide Ids;
    if k > 0 {
      NextPrunedLevel(o, Blocks(o, Except(Ids(level), s)), k - 1, s);
    }
  }

  lemma {:induction false} PrunedGrows(o: Outline, level: seq<Node>, k: nat, s: set<Id>)
    ensures Pruned(o, level, k, s) == Above(o, level, k, s) + PrunedLevel(o, level, k, s)
    decreases k
  {
    hide Blocks;
    hide Except;
    hide Ids;
    hide Pruned;
    hide Above;
    var next := Blocks(o, Except(Ids(level), s));
    PrunedOnce(o, level, k, s);
    AboveOnce(o, level, k, s);
    if k > 0 {
      PrunedGrows(o, next, k - 1, s);
      assert level + (Above(o, next, k - 1, s) + PrunedLevel(o, next, k - 1, s))
             == (level + Above(o, next, k - 1, s)) + PrunedLevel(o, next, k - 1, s);
    }
  }

  lemma AboveOnce(o: Outline, level: seq<Node>, k: nat, s: set<Id>)
    ensures Above(o, level, k, s)
            == if k == 0 then [] else level + Above(o, Blocks(o, Except(Ids(level), s)), k - 1, s)
  {
    hide Pruned;
    hide Blocks;
    hide Except;
    hide Ids;
    if k > 0 {
      PrunedOnce(o, level, k - 1, s);
    }
  }

  lemma PrunedOnce(o: Outline, level: seq<Node>, k: nat, s: set<Id>)
    ensures Pruned(o, level, k, s)
            == if k == 0 then level else level + Pruned(o, Blocks(o, Except(Ids(level), s)), k - 1, s)
  {
    hide Blocks;
    hide Except;
    hide Ids;
  }

  /** Listings to a smaller depth are prefixes of listings to a larger one. */
  lemma {:induction false} PrunedMonotone(o: Outline, level: seq<Node>, k: nat, d: nat, s: set<Id>)
    requires k <= d
    ensures Pruned(o, level, k, s) <= Pruned(o, level, d, s)
    decreases d
  {
    hide Pruned;
    if k < d {
      PrunedMonotone(o, level, k, d - 1, s);
      PrunedGrows(o, level, d, s);
    }
  }

  // ---------------------------------------------------------------------
  // The walk knows its level
  // ---------------------------------------------------------------------

  /** What was emitted are the levels above, and the current level is the next, whatever is dropped
      later. */
  ghost predicate Leveled(o: Outline, initial: seq<Node>, d: nat, w: Walk) {
    && w.rem <= d
    && forall t: set<Id> :: Agree(w.emitted, t, SetOf(w.skipped)) ==> LeveledAt(o, initial, d - w.rem, w, t)
  }

  ghost predicate LeveledAt(o: Outline, initial: seq<Node>, k: nat, w: Walk, t: set<Id>) {
    w.emitted == Above(o, initial, k, t) && w.current == PrunedLevel(o, initial, k, t)
  }

  lemma LeveledStart(o: Outline, initial: seq<Node>, d: nat)
    ensures Leveled(o, initial, d, Start(initial, d))
  {
  }

  lemma LeveledStep(o: Outline, initial: seq<Node>, k: nat, w: Walk, failed: seq<Id>, t: set<Id>)
    requires w.rem > 0 && LeveledAt(o, initial, k, w, t)
    requires forall x :: x in Ids(w.current) ==> (x in t <==> x in SetOf(failed))
    ensures LeveledAt(o, initial, k + 1, Advanced(o, w, failed), t)
  {
    hide Blocks;
    hide Except;
    hide Ids;
    hide Pruned;
    hide PrunedLevel;
    PrunedGrows(o, initial, k, t);
    NextPrunedLevel(o, initial, k, t);
    ExceptSame(Ids(w.current), t, SetOf(failed));
  }

  lemma LeveledAdvance(o: Outline, initial: seq<Node>, d: nat, w: Walk, failed: seq<Id>)
    requires w.rem > 0 && Leveled(o, initial, d, w) && SkippedKnown(w.emitted, w.skipped)
    requires forall x :: x in failed ==> x in Ids(w.current)
    requires forall x :: x in Ids(w.current) ==> x !in Ids(w.emitted)
    ensures Leveled(o, initial, d, Advanced(o, w, failed))
  {
    hide Blocks;
    hide Except;
    hide Ids;
    hide LeveledAt;
    hide Agree;
    hide NoDup;
    var next := Advanced(o, w, failed);
    var s, f := SetOf(w.skipped), SetOf(failed);
    assert SetOf(next.skipped) == s + f;
    assert forall x :: x in f ==> x in Ids(w.current);
    assert forall x :: x in s ==> x in Ids(w.emitted);
    hide SetOf;
    forall t: set<Id> | Agree(next.emitted, t, SetOf(next.skipped))
      ensures LeveledAt(o, initial, d - next.rem, next, t)
    {
      AgreeSplit(w.emitted, w.current, t, s, f);
      LeveledStep(o, initial, d - w.rem, w, failed, t);
    }
  }

  // ---------------------------------------------------------------------
  // Accounting
  // ---------------------------------------------------------------------

  /** The levels above the k-th are complete but for the children of the dropped branches, the k-th is
      there in part, and there is nothing else. */
  ghost predicate AccountedAt(o: Outline, initial: seq<Node>, k: nat, emitted: seq<Node>, dropped: seq<Id>) {
    var s := SetOf(dropped);
    Above(o, initial, k, s) <= emitted && Subseq(emitted, Pruned(o, initial, k, s))
  }

  ghost predicate Accounted(o: Outline, initial: seq<Node>, d: nat, emitted: seq<Node>, dropped: seq<Id>) {
    exists k: nat :: k <= d && AccountedAt(o, initial, k, emitted, dropped)
  }

  /** A walk that stops with part of its current level emitted. */
  lemma PartEmitted(o: Outline, initial: seq<Node>, d: nat, w: Walk, part: seq<Node>)
    requires Leveled(o, initial, d, w) && Subseq(part, w.current)
    ensures Accounted(o, initial, d, w.emitted + part, w.skipped)
  {
    var k := d - w.rem;
    assert Agree(w.emitted, SetOf(w.skipped), SetOf(w.skipped));
    assert LeveledAt(o, initial, k, w, SetOf(w.skipped));
    PrunedGrows(o, initial, k, SetOf(w.skipped));
    hide Pruned;
    hide PrunedLevel;
    hide Above;
    SubseqRefl(w.emitted);
    SubseqAppend(w.emitted, w.emitted, part, w.current);
    hide Subseq;
    assert AccountedAt(o, initial, k, w.emitted + part, w.skipped);
  }

  /** A walk that stops while it fetches the next level: the missing parents include the failed. */
  lemma PartFetched(o: Outline, initial: seq<Node>, d: nat, w: Walk, failed: seq<Id>, missing: seq<Id>, r: nat)
    requires w.rem > 0 && Leveled(o, initial, d, w) && SkippedKnown(w.emitted, w.skipped)
    requires forall x :: x in failed ==> x in Ids(w.current) && x in missing
    requires forall x :: x in Ids(w.current) ==> x !in Ids(w.emitted)
    requires r <= |Advanced(o, w, missing).current|
    ensures Accounted(o, initial, d, w.emitted + w.current + Advanced(o, w, missing).current[..r], w.skipped + failed)
  {
    LeveledAdvance(o, initial, d, w, failed);
    var next, part := Advanced(o, w, failed), Advanced(o, w, missing).current[..r];
    FewerBlocks(o, Ids(w.current), failed, missing, r);
    hide Leveled;
    hide Subseq;
    hide Blocks;
    hide Except;
    PartEmitted(o, initial, d, next, part);
  }

  lemma FewerBlocks(o: Outline, ids: seq<Id>, failed: seq<Id>, missing: seq<Id>, r: nat)
    requires forall x :: x in failed ==> x in missing
    requires r <= |Blocks(o, Except(ids, SetOf(missing)))|
    ensures Subseq(Blocks(o, Except(ids, SetOf(missing)))[..r], Blocks(o, Except(ids, SetOf(failed))))
  {
    ExceptFewer(ids, SetOf(failed), SetOf(missing));
    BlocksSubseq(o, Except(ids, SetOf(missing)), Except(ids, SetOf(failed)));
    var few := Blocks(o, Except(ids, SetOf(missing)));
    SubseqTake(few, r);
    SubseqTrans(few[..r], few, Blocks(o, Except(ids, SetOf(failed))));
  }

  lemma {:induction false} ExceptFewer(ids: seq<Id>, s: set<Id>, t: set<Id>)
    requires s <= t
    ensures Subseq(Except(ids, t), Except(ids, s))
  {
    if ids != [] {
      ExceptFewer(ids[1..], s, t);
      var a, b := Except(ids[1..], t), Except(ids[1..], s);
      assert ([ids[0]] + a)[1..] == a && ([ids[0]] + b)[1..] == b;
    }
  }

  /** So the list is complete: nothing is emitted below a dropped branch, and an emitted node has each
      child emitted exactly when it is not a dropped branch, as soon as anything deeper than the child
      is emitted. */
  lemma DroppedExplains(o: Outline, initial: seq<Node>, k: nat, emitted: seq<Node>, dropped: seq<Id>,
                        rank: map<Id, nat>, r: nat, n: Node, m: Node)
    requires ParentsAgree(o) && Ranked(o, rank) && AtDepth(initial, rank, r)
    requires AccountedAt(o, initial, k, emitted, dropped) && n in emitted && m in Listing(o, n.id)
    ensures n.id in rank && m.id in rank && r <= rank[n.id] && rank[m.id] == rank[n.id] + 1
    ensures n.id in dropped ==> m !in emitted
    ensures forall z :: z in emitted && z.id in rank && rank[z.id] > rank[m.id] ==>
              (m in emitted <==> n.id !in dropped)
  {
    var s := SetOf(dropped);
    hide Pruned;
    hide Listing;
    hide AtDepth;
    SubseqMembers(emitted, Pruned(o, initial, k, s));
    hide Subseq;
    PrunedRank(o, initial, k, s, rank, r, n);
    hide Ranked;
    ChildRank(o, rank, n.id, m);
    if n.id in dropped {
      NotInitial(initial, rank, r, m);
      PrunedBranch(o, initial, k, s, n.id, m);
    } else {
      forall z | z in emitted && z.id in rank && rank[z.id] > rank[m.id] ensures m in emitted {
        PrunedRank(o, initial, k, s, rank, r, z);
        ShallowPruned(o, initial, k, k - 2, s, rank, r, n);
        CoveredBranch(o, initial, k - 1, s, n, m);
        assert m in Above(o, initial, k, s);
      }
    }
  }

  lemma NotInitial(initial: seq<Node>, rank: map<Id, nat>, r: nat, m: Node)
    requires AtDepth(initial, rank, r) && m.id in rank && rank[m.id] > r
    ensures m !in initial
  {
  }
}
