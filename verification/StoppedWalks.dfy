/** When the nodes a walk returns are a prefix of the full read. */
module StoppedWalks {
  import opened Sequences
  import opened Outlines
  import opened LevelOrder
  import opened Network
  import opened BranchRecovery
  import opened WalkRuns
  import opened WalkInvariant
  import opened SkipLists
  import opened SubtreeWalk
  import opened ReadPrefix

  // ---------------------------------------------------------------------
  // What one level of a run delivers
  // ---------------------------------------------------------------------

  lemma {:induction false} LevelConserves(o: Outline, net: Net, ids: seq<Id>, inFlight: seq<Id>, next: seq<Node>,
                                          failed: seq<Id>, done0: seq<Id>, t: nat, used: nat, limit: nat)
    returns (done: seq<Id>)
    requires Pending(o, ids, next, failed, done0, inFlight)
    ensures var l := LevelFrom(o, net, inFlight, next, failed, t, used, limit);
            && Pending(o, ids, l.next, l.failed, done, Leftover(l.inFlight, l.unfinished))
            && (l.stop.None? ==> Leftover(l.inFlight, l.unfinished) == [])
    decreases |inFlight|
  {
    hide Pending;
    hide Listing;
    done := done0;
    if inFlight != [] {
      var (id, rest) := TakeAt(inFlight, net.pick(t));
      hide TakeAt;
      PendingStep(o, ids, next, failed, done0, inFlight, id, rest);
      match net.reply(t)
      case Aborted(_) =>
      case Delivered =>
        done := done0 + [id];
        var more := next + Listing(o, id);
        if used + |more| < limit && net.status(t + 1).None? {
          done := LevelConserves(o, net, ids, rest, more, failed, done, t + 2, used, limit);
        }
      case Failed =>
        if used + |next| < limit && net.status(t + 1).None? {
          done := LevelConserves(o, net, ids, rest, next, failed + [id], done, t + 2, used, limit);
        }
    }
  }

  /** What arrived, reordered, is the level order of the parents that neither failed nor are left. */
  lemma ArrivedInOrder(o: Outline, ids: seq<Id>, next: seq<Node>, failed: seq<Id>, done: seq<Id>, left: seq<Id>)
    requires OneOwner(o) && ParentsAgree(o) && NoDup(ids) && Pending(o, ids, next, failed, done, left)
    ensures Reordered(next, ids) == Blocks(o, Except(ids, SetOf(failed + left)))
    ensures NoDup(failed) && forall x :: x in failed || x in left ==> x in ids
  {
    PendingExclusive(o, ids, next, failed, done, left);
    forall x ensures x in done <==> x in ids && x !in SetOf(failed + left) {
      DoneIsRest(o, ids, next, failed, done, left, x);
    }
    hide SetOf;
    hide Reordered;
    ReorderedLevel(o, ids, done, SetOf(failed + left));
  }

  lemma DoneIsRest(o: Outline, ids: seq<Id>, next: seq<Node>, failed: seq<Id>, done: seq<Id>, left: seq<Id>, x: Id)
    requires NoDup(ids) && Pending(o, ids, next, failed, done, left)
    ensures x in done <==> x in ids && x !in failed + left
  {
    NoDupMultiset(ids);
    assert multiset(ids)[x] == multiset(done)[x] + multiset(failed)[x] + multiset(left)[x];
    assert x in done <==> multiset(done)[x] > 0;
    assert x in failed <==> multiset(failed)[x] > 0;
    assert x in left <==> multiset(left)[x] > 0;
  }

  /** The next level of a run is the level order of the parents that neither failed nor were left
      undelivered by a stop. */
  lemma NextDelivers(o: Outline, net: Net, t0: nat, current: seq<Node>, used: nat, limit: nat, patient: bool)
    requires OneOwner(o) && ParentsAgree(o) && NoDup(Ids(current)) && current != []
    ensures var n := NextFrom(o, net, t0, current, used, limit, patient);
            && n.next == Blocks(o, Except(Ids(current), SetOf(n.failed + n.undelivered)))
            && NoDup(n.failed) && (forall x :: x in n.failed || x in n.undelivered ==> x in Ids(current))
            && (n.stop.None? ==> n.undelivered == [])
  {
    hide LevelFrom;
    hide RecoverRun;
    hide Reordered;
    hide Blocks;
    hide Except;
    hide SetOf;
    hide Pending;
    hide Conserved;
    hide Leftover;
    var ids := Ids(current);
    hide Ids;
    var l := LevelFrom(o, net, ids, [], [], t0, used, limit);
    PendingStart(o, ids);
    var done := LevelConserves(o, net, ids, ids, [], [], [], t0, used, limit);
    var left := Leftover(l.inFlight, l.unfinished);
    if l.stop.Some? || l.failed == [] {
      ArrivedInOrder(o, ids, l.next, l.failed, done, left);
    } else {
      PendingNone(o, ids, l.next, l.failed, done);
      var w := RecoverRun(o, net, l.t, l.failed, patient);
      var more := RecoverConserves(o, net, l.t, l.failed, patient);
      ConservedJoin(o, ids, l.next, l.failed, done, w.recovered, w.failed, more);
      ConservedPending(o, ids, l.next + w.recovered, w.failed, done + more);
      ArrivedInOrder(o, ids, l.next + w.recovered, w.failed, done + more, []);
    }
  }

  lemma ConservedPending(o: Outline, ids: seq<Id>, next: seq<Node>, failed: seq<Id>, done: seq<Id>)
    requires Conserved(o, ids, next, failed, done)
    ensures Pending(o, ids, next, failed, done, [])
  {
  }

  // ---------------------------------------------------------------------
  // Every run returns a prefix of the read without its lost branches
  // ---------------------------------------------------------------------

  lemma PartPruned(o: Outline, initial: seq<Node>, d: nat, w: Walk, r: nat)
    requires Leveled(o, initial, d, w) && r <= |w.current|
    ensures w.emitted + w.current[..r] <= Pruned(o, initial, d, SetOf(w.skipped))
  {
    hide Leveled;
    hide Pruned;
    hide SetOf;
    LevelsAre(o, initial, d, w);
    var s, k := SetOf(w.skipped), d - w.rem;
    PrunedMonotone(o, initial, k, d, s);
    assert w.emitted + w.current[..r] <= w.emitted + w.current;
  }

  lemma LevelsAre(o: Outline, initial: seq<Node>, d: nat, w: Walk)
    requires Leveled(o, initial, d, w)
    ensures w.rem <= d && w.emitted + w.current == Pruned(o, initial, d - w.rem, SetOf(w.skipped))
  {
    var s, k := SetOf(w.skipped), d - w.rem;
    assert Agree(w.emitted, s, s);
    assert LeveledAt(o, initial, k, w, s);
    PrunedGrows(o, initial, k, s);
  }

  lemma LevelsDistinct(o: Outline, initial: seq<Node>, d: nat, w: Walk)
    requires Forest(o) && FirstLevel(o, initial) && Leveled(o, initial, d, w)
    ensures NoDup(Ids(w.current)) && forall x :: x in Ids(w.current) ==> x !in Ids(w.emitted)
  {
    LevelsAre(o, initial, d, w);
    hide Leveled;
    var k, s, all := d - w.rem, SetOf(w.skipped), w.emitted + w.current;
    SubseqRefl(initial);
    PrunedSubseq(o, initial, initial, k, s);
    FirstLevelDistinct(o, initial, k);
    hide Pruned;
    hide Listed;
    hide Forest;
    hide FirstLevel;
    IdsSubseq(all, Listed(o, initial, k));
    SubseqNoDup(Ids(all), Ids(Listed(o, initial, k)));
    hide Subseq;
    IdsAppend(w.emitted, w.current);
    hide Ids;
    HalvesDistinct(Ids(w.emitted), Ids(w.current));
  }

  lemma HalvesDistinct(a: seq<Id>, b: seq<Id>)
    requires NoDup(a + b)
    ensures NoDup(b) && forall x :: x in b ==> x !in a
  {
    forall i, j | 0 <= i < j < |b| ensures b[i] != b[j] {
      assert (a + b)[|a| + i] == b[i] && (a + b)[|a| + j] == b[j];
    }
    forall i, j | 0 <= i < |a| && 0 <= j < |b| ensures a[i] != b[j] {
      assert (a + b)[i] == a[i] && (a + b)[|a| + j] == b[j];
    }
  }

  /** Wherever a run stops, what it returned is a prefix of the read without the children of the
      branches it dropped and of those it left undelivered. */
  lemma {:induction false} RunPruned(o: Outline, net: Net, t: nat, initial: seq<Node>, out0: seq<Node>, d: nat,
                                     limit: nat, patient: bool, w: Walk)
    requires Forest(o) && FirstLevel(o, initial)
    requires Leveled(o, initial, d, w) && SkippedKnown(w.emitted, w.skipped)
    ensures var run := WalkFrom(o, net, t, w.current, out0 + w.emitted, w.rem, limit, patient, w.skipped);
            out0 <= run.out
            && run.out[|out0|..] <= Pruned(o, initial, d, SetOf(run.dropped + run.undelivered))
    decreases w.rem
  {
    hide Leveled;
    hide SkippedKnown;
    hide Pruned;
    hide WalkFrom;
    hide NextFrom;
    hide FirstLevel;
    hide Blocks;
    hide Except;
    hide Ids;
    hide NoDup;
    hide SetOf;
    var out := out0 + w.emitted;
    var k := Room(|out|, |w.current|, limit);
    assert w.skipped + [] == w.skipped;
    PartPruned(o, initial, d, w, k);
    Regrouped(out0, w.emitted, w.current[..k]);
    if w.rem == 0 || w.current == [] {
      Ends(o, net, t, w.current, out, w.rem, limit, patient, w.skipped);
      assert k == |w.current| ==> w.current[..k] == w.current;
    } else if k < |w.current| {
      CapsOut(o, net, t, w.current, out, w.rem, limit, patient, w.skipped);
    } else if net.status(t).Some? {
      assert w.current[..k] == w.current;
      Halts(o, net, t, w.current, out, w.rem, limit, patient, w.skipped);
    } else {
      RunGoesOn(o, net, t, initial, out0, d, limit, patient, w);
      var n := NextFrom(o, net, t + 1, w.current, |out + w.current|, limit, patient);
      if n.stop.Some? {
        StopsFetching(o, net, t, w.current, out, w.rem, limit, patient, w.skipped);
        var lost := n.failed + n.undelivered;
        var next := Advanced(o, w, lost);
        var r := Room(|out + w.current|, |n.next|, limit);
        PartPruned(o, initial, d, next, r);
        assert w.skipped + lost == (w.skipped + n.failed) + n.undelivered;
        Regrouped(out0, w.emitted, w.current);
        Regrouped(out0, w.emitted + w.current, n.next[..r]);
      } else {
        GoesOn(o, net, t, w.current, out, w.rem, limit, patient, w.skipped);
        Regrouped(out0, w.emitted, w.current);
        RunPruned(o, net, n.t, initial, out0, d, limit, patient, Advanced(o, w, n.failed));
      }
    }
  }

  lemma Regrouped(a: seq<Node>, b: seq<Node>, c: seq<Node>)
    ensures a + b + c == a + (b + c) && (a + (b + c))[|a|..] == b + c && a <= a + (b + c)
  {
  }

  /** One level further down. */
  lemma RunGoesOn(o: Outline, net: Net, t: nat, initial: seq<Node>, out0: seq<Node>, d: nat, limit: nat, patient: bool,
                  w: Walk)
    requires Forest(o) && FirstLevel(o, initial) && w.rem > 0 && w.current != []
    requires Leveled(o, initial, d, w) && SkippedKnown(w.emitted, w.skipped)
    ensures var n := NextFrom(o, net, t + 1, w.current, |out0 + w.emitted + w.current|, limit, patient);
            var lost := n.failed + n.undelivered;
            && Leveled(o, initial, d, Advanced(o, w, lost)) && Advanced(o, w, lost).current == n.next
            && (n.stop.None? ==> lost == n.failed
                                 && SkippedKnown(w.emitted + w.current, w.skipped + n.failed))
  {
    hide NextFrom;
    hide Blocks;
    hide Except;
    LevelsDistinct(o, initial, d, w);
    NextDelivers(o, net, t + 1, w.current, |out0 + w.emitted + w.current|, limit, patient);
    var n := NextFrom(o, net, t + 1, w.current, |out0 + w.emitted + w.current|, limit, patient);
    hide Leveled;
    hide FirstLevel;
    hide Forest;
    hide Ids;
    LeveledAdvance(o, initial, d, w, n.failed + n.undelivered);
    if n.stop.None? {
      assert n.failed + [] == n.failed;
      SkippedStep(w.emitted, w.current, w.skipped, n.failed);
    }
  }

  /** However a run ends, what it returned is a prefix of the full read exactly when it ends before the
      children of the first parent that was dropped, or left undelivered, and has any. */
  lemma StoppedPrefixExactly(o: Outline, net: Net, t: nat, initial: seq<Node>, out0: seq<Node>, d: nat, limit: nat,
                             patient: bool)
    requires Forest(o) && FirstLevel(o, initial)
    ensures var run := WalkFrom(o, net, t, initial, out0, d, limit, patient, []);
            run.out <= out0 + Listed(o, initial, d)
            <==> |run.out| <= |out0| + BeforeLoss(o, initial, d, SetOf(run.dropped + run.undelivered))
  {
    hide WalkFrom;
    hide BeforeLoss;
    hide Listed;
    hide Pruned;
    hide Forest;
    hide FirstLevel;
    hide Leveled;
    hide SetOf;
    LeveledStart(o, initial, d);
    assert out0 + [] == out0;
    RunPruned(o, net, t, initial, out0, d, limit, patient, Start(initial, d));
    var run := WalkFrom(o, net, t, initial, out0, d, limit, patient, []);
    var emitted := run.out[|out0|..];
    assert run.out == out0 + emitted;
    PrefixExactly(o, initial, d, SetOf(run.dropped + run.undelivered), emitted);
    SamePrefix(out0, emitted, Listed(o, initial, d));
  }

  lemma SamePrefix(a: seq<Node>, b: seq<Node>, c: seq<Node>)
    ensures a + b <= a + c <==> b <= c
  {
    if a + b <= a + c {
      assert forall i :: 0 <= i < |b| ==> b[i] == (a + b)[|a| + i] == (a + c)[|a| + i] == c[i];
    }
  }
}
