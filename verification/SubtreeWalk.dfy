/** The subtree walk: level by level, child fetches completing in any order, dropped branches
    recovered, stopped by the node cap, a cancellation or a deadline. */
module SubtreeWalk {
  import opened Sequences
  import opened Outlines
  import opened LevelOrder
  import opened Network
  import opened BranchRecovery
  import opened WalkInvariant
  import opened WalkRuns
  import opened SkipLists

  /** Re-sort a level by its parents' positions: nothing is lost, and under two or more parents the
      nodes follow their parents' order, nodes of an unknown parent last, and those of one parent
      keep theirs. A level under fewer than two parents is left alone. */
  method OrderLevelByParent(level: seq<Node>, parents: seq<Node>) returns (r: seq<Node>)
    ensures r == Reordered(level, Ids(parents))
    ensures multiset(r) == multiset(level)
    ensures |parents| >= 2 ==> SortedBy(r, ParentKey(Ids(parents)))
    ensures forall k :: WithKey(r, ParentKey(Ids(parents)), k) == WithKey(level, ParentKey(Ids(parents)), k)
    ensures |parents| < 2 ==> r == level
  {
    hide StableSort;
    hide WithKey;
    var key := ParentKey(Ids(parents));
    hide ParentKey;
    if level == [] || |parents| < 2 {
      return level;
    }
    StableSortProps(level, key);
    r := StableSort(level, key);
  }

  /** Whatever order the fetches completed in, the reordered level is the level order of the
      parents that were fetched. */
  lemma ReorderedLevel(o: Outline, ids: seq<Id>, done: seq<Id>, s: set<Id>)
    requires OneOwner(o) && ParentsAgree(o) && NoDup(ids) && NoDup(done)
    requires forall x :: x in done <==> x in ids && x !in s
    ensures Reordered(Blocks(o, done), ids) == Blocks(o, Except(ids, s))
    ensures |Reordered(Blocks(o, done), ids)| == |Blocks(o, done)|
  {
    DocumentOrder(o, ids, done, s);
    StableSortProps(Blocks(o, done), ParentKey(ids));
    if |ids| < 2 {
      OneParent(o, ids, done);
    }
  }

  lemma OneParent(o: Outline, ids: seq<Id>, done: seq<Id>)
    requires ParentsAgree(o) && |ids| < 2 && forall x :: x in done ==> x in ids
    ensures StableSort(Blocks(o, done), ParentKey(ids)) == Blocks(o, done)
  {
    hide Listing;
    var key, level := ParentKey(ids), Blocks(o, done);
    forall n | n in level ensures key(n) == 0 {
      BlocksMembers(o, done, n);
    }
    hide Blocks;
    StableSortSorted(level, key);
  }

  /** Fetch the children of one level until all are in or something stops the walk.
      Fetched blocks accumulate in completion order. */
  method FetchLevel(o: Outline, net: Net, t0: nat, ids: seq<Id>, emitted: nat, limit: nat)
    returns (next: seq<Node>, failed: seq<Id>, stop: Option<Reason>, inFlight: seq<Id>, unfinished: Option<Id>,
             t: nat, ghost done: seq<Id>)
    ensures LevelRun(next, failed, stop, inFlight, unfinished, t) == LevelFrom(o, net, ids, [], [], t0, emitted, limit)
    ensures Pending(o, ids, next, failed, done, Leftover(inFlight, unfinished))
    ensures t0 <= t
    ensures stop != Some(SkippedBranches)
    ensures stop.None? ==> Leftover(inFlight, unfinished) == [] && (ids != [] ==> emitted + |next| < limit)
    ensures stop == Some(NodeLimit) ==> emitted + |next| >= limit
    ensures stop.Some? && stop.value.Halted? ==> SawHalt(net, stop.value.halt, t0, t)
    ensures failed != [] ==> SawFailure(net, t0, t)
  {
    hide Listing;
    hide DisplayOf;
    hide Wired;
    hide Pending;
    hide LevelFrom;
    hide TakeAt;
    next, failed, stop, inFlight, unfinished, t, done := [], [], None, ids, None, t0, [];
    PendingStart(o, ids);
    while inFlight != [] && stop.None?
      invariant LevelFrom(o, net, ids, [], [], t0, emitted, limit)
                == if stop.None? then LevelFrom(o, net, inFlight, next, failed, t, emitted, limit)
                   else LevelRun(next, failed, stop, inFlight, unfinished, t)
      invariant Pending(o, ids, next, failed, done, Leftover(inFlight, unfinished))
      invariant t0 <= t
      invariant stop != Some(SkippedBranches)
      invariant stop.None? ==> unfinished.None? && (inFlight != ids ==> emitted + |next| < limit)
      invariant stop == Some(NodeLimit) ==> emitted + |next| >= limit
      invariant stop.Some? && stop.value.Halted? ==> SawHalt(net, stop.value.halt, t0, t)
      invariant failed != [] ==> SawFailure(net, t0, t)
      decreases |inFlight|
    {
      var (id, rest) := TakeAt(inFlight, net.pick(t));
      PendingStep(o, ids, next, failed, done, inFlight, id, rest);
      LevelOnce(o, net, inFlight, next, failed, t, emitted, limit);
      inFlight := rest;
      match net.reply(t) {
        case Delivered =>
          var children := GetChildren(o, id);
          next := next + children;
          done := done + [id];
        case Aborted(h) =>
          stop := Some(Halted(h));
          unfinished := Some(id);
        case Failed =>
          failed := failed + [id];
      }
      t := t + 1;
      if stop.None? {
        if emitted + |next| >= limit {
          stop := Some(NodeLimit);
        } else {
          t := t + 1;
          match net.status(t - 1) {
            case None =>
            case Some(h) => stop := Some(Halted(h));
          }
        }
      }
    }
    if stop.None? {
      LevelIn(o, net, next, failed, t, emitted, limit);
    }
  }

  lemma LevelIn(o: Outline, net: Net, next: seq<Node>, failed: seq<Id>, t: nat, used: nat, limit: nat)
    ensures LevelFrom(o, net, [], next, failed, t, used, limit) == LevelRun(next, failed, None, [], None, t)
  {
  }

  /** One completed fetch and the checks after it. */
  lemma LevelOnce(o: Outline, net: Net, inFlight: seq<Id>, next: seq<Node>, failed: seq<Id>, t: nat, used: nat,
                  limit: nat)
    requires inFlight != []
    ensures var (id, rest) := TakeAt(inFlight, net.pick(t));
            var level := LevelFrom(o, net, inFlight, next, failed, t, used, limit);
            match net.reply(t)
            case Aborted(h) => level == LevelRun(next, failed, Some(Halted(h)), rest, Some(id), t + 1)
            case Delivered => level == AfterFetch(o, net, rest, next + Listing(o, id), failed, t, used, limit)
            case Failed => level == AfterFetch(o, net, rest, next, failed + [id], t, used, limit)
  {
    hide Listing;
    hide TakeAt;
  }

  /** Append a level until the cap is met. */
  method EmitLevel(out: seq<Node>, level: seq<Node>, limit: nat) returns (r: seq<Node>, k: nat)
    ensures k == Room(|out|, |level|, limit) && r == out + level[..k]
  {
    r, k := out, 0;
    while k < |level| && |r| < limit
      invariant k <= |level| && r == out + level[..k]
      invariant k > 0 ==> |r| <= limit
    {
      r := r + [level[k]];
      k := k + 1;
    }
  }

  /** The anchor is a returned node, or the node the initial level hangs from. */
  ghost predicate AnchorKnown(initial: seq<Node>, emitted: seq<Node>, a: Option<Id>) {
    a.Some? ==> a.value in Ids(emitted) || exists n :: n in initial && n.parent == a
  }

  lemma AnchorOfParent(initial: seq<Node>, emitted: seq<Node>, level: seq<Node>, more: seq<Node>, i: nat)
    requires LevelKnown(initial, emitted, level) && i < |level|
    ensures AnchorKnown(initial, emitted + more, level[i].parent)
  {
    IdsAppend(emitted, more);
    assert level[i] in level;
    assert ParentKnown(initial, emitted, level[i]);
  }

  /** What the walk promises about the nodes it returned. */
  ghost predicate Honest(o: Outline, initial: seq<Node>, d: nat, emitted: seq<Node>, r: Outcome) {
    && Faithful(o, initial, d, emitted)
    && SkippedKnown(emitted, r.skipped)
    && AnchorKnown(initial, emitted, r.anchor)
    && (r.reason in {None, Some(SkippedBranches)} ==>
          emitted == Pruned(o, initial, d, SetOf(r.skipped)) && (r.reason.None? <==> r.skipped == []))
  }

  /** What the walk promises about the reason it gives: a halt was seen, a branch failed, or
      the cap is really reached by the nodes there are. */
  ghost predicate Justified(o: Outline, net: Net, t0: nat, t: nat, used: nat, initial: seq<Node>, d: nat,
                            limit: nat, r: Outcome) {
    && (r.reason.Some? && r.reason.value.Halted? ==> SawHalt(net, r.reason.value.halt, t0, t))
    && (r.skipped != [] ==> SawFailure(net, t0, t))
    && (r.reason == Some(NodeLimit) ==>
          initial != [] && used + |Listed(o, initial, d)| >= limit
          && (d == 0 ==> used + |initial| > limit))
  }

  /** A walk that is not cut by the cap stays under it, strictly so if it fetched any level
      without a failure. */
  ghost predicate UnderCap(net: Net, t0: nat, t: nat, initial: seq<Node>, d: nat, limit: nat, size: nat) {
    initial != [] ==> size <= limit && (d > 0 ==> size < limit || SawFailure(net, t0, t))
  }

  lemma PendingExclusive(o: Outline, ids: seq<Id>, next: seq<Node>, failed: seq<Id>, done: seq<Id>, left: seq<Id>)
    requires NoDup(ids) && Pending(o, ids, next, failed, done, left)
    ensures NoDup(done) && NoDup(failed)
    ensures forall x :: x in done || x in failed || x in left ==> x in ids
  {
    var ms := multiset(ids);
    NoDupMultiset(ids);
    NoDupFromCount(done, ms);
    NoDupFromCount(failed, ms);
    forall x | x in done || x in failed || x in left ensures x in ids {
      assert ms[x] == multiset(done)[x] + multiset(failed)[x] + multiset(left)[x];
      assert x in done ==> multiset(done)[x] > 0;
      assert x in failed ==> multiset(failed)[x] > 0;
      assert x in left ==> multiset(left)[x] > 0;
    }
  }

  lemma SawMono(net: Net, t0: nat, t1: nat, t2: nat, t3: nat)
    requires t0 <= t1 && t2 <= t3
    ensures forall h :: SawHalt(net, h, t1, t2) ==> SawHalt(net, h, t0, t3)
    ensures SawFailure(net, t1, t2) ==> SawFailure(net, t0, t3)
  {
  }

  /** Fetch, recover and reorder the level below current. On a stop the level is partial:
      the branches in `missing` did not arrive. */
  method NextLevel(o: Outline, net: Net, t0: nat, current: seq<Node>, used: nat, limit: nat, patient: bool)
    returns (next: seq<Node>, failed: seq<Id>, stop: Option<Reason>, anchor: Id, t: nat, ghost missing: seq<Id>)
    requires OneOwner(o) && ParentsAgree(o) && NoDup(Ids(current)) && current != []
    ensures var n := NextFrom(o, net, t0, current, used, limit, patient);
            n.next == next && n.failed == failed && n.stop == stop && n.anchor == anchor && n.t == t
    ensures next == Blocks(o, Except(Ids(current), SetOf(missing)))
    ensures forall x :: x in failed ==> x in missing
    ensures NoDup(failed) && forall x :: x in failed ==> x in Ids(current)
    ensures NoDup(missing) && forall x :: x in missing ==> x in Ids(current)
    ensures stop.None? ==> missing == failed
    ensures stop.None? ==> used + |next| < limit || SawFailure(net, t0, t)
    ensures anchor in Ids(current)
    ensures t0 <= t
    ensures stop != Some(SkippedBranches)
    ensures stop == Some(NodeLimit) ==> used + |next| >= limit
    ensures stop.Some? && stop.value.Halted? ==> SawHalt(net, stop.value.halt, t0, t)
    ensures failed != [] ==> SawFailure(net, t0, t)
  {
    hide Listing;
    hide Blocks;
    hide StableSort;
    hide LevelFrom;
    hide RecoverRun;
    hide Reordered;
    var inFlight, unfinished;
    ghost var done;
    var ids := Ids(current);
    next, failed, stop, inFlight, unfinished, t, done := FetchLevel(o, net, t0, ids, used, limit);
    PendingExclusive(o, ids, next, failed, done, Leftover(inFlight, unfinished));
    IdIn(current, current[0]);
    if stop.Some? {
      missing := Except(ids, SetOf(done));
      ExceptNoDup(ids, SetOf(done));
      FailedMissing(o, ids, next, failed, done, Leftover(inFlight, unfinished));
      anchor := StopAnchor(current, unfinished, inFlight, net.pick(t));
      assert anchor in ids by {
        assert unfinished.Some? ==> unfinished.value in Leftover(inFlight, unfinished);
        assert unfinished.None? && inFlight != [] ==> anchor in Leftover(inFlight, unfinished);
      }
    } else {
      anchor := current[0].id;
      PendingNone(o, ids, next, failed, done);
      if failed != [] {
        var recovered, still, t1;
        ghost var more;
        recovered, still, t1, more := RecoverSkippedBranches(o, net, t, failed, patient);
        ConservedJoin(o, ids, next, failed, done, recovered, still, more);
        SawMono(net, t0, t0, t, t1);
        next, failed, t, done := next + recovered, still, t1, done + more;
      }
      ConservedExclusive(o, ids, next, failed, done);
      missing := failed;
    }
    ReorderedLevel(o, ids, done, SetOf(missing));
    next := OrderLevelByParent(next, current);
  }

  lemma FailedMissing(o: Outline, ids: seq<Id>, next: seq<Node>, failed: seq<Id>, done: seq<Id>, left: seq<Id>)
    requires NoDup(ids) && Pending(o, ids, next, failed, done, left)
    ensures forall x :: x in failed ==> x in Except(ids, SetOf(done))
  {
    NoDupMultiset(ids);
    PendingExclusive(o, ids, next, failed, done, left);
    hide Pending;
    forall x | x in failed ensures x !in done {
      FailedNotDone(o, ids, next, failed, done, left, x);
    }
  }

  lemma FailedNotDone(o: Outline, ids: seq<Id>, next: seq<Node>, failed: seq<Id>, done: seq<Id>, left: seq<Id>, x: Id)
    requires NoDup(ids) && Pending(o, ids, next, failed, done, left) && x in failed
    ensures x !in done
  {
    NoDupMultiset(ids);
    assert multiset(ids)[x] == multiset(done)[x] + multiset(failed)[x] + multiset(left)[x];
    assert multiset(failed)[x] > 0;
    assert x in done ==> multiset(done)[x] > 0;
  }

  /** The walk so far, seen from the method's variables. */
  ghost predicate Underway(o: Outline, net: Net, t0: nat, t: nat, initial: seq<Node>, out0: seq<Node>, d: nat,
                           limit: nat, w: Walk, out: seq<Node>) {
    && Walking(o, initial, d, w) && Leveled(o, initial, d, w)
    && out == out0 + w.emitted && t0 <= t && w.rem <= d
    && (w.rem == d ==> w == Start(initial, d))
    && (w.rem < d ==> initial != [] && |out| <= limit
                      && (|out| + |w.current| < limit || SawFailure(net, t0, t)))
    && (|out0| <= limit ==> |out| <= limit)
    && (w.skipped != [] ==> SawFailure(net, t0, t))
  }

  /** How a finished walk is to be read: emitted follows out0, the outcome is honest about
      the nodes and justified by what the oracle answered. */
  ghost predicate Settled(o: Outline, net: Net, t0: nat, t: nat, initial: seq<Node>, out0: seq<Node>, d: nat,
                          limit: nat, emitted: seq<Node>, out: seq<Node>, r: Outcome) {
    && out == out0 + emitted && t0 <= t
    && Honest(o, initial, d, emitted, r)
    && Justified(o, net, t0, t, |out0|, initial, d, limit, r)
    && (|out0| <= limit ==> |out| <= limit)
    && (r.reason in {None, Some(SkippedBranches)} ==> UnderCap(net, t0, t, initial, d, limit, |out|))
  }

  lemma HonestStop(o: Outline, initial: seq<Node>, d: nat, emitted: seq<Node>, r: Outcome)
    requires Faithful(o, initial, d, emitted) && (r.skipped == [] || SkippedKnown(emitted, r.skipped))
    requires AnchorKnown(initial, emitted, r.anchor)
    requires r.reason.Some? && !r.reason.value.SkippedBranches?
    ensures Honest(o, initial, d, emitted, r)
  {
  }

  lemma JustifyStop(o: Outline, net: Net, t0: nat, t: nat, used: nat, initial: seq<Node>, d: nat, limit: nat,
                    r: Outcome)
    requires r.reason.Some?
    requires r.reason.value.Halted? ==> SawHalt(net, r.reason.value.halt, t0, t)
    requires r.reason.value.NodeLimit? ==>
               initial != [] && used + |Listed(o, initial, d)| >= limit && (d == 0 ==> used + |initial| > limit)
    requires r.skipped != [] ==> SawFailure(net, t0, t)
    ensures Justified(o, net, t0, t, used, initial, d, limit, r)
  {
  }

  lemma SettleStop(o: Outline, net: Net, t0: nat, t: nat, initial: seq<Node>, out0: seq<Node>, d: nat,
                   limit: nat, emitted: seq<Node>, out: seq<Node>, r: Outcome)
    requires out == out0 + emitted && t0 <= t
    requires r.reason.Some? && !r.reason.value.SkippedBranches?
    requires Honest(o, initial, d, emitted, r)
    requires Justified(o, net, t0, t, |out0|, initial, d, limit, r)
    requires |out0| <= limit ==> |out| <= limit
    ensures Settled(o, net, t0, t, initial, out0, d, limit, emitted, out, r)
  {
  }

  /** An ongoing walk that has levels left has a nonempty initial level if it is at a nonempty one. */
  lemma UnderwayFacts(o: Outline, net: Net, t0: nat, t: nat, initial: seq<Node>, out0: seq<Node>, d: nat,
                      limit: nat, w: Walk, out: seq<Node>)
    requires Underway(o, net, t0, t, initial, out0, d, limit, w, out)
    ensures Walking(o, initial, d, w) && out == out0 + w.emitted && t0 <= t
    ensures |out0| <= limit ==> |out| <= limit
    ensures w.skipped != [] ==> SawFailure(net, t0, t)
    ensures w.current != [] ==> initial != []
    ensures w.rem == d ==> w == Start(initial, d)
    ensures LevelKnown(initial, w.emitted, w.current)
    ensures Leveled(o, initial, d, w) && SkippedKnown(w.emitted, w.skipped)
  {
    if w.rem == d {
      assert w.current == initial;
    }
  }

  lemma SettleEmitting(o: Outline, net: Net, t0: nat, t: nat, initial: seq<Node>, out0: seq<Node>, d: nat,
                       limit: nat, w: Walk, out: seq<Node>, k: nat, i: nat, reason: Reason)
    requires Underway(o, net, t0, t, initial, out0, d, limit, w, out)
    requires w.rem > 0 && d > 0 && i < |w.current| && k == Room(|out|, |w.current|, limit)
    requires (reason.NodeLimit? && k < |w.current|) || (reason.Halted? && SawHalt(net, reason.halt, t0, t))
    ensures Settled(o, net, t0, t, initial, out0, d, limit, w.emitted + w.current[..k], out + w.current[..k],
                    Stopped(reason, w.current[i].parent))
  {
    hide Underway;
    hide Walking;
    hide Listed;
    hide Blocks;
    hide Faithful;
    hide LevelKnown;
    hide SkippedKnown;
    hide AnchorKnown;
    hide SawHalt;
    hide SawFailure;
    hide Honest;
    hide Justified;
    hide Settled;
    var r := Stopped(reason, w.current[i].parent);
    var emitted := w.emitted + w.current[..k];
    UnderwayFacts(o, net, t0, t, initial, out0, d, limit, w, out);
    StopEmitting(o, initial, d, w, k);
    AnchorOfParent(initial, w.emitted, w.current, w.current[..k], i);
    HonestStop(o, initial, d, emitted, r);
    JustifyStop(o, net, t0, t, |out0|, initial, d, limit, r);
    assert out + w.current[..k] == out0 + emitted;
    SettleStop(o, net, t0, t, initial, out0, d, limit, emitted, out + w.current[..k], r);
  }

  lemma FetchingFaithful(o: Outline, initial: seq<Node>, d: nat, w: Walk, failed: seq<Id>, missing: seq<Id>,
                         k: nat, anchor: Id)
    requires Forest(o) && FirstLevel(o, initial) && Walking(o, initial, d, w) && w.rem > 0
    requires NoDup(failed) && forall x :: x in failed ==> x in Ids(w.current)
    requires NoDup(missing) && forall x :: x in missing ==> x in Ids(w.current)
    requires k <= |Advanced(o, w, missing).current| && anchor in Ids(w.current)
    ensures Faithful(o, initial, d, w.emitted + w.current + Advanced(o, w, missing).current[..k])
    ensures SkippedKnown(w.emitted + w.current + Advanced(o, w, missing).current[..k], w.skipped + failed)
    ensures AnchorKnown(initial, w.emitted + w.current + Advanced(o, w, missing).current[..k], Some(anchor))
    ensures |w.emitted| + |w.current| + |Advanced(o, w, missing).current| <= |Listed(o, initial, d)|
  {
    var part := Advanced(o, w, missing).current[..k];
    WalkingAdvance(o, initial, d, w, missing);
    StopEmitting(o, initial, d, Advanced(o, w, missing), k);
    WalkingAdvance(o, initial, d, w, failed);
    hide Faithful;
    hide Listed;
    hide Blocks;
    SkippedLater(o, initial, d, Advanced(o, w, failed), part);
    hide Walking;
    hide SkippedKnown;
    IdsAppend(w.emitted, w.current);
    IdsAppend(w.emitted + w.current, part);
  }

  lemma SkippedLater(o: Outline, initial: seq<Node>, d: nat, w: Walk, part: seq<Node>)
    requires Walking(o, initial, d, w)
    ensures SkippedKnown(w.emitted + part, w.skipped)
  {
    IdsAppend(w.emitted, part);
  }

  lemma Regroup(out0: seq<Node>, a: seq<Node>, b: seq<Node>, c: seq<Node>)
    ensures out0 + a + b + c == out0 + (a + b + c)
  {
  }

  lemma SettleFetching(o: Outline, net: Net, t0: nat, t: nat, initial: seq<Node>, out0: seq<Node>, d: nat,
                       limit: nat, w: Walk, out: seq<Node>, failed: seq<Id>, missing: seq<Id>, k: nat,
                       anchor: Id, reason: Reason)
    requires Forest(o) && FirstLevel(o, initial)
    requires Underway(o, net, t0, t, initial, out0, d, limit, w, out)
    requires w.rem > 0 && d > 0 && w.current != [] && |out + w.current| <= limit
    requires NoDup(failed) && forall x :: x in failed ==> x in Ids(w.current)
    requires NoDup(missing) && forall x :: x in missing ==> x in Ids(w.current)
    requires k == Room(|out + w.current|, |Advanced(o, w, missing).current|, limit)
    requires anchor in Ids(w.current)
    requires (reason.NodeLimit? && |out + w.current| + |Advanced(o, w, missing).current| >= limit)
             || (reason.Halted? && SawHalt(net, reason.halt, t0, t))
    requires failed != [] ==> SawFailure(net, t0, t)
    ensures Settled(o, net, t0, t, initial, out0, d, limit,
                    w.emitted + w.current + Advanced(o, w, missing).current[..k],
                    out + w.current + Advanced(o, w, missing).current[..k],
                    Stopped(reason, Some(anchor)).WithSkipped(w.skipped + failed))
  {
    hide Underway;
    hide Walking;
    hide Listed;
    hide Blocks;
    hide Faithful;
    hide LevelKnown;
    hide SkippedKnown;
    hide AnchorKnown;
    hide SawHalt;
    hide SawFailure;
    hide Honest;
    hide Justified;
    hide Settled;
    var part := Advanced(o, w, missing).current[..k];
    var emitted := w.emitted + w.current + part;
    var r := Stopped(reason, Some(anchor)).WithSkipped(w.skipped + failed);
    UnderwayFacts(o, net, t0, t, initial, out0, d, limit, w, out);
    FetchingFaithful(o, initial, d, w, failed, missing, k, anchor);
    Regroup(out0, w.emitted, w.current, part);
    HonestStop(o, initial, d, emitted, r);
    JustifyStop(o, net, t0, t, |out0|, initial, d, limit, r);
    SettleStop(o, net, t0, t, initial, out0, d, limit, emitted, out + w.current + part, r);
  }

  /** The last level, whose children are not fetched, is cut by the cap. */
  lemma SettleCut(o: Outline, net: Net, t0: nat, t: nat, initial: seq<Node>, out0: seq<Node>, d: nat,
                  limit: nat, w: Walk, out: seq<Node>, k: nat)
    requires Underway(o, net, t0, t, initial, out0, d, limit, w, out)
    requires w.rem == 0 && k == Room(|out|, |w.current|, limit) && k < |w.current|
    ensures Settled(o, net, t0, t, initial, out0, d, limit, w.emitted + w.current[..k], out + w.current[..k],
                    Stopped(NodeLimit, w.current[k].parent).WithSkipped(w.skipped))
  {
    hide Underway;
    hide Listed;
    hide Faithful;
    hide Walking;
    hide LevelKnown;
    hide SkippedKnown;
    hide AnchorKnown;
    hide SawHalt;
    hide SawFailure;
    hide Honest;
    hide Justified;
    hide Settled;
    var r := Stopped(NodeLimit, w.current[k].parent).WithSkipped(w.skipped);
    var emitted := w.emitted + w.current[..k];
    UnderwayFacts(o, net, t0, t, initial, out0, d, limit, w, out);
    StopEmitting(o, initial, d, w, k);
    AnchorOfParent(initial, w.emitted, w.current, w.current[..k], k);
    HonestStop(o, initial, d, emitted, r);
    JustifyStop(o, net, t0, t, |out0|, initial, d, limit, r);
    assert out + w.current[..k] == out0 + emitted;
    SettleStop(o, net, t0, t, initial, out0, d, limit, emitted, out + w.current[..k], r);
  }

  /** The walk reached its end within the cap. */
  lemma SettleEnd(o: Outline, net: Net, t0: nat, t: nat, initial: seq<Node>, out0: seq<Node>, d: nat,
                  limit: nat, w: Walk, out: seq<Node>)
    requires Underway(o, net, t0, t, initial, out0, d, limit, w, out)
    requires w.rem == 0 || w.current == []
    requires Room(|out|, |w.current|, limit) == |w.current|
    ensures Settled(o, net, t0, t, initial, out0, d, limit, w.emitted + w.current, out + w.current,
                    Complete().WithSkipped(w.skipped))
  {
    hide Underway;
    hide UnderCap;
    hide Walking;
    hide Listed;
    hide Pruned;
    hide Faithful;
    hide LevelKnown;
    hide SkippedKnown;
    hide Honest;
    hide SawHalt;
    hide SawFailure;
    var emitted := w.emitted + w.current;
    assert w.current[..|w.current|] == w.current;
    UnderwayFacts(o, net, t0, t, initial, out0, d, limit, w, out);
    EndUnderCap(o, net, t0, t, initial, out0, d, limit, w, out);
    WalkingEnd(o, initial, d, w);
    StopEmitting(o, initial, d, w, |w.current|);
    HonestEnd(o, initial, d, emitted, w.skipped);
    assert out + w.current == out0 + emitted;
  }

  lemma EndUnderCap(o: Outline, net: Net, t0: nat, t: nat, initial: seq<Node>, out0: seq<Node>, d: nat,
                    limit: nat, w: Walk, out: seq<Node>)
    requires Underway(o, net, t0, t, initial, out0, d, limit, w, out)
    requires w.rem == 0 || w.current == []
    requires Room(|out|, |w.current|, limit) == |w.current|
    ensures UnderCap(net, t0, t, initial, d, limit, |out + w.current|)
    ensures |out0| <= limit ==> |out + w.current| <= limit
  {
    hide Walking;
    hide SawFailure;
  }

  lemma HonestEnd(o: Outline, initial: seq<Node>, d: nat, emitted: seq<Node>, skipped: seq<Id>)
    requires Faithful(o, initial, d, emitted) && SkippedKnown(emitted, skipped)
    requires emitted == Pruned(o, initial, d, SetOf(skipped))
    ensures Honest(o, initial, d, emitted, Complete().WithSkipped(skipped))
  {
    hide Pruned;
    hide Faithful;
    assert skipped != [] ==> skipped[0] in skipped;
  }

  /** The walk delivered what the run says, and its dropped branches account for what it returned. */
  ghost predicate Performed(o: Outline, net: Net, t0: nat, t: nat, initial: seq<Node>, out0: seq<Node>, d: nat,
                            limit: nat, patient: bool, out: seq<Node>, r: Outcome) {
    && out0 <= out && Settled(o, net, t0, t, initial, out0, d, limit, out[|out0|..], out, r)
    && var run := WalkFrom(o, net, t0, initial, out0, d, limit, patient, []);
       && run.out == out && run.outcome == r && run.t == t
       && Accounted(o, initial, d, out[|out0|..], run.dropped)
  }

  lemma Performs(o: Outline, net: Net, t0: nat, t: nat, initial: seq<Node>, out0: seq<Node>, d: nat, limit: nat,
                 patient: bool, emitted: seq<Node>, out: seq<Node>, r: Outcome, dropped: seq<Id>)
    requires Settled(o, net, t0, t, initial, out0, d, limit, emitted, out, r)
    requires Accounted(o, initial, d, emitted, dropped)
    requires var run := WalkFrom(o, net, t0, initial, out0, d, limit, patient, []);
             run.out == out && run.outcome == r && run.t == t && run.dropped == dropped
    ensures Performed(o, net, t0, t, initial, out0, d, limit, patient, out, r)
  {
    hide WalkFrom;
    hide Honest;
    hide Justified;
    hide UnderCap;
    hide Accounted;
    assert out[|out0|..] == emitted;
  }

  /** The walk proper, from an initial level down. */
  method FetchDescendants(o: Outline, net: Net, t0: nat, initial: seq<Node>, out0: seq<Node>, maxDepth: nat,
                          limit: nat, patient: bool)
    returns (out: seq<Node>, outcome: Outcome, t: nat)
    requires Forest(o) && FirstLevel(o, initial)
    ensures Performed(o, net, t0, t, initial, out0, maxDepth, limit, patient, out, outcome)
  {
    hide Listing;
    hide Blocks;
    hide Listed;
    hide Walking;
    hide Underway;
    hide Settled;
    hide SawHalt;
    hide SawFailure;
    hide FirstLevel;
    hide OneOwner;
    hide ParentsAgree;
    hide NoDup;
    hide Ids;
    hide Except;
    hide SetOf;
    hide WalkFrom;
    hide NextFrom;
    hide Leveled;
    hide Accounted;
    hide Performed;
    hide SkippedKnown;
    hide LevelKnown;
    hide SetOf;
    hide Except;
    hide WalkFrom;
    out, t := out0, t0;
    var current, depth, skipped := initial, 0, [];
    ghost var w := Start(initial, maxDepth);
    UnderwayStart(o, net, t0, initial, out0, maxDepth, limit);
    while depth < maxDepth && current != []
      invariant Underway(o, net, t0, t, initial, out0, maxDepth, limit, w, out)
      invariant depth <= maxDepth && w.rem == maxDepth - depth && t0 <= t
      invariant w.current == current && w.skipped == skipped
      invariant WalkFrom(o, net, t0, initial, out0, maxDepth, limit, patient, [])
                == WalkFrom(o, net, t, current, out, maxDepth - depth, limit, patient, skipped)
    {
      var k;
      ghost var before, at := out, t;
      out, k := EmitLevel(out, current, limit);
      UnderwayFacts(o, net, t0, t, initial, out0, maxDepth, limit, w, before);
      if k < |current| {
        SettleEmitting(o, net, t0, t, initial, out0, maxDepth, limit, w, before, k, k, NodeLimit);
        outcome := Stopped(NodeLimit, current[k].parent);
        PartTaken(o, initial, maxDepth, w, k);
        CapsOut(o, net, t, current, before, maxDepth - depth, limit, patient, skipped);
        Performs(o, net, t0, t, initial, out0, maxDepth, limit, patient, w.emitted + current[..k], out, outcome,
                 skipped);
        return;
      }
      assert current[..k] == current;
      UnderwayLater(o, net, t0, t, t + 1, initial, out0, maxDepth, limit, w, before);
      t := t + 1;
      if net.status(t - 1).Some? {
        var reason := Halted(net.status(t - 1).value);
        HaltAt(net, t0, t);
        SettleEmitting(o, net, t0, t, initial, out0, maxDepth, limit, w, before, k, 0, reason);
        outcome := Stopped(reason, current[0].parent);
        PartTaken(o, initial, maxDepth, w, k);
        Halts(o, net, at, current, before, maxDepth - depth, limit, patient, skipped);
        Performs(o, net, t0, t, initial, out0, maxDepth, limit, patient, w.emitted + current, out, outcome,
                 skipped);
        return;
      }
      WalkingDistinct(o, initial, maxDepth, w);
      var next, failed, stop, anchor, t1;
      ghost var missing;
      next, failed, stop, anchor, t1, missing := NextLevel(o, net, t, current, |out|, limit, patient);
      SawMono(net, t0, t, t1, t1);
      UnderwayLater(o, net, t0, t, t1, initial, out0, maxDepth, limit, w, before);
      t := t1;
      assert Advanced(o, w, missing).current == next;
      assert out == before + w.current;
      if stop.Some? {
        var remaining := Room(|out|, |next|, limit);
        assert stop.value.Halted? ==> SawHalt(net, stop.value.halt, t0, t);
        assert stop.value.NodeLimit? || stop.value.Halted?;
        SettleFetching(o, net, t0, t, initial, out0, maxDepth, limit, w, before, failed, missing, remaining,
                       anchor, stop.value);
        PartFetched(o, initial, maxDepth, w, failed, missing, remaining);
        StopsFetching(o, net, at, current, before, maxDepth - depth, limit, patient, skipped);
        out := out + next[..remaining];
        outcome := Stopped(stop.value, Some(anchor)).WithSkipped(skipped + failed);
        Performs(o, net, t0, t, initial, out0, maxDepth, limit, patient, w.emitted + current + next[..remaining], out,
                 outcome, skipped + failed);
        return;
      }
      UnderwayAdvance(o, net, t0, t, initial, out0, maxDepth, limit, w, before, failed);
      GoesOn(o, net, at, current, before, maxDepth - depth, limit, patient, skipped);
      w := Advanced(o, w, failed);
      current, depth, skipped := next, depth + 1, skipped + failed;
    }
    UnderwayFacts(o, net, t0, t, initial, out0, maxDepth, limit, w, out);
    var k := Room(|out|, |current|, limit);
    PartTaken(o, initial, maxDepth, w, k);
    Ends(o, net, t, current, out, maxDepth - depth, limit, patient, skipped);
    if k < |current| {
      SettleCut(o, net, t0, t, initial, out0, maxDepth, limit, w, out, k);
      out := out + current[..k];
      outcome := Stopped(NodeLimit, current[k].parent).WithSkipped(skipped);
      Performs(o, net, t0, t, initial, out0, maxDepth, limit, patient, w.emitted + current[..k], out, outcome,
               skipped);
    } else {
      SettleEnd(o, net, t0, t, initial, out0, maxDepth, limit, w, out);
      assert current[..k] == current;
      out := out + current;
      outcome := Complete().WithSkipped(skipped);
      Performs(o, net, t0, t, initial, out0, maxDepth, limit, patient, w.emitted + current, out, outcome,
               skipped);
    }
  }

  lemma PartTaken(o: Outline, initial: seq<Node>, d: nat, w: Walk, k: nat)
    requires Leveled(o, initial, d, w) && k <= |w.current|
    ensures Accounted(o, initial, d, w.emitted + w.current[..k], w.skipped)
  {
    SubseqTake(w.current, k);
    PartEmitted(o, initial, d, w, w.current[..k]);
  }

  lemma UnderwayStart(o: Outline, net: Net, t0: nat, initial: seq<Node>, out0: seq<Node>, d: nat, limit: nat)
    ensures Underway(o, net, t0, t0, initial, out0, d, limit, Start(initial, d), out0)
  {
    WalkingStart(o, initial, d);
    LeveledStart(o, initial, d);
    hide Walking;
    hide Leveled;
  }

  lemma UnderwayLater(o: Outline, net: Net, t0: nat, t: nat, t1: nat, initial: seq<Node>, out0: seq<Node>, d: nat,
                      limit: nat, w: Walk, out: seq<Node>)
    requires Underway(o, net, t0, t, initial, out0, d, limit, w, out) && t <= t1
    ensures Underway(o, net, t0, t1, initial, out0, d, limit, w, out)
  {
    hide Walking;
    SawMono(net, t0, t0, t, t1);
  }

  lemma UnderwayAdvance(o: Outline, net: Net, t0: nat, t: nat, initial: seq<Node>, out0: seq<Node>, d: nat,
                        limit: nat, w: Walk, out: seq<Node>, failed: seq<Id>)
    requires Forest(o) && FirstLevel(o, initial) && w.rem > 0 && w.current != []
    requires Underway(o, net, t0, t, initial, out0, d, limit, w, out)
    requires NoDup(failed) && forall x :: x in failed ==> x in Ids(w.current)
    requires |out + w.current| <= limit
    requires |out + w.current| + |Advanced(o, w, failed).current| < limit || SawFailure(net, t0, t)
    requires failed != [] ==> SawFailure(net, t0, t)
    ensures Underway(o, net, t0, t, initial, out0, d, limit, Advanced(o, w, failed), out + w.current)
  {
    hide Walking;
    hide SawFailure;
    hide Blocks;
    hide Forest;
    hide FirstLevel;
    hide NoDup;
    hide Ids;
    hide Except;
    hide SetOf;
    hide LevelKnown;
    hide Leveled;
    hide SkippedKnown;
    UnderwayFacts(o, net, t0, t, initial, out0, d, limit, w, out);
    WalkingAdvance(o, initial, d, w, failed);
    WalkingDistinct(o, initial, d, w);
    LeveledAdvance(o, initial, d, w, failed);
  }

  lemma HaltAt(net: Net, t0: nat, t: nat)
    requires t0 < t && net.status(t - 1).Some?
    ensures SawHalt(net, net.status(t - 1).value, t0, t)
  {
  }
}
