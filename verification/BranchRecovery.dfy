/** Re-attempting the branches a level dropped: one wave for an interactive walk, waves until
    no further progress for a patient one. */
module BranchRecovery {
  import opened Sequences
  import opened Outlines
  import opened Network

  /** Every branch handed in came back exactly once: its children delivered, or still failed. */
  ghost predicate Conserved(o: Outline, ids: seq<Id>, recovered: seq<Node>, failed: seq<Id>, done: seq<Id>) {
    recovered == Blocks(o, done) && multiset(done) + multiset(failed) == multiset(ids)
  }

  lemma ConservedJoin(o: Outline, ids: seq<Id>, r1: seq<Node>, f1: seq<Id>, d1: seq<Id>,
                      r2: seq<Node>, f2: seq<Id>, d2: seq<Id>)
    requires Conserved(o, ids, r1, f1, d1) && Conserved(o, f1, r2, f2, d2)
    ensures Conserved(o, ids, r1 + r2, f2, d1 + d2)
  {
    BlocksAppend(o, d1, d2);
  }

  lemma ConservedLength(o: Outline, ids: seq<Id>, r: seq<Node>, f: seq<Id>, d: seq<Id>)
    requires Conserved(o, ids, r, f, d)
    ensures |d| + |f| == |ids|
  {
    assert |multiset(d) + multiset(f)| == |multiset(ids)|;
  }

  /** For distinct branches: either delivered or still failed, never both and never neither. */
  lemma ConservedExclusive(o: Outline, ids: seq<Id>, r: seq<Node>, f: seq<Id>, d: seq<Id>)
    requires NoDup(ids) && Conserved(o, ids, r, f, d)
    ensures NoDup(d) && NoDup(f)
    ensures forall x :: x in ids <==> x in d || x in f
    ensures forall x :: !(x in d && x in f)
  {
    var ms := multiset(ids);
    NoDupMultiset(ids);
    NoDupFromCount(d, ms);
    NoDupFromCount(f, ms);
    forall x
      ensures x in ids <==> x in d || x in f
      ensures !(x in d && x in f)
    {
      assert ms[x] == multiset(d)[x] + multiset(f)[x];
      assert x in d <==> multiset(d)[x] > 0;
      assert x in f <==> multiset(f)[x] > 0;
    }
  }

  lemma NoDupFromCount<T>(s: seq<T>, m: multiset<T>)
    requires multiset(s) <= m && forall x :: m[x] <= 1
    ensures NoDup(s)
  {
    forall i, j | 0 <= i < j < |s| ensures s[i] != s[j] {
      assert s == s[..i] + [s[i]] + s[i + 1..j] + [s[j]] + s[j + 1..];
      assert s[i] == s[j] ==> multiset(s)[s[i]] >= 2;
    }
  }

  /** Something that keeps a branch from being recovered. */
  ghost predicate Adverse(net: Net, k: nat) {
    net.status(k).Some? || net.window(k).OutlastsBudget? || !net.reply(k).Delivered?
  }

  ghost predicate AllRefused(net: Net, t0: nat, t: nat) {
    forall k: nat :: t0 <= k < t ==> !net.reply(k).Delivered?
  }

  /** The fan-out part-way: the branches in flight are the ones not yet accounted for. */
  ghost predicate Pending(o: Outline, ids: seq<Id>, recovered: seq<Node>, failed: seq<Id>, done: seq<Id>,
                          inFlight: seq<Id>) {
    recovered == Blocks(o, done)
    && multiset(done) + multiset(failed) + multiset(inFlight) == multiset(ids)
  }

  lemma PendingStart(o: Outline, ids: seq<Id>)
    ensures Pending(o, ids, [], [], [], ids)
  {
  }

  lemma PendingNone(o: Outline, ids: seq<Id>, recovered: seq<Node>, failed: seq<Id>, done: seq<Id>)
    requires Pending(o, ids, recovered, failed, done, [])
    ensures Conserved(o, ids, recovered, failed, done)
  {
  }

  lemma PendingStep(o: Outline, ids: seq<Id>, recovered: seq<Node>, failed: seq<Id>, done: seq<Id>,
                    inFlight: seq<Id>, id: Id, rest: seq<Id>)
    requires Pending(o, ids, recovered, failed, done, inFlight)
    requires multiset{id} + multiset(rest) == multiset(inFlight)
    ensures Pending(o, ids, recovered + Listing(o, id), failed, done + [id], rest)
    ensures Pending(o, ids, recovered, failed + [id], done, rest)
    ensures Pending(o, ids, recovered, failed, done, rest + [id])
  {
    BlocksSnoc(o, done, id);
    hide Blocks;
    hide Listing;
    assert multiset(done + [id]) == multiset(done) + multiset{id};
    assert multiset(failed + [id]) == multiset(failed) + multiset{id};
    assert multiset(rest + [id]) == multiset(rest) + multiset{id};
  }

  // ---------------------------------------------------------------------
  // The run as a function of the oracle
  // ---------------------------------------------------------------------

  datatype Wave = Wave(recovered: seq<Node>, failed: seq<Id>, t: nat)

  /** The rest of a fan-out: fetches complete one by one, each delivered or failed. */
  function WaveFrom(o: Outline, net: Net, inFlight: seq<Id>, recovered: seq<Node>, failed: seq<Id>, t: nat): Wave
    decreases |inFlight|
  {
    if inFlight == [] then Wave(recovered, failed, t)
    else
      var (id, rest) := TakeAt(inFlight, net.pick(t));
      if net.reply(t).Delivered? then WaveFrom(o, net, rest, recovered + Listing(o, id), failed, t + 1)
      else WaveFrom(o, net, rest, recovered, failed + [id], t + 1)
  }

  function RetryRun(o: Outline, net: Net, t0: nat, ids: seq<Id>): Wave {
    if net.status(t0).Some? then Wave([], ids, t0 + 1)
    else
      match net.window(t0 + 1)
      case NoWindow => WaveFrom(o, net, ids, [], [], t0 + 2)
      case OutlastsBudget => Wave([], ids, t0 + 2)
      case FitsBudget =>
        if net.status(t0 + 2).Some? then Wave([], ids, t0 + 3) else WaveFrom(o, net, ids, [], [], t0 + 3)
  }

  /** The further waves of a patient recovery. */
  function RecoverFrom(o: Outline, net: Net, recovered: seq<Node>, failed: seq<Id>, t: nat): Wave
    decreases |failed|
  {
    if failed == [] then Wave(recovered, failed, t)
    else if net.status(t).Some? then Wave(recovered, failed, t + 1)
    else
      var w := RetryRun(o, net, t + 1, failed);
      if |w.failed| >= |failed| then Wave(recovered + w.recovered, w.failed, w.t)
      else RecoverFrom(o, net, recovered + w.recovered, w.failed, w.t)
  }

  function RecoverRun(o: Outline, net: Net, t0: nat, ids: seq<Id>, patient: bool): Wave {
    var w := RetryRun(o, net, t0, ids);
    if patient then RecoverFrom(o, net, w.recovered, w.failed, w.t) else w
  }

  lemma {:induction false} WaveTakes(o: Outline, net: Net, inFlight: seq<Id>, recovered: seq<Node>, failed: seq<Id>,
                                     t: nat)
    ensures WaveFrom(o, net, inFlight, recovered, failed, t).t == t + |inFlight|
    decreases |inFlight|
  {
    hide Listing;
    hide TakeAt;
    if inFlight != [] {
      var (id, rest) := TakeAt(inFlight, net.pick(t));
      if net.reply(t).Delivered? {
        WaveTakes(o, net, rest, recovered + Listing(o, id), failed, t + 1);
      } else {
        WaveTakes(o, net, rest, recovered, failed + [id], t + 1);
      }
    }
  }

  /** An interactive recovery fetches each branch once more at most: up to three checks, then one fetch
      a branch. */
  lemma OneWave(o: Outline, net: Net, t0: nat, ids: seq<Id>)
    ensures RecoverRun(o, net, t0, ids, false).t <= t0 + 3 + |ids|
  {
    hide WaveFrom;
    WaveTakes(o, net, ids, [], [], t0 + 2);
    WaveTakes(o, net, ids, [], [], t0 + 3);
  }

  // ---------------------------------------------------------------------
  // Every run conserves branches
  // ---------------------------------------------------------------------

  lemma {:induction false} WaveConserves(o: Outline, net: Net, ids: seq<Id>, inFlight: seq<Id>, recovered: seq<Node>,
                                         failed: seq<Id>, done0: seq<Id>, t: nat) returns (done: seq<Id>)
    requires Pending(o, ids, recovered, failed, done0, inFlight)
    ensures var w := WaveFrom(o, net, inFlight, recovered, failed, t);
            Conserved(o, ids, w.recovered, w.failed, done)
    decreases |inFlight|
  {
    hide Pending;
    hide Conserved;
    hide Listing;
    if inFlight == [] {
      done := done0;
      PendingNone(o, ids, recovered, failed, done);
    } else {
      var (id, rest) := TakeAt(inFlight, net.pick(t));
      hide TakeAt;
      PendingStep(o, ids, recovered, failed, done0, inFlight, id, rest);
      if net.reply(t).Delivered? {
        done := WaveConserves(o, net, ids, rest, recovered + Listing(o, id), failed, done0 + [id], t + 1);
      } else {
        done := WaveConserves(o, net, ids, rest, recovered, failed + [id], done0, t + 1);
      }
    }
  }

  lemma RetryConserves(o: Outline, net: Net, t0: nat, ids: seq<Id>) returns (done: seq<Id>)
    ensures var w := RetryRun(o, net, t0, ids);
            Conserved(o, ids, w.recovered, w.failed, done)
  {
    hide WaveFrom;
    hide Conserved;
    hide Pending;
    NothingDone(o, ids);
    PendingStart(o, ids);
    done := [];
    if net.status(t0).None? {
      if net.window(t0 + 1).NoWindow? {
        done := WaveConserves(o, net, ids, ids, [], [], [], t0 + 2);
      } else if net.window(t0 + 1).FitsBudget? && net.status(t0 + 2).None? {
        done := WaveConserves(o, net, ids, ids, [], [], [], t0 + 3);
      }
    }
  }

  lemma {:induction false} FurtherConserves(o: Outline, net: Net, ids: seq<Id>, recovered: seq<Node>, failed: seq<Id>,
                                            done0: seq<Id>, t: nat) returns (done: seq<Id>)
    requires Conserved(o, ids, recovered, failed, done0)
    ensures var w := RecoverFrom(o, net, recovered, failed, t);
            Conserved(o, ids, w.recovered, w.failed, done)
    decreases |failed|
  {
    hide RetryRun;
    hide Conserved;
    done := done0;
    if failed != [] && net.status(t).None? {
      var w := RetryRun(o, net, t + 1, failed);
      var more := RetryConserves(o, net, t + 1, failed);
      ConservedJoin(o, ids, recovered, failed, done0, w.recovered, w.failed, more);
      done := done0 + more;
      if |w.failed| < |failed| {
        done := FurtherConserves(o, net, ids, recovered + w.recovered, w.failed, done, w.t);
      }
    }
  }

  lemma RecoverConserves(o: Outline, net: Net, t0: nat, ids: seq<Id>, patient: bool) returns (done: seq<Id>)
    ensures var w := RecoverRun(o, net, t0, ids, patient);
            Conserved(o, ids, w.recovered, w.failed, done)
  {
    hide RetryRun;
    hide RecoverFrom;
    hide Conserved;
    var w := RetryRun(o, net, t0, ids);
    done := RetryConserves(o, net, t0, ids);
    if patient {
      done := FurtherConserves(o, net, ids, w.recovered, w.failed, done, w.t);
    }
  }

  lemma NoneRefused(net: Net, t: nat)
    ensures AllRefused(net, t, t)
  {
  }

  lemma OneRefused(net: Net, t0: nat, t: nat)
    requires AllRefused(net, t0, t) && !net.reply(t).Delivered?
    ensures AllRefused(net, t0, t + 1)
  {
  }

  lemma WaveStep(o: Outline, net: Net, inFlight: seq<Id>, recovered: seq<Node>, failed: seq<Id>, t: nat)
    ensures WaveFrom(o, net, inFlight, recovered, failed, t)
            == if inFlight == [] then Wave(recovered, failed, t)
               else
                 var (id, rest) := TakeAt(inFlight, net.pick(t));
                 if net.reply(t).Delivered? then WaveFrom(o, net, rest, recovered + Listing(o, id), failed, t + 1)
                 else WaveFrom(o, net, rest, recovered, failed + [id], t + 1)
  {
    hide Listing;
    hide TakeAt;
  }

  /** One fan-out over the dropped branches. */
  method FetchWave(o: Outline, net: Net, t0: nat, ids: seq<Id>)
    returns (recovered: seq<Node>, failed: seq<Id>, t: nat, ghost done: seq<Id>)
    ensures Wave(recovered, failed, t) == WaveFrom(o, net, ids, [], [], t0)
    ensures Conserved(o, ids, recovered, failed, done)
    ensures t == t0 + |ids|
    ensures done == [] ==> AllRefused(net, t0, t)
    ensures failed != [] ==> exists k: nat :: t0 <= k < t && !net.reply(k).Delivered?
  {
    hide Listing;
    hide Pending;
    hide Conserved;
    hide WaveFrom;
    hide TakeAt;
    hide AllRefused;
    hide DisplayOf;
    hide Wired;
    assert AllRefused(net, t0, t0) by {
      NoneRefused(net, t0);
    }
    recovered, failed, t, done := [], [], t0, [];
    var inFlight := ids;
    PendingStart(o, ids);
    while inFlight != []
      invariant WaveFrom(o, net, inFlight, recovered, failed, t) == WaveFrom(o, net, ids, [], [], t0)
      invariant Pending(o, ids, recovered, failed, done, inFlight)
      invariant t == t0 + |ids| - |inFlight|
      invariant done == [] ==> AllRefused(net, t0, t)
      invariant failed != [] ==> exists k: nat :: t0 <= k < t && !net.reply(k).Delivered?
      decreases |inFlight|
    {
      WaveStep(o, net, inFlight, recovered, failed, t);
      var (id, rest) := TakeAt(inFlight, net.pick(t));
      PendingStep(o, ids, recovered, failed, done, inFlight, id, rest);
      inFlight := rest;
      if net.reply(t).Delivered? {
        var children := GetChildren(o, id);
        recovered := recovered + children;
        done := done + [id];
      } else {
        failed := failed + [id];
        if done == [] {
          OneRefused(net, t0, t);
        }
      }
      t := t + 1;
    }
    WaveStep(o, net, inFlight, recovered, failed, t);
    PendingNone(o, ids, recovered, failed, done);
  }

  lemma NothingDone(o: Outline, ids: seq<Id>)
    ensures Conserved(o, ids, [], ids, [])
  {
  }

  /** Nothing is fetched once halted, or if the window outlasts the budget; otherwise each branch is, once. */
  ghost predicate Gated(net: Net, t0: nat, ids: seq<Id>, recovered: seq<Node>, failed: seq<Id>, t: nat) {
    if net.status(t0).Some? then recovered == [] && failed == ids && t == t0 + 1
    else
      match net.window(t0 + 1)
      case NoWindow => t == t0 + 2 + |ids|
      case OutlastsBudget => recovered == [] && failed == ids && t == t0 + 2
      case FitsBudget =>
        if net.status(t0 + 2).Some? then recovered == [] && failed == ids && t == t0 + 3 else t == t0 + 3 + |ids|
  }

  /** Wait out an open rate-limit window if the budget allows, then fan out once. */
  method RetrySkippedBranches(o: Outline, net: Net, t0: nat, ids: seq<Id>)
    returns (recovered: seq<Node>, failed: seq<Id>, t: nat, ghost done: seq<Id>)
    ensures Wave(recovered, failed, t) == RetryRun(o, net, t0, ids)
    ensures Conserved(o, ids, recovered, failed, done)
    ensures t0 < t
    ensures Gated(net, t0, ids, recovered, failed, t)
    ensures done == [] ==> GaveUp(net, t0, t, |ids|)
    ensures failed != [] ==> exists k: nat :: t0 <= k < t && Adverse(net, k)
  {
    hide WaveFrom;
    hide Conserved;
    hide AllRefused;
    NothingDone(o, ids);
    recovered, failed, t, done := [], ids, t0 + 1, [];
    if net.status(t0).Some? {
      assert Adverse(net, t0);
      return;
    }
    t := t + 1;
    match net.window(t - 1) {
      case NoWindow =>
      case OutlastsBudget =>
        assert Adverse(net, t - 1);
        return;
      case FitsBudget =>
        t := t + 1;
        if net.status(t - 1).Some? {
          assert Adverse(net, t - 1);
          return;
        }
    }
    ghost var before := t;
    recovered, failed, t, done := FetchWave(o, net, t, ids);
    assert done == [] ==> AllRefused(net, before, t);
    if failed != [] {
      ghost var k: nat :| before <= k < t && !net.reply(k).Delivered?;
      assert Adverse(net, k);
    }
  }

  /** Grounds for stopping with branches unrecovered: a halt, a window that outlasts the
      budget, or a whole wave of `size` fetches that delivered nothing. */
  ghost predicate GaveUp(net: Net, t0: nat, t: nat, size: nat) {
    || (exists k: nat :: t0 <= k < t && (net.status(k).Some? || net.window(k).OutlastsBudget?))
    || (t0 + size <= t && AllRefused(net, t - size, t))
  }

  /** Recover dropped branches. A patient walk keeps issuing waves and stops short only when
      halted, out of budget, or after a wave that recovered nothing. */
  method RecoverSkippedBranches(o: Outline, net: Net, t0: nat, ids: seq<Id>, patient: bool)
    returns (recovered: seq<Node>, failed: seq<Id>, t: nat, ghost done: seq<Id>)
    ensures Wave(recovered, failed, t) == RecoverRun(o, net, t0, ids, patient)
    ensures Conserved(o, ids, recovered, failed, done)
    ensures t0 < t
    ensures patient && failed != [] ==> GaveUp(net, t0, t, |failed|)
    ensures failed != [] ==> exists k: nat :: t0 <= k < t && Adverse(net, k)
  {
    hide RetryRun;
    hide Listing;
    hide Gated;
    recovered, failed, t, done := RetrySkippedBranches(o, net, t0, ids);
    if !patient {
      return;
    }
    while failed != []
      invariant RecoverFrom(o, net, recovered, failed, t) == RecoverRun(o, net, t0, ids, patient)
      invariant Conserved(o, ids, recovered, failed, done)
      invariant t0 < t
      invariant failed != [] ==> exists k: nat :: t0 <= k < t && Adverse(net, k)
      decreases |failed|
    {
      t := t + 1;
      if net.status(t - 1).Some? {
        assert GaveUp(net, t0, t, |failed|);
        return;
      }
      var before := |failed|;
      ghost var t1, r1, f1, d1 := t, recovered, failed, done;
      var more, still;
      ghost var newDone;
      more, still, t, newDone := RetrySkippedBranches(o, net, t, failed);
      ConservedLength(o, failed, more, still, newDone);
      ConservedJoin(o, ids, r1, f1, d1, more, still, newDone);
      recovered := recovered + more;
      failed := still;
      done := done + newDone;
      if |failed| >= before {
        assert newDone == [] && |failed| == before;
        assert GaveUp(net, t1, t, |failed|);
        return;
      }
    }
  }
}
