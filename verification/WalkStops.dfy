/** What a walk reports when it stops: where, with how many nodes, and how soon. */
module WalkStops {
  import opened Sequences
  import opened Outlines
  import opened LevelOrder
  import opened Network
  import opened BranchRecovery
  import opened WalkRuns
  import opened WalkInvariant
  import opened SkipLists
  import opened StoppedWalks
  import opened SubtreeFetch

  // ---------------------------------------------------------------------
  // The node named
  // ---------------------------------------------------------------------

  /** The k-th level is not empty and was emitted whole. */
  ghost predicate LastLevel(o: Outline, initial: seq<Node>, k: nat, s: set<Id>, emitted: seq<Node>) {
    PrunedLevel(o, initial, k, s) != [] && Pruned(o, initial, k, s) <= emitted
  }

  /** A halt once the k-th level was emitted names the parent of its first node. */
  ghost predicate AfterLevel(o: Outline, initial: seq<Node>, k: nat, s: set<Id>, emitted: seq<Node>, anchor: Option<Id>) {
    LastLevel(o, initial, k, s, emitted) && anchor == PrunedLevel(o, initial, k, s)[0].parent
  }

  /** A stop once all children of the k-th level have arrived names its first node. */
  ghost predicate OfLevel(o: Outline, initial: seq<Node>, k: nat, s: set<Id>, emitted: seq<Node>, anchor: Option<Id>) {
    LastLevel(o, initial, k, s, emitted) && anchor == Some(PrunedLevel(o, initial, k, s)[0].id)
  }

  /** What the anchor names, exit by exit: the first branch dropped; the parent of the first node left out
      by the cap; the parent of the first node of the last level; a parent whose children had not arrived,
      or the first of the last level if all had. */
  ghost predicate Anchors(o: Outline, initial: seq<Node>, d: nat, run: Run, emitted: seq<Node>) {
    var s, anchor := SetOf(run.dropped), run.outcome.anchor;
    match run.exit
    case Finished => anchor == if run.dropped == [] then None else Some(run.dropped[0])
    case HaltAfterEmitting =>
      exists k: nat :: k <= d && AfterLevel(o, initial, k, s, emitted, anchor)
    case WhileFetching =>
      if run.undelivered != [] then anchor.Some? && anchor.value in run.undelivered
      else exists k: nat :: k <= d && OfLevel(o, initial, k, s, emitted, anchor)
    case _ =>
      var all := Pruned(o, initial, d, s);
      |emitted| < |all| && anchor == all[|emitted|].parent
  }

  lemma StopNames(o: Outline, net: Net, t0: nat, current: seq<Node>, used: nat, limit: nat, patient: bool)
    requires current != []
    ensures var n := NextFrom(o, net, t0, current, used, limit, patient);
            n.stop.Some? ==> if n.undelivered != [] then n.anchor in n.undelivered else n.anchor == current[0].id
  {
    hide LevelFrom;
    hide RecoverRun;
    hide Reordered;
    var l := LevelFrom(o, net, Ids(current), [], [], t0, used, limit);
    if l.stop.Some? && l.unfinished.None? && l.inFlight != [] {
      var k := net.pick(l.t) % |l.inFlight|;
      assert l.inFlight[k] in l.inFlight;
    }
  }

  lemma CutNames(o: Outline, initial: seq<Node>, d: nat, w: Walk, r: nat)
    requires Leveled(o, initial, d, w) && r < |w.current|
    ensures var all := Pruned(o, initial, d, SetOf(w.skipped));
            |w.emitted + w.current[..r]| < |all| && all[|w.emitted + w.current[..r]|] == w.current[r]
  {
    hide Leveled;
    hide Pruned;
    PartPruned(o, initial, d, w, |w.current|);
    assert w.current[..|w.current|] == w.current;
    assert (w.emitted + w.current)[|w.emitted| + r] == w.current[r];
  }

  /** Dropping parents of the current level changes nothing up to that level. */
  lemma LevelStands(o: Outline, initial: seq<Node>, d: nat, w: Walk, failed: seq<Id>)
    requires Leveled(o, initial, d, w) && SkippedKnown(w.emitted, w.skipped) && w.current != []
    requires forall x :: x in failed ==> x !in Ids(w.emitted)
    ensures w.rem <= d
    ensures PrunedLevel(o, initial, d - w.rem, SetOf(w.skipped + failed)) == w.current
    ensures LastLevel(o, initial, d - w.rem, SetOf(w.skipped + failed), w.emitted + w.current)
  {
    hide Pruned;
    hide PrunedLevel;
    hide Above;
    var t := SetOf(w.skipped + failed);
    assert forall x :: x in t <==> x in SetOf(w.skipped) || x in failed;
    hide Ids;
    assert Agree(w.emitted, t, SetOf(w.skipped));
    assert LeveledAt(o, initial, d - w.rem, w, t);
    PrunedGrows(o, initial, d - w.rem, t);
  }

  lemma EndAnchors(o: Outline, initial: seq<Node>, d: nat, w: Walk, k: nat, run: Run)
    requires Leveled(o, initial, d, w) && k <= |w.current| && run.dropped == w.skipped
    requires k < |w.current| ==> run.exit in {CutAtEnd, CapWhileEmitting} && run.outcome.anchor == w.current[k].parent
    requires k == |w.current| ==>
               run.exit == Finished && run.outcome.anchor == if run.dropped == [] then None else Some(run.dropped[0])
    ensures Anchors(o, initial, d, run, w.emitted + w.current[..k])
  {
    hide Leveled;
    hide Pruned;
    hide PrunedLevel;
    hide SetOf;
    if k < |w.current| {
      CutNames(o, initial, d, w, k);
    }
  }

  lemma HaltAnchors(o: Outline, initial: seq<Node>, d: nat, k: nat, run: Run, emitted: seq<Node>)
    requires run.exit == HaltAfterEmitting && k <= d
    requires AfterLevel(o, initial, k, SetOf(run.dropped), emitted, run.outcome.anchor)
    ensures Anchors(o, initial, d, run, emitted)
  {
    hide AfterLevel;
    hide OfLevel;
    hide Pruned;
    hide SetOf;
    var s, anchor := SetOf(run.dropped), run.outcome.anchor;
    assert exists k: nat :: k <= d && AfterLevel(o, initial, k, s, emitted, anchor);
  }

  lemma FetchAnchors(o: Outline, initial: seq<Node>, d: nat, k: nat, run: Run, emitted: seq<Node>)
    requires run.exit == WhileFetching && k <= d && run.outcome.anchor.Some?
    requires if run.undelivered != [] then run.outcome.anchor.value in run.undelivered
             else OfLevel(o, initial, k, SetOf(run.dropped), emitted, run.outcome.anchor)
    ensures Anchors(o, initial, d, run, emitted)
  {
    hide AfterLevel;
    hide OfLevel;
    hide Pruned;
    hide SetOf;
  }

  lemma {:induction false} RunAnchors(o: Outline, net: Net, t: nat, initial: seq<Node>, out0: seq<Node>, d: nat,
                                      limit: nat, patient: bool, w: Walk)
    requires Forest(o) && FirstLevel(o, initial)
    requires Leveled(o, initial, d, w) && SkippedKnown(w.emitted, w.skipped)
    ensures var run := WalkFrom(o, net, t, w.current, out0 + w.emitted, w.rem, limit, patient, w.skipped);
            out0 <= run.out && Anchors(o, initial, d, run, run.out[|out0|..])
    decreases w.rem
  {
    hide Leveled;
    hide SkippedKnown;
    hide Pruned;
    hide WalkFrom;
    hide NextFrom;
    hide FirstLevel;
    hide Blocks;
    hide Except;
    hide Ids;
    hide NoDup;
    hide SetOf;
    hide PrunedLevel;
    hide LastLevel;
    hide Anchors;
    var out := out0 + w.emitted;
    var k := Room(|out|, |w.current|, limit);
    assert w.skipped + [] == w.skipped;
    Regrouped(out0, w.emitted, w.current[..k]);
    if w.rem == 0 || w.current == [] {
      Ends(o, net, t, w.current, out, w.rem, limit, patient, w.skipped);
      Regrouped(out0, w.emitted, w.current);
      assert k == |w.current| ==> w.current[..k] == w.current;
      EndAnchors(o, initial, d, w, k, WalkFrom(o, net, t, w.current, out, w.rem, limit, patient, w.skipped));
    } else if k < |w.current| {
      CapsOut(o, net, t, w.current, out, w.rem, limit, patient, w.skipped);
      EndAnchors(o, initial, d, w, k, WalkFrom(o, net, t, w.current, out, w.rem, limit, patient, w.skipped));
    } else if net.status(t).Some? {
      Halts(o, net, t, w.current, out, w.rem, limit, patient, w.skipped);
      Regrouped(out0, w.emitted, w.current);
      LevelStands(o, initial, d, w, []);
      assert AfterLevel(o, initial, d - w.rem, SetOf(w.skipped + []), w.emitted + w.current, w.current[0].parent);
      HaltAnchors(o, initial, d, d - w.rem, WalkFrom(o, net, t, w.current, out, w.rem, limit, patient, w.skipped),
                  w.emitted + w.current);
    } else {
      RunAnchorsOn(o, net, t, initial, out0, d, limit, patient, w);
    }
  }

  lemma {:induction false} RunAnchorsOn(o: Outline, net: Net, t: nat, initial: seq<Node>, out0: seq<Node>, d: nat,
                                        limit: nat, patient: bool, w: Walk)
    requires Forest(o) && FirstLevel(o, initial)
    requires Leveled(o, initial, d, w) && SkippedKnown(w.emitted, w.skipped)
    requires w.rem > 0 && w.current != [] && net.status(t).None?
    requires Room(|out0 + w.emitted|, |w.current|, limit) == |w.current|
    ensures var run := WalkFrom(o, net, t, w.current, out0 + w.emitted, w.rem, limit, patient, w.skipped);
            out0 <= run.out && Anchors(o, initial, d, run, run.out[|out0|..])
    decreases w.rem, 0
  {
    hide Leveled;
    hide SkippedKnown;
    hide Pruned;
    hide WalkFrom;
    hide NextFrom;
    hide FirstLevel;
    hide Blocks;
    hide Except;
    hide Ids;
    hide NoDup;
    hide SetOf;
    hide PrunedLevel;
    hide LastLevel;
    hide Anchors;
    var out := out0 + w.emitted;
    Regrouped(out0, w.emitted, w.current);
    RunGoesOn(o, net, t, initial, out0, d, limit, patient, w);
    var n := NextFrom(o, net, t + 1, w.current, |out + w.current|, limit, patient);
    if n.stop.Some? {
      StopsFetching(o, net, t, w.current, out, w.rem, limit, patient, w.skipped);
      StopNames(o, net, t + 1, w.current, |out + w.current|, limit, patient);
      var r := Room(|out + w.current|, |n.next|, limit);
      Regrouped(out0, w.emitted + w.current, n.next[..r]);
      FailedBelow(o, net, t + 1, initial, d, w, |out + w.current|, limit, patient);
      LevelStands(o, initial, d, w, n.failed);
      LastLevelKept(o, initial, d - w.rem, SetOf(w.skipped + n.failed), w.emitted + w.current, n.next[..r]);
      assert OfLevel(o, initial, d - w.rem, SetOf(w.skipped + n.failed), w.emitted + w.current + n.next[..r],
                     Some(w.current[0].id));
      FetchAnchors(o, initial, d, d - w.rem, WalkFrom(o, net, t, w.current, out, w.rem, limit, patient, w.skipped),
                   w.emitted + w.current + n.next[..r]);
    } else {
      GoesOn(o, net, t, w.current, out, w.rem, limit, patient, w.skipped);
      RunAnchors(o, net, n.t, initial, out0, d, limit, patient, Advanced(o, w, n.failed));
    }
  }

  lemma LastLevelKept(o: Outline, initial: seq<Node>, k: nat, s: set<Id>, emitted: seq<Node>, more: seq<Node>)
    requires LastLevel(o, initial, k, s, emitted)
    ensures LastLevel(o, initial, k, s, emitted + more)
  {
  }

  /** A branch that failed is of the current level, so not of those above. */
  lemma FailedBelow(o: Outline, net: Net, t: nat, initial: seq<Node>, d: nat, w: Walk, used: nat, limit: nat,
                    patient: bool)
    requires Forest(o) && FirstLevel(o, initial) && Leveled(o, initial, d, w) && w.current != []
    ensures forall x :: x in NextFrom(o, net, t, w.current, used, limit, patient).failed ==> x !in Ids(w.emitted)
  {
    hide NextFrom;
    LevelsDistinct(o, initial, d, w);
    NextDelivers(o, net, t, w.current, used, limit, patient);
  }

  /** What a fetch's walk names when it ends. */
  lemma AnchorExactly(o: Outline, net: Net, t: nat, scope: Option<Node>, d: nat, limit: nat, patient: bool)
    requires Forest(o)
    ensures var run := WalkOf(o, net, t, scope, d, limit, patient);
            ScopePart(scope) <= run.out
            && Anchors(o, FirstBelow(o, scope), d, run, run.out[|ScopePart(scope)|..])
  {
    hide WalkFrom;
    hide Anchors;
    hide FirstBelow;
    hide Leveled;
    var first := FirstBelow(o, scope);
    FirstBelowLevel(o, scope);
    hide FirstLevel;
    LeveledStart(o, first, d);
    assert ScopePart(scope) + [] == ScopePart(scope);
    RunAnchors(o, net, t, first, ScopePart(scope), d, limit, patient, Start(first, d));
  }

  // ---------------------------------------------------------------------
  // The cap is used in full
  // ---------------------------------------------------------------------

  lemma {:induction false} LevelFills(o: Outline, net: Net, inFlight: seq<Id>, next: seq<Node>, failed: seq<Id>, t: nat,
                                      used: nat, limit: nat)
    ensures var l := LevelFrom(o, net, inFlight, next, failed, t, used, limit);
            l.stop == Some(NodeLimit) ==> used + |l.next| >= limit
    decreases |inFlight|
  {
    hide Listing;
    hide TakeAt;
    if inFlight != [] {
      var (id, rest) := TakeAt(inFlight, net.pick(t));
      match net.reply(t)
      case Aborted(_) =>
      case Delivered => LevelFills(o, net, rest, next + Listing(o, id), failed, t + 2, used, limit);
      case Failed => LevelFills(o, net, rest, next, failed + [id], t + 2, used, limit);
    }
  }

  lemma NextFills(o: Outline, net: Net, t0: nat, current: seq<Node>, used: nat, limit: nat, patient: bool)
    requires current != []
    ensures var n := NextFrom(o, net, t0, current, used, limit, patient);
            n.stop == Some(NodeLimit) ==> used + |n.next| >= limit
  {
    hide LevelFrom;
    hide RecoverRun;
    hide StableSort;
    var ids := Ids(current);
    var l := LevelFrom(o, net, ids, [], [], t0, used, limit);
    LevelFills(o, net, ids, [], [], t0, used, limit);
    StableSortProps(l.next, ParentKey(ids));
  }

  lemma {:induction false} CapUsed(o: Outline, net: Net, t: nat, current: seq<Node>, out: seq<Node>, rem: nat,
                                   limit: nat, patient: bool, dropped: seq<Id>)
    ensures var run := WalkFrom(o, net, t, current, out, rem, limit, patient, dropped);
            run.outcome.reason == Some(NodeLimit) ==> |run.out| >= limit
    decreases rem
  {
    hide NextFrom;
    if rem > 0 && current != [] && Room(|out|, |current|, limit) == |current| && net.status(t).None? {
      var n := NextFrom(o, net, t + 1, current, |out + current|, limit, patient);
      NextFills(o, net, t + 1, current, |out + current|, limit, patient);
      if n.stop.None? {
        CapUsed(o, net, n.t, n.next, out + current, rem - 1, limit, patient, dropped + n.failed);
      }
    }
  }

  /** A fetch cut by its cap returned no fewer nodes than the cap, so exactly as many. */
  lemma FetchFillsCap(o: Outline, net: Net, scope: Option<Node>, d: nat, limit: nat, patient: bool)
    ensures var r := FetchFrom(o, net, scope, d, limit, patient).0;
            r.Walked? && r.fetch.reason == Some(NodeLimit) ==> |r.fetch.nodes| >= limit
  {
    hide WalkFrom;
    hide FirstBelow;
    match OpeningFrom(net, scope, limit)
    case Closed(_, _) => ClosedFills(net, scope, limit);
    case Opened(t) => CapUsed(o, net, t, FirstBelow(o, scope), ScopePart(scope), d, limit, patient, []);
  }

  lemma ClosedFills(net: Net, scope: Option<Node>, limit: nat)
    requires OpeningFrom(net, scope, limit).Closed?
    ensures var r := OpeningFrom(net, scope, limit).r;
            r.Walked? && r.fetch.reason == Some(NodeLimit) ==> |r.fetch.nodes| >= limit
  {
  }

  // ---------------------------------------------------------------------
  // A halt is heeded
  // ---------------------------------------------------------------------

  /** All is well before tick c; from then on every check and every reply shows the halt. */
  ghost predicate HaltsAt(net: Net, c: nat) {
    && (forall k: nat :: k < c ==> net.reply(k).Delivered? && net.status(k).None?)
    && (forall k: nat :: k >= c ==> net.reply(k).Aborted? && net.status(k).Some?)
  }

  ghost predicate IsHalted(reason: Option<Reason>) {
    reason.Some? && reason.value.Halted?
  }

  lemma {:induction false} LevelHalts(o: Outline, net: Net, c: nat, inFlight: seq<Id>, next: seq<Node>, t: nat,
                                      used: nat, limit: nat)
    requires HaltsAt(net, c) && t <= c
    ensures var l := LevelFrom(o, net, inFlight, next, [], t, used, limit);
            IsHalted(l.stop) || (l.t <= c && l.failed == [])
    decreases |inFlight|
  {
    hide Listing;
    hide TakeAt;
    if inFlight != [] && t + 1 < c {
      var (id, rest) := TakeAt(inFlight, net.pick(t));
      LevelHalts(o, net, c, rest, next + Listing(o, id), t + 2, used, limit);
    }
  }

  lemma {:induction false} WalkHalts(o: Outline, net: Net, c: nat, t: nat, current: seq<Node>, out: seq<Node>, rem: nat,
                                     limit: nat, patient: bool)
    requires HaltsAt(net, c) && t <= c
    ensures var run := WalkFrom(o, net, t, current, out, rem, limit, patient, []);
            IsHalted(run.outcome.reason) || (run.t <= c && run.outcome.skipped == [])
    decreases rem
  {
    hide LevelFrom;
    hide RecoverRun;
    hide Reordered;
    if rem > 0 && current != [] && Room(|out|, |current|, limit) == |current| && t < c {
      var n := NextFrom(o, net, t + 1, current, |out + current|, limit, patient);
      LevelHalts(o, net, c, Ids(current), [], t + 1, |out + current|, limit);
      assert [] + n.failed == n.failed;
      if n.stop.None? {
        WalkHalts(o, net, c, n.t, n.next, out + current, rem - 1, limit, patient);
      }
    }
  }

  /** A fetch that is halted at tick c is over by then or says so. */
  lemma HaltHeeded(o: Outline, net: Net, scope: Option<Node>, d: nat, limit: nat, patient: bool, c: nat)
    requires HaltsAt(net, c)
    ensures var (r, t) := FetchFrom(o, net, scope, d, limit, patient);
            r.Walked? && (t <= c || IsHalted(r.fetch.reason))
  {
    hide WalkFrom;
    hide FirstBelow;
    OpeningHalts(net, scope, limit, c);
    match OpeningFrom(net, scope, limit)
    case Closed(_, _) =>
    case Opened(t) => WalkHalts(o, net, c, t, FirstBelow(o, scope), ScopePart(scope), d, limit, patient);
  }

  lemma OpeningHalts(net: Net, scope: Option<Node>, limit: nat, c: nat)
    requires HaltsAt(net, c)
    ensures match OpeningFrom(net, scope, limit)
            case Opened(t) => t <= c
            case Closed(r, t) => r.Walked? && (t <= c || IsHalted(r.fetch.reason))
  {
  }
}
