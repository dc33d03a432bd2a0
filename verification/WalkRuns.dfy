/** The subtree walk as a function of the oracle, exit by exit. */
module WalkRuns {
  import opened Sequences
  import opened Outlines
  import opened LevelOrder
  import opened Network
  import opened BranchRecovery

  datatype Reason = NodeLimit | Halted(halt: Halt) | SkippedBranches

  datatype Outcome = Outcome(reason: Option<Reason>, anchor: Option<Id>, skipped: seq<Id>) {
    /** Fold dropped branches in: a stopping reason is kept, an otherwise complete walk
        becomes a partial one. */
    function WithSkipped(dropped: seq<Id>): Outcome {
      if dropped == [] then this
      else if reason.None? then Outcome(Some(SkippedBranches), Some(dropped[0]), dropped)
      else this.(skipped := dropped)
    }
  }

  function Complete(): Outcome {
    Outcome(None, None, [])
  }

  function Stopped(reason: Reason, anchor: Option<Id>): Outcome {
    Outcome(Some(reason), anchor, [])
  }

  function Reordered(level: seq<Node>, parents: seq<Id>): seq<Node> {
    if level == [] || |parents| < 2 then level else StableSort(level, ParentKey(parents))
  }

  /** How many of n nodes still fit under the cap. */
  function Room(used: nat, n: nat, limit: nat): nat {
    if used >= limit then 0 else if n <= limit - used then n else limit - used
  }

  /** The node named when a level is cut short: the fetch that was aborted, else one still in
      flight, else the first of the level. */
  function StopAnchor(current: seq<Node>, unfinished: Option<Id>, inFlight: seq<Id>, k: nat): Id
    requires current != []
  {
    if unfinished.Some? then unfinished.value
    else if inFlight != [] then inFlight[k % |inFlight|]
    else current[0].id
  }

  // ---------------------------------------------------------------------
  // One level
  // ---------------------------------------------------------------------

  datatype LevelRun = LevelRun(next: seq<Node>, failed: seq<Id>, stop: Option<Reason>, inFlight: seq<Id>,
                               unfinished: Option<Id>, t: nat)

  /** The rest of a level's fan-out, until all fetches are in or something stops the walk. */
  function LevelFrom(o: Outline, net: Net, inFlight: seq<Id>, next: seq<Node>, failed: seq<Id>, t: nat, used: nat,
                     limit: nat): LevelRun
    decreases |inFlight|, 0
  {
    if inFlight == [] then LevelRun(next, failed, None, [], None, t)
    else
      var (id, rest) := TakeAt(inFlight, net.pick(t));
      match net.reply(t)
      case Aborted(h) => LevelRun(next, failed, Some(Halted(h)), rest, Some(id), t + 1)
      case Delivered => AfterFetch(o, net, rest, next + Listing(o, id), failed, t, used, limit)
      case Failed => AfterFetch(o, net, rest, next, failed + [id], t, used, limit)
  }

  /** The checks after each completed fetch. */
  function AfterFetch(o: Outline, net: Net, rest: seq<Id>, next: seq<Node>, failed: seq<Id>, t: nat, used: nat,
                      limit: nat): LevelRun
    decreases |rest|, 1
  {
    if used + |next| >= limit then LevelRun(next, failed, Some(NodeLimit), rest, None, t + 1)
    else
      match net.status(t + 1)
      case Some(h) => LevelRun(next, failed, Some(Halted(h)), rest, None, t + 2)
      case None => LevelFrom(o, net, rest, next, failed, t + 2, used, limit)
  }

  /** The fetches that did not complete when a level was stopped. */
  function Leftover(inFlight: seq<Id>, unfinished: Option<Id>): seq<Id> {
    match unfinished
    case None => inFlight
    case Some(id) => inFlight + [id]
  }

  datatype NextRun = NextRun(next: seq<Node>, failed: seq<Id>, undelivered: seq<Id>, stop: Option<Reason>, anchor: Id,
                             t: nat)

  /** Fetch, recover and reorder the level below current. */
  function NextFrom(o: Outline, net: Net, t0: nat, current: seq<Node>, used: nat, limit: nat, patient: bool): NextRun
    requires current != []
  {
    var ids := Ids(current);
    var l := LevelFrom(o, net, ids, [], [], t0, used, limit);
    if l.stop.Some? then
      NextRun(Reordered(l.next, ids), l.failed, Leftover(l.inFlight, l.unfinished), l.stop,
              StopAnchor(current, l.unfinished, l.inFlight, net.pick(l.t)), l.t)
    else if l.failed == [] then NextRun(Reordered(l.next, ids), [], [], None, current[0].id, l.t)
    else
      var w := RecoverRun(o, net, l.t, l.failed, patient);
      NextRun(Reordered(l.next + w.recovered, ids), w.failed, [], None, current[0].id, w.t)
  }

  // ---------------------------------------------------------------------
  // The walk
  // ---------------------------------------------------------------------

  /** Where the walk ends: at its end, while fetching a level, while emitting the last level, or at one
      of the two exits inside the loop before a level is fetched. */
  datatype Exit = Finished | WhileFetching | CutAtEnd | CapWhileEmitting | HaltAfterEmitting

  /** A walk's results, with the branches it dropped on the way, the parents of its last level whose
      fetch had not completed, and the exit it took. */
  datatype Run = Run(out: seq<Node>, outcome: Outcome, t: nat, dropped: seq<Id>, undelivered: seq<Id>, exit: Exit)

  function WalkFrom(o: Outline, net: Net, t: nat, current: seq<Node>, out: seq<Node>, rem: nat, limit: nat,
                    patient: bool, dropped: seq<Id>): Run
    decreases rem
  {
    var k := Room(|out|, |current|, limit);
    if rem == 0 || current == [] then
      if k < |current| then
        Run(out + current[..k], Stopped(NodeLimit, current[k].parent).WithSkipped(dropped), t, dropped, [], CutAtEnd)
      else Run(out + current, Complete().WithSkipped(dropped), t, dropped, [], Finished)
    else if k < |current| then
      Run(out + current[..k], Stopped(NodeLimit, current[k].parent), t, dropped, [], CapWhileEmitting)
    else if net.status(t).Some? then
      Run(out + current, Stopped(Halted(net.status(t).value), current[0].parent), t + 1, dropped, [], HaltAfterEmitting)
    else
      var n := NextFrom(o, net, t + 1, current, |out + current|, limit, patient);
      if n.stop.Some? then
        var r := Room(|out + current|, |n.next|, limit);
        Run(out + current + n.next[..r], Stopped(n.stop.value, Some(n.anchor)).WithSkipped(dropped + n.failed), n.t,
            dropped + n.failed, n.undelivered, WhileFetching)
      else WalkFrom(o, net, n.t, n.next, out + current, rem - 1, limit, patient, dropped + n.failed)
  }

  /** The reported skip list is the list of dropped branches, but for the two exits before a level is
      fetched: those report none, so they lose the list exactly when there is one. */
  lemma {:induction false} ListKeptExactly(o: Outline, net: Net, t: nat, current: seq<Node>, out: seq<Node>, rem: nat,
                                           limit: nat, patient: bool, dropped: seq<Id>)
    ensures var run := WalkFrom(o, net, t, current, out, rem, limit, patient, dropped);
            && (run.exit in {CapWhileEmitting, HaltAfterEmitting} ==> run.outcome.skipped == [])
            && (run.outcome.skipped == run.dropped
                <==> run.dropped == [] || run.exit !in {CapWhileEmitting, HaltAfterEmitting})
    decreases rem
  {
    hide NextFrom;
    if rem > 0 && current != [] && Room(|out|, |current|, limit) == |current| && net.status(t).None? {
      var n := NextFrom(o, net, t + 1, current, |out + current|, limit, patient);
      if n.stop.None? {
        ListKeptExactly(o, net, n.t, n.next, out + current, rem - 1, limit, patient, dropped + n.failed);
      }
    }
  }

  lemma StopsFetching(o: Outline, net: Net, t: nat, current: seq<Node>, out: seq<Node>, rem: nat, limit: nat,
                      patient: bool, dropped: seq<Id>)
    requires rem > 0 && current != [] && Room(|out|, |current|, limit) == |current| && net.status(t).None?
    requires NextFrom(o, net, t + 1, current, |out + current|, limit, patient).stop.Some?
    ensures var n := NextFrom(o, net, t + 1, current, |out + current|, limit, patient);
            WalkFrom(o, net, t, current, out, rem, limit, patient, dropped)
            == Run(out + current + n.next[..Room(|out + current|, |n.next|, limit)],
                   Stopped(n.stop.value, Some(n.anchor)).WithSkipped(dropped + n.failed), n.t, dropped + n.failed,
                   n.undelivered, WhileFetching)
  {
    hide NextFrom;
  }

  lemma CapsOut(o: Outline, net: Net, t: nat, current: seq<Node>, out: seq<Node>, rem: nat, limit: nat,
                patient: bool, dropped: seq<Id>)
    requires rem > 0 && current != [] && Room(|out|, |current|, limit) < |current|
    ensures var k := Room(|out|, |current|, limit);
            WalkFrom(o, net, t, current, out, rem, limit, patient, dropped)
            == Run(out + current[..k], Stopped(NodeLimit, current[k].parent), t, dropped, [], CapWhileEmitting)
  {
    hide NextFrom;
  }

  lemma Ends(o: Outline, net: Net, t: nat, current: seq<Node>, out: seq<Node>, rem: nat, limit: nat,
             patient: bool, dropped: seq<Id>)
    requires rem == 0 || current == []
    ensures var k := Room(|out|, |current|, limit);
            WalkFrom(o, net, t, current, out, rem, limit, patient, dropped)
            == if k < |current| then
                 Run(out + current[..k], Stopped(NodeLimit, current[k].parent).WithSkipped(dropped), t, dropped, [], CutAtEnd)
               else Run(out + current, Complete().WithSkipped(dropped), t, dropped, [], Finished)
  {
    hide NextFrom;
  }

  lemma GoesOn(o: Outline, net: Net, t: nat, current: seq<Node>, out: seq<Node>, rem: nat, limit: nat,
               patient: bool, dropped: seq<Id>)
    requires rem > 0 && current != [] && Room(|out|, |current|, limit) == |current| && net.status(t).None?
    requires NextFrom(o, net, t + 1, current, |out + current|, limit, patient).stop.None?
    ensures var n := NextFrom(o, net, t + 1, current, |out + current|, limit, patient);
            WalkFrom(o, net, t, current, out, rem, limit, patient, dropped)
            == WalkFrom(o, net, n.t, n.next, out + current, rem - 1, limit, patient, dropped + n.failed)
  {
    hide NextFrom;
  }

  lemma Halts(o: Outline, net: Net, t: nat, current: seq<Node>, out: seq<Node>, rem: nat, limit: nat,
              patient: bool, dropped: seq<Id>)
    requires rem > 0 && current != [] && Room(|out|, |current|, limit) == |current| && net.status(t).Some?
    ensures WalkFrom(o, net, t, current, out, rem, limit, patient, dropped)
            == Run(out + current, Stopped(Halted(net.status(t).value), current[0].parent), t + 1, dropped, [],
                   HaltAfterEmitting)
  {
    hide NextFrom;
  }

  // ---------------------------------------------------------------------
  // Two runs
  // ---------------------------------------------------------------------

  /** From tick t0 on, the first fetch fails, and so does its retry; the second delivers; the walk is
      cancelled at the check after the next level is emitted. All is well before. */
  function FailFirst(t0: nat): Net {
    Net(k => if k < t0 || k == t0 + 3 then Delivered else Failed,
        k => if k == t0 + 8 then Some(Cancelled) else None, k => 0, k => NoWindow)
  }

  lemma SortOne(c: Node, key: Node -> int)
    ensures StableSort([c], key) == [c]
  {
    var rest := [c][1..];
    assert rest == [];
    assert StableSort(rest, key) == [];
    assert [c] + rest == [c];
  }

  lemma TakeFirst(s: seq<Id>)
    requires s != []
    ensures TakeAt(s, 0) == (s[0], s[1..])
  {
    assert s[..0] + s[0 + 1..] == s[1..];
  }

  lemma TakeSecond(x: Id, y: Id)
    ensures TakeAt([x, y], 1) == (y, [x])
  {
    var s := [x, y];
    var i: nat := 1 % |s|;
    assert i == 1;
    assert s[..i] + s[i + 1..] == [x];
    var (p, q) := TakeAt(s, 1);
    assert p == y && q == [x];
  }

  lemma FailFirstLevel(o: Outline, a: Node, b: Node, c: Node, used: nat, limit: nat, t0: nat)
    requires Listing(o, b.id) == [c] && limit >= used + 2
    ensures LevelFrom(o, FailFirst(t0), [a.id, b.id], [], [], t0 + 1, used, limit)
            == LevelRun([c], [a.id], None, [], None, t0 + 5)
  {
    hide Listing;
    var net := FailFirst(t0);
    TakeFirst([a.id, b.id]);
    TakeFirst([b.id]);
    hide TakeAt;
    assert [a.id, b.id][1..] == [b.id] && [b.id][1..] == [];
    assert net.pick(t0 + 1) == 0 && net.pick(t0 + 3) == 0 && net.reply(t0 + 1).Failed? && net.reply(t0 + 3).Delivered?;
    assert net.status(t0 + 2).None? && net.status(t0 + 4).None?;
    hide FailFirst;
    assert [] + [a.id] == [a.id] && [] + [c] == [c];
    assert LevelFrom(o, net, [a.id, b.id], [], [], t0 + 1, used, limit)
           == AfterFetch(o, net, [b.id], [], [a.id], t0 + 1, used, limit);
    assert LevelFrom(o, net, [b.id], [], [a.id], t0 + 3, used, limit)
           == AfterFetch(o, net, [], [c], [a.id], t0 + 3, used, limit);
    assert AfterFetch(o, net, [], [c], [a.id], t0 + 3, used, limit)
           == LevelFrom(o, net, [], [c], [a.id], t0 + 5, used, limit);
  }

  lemma FailFirstRetry(o: Outline, a: Node, t0: nat)
    ensures RecoverRun(o, FailFirst(t0), t0 + 5, [a.id], false) == Wave([], [a.id], t0 + 8)
  {
    hide Listing;
    var net := FailFirst(t0);
    TakeFirst([a.id]);
    hide TakeAt;
    assert [a.id][1..] == [];
    assert net.pick(t0 + 7) == 0 && net.reply(t0 + 7).Failed?;
    assert WaveFrom(o, net, [a.id], [], [], t0 + 7) == WaveFrom(o, net, [], [], [] + [a.id], t0 + 8);
  }

  lemma FailFirstNext(o: Outline, a: Node, b: Node, c: Node, used: nat, limit: nat, t0: nat)
    requires Listing(o, b.id) == [c] && limit >= used + 2
    ensures NextFrom(o, FailFirst(t0), t0 + 1, [a, b], used, limit, false)
            == NextRun([c], [a.id], [], None, a.id, t0 + 8)
  {
    hide Listing;
    hide LevelFrom;
    hide RecoverRun;
    hide StableSort;
    hide FailFirst;
    var ids := Ids([a, b]);
    assert ids == [a.id, b.id];
    FailFirstLevel(o, a, b, c, used, limit, t0);
    FailFirstRetry(o, a, t0);
    SortOne(c, ParentKey(ids));
    assert [c] + [] == [c];
  }

  /** A run that drops a branch and does not report it. */
  lemma LostSkipList(o: Outline, a: Node, b: Node, c: Node, out: seq<Node>, limit: nat, t0: nat)
    requires Listing(o, b.id) == [c] && limit >= |out| + 4
    ensures var run := WalkFrom(o, FailFirst(t0), t0, [a, b], out, 2, limit, false, []);
            run == Run(out + [a, b, c], Stopped(Halted(Cancelled), c.parent), t0 + 9, [a.id], [], HaltAfterEmitting)
  {
    hide Listing;
    hide NextFrom;
    hide WalkFrom;
    var net := FailFirst(t0);
    FailFirstNext(o, a, b, c, |out| + 2, limit, t0);
    assert [] + [a.id] == [a.id] && out + [a, b] + [c] == out + [a, b, c];
    assert net.status(t0).None? && net.status(t0 + 8) == Some(Cancelled);
    hide FailFirst;
    GoesOn(o, net, t0, [a, b], out, 2, limit, false, []);
    Halts(o, net, t0 + 8, [c], out + [a, b], 1, limit, false, [a.id]);
  }

  /** From tick t0 on, the second parent's children arrive first, then the walk is cancelled. */
  function SecondFirst(t0: nat): Net {
    Net(k => Delivered, k => if k == t0 + 2 then Some(Cancelled) else None, k => 1, k => NoWindow)
  }

  lemma SecondFirstLevel(o: Outline, a: Node, b: Node, c: Node, used: nat, limit: nat, t0: nat)
    requires Listing(o, b.id) == [c] && limit >= used + 2
    ensures LevelFrom(o, SecondFirst(t0), [a.id, b.id], [], [], t0 + 1, used, limit)
            == LevelRun([c], [], Some(Halted(Cancelled)), [a.id], None, t0 + 3)
  {
    hide Listing;
    var net := SecondFirst(t0);
    TakeSecond(a.id, b.id);
    hide TakeAt;
    assert net.pick(t0 + 1) == 1 && net.reply(t0 + 1).Delivered? && net.status(t0 + 2) == Some(Cancelled);
    assert [] + [c] == [c];
    assert LevelFrom(o, net, [a.id, b.id], [], [], t0 + 1, used, limit)
           == AfterFetch(o, net, [a.id], [c], [], t0 + 1, used, limit);
  }

  lemma SecondFirstNext(o: Outline, a: Node, b: Node, c: Node, used: nat, limit: nat, t0: nat)
    requires Listing(o, b.id) == [c] && limit >= used + 2
    ensures var n := NextFrom(o, SecondFirst(t0), t0 + 1, [a, b], used, limit, false);
            n.next == [c] && n.failed == [] && n.undelivered == [a.id] && n.stop == Some(Halted(Cancelled))
  {
    hide Listing;
    hide LevelFrom;
    hide StableSort;
    hide SecondFirst;
    var ids := Ids([a, b]);
    assert ids == [a.id, b.id];
    SecondFirstLevel(o, a, b, c, used, limit, t0);
    SortOne(c, ParentKey(ids));
  }

  /** A stopped walk whose last level is no prefix of the full one: the first parent's child is
      missing and the second's is there. */
  lemma StoppedOutOfOrder(o: Outline, a: Node, b: Node, x: Node, c: Node, out: seq<Node>, limit: nat, t0: nat)
    requires Listing(o, a.id) == [x] && Listing(o, b.id) == [c] && x != c && limit >= |out| + 4
    ensures var run := WalkFrom(o, SecondFirst(t0), t0, [a, b], out, 1, limit, false, []);
            && run.exit == WhileFetching && run.dropped == [] && run.undelivered == [a.id]
            && run.out == out + [a, b, c] && Listed(o, [a, b], 1) == [a, b, x, c]
            && !(run.out <= out + Listed(o, [a, b], 1))
  {
    hide Listing;
    hide NextFrom;
    hide WalkFrom;
    hide Listed;
    var net := SecondFirst(t0);
    SecondFirstNext(o, a, b, c, |out| + 2, limit, t0);
    assert [c][..1] == [c] && out + [a, b] + [c] == out + [a, b, c];
    assert net.status(t0).None?;
    hide SecondFirst;
    StopsFetching(o, net, t0, [a, b], out, 1, limit, false, []);
    TwoBlocks(o, a, b, x, c);
    assert (out + [a, b, c])[|out| + 2] != (out + [a, b, x, c])[|out| + 2];
  }

  lemma TwoBlocks(o: Outline, a: Node, b: Node, x: Node, c: Node)
    requires Listing(o, a.id) == [x] && Listing(o, b.id) == [c]
    ensures Listed(o, [a, b], 1) == [a, b, x, c]
  {
    hide Listing;
    assert Ids([a, b]) == [a.id, b.id];
    assert [a.id, b.id][1..] == [b.id] && [b.id][1..] == [];
    assert Blocks(o, [b.id]) == [c];
    assert Blocks(o, [a.id, b.id]) == [x] + [c];
    ListedStep(o, [a, b], 1);
    ListedStep(o, [x, c], 0);
  }
}
