/** The public subtree fetch: the scope node or the workspace top level, then the walk, and
    what its report means. */
module SubtreeFetch {
  import opened Sequences
  import opened Outlines
  import opened LevelOrder
  import opened Network
  import opened WalkInvariant
  import opened WalkRuns
  import opened SkipLists
  import opened ReadPrefix
  import opened SubtreeWalk

  datatype Fetch = Fetch(
    nodes: seq<Node>,
    truncated: bool,
    limit: nat,
    reason: Option<Reason>,
    anchor: Option<Id>,
    skipped: seq<Id>)

  /** A walk either reports or fails because its scope could not be read at all. */
  datatype WalkResult = Walked(fetch: Fetch) | WalkFailed

  /** The level below the scope: a node's children or the workspace top level. */
  function FirstBelow(o: Outline, scope: Option<Node>): seq<Node> {
    match scope
    case Some(root) => Listing(o, root.id)
    case None => TopLevel(o)
  }

  function ScopePart(scope: Option<Node>): seq<Node> {
    match scope
    case Some(root) => [root]
    case None => []
  }

  /** The full answer: the scope node and the level-order listing below it. */
  function Canonical(o: Outline, scope: Option<Node>, d: nat): seq<Node> {
    ScopePart(scope) + Listed(o, FirstBelow(o, scope), d)
  }

  function CanonicalWithout(o: Outline, scope: Option<Node>, d: nat, s: set<Id>): seq<Node> {
    ScopePart(scope) + Pruned(o, FirstBelow(o, scope), d, s)
  }

  /** The cap cuts the full answer. Fetching a level counts a total equal to the cap as a cut;
      only a walk that fetches no level below the first may use the cap in full. */
  predicate CapBinds(o: Outline, scope: Option<Node>, d: nat, limit: nat) {
    || (scope.Some? && limit <= 1)
    || (FirstBelow(o, scope) != []
        && if d == 0 then |Canonical(o, scope, d)| > limit else |Canonical(o, scope, d)| >= limit)
  }

  ghost predicate IsStart(o: Outline, scope: Option<Node>, n: Node) {
    match scope
    case Some(root) => n == root
    case None => n in TopLevel(o)
  }

  /** The reported branches are all that is missing above the level where the walk stopped. */
  ghost predicate SkipsAccounted(o: Outline, scope: Option<Node>, d: nat, f: Fetch) {
    && ScopePart(scope) <= f.nodes
    && Accounted(o, FirstBelow(o, scope), d, f.nodes[|ScopePart(scope)|..], f.skipped)
  }

  /** The skip list: returned nodes, each once, and never the scope node. Unless the walk was cut, the
      returned nodes are exactly the listing without those branches; even if it was, a list that is
      reported is complete. */
  ghost predicate SkipsSound(o: Outline, scope: Option<Node>, d: nat, f: Fetch) {
    && (f.reason in {None, Some(SkippedBranches)} ==>
          f.nodes == CanonicalWithout(o, scope, d, SetOf(f.skipped)) && (f.reason.None? <==> f.skipped == []))
    && NoDup(f.skipped) && (forall x :: x in f.skipped ==> x in Ids(f.nodes))
    && (scope.Some? ==> scope.value.id !in f.skipped)
    && (f.skipped != [] ==> SkipsAccounted(o, scope, d, f))
  }

  /** The returned nodes: in canonical order without repeats, each with its parent, within the cap. */
  ghost predicate NodesSound(o: Outline, scope: Option<Node>, d: nat, limit: nat, f: Fetch) {
    && Subseq(f.nodes, Canonical(o, scope, d))
    && (forall n :: n in f.nodes ==>
          IsStart(o, scope, n) || (n.parent.Some? && n.parent.value in Ids(f.nodes)))
    && (limit >= 1 ==> |f.nodes| <= limit)
    && SkipsSound(o, scope, d, f)
    && (f.anchor.Some? ==> f.anchor.value in Ids(f.nodes) || (scope.Some? && f.anchor.value == scope.value.id))
  }

  /** The reported reason: present exactly when truncated, and true. */
  ghost predicate ReasonSound(o: Outline, net: Net, t: nat, scope: Option<Node>, d: nat, limit: nat, f: Fetch) {
    && f.limit == limit
    && (f.truncated <==> f.reason.Some?)
    && (f.reason.Some? && f.reason.value.Halted? ==> SawHalt(net, f.reason.value.halt, 0, t))
    && (f.skipped != [] ==> SawFailure(net, 0, t))
    && (f.reason == Some(NodeLimit) ==> CapBinds(o, scope, d, limit))
    && (f.reason.None? ==> !CapBinds(o, scope, d, limit) || SawFailure(net, 0, t))
  }

  lemma FirstBelowLevel(o: Outline, scope: Option<Node>)
    requires Forest(o)
    ensures FirstLevel(o, FirstBelow(o, scope))
  {
    match scope
    case Some(root) => ListingDepth(o, root.id);
    case None => TopLevelDepth(o);
  }

  /** The full answer repeats nothing. */
  lemma CanonicalDistinct(o: Outline, scope: Option<Node>, d: nat)
    requires Forest(o)
    ensures DistinctIds(Canonical(o, scope, d))
  {
    hide Listed;
    match scope
    case Some(root) =>
      RootNotBelow(o, root, d);
    case None =>
      TopLevelDepth(o);
      FirstLevelDistinct(o, TopLevel(o), d);
      assert [] + Listed(o, TopLevel(o), d) == Listed(o, TopLevel(o), d);
  }

  /** A fetch of depth zero answers with the scope node alone only if it has no children. */
  lemma DepthZeroExactly(o: Outline, root: Node)
    ensures Canonical(o, Some(root), 0) == [root] + Listing(o, root.id)
    ensures |Canonical(o, Some(root), 0)| == 1 <==> Listing(o, root.id) == []
  {
    hide Listing;
  }

  lemma TopLevelOrphans(o: Outline, n: Node)
    requires ParentsAgree(o) && n in TopLevel(o)
    ensures n.parent.None?
  {
    StableSortProps(Raw(o, WORKSPACE), PriorityKey);
    var i :| 0 <= i < |Raw(o, WORKSPACE)| && Raw(o, WORKSPACE)[i] == n;
  }

  /** From the walk's account of the levels below the scope to the report on the whole fetch. */
  lemma ReportNodes(o: Outline, scope: Option<Node>, d: nat, limit: nat, emitted: seq<Node>, out: seq<Node>,
                    r: Outcome)
    requires Forest(o) && Honest(o, FirstBelow(o, scope), d, emitted, r)
    requires out == ScopePart(scope) + emitted
    requires |out| <= limit || limit == 0
    requires r.skipped != [] ==> Accounted(o, FirstBelow(o, scope), d, emitted, r.skipped)
    ensures NodesSound(o, scope, d, limit, Fetch(out, r.reason.Some?, limit, r.reason, r.anchor, r.skipped))
  {
    hide Listed;
    hide Pruned;
    hide LevelKnown;
    hide AnchorKnown;
    hide FirstBelow;
    hide Accounted;
    hide Forest;
    hide NoDup;
    hide IsStart;
    hide Ids;
    hide Subseq;
    hide SkipsSound;
    hide SkippedKnown;
    SubseqRefl(ScopePart(scope));
    SubseqAppend(ScopePart(scope), ScopePart(scope), emitted, Listed(o, FirstBelow(o, scope), d));
    IdsAppend(ScopePart(scope), emitted);
    ParentsReturned(o, scope, emitted);
    ReportSkips(o, scope, d, limit, emitted, out, r);
    if r.anchor.Some? {
      AnchorReturned(o, scope, emitted, r.anchor);
    }
  }

  lemma ReportSkips(o: Outline, scope: Option<Node>, d: nat, limit: nat, emitted: seq<Node>, out: seq<Node>,
                    r: Outcome)
    requires Forest(o) && Honest(o, FirstBelow(o, scope), d, emitted, r)
    requires out == ScopePart(scope) + emitted
    requires r.skipped != [] ==> Accounted(o, FirstBelow(o, scope), d, emitted, r.skipped)
    ensures SkipsSound(o, scope, d, Fetch(out, r.reason.Some?, limit, r.reason, r.anchor, r.skipped))
  {
    hide Faithful;
    hide Pruned;
    hide AnchorKnown;
    hide FirstBelow;
    hide Accounted;
    hide Forest;
    hide NoDup;
    hide Ids;
    IdsAppend(ScopePart(scope), emitted);
    ScopeNotSkipped(o, scope, d, emitted, r);
    assert out[|ScopePart(scope)|..] == emitted;
  }

  lemma ScopeNotSkipped(o: Outline, scope: Option<Node>, d: nat, emitted: seq<Node>, r: Outcome)
    requires Forest(o) && Honest(o, FirstBelow(o, scope), d, emitted, r)
    ensures scope.Some? ==> scope.value.id !in r.skipped
  {
    hide Listing;
    hide Pruned;
    if scope.Some? {
      RootNotBelow(o, scope.value, d);
      var below := Listed(o, Listing(o, scope.value.id), d);
      IdsSubseq(emitted, below);
      SubseqMembers(Ids(emitted), Ids(below));
      hide Subseq;
      IdsAppend([scope.value], below);
      hide Listed;
      assert Ids([scope.value]) == [scope.value.id];
      hide Ids;
      FirstApart(scope.value.id, Ids(below));
    }
  }

  lemma FirstApart(x: Id, rest: seq<Id>)
    requires NoDup([x] + rest)
    ensures x !in rest
  {
    forall i | 0 <= i < |rest| ensures rest[i] != x {
      assert ([x] + rest)[0] == x && ([x] + rest)[i + 1] == rest[i];
    }
  }

  lemma ParentsReturned(o: Outline, scope: Option<Node>, emitted: seq<Node>)
    requires Forest(o) && LevelKnown(FirstBelow(o, scope), emitted, emitted)
    ensures forall n :: n in ScopePart(scope) + emitted ==>
              IsStart(o, scope, n)
              || (n.parent.Some? && n.parent.value in Ids(ScopePart(scope) + emitted))
  {
    hide Listing;
    hide TopLevel;
    IdsAppend(ScopePart(scope), emitted);
    forall n | n in ScopePart(scope) + emitted && n in emitted
      ensures IsStart(o, scope, n)
              || (n.parent.Some? && n.parent.value in Ids(ScopePart(scope) + emitted))
    {
      assert ParentKnown(FirstBelow(o, scope), emitted, n);
      if n in FirstBelow(o, scope) && scope.Some? {
        ListingMember(o, scope.value.id, n);
        assert Ids(ScopePart(scope))[0] == scope.value.id;
      }
    }
  }

  lemma AnchorReturned(o: Outline, scope: Option<Node>, emitted: seq<Node>, anchor: Option<Id>)
    requires Forest(o) && AnchorKnown(FirstBelow(o, scope), emitted, anchor) && anchor.Some?
    ensures anchor.value in Ids(emitted) || (scope.Some? && anchor.value == scope.value.id)
  {
    hide Listing;
    hide TopLevel;
    if anchor.value !in Ids(emitted) {
      var n :| n in FirstBelow(o, scope) && n.parent == anchor;
      match scope
      case Some(root) => ListingMember(o, root.id, n);
      case None => TopLevelOrphans(o, n);
    }
  }

  lemma ReportReason(o: Outline, net: Net, t0: nat, t: nat, scope: Option<Node>, d: nat, limit: nat,
                     emitted: seq<Node>, out: seq<Node>, r: Outcome)
    requires Settled(o, net, t0, t, FirstBelow(o, scope), ScopePart(scope), d, limit, emitted, out, r)
    requires scope.Some? ==> limit > 1
    ensures ReasonSound(o, net, t, scope, d, limit, Fetch(out, r.reason.Some?, limit, r.reason, r.anchor, r.skipped))
  {
    SawMono(net, 0, t0, t, t);
    hide SawHalt;
    hide SawFailure;
    hide Faithful;
    hide FirstBelow;
    if r.reason.None? {
      assert SetOf(r.skipped) == {};
      PrunedNothing(o, FirstBelow(o, scope), d);
      hide Pruned;
      hide Listed;
    } else if r.reason.value.NodeLimit? && d == 0 {
      assert Listed(o, FirstBelow(o, scope), 0) == FirstBelow(o, scope);
    }
  }

  /** Before the walk proper starts nothing but the scope node can have been returned. */
  lemma ReportEarly(o: Outline, scope: Option<Node>, d: nat, limit: nat, nodes: seq<Node>, reason: Reason,
                    anchor: Option<Id>)
    requires nodes == [] || (nodes == ScopePart(scope) && (limit >= 1 ==> |nodes| <= limit))
    requires !reason.SkippedBranches?
    requires anchor.Some? ==> scope.Some? && anchor.value == scope.value.id
    ensures NodesSound(o, scope, d, limit, Fetch(nodes, true, limit, Some(reason), anchor, []))
  {
    SubseqRefl(ScopePart(scope));
    SubseqExtend(ScopePart(scope), ScopePart(scope), Listed(o, FirstBelow(o, scope), d));
  }

  function ScopeId(scope: Option<Node>): Option<Id> {
    match scope
    case Some(root) => Some(root.id)
    case None => None
  }

  function Early(nodes: seq<Node>, limit: nat, reason: Reason, anchor: Option<Id>): WalkResult {
    Walked(Fetch(nodes, true, limit, Some(reason), anchor, []))
  }

  // ---------------------------------------------------------------------
  // The fetch as a function of the oracle
  // ---------------------------------------------------------------------

  /** How a fetch starts: the level below the scope arrives and the walk proper starts at a tick, or the
      fetch is over. */
  datatype Opening = Opened(t: nat) | Closed(r: WalkResult, t: nat)

  function OpeningFrom(net: Net, scope: Option<Node>, limit: nat): Opening {
    if net.status(0).Some? then Closed(Early([], limit, Halted(net.status(0).value), ScopeId(scope)), 1)
    else
      match scope
      case None => FirstReply(net, scope, limit, 1)
      case Some(root) =>
        match net.reply(1)
        case Aborted(h) => Closed(Early([], limit, Halted(h), Some(root.id)), 2)
        case Failed => Closed(WalkFailed, 2)
        case Delivered =>
          if 1 >= limit then Closed(Early([root], limit, NodeLimit, Some(root.id)), 2)
          else if net.status(2).Some? then
            Closed(Early([root], limit, Halted(net.status(2).value), Some(root.id)), 3)
          else FirstReply(net, scope, limit, 3)
  }

  function FirstReply(net: Net, scope: Option<Node>, limit: nat, t: nat): Opening {
    match net.reply(t)
    case Delivered => Opened(t + 1)
    case Aborted(h) => Closed(Early(ScopePart(scope), limit, Halted(h), ScopeId(scope)), t + 1)
    case Failed => Closed(WalkFailed, t + 1)
  }

  /** The walk proper of a fetch that starts it at tick t. */
  function WalkOf(o: Outline, net: Net, t: nat, scope: Option<Node>, d: nat, limit: nat, patient: bool): Run {
    WalkFrom(o, net, t, FirstBelow(o, scope), ScopePart(scope), d, limit, patient, [])
  }

  function Report(out: seq<Node>, outcome: Outcome, limit: nat): Fetch {
    Fetch(out, outcome.reason.Some? || outcome.skipped != [], limit, outcome.reason, outcome.anchor, outcome.skipped)
  }

  function FetchFrom(o: Outline, net: Net, scope: Option<Node>, d: nat, limit: nat, patient: bool): (WalkResult, nat) {
    match OpeningFrom(net, scope, limit)
    case Closed(r, t) => (r, t)
    case Opened(t) =>
      var run := WalkOf(o, net, t, scope, d, limit, patient);
      (Walked(Report(run.out, run.outcome, limit)), run.t)
  }

  lemma WalkedReport(o: Outline, net: Net, t0: nat, t: nat, scope: Option<Node>, d: nat, limit: nat, patient: bool,
                     out: seq<Node>, r: Outcome)
    requires OpeningFrom(net, scope, limit) == Opened(t0)
    requires Performed(o, net, t0, t, FirstBelow(o, scope), ScopePart(scope), d, limit, patient, out, r)
    ensures FetchFrom(o, net, scope, d, limit, patient) == (Walked(Report(out, r, limit)), t)
  {
    hide WalkFrom;
    hide Settled;
    hide Accounted;
    hide OpeningFrom;
  }

  /** Fetch a subtree down to maxDepth levels below the first, under the given controls. */
  method GetSubtree(o: Outline, net: Net, scope: Option<Node>, maxDepth: nat, limit: nat, patient: bool)
    returns (r: WalkResult, t: nat)
    requires Forest(o)
    ensures (r, t) == FetchFrom(o, net, scope, maxDepth, limit, patient)
    ensures r.Walked? ==> NodesSound(o, scope, maxDepth, limit, r.fetch)
    ensures r.Walked? ==> ReasonSound(o, net, t, scope, maxDepth, limit, r.fetch)
    ensures r.WalkFailed? ==> SawFailure(net, 0, t)
    ensures r.Walked? && !r.fetch.truncated ==> r.fetch.nodes == Canonical(o, scope, maxDepth)
    ensures r.Walked? ==> DistinctIds(r.fetch.nodes)
    ensures Quiet(net) ==> r.Walked? && (r.fetch.truncated <==> CapBinds(o, scope, maxDepth, limit))
  {
    hide Listing;
    hide TopLevel;
    hide Canonical;
    hide NodesSound;
    hide ReasonSound;
    hide CapBinds;
    hide FetchFrom;
    r, t := Attempt(o, net, scope, maxDepth, limit, patient);
    if r.Walked? {
      ReasonMatches(o, net, t, scope, maxDepth, limit, r.fetch);
      if !r.fetch.truncated {
        CompleteReport(o, scope, maxDepth, limit, r.fetch);
      }
      ReturnedDistinct(o, scope, maxDepth, limit, r.fetch);
      QuietReport(o, net, t, scope, maxDepth, limit, r.fetch);
    }
  }

  method Attempt(o: Outline, net: Net, scope: Option<Node>, maxDepth: nat, limit: nat, patient: bool)
    returns (r: WalkResult, t: nat)
    requires Forest(o)
    ensures (r, t) == FetchFrom(o, net, scope, maxDepth, limit, patient)
    ensures r.Walked? ==> NodesSound(o, scope, maxDepth, limit, r.fetch)
    ensures r.Walked? ==> ReasonSound(o, net, t, scope, maxDepth, limit, r.fetch)
    ensures r.WalkFailed? ==> SawFailure(net, 0, t)
  {
    hide Listing;
    hide TopLevel;
    hide Canonical;
    hide NodesSound;
    hide Settled;
    hide Performed;
    hide Accounted;
    hide FirstLevel;
    hide WalkOf;
    hide Honest;
    hide Forest;
    t := 1;
    if net.status(0).Some? {
      ReportEarly(o, scope, maxDepth, limit, [], Halted(net.status(0).value), ScopeId(scope));
      return Early([], limit, Halted(net.status(0).value), ScopeId(scope)), t;
    }
    if scope.Some? {
      t := t + 1;
      match net.reply(t - 1) {
        case Delivered =>
        case Aborted(h) =>
          ReportEarly(o, scope, maxDepth, limit, [], Halted(h), ScopeId(scope));
          return Early([], limit, Halted(h), ScopeId(scope)), t;
        case Failed =>
          return WalkFailed, t;
      }
      if 1 >= limit {
        ReportEarly(o, scope, maxDepth, limit, [scope.value], NodeLimit, ScopeId(scope));
        return Early([scope.value], limit, NodeLimit, ScopeId(scope)), t;
      }
      t := t + 1;
      if net.status(t - 1).Some? {
        ReportEarly(o, scope, maxDepth, limit, [scope.value], Halted(net.status(t - 1).value), ScopeId(scope));
        return Early([scope.value], limit, Halted(net.status(t - 1).value), ScopeId(scope)), t;
      }
    }
    t := t + 1;
    match net.reply(t - 1) {
      case Delivered =>
      case Aborted(h) =>
        ReportEarly(o, scope, maxDepth, limit, ScopePart(scope), Halted(h), ScopeId(scope));
        return Early(ScopePart(scope), limit, Halted(h), ScopeId(scope)), t;
      case Failed =>
        return WalkFailed, t;
    }
    var first;
    if scope.Some? {
      first := GetChildren(o, scope.value.id);
    } else {
      first := TopLevel(o);
    }
    FirstBelowLevel(o, scope);
    var out, outcome, t1 := FetchDescendants(o, net, t, first, ScopePart(scope), maxDepth, limit, patient);
    OutGrows(o, net, t, t1, first, ScopePart(scope), maxDepth, limit, patient, out, outcome);
    ghost var emitted := out[|ScopePart(scope)|..];
    PerformedParts(o, net, t, t1, first, ScopePart(scope), maxDepth, limit, patient, emitted, out, outcome);
    ReportNodes(o, scope, maxDepth, limit, emitted, out, outcome);
    ReportReason(o, net, t, t1, scope, maxDepth, limit, emitted, out, outcome);
    WalkedReport(o, net, t, t1, scope, maxDepth, limit, patient, out, outcome);
    t := t1;
    r := Walked(Report(out, outcome, limit));
  }

  lemma OutGrows(o: Outline, net: Net, t0: nat, t: nat, initial: seq<Node>, out0: seq<Node>, d: nat,
                 limit: nat, patient: bool, out: seq<Node>, r: Outcome)
    requires Performed(o, net, t0, t, initial, out0, d, limit, patient, out, r)
    ensures |out0| <= |out|
  {
  }

  lemma PerformedParts(o: Outline, net: Net, t0: nat, t: nat, initial: seq<Node>, out0: seq<Node>, d: nat,
                       limit: nat, patient: bool, emitted: seq<Node>, out: seq<Node>, r: Outcome)
    requires Performed(o, net, t0, t, initial, out0, d, limit, patient, out, r)
    requires |out0| <= |out| && emitted == out[|out0|..]
    ensures Settled(o, net, t0, t, initial, out0, d, limit, emitted, out, r)
    ensures Honest(o, initial, d, emitted, r)
    ensures out == out0 + emitted && t0 <= t && (|out0| <= limit ==> |out| <= limit)
    ensures r.skipped != [] ==> r.reason.Some?
    ensures r.skipped != [] ==> Accounted(o, initial, d, emitted, r.skipped)
  {
    hide WalkFrom;
    hide Accounted;
    ListKeptExactly(o, net, t0, initial, out0, d, limit, patient, []);
    SettledParts(o, net, t0, t, initial, out0, d, limit, emitted, out, r);
    hide Settled;
  }

  lemma SettledParts(o: Outline, net: Net, t0: nat, t: nat, initial: seq<Node>, out0: seq<Node>, d: nat,
                     limit: nat, emitted: seq<Node>, out: seq<Node>, r: Outcome)
    requires Settled(o, net, t0, t, initial, out0, d, limit, emitted, out, r)
    ensures Honest(o, initial, d, emitted, r)
    ensures out == out0 + emitted && t0 <= t && (|out0| <= limit ==> |out| <= limit)
    ensures r.skipped != [] ==> r.reason.Some?
  {
  }

  /** A walk reported complete returned the whole listing. */
  lemma CompleteReport(o: Outline, scope: Option<Node>, d: nat, limit: nat, f: Fetch)
    requires NodesSound(o, scope, d, limit, f) && f.reason.None?
    ensures f.nodes == Canonical(o, scope, d) && f.skipped == []
  {
    assert SetOf(f.skipped) == {};
    PrunedNothing(o, FirstBelow(o, scope), d);
  }

  lemma ReturnedDistinct(o: Outline, scope: Option<Node>, d: nat, limit: nat, f: Fetch)
    requires Forest(o) && NodesSound(o, scope, d, limit, f)
    ensures DistinctIds(f.nodes)
  {
    CanonicalDistinct(o, scope, d);
    hide Canonical;
    IdsSubseq(f.nodes, Canonical(o, scope, d));
    SubseqNoDup(Ids(f.nodes), Ids(Canonical(o, scope, d)));
  }

  lemma ReasonMatches(o: Outline, net: Net, t: nat, scope: Option<Node>, d: nat, limit: nat, f: Fetch)
    requires ReasonSound(o, net, t, scope, d, limit, f)
    ensures f.truncated <==> f.reason.Some?
  {
  }

  /** When nothing fails, is cancelled or expires, the walk is partial exactly when the cap binds. */
  lemma QuietReport(o: Outline, net: Net, t: nat, scope: Option<Node>, d: nat, limit: nat, f: Fetch)
    requires NodesSound(o, scope, d, limit, f) && ReasonSound(o, net, t, scope, d, limit, f)
    ensures Quiet(net) ==> (f.truncated <==> CapBinds(o, scope, d, limit))
  {
    hide Canonical;
    hide CapBinds;
    hide CanonicalWithout;
  }

  /** A returned node above the depth bound: the scope node, or one found above the last level. */
  ghost predicate AboveBound(o: Outline, scope: Option<Node>, d: nat, f: Fetch, n: Node) {
    scope == Some(n) || (d > 0 && n in Pruned(o, FirstBelow(o, scope), d - 1, SetOf(f.skipped)))
  }

  // ---------------------------------------------------------------------
  // Siblings come in display order
  // ---------------------------------------------------------------------

  lemma {:induction false} BlocksSiblings(o: Outline, ps: seq<Id>, i: nat, j: nat) returns (a: nat, b: nat)
    requires ParentsAgree(o) && NoDup(ps) && i < j < |Blocks(o, ps)|
    requires Blocks(o, ps)[i].parent == Blocks(o, ps)[j].parent
    ensures Blocks(o, ps)[i].parent.Some?
    ensures var siblings := Listing(o, Blocks(o, ps)[i].parent.value);
            a < b < |siblings| && siblings[a] == Blocks(o, ps)[i] && siblings[b] == Blocks(o, ps)[j]
  {
    hide Listing;
    var all, first, rest := Blocks(o, ps), Listing(o, ps[0]), Blocks(o, ps[1..]);
    var n, m := all[i], all[j];
    if i < |first| {
      ListingMember(o, ps[0], n);
      a, b := i, j;
      assert ps[0] !in ps[1..];
      if j >= |first| {
        assert m == rest[j - |first|];
        BlocksMembers(o, ps[1..], m);
      }
    } else {
      assert n == rest[i - |first|] && m == rest[j - |first|];
      a, b := BlocksSiblings(o, ps[1..], i - |first|, j - |first|);
    }
  }

  /** The parents whose listings make up the full answer below the scope. */
  function ListedParents(o: Outline, scope: Option<Node>, d: nat): seq<Id> {
    (match scope case Some(root) => [root.id] case None => [])
    + (if d == 0 then [] else Ids(Listed(o, FirstBelow(o, scope), d - 1)))
  }

  lemma ListedParentsDistinct(o: Outline, scope: Option<Node>, d: nat)
    requires Forest(o)
    ensures NoDup(ListedParents(o, scope, d))
  {
    hide Listed;
    hide Listing;
    hide TopLevel;
    if d > 0 {
      CanonicalDistinct(o, scope, d - 1);
      IdsAppend(ScopePart(scope), Listed(o, FirstBelow(o, scope), d - 1));
      if scope.Some? {
        assert Ids([scope.value]) == [scope.value.id];
      }
    }
  }

  lemma SiblingsUnder(o: Outline, ps: seq<Id>, i: nat, j: nat)
    requires ParentsAgree(o) && NoDup(ps) && (forall p :: p in o ==> Wired(o[p])) && i < j < |Blocks(o, ps)|
    requires Blocks(o, ps)[i].parent == Blocks(o, ps)[j].parent
    ensures Blocks(o, ps)[i].parent.Some? && NotAfter(Blocks(o, ps)[i], Blocks(o, ps)[j])
  {
    hide Blocks;
    hide Listing;
    hide NotAfter;
    var a, b := BlocksSiblings(o, ps, i, j);
    InListing(o, Blocks(o, ps)[i].parent.value, a, b);
  }

  lemma SiblingsAtTop(o: Outline, below: seq<Id>, i: nat, j: nat)
    requires ParentsAgree(o) && NoDup(below) && (forall p :: p in o ==> Wired(o[p]))
    requires i < j < |TopLevel(o) + Blocks(o, below)|
    requires (TopLevel(o) + Blocks(o, below))[i].parent == (TopLevel(o) + Blocks(o, below))[j].parent
    ensures NotAfter((TopLevel(o) + Blocks(o, below))[i], (TopLevel(o) + Blocks(o, below))[j])
  {
    hide Blocks;
    hide TopLevel;
    hide NotAfter;
    hide Listing;
    var first, rest := TopLevel(o), Blocks(o, below);
    if i >= |first| {
      SiblingsUnder(o, below, i - |first|, j - |first|);
    } else {
      assert first[i] in first;
      TopLevelOrphans(o, first[i]);
      if j < |first| {
        InTopLevel(o, i, j);
      } else {
        assert rest[j - |first|] in rest;
        BlocksMembers(o, below, rest[j - |first|]);
      }
    }
  }

  lemma CanonicalBlocks(o: Outline, scope: Option<Node>, d: nat)
    ensures scope.Some? ==> Canonical(o, scope, d) == [scope.value] + Blocks(o, ListedParents(o, scope, d))
    ensures scope.None? ==> Canonical(o, scope, d) == TopLevel(o) + Blocks(o, ListedParents(o, scope, d))
  {
    hide Listed;
    hide Listing;
    hide TopLevel;
    hide Blocks;
    var first := FirstBelow(o, scope);
    ListedByParents(o, first, d);
    match scope
    case Some(root) =>
      BlocksAppend(o, [root.id], Parents(o, first, d));
      OneBlock(o, root.id);
      assert Listed(o, first, d) == Blocks(o, ListedParents(o, scope, d));
    case None =>
      assert first == TopLevel(o);
      assert Parents(o, first, d) == ListedParents(o, scope, d);
      assert Canonical(o, scope, d) == Listed(o, first, d);
  }

  /** Of two nodes of the full answer with one parent, the earlier is displayed before the later. */
  lemma CanonicalSiblings(o: Outline, scope: Option<Node>, d: nat, i: nat, j: nat)
    requires Forest(o) && (forall p :: p in o ==> Wired(o[p]))
    requires |ScopePart(scope)| <= i < j < |Canonical(o, scope, d)|
    requires Canonical(o, scope, d)[i].parent == Canonical(o, scope, d)[j].parent
    ensures NotAfter(Canonical(o, scope, d)[i], Canonical(o, scope, d)[j])
  {
    hide Canonical;
    hide ListedParents;
    hide TopLevel;
    hide Blocks;
    hide NotAfter;
    var ps := ListedParents(o, scope, d);
    CanonicalBlocks(o, scope, d);
    ListedParentsDistinct(o, scope, d);
    match scope
    case Some(root) => SiblingsUnder(o, ps, i - 1, j - 1);
    case None => SiblingsAtTop(o, ps, i, j);
  }

  lemma OneBlock(o: Outline, p: Id)
    ensures Blocks(o, [p]) == Listing(o, p)
  {
    assert Blocks(o, [p][1..]) == [];
  }

  lemma InListing(o: Outline, p: Id, a: nat, b: nat)
    requires (forall q :: q in o ==> Wired(o[q])) && a < b < |Listing(o, p)|
    ensures NotAfter(Listing(o, p)[a], Listing(o, p)[b])
  {
    hide Listing;
    ListingDisplayed(o, p);
    assert p in o && Wired(o[p]);
    var at :| Displays(o[p], Some(p), Listing(o, p), at);
  }

  lemma InTopLevel(o: Outline, a: nat, b: nat)
    requires (forall q :: q in o ==> Wired(o[q])) && a < b < |TopLevel(o)|
    ensures NotAfter(TopLevel(o)[a], TopLevel(o)[b])
  {
    hide TopLevel;
    TopLevelDisplayed(o);
    assert WORKSPACE in o && Wired(o[WORKSPACE]);
    var at :| Displays(o[WORKSPACE], None, TopLevel(o), at);
  }

  /** However the fetch ended, of two returned siblings the one without a priority, or with the smaller
      one, comes first. */
  lemma SiblingsDisplayed(o: Outline, scope: Option<Node>, d: nat, limit: nat, f: Fetch, i: nat, j: nat)
    requires Forest(o) && (forall p :: p in o ==> Wired(o[p])) && NodesSound(o, scope, d, limit, f)
    requires i < j < |f.nodes| && f.nodes[i].parent == f.nodes[j].parent
    requires scope.Some? ==> f.nodes[i] != scope.value
    ensures NotAfter(f.nodes[i], f.nodes[j])
  {
    var x, y := SubseqPositions(f.nodes, Canonical(o, scope, d), i, j);
    CanonicalSiblings(o, scope, d, x, y);
  }

  /** Coverage of a walk that was not cut: a node above the depth bound has each of its
      children returned, unless it is reported as a dropped branch, and then none. The scope node is
      never a dropped branch. */
  lemma Coverage(o: Outline, scope: Option<Node>, d: nat, limit: nat, f: Fetch, n: Node, m: Node)
    requires Forest(o) && NodesSound(o, scope, d, limit, f)
    requires f.reason in {None, Some(SkippedBranches)}
    requires AboveBound(o, scope, d, f, n) && m in Listing(o, n.id)
    ensures n in f.nodes
    ensures m in f.nodes <==> n.id !in f.skipped
    ensures scope == Some(n) ==> n.id !in f.skipped
  {
    hide Listing;
    hide TopLevel;
    hide Pruned;
    hide NodesSound;
    hide Forest;
    if scope == Some(n) {
      ScopeCovered(o, n, d, limit, f, m);
    } else {
      WholeReport(o, scope, d, limit, f);
      CoverageBelow(o, scope, d, f, n, m);
    }
  }

  lemma ScopeCovered(o: Outline, root: Node, d: nat, limit: nat, f: Fetch, m: Node)
    requires Forest(o) && NodesSound(o, Some(root), d, limit, f)
    requires f.reason in {None, Some(SkippedBranches)} && m in Listing(o, root.id)
    ensures root in f.nodes && m in f.nodes && root.id !in f.skipped
  {
    hide Listing;
    hide Pruned;
    InPruned(o, Listing(o, root.id), d, SetOf(f.skipped), m);
    assert f.nodes[0] == root;
  }

  /** A skip list that is reported is complete, wherever the walk stopped: no child of a listed branch is
      returned, and a returned node has each child returned exactly when it is not in the list, as soon
      as anything deeper than the child is returned. */
  lemma ReportedSkipsComplete(o: Outline, scope: Option<Node>, d: nat, limit: nat, f: Fetch, rank: map<Id, nat>,
                              n: Node, m: Node)
    requires Forest(o) && Ranked(o, rank) && NodesSound(o, scope, d, limit, f) && f.skipped != []
    requires n in f.nodes && m in Listing(o, n.id)
    ensures m.id in rank
    ensures n.id in f.skipped ==> m !in f.nodes
    ensures forall z :: z in f.nodes && z.id in rank && rank[z.id] > rank[m.id] ==>
              (m in f.nodes <==> n.id !in f.skipped)
  {
    hide Listing;
    hide TopLevel;
    hide AccountedAt;
    hide AtDepth;
    var first := FirstBelow(o, scope);
    var emitted, k := AccountedParts(o, scope, d, limit, f);
    var r := ScopeDepth(o, scope, rank);
    hide NodesSound;
    if n in emitted {
      DroppedExplains(o, first, k, emitted, f.skipped, rank, r, n, m);
    } else {
      ScopeExplains(o, n, k, emitted, f.skipped, rank, r, m);
    }
  }

  lemma SkipsParts(o: Outline, scope: Option<Node>, d: nat, limit: nat, f: Fetch)
    requires NodesSound(o, scope, d, limit, f) && f.skipped != []
    ensures SkipsAccounted(o, scope, d, f) && (scope.Some? ==> scope.value.id !in f.skipped)
  {
    hide SkipsAccounted;
    hide CanonicalWithout;
    hide Canonical;
    hide IsStart;
    hide Subseq;
  }

  lemma AccountedParts(o: Outline, scope: Option<Node>, d: nat, limit: nat, f: Fetch)
    returns (emitted: seq<Node>, k: nat)
    requires NodesSound(o, scope, d, limit, f) && f.skipped != []
    ensures f.nodes == ScopePart(scope) + emitted && AccountedAt(o, FirstBelow(o, scope), k, emitted, f.skipped)
    ensures scope.Some? ==> scope.value.id !in f.skipped
  {
    hide AccountedAt;
    hide FirstBelow;
    SkipsParts(o, scope, d, limit, f);
    hide NodesSound;
    emitted := f.nodes[|ScopePart(scope)|..];
    k :| k <= d && AccountedAt(o, FirstBelow(o, scope), k, emitted, f.skipped);
  }

  lemma ScopeExplains(o: Outline, root: Node, k: nat, emitted: seq<Node>, dropped: seq<Id>, rank: map<Id, nat>, r: nat,
                      m: Node)
    requires ParentsAgree(o) && Ranked(o, rank) && AtDepth(Listing(o, root.id), rank, r)
    requires AccountedAt(o, Listing(o, root.id), k, emitted, dropped) && m in Listing(o, root.id)
    ensures m.id in rank && rank[m.id] == r
    ensures forall z :: z in emitted && z.id in rank && rank[z.id] > rank[m.id] ==> m in emitted
  {
    hide Listing;
    hide Pruned;
    var first, s := Listing(o, root.id), SetOf(dropped);
    SubseqMembers(emitted, Pruned(o, first, k, s));
    hide Subseq;
    forall z | z in emitted && z.id in rank && rank[z.id] > rank[m.id] ensures m in emitted {
      PrunedRank(o, first, k, s, rank, r, z);
      InPruned(o, first, k - 1, s, m);
      assert m in Above(o, first, k, s);
    }
  }

  /** The depth of the level below the scope. */
  lemma ScopeDepth(o: Outline, scope: Option<Node>, rank: map<Id, nat>) returns (r: nat)
    requires Forest(o) && Ranked(o, rank)
    ensures AtDepth(FirstBelow(o, scope), rank, r)
    ensures scope.Some? && scope.value.id in rank ==> r == rank[scope.value.id] + 1
  {
    match scope
    case Some(root) =>
      if Listing(o, root.id) != [] {
        ChildrenRank(o, root.id, rank);
      }
      r := if root.id in rank then rank[root.id] + 1 else 0;
    case None =>
      r := if WORKSPACE in rank then rank[WORKSPACE] + 1 else 0;
      TopRank(o, rank, r);
  }

  lemma TopRank(o: Outline, rank: map<Id, nat>, r: nat)
    requires Ranked(o, rank) && (WORKSPACE in rank ==> r == rank[WORKSPACE] + 1)
    ensures AtDepth(TopLevel(o), rank, r)
  {
    var raw := Raw(o, WORKSPACE);
    StableSortProps(raw, PriorityKey);
    PermutationMembers(raw, TopLevel(o));
  }

  lemma CoverageBelow(o: Outline, scope: Option<Node>, d: nat, f: Fetch, n: Node, m: Node)
    requires Forest(o) && f.nodes == CanonicalWithout(o, scope, d, SetOf(f.skipped))
    requires d > 0 && n in Pruned(o, FirstBelow(o, scope), d - 1, SetOf(f.skipped)) && m in Listing(o, n.id)
    ensures n in f.nodes
    ensures m in f.nodes <==> n.id !in f.skipped
  {
    hide Pruned;
    hide Listing;
    hide TopLevel;
    hide FirstBelow;
    hide FirstLevel;
    hide Forest;
    hide ParentsAgree;
    var first, s := FirstBelow(o, scope), SetOf(f.skipped);
    FirstBelowLevel(o, scope);
    PrunedCoverage(o, first, d, s, n, m);
    PrunedMonotone(o, first, d - 1, d, s);
    NotTheScope(o, scope, d, s, n, m);
    InParts(scope, Pruned(o, first, d - 1, s), Pruned(o, first, d, s), n);
    InParts(scope, [], Pruned(o, first, d, s), m);
  }

  lemma InParts(scope: Option<Node>, few: seq<Node>, below: seq<Node>, n: Node)
    requires few <= below
    ensures n in few ==> n in below
    ensures n in ScopePart(scope) + below <==> scope == Some(n) || n in below
  {
    assert n in ScopePart(scope) <==> scope == Some(n);
  }

  lemma WholeReport(o: Outline, scope: Option<Node>, d: nat, limit: nat, f: Fetch)
    requires NodesSound(o, scope, d, limit, f) && f.reason in {None, Some(SkippedBranches)}
    ensures f.nodes == CanonicalWithout(o, scope, d, SetOf(f.skipped))
  {
  }

  lemma NotTheScope(o: Outline, scope: Option<Node>, d: nat, s: set<Id>, n: Node, m: Node)
    requires Forest(o) && d > 0 && m in Listing(o, n.id)
    requires n in Pruned(o, FirstBelow(o, scope), d - 1, s)
    ensures scope.Some? ==> m != scope.value
  {
    if scope.Some? {
      ScopeShallow(o, scope.value, d, s, n, m);
    }
  }

  lemma ScopeShallow(o: Outline, root: Node, d: nat, s: set<Id>, n: Node, m: Node)
    requires Forest(o) && d > 0 && m in Listing(o, n.id)
    requires n in Pruned(o, Listing(o, root.id), d - 1, s)
    ensures m != root
  {
    hide Listing;
    hide Pruned;
    var first := Listing(o, root.id);
    var rank :| Ranked(o, rank);
    if first == [] {
      EmptyPruned(o, d - 1, s);
    } else {
      ChildrenRank(o, root.id, rank);
      PrunedDepth(o, first, d - 1, s, rank, rank[root.id] + 1, n);
      ChildrenRank(o, n.id, rank);
    }
  }

  lemma ChildrenRank(o: Outline, p: Id, rank: map<Id, nat>)
    requires ParentsAgree(o) && Ranked(o, rank) && Listing(o, p) != []
    ensures p in rank && AtDepth(Listing(o, p), rank, rank[p] + 1)
  {
    hide Listing;
    var first := Listing(o, p);
    forall c | c in first ensures p in rank && c.id in rank && rank[c.id] == rank[p] + 1 {
      ListingMember(o, p, c);
    }
    assert first[0] in first;
  }
}
