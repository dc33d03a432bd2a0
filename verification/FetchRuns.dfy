/** What a whole fetch returns against the full answer, run by run. */
module FetchRuns {
  import opened Sequences
  import opened Outlines
  import opened LevelOrder
  import opened Network
  import opened WalkInvariant
  import opened WalkRuns
  import opened ReadPrefix
  import opened StoppedWalks
  import opened SubtreeFetch

  /** However a fetch ends, the nodes it returns are a prefix of the full answer exactly when they end
      before the children of the first parent that was dropped, or left undelivered, and has any. A
      fetch that ends before its walk starts returns a prefix. */
  lemma FetchPrefixExactly(o: Outline, net: Net, scope: Option<Node>, d: nat, limit: nat, patient: bool)
    requires Forest(o)
    ensures var r := FetchFrom(o, net, scope, d, limit, patient).0;
            match OpeningFrom(net, scope, limit)
            case Closed(_, _) => r.Walked? ==> r.fetch.nodes <= Canonical(o, scope, d)
            case Opened(t) =>
              var run := WalkOf(o, net, t, scope, d, limit, patient);
              var lost := SetOf(run.dropped + run.undelivered);
              && r.Walked?
              && (r.fetch.nodes <= Canonical(o, scope, d)
                  <==> |r.fetch.nodes| <= |ScopePart(scope)| + BeforeLoss(o, FirstBelow(o, scope), d, lost))
  {
    hide WalkFrom;
    hide BeforeLoss;
    hide Listed;
    hide FirstBelow;
    hide Forest;
    hide FirstLevel;
    hide SetOf;
    FirstBelowLevel(o, scope);
    match OpeningFrom(net, scope, limit)
    case Closed(r, _) =>
      ClosedReturns(net, scope, limit);
    case Opened(t) =>
      StoppedPrefixExactly(o, net, t, FirstBelow(o, scope), ScopePart(scope), d, limit, patient);
  }

  lemma ClosedReturns(net: Net, scope: Option<Node>, limit: nat)
    requires OpeningFrom(net, scope, limit).Closed?
    ensures var r := OpeningFrom(net, scope, limit).r;
            r.Walked? ==> r.fetch.nodes == [] || r.fetch.nodes == ScopePart(scope)
  {
  }

  /** The tick at which the walk proper starts when all went well before. */
  function Begin(scope: Option<Node>): nat {
    if scope.Some? then 4 else 2
  }

  lemma Begins(net: Net, scope: Option<Node>, limit: nat)
    requires forall k: nat :: k < Begin(scope) ==> net.reply(k).Delivered? && net.status(k).None?
    requires limit > 1
    ensures OpeningFrom(net, scope, limit) == Opened(Begin(scope))
  {
  }

  /** A fetch that drops a branch and reports none. */
  lemma FetchLosesList(o: Outline, scope: Option<Node>, a: Node, b: Node, c: Node, limit: nat)
    requires FirstBelow(o, scope) == [a, b] && Listing(o, b.id) == [c] && limit >= |ScopePart(scope)| + 4
    ensures var net, t0 := FailFirst(Begin(scope)), Begin(scope);
            && FetchFrom(o, net, scope, 2, limit, false)
               == (Walked(Fetch(ScopePart(scope) + [a, b, c], true, limit, Some(Halted(Cancelled)), c.parent, [])), t0 + 9)
            && OpeningFrom(net, scope, limit) == Opened(t0)
            && WalkOf(o, net, t0, scope, 2, limit, false).dropped == [a.id]
  {
    hide Listing;
    hide FirstBelow;
    hide WalkFrom;
    Begins(FailFirst(Begin(scope)), scope, limit);
    hide OpeningFrom;
    LostSkipList(o, a, b, c, ScopePart(scope), limit, Begin(scope));
  }

  /** A cancelled fetch whose nodes are no prefix of the full answer. */
  lemma FetchOutOfOrder(o: Outline, scope: Option<Node>, a: Node, b: Node, x: Node, c: Node, limit: nat)
    requires FirstBelow(o, scope) == [a, b] && Listing(o, a.id) == [x] && Listing(o, b.id) == [c] && x != c
    requires limit >= |ScopePart(scope)| + 4
    ensures var r := FetchFrom(o, SecondFirst(Begin(scope)), scope, 1, limit, false).0;
            && r.Walked? && r.fetch.nodes == ScopePart(scope) + [a, b, c]
            && Canonical(o, scope, 1) == ScopePart(scope) + [a, b, x, c]
            && !(r.fetch.nodes <= Canonical(o, scope, 1))
  {
    hide Listing;
    hide FirstBelow;
    hide WalkFrom;
    hide Listed;
    Begins(SecondFirst(Begin(scope)), scope, limit);
    hide OpeningFrom;
    StoppedOutOfOrder(o, a, b, x, c, ScopePart(scope), limit, Begin(scope));
  }
}
