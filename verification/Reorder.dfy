/** Reordering children by reverse moves to the head. */
module Reorder {
  import opened Sequences
  import opened Outlines

  const MAX_REORDER_NODES := 200

  /** The ordered children of each node. */
  type Order = map<Id, seq<Id>>

  datatype MoveAnswer = MoveAnswer(cancelled: bool, expired: bool, reply: WriteReply)

  datatype Entry = Ok | Error | Skipped

  datatype ReorderOutcome =
    | InvalidInput
    | Complete(attempted: nat, succeeded: nat, failed: nat, results: seq<Entry>)
    | Partial(cancelled: bool, attempted: nat, succeeded: nat, failed: nat, skipped: nat, results: seq<Entry>)

  /** The server's move to priority zero: out of wherever the node was, in at the head of p. */
  function MoveToHead(s: Order, p: Id, id: Id): Order {
    map q | q in s :: if q == p then [id] + Except(s[q], {id}) else Except(s[q], {id})
  }

  function Listed(ids: seq<Id>): set<Id> {
    set x | x in ids
  }

  /** The given ids gathered at the head of p in order, everything else as it was. */
  function Placed(s: Order, p: Id, ids: seq<Id>): Order {
    map q | q in s :: if q == p then ids + Except(s[q], Listed(ids)) else Except(s[q], Listed(ids))
  }

  lemma {:induction false} ExceptAppend(a: seq<Id>, b: seq<Id>, s: set<Id>)
    ensures Except(a + b, s) == Except(a, s) + Except(b, s)
  {
    if a == [] {
      assert a + b == b;
    } else {
      assert (a + b)[1..] == a[1..] + b;
      ExceptAppend(a[1..], b, s);
    }
  }

  lemma {:induction false} ExceptTwice(a: seq<Id>, s: set<Id>, t: set<Id>)
    ensures Except(Except(a, s), t) == Except(a, s + t)
  {
    if a != [] {
      ExceptTwice(a[1..], s, t);
    }
  }

  lemma {:induction false} ExceptAll(a: seq<Id>, s: set<Id>)
    requires forall x :: x in a ==> x in s
    ensures Except(a, s) == []
  {
    if a != [] {
      ExceptAll(a[1..], s);
    }
  }

  lemma ListedMore(ids: seq<Id>, id: Id)
    ensures Listed([id] + ids) == Listed(ids) + {id}
  {
  }

  lemma HeadStep(was: seq<Id>, ids: seq<Id>, id: Id)
    requires id !in ids
    ensures [id] + Except(ids + Except(was, Listed(ids)), {id}) == ([id] + ids) + Except(was, Listed([id] + ids))
  {
    hide Except;
    ListedMore(ids, id);
    ExceptTwice(was, Listed(ids), {id});
    ExceptAppend(ids, Except(was, Listed(ids)), {id});
    ExceptNothing(ids, {id});
    hide Listed;
    assert [id] + (ids + Except(was, Listed([id] + ids))) == ([id] + ids) + Except(was, Listed([id] + ids));
  }

  /** One more move to the head extends the placed ids at their front. */
  lemma PlacedStep(s: Order, p: Id, ids: seq<Id>, id: Id)
    requires id !in ids
    ensures MoveToHead(Placed(s, p, ids), p, id) == Placed(s, p, [id] + ids)
  {
    hide Except;
    assert Listed([id] + ids) == Listed(ids) + {id};
    forall q | q in s ensures MoveToHead(Placed(s, p, ids), p, id)[q] == Placed(s, p, [id] + ids)[q] {
      ExceptTwice(s[q], Listed(ids), {id});
      HeadStep(s[q], ids, id);
    }
  }

  /** Placing more ids over a partial placement of some of them is placing them all at once. */
  lemma PlacedAgain(s: Order, p: Id, some: seq<Id>, ids: seq<Id>)
    requires forall x :: x in some ==> x in ids
    ensures Placed(Placed(s, p, some), p, ids) == Placed(s, p, ids)
  {
    hide Except;
    assert Listed(some) + Listed(ids) == Listed(ids);
    forall q | q in s ensures Placed(Placed(s, p, some), p, ids)[q] == Placed(s, p, ids)[q] {
      ExceptTwice(s[q], Listed(some), Listed(ids));
      if q == p {
        ExceptAppend(some, Except(s[q], Listed(some)), Listed(ids));
        ExceptAll(some, Listed(ids));
        assert [] + Except(s[q], Listed(ids)) == Except(s[q], Listed(ids));
      }
    }
  }

  lemma NothingPlaced(s: Order, p: Id)
    ensures Placed(s, p, []) == s
  {
    forall q | q in s ensures Placed(s, p, [])[q] == s[q] {
      ExceptNothing(s[q], Listed([]));
    }
  }

  // ---------------------------------------------------------------------
  // The run
  // ---------------------------------------------------------------------

  predicate ValidRequest(p: Id, ids: seq<Id>) {
    && 0 < |ids| <= MAX_REORDER_NODES
    && (forall i, j :: 0 <= i < j < |ids| ==> ids[i] != ids[j])
    && p !in ids
  }

  lemma RequestIs(p: Id, ids: seq<Id>)
    ensures ValidRequest(p, ids) <==> ids != [] && |ids| <= 200 && p !in ids && NoDup(ids)
  {
  }

  /** The lowest position reached before a cancellation or expiry, walking down from k. */
  function Reach(ans: nat -> MoveAnswer, k: nat): (b: nat)
    ensures b <= k
  {
    if k == 0 || ans(k - 1).cancelled || ans(k - 1).expired then k else Reach(ans, k - 1)
  }

  /** The ids from position b on whose move landed. */
  function Landed(ids: seq<Id>, ans: nat -> MoveAnswer, b: nat): (r: seq<Id>)
    requires b <= |ids|
    ensures forall x :: x in r ==> x in ids[b..]
    decreases |ids| - b
  {
    if b == |ids| then []
    else (if ans(b).reply.Refused? then [] else [ids[b]]) + Landed(ids, ans, b + 1)
  }

  /** What a run leaves behind: the landed ids in request order at the head of p. */
  function AfterRun(s: Order, p: Id, ids: seq<Id>, ans: nat -> MoveAnswer): Order {
    DownTo(s, p, ids, ans, Reach(ans, |ids|))
  }

  /** What the moves from position k on leave behind. */
  function DownTo(s: Order, p: Id, ids: seq<Id>, ans: nat -> MoveAnswer, k: nat): Order
    requires k <= |ids|
  {
    if p in s then Placed(s, p, Landed(ids, ans, k)) else s
  }

  lemma DownToStep(s: Order, p: Id, ids: seq<Id>, ans: nat -> MoveAnswer, k: nat)
    requires k < |ids| && ValidRequest(p, ids)
    ensures DownTo(s, p, ids, ans, k)
            == if p in s && !ans(k).reply.Refused? then MoveToHead(DownTo(s, p, ids, ans, k + 1), p, ids[k])
               else DownTo(s, p, ids, ans, k + 1)
  {
    hide Placed;
    hide MoveToHead;
    Disjoint(p, ids, ans, k);
    hide ValidRequest;
    PlacedStep(s, p, Landed(ids, ans, k + 1), ids[k]);
    assert [] + Landed(ids, ans, k + 1) == Landed(ids, ans, k + 1);
  }

  function EntryOf(s: Order, p: Id, a: MoveAnswer): Entry {
    if p in s && a.reply.Acked? then Ok else Error
  }

  function Results(s: Order, p: Id, n: nat, ans: nat -> MoveAnswer, b: nat): (r: seq<Entry>)
    ensures |r| == n
    ensures forall i :: 0 <= i < n ==> r[i] == if i < b then Skipped else EntryOf(s, p, ans(i))
  {
    seq(n, i requires 0 <= i < n => if i < b then Skipped else EntryOf(s, p, ans(i)))
  }

  function CountOk(r: seq<Entry>, lo: nat): (c: nat)
    requires lo <= |r|
    ensures c <= |r| - lo
    decreases |r| - lo
  {
    if lo == |r| then 0 else (if r[lo].Ok? then 1 else 0) + CountOk(r, lo + 1)
  }

  method CheckRequest(p: Id, ids: seq<Id>) returns (ok: bool)
    ensures ok <==> ValidRequest(p, ids)
  {
    if |ids| == 0 || |ids| > MAX_REORDER_NODES {
      return false;
    }
    var seen: set<Id> := {};
    var i := 0;
    while i < |ids|
      invariant i <= |ids| && seen == Listed(ids[..i])
      invariant forall a, b :: 0 <= a < b < i ==> ids[a] != ids[b]
      invariant p !in ids[..i]
    {
      assert ids[..i + 1] == ids[..i] + [ids[i]];
      if ids[i] in seen {
        var j :| 0 <= j < i && ids[j] == ids[i];
        return false;
      }
      if ids[i] == p {
        return false;
      }
      seen := seen + {ids[i]};
      i := i + 1;
    }
    assert ids[..|ids|] == ids;
    return true;
  }

  lemma RunStart(s: Order, p: Id, ids: seq<Id>, ans: nat -> MoveAnswer)
    ensures DownTo(s, p, ids, ans, |ids|) == s
    ensures forall b: nat :: CountOk(Results(s, p, |ids|, ans, b), |ids|) == 0
  {
    NothingPlaced(s, p);
  }

  lemma CountStep(s: Order, p: Id, n: nat, ans: nat -> MoveAnswer, b: nat, k: nat)
    requires b <= k < n
    ensures CountOk(Results(s, p, n, ans, b), k)
            == CountOk(Results(s, p, n, ans, b), k + 1) + if p in s && ans(k).reply.Acked? then 1 else 0
  {
  }

  /** The reverse walk: one move to the head per id, recording what became of it. */
  method MoveAll(s0: Order, p: Id, ids: seq<Id>, ans: nat -> MoveAnswer, results: array<Option<Entry>>)
    returns (s: Order, succeeded: nat, failed: nat, bailed: Option<bool>)
    requires ValidRequest(p, ids) && results.Length == |ids|
    requires forall i :: 0 <= i < results.Length ==> results[i] == None
    modifies results
    ensures s == AfterRun(s0, p, ids, ans)
    ensures var b := Reach(ans, |ids|);
            && (forall i :: 0 <= i < |ids| ==> results[i] == if i < b then None else Some(EntryOf(s0, p, ans(i))))
            && succeeded == CountOk(Results(s0, p, |ids|, ans, b), b) && succeeded + failed == |ids| - b
            && bailed == if b == 0 then None else Some(ans(b - 1).cancelled)
  {
    hide ValidRequest;
    hide DownTo;
    hide Results;
    hide CountOk;
    RunStart(s0, p, ids, ans);
    var n := |ids|;
    s, succeeded, failed, bailed := s0, 0, 0, None;
    ghost var b := Reach(ans, n);
    var k := n;
    while k > 0 && bailed.None?
      invariant b <= k <= n
      invariant if bailed.None? then Reach(ans, k) == b else k == b && k > 0 && bailed.value == ans(k - 1).cancelled
      invariant s == DownTo(s0, p, ids, ans, k)
      invariant forall i :: 0 <= i < n ==> results[i] == if i < k then None else Some(EntryOf(s0, p, ans(i)))
      invariant succeeded == CountOk(Results(s0, p, n, ans, b), k) && succeeded + failed == n - k
      decreases k, bailed.None?
    {
      var a := ans(k - 1);
      if a.cancelled {
        bailed := Some(true);
      } else if a.expired {
        bailed := Some(false);
      } else {
        k := k - 1;
        DownToStep(s0, p, ids, ans, k);
        CountStep(s0, p, n, ans, b, k);
        if p in s0 && !a.reply.Refused? {
          s := MoveToHead(s, p, ids[k]);
        }
        if p in s0 && a.reply.Acked? {
          results[k] := Some(Ok);
          succeeded := succeeded + 1;
        } else {
          results[k] := Some(Error);
          failed := failed + 1;
        }
      }
    }
  }

  // ---------------------------------------------------------------------
  // The run in the caller's terms
  // ---------------------------------------------------------------------

  /** Walking down from the last position, the run stops above the first that finds it cancelled or
      expired: b is the last position reached. */
  ghost predicate StopsAt(ans: nat -> MoveAnswer, n: nat, b: nat) {
    && b <= n && (forall i :: b <= i < n ==> !ans(i).cancelled && !ans(i).expired)
    && (b > 0 ==> ans(b - 1).cancelled || ans(b - 1).expired)
  }

  /** moved are the ids from position b on whose move was not refused, in request order. They head p's
      children; the others keep their order, and every other list only loses them. */
  ghost predicate Gathers(s0: Order, s: Order, p: Id, ids: seq<Id>, ans: nat -> MoveAnswer, b: nat, moved: seq<Id>) {
    && Subseq(moved, ids) && s.Keys == s0.Keys && p in s0 && moved <= s[p]
    && (forall x :: x in moved <==> Lands(ids, ans, b, x))
    && forall q :: q in s ==> Keeps(s0[q], if q == p then s[q][|moved|..] else s[q], moved)
  }

  /** From position b on the id is asked for, and its move is not refused. */
  ghost predicate Lands(ids: seq<Id>, ans: nat -> MoveAnswer, b: nat, x: Id) {
    exists i: nat :: b <= i < |ids| && ids[i] == x && !ans(i).reply.Refused?
  }

  lemma LandsStep(ids: seq<Id>, ans: nat -> MoveAnswer, b: nat, x: Id)
    requires b < |ids|
    ensures Lands(ids, ans, b, x) <==> (ids[b] == x && !ans(b).reply.Refused?) || Lands(ids, ans, b + 1, x)
  {
  }

  /** What is left of the list once the moved are gone. */
  ghost predicate Keeps(before: seq<Id>, after: seq<Id>, moved: seq<Id>) {
    Subseq(after, before) && forall x :: x in after <==> x in before && x !in moved
  }

  /** One entry a position: skipped if not reached, otherwise as the server answered. */
  ghost predicate Entries(found: bool, ans: nat -> MoveAnswer, n: nat, b: nat, results: seq<Entry>) {
    && |results| == n
    && forall i :: 0 <= i < n ==>
         && (results[i] == Skipped <==> i < b)
         && (results[i] == Ok <==> i >= b && found && ans(i).reply.Acked?)
  }

  /** What is reported of a run that reached position b. */
  ghost predicate Reported(found: bool, ans: nat -> MoveAnswer, n: nat, b: nat, outcome: ReorderOutcome) {
    match outcome
    case InvalidInput => false
    case Complete(attempted, succeeded, failed, results) =>
      && b == 0 && attempted == n && succeeded + failed == n && Entries(found, ans, n, b, results)
      && succeeded == multiset(results)[Ok]
    case Partial(cancelled, attempted, succeeded, failed, skipped, results) =>
      && 0 < b == skipped && cancelled == ans(b - 1).cancelled
      && attempted + b == n && succeeded + failed == attempted && Entries(found, ans, n, b, results)
      && succeeded == multiset(results)[Ok]
  }

  lemma {:induction false} ReachStops(ans: nat -> MoveAnswer, k: nat)
    ensures StopsAt(ans, k, Reach(ans, k))
  {
    if !(k == 0 || ans(k - 1).cancelled || ans(k - 1).expired) {
      ReachStops(ans, k - 1);
    }
  }

  lemma {:induction false} LandedMembers(ids: seq<Id>, ans: nat -> MoveAnswer, b: nat)
    requires b <= |ids|
    ensures forall x :: x in Landed(ids, ans, b) <==> Lands(ids, ans, b, x)
    decreases |ids| - b
  {
    if b < |ids| {
      LandedMembers(ids, ans, b + 1);
      forall x ensures x in Landed(ids, ans, b) <==> Lands(ids, ans, b, x) {
        LandsStep(ids, ans, b, x);
        hide Lands;
      }
    }
  }

  lemma KeepsOthers(before: seq<Id>, moved: seq<Id>)
    ensures Keeps(before, Except(before, Listed(moved)), moved)
  {
    SubseqRefl(before);
    ExceptSubseq(before, Listed(moved), before);
  }

  lemma PlacedKeeps(s: Order, p: Id, moved: seq<Id>)
    requires p in s
    ensures var after := Placed(s, p, moved);
            && after.Keys == s.Keys && moved <= after[p]
            && forall q :: q in after ==> Keeps(s[q], if q == p then after[q][|moved|..] else after[q], moved)
  {
    hide Except;
    hide Keeps;
    var after := Placed(s, p, moved);
    assert after[p] == moved + Except(s[p], Listed(moved));
    forall q | q in after ensures Keeps(s[q], if q == p then after[q][|moved|..] else after[q], moved) {
      KeepsOthers(s[q], moved);
      assert q == p ==> after[q][|moved|..] == Except(s[q], Listed(moved));
    }
  }

  lemma RunGathers(s: Order, p: Id, ids: seq<Id>, ans: nat -> MoveAnswer)
    requires p in s
    ensures var b := Reach(ans, |ids|); Gathers(s, AfterRun(s, p, ids, ans), p, ids, ans, b, Landed(ids, ans, b))
  {
    hide Landed;
    hide Reach;
    hide Placed;
    hide Keeps;
    hide Subseq;
    hide Lands;
    var b := Reach(ans, |ids|);
    LandedSubseq(ids, ans, b);
    LandedMembers(ids, ans, b);
    PlacedKeeps(s, p, Landed(ids, ans, b));
  }

  lemma {:induction false} CountIs(results: seq<Entry>, lo: nat)
    requires lo <= |results|
    ensures CountOk(results, lo) == multiset(results[lo..])[Ok]
    decreases |results| - lo
  {
    if lo < |results| {
      CountIs(results, lo + 1);
      assert results[lo..] == [results[lo]] + results[lo + 1..];
    }
  }

  /** Positions not reached count for nothing. */
  lemma CountAll(results: seq<Entry>, b: nat)
    requires b <= |results| && forall i :: 0 <= i < b ==> results[i] == Skipped
    ensures CountOk(results, b) == multiset(results)[Ok]
  {
    CountIs(results, b);
    assert results == results[..b] + results[b..];
    assert Ok !in results[..b];
  }

  lemma ResultsAre(s: Order, p: Id, n: nat, ans: nat -> MoveAnswer, b: nat)
    requires b <= n
    ensures Entries(p in s, ans, n, b, Results(s, p, n, ans, b))
    ensures CountOk(Results(s, p, n, ans, b), b) == multiset(Results(s, p, n, ans, b))[Ok]
  {
    hide CountOk;
    CountAll(Results(s, p, n, ans, b), b);
  }

  lemma RunReported(s: Order, p: Id, ids: seq<Id>, ans: nat -> MoveAnswer)
    ensures var b := Reach(ans, |ids|);
            var results := Results(s, p, |ids|, ans, b);
            var ok := CountOk(results, b);
            Reported(p in s, ans, |ids|, b,
                     if b == 0 then Complete(|ids|, ok, |ids| - ok, results)
                     else Partial(ans(b - 1).cancelled, |ids| - b, ok, |ids| - b - ok, b, results))
  {
    hide Reach;
    hide CountOk;
    hide Entries;
    hide Results;
    ResultsAre(s, p, |ids|, ans, Reach(ans, |ids|));
  }

  /** Move the ids to the head of p, last first, so that the first ends up first. */
  method ReorderNodesViaPriority(s0: Order, p: Id, ids: seq<Id>, ans: nat -> MoveAnswer)
    returns (s: Order, outcome: ReorderOutcome)
    ensures outcome.InvalidInput? <==> !ValidRequest(p, ids)
    ensures outcome.InvalidInput? <==> ids == [] || |ids| > 200 || p in ids || !NoDup(ids)
    ensures outcome.InvalidInput? ==> s == s0
    ensures !outcome.InvalidInput? ==>
              var b := Reach(ans, |ids|);
              var results := Results(s0, p, |ids|, ans, b);
              var ok := CountOk(results, b);
              && s == AfterRun(s0, p, ids, ans)
              && outcome == if b == 0 then Complete(|ids|, ok, |ids| - ok, results)
                            else Partial(ans(b - 1).cancelled, |ids| - b, ok, |ids| - b - ok, b, results)
    ensures !outcome.InvalidInput? ==>
              exists b ::
                && StopsAt(ans, |ids|, b) && Reported(p in s0, ans, |ids|, b, outcome)
                && if p in s0 then exists moved :: Gathers(s0, s, p, ids, ans, b, moved) else s == s0
  {
    hide Gathers;
    hide Reported;
    hide StopsAt;
    hide AfterRun;
    hide ValidRequest;
    hide Results;
    hide CountOk;
    hide CountNone;
    hide Fill;
    s := s0;
    var valid := CheckRequest(p, ids);
    RequestIs(p, ids);
    if !valid {
      return s, InvalidInput;
    }
    ReachStops(ans, |ids|);
    RunReported(s0, p, ids, ans);
    RunElsewhere(s0, p, ids, ans);
    var results := new Option<Entry>[|ids|](_ => None);
    var succeeded, failed, bailed;
    s, succeeded, failed, bailed := MoveAll(s0, p, ids, ans, results);
    var filled, skipped := FillSkipped(results);
    FilledResults(results[..], filled, s0, p, ans, Reach(ans, |ids|));
    var attempted := succeeded + failed;
    match bailed {
      case None => outcome := Complete(attempted, succeeded, failed, filled);
      case Some(cancelled) => outcome := Partial(cancelled, attempted, succeeded, failed, skipped, filled);
    }
  }

  lemma RunElsewhere(s: Order, p: Id, ids: seq<Id>, ans: nat -> MoveAnswer)
    ensures if p in s then exists moved :: Gathers(s, AfterRun(s, p, ids, ans), p, ids, ans, Reach(ans, |ids|), moved)
            else AfterRun(s, p, ids, ans) == s
  {
    hide Gathers;
    if p in s {
      RunGathers(s, p, ids, ans);
    }
  }

  function Fill(results: seq<Option<Entry>>): (r: seq<Entry>)
    ensures |r| == |results|
    ensures forall i :: 0 <= i < |r| ==> r[i] == if results[i].None? then Skipped else results[i].value
  {
    seq(|results|, i requires 0 <= i < |results| => if results[i].None? then Skipped else results[i].value)
  }

  function CountNone(results: seq<Option<Entry>>): nat {
    if results == [] then 0
    else CountNone(results[..|results| - 1]) + if results[|results| - 1].None? then 1 else 0
  }

  /** Positions the run never reached are reported as skipped. */
  method FillSkipped(results: array<Option<Entry>>) returns (filled: seq<Entry>, skipped: nat)
    ensures filled == Fill(results[..]) && skipped == CountNone(results[..])
  {
    filled, skipped := [], 0;
    for i := 0 to results.Length
      invariant filled == Fill(results[..i]) && skipped == CountNone(results[..i])
    {
      assert results[..i + 1][..i] == results[..i];
      match results[i] {
        case None =>
          filled := filled + [Skipped];
          skipped := skipped + 1;
        case Some(entry) =>
          filled := filled + [entry];
      }
    }
    assert results[..results.Length] == results[..];
  }

  lemma {:induction false} CountNonePrefix(results: seq<Option<Entry>>, b: nat)
    requires b <= |results| && forall i :: 0 <= i < |results| ==> (results[i].None? <==> i < b)
    ensures CountNone(results) == b
  {
    if results != [] {
      var n := |results| - 1;
      CountNonePrefix(results[..n], if b <= n then b else n);
    }
  }

  lemma FilledResults(results: seq<Option<Entry>>, filled: seq<Entry>, s0: Order, p: Id, ans: nat -> MoveAnswer, b: nat)
    requires b <= |results| && filled == Fill(results)
    requires forall i :: 0 <= i < |results| ==>
               results[i] == if i < b then None else Some(EntryOf(s0, p, ans(i)))
    ensures filled == Results(s0, p, |results|, ans, b) && CountNone(results) == b
  {
    CountNonePrefix(results, b);
  }

  /** An id is not among the later ones of a duplicate-free request. */
  lemma Disjoint(p: Id, ids: seq<Id>, ans: nat -> MoveAnswer, k: nat)
    requires k < |ids| && ValidRequest(p, ids)
    ensures ids[k] !in Landed(ids, ans, k + 1)
  {
    var rest := ids[k + 1..];
    forall j | 0 <= j < |rest| ensures rest[j] != ids[k] {
      assert rest[j] == ids[k + 1 + j];
    }
  }

  /** A run in which every move is reached and lands. */
  ghost predicate FullSuccess(ans: nat -> MoveAnswer) {
    forall k :: !ans(k).cancelled && !ans(k).expired && ans(k).reply.Acked?
  }

  lemma {:induction false} FullReach(ans: nat -> MoveAnswer, k: nat)
    requires FullSuccess(ans)
    ensures Reach(ans, k) == 0
  {
    if k > 0 {
      FullReach(ans, k - 1);
    }
  }

  lemma {:induction false} FullLanded(ids: seq<Id>, ans: nat -> MoveAnswer, b: nat)
    requires FullSuccess(ans) && b <= |ids|
    ensures Landed(ids, ans, b) == ids[b..]
    decreases |ids| - b
  {
    if b < |ids| {
      FullLanded(ids, ans, b + 1);
      assert ids[b..] == [ids[b]] + ids[b + 1..];
    }
  }

  /** The children of p after a run: the landed ids in request order, then the rest of the old
      children in their old order; every other list only loses landed ids. */
  lemma RunPlaces(s: Order, p: Id, ids: seq<Id>, ans: nat -> MoveAnswer)
    requires p in s
    ensures var moved := Landed(ids, ans, Reach(ans, |ids|));
            && AfterRun(s, p, ids, ans)[p] == moved + Except(s[p], Listed(moved))
            && Subseq(moved, ids)
            && (forall x :: x in AfterRun(s, p, ids, ans)[p] <==> x in moved || x in s[p])
            && (FullSuccess(ans) ==> moved == ids)
  {
    LandedSubseq(ids, ans, Reach(ans, |ids|));
    if FullSuccess(ans) {
      FullReach(ans, |ids|);
      FullLanded(ids, ans, 0);
      assert ids[0..] == ids;
    }
  }

  lemma {:induction false} LandedSubseq(ids: seq<Id>, ans: nat -> MoveAnswer, b: nat)
    requires b <= |ids|
    ensures Subseq(Landed(ids, ans, b), ids)
    ensures Subseq(Landed(ids, ans, b), ids[b..])
    decreases |ids| - b
  {
    if b < |ids| {
      LandedSubseq(ids, ans, b + 1);
      assert ids[b..] != [] && ids[b..][0] == ids[b] && ids[b..][1..] == ids[b + 1..];
      if ans(b).reply.Refused? {
        assert Landed(ids, ans, b) == Landed(ids, ans, b + 1);
      } else {
        assert Landed(ids, ans, b)[1..] == Landed(ids, ans, b + 1);
      }
    }
    SubseqDrop(ids, b);
    SubseqTrans(Landed(ids, ans, b), ids[b..], ids);
  }

  lemma {:induction false} SubseqDrop(ids: seq<Id>, b: nat)
    requires b <= |ids|
    ensures Subseq(ids[b..], ids)
  {
    if b == 0 {
      SubseqRefl(ids);
    } else {
      SubseqDrop(ids[1..], b - 1);
      assert ids[1..][b - 1..] == ids[b..];
    }
  }

  /** Whatever a first run managed, a fully successful rerun of the same request ends where one
      successful run would have ended. */
  lemma RerunCompletes(s: Order, p: Id, ids: seq<Id>, first: nat -> MoveAnswer, second: nat -> MoveAnswer)
    requires FullSuccess(second)
    ensures AfterRun(AfterRun(s, p, ids, first), p, ids, second) == AfterRun(s, p, ids, second)
    ensures p in s ==> AfterRun(s, p, ids, second) == Placed(s, p, ids)
  {
    FullReach(second, |ids|);
    FullLanded(ids, second, 0);
    assert ids[0..] == ids;
    if p in s {
      PlacedAgain(s, p, Landed(ids, first, Reach(first, |ids|)), ids);
    }
  }
}
