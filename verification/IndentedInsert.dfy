/** Inserting an indented payload line by line with a stack of open parents. */
module IndentedInsert {
  import opened Sequences
  import opened Outlines

  const MAX_INSERT_CONTENT_LINES := 80

  datatype ParsedLine = ParsedLine(text: string, indent: nat)

  /** A node the insertion created, as the server holds it. */
  datatype Created = Created(id: Id, text: string, parent: Option<Id>, priority: int)

  /** A create reported as cancelled, timed out or failed may have landed all the same. */
  datatype CreateReply =
    | Made(id: Id)
    | CreateCancelled(landed: Option<Id>)
    | CreateTimedOut(landed: Option<Id>)
    | CreateFailed(landed: Option<Id>)

  /** What happens around one line: the checks before it, the create, the checks after an error. */
  datatype LineAnswers = LineAnswers(
    cancelled: bool,
    expired: bool,
    create: CreateReply,
    cancelledAfter: bool,
    expiredAfter: bool)

  datatype PartialReason = Cancelled | Timeout | Error

  datatype InsertOutcome =
    | PayloadTooLarge
    | Complete(createdCount: nat, lastInserted: Option<Id>)
    | Partial(reason: PartialReason, createdCount: nat, total: nat, lastInserted: Option<Id>, stoppedAt: Option<string>)

  // ---------------------------------------------------------------------
  // Specification: clamped depths and nearest shallower lines
  // ---------------------------------------------------------------------

  function Min(a: nat, b: nat): nat {
    if a <= b then a else b
  }

  /** The depth each line gets: at most one deeper than the line before it. */
  function Clamp(lines: seq<ParsedLine>): (d: seq<nat>)
    ensures |d| == |lines|
  {
    if lines == [] then []
    else
      var n := |lines| - 1;
      var d := Clamp(lines[..n]);
      d + [if n == 0 then 0 else Min(lines[n].indent, d[n - 1] + 1)]
  }

  lemma {:induction false} ClampPrefix(lines: seq<ParsedLine>, k: nat)
    requires k <= |lines|
    ensures Clamp(lines[..k]) == Clamp(lines)[..k]
    decreases |lines|
  {
    if k < |lines| {
      var n := |lines| - 1;
      ClampPrefix(lines[..n], k);
      assert lines[..n][..k] == lines[..k];
      assert Clamp(lines)[..n] == Clamp(lines[..n]);
    } else {
      assert lines[..k] == lines;
    }
  }

  /** Depths start at zero and rise by at most one. */
  ghost predicate Stepwise(d: seq<nat>) {
    (d != [] ==> d[0] == 0) && forall i :: 0 < i < |d| ==> d[i] <= d[i - 1] + 1
  }

  lemma {:induction false} ClampStepwise(lines: seq<ParsedLine>)
    ensures Stepwise(Clamp(lines))
  {
    if lines != [] {
      var n := |lines| - 1;
      ClampStepwise(lines[..n]);
      assert forall i :: 0 <= i < n ==> Clamp(lines)[i] == Clamp(lines[..n])[i];
    }
  }

  /** The nearest line before k at the given depth. */
  function Nearest(d: seq<nat>, k: nat, depth: nat): Option<nat>
    requires k <= |d|
  {
    if k == 0 then None
    else if d[k - 1] == depth then Some(k - 1)
    else Nearest(d, k - 1, depth)
  }

  lemma {:induction false} NearestIs(d: seq<nat>, k: nat, depth: nat, q: nat)
    requires q < k <= |d| && d[q] == depth
    requires forall j :: q < j < k ==> d[j] != depth
    ensures Nearest(d, k, depth) == Some(q)
  {
    if d[k - 1] != depth {
      NearestIs(d, k - 1, depth, q);
    }
  }

  lemma {:induction false} NearestProps(d: seq<nat>, k: nat, depth: nat)
    requires k <= |d|
    ensures Nearest(d, k, depth).Some? ==>
              var q := Nearest(d, k, depth).value;
              q < k && d[q] == depth && forall j :: q < j < k ==> d[j] != depth
    ensures Nearest(d, k, depth).None? ==> forall j :: 0 <= j < k ==> d[j] != depth
  {
    if k > 0 && d[k - 1] != depth {
      NearestProps(d, k - 1, depth);
    }
  }

  /** Depths pass through every value on the way up. */
  lemma {:induction false} Crossing(d: seq<nat>, k: nat, j: nat, depth: nat) returns (m: nat)
    requires Stepwise(d) && k < j < |d| && d[k] <= depth < d[j]
    ensures k <= m < j && d[m] == depth
    decreases j
  {
    if d[j - 1] <= depth {
      m := j - 1;
    } else {
      m := Crossing(d, k, j - 1, depth);
    }
  }

  /** The parent of line k: the nearest earlier line one level up, or the base at depth zero. */
  function LineParent(d: seq<nat>, base: Option<Id>, ids: seq<Id>, k: nat): Option<Id>
    requires k < |d| && k <= |ids|
  {
    if d[k] == 0 then base
    else
      match Nearest(d, k, d[k] - 1)
      case Some(q) => if q < |ids| then Some(ids[q]) else None
      case None => None
  }

  /** The nodes the first |ids| lines create. */
  function Planted(lines: seq<ParsedLine>, d: seq<nat>, base: Option<Id>, ids: seq<Id>): (c: seq<Created>)
    requires |lines| == |d| && |ids| <= |d|
    ensures |c| == |ids|
  {
    seq(|ids|, k requires 0 <= k < |ids| => Created(ids[k], lines[k].text, LineParent(d, base, ids[..k], k), k))
  }

  /** The reason the run stops at a line, if it does. */
  function StopReason(a: LineAnswers): (r: Option<PartialReason>)
  {
    if a.cancelled then Some(Cancelled)
    else if a.expired then Some(Timeout)
    else
      match a.create
      case Made(_) => None
      case CreateCancelled(_) => Some(Cancelled)
      case CreateTimedOut(_) => Some(Timeout)
      case CreateFailed(_) =>
        if a.cancelledAfter then Some(Cancelled) else if a.expiredAfter then Some(Timeout) else Some(Error)
  }

  /** The id a create was answered with. */
  function MadeId(a: LineAnswers): Id {
    match a.create
    case Made(id) => id
    case _ => Id("")
  }

  /** The id of a create that landed although the run stopped at it. */
  function Stray(a: LineAnswers): Option<Id> {
    if a.cancelled || a.expired || a.create.Made? then None else a.create.landed
  }

  /** What a stray create adds to the acknowledged ids. */
  function WithStray(ids: seq<Id>, a: LineAnswers): seq<Id> {
    if Stray(a).Some? then ids + [Stray(a).value] else ids
  }

  /** The line at which the run stops, or the number of lines. */
  function StopLine(ans: nat -> LineAnswers, k: nat, n: nat): (r: nat)
    requires k <= n
    ensures k <= r <= n
    ensures forall i :: k <= i < r ==> StopReason(ans(i)).None?
    ensures r < n ==> StopReason(ans(r)).Some?
    decreases n - k
  {
    if k == n || StopReason(ans(k)).Some? then k else StopLine(ans, k + 1, n)
  }

  function MadeIds(ans: nat -> LineAnswers, k: nat): (ids: seq<Id>)
    ensures |ids| == k
    ensures forall i :: 0 <= i < k ==> ids[i] == MadeId(ans(i))
  {
    seq(k, i requires 0 <= i < k => MadeId(ans(i)))
  }

  // ---------------------------------------------------------------------
  // The method
  // ---------------------------------------------------------------------

  /** The open parents: the base, then for each open depth the nearest line at it. */
  ghost predicate StackIs(d: seq<nat>, base: Option<Id>, ids: seq<Id>, k: nat, stack: seq<Option<Id>>)
    requires k <= |d| && |ids| == k
  {
    && |stack| == (if k == 0 then 1 else d[k - 1] + 2)
    && stack[0] == base
    && forall m: nat :: m + 1 < |stack| ==>
         Nearest(d, k, m).Some? && Nearest(d, k, m).value < k && stack[m + 1] == Some(ids[Nearest(d, k, m).value])
  }

  lemma StackStep(d: seq<nat>, base: Option<Id>, ids: seq<Id>, k: nat, stack: seq<Option<Id>>, id: Id)
    requires k < |d| && |ids| == k && StackIs(d, base, ids, k, stack)
    requires d[k] < |stack|
    ensures StackIs(d, base, ids + [id], k + 1, stack[..d[k] + 1] + [Some(id)])
    ensures stack[d[k]] == LineParent(d, base, ids, k)
  {
    var s, more := stack[..d[k] + 1] + [Some(id)], ids + [id];
    if d[k] > 0 {
      var q := Nearest(d, k, d[k] - 1);
      assert q.Some? && q.value < k && stack[d[k]] == Some(ids[q.value]);
      assert LineParent(d, base, ids, k) == Some(ids[q.value]);
    }
    assert |s| == d[k] + 2 && s[0] == base;
    var next: nat := k + 1;
    forall m: nat | m + 1 < |s|
      ensures Nearest(d, next, m).Some? && Nearest(d, next, m).value < next
              && s[m + 1] == Some(more[Nearest(d, next, m).value])
    {
      if m == d[k] {
        assert Nearest(d, k + 1, m) == Some(k);
        assert s[m + 1] == Some(id) && more[k] == id;
      } else {
        assert Nearest(d, k + 1, m) == Nearest(d, k, m);
        assert s[m + 1] == stack[m + 1];
        assert more[Nearest(d, k, m).value] == ids[Nearest(d, k, m).value];
      }
    }
  }

  /** The run as a whole: it stops at the first line whose answers stop it. The server then holds the
      forest of the lines before it, and of that line too if its create landed after all. */
  function Expected(base: Option<Id>, lines: seq<ParsedLine>, ans: nat -> LineAnswers): (seq<Created>, InsertOutcome) {
    if |lines| > MAX_INSERT_CONTENT_LINES then ([], PayloadTooLarge)
    else
      var n := StopLine(ans, 0, |lines|);
      var last := if n == 0 then None else Some(MadeId(ans(n - 1)));
      var made := MadeIds(ans, n);
      (Planted(lines, Clamp(lines), base, if n == |lines| then made else WithStray(made, ans(n))),
       if n == |lines| then Complete(n, last)
       else Partial(StopReason(ans(n)).value, n, |lines|, last,
                    if ans(n).cancelled then None else Some(lines[n].text)))
  }

  lemma ExpectedStop(base: Option<Id>, lines: seq<ParsedLine>, ans: nat -> LineAnswers, ids: seq<Id>)
    requires |ids| <= |lines| <= MAX_INSERT_CONTENT_LINES
    requires forall i :: 0 <= i < |ids| ==> StopReason(ans(i)).None? && ids[i] == MadeId(ans(i))
    requires |ids| < |lines| ==> StopReason(ans(|ids|)).Some?
    ensures var k := |ids|;
            var last := if k == 0 then None else Some(MadeId(ans(k - 1)));
            Expected(base, lines, ans)
            == (Planted(lines, Clamp(lines), base, if k == |lines| then ids else WithStray(ids, ans(k))),
                if k == |lines| then Complete(k, last)
                else Partial(StopReason(ans(k)).value, k, |lines|, last,
                             if ans(k).cancelled then None else Some(lines[k].text)))
  {
    hide StopReason;
    hide Planted;
    hide Clamp;
    hide WithStray;
    hide MadeId;
    StopLineIs(ans, |ids|, |lines|);
    assert MadeIds(ans, |ids|) == ids;
    hide StopLine;
    hide MadeIds;
  }

  lemma ExpectedTooLarge(base: Option<Id>, lines: seq<ParsedLine>, ans: nat -> LineAnswers)
    requires |lines| > MAX_INSERT_CONTENT_LINES
    ensures Expected(base, lines, ans) == ([], PayloadTooLarge)
  {
  }

  lemma StopLineIs(ans: nat -> LineAnswers, k: nat, n: nat)
    requires k <= n && forall i :: 0 <= i < k ==> StopReason(ans(i)).None?
    requires k < n ==> StopReason(ans(k)).Some?
    ensures StopLine(ans, 0, n) == k
  {
    hide StopReason;
  }

  lemma IndentClamped(lines: seq<ParsedLine>, k: nat)
    requires k < |lines|
    ensures Clamp(lines)[k] == if k == 0 then 0 else Min(lines[k].indent, Clamp(lines)[k - 1] + 1)
  {
    ClampPrefix(lines, k + 1);
    ClampPrefix(lines, k);
    assert lines[..k + 1][..k] == lines[..k];
    assert Clamp(lines[..k + 1])[k] == Clamp(lines)[k];
    assert k > 0 ==> Clamp(lines[..k])[k - 1] == Clamp(lines)[k - 1];
  }

  // ---------------------------------------------------------------------
  // The same in the caller's terms
  // ---------------------------------------------------------------------

  /** A line keeps its indent unless it is more than one below the line before. */
  ghost predicate LineDepths(lines: seq<ParsedLine>, d: seq<nat>) {
    && |d| == |lines| && (d != [] ==> d[0] == 0)
    && forall k :: 0 < k < |d| ==>
         d[k] == if lines[k].indent <= d[k - 1] + 1 then lines[k].indent else d[k - 1] + 1
  }

  /** Line q opens line k: it is one level up, and no line between them is above line k. */
  ghost predicate Opens(d: seq<nat>, q: nat, k: nat) {
    q < k < |d| && d[q] + 1 == d[k] && forall j :: q < j < k ==> d[j] >= d[k]
  }

  ghost predicate Hangs(d: seq<nat>, base: Option<Id>, held: seq<Created>, k: nat)
    requires k < |held|
  {
    k < |d| && if d[k] == 0 then held[k].parent == base
               else exists q: nat :: q < k && Opens(d, q, k) && held[k].parent == Some(held[q].id)
  }

  ghost predicate HeldAt(lines: seq<ParsedLine>, d: seq<nat>, base: Option<Id>, held: seq<Created>) {
    && |held| <= |lines| && LineDepths(lines, d)
    && forall k: nat :: k < |held| ==>
         held[k].text == lines[k].text && held[k].priority == k && Hangs(d, base, held, k)
  }

  /** What is held are the first lines in order, each under the line that opens it. */
  ghost predicate HeldForest(lines: seq<ParsedLine>, base: Option<Id>, held: seq<Created>) {
    exists d :: HeldAt(lines, d, base, held)
  }

  /** The first n creates were reached and acknowledged, with the ids held, and last names the last. */
  ghost predicate Acknowledged(ans: nat -> LineAnswers, held: seq<Created>, n: nat, last: Option<Id>) {
    && n <= |held|
    && (forall i: nat :: i < n ==> !ans(i).cancelled && !ans(i).expired && ans(i).create == Made(held[i].id))
    && last == if n == 0 then None else Some(held[n - 1].id)
  }

  /** What is reported and what is held, from the answers. */
  ghost predicate Reported(lines: seq<ParsedLine>, ans: nat -> LineAnswers, held: seq<Created>, outcome: InsertOutcome) {
    match outcome
    case PayloadTooLarge => |lines| > 80 && held == []
    case Complete(n, last) => |lines| <= 80 && n == |lines| == |held| && Acknowledged(ans, held, n, last)
    case Partial(reason, n, total, last, at) =>
      && n < |lines| == total <= 80 && Acknowledged(ans, held, n, last)
      && at == (if ans(n).cancelled then None else Some(lines[n].text))
      && match (ans(n).cancelled, ans(n).expired, ans(n).create)
         case (true, _, _) => reason == Cancelled && |held| == n
         case (false, true, _) => reason == Timeout && |held| == n
         case (false, false, Made(_)) => false
         case (false, false, CreateCancelled(landed)) => reason == Cancelled && Straggler(held, n, landed)
         case (false, false, CreateTimedOut(landed)) => reason == Timeout && Straggler(held, n, landed)
         case (false, false, CreateFailed(landed)) =>
           && (reason == Cancelled <==> ans(n).cancelledAfter)
           && (reason == Timeout <==> !ans(n).cancelledAfter && ans(n).expiredAfter)
           && Straggler(held, n, landed)
  }

  /** One more is held exactly if the create that was not acknowledged landed. */
  ghost predicate Straggler(held: seq<Created>, n: nat, landed: Option<Id>) {
    match landed
    case Some(id) => |held| == n + 1 && held[n].id == id
    case None => |held| == n
  }

  lemma ClampedDepths(lines: seq<ParsedLine>)
    ensures LineDepths(lines, Clamp(lines))
  {
    hide Clamp;
    if lines != [] {
      IndentClamped(lines, 0);
    }
    forall k | 0 < k < |lines|
      ensures Clamp(lines)[k] == if lines[k].indent <= Clamp(lines)[k - 1] + 1 then lines[k].indent
                                 else Clamp(lines)[k - 1] + 1
    {
      IndentClamped(lines, k);
    }
  }

  lemma NearestOpens(d: seq<nat>, k: nat)
    requires Stepwise(d) && k < |d| && d[k] > 0
    ensures Nearest(d, k, d[k] - 1).Some? && Opens(d, Nearest(d, k, d[k] - 1).value, k)
  {
    hide Nearest;
    NearestProps(d, k, d[k] - 1);
    var m := Crossing(d, 0, k, d[k] - 1);
    var q := Nearest(d, k, d[k] - 1).value;
    forall j | q < j < k ensures d[j] >= d[k] {
      if d[j] < d[k] {
        var c := Crossing(d, j, k, d[k] - 1);
      }
    }
  }

  lemma PlantedHeld(lines: seq<ParsedLine>, base: Option<Id>, ids: seq<Id>)
    requires |ids| <= |lines|
    ensures HeldForest(lines, base, Planted(lines, Clamp(lines), base, ids))
  {
    var d := Clamp(lines);
    ClampStepwise(lines);
    ClampedDepths(lines);
    hide Clamp;
    hide Nearest;
    var held := Planted(lines, d, base, ids);
    forall k: nat | k < |held| ensures Hangs(d, base, held, k) {
      if d[k] > 0 {
        NearestOpens(d, k);
        var q := Nearest(d, k, d[k] - 1).value;
        assert held[k].parent == Some(held[q].id);
      }
    }
    assert HeldAt(lines, d, base, held);
  }

  lemma ExpectedReported(base: Option<Id>, lines: seq<ParsedLine>, ans: nat -> LineAnswers)
    ensures Reported(lines, ans, Expected(base, lines, ans).0, Expected(base, lines, ans).1)
    ensures HeldForest(lines, base, Expected(base, lines, ans).0)
  {
    hide Clamp;
    hide Planted;
    hide HeldForest;
    if |lines| > MAX_INSERT_CONTENT_LINES {
      PlantedHeld(lines, base, []);
      PlantedIds(lines, Clamp(lines), base, []);
    } else {
      var n := StopLine(ans, 0, |lines|);
      var ids := if n == |lines| then MadeIds(ans, n) else WithStray(MadeIds(ans, n), ans(n));
      PlantedHeld(lines, base, ids);
      PlantedIds(lines, Clamp(lines), base, ids);
      MadeAcknowledged(ans, n, Planted(lines, Clamp(lines), base, ids));
      hide StopLine;
      hide MadeIds;
      hide Acknowledged;
    }
  }

  lemma PlantedIds(lines: seq<ParsedLine>, d: seq<nat>, base: Option<Id>, ids: seq<Id>)
    requires |lines| == |d| && |ids| <= |d|
    ensures |Planted(lines, d, base, ids)| == |ids|
    ensures forall k: nat :: k < |ids| ==> Planted(lines, d, base, ids)[k].id == ids[k]
    ensures ids == [] ==> Planted(lines, d, base, ids) == []
  {
  }

  lemma MadeAcknowledged(ans: nat -> LineAnswers, n: nat, held: seq<Created>)
    requires n <= |held| && forall i: nat :: i < n ==> StopReason(ans(i)).None? && held[i].id == MadeId(ans(i))
    ensures Acknowledged(ans, held, n, if n == 0 then None else Some(MadeId(ans(n - 1))))
  {
  }

  /** So an over-indented line becomes a child of the line just before it. */
  lemma OverIndented(lines: seq<ParsedLine>, d: seq<nat>, base: Option<Id>, held: seq<Created>, k: nat)
    requires HeldAt(lines, d, base, held) && 0 < k < |held| && lines[k].indent > d[k - 1]
    ensures held[k].parent == Some(held[k - 1].id) && d[k] == d[k - 1] + 1
  {
    assert Hangs(d, base, held, k) && d[k - 1] < d[k];
    var q: nat :| q < k && Opens(d, q, k) && held[k].parent == Some(held[q].id);
  }

  lemma StackIndent(lines: seq<ParsedLine>, base: Option<Id>, ids: seq<Id>, k: nat, stack: seq<Option<Id>>)
    requires k < |lines| && |ids| == k && StackIs(Clamp(lines), base, ids, k, stack)
    ensures |stack| > 0 && Min(lines[k].indent, |stack| - 1) == Clamp(lines)[k]
  {
    IndentClamped(lines, k);
  }

  /** Insert the lines in order under the base parent, each with its line number as priority; `held`
      is what the server holds of them afterwards. That is as many nodes as were counted, or one more,
      and then the one more is the line the run reports having stopped at. */
  method InsertContentViaIndented(base: Option<Id>, lines: seq<ParsedLine>, ans: nat -> LineAnswers)
    returns (held: seq<Created>, outcome: InsertOutcome)
    ensures (held, outcome) == Expected(base, lines, ans)
    ensures Reported(lines, ans, held, outcome) && HeldForest(lines, base, held)
    ensures outcome.PayloadTooLarge? <==> |lines| > MAX_INSERT_CONTENT_LINES
    ensures outcome.Partial? ==>
              |held| == outcome.createdCount
              || (|held| == outcome.createdCount + 1
                  && outcome.stoppedAt == Some(held[outcome.createdCount].text))
  {
    ExpectedReported(base, lines, ans);
    hide Expected;
    held, outcome := InsertLines(base, lines, ans);
  }

  /** What the server holds after an unacknowledged create. */
  method HoldStray(held0: seq<Created>, landed: Option<Id>, lines: seq<ParsedLine>, ghost d: seq<nat>,
                   ghost base: Option<Id>, ghost ids: seq<Id>, parent: Option<Id>, k: nat)
    returns (held: seq<Created>)
    requires |lines| == |d| && |ids| == k < |d| && held0 == Planted(lines, d, base, ids)
    requires parent == LineParent(d, base, ids, k)
    ensures held == Planted(lines, d, base, if landed.Some? then ids + [landed.value] else ids)
  {
    hide Planted;
    held := held0;
    match landed {
      case Some(id) =>
        PlantedStep(lines, d, base, ids, id);
        held := held + [Created(id, lines[k].text, parent, k)];
      case None =>
    }
  }

  method InsertLines(base: Option<Id>, lines: seq<ParsedLine>, ans: nat -> LineAnswers)
    returns (held: seq<Created>, outcome: InsertOutcome)
    ensures (held, outcome) == Expected(base, lines, ans)
  {
    hide Clamp;
    hide Nearest;
    hide StackIs;
    hide Planted;
    hide Expected;
    held := [];
    ghost var ids: seq<Id> := [];
    if lines == [] {
      EmptyPlanted(base);
      ExpectedStop(base, lines, ans, ids);
      return held, Complete(0, None);
    }
    if |lines| > MAX_INSERT_CONTENT_LINES {
      ExpectedTooLarge(base, lines, ans);
      return held, PayloadTooLarge;
    }
    var stack: seq<Option<Id>> := [base];
    var last: Option<Id> := None;
    ghost var d := Clamp(lines);
    InsertStart(lines, d, base);
    var k := 0;
    while k < |lines|
      invariant k <= |lines| && |ids| == k
      invariant forall i :: 0 <= i < k ==> StopReason(ans(i)).None? && ids[i] == MadeId(ans(i))
      invariant held == Planted(lines, d, base, ids)
      invariant StackIs(d, base, ids, k, stack)
      invariant last == if k == 0 then None else Some(MadeId(ans(k - 1)))
    {
      var a := ans(k);
      if StopReason(a).Some? {
        ExpectedStop(base, lines, ans, ids);
      }
      if a.cancelled {
        return held, Partial(Cancelled, k, |lines|, last, None);
      }
      if a.expired {
        return held, Partial(Timeout, k, |lines|, last, Some(lines[k].text));
      }
      StackIndent(lines, base, ids, k, stack);
      var indent := Min(lines[k].indent, |stack| - 1);
      var parent := stack[indent];
      StackStep(d, base, ids, k, stack, Id(""));
      match a.create {
        case Made(id) =>
          StackStep(d, base, ids, k, stack, id);
          PlantedStep(lines, d, base, ids, id);
          held := held + [Created(id, lines[k].text, parent, k)];
          last := Some(id);
          var next := indent + 1;
          ghost var before := stack;
          if next < |stack| {
            stack := stack[next := Some(id)][..next + 1];
          } else {
            stack := stack + [Some(id)];
          }
          assert stack == before[..indent + 1] + [Some(id)];
          ids := ids + [id];
          k := k + 1;
        case CreateCancelled(landed) =>
          held := HoldStray(held, landed, lines, d, base, ids, parent, k);
          return held, Partial(Cancelled, k, |lines|, last, Some(lines[k].text));
        case CreateTimedOut(landed) =>
          held := HoldStray(held, landed, lines, d, base, ids, parent, k);
          return held, Partial(Timeout, k, |lines|, last, Some(lines[k].text));
        case CreateFailed(landed) =>
          held := HoldStray(held, landed, lines, d, base, ids, parent, k);
          var reason := if a.cancelledAfter then Cancelled else if a.expiredAfter then Timeout else Error;
          return held, Partial(reason, k, |lines|, last, Some(lines[k].text));
      }
    }
    ExpectedStop(base, lines, ans, ids);
    return held, Complete(k, last);
  }

  lemma EmptyPlanted(base: Option<Id>)
    ensures Planted([], Clamp([]), base, []) == []
  {
  }

  lemma InsertStart(lines: seq<ParsedLine>, d: seq<nat>, base: Option<Id>)
    requires |d| == |lines|
    ensures Planted(lines, d, base, []) == []
    ensures StackIs(d, base, [], 0, [base])
  {
  }

  lemma PlantedStep(lines: seq<ParsedLine>, d: seq<nat>, base: Option<Id>, ids: seq<Id>, id: Id)
    requires |lines| == |d| && |ids| < |d|
    ensures var k := |ids|;
            Planted(lines, d, base, ids + [id])
            == Planted(lines, d, base, ids) + [Created(id, lines[k].text, LineParent(d, base, ids, k), k)]
  {
    var k := |ids|;
    assert (ids + [id])[..k] == ids;
    assert forall i :: 0 <= i < k ==> (ids + [id])[..i] == ids[..i];
  }
}
