/** Reading an inserted forest back in display order gives the payload's lines in order, each
    at its clamped depth. */
module InsertReadBack {
  import opened Sequences
  import opened Outlines
  import opened IndentedInsert

  // ---------------------------------------------------------------------
  // What a reader is shown
  // ---------------------------------------------------------------------

  /** The created nodes whose parent is p, from position lo on. */
  function KidsFrom(c: seq<Created>, p: Option<Id>, lo: nat): seq<Created>
    decreases |c| - lo
  {
    if lo >= |c| then []
    else if c[lo].parent == p then [c[lo]] + KidsFrom(c, p, lo + 1)
    else KidsFrom(c, p, lo + 1)
  }

  /** Assigned priorities are positions. */
  ghost predicate Numbered(c: seq<Created>) {
    forall i :: 0 <= i < |c| ==> c[i].priority == i
  }

  /** The server may rescale priorities as long as it keeps their relative order. */
  ghost predicate KeepsOrder(c: seq<Created>, rank: Created -> int) {
    forall x, y :: x in c && y in c && x.priority < y.priority ==> rank(x) < rank(y)
  }

  /** The server's listing of each parent: the created children, in whatever order. */
  type Stored = Option<Id> -> seq<Created>

  ghost predicate Holds(c: seq<Created>, stored: Stored) {
    forall p :: multiset(stored(p)) == multiset(KidsFrom(c, p, 0))
  }

  /** What a listing read returns: the stored children in display order. */
  function Displayed(stored: Stored, rank: Created -> int, p: Option<Id>): seq<Created> {
    StableSort(stored(p), rank)
  }

  /** A node as the reader meets it, over the subtrees below it. */
  datatype Shown = Shown(node: Created, kids: seq<Shown>)

  /** The trees have the given roots, and below each node its displayed children. */
  ghost predicate Shows(stored: Stored, rank: Created -> int, roots: seq<Created>, ts: seq<Shown>)
    decreases ts
  {
    if ts == [] then roots == []
    else
      && roots != [] && ts[0].node == roots[0]
      && Shows(stored, rank, Displayed(stored, rank, Some(roots[0].id)), ts[0].kids)
      && Shows(stored, rank, roots[1..], ts[1..])
  }

  /** The pre-order reading of shown trees, each node with its depth. */
  function Reading(ts: seq<Shown>, depth: nat): seq<(Created, nat)>
    decreases ts
  {
    if ts == [] then [] else [(ts[0].node, depth)] + Reading(ts[0].kids, depth + 1) + Reading(ts[1..], depth)
  }

  // ---------------------------------------------------------------------
  // Display order is line order
  // ---------------------------------------------------------------------

  lemma {:induction false} KidsOrdered(c: seq<Created>, p: Option<Id>, lo: nat, rank: Created -> int)
    requires Numbered(c) && KeepsOrder(c, rank)
    ensures SortedBy(KidsFrom(c, p, lo), rank)
    ensures forall n :: n in KidsFrom(c, p, lo) ==> lo <= n.priority < |c| && c[n.priority] == n && n.parent == p
    decreases |c| - lo
  {
    if lo < |c| {
      KidsOrdered(c, p, lo + 1, rank);
      if c[lo].parent == p {
        assert forall n :: n in KidsFrom(c, p, lo + 1) ==> c[lo].priority < n.priority && n in c;
        SortedCons(c[lo], KidsFrom(c, p, lo + 1), rank);
      }
    }
  }

  ghost predicate OwnKeys(s: seq<Created>, rank: Created -> int) {
    forall x, y :: x in s && y in s && rank(x) == rank(y) ==> x == y
  }

  lemma SameFirst(a: seq<Created>, b: seq<Created>, rank: Created -> int)
    requires SortedBy(a, rank) && SortedBy(b, rank) && OwnKeys(a, rank)
    requires a != [] && b != [] && forall x :: x in a <==> x in b
    ensures a[0] == b[0]
  {
    SortedTail(a, rank);
    SortedTail(b, rank);
    assert a[0] in b && b[0] in a;
    assert rank(a[0]) <= rank(b[0]) <= rank(a[0]);
  }

  lemma TailOf(a: seq<Created>, rank: Created -> int)
    requires a != [] && SortedBy(a, rank) && OwnKeys(a, rank)
    ensures SortedBy(a[1..], rank) && OwnKeys(a[1..], rank)
    ensures multiset(a[1..]) == multiset(a) - multiset{a[0]}
  {
    SortedTail(a, rank);
    assert a == [a[0]] + a[1..];
  }

  /** Two ordered sequences with the same contents and no shared keys are equal. */
  lemma {:induction false} OrderedUnique(a: seq<Created>, b: seq<Created>, rank: Created -> int)
    requires SortedBy(a, rank) && SortedBy(b, rank) && multiset(a) == multiset(b)
    requires OwnKeys(a, rank)
    ensures a == b
  {
    PermutationMembers(a, b);
    assert OwnKeys(b, rank);
    hide OwnKeys;
    hide SortedBy;
    if a != [] {
      SameFirst(a, b, rank);
      TailOf(a, rank);
      TailOf(b, rank);
      OrderedUnique(a[1..], b[1..], rank);
      assert a == [a[0]] + a[1..] && b == [b[0]] + b[1..];
    }
  }

  /** In whatever order the server stores the children of p, and however it rescales their
      priorities, the display sort returns them in line order. */
  lemma DisplayOrder(c: seq<Created>, p: Option<Id>, stored: seq<Created>, rank: Created -> int)
    requires Numbered(c) && KeepsOrder(c, rank) && multiset(stored) == multiset(KidsFrom(c, p, 0))
    ensures StableSort(stored, rank) == KidsFrom(c, p, 0)
  {
    StableSortProps(stored, rank);
    KidsOrdered(c, p, 0, rank);
    assert OwnKeys(KidsFrom(c, p, 0), rank) by {
      OwnRanks(c, p, rank);
    }
    OrderedUnique(KidsFrom(c, p, 0), StableSort(stored, rank), rank);
  }

  lemma OwnRanks(c: seq<Created>, p: Option<Id>, rank: Created -> int)
    requires Numbered(c) && KeepsOrder(c, rank)
    ensures OwnKeys(KidsFrom(c, p, 0), rank)
  {
    KidsOrdered(c, p, 0, rank);
    hide KidsFrom;
    var kids := KidsFrom(c, p, 0);
    forall x, y | x in kids && y in kids && rank(x) == rank(y) ensures x == y {
      assert x in c && y in c;
      assert !(x.priority < y.priority) && !(y.priority < x.priority);
      assert c[x.priority] == c[y.priority];
    }
  }

  // ---------------------------------------------------------------------
  // Reading by position
  // ---------------------------------------------------------------------

  /** Position of the first child of p at lo or later. */
  function NextKid(c: seq<Created>, p: Option<Id>, lo: nat): (k: nat)
    ensures k <= |c| || k == lo
    ensures lo <= k
    ensures k < |c| ==> c[k].parent == p
    ensures forall j :: lo <= j < k && j < |c| ==> c[j].parent != p
    decreases |c| - lo
  {
    if lo >= |c| || c[lo].parent == p then lo else NextKid(c, p, lo + 1)
  }

  /** The pre-order reading: each child of p from lo on, followed by its own subtree. */
  function Read(c: seq<Created>, p: Option<Id>, depth: nat, lo: nat): seq<(nat, nat)>
    decreases |c| - lo
  {
    var k := NextKid(c, p, lo);
    if k >= |c| then []
    else [(k, depth)] + Read(c, Some(c[k].id), depth + 1, k + 1) + Read(c, p, depth, k + 1)
  }

  // ---------------------------------------------------------------------
  // The reading is the payload
  // ---------------------------------------------------------------------

  /** The first position from lo on whose depth is at most b, or the end. */
  function FirstAtMost(d: seq<nat>, lo: nat, b: int): (k: nat)
    requires lo <= |d|
    ensures lo <= k <= |d|
    ensures k < |d| ==> d[k] <= b
    ensures forall j :: lo <= j < k ==> d[j] > b
    decreases |d| - lo
  {
    if lo == |d| || d[lo] <= b then lo else FirstAtMost(d, lo + 1, b)
  }

  /** Lines lo up to hi with their depths. */
  function Lines(d: seq<nat>, lo: nat, hi: nat): seq<(nat, nat)>
    requires lo <= hi <= |d|
    decreases hi - lo
  {
    if lo == hi then [] else [(lo, d[lo])] + Lines(d, lo + 1, hi)
  }

  lemma {:induction false} LinesJoin(d: seq<nat>, lo: nat, mid: nat, hi: nat)
    requires lo <= mid <= hi <= |d|
    ensures Lines(d, lo, mid) + Lines(d, mid, hi) == Lines(d, lo, hi)
    decreases mid - lo
  {
    if lo < mid {
      LinesJoin(d, lo + 1, mid, hi);
    }
  }

  ghost predicate FreshIds(base: Option<Id>, ids: seq<Id>) {
    NoDup(ids) && (base.Some? ==> base.value !in ids)
  }

  /** p is open at lo for depth b: the base, or a line at depth b - 1 that no later line closed. */
  ghost predicate OpenAt(d: seq<nat>, base: Option<Id>, ids: seq<Id>, p: Option<Id>, b: nat, lo: nat, q: nat)
    requires |ids| == |d| && lo <= |d|
  {
    if b == 0 then p == base
    else q < lo && d[q] == b - 1 && p == Some(ids[q]) && forall j :: q < j < lo ==> d[j] > b - 1
  }

  lemma ParentIs(lines: seq<ParsedLine>, d: seq<nat>, base: Option<Id>, ids: seq<Id>, k: nat)
    requires |lines| == |d| == |ids| && k < |d| && Stepwise(d)
    ensures d[k] == 0 ==> Planted(lines, d, base, ids)[k].parent == base
    ensures d[k] > 0 ==>
              var q := Nearest(d, k, d[k] - 1);
              q.Some? && q.value < k && Planted(lines, d, base, ids)[k].parent == Some(ids[q.value])
  {
    if d[k] > 0 {
      NearestProps(d, k, d[k] - 1);
      if Nearest(d, k, d[k] - 1).None? {
        var m := Crossing(d, 0, k, d[k] - 1);
      }
    }
  }

  /** A line deeper than b is no child of a parent open for depth b. */
  lemma DeeperIsNoKid(lines: seq<ParsedLine>, d: seq<nat>, base: Option<Id>, ids: seq<Id>,
                      p: Option<Id>, b: nat, lo: nat, q: nat, j: nat)
    requires |lines| == |d| == |ids| && Stepwise(d) && FreshIds(base, ids)
    requires lo <= j < |d| && OpenAt(d, base, ids, p, b, lo, q) && d[j] > b
    ensures Planted(lines, d, base, ids)[j].parent != p
  {
    ParentIs(lines, d, base, ids, j);
    NearestProps(d, j, d[j] - 1);
    var r := Nearest(d, j, d[j] - 1).value;
    if b > 0 {
      assert d[r] != d[q];
      assert ids[r] != ids[q];
    }
  }

  /** After a line shallower than b, no line is a child of a parent open for depth b. */
  lemma ClosedIsNoKid(lines: seq<ParsedLine>, d: seq<nat>, base: Option<Id>, ids: seq<Id>,
                      p: Option<Id>, b: nat, lo: nat, q: nat, k: nat, j: nat)
    requires |lines| == |d| == |ids| && Stepwise(d) && FreshIds(base, ids)
    requires lo <= k <= j < |d| && OpenAt(d, base, ids, p, b, lo, q) && d[k] < b
    ensures Planted(lines, d, base, ids)[j].parent != p
  {
    ParentIs(lines, d, base, ids, j);
    if d[j] > 0 {
      NearestProps(d, j, d[j] - 1);
      var r := Nearest(d, j, d[j] - 1).value;
      if r == q {
        assert d[j] == b;
        var m := Crossing(d, k, j, b - 1);
        assert false;
      }
      assert ids[r] != ids[q];
    } else if base.Some? {
      assert ids[q] in ids;
    }
  }

  /** The next child of an open parent is the next line no deeper than its children, if that
      line is not shallower. */
  lemma NextKidIs(lines: seq<ParsedLine>, d: seq<nat>, base: Option<Id>, ids: seq<Id>,
                  p: Option<Id>, b: nat, lo: nat, q: nat)
    requires |lines| == |d| == |ids| && Stepwise(d) && FreshIds(base, ids)
    requires lo <= |d| && OpenAt(d, base, ids, p, b, lo, q)
    ensures var k := FirstAtMost(d, lo, b);
            var next := NextKid(Planted(lines, d, base, ids), p, lo);
            next == if k < |d| && d[k] == b then k else |d|
  {
    var c := Planted(lines, d, base, ids);
    var k := FirstAtMost(d, lo, b);
    forall j | lo <= j < k ensures c[j].parent != p {
      DeeperIsNoKid(lines, d, base, ids, p, b, lo, q, j);
    }
    if k < |d| && d[k] == b {
      ParentIs(lines, d, base, ids, k);
      if b > 0 {
        NearestIs(d, k, b - 1, q);
      }
    } else {
      forall j | k <= j < |d| ensures c[j].parent != p {
        ClosedIsNoKid(lines, d, base, ids, p, b, lo, q, k, j);
      }
    }
  }

  /** Reading under an open parent yields exactly the lines up to where it is closed. */
  lemma {:induction false} ReadOpen(lines: seq<ParsedLine>, d: seq<nat>, base: Option<Id>, ids: seq<Id>,
                                    p: Option<Id>, b: nat, lo: nat, q: nat)
    requires |lines| == |d| == |ids| && Stepwise(d) && FreshIds(base, ids)
    requires lo <= |d| && OpenAt(d, base, ids, p, b, lo, q)
    ensures FirstAtMost(d, lo, b) <= FirstAtMost(d, lo, b - 1)
    ensures Read(Planted(lines, d, base, ids), p, b, lo)
            == Lines(d, FirstAtMost(d, lo, b), FirstAtMost(d, lo, b - 1))
    decreases |d| - lo
  {
    hide OpenAt;
    hide Planted;
    hide NextKid;
    hide Stepwise;
    hide FreshIds;
    hide Read;
    hide Lines;
    hide FirstAtMost;
    var c := Planted(lines, d, base, ids);
    var k := FirstAtMost(d, lo, b);
    NextKidIs(lines, d, base, ids, p, b, lo, q);
    FirstAfter(d, lo, b);
    ReadStep(c, p, b, lo);
    if k < |d| && d[k] == b {
      OpenNext(d, base, ids, p, b, lo, q);
      KidId(lines, d, base, ids, k);
      FirstBelowKid(d, b, k);
      ReadOpen(lines, d, base, ids, Some(ids[k]), b + 1, k + 1, k);
      ReadOpen(lines, d, base, ids, p, b, k + 1, q);
      LinesStep(d, k, FirstAtMost(d, k + 1, b), FirstAtMost(d, lo, b - 1));
    } else {
      NoLines(d, k);
    }
  }

  lemma ReadStep(c: seq<Created>, p: Option<Id>, depth: nat, lo: nat)
    ensures var k := NextKid(c, p, lo);
            Read(c, p, depth, lo)
            == if k >= |c| then []
               else [(k, depth)] + Read(c, Some(c[k].id), depth + 1, k + 1) + Read(c, p, depth, k + 1)
  {
  }

  lemma NoLines(d: seq<nat>, k: nat)
    requires k <= |d|
    ensures Lines(d, k, k) == []
  {
  }

  lemma LinesStep(d: seq<nat>, k: nat, mid: nat, hi: nat)
    requires k < mid <= hi <= |d|
    ensures [(k, d[k])] + Lines(d, k + 1, mid) + Lines(d, mid, hi) == Lines(d, k, hi)
  {
    LinesJoin(d, k + 1, mid, hi);
  }

  lemma KidId(lines: seq<ParsedLine>, d: seq<nat>, base: Option<Id>, ids: seq<Id>, k: nat)
    requires |lines| == |d| == |ids| && k < |d|
    ensures Planted(lines, d, base, ids)[k].id == ids[k]
  {
  }

  /** A child line opens itself for its own children and leaves its parent open. */
  lemma OpenNext(d: seq<nat>, base: Option<Id>, ids: seq<Id>, p: Option<Id>, b: nat, lo: nat, q: nat)
    requires |ids| == |d| && lo <= |d| && OpenAt(d, base, ids, p, b, lo, q)
    requires FirstAtMost(d, lo, b) < |d| && d[FirstAtMost(d, lo, b)] == b
    ensures var k := FirstAtMost(d, lo, b);
            OpenAt(d, base, ids, Some(ids[k]), b + 1, k + 1, k) && OpenAt(d, base, ids, p, b, k + 1, q)
  {
  }

  lemma FirstAfter(d: seq<nat>, lo: nat, b: nat)
    requires lo <= |d|
    ensures var k := FirstAtMost(d, lo, b);
            && k <= FirstAtMost(d, lo, b - 1)
            && (k < |d| && d[k] == b ==> FirstAtMost(d, lo, b - 1) == FirstAtMost(d, k + 1, b - 1))
            && (k == |d| || d[k] < b ==> FirstAtMost(d, lo, b - 1) == k)
  {
  }

  lemma FirstBelowKid(d: seq<nat>, b: nat, k: nat)
    requires k < |d| && d[k] == b && Stepwise(d)
    ensures FirstAtMost(d, k + 1, b + 1) == k + 1
  {
    if k + 1 < |d| {
      assert d[k + 1] <= d[k + 1 - 1] + 1;
    }
  }

  // ---------------------------------------------------------------------
  // What is shown is what is read by position
  // ---------------------------------------------------------------------

  /** Nodes hang under the base or under an earlier node, and ids are distinct. */
  ghost predicate Grown(c: seq<Created>, base: Option<Id>) {
    && (forall i, j :: 0 <= i < j < |c| ==> c[i].id != c[j].id)
    && (forall i :: 0 <= i < |c| ==> base != Some(c[i].id))
    && (forall i, j :: 0 <= i <= j < |c| ==> c[i].parent != Some(c[j].id))
  }

  lemma PlantedGrown(lines: seq<ParsedLine>, d: seq<nat>, base: Option<Id>, ids: seq<Id>)
    requires |lines| == |d| == |ids| && Stepwise(d) && FreshIds(base, ids)
    ensures Grown(Planted(lines, d, base, ids), base) && Numbered(Planted(lines, d, base, ids))
  {
    var c := Planted(lines, d, base, ids);
    forall i, j | 0 <= i <= j < |c| ensures c[i].parent != Some(c[j].id) {
      ParentIs(lines, d, base, ids, i);
      hide Nearest;
      assert ids[j] in ids;
    }
    forall i | 0 <= i < |c| ensures base != Some(c[i].id) {
      assert ids[i] in ids;
    }
  }

  /** A node's children come after it. */
  lemma {:induction false} KidsComeLater(c: seq<Created>, base: Option<Id>, k: nat, lo: nat)
    requires Grown(c, base) && k < |c| && lo <= k + 1
    ensures KidsFrom(c, Some(c[k].id), lo) == KidsFrom(c, Some(c[k].id), k + 1)
    decreases k + 1 - lo
  {
    if lo <= k {
      KidsComeLater(c, base, k, lo + 1);
    }
  }

  lemma {:induction false} KidsByPosition(c: seq<Created>, p: Option<Id>, lo: nat)
    ensures var k := NextKid(c, p, lo);
            KidsFrom(c, p, lo) == if k >= |c| then [] else [c[k]] + KidsFrom(c, p, k + 1)
    decreases |c| - lo
  {
    if lo < |c| && c[lo].parent != p {
      KidsByPosition(c, p, lo + 1);
    }
  }

  /** The nodes at the given positions, with their depths. */
  function At(c: seq<Created>, r: seq<(nat, nat)>): seq<(Created, nat)>
    requires forall i :: 0 <= i < |r| ==> r[i].0 < |c|
  {
    seq(|r|, i requires 0 <= i < |r| => (c[r[i].0], r[i].1))
  }

  lemma {:induction false} ReadInside(c: seq<Created>, p: Option<Id>, depth: nat, lo: nat)
    ensures forall i :: 0 <= i < |Read(c, p, depth, lo)| ==> Read(c, p, depth, lo)[i].0 < |c|
    decreases |c| - lo
  {
    var k := NextKid(c, p, lo);
    if k < |c| {
      ReadInside(c, Some(c[k].id), depth + 1, k + 1);
      ReadInside(c, p, depth, k + 1);
    }
  }

  /** The displayed children of an earlier node are its later children by position. */
  lemma DisplayedKids(c: seq<Created>, base: Option<Id>, stored: Stored, rank: Created -> int, k: nat)
    requires Grown(c, base) && Numbered(c) && KeepsOrder(c, rank) && Holds(c, stored) && k < |c|
    ensures Displayed(stored, rank, Some(c[k].id)) == KidsFrom(c, Some(c[k].id), k + 1)
  {
    DisplayOrder(c, Some(c[k].id), stored(Some(c[k].id)), rank);
    KidsComeLater(c, base, k, 0);
  }

  /** Whatever trees a reader is shown under the children of p, their reading is the reading by
      position. */
  lemma {:induction false} ShownIsRead(c: seq<Created>, base: Option<Id>, stored: Stored, rank: Created -> int,
                                       p: Option<Id>, depth: nat, lo: nat, ts: seq<Shown>)
    requires Grown(c, base) && Numbered(c) && KeepsOrder(c, rank) && Holds(c, stored)
    requires Shows(stored, rank, KidsFrom(c, p, lo), ts)
    ensures forall i :: 0 <= i < |Read(c, p, depth, lo)| ==> Read(c, p, depth, lo)[i].0 < |c|
    ensures Reading(ts, depth) == At(c, Read(c, p, depth, lo))
    decreases ts
  {
    hide Displayed;
    hide Grown;
    hide KeepsOrder;
    hide Holds;
    hide NextKid;
    hide KidsFrom;
    hide Numbered;
    var k := NextKid(c, p, lo);
    ReadInside(c, p, depth, lo);
    KidsByPosition(c, p, lo);
    ReadStep(c, p, depth, lo);
    hide Read;
    if k < |c| {
      var kids := KidsFrom(c, p, lo);
      assert kids[0] == c[k] && kids[1..] == KidsFrom(c, p, k + 1);
      DisplayedKids(c, base, stored, rank, k);
      ShownIsRead(c, base, stored, rank, Some(c[k].id), depth + 1, k + 1, ts[0].kids);
      ShownIsRead(c, base, stored, rank, p, depth, k + 1, ts[1..]);
      AtJoins(c, k, depth, Read(c, Some(c[k].id), depth + 1, k + 1), Read(c, p, depth, k + 1));
    }
  }

  lemma AtJoins(c: seq<Created>, k: nat, depth: nat, a: seq<(nat, nat)>, b: seq<(nat, nat)>)
    requires k < |c|
    requires (forall i :: 0 <= i < |a| ==> a[i].0 < |c|) && (forall i :: 0 <= i < |b| ==> b[i].0 < |c|)
    ensures At(c, [(k, depth)] + a + b) == [(c[k], depth)] + At(c, a) + At(c, b)
  {
  }

  /** There are such trees. */
  lemma {:induction false} ShownExists(c: seq<Created>, base: Option<Id>, stored: Stored, rank: Created -> int,
                                       p: Option<Id>, lo: nat) returns (ts: seq<Shown>)
    requires Grown(c, base) && Numbered(c) && KeepsOrder(c, rank) && Holds(c, stored)
    ensures Shows(stored, rank, KidsFrom(c, p, lo), ts)
    decreases |c| - lo
  {
    hide Displayed;
    hide Grown;
    hide KeepsOrder;
    hide Holds;
    hide KidsFrom;
    hide Numbered;
    var k := NextKid(c, p, lo);
    KidsByPosition(c, p, lo);
    ts := [];
    if k < |c| {
      var kids := KidsFrom(c, p, lo);
      assert kids[0] == c[k] && kids[1..] == KidsFrom(c, p, k + 1);
      DisplayedKids(c, base, stored, rank, k);
      var below := ShownExists(c, base, stored, rank, Some(c[k].id), k + 1);
      var rest := ShownExists(c, base, stored, rank, p, k + 1);
      ts := [Shown.Shown(c[k], below)] + rest;
      assert ts[1..] == rest;
    }
  }

  /** The nodes in line order, each at its depth. */
  function InOrder(c: seq<Created>, d: seq<nat>): seq<(Created, nat)>
    requires |c| <= |d|
  {
    seq(|c|, i requires 0 <= i < |c| => (c[i], d[i]))
  }

  lemma {:induction false} LinesLength(d: seq<nat>, lo: nat)
    requires lo <= |d|
    ensures |Lines(d, lo, |d|)| == |d| - lo
    decreases |d| - lo
  {
    if lo < |d| {
      LinesLength(d, lo + 1);
    }
  }

  lemma {:induction false} LineAt(d: seq<nat>, lo: nat, i: nat)
    requires lo + i < |d|
    ensures |Lines(d, lo, |d|)| == |d| - lo && Lines(d, lo, |d|)[i] == (lo + i, d[lo + i])
    decreases i
  {
    LinesLength(d, lo);
    LinesLength(d, lo + 1);
    if i > 0 {
      LineAt(d, lo + 1, i - 1);
    }
  }

  lemma LinesInOrder(c: seq<Created>, d: seq<nat>)
    requires |c| == |d|
    ensures forall i :: 0 <= i < |Lines(d, 0, |d|)| ==> Lines(d, 0, |d|)[i].0 < |c|
    ensures At(c, Lines(d, 0, |d|)) == InOrder(c, d)
  {
    hide Lines;
    LinesLength(d, 0);
    forall i: nat | i < |d| ensures Lines(d, 0, |d|)[i] == (i, d[i]) {
      LineAt(d, 0, i);
    }
  }

  /** A run that created the first |ids| lines: however the server stores them and rescales their
      priorities, whatever a reader is shown under the base reads as those lines in order, each
      at its clamped depth. */
  lemma InsertReadsBack(lines: seq<ParsedLine>, base: Option<Id>, ids: seq<Id>, stored: Stored, rank: Created -> int,
                        ts: seq<Shown>)
    requires |ids| <= |lines| && FreshIds(base, ids)
    requires var c := Planted(lines, Clamp(lines), base, ids);
             Holds(c, stored) && KeepsOrder(c, rank) && Shows(stored, rank, Displayed(stored, rank, base), ts)
    ensures Reading(ts, 0) == InOrder(Planted(lines, Clamp(lines), base, ids), Clamp(lines))
  {
    var n := |ids|;
    var d := Clamp(lines)[..n];
    var c := Planted(lines, Clamp(lines), base, ids);
    ClampPrefix(lines, n);
    ClampStepwise(lines[..n]);
    PlantedPrefix(lines, Clamp(lines), base, ids);
    hide Planted;
    hide Clamp;
    hide Holds;
    hide KeepsOrder;
    hide Shows;
    hide Stepwise;
    hide Grown;
    hide FreshIds;
    hide Lines;
    hide Read;
    PlantedGrown(lines[..n], d, base, ids);
    BaseDisplayed(c, base, stored, rank);
    ShownIsRead(c, base, stored, rank, base, 0, 0, ts);
    ReadAll(lines[..n], d, base, ids);
    LinesInOrder(c, d);
  }

  lemma BaseDisplayed(c: seq<Created>, base: Option<Id>, stored: Stored, rank: Created -> int)
    requires Numbered(c) && KeepsOrder(c, rank) && Holds(c, stored)
    ensures Displayed(stored, rank, base) == KidsFrom(c, base, 0)
  {
    DisplayOrder(c, base, stored(base), rank);
  }

  lemma ReadAll(lines: seq<ParsedLine>, d: seq<nat>, base: Option<Id>, ids: seq<Id>)
    requires |lines| == |d| == |ids| && Stepwise(d) && FreshIds(base, ids)
    ensures Read(Planted(lines, d, base, ids), base, 0, 0) == Lines(d, 0, |d|)
  {
    ReadOpen(lines, d, base, ids, base, 0, 0, 0);
    assert FirstAtMost(d, 0, 0) == 0;
    assert FirstAtMost(d, 0, -1) == |d|;
  }

  /** The premises can be met: for any such storage there are trees to be shown. */
  lemma DisplayExists(lines: seq<ParsedLine>, base: Option<Id>, ids: seq<Id>, stored: Stored, rank: Created -> int)
    returns (ts: seq<Shown>)
    requires |ids| <= |lines| && FreshIds(base, ids)
    requires var c := Planted(lines, Clamp(lines), base, ids);
             Holds(c, stored) && KeepsOrder(c, rank)
    ensures Shows(stored, rank, Displayed(stored, rank, base), ts)
  {
    var n := |ids|;
    var c := Planted(lines, Clamp(lines), base, ids);
    ClampPrefix(lines, n);
    ClampStepwise(lines[..n]);
    PlantedPrefix(lines, Clamp(lines), base, ids);
    hide Planted;
    hide Clamp;
    hide Holds;
    hide KeepsOrder;
    hide Shows;
    hide Stepwise;
    PlantedGrown(lines[..n], Clamp(lines)[..n], base, ids);
    BaseDisplayed(c, base, stored, rank);
    ts := ShownExists(c, base, stored, rank, base, 0);
  }

  /** A partial run's forest is the forest of the lines it reached. */
  lemma PlantedPrefix(lines: seq<ParsedLine>, d: seq<nat>, base: Option<Id>, ids: seq<Id>)
    requires |lines| == |d| && |ids| <= |d|
    ensures Planted(lines, d, base, ids) == Planted(lines[..|ids|], d[..|ids|], base, ids)
  {
    forall k | 0 <= k < |ids|
      ensures LineParent(d, base, ids[..k], k) == LineParent(d[..|ids|], base, ids[..k], k)
    {
      if d[k] > 0 {
        NearestPrefix(d, |ids|, k, d[k] - 1);
      }
    }
  }

  lemma {:induction false} NearestPrefix(d: seq<nat>, n: nat, k: nat, depth: nat)
    requires k <= n <= |d|
    ensures Nearest(d, k, depth) == Nearest(d[..n], k, depth)
    decreases k
  {
    if k > 0 && d[k - 1] != depth {
      NearestPrefix(d, n, k - 1, depth);
    }
  }
}
