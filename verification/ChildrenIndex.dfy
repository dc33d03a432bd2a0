/** The parent-to-children index that subtree invalidation follows. Entries may repeat, and the same
    child may hang under several parents. */
module ChildrenIndex {
  import opened Outlines

  type Index = map<Id, seq<Id>>

  function Kids(index: Index, id: Id): seq<Id> {
    if id in index then index[id] else []
  }

  /** Each step of the path goes from a node to one of its indexed children. */
  ghost predicate IndexPath(index: Index, path: seq<Id>) {
    path != [] && forall i :: 0 <= i < |path| - 1 ==> path[i + 1] in Kids(index, path[i])
  }

  ghost predicate Reaches(index: Index, root: Id, x: Id) {
    exists path :: IndexPath(index, path) && path[0] == root && path[|path| - 1] == x
  }

  /** The ids of a set that the root reaches. */
  ghost function ReachedOf(index: Index, root: Id, ids: set<Id>): set<Id> {
    set x | x in ids && Reaches(index, root, x)
  }

  lemma ReachesSelf(index: Index, x: Id)
    ensures Reaches(index, x, x)
  {
    assert IndexPath(index, [x]);
  }

  lemma ReachesKid(index: Index, root: Id, x: Id, c: Id)
    requires Reaches(index, root, x) && c in Kids(index, x)
    ensures Reaches(index, root, c)
  {
    var path :| IndexPath(index, path) && path[0] == root && path[|path| - 1] == x;
    assert IndexPath(index, path + [c]);
    assert (path + [c])[|path|] == c;
  }

  /** A set that holds the root and the children of its members holds all the root reaches. */
  lemma ClosedHoldsReached(index: Index, gone: set<Id>, root: Id, x: Id)
    requires root in gone && forall p, c :: p in gone && c in Kids(index, p) ==> c in gone
    requires Reaches(index, root, x)
    ensures x in gone
  {
    var path :| IndexPath(index, path) && path[0] == root && path[|path| - 1] == x;
    for i := 0 to |path| - 1
      invariant path[i] in gone
    {
    }
  }

  // ---------------------------------------------------------------------
  // Acyclicity and the unfolded size
  // ---------------------------------------------------------------------

  /** A rank that falls along every edge, on a set of ids closed under children. */
  ghost predicate Ranking(index: Index, h: map<Id, nat>) {
    forall p, c :: p in h && c in Kids(index, p) ==> c in h && h[c] < h[p]
  }

  /** No cycle can be reached from any id of the worklist. */
  ghost predicate AcyclicBelow(index: Index, work: seq<Id>) {
    exists h :: Ranking(index, h) && forall x :: x in work ==> x in h
  }

  /** Some ranking's greatest value over a list of ids. */
  ghost function Tallest(h: map<Id, nat>, ids: seq<Id>): (m: nat)
    requires forall x :: x in ids ==> x in h
    ensures forall x :: x in ids ==> h[x] <= m
  {
    if ids == [] then 0
    else
      var rest := Tallest(h, ids[1..]);
      if h[ids[0]] > rest then h[ids[0]] else rest
  }

  /** How many visits clearing the ids takes: each is visited once for every path that leads to it. */
  ghost function Unfolded(index: Index, h: map<Id, nat>, ids: seq<Id>): nat
    requires Ranking(index, h) && forall x :: x in ids ==> x in h
    decreases Tallest(h, ids), |ids|
  {
    if ids == [] then 0
    else
      var last := |ids| - 1;
      TallestPart(h, ids);
      TallestKids(index, h, ids);
      Unfolded(index, h, ids[..last]) + 1 + Unfolded(index, h, Kids(index, ids[last]))
  }

  lemma {:induction false} TallestAttained(h: map<Id, nat>, ids: seq<Id>)
    requires ids != [] && forall x :: x in ids ==> x in h
    ensures exists x :: x in ids && h[x] == Tallest(h, ids)
  {
    if |ids| == 1 {
      assert h[ids[0]] == Tallest(h, ids);
    } else {
      TallestAttained(h, ids[1..]);
      var y :| y in ids[1..] && h[y] == Tallest(h, ids[1..]);
      assert y in ids && ids[0] in ids;
    }
  }

  lemma TallestPart(h: map<Id, nat>, ids: seq<Id>)
    requires ids != [] && forall x :: x in ids ==> x in h
    ensures Tallest(h, ids[..|ids| - 1]) <= Tallest(h, ids)
  {
    var part := ids[..|ids| - 1];
    if part != [] {
      TallestAttained(h, part);
    }
  }

  lemma TallestKids(index: Index, h: map<Id, nat>, ids: seq<Id>)
    requires Ranking(index, h) && ids != [] && forall x :: x in ids ==> x in h
    ensures var kids := Kids(index, ids[|ids| - 1]);
      kids == [] || Tallest(h, kids) < Tallest(h, ids)
  {
    var kids := Kids(index, ids[|ids| - 1]);
    if kids != [] {
      TallestAttained(h, kids);
      assert ids[|ids| - 1] in ids;
    }
  }

  lemma {:induction false} UnfoldedAppend(index: Index, h: map<Id, nat>, a: seq<Id>, b: seq<Id>)
    requires Ranking(index, h) && (forall x :: x in a ==> x in h) && (forall x :: x in b ==> x in h)
    ensures Unfolded(index, h, a + b) == Unfolded(index, h, a) + Unfolded(index, h, b)
    decreases |b|
  {
    if b == [] {
      assert a + b == a;
    } else {
      hide Tallest;
      hide Kids;
      var last := |b| - 1;
      UnfoldedAppend(index, h, a, b[..last]);
      assert (a + b)[..|a + b| - 1] == a + b[..last];
      assert (a + b)[|a + b| - 1] == b[last];
    }
  }

  // ---------------------------------------------------------------------
  // Runs of the worklist
  // ---------------------------------------------------------------------

  /** One turn of the loop: take the last id off and queue its children. */
  function Popped(index: Index, work: seq<Id>): seq<Id>
    requires work != []
  {
    work[..|work| - 1] + Kids(index, work[|work| - 1])
  }

  lemma PopShrinks(index: Index, h: map<Id, nat>, work: seq<Id>)
    requires Ranking(index, h) && work != [] && forall x :: x in work ==> x in h
    ensures forall x :: x in Popped(index, work) ==> x in h
    ensures Unfolded(index, h, Popped(index, work)) == Unfolded(index, h, work) - 1
  {
    var last := work[|work| - 1];
    assert last in work;
    UnfoldedAppend(index, h, work[..|work| - 1], Kids(index, last));
  }

  /** The worklist after n turns, if it does not run out before. */
  function Turns(index: Index, work: seq<Id>, n: nat): seq<Id>
    decreases n
  {
    if work == [] || n == 0 then work else Turns(index, Popped(index, work), n - 1)
  }

  /** The loop takes as many turns as the unfolded size, no more and no fewer. */
  lemma {:induction false} TurnsTaken(index: Index, h: map<Id, nat>, work: seq<Id>, n: nat)
    requires Ranking(index, h) && forall x :: x in work ==> x in h
    ensures Turns(index, work, n) == [] <==> n >= Unfolded(index, h, work)
    decreases n
  {
    if work != [] {
      PopShrinks(index, h, work);
      if n > 0 {
        TurnsTaken(index, h, Popped(index, work), n - 1);
      }
    }
  }

  /** A run that ends yields a ranking of everything it visited. */
  lemma {:induction false} EndedRunRanks(index: Index, work: seq<Id>, n: nat) returns (h: map<Id, nat>)
    requires Turns(index, work, n) == []
    ensures Ranking(index, h) && forall x :: x in work ==> x in h
    decreases n
  {
    hide Ranking;
    hide Tallest;
    hide Kids;
    hide Turns;
    if work == [] {
      NothingRanked(index);
      h := map[];
    } else {
      var next, last := Popped(index, work), work[|work| - 1];
      TurnOnce(index, work, n);
      h := EndedRunRanks(index, next, n - 1);
      assert forall c :: c in Kids(index, last) ==> c in next;
      forall x | x in work && x != last ensures x in h {
        assert x in work[..|work| - 1];
        assert x in next;
      }
      if last !in h {
        ExtendRanking(index, h, last);
        h := h[last := Tallest(h, Kids(index, last)) + 1];
      }
    }
  }

  lemma NothingRanked(index: Index)
    ensures Ranking(index, map[])
  {
  }

  lemma TurnOnce(index: Index, work: seq<Id>, n: nat)
    requires work != [] && Turns(index, work, n) == []
    ensures n > 0 && Turns(index, Popped(index, work), n - 1) == []
  {
    hide Popped;
  }

  lemma ExtendRanking(index: Index, h: map<Id, nat>, id: Id)
    requires Ranking(index, h) && id !in h && forall c :: c in Kids(index, id) ==> c in h
    ensures Ranking(index, h[id := Tallest(h, Kids(index, id)) + 1])
  {
    hide Kids;
    hide Tallest;
  }

  /** Clearing a worklist ends exactly when no cycle can be reached from it. */
  lemma EndsExactlyWhenAcyclic(index: Index, work: seq<Id>)
    ensures (exists n: nat :: Turns(index, work, n) == []) <==> AcyclicBelow(index, work)
  {
    if AcyclicBelow(index, work) {
      var h :| Ranking(index, h) && forall x :: x in work ==> x in h;
      TurnsTaken(index, h, work, Unfolded(index, h, work));
      assert Turns(index, work, Unfolded(index, h, work)) == [];
    }
    if n: nat :| Turns(index, work, n) == [] {
      var h := EndedRunRanks(index, work, n);
    }
  }

  // ---------------------------------------------------------------------
  // Progress of a clearing
  // ---------------------------------------------------------------------

  /** Visited and queued ids are reached from the root, and every child of a visited id is one of
      them. */
  ghost predicate Clearing(index: Index, root: Id, gone: set<Id>, work: seq<Id>) {
    && (root in gone || root in work)
    && (forall p, c :: p in gone && c in Kids(index, p) ==> c in gone || c in work)
    && (forall x :: x in gone || x in work ==> Reaches(index, root, x))
  }

  lemma ClearingStarts(index: Index, root: Id)
    ensures Clearing(index, root, {}, [root])
  {
    ReachesSelf(index, root);
  }

  lemma ClearingStep(index: Index, root: Id, gone: set<Id>, work: seq<Id>)
    requires Clearing(index, root, gone, work) && work != []
    ensures Clearing(index, root, gone + {work[|work| - 1]}, Popped(index, work))
  {
    hide Reaches;
    hide Kids;
    var last := work[|work| - 1];
    var next := Popped(index, work);
    assert last in work;
    assert forall x :: x in work ==> x == last || x in next;
    assert forall c :: c in Kids(index, last) ==> c in next;
    forall c | c in Kids(index, last) ensures Reaches(index, root, c) {
      ReachesKid(index, root, last, c);
    }
  }

  lemma ClearingEnds(index: Index, root: Id, gone: set<Id>)
    requires Clearing(index, root, gone, [])
    ensures forall x :: x in gone <==> Reaches(index, root, x)
  {
    hide Reaches;
    forall x | Reaches(index, root, x) ensures x in gone {
      ClosedHoldsReached(index, gone, root, x);
    }
  }
}
