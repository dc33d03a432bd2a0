/** What a walk part-way down the forest knows, and how one level, a stop or the end keeps it. */
module WalkInvariant {
  import opened Sequences
  import opened Outlines
  import opened LevelOrder

  /** A walk part-way: what it emitted, the level it is at, how many levels remain below it and
      the branches it dropped; before and canon are the full levels above and at its position. */
  datatype Walk = Walk(
    emitted: seq<Node>,
    current: seq<Node>,
    rem: nat,
    skipped: seq<Id>,
    before: seq<Node>,
    canon: seq<Node>)

  function SetOf(s: seq<Id>): set<Id> {
    set x | x in s
  }

  ghost predicate Agree(level: seq<Node>, t: set<Id>, s: set<Id>) {
    forall x :: x in Ids(level) ==> (x in t <==> x in s)
  }

  /** Whatever is skipped later, the emitted nodes followed by the rest of the pruned walk
      make up the pruned walk from the start. */
  ghost predicate Accounts(o: Outline, initial: seq<Node>, d: nat, emitted: seq<Node>, current: seq<Node>,
                           rem: nat, s: set<Id>) {
    forall t: set<Id> ::
      Agree(emitted, t, s) ==> emitted + Pruned(o, current, rem, t) == Pruned(o, initial, d, t)
  }

  ghost predicate ParentKnown(initial: seq<Node>, emitted: seq<Node>, n: Node) {
    n in initial || (n.parent.Some? && n.parent.value in Ids(emitted))
  }

  /** Each node of the level is initial or has its parent among the emitted. */
  ghost predicate LevelKnown(initial: seq<Node>, emitted: seq<Node>, level: seq<Node>) {
    forall n :: n in level ==> ParentKnown(initial, emitted, n)
  }

  ghost predicate SkippedKnown(emitted: seq<Node>, skipped: seq<Id>) {
    NoDup(skipped) && forall x :: x in skipped ==> x in Ids(emitted)
  }

  ghost predicate Within(o: Outline, initial: seq<Node>, d: nat, w: Walk) {
    && w.before + Listed(o, w.canon, w.rem) == Listed(o, initial, d)
    && Subseq(w.emitted, w.before) && Subseq(w.current, w.canon)
  }

  ghost predicate Walking(o: Outline, initial: seq<Node>, d: nat, w: Walk) {
    && Within(o, initial, d, w)
    && Accounts(o, initial, d, w.emitted, w.current, w.rem, SetOf(w.skipped))
    && SkippedKnown(w.emitted, w.skipped)
    && LevelKnown(initial, w.emitted, w.emitted) && LevelKnown(initial, w.emitted, w.current)
  }

  /** What every exit of the walk delivers: a subsequence of the full listing in which each
      node is initial or comes with its parent. */
  ghost predicate Faithful(o: Outline, initial: seq<Node>, d: nat, emitted: seq<Node>) {
    Subseq(emitted, Listed(o, initial, d)) && LevelKnown(initial, emitted, emitted)
  }

  function Start(initial: seq<Node>, d: nat): Walk {
    Walk([], initial, d, [], [], initial)
  }

  /** The walk one level further down, without the children of the failed branches. */
  function Advanced(o: Outline, w: Walk, failed: seq<Id>): Walk
    requires w.rem > 0
  {
    Walk(w.emitted + w.current, Blocks(o, Except(Ids(w.current), SetOf(failed))), w.rem - 1,
         w.skipped + failed, w.before + w.canon, Blocks(o, Ids(w.canon)))
  }

  lemma WalkingStart(o: Outline, initial: seq<Node>, d: nat)
    ensures Walking(o, initial, d, Start(initial, d))
  {
    SubseqRefl(initial);
    hide Listed;
    hide Pruned;
    assert [] + Listed(o, initial, d) == Listed(o, initial, d);
    forall t: set<Id> ensures [] + Pruned(o, initial, d, t) == Pruned(o, initial, d, t) {
    }
  }

  lemma KnownAppend(initial: seq<Node>, emitted: seq<Node>, level: seq<Node>)
    requires LevelKnown(initial, emitted, emitted) && LevelKnown(initial, emitted, level)
    ensures LevelKnown(initial, emitted + level, emitted + level)
  {
    IdsAppend(emitted, level);
  }

  lemma KnownTake(initial: seq<Node>, emitted: seq<Node>, level: seq<Node>, k: nat)
    requires LevelKnown(initial, emitted, level) && k <= |level|
    ensures LevelKnown(initial, emitted, level[..k])
  {
  }

  lemma ChildrenKnown(o: Outline, initial: seq<Node>, emitted: seq<Node>, current: seq<Node>, s: set<Id>)
    requires ParentsAgree(o)
    ensures LevelKnown(initial, emitted + current, Blocks(o, Except(Ids(current), s)))
  {
    IdsAppend(emitted, current);
    var ps := Except(Ids(current), s);
    forall n | n in Blocks(o, ps) ensures ParentKnown(initial, emitted + current, n) {
      BlocksMembers(o, ps, n);
    }
  }

  /** The emitted nodes and the current level are distinct. */
  lemma WalkingDistinct(o: Outline, initial: seq<Node>, d: nat, w: Walk)
    requires Forest(o) && FirstLevel(o, initial) && Walking(o, initial, d, w)
    ensures Subseq(w.emitted + w.current, Listed(o, initial, d))
    ensures DistinctIds(w.emitted + w.current)
    ensures NoDup(Ids(w.current))
    ensures forall x :: x in Ids(w.current) ==> x !in Ids(w.emitted)
  {
    FirstLevelDistinct(o, initial, d);
    LevelPrefix(o, w);
    hide Listed;
    hide Walking;
    IdsSubseq(w.emitted + w.current, Listed(o, initial, d));
    SubseqNoDup(Ids(w.emitted + w.current), Ids(Listed(o, initial, d)));
    IdsAppend(w.emitted, w.current);
    SplitDistinct(Ids(w.emitted), Ids(w.current));
  }

  lemma SplitDistinct<T>(a: seq<T>, b: seq<T>)
    requires NoDup(a + b)
    ensures NoDup(b) && forall x :: x in b ==> x !in a
  {
    forall x | x in b ensures x !in a {
      var j :| 0 <= j < |b| && b[j] == x;
      forall i | 0 <= i < |a| ensures a[i] != x {
        assert (a + b)[i] != (a + b)[|a| + j];
      }
    }
    forall i, j | 0 <= i < j < |b| ensures b[i] != b[j] {
      assert (a + b)[|a| + i] != (a + b)[|a| + j];
    }
  }

  lemma LevelPrefix(o: Outline, w: Walk)
    requires Subseq(w.emitted, w.before) && Subseq(w.current, w.canon)
    ensures Subseq(w.emitted + w.current, w.before + Listed(o, w.canon, w.rem))
  {
    hide Listed;
    hide Blocks;
    hide Ids;
    hide Subseq;
    ListedStep(o, w.canon, w.rem);
    assert w.canon + [] == w.canon;
    PairExtends(w.emitted, w.before, w.current, w.canon,
                if w.rem == 0 then [] else Listed(o, Blocks(o, Ids(w.canon)), w.rem - 1));
  }

  lemma PairExtends(a: seq<Node>, b: seq<Node>, c: seq<Node>, d: seq<Node>, rest: seq<Node>)
    requires Subseq(a, b) && Subseq(c, d)
    ensures Subseq(a + c, b + (d + rest))
  {
    hide Subseq;
    SubseqAppend(a, b, c, d);
    SubseqExtend(a + c, b + d, rest);
    assert b + d + rest == b + (d + rest);
  }

  lemma PrunedStep(o: Outline, level: seq<Node>, d: nat, s: set<Id>)
    requires d > 0
    ensures Pruned(o, level, d, s) == level + Pruned(o, Blocks(o, Except(Ids(level), s)), d - 1, s)
  {
    hide Listing;
    hide Blocks;
  }

  lemma AgreeSplit(emitted: seq<Node>, current: seq<Node>, t: set<Id>, s: set<Id>, f: set<Id>)
    requires forall x :: x in s ==> x in Ids(emitted)
    requires forall x :: x in f ==> x in Ids(current)
    requires forall x :: x in Ids(current) ==> x !in Ids(emitted)
    requires Agree(emitted + current, t, s + f)
    ensures Agree(emitted, t, s)
    ensures forall x :: x in Ids(current) ==> (x in t <==> x in f)
  {
    IdsAppend(emitted, current);
    forall x | x in Ids(emitted) ensures x in t <==> x in s {
      assert x in Ids(emitted + current);
    }
    forall x | x in Ids(current) ensures x in t <==> x in f {
      assert x in Ids(emitted + current);
    }
  }

  lemma AccountsFor(o: Outline, initial: seq<Node>, d: nat, emitted: seq<Node>, current: seq<Node>,
                    rem: nat, s: set<Id>, f: set<Id>, t: set<Id>)
    requires rem > 0 && Accounts(o, initial, d, emitted, current, rem, s)
    requires forall x :: x in s ==> x in Ids(emitted)
    requires forall x :: x in f ==> x in Ids(current)
    requires forall x :: x in Ids(current) ==> x !in Ids(emitted)
    requires Agree(emitted + current, t, s + f)
    ensures (emitted + current) + Pruned(o, Blocks(o, Except(Ids(current), f)), rem - 1, t)
            == Pruned(o, initial, d, t)
  {
    hide Pruned;
    hide Blocks;
    hide Accounts;
    hide Agree;
    hide Ids;
    hide Except;
    AgreeSplit(emitted, current, t, s, f);
    AccountsAt(o, initial, d, emitted, current, rem, s, t);
    ExceptSame(Ids(current), t, f);
    PrunedStep(o, current, rem, t);
    var rest := Pruned(o, Blocks(o, Except(Ids(current), f)), rem - 1, t);
    assert (emitted + current) + rest == emitted + (current + rest);
  }

  lemma AccountsAt(o: Outline, initial: seq<Node>, d: nat, emitted: seq<Node>, current: seq<Node>, rem: nat,
                   s: set<Id>, t: set<Id>)
    requires Accounts(o, initial, d, emitted, current, rem, s) && Agree(emitted, t, s)
    ensures emitted + Pruned(o, current, rem, t) == Pruned(o, initial, d, t)
  {
    hide Pruned;
  }

  lemma AccountsStep(o: Outline, initial: seq<Node>, d: nat, emitted: seq<Node>, current: seq<Node>,
                     rem: nat, s: set<Id>, f: set<Id>)
    requires rem > 0 && Accounts(o, initial, d, emitted, current, rem, s)
    requires forall x :: x in f ==> x in Ids(current)
    requires forall x :: x in s ==> x in Ids(emitted)
    requires forall x :: x in Ids(current) ==> x !in Ids(emitted)
    ensures Accounts(o, initial, d, emitted + current, Blocks(o, Except(Ids(current), f)), rem - 1, s + f)
  {
    var next := Blocks(o, Except(Ids(current), f));
    forall t: set<Id> | Agree(emitted + current, t, s + f)
      ensures (emitted + current) + Pruned(o, next, rem - 1, t) == Pruned(o, initial, d, t)
    {
      AccountsFor(o, initial, d, emitted, current, rem, s, f, t);
    }
  }

  lemma SkippedStep(emitted: seq<Node>, current: seq<Node>, skipped: seq<Id>, failed: seq<Id>)
    requires SkippedKnown(emitted, skipped)
    requires NoDup(failed) && forall x :: x in failed ==> x in Ids(current)
    requires forall x :: x in Ids(current) ==> x !in Ids(emitted)
    ensures SkippedKnown(emitted + current, skipped + failed)
  {
    IdsAppend(emitted, current);
    NoDupAppend(skipped, failed);
  }

  lemma WithinStep(o: Outline, initial: seq<Node>, d: nat, w: Walk, failed: seq<Id>)
    requires w.rem > 0 && Within(o, initial, d, w)
    ensures Within(o, initial, d, Advanced(o, w, failed))
  {
    hide Listed;
    hide Blocks;
    hide Ids;
    hide Except;
    hide SetOf;
    hide Subseq;
    ListedStep(o, w.canon, w.rem);
    NextLevelSubseq(o, w.current, w.canon, SetOf(failed));
    SubseqAppend(w.emitted, w.before, w.current, w.canon);
    var rest := Listed(o, Blocks(o, Ids(w.canon)), w.rem - 1);
    assert (w.before + w.canon) + rest == w.before + (w.canon + rest);
  }

  /** One whole level: the current nodes are emitted and the children of all but the failed
      branches become the next level. */
  lemma WalkingAdvance(o: Outline, initial: seq<Node>, d: nat, w: Walk, failed: seq<Id>)
    requires Forest(o) && FirstLevel(o, initial) && w.rem > 0 && Walking(o, initial, d, w)
    requires NoDup(failed) && forall x :: x in failed ==> x in Ids(w.current)
    ensures Walking(o, initial, d, Advanced(o, w, failed))
  {
    hide Accounts;
    hide Within;
    hide Blocks;
    hide LevelKnown;
    WalkingDistinct(o, initial, d, w);
    AccountsStep(o, initial, d, w.emitted, w.current, w.rem, SetOf(w.skipped), SetOf(failed));
    assert SetOf(w.skipped + failed) == SetOf(w.skipped) + SetOf(failed);
    WithinStep(o, initial, d, w, failed);
    KnownAppend(initial, w.emitted, w.current);
    ChildrenKnown(o, initial, w.emitted, w.current, SetOf(failed));
    SkippedStep(w.emitted, w.current, w.skipped, failed);
  }

  lemma TakeFaithful(a: seq<Node>, b: seq<Node>, k: nat, whole: seq<Node>)
    requires Subseq(a + b, whole) && k <= |b|
    ensures Subseq(a + b[..k], whole)
    ensures |a| + |b| <= |whole|
  {
    SubseqRefl(a);
    SubseqTake(b, k);
    SubseqAppend(a, a, b[..k], b);
    SubseqTrans(a + b[..k], a + b, whole);
    SubseqMembers(a + b, whole);
  }

  /** A stop while emitting the current level. */
  lemma StopEmitting(o: Outline, initial: seq<Node>, d: nat, w: Walk, k: nat)
    requires Walking(o, initial, d, w) && k <= |w.current|
    ensures Faithful(o, initial, d, w.emitted + w.current[..k])
    ensures |w.emitted| + |w.current| <= |Listed(o, initial, d)|
    ensures SkippedKnown(w.emitted + w.current[..k], w.skipped)
  {
    LevelPrefix(o, w);
    hide Listed;
    hide Subseq;
    hide Accounts;
    TakeFaithful(w.emitted, w.current, k, Listed(o, initial, d));
    KnownTake(initial, w.emitted, w.current, k);
    KnownAppend(initial, w.emitted, w.current[..k]);
    IdsAppend(w.emitted, w.current[..k]);
  }

  /** The end of the walk: what was emitted is the listing pruned by the skipped branches. */
  lemma WalkingEnd(o: Outline, initial: seq<Node>, d: nat, w: Walk)
    requires Walking(o, initial, d, w) && (w.rem == 0 || w.current == [])
    ensures w.emitted + w.current == Pruned(o, initial, d, SetOf(w.skipped))
  {
    var s := SetOf(w.skipped);
    if w.current == [] {
      EmptyPruned(o, w.rem, s);
    } else {
      assert Pruned(o, w.current, 0, s) == w.current;
    }
    assert Agree(w.emitted, s, s);
  }
}
