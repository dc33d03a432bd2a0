/** The remote outline as the client's read side sees it: one raw child listing per parent,
    the display-ordered listing the funnel returns, and what it means to be a forest. */
module Outlines {
  import opened Sequences

  /** A node id; the wire carries its text. */
  datatype Id = Id(text: string)

  datatype Node = Node(
    id: Id,
    parent: Option<Id>,
    priority: Option<int>,
    name: string,
    note: Option<string>,
    completed: bool)

  /** Raw child listings keyed by parent id, in the order the server stores them.
      The workspace root is keyed by the empty string. */
  type Outline = map<Id, seq<Node>>

  /** A write is acknowledged, refused, or lands although an error is reported. */
  datatype WriteReply = Acked | Refused | Lost

  const WORKSPACE := Id("")

  const I64_MIN := -0x8000_0000_0000_0000

  /** The display key: a node without a priority sorts to the head. */
  function PriorityKey(n: Node): int {
    match n.priority
    case Some(p) => p
    case None => I64_MIN
  }

  function Raw(o: Outline, p: Id): seq<Node> {
    if p in o then o[p] else []
  }

  function AdoptOne(n: Node, p: Id): Node {
    if n.parent.None? then n.(parent := Some(p)) else n
  }

  /** The server leaves parent_id null in a listing; the client fills it in. */
  function Adopt(s: seq<Node>, p: Id): (r: seq<Node>)
    ensures |r| == |s|
    ensures forall i :: 0 <= i < |s| ==> r[i] == AdoptOne(s[i], p)
  {
    if s == [] then [] else [AdoptOne(s[0], p)] + Adopt(s[1..], p)
  }

  /** The display-ordered children of p. */
  function Listing(o: Outline, p: Id): seq<Node> {
    StableSort(Adopt(Raw(o, p), p), PriorityKey)
  }

  /** The display-ordered top level; these nodes keep their null parent. */
  function TopLevel(o: Outline): seq<Node> {
    StableSort(Raw(o, WORKSPACE), PriorityKey)
  }

  /** A priority travels as a 64-bit integer. */
  ghost predicate Wired(s: seq<Node>) {
    forall n :: n in s && n.priority.Some? ==> n.priority.value >= -9223372036854775808
  }

  /** May be displayed before: no priority before any, then by increasing priority. The least integer
      counts as none. */
  predicate NotAfter(a: Node, b: Node) {
    match (a.priority, b.priority)
    case (None, _) => true
    case (Some(v), Some(w)) => v <= w
    case (Some(v), None) => v == -9223372036854775808
  }

  /** What is shown of a raw listing: each raw child once, its parent filled in with p if it named
      none, ordered by priority, and in raw order where the priorities do not decide. */
  ghost predicate Displays(raw: seq<Node>, p: Option<Id>, shown: seq<Node>, at: seq<nat>) {
    && |at| == |shown| == |raw| && NoDup(at)
    && (forall i :: 0 <= i < |raw| ==>
          at[i] < |raw| && shown[i] == if raw[at[i]].parent.None? then raw[at[i]].(parent := p) else raw[at[i]])
    && (forall i, j :: 0 <= i < j < |raw| ==>
          NotAfter(shown[i], shown[j]) && (NotAfter(shown[j], shown[i]) ==> at[i] < at[j]))
  }

  ghost predicate DisplayOf(raw: seq<Node>, p: Option<Id>, shown: seq<Node>) {
    exists at :: Displays(raw, p, shown, at)
  }

  lemma KeyNotAfter(a: Node, b: Node)
    requires Wired([a, b])
    ensures NotAfter(a, b) <==> PriorityKey(a) <= PriorityKey(b)
  {
    assert a in [a, b] && b in [a, b];
  }

  lemma SortedDisplays(raw: seq<Node>, p: Option<Id>, adopted: seq<Node>) returns (at: seq<nat>)
    requires Wired(raw) && |adopted| == |raw|
    requires forall i :: 0 <= i < |raw| ==> adopted[i] == if raw[i].parent.None? then raw[i].(parent := p) else raw[i]
    ensures Displays(raw, p, StableSort(adopted, PriorityKey), at)
  {
    at := SortPositions(adopted, PriorityKey);
    var shown := StableSort(adopted, PriorityKey);
    hide StableSort;
    hide PriorityKey;
    hide NotAfter;
    forall i, j | 0 <= i < j < |raw|
      ensures NotAfter(shown[i], shown[j]) && (NotAfter(shown[j], shown[i]) ==> at[i] < at[j])
    {
      assert raw[at[i]] in raw && raw[at[j]] in raw;
      KeyNotAfter(shown[i], shown[j]);
      KeyNotAfter(shown[j], shown[i]);
    }
  }

  /** A child listing as it is displayed. */
  lemma ListingDisplayed(o: Outline, p: Id)
    ensures p in o && Wired(o[p]) ==> DisplayOf(o[p], Some(p), Listing(o, p))
    ensures p !in o ==> Listing(o, p) == []
  {
    if p in o && Wired(o[p]) {
      var at := SortedDisplays(o[p], Some(p), Adopt(o[p], p));
    }
  }

  /** The top level as it is displayed: nothing is filled in. */
  lemma TopLevelDisplayed(o: Outline)
    ensures WORKSPACE in o && Wired(o[WORKSPACE]) ==> DisplayOf(o[WORKSPACE], None, TopLevel(o))
    ensures WORKSPACE !in o ==> TopLevel(o) == []
  {
    if WORKSPACE in o && Wired(o[WORKSPACE]) {
      var at := SortedDisplays(o[WORKSPACE], None, o[WORKSPACE]);
    }
  }

  /** The listing funnel: adopt the children, then sort them for display. */
  method GetChildren(o: Outline, p: Id) returns (children: seq<Node>)
    ensures children == Listing(o, p)
    ensures p in o && Wired(o[p]) ==> DisplayOf(o[p], Some(p), children)
    ensures p !in o ==> children == []
  {
    var raw := Raw(o, p);
    children := raw;
    for i := 0 to |raw|
      invariant |children| == |raw|
      invariant forall j :: 0 <= j < |raw| ==> children[j] == if j < i then AdoptOne(raw[j], p) else raw[j]
    {
      if children[i].parent.None? {
        children := children[i := children[i].(parent := Some(p))];
      }
    }
    assert children == Adopt(raw, p);
    children := StableSort(children, PriorityKey);
    ListingDisplayed(o, p);
  }

  function Ids(s: seq<Node>): (r: seq<Id>)
    ensures |r| == |s|
    ensures forall i :: 0 <= i < |s| ==> r[i] == s[i].id
  {
    if s == [] then [] else [s[0].id] + Ids(s[1..])
  }

  lemma IdIn(s: seq<Node>, n: Node)
    requires n in s
    ensures n.id in Ids(s)
  {
    var i :| 0 <= i < |s| && s[i] == n;
    assert Ids(s)[i] == n.id;
  }

  lemma NodeWithId(s: seq<Node>, x: Id) returns (n: Node)
    requires x in Ids(s)
    ensures n in s && n.id == x
  {
    var i :| 0 <= i < |s| && Ids(s)[i] == x;
    n := s[i];
  }

  lemma IdsAppend(a: seq<Node>, b: seq<Node>)
    ensures Ids(a + b) == Ids(a) + Ids(b)
  {
  }

  ghost predicate DistinctIds(s: seq<Node>) {
    NoDup(Ids(s))
  }

  // ---------------------------------------------------------------------
  // Forests
  // ---------------------------------------------------------------------

  ghost predicate Owns(o: Outline, p: Id, c: Id) {
    p in o && exists i :: 0 <= i < |o[p]| && o[p][i].id == c
  }

  /** Each id occurs at one place of one listing. */
  ghost predicate OneOwner(o: Outline) {
    forall p, i, q, j ::
      p in o && q in o && 0 <= i < |o[p]| && 0 <= j < |o[q]| && o[p][i].id == o[q][j].id
      ==> p == q && i == j
  }

  ghost predicate ParentsAgree(o: Outline) {
    forall p, i ::
      p in o && 0 <= i < |o[p]| ==>
      o[p][i].parent == None || (p != WORKSPACE && o[p][i].parent == Some(p))
  }

  /** Depth witnesses acyclicity: a child sits one below its parent. */
  ghost predicate Ranked(o: Outline, rank: map<Id, nat>) {
    forall p, i ::
      p in o && 0 <= i < |o[p]| ==>
      p in rank && o[p][i].id in rank && rank[o[p][i].id] == rank[p] + 1
  }

  ghost predicate Forest(o: Outline) {
    OneOwner(o) && ParentsAgree(o) && exists rank :: Ranked(o, rank)
  }

  lemma OwnerUnique(o: Outline, p: Id, q: Id, c: Id)
    requires OneOwner(o) && Owns(o, p, c) && Owns(o, q, c)
    ensures p == q
  {
  }

  lemma ListingMember(o: Outline, p: Id, n: Node)
    requires ParentsAgree(o) && n in Listing(o, p)
    ensures n.parent == Some(p) && Owns(o, p, n.id)
  {
    StableSortProps(Adopt(Raw(o, p), p), PriorityKey);
    var i :| 0 <= i < |Raw(o, p)| && Adopt(Raw(o, p), p)[i] == n;
    assert o[p][i].id == n.id;
  }

  lemma RawDistinct(o: Outline, p: Id)
    requires OneOwner(o)
    ensures DistinctIds(Raw(o, p))
  {
  }

  /** Sorting and adopting keep ids distinct. */
  lemma PermutedDistinct(s: seq<Node>, t: seq<Node>)
    requires DistinctIds(s) && multiset(s) == multiset(t)
    ensures DistinctIds(t)
  {
    hide Ids;
    hide DistinctIds;
    DistinctMembers(s);
    NoDupPermuted(s, t);
    PermutationMembers(s, t);
    forall i, j | 0 <= i < j < |t| ensures t[i].id != t[j].id {
      assert t[i] in s && t[j] in s;
    }
    DistinctPositions(t);
  }

  lemma DistinctMembers(s: seq<Node>)
    requires DistinctIds(s)
    ensures NoDup(s)
    ensures forall m, n :: m in s && n in s && m.id == n.id ==> m == n
  {
    forall i, j | 0 <= i < j < |s| ensures s[i].id != s[j].id {
      assert Ids(s)[i] != Ids(s)[j];
    }
  }

  lemma DistinctPositions(s: seq<Node>)
    requires forall i, j :: 0 <= i < j < |s| ==> s[i].id != s[j].id
    ensures DistinctIds(s)
  {
  }

  lemma ListingDistinct(o: Outline, p: Id)
    requires OneOwner(o)
    ensures DistinctIds(Listing(o, p))
  {
    RawDistinct(o, p);
    var s := Adopt(Raw(o, p), p);
    assert forall i :: 0 <= i < |s| ==> Ids(s)[i] == Ids(Raw(o, p))[i];
    StableSortProps(s, PriorityKey);
    PermutedDistinct(s, Listing(o, p));
  }

  lemma TopLevelDistinct(o: Outline)
    requires OneOwner(o)
    ensures DistinctIds(TopLevel(o))
  {
    RawDistinct(o, WORKSPACE);
    StableSortProps(Raw(o, WORKSPACE), PriorityKey);
    PermutedDistinct(Raw(o, WORKSPACE), TopLevel(o));
  }

  // ---------------------------------------------------------------------
  // Concatenated listings
  // ---------------------------------------------------------------------

  /** The listings of the given parents, one block after another. */
  function Blocks(o: Outline, ps: seq<Id>): seq<Node> {
    if ps == [] then [] else Listing(o, ps[0]) + Blocks(o, ps[1..])
  }

  lemma {:induction false} BlocksAppend(o: Outline, ps: seq<Id>, qs: seq<Id>)
    ensures Blocks(o, ps + qs) == Blocks(o, ps) + Blocks(o, qs)
  {
    if ps == [] {
      assert ps + qs == qs;
    } else {
      assert (ps + qs)[1..] == ps[1..] + qs;
      BlocksAppend(o, ps[1..], qs);
    }
  }

  lemma BlocksSnoc(o: Outline, ps: seq<Id>, p: Id)
    ensures Blocks(o, ps + [p]) == Blocks(o, ps) + Listing(o, p)
  {
    BlocksAppend(o, ps, [p]);
    assert Blocks(o, [p]) == Listing(o, p) + Blocks(o, []);
  }

  lemma {:induction false} BlocksMembers(o: Outline, ps: seq<Id>, n: Node)
    requires ParentsAgree(o)
    ensures n in Blocks(o, ps) <==>
            n.parent.Some? && n.parent.value in ps && n in Listing(o, n.parent.value)
  {
    if ps != [] {
      BlocksMembers(o, ps[1..], n);
      if n in Listing(o, ps[0]) {
        ListingMember(o, ps[0], n);
      }
    }
  }

  lemma {:induction false} BlocksDistinct(o: Outline, ps: seq<Id>)
    requires OneOwner(o) && ParentsAgree(o) && NoDup(ps)
    ensures DistinctIds(Blocks(o, ps))
  {
    if ps != [] {
      var a, b := Listing(o, ps[0]), Blocks(o, ps[1..]);
      ListingDistinct(o, ps[0]);
      BlocksDistinct(o, ps[1..]);
      IdsAppend(a, b);
      forall x | x in Ids(a) ensures x !in Ids(b) {
        if x in Ids(b) {
          var n := NodeWithId(a, x);
          var m := NodeWithId(b, x);
          ListingMember(o, ps[0], n);
          BlocksMembers(o, ps[1..], m);
          ListingMember(o, m.parent.value, m);
          OwnerUnique(o, ps[0], m.parent.value, x);
          assert false;
        }
      }
      NoDupAppend(Ids(a), Ids(b));
    }
  }

  /** The ids of ps outside s, in order. */
  function Except(ps: seq<Id>, s: set<Id>): (r: seq<Id>)
    ensures forall x :: x in r <==> x in ps && x !in s
  {
    if ps == [] then []
    else if ps[0] in s then Except(ps[1..], s)
    else [ps[0]] + Except(ps[1..], s)
  }

  lemma {:induction false} ExceptNoDup(ps: seq<Id>, s: set<Id>)
    requires NoDup(ps)
    ensures NoDup(Except(ps, s))
  {
    if ps != [] {
      assert ps[0] !in ps[1..];
      ExceptNoDup(ps[1..], s);
    }
  }

  lemma {:induction false} ExceptNothing(ps: seq<Id>, s: set<Id>)
    requires forall x :: x in ps ==> x !in s
    ensures Except(ps, s) == ps
  {
    if ps != [] {
      ExceptNothing(ps[1..], s);
    }
  }

  lemma {:induction false} ExceptSame(ps: seq<Id>, s: set<Id>, t: set<Id>)
    requires forall x :: x in ps ==> (x in s <==> x in t)
    ensures Except(ps, s) == Except(ps, t)
  {
    if ps != [] {
      ExceptSame(ps[1..], s, t);
    }
  }

  lemma {:induction false} BlocksSubseq(o: Outline, ps: seq<Id>, qs: seq<Id>)
    requires Subseq(ps, qs)
    ensures Subseq(Blocks(o, ps), Blocks(o, qs))
    decreases |qs|
  {
    if ps != [] {
      if ps[0] == qs[0] && Subseq(ps[1..], qs[1..]) {
        BlocksSubseq(o, ps[1..], qs[1..]);
        SubseqRefl(Listing(o, ps[0]));
        SubseqAppend(Listing(o, ps[0]), Listing(o, qs[0]), Blocks(o, ps[1..]), Blocks(o, qs[1..]));
      } else {
        BlocksSubseq(o, ps, qs[1..]);
        assert Subseq([], Listing(o, qs[0]));
        SubseqAppend([], Listing(o, qs[0]), Blocks(o, ps), Blocks(o, qs[1..]));
        assert [] + Blocks(o, ps) == Blocks(o, ps);
      }
    }
  }

  lemma {:induction false} ExceptSubseq(ps: seq<Id>, s: set<Id>, qs: seq<Id>)
    requires Subseq(ps, qs)
    ensures Subseq(Except(ps, s), qs)
    decreases |qs|
  {
    if ps != [] {
      if ps[0] == qs[0] && Subseq(ps[1..], qs[1..]) {
        ExceptSubseq(ps[1..], s, qs[1..]);
        if ps[0] !in s {
          assert Except(ps, s)[1..] == Except(ps[1..], s);
        }
      } else {
        ExceptSubseq(ps, s, qs[1..]);
      }
    }
  }

  lemma {:induction false} IdsSubseq(a: seq<Node>, b: seq<Node>)
    requires Subseq(a, b)
    ensures Subseq(Ids(a), Ids(b))
    decreases |b|
  {
    if a != [] {
      if a[0] == b[0] && Subseq(a[1..], b[1..]) {
        IdsSubseq(a[1..], b[1..]);
      } else {
        IdsSubseq(a, b[1..]);
      }
    }
  }
}
