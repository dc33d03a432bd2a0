/** The listing cache and the write funnel that keeps it in step with the server. */
module ListingCache {
  import opened Sequences
  import opened Outlines
  import opened ChildrenIndex

  const CACHE_TTL_SECS := 30
  const MAX_CACHED_LISTINGS := 4096

  datatype ListingEntry = ListingEntry(children: seq<Node>, stamp: nat)

  /** The part of the cache that answers listing reads. Times are milliseconds. */
  datatype CacheState = CacheState(listings: map<Id, ListingEntry>, memberOf: map<Id, Id>)

  // ---------------------------------------------------------------------
  // Specification of the cache operations
  // ---------------------------------------------------------------------

  /** Whole seconds since the stamp, unless the clock went backwards. */
  function Elapsed(now: nat, stamp: nat): Option<nat> {
    if now < stamp then None else Some((now - stamp) / 1000)
  }

  /** A read serves an entry that is not known to be expired. */
  predicate Servable(e: ListingEntry, now: nat) {
    Elapsed(now, e.stamp).None? || Elapsed(now, e.stamp).value <= CACHE_TTL_SECS
  }

  /** A purge keeps only an entry known to be fresh. */
  predicate Retained(e: ListingEntry, now: nat) {
    Elapsed(now, e.stamp).Some? && Elapsed(now, e.stamp).value <= CACHE_TTL_SECS
  }

  function Serve(st: CacheState, key: Id, now: nat): Option<seq<Node>> {
    if key in st.listings && Servable(st.listings[key], now) then Some(st.listings[key].children) else None
  }

  function Purged(listings: map<Id, ListingEntry>, now: nat): map<Id, ListingEntry> {
    map k | k in listings && Retained(listings[k], now) :: listings[k]
  }

  /** Every child now leads to key. */
  function Member(m: map<Id, Id>, children: seq<Node>, key: Id): map<Id, Id> {
    m + (map c | c in Ids(children) :: key)
  }

  lemma MemberNone(m: map<Id, Id>, key: Id)
    ensures Member(m, [], key) == m
  {
  }

  lemma MemberStep(m: map<Id, Id>, children: seq<Node>, key: Id, i: nat)
    requires i < |children|
    ensures Member(m, children[..i], key)[children[i].id := key] == Member(m, children[..i + 1], key)
  {
    hide Ids;
    IdsStep(children, i);
    var a, b := Member(m, children[..i], key)[children[i].id := key], Member(m, children[..i + 1], key);
    assert a.Keys == b.Keys;
    assert forall k :: k in a ==> a[k] == b[k];
  }

  lemma IdsStep(s: seq<Node>, i: nat)
    requires i < |s|
    ensures forall c :: c in Ids(s[..i + 1]) <==> c in Ids(s[..i]) || c == s[i].id
  {
    assert s[..i + 1] == s[..i] + [s[i]];
    IdsAppend(s[..i], [s[i]]);
    assert Ids([s[i]]) == [s[i].id];
  }

  /** Make room: on overflow purge the expired, and if that is not enough clear everything. */
  function WithRoom(st: CacheState, now: nat): CacheState {
    if |st.listings| < MAX_CACHED_LISTINGS then st
    else
      var kept := Purged(st.listings, now);
      if |kept| < MAX_CACHED_LISTINGS then st.(listings := kept) else CacheState(map[], map[])
  }

  function Inserted(st: CacheState, key: Id, children: seq<Node>, now: nat): CacheState {
    var r := WithRoom(st, now);
    CacheState(r.listings[key := ListingEntry(children, now)], Member(r.memberOf, children, key))
  }

  /** A listing at most 30 whole seconds old, by a clock that did not go back. */
  predicate Young(e: ListingEntry, now: nat) {
    e.stamp <= now < e.stamp + 31000
  }

  function YoungOf(listings: map<Id, ListingEntry>, now: nat): nat {
    |set k | k in listings && Young(listings[k], now)|
  }

  /** But for the key, exactly the young listings are left, unchanged. */
  ghost predicate OnlyYoung(before: map<Id, ListingEntry>, after: map<Id, ListingEntry>, key: Id, now: nat) {
    forall k :: k != key ==>
      && (k in after <==> k in before && Young(before[k], now))
      && (k in after ==> after[k] == before[k])
  }

  lemma PurgedYoung(listings: map<Id, ListingEntry>, now: nat)
    ensures Purged(listings, now).Keys == set k | k in listings && Young(listings[k], now)
    ensures forall k :: k in Purged(listings, now) ==> Purged(listings, now)[k] == listings[k]
  {
    forall k | k in listings ensures Retained(listings[k], now) <==> Young(listings[k], now) {
    }
  }

  /** Room is made by dropping the expired, and everything only if that is not enough. */
  lemma RoomPlainly(st: CacheState, now: nat)
    ensures var r := WithRoom(st, now).listings;
            && |r| < 4096
            && (|st.listings| < 4096 ==> r == st.listings)
            && (|st.listings| >= 4096 ==>
                  if YoungOf(st.listings, now) < 4096 then forall key :: OnlyYoung(st.listings, r, key, now) else r == map[])
  {
    PurgedYoung(st.listings, now);
    var kept := Purged(st.listings, now);
    hide Purged;
    assert |kept.Keys| == |kept|;
  }

  lemma MemberPlainly(m: map<Id, Id>, children: seq<Node>, key: Id)
    ensures forall n :: n in children ==> n.id in Member(m, children, key) && Member(m, children, key)[n.id] == key
  {
    forall n | n in children ensures n.id in Ids(children) {
      IdIn(children, n);
    }
  }

  lemma InsertPlainly(st: CacheState, key: Id, children: seq<Node>, now: nat)
    ensures var r := Inserted(st, key, children, now);
            && key in r.listings && r.listings[key] == ListingEntry(children, now)
            && (|st.listings| <= 4096 ==> |r.listings| <= 4096)
            && (|st.listings| < 4096 ==> r.listings == st.listings[key := r.listings[key]])
            && (|st.listings| >= 4096 ==> OnlyYoung(st.listings, r.listings, key, now) || r.listings.Keys == {key})
            && (|st.listings| >= 4096 && YoungOf(st.listings, now) < 4096 ==>
                  OnlyYoung(st.listings, r.listings, key, now))
            && forall n :: n in children ==> n.id in r.memberOf && r.memberOf[n.id] == key
  {
    hide WithRoom;
    hide Member;
    hide YoungOf;
    hide Young;
    RoomPlainly(st, now);
    var r, after := WithRoom(st, now), Inserted(st, key, children, now);
    MemberPlainly(r.memberOf, children, key);
    AddOne(r.listings, key, ListingEntry(children, now));
    if |st.listings| >= 4096 && YoungOf(st.listings, now) < 4096 {
      assert OnlyYoung(st.listings, r.listings, key, now);
    }
  }

  lemma AddOne(m: map<Id, ListingEntry>, key: Id, e: ListingEntry)
    ensures m[key := e].Keys == m.Keys + {key} && |m[key := e]| <= |m| + 1
  {
    assert |m[key := e].Keys| == |m[key := e]| && |m.Keys| == |m|;
  }

  function WithoutListing(st: CacheState, key: Id): CacheState {
    st.(listings := st.listings - {key})
  }

  /** Drop the node's own listing and the listing recorded as displaying it. */
  function WithoutNode(st: CacheState, id: Id): CacheState {
    var own := WithoutListing(st, id);
    if id in st.memberOf then WithoutListing(own, st.memberOf[id]) else own
  }

  /** The cache, updated in place. */
  class NodeCache {
    var listings: map<Id, ListingEntry>
    var memberOf: map<Id, Id>
    var cache: map<Id, Node>
    var childrenIndex: Index
    var batchDepth: nat

    constructor ()
      ensures View() == CacheState(map[], map[])
      ensures cache == map[] && childrenIndex == map[] && batchDepth == 0
    {
      listings, memberOf, cache, childrenIndex, batchDepth := map[], map[], map[], map[], 0;
    }

    function View(): CacheState
      reads this
    {
      CacheState(listings, memberOf)
    }

    method ChildrenListing(key: Id, now: nat) returns (r: Option<seq<Node>>)
      ensures r == Serve(View(), key, now)
      // served for 30 whole seconds, and for good under a clock that went back
      ensures r.Some? <==> key in listings && now < listings[key].stamp + 31000
      ensures r.Some? ==> r.value == listings[key].children
    {
      if key !in listings {
        return None;
      }
      var entry := listings[key];
      match Elapsed(now, entry.stamp) {
        case Some(secs) =>
          if secs > CACHE_TTL_SECS {
            return None;
          }
        case None =>
      }
      return Some(entry.children);
    }

    method InsertChildrenListing(key: Id, children: seq<Node>, now: nat)
      modifies `listings, `memberOf
      ensures View() == Inserted(old(View()), key, children, now)
      ensures key in listings && listings[key] == ListingEntry(children, now)
      ensures |old(listings)| <= 4096 ==> |listings| <= 4096
      // below 4096 listings nothing else changes; otherwise the expired go, or everything does
      ensures |old(listings)| < 4096 ==> listings == old(listings)[key := listings[key]]
      ensures |old(listings)| >= 4096 ==> OnlyYoung(old(listings), listings, key, now) || listings.Keys == {key}
      ensures |old(listings)| >= 4096 && YoungOf(old(listings), now) < 4096 ==> OnlyYoung(old(listings), listings, key, now)
      ensures forall n :: n in children ==> n.id in memberOf && memberOf[n.id] == key
    {
      hide Member;
      hide Purged;
      hide Ids;
      if |listings| >= MAX_CACHED_LISTINGS {
        listings := Purged(listings, now);
        if |listings| >= MAX_CACHED_LISTINGS {
          listings, memberOf := map[], map[];
        }
      }
      assert View() == WithRoom(old(View()), now);
      listings := listings[key := ListingEntry(children, now)];
      ghost var before := memberOf;
      MemberNone(before, key);
      for i := 0 to |children|
        invariant listings == WithRoom(old(View()), now).listings[key := ListingEntry(children, now)]
        invariant memberOf == Member(before, children[..i], key)
      {
        MemberStep(before, children, key, i);
        memberOf := memberOf[children[i].id := key];
      }
      assert children[..|children|] == children;
      InsertPlainly(old(View()), key, children, now);
    }

    method InvalidateListing(key: Id)
      modifies `listings
      ensures View() == WithoutListing(old(View()), key)
      ensures listings == old(listings) - {key}
    {
      listings := listings - {key};
    }

    method InvalidateListingContaining(id: Id)
      modifies `listings
      ensures View() == if id in memberOf then WithoutListing(old(View()), memberOf[id]) else old(View())
      ensures listings == old(listings) - (if id in memberOf then {memberOf[id]} else {})
    {
      if id in memberOf {
        listings := listings - {memberOf[id]};
      }
    }

    method InvalidateNode(id: Id)
      modifies `listings, `cache
      ensures View() == WithoutNode(old(View()), id)
      ensures listings == old(listings) - {id} - (if id in memberOf then {memberOf[id]} else {})
      ensures cache == old(cache) - {id}
    {
      cache := cache - {id};
      listings := listings - {id};
      InvalidateListingContaining(id);
    }

    /** Outside batch mode, everything reachable from the root loses its cached entry and its own
        listing, the listing displaying the root goes too, and nothing else changes. */
    method InvalidateSubtree(root: Id)
      requires batchDepth > 0 || AcyclicBelow(childrenIndex, [root])
      modifies `listings, `cache
      ensures batchDepth > 0 ==> View() == old(View()) && cache == old(cache)
      ensures batchDepth == 0 ==> cache == old(cache) - ReachedOf(childrenIndex, root, old(cache.Keys))
      ensures batchDepth == 0 ==>
                listings == old(listings) - ReachedOf(childrenIndex, root, old(listings.Keys))
                            - (if root in memberOf then {memberOf[root]} else {})
    {
      hide ReachedOf;
      if batchDepth > 0 {
        return;
      }
      ClearReached(root);
      InvalidateListingContaining(root);
    }

    /** The worklist loop of the invalidation. */
    method ClearReached(root: Id)
      requires AcyclicBelow(childrenIndex, [root])
      modifies `listings, `cache
      ensures cache == old(cache) - ReachedOf(childrenIndex, root, old(cache.Keys))
      ensures listings == old(listings) - ReachedOf(childrenIndex, root, old(listings.Keys))
    {
      hide Clearing;
      hide Reaches;
      hide Unfolded;
      ghost var h :| Ranking(childrenIndex, h) && forall x :: x in [root] ==> x in h;
      hide Ranking;
      ghost var gone: set<Id> := {};
      var toInvalidate := [root];
      ClearingStarts(childrenIndex, root);
      while toInvalidate != []
        invariant forall x :: x in toInvalidate ==> x in h
        invariant cache == old(cache) - gone && listings == old(listings) - gone
        invariant Clearing(childrenIndex, root, gone, toInvalidate)
        decreases Unfolded(childrenIndex, h, toInvalidate)
      {
        PopShrinks(childrenIndex, h, toInvalidate);
        ClearingStep(childrenIndex, root, gone, toInvalidate);
        var id := toInvalidate[|toInvalidate| - 1];
        toInvalidate := toInvalidate[..|toInvalidate| - 1];
        cache := cache - {id};
        listings := listings - {id};
        gone := gone + {id};
        if id in childrenIndex {
          toInvalidate := toInvalidate + childrenIndex[id];
        } else {
          assert toInvalidate + [] == toInvalidate;
        }
      }
      ClearingEnds(childrenIndex, root, gone);
    }
  }

  // ---------------------------------------------------------------------
  // The write funnel
  // ---------------------------------------------------------------------

  const NODES := "/nodes"

  function StripNodes(endpoint: string): Option<string> {
    if |endpoint| >= 7 && endpoint[..7] == "/nodes/" then Some(endpoint[7..]) else None
  }

  /** What a write drops before it is sent. */
  function AfterFunnel(st: CacheState, endpoint: string, bodyParent: Option<Id>): CacheState {
    var mid := match StripNodes(endpoint)
               case Some(rest) => WithoutNode(st, Id(rest))
               case None => st;
    match bodyParent
    case Some(p) => WithoutListing(mid, p)
    case None => if endpoint == NODES then WithoutListing(mid, WORKSPACE) else mid
  }

  ghost predicate Addresses(endpoint: string, id: Id) {
    endpoint == "/nodes/" + id.text
  }

  /** The listings a write drops: of the node its endpoint addresses and the one recorded as displaying
      it, of the parent its body names, and the root's for a create without a parent. */
  ghost predicate Drops(memberOf: map<Id, Id>, endpoint: string, bodyParent: Option<Id>, k: Id) {
    || (exists id :: Addresses(endpoint, id) && (k == id || (id in memberOf && memberOf[id] == k)))
    || bodyParent == Some(k)
    || (bodyParent.None? && endpoint == "/nodes" && k == Id(""))
  }

  lemma StripAddresses(endpoint: string, id: Id)
    ensures StripNodes(endpoint) == Some(id.text) <==> Addresses(endpoint, id)
  {
    if Addresses(endpoint, id) {
      assert endpoint[..7] == "/nodes/" && endpoint[7..] == id.text;
    }
    if StripNodes(endpoint) == Some(id.text) {
      assert endpoint == endpoint[..7] + endpoint[7..];
    }
  }

  lemma FunnelDrops(st: CacheState, endpoint: string, bodyParent: Option<Id>)
    ensures forall k :: k in AfterFunnel(st, endpoint, bodyParent).listings <==>
                          k in st.listings && !Drops(st.memberOf, endpoint, bodyParent, k)
    ensures AfterFunnel(st, endpoint, bodyParent).memberOf == st.memberOf
  {
    forall id: Id ensures StripNodes(endpoint) == Some(id.text) <==> Addresses(endpoint, id) {
      StripAddresses(endpoint, id);
    }
    hide StripNodes;
    hide Addresses;
    if StripNodes(endpoint).Some? {
      assert Addresses(endpoint, Id(StripNodes(endpoint).value));
    }
  }

  method InvalidateListingsForWrite(cache: NodeCache, endpoint: string, bodyParent: Option<Id>)
    modifies cache`listings, cache`cache
    ensures cache.View() == AfterFunnel(old(cache.View()), endpoint, bodyParent)
    ensures forall k ::
              k in cache.listings <==> k in old(cache.listings) && !Drops(old(cache.memberOf), endpoint, bodyParent, k)
  {
    FunnelDrops(cache.View(), endpoint, bodyParent);
    match StripNodes(endpoint) {
      case Some(rest) => cache.InvalidateNode(Id(rest));
      case None =>
    }
    match bodyParent {
      case Some(p) => cache.InvalidateListing(p);
      case None =>
        if endpoint == NODES {
          cache.InvalidateListing(WORKSPACE);
        }
    }
  }

  function NodeEndpoint(id: Id): string {
    "/nodes/" + id.text
  }

  function MoveEndpoint(id: Id): string {
    "/nodes/" + id.text + "/move"
  }

  lemma NodeEndpointStrips(id: Id)
    ensures StripNodes(NodeEndpoint(id)) == Some(id.text)
    ensures StripNodes(MoveEndpoint(id)) == Some(id.text + "/move")
    ensures NodeEndpoint(id) != NODES && MoveEndpoint(id) != NODES && StripNodes(NODES).None?
  {
    assert MoveEndpoint(id)[7..] == id.text + "/move";
  }

  // ---------------------------------------------------------------------
  // The server and its changes
  // ---------------------------------------------------------------------

  /** The live listing of each existing parent, the workspace included, and every id issued. */
  datatype Server = Server(live: map<Id, seq<Node>>, used: set<Id>)

  predicate Canonical(id: Id) {
    id.text != "" && '/' !in id.text
  }

  ghost predicate Shows(s: Server, k: Id, c: Id) {
    k in s.live && c in Ids(s.live[k])
  }

  /** Each node is displayed under one existing parent; ids are canonical and issued. */
  ghost predicate ValidServer(s: Server) {
    && WORKSPACE in s.live && s.live.Keys <= s.used
    && (forall k :: k in s.used ==> k == WORKSPACE || Canonical(k))
    && (forall k, c :: Shows(s, k, c) ==> c in s.used && c != WORKSPACE)
    && (forall j, k, c :: Shows(s, j, c) && Shows(s, k, c) ==> j == k)
  }

  /** A create under p changes p's listing only and starts an empty one for the new node. */
  ghost predicate ServerCreate(s: Server, t: Server, p: Id, c: Id) {
    && p in s.live && c !in s.used && Canonical(c)
    && t.used == s.used + {c} && t.live.Keys == s.live.Keys + {c} && t.live[c] == []
    && (forall k :: k in s.live && k != p ==> t.live[k] == s.live[k])
    && (forall x :: x in Ids(t.live[p]) <==> x in Ids(s.live[p]) || x == c)
  }

  /** An edit or completion changes no listing but the ones displaying the node, and none's members. */
  ghost predicate ServerTouch(s: Server, t: Server, id: Id) {
    && t.used == s.used && t.live.Keys == s.live.Keys
    && (forall k :: k in s.live && id !in Ids(s.live[k]) ==> t.live[k] == s.live[k])
    && (forall k, x :: k in s.live ==> (x in Ids(t.live[k]) <==> x in Ids(s.live[k])))
  }

  /** A delete removes the node and any set of others; a surviving parent's listing changes only
      if it displayed the node, and loses only nodes. */
  ghost predicate ServerDelete(s: Server, t: Server, id: Id) {
    && t.used == s.used && t.live.Keys <= s.live.Keys && id !in t.live && WORKSPACE in t.live
    && (forall k :: k in t.live && id !in Ids(s.live[k]) ==> t.live[k] == s.live[k])
    && (forall k, x :: k in t.live && x in Ids(t.live[k]) ==> x in Ids(s.live[k]))
  }

  // ---------------------------------------------------------------------
  // Coherence over a run
  // ---------------------------------------------------------------------

  /** A cached listing of an existing parent is the live one. */
  ghost predicate Current(st: CacheState, s: Server) {
    forall k :: k in st.listings && k in s.live ==> st.listings[k].children == s.live[k]
  }

  /** Each node a cached listing displays leads back to that listing. */
  ghost predicate Tracked(st: CacheState, s: Server) {
    forall k, c :: k in st.listings && Shows(s, k, c) ==> c in st.memberOf && st.memberOf[c] == k
  }

  ghost predicate Coherent(st: CacheState, s: Server) {
    st.listings.Keys <= s.used && st.memberOf.Keys <= s.used && Current(st, s) && Tracked(st, s)
  }

  datatype Event =
    | ListChildren(key: Id, now: nat)
    | FetchFailed(key: Id)
    | CreateNode(parent: Option<Id>, newId: Id, landed: bool, next: Server)
    | WriteNode(id: Id, landed: bool, next: Server)
    | DeleteNode(id: Id, landed: bool, next: Server)

  function ParentKey(p: Option<Id>): Id {
    match p
    case Some(id) => id
    case None => WORKSPACE
  }

  /** What the server may do on the event; a write that does not land changes nothing. */
  ghost predicate Allowed(s: Server, e: Event) {
    match e
    case ListChildren(key, _) => key in s.live
    case FetchFailed(_) => true
    case CreateNode(p, c, landed, next) => if landed then ServerCreate(s, next, ParentKey(p), c) else next == s
    case WriteNode(id, landed, next) => Canonical(id) && if landed then ServerTouch(s, next, id) else next == s
    case DeleteNode(id, landed, next) => Canonical(id) && if landed then ServerDelete(s, next, id) else next == s
  }

  function NextServer(s: Server, e: Event): Server {
    match e
    case ListChildren(_, _) => s
    case FetchFailed(_) => s
    case CreateNode(_, _, _, next) => next
    case WriteNode(_, _, next) => next
    case DeleteNode(_, _, next) => next
  }

  /** The cache after the event: reads fill it on a miss, writes go through the funnel first. */
  function NextCache(st: CacheState, s: Server, e: Event): CacheState {
    match e
    case ListChildren(key, now) =>
      if Serve(st, key, now).Some? || key !in s.live then st else Inserted(st, key, s.live[key], now)
    case FetchFailed(_) => st
    case CreateNode(p, _, _, _) => AfterFunnel(st, NODES, p)
    case WriteNode(id, _, _) => AfterFunnel(st, NodeEndpoint(id), None)
    case DeleteNode(id, _, _) => AfterFunnel(st, NodeEndpoint(id), None)
  }

  lemma RoomCoherent(st: CacheState, s: Server, now: nat)
    requires Coherent(st, s)
    ensures Coherent(WithRoom(st, now), s)
    ensures |WithRoom(st, now).listings| < MAX_CACHED_LISTINGS
  {
    hide Ids;
  }

  lemma AddCoherent(r: CacheState, s: Server, key: Id, now: nat)
    requires ValidServer(s) && Coherent(r, s) && key in s.live
    ensures Coherent(CacheState(r.listings[key := ListingEntry(s.live[key], now)],
                                Member(r.memberOf, s.live[key], key)), s)
  {
    hide Ids;
    var after := CacheState(r.listings[key := ListingEntry(s.live[key], now)], Member(r.memberOf, s.live[key], key));
    forall c | c in Ids(s.live[key]) ensures c in s.used && forall k :: Shows(s, k, c) ==> k == key {
      assert Shows(s, key, c);
    }
    hide ValidServer;
    assert Tracked(after, s);
    assert Current(after, s);
  }

  lemma InsertCoherent(st: CacheState, s: Server, key: Id, now: nat)
    requires ValidServer(s) && Coherent(st, s) && key in s.live
    ensures Coherent(Inserted(st, key, s.live[key], now), s)
    ensures |Inserted(st, key, s.live[key], now).listings| <= MAX_CACHED_LISTINGS
  {
    hide WithRoom;
    hide Member;
    hide Coherent;
    hide ValidServer;
    RoomCoherent(st, s, now);
    var r := WithRoom(st, now);
    AddCoherent(r, s, key, now);
    assert Inserted(st, key, s.live[key], now).listings.Keys == r.listings.Keys + {key};
  }

  lemma DropCoherent(st: CacheState, s: Server, key: Id)
    requires Coherent(st, s)
    ensures Coherent(WithoutListing(st, key), s)
    ensures |WithoutListing(st, key).listings| <= |st.listings|
  {
    hide Ids;
    var after := WithoutListing(st, key);
    SubsetSize(after.listings.Keys, st.listings.Keys);
  }

  lemma DropNodeCoherent(st: CacheState, s: Server, id: Id)
    requires Coherent(st, s)
    ensures Coherent(WithoutNode(st, id), s)
    ensures |WithoutNode(st, id).listings| <= |st.listings|
  {
    DropCoherent(st, s, id);
    var own := WithoutListing(st, id);
    if id in st.memberOf {
      DropCoherent(own, s, st.memberOf[id]);
    }
  }

  lemma FunnelCoherent(st: CacheState, s: Server, endpoint: string, p: Option<Id>)
    requires Coherent(st, s)
    ensures Coherent(AfterFunnel(st, endpoint, p), s)
    ensures |AfterFunnel(st, endpoint, p).listings| <= |st.listings|
  {
    hide StripNodes;
    hide WithoutNode;
    hide WithoutListing;
    hide Coherent;
    var mid := st;
    if StripNodes(endpoint).Some? {
      var id := Id(StripNodes(endpoint).value);
      DropNodeCoherent(st, s, id);
      mid := WithoutNode(st, id);
    }
    DropCoherent(mid, s, ParentKey(p));
  }

  /** After a create each other listing shows what it did, and the parent's one node more. */
  lemma CreateShows(s: Server, t: Server, p: Id, c: Id)
    requires ServerCreate(s, t, p, c)
    ensures forall k, x :: Shows(t, k, x) <==> Shows(s, k, x) || (k == p && x == c)
  {
    assert Ids([]) == [];
    hide Ids;
    forall k, x ensures Shows(t, k, x) <==> Shows(s, k, x) || (k == p && x == c) {
      if k in s.live && k != p {
        assert t.live[k] == s.live[k];
      }
    }
  }

  lemma CreateValid(s: Server, t: Server, p: Id, c: Id)
    requires ValidServer(s) && ServerCreate(s, t, p, c)
    ensures ValidServer(t)
    ensures forall k, x :: k in s.live && k != p && Shows(t, k, x) ==> Shows(s, k, x)
  {
    CreateShows(s, t, p, c);
    hide Shows;
    hide Ids;
    assert c != WORKSPACE;
    forall k | k in t.used ensures k == WORKSPACE || Canonical(k) {
    }
    forall k, x | Shows(t, k, x) ensures x in t.used && x != WORKSPACE {
    }
  }

  lemma CreateCoherent(st: CacheState, s: Server, t: Server, p: Option<Id>, c: Id)
    requires ValidServer(s) && Coherent(st, s) && ServerCreate(s, t, ParentKey(p), c)
    ensures ValidServer(t) && Coherent(AfterFunnel(st, NODES, p), t)
  {
    var k := ParentKey(p);
    CreateValid(s, t, k, c);
    NodeEndpointStrips(c);
    assert AfterFunnel(st, NODES, p) == WithoutListing(st, k);
    hide AfterFunnel;
    hide StripNodes;
    hide Ids;
    hide ValidServer;
  }

  /** Once a write to a node has gone through the funnel, no cached listing displays the node. */
  lemma FunnelDropsDisplay(st: CacheState, s: Server, id: Id)
    requires Coherent(st, s)
    ensures AfterFunnel(st, NodeEndpoint(id), None) == WithoutNode(st, id)
    ensures forall k :: k in WithoutNode(st, id).listings ==> !Shows(s, k, id)
  {
    NodeEndpointStrips(id);
    hide StripNodes;
    hide Ids;
    hide NodeEndpoint;
    assert forall k :: k in st.listings && Shows(s, k, id) ==> id in st.memberOf && st.memberOf[id] == k;
  }

  lemma TouchValid(s: Server, t: Server, id: Id)
    requires ValidServer(s) && ServerTouch(s, t, id)
    ensures ValidServer(t)
    ensures forall k, x :: Shows(t, k, x) <==> Shows(s, k, x)
  {
    hide Ids;
    assert forall k, x :: Shows(t, k, x) <==> Shows(s, k, x);
  }

  /** A cache that displays the node nowhere stays coherent when only listings displaying it change. */
  lemma CarryCoherent(after: CacheState, s: Server, t: Server, id: Id)
    requires Coherent(after, s) && t.used == s.used && t.live.Keys <= s.live.Keys
    requires forall k :: k in after.listings ==> !Shows(s, k, id)
    requires forall k :: k in t.live && id !in Ids(s.live[k]) ==> t.live[k] == s.live[k]
    requires forall k, x :: Shows(t, k, x) ==> Shows(s, k, x)
    ensures Coherent(after, t)
  {
    hide Ids;
    forall k | k in after.listings && k in t.live ensures after.listings[k].children == t.live[k] {
      assert !Shows(s, k, id);
    }
  }

  lemma TouchCoherent(st: CacheState, s: Server, t: Server, id: Id)
    requires ValidServer(s) && Coherent(st, s) && ServerTouch(s, t, id)
    ensures ValidServer(t) && Coherent(AfterFunnel(st, NodeEndpoint(id), None), t)
  {
    FunnelDropsDisplay(st, s, id);
    DropNodeCoherent(st, s, id);
    TouchValid(s, t, id);
    hide AfterFunnel;
    hide NodeEndpoint;
    hide ValidServer;
    hide Coherent;
    hide WithoutNode;
    hide Ids;
    CarryCoherent(WithoutNode(st, id), s, t, id);
  }

  lemma DeleteValid(s: Server, t: Server, id: Id)
    requires ValidServer(s) && ServerDelete(s, t, id)
    ensures ValidServer(t)
    ensures forall k, x :: Shows(t, k, x) ==> Shows(s, k, x)
  {
    hide Ids;
    assert forall k, x :: Shows(t, k, x) ==> Shows(s, k, x);
  }

  lemma DeleteCoherent(st: CacheState, s: Server, t: Server, id: Id)
    requires ValidServer(s) && Coherent(st, s) && ServerDelete(s, t, id)
    ensures ValidServer(t) && Coherent(AfterFunnel(st, NodeEndpoint(id), None), t)
  {
    FunnelDropsDisplay(st, s, id);
    DropNodeCoherent(st, s, id);
    DeleteValid(s, t, id);
    hide AfterFunnel;
    hide NodeEndpoint;
    hide ValidServer;
    hide Coherent;
    hide WithoutNode;
    hide Ids;
    CarryCoherent(WithoutNode(st, id), s, t, id);
  }

  /** Each event keeps the cache coherent and bounded. */
  lemma EventCoherent(st: CacheState, s: Server, e: Event)
    requires ValidServer(s) && Coherent(st, s) && Allowed(s, e) && |st.listings| <= MAX_CACHED_LISTINGS
    ensures ValidServer(NextServer(s, e)) && Coherent(NextCache(st, s, e), NextServer(s, e))
    ensures |NextCache(st, s, e).listings| <= MAX_CACHED_LISTINGS
  {
    hide AfterFunnel;
    hide Inserted;
    hide Coherent;
    hide ValidServer;
    match e
    case ListChildren(key, now) =>
      if Serve(st, key, now).None? {
        InsertCoherent(st, s, key, now);
      }
    case FetchFailed(_) =>
    case CreateNode(p, c, landed, next) =>
      FunnelCoherent(st, s, NODES, p);
      if landed {
        CreateCoherent(st, s, next, p, c);
      }
    case WriteNode(id, landed, next) =>
      FunnelCoherent(st, s, NodeEndpoint(id), None);
      if landed {
        TouchCoherent(st, s, next, id);
      }
    case DeleteNode(id, landed, next) =>
      FunnelCoherent(st, s, NodeEndpoint(id), None);
      if landed {
        DeleteCoherent(st, s, next, id);
      }
  }

  /** What a listing read returns: the cached listing if servable, the live one otherwise. */
  function ReadResult(st: CacheState, s: Server, key: Id, now: nat): seq<Node>
    requires key in s.live
  {
    match Serve(st, key, now)
    case Some(children) => children
    case None => s.live[key]
  }

  /** Every event of the run is allowed, and every listing read returns the live listing, from a
      cache within its bound. */
  ghost predicate RunReadsLive(st: CacheState, s: Server, run: seq<Event>)
    decreases |run|
  {
    run != [] ==>
      && Allowed(s, run[0])
      && (run[0].ListChildren? ==> ReadResult(st, s, run[0].key, run[0].now) == s.live[run[0].key])
      && |NextCache(st, s, run[0]).listings| <= MAX_CACHED_LISTINGS
      && RunReadsLive(NextCache(st, s, run[0]), NextServer(s, run[0]), run[1..])
  }

  ghost predicate AllowedRun(s: Server, run: seq<Event>)
    decreases |run|
  {
    run != [] ==> Allowed(s, run[0]) && AllowedRun(NextServer(s, run[0]), run[1..])
  }

  /** For one sequential client and no outside writers, over every run of reads, creates, edits,
      completions and deletes, whatever the clock does, each listing read of an existing parent
      returns the live listing. */
  lemma {:induction false} RunsReadLive(st: CacheState, s: Server, run: seq<Event>)
    requires ValidServer(s) && Coherent(st, s) && |st.listings| <= MAX_CACHED_LISTINGS && AllowedRun(s, run)
    ensures RunReadsLive(st, s, run)
    decreases |run|
  {
    if run != [] {
      EventCoherent(st, s, run[0]);
      hide NextCache;
      hide NextServer;
      hide Allowed;
      if run[0].ListChildren? {
        ReadIsLive(st, s, run[0].key, run[0].now);
      }
      RunsReadLive(NextCache(st, s, run[0]), NextServer(s, run[0]), run[1..]);
    }
  }

  lemma ReadIsLive(st: CacheState, s: Server, key: Id, now: nat)
    requires Coherent(st, s) && key in s.live
    ensures ReadResult(st, s, key, now) == s.live[key]
  {
  }

  /** The cold cache a run starts from is coherent with every server. */
  lemma ColdCoherent(s: Server)
    ensures Coherent(CacheState(map[], map[]), s)
  {
  }

  // ---------------------------------------------------------------------
  // Moves
  // ---------------------------------------------------------------------

  /** The node leaves the listing of p and joins the listing of q; nothing else changes. */
  ghost predicate ServerMove(s: Server, t: Server, id: Id, p: Id, q: Id) {
    && Shows(s, p, id) && q in s.live && t.used == s.used && t.live.Keys == s.live.Keys
    && (forall k :: k in s.live && k != p && k != q ==> t.live[k] == s.live[k])
    && (forall x :: Shows(t, q, x) <==> Shows(s, q, x) || x == id)
    && (p != q ==> forall x :: Shows(t, p, x) <==> Shows(s, p, x) && x != id)
  }

  /** The last segment of the move endpoint hides the node from the funnel: only the new parent's
      listing is dropped. */
  lemma MoveFunnel(st: CacheState, s: Server, id: Id, q: Id)
    requires ValidServer(s) && Coherent(st, s)
    ensures AfterFunnel(st, MoveEndpoint(id), Some(q)) == WithoutListing(st, q)
  {
    NodeEndpointStrips(id);
    var phantom := Id(id.text + "/move");
    assert phantom.text[|id.text|] == '/';
    assert phantom !in s.used;
    hide StripNodes;
    hide MoveEndpoint;
    hide Ids;
    assert st.listings - {phantom} == st.listings;
  }

  /** The old parent's cached listing shows the node that left. */
  lemma MoveStales(after: CacheState, s: Server, t: Server, id: Id, p: Id, q: Id)
    requires Current(after, s) && ServerMove(s, t, id, p, q) && p != q && p in after.listings
    ensures !Current(after, t)
  {
    hide Ids;
    assert !Shows(t, p, id);
    assert t.live[p] != s.live[p];
  }

  lemma MoveKeeps(after: CacheState, s: Server, t: Server, id: Id, p: Id, q: Id)
    requires Coherent(after, s) && ServerMove(s, t, id, p, q) && p !in after.listings && q !in after.listings
    ensures Coherent(after, t)
  {
    hide Ids;
    forall k, x | k in after.listings && Shows(t, k, x) ensures Shows(s, k, x) {
    }
  }

  /** So a landed move leaves the cache coherent exactly when the old parent's listing was not
      cached, or is also the new parent's. */
  lemma MoveCoherentExactly(st: CacheState, s: Server, t: Server, id: Id, p: Id, q: Id)
    requires ValidServer(s) && Coherent(st, s) && ServerMove(s, t, id, p, q)
    ensures Coherent(AfterFunnel(st, MoveEndpoint(id), Some(q)), t) <==> p == q || p !in st.listings
  {
    hide AfterFunnel;
    hide MoveEndpoint;
    hide ValidServer;
    hide ServerMove;
    hide Current;
    hide Tracked;
    var after := WithoutListing(st, q);
    MoveFunnel(st, s, id, q);
    DropCoherent(st, s, q);
    if p == q || p !in st.listings {
      MoveKeeps(after, s, t, id, p, q);
    } else {
      MoveStales(after, s, t, id, p, q);
    }
  }

  /** A moved node keeps being displayed under its old parent until that listing expires. */
  lemma MovedNodeStillServed(st: CacheState, s: Server, t: Server, id: Id, p: Id, q: Id, now: nat)
    requires ValidServer(s) && Coherent(st, s) && ServerMove(s, t, id, p, q) && p != q
    requires Serve(st, p, now).Some?
    ensures !Shows(t, p, id)
    ensures id in Ids(ReadResult(AfterFunnel(st, MoveEndpoint(id), Some(q)), t, p, now))
  {
    MoveFunnel(st, s, id, q);
    hide AfterFunnel;
    hide MoveEndpoint;
    hide ValidServer;
    hide Ids;
  }
}
