/** The idempotency store: create results by caller-supplied key, bounded in age and in number. */
module Idempotency {
  import opened Sequences

  datatype Entry = Entry(itemId: string, name: string, parentId: Option<string>, recorded: nat)

  datatype Hit = Hit(itemId: string, name: string, parentId: Option<string>, ageMs: nat)

  datatype Key = Key(text: string)

  type Store = map<Key, Entry>

  /** Subtraction that stops at zero. */
  function SaturatingSub(a: nat, b: nat): nat {
    if a >= b then a - b else 0
  }

  predicate Fresh(e: Entry, now: nat, ttl: nat) {
    SaturatingSub(now, e.recorded) < ttl
  }

  function Pruned(st: Store, now: nat, ttl: nat): Store {
    map k | k in st && Fresh(st[k], now, ttl) :: st[k]
  }

  /** No more entries than the cap remain, as many as it allows, and none dropped is newer than one
      kept. Which of several equally old entries go is left open, as the map's order decides it. */
  ghost predicate Capped(before: Store, after: Store, cap: nat) {
    && after.Keys <= before.Keys && (forall k :: k in after ==> after[k] == before[k])
    && (if |before| <= cap then after == before else |after| == cap)
    && forall j, k :: j in before && j !in after && k in after ==> before[j].recorded <= before[k].recorded
  }

  function HitOf(e: Entry, now: nat): Hit {
    Hit(e.itemId, e.name, e.parentId, SaturatingSub(now, e.recorded))
  }

  function Lookup(st: Store, key: Key, now: nat): Option<Hit> {
    if key in st then Some(HitOf(st[key], now)) else None
  }

  function AgeKey(): ((Key, nat)) -> int {
    (p: (Key, nat)) => p.1
  }

  /** The pairs name each key of the store once, with its time. */
  ghost predicate Pairs(st: Store, s: seq<(Key, nat)>) {
    && |s| == |st|
    && (forall i :: 0 <= i < |s| ==> s[i].0 in st && s[i].1 == st[s[i].0].recorded)
    && (forall i, j :: 0 <= i < j < |s| ==> s[i].0 != s[j].0)
  }

  ghost predicate OldestFirst(s: seq<(Key, nat)>) {
    forall i, j :: 0 <= i < j < |s| ==> s[i].1 <= s[j].1
  }

  lemma PairsSorted(st: Store, s: seq<(Key, nat)>)
    requires Pairs(st, s)
    ensures Pairs(st, StableSort(s, AgeKey()))
    ensures OldestFirst(StableSort(s, AgeKey()))
  {
    hide StableSort;
    var t := StableSort(s, AgeKey());
    StableSortProps(s, AgeKey());
    assert NoDup(s);
    NoDupPermuted(s, t);
    forall i | 0 <= i < |t| ensures t[i].0 in st && t[i].1 == st[t[i].0].recorded {
      assert t[i] in s;
    }
    forall i, j | 0 <= i < j < |t| ensures t[i].0 != t[j].0 && t[i].1 <= t[j].1 {
      assert t[i] != t[j];
      assert AgeKey()(t[i]) <= AgeKey()(t[j]);
    }
  }

  /** The store without the keys of the first n pairs. */
  function Dropped(st: Store, s: seq<(Key, nat)>, n: nat): Store
    requires n <= |s|
  {
    if n == 0 then st else Dropped(st, s, n - 1) - {s[n - 1].0}
  }

  lemma DroppedNone(st: Store, s: seq<(Key, nat)>)
    ensures Dropped(st, s, 0) == st
  {
  }

  lemma DroppedStep(st: Store, s: seq<(Key, nat)>, n: nat)
    requires n < |s|
    ensures Dropped(st, s, n + 1) == Dropped(st, s, n) - {s[n].0}
  {
  }

  lemma {:induction false} DroppedHas(st: Store, s: seq<(Key, nat)>, n: nat, k: Key)
    requires n <= |s|
    ensures k in Dropped(st, s, n) <==> k in st && forall i :: 0 <= i < n ==> s[i].0 != k
    ensures k in Dropped(st, s, n) ==> Dropped(st, s, n)[k] == st[k]
  {
    if n > 0 {
      DroppedHas(st, s, n - 1, k);
    }
  }

  lemma {:induction false} DroppedSize(st: Store, s: seq<(Key, nat)>, n: nat)
    requires Pairs(st, s) && n <= |s|
    ensures |Dropped(st, s, n)| == |st| - n
  {
    if n > 0 {
      DroppedSize(st, s, n - 1);
      var d := Dropped(st, s, n - 1);
      DroppedHas(st, s, n - 1, s[n - 1].0);
      RemovedSize(d, s[n - 1].0);
    }
  }

  lemma RemovedSize(d: Store, k: Key)
    requires k in d
    ensures |d - {k}| == |d| - 1
  {
    assert (d - {k}).Keys == d.Keys - {k};
  }

  lemma CappedWhole(st: Store, cap: nat)
    requires |st| <= cap
    ensures Capped(st, st, cap)
  {
  }

  lemma PairsLength(st: Store, s: seq<(Key, nat)>)
    requires Pairs(st, s)
    ensures |s| == |st|
  {
  }

  lemma SubsetFills<T>(a: set<T>, b: set<T>)
    requires a <= b && |a| == |b|
    ensures a == b
  {
    assert b == a + (b - a);
  }

  lemma PairOf(st: Store, s: seq<(Key, nat)>, k: Key) returns (i: nat)
    requires Pairs(st, s) && k in st
    ensures i < |s| && s[i] == (k, st[k].recorded)
  {
    var keys := seq(|s|, i requires 0 <= i < |s| => s[i].0);
    NoDupMultiset(keys);
    var all := set x | x in keys;
    assert all <= st.Keys;
    SubsetFills(all, st.Keys);
    assert k in keys;
    i :| 0 <= i < |keys| && keys[i] == k;
  }

  /** Dropping the first pairs of an age-ordered list is a capping. */
  lemma OldestDropped(st: Store, s: seq<(Key, nat)>, cap: nat)
    requires Pairs(st, s) && cap < |st|
    requires OldestFirst(s)
    ensures Capped(st, Dropped(st, s, |st| - cap), cap)
  {
    var n := |st| - cap;
    PairsLength(st, s);
    DroppedSize(st, s, n);
    var after := Dropped(st, s, n);
    forall k ensures k in after ==> k in st && after[k] == st[k] {
      DroppedHas(st, s, n, k);
    }
    forall j, k | j in st && j !in after && k in after ensures st[j].recorded <= st[k].recorded {
      DroppedOlder(st, s, n, j, k);
    }
  }

  lemma DroppedOlder(st: Store, s: seq<(Key, nat)>, n: nat, j: Key, k: Key)
    requires Pairs(st, s) && n <= |s| && j in st && k in st
    requires j !in Dropped(st, s, n) && k in Dropped(st, s, n)
    requires OldestFirst(s)
    ensures st[j].recorded <= st[k].recorded
  {
    DroppedHas(st, s, n, j);
    DroppedHas(st, s, n, k);
    var m := PairOf(st, s, k);
    var i :| 0 <= i < n && s[i].0 == j;
    assert i < n <= m;
  }

  class IdempotencyStore {
    var inner: Store
    const ttlMs: nat
    const maxEntries: nat

    constructor (ttlMs: nat, maxEntries: nat)
      ensures inner == map[] && this.ttlMs == ttlMs && this.maxEntries == maxEntries
    {
      inner := map[];
      this.ttlMs := ttlMs;
      this.maxEntries := maxEntries;
    }

    method Check(key: Key, now: nat) returns (hit: Option<Hit>)
      modifies this
      ensures Step(old(inner), Checked(key, now), inner, ttlMs, maxEntries)
      ensures hit == Lookup(inner, key, now)
    {
      PruneExpired(now);
      if key !in inner {
        return None;
      }
      var e := inner[key];
      return Some(Hit(e.itemId, e.name, e.parentId, SaturatingSub(now, e.recorded)));
    }

    method Record(key: Key, itemId: string, name: string, parentId: Option<string>, now: nat)
      modifies this
      ensures Step(old(inner), Recorded(key, Entry(itemId, name, parentId, now)), inner, ttlMs, maxEntries)
    {
      inner := inner[key := Entry(itemId, name, parentId, now)];
      PruneExpired(now);
      EnforceCap();
    }

    method PruneExpired(now: nat)
      modifies this
      ensures inner == Pruned(old(inner), now, ttlMs)
    {
      inner := map k | k in inner && SaturatingSub(now, inner[k].recorded) < ttlMs :: inner[k];
    }

    method EnforceCap()
      modifies this
      ensures Capped(old(inner), inner, maxEntries)
    {
      hide StableSort;
      hide Pairs;
      hide Capped;
      hide AgeKey;
      hide OldestFirst;
      hide Dropped;
      if |inner| <= maxEntries {
        CappedWhole(inner, maxEntries);
        return;
      }
      var byAge := ByAge();
      PairsSorted(inner, byAge);
      PairsLength(inner, byAge);
      byAge := StableSort(byAge, AgeKey());
      PairsLength(inner, byAge);
      ghost var st := inner;
      var toRemove := |inner| - maxEntries;
      DroppedNone(st, byAge);
      for i := 0 to toRemove
        invariant inner == Dropped(st, byAge, i)
      {
        DroppedStep(st, byAge, i);
        inner := inner - {byAge[i].0};
      }
      OldestDropped(st, byAge, maxEntries);
    }

    /** The entries with their times, in an order of the map's choosing. */
    method ByAge() returns (s: seq<(Key, nat)>)
      ensures Pairs(inner, s)
    {
      s := [];
      var left := inner.Keys;
      while left != {}
        invariant left <= inner.Keys && |s| + |left| == |inner|
        invariant forall i :: 0 <= i < |s| ==> s[i].0 in inner && s[i].0 !in left && s[i].1 == inner[s[i].0].recorded
        invariant forall i, j :: 0 <= i < j < |s| ==> s[i].0 != s[j].0
      {
        var k :| k in left;
        left := left - {k};
        s := s + [(k, inner[k].recorded)];
      }
    }
  }

  // ---------------------------------------------------------------------
  // Histories
  // ---------------------------------------------------------------------

  datatype Event = Recorded(key: Key, entry: Entry) | Checked(key: Key, at: nat)

  function Time(e: Event): nat {
    match e
    case Recorded(_, entry) => entry.recorded
    case Checked(_, at) => at
  }

  /** What one call may do to the store. */
  ghost predicate Step(st: Store, e: Event, next: Store, ttl: nat, cap: nat) {
    match e
    case Recorded(key, entry) => Capped(Pruned(st[key := entry], entry.recorded, ttl), next, cap)
    case Checked(_, at) => next == Pruned(st, at, ttl)
  }

  /** The store can be st after the history, starting empty. */
  ghost predicate Arises(history: seq<Event>, st: Store, ttl: nat, cap: nat)
    decreases |history|
  {
    if history == [] then st == map[]
    else
      var last := |history| - 1;
      exists prev :: Arises(history[..last], prev, ttl, cap) && Step(prev, history[last], st, ttl, cap)
  }

  function Clock(history: seq<Event>): nat {
    if history == [] then 0 else Time(history[|history| - 1])
  }

  /** The calls read a non-decreasing clock. */
  predicate Clocked(history: seq<Event>)
    decreases |history|
  {
    history != [] ==>
      var rest := history[..|history| - 1];
      Clock(rest) <= Clock(history) && Clocked(rest)
  }

  /** The unbounded log's entry: the latest record under the key. */
  function Latest(history: seq<Event>, key: Key): Option<Entry>
    decreases |history|
  {
    if history == [] then None
    else
      var e := history[|history| - 1];
      if e.Recorded? && e.key == key then Some(e.entry) else Latest(history[..|history| - 1], key)
  }

  /** The other keys recorded at or after time t. */
  function OthersSince(history: seq<Event>, key: Key, t: nat): set<Key>
    decreases |history|
  {
    if history == [] then {}
    else
      var e := history[|history| - 1];
      (if e.Recorded? && e.key != key && e.entry.recorded >= t then {e.key} else {})
      + OthersSince(history[..|history| - 1], key, t)
  }

  /** No record is later than the clock. */
  lemma {:induction false} LatestPast(history: seq<Event>, k: Key)
    requires Clocked(history) && Latest(history, k).Some?
    ensures Latest(history, k).value.recorded <= Clock(history)
    decreases |history|
  {
    var e := history[|history| - 1];
    if !(e.Recorded? && e.key == k) {
      LatestPast(history[..|history| - 1], k);
    }
  }

  lemma {:induction false} LatestCounted(history: seq<Event>, j: Key, key: Key, t: nat)
    requires j != key && Latest(history, j).Some? && Latest(history, j).value.recorded >= t
    ensures j in OthersSince(history, key, t)
    decreases |history|
  {
    var e := history[|history| - 1];
    if !(e.Recorded? && e.key == j) {
      LatestCounted(history[..|history| - 1], j, key, t);
    }
  }

  lemma {:induction false} CountedLatest(history: seq<Event>, j: Key, key: Key, t: nat)
    requires Clocked(history) && j in OthersSince(history, key, t)
    ensures j != key && Latest(history, j).Some? && Latest(history, j).value.recorded >= t
    decreases |history|
  {
    var rest := history[..|history| - 1];
    if j in OthersSince(rest, key, t) {
      CountedLatest(rest, j, key, t);
      LatestPast(rest, j);
    }
  }

  /** Stored entries are the latest records. */
  ghost predicate Newest(history: seq<Event>, st: Store) {
    forall k :: k in st ==> Latest(history, k) == Some(st[k])
  }

  /** A fresh latest record is missing only if enough other keys are as new. */
  ghost predicate Crowded(history: seq<Event>, st: Store, ttl: nat, cap: nat) {
    forall k :: Latest(history, k).Some? && Clock(history) < Latest(history, k).value.recorded + ttl && k !in st ==>
      |OthersSince(history, k, Latest(history, k).value.recorded)| >= cap
  }

  /** A key recorded later than a stored one is stored too. */
  ghost predicate Upward(history: seq<Event>, st: Store) {
    forall j, k :: k in st && Latest(history, j).Some? && Latest(history, j).value.recorded > st[k].recorded ==>
      j in st
  }

  ghost predicate Holds(history: seq<Event>, st: Store, ttl: nat, cap: nat) {
    Newest(history, st) && Crowded(history, st, ttl, cap) && Upward(history, st)
  }

  /** A call that records overwrites under its key before anything is dropped. */
  function Written(st: Store, e: Event): Store {
    match e
    case Recorded(key, entry) => st[key := entry]
    case Checked(_, _) => st
  }

  lemma LatestStep(history: seq<Event>, k: Key)
    requires history != []
    ensures var last := |history| - 1;
      && (history[last].Recorded? && history[last].key == k ==> Latest(history, k) == Some(history[last].entry))
      && (!(history[last].Recorded? && history[last].key == k) ==>
            Latest(history, k) == Latest(history[..last], k))
    ensures forall t :: OthersSince(history[..|history| - 1], k, t) <= OthersSince(history, k, t)
  {
  }

  lemma WriteCrowded(history: seq<Event>, prev: Store, ttl: nat, cap: nat, k: Key)
    requires history != [] && Clocked(history)
    requires Crowded(history[..|history| - 1], prev, ttl, cap)
    requires Latest(history, k).Some? && Clock(history) < Latest(history, k).value.recorded + ttl
    requires k !in Written(prev, history[|history| - 1])
    ensures |OthersSince(history, k, Latest(history, k).value.recorded)| >= cap
  {
    LatestStep(history, k);
    hide Latest;
    hide OthersSince;
    var rest := history[..|history| - 1];
    var t := Latest(history, k).value.recorded;
    SubsetSize(OthersSince(rest, k, t), OthersSince(history, k, t));
  }

  lemma WriteHolds(history: seq<Event>, prev: Store, ttl: nat, cap: nat)
    requires history != [] && Clocked(history) && Holds(history[..|history| - 1], prev, ttl, cap)
    ensures Holds(history, Written(prev, history[|history| - 1]), ttl, cap)
  {
    var last := |history| - 1;
    var st := Written(prev, history[last]);
    forall k | Latest(history, k).Some? && Clock(history) < Latest(history, k).value.recorded + ttl && k !in st
      ensures |OthersSince(history, k, Latest(history, k).value.recorded)| >= cap
    {
      WriteCrowded(history, prev, ttl, cap, k);
    }
    hide Crowded;
    forall k | k in st ensures Latest(history, k) == Some(st[k]) {
      LatestStep(history, k);
    }
    forall j, k | k in st && Latest(history, j).Some? && Latest(history, j).value.recorded > st[k].recorded
      ensures j in st
    {
      LatestStep(history, j);
      LatestStep(history, k);
      LatestPast(history, j);
    }
  }

  lemma PruneHolds(history: seq<Event>, st: Store, ttl: nat, cap: nat)
    requires Clocked(history) && Holds(history, st, ttl, cap)
    ensures Holds(history, Pruned(st, Clock(history), ttl), ttl, cap)
  {
    forall k | Latest(history, k).Some? ensures Latest(history, k).value.recorded <= Clock(history) {
      LatestPast(history, k);
    }
    hide Latest;
    hide OthersSince;
    hide Clock;
  }

  /** Those kept when a key is evicted are other keys recorded no earlier. */
  lemma EvictedCrowded(history: seq<Event>, st: Store, next: Store, cap: nat, k: Key)
    requires Newest(history, st) && Capped(st, next, cap) && k in st && k !in next
    ensures |OthersSince(history, k, st[k].recorded)| >= cap
  {
    forall j | j in next.Keys ensures j in OthersSince(history, k, st[k].recorded) {
      LatestCounted(history, j, k, st[k].recorded);
    }
    SubsetSize(next.Keys, OthersSince(history, k, st[k].recorded));
  }

  lemma CapHolds(history: seq<Event>, st: Store, next: Store, ttl: nat, cap: nat)
    requires Holds(history, st, ttl, cap) && Capped(st, next, cap)
    ensures Holds(history, next, ttl, cap)
  {
    forall k | k in st && k !in next ensures |OthersSince(history, k, st[k].recorded)| >= cap {
      EvictedCrowded(history, st, next, cap, k);
    }
    hide Latest;
    hide OthersSince;
    hide Clock;
  }

  /** Over every history: what is stored, what may be missing, and how much there is. */
  lemma {:induction false} HistoryHolds(history: seq<Event>, st: Store, ttl: nat, cap: nat)
    requires Clocked(history) && Arises(history, st, ttl, cap)
    ensures Holds(history, st, ttl, cap) && |st| <= cap
    ensures forall k :: k in st ==> Clock(history) < st[k].recorded + ttl
    decreases |history|
  {
    if history != [] {
      var last := |history| - 1;
      var prev :| Arises(history[..last], prev, ttl, cap) && Step(prev, history[last], st, ttl, cap);
      HistoryHolds(history[..last], prev, ttl, cap);
      WriteHolds(history, prev, ttl, cap);
      hide Holds;
      var st1 := Written(prev, history[last]);
      PruneHolds(history, st1, ttl, cap);
      var st2 := Pruned(st1, Clock(history), ttl);
      if history[last].Recorded? {
        CapHolds(history, st2, st, ttl, cap);
      } else {
        SubsetSize(st2.Keys, prev.Keys);
      }
    }
  }

  // ---------------------------------------------------------------------
  // Headline results
  // ---------------------------------------------------------------------

  /** A hit is exactly the latest record for the key, younger than the lifetime. Such a record is
      missed only if at least cap other keys were recorded no earlier, and is always missed once cap
      other keys were recorded later. */
  lemma CheckAnswers(history: seq<Event>, st: Store, key: Key, now: nat, ttl: nat, cap: nat)
    requires Clocked(history) && Arises(history, st, ttl, cap) && Clock(history) <= now
    ensures |st| <= cap
    ensures var hit, latest := Lookup(Pruned(st, now, ttl), key, now), Latest(history, key);
      && (hit.Some? ==>
            && latest.Some? && now < latest.value.recorded + ttl
            && hit.value.itemId == latest.value.itemId && hit.value.name == latest.value.name
            && hit.value.parentId == latest.value.parentId && hit.value.ageMs + latest.value.recorded == now)
      && (latest.Some? && now < latest.value.recorded + ttl && hit.None? ==>
            |OthersSince(history, key, latest.value.recorded)| >= cap)
      && (latest.Some? && |OthersSince(history, key, latest.value.recorded + 1)| >= cap ==> hit.None?)
  {
    hide Latest;
    hide OthersSince;
    hide Clock;
    hide Holds;
    hide Arises;
    hide Pruned;
    hide Lookup;
    HistoryHolds(history, st, ttl, cap);
    if Latest(history, key).Some? {
      LatestPast(history, key);
    }
    HeldEntry(history, st, key, now, ttl, cap);
    LookupPruned(st, key, now, ttl);
  }

  lemma LookupPruned(st: Store, key: Key, now: nat, ttl: nat)
    ensures Lookup(Pruned(st, now, ttl), key, now)
            == if key in st && Fresh(st[key], now, ttl) then Some(HitOf(st[key], now)) else None
  {
  }

  lemma HeldEntry(history: seq<Event>, st: Store, key: Key, now: nat, ttl: nat, cap: nat)
    requires Clocked(history) && Holds(history, st, ttl, cap) && |st| <= cap && Clock(history) <= now
    ensures key in st ==>
              Latest(history, key) == Some(st[key]) && |OthersSince(history, key, st[key].recorded + 1)| < cap
    ensures key !in st && Latest(history, key).Some? && now < Latest(history, key).value.recorded + ttl ==>
              |OthersSince(history, key, Latest(history, key).value.recorded)| >= cap
  {
    hide Latest;
    hide OthersSince;
    hide Clock;
    if key in st {
      StoredNotCrowded(history, st, key, cap);
    }
  }

  lemma StoredNotCrowded(history: seq<Event>, st: Store, key: Key, cap: nat)
    requires Clocked(history) && Newest(history, st) && Upward(history, st) && |st| <= cap && key in st
    ensures |OthersSince(history, key, st[key].recorded + 1)| < cap
  {
    var later := OthersSince(history, key, st[key].recorded + 1);
    forall j | j in later ensures j in st && j != key {
      CountedLatest(history, j, key, st[key].recorded + 1);
    }
    SubsetSize(later + {key}, st.Keys);
  }

  /** Below the cap the store answers as an unbounded log would. */
  lemma BelowCapIsLog(history: seq<Event>, st: Store, key: Key, now: nat, ttl: nat, cap: nat)
    requires Clocked(history) && Arises(history, st, ttl, cap) && Clock(history) <= now
    requires |OthersSince(history, key, 0)| < cap
    ensures Lookup(Pruned(st, now, ttl), key, now) ==
              match Latest(history, key)
              case Some(e) =>
                if e.recorded <= now < e.recorded + ttl then Some(Hit(e.itemId, e.name, e.parentId, now - e.recorded))
                else None
              case None => None
  {
    hide Latest;
    hide OthersSince;
    hide Clock;
    hide Arises;
    hide Pruned;
    hide Lookup;
    CheckAnswers(history, st, key, now, ttl, cap);
    if Latest(history, key).Some? {
      LatestPast(history, key);
      FewerSince(history, key, 0, Latest(history, key).value.recorded);
    }
  }

  lemma {:induction false} SinceShrinks(history: seq<Event>, key: Key, s: nat, t: nat)
    requires s <= t
    ensures OthersSince(history, key, t) <= OthersSince(history, key, s)
    decreases |history|
  {
    if history != [] {
      SinceShrinks(history[..|history| - 1], key, s, t);
    }
  }

  lemma FewerSince(history: seq<Event>, key: Key, s: nat, t: nat)
    requires s <= t
    ensures |OthersSince(history, key, t)| <= |OthersSince(history, key, s)|
  {
    SinceShrinks(history, key, s, t);
    SubsetSize(OthersSince(history, key, t), OthersSince(history, key, s));
  }
}
