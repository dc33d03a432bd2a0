/** Sequence vocabulary shared by the models: subsequences, repeat-freedom
    and the stable sort that the client's `sort_by_key` calls rely on. */
module Sequences {

  datatype Option<+T> = None | Some(value: T)

  ghost predicate NoDup<T>(s: seq<T>) {
    forall i, j :: 0 <= i < j < |s| ==> s[i] != s[j]
  }

  lemma NoDupAppend<T>(a: seq<T>, b: seq<T>)
    requires NoDup(a) && NoDup(b)
    requires forall x :: x in a ==> x !in b
    ensures NoDup(a + b)
  {
    forall i, j | 0 <= i < j < |a + b| ensures (a + b)[i] != (a + b)[j] {
      if i < |a| && j >= |a| {
        assert (a + b)[i] in a && (a + b)[j] in b;
      }
    }
  }

  /** A repeat-free sequence holds each element once. */
  lemma NoDupMultiset<T>(s: seq<T>)
    requires NoDup(s)
    ensures forall x :: multiset(s)[x] == if x in s then 1 else 0
    ensures |set x | x in s| == |s|
  {
    if s != [] {
      var last := s[|s| - 1];
      var rest := s[..|s| - 1];
      assert s == rest + [last];
      assert last !in rest;
      NoDupMultiset(rest);
      assert (set x | x in s) == (set x | x in rest) + {last};
    }
  }

  lemma SameMembers<T>(a: seq<T>, b: seq<T>)
    requires NoDup(a) && NoDup(b)
    requires (forall x :: x in a ==> x in b) && (forall x :: x in b ==> x in a)
    ensures multiset(a) == multiset(b) && |a| == |b|
  {
    NoDupMultiset(a);
    NoDupMultiset(b);
    assert multiset(a) == multiset(b);
    assert |multiset(a)| == |a| && |multiset(b)| == |b|;
  }

  lemma NoDupPermuted<T>(s: seq<T>, t: seq<T>)
    requires NoDup(s) && multiset(s) == multiset(t)
    ensures NoDup(t)
  {
    NoDupMultiset(s);
    forall i, j | 0 <= i < j < |t| ensures t[i] != t[j] {
      assert t == t[..i] + [t[i]] + t[i + 1..j] + [t[j]] + t[j + 1..];
      assert t[i] == t[j] ==> multiset(t)[t[i]] >= 2;
    }
  }

  /** A repeat-free sequence inside another is no longer than it. */
  lemma NoDupLength<T>(a: seq<T>, b: seq<T>)
    requires NoDup(a)
    requires forall x :: x in a ==> x in b
    ensures |a| <= |b|
  {
    NoDupMultiset(a);
    var sa, sb := set x | x in a, set x | x in b;
    assert sa <= sb;
    SubsetSize(sa, sb);
    SetOfSeqSize(b);
  }

  lemma SetOfSeqSize<T>(s: seq<T>)
    ensures |set x | x in s| <= |s|
  {
    if s != [] {
      var last := s[|s| - 1];
      var rest := s[..|s| - 1];
      assert s == rest + [last];
      SetOfSeqSize(rest);
      assert (set x | x in s) == (set x | x in rest) + {last};
    }
  }

  lemma SubsetSize<T>(a: set<T>, b: set<T>)
    requires a <= b
    ensures |a| <= |b|
  {
    assert b == a + (b - a);
  }

  // ---------------------------------------------------------------------
  // Subsequences
  // ---------------------------------------------------------------------

  /** a can be obtained from b by deleting elements. */
  predicate Subseq<T(==)>(a: seq<T>, b: seq<T>) {
    if a == [] then true
    else if b == [] then false
    else (a[0] == b[0] && Subseq(a[1..], b[1..])) || Subseq(a, b[1..])
  }

  lemma {:induction false} SubseqRefl<T>(a: seq<T>)
    ensures Subseq(a, a)
  {
    if a != [] {
      SubseqRefl(a[1..]);
    }
  }

  lemma {:induction false} SubseqAppend<T>(a: seq<T>, b: seq<T>, c: seq<T>, d: seq<T>)
    requires Subseq(a, b) && Subseq(c, d)
    ensures Subseq(a + c, b + d)
    decreases |b|
  {
    if b == [] {
      assert a == [];
      assert a + c == c && b + d == d;
    } else {
      assert (b + d)[1..] == b[1..] + d;
      if a != [] && a[0] == b[0] && Subseq(a[1..], b[1..]) {
        SubseqAppend(a[1..], b[1..], c, d);
        assert (a + c)[1..] == a[1..] + c;
      } else {
        assert Subseq(a, b[1..]);
        SubseqAppend(a, b[1..], c, d);
      }
    }
  }

  lemma SubseqExtend<T>(a: seq<T>, b: seq<T>, c: seq<T>)
    requires Subseq(a, b)
    ensures Subseq(a, b + c)
  {
    assert Subseq([], c);
    SubseqAppend(a, b, [], c);
    assert a + [] == a;
  }

  lemma {:induction false} SubseqTrans<T>(a: seq<T>, b: seq<T>, c: seq<T>)
    requires Subseq(a, b) && Subseq(b, c)
    ensures Subseq(a, c)
    decreases |c|
  {
    if a != [] {
      if b[0] == c[0] && Subseq(b[1..], c[1..]) {
        if a[0] == b[0] && Subseq(a[1..], b[1..]) {
          SubseqTrans(a[1..], b[1..], c[1..]);
        } else {
          SubseqTrans(a, b[1..], c[1..]);
        }
      } else {
        SubseqTrans(a, b, c[1..]);
      }
    }
  }

  lemma {:induction false} SubseqTake<T>(a: seq<T>, k: nat)
    requires k <= |a|
    ensures Subseq(a[..k], a)
  {
    SubseqRefl(a[..k]);
    assert Subseq([], a[k..]);
    SubseqAppend(a[..k], a[..k], [], a[k..]);
    assert a[..k] + a[k..] == a && a[..k] + [] == a[..k];
  }

  lemma {:induction false} SubseqMembers<T>(a: seq<T>, b: seq<T>)
    requires Subseq(a, b)
    ensures forall x :: x in a ==> x in b
    ensures |a| <= |b|
    decreases |b|
  {
    if a != [] {
      if a[0] == b[0] && Subseq(a[1..], b[1..]) {
        SubseqMembers(a[1..], b[1..]);
        assert a == [a[0]] + a[1..];
      } else {
        SubseqMembers(a, b[1..]);
      }
    }
  }

  lemma {:induction false} SubseqNoDup<T>(a: seq<T>, b: seq<T>)
    requires Subseq(a, b) && NoDup(b)
    ensures NoDup(a)
    decreases |b|
  {
    if a != [] {
      if a[0] == b[0] && Subseq(a[1..], b[1..]) {
        SubseqNoDup(a[1..], b[1..]);
        SubseqMembers(a[1..], b[1..]);
        assert b[0] !in b[1..];
        assert a[0] !in a[1..];
      } else {
        SubseqNoDup(a, b[1..]);
      }
    }
  }

  // ---------------------------------------------------------------------
  // Stable sorting by an integer key
  // ---------------------------------------------------------------------

  ghost predicate SortedBy<T>(s: seq<T>, key: T -> int) {
    forall i, j :: 0 <= i < j < |s| ==> key(s[i]) <= key(s[j])
  }

  /** The elements of s whose key is k, in order: what stability preserves. */
  function WithKey<T>(s: seq<T>, key: T -> int, k: int): seq<T> {
    if s == [] then []
    else if key(s[0]) == k then [s[0]] + WithKey(s[1..], key, k)
    else WithKey(s[1..], key, k)
  }

  function InsertByKey<T>(x: T, s: seq<T>, key: T -> int): seq<T> {
    if s == [] || key(x) <= key(s[0]) then [x] + s
    else [s[0]] + InsertByKey(x, s[1..], key)
  }

  /** The stable sort of s by key, as an insertion sort. */
  function StableSort<T>(s: seq<T>, key: T -> int): seq<T> {
    if s == [] then [] else InsertByKey(s[0], StableSort(s[1..], key), key)
  }

  lemma SortedCons<T>(h: T, t: seq<T>, key: T -> int)
    requires SortedBy(t, key)
    requires forall x :: x in t ==> key(h) <= key(x)
    ensures SortedBy([h] + t, key)
  {
    var s := [h] + t;
    forall i, j | 0 <= i < j < |s| ensures key(s[i]) <= key(s[j]) {
      assert s[j] == t[j - 1] && t[j - 1] in t;
      assert i > 0 ==> s[i] == t[i - 1];
    }
  }

  lemma SortedTail<T>(s: seq<T>, key: T -> int)
    requires s != [] && SortedBy(s, key)
    ensures SortedBy(s[1..], key)
    ensures forall x :: x in s ==> key(s[0]) <= key(x)
  {
    forall i, j | 0 <= i < j < |s[1..]| ensures key(s[1..][i]) <= key(s[1..][j]) {
      assert s[1..][i] == s[i + 1] && s[1..][j] == s[j + 1];
    }
    forall x | x in s ensures key(s[0]) <= key(x) {
      var i :| 0 <= i < |s| && s[i] == x;
    }
  }

  lemma {:induction false} InsertByKeyOrders<T>(x: T, s: seq<T>, key: T -> int)
    requires SortedBy(s, key)
    ensures SortedBy(InsertByKey(x, s, key), key)
    ensures multiset(InsertByKey(x, s, key)) == multiset{x} + multiset(s)
  {
    if s == [] || key(x) <= key(s[0]) {
      if s != [] {
        SortedTail(s, key);
      }
      SortedCons(x, s, key);
    } else {
      SortedTail(s, key);
      var rest := InsertByKey(x, s[1..], key);
      InsertByKeyOrders(x, s[1..], key);
      assert s == [s[0]] + s[1..];
      forall y | y in rest ensures key(s[0]) <= key(y) {
        assert y in multiset(rest);
        assert y == x || y in s[1..];
      }
      SortedCons(s[0], rest, key);
    }
  }

  lemma {:induction false} InsertByKeyStable<T>(x: T, s: seq<T>, key: T -> int, k: int)
    ensures WithKey(InsertByKey(x, s, key), key, k)
            == (if key(x) == k then [x] else []) + WithKey(s, key, k)
  {
    if s == [] || key(x) <= key(s[0]) {
      assert ([x] + s)[1..] == s;
    } else {
      var rest := InsertByKey(x, s[1..], key);
      InsertByKeyStable(x, s[1..], key, k);
      assert ([s[0]] + rest)[1..] == rest;
    }
  }

  lemma {:induction false} StableSortPermutes<T>(s: seq<T>, key: T -> int)
    ensures SortedBy(StableSort(s, key), key)
    ensures multiset(StableSort(s, key)) == multiset(s)
  {
    if s != [] {
      StableSortPermutes(s[1..], key);
      InsertByKeyOrders(s[0], StableSort(s[1..], key), key);
      assert s == [s[0]] + s[1..];
    }
  }

  lemma {:induction false} StableSortStable<T>(s: seq<T>, key: T -> int, k: int)
    ensures WithKey(StableSort(s, key), key, k) == WithKey(s, key, k)
  {
    if s != [] {
      StableSortStable(s[1..], key, k);
      InsertByKeyStable(s[0], StableSort(s[1..], key), key, k);
    }
  }

  lemma PermutationMembers<T>(s: seq<T>, t: seq<T>)
    requires multiset(s) == multiset(t)
    ensures |s| == |t|
    ensures forall x :: x in s <==> x in t
  {
    assert |multiset(s)| == |s| && |multiset(t)| == |t|;
    forall x ensures x in s <==> x in t {
      assert x in s <==> x in multiset(s);
      assert x in t <==> x in multiset(t);
    }
  }

  /** The sort permutes, orders, and keeps equal-keyed elements in their given order. */
  lemma StableSortProps<T>(s: seq<T>, key: T -> int)
    ensures SortedBy(StableSort(s, key), key)
    ensures multiset(StableSort(s, key)) == multiset(s)
    ensures |StableSort(s, key)| == |s|
    ensures forall x :: x in StableSort(s, key) <==> x in s
    ensures forall k :: WithKey(StableSort(s, key), key, k) == WithKey(s, key, k)
  {
    hide StableSort;
    hide WithKey;
    StableSortPermutes(s, key);
    PermutationMembers(StableSort(s, key), s);
    forall k ensures WithKey(StableSort(s, key), key, k) == WithKey(s, key, k) {
      StableSortStable(s, key, k);
    }
  }

  lemma {:induction false} WithKeyMembers<T>(s: seq<T>, key: T -> int, k: int)
    ensures forall x :: x in WithKey(s, key, k) <==> x in s && key(x) == k
  {
    if s != [] {
      WithKeyMembers(s[1..], key, k);
    }
  }

  lemma {:induction false} WithKeyAppend<T>(a: seq<T>, b: seq<T>, key: T -> int, k: int)
    ensures WithKey(a + b, key, k) == WithKey(a, key, k) + WithKey(b, key, k)
  {
    if a == [] {
      assert a + b == b;
    } else {
      assert (a + b)[1..] == a[1..] + b;
      WithKeyAppend(a[1..], b, key, k);
    }
  }

  lemma {:induction false} WithKeyUniform<T>(s: seq<T>, key: T -> int, j: int, k: int)
    requires forall x :: x in s ==> key(x) == j
    ensures WithKey(s, key, k) == if j == k then s else []
  {
    if s != [] {
      WithKeyUniform(s[1..], key, j, k);
    }
  }

  /** The first elements of two sorted sequences with the same per-key contents agree. */
  lemma SameHead<T>(a: seq<T>, b: seq<T>, key: T -> int)
    requires SortedBy(a, key) && SortedBy(b, key) && a != []
    requires forall k :: WithKey(a, key, k) == WithKey(b, key, k)
    ensures b != [] && a[0] == b[0]
  {
    var k := key(a[0]);
    WithKeyMembers(b, key, k);
    assert WithKey(a, key, k)[0] == a[0];
    assert a[0] in WithKey(b, key, k);
    var m := key(b[0]);
    WithKeyMembers(a, key, m);
    assert WithKey(b, key, m)[0] == b[0];
    assert b[0] in WithKey(a, key, m);
    SortedTail(a, key);
    SortedTail(b, key);
    assert k == m;
  }

  lemma TailWithKey<T>(a: seq<T>, b: seq<T>, key: T -> int, k: int)
    requires a != [] && b != [] && a[0] == b[0] && WithKey(a, key, k) == WithKey(b, key, k)
    ensures WithKey(a[1..], key, k) == WithKey(b[1..], key, k)
  {
    if key(a[0]) == k {
      assert WithKey(a, key, k)[1..] == WithKey(a[1..], key, k);
      assert WithKey(b, key, k)[1..] == WithKey(b[1..], key, k);
    }
  }

  /** There is only one stable sort: order and per-key order determine the sequence. */
  lemma {:induction false} StableSortUnique<T>(a: seq<T>, b: seq<T>, key: T -> int)
    requires SortedBy(a, key) && SortedBy(b, key)
    requires forall k :: WithKey(a, key, k) == WithKey(b, key, k)
    ensures a == b
  {
    hide WithKey;
    if a == [] {
      if b != [] {
        SameHead(b, a, key);
      }
    } else {
      SameHead(a, b, key);
      SortedTail(a, key);
      SortedTail(b, key);
      forall k ensures WithKey(a[1..], key, k) == WithKey(b[1..], key, k) {
        TailWithKey(a, b, key, k);
      }
      StableSortUnique(a[1..], b[1..], key);
      assert a == [a[0]] + a[1..] && b == [b[0]] + b[1..];
    }
  }

  /** Where sorting puts an element: behind all smaller keys, in front of all others. */
  lemma {:induction false} InsertPlace<T>(x: T, s: seq<T>, key: T -> int) returns (p: nat)
    ensures p <= |s| && InsertByKey(x, s, key) == s[..p] + [x] + s[p..]
    ensures forall i :: 0 <= i < p ==> key(s[i]) < key(x)
    ensures p < |s| ==> key(x) <= key(s[p])
  {
    if s == [] || key(x) <= key(s[0]) {
      p := 0;
    } else {
      var q := InsertPlace(x, s[1..], key);
      p := q + 1;
      assert s == [s[0]] + s[1..];
    }
  }

  /** Position i of t holds what position at[i] of s holds, and each position is used once. */
  ghost predicate Rearranges<T>(s: seq<T>, t: seq<T>, at: seq<nat>) {
    && |at| == |t| == |s| && NoDup(at)
    && forall i :: 0 <= i < |t| ==> at[i] < |s| && t[i] == s[at[i]]
  }

  /** Of two sorted elements the earlier has the smaller key, or the same key and the earlier origin. */
  ghost predicate OrderedFrom<T>(t: seq<T>, key: T -> int, at: seq<nat>) {
    |at| == |t| && forall i, j :: 0 <= i < j < |t| ==> key(t[i]) < key(t[j]) || (key(t[i]) == key(t[j]) && at[i] < at[j])
  }

  function Shifted(at: seq<nat>): (r: seq<nat>)
    ensures |r| == |at| && forall i :: 0 <= i < |at| ==> r[i] == at[i] + 1
  {
    seq(|at|, i requires 0 <= i < |at| => at[i] + 1)
  }

  /** The sort rearranges, and says where each element came from. */
  lemma {:induction false} SortPositions<T>(s: seq<T>, key: T -> int) returns (at: seq<nat>)
    ensures Rearranges(s, StableSort(s, key), at) && OrderedFrom(StableSort(s, key), key, at)
  {
    if s == [] {
      at := [];
    } else {
      var rest := SortPositions(s[1..], key);
      var t := StableSort(s[1..], key);
      StableSortPermutes(s[1..], key);
      var p := InsertPlace(s[0], t, key);
      at := Shifted(rest[..p]) + [0] + Shifted(rest[p..]);
      InsertRearranges(s, t, rest, p);
      InsertOrders(s[0], t, key, rest, p);
    }
  }

  lemma InsertRearranges<T>(s: seq<T>, t: seq<T>, rest: seq<nat>, p: nat)
    requires s != [] && p <= |t| && Rearranges(s[1..], t, rest)
    ensures Rearranges(s, t[..p] + [s[0]] + t[p..], Shifted(rest[..p]) + [0] + Shifted(rest[p..]))
  {
    var all, at := t[..p] + [s[0]] + t[p..], Shifted(rest[..p]) + [0] + Shifted(rest[p..]);
    InsertDistinct(rest, p);
    hide NoDup;
    forall i | 0 <= i < |all| ensures at[i] < |s| && all[i] == s[at[i]] {
      if i != p {
        var k := if i < p then i else i - 1;
        assert at[i] == rest[k] + 1 && all[i] == t[k] == s[1..][rest[k]];
      }
    }
  }

  lemma InsertDistinct(rest: seq<nat>, p: nat)
    requires NoDup(rest) && p <= |rest|
    ensures NoDup(Shifted(rest[..p]) + [0] + Shifted(rest[p..]))
  {
    var at := Shifted(rest[..p]) + [0] + Shifted(rest[p..]);
    forall i, j | 0 <= i < j < |at| ensures at[i] != at[j] {
      assert i < p ==> at[i] == rest[i] + 1;
      assert i > p ==> at[i] == rest[i - 1] + 1;
      assert j < p ==> at[j] == rest[j] + 1;
      assert j > p ==> at[j] == rest[j - 1] + 1;
    }
  }

  lemma InsertOrders<T>(x: T, t: seq<T>, key: T -> int, rest: seq<nat>, p: nat)
    requires p <= |t| == |rest| && OrderedFrom(t, key, rest) && SortedBy(t, key)
    requires forall i :: 0 <= i < p ==> key(t[i]) < key(x)
    requires p < |t| ==> key(x) <= key(t[p])
    ensures OrderedFrom(t[..p] + [x] + t[p..], key, Shifted(rest[..p]) + [0] + Shifted(rest[p..]))
  {
    forall i | p <= i < |t| ensures key(x) <= key(t[i]) {
      assert i > p ==> key(t[p]) <= key(t[i]);
    }
    hide OrderedFrom;
    hide SortedBy;
    PlacedOrders(x, t, key, rest, p, t[..p] + [x] + t[p..], Shifted(rest[..p]) + [0] + Shifted(rest[p..]));
  }

  lemma PlacedOrders<T>(x: T, t: seq<T>, key: T -> int, rest: seq<nat>, p: nat, all: seq<T>, at: seq<nat>)
    requires p <= |t| == |rest| && OrderedFrom(t, key, rest) && |all| == |at| == |t| + 1
    requires all[p] == x && at[p] == 0
    requires forall i :: 0 <= i < p ==> all[i] == t[i] && at[i] == rest[i] + 1 && key(t[i]) < key(x)
    requires forall i :: p < i < |all| ==> all[i] == t[i - 1] && at[i] == rest[i - 1] + 1 && key(x) <= key(t[i - 1])
    ensures OrderedFrom(all, key, at)
  {
  }

  /** Elements of a subsequence stand in the same order in the whole. */
  lemma {:induction false} SubseqPositions<T>(a: seq<T>, b: seq<T>, i: nat, j: nat) returns (x: nat, y: nat)
    requires Subseq(a, b) && i < j < |a|
    ensures x < y < |b| && b[x] == a[i] && b[y] == a[j]
    decreases |b|
  {
    if a[0] == b[0] && Subseq(a[1..], b[1..]) {
      if i == 0 {
        SubseqMembers(a[1..], b[1..]);
        assert a[1..][j - 1] in b[1..];
        var k :| 0 <= k < |b[1..]| && b[1..][k] == a[j];
        x, y := 0, k + 1;
      } else {
        x, y := SubseqPositions(a[1..], b[1..], i - 1, j - 1);
        x, y := x + 1, y + 1;
      }
    } else {
      x, y := SubseqPositions(a, b[1..], i, j);
      x, y := x + 1, y + 1;
    }
  }

  /** A sequence already in order is its own stable sort. */
  lemma StableSortSorted<T>(s: seq<T>, key: T -> int)
    requires SortedBy(s, key)
    ensures StableSort(s, key) == s
  {
    StableSortProps(s, key);
    StableSortUnique(StableSort(s, key), s, key);
  }
}
