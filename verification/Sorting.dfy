/**
 The library sort the source relies on (`Array.prototype.sort`), as a stable insertion sort on a numeric key,
 together with the facts that make results independent of the sorting algorithm.
 */
module Sorting {

  ghost predicate SortedBy<T>(s: seq<T>, key: T -> real) {
    forall i, j :: 0 <= i < j < |s| ==> key(s[i]) <= key(s[j])
  }

  ghost predicate StrictlySortedBy<T>(s: seq<T>, key: T -> real) {
    forall i, j :: 0 <= i < j < |s| ==> key(s[i]) < key(s[j])
  }

  ghost predicate Distinct<T>(s: seq<T>) {
    forall i, j :: 0 <= i < j < |s| ==> s[i] != s[j]
  }

  function Insert<T>(x: T, s: seq<T>, key: T -> real): (r: seq<T>)
    ensures |r| == |s| + 1
    ensures multiset(r) == multiset(s) + multiset{x}
  {
    if s == [] then [x]
    else if key(x) < key(s[0]) then [x] + s
    else
      assert s == [s[0]] + s[1..];
      [s[0]] + Insert(x, s[1..], key)
  }

  lemma {:induction false} InsertKeepsOrder<T>(x: T, s: seq<T>, key: T -> real)
    requires SortedBy(s, key)
    ensures SortedBy(Insert(x, s, key), key)
  {
    if s != [] && key(x) >= key(s[0]) {
      var rest := Insert(x, s[1..], key);
      InsertKeepsOrder(x, s[1..], key);
      forall y | y in rest ensures key(s[0]) <= key(y) {
        assert y in multiset(rest);
        if y != x { assert y in multiset(s[1..]); assert y in s[1..]; }
      }
    }
  }

  function SortBy<T>(s: seq<T>, key: T -> real): (r: seq<T>)
    ensures multiset(r) == multiset(s)
    ensures SortedBy(r, key)
    ensures |r| == |s|
  {
    if s == [] then []
    else
      assert s == s[..|s|-1] + [s[|s|-1]];
      var front := SortBy(s[..|s|-1], key);
      InsertKeepsOrder(s[|s|-1], front, key);
      Insert(s[|s|-1], front, key)
  }

  lemma SortByLast<T>(front: seq<T>, x: T, key: T -> real)
    ensures SortBy(front + [x], key) == Insert(x, SortBy(front, key), key)
  {
    hide Insert;
    assert (front + [x])[..|front|] == front;
  }

  /** The sort is stable: where all keys are equal it changes nothing. */
  lemma {:induction false} EqualKeysStay<T>(s: seq<T>, key: T -> real, c: real)
    requires forall i :: 0 <= i < |s| ==> key(s[i]) == c
    ensures SortBy(s, key) == s
  {
    if s != [] {
      hide Insert, SortBy;
      var front, x := s[..|s|-1], s[|s|-1];
      EqualKeysStay(front, key, c);
      InsertGoesLast(x, front, key, c);
      SortByLast(front, x, key);
      assert s == front + [x];
    }
  }

  lemma {:induction false} InsertGoesLast<T>(x: T, s: seq<T>, key: T -> real, c: real)
    requires key(x) == c && forall i :: 0 <= i < |s| ==> key(s[i]) == c
    ensures Insert(x, s, key) == s + [x]
  {
    if s != [] {
      InsertGoesLast(x, s[1..], key, c);
      assert s + [x] == [s[0]] + (s[1..] + [x]);
    }
  }

  lemma IndexOf<T>(s: seq<T>, x: T) returns (i: nat)
    requires x in s
    ensures i < |s| && s[i] == x
  {
    i :| 0 <= i < |s| && s[i] == x;
  }

  lemma SameElements<T>(a: seq<T>, b: seq<T>)
    requires multiset(a) == multiset(b)
    ensures |a| == |b|
    ensures forall x :: x in a <==> x in b
  {
    assert |multiset(a)| == |a| && |multiset(b)| == |b|;
    assert forall x :: x in a <==> x in multiset(a);
    assert forall x :: x in b <==> x in multiset(b);
  }

  function RemoveAt<T>(s: seq<T>, i: nat): (r: seq<T>)
    requires i < |s|
    ensures |r| == |s| - 1
    ensures multiset(r) == multiset(s) - multiset{s[i]}
    ensures multiset(s) == multiset(r) + multiset{s[i]}
  {
    assert s == s[..i] + [s[i]] + s[i+1..];
    s[..i] + s[i+1..]
  }

  lemma LeastComesFirst<T>(a: seq<T>, b: seq<T>, key: T -> real)
    requires multiset(a) == multiset(b) && a != [] && b != []
    requires StrictlySortedBy(a, key) && StrictlySortedBy(b, key)
    ensures a[0] == b[0]
  {
    SameElements(a, b);
    assert a[0] in a && b[0] in b;
    var i := IndexOf(b, a[0]);
    var j := IndexOf(a, b[0]);
    assert key(b[0]) <= key(b[i]) && key(a[0]) <= key(a[j]);
  }

  lemma TailStaysSorted<T>(a: seq<T>, key: T -> real)
    requires StrictlySortedBy(a, key) && a != []
    ensures StrictlySortedBy(a[1..], key)
    ensures multiset(a[1..]) == multiset(a) - multiset{a[0]}
  {
    assert RemoveAt(a, 0) == a[1..];
  }

  lemma SameHeadAndTail<T>(a: seq<T>, b: seq<T>)
    requires a != [] && b != [] && a[0] == b[0] && a[1..] == b[1..]
    ensures a == b
  {
    assert a == [a[0]] + a[1..] && b == [b[0]] + b[1..];
  }

  /** Two strictly sorted arrangements of the same elements are the same sequence. */
  lemma {:induction false} StrictOrderUnique<T>(a: seq<T>, b: seq<T>, key: T -> real)
    requires multiset(a) == multiset(b)
    requires StrictlySortedBy(a, key) && StrictlySortedBy(b, key)
    ensures a == b
  {
    hide StrictlySortedBy;
    SameElements(a, b);
    if a != [] {
      LeastComesFirst(a, b, key);
      TailStaysSorted(a, key);
      TailStaysSorted(b, key);
      StrictOrderUnique(a[1..], b[1..], key);
      SameHeadAndTail(a, b);
    }
  }

  /** Distinct keys make a sorted arrangement strictly sorted. */
  lemma DistinctKeysSortStrictly<T>(s: seq<T>, sorted: seq<T>, key: T -> real)
    requires multiset(s) == multiset(sorted) && SortedBy(sorted, key)
    requires forall i, j :: 0 <= i < j < |s| ==> key(s[i]) != key(s[j])
    ensures StrictlySortedBy(sorted, key)
  {
    forall i, j | 0 <= i < j < |sorted| ensures key(sorted[i]) < key(sorted[j]) {
      if key(sorted[i]) == key(sorted[j]) {
        ClashCarriesOver(s, sorted, key, i, j);
      }
    }
  }

  /** Two positions with equal keys exist in every rearrangement as well. */
  lemma ClashCarriesOver<T, K>(s: seq<T>, t: seq<T>, key: T -> K, i: nat, j: nat)
    requires multiset(s) == multiset(t)
    requires i < j < |t| && key(t[i]) == key(t[j])
    ensures exists p, q :: 0 <= p < q < |s| && key(s[p]) == key(s[q])
  {
    SameElements(s, t);
    if t[i] == t[j] {
      var x := t[i];
      assert t == t[..j] + [t[j]] + t[j+1..];
      assert multiset(t)[x] >= 2 by {
        assert t[..j][i] == x;
        assert x in multiset(t[..j]);
      }
      assert x in t;
      var p := IndexOf(s, x);
      assert s == s[..p] + [s[p]] + s[p+1..];
      assert multiset(s[..p])[x] >= 1 || multiset(s[p+1..])[x] >= 1;
      if x in multiset(s[..p]) {
        var q :| 0 <= q < p && s[..p][q] == x;
        assert s[q] == x;
      } else {
        assert x in s[p+1..];
        var q :| 0 <= q < |s[p+1..]| && s[p+1..][q] == x;
        assert s[p+1+q] == x;
      }
    } else {
      assert t[i] in t && t[j] in t;
      var p := IndexOf(s, t[i]);
      var q := IndexOf(s, t[j]);
      if p < q {
        assert key(s[p]) == key(s[q]);
      } else {
        assert key(s[q]) == key(s[p]);
      }
    }
  }

  /** Nothing in the front part of a sorted sequence has a larger key than anything left out of it. */
  lemma FrontIsLeast<T>(sorted: seq<T>, n: nat, key: T -> real, k: T, d: T)
    requires SortedBy(sorted, key) && n <= |sorted|
    requires k in multiset(sorted[..n]) && d in multiset(sorted) - multiset(sorted[..n])
    ensures key(k) <= key(d)
  {
    assert sorted == sorted[..n] + sorted[n..];
    assert d in multiset(sorted[n..]);
    var i := IndexOf(sorted[..n], k);
    var j := IndexOf(sorted[n..], d);
    assert key(sorted[i]) <= key(sorted[n + j]);
  }

  function Map<A, B>(f: A -> B, s: seq<A>): (r: seq<B>)
    ensures |r| == |s|
    ensures forall i :: 0 <= i < |s| ==> r[i] == f(s[i])
  {
    seq(|s|, i requires 0 <= i < |s| => f(s[i]))
  }

  lemma MapRemoveAt<A, B>(f: A -> B, s: seq<A>, i: nat)
    requires i < |s|
    ensures multiset(Map(f, s)) == multiset(Map(f, RemoveAt(s, i))) + multiset{f(s[i])}
  {
    assert RemoveAt(Map(f, s), i) == Map(f, RemoveAt(s, i));
  }

  /** Mapping commutes with rearranging. */
  lemma {:induction false} MapPreservesMultiset<A, B>(f: A -> B, a: seq<A>, b: seq<A>)
    requires multiset(a) == multiset(b)
    ensures multiset(Map(f, a)) == multiset(Map(f, b))
    decreases |a|
  {
    SameElements(a, b);
    if a != [] {
      assert a[0] in a;
      var i := IndexOf(b, a[0]);
      MapRemoveAt(f, a, 0);
      MapRemoveAt(f, b, i);
      MapPreservesMultiset(f, RemoveAt(a, 0), RemoveAt(b, i));
    }
  }

  // ---------- Counting, and the places of the first and the last element ----------

  predicate Counts<T>(x: T, key: T -> real, c: real, orAt: bool) {
    key(x) < c || (orAt && key(x) == c)
  }

  /** How many elements have a key below `c`, or at most `c`. */
  function CountKey<T>(s: seq<T>, key: T -> real, c: real, orAt: bool): nat {
    if s == [] then 0
    else CountKey(s[..|s|-1], key, c, orAt) + if Counts(s[|s|-1], key, c, orAt) then 1 else 0
  }

  lemma {:induction false} CountConcat<T>(a: seq<T>, b: seq<T>, key: T -> real, c: real, orAt: bool)
    ensures CountKey(a + b, key, c, orAt) == CountKey(a, key, c, orAt) + CountKey(b, key, c, orAt)
  {
    hide Counts;
    if b == [] {
      assert a + b == a;
    } else {
      var front := b[..|b|-1];
      CountConcat(a, front, key, c, orAt);
      assert (a + b)[..|a + b|-1] == a + front;
    }
  }

  lemma CountRemoveAt<T>(s: seq<T>, i: nat, key: T -> real, c: real, orAt: bool)
    requires i < |s|
    ensures CountKey(s, key, c, orAt)
      == CountKey(RemoveAt(s, i), key, c, orAt) + if Counts(s[i], key, c, orAt) then 1 else 0
  {
    hide CountKey, Counts;
    var before, x, after := s[..i], s[i], s[i+1..];
    assert s == before + [x] + after;
    CountOne(x, key, c, orAt);
    CountConcat(before + [x], after, key, c, orAt);
    CountConcat(before, [x], key, c, orAt);
    CountConcat(before, after, key, c, orAt);
  }

  lemma CountOne<T>(x: T, key: T -> real, c: real, orAt: bool)
    ensures CountKey([x], key, c, orAt) == if Counts(x, key, c, orAt) then 1 else 0
  {
    assert [x][..0] == [];
  }

  lemma {:induction false} CountRearranged<T>(a: seq<T>, b: seq<T>, key: T -> real, c: real, orAt: bool)
    requires multiset(a) == multiset(b)
    ensures CountKey(a, key, c, orAt) == CountKey(b, key, c, orAt)
    decreases |a|
  {
    SameElements(a, b);
    if a != [] {
      hide CountKey;
      assert a[0] in a;
      var i := IndexOf(b, a[0]);
      CountRemoveAt(a, 0, key, c, orAt);
      CountRemoveAt(b, i, key, c, orAt);
      CountRearranged(RemoveAt(a, 0), RemoveAt(b, i), key, c, orAt);
    }
  }

  lemma {:induction false} CountSameKeys<T>(s: seq<T>, key: T -> real, key': T -> real, c: real, orAt: bool)
    requires forall x :: x in s ==> key(x) == key'(x)
    ensures CountKey(s, key, c, orAt) == CountKey(s, key', c, orAt)
  {
    if s != [] {
      CountSameKeys(s[..|s|-1], key, key', c, orAt);
    }
  }

  /** Nothing counts from position `n` on. */
  lemma {:induction false} CountAtMost<T>(s: seq<T>, key: T -> real, c: real, orAt: bool, n: nat)
    requires forall i :: n <= i < |s| ==> !Counts(s[i], key, c, orAt)
    ensures CountKey(s, key, c, orAt) <= n
  {
    hide Counts;
    if s != [] {
      CountAtMost(s[..|s|-1], key, c, orAt, if n < |s| then n else n - 1);
    }
  }

  /** Everything before position `n` counts. */
  lemma {:induction false} CountAtLeast<T>(s: seq<T>, key: T -> real, c: real, orAt: bool, n: nat)
    requires n <= |s| && forall i :: 0 <= i < n ==> Counts(s[i], key, c, orAt)
    ensures CountKey(s, key, c, orAt) >= n
  {
    hide Counts;
    if s != [] {
      CountAtLeast(s[..|s|-1], key, c, orAt, if n < |s| then n else n - 1);
    }
  }

  /** Fewer than `count` keys are below that of an element in front, more than `count` up to that of one left out. */
  lemma KeptAndLeftOut<T>(s: seq<T>, key: T -> real, count: nat, k: T, d: T)
    requires count < |s| && k in SortBy(s, key)[..count]
    requires d in multiset(SortBy(s, key)) - multiset(SortBy(s, key)[..count])
    ensures key(k) <= key(d) && CountKey(s, key, key(k), false) < count < CountKey(s, key, key(d), true)
  {
    hide SortBy, CountKey, SortedBy;
    var sorted := SortBy(s, key);
    var i := IndexOf(sorted[..count], k);
    var j := LeftOutPlace(sorted, count, d);
    PlacesDecide(sorted, key, i, j);
    CountRearranged(s, sorted, key, key(k), false);
    CountRearranged(s, sorted, key, key(d), true);
  }

  lemma LeftOutPlace<T>(s: seq<T>, count: nat, d: T) returns (j: nat)
    requires count <= |s| && d in multiset(s) - multiset(s[..count])
    ensures count <= j < |s| && s[j] == d
  {
    assert s == s[..count] + s[count..];
    assert d in multiset(s[count..]);
    var i := IndexOf(s[count..], d);
    return count + i;
  }

  lemma PlacesDecide<T>(sorted: seq<T>, key: T -> real, i: nat, j: nat)
    requires SortedBy(sorted, key) && i < j < |sorted|
    ensures key(sorted[i]) <= key(sorted[j])
    ensures CountKey(sorted, key, key(sorted[i]), false) <= i && CountKey(sorted, key, key(sorted[j]), true) >= j + 1
  {
    hide CountKey;
    CountAtMost(sorted, key, key(sorted[i]), false, i);
    CountAtLeast(sorted, key, key(sorted[j]), true, j + 1);
  }

  /** When the counts allow it, the first element of the input ends up in front and the last one does not. */
  lemma FirstKeptLastLeftOut<T>(s: seq<T>, key: T -> real, count: nat)
    requires |s| >= 2
    requires CountKey(s, key, key(s[0]), false) < count < CountKey(s, key, key(s[|s|-1]), true)
    ensures count < |s| && s[0] in SortBy(s, key)[..count]
    ensures s[|s|-1] in multiset(SortBy(s, key)) - multiset(SortBy(s, key)[..count])
  {
    hide SortBy, CountKey;
    var sorted, k, d := SortBy(s, key), s[0], s[|s|-1];
    var i := FirstStaysFirst(s, key);
    var j := LastStaysLast(s, key);
    CountRearranged(s, sorted, key, key(k), false);
    CountRearranged(s, sorted, key, key(d), true);
    CountAtLeast(sorted, key, key(k), false, i);
    CountAtMost(sorted, key, key(d), true, j + 1);
    assert i < count <= j;
    InFrontAndBehind(sorted, count, i, j);
  }

  lemma InFrontAndBehind<T>(s: seq<T>, count: nat, i: nat, j: nat)
    requires i < count <= j < |s|
    ensures s[i] in s[..count] && s[j] in multiset(s) - multiset(s[..count])
  {
    assert s[..count][i] == s[i];
    assert s[count..][j - count] == s[j] && s == s[..count] + s[count..];
  }

  ghost predicate FirstOfItsKey<T>(s: seq<T>, key: T -> real, x: T, j: nat) {
    j < |s| && s[j] == x && forall i :: 0 <= i < j ==> key(s[i]) < key(x)
  }

  lemma {:induction false} InsertKeepsFirst<T>(y: T, s: seq<T>, key: T -> real, x: T, j: nat)
    requires SortedBy(s, key) && FirstOfItsKey(s, key, x, j)
    ensures FirstOfItsKey(Insert(y, s, key), key, x, if key(y) < key(x) then j + 1 else j)
  {
    if key(y) >= key(s[0]) && j > 0 {
      assert forall i :: 0 <= i < j - 1 ==> key(s[1..][i]) == key(s[i+1]);
      InsertKeepsFirst(y, s[1..], key, x, j - 1);
    } else if key(y) >= key(s[0]) {
      assert Insert(y, s, key)[0] == s[0];
    } else {
      assert key(s[0]) <= key(s[j]);
    }
  }

  /** Sorting is stable, so the first element stays before all others with its key. */
  lemma {:induction false} FirstStaysFirst<T>(s: seq<T>, key: T -> real) returns (j: nat)
    requires s != []
    ensures FirstOfItsKey(SortBy(s, key), key, s[0], j)
  {
    if |s| == 1 {
      assert s[..0] == [];
      return 0;
    }
    var n := |s| - 1;
    var i := FirstStaysFirst(s[..n], key);
    InsertKeepsFirst(s[n], SortBy(s[..n], key), key, s[0], i);
    return if key(s[n]) < key(s[0]) then i + 1 else i;
  }

  lemma {:induction false} InsertedLast<T>(x: T, s: seq<T>, key: T -> real) returns (j: nat)
    requires SortedBy(s, key)
    ensures var r := Insert(x, s, key); j < |r| && r[j] == x && forall i :: j < i < |r| ==> key(r[i]) > key(x)
  {
    if s == [] {
      return 0;
    } else if key(x) < key(s[0]) {
      assert forall i :: 0 < i < |s| ==> key(s[0]) <= key(s[i]);
      return 0;
    } else {
      var i := InsertedLast(x, s[1..], key);
      return i + 1;
    }
  }

  /** And the last element stays behind all others with its key. */
  lemma LastStaysLast<T>(s: seq<T>, key: T -> real) returns (j: nat)
    requires s != []
    ensures var r := SortBy(s, key);
      j < |r| && r[j] == s[|s|-1] && forall i :: j < i < |r| ==> key(r[i]) > key(s[|s|-1])
  {
    j := InsertedLast(s[|s|-1], SortBy(s[..|s|-1], key), key);
  }
}
