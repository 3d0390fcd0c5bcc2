/** Python's `list.sort(key=...)` / `sorted(..., key=...)` and the slice `[:k]` that follows it.
    The sort is specified by what any stable sort must deliver: the result is ordered by key,
    and for every key value the elements carrying it appear in their original order.
    `Sort` (an insertion sort) meets that specification, and `StableSortUnique` shows that
    nothing else does, so `Sort` is the same function as Python's stable sort. */
module StableSort {

  /** Non-decreasing by key. */
  ghost predicate SortedBy<T>(s: seq<T>, key: T -> real) {
    forall i, j :: 0 <= i < j < |s| ==> key(s[i]) <= key(s[j])
  }

  /** The elements of `s` whose key is `d`, in their order in `s`. */
  function WithKey<T>(s: seq<T>, key: T -> real, d: real): (r: seq<T>)
    ensures |r| <= |s|
  {
    if |s| == 0 then []
    else WithKey(s[..|s| - 1], key, d) + (if key(s[|s| - 1]) == d then [s[|s| - 1]] else [])
  }

  /** The key class of `d` holds exactly elements of `s` with key `d`, and is empty only when
      no element has that key. */
  lemma {:induction false} WithKeyMembers<T>(s: seq<T>, key: T -> real, d: real)
    ensures var r := WithKey(s, key, d);
      && (forall i :: 0 <= i < |r| ==> key(r[i]) == d && r[i] in s)
      && ((exists i :: 0 <= i < |s| && key(s[i]) == d) ==> |r| > 0)
    decreases |s|
  {
    if |s| > 0 {
      var init := s[..|s| - 1];
      WithKeyMembers(init, key, d);
      assert forall x :: x in init ==> x in s;
      if key(s[|s| - 1]) != d && exists i :: 0 <= i < |s| && key(s[i]) == d {
        var i :| 0 <= i < |s| && key(s[i]) == d;
        assert init[i] == s[i];
      }
    }
  }

  /** `a` is an initial segment of `b`. */
  ghost predicate IsPrefix<T>(a: seq<T>, b: seq<T>) {
    |a| <= |b| && a == b[..|a|]
  }

  /** `t` keeps, for every key value, the relative order that `s` has: stability. */
  ghost predicate SameKeyClasses<T>(s: seq<T>, t: seq<T>, key: T -> real) {
    forall d :: WithKey(t, key, d) == WithKey(s, key, d)
  }

  /** What a stable sort of `s` by `key` must return. */
  ghost predicate IsStableSortOf<T>(s: seq<T>, t: seq<T>, key: T -> real) {
    SortedBy(t, key) && multiset(t) == multiset(s) && SameKeyClasses(s, t, key)
  }

  lemma {:induction false} WithKeyAppend<T>(a: seq<T>, b: seq<T>, key: T -> real, d: real)
    ensures WithKey(a + b, key, d) == WithKey(a, key, d) + WithKey(b, key, d)
    decreases |b|
  {
    if |b| == 0 {
      assert a + b == a;
    } else {
      var b' := b[..|b| - 1];
      assert (a + b)[..|a + b| - 1] == a + b';
      WithKeyAppend(a, b', key, d);
    }
  }

  lemma WithKeyCons<T>(x: T, s: seq<T>, key: T -> real, d: real)
    ensures WithKey([x] + s, key, d) == (if key(x) == d then [x] else []) + WithKey(s, key, d)
  {
    WithKeyAppend([x], s, key, d);
    assert [x][..0] == [];
  }

  /** Where `x` is inserted into a sorted sequence: after every element whose key is not larger. */
  function Insert<T>(x: T, s: seq<T>, key: T -> real): (r: seq<T>)
    ensures |r| == |s| + 1
    ensures multiset(r) == multiset(s) + multiset{x}
    ensures |s| > 0 ==> r[0] == x || r[0] == s[0]
  {
    if |s| == 0 then [x]
    else if key(x) < key(s[0]) then [x] + s
    else
      assert s == [s[0]] + s[1..];
      [s[0]] + Insert(x, s[1..], key)
  }

  /** Every element of a sorted sequence has a key no smaller than the first one's. */
  lemma FirstIsLeast<T>(s: seq<T>, key: T -> real, y: T)
    requires SortedBy(s, key) && y in s
    ensures key(s[0]) <= key(y)
  {
    var j :| 0 <= j < |s| && s[j] == y;
  }

  /** Putting a key no larger than any other in front of a sorted sequence keeps it sorted. */
  lemma ConsSorted<T>(x: T, s: seq<T>, key: T -> real)
    requires SortedBy(s, key)
    requires forall j :: 0 <= j < |s| ==> key(x) <= key(s[j])
    ensures SortedBy([x] + s, key)
  {
    var r := [x] + s;
    forall i, j | 0 <= i < j < |r| ensures key(r[i]) <= key(r[j]) {
      if i > 0 {
        assert r[i] == s[i - 1] && r[j] == s[j - 1];
      } else {
        assert r[j] == s[j - 1];
      }
    }
  }

  lemma {:induction false} InsertSorted<T>(x: T, s: seq<T>, key: T -> real)
    requires SortedBy(s, key)
    ensures SortedBy(Insert(x, s, key), key)
    decreases |s|
  {
    if |s| == 0 {
    } else if key(x) < key(s[0]) {
      ConsSorted(x, s, key);
    } else {
      var rest := Insert(x, s[1..], key);
      InsertSorted(x, s[1..], key);
      forall j | 0 <= j < |rest| ensures key(s[0]) <= key(rest[j]) {
        assert rest[j] in multiset(rest);
        assert rest[j] in multiset(s[1..]) + multiset{x};
        if rest[j] != x {
          assert rest[j] in s[1..];
          assert rest[j] in s;
          FirstIsLeast(s, key, rest[j]);
        }
      }
      ConsSorted(s[0], rest, key);
    }
  }

  /** A sorted sequence whose keys all exceed `d` has no element with key `d`. */
  lemma WithKeyAbove<T>(s: seq<T>, key: T -> real, d: real)
    requires SortedBy(s, key) && |s| > 0 && d < key(s[0])
    ensures WithKey(s, key, d) == []
  {
    var w := WithKey(s, key, d);
    WithKeyMembers(s, key, d);
    if |w| > 0 {
      assert w[0] in s;
      FirstIsLeast(s, key, w[0]);
    }
  }

  lemma {:induction false} InsertStable<T>(x: T, s: seq<T>, key: T -> real, d: real)
    requires SortedBy(s, key)
    ensures WithKey(Insert(x, s, key), key, d) == WithKey(s, key, d) + (if key(x) == d then [x] else [])
    decreases |s|
  {
    if |s| == 0 {
      WithKeyCons(x, s, key, d);
      assert [x] + s == [x];
    } else if key(x) < key(s[0]) {
      WithKeyCons(x, s, key, d);
      if key(x) == d {
        WithKeyAbove(s, key, d);
      }
    } else {
      InsertStable(x, s[1..], key, d);
      InsertStableStep(x, s, key, d);
    }
  }

  /** The step of `InsertStable` where `x` goes after the first element. */
  lemma InsertStableStep<T>(x: T, s: seq<T>, key: T -> real, d: real)
    requires |s| > 0 && key(s[0]) <= key(x)
    requires WithKey(Insert(x, s[1..], key), key, d)
             == WithKey(s[1..], key, d) + (if key(x) == d then [x] else [])
    ensures WithKey(Insert(x, s, key), key, d) == WithKey(s, key, d) + (if key(x) == d then [x] else [])
  {
    assert s == [s[0]] + s[1..];
    assert Insert(x, s, key) == [s[0]] + Insert(x, s[1..], key);
    ConsKeyClass(s[0], Insert(x, s[1..], key), s[1..], if key(x) == d then [x] else [], key, d);
  }

  /** Putting the same element in front of two sequences keeps an extension of key classes. */
  lemma ConsKeyClass<T>(y: T, a: seq<T>, b: seq<T>, extra: seq<T>, key: T -> real, d: real)
    requires WithKey(a, key, d) == WithKey(b, key, d) + extra
    ensures WithKey([y] + a, key, d) == WithKey([y] + b, key, d) + extra
  {
    var e, wb := if key(y) == d then [y] else [], WithKey(b, key, d);
    WithKeyCons(y, a, key, d);
    WithKeyCons(y, b, key, d);
    Associate(e, wb, extra);
  }

  lemma Associate<T>(a: seq<T>, b: seq<T>, c: seq<T>)
    ensures a + (b + c) == (a + b) + c
  {
  }

  /** Insertion sort: each element in turn is inserted into the sorted prefix before it. */
  function Sort<T>(s: seq<T>, key: T -> real): (t: seq<T>)
    ensures |t| == |s| && multiset(t) == multiset(s)
  {
    if |s| == 0 then []
    else
      assert s == s[..|s| - 1] + [s[|s| - 1]];
      Insert(s[|s| - 1], Sort(s[..|s| - 1], key), key)
  }

  /** One step of `Sort`: inserting `x` into the stably sorted `init` extends the key classes
      of `init + [x]`. */
  lemma SortStep<T>(init: seq<T>, x: T, key: T -> real, d: real)
    requires SortedBy(Sort(init, key), key)
    requires WithKey(Sort(init, key), key, d) == WithKey(init, key, d)
    ensures WithKey(Insert(x, Sort(init, key), key), key, d) == WithKey(init + [x], key, d)
  {
    InsertStable(x, Sort(init, key), key, d);
    WithKeyAppend(init, [x], key, d);
    assert [x][..0] == [];
  }

  /** `Sort` is a stable sort. */
  lemma {:induction false} SortIsStableSort<T>(s: seq<T>, key: T -> real)
    ensures IsStableSortOf(s, Sort(s, key), key)
    decreases |s|
  {
    if |s| > 0 {
      var init := s[..|s| - 1];
      var x := s[|s| - 1];
      assert s == init + [x];
      SortIsStableSort(init, key);
      InsertSorted(x, Sort(init, key), key);
      forall d ensures WithKey(Sort(s, key), key, d) == WithKey(s, key, d) {
        SortStep(init, x, key, d);
      }
    }
  }

  /** Two sorted sequences with the same key classes start with the same key. */
  lemma SameFirstKey<T>(a: seq<T>, b: seq<T>, key: T -> real)
    requires SortedBy(a, key) && SortedBy(b, key) && |a| > 0
    requires WithKey(a, key, key(a[0])) == WithKey(b, key, key(a[0]))
    ensures |b| > 0 && key(b[0]) <= key(a[0])
  {
    var w := WithKey(b, key, key(a[0]));
    WithKeyMembers(a, key, key(a[0]));
    WithKeyMembers(b, key, key(a[0]));
    assert |WithKey(a, key, key(a[0]))| > 0;
    assert w[0] in b;
    FirstIsLeast(b, key, w[0]);
  }

  /** A stable sort has only one possible result. */
  lemma {:induction false} StableSortUnique<T>(a: seq<T>, b: seq<T>, key: T -> real)
    requires SortedBy(a, key) && SortedBy(b, key) && SameKeyClasses(a, b, key)
    ensures a == b
    decreases |a|
  {
    if |a| > 0 {
      SameFirstKey(a, b, key);
      SameFirstKey(b, a, key);
      var d0 := key(a[0]);
      assert key(b[0]) == d0;
      assert a == [a[0]] + a[1..] && b == [b[0]] + b[1..];
      WithKeyCons(a[0], a[1..], key, d0);
      WithKeyCons(b[0], b[1..], key, d0);
      var w := WithKey(a, key, d0);
      assert w == [a[0]] + WithKey(a[1..], key, d0);
      assert w == WithKey(b, key, d0);
      assert w == [b[0]] + WithKey(b[1..], key, d0);
      assert a[0] == w[0] == b[0];
      forall d ensures WithKey(a[1..], key, d) == WithKey(b[1..], key, d) {
        var e := if key(a[0]) == d then [a[0]] else [];
        WithKeyCons(a[0], a[1..], key, d);
        WithKeyCons(b[0], b[1..], key, d);
        assert e + WithKey(a[1..], key, d) == e + WithKey(b[1..], key, d);
        assert (e + WithKey(a[1..], key, d))[|e|..] == WithKey(a[1..], key, d);
        assert (e + WithKey(b[1..], key, d))[|e|..] == WithKey(b[1..], key, d);
      }
      StableSortUnique(a[1..], b[1..], key);
    } else if |b| > 0 {
      SameFirstKey(b, a, key);
    }
  }

  /** Whatever stable sort produced `t`, it is `Sort(s, key)`. */
  lemma StableSortsAgree<T>(s: seq<T>, t: seq<T>, key: T -> real)
    requires IsStableSortOf(s, t, key)
    ensures t == Sort(s, key)
  {
    SortIsStableSort(s, key);
    StableSortUnique(t, Sort(s, key), key);
  }

  function Min(a: int, b: int): (r: int) { if a <= b then a else b }
  function Max(a: int, b: int): (r: int) { if a >= b then a else b }

  /** The length of `s[:k]` for a sequence of length `len`: a negative `k` counts from the end. */
  function SliceEnd(len: nat, k: int): (m: nat)
    ensures m <= len
    ensures k >= 0 ==> m == Min(k, len)
    ensures k < 0 ==> m == Max(0, len + k)
  {
    if k >= 0 then (if k < len then k else len)
    else if len + k > 0 then len + k else 0
  }

  /** Python's `s[:k]`. */
  function Take<T>(s: seq<T>, k: int): (r: seq<T>)
  {
    s[..SliceEnd(|s|, k)]
  }

  /** The first `k` of the stable sort: the top-k selection the searches perform. */
  function SortedPrefix<T>(s: seq<T>, key: T -> real, k: int): (r: seq<T>)
  {
    Take(Sort(s, key), k)
  }

  /** The selection is as long as the slice of the input allows. */
  lemma SortedPrefixLength<T>(s: seq<T>, key: T -> real, k: int)
    ensures |SortedPrefix(s, key, k)| == SliceEnd(|s|, k)
  {
  }

  /** What the top-k selection delivers: as many elements as the slice allows, ordered by key,
      drawn from `s` without duplication, keeping the original order among equal keys, and no
      element left behind has a smaller key than one selected. */
  lemma {:induction false} SortedPrefixSpec<T>(s: seq<T>, key: T -> real, k: int)
    ensures var r := SortedPrefix(s, key, k);
      && |r| == SliceEnd(|s|, k)
      && SortedBy(r, key)
      && multiset(r) <= multiset(s)
      && (forall d :: IsPrefix(WithKey(r, key, d), WithKey(s, key, d)))
      && (forall y, i :: y in multiset(s) - multiset(r) && 0 <= i < |r| ==> key(r[i]) <= key(y))
  {
    var t := Sort(s, key);
    var m := SliceEnd(|s|, k);
    var r, u := t[..m], t[m..];
    SortIsStableSort(s, key);
    assert t == r + u;
    assert multiset(s) == multiset(r) + multiset(u);
    forall d ensures IsPrefix(WithKey(r, key, d), WithKey(s, key, d)) {
      PrefixKeyClass(r, u, s, key, d);
    }
    forall y, i | y in multiset(s) - multiset(r) && 0 <= i < |r| ensures key(r[i]) <= key(y) {
      PrefixLeast(r, u, key, y, i);
    }
  }

  /** The key classes of a front part of a stable sort are initial segments of the input's. */
  lemma PrefixKeyClass<T>(r: seq<T>, u: seq<T>, s: seq<T>, key: T -> real, d: real)
    requires WithKey(r + u, key, d) == WithKey(s, key, d)
    ensures IsPrefix(WithKey(r, key, d), WithKey(s, key, d))
  {
    WithKeyAppend(r, u, key, d);
  }

  /** In a sorted sequence split in two, every key in the front is at most every key behind. */
  lemma PrefixLeast<T>(r: seq<T>, u: seq<T>, key: T -> real, y: T, i: int)
    requires SortedBy(r + u, key) && y in multiset(u) && 0 <= i < |r|
    ensures key(r[i]) <= key(y)
  {
    var j :| 0 <= j < |u| && u[j] == y;
    assert (r + u)[i] == r[i] && (r + u)[|r| + j] == y;
  }

  /** Selecting from an empty slice gives nothing. */
  lemma SortedPrefixZero<T>(s: seq<T>, key: T -> real)
    ensures SortedPrefix(s, key, 0) == []
  {
  }
}
