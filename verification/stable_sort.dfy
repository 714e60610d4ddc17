/** `Array.prototype.sort` with a comparator of the form `(a, b) =>
    key(a) - key(b)` on integer keys. JavaScript's sort is stable, so the
    result is determined: it is the one ordering by key in which elements
    of equal key keep their original order. `SortBy` computes it by
    insertion, and `SortCharacterized` shows it is exactly that ordering. */
module StableSort {

  /** Keys never decrease along `s`. */
  predicate SortedBy<T>(s: seq<T>, key: T -> int) {
    forall i, j :: 0 <= i < j < |s| ==> key(s[i]) <= key(s[j])
  }

  /** The elements of `s` whose key is `k`, in order. */
  function OfKey<T>(s: seq<T>, key: T -> int, k: int): seq<T> {
    if s == [] then []
    else (if key(s[0]) == k then [s[0]] else []) + OfKey(s[1..], key, k)
  }

  /** Inserts `x` before the first element whose key is not smaller. */
  function Insert<T>(x: T, s: seq<T>, key: T -> int): (r: seq<T>)
    ensures multiset(r) == multiset(s) + multiset{x}
  {
    if s == [] || key(x) <= key(s[0]) then [x] + s
    else
      assert s == [s[0]] + s[1..];
      [s[0]] + Insert(x, s[1..], key)
  }

  /** `x` goes past a first element of smaller key. */
  lemma InsertUnfold<T>(x: T, s: seq<T>, key: T -> int)
    requires s != [] && key(x) > key(s[0])
    ensures Insert(x, s, key) == [s[0]] + Insert(x, s[1..], key)
  {
  }

  /** The insertion sort: each element goes in before the later ones of
      equal key. */
  function SortBy<T>(s: seq<T>, key: T -> int): (r: seq<T>)
    ensures multiset(r) == multiset(s)
  {
    if s == [] then []
    else
      assert s == [s[0]] + s[1..];
      Insert(s[0], SortBy(s[1..], key), key)
  }

  /** An element is among those of key `k` exactly when it is in `s` with
      that key. */
  lemma {:induction false} OfKeyMembers<T>(s: seq<T>, key: T -> int, k: int, x: T)
    ensures x in OfKey(s, key, k) <==> x in s && key(x) == k
    decreases |s|
  {
    if s != [] {
      OfKeyMembers(s[1..], key, k, x);
      assert s == [s[0]] + s[1..];
    }
  }

  lemma {:induction false} InsertSorted<T>(x: T, s: seq<T>, key: T -> int)
    requires SortedBy(s, key)
    ensures SortedBy(Insert(x, s, key), key)
    decreases |s|
  {
    if s != [] && key(x) > key(s[0]) {
      var t := s[1..];
      assert SortedBy(t, key) by {
        forall i | 0 <= i < |t| ensures t[i] == s[i + 1] {}
      }
      InsertSorted(x, t, key);
      var u := Insert(x, t, key);
      forall j | 0 <= j < |u| ensures key(s[0]) <= key(u[j]) {
        assert u[j] in multiset(t) + multiset{x};
        if u[j] != x {
          var i :| 0 <= i < |t| && t[i] == u[j];
          assert t[i] == s[i + 1];
        }
      }
    }
  }

  lemma {:induction false} SortSorted<T>(s: seq<T>, key: T -> int)
    ensures SortedBy(SortBy(s, key), key)
    decreases |s|
  {
    if s != [] {
      SortSorted(s[1..], key);
      InsertSorted(s[0], SortBy(s[1..], key), key);
    }
  }

  /** Inserting into a sorted list puts `x` first among the elements of its
      key and leaves every other key's elements alone. */
  lemma {:induction false} InsertOfKey<T>(x: T, s: seq<T>, key: T -> int, k: int)
    requires SortedBy(s, key)
    ensures OfKey(Insert(x, s, key), key, k) == (if key(x) == k then [x] else []) + OfKey(s, key, k)
    decreases |s|
  {
    if s == [] || key(x) <= key(s[0]) {
      assert ([x] + s)[1..] == s;
    } else {
      var t := s[1..];
      assert SortedBy(t, key) by {
        forall i | 0 <= i < |t| ensures t[i] == s[i + 1] {}
      }
      InsertOfKey(x, t, key, k);
      assert ([s[0]] + Insert(x, t, key))[1..] == Insert(x, t, key);
      var hx := if key(x) == k then [x] else [];
      var hs := if key(s[0]) == k then [s[0]] else [];
      assert hs + (hx + OfKey(t, key, k)) == hx + (hs + OfKey(t, key, k));
    }
  }

  /** The sort is stable: the elements of each key keep their order. */
  lemma {:induction false} SortOfKey<T>(s: seq<T>, key: T -> int, k: int)
    ensures OfKey(SortBy(s, key), key, k) == OfKey(s, key, k)
    decreases |s|
  {
    if s != [] {
      SortOfKey(s[1..], key, k);
      SortSorted(s[1..], key);
      InsertOfKey(s[0], SortBy(s[1..], key), key, k);
    }
  }

  /** Two sorted lists that agree on the elements of every key, in order,
      are the same list. */
  lemma {:induction false} StableSortUnique<T>(a: seq<T>, b: seq<T>, key: T -> int)
    requires SortedBy(a, key) && SortedBy(b, key)
    requires forall k :: OfKey(a, key, k) == OfKey(b, key, k)
    ensures a == b
    decreases |a|
  {
    if a == [] || b == [] {
      if a != [] {
        OfKeyMembers(a, key, key(a[0]), a[0]);
        OfKeyMembers(b, key, key(a[0]), a[0]);
      } else if b != [] {
        OfKeyMembers(a, key, key(b[0]), b[0]);
        OfKeyMembers(b, key, key(b[0]), b[0]);
      }
    } else {
      var ka, kb := key(a[0]), key(b[0]);
      FirstKeyBelow(a, b, key);
      FirstKeyBelow(b, a, key);
      assert ka == kb;
      assert a[0] == b[0] by {
        assert OfKey(a, key, ka)[0] == a[0] && OfKey(b, key, ka)[0] == b[0];
      }
      forall k ensures OfKey(a[1..], key, k) == OfKey(b[1..], key, k) {
        TailOfKey(a, b, key, k);
      }
      assert SortedBy(a[1..], key) && SortedBy(b[1..], key);
      StableSortUnique(a[1..], b[1..], key);
      assert a == [a[0]] + a[1..] && b == [b[0]] + b[1..];
    }
  }

  /** Two lists with the same first element and the same elements of key
      `k` have tails with the same elements of key `k`. */
  lemma TailOfKey<T>(a: seq<T>, b: seq<T>, key: T -> int, k: int)
    requires a != [] && b != [] && a[0] == b[0]
    requires OfKey(a, key, k) == OfKey(b, key, k)
    ensures OfKey(a[1..], key, k) == OfKey(b[1..], key, k)
  {
    var h := if key(a[0]) == k then [a[0]] else [];
    var ta, tb := OfKey(a[1..], key, k), OfKey(b[1..], key, k);
    assert h + ta == h + tb;
    assert ta == (h + ta)[|h|..] && tb == (h + tb)[|h|..];
  }

  /** The first key of a sorted list is no larger than the first key of a
      list with the same elements per key. */
  lemma FirstKeyBelow<T>(a: seq<T>, b: seq<T>, key: T -> int)
    requires a != [] && b != [] && SortedBy(a, key)
    requires forall k :: OfKey(a, key, k) == OfKey(b, key, k)
    ensures key(a[0]) <= key(b[0])
  {
    var kb := key(b[0]);
    OfKeyMembers(b, key, kb, b[0]);
    assert OfKey(a, key, kb) == OfKey(b, key, kb);
    OfKeyMembers(a, key, kb, b[0]);
    var i :| 0 <= i < |a| && a[i] == b[0];
  }

  /** Where an element of a reordering stands in the original. */
  lemma IndexInPermutation<T>(r: seq<T>, s: seq<T>, i: nat) returns (j: nat)
    requires multiset(r) == multiset(s) && i < |r|
    ensures j < |s| && s[j] == r[i]
  {
    assert r[i] in multiset(s);
    j :| 0 <= j < |s| && s[j] == r[i];
  }

  /** `r` is `s` sorted by key with the elements of each key in the order
      of `s`: what any stable sort returns. */
  ghost predicate StablySorted<T>(s: seq<T>, r: seq<T>, key: T -> int) {
    SortedBy(r, key) && forall k :: OfKey(r, key, k) == OfKey(s, key, k)
  }

  lemma SortIsStable<T>(s: seq<T>, key: T -> int)
    ensures StablySorted(s, SortBy(s, key), key)
  {
    SortSorted(s, key);
    forall k ensures OfKey(SortBy(s, key), key, k) == OfKey(s, key, k) {
      SortOfKey(s, key, k);
    }
  }

  /** `SortBy(s)` is the one list stably sorted from `s`, so any stable
      sort by the same key gives the same result. */
  lemma SortCharacterized<T>(s: seq<T>, r: seq<T>, key: T -> int)
    ensures r == SortBy(s, key) <==> StablySorted(s, r, key)
  {
    SortIsStable(s, key);
    if StablySorted(s, r, key) {
      StableSortUnique(r, SortBy(s, key), key);
    }
  }
}
