/** `sortBy`: ordering a collection by a key computed per element. The
    source sorts with `Array.prototype.sort` and a three-way comparator
    (`compare`, or `compareLength` for the `'length'` criterion); the host
    sort is taken to be stable, as ECMAScript 2019 requires, and is modelled
    here by a stable insertion sort. */
module Sorting {
  import opened SequenceOps

  /** `less` is a strict total order: the comparator built on it (0 on
      equal keys, -1 below, 1 above) is then consistent. Numbers under `<`
      and strings under lexicographic `<` are both such orders. */
  ghost predicate StrictTotalOrder<K(!new)>(less: (K, K) -> bool) {
    && (forall x :: !less(x, x))
    && (forall x, y, z :: TransitiveAt(less, x, y, z))
    && (forall x, y :: x != y ==> less(x, y) || less(y, x))
  }

  /** Transitivity of `less` through `y`. Kept as a separate predicate so
      that a proof uses it only where it names the three keys. */
  ghost predicate TransitiveAt<K>(less: (K, K) -> bool, x: K, y: K, z: K) {
    less(x, y) && less(y, z) ==> less(x, z)
  }

  /** No element's key is below the key of an element before it. */
  ghost predicate SortedBy<T, K>(s: seq<T>, key: T -> K, less: (K, K) -> bool) {
    forall i, j :: 0 <= i < j < |s| ==> !less(key(s[j]), key(s[i]))
  }

  /** The elements whose key is `k`. */
  ghost function HasKey<T, K>(key: T -> K, k: K): T -> bool {
    t => key(t) == k
  }

  /** Stability: for every key, the elements carrying it appear in `r` in
      the same relative order as in `a`. */
  ghost predicate StableFor<T(!new), K(!new)>(r: seq<T>, a: seq<T>, key: T -> K) {
    forall k :: Filter(r, HasKey(key, k)) == Filter(a, HasKey(key, k))
  }

  /** Puts `x` after every element whose key is not above its own. */
  function Insert<T, K>(s: seq<T>, x: T, key: T -> K, less: (K, K) -> bool): (r: seq<T>)
    ensures multiset(r) == multiset(s) + multiset{x}
  {
    if |s| == 0 then [x]
    else if less(key(x), key(s[0])) then [x] + s
    else
      assert s == [s[0]] + s[1..];
      [s[0]] + Insert(s[1..], x, key, less)
  }

  /** Stable sort by key: each element in turn is inserted after all the
      earlier ones whose key is not above its own. */
  function StableSort<T, K>(a: seq<T>, key: T -> K, less: (K, K) -> bool): seq<T>
    decreases |a|
  {
    if |a| == 0 then [] else Insert(StableSort(a[..|a| - 1], key, less), a[|a| - 1], key, less)
  }

  lemma {:induction false} InsertSorted<T, K(!new)>(s: seq<T>, x: T, key: T -> K, less: (K, K) -> bool)
    requires StrictTotalOrder(less)
    requires SortedBy(s, key, less)
    ensures SortedBy(Insert(s, x, key, less), key, less)
    decreases |s|
  {
    if |s| > 0 {
      if less(key(x), key(s[0])) {
        var r := [x] + s;
        forall i, j | 0 <= i < j < |r|
          ensures !less(key(r[j]), key(r[i]))
        {
          if i == 0 {
            assert TransitiveAt(less, key(r[j]), key(x), key(s[0]));
          }
        }
      } else {
        var tail := Insert(s[1..], x, key, less);
        InsertSorted(s[1..], x, key, less);
        var r := [s[0]] + tail;
        forall i, j | 0 <= i < j < |r|
          ensures !less(key(r[j]), key(r[i]))
        {
          if i == 0 {
            var t := r[j];
            assert t in multiset(tail);
            if t != x {
              assert t in multiset(s[1..]);
              var m :| 0 <= m < |s[1..]| && s[1..][m] == t;
              assert s[m + 1] == t;
            }
          } else {
            assert r[i] == tail[i - 1] && r[j] == tail[j - 1];
          }
        }
      }
    }
  }

  /** In a sorted sequence whose first key is above `key(x)`, every key is. */
  lemma AllAbove<T, K(!new)>(s: seq<T>, x: T, key: T -> K, less: (K, K) -> bool)
    requires StrictTotalOrder(less)
    requires SortedBy(s, key, less)
    requires |s| > 0 && less(key(x), key(s[0]))
    ensures forall j :: 0 <= j < |s| ==> key(s[j]) != key(x)
  {
    forall j | 0 < j < |s|
      ensures less(key(x), key(s[j]))
    {
      assert !less(key(s[j]), key(s[0]));
      assert TransitiveAt(less, key(x), key(s[0]), key(s[j]));
    }
  }

  /** Inserting `x` into a sorted sequence keeps, for every key, the
      elements carrying it in order, with `x` after them. */
  lemma {:induction false} InsertStable<T(!new), K(!new)>(s: seq<T>, x: T, key: T -> K, less: (K, K) -> bool, k: K)
    requires StrictTotalOrder(less)
    requires SortedBy(s, key, less)
    ensures Filter(Insert(s, x, key, less), HasKey(key, k))
         == Filter(s, HasKey(key, k)) + Filter([x], HasKey(key, k))
    decreases |s|
  {
    if |s| == 0 {
      assert Insert(s, x, key, less) == [x];
    } else if less(key(x), key(s[0])) {
      AllAbove(s, x, key, less);
      assert Insert(s, x, key, less) == [x] + s;
      PrependStable(s, x, key, k);
    } else {
      var s' := s[1..];
      InsertStable(s', x, key, less, k);
      assert [s[0]] + s' == s;
      ConsStable(s[0], s', Insert(s', x, key, less), x, HasKey(key, k));
    }
  }

  /** Putting `x` in front of elements whose keys all differ from its own
      keeps, for every key, the elements carrying it in order. */
  lemma PrependStable<T(!new), K(!new)>(s: seq<T>, x: T, key: T -> K, k: K)
    requires forall j :: 0 <= j < |s| ==> key(s[j]) != key(x)
    ensures Filter([x] + s, HasKey(key, k)) == Filter(s, HasKey(key, k)) + Filter([x], HasKey(key, k))
  {
    var p := HasKey(key, k);
    FilterConcat([x], s, p);
    if key(x) == k {
      FilterNone(s, p);
    } else {
      assert Filter([x], p) == [];
    }
  }

  /** The case of `InsertStable` where `x` goes after the first element. */
  lemma ConsStable<T(!new)>(y: T, s: seq<T>, t: seq<T>, x: T, p: T -> bool)
    requires Filter(t, p) == Filter(s, p) + Filter([x], p)
    ensures Filter([y] + t, p) == Filter([y] + s, p) + Filter([x], p)
  {
    var a, b, c := Filter([y], p), Filter(s, p), Filter([x], p);
    calc {
      Filter([y] + t, p);
      { FilterConcat([y], t, p); }
      a + Filter(t, p);
      a + (b + c);
      (a + b) + c;
      { FilterConcat([y], s, p); }
      Filter([y] + s, p) + c;
    }
  }

  /** The stable sort returns a permutation of its input, ordered by key,
      that keeps elements with equal keys in their input order. */
  lemma {:induction false} StableSortCorrect<T(!new), K(!new)>(a: seq<T>, key: T -> K, less: (K, K) -> bool)
    requires StrictTotalOrder(less)
    ensures multiset(StableSort(a, key, less)) == multiset(a)
    ensures SortedBy(StableSort(a, key, less), key, less)
    ensures StableFor(StableSort(a, key, less), a, key)
    decreases |a|
  {
    if |a| > 0 {
      var init, x := a[..|a| - 1], a[|a| - 1];
      assert a == init + [x];
      var s := StableSort(init, key, less);
      StableSortCorrect(init, key, less);
      InsertSorted(s, x, key, less);
      forall k
        ensures Filter(StableSort(a, key, less), HasKey(key, k)) == Filter(a, HasKey(key, k))
      {
        InsertStable(s, x, key, less, k);
        FilterConcat(init, [x], HasKey(key, k));
      }
    }
  }

  /** The two kinds of `iterator` `sortBy` accepts: a function computing
      each element's key, or a property name. */
  datatype Criterion<-T, K> = ByKey(key: T -> K) | ByName(name: string)

  /** The order `<` on lengths, which `compareLength` applies. */
  function LengthLess(x: nat, y: nat): bool {
    x < y
  }

  lemma LengthLessIsStrictTotalOrder()
    ensures StrictTotalOrder(LengthLess)
  {
  }

  /** `sortBy(a, iterator)`: with a function, the elements sorted stably by
      the keys it computes; with the name `'length'`, sorted stably by
      length (the `.length` of each element is given by `lengthOf`); with
      any other name, an empty array, because neither branch of the source
      fills its work array. */
  function SortBy<T(!new), K(!new)>(a: seq<T>, c: Criterion<T, K>, less: (K, K) -> bool, lengthOf: T -> nat): (r: seq<T>)
    requires c.ByKey? ==> StrictTotalOrder(less)
    ensures c.ByName? && c.name != "length" ==> r == []
    ensures c.ByKey? ==>
      && multiset(r) == multiset(a)
      && SortedBy(r, c.key, less)
      && StableFor(r, a, c.key)
    ensures c.ByName? && c.name == "length" ==>
      && multiset(r) == multiset(a)
      && (forall i, j :: 0 <= i < j < |r| ==> lengthOf(r[i]) <= lengthOf(r[j]))
      && StableFor(r, a, lengthOf)
  {
    match c
    case ByKey(key) =>
      StableSortCorrect(a, key, less);
      StableSort(a, key, less)
    case ByName(name) =>
      if name == "length" then
        LengthLessIsStrictTotalOrder();
        StableSortCorrect(a, lengthOf, LengthLess);
        StableSort(a, lengthOf, LengthLess)
      else []
  }

  /** As written, naming a property other than `'length'` discards the
      whole collection instead of sorting it by that property:
      `sortBy(people, 'name')` returns an empty array. */
  lemma SortByNameDiscardsAll<T(!new), K(!new)>(a: seq<T>, name: string, less: (K, K) -> bool, lengthOf: T -> nat)
    requires |a| > 0 && name != "length"
    ensures SortBy(a, ByName(name), less, lengthOf) == []
    ensures multiset(SortBy(a, ByName(name), less, lengthOf)) != multiset(a)
  {
    assert a[0] in multiset(a);
  }

  /** The key a criterion selects: the key function itself, or the named
      property of each element, read through `propertyOf`. */
  function KeyOf<T, K>(c: Criterion<T, K>, propertyOf: (T, string) -> K): T -> K {
    match c
    case ByKey(key) => key
    case ByName(name) => (t: T) => propertyOf(t, name)
  }

  /** Intended `sortBy`: a property name sorts the elements stably by that
      property, just as a key function sorts them by the key it computes. */
  function SortByCorrected<T(!new), K(!new)>(a: seq<T>, c: Criterion<T, K>, less: (K, K) -> bool, propertyOf: (T, string) -> K): (r: seq<T>)
    requires StrictTotalOrder(less)
    ensures multiset(r) == multiset(a)
    ensures c.ByName? ==> forall i, j :: 0 <= i < j < |r| ==> !less(propertyOf(r[j], c.name), propertyOf(r[i], c.name))
    ensures SortedBy(r, KeyOf(c, propertyOf), less)
    ensures StableFor(r, a, KeyOf(c, propertyOf))
  {
    StableSortCorrect(a, KeyOf(c, propertyOf), less);
    StableSort(a, KeyOf(c, propertyOf), less)
  }

  /** With a key function, the corrected and the as-written `sortBy` agree;
      they differ only for property names. */
  lemma SortByCorrectedAgreesOnKeys<T(!new), K(!new)>(a: seq<T>, key: T -> K, less: (K, K) -> bool, propertyOf: (T, string) -> K, lengthOf: T -> nat)
    requires StrictTotalOrder(less)
    ensures SortByCorrected(a, ByKey(key), less, propertyOf) == SortBy(a, ByKey(key), less, lengthOf)
  {
  }

  /** Lexicographic order on strings, the order of `<` on JavaScript
      strings (here over characters rather than UTF-16 code units). */
  predicate TextLess(x: string, y: string)
    decreases |x|
  {
    if |x| == 0 then |y| > 0
    else |y| > 0 && (x[0] < y[0] || (x[0] == y[0] && TextLess(x[1..], y[1..])))
  }

  lemma {:induction false} TextLessIrreflexive(x: string)
    ensures !TextLess(x, x)
    decreases |x|
  {
    if |x| > 0 {
      TextLessIrreflexive(x[1..]);
    }
  }

  lemma {:induction false} TextLessTransitive(x: string, y: string, z: string)
    requires TextLess(x, y) && TextLess(y, z)
    ensures TextLess(x, z)
    decreases |x|
  {
    if |x| > 0 && x[0] == y[0] && y[0] == z[0] {
      TextLessTransitive(x[1..], y[1..], z[1..]);
    }
  }

  lemma {:induction false} TextLessConnected(x: string, y: string)
    requires x != y
    ensures TextLess(x, y) || TextLess(y, x)
    decreases |x|
  {
    if |x| > 0 && |y| > 0 && x[0] == y[0] {
      assert x == [x[0]] + x[1..] && y == [y[0]] + y[1..];
      TextLessConnected(x[1..], y[1..]);
    }
  }

  /** String keys can be used with `sortBy`: their order is a strict total one. */
  lemma TextLessIsStrictTotalOrder()
    ensures StrictTotalOrder(TextLess)
  {
    forall x {
      TextLessIrreflexive(x);
    }
    forall x, y, z
      ensures TransitiveAt(TextLess, x, y, z)
    {
      if TextLess(x, y) && TextLess(y, z) {
        TextLessTransitive(x, y, z);
      }
    }
    forall x, y | x != y {
      TextLessConnected(x, y);
    }
  }
}
