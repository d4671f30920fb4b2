/** Element access, filtering, transformation, membership and aggregation
    over arrays, modelled as Dafny sequences. Iterators are total Dafny
    functions whose boolean result stands for the truthiness of what the
    JavaScript iterator returned. */
module SequenceOps {
  import opened Wrappers

  /** A JavaScript scalar, for the one operation (`some` without an
      iterator) whose behaviour depends on the dynamic type of an element. */
  datatype Value = Undefined | Null | Bool(b: bool) | Num(n: int) | Str(s: string)

  /** JavaScript truthiness of an optional integer argument: absent and 0
      are both falsy. */
  predicate Truthy(n: Option<int>) {
    n.Some? && n.value != 0
  }

  /** JavaScript `a[i]`: undefined outside the bounds of the array. */
  function At<T>(a: seq<T>, i: int): Option<T> {
    if 0 <= i < |a| then Some(a[i]) else None
  }

  function Min(x: int, y: int): int {
    if x <= y then x else y
  }

  /** What `first` and `last` return: a single (possibly undefined) element
      when the count is falsy, a fresh array otherwise. Array slots hold an
      Option because `last` can read outside the array. */
  datatype Taken<T> = One(value: Option<T>) | Many(items: seq<Option<T>>)

  // ---------------------------------------------------------------- first, last

  /** `first(a, n)`: with a truthy `n`, the first `min(n, |a|)` elements in
      order (none at all when `n` is negative); otherwise `a[0]`. */
  method First<T>(a: seq<T>, n: Option<int>) returns (r: Taken<T>)
    ensures !Truthy(n) ==> r == One(if |a| == 0 then None else Some(a[0]))
    ensures Truthy(n) && n.value < 0 ==> r == Many([])
    ensures Truthy(n) && 0 < n.value ==>
      && r.Many?
      && |r.items| == Min(n.value, |a|)
      && forall j :: 0 <= j < |r.items| ==> r.items[j] == Some(a[j])
  {
    if Truthy(n) {
      var k := n.value;
      if k > |a| {
        k := |a|;
      }
      var items: seq<Option<T>> := [];
      var i := 0;
      while i < k
        invariant 0 <= i <= |a|
        invariant i <= k || i == 0
        invariant |items| == i
        invariant forall j :: 0 <= j < i ==> items[j] == Some(a[j])
      {
        items := items + [At(a, i)];
        i := i + 1;
      }
      r := Many(items);
    } else {
      r := One(At(a, 0));
    }
  }

  /** `last(a, n)` as the code computes it: with a truthy `n` not above
      `|a|` it copies `a` from index `n - 1` to the end, so a positive `n`
      yields `a[n-1..]` rather than the last `n` elements, and a negative
      `n` yields `1 - n` undefined slots followed by all of `a`. A larger
      `n` copies all of `a`; a falsy one returns the last element. */
  method Last<T>(a: seq<T>, n: Option<int>) returns (r: Taken<T>)
    ensures !Truthy(n) ==> r == One(if |a| == 0 then None else Some(a[|a| - 1]))
    ensures Truthy(n) && n.value > |a| ==>
      && r.Many?
      && |r.items| == |a|
      && forall j :: 0 <= j < |a| ==> r.items[j] == Some(a[j])
    ensures Truthy(n) && 0 < n.value <= |a| ==>
      && r.Many?
      && |r.items| == |a[n.value - 1..]|
      && forall j :: 0 <= j < |r.items| ==> r.items[j] == Some(a[n.value - 1..][j])
    ensures Truthy(n) && n.value < 0 ==>
      && r.Many?
      && |r.items| == (1 - n.value) + |a|
      && (forall j :: 0 <= j < 1 - n.value ==> r.items[j] == None)
      && forall j :: 0 <= j < |a| ==> r.items[(1 - n.value) + j] == Some(a[j])
  {
    if Truthy(n) {
      var items: seq<Option<T>> := [];
      if n.value > |a| {
        var i := 0;
        while i < |a|
          invariant 0 <= i <= |a|
          invariant |items| == i
          invariant forall j :: 0 <= j < i ==> items[j] == Some(a[j])
        {
          items := items + [At(a, i)];
          i := i + 1;
        }
      } else {
        var start := n.value - 1;
        var i := start;
        while i < |a|
          invariant start <= i <= |a|
          invariant |items| == i - start
          invariant forall j :: 0 <= j < |items| ==> items[j] == At(a, start + j)
        {
          items := items + [At(a, i)];
          i := i + 1;
        }
      }
      r := Many(items);
    } else {
      r := One(At(a, |a| - 1));
    }
  }

  /** `last([1, 2, 3], 1)` as the code computes it: the whole array, where
      the last element alone was meant. */
  method LastOfThree() returns (r: Taken<int>)
    ensures r == Many([Some(1), Some(2), Some(3)])
  {
    r := Last([1, 2, 3], Some(1));
    assert r.items[0] == Some(1) && r.items[1] == Some(2) && r.items[2] == Some(3);
  }

  /** `last(a, n)` as intended: with a truthy `n`, the last `min(n, |a|)`
      elements in order, none when `n` is negative; otherwise the last
      element. */
  function LastCorrected<T>(a: seq<T>, n: Option<int>): (r: Taken<T>)
    ensures !Truthy(n) ==> r == One(if |a| == 0 then None else Some(a[|a| - 1]))
    ensures Truthy(n) ==> r.Many? && |r.items| == if n.value < 0 then 0 else Min(n.value, |a|)
    ensures Truthy(n) ==> forall j :: 0 <= j < |r.items| ==> r.items[j] == Some(a[|a| - |r.items| + j])
  {
    if !Truthy(n) then One(At(a, |a| - 1))
    else
      var k := if n.value < 0 then 0 else Min(n.value, |a|);
      Many(Map(a[|a| - k..], (x: T) => Some(x)))
  }

  /** The corrected `last` of one element is the one-element array holding
      what `last` without a count returns. */
  lemma LastCorrectedOfOne<T>(a: seq<T>)
    requires |a| > 0
    ensures LastCorrected(a, Some(1)) == Many([LastCorrected(a, None).value])
  {
    var r := LastCorrected(a, Some(1));
    assert r.items[0] == Some(a[|a| - 1]);
  }

  // ---------------------------------------------------------------- indexOf

  /** `indexOf(a, target)`: the position of the first element equal to
      `target`, or -1 when there is none. */
  function IndexOf<T(==)>(a: seq<T>, target: T): (r: int)
    ensures -1 <= r < |a|
    ensures r == -1 <==> target !in a
    ensures 0 <= r ==> r < |a| && a[r] == target && forall j :: 0 <= j < r ==> a[j] != target
  {
    if |a| == 0 then -1
    else if a[0] == target then 0
    else
      var k := IndexOf(a[1..], target);
      assert a == [a[0]] + a[1..];
      if k == -1 then -1 else k + 1
  }

  /** The element at `i` is the first occurrence of its value exactly when
      `indexOf` finds it at `i`: the test `uniq` applies to every index. */
  lemma IndexOfIsFirstOccurrence<T>(a: seq<T>, i: int)
    requires 0 <= i < |a|
    ensures IndexOf(a, a[i]) == i <==> a[i] !in a[..i]
  {
  }

  // ---------------------------------------------------------------- filter, reject

  /** `filter(a, p)`: the elements satisfying `p`, in their original order. */
  function Filter<T(!new)>(a: seq<T>, p: T -> bool): (r: seq<T>)
    ensures |r| <= |a|
    ensures forall x :: x in r <==> x in a && p(x)
  {
    if |a| == 0 then [] else (if p(a[0]) then [a[0]] else []) + Filter(a[1..], p)
  }

  /** `filter` keeps every occurrence of an element that passes the test
      and none of one that fails it. */
  lemma {:induction false} FilterCount<T(!new)>(a: seq<T>, p: T -> bool)
    ensures forall x :: multiset(Filter(a, p))[x] == if p(x) then multiset(a)[x] else 0
    decreases |a|
  {
    if |a| > 0 {
      assert a == [a[0]] + a[1..];
      FilterCount(a[1..], p);
    }
  }

  /** `reject(a, p)`: the elements failing `p`, in their original order. */
  function Reject<T(!new)>(a: seq<T>, p: T -> bool): (r: seq<T>)
    ensures forall x :: x in r <==> x in a && !p(x)
  {
    Filter(a, x => !p(x))
  }

  /** Filtering commutes with concatenation: the order of the kept elements
      is the order of the input. */
  lemma {:induction false} FilterConcat<T(!new)>(a: seq<T>, b: seq<T>, p: T -> bool)
    ensures Filter(a + b, p) == Filter(a, p) + Filter(b, p)
  {
    if |a| == 0 {
      assert a + b == b;
    } else {
      assert (a + b)[1..] == a[1..] + b;
      FilterConcat(a[1..], b, p);
    }
  }

  /** Nothing passes the test, so nothing is kept. */
  lemma FilterNone<T(!new)>(a: seq<T>, p: T -> bool)
    requires forall i :: 0 <= i < |a| ==> !p(a[i])
    ensures Filter(a, p) == []
  {
  }

  /** `filter` and `reject` split the input: every element lands in exactly
      one of the two results, as often as it occurs in the input. */
  lemma FilterRejectPartition<T(!new)>(a: seq<T>, p: T -> bool)
    ensures multiset(Filter(a, p)) + multiset(Reject(a, p)) == multiset(a)
    ensures forall x :: x in a ==> (x in Filter(a, p) <==> x !in Reject(a, p))
  {
    FilterCount(a, p);
    FilterCount(a, x => !p(x));
    var f, g := multiset(Filter(a, p)), multiset(Reject(a, p));
    forall x
      ensures (f + g)[x] == multiset(a)[x]
    {
    }
  }

  /** `s` can be obtained from `t` by deleting elements. */
  ghost predicate IsSubsequence<T>(s: seq<T>, t: seq<T>)
    decreases |t|
  {
    || |s| == 0
    || (&& |t| > 0
        && (|| IsSubsequence(s, t[..|t| - 1])
            || (s[|s| - 1] == t[|t| - 1] && IsSubsequence(s[..|s| - 1], t[..|t| - 1]))))
  }

  /** The result of `filter` is a subsequence of its input. */
  lemma {:induction false} FilterIsSubsequence<T(!new)>(a: seq<T>, p: T -> bool)
    ensures IsSubsequence(Filter(a, p), a)
    decreases |a|
  {
    if |a| > 0 {
      var init, x := a[..|a| - 1], a[|a| - 1];
      assert a == init + [x];
      FilterConcat(init, [x], p);
      FilterIsSubsequence(init, p);
      assert a[..|a| - 1] == init;
      if p(x) {
        assert Filter([x], p) == [x];
        var r := Filter(a, p);
        assert r[..|r| - 1] == Filter(init, p);
      } else {
        assert Filter([x], p) == [];
        assert Filter(a, p) == Filter(init, p);
      }
    }
  }

  // ---------------------------------------------------------------- uniq

  predicate NoDup<T(==)>(s: seq<T>) {
    forall i, j :: 0 <= i < j < |s| ==> s[i] != s[j]
  }

  /** Reference definition of duplicate removal: scanning left to right,
      an element is kept only if it has not been seen before. */
  function Dedup<T(==,!new)>(a: seq<T>): (r: seq<T>)
    ensures NoDup(r)
    ensures forall x :: x in r <==> x in a
    decreases |a|
  {
    if |a| == 0 then []
    else
      var init, x := a[..|a| - 1], a[|a| - 1];
      assert a == init + [x];
      if x in init then Dedup(init) else Dedup(init) + [x]
  }

  /** `uniq(a)`: keeps the element at index `i` exactly when `indexOf`
      finds its value at `i`, that is, the first occurrence of each value. */
  method Uniq<T(==,!new)>(a: seq<T>) returns (r: seq<T>)
    ensures r == Dedup(a)
    ensures NoDup(r)
    ensures forall x :: x in r <==> x in a
  {
    r := [];
    var i := 0;
    while i < |a|
      invariant 0 <= i <= |a|
      invariant r == Dedup(a[..i])
    {
      IndexOfIsFirstOccurrence(a, i);
      assert a[..i + 1][..i] == a[..i];
      if IndexOf(a, a[i]) == i {
        r := r + [a[i]];
      }
      i := i + 1;
    }
    assert a[..|a|] == a;
  }

  /** A duplicate-free sequence is left unchanged by duplicate removal. */
  lemma {:induction false} DedupOfNoDup<T(!new)>(s: seq<T>)
    requires NoDup(s)
    ensures Dedup(s) == s
    decreases |s|
  {
    if |s| > 0 {
      var init := s[..|s| - 1];
      assert NoDup(init);
      DedupOfNoDup(init);
      assert s[|s| - 1] !in init;
      assert init + [s[|s| - 1]] == s;
    }
  }

  /** `uniq` is idempotent. */
  lemma UniqIdempotent<T(!new)>(a: seq<T>)
    ensures Dedup(Dedup(a)) == Dedup(a)
  {
    DedupOfNoDup(Dedup(a));
  }

  /** `uniq` keeps the order of the input. */
  lemma {:induction false} DedupIsSubsequence<T(!new)>(a: seq<T>)
    ensures IsSubsequence(Dedup(a), a)
    decreases |a|
  {
    if |a| > 0 {
      var init, x := a[..|a| - 1], a[|a| - 1];
      DedupIsSubsequence(init);
      if x !in init {
        var r := Dedup(a);
        assert r[..|r| - 1] == Dedup(init);
      }
    }
  }

  // ---------------------------------------------------------------- map, pluck

  /** `map(a, f)`: `f` applied to every element, same length and order. */
  function Map<T, U>(a: seq<T>, f: T -> U): (r: seq<U>)
    ensures |r| == |a|
    ensures forall i :: 0 <= i < |a| ==> r[i] == f(a[i])
  {
    if |a| == 0 then [] else [f(a[0])] + Map(a[1..], f)
  }

  /** `pluck(a, key)`: each object's value under `key`, undefined where the
      object lacks the key. Objects are modelled as string-keyed maps. */
  function Pluck<V>(a: seq<map<string, V>>, key: string): (r: seq<Option<V>>)
    ensures |r| == |a|
    ensures forall i :: 0 <= i < |a| ==> (r[i].Some? <==> key in a[i])
    ensures forall i :: 0 <= i < |a| && key in a[i] ==> r[i] == Some(a[i][key])
  {
    Map(a, (o: map<string, V>) => if key in o then Some(o[key]) else None)
  }

  // ---------------------------------------------------------------- reduce

  /** Reference left fold: the accumulator after folding `f` over all of `a`. */
  function FoldLeft(start: int, a: seq<int>, f: (int, int) -> int): int
    decreases |a|
  {
    if |a| == 0 then start else f(FoldLeft(start, a[..|a| - 1], f), a[|a| - 1])
  }

  /** `reduce(a, f, init)`: the accumulator starts at `init` when it is
      truthy and at 0 otherwise, and `f` is folded over every element; an
      empty input is not an error. */
  method Reduce(a: seq<int>, f: (int, int) -> int, init: Option<int>) returns (r: int)
    ensures r == FoldLeft(init.GetOr(0), a, f)
    ensures |a| == 0 ==> r == init.GetOr(0)
  {
    r := 0;
    if Truthy(init) {
      r := init.value;
    }
    var i := 0;
    while i < |a|
      invariant 0 <= i <= |a|
      invariant r == FoldLeft(init.GetOr(0), a[..i], f)
    {
      assert a[..i + 1][..i] == a[..i];
      r := f(r, a[i]);
      i := i + 1;
    }
    assert a[..|a|] == a;
  }

  /** Folding over a concatenation folds over the second part starting from
      the result of the first. */
  lemma {:induction false} FoldLeftConcat(start: int, a: seq<int>, b: seq<int>, f: (int, int) -> int)
    ensures FoldLeft(start, a + b, f) == FoldLeft(FoldLeft(start, a, f), b, f)
    decreases |b|
  {
    if |b| == 0 {
      assert a + b == a;
    } else {
      var b' := b[..|b| - 1];
      assert (a + b)[..|a + b| - 1] == a + b';
      FoldLeftConcat(start, a, b', f);
    }
  }

  function Sum(a: seq<int>): int {
    if |a| == 0 then 0 else a[0] + Sum(a[1..])
  }

  /** Reducing with addition adds up the elements on top of the start value. */
  lemma {:induction false} ReduceAddIsSum(start: int, a: seq<int>)
    ensures FoldLeft(start, a, (x, y) => x + y) == start + Sum(a)
    decreases |a|
  {
    if |a| > 0 {
      assert a == [a[0]] + a[1..];
      FoldLeftConcat(start, [a[0]], a[1..], (x, y) => x + y);
      assert [a[0]][..0] == [];
      ReduceAddIsSum(start + a[0], a[1..]);
    }
  }

  // ---------------------------------------------------------------- contains, every, some

  /** `contains(a, target)` on an array: whether `indexOf` finds `target`. */
  function Contains<T(==)>(a: seq<T>, target: T): (r: bool)
    ensures r <==> target in a
  {
    IndexOf(a, target) > -1
  }

  /** `every(a, p)`: true without an iterator; otherwise true exactly when
      no element's result is false. */
  function Every<T>(a: seq<T>, p: Option<T -> bool>): (r: bool)
    ensures p.None? ==> r
    ensures p.Some? ==> (r <==> forall i :: 0 <= i < |a| ==> p.value(a[i]))
  {
    if p.None? then true
    else
      var results := Map(a, p.value);
      if IndexOf(results, false) > -1 then
        assert results[IndexOf(results, false)] == false;
        false
      else true
  }

  /** `some(a, p)`: false on an empty array; with an iterator, whether some
      element passes it; without one, whether some element is the string
      'yes' or the boolean true. */
  function Any(a: seq<Value>, p: Option<Value -> bool>): (r: bool)
    ensures |a| == 0 ==> !r
    ensures p.Some? ==> (r <==> exists i :: 0 <= i < |a| && p.value(a[i]))
    ensures p.None? ==> (r <==> exists i :: 0 <= i < |a| && (a[i] == Str("yes") || a[i] == Bool(true)))
  {
    if |a| == 0 then false
    else
      var results :=
        if p.Some? then
          var q := p.value;
          Map(a, x => Bool(q(x)))
        else
          Map(a, x => if x == Str("yes") then Bool(true) else x);
      var k := IndexOf(results, Bool(true));
      if k > -1 then
        assert results[k] == Bool(true);
        true
      else false
  }
}
