/** Multi-array operations: ragged zipping, deep flattening, and the
    set-like `intersection` and `difference`. */
module OrderingOps {
  import opened Wrappers
  import opened SequenceOps

  // ---------------------------------------------------------------- zip

  /** `zip(s1, ..., sk)`: as many rows as the longest argument has
      elements; row `i` holds the `i`-th element of every argument in turn,
      undefined where an argument is too short. */
  method Zip<T>(arrays: seq<seq<T>>) returns (rows: seq<seq<Option<T>>>)
    ensures forall j :: 0 <= j < |arrays| ==> |arrays[j]| <= |rows|
    ensures |rows| == 0 || exists j :: 0 <= j < |arrays| && |arrays[j]| == |rows|
    ensures forall i :: 0 <= i < |rows| ==> |rows[i]| == |arrays|
    ensures forall i, j :: 0 <= i < |rows| && 0 <= j < |arrays| ==>
      rows[i][j] == if i < |arrays[j]| then Some(arrays[j][i]) else None
  {
    var largest := 0;
    var m := 0;
    while m < |arrays|
      invariant 0 <= m <= |arrays|
      invariant forall j :: 0 <= j < m ==> |arrays[j]| <= largest
      invariant largest == 0 || exists j :: 0 <= j < m && |arrays[j]| == largest
    {
      if |arrays[m]| > largest {
        largest := |arrays[m]|;
      }
      m := m + 1;
    }
    rows := [];
    var i := 0;
    while i < largest
      invariant 0 <= i <= largest
      invariant |rows| == i
      invariant forall i' :: 0 <= i' < i ==> |rows[i']| == |arrays|
      invariant forall i', j :: 0 <= i' < i && 0 <= j < |arrays| ==> rows[i'][j] == At(arrays[j], i')
    {
      var row: seq<Option<T>> := [];
      var n := 0;
      while n < |arrays|
        invariant 0 <= n <= |arrays|
        invariant |row| == n
        invariant forall j :: 0 <= j < n ==> row[j] == At(arrays[j], i)
      {
        row := row + [At(arrays[n], i)];
        n := n + 1;
      }
      rows := rows + [row];
      i := i + 1;
    }
  }

  // ---------------------------------------------------------------- flatten

  /** A value inside a multidimensional array: a non-array element, or a
      nested array. */
  datatype Nested<T> = Leaf(value: T) | Array(items: seq<Nested<T>>)

  /** `v` is a non-array element of `n`, at any depth. */
  ghost predicate InTree<T>(v: T, n: Nested<T>)
    decreases n
  {
    match n
    case Leaf(w) => v == w
    case Array(ys) => exists i :: 0 <= i < |ys| && InTree(v, ys[i])
  }

  /** `flatten(xs)`: the non-array elements of `xs` at any depth, depth
      first and left to right. */
  function Flatten<T(!new)>(xs: seq<Nested<T>>): (r: seq<T>)
    ensures forall v :: v in r <==> exists i :: 0 <= i < |xs| && InTree(v, xs[i])
  {
    if |xs| == 0 then []
    else
      (match xs[0]
       case Leaf(v) => [v]
       case Array(ys) => Flatten(ys))
      + Flatten(xs[1..])
  }

  /** Flattening distributes over concatenation. */
  lemma {:induction false} FlattenConcat<T(!new)>(a: seq<Nested<T>>, b: seq<Nested<T>>)
    ensures Flatten(a + b) == Flatten(a) + Flatten(b)
    decreases |a|
  {
    if |a| == 0 {
      assert a + b == b;
    } else {
      assert (a + b)[0] == a[0];
      assert (a + b)[1..] == a[1..] + b;
      FlattenConcat(a[1..], b);
    }
  }

  /** An already flat array, seen as an array of non-array elements. */
  function Leaves<T(!new)>(s: seq<T>): (r: seq<Nested<T>>)
    ensures |r| == |s|
    ensures forall i :: 0 <= i < |s| ==> r[i] == Leaf(s[i])
  {
    Map(s, (v: T) => Leaf(v))
  }

  /** Flattening a flat array returns it unchanged. */
  lemma {:induction false} FlattenLeaves<T(!new)>(s: seq<T>)
    ensures Flatten(Leaves(s)) == s
    decreases |s|
  {
    if |s| > 0 {
      assert Leaves(s)[1..] == Leaves(s[1..]);
      FlattenLeaves(s[1..]);
      assert [s[0]] + s[1..] == s;
    }
  }

  /** `flatten` is idempotent: flattening its result again changes nothing. */
  lemma FlattenIdempotent<T(!new)>(xs: seq<Nested<T>>)
    ensures Flatten(Leaves(Flatten(xs))) == Flatten(xs)
  {
    FlattenLeaves(Flatten(xs));
  }

  /** Number of nodes, arrays included: the measure that shrinks as the
      work list of `FlattenWithWorkList` is consumed. */
  function Size<T>(xs: seq<Nested<T>>): nat {
    if |xs| == 0 then 0
    else
      (match xs[0]
       case Leaf(_) => 1
       case Array(ys) => 1 + Size(ys))
      + Size(xs[1..])
  }

  lemma {:induction false} SizeConcat<T>(a: seq<Nested<T>>, b: seq<Nested<T>>)
    ensures Size(a + b) == Size(a) + Size(b)
    decreases |a|
  {
    if |a| == 0 {
      assert a + b == b;
    } else {
      assert (a + b)[0] == a[0];
      assert (a + b)[1..] == a[1..] + b;
      SizeConcat(a[1..], b);
    }
  }

  /** `flatten` without recursion: an explicit work list whose front is
      consumed one node at a time, a nested array being replaced by its
      items. It computes exactly the depth-first, left-to-right order of
      the recursive definition, at any nesting depth. */
  method FlattenWithWorkList<T(!new)>(xs: seq<Nested<T>>) returns (r: seq<T>)
    ensures r == Flatten(xs)
  {
    r := [];
    var todo := xs;
    while |todo| > 0
      invariant r + Flatten(todo) == Flatten(xs)
      decreases Size(todo)
    {
      var rest := todo[1..];
      match todo[0]
      case Leaf(v) =>
        assert Flatten(todo) == [v] + Flatten(rest);
        r := r + [v];
        todo := rest;
      case Array(ys) =>
        assert Flatten(todo) == Flatten(ys) + Flatten(rest);
        FlattenConcat(ys, rest);
        SizeConcat(ys, rest);
        todo := ys + rest;
    }
  }

  // ---------------------------------------------------------------- intersection

  /** `intersection(first, second)`: the elements of `first` that
      `indexOf` finds in `second`, in the order of `first`. Only two arrays
      are read, and an element repeated in `first` is kept every time. */
  function Intersection<T(==,!new)>(first: seq<T>, second: seq<T>): (r: seq<T>)
    ensures forall x :: x in r <==> x in first && x in second
    ensures forall x :: multiset(r)[x] == if x in second then multiset(first)[x] else 0
    ensures IsSubsequence(r, first)
  {
    FilterCount(first, FoundIn(second));
    FilterIsSubsequence(first, FoundIn(second));
    Filter(first, FoundIn(second))
  }

  /** The test `intersection` applies: `indexOf` finds the element in `s`. */
  function FoundIn<T(==)>(s: seq<T>): T -> bool {
    x => IndexOf(s, x) > -1
  }

  /** `intersection([1, 2, 2, 3], [2, 3, 4])`: duplicates in the first
      array survive, so the result is not a set. */
  lemma IntersectionKeepsDuplicates()
    ensures Intersection([1, 2, 2, 3], [2, 3, 4]) == [2, 2, 3]
  {
    var p := FoundIn([2, 3, 4]);
    assert !p(1) && p(2) && p(3);
    assert [1, 2, 2, 3][1..] == [2, 2, 3];
    assert [2, 2, 3][1..] == [2, 3];
    assert [2, 3][1..] == [3];
    assert [3][1..] == [];
    assert Filter([3], p) == [3];
    assert Filter([2, 3], p) == [2, 3];
    assert Filter([2, 2, 3], p) == [2, 2, 3];
  }

  /** Intended `intersection` of any number of arrays: the elements of the
      first array found in every other one, in the first array's order. */
  function IntersectionAll<T(==,!new)>(first: seq<T>, others: seq<seq<T>>): (r: seq<T>)
    ensures forall x :: x in r <==> x in first && forall j :: 0 <= j < |others| ==> x in others[j]
    ensures IsSubsequence(r, first)
  {
    FilterIsSubsequence(first, InEvery(others));
    Filter(first, InEvery(others))
  }

  /** The test of the intended `intersection`: found in every other array. */
  function InEvery<T(==)>(others: seq<seq<T>>): T -> bool {
    x => forall j :: 0 <= j < |others| ==> x in others[j]
  }

  /** Two tests that agree on every element of `a` keep the same elements. */
  lemma {:induction false} FilterAgrees<T(!new)>(a: seq<T>, p: T -> bool, q: T -> bool)
    requires forall i :: 0 <= i < |a| ==> p(a[i]) == q(a[i])
    ensures Filter(a, p) == Filter(a, q)
    decreases |a|
  {
    if |a| > 0 {
      FilterAgrees(a[1..], p, q);
    }
  }

  /** For two arrays the intended `intersection` is the one written. */
  lemma IntersectionAllOfTwo<T(!new)>(first: seq<T>, second: seq<T>)
    ensures IntersectionAll(first, [second]) == Intersection(first, second)
  {
    forall i | 0 <= i < |first|
      ensures InEvery([second])(first[i]) == FoundIn(second)(first[i])
    {
      assert [second][0] == second;
    }
    FilterAgrees(first, InEvery([second]), FoundIn(second));
  }

  /** As written, arrays after the second are ignored: the call
      `intersection([1, 2], [1, 2], [2])` keeps 1, which the third array
      lacks. */
  lemma IntersectionIgnoresThird()
    ensures 1 in Intersection([1, 2], [1, 2])
    ensures 1 !in IntersectionAll([1, 2], [[1, 2], [2]])
  {
    var others := [[1, 2], [2]];
    assert others[1] == [2] && 1 !in others[1];
    assert !InEvery(others)(1);
  }

  // ---------------------------------------------------------------- difference

  /** `array.splice(array.indexOf(v), 1)` when `v` is present: the first
      occurrence of `v` is removed and everything else stays in order. */
  function RemoveFirst<T(==)>(a: seq<T>, v: T): (r: seq<T>)
    ensures v !in a ==> r == a
    ensures v in a ==> |r| == |a| - 1
  {
    var i := IndexOf(a, v);
    if i > -1 then a[..i] + a[i + 1..] else a
  }

  /** As a count, removing the first occurrence takes one `v` away, if
      there is one, and leaves every other value alone. */
  lemma RemoveFirstCount<T>(a: seq<T>, v: T)
    ensures multiset(RemoveFirst(a, v)) == multiset(a) - multiset{v}
  {
    var i := IndexOf(a, v);
    if i > -1 {
      var pre, post := a[..i], a[i + 1..];
      assert a == pre + [v] + post;
      calc {
        multiset(a) - multiset{v};
        (multiset(pre) + multiset{v} + multiset(post)) - multiset{v};
        multiset(pre) + multiset(post);
        multiset(pre + post);
      }
    } else {
      assert v !in multiset(a);
    }
  }

  /** When `v` is present, exactly its first occurrence is cut out and
      everything before and after it stays in place. */
  lemma RemoveFirstSplices<T>(a: seq<T>, v: T)
    requires v in a
    ensures exists i :: 0 <= i < |a| && a[i] == v && v !in a[..i] && RemoveFirst(a, v) == a[..i] + a[i + 1..]
  {
    var i := IndexOf(a, v);
    assert 0 <= i < |a| && a[i] == v && v !in a[..i];
  }

  /** All the arrays, one after the other. */
  function Concat<T>(arrays: seq<seq<T>>): seq<T>
    decreases |arrays|
  {
    if |arrays| == 0 then [] else Concat(arrays[..|arrays| - 1]) + arrays[|arrays| - 1]
  }

  /** Reference definition: remove from `a`, for each element of `vs` in
      turn, its first remaining occurrence. */
  function RemoveEach<T(==)>(a: seq<T>, vs: seq<T>): seq<T>
    decreases |vs|
  {
    if |vs| == 0 then a else RemoveFirst(RemoveEach(a, vs[..|vs| - 1]), vs[|vs| - 1])
  }

  /** Removing one occurrence per element of `vs` is multiset difference. */
  lemma {:induction false} RemoveEachCount<T>(a: seq<T>, vs: seq<T>)
    ensures multiset(RemoveEach(a, vs)) == multiset(a) - multiset(vs)
    decreases |vs|
  {
    if |vs| > 0 {
      var init, v := vs[..|vs| - 1], vs[|vs| - 1];
      var prev := RemoveEach(a, init);
      assert vs == init + [v];
      assert multiset(vs) == multiset(init) + multiset{v};
      RemoveEachCount(a, init);
      RemoveFirstAfter(prev, v, multiset(a), multiset(init));
      assert RemoveEach(a, vs) == RemoveFirst(prev, v);
    }
  }

  lemma RemoveFirstAfter<T>(prev: seq<T>, v: T, A: multiset<T>, B: multiset<T>)
    requires multiset(prev) == A - B
    ensures multiset(RemoveFirst(prev, v)) == A - (B + multiset{v})
  {
    RemoveFirstCount(prev, v);
    var C := multiset{v};
    forall x
      ensures ((A - B) - C)[x] == (A - (B + C))[x]
    {
    }
  }

  /** `difference(a, o1, ..., ok)` updates `a` in place and returns it: for
      each element of each `oj` in turn, the first remaining occurrence of
      that element in `a` is spliced out. `r` is the updated contents of `a`.
      As a count, every value loses as many occurrences as the other arrays
      hold, down to none. */
  method Difference<T(==)>(a: seq<T>, others: seq<seq<T>>) returns (r: seq<T>)
    ensures r == RemoveEach(a, Concat(others))
    ensures multiset(r) == multiset(a) - multiset(Concat(others))
    ensures forall x :: x !in Concat(others) ==> multiset(r)[x] == multiset(a)[x]
  {
    r := a;
    var m := 0;
    while m < |others|
      invariant 0 <= m <= |others|
      invariant r == RemoveEach(a, Concat(others[..m]))
    {
      RemoveEachConcat(a, Concat(others[..m]), others[m]);
      assert others[..m + 1][..m] == others[..m];
      r := RemoveEachOf(r, others[m]);
      m := m + 1;
    }
    assert others[..|others|] == others;
    RemoveEachCount(a, Concat(others));
  }

  /** The inner loop of `difference`: one splice per element of `arg`. */
  method RemoveEachOf<T(==)>(a: seq<T>, arg: seq<T>) returns (r: seq<T>)
    ensures r == RemoveEach(a, arg)
  {
    r := a;
    var i := 0;
    while i < |arg|
      invariant 0 <= i <= |arg|
      invariant r == RemoveEach(a, arg[..i])
    {
      RemoveEachStep(a, arg, i);
      r := RemoveFirst(r, arg[i]);
      i := i + 1;
    }
    assert arg[..|arg|] == arg;
  }

  lemma RemoveEachStep<T>(a: seq<T>, vs: seq<T>, i: nat)
    requires i < |vs|
    ensures RemoveEach(a, vs[..i + 1]) == RemoveFirst(RemoveEach(a, vs[..i]), vs[i])
  {
    assert vs[..i + 1][..i] == vs[..i];
  }

  /** Removing the elements of `vs + ws` is removing those of `vs`, then
      those of `ws`. */
  lemma {:induction false} RemoveEachConcat<T>(a: seq<T>, vs: seq<T>, ws: seq<T>)
    ensures RemoveEach(a, vs + ws) == RemoveEach(RemoveEach(a, vs), ws)
    decreases |ws|
  {
    if |ws| == 0 {
      assert vs + ws == vs;
    } else {
      var init := ws[..|ws| - 1];
      assert (vs + ws)[..|vs + ws| - 1] == vs + init;
      RemoveEachConcat(a, vs, init);
    }
  }

  /** `difference([1, 1, 2], [1])` as the code computes it: `[1, 2]`, which
      still holds the 1 that the other array shares. */
  method DifferenceOfOneOneTwo() returns (r: seq<int>)
    ensures r == [1, 2]
  {
    r := Difference([1, 1, 2], [[1]]);
    assert Concat([[1]]) == [1];
    assert [1, 1, 2][..0] + [1, 1, 2][1..] == [1, 2];
  }

  /** An element is in `Concat(arrays)` exactly when one of the arrays has it. */
  lemma {:induction false} ConcatMembership<T>(arrays: seq<seq<T>>, x: T)
    ensures x in Concat(arrays) <==> exists j :: 0 <= j < |arrays| && x in arrays[j]
    decreases |arrays|
  {
    if |arrays| > 0 {
      var init := arrays[..|arrays| - 1];
      ConcatMembership(init, x);
      if x in Concat(init) {
        var j :| 0 <= j < |init| && x in init[j];
        assert arrays[j] == init[j];
      }
      if exists j :: 0 <= j < |arrays| && x in arrays[j] {
        var j :| 0 <= j < |arrays| && x in arrays[j];
        if j < |init| {
          assert init[j] == arrays[j];
        }
      }
    }
  }

  /** `difference(a, o1, ..., ok)` as intended: every occurrence of an
      element found in another array is dropped, and the rest of `a` is kept
      in order. */
  function DifferenceCorrected<T(==,!new)>(a: seq<T>, others: seq<seq<T>>): (r: seq<T>)
    ensures IsSubsequence(r, a)
    ensures forall x :: multiset(r)[x] == if x in Concat(others) then 0 else multiset(a)[x]
  {
    FilterCount(a, NotIn(Concat(others)));
    FilterIsSubsequence(a, NotIn(Concat(others)));
    Filter(a, NotIn(Concat(others)))
  }

  function NotIn<T(==)>(s: seq<T>): T -> bool {
    x => x !in s
  }

  /** Exactly the elements of `a` found in none of the other arrays remain. */
  lemma DifferenceCorrectedKeepsOnlyUnshared<T(!new)>(a: seq<T>, others: seq<seq<T>>)
    ensures forall x :: x in DifferenceCorrected(a, others) <==>
      x in a && forall j :: 0 <= j < |others| ==> x !in others[j]
  {
    forall x {
      ConcatMembership(others, x);
    }
  }
}
