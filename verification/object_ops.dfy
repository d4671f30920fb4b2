/** Shallow merging of objects, modelled as maps from property names to
    values, under the two precedence policies of `extend` (later arguments
    win) and `defaults` (earlier arguments win). */
module ObjectOps {

  /** Some object of `objs` has the key `k`. */
  predicate Holds<V>(objs: seq<map<string, V>>, k: string) {
    exists j :: 0 <= j < |objs| && k in objs[j]
  }

  /** Reference definition of the `extend` policy: the union of all the
      objects, where later objects override earlier ones. */
  function Merge<V>(objs: seq<map<string, V>>): map<string, V>
    decreases |objs|
  {
    if |objs| == 0 then map[] else Merge(objs[..|objs| - 1]) + objs[|objs| - 1]
  }

  /** Reference definition of the `defaults` policy: the union of all the
      objects, where earlier objects take precedence over later ones. */
  function FirstWins<V>(objs: seq<map<string, V>>): map<string, V>
    decreases |objs|
  {
    if |objs| == 0 then map[] else objs[|objs| - 1] + FirstWins(objs[..|objs| - 1])
  }

  /** Under `Merge` a key is present exactly when some object has it, and it
      takes its value from the last object that has it. */
  lemma {:induction false} MergeLookup<V>(objs: seq<map<string, V>>, k: string)
    ensures k in Merge(objs) <==> Holds(objs, k)
    ensures forall j :: 0 <= j < |objs| && k in objs[j] && (forall j' :: j < j' < |objs| ==> k !in objs[j'])
                        ==> Merge(objs)[k] == objs[j][k]
    decreases |objs|
  {
    if |objs| > 0 {
      var n := |objs| - 1;
      var init, last := objs[..n], objs[n];
      MergeLookup(init, k);
      if k in last {
        assert Holds(objs, k) by { assert k in objs[n]; }
      } else {
        if Holds(objs, k) {
          var j :| 0 <= j < |objs| && k in objs[j];
          assert k in init[j];
        }
        if Holds(init, k) {
          var j :| 0 <= j < |init| && k in init[j];
          assert k in objs[j];
        }
        forall j | 0 <= j < |objs| && k in objs[j] && (forall j' :: j < j' < |objs| ==> k !in objs[j'])
          ensures Merge(objs)[k] == objs[j][k]
        {
          assert j < n;
          assert init[j] == objs[j];
          assert forall j' :: j < j' < |init| ==> init[j'] == objs[j'];
        }
      }
    }
  }

  /** Under `FirstWins` a key is present exactly when some object has it,
      and it takes its value from the first object that has it. */
  lemma {:induction false} FirstWinsLookup<V>(objs: seq<map<string, V>>, k: string)
    ensures k in FirstWins(objs) <==> Holds(objs, k)
    ensures forall j :: 0 <= j < |objs| && k in objs[j] && (forall j' :: 0 <= j' < j ==> k !in objs[j'])
                        ==> FirstWins(objs)[k] == objs[j][k]
    decreases |objs|
  {
    if |objs| > 0 {
      var n := |objs| - 1;
      var init, last := objs[..n], objs[n];
      FirstWinsLookup(init, k);
      if Holds(objs, k) {
        var j :| 0 <= j < |objs| && k in objs[j];
        if j < n {
          assert k in init[j];
        }
      }
      if Holds(init, k) {
        var j :| 0 <= j < |init| && k in init[j];
        assert k in objs[j];
      }
      forall j | 0 <= j < |objs| && k in objs[j] && (forall j' :: 0 <= j' < j ==> k !in objs[j'])
        ensures FirstWins(objs)[k] == objs[j][k]
      {
        if j < n {
          assert init[j] == objs[j];
          assert forall j' :: 0 <= j' < j ==> init[j'] == objs[j'];
        } else {
          assert forall i :: 0 <= i < |init| ==> init[i] == objs[i];
        }
      }
    }
  }

  /** One `for (key in item) target[key] = item[key]` pass. The keys are
      visited in an arbitrary order, and the result does not depend on it. */
  method CopyAll<V>(target: map<string, V>, item: map<string, V>) returns (r: map<string, V>)
    ensures r == target + item
  {
    r := target;
    var todo := item.Keys;
    while todo != {}
      invariant todo <= item.Keys
      invariant r.Keys == target.Keys + (item.Keys - todo)
      invariant forall k :: k in r ==> r[k] == if k in item && k !in todo then item[k] else target[k]
      decreases todo
    {
      var k :| k in todo;
      r := r[k := item[k]];
      todo := todo - {k};
    }
  }

  /** One `for (key in item) if (!target.hasOwnProperty(key)) target[key] =
      item[key]` pass, again in an arbitrary key order. */
  method CopyMissing<V>(target: map<string, V>, item: map<string, V>) returns (r: map<string, V>)
    ensures r == item + target
  {
    r := target;
    var todo := item.Keys;
    while todo != {}
      invariant todo <= item.Keys
      invariant r.Keys == target.Keys + (item.Keys - todo)
      invariant forall k :: k in r ==> r[k] == if k in target then target[k] else item[k]
      decreases todo
    {
      var k :| k in todo;
      if k !in r {
        r := r[k := item[k]];
      }
      todo := todo - {k};
    }
  }

  /** `extend(obj, s1, ..., sk)`: a fresh object that receives the
      properties of every argument, `obj` included, from left to right, so
      the last argument holding a key decides its value. `obj` itself is
      not changed. */
  method Extend<V>(obj: map<string, V>, sources: seq<map<string, V>>) returns (r: map<string, V>)
    ensures forall k :: k in r <==> k in obj || Holds(sources, k)
    ensures forall j, k :: 0 <= j < |sources| && k in sources[j] && (forall j' :: j < j' < |sources| ==> k !in sources[j'])
                           ==> k in r && r[k] == sources[j][k]
    ensures forall k :: k in obj && !Holds(sources, k) ==> k in r && r[k] == obj[k]
  {
    var args := [obj] + sources;
    r := map[];
    var i := 0;
    while i < |args|
      invariant 0 <= i <= |args|
      invariant r == Merge(args[..i])
    {
      assert args[..i + 1][..i] == args[..i];
      r := CopyAll(r, args[i]);
      i := i + 1;
    }
    assert args[..|args|] == args;
    forall k
      ensures k in r <==> k in obj || Holds(sources, k)
      ensures k in obj && !Holds(sources, k) ==> r[k] == obj[k]
    {
      MergeKey(obj, sources, k);
    }
    forall j, k | 0 <= j < |sources| && k in sources[j] && (forall j' :: j < j' < |sources| ==> k !in sources[j'])
      ensures k in r && r[k] == sources[j][k]
    {
      MergeLastSource(obj, sources, j, k);
    }
  }

  /** Whether `Merge` of `obj` followed by `sources` has `k`, and its value
      when no source has it. */
  lemma MergeKey<V>(obj: map<string, V>, sources: seq<map<string, V>>, k: string)
    ensures k in Merge([obj] + sources) <==> k in obj || Holds(sources, k)
    ensures k in obj && !Holds(sources, k) ==> Merge([obj] + sources)[k] == obj[k]
  {
    var args := [obj] + sources;
    MergeLookup(args, k);
    HoldsCons(obj, sources, k);
    if k in obj && !Holds(sources, k) {
      forall j' | 0 < j' < |args|
        ensures k !in args[j']
      {
        assert args[j'] == sources[j' - 1];
      }
    }
  }

  /** The value `Merge` of `obj` followed by `sources` gives a key that the
      source `j` is the last one to hold. */
  lemma MergeLastSource<V>(obj: map<string, V>, sources: seq<map<string, V>>, j: int, k: string)
    requires 0 <= j < |sources| && k in sources[j]
    requires forall j' :: j < j' < |sources| ==> k !in sources[j']
    ensures k in Merge([obj] + sources) && Merge([obj] + sources)[k] == sources[j][k]
  {
    var args := [obj] + sources;
    MergeLookup(args, k);
    assert args[j + 1] == sources[j];
    assert forall j' :: j + 1 < j' < |args| ==> args[j'] == sources[j' - 1];
  }

  /** `defaults(obj, s1, ..., sk)`: updates `obj` in place, adding each key
      of each argument in turn that `obj` does not have yet, so a key
      already in `obj` keeps its value and a missing key takes the value of
      the first source holding it. The call itself returns nothing; `r` is
      the updated contents of `obj`. */
  method Defaults<V>(obj: map<string, V>, sources: seq<map<string, V>>) returns (r: map<string, V>)
    ensures forall k :: k in r <==> k in obj || Holds(sources, k)
    ensures forall k :: k in obj ==> k in r && r[k] == obj[k]
    ensures forall j, k :: 0 <= j < |sources| && k in sources[j] && k !in obj && (forall j' :: 0 <= j' < j ==> k !in sources[j'])
                           ==> k in r && r[k] == sources[j][k]
  {
    var args := [obj] + sources;
    r := obj;
    var i := 0;
    while i < |args|
      invariant 0 <= i <= |args|
      invariant i == 0 ==> r == obj
      invariant 0 < i ==> r == FirstWins(args[..i])
    {
      assert args[..i + 1][..i] == args[..i];
      if i == 0 {
        assert args[..1] == [obj];
        assert obj + obj == obj;
        assert FirstWins([obj]) == obj + map[];
        assert obj + map[] == obj;
      }
      r := CopyMissing(r, args[i]);
      i := i + 1;
    }
    assert args[..|args|] == args;
    forall k
      ensures k in r <==> k in obj || Holds(sources, k)
      ensures k in obj ==> r[k] == obj[k]
    {
      FirstWinsKey(obj, sources, k);
    }
    forall j, k | 0 <= j < |sources| && k in sources[j] && k !in obj && (forall j' :: 0 <= j' < j ==> k !in sources[j'])
      ensures k in r && r[k] == sources[j][k]
    {
      FirstWinsFirstSource(obj, sources, j, k);
    }
  }

  /** Whether `FirstWins` of `obj` followed by `sources` has `k`, and its
      value when `obj` has it. */
  lemma FirstWinsKey<V>(obj: map<string, V>, sources: seq<map<string, V>>, k: string)
    ensures k in FirstWins([obj] + sources) <==> k in obj || Holds(sources, k)
    ensures k in obj ==> FirstWins([obj] + sources)[k] == obj[k]
  {
    var args := [obj] + sources;
    FirstWinsLookup(args, k);
    HoldsCons(obj, sources, k);
    assert args[0] == obj;
  }

  /** The value `FirstWins` of `obj` followed by `sources` gives a key that
      `obj` lacks and the source `j` is the first one to hold. */
  lemma FirstWinsFirstSource<V>(obj: map<string, V>, sources: seq<map<string, V>>, j: int, k: string)
    requires 0 <= j < |sources| && k in sources[j] && k !in obj
    requires forall j' :: 0 <= j' < j ==> k !in sources[j']
    ensures k in FirstWins([obj] + sources) && FirstWins([obj] + sources)[k] == sources[j][k]
  {
    var args := [obj] + sources;
    FirstWinsLookup(args, k);
    assert args[j + 1] == sources[j];
    assert forall j' :: 0 < j' < j + 1 ==> args[j'] == sources[j' - 1];
  }

  /** A key occurs in some argument of `f(obj, s1, ..., sk)` exactly when it
      is in `obj` or in some source. */
  lemma HoldsCons<V>(obj: map<string, V>, sources: seq<map<string, V>>, k: string)
    ensures Holds([obj] + sources, k) <==> k in obj || Holds(sources, k)
  {
    var args := [obj] + sources;
    if k in obj {
      assert args[0] == obj;
    }
    if Holds(args, k) {
      var j :| 0 <= j < |args| && k in args[j];
      if j > 0 {
        assert k in sources[j - 1];
      }
    }
    if Holds(sources, k) {
      var j :| 0 <= j < |sources| && k in sources[j];
      assert args[j + 1] == sources[j];
      assert 0 <= j + 1 < |args| && k in args[j + 1];
    }
  }

  function Reverse<T>(s: seq<T>): (r: seq<T>)
    ensures |r| == |s|
  {
    if |s| == 0 then [] else [s[|s| - 1]] + Reverse(s[..|s| - 1])
  }

  /** Merging an object in front of others is a union in which the others win. */
  lemma {:induction false} MergeCons<V>(x: map<string, V>, rest: seq<map<string, V>>)
    ensures Merge([x] + rest) == x + Merge(rest)
    decreases |rest|
  {
    if |rest| == 0 {
      assert [x] + rest == [x];
      assert [x][..0] == [];
    } else {
      var init, y := rest[..|rest| - 1], rest[|rest| - 1];
      assert ([x] + rest)[..|rest|] == [x] + init;
      MergeCons(x, init);
      assert ([x] + rest)[|rest|] == y;
      UnionAssociative(x, Merge(init), y);
    }
  }

  lemma UnionAssociative<V>(a: map<string, V>, b: map<string, V>, c: map<string, V>)
    ensures (a + b) + c == a + (b + c)
  {
    forall k | k in (a + b) + c
      ensures ((a + b) + c)[k] == (a + (b + c))[k]
    {
    }
  }

  /** The two policies are mirror images: `defaults` over a list of objects
      is `extend` over the same list reversed. */
  lemma {:induction false} FirstWinsIsReversedMerge<V>(objs: seq<map<string, V>>)
    ensures FirstWins(objs) == Merge(Reverse(objs))
    decreases |objs|
  {
    if |objs| > 0 {
      var init := objs[..|objs| - 1];
      FirstWinsIsReversedMerge(init);
      MergeCons(objs[|objs| - 1], Reverse(init));
    }
  }
}
