/** `JsonStats.getStats`: one traversal of the whole document, independent of
    what the tree shows, counting values per kind and the members of every
    object. */
module Stats {
  import opened JsonValues

  /** The seven counters of the statistics panel. */
  datatype Stats = Stats(objects: nat, arrays: nat, strings: nat, numbers: nat,
                         booleans: nat, nulls: nat, totalKeys: nat)

  const Zero := Stats(0, 0, 0, 0, 0, 0, 0)

  function Plus(a: Stats, b: Stats): Stats {
    Stats(a.objects + b.objects, a.arrays + b.arrays, a.strings + b.strings,
          a.numbers + b.numbers, a.booleans + b.booleans, a.nulls + b.nulls,
          a.totalKeys + b.totalKeys)
  }

  lemma PlusZero(a: Stats)
    ensures Plus(Zero, a) == a
  {
  }

  lemma PlusZeroRight(a: Stats)
    ensures Plus(a, Zero) == a
  {
  }

  lemma PlusAssoc(a: Stats, b: Stats, c: Stats)
    ensures Plus(Plus(a, b), c) == Plus(a, Plus(b, c))
  {
  }

  /** The six per-kind counters added up. */
  function KindTotal(s: Stats): nat {
    s.objects + s.arrays + s.strings + s.numbers + s.booleans + s.nulls
  }

  /** The values `traverse` descends into: an array's elements, an object's
      `Object.values`. */
  function Children(v: JsonValue): (r: seq<JsonValue>)
    ensures forall i :: 0 <= i < |r| ==> r[i] < v
    ensures v.Arr? ==> r == v.items
    ensures v.Obj? ==> |r| == |v.members| && forall i :: 0 <= i < |r| ==> r[i] == v.members[i].value
    ensures !v.Arr? && !v.Obj? ==> r == []
  {
    match v
    case Arr(xs) => xs
    case Obj(ms) => Values(ms)
    case _ => []
  }

  /** `Object.values`: the member values in member order. */
  function Values(ms: seq<Member>): (r: seq<JsonValue>)
    ensures |r| == |ms| && forall i :: 0 <= i < |ms| ==> r[i] == ms[i].value
  {
    if ms == [] then [] else [ms[0].value] + Values(ms[1..])
  }

  /** `traverse(value)` with the counters `acc` built so far: the tests run in
      the source's order, null, array, object, string, number, boolean. */
  function Traverse(v: JsonValue, acc: Stats): Stats
    decreases v, 1, 0
  {
    if v == Null then acc.(nulls := acc.nulls + 1)
    else if v.Arr? then TraverseChildren(v, 0, acc.(arrays := acc.arrays + 1))
    else if TypeOf(v) == ObjectType then
      TraverseChildren(v, 0, acc.(objects := acc.objects + 1, totalKeys := acc.totalKeys + |v.members|))
    else if TypeOf(v) == StringType then acc.(strings := acc.strings + 1)
    else if TypeOf(v) == NumberType then acc.(numbers := acc.numbers + 1)
    else if TypeOf(v) == BooleanType then acc.(booleans := acc.booleans + 1)
    else acc
  }

  /** `forEach(traverse)` over the children of `v` from position `i` on. */
  function TraverseChildren(v: JsonValue, i: nat, acc: Stats): Stats
    requires i <= |Children(v)|
    decreases v, 0, |Children(v)| - i
  {
    if i == |Children(v)| then acc
    else TraverseChildren(v, i + 1, Traverse(Children(v)[i], acc))
  }

  /** `getStats`: traverse from all-zero counters. */
  function GetStats(v: JsonValue): Stats {
    Traverse(v, Zero)
  }

  // Reference definitions: the value nodes of a document and a count of them.

  /** Every value node of `v`, root first (pre-order). */
  function Subvalues(v: JsonValue): (r: seq<JsonValue>)
    ensures |r| >= 1 && r[0] == v
    decreases v, 1, 0
  {
    [v] + SubvaluesFrom(v, 0)
  }

  function SubvaluesFrom(v: JsonValue, i: nat): seq<JsonValue>
    requires i <= |Children(v)|
    decreases v, 0, |Children(v)| - i
  {
    if i == |Children(v)| then [] else Subvalues(Children(v)[i]) + SubvaluesFrom(v, i + 1)
  }

  /** How many of `vs` are of kind `k`. */
  function CountKind(vs: seq<JsonValue>, k: Kind): nat {
    if vs == [] then 0 else (if KindOf(vs[0]) == k then 1 else 0) + CountKind(vs[1..], k)
  }

  /** The member counts of the objects among `vs`, added up. */
  function MemberSum(vs: seq<JsonValue>): nat {
    if vs == [] then 0 else (if vs[0].Obj? then |vs[0].members| else 0) + MemberSum(vs[1..])
  }

  /** The panel's counter for kind `k`. */
  function Counter(s: Stats, k: Kind): nat {
    match k
    case ObjectKind => s.objects
    case ArrayKind => s.arrays
    case StringKind => s.strings
    case NumberKind => s.numbers
    case BooleanKind => s.booleans
    case NullKind => s.nulls
  }

  /** What a value counts for itself, before any child: one of its kind, and
      its member count when it is an object. */
  function Own(v: JsonValue): Stats {
    match v
    case Null => Zero.(nulls := 1)
    case Bool(_) => Zero.(booleans := 1)
    case Num(_) => Zero.(numbers := 1)
    case Str(_) => Zero.(strings := 1)
    case Arr(_) => Zero.(arrays := 1)
    case Obj(ms) => Zero.(objects := 1, totalKeys := |ms|)
  }

  /** One step of `traverse`: the value's own counts, then its children. */
  lemma TraverseOwn(v: JsonValue, acc: Stats)
    ensures v.Arr? || v.Obj? ==> Traverse(v, acc) == TraverseChildren(v, 0, Plus(acc, Own(v)))
    ensures !v.Arr? && !v.Obj? ==> Traverse(v, acc) == Plus(acc, Own(v))
  {
  }

  /** `traverse` adds to its counters what each node of the value counts
      for itself, in pre-order. */
  lemma {:induction false} TraverseIsOwnSum(v: JsonValue, acc: Stats)
    ensures Traverse(v, acc) == Plus(acc, SumBy(Subvalues(v), Own))
    decreases v, 1, 0
  {
    var below := SumBy(SubvaluesFrom(v, 0), Own);
    calc {
      Traverse(v, acc);
      { TraverseOwn(v, acc);
        if v.Arr? || v.Obj? {
          TraverseChildrenIsOwnSum(v, 0, Plus(acc, Own(v)));
        } else {
          NoDescendants(v);
          PlusZeroRight(Plus(acc, Own(v)));
        } }
      Plus(Plus(acc, Own(v)), below);
      { PlusAssoc(acc, Own(v), below); }
      Plus(acc, Plus(Own(v), below));
      { OwnSumOfSubvalues(v); }
      Plus(acc, SumBy(Subvalues(v), Own));
    }
  }

  lemma {:induction false} TraverseChildrenIsOwnSum(v: JsonValue, i: nat, acc: Stats)
    requires i <= |Children(v)|
    ensures TraverseChildren(v, i, acc) == Plus(acc, SumBy(SubvaluesFrom(v, i), Own))
    decreases v, 0, |Children(v)| - i
  {
    if i < |Children(v)| {
      var c := Children(v)[i];
      var mine := SumBy(Subvalues(c), Own);
      var later := SumBy(SubvaluesFrom(v, i + 1), Own);
      calc {
        TraverseChildren(v, i, acc);
        TraverseChildren(v, i + 1, Traverse(c, acc));
        { TraverseIsOwnSum(c, acc); }
        TraverseChildren(v, i + 1, Plus(acc, mine));
        { TraverseChildrenIsOwnSum(v, i + 1, Plus(acc, mine)); }
        Plus(Plus(acc, mine), later);
        { PlusAssoc(acc, mine, later); }
        Plus(acc, Plus(mine, later));
        { SumByAppend(Subvalues(c), SubvaluesFrom(v, i + 1), Own); }
        Plus(acc, SumBy(SubvaluesFrom(v, i), Own));
      }
    } else {
      NoDescendantsFrom(v, i);
      PlusZeroRight(acc);
    }
  }

  /** The nodes of a value are the value itself, then its descendants. */
  lemma OwnSumOfSubvalues(v: JsonValue)
    ensures SumBy(Subvalues(v), Own) == Plus(Own(v), SumBy(SubvaluesFrom(v, 0), Own))
  {
    assert Subvalues(v)[1..] == SubvaluesFrom(v, 0);
  }

  lemma NoDescendants(v: JsonValue)
    requires !v.Arr? && !v.Obj?
    ensures SumBy(SubvaluesFrom(v, 0), Own) == Zero
  {
    NoDescendantsFrom(v, 0);
  }

  lemma NoDescendantsFrom(v: JsonValue, i: nat)
    requires i == |Children(v)|
    ensures SumBy(SubvaluesFrom(v, i), Own) == Zero
  {
    assert SubvaluesFrom(v, i) == [];
  }

  lemma CounterPlus(a: Stats, b: Stats, k: Kind)
    ensures Counter(Plus(a, b), k) == Counter(a, k) + Counter(b, k)
  {
  }

  /** A node counts once, under its own kind. */
  lemma OwnCounter(v: JsonValue, k: Kind)
    ensures Counter(Own(v), k) == if KindOf(v) == k then 1 else 0
  {
  }

  /** Adding up what each node counts for itself gives, per kind, the number
      of nodes of that kind. */
  lemma {:induction false} OwnSumCounts(vs: seq<JsonValue>, k: Kind)
    ensures Counter(SumBy(vs, Own), k) == CountKind(vs, k)
    decreases |vs|
  {
    if vs != [] {
      OwnSumCounts(vs[1..], k);
      CounterPlus(Own(vs[0]), SumBy(vs[1..], Own), k);
      OwnCounter(vs[0], k);
    }
  }

  /** ... and, for `totalKeys`, the member counts of the objects. */
  lemma {:induction false} OwnSumKeys(vs: seq<JsonValue>)
    ensures SumBy(vs, Own).totalKeys == MemberSum(vs)
    decreases |vs|
  {
    if vs != [] {
      OwnSumKeys(vs[1..]);
    }
  }

  /** Every node counts once in exactly one of the six kind counters. */
  lemma {:induction false} OwnSumTotal(vs: seq<JsonValue>)
    ensures KindTotal(SumBy(vs, Own)) == |vs|
    decreases |vs|
  {
    if vs != [] {
      OwnSumTotal(vs[1..]);
      assert KindTotal(Own(vs[0])) == 1;
    }
  }

  /** The counters are a census of the document's value nodes, root
      included: the counter of each kind counts the nodes of that kind, and
      `totalKeys` adds up the member counts of every object. */
  lemma StatsAreCensus(v: JsonValue)
    ensures forall k :: Counter(GetStats(v), k) == CountKind(Subvalues(v), k)
    ensures GetStats(v).totalKeys == MemberSum(Subvalues(v))
  {
    GetStatsIsOwnSum(v);
    forall k
      ensures Counter(GetStats(v), k) == CountKind(Subvalues(v), k)
    {
      OwnSumCounts(Subvalues(v), k);
    }
    OwnSumKeys(Subvalues(v));
  }

  /** The six per-kind counters partition the value nodes: together they
      count every node of the document once. */
  lemma KindCountersPartitionNodes(v: JsonValue)
    ensures KindTotal(GetStats(v)) == |Subvalues(v)|
  {
    GetStatsIsOwnSum(v);
    OwnSumTotal(Subvalues(v));
  }

  lemma GetStatsIsOwnSum(v: JsonValue)
    ensures GetStats(v) == SumBy(Subvalues(v), Own)
  {
    TraverseIsOwnSum(v, Zero);
    PlusZero(SumBy(Subvalues(v), Own));
  }

  // Order independence.

  /** The counters `f` gives for each of `xs`, added up. */
  function SumBy<T>(xs: seq<T>, f: T -> Stats): Stats {
    if xs == [] then Zero else Plus(f(xs[0]), SumBy(xs[1..], f))
  }

  lemma {:induction false} SumByAppend<T>(a: seq<T>, b: seq<T>, f: T -> Stats)
    ensures SumBy(a + b, f) == Plus(SumBy(a, f), SumBy(b, f))
    decreases |a|
  {
    if a == [] {
      assert a + b == b;
    } else {
      assert (a + b)[0] == a[0];
      assert (a + b)[1..] == a[1..] + b;
      SumByAppend(a[1..], b, f);
      PlusAssoc(f(a[0]), SumBy(a[1..], f), SumBy(b, f));
    }
  }

  function MemberStats(m: Member): Stats {
    GetStats(m.value)
  }

  lemma {:induction false} SumByRemove<T>(xs: seq<T>, j: nat, f: T -> Stats)
    requires j < |xs|
    ensures SumBy(xs, f) == Plus(f(xs[j]), SumBy(xs[..j] + xs[j + 1..], f))
    decreases j
  {
    if j > 0 {
      SumByRemove(xs[1..], j - 1, f);
      assert xs[..j] + xs[j + 1..] == [xs[0]] + (xs[1..][..j - 1] + xs[1..][j..]);
    } else {
      assert xs[..j] + xs[j + 1..] == xs[1..];
    }
  }

  /** Adding up statistics does not depend on the order of the values. */
  lemma {:induction false} SumByPermutation<T>(xs: seq<T>, ys: seq<T>, f: T -> Stats)
    requires multiset(xs) == multiset(ys)
    ensures SumBy(xs, f) == SumBy(ys, f)
    decreases |xs|
  {
    if xs == [] {
      assert |ys| == |multiset(ys)| == 0;
    } else {
      var x := xs[0];
      assert x in multiset(ys);
      var j :| 0 <= j < |ys| && ys[j] == x;
      var rest := ys[..j] + ys[j + 1..];
      assert ys == ys[..j] + [ys[j]] + ys[j + 1..];
      assert multiset(ys) == multiset(ys[..j]) + multiset{x} + multiset(ys[j + 1..]);
      assert xs == [x] + xs[1..];
      assert multiset(xs) == multiset{x} + multiset(xs[1..]);
      assert multiset(rest) == multiset(ys[..j]) + multiset(ys[j + 1..]);
      assert multiset(xs[1..]) == multiset(xs) - multiset{x};
      assert multiset(xs[1..]) == multiset(rest);
      SumByRemove(ys, j, f);
      SumByPermutation(xs[1..], rest, f);
    }
  }

  /** Traversing from any counters adds the value's own statistics to them. */
  lemma TraverseAddsStats(v: JsonValue, acc: Stats)
    ensures Traverse(v, acc) == Plus(acc, GetStats(v))
  {
    TraverseIsOwnSum(v, acc);
    TraverseIsOwnSum(v, Zero);
    PlusZero(SumBy(Subvalues(v), Own));
  }

  /** The counters of a container are its own contribution plus the sum of
      its children's statistics. */
  lemma {:induction false} TraverseChildrenSums(v: JsonValue, i: nat, acc: Stats)
    requires i <= |Children(v)|
    ensures TraverseChildren(v, i, acc) == Plus(acc, SumBy(Children(v)[i..], GetStats))
    decreases |Children(v)| - i
  {
    var cs := Children(v);
    if i < |cs| {
      var g := GetStats(cs[i]);
      var rest := SumBy(cs[i + 1..], GetStats);
      calc {
        TraverseChildren(v, i, acc);
        TraverseChildren(v, i + 1, Traverse(cs[i], acc));
        { TraverseAddsStats(cs[i], acc); }
        TraverseChildren(v, i + 1, Plus(acc, g));
        { TraverseChildrenSums(v, i + 1, Plus(acc, g)); }
        Plus(Plus(acc, g), rest);
        Plus(acc, Plus(g, rest));
        { SumByFrom(cs, i, GetStats); }
        Plus(acc, SumBy(cs[i..], GetStats));
      }
    } else {
      assert cs[i..] == [];
    }
  }

  lemma SumByFrom<T>(xs: seq<T>, i: nat, f: T -> Stats)
    requires i < |xs|
    ensures SumBy(xs[i..], f) == Plus(f(xs[i]), SumBy(xs[i + 1..], f))
  {
    assert xs[i..][0] == xs[i];
    assert xs[i..][1..] == xs[i + 1..];
  }

  lemma {:induction false} ValueSumIsMemberSum(ms: seq<Member>)
    ensures SumBy(Values(ms), GetStats) == SumBy(ms, MemberStats)
    decreases |ms|
  {
    if ms != [] {
      ValueSumIsMemberSum(ms[1..]);
      assert Values(ms)[1..] == Values(ms[1..]);
    }
  }

  /** A container's statistics are its own contribution plus its children's. */
  lemma ContainerStats(v: JsonValue)
    requires v.Arr? || v.Obj?
    ensures GetStats(v) == Plus(Own(v), SumBy(Children(v), GetStats))
  {
    assert GetStats(v) == TraverseChildren(v, 0, Own(v));
    TraverseChildrenSums(v, 0, Own(v));
    assert Children(v)[0..] == Children(v);
  }

  /** Reordering an array's elements leaves its statistics unchanged. */
  lemma ArrayOrderIrrelevant(xs: seq<JsonValue>, ys: seq<JsonValue>)
    requires multiset(xs) == multiset(ys)
    ensures GetStats(Arr(xs)) == GetStats(Arr(ys))
  {
    ContainerStats(Arr(xs));
    ContainerStats(Arr(ys));
    SumByPermutation(xs, ys, GetStats);
  }

  /** Reordering an object's members leaves its statistics unchanged. */
  lemma ObjectOrderIrrelevant(ms: seq<Member>, ns: seq<Member>)
    requires multiset(ms) == multiset(ns)
    ensures GetStats(Obj(ms)) == GetStats(Obj(ns))
  {
    assert |ms| == |multiset(ms)| == |multiset(ns)| == |ns|;
    ContainerStats(Obj(ms));
    ContainerStats(Obj(ns));
    ValueSumIsMemberSum(ms);
    ValueSumIsMemberSum(ns);
    SumByPermutation(ms, ns, MemberStats);
  }

  lemma {:induction false} SumByPointwise<T>(xs: seq<T>, ys: seq<T>, f: T -> Stats)
    requires |xs| == |ys|
    requires forall i :: 0 <= i < |xs| ==> f(xs[i]) == f(ys[i])
    ensures SumBy(xs, f) == SumBy(ys, f)
    decreases |xs|
  {
    if xs != [] {
      SumByPointwise(xs[1..], ys[1..], f);
    }
  }

  /** The statistics of an array depend on its elements only through their
      statistics, so reordering inside a nested container, at any depth,
      leaves the document's statistics unchanged. */
  lemma ElementStatisticsDetermine(xs: seq<JsonValue>, ys: seq<JsonValue>)
    requires |xs| == |ys|
    requires forall i :: 0 <= i < |xs| ==> GetStats(xs[i]) == GetStats(ys[i])
    ensures GetStats(Arr(xs)) == GetStats(Arr(ys))
  {
    ContainerStats(Arr(xs));
    ContainerStats(Arr(ys));
    SumByPointwise(xs, ys, GetStats);
  }

  /** The same for an object's member values, keys aside. */
  lemma MemberStatisticsDetermine(ms: seq<Member>, ns: seq<Member>)
    requires |ms| == |ns|
    requires forall i :: 0 <= i < |ms| ==> GetStats(ms[i].value) == GetStats(ns[i].value)
    ensures GetStats(Obj(ms)) == GetStats(Obj(ns))
  {
    ContainerStats(Obj(ms));
    ContainerStats(Obj(ns));
    ValueSumIsMemberSum(ms);
    ValueSumIsMemberSum(ns);
    SumByPointwise(ms, ns, MemberStats);
  }

  /** `w` is `v` with the elements of its arrays and the members of its
      objects put in any order, at every depth; each member keeps its key. */
  ghost predicate Reordered(v: JsonValue, w: JsonValue)
    decreases v
  {
    match v
    case Arr(xs) =>
      && w.Arr?
      && exists zs: seq<JsonValue> ::
           && |zs| == |xs| && multiset(zs) == multiset(w.items)
           && forall i :: 0 <= i < |xs| ==> Reordered(xs[i], zs[i])
    case Obj(ms) =>
      && w.Obj?
      && exists ps: seq<Member> ::
           && |ps| == |ms| && multiset(ps) == multiset(w.members)
           && forall i :: 0 <= i < |ms| ==> ps[i].key == ms[i].key && Reordered(ms[i].value, ps[i].value)
    case _ => w == v
  }

  /** Every document is a reordering of itself. */
  lemma {:induction false} ReorderedReflexive(v: JsonValue)
    ensures Reordered(v, v)
    decreases v
  {
    match v
    case Arr(xs) =>
      forall i | 0 <= i < |xs|
        ensures Reordered(xs[i], xs[i])
      {
        ReorderedReflexive(xs[i]);
      }
    case Obj(ms) =>
      forall i | 0 <= i < |ms|
        ensures Reordered(ms[i].value, ms[i].value)
      {
        ReorderedReflexive(ms[i].value);
      }
    case _ =>
  }

  /** Reordering array elements and object members, at any depth, leaves the
      statistics unchanged. */
  lemma {:induction false} ReorderingKeepsStats(v: JsonValue, w: JsonValue)
    requires Reordered(v, w)
    ensures GetStats(v) == GetStats(w)
    decreases v
  {
    match v
    case Arr(xs) =>
      var zs: seq<JsonValue> :| && |zs| == |xs| && multiset(zs) == multiset(w.items)
                                && forall i :: 0 <= i < |xs| ==> Reordered(xs[i], zs[i]);
      forall i | 0 <= i < |xs|
        ensures GetStats(xs[i]) == GetStats(zs[i])
      {
        ReorderingKeepsStats(xs[i], zs[i]);
      }
      ElementStatisticsDetermine(xs, zs);
      ArrayOrderIrrelevant(zs, w.items);
    case Obj(ms) =>
      var ps: seq<Member> :| && |ps| == |ms| && multiset(ps) == multiset(w.members)
                             && forall i :: 0 <= i < |ms| ==> ps[i].key == ms[i].key && Reordered(ms[i].value, ps[i].value);
      forall i | 0 <= i < |ms|
        ensures GetStats(ms[i].value) == GetStats(ps[i].value)
      {
        ReorderingKeepsStats(ms[i].value, ps[i].value);
      }
      MemberStatisticsDetermine(ms, ps);
      ObjectOrderIrrelevant(ps, w.members);
    case _ =>
  }

  /** `{"a":1,"b":[true,null]}`: one object with two keys, one array, one
      number, one boolean, one null. */
  lemma ExampleDocumentStats()
    ensures GetStats(Obj([Member("a", Num(1)), Member("b", Arr([Bool(true), Null]))]))
            == Stats(1, 1, 0, 1, 1, 1, 2)
  {
    var arr := Arr([Bool(true), Null]);
    var doc := Obj([Member("a", Num(1)), Member("b", arr)]);
    assert Children(arr) == [Bool(true), Null];
    assert Children(doc) == [Num(1), arr];
  }
}
