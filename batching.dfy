/**
 * How an export call arranges its batch into the OTLP request: snapshots
 * are grouped by resource, and each resource's snapshots by instrumentation
 * scope, every group in the order of its first appearance.  Resources,
 * scopes and metric bodies are left abstract; only their equality matters.
 */
module Batching {

  // ---------------------------------------------------------------- grouping by a key

  /** The elements of `xs` whose key is `k`, in their input order. */
  function Filter<K(==), V>(xs: seq<V>, key: V -> K, k: K): (r: seq<V>)
    ensures |r| <= |xs|
    ensures forall x :: x in r ==> x in xs && key(x) == k
  {
    if xs == [] then []
    else if key(xs[0]) == k then [xs[0]] + Filter(xs[1..], key, k)
    else Filter(xs[1..], key, k)
  }

  /** The elements of `xs` whose key is not `k`, in their input order. */
  function Remove<K(==), V>(xs: seq<V>, key: V -> K, k: K): (r: seq<V>)
    ensures |r| <= |xs|
    ensures forall x :: x in r ==> x in xs && key(x) != k
  {
    if xs == [] then []
    else if key(xs[0]) == k then Remove(xs[1..], key, k)
    else [xs[0]] + Remove(xs[1..], key, k)
  }

  /**
   * The groups of `xs` by key: the first element's key and every element
   * sharing it, then the groups of what is left.
   */
  function GroupBy<K(==), V>(xs: seq<V>, key: V -> K): (gs: seq<(K, seq<V>)>)
    ensures |gs| <= |xs|
    decreases |xs|
  {
    if xs == [] then []
    else
      var k := key(xs[0]);
      [(k, Filter(xs, key, k))] + GroupBy(Remove(xs[1..], key, k), key)
  }

  ghost function KeySet<K, V>(xs: seq<V>, key: V -> K): set<K> {
    set x | x in xs :: key(x)
  }

  ghost function GroupKeys<K, V>(gs: seq<(K, seq<V>)>): set<K> {
    set g | g in gs :: g.0
  }

  /** The elements of all groups, one group after another. */
  function Flatten<K, V>(gs: seq<(K, seq<V>)>): seq<V> {
    if gs == [] then [] else gs[0].1 + Flatten(gs[1..])
  }

  lemma {:induction false} FilterRemoveOther<K, V>(xs: seq<V>, key: V -> K, k: K, other: K)
    requires k != other
    ensures Filter(Remove(xs, key, other), key, k) == Filter(xs, key, k)
  {
    if xs != [] {
      FilterRemoveOther(xs[1..], key, k, other);
    }
  }

  lemma {:induction false} FilterRemoveSplit<K, V>(xs: seq<V>, key: V -> K, k: K)
    ensures multiset(Filter(xs, key, k)) + multiset(Remove(xs, key, k)) == multiset(xs)
  {
    if xs != [] {
      FilterRemoveSplit(xs[1..], key, k);
      assert xs == [xs[0]] + xs[1..];
    }
  }

  lemma {:induction false} RemoveKeys<K, V>(xs: seq<V>, key: V -> K, k: K)
    ensures KeySet(Remove(xs, key, k), key) == KeySet(xs, key) - {k}
  {
    if xs != [] {
      RemoveKeys(xs[1..], key, k);
      assert xs == [xs[0]] + xs[1..];
      assert KeySet(xs, key) == {key(xs[0])} + KeySet(xs[1..], key);
      if key(xs[0]) != k {
        var r := Remove(xs, key, k);
        assert r == [xs[0]] + Remove(xs[1..], key, k);
        assert KeySet(r, key) == {key(xs[0])} + KeySet(Remove(xs[1..], key, k), key);
      }
    }
  }

  /** The groups' keys are exactly the keys that occur in the input. */
  lemma {:induction false} GroupKeysAreInputKeys<K, V>(xs: seq<V>, key: V -> K)
    ensures GroupKeys(GroupBy(xs, key)) == KeySet(xs, key)
    decreases |xs|
  {
    if xs != [] {
      var k := key(xs[0]);
      var rest := Remove(xs[1..], key, k);
      var gs := GroupBy(xs, key);
      GroupKeysAreInputKeys(rest, key);
      RemoveKeys(xs[1..], key, k);
      assert gs == [(k, Filter(xs, key, k))] + GroupBy(rest, key);
      assert GroupKeys(gs) == {k} + GroupKeys(GroupBy(rest, key));
      assert xs == [xs[0]] + xs[1..];
      assert KeySet(xs, key) == {k} + KeySet(xs[1..], key);
    }
  }

  /** No key has two groups. */
  lemma {:induction false} GroupKeysDistinct<K, V>(xs: seq<V>, key: V -> K)
    ensures var gs := GroupBy(xs, key);
      forall i, j :: 0 <= i < j < |gs| ==> gs[i].0 != gs[j].0
    decreases |xs|
  {
    if xs != [] {
      var k := key(xs[0]);
      var rest := Remove(xs[1..], key, k);
      var tail := GroupBy(rest, key);
      var gs := GroupBy(xs, key);
      GroupKeysDistinct(rest, key);
      GroupKeysAreInputKeys(rest, key);
      RemoveKeys(xs[1..], key, k);
      assert gs == [(k, Filter(xs, key, k))] + tail;
      forall i, j | 0 <= i < j < |gs| ensures gs[i].0 != gs[j].0 {
        assert gs[j] == tail[j - 1];
        assert gs[j].0 in GroupKeys(tail);
        if i > 0 {
          assert gs[i] == tail[i - 1];
        }
      }
    }
  }

  /** Each group holds exactly the input's elements with its key, in input order. */
  lemma {:induction false} GroupIsFilter<K, V>(xs: seq<V>, key: V -> K)
    ensures var gs := GroupBy(xs, key);
      forall i :: 0 <= i < |gs| ==> gs[i].1 == Filter(xs, key, gs[i].0)
    decreases |xs|
  {
    if xs != [] {
      var k := key(xs[0]);
      var rest := Remove(xs[1..], key, k);
      var tail := GroupBy(rest, key);
      var gs := GroupBy(xs, key);
      GroupIsFilter(rest, key);
      GroupKeysAreInputKeys(rest, key);
      RemoveKeys(xs[1..], key, k);
      assert gs == [(k, Filter(xs, key, k))] + tail;
      forall i | 0 < i < |gs| ensures gs[i].1 == Filter(xs, key, gs[i].0) {
        var g := tail[i - 1];
        assert gs[i] == g;
        assert g.0 in GroupKeys(tail);
        FilterRemoveOther(xs[1..], key, g.0, k);
      }
    }
  }

  /** Grouping loses and duplicates nothing: the groups hold a permutation of the input. */
  lemma {:induction false} GroupByPermutes<K, V>(xs: seq<V>, key: V -> K)
    ensures multiset(Flatten(GroupBy(xs, key))) == multiset(xs)
    decreases |xs|
  {
    if xs != [] {
      var k := key(xs[0]);
      var rest := Remove(xs[1..], key, k);
      var gs := GroupBy(xs, key);
      GroupByPermutes(rest, key);
      assert gs == [(k, Filter(xs, key, k))] + GroupBy(rest, key);
      assert gs[1..] == GroupBy(rest, key);
      assert rest == Remove(xs, key, k);
      FilterRemoveSplit(xs, key, k);
    }
  }

  /** Every group is non-empty. */
  lemma GroupsNonEmpty<K, V>(xs: seq<V>, key: V -> K)
    ensures var gs := GroupBy(xs, key);
      forall i :: 0 <= i < |gs| ==> gs[i].1 != []
  {
    var gs := GroupBy(xs, key);
    GroupIsFilter(xs, key);
    GroupKeysAreInputKeys(xs, key);
    forall i | 0 <= i < |gs| ensures gs[i].1 != [] {
      assert gs[i] in gs;
      assert gs[i].0 in KeySet(xs, key);
      var x :| x in xs && key(x) == gs[i].0;
      FilterKeeps(xs, key, x);
    }
  }

  lemma {:induction false} FilterKeeps<K, V>(xs: seq<V>, key: V -> K, x: V)
    requires x in xs
    ensures x in Filter(xs, key, key(x))
  {
    if xs[0] != x {
      FilterKeeps(xs[1..], key, x);
    }
  }

  // ---------------------------------------------------------------- the request

  /** One metric stream of the batch: the resource and scope that produced it and its body. */
  datatype Snapshot<R, S, M> = Snapshot(resource: R, scope: S, metric: M)

  /** A per-scope group of the request and its metrics. */
  datatype ScopeMetrics<S, M> = ScopeMetrics(scope: S, metrics: seq<M>)

  /** A per-resource group of the request. */
  datatype ResourceMetrics<R, S, M> = ResourceMetrics(resource: R, scopes: seq<ScopeMetrics<S, M>>)

  function ResourceOf<R, S, M>(s: Snapshot<R, S, M>): R { s.resource }

  function ScopeOf<R, S, M>(s: Snapshot<R, S, M>): S { s.scope }

  function Metrics<R, S, M>(ss: seq<Snapshot<R, S, M>>): (ms: seq<M>)
    ensures |ms| == |ss| && forall i :: 0 <= i < |ss| ==> ms[i] == ss[i].metric
  {
    seq(|ss|, i requires 0 <= i < |ss| => ss[i].metric)
  }

  /** The scope groups of one resource's snapshots. */
  function ScopeGroups<R, S(==), M>(ss: seq<Snapshot<R, S, M>>): (r: seq<ScopeMetrics<S, M>>)
    ensures var gs := GroupBy(ss, ScopeOf);
      |r| == |gs| && forall i :: 0 <= i < |r| ==> r[i] == ScopeMetrics(gs[i].0, Metrics(gs[i].1))
  {
    var gs := GroupBy(ss, ScopeOf);
    seq(|gs|, i requires 0 <= i < |gs| => ScopeMetrics(gs[i].0, Metrics(gs[i].1)))
  }

  /** The request an export call sends for a batch. */
  function Translate<R(==), S(==), M>(batch: seq<Snapshot<R, S, M>>): (req: seq<ResourceMetrics<R, S, M>>)
    ensures var gs := GroupBy(batch, ResourceOf);
      |req| == |gs| && forall i :: 0 <= i < |req| ==> req[i] == ResourceMetrics(gs[i].0, ScopeGroups(gs[i].1))
  {
    var gs := GroupBy(batch, ResourceOf);
    seq(|gs|, i requires 0 <= i < |gs| => ResourceMetrics(gs[i].0, ScopeGroups(gs[i].1)))
  }

  ghost function Resources<R, S, M>(batch: seq<Snapshot<R, S, M>>): set<R> {
    set s | s in batch :: s.resource
  }

  ghost function RequestResources<R, S, M>(req: seq<ResourceMetrics<R, S, M>>): set<R> {
    set g | g in req :: g.resource
  }

  /** The snapshots of the batch that come from resource `r` and scope `sc`, in input order. */
  function Selected<R(==), S(==), M>(batch: seq<Snapshot<R, S, M>>, r: R, sc: S): seq<Snapshot<R, S, M>> {
    Filter(Filter(batch, ResourceOf, r), ScopeOf, sc)
  }

  /** Within one resource's snapshots, one group per scope, holding that scope's metrics in input order. */
  lemma ScopeGroupsSelect<R, S, M>(ss: seq<Snapshot<R, S, M>>)
    ensures var sc := ScopeGroups(ss);
      && (forall j, k :: 0 <= j < k < |sc| ==> sc[j].scope != sc[k].scope)
      && forall j :: 0 <= j < |sc| ==> sc[j].metrics == Metrics(Filter(ss, ScopeOf, sc[j].scope))
  {
    var sc := ScopeGroups(ss);
    var gs := GroupBy(ss, ScopeOf);
    GroupKeysDistinct(ss, ScopeOf);
    GroupIsFilter(ss, ScopeOf);
    var byScope: Snapshot<R, S, M> -> S := ScopeOf;
    assert GroupBy(ss, byScope) == gs;
    forall j | 0 <= j < |sc| ensures sc[j].scope == gs[j].0 && sc[j].metrics == Metrics(gs[j].1) {
      assert sc[j] == ScopeMetrics(gs[j].0, Metrics(gs[j].1));
      assert gs[j].1 == Filter(ss, ScopeOf, gs[j].0);
    }
  }

  lemma RequestResourcesCons<R, S, M>(req: seq<ResourceMetrics<R, S, M>>)
    requires req != []
    ensures RequestResources(req) == {req[0].resource} + RequestResources(req[1..])
  {
    assert req == [req[0]] + req[1..];
  }

  /** Resources that are pairwise distinct in a request are as many as its groups. */
  lemma {:induction false} DistinctResourcesCount<R, S, M>(req: seq<ResourceMetrics<R, S, M>>)
    requires forall i, j :: 0 <= i < j < |req| ==> req[i].resource != req[j].resource
    ensures |RequestResources(req)| == |req|
  {
    if req != [] {
      var tail := req[1..];
      var first := req[0].resource;
      assert forall i, j :: 0 <= i < j < |tail| ==> tail[i].resource != tail[j].resource by {
        forall i, j | 0 <= i < j < |tail| ensures tail[i].resource != tail[j].resource {
          assert tail[i] == req[i + 1] && tail[j] == req[j + 1];
        }
      }
      DistinctResourcesCount(tail);
      RequestResourcesCons(req);
      assert first !in RequestResources(tail) by {
        forall g | g in tail ensures g.resource != first {
          var j :| 0 <= j < |tail| && tail[j] == g;
          assert g == req[j + 1];
        }
      }
    }
  }

  /** One resource group per distinct resource of the batch, and no other. */
  lemma TranslateResources<R, S, M>(batch: seq<Snapshot<R, S, M>>)
    ensures var req := Translate(batch);
      && (forall i, j :: 0 <= i < j < |req| ==> req[i].resource != req[j].resource)
      && RequestResources(req) == Resources(batch)
      && |req| == |Resources(batch)|
      && forall i :: 0 <= i < |req| ==>
           req[i].scopes == ScopeGroups(Filter(batch, ResourceOf, req[i].resource))
  {
    var gs := GroupBy(batch, ResourceOf);
    var req := Translate(batch);
    GroupKeysDistinct(batch, ResourceOf);
    GroupIsFilter(batch, ResourceOf);
    GroupKeysAreInputKeys(batch, ResourceOf);
    assert RequestResources(req) == GroupKeys(gs) by {
      forall r | r in GroupKeys(gs) ensures r in RequestResources(req) {
        var g :| g in gs && g.0 == r;
        var i :| 0 <= i < |gs| && gs[i] == g;
        assert req[i].resource == r;
      }
    }
    DistinctResourcesCount(req);
  }

  /**
   * One resource group per distinct resource of the batch, and no other;
   * within it one scope group per scope, each holding exactly the metrics
   * of that resource and scope in their input order.
   */
  lemma TranslateGroups<R, S, M>(batch: seq<Snapshot<R, S, M>>)
    ensures var req := Translate(batch);
      && (forall i, j :: 0 <= i < j < |req| ==> req[i].resource != req[j].resource)
      && RequestResources(req) == Resources(batch)
      && (forall i :: 0 <= i < |req| ==>
            (forall j, k :: 0 <= j < k < |req[i].scopes| ==> req[i].scopes[j].scope != req[i].scopes[k].scope)
            && forall j :: 0 <= j < |req[i].scopes| ==>
                 req[i].scopes[j].metrics == Metrics(Selected(batch, req[i].resource, req[i].scopes[j].scope)))
  {
    var req := Translate(batch);
    TranslateResources(batch);
    forall i | 0 <= i < |req|
      ensures (forall j, k :: 0 <= j < k < |req[i].scopes| ==> req[i].scopes[j].scope != req[i].scopes[k].scope)
      ensures forall j :: 0 <= j < |req[i].scopes| ==>
                req[i].scopes[j].metrics == Metrics(Selected(batch, req[i].resource, req[i].scopes[j].scope))
    {
      ScopeGroupsSelect(Filter(batch, ResourceOf, req[i].resource));
    }
  }

  /** Two snapshots from different resources make a request with two resource groups, in batch order. */
  lemma TwoResourcesTwoGroups<R, S, M>(a: Snapshot<R, S, M>, b: Snapshot<R, S, M>)
    requires a.resource != b.resource
    ensures var req := Translate([a, b]);
      |req| == 2 && req[0].resource == a.resource && req[1].resource == b.resource
  {
    assert [a, b][1..] == [b];
    assert Remove([b], ResourceOf, a.resource) == [b];
    assert GroupBy([a, b], ResourceOf) == [(a.resource, Filter([a, b], ResourceOf, a.resource))] + GroupBy([b], ResourceOf);
  }

  /** Snapshots that all share one resource make a request with one resource group. */
  lemma SharedResourceOneGroup<R, S, M>(batch: seq<Snapshot<R, S, M>>, r: R)
    requires batch != []
    requires forall s :: s in batch ==> s.resource == r
    ensures |Translate(batch)| == 1 && Translate(batch)[0].resource == r
  {
    var req := Translate(batch);
    TranslateResources(batch);
    assert batch[0] in batch;
    assert Resources(batch) == {r};
    assert r in RequestResources(req);
    assert req[0] in req;
    assert |Resources(batch)| == 1;
  }

  /** When every element has key `k`, selecting `k` keeps the whole sequence. */
  lemma {:induction false} FilterAll<K, V>(xs: seq<V>, key: V -> K, k: K)
    requires forall x :: x in xs ==> key(x) == k
    ensures Filter(xs, key, k) == xs
  {
    if xs != [] {
      assert xs[0] in xs;
      assert forall x :: x in xs[1..] ==> x in xs;
      FilterAll(xs[1..], key, k);
      assert [xs[0]] + xs[1..] == xs;
    }
  }

  /** When every element has key `k`, removing `k` leaves nothing. */
  lemma {:induction false} RemoveAll<K, V>(xs: seq<V>, key: V -> K, k: K)
    requires forall x :: x in xs ==> key(x) == k
    ensures Remove(xs, key, k) == []
  {
    if xs != [] {
      assert xs[0] in xs;
      assert forall x :: x in xs[1..] ==> x in xs;
      RemoveAll(xs[1..], key, k);
    }
  }

  /** A non-empty sequence whose elements all share key `k` is one group, the sequence itself. */
  lemma OneKeyOneGroup<K, V>(xs: seq<V>, key: V -> K, k: K)
    requires xs != []
    requires forall x :: x in xs ==> key(x) == k
    ensures GroupBy(xs, key) == [(k, xs)]
  {
    assert xs[0] in xs;
    assert forall x :: x in xs[1..] ==> x in xs;
    FilterAll(xs, key, k);
    RemoveAll(xs[1..], key, k);
  }

  /**
   * Snapshots from one resource and one instrumentation scope make a request
   * with a single resource group holding a single scope group, whose metrics
   * are the batch's in their recorded order.
   */
  lemma OneScopeKeepsOrder<R, S, M>(batch: seq<Snapshot<R, S, M>>, r: R, sc: S)
    requires batch != []
    requires forall s :: s in batch ==> s.resource == r && s.scope == sc
    ensures Translate(batch) == [ResourceMetrics(r, [ScopeMetrics(sc, Metrics(batch))])]
  {
    var byResource: Snapshot<R, S, M> -> R := ResourceOf;
    var byScope: Snapshot<R, S, M> -> S := ScopeOf;
    OneKeyOneGroup(batch, byResource, r);
    OneKeyOneGroup(batch, byScope, sc);
    assert ScopeGroups(batch) == [ScopeMetrics(sc, Metrics(batch))];
  }
}
