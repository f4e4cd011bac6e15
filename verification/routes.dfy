/**
 * The HTTP route table of one API: base URL -> path -> HTTP method -> version -> handler,
 * every level an insertion-ordered dictionary (hug/api.py keeps the outer two levels in
 * `OrderedDict`s and the inner two in plain dicts, which keep insertion order as well).
 */
module Routes {
  import opened Outcomes
  import opened OrderedMaps
  import opened Model

  /** One (base URL, path, method) bucket: version -> handler. */
  type VersionMap = OMap<Version, Handler>
  type MethodMap = OMap<string, VersionMap>
  type PathMap = OMap<string, MethodMap>
  type RouteTable = OMap<string, PathMap>

  /** `t[b][p][m][v]` exists. */
  predicate HasRoute(t: RouteTable, b: string, p: string, m: string, v: Version) {
    && b in t.vals
    && p in t.vals[b].vals
    && m in t.vals[b].vals[p].vals
    && v in t.vals[b].vals[p].vals[m].vals
  }

  /** `t[b][p][m][v]`. */
  function RouteAt(t: RouteTable, b: string, p: string, m: string, v: Version): Handler
    requires HasRoute(t, b, p, m, v)
  {
    t.vals[b].vals[p].vals[m].vals[v]
  }

  /** One (base URL, path, method) bucket of a table, with its version map. */
  datatype Bucket = Bucket(base: string, url: string, httpMethod: string, versions: VersionMap)

  /** `bk` is a bucket of `t`. */
  predicate InTable(t: RouteTable, bk: Bucket) {
    && bk.base in t.vals
    && bk.url in t.vals[bk.base].vals
    && bk.httpMethod in t.vals[bk.base].vals[bk.url].vals
    && t.vals[bk.base].vals[bk.url].vals[bk.httpMethod] == bk.versions
  }

  /** The buckets of the methods `methods` of path `url` under `base`, in that order. */
  function MethodBuckets(base: string, url: string, mm: MethodMap, methods: seq<string>): (r: seq<Bucket>)
    requires forall m :: m in methods ==> m in mm.vals
    ensures forall bk :: bk in r <==>
      bk.base == base && bk.url == url && bk.httpMethod in methods && bk.versions == mm.vals[bk.httpMethod]
    ensures |r| == |methods| && forall i :: 0 <= i < |r| ==> r[i].httpMethod == methods[i]
    decreases |methods|
  {
    if |methods| == 0 then []
    else [Bucket(base, url, methods[0], mm.vals[methods[0]])] + MethodBuckets(base, url, mm, methods[1..])
  }

  /** The buckets of the paths `paths` under `base`, path by path in that order. */
  function PathBuckets(base: string, pm: PathMap, paths: seq<string>): (r: seq<Bucket>)
    requires forall p :: p in paths ==> p in pm.vals
    ensures forall bk :: bk in r <==>
      && bk.base == base && bk.url in paths
      && bk.httpMethod in pm.vals[bk.url].vals && bk.versions == pm.vals[bk.url].vals[bk.httpMethod]
    decreases |paths|
  {
    if |paths| == 0 then []
    else
      var mm := pm.vals[paths[0]];
      MethodBuckets(base, paths[0], mm, mm.keys) + PathBuckets(base, pm, paths[1..])
  }

  /** The buckets of the base URLs `bases`, base by base in that order. */
  function BaseBuckets(t: RouteTable, bases: seq<string>): (r: seq<Bucket>)
    requires forall b :: b in bases ==> b in t.vals
    ensures forall bk :: bk in r <==> bk.base in bases && InTable(t, bk)
    decreases |bases|
  {
    if |bases| == 0 then []
    else
      var pm := t.vals[bases[0]];
      PathBuckets(bases[0], pm, pm.keys) + BaseBuckets(t, bases[1..])
  }

  /**
   * The walk over base URLs, then their paths, then their methods, each in insertion order,
   * flattened into a list of buckets.
   */
  function Buckets(t: RouteTable): (r: seq<Bucket>)
    ensures forall bk :: bk in r <==> InTable(t, bk)
  {
    BaseBuckets(t, t.keys)
  }

  /** A bucket's place in the walk: the insertion positions of its base URL, path and method. */
  function Position(t: RouteTable, bk: Bucket): (nat, nat, nat)
    requires InTable(t, bk)
  {
    (IndexOf(t.keys, bk.base), IndexOf(t.vals[bk.base].keys, bk.url), IndexOf(t.vals[bk.base].vals[bk.url].keys, bk.httpMethod))
  }

  /** A bucket's place within one base URL's path map: the positions of its path and method. */
  function PathPosition(pm: PathMap, bk: Bucket): (nat, nat)
    requires bk.url in pm.vals && bk.httpMethod in pm.vals[bk.url].vals
  {
    (IndexOf(pm.keys, bk.url), IndexOf(pm.vals[bk.url].keys, bk.httpMethod))
  }

  /** Lexicographic order on (path, method) positions. */
  predicate PairBefore(a: (nat, nat), b: (nat, nat)) {
    a.0 < b.0 || (a.0 == b.0 && a.1 < b.1)
  }

  /** Lexicographic order on (base URL, path, method) positions. */
  predicate Before(a: (nat, nat, nat), b: (nat, nat, nat)) {
    a.0 < b.0 || (a.0 == b.0 && PairBefore((a.1, a.2), (b.1, b.2)))
  }

  /** Every (path, method) position comes strictly before every later one. */
  predicate PairsAscending(s: seq<(nat, nat)>) {
    forall i, j :: 0 <= i < j < |s| ==> PairBefore(s[i], s[j])
  }

  /** Every (base URL, path, method) position comes strictly before every later one. */
  predicate Ascending(s: seq<(nat, nat, nat)>) {
    forall i, j :: 0 <= i < j < |s| ==> Before(s[i], s[j])
  }

  /** All buckets of `r` lie in the path map `pm`. */
  predicate InPathMap(pm: PathMap, r: seq<Bucket>) {
    forall i :: 0 <= i < |r| ==> r[i].url in pm.vals && r[i].httpMethod in pm.vals[r[i].url].vals
  }

  /** The (path, method) positions of the buckets `r`. */
  function PathPositions(pm: PathMap, r: seq<Bucket>): (ps: seq<(nat, nat)>)
    requires InPathMap(pm, r)
    ensures |ps| == |r| && forall i :: 0 <= i < |r| ==> ps[i] == PathPosition(pm, r[i])
  {
    seq(|r|, i requires 0 <= i < |r| && InPathMap(pm, r) => PathPosition(pm, r[i]))
  }

  /** The (base URL, path, method) positions of the buckets `r`. */
  function Positions(t: RouteTable, r: seq<Bucket>): (ps: seq<(nat, nat, nat)>)
    requires forall i :: 0 <= i < |r| ==> InTable(t, r[i])
    ensures |ps| == |r| && forall i :: 0 <= i < |r| ==> ps[i] == Position(t, r[i])
  {
    seq(|r|, i requires 0 <= i < |r| && InTable(t, r[i]) => Position(t, r[i]))
  }

  /** Positions of a concatenation are the concatenated positions. */
  lemma PathPositionsConcat(pm: PathMap, a: seq<Bucket>, b: seq<Bucket>)
    requires InPathMap(pm, a) && InPathMap(pm, b)
    ensures InPathMap(pm, a + b)
    ensures PathPositions(pm, a + b) == PathPositions(pm, a) + PathPositions(pm, b)
  {
    assert forall i :: 0 <= i < |a + b| ==> (a + b)[i] == if i < |a| then a[i] else b[i - |a|];
  }

  /** Positions of a concatenation are the concatenated positions. */
  lemma PositionsConcat(t: RouteTable, a: seq<Bucket>, b: seq<Bucket>)
    requires forall i :: 0 <= i < |a| ==> InTable(t, a[i])
    requires forall i :: 0 <= i < |b| ==> InTable(t, b[i])
    ensures forall i :: 0 <= i < |a + b| ==> InTable(t, (a + b)[i])
    ensures Positions(t, a + b) == Positions(t, a) + Positions(t, b)
  {
    assert forall i :: 0 <= i < |a + b| ==> (a + b)[i] == if i < |a| then a[i] else b[i - |a|];
  }

  /** Ascending (path, method) runs, the second wholly on later paths, join into one. */
  lemma PairsConcat(a: seq<(nat, nat)>, b: seq<(nat, nat)>, k: nat)
    requires PairsAscending(a) && PairsAscending(b)
    requires forall i :: 0 <= i < |a| ==> a[i].0 == k
    requires forall j :: 0 <= j < |b| ==> k < b[j].0
    ensures PairsAscending(a + b)
  {
    forall i, j | 0 <= i < j < |a + b| ensures PairBefore((a + b)[i], (a + b)[j]) {
      if j < |a| {
        assert (a + b)[i] == a[i] && (a + b)[j] == a[j];
      } else if i < |a| {
        assert (a + b)[i] == a[i] && (a + b)[j] == b[j - |a|];
      } else {
        assert (a + b)[i] == b[i - |a|] && (a + b)[j] == b[j - |a|];
      }
    }
  }

  /** Ascending (base URL, path, method) runs, the second wholly on later base URLs, join into one. */
  lemma TriplesConcat(a: seq<(nat, nat, nat)>, b: seq<(nat, nat, nat)>, k: nat)
    requires Ascending(a) && Ascending(b)
    requires forall i :: 0 <= i < |a| ==> a[i].0 == k
    requires forall j :: 0 <= j < |b| ==> k < b[j].0
    ensures Ascending(a + b)
  {
    forall i, j | 0 <= i < j < |a + b| ensures Before((a + b)[i], (a + b)[j]) {
      if j < |a| {
        assert (a + b)[i] == a[i] && (a + b)[j] == a[j];
      } else if i < |a| {
        assert (a + b)[i] == a[i] && (a + b)[j] == b[j - |a|];
      } else {
        assert (a + b)[i] == b[i - |a|] && (a + b)[j] == b[j - |a|];
      }
    }
  }

  /** The buckets of one path, listed method by method, have ascending positions on that path. */
  lemma MethodBucketsInOrder(base: string, pm: PathMap, k: nat)
    requires k < |pm.keys|
    ensures var p := pm.keys[k];
            var head := MethodBuckets(base, p, pm.vals[p], pm.vals[p].keys);
            && InPathMap(pm, head)
            && (forall i :: 0 <= i < |head| ==> head[i].base == base && PathPositions(pm, head)[i].0 == k)
            && PairsAscending(PathPositions(pm, head))
  {
    var p := pm.keys[k];
    var mm := pm.vals[p];
    var head := MethodBuckets(base, p, mm, mm.keys);
    IndexOfDistinct(pm.keys, k);
    forall i | 0 <= i < |head| ensures head[i].base == base && head[i].url == p && head[i].httpMethod in mm.vals {
      assert head[i] in head;
    }
    forall i | 0 <= i < |head| ensures PathPosition(pm, head[i]) == (k, i) {
      IndexOfDistinct(mm.keys, i);
    }
  }

  /** Buckets of a path map listed from path position `k` on, in ascending (path, method) order. */
  predicate PathWalk(pm: PathMap, base: string, k: nat, r: seq<Bucket>) {
    && InPathMap(pm, r)
    && (forall i :: 0 <= i < |r| ==> r[i].base == base && k <= PathPositions(pm, r)[i].0)
    && PairsAscending(PathPositions(pm, r))
  }

  /** The buckets of path `k` followed by a walk from path `k + 1` on form a walk from `k` on. */
  lemma PathWalkStep(pm: PathMap, base: string, k: nat, head: seq<Bucket>, rest: seq<Bucket>)
    requires InPathMap(pm, head)
    requires forall i :: 0 <= i < |head| ==> head[i].base == base && PathPositions(pm, head)[i].0 == k
    requires PairsAscending(PathPositions(pm, head))
    requires PathWalk(pm, base, k + 1, rest)
    ensures PathWalk(pm, base, k, head + rest)
  {
    var r := head + rest;
    PathPositionsConcat(pm, head, rest);
    PairsConcat(PathPositions(pm, head), PathPositions(pm, rest), k);
    var ps := PathPositions(pm, r);
    forall i | 0 <= i < |r| ensures r[i].base == base && k <= ps[i].0 {
      if i < |head| {
        assert r[i] == head[i];
      } else {
        assert r[i] == rest[i - |head|];
      }
    }
  }

  /** The paths from position `k` on yield their buckets path by path, then method by method. */
  lemma {:induction false} PathBucketsInOrder(base: string, pm: PathMap, k: nat)
    requires k <= |pm.keys|
    ensures PathWalk(pm, base, k, PathBuckets(base, pm, pm.keys[k..]))
    decreases |pm.keys| - k
  {
    if k == |pm.keys| {
      assert pm.keys[k..] == [];
    } else {
      var p := pm.keys[k];
      assert pm.keys[k..][1..] == pm.keys[k + 1..];
      var head := MethodBuckets(base, p, pm.vals[p], pm.vals[p].keys);
      var rest := PathBuckets(base, pm, pm.keys[k + 1..]);
      assert PathBuckets(base, pm, pm.keys[k..]) == head + rest;
      MethodBucketsInOrder(base, pm, k);
      PathBucketsInOrder(base, pm, k + 1);
      PathWalkStep(pm, base, k, head, rest);
    }
  }

  /** One base URL's buckets, with the base URL's position prepended, stay ascending. */
  lemma LiftPositions(t: RouteTable, k: nat, head: seq<Bucket>)
    requires k < |t.keys|
    requires PathWalk(t.vals[t.keys[k]], t.keys[k], 0, head)
    requires forall i :: 0 <= i < |head| ==> head[i].versions == t.vals[t.keys[k]].vals[head[i].url].vals[head[i].httpMethod]
    ensures forall i :: 0 <= i < |head| ==> InTable(t, head[i])
    ensures forall i :: 0 <= i < |head| ==> Positions(t, head)[i].0 == k
    ensures Ascending(Positions(t, head))
  {
    var pm := t.vals[t.keys[k]];
    IndexOfDistinct(t.keys, k);
    var pp := PathPositions(pm, head);
    var ps := Positions(t, head);
    assert forall i :: 0 <= i < |head| ==> ps[i] == (k, pp[i].0, pp[i].1);
  }

  /** Buckets of a table listed from base-URL position `k` on, in ascending walk order. */
  predicate TableWalk(t: RouteTable, k: nat, r: seq<Bucket>) {
    && (forall i :: 0 <= i < |r| ==> InTable(t, r[i]))
    && (forall i :: 0 <= i < |r| ==> k <= Positions(t, r)[i].0)
    && Ascending(Positions(t, r))
  }

  /** The buckets of base URL `k` followed by a walk from `k + 1` on form a walk from `k` on. */
  lemma TableWalkStep(t: RouteTable, k: nat, head: seq<Bucket>, rest: seq<Bucket>)
    requires forall i :: 0 <= i < |head| ==> InTable(t, head[i])
    requires forall i :: 0 <= i < |head| ==> Positions(t, head)[i].0 == k
    requires Ascending(Positions(t, head))
    requires TableWalk(t, k + 1, rest)
    ensures TableWalk(t, k, head + rest)
  {
    var r := head + rest;
    PositionsConcat(t, head, rest);
    TriplesConcat(Positions(t, head), Positions(t, rest), k);
    var ps := Positions(t, r);
    forall i | 0 <= i < |r| ensures k <= ps[i].0 {
      if i < |head| {
        assert ps[i] == Positions(t, head)[i];
      } else {
        assert ps[i] == Positions(t, rest)[i - |head|];
      }
    }
  }

  /** The base URLs from position `k` on yield their buckets base by base, in walk order. */
  lemma {:induction false} BaseBucketsInOrder(t: RouteTable, k: nat)
    requires k <= |t.keys|
    ensures TableWalk(t, k, BaseBuckets(t, t.keys[k..]))
    decreases |t.keys| - k
  {
    if k == |t.keys| {
      assert t.keys[k..] == [];
    } else {
      var b := t.keys[k];
      var pm := t.vals[b];
      assert t.keys[k..][1..] == t.keys[k + 1..];
      assert pm.keys[0..] == pm.keys;
      var head := PathBuckets(b, pm, pm.keys);
      var rest := BaseBuckets(t, t.keys[k + 1..]);
      assert BaseBuckets(t, t.keys[k..]) == head + rest;
      PathBucketsInOrder(b, pm, 0);
      forall i | 0 <= i < |head|
        ensures head[i].versions == pm.vals[head[i].url].vals[head[i].httpMethod]
      {
        assert head[i] in head;
      }
      LiftPositions(t, k, head);
      BaseBucketsInOrder(t, k + 1);
      TableWalkStep(t, k, head, rest);
    }
  }

  /**
   * The walk lists buckets in strictly increasing (base URL, path, method) insertion position:
   * base URLs in the table's order, the paths of one base URL in their order, and the methods
   * of one path in theirs. In particular no bucket is listed twice.
   */
  lemma BucketsInWalkOrder(t: RouteTable)
    ensures var r := Buckets(t);
            forall i, j :: 0 <= i < j < |r| ==> InTable(t, r[i]) && InTable(t, r[j]) && Before(Position(t, r[i]), Position(t, r[j]))
  {
    assert t.keys[0..] == t.keys;
    BaseBucketsInOrder(t, 0);
  }

  /** What identifies a bucket: its base URL, path and method. */
  function BucketKey(bk: Bucket): (string, string, string) {
    (bk.base, bk.url, bk.httpMethod)
  }

  /** The walk never lists two buckets under the same (base URL, path, method). */
  lemma BucketKeysDistinct(t: RouteTable)
    ensures var r := Buckets(t);
            forall i, j :: 0 <= i < j < |r| ==> BucketKey(r[i]) != BucketKey(r[j])
  {
    var r := Buckets(t);
    BucketsInWalkOrder(t);
    forall i, j | 0 <= i < j < |r| ensures BucketKey(r[i]) != BucketKey(r[j]) {
      assert Position(t, r[i]) != Position(t, r[j]);
    }
  }

  /** The identities of all handlers stored anywhere in `t`. */
  function HandlerIds(t: RouteTable): (ids: set<nat>)
    ensures forall b, p, m, v :: HasRoute(t, b, p, m, v) ==> RouteAt(t, b, p, m, v).id in ids
    ensures forall id :: id in ids ==>
      exists b, p, m, v :: HasRoute(t, b, p, m, v) && RouteAt(t, b, p, m, v).id == id
  {
    set b, p, m, v
      | b in t.vals && p in t.vals[b].vals && m in t.vals[b].vals[p].vals
        && v in t.vals[b].vals[p].vals[m].vals && HasRoute(t, b, p, m, v)
      :: RouteAt(t, b, p, m, v).id
  }
}
