/**
 * The route walk of `HTTPInterfaceAPI.documentation`: which handlers are documented, under
 * which key, for which version, and the `version` / `versions` header of the result. The text
 * each handler contributes (`handler.documentation(...)`) is not modelled; a `Visit` records
 * one call to it.
 */
module Documentation {
  import opened Outcomes
  import opened OrderedMaps
  import opened Model
  import opened Routes
  import opened HttpInterface

  /** One request to a handler to document itself for a version, base URL and path, filed under `key`. */
  datatype Visit = Visit(key: string, httpMethod: string, version: Version, handler: Handler, baseUrl: string, url: string)

  /** The parts of the documentation dictionary the model keeps. */
  datatype Outline = Outline(
    version: Option<Version>,   // `documentation['version']`, when set
    versions: seq<Version>,     // `documentation['versions']`; empty when the key is absent
    visits: seq<Visit>)         // the handler calls, bucket by bucket in walk order

  /** `versions_list`: the declared versions without `None` and without `False` (that is, `0`). */
  function Listed(declared: seq<Version>): (r: seq<Version>)
    ensures forall v :: v in r <==> v in declared && Truthy(v)
    ensures |r| <= |declared|
    decreases |declared|
  {
    if |declared| == 0 then []
    else if Truthy(declared[0]) then [declared[0]] + Listed(declared[1..])
    else Listed(declared[1..])
  }

  /** `versions_list` keeps the declared order: it is a subsequence of `declared`. */
  lemma {:induction false} ListedKeepsOrder(declared: seq<Version>)
    requires Distinct(declared)
    ensures KeepsOrder(Listed(declared), declared)
    decreases |declared|
  {
    if |declared| > 0 {
      DistinctTail(declared);
      ListedKeepsOrder(declared[1..]);
      KeepsOrderStep(declared, Listed(declared[1..]), Truthy(declared[0]));
    }
  }

  /** `max(versions_list)`. */
  function MaxVersion(vs: seq<Version>): (r: Version)
    requires |vs| > 0 && forall v :: v in vs ==> v.Num?
    ensures r in vs
    ensures forall v :: v in vs ==> v.n <= r.n
    decreases |vs|
  {
    if |vs| == 1 then vs[0]
    else
      var rest := MaxVersion(vs[1..]);
      assert forall v :: v in vs ==> v == vs[0] || v in vs[1..];
      if vs[0].n >= rest.n then vs[0] else rest
  }

  /**
   * The version the walk filters by: the requested one, or the highest listed version when
   * none was requested and some are listed.
   */
  function EffectiveVersion(declared: seq<Version>, apiVersion: Version): (r: Version)
    ensures apiVersion != NoVersion ==> r == apiVersion
    ensures apiVersion == NoVersion && |Listed(declared)| == 0 ==> r == NoVersion
    ensures apiVersion == NoVersion && |Listed(declared)| > 0 ==>
              r in declared && Truthy(r) && forall v :: v in declared && Truthy(v) ==> v.n <= r.n
  {
    var listed := Listed(declared);
    if apiVersion == NoVersion && |listed| > 0 then MaxVersion(listed) else apiVersion
  }

  /** Version `u` is not skipped: either no truthy version is requested, or `u` is that version. */
  predicate Passes(u: Version, effective: Version) {
    !(Truthy(effective) && u != effective)
  }

  /** The versions an entry stored under key `k` applies to. */
  ghost predicate AppliesTo(k: Version, u: Version, declared: seq<Version>) {
    if k == NoVersion then u in declared else u == k
  }

  /** The call the walk makes for entry `k` of bucket `bk`, for version `u`. */
  function VisitFor(bk: Bucket, k: Version, u: Version, baseUrl: string): Visit
    requires k in bk.versions.vals
  {
    Visit(bk.base + bk.url, bk.httpMethod, u, bk.versions.vals[k],
          if bk.base != "" then bk.base else baseUrl, bk.url)
  }

  /** Entry `k` of bucket `bk` is documented for version `u`. */
  ghost predicate Documented(bk: Bucket, k: Version, u: Version, declared: seq<Version>, effective: Version) {
    && k in bk.versions.vals
    && !bk.versions.vals[k].isPrivate
    && AppliesTo(k, u, declared)
    && Passes(u, effective)
  }

  /** The calls for entry `k` of `bk`, over the versions `us` it applies to. */
  function EntryVisits(bk: Bucket, k: Version, us: seq<Version>, effective: Version, baseUrl: string): (r: seq<Visit>)
    requires k in bk.versions.vals
    ensures forall x :: x in r <==> x.version in us && Passes(x.version, effective) && x == VisitFor(bk, k, x.version, baseUrl)
    decreases |us|
  {
    if |us| == 0 then []
    else
      var rest := EntryVisits(bk, k, us[1..], effective, baseUrl);
      assert forall u :: u in us <==> u == us[0] || u in us[1..];
      if Passes(us[0], effective) then [VisitFor(bk, k, us[0], baseUrl)] + rest else rest
  }

  /** The calls for the entries `ks` of bucket `bk`, private handlers skipped. */
  function BucketVisits(bk: Bucket, ks: seq<Version>, declared: seq<Version>, effective: Version, baseUrl: string): (r: seq<Visit>)
    requires forall k :: k in ks ==> k in bk.versions.vals
    ensures forall x :: x in r <==> exists k :: k in ks && Documented(bk, k, x.version, declared, effective)
                                                     && x == VisitFor(bk, k, x.version, baseUrl)
    decreases |ks|
  {
    if |ks| == 0 then []
    else
      var k := ks[0];
      var rest := BucketVisits(bk, ks[1..], declared, effective, baseUrl);
      assert forall k' :: k' in ks <==> k' == k || k' in ks[1..];
      if bk.versions.vals[k].isPrivate then rest
      else
        var us := if k == NoVersion then declared else [k];
        EntryVisits(bk, k, us, effective, baseUrl) + rest
  }

  /** `x` is a call made for bucket `bk`: it is filed under the bucket's key, path and method. */
  predicate MadeFor(x: Visit, bk: Bucket) {
    x.key == bk.base + bk.url && x.url == bk.url && x.httpMethod == bk.httpMethod
  }

  /** A call is made for at most one (base URL, path, method). */
  lemma MadeForUnique(x: Visit, bk: Bucket, bk': Bucket)
    requires MadeFor(x, bk) && MadeFor(x, bk')
    ensures BucketKey(bk) == BucketKey(bk')
  {
    assert bk.base == x.key[..|x.key| - |x.url|];
    assert bk'.base == x.key[..|x.key| - |x.url|];
  }

  /** The calls for the buckets `bks`, bucket by bucket. */
  function AllVisits(bks: seq<Bucket>, declared: seq<Version>, effective: Version, baseUrl: string): (r: seq<Visit>)
    ensures forall x :: x in r <==> exists i, k :: 0 <= i < |bks| && Documented(bks[i], k, x.version, declared, effective)
                                                     && x == VisitFor(bks[i], k, x.version, baseUrl)
    decreases |bks|
  {
    if |bks| == 0 then []
    else
      var first := BucketVisits(bks[0], bks[0].versions.keys, declared, effective, baseUrl);
      var rest := AllVisits(bks[1..], declared, effective, baseUrl);
      assert forall i :: 0 < i < |bks| ==> bks[i] == bks[1..][i - 1];
      assert forall i :: 0 <= i < |bks| - 1 ==> bks[1..][i] == bks[i + 1];
      first + rest
  }

  /** The calls `r` come bucket by bucket: one made for bucket `i` never follows one made for a later bucket `j`. */
  predicate InBucketOrder(r: seq<Visit>, bks: seq<Bucket>) {
    forall p, q, i, j ::
      (0 <= p < q < |r| && 0 <= i < |bks| && 0 <= j < |bks| && MadeFor(r[p], bks[i]) && MadeFor(r[q], bks[j]))
      ==> i <= j
  }

  /** Every call in a bucket's list is made for that bucket. */
  lemma BucketVisitsMadeFor(bk: Bucket, ks: seq<Version>, declared: seq<Version>, effective: Version, baseUrl: string)
    requires forall k :: k in ks ==> k in bk.versions.vals
    ensures forall x :: x in BucketVisits(bk, ks, declared, effective, baseUrl) ==> MadeFor(x, bk)
  {
  }

  /** Every call in the walk's list is made for one of its buckets. */
  lemma AllVisitsMadeFor(bks: seq<Bucket>, declared: seq<Version>, effective: Version, baseUrl: string)
    ensures forall x :: x in AllVisits(bks, declared, effective, baseUrl) ==> exists m :: 0 <= m < |bks| && MadeFor(x, bks[m])
  {
    forall x | x in AllVisits(bks, declared, effective, baseUrl) ensures exists m :: 0 <= m < |bks| && MadeFor(x, bks[m]) {
      var m, k :| 0 <= m < |bks| && Documented(bks[m], k, x.version, declared, effective)
                  && x == VisitFor(bks[m], k, x.version, baseUrl);
      assert MadeFor(x, bks[m]);
    }
  }

  /**
   * The step of the walk: the first bucket's calls, all made for it, followed by calls in bucket
   * order that are made for later buckets, are in bucket order.
   */
  lemma ConcatInBucketOrder(first: seq<Visit>, rest: seq<Visit>, bks: seq<Bucket>)
    requires |bks| > 0 && forall i, j :: 0 <= i < j < |bks| ==> BucketKey(bks[i]) != BucketKey(bks[j])
    requires forall x :: x in first ==> MadeFor(x, bks[0])
    requires forall x :: x in rest ==> exists m :: 0 <= m < |bks| - 1 && MadeFor(x, bks[1..][m])
    requires InBucketOrder(rest, bks[1..])
    ensures InBucketOrder(first + rest, bks)
  {
    var r := first + rest;
    var tail := bks[1..];
    forall p, i | 0 <= p < |r| && 0 <= i < |bks| && MadeFor(r[p], bks[i])
      ensures (p < |first| ==> i == 0) && (p >= |first| ==> i > 0 && MadeFor(rest[p - |first|], tail[i - 1]))
    {
      if p < |first| {
        assert r[p] in first;
        MadeForUnique(r[p], bks[0], bks[i]);
      } else {
        var x := rest[p - |first|];
        assert x == r[p] && x in rest;
        var m :| 0 <= m < |tail| && MadeFor(x, tail[m]);
        MadeForUnique(x, tail[m], bks[i]);
        assert tail[m] == bks[m + 1];
      }
    }
  }

  /** Over buckets with pairwise different (base URL, path, method), the walk's calls are in bucket order. */
  lemma {:induction false} AllVisitsInBucketOrder(bks: seq<Bucket>, declared: seq<Version>, effective: Version, baseUrl: string)
    requires forall i, j :: 0 <= i < j < |bks| ==> BucketKey(bks[i]) != BucketKey(bks[j])
    ensures InBucketOrder(AllVisits(bks, declared, effective, baseUrl), bks)
    decreases |bks|
  {
    if |bks| > 0 {
      var first := BucketVisits(bks[0], bks[0].versions.keys, declared, effective, baseUrl);
      var tail := bks[1..];
      var rest := AllVisits(tail, declared, effective, baseUrl);
      assert AllVisits(bks, declared, effective, baseUrl) == first + rest;
      assert forall i, j :: 0 <= i < j < |tail| ==> BucketKey(tail[i]) != BucketKey(tail[j]) by {
        forall i, j | 0 <= i < j < |tail| ensures BucketKey(tail[i]) != BucketKey(tail[j]) {
          assert tail[i] == bks[i + 1] && tail[j] == bks[j + 1];
        }
      }
      AllVisitsInBucketOrder(tail, declared, effective, baseUrl);
      BucketVisitsMadeFor(bks[0], bks[0].versions.keys, declared, effective, baseUrl);
      AllVisitsMadeFor(tail, declared, effective, baseUrl);
      ConcatInBucketOrder(first, rest, bks);
    }
  }

  /** `documentation(base_url, api_version)`; `NoVersion` stands for an `api_version` of `None`. */
  function Document(h: Http, baseUrl: Option<string>, apiVersion: Version): (r: Outline)
    ensures r.versions == Listed(h.versions)
    ensures r.version.None? <==> apiVersion == NoVersion && |Listed(h.versions)| == 0
    ensures r.version.Some? ==> r.version.value == EffectiveVersion(h.versions, apiVersion)
    ensures forall x :: x in r.visits <==>
              exists bk, k :: InTable(h.routes, bk)
                              && Documented(bk, k, x.version, h.versions, EffectiveVersion(h.versions, apiVersion))
                              && x == VisitFor(bk, k, x.version, baseUrl.GetOr(h.baseUrl))
    ensures InBucketOrder(r.visits, Buckets(h.routes))
  {
    var listed := Listed(h.versions);
    var effective := EffectiveVersion(h.versions, apiVersion);
    var version := if apiVersion == NoVersion && |listed| > 0 then Some(effective)
                   else if apiVersion != NoVersion then Some(apiVersion)
                   else None;
    var bks := Buckets(h.routes);
    assert forall bk :: InTable(h.routes, bk) <==> exists i :: 0 <= i < |bks| && bks[i] == bk;
    BucketKeysDistinct(h.routes);
    AllVisitsInBucketOrder(bks, h.versions, effective, baseUrl.GetOr(h.baseUrl));
    Outline(version, listed, AllVisits(bks, h.versions, effective, baseUrl.GetOr(h.baseUrl)))
  }

  /**
   * Documentation follows insertion order: every call made for a bucket that comes earlier in the
   * walk (for instance a path registered before another under the same base URL) precedes every
   * call made for a later one, whatever the order of methods and versions inside each.
   */
  lemma DocumentFollowsInsertionOrder(h: Http, baseUrl: Option<string>, apiVersion: Version, bk: Bucket, bk': Bucket)
    requires InTable(h.routes, bk) && InTable(h.routes, bk')
    requires Before(Position(h.routes, bk), Position(h.routes, bk'))
    ensures var r := Document(h, baseUrl, apiVersion).visits;
            forall p, q :: 0 <= p < |r| && 0 <= q < |r| && MadeFor(r[p], bk) && MadeFor(r[q], bk') ==> p < q
  {
    EarlierBucketFirst(h.routes, Document(h, baseUrl, apiVersion).visits, bk, bk');
  }

  /** In a list of calls in the walk's bucket order, an earlier bucket's calls precede a later bucket's. */
  lemma EarlierBucketFirst(t: RouteTable, r: seq<Visit>, bk: Bucket, bk': Bucket)
    requires InBucketOrder(r, Buckets(t))
    requires InTable(t, bk) && InTable(t, bk') && Before(Position(t, bk), Position(t, bk'))
    ensures forall p, q :: 0 <= p < |r| && 0 <= q < |r| && MadeFor(r[p], bk) && MadeFor(r[q], bk') ==> p < q
  {
    var bks := Buckets(t);
    BucketsInWalkOrder(t);
    BeforeIsStrict(Position(t, bk), Position(t, bk'));
    var i := IndexOf(bks, bk);
    var j := IndexOf(bks, bk');
    WalkIndexOrder(t, bks, i, j);
    assert BucketKey(bk) != BucketKey(bk');
    CallsOfEarlierBucketFirst(r, bks, i, j);
  }

  /** In a list of buckets in strictly increasing position, a bucket placed before another is listed first. */
  lemma WalkIndexOrder(t: RouteTable, bks: seq<Bucket>, i: nat, j: nat)
    requires forall a, b :: 0 <= a < b < |bks| ==>
               InTable(t, bks[a]) && InTable(t, bks[b]) && Before(Position(t, bks[a]), Position(t, bks[b]))
    requires i < |bks| && j < |bks| && InTable(t, bks[i]) && InTable(t, bks[j])
    requires Before(Position(t, bks[i]), Position(t, bks[j]))
    ensures i < j
  {
    BeforeIsStrict(Position(t, bks[i]), Position(t, bks[j]));
  }

  /** `Before` is a strict order: never both ways, and never from a position to itself. */
  lemma BeforeIsStrict(a: (nat, nat, nat), b: (nat, nat, nat))
    requires Before(a, b)
    ensures a != b && !Before(b, a)
  {
  }

  /** In a list in bucket order, the calls of bucket `i` precede those of a later bucket with another key. */
  lemma CallsOfEarlierBucketFirst(r: seq<Visit>, bks: seq<Bucket>, i: nat, j: nat)
    requires InBucketOrder(r, bks) && i < j < |bks| && BucketKey(bks[i]) != BucketKey(bks[j])
    ensures forall p, q :: 0 <= p < |r| && 0 <= q < |r| && MadeFor(r[p], bks[i]) && MadeFor(r[q], bks[j]) ==> p < q
  {
    forall p, q | 0 <= p < |r| && 0 <= q < |r| && MadeFor(r[p], bks[i]) && MadeFor(r[q], bks[j]) ensures p < q {
      if p == q {
        MadeForUnique(r[p], bks[i], bks[j]);
      }
    }
  }

  /** Private handlers are never documented. */
  lemma PrivateHandlersAreHidden(h: Http, baseUrl: Option<string>, apiVersion: Version)
    ensures forall x :: x in Document(h, baseUrl, apiVersion).visits ==> !x.handler.isPrivate
  {
  }

  /**
   * Without a requested version, an API with numbered versions documents only its highest
   * version: unversioned handlers are filed under it and handlers of other versions are left out.
   */
  lemma {:induction false} DefaultDocumentsLatestVersionOnly(h: Http, baseUrl: Option<string>)
    requires exists v :: v in h.versions && Truthy(v)
    ensures var r := Document(h, baseUrl, NoVersion);
            && r.version.Some? && Truthy(r.version.value)
            && (forall v :: v in h.versions && Truthy(v) ==> v.n <= r.version.value.n)
            && (forall x :: x in r.visits ==> x.version == r.version.value)
  {
    var v :| v in h.versions && Truthy(v);
    assert v in Listed(h.versions);
  }

  /** A visit names its bucket: its key, path and method pick out one bucket of the table. */
  lemma VisitIdentifiesBucket(t: RouteTable, bk: Bucket, bk': Bucket, k: Version, k': Version, u: Version, baseUrl: string)
    requires InTable(t, bk) && InTable(t, bk') && k in bk.versions.vals && k' in bk'.versions.vals
    requires VisitFor(bk, k, u, baseUrl) == VisitFor(bk', k', u, baseUrl)
    ensures bk == bk'
  {
    assert |bk.base| == |bk'.base|;
    assert bk.base == (bk.base + bk.url)[..|bk.base|];
    assert bk'.base == (bk'.base + bk'.url)[..|bk'.base|];
  }

  /**
   * Each unversioned, public handler of a route is documented once for every declared version
   * the filter lets through, and so, when the API declares no versions at all, for none. The
   * handler must not also be stored under that version in the same bucket.
   */
  lemma UnversionedHandlersFollowDeclaredVersions(h: Http, baseUrl: Option<string>, apiVersion: Version,
                                                  bk: Bucket, u: Version)
    requires InTable(h.routes, bk) && NoVersion in bk.versions.vals && !bk.versions.vals[NoVersion].isPrivate
    requires u != NoVersion && u in bk.versions.vals ==> bk.versions.vals[u] != bk.versions.vals[NoVersion]
    ensures (VisitFor(bk, NoVersion, u, baseUrl.GetOr(h.baseUrl)) in Document(h, baseUrl, apiVersion).visits)
              <==> (u in h.versions && Passes(u, EffectiveVersion(h.versions, apiVersion)))
  {
    var b := baseUrl.GetOr(h.baseUrl);
    var x := VisitFor(bk, NoVersion, u, b);
    var effective := EffectiveVersion(h.versions, apiVersion);
    if x in Document(h, baseUrl, apiVersion).visits {
      var bk', k :| InTable(h.routes, bk') && Documented(bk', k, x.version, h.versions, effective)
                    && x == VisitFor(bk', k, x.version, b);
      VisitIdentifiesBucket(h.routes, bk, bk', NoVersion, k, u, b);
      if k != NoVersion {
        assert false;
      }
    } else if u in h.versions && Passes(u, effective) {
      assert Documented(bk, NoVersion, x.version, h.versions, effective);
      assert false;
    }
  }
}
