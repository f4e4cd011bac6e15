/**
 * Route expansion (`HTTPInterfaceAPI.aio_server`): every (base URL, path, method) bucket of the
 * route table becomes the list of (URI, method, handler) registrations the server would be
 * given, and the server-wide not-found handler is chosen. The server itself is not modelled;
 * the registrations are the result.
 */
module Expansion {
  import opened Outcomes
  import opened OrderedMaps
  import opened Model
  import opened Routes
  import Versioning

  /** A registered URI, kept structured so that plain and versioned URIs are told apart. */
  datatype RouteUri =
    | Plain(base: string, url: string)
      /** The base URL, then `/v` and the version number, then the path. */
    | Versioned(base: string, version: int, url: string)
  {
    /** The URI text handed to the server. */
    function Text(): string {
      match this
      case Plain(b, u) => b + u
      case Versioned(b, n, u) => b + "/" + Label(n) + u
    }
  }

  /** One route handed to the server: a URI, the single method it answers, and its handler. */
  datatype Registration = Registration(uri: RouteUri, httpMethod: string, handler: Handler)

  /**
   * Looking up the first version key of a bucket that has none fails with `IndexError`, and no
   * server is built.
   */
  datatype ExpansionError = EmptyBucket(base: string, url: string, httpMethod: string)

  /**
   * The copy of a bucket's handlers into a fresh per-bucket table, key by key in order (when
   * `None` is the only key it is the one copied). This copies the first `n` entries of `src`.
   */
  function CopyEntries<K(!new), V>(src: OMap<K, V>, n: nat): (r: OMap<K, V>)
    requires n <= |src.keys|
    ensures r.keys == src.keys[..n]
    ensures forall k :: k in r.vals ==> r.vals[k] == src.vals[k]
    decreases n
  {
    if n == 0 then Empty()
    else
      CopyNext(CopyEntries(src, n - 1), src, n - 1)
  }

  /** One step of the copy loop: the next key of `src` and its handler. */
  function CopyNext<K(!new), V>(acc: OMap<K, V>, src: OMap<K, V>, n: nat): (r: OMap<K, V>)
    requires n < |src.keys| && acc.keys == src.keys[..n]
    requires forall k :: k in acc.vals ==> acc.vals[k] == src.vals[k]
    ensures r.keys == src.keys[..n + 1]
    ensures forall k :: k in r.vals ==> r.vals[k] == src.vals[k]
  {
    var k := src.keys[n];
    NextKeyIsNew(src.keys, n);
    assert src.keys[..n + 1] == src.keys[..n] + [k];
    var r := Put(acc, k, src.vals[k]);
    assert forall k' :: k' in r.vals && k' != k ==> Get(r, k') == Get(acc, k');
    r
  }

  /** In a duplicate-free key order, the key at position `n` is not among the first `n`. */
  lemma NextKeyIsNew<K>(keys: seq<K>, n: nat)
    requires Distinct(keys) && n < |keys|
    ensures keys[n] !in keys[..n]
  {
    forall i | 0 <= i < n ensures keys[..n][i] != keys[n] {
      assert keys[..n][i] == keys[i];
    }
  }

  /** Both branches that build `routers[method_function]` produce exactly the bucket. */
  function Routers(versions: VersionMap): (r: VersionMap)
    ensures r == versions
  {
    if |versions.keys| == 1 && NoVersion in versions.vals then
      var r: VersionMap := Dict([NoVersion], map[NoVersion := versions.vals[NoVersion]]);
      assert versions.keys == [NoVersion];
      assert r.vals == versions.vals;
      r
    else
      var r := CopyEntries(versions, |versions.keys|);
      assert versions.keys[..|versions.keys|] == versions.keys;
      assert r.vals == versions.vals;
      r
  }

  /** The handler a `/v<n>` URI is bound to: the bucket's own entry, else its first entry. */
  function Bound(versions: VersionMap, v: Version): (r: Handler)
    requires |versions.keys| > 0
    ensures v in versions.vals ==> r == versions.vals[v]
    ensures v !in versions.vals ==> r == versions.vals[versions.keys[0]]
  {
    if v in versions.vals then versions.vals[v] else versions.vals[versions.keys[0]]
  }

  /** The API's declared versions other than `None`, in iteration order. */
  function Numbered(declared: seq<Version>): (r: seq<Version>)
    ensures forall v :: v in r <==> v in declared && v.Num?
    decreases |declared|
  {
    if |declared| == 0 then []
    else if declared[0].NoVersion? then Numbered(declared[1..])
    else [declared[0]] + Numbered(declared[1..])
  }

  /** Filtering keeps the declared order: `Numbered` is a subsequence of `declared`. */
  lemma {:induction false} NumberedKeepsOrder(declared: seq<Version>)
    requires Distinct(declared)
    ensures KeepsOrder(Numbered(declared), declared)
    decreases |declared|
  {
    if |declared| > 0 {
      DistinctTail(declared);
      NumberedKeepsOrder(declared[1..]);
      KeepsOrderStep(declared, Numbered(declared[1..]), declared[0].Num?);
    }
  }

  /** Filtering keeps the declared versions distinct. */
  lemma {:induction false} NumberedDistinct(declared: seq<Version>)
    requires Distinct(declared)
    ensures Distinct(Numbered(declared))
    decreases |declared|
  {
    if |declared| > 0 {
      var tail := declared[1..];
      assert Distinct(tail) by {
        forall i, j | 0 <= i < j < |tail| ensures tail[i] != tail[j] {
          assert tail[i] == declared[i + 1] && tail[j] == declared[j + 1];
        }
      }
      NumberedDistinct(tail);
      assert declared[0] !in tail by {
        forall i | 0 <= i < |tail| ensures tail[i] != declared[0] {
          assert tail[i] == declared[i + 1];
        }
      }
    }
  }

  /**
   * The versioned half of one bucket's expansion: one registration per numbered version
   * `vs[i]`, in order, under `/v<n>`; an empty bucket fails on the first one.
   */
  function VersionedRoutes(bk: Bucket, vs: seq<Version>): (r: Result<seq<Registration>, ExpansionError>)
    requires forall v :: v in vs ==> v.Num?
    ensures r.Failure? <==> |vs| > 0 && |bk.versions.keys| == 0
    ensures r.Success? ==> |r.value| == |vs|
    ensures r.Success? ==> forall i :: 0 <= i < |vs| ==>
              && r.value[i].uri == Versioned(bk.base, vs[i].n, bk.url)
              && r.value[i].httpMethod == bk.httpMethod
              && r.value[i].handler == Bound(bk.versions, vs[i])
    decreases |vs|
  {
    if |vs| == 0 then Success([])
    else if |bk.versions.keys| == 0 then Failure(EmptyBucket(bk.base, bk.url, bk.httpMethod))
    else
      var v := vs[0];
      var g := Registration(Versioned(bk.base, v.n, bk.url), bk.httpMethod, Bound(bk.versions, v));
      match VersionedRoutes(bk, vs[1..])
      case Failure(e) => Failure(e)
      case Success(rest) => Success([g] + rest)
  }

  /** The unversioned registration of a bucket, present when it has a `None` handler. */
  function PlainRoute(bk: Bucket): (r: seq<Registration>)
    ensures |r| <= 1
    ensures |r| == 1 <==> NoVersion in bk.versions.vals
    ensures |r| == 1 ==> r[0] == Registration(Plain(bk.base, bk.url), bk.httpMethod, bk.versions.vals[NoVersion])
  {
    if NoVersion in bk.versions.vals
    then [Registration(Plain(bk.base, bk.url), bk.httpMethod, bk.versions.vals[NoVersion])]
    else []
  }

  /**
   * The registrations of one bucket, given the API's declared versions: the plain URI when the
   * `routers` copy of the bucket has an unversioned handler, then one `/v<n>` URI per declared
   * numbered version. The copy is the bucket itself, so the plain route is the bucket's.
   */
  function ExpandBucket(bk: Bucket, declared: VersionSet): (r: Result<seq<Registration>, ExpansionError>)
    ensures r.Failure? <==> VersionedRoutes(bk, Numbered(declared)).Failure?
    ensures r.Success? ==> r.value == PlainRoute(bk) + VersionedRoutes(bk, Numbered(declared)).value
  {
    var routers := Routers(bk.versions);
    var plain := PlainRoute(bk.(versions := routers));
    if |declared| == 0 then
      assert Numbered(declared) == [];
      Success(plain)
    else
      match VersionedRoutes(bk, Numbered(declared))
      case Failure(e) => Failure(e)
      case Success(vr) => Success(plain + vr)
  }

  /** One bucket fails to expand exactly when it is empty and a numbered version is declared. */
  lemma ExpandBucketFails(bk: Bucket, declared: VersionSet)
    ensures ExpandBucket(bk, declared).Failure? <==>
              |bk.versions.keys| == 0 && exists v :: v in declared && v.Num?
  {
    var vs := Numbered(declared);
    if |vs| > 0 {
      assert vs[0] in declared;
    }
  }

  /**
   * Every versioned registration carries the bucket's base URL, path and method, and is bound
   * to its version's own handler or else to the bucket's first one.
   */
  lemma VersionedRoutesShape(bk: Bucket, vs: seq<Version>)
    requires forall v :: v in vs ==> v.Num?
    ensures var r := VersionedRoutes(bk, vs);
            r.Success? ==> forall g :: g in r.value ==>
              && g.uri.Versioned? && g.uri.base == bk.base && g.uri.url == bk.url
              && g.httpMethod == bk.httpMethod && Num(g.uri.version) in vs
              && |bk.versions.keys| > 0 && g.handler == Bound(bk.versions, Num(g.uri.version))
  {
    var r := VersionedRoutes(bk, vs);
    if r.Success? {
      forall g | g in r.value
        ensures && g.uri.Versioned? && g.uri.base == bk.base && g.uri.url == bk.url
                && g.httpMethod == bk.httpMethod && Num(g.uri.version) in vs
                && |bk.versions.keys| > 0 && g.handler == Bound(bk.versions, Num(g.uri.version))
      {
        var i :| 0 <= i < |r.value| && r.value[i] == g;
        assert vs[i] in vs;
      }
    }
  }

  /** Distinct versions get one versioned registration each, with distinct URIs. */
  lemma VersionedRoutesCover(bk: Bucket, vs: seq<Version>)
    requires forall v :: v in vs ==> v.Num?
    requires Distinct(vs)
    ensures var r := VersionedRoutes(bk, vs);
            r.Success? ==>
              && (forall v :: v in vs ==> exists i :: 0 <= i < |r.value| && r.value[i].uri == Versioned(bk.base, v.n, bk.url))
              && (forall i, j :: 0 <= i < j < |r.value| ==> r.value[i].uri != r.value[j].uri)
  {
    var r := VersionedRoutes(bk, vs);
    if r.Success? {
      forall v | v in vs
        ensures exists i :: 0 <= i < |r.value| && r.value[i].uri == Versioned(bk.base, v.n, bk.url)
      {
        var k :| 0 <= k < |vs| && vs[k] == v;
        assert r.value[k].uri == Versioned(bk.base, v.n, bk.url);
      }
    }
  }

  /** The plain route followed by versioned routes of the same bucket. */
  lemma PlainThenVersioned(bk: Bucket, vr: seq<Registration>)
    requires forall g :: g in vr ==> g.uri.Versioned? && g.uri.base == bk.base && g.uri.url == bk.url && g.httpMethod == bk.httpMethod
    ensures var regs := PlainRoute(bk) + vr;
            && (forall g :: g in regs ==> g.httpMethod == bk.httpMethod && g.uri.base == bk.base && g.uri.url == bk.url)
            && ((exists g :: g in regs && g.uri.Plain?) <==> NoVersion in bk.versions.vals)
            && (forall g :: g in regs && g.uri.Plain? ==> g.handler == bk.versions.vals[NoVersion])
  {
    var regs := PlainRoute(bk) + vr;
    assert forall g :: g in regs ==> g in PlainRoute(bk) || g in vr;
    if NoVersion in bk.versions.vals {
      assert regs[0] == PlainRoute(bk)[0];
    }
  }

  /**
   * Every registration of a bucket carries the bucket's base URL, path and method; the plain
   * URI is registered exactly when the bucket has an unversioned handler, and is bound to it.
   */
  lemma ExpandBucketPlain(bk: Bucket, declared: VersionSet)
    ensures var r := ExpandBucket(bk, declared);
            r.Success? ==>
              && (forall g :: g in r.value ==> g.httpMethod == bk.httpMethod && g.uri.base == bk.base && g.uri.url == bk.url)
              && ((exists g :: g in r.value && g.uri.Plain?) <==> NoVersion in bk.versions.vals)
              && (forall g :: g in r.value && g.uri.Plain? ==> g.handler == bk.versions.vals[NoVersion])
  {
    var vs := Numbered(declared);
    VersionedRoutesShape(bk, vs);
    if ExpandBucket(bk, declared).Success? {
      PlainThenVersioned(bk, VersionedRoutes(bk, vs).value);
    }
  }

  /**
   * Each `/v<n>` URI of a bucket belongs to a declared numbered version and is bound to that
   * version's own handler, or else to the bucket's first one.
   */
  lemma ExpandBucketVersionedBinding(bk: Bucket, declared: VersionSet)
    ensures var r := ExpandBucket(bk, declared);
            r.Success? ==> forall g :: g in r.value && g.uri.Versioned? ==>
              && Num(g.uri.version) in declared
              && |bk.versions.keys| > 0
              && g.handler == Bound(bk.versions, Num(g.uri.version))
  {
    var r := ExpandBucket(bk, declared);
    if r.Success? {
      var vs := Numbered(declared);
      VersionedRoutesShape(bk, vs);
      var vr := VersionedRoutes(bk, vs).value;
      var regs := r.value;
      assert regs == PlainRoute(bk) + vr;
      assert forall g :: g in regs && g.uri.Versioned? ==> g in vr;
    }
  }

  /** Offsetting the versioned routes by the plain route keeps coverage and distinct URIs. */
  lemma {:induction false} PlainThenVersionedCover(bk: Bucket, vs: seq<Version>, vr: seq<Registration>)
    requires forall g :: g in vr ==> g.uri.Versioned?
    requires forall v :: v in vs ==> v.Num?
    requires forall v :: v in vs ==> exists i :: 0 <= i < |vr| && vr[i].uri == Versioned(bk.base, v.n, bk.url)
    requires forall i, j :: 0 <= i < j < |vr| ==> vr[i].uri != vr[j].uri
    ensures var regs := PlainRoute(bk) + vr;
            && (forall v :: v in vs ==> exists i :: 0 <= i < |regs| && regs[i].uri == Versioned(bk.base, v.n, bk.url))
            && (forall i, j :: 0 <= i < j < |regs| ==> regs[i].uri != regs[j].uri)
  {
    var plain := PlainRoute(bk);
    var regs := plain + vr;
    forall v | v in vs
      ensures exists i :: 0 <= i < |regs| && regs[i].uri == Versioned(bk.base, v.n, bk.url)
    {
      var k :| 0 <= k < |vr| && vr[k].uri == Versioned(bk.base, v.n, bk.url);
      assert regs[|plain| + k] == vr[k];
    }
    forall i, j | 0 <= i < j < |regs| ensures regs[i].uri != regs[j].uri {
      assert regs[j] == vr[j - |plain|];
      assert vr[j - |plain|] in vr;
      if i >= |plain| {
        assert regs[i] == vr[i - |plain|];
      }
    }
  }

  /** Each declared numbered version gets exactly one `/v<n>` URI in a bucket's expansion. */
  lemma ExpandBucketVersionedCoverage(bk: Bucket, declared: VersionSet)
    ensures var r := ExpandBucket(bk, declared);
            r.Success? ==>
              && (forall v :: v in declared && v.Num? ==>
                    exists i :: 0 <= i < |r.value| && r.value[i].uri == Versioned(bk.base, v.n, bk.url))
              && (forall i, j :: 0 <= i < j < |r.value| ==> r.value[i].uri != r.value[j].uri)
  {
    var vs := Numbered(declared);
    NumberedDistinct(declared);
    VersionedRoutesShape(bk, vs);
    VersionedRoutesCover(bk, vs);
    if ExpandBucket(bk, declared).Success? {
      PlainThenVersionedCover(bk, vs, VersionedRoutes(bk, vs).value);
    }
  }

  /** The registrations of the buckets `bks`, bucket by bucket; the first failure aborts. */
  function ExpandAll(bks: seq<Bucket>, declared: VersionSet): (r: Result<seq<Registration>, ExpansionError>)
    ensures r.Failure? <==> exists i :: 0 <= i < |bks| && ExpandBucket(bks[i], declared).Failure?
    ensures r.Success? ==> forall g :: g in r.value <==>
              exists i :: 0 <= i < |bks| && g in ExpandBucket(bks[i], declared).value
    decreases |bks|
  {
    if |bks| == 0 then Success([])
    else
      match ExpandBucket(bks[0], declared)
      case Failure(e) => Failure(e)
      case Success(first) =>
        match ExpandAll(bks[1..], declared)
        case Failure(e) =>
          assert forall i :: 0 < i < |bks| ==> bks[i] == bks[1..][i - 1];
          Failure(e)
        case Success(rest) =>
          assert forall i :: 0 < i < |bks| ==> bks[i] == bks[1..][i - 1];
          assert forall i :: 0 <= i < |bks| - 1 ==> bks[1..][i] == bks[i + 1];
          Success(first + rest)
  }

  /** Where a registration is made: its base URL, path and method. */
  function RegistrationKey(g: Registration): (string, string, string) {
    (g.uri.base, g.uri.url, g.httpMethod)
  }

  /** Two duplicate-free lists with no element in common concatenate to a duplicate-free list. */
  lemma DisjointConcat<T>(a: seq<T>, b: seq<T>)
    requires Distinct(a) && Distinct(b)
    requires forall i, j :: 0 <= i < |a| && 0 <= j < |b| ==> a[i] != b[j]
    ensures Distinct(a + b)
  {
  }

  /**
   * Buckets with pairwise different (base URL, path, method) expand to a list in which no
   * registration appears twice: a bucket's own URIs differ, and registrations of different
   * buckets differ in base URL, path or method.
   */
  lemma {:induction false} ExpandAllRegistersOnce(bks: seq<Bucket>, declared: VersionSet)
    requires forall i, j :: 0 <= i < j < |bks| ==> BucketKey(bks[i]) != BucketKey(bks[j])
    ensures ExpandAll(bks, declared).Success? ==> Distinct(ExpandAll(bks, declared).value)
    decreases |bks|
  {
    if |bks| > 0 && ExpandAll(bks, declared).Success? {
      var first := ExpandBucket(bks[0], declared).value;
      var tail := bks[1..];
      var rest := ExpandAll(tail, declared).value;
      assert ExpandAll(bks, declared).value == first + rest;
      ExpandBucketVersionedCoverage(bks[0], declared);
      assert Distinct(first);
      assert forall i, j :: 0 <= i < j < |tail| ==> BucketKey(tail[i]) != BucketKey(tail[j]) by {
        forall i, j | 0 <= i < j < |tail| ensures BucketKey(tail[i]) != BucketKey(tail[j]) {
          assert tail[i] == bks[i + 1] && tail[j] == bks[j + 1];
        }
      }
      ExpandAllRegistersOnce(tail, declared);
      ExpandBucketPlain(bks[0], declared);
      forall i, j | 0 <= i < |first| && 0 <= j < |rest| ensures first[i] != rest[j] {
        assert first[i] in first && rest[j] in rest;
        var k :| 0 <= k < |tail| && rest[j] in ExpandBucket(tail[k], declared).value;
        ExpandBucketPlain(tail[k], declared);
        assert tail[k] == bks[k + 1];
        assert RegistrationKey(first[i]) == BucketKey(bks[0]);
        assert RegistrationKey(rest[j]) == BucketKey(tail[k]);
      }
      DisjointConcat(first, rest);
    }
  }

  /** Which handler `aio_server` installs as the server's not-found handler. */
  datatype NotFoundChoice =
    | DocumentationNotFound
    | CustomNotFound(handler: Opaque)

  /**
   * The not-found choice of `aio_server(default_not_found)`. Only a table whose single key is
   * `None` replaces the default; `defaultNotFound` stands for `default_not_found is True`.
   */
  function SelectNotFound(notFoundHandlers: map<Version, Opaque>, defaultNotFound: bool): (r: Option<NotFoundChoice>)
    ensures (r.Some? && r.value.CustomNotFound?) <==> notFoundHandlers.Keys == {NoVersion}
    ensures r.Some? && r.value.CustomNotFound? ==> r.value.handler == notFoundHandlers[NoVersion]
    ensures r == Some(DocumentationNotFound) <==> defaultNotFound && notFoundHandlers.Keys != {NoVersion}
    ensures r.None? <==> !defaultNotFound && notFoundHandlers.Keys != {NoVersion}
  {
    var default := if defaultNotFound then Some(DocumentationNotFound) else None;
    if |notFoundHandlers| > 0 && |notFoundHandlers| == 1 && NoVersion in notFoundHandlers then
      SingleKey(notFoundHandlers);
      Some(CustomNotFound(notFoundHandlers[NoVersion]))
    else
      default
  }

  /** A one-entry dictionary holding `None` has no other key. */
  lemma SingleKey(m: map<Version, Opaque>)
    requires |m| == 1 && NoVersion in m
    ensures m.Keys == {NoVersion}
  {
    var others := m.Keys - {NoVersion};
    assert m.Keys == others + {NoVersion};
    assert |others| == 0;
  }

  /** The server `aio_server` would return: its registrations and its not-found handler. */
  datatype App = App(registrations: seq<Registration>, notFound: Option<NotFoundChoice>)

  /** `aio_server(default_not_found)` over a route table and the API's declared versions. */
  function AioServer(routes: RouteTable, declared: VersionSet, notFoundHandlers: map<Version, Opaque>,
                     defaultNotFound: bool): (r: Result<App, ExpansionError>)
    ensures r.Failure? <==> exists bk :: InTable(routes, bk) && ExpandBucket(bk, declared).Failure?
    ensures r.Success? ==> forall g :: g in r.value.registrations <==>
              exists bk :: InTable(routes, bk) && g in ExpandBucket(bk, declared).value
    ensures r.Success? ==> r.value.notFound == SelectNotFound(notFoundHandlers, defaultNotFound)
    ensures r.Success? ==> Distinct(r.value.registrations)
  {
    var bks := Buckets(routes);
    BucketKeysDistinct(routes);
    ExpandAllRegistersOnce(bks, declared);
    assert forall bk :: InTable(routes, bk) <==> exists i :: 0 <= i < |bks| && bks[i] == bk;
    match ExpandAll(bks, declared)
    case Failure(e) => Failure(e)
    case Success(regs) => Success(App(regs, SelectNotFound(notFoundHandlers, defaultNotFound)))
  }

  /**
   * The server fails to build exactly when some (base URL, path, method) bucket is empty while
   * a numbered version is declared.
   */
  lemma AioServerFailsOnlyOnEmptyBuckets(routes: RouteTable, declared: VersionSet, notFoundHandlers: map<Version, Opaque>,
                                         defaultNotFound: bool)
    ensures AioServer(routes, declared, notFoundHandlers, defaultNotFound).Failure? <==>
              (exists bk :: InTable(routes, bk) && |bk.versions.keys| == 0) && (exists v :: v in declared && v.Num?)
  {
    forall bk | InTable(routes, bk) {
      ExpandBucketFails(bk, declared);
    }
  }

  /**
   * Every registered handler is a handler of the route table stored under the same base URL,
   * path and method.
   */
  lemma {:induction false} RegisteredHandlersComeFromTable(routes: RouteTable, declared: VersionSet,
                                                           notFoundHandlers: map<Version, Opaque>, defaultNotFound: bool)
    ensures var r := AioServer(routes, declared, notFoundHandlers, defaultNotFound);
            r.Success? ==> forall g :: g in r.value.registrations ==>
              exists v :: HasRoute(routes, g.uri.base, g.uri.url, g.httpMethod, v)
                          && RouteAt(routes, g.uri.base, g.uri.url, g.httpMethod, v) == g.handler
  {
    var r := AioServer(routes, declared, notFoundHandlers, defaultNotFound);
    if r.Success? {
      forall g | g in r.value.registrations
        ensures exists v :: HasRoute(routes, g.uri.base, g.uri.url, g.httpMethod, v)
                            && RouteAt(routes, g.uri.base, g.uri.url, g.httpMethod, v) == g.handler
      {
        var bk :| InTable(routes, bk) && g in ExpandBucket(bk, declared).value;
        ExpandBucketPlain(bk, declared);
        ExpandBucketVersionedBinding(bk, declared);
        if g.uri.Plain? {
          assert HasRoute(routes, g.uri.base, g.uri.url, g.httpMethod, NoVersion);
        } else {
          var v := Num(g.uri.version);
          if v in bk.versions.vals {
            assert HasRoute(routes, g.uri.base, g.uri.url, g.httpMethod, v);
          } else {
            var first := bk.versions.keys[0];
            assert HasRoute(routes, g.uri.base, g.uri.url, g.httpMethod, first);
          }
        }
      }
    }
  }

  /**
   * A `/v<n>` URI whose version the bucket holds is bound to the same handler that
   * `version_router` dispatches an explicit request for version `n` to.
   */
  lemma VersionedUriAgreesWithRouter(bk: Bucket, declared: VersionSet, n: int, path: string, notFound: Option<Opaque>)
    requires n != 0 && Num(n) in declared && Num(n) in bk.versions.vals
    ensures ExpandBucket(bk, declared).Success?
    ensures exists g :: g in ExpandBucket(bk, declared).value && g.uri == Versioned(bk.base, n, bk.url)
    ensures forall g :: g in ExpandBucket(bk, declared).value && g.uri == Versioned(bk.base, n, bk.url) ==>
              Versioning.VersionRouter(declared, path, Versioning.Explicit(Num(n)), bk.versions, notFound)
                == Success(Versioning.CallHandler(g.handler))
  {
    ExpandBucketFails(bk, declared);
    ExpandBucketVersionedCoverage(bk, declared);
    var r := ExpandBucket(bk, declared).value;
    var i :| 0 <= i < |r| && r[i].uri == Versioned(bk.base, n, bk.url);
    assert r[i] in r;
    ExpandBucketVersionedBinding(bk, declared);
    Versioning.RouterHonoursExplicitVersion(declared, path, n, bk.versions, notFound);
  }

  /** The middle part of a three-part concatenation. */
  lemma MiddleOf(x: string, m: string, y: string)
    ensures (x + m + y)[|x|..|x| + |m|] == m
  {
    assert forall i :: 0 <= i < |m| ==> (x + m + y)[|x| + i] == m[i];
  }

  /** Different numbered versions of one path get different URI texts. */
  lemma {:induction false} VersionedTextsDiffer(base: string, url: string, a: int, b: int)
    requires a != b
    ensures Versioned(base, a, url).Text() != Versioned(base, b, url).Text()
  {
    var ta := Versioned(base, a, url).Text();
    var tb := Versioned(base, b, url).Text();
    if ta == tb {
      var x := base + "/";
      assert |Label(a)| == |Label(b)|;
      MiddleOf(x, Label(a), url);
      MiddleOf(x, Label(b), url);
      assert Label(a) == Label(b);
      assert Decimal(a) == Label(a)[1..] && Decimal(b) == Label(b)[1..];
      DecimalInjective(a, b);
    }
  }
}
