/**
 * Version resolution (`HTTPInterfaceAPI.determine_version`) and versioned dispatch
 * (`HTTPInterfaceAPI.version_router`).
 */
module Versioning {
  import opened Outcomes
  import opened Model
  import opened Routes

  /**
   * The `api_version` argument. It is tested with `is False`, an identity test, so unlike a
   * table key the sentinel `False` is distinct from `0` here.
   */
  datatype VersionRequest = InferFromPath | Explicit(version: Version)

  /** The `ValueError('You are requesting conflicting versions')` of `determine_version`. */
  datatype VersionError = ConflictingVersions

  /** Version `v` is truthy and its text `v<n>` occurs somewhere in `path`. */
  predicate Marks(v: Version, path: string) {
    Truthy(v) && Occurs(Label(v.n), path)
  }

  /**
   * The inference loop of `determine_version`: the first declared version, in the set's
   * iteration order, that marks the path; `NoVersion` when none does.
   */
  function InferVersion(declared: seq<Version>, path: string): (r: Version)
    ensures r != NoVersion ==> r in declared && Marks(r, path)
    ensures r == NoVersion <==> forall v :: v in declared ==> !Marks(v, path)
    decreases |declared|
  {
    if |declared| == 0 then NoVersion
    else if Marks(declared[0], path) then declared[0]
    else
      assert forall v :: v in declared ==> v == declared[0] || v in declared[1..];
      InferVersion(declared[1..], path)
  }

  /** The inferred version is the first one, in iteration order, that marks the path. */
  lemma {:induction false} InferVersionIsFirst(declared: seq<Version>, path: string)
    ensures InferVersion(declared, path) != NoVersion ==>
              exists i :: && 0 <= i < |declared| && declared[i] == InferVersion(declared, path)
                          && forall j :: 0 <= j < i ==> !Marks(declared[j], path)
    decreases |declared|
  {
    if InferVersion(declared, path) != NoVersion && !Marks(declared[0], path) {
      var tail := declared[1..];
      InferVersionIsFirst(tail, path);
      var i :| && 0 <= i < |tail| && tail[i] == InferVersion(tail, path)
               && forall j :: 0 <= j < i ==> !Marks(tail[j], path);
      assert declared[i + 1] == tail[i];
      assert forall j :: 0 < j < i + 1 ==> declared[j] == tail[j - 1];
    }
  }

  /**
   * `determine_version(request, api_version)`. With `InferFromPath` the version comes from the
   * path; otherwise the explicit value is used. The header and query-parameter sources are
   * commented out in the source, so the set of requested versions never has two members.
   */
  function DetermineVersion(declared: VersionSet, path: string, request: VersionRequest): (r: Result<Version, VersionError>)
    ensures r.Success?
    ensures request.Explicit? ==> r.value == request.version
    ensures request.InferFromPath? && r.value != NoVersion ==> r.value in declared && Marks(r.value, path)
    ensures request.InferFromPath? ==> (r.value == NoVersion <==> forall v :: v in declared ==> !Marks(v, path))
  {
    var apiVersion := if request.InferFromPath? then InferVersion(declared, path) else request.version;
    var requested: set<Version> := if apiVersion != NoVersion then {apiVersion} else {};
    if |requested| > 1 then Failure(ConflictingVersions)
    else if requested == {} then Success(NoVersion)
    else Success(apiVersion)
  }

  /** Which callable `version_router` ends up invoking. */
  datatype Dispatch =
    | CallHandler(handler: Handler)
    | CallNotFound(notFound: Opaque)
      /** `not_found` was left at its default `None`: calling it raises `TypeError`. */
    | CallNone

  /**
   * `version_router`: resolves the version, then invokes `versions[int(rv) or False]`, else
   * `versions[None]`, else `not_found`. Versions are integers, so `int(rv)` is `rv`; the key
   * `False` is the same dictionary key as `0`.
   */
  function VersionRouter(declared: VersionSet, path: string, request: VersionRequest,
                         bucket: VersionMap, notFound: Option<Opaque>): (r: Result<Dispatch, VersionError>)
    ensures r.Success?
    ensures var rv := DetermineVersion(declared, path, request).value;
            var key := if Truthy(rv) then rv else Num(0);
            && (key in bucket.vals ==> r.value == CallHandler(bucket.vals[key]))
            && (key !in bucket.vals && NoVersion in bucket.vals ==> r.value == CallHandler(bucket.vals[NoVersion]))
            && (key !in bucket.vals && NoVersion !in bucket.vals ==>
                  r.value == if notFound.Some? then CallNotFound(notFound.value) else CallNone)
  {
    match DetermineVersion(declared, path, request)
    case Failure(e) => Failure(e)
    case Success(rv) =>
      var key := if Truthy(rv) then rv else Num(0);
      if key in bucket.vals then Success(CallHandler(bucket.vals[key]))
      else if NoVersion in bucket.vals then Success(CallHandler(bucket.vals[NoVersion]))
      else if notFound.Some? then Success(CallNotFound(notFound.value))
      else Success(CallNone)
  }

  /** An explicitly requested non-zero version that the bucket holds is dispatched to its handler. */
  lemma RouterHonoursExplicitVersion(declared: VersionSet, path: string, n: int,
                                     bucket: VersionMap, notFound: Option<Opaque>)
    requires n != 0 && Num(n) in bucket.vals
    ensures VersionRouter(declared, path, Explicit(Num(n)), bucket, notFound) == Success(CallHandler(bucket.vals[Num(n)]))
  {
  }

  /**
   * When no declared version marks the path, an inferring router falls back to the `False`
   * (that is, `0`) entry, then the unversioned entry, then `not_found`.
   */
  lemma RouterFallsBackWithoutPathVersion(declared: VersionSet, path: string,
                                          bucket: VersionMap, notFound: Option<Opaque>)
    requires forall v :: v in declared ==> !Marks(v, path)
    ensures var r := VersionRouter(declared, path, InferFromPath, bucket, notFound).value;
            if Num(0) in bucket.vals then r == CallHandler(bucket.vals[Num(0)])
            else if NoVersion in bucket.vals then r == CallHandler(bucket.vals[NoVersion])
            else r == if notFound.Some? then CallNotFound(notFound.value) else CallNone
  {
  }

  /**
   * Whatever the router invokes is a handler of the bucket, or the `not_found` callable;
   * otherwise it calls a `not_found` left at `None`, which raises `TypeError`.
   */
  lemma RouterInvokesOnlyKnownCallables(declared: VersionSet, path: string, request: VersionRequest,
                                        bucket: VersionMap, notFound: Option<Opaque>)
    ensures var r := VersionRouter(declared, path, request, bucket, notFound).value;
            && (r.CallHandler? ==> r.handler in bucket.vals.Values)
            && (r.CallNotFound? ==> notFound == Some(r.notFound))
            && (r.CallNone? ==> notFound.None? && NoVersion !in bucket.vals)
  {
  }

  /**
   * Inference matches `v<n>` as a substring, not as a path segment: with versions 1 and 12
   * declared in that order, a request for `/v12/users` resolves to version 1.
   */
  lemma InferenceMatchesSubstrings()
    ensures DetermineVersion([Num(1), Num(12)], "/v12/users", InferFromPath) == Success(Num(1))
  {
    assert Label(1) == "v1";
    assert Label(1) <= "/v12/users"[1..];
    assert Marks(Num(1), "/v12/users");
  }
}
