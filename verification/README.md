# hug API registry — a Dafny model

This project models the registry core of hug's `hug/api.py`. That core is the per-module `API`
object and its HTTP interface, `HTTPInterfaceAPI`. The HTTP interface holds the things below.

- A nested, insertion-ordered route table: base URL → path → HTTP method → version → handler.
- The declared versions.
- Sinks, middleware, startup handlers and per-version exception handlers.
- Input and output formats, and not-found handlers.

The model covers how that state is built, queried, combined and expanded:

- version resolution (`determine_version`) and versioned dispatch (`version_router`);
- the route-expansion and not-found-selection parts of `aio_server`, written as a pure function that returns the list of `(uri, method, handler)` registrations;
- `HTTPInterfaceAPI.extend` and `API.extend`;
- the supporting lookups: exception handlers, formats, sinks, middleware, startup and not-found handlers;
- directives, the lazily created `http` / `cli` / `context` attributes, CLI dispatch, and the `ModuleSingleton` get-or-create rule;
- which handlers `documentation` visits, and for which versions.

Every operation is a pure function on immutable datatypes. A mutation in the source becomes a
function that returns the new state. Where `extend` mutates both APIs, the function returns
both.

Files and modules:

- `foundation.dfy` holds three modules:
  - `Outcomes`: `Option` and `Result`;
  - `OrderedMaps`: insertion-ordered dictionaries, kept as a key order plus a map;
  - `Model`: version keys, version sets, opaque callables, and the decimal text of a version.
- `routes.dfy` (`Routes`): the route table and its walk, bucket by bucket.
- `versioning.dfy` (`Versioning`): `determine_version` and `version_router`.
- `http.dfy` (`HttpInterface`): the `HTTPInterfaceAPI` state and its small operations.
- `extension.dfy` (`Extension`): `HTTPInterfaceAPI.extend`.
- `expansion.dfy` (`Expansion`): the route expansion and not-found choice of `aio_server`.
- `documentation.dfy` (`Documentation`): the route walk of `documentation`.
- `cli.dfy` (`CliInterface`): `CLIInterfaceAPI`.
- `api.dfy` (`HugApi`): `API` and `ModuleSingleton`.

Modelling choices:

- **Version keys.** A version key is `NoVersion` (Python `None`) or `Num(n)`. As a dictionary or set key, Python's `False` equals `0`, so it is `Num(0)`.
- **The `api_version` argument.** The source tests it with `is False`, which is an identity test. So it has its own type, `VersionRequest = InferFromPath | Explicit(v)`.
- **Sets of versions.** A Python set is a duplicate-free sequence in one fixed iteration order. CPython iterates a set of integers in hash-slot order, which the model does not compute: every operation takes the order it is given. The order is observable. It decides which version path inference matches first, the order of the `/v<n>` registrations, and the order of `documentation['versions']`. So `extend`, which unites two version sets, takes the iteration order of the union as an input, `merged`, constrained only to list exactly the members of both sets (`Model.IsUnionOrder`). Every property of `extend` holds for every such order.
- **Handlers.** A handler is an identity plus its `private` flag. Its owner (`function.interface.api`) lives in a separate map keyed by handler identity. That way, re-binding a handler shared between two route tables is visible through both.
- **Truthiness.** Handlers and other callables are always truthy. So a `.get(x)` truthiness test is the same as a presence test.

Behaviour proved as written:

- **Path inference matches substrings** (`Versioning.InferenceMatchesSubstrings`). With versions 1 and 12 declared in that order, the path `/v12/users` resolves to version 1.
- **The `extend` back-fill can hide a handler from the other API** (`Extension.BackfillCanHideNoneFallback`). Suppose this API's version-2 table lists `K1` and then `K2`, and the other API handles `K1` only through its `None` table.
  - `K1` is skipped, because the `None` table already answers it.
  - `K2` then creates a version-2 table in the other API.
  - That new table hides the `None` fallback, so `K1` under version 2 is no longer handled.
- **The `self.versions != (None,)` test in `aio_server` is always true.** It compares a set with a tuple. The model keeps only its real effect: versioned routes are emitted when the version set is non-empty.
- **An empty version bucket fails the expansion.** If a bucket is empty while a numbered version is declared, `list(...)[0]` raises `IndexError`. The model returns `Failure(EmptyBucket(...))` in that case.

## Model

| member | source | states |
|---|---|---|
| `Model.UnionVersions` | hug/api.py:151 | one duplicate-free listing of `versions.update`'s result: a version is listed iff it is in either set, so (lemma `Model.UnionOrderExists`) every pair of sets has an order meeting `IsUnionOrder`, the precondition of the extend operations; the order it picks (existing versions first) is not CPython's |
| `Versioning.InferVersion` | hug/api.py:262-267 | path inference returns a declared, truthy version whose `v<n>` occurs in the path, or `None` exactly when no declared version is marked in the path |
| `Versioning.InferVersionIsFirst` | hug/api.py:264-267 | the inferred version is the first one in iteration order that marks the path (the loop `break`s) |
| `Versioning.DetermineVersion` | hug/api.py:260-284 | never raises; an explicit `api_version` comes back unchanged; with `False` it returns the inferred version, `None` iff nothing matches |
| `Versioning.InferenceMatchesSubstrings` | hug/api.py:264-267 | with versions [1, 12], `/v12/users` resolves to 1, because `"v1"` is a substring |
| `Versioning.VersionRouter` | hug/api.py:307-314 | version resolution never raises; dispatch goes to `versions[rv]` (or `versions[False]` when `rv` is falsy), else `versions[None]`, else `not_found`; when `not_found` was left at `None` the result is `CallNone`, the call of `None` that raises `TypeError` |
| `Versioning.RouterHonoursExplicitVersion` | hug/api.py:307-314 | an explicit non-zero version held by the bucket dispatches to its own handler |
| `Versioning.RouterFallsBackWithoutPathVersion` | hug/api.py:307-314 | with no version marked in the path, dispatch tries the `0`/`False` entry, then `None`, then `not_found` |
| `Versioning.RouterInvokesOnlyKnownCallables` | hug/api.py:307-314 | the invoked callable is a handler of the bucket or the `not_found` argument; the only other outcome is `CallNone` (calling `None`, which raises `TypeError`), when `not_found` is `None` and the bucket has neither the key nor a `None` entry |
| `Routes.Buckets` | hug/api.py:323-325 | the nested walk over base URL, path and method yields exactly the table's buckets |
| `Routes.BucketsInWalkOrder` | hug/api.py:323-325 | the walk yields buckets in strictly increasing (base URL, path, method) insertion position: base URLs in table order, then paths in that base URL's order, then methods in that path's order; no bucket twice |
| `Routes.BucketKeysDistinct` | hug/api.py:323-325 | the walk never yields two buckets with the same base URL, path and method |
| `HttpInterface.NewHttp` | hug/api.py:86-93 | a new interface has empty versions, routes, sinks and tables, and only the built-in not-found middleware |
| `HttpInterface.OutputFormat` | hug/api.py:95-97 | the instance's formatter when one is set, else the process-wide default |
| `HttpInterface.SetOutputFormat` | hug/api.py:95-101 | after the setter, the output format reads back as the formatter set, whatever the process default is; nothing else changes |
| `HttpInterface.InputFormat` | hug/api.py:108-110 | the instance decoder wins, then the process default; absent iff neither has the content type |
| `HttpInterface.SetInputFormat` | hug/api.py:112-116 | the content type set reads back as the new decoder whatever the defaults are; every other content type reads as before |
| `HttpInterface.AddMiddleware` | hug/api.py:122-127 | the middleware set gains exactly the unit added |
| `HttpInterface.AddStartupHandler` | hug/api.py:405-410 | the handler is appended after the existing ones, duplicates kept |
| `HttpInterface.PutSink` | hug/api.py:131-132 | the sink is stored at `(base, url)`; every other `(base, url)` keeps its sink; existing base URLs keep their order |
| `HttpInterface.AddSink` | hug/api.py:129-132 | the sink is filed under `base_url or self.base_url`; no other sink changes |
| `HttpInterface.ExceptionHandlers` | hug/api.py:134-138 | the table for `v`, else the table for `None`, else nothing (also when no handler was ever added) |
| `HttpInterface.VersionList` | hug/api.py:142 | a scalar `versions` argument stands for the one-element tuple holding it; a tuple or list is used as is |
| `HttpInterface.AddExceptionHandlerTo` | hug/api.py:140-146 | every listed version has a table mapping `kind` to the handler; no other `(version, kind)` entry changes; the versions with a table are the old ones plus the listed ones |
| `HttpInterface.AddToVersions` | hug/api.py:145-146 | each listed version maps `kind` to the handler; every other `(version, kind)` entry is unchanged; the version order is extended |
| `HttpInterface.AddExceptionHandler` | hug/api.py:140-146 | afterwards every listed version has a table mapping `kind` to the handler, and only those entries changed |
| `HttpInterface.ScalarVersionIsOneTuple` | hug/api.py:142 | a scalar `versions` argument acts exactly as the one-element tuple |
| `HttpInterface.LookupAfterAdd` | hug/api.py:134-146 | after an add, a listed version answers with the new handler; an unlisted version answers as before unless it relied on a `None` table that the add changed |
| `HttpInterface.SetNotFoundHandler` | hug/api.py:190-195 | the not-found table maps the version to the handler; other versions are unchanged |
| `HttpInterface.ActiveNotFound` | hug/api.py:103-106 | `not_found` is the installed handler iff one is installed, else `base_404` |
| `Extension.PutAll` | hug/api.py:160 | each path `p` is stored at `route + p`; every other key reads as before; the key order is extended |
| `Extension.MergeRoutes` | hug/api.py:154-160 | only the target base URL changes; it exists afterwards iff it existed or the other API has a base URL |
| `Extension.MergeRoutesContents` | hug/api.py:154-160 | under the target base URL, `route + p` holds the other API's method map for `p` (a later base URL wins); every other key is as before |
| `Extension.MergeRoutesKeepsPathOrder` | hug/api.py:155-160 | paths already under the target base URL keep their order, ahead of the new ones |
| `Extension.MergeRoutesKeepsBaseOrder` | hug/api.py:154-155 | existing base URLs keep their order |
| `Extension.AddSinks` | hug/api.py:163-164 | one base URL's sinks are re-added at `route + url` under the target base URL; nothing else changes |
| `Extension.MergeSinks` | hug/api.py:162-164 | only the target base URL's sinks change |
| `Extension.MergeSinksContents` | hug/api.py:162-164 | under the target base URL, `route + url` holds the other API's sink for `url` (a later base URL wins); every other sink is as before |
| `Extension.MergeSinksCreatesBase` | hug/api.py:162-164 | the target base URL exists afterwards iff it existed or the other API has at least one sink |
| `Extension.BackfillOne` | hug/api.py:174-176 | afterwards `(v, kind)` is handled; the table changes iff it was not handled; the only new entry is `(v, kind)` → handler |
| `Extension.BackfillKinds` | hug/api.py:173-176 | no existing entry changes; new entries lie under `v` and come from this API's table; afterwards each kind has an entry under `v` or under `None` (an entry under `None` need not mean it is handled under `v`, see `Extension.BackfillCanHideNoneFallback`) |
| `Extension.BackfillVersions` | hug/api.py:172-176 | the same, over this API's versions: entries only grow, new ones are copied from this API, and every pair this API handles has an entry in the other API under its version or under `None` |
| `Extension.Answered` | hug/api.py:174-175 | the length of the leading run of kinds that a fallback table already answers: every kind before it is listed there, the kind at it is not |
| `Extension.BackfillKindsExact` | hug/api.py:173-176 | the inner loop for one version, in closed form (`BackfilledAs`): with a table of its own, `v`'s table gains exactly the kinds it lacks, with this API's handlers, and keeps its own; without one, the kinds answered by the fallback up to the first unanswered kind are skipped, and from that kind on every kind lands in a new table for `v`, which exists iff some kind was unanswered; no other version's table changes |
| `Extension.BackfillVersionsExact` | hug/api.py:172-176 | the outer loop, in closed form: each listed version is back-filled as `BackfilledAs` says, against the fallback it meets at that point (none for `None`, the back-filled `None` table when `None` came earlier, else the original `None` table); tables of unlisted versions are unchanged |
| `Extension.Backfill` | hug/api.py:172-176 | the other API's table only grows, gains only this API's entries, and afterwards covers every `(v, kind)` of this API under `v` or `None`; and it equals the reference definition `BackfilledFrom`: the per-version closed form above, with the `None` fallback gating each addition |
| `Extension.BackfillCanHideNoneFallback` | hug/api.py:172-176 | a concrete pair of tables where the back-fill makes a previously handled `(2, K1)` unhandled |
| `Extension.Rebind` | hug/api.py:156-158 | every handler in the other API's routes is owned by this API afterwards; handlers outside those routes keep their owners |
| `Extension.HttpExtend` | hug/api.py:148-184 | the versions become the given iteration order of the union and middleware is unioned; startup handlers are appended in order. Routes and sinks are re-filed under `base_url or self.base_url` as `route + p`; every other base URL is unchanged. Handlers are re-owned. This API's exception table is unchanged while the other's is back-filled exactly as `BackfilledFrom` says. Input formats and not-found handlers only fill missing keys. Nothing else changes |
| `Extension.ExtendFilesEveryPath` | hug/api.py:154-160 | every path of the other API is found at `route + p` under the target base URL |
| `Expansion.CopyEntries` | hug/api.py:332-333 | copying the versions one by one reproduces the bucket's key order and contents |
| `Expansion.Routers` | hug/api.py:329-333 | both branches that build `routers` give exactly the bucket |
| `Expansion.Bound` | hug/api.py:350-362 | a `/v<n>` URI is bound to the bucket's entry for `n` when it has one, else to the bucket's first-inserted entry |
| `Expansion.Numbered` | hug/api.py:347-349 | the declared versions other than `None` |
| `Expansion.NumberedKeepsOrder` | hug/api.py:347-349 | the numbered versions are visited in the declared order: each one's position in the declared listing is below the next one's |
| `Expansion.VersionedRoutes` | hug/api.py:346-365 | one `/v<n>` registration per version in order, bound to the version's own handler or the bucket's first one; fails iff a version is needed from an empty bucket |
| `Expansion.PlainRoute` | hug/api.py:336-338 | at most one plain registration; there is one iff the bucket has a `None` handler, at `base + url` with the bucket's method and bound to that handler |
| `Expansion.ExpandBucket` | hug/api.py:326-365 | one bucket's registrations: the `routers` copy is the bucket itself, so they are the bucket's plain route followed by its versioned routes; the expansion fails iff the versioned routes fail |
| `Expansion.ExpandBucketFails` | hug/api.py:346-362 | a bucket's expansion fails iff it is empty and a numbered version is declared |
| `Expansion.ExpandBucketPlain` | hug/api.py:336-338 | every registration has the bucket's base, path and method; the plain `base + url` URI is registered iff the bucket has a `None` handler, bound to it |
| `Expansion.ExpandBucketVersionedBinding` | hug/api.py:350-365 | each `/v<n>` URI belongs to a declared version and is bound to `bucket[n]` if present, else to the bucket's first-inserted handler |
| `Expansion.ExpandBucketVersionedCoverage` | hug/api.py:346-365 | each declared numbered version gets a `/v<n>` URI, and no URI is registered twice for one bucket |
| `Expansion.ExpandAll` | hug/api.py:323-325 | the registrations are exactly those of the buckets; the walk fails iff some bucket fails |
| `Expansion.ExpandAllRegistersOnce` | hug/api.py:323-357 | when the buckets differ pairwise in (base URL, path, method), no registration is made twice |
| `Expansion.SelectNotFound` | hug/api.py:378-385 | a custom handler is installed iff the not-found table has the single key `None`; otherwise the documentation 404 is installed iff `default_not_found is True`; otherwise nothing |
| `Expansion.AioServer` | hug/api.py:316-386 | the server's registrations are exactly those of the table's buckets, none of them made twice, and its not-found handler is the one selected; it fails iff some bucket fails |
| `Expansion.AioServerFailsOnlyOnEmptyBuckets` | hug/api.py:360-365 | building the server fails iff some bucket is empty and some numbered version is declared |
| `Expansion.RegisteredHandlersComeFromTable` | hug/api.py:336-365 | every registered handler is stored in the table under the same base, path and method |
| `Expansion.VersionedUriAgreesWithRouter` | hug/api.py:350-353 | a `/v<n>` URI for a version the bucket holds is bound to the handler that `version_router` picks for an explicit request of `n` |
| `Expansion.VersionedTextsDiffer` | hug/api.py:352 | different versions give different `/v<n>` URI texts for the same path |
| `Documentation.Listed` | hug/api.py:206-211 | `versions_list` holds exactly the declared versions other than `None` and `False`/`0` |
| `Documentation.ListedKeepsOrder` | hug/api.py:207-211 | `versions_list` keeps the declared order: each version's position in the declared listing is below the next one's |
| `Documentation.MaxVersion` | hug/api.py:213 | `max(versions_list)` is a member, at least every other member |
| `Documentation.EffectiveVersion` | hug/api.py:212-216 | the filter version is the requested one, else the highest listed version, else none |
| `Documentation.EntryVisits` | hug/api.py:229-234 | one visit per applicable version that the `api_version` filter lets through |
| `Documentation.BucketVisits` | hug/api.py:222-234 | the visits of a bucket are exactly its public entries, each for the versions it applies to |
| `Documentation.AllVisits` | hug/api.py:219-234 | the visits of a list of buckets are exactly those of its buckets |
| `Documentation.Document` | hug/api.py:197-237 | the `version` / `versions` header as the source sets it; a handler is visited for version `u` iff it is public, applies to `u`, and passes the filter; the calls come bucket by bucket in the walk's order (`InBucketOrder`) |
| `Documentation.AllVisitsInBucketOrder` | hug/api.py:219-234 | over buckets with distinct (base URL, path, method), no call for a later bucket precedes a call for an earlier one |
| `Documentation.DocumentFollowsInsertionOrder` | hug/api.py:219-222 | when one (base URL, path, method) was inserted before another (by base URL, then path, then method), every call for the first comes before every call for the second |
| `Documentation.PrivateHandlersAreHidden` | hug/api.py:223-224 | no private handler is ever visited |
| `Documentation.DefaultDocumentsLatestVersionOnly` | hug/api.py:212-231 | with no requested version and some non-zero version declared, only the highest version is documented |
| `Documentation.UnversionedHandlersFollowDeclaredVersions` | hug/api.py:225-231 | when the bucket does not also hold that same handler under `u`, an unversioned public handler is visited for `u` iff `u` is declared and passes the filter; an API with no declared versions documents none |
| `CliInterface.NewCli` | hug/api.py:420-422 | a new CLI interface has no commands |
| `CliInterface.Call` | hug/api.py:424-430 | exit status 1 iff `argv` has at most one element or `argv[1]` is unknown; otherwise the command runs, `argv[1]` is removed and the rest is kept in order |
| `CliInterface.CallPopsOnlyTheCommandName` | hug/api.py:429 | putting the popped name back at position 1 restores `argv` |
| `CliInterface.RegisteredCommandRuns` | hug/api.py:424-430 | a registered name in `argv[1]` runs its command |
| `HugApi.NewApi` | hug/api.py:465-466 | a new `API` has no directives and no `http` / `cli` / `context` yet |
| `HugApi.AllDirectives` | hug/api.py:468-471 | every default and own directive is published as `hug_<name>`; an own directive overrides the default; every key carries the prefix |
| `HugApi.DirectiveLookup` | hug/api.py:473-475 | own directive, else process default, else `default` |
| `HugApi.LookupAgreesWithPublished` | hug/api.py:468-475 | a name found by `directive` is the directive `directives()` publishes as `hug_<name>` |
| `HugApi.AddDirective` | hug/api.py:477-479 | the directive is stored under its `__name__`, replacing a same-named one; nothing else changes |
| `HugApi.AddDirectives` | hug/api.py:506-507 | adding several directives stores each name; the stored directive is the name's last occurrence in the list; names not added keep their directives |
| `HugApi.ExtendAddsEachDirective` | hug/api.py:506-507 | the `add_directive` loop over the other API's directives yields this API's table overridden by the other's |
| `HugApi.HttpOf` | hug/api.py:481-485 | `http` returns the existing interface, or a new one it also stores |
| `HugApi.CliOf` | hug/api.py:487-491 | `cli` returns the existing interface, or a new one it also stores |
| `HugApi.ContextOf` | hug/api.py:493-497 | `context` returns the existing dictionary, or a new empty one it also stores |
| `HugApi.AccessorsAreIdempotent` | hug/api.py:481-497 | reading a lazy property a second time returns the same value and changes nothing |
| `HugApi.ApiExtend` | hug/api.py:499-507 | the other API's HTTP interface is merged only if it has one (creating this API's on demand), with the given iteration order of the united version set; the other's directives override this API's same-named ones |
| `HugApi.Singleton` | hug/api.py:440-458 | an `API` is returned as is; a module returns its registered `API`, created and registered on first use; no other entry changes |
| `HugApi.SingletonIsIdempotent` | hug/api.py:440-458 | a second request returns the same result and registers nothing more; a consistent registry stays consistent |
| `HugApi.SingletonSharesInstances` | hug/api.py:440-458 | two requests for one module name get the same `API`, whatever is registered between them |

## Left out

- Sanic app construction, `app.add_route`, `app.run`, `serve`, `server`, `shutdown`, `config` and logging are external-engine and I/O plumbing. The expansion returns its registrations instead. A duplicate URI, which the server might reject, is not modelled. `server` calls `aio_server` with the wrong arity and uses an `asyncio` that is never imported, so it is left out.
- The `documentation_404` response body and the `routesdoc` table feed JSON rendering and commented-out swagger setup, so they are left out. The documentation 404 appears only as the `DocumentationNotFound` choice.
- The module docstring (`overview`) and the content of `handler.documentation(...)` are left out. Each call to it is recorded as a `Visit`; the dictionary it builds is not.
- The contents of `hug.defaults` (output format, input formats, directives) are parameters of the functions that read them.
- `ModuleSingleton` is a get-or-create map keyed by module name. `sys.modules`, `ModuleType`, module objects other than by name, and the `__hug_wsgi__` auto-instantiation closure are not modelled. `from_object` is not modelled either: it only calls `API(obj.__module__)`.
- `HugApi.ApiExtend` takes the other API already resolved by `HugApi.Singleton`. The registry's stored copy of either API is not updated, because the model has value semantics and the source shares objects.
- Extending an API with itself is not modelled. In the source, both sides of `extend` are then one object; in the model they are two values.
- The `/v%s` text of the version `False` is `/vFalse` in the source. `False` and `0` are one key in the model, so it renders as `/v0`.
- The header and query-parameter version sources are commented out in `determine_version`. So the conflicting-versions error can never be raised, and the model proves it is not.
- `int(request_version)` in `version_router` is the identity on the integer versions modelled here. Non-integer versions (such as strings) are not modelled.
- `CLIInterfaceAPI.__str__` is a text rendering, so it is left out.
- Middleware and handler identity hashing is modelled as datatype equality on opaque identities.
- Expansion.AioServer: states which registrations are made and that none is made twice, but not that they are made bucket by bucket in walk order; nothing else in the model depends on the order of registration.
- Documentation.Document: states the order of calls between buckets, but not the order inside one bucket (its version keys in insertion order, an unversioned handler once per declared version); nothing in the model depends on it.
- Model.UnionVersions: lists the union with the existing versions first. CPython's hash-slot iteration order of an integer set is not modelled, so `Extension.HttpExtend` and `HugApi.ApiExtend` take the union's order as the input `merged` instead of using this function's order.
- How routes get into the table (`hug/routing.py`) is not part of this model. Route tables and version sets are arbitrary inputs.
