/**
 * `HTTPInterfaceAPI`: the per-API HTTP registry and its small registration operations.
 * Optional attributes read with `getattr(self, '_x', default)` are fields whose empty value
 * reads exactly like the absent attribute.
 */
module HttpInterface {
  import opened Outcomes
  import opened OrderedMaps
  import opened Model
  import opened Routes

  /** Exception type name -> error handler, in registration order. */
  type HandlerTable = OMap<string, Opaque>

  /** `_exception_handlers`: version -> exception table, in the order versions were first used. */
  type ExceptionTable = OMap<Version, HandlerTable>

  /** `sinks`: base URL -> URL prefix -> sink. */
  type SinkTable = OMap<string, OMap<string, Opaque>>

  /** A middleware unit: the built-in `not_found_middleware` or one an application added. */
  datatype Middleware = NotFoundMiddleware | UserMiddleware(unit: Opaque)

  /** What the `not_found` property returns: the static `base_404` or an installed `_not_found`. */
  datatype NotFoundRef = Base404 | Installed(handler: Opaque)

  datatype Http = Http(
    api: ApiId,                                 // `self.api`
    baseUrl: string,
    versions: VersionSet,
    routes: RouteTable,
    sinks: SinkTable,
    middleware: set<Middleware>,
    startupHandlers: seq<Opaque>,
    exceptionHandlers: ExceptionTable,
    inputFormats: map<string, Opaque>,          // `_input_format`, content type -> decoder
    outputFormat: Option<Opaque>,               // `_output_format`
    notFoundHandlers: map<Version, Opaque>,     // `_not_found_handlers`
    notFound: Option<Opaque>)                   // `_not_found`

  /** `HTTPInterfaceAPI(api, base_url)`: empty tables and the built-in not-found middleware. */
  function NewHttp(api: ApiId, baseUrl: string): (h: Http)
    ensures h.api == api && h.baseUrl == baseUrl
    ensures |h.versions| == 0 && |h.routes.keys| == 0 && |h.sinks.keys| == 0
    ensures h.middleware == {NotFoundMiddleware}
    ensures |h.startupHandlers| == 0 && |h.exceptionHandlers.keys| == 0
    ensures h.inputFormats == map[] && h.outputFormat == None
    ensures h.notFoundHandlers == map[] && h.notFound == None
  {
    Http(api, baseUrl, [], Empty(), Empty(), {NotFoundMiddleware}, [], Empty(), map[], None, map[], None)
  }

  // ---------------------------------------------------------------- formats

  /** The `output_format` property: the instance's formatter, else the process-wide default. */
  function OutputFormat(h: Http, processDefault: Opaque): (r: Opaque)
    ensures h.outputFormat.Some? ==> r == h.outputFormat.value
    ensures h.outputFormat.None? ==> r == processDefault
  {
    h.outputFormat.GetOr(processDefault)
  }

  /** The `output_format` setter: the formatter set is read back whatever the default. */
  function SetOutputFormat(h: Http, formatter: Opaque): (h': Http)
    ensures forall d :: OutputFormat(h', d) == formatter
    ensures h' == h.(outputFormat := h'.outputFormat)
  {
    h.(outputFormat := Some(formatter))
  }

  /** `input_format(content_type)`: the instance's decoder, else the process default, else absent. */
  function InputFormat(h: Http, processDefaults: map<string, Opaque>, contentType: string): (r: Option<Opaque>)
    ensures contentType in h.inputFormats ==> r == Some(h.inputFormats[contentType])
    ensures contentType !in h.inputFormats && contentType in processDefaults ==> r == Some(processDefaults[contentType])
    ensures r.None? <==> contentType !in h.inputFormats && contentType !in processDefaults
  {
    if contentType in h.inputFormats then Some(h.inputFormats[contentType])
    else if contentType in processDefaults then Some(processDefaults[contentType])
    else None
  }

  /** `set_input_format`: overrides one content type, whatever the process default says. */
  function SetInputFormat(h: Http, contentType: string, decoder: Opaque): (h': Http)
    ensures forall defaults :: InputFormat(h', defaults, contentType) == Some(decoder)
    ensures forall defaults, c :: c != contentType ==> InputFormat(h', defaults, c) == InputFormat(h, defaults, c)
    ensures h' == h.(inputFormats := h'.inputFormats)
  {
    h.(inputFormats := h.inputFormats[contentType := decoder])
  }

  // ---------------------------------------------------------------- middleware, startup, sinks

  /** `add_middleware`: set insertion. */
  function AddMiddleware(h: Http, unit: Middleware): (h': Http)
    ensures unit in h'.middleware && h.middleware <= h'.middleware
    ensures forall u :: u in h'.middleware && u != unit ==> u in h.middleware
    ensures h' == h.(middleware := h'.middleware)
  {
    h.(middleware := h.middleware + {unit})
  }

  /** `add_startup_handler`: appends, keeping duplicates. */
  function AddStartupHandler(h: Http, handler: Opaque): (h': Http)
    ensures |h'.startupHandlers| == |h.startupHandlers| + 1
    ensures h'.startupHandlers[..|h.startupHandlers|] == h.startupHandlers
    ensures h'.startupHandlers[|h.startupHandlers|] == handler
    ensures h' == h.(startupHandlers := h'.startupHandlers)
  {
    h.(startupHandlers := h.startupHandlers + [handler])
  }

  /** `sinks[base][url]`, if registered. */
  function SinkAt(t: SinkTable, base: string, url: string): Option<Opaque> {
    Get(GetOrEmpty(t, base), url)
  }

  /** Stores a sink at `(base, url)`, creating the base URL's table on first use. */
  function PutSink(t: SinkTable, base: string, url: string, sink: Opaque): (t': SinkTable)
    ensures SinkAt(t', base, url) == Some(sink)
    ensures forall b', u :: (b', u) != (base, url) ==> SinkAt(t', b', u) == SinkAt(t, b', u)
    ensures forall b' :: b' in t'.vals <==> b' in t.vals || b' == base
    ensures KeysExtend(t, t')
  {
    var withBase := SetDefault(t, base, Empty());
    var t' := Put(withBase, base, Put(withBase.vals[base], url, sink));
    KeysExtendTransitive(t, withBase, t');
    t'
  }

  /** The base URL an operation given `base_url` files under: `base_url or self.base_url`. */
  function TargetBase(h: Http, baseUrl: string): string {
    if baseUrl == "" then h.baseUrl else baseUrl
  }

  /** `add_sink(sink, url, base_url)`: files the sink under `base_url or self.base_url`. */
  function AddSink(h: Http, sink: Opaque, url: string, baseUrl: string): (h': Http)
    ensures baseUrl == "" ==> SinkAt(h'.sinks, h.baseUrl, url) == Some(sink)
    ensures baseUrl != "" ==> SinkAt(h'.sinks, baseUrl, url) == Some(sink)
    ensures forall b', u :: (b', u) != (TargetBase(h, baseUrl), url) ==> SinkAt(h'.sinks, b', u) == SinkAt(h.sinks, b', u)
    ensures h' == h.(sinks := h'.sinks)
  {
    h.(sinks := PutSink(h.sinks, TargetBase(h, baseUrl), url, sink))
  }

  // ---------------------------------------------------------------- exception handlers

  /** `_exception_handlers[v][kind]`, if registered. */
  function Entry(t: ExceptionTable, v: Version, kind: string): Option<Opaque> {
    if v in t.vals then Get(t.vals[v], kind) else None
  }

  /**
   * `exception_handlers(version)`: the table for `version`, else the table for `None`, else
   * nothing (also when no handler was ever added).
   */
  function ExceptionHandlers(t: ExceptionTable, v: Version): (r: Option<HandlerTable>)
    ensures v in t.vals ==> r == Some(t.vals[v])
    ensures v !in t.vals && NoVersion in t.vals ==> r == Some(t.vals[NoVersion])
    ensures r.None? <==> v !in t.vals && NoVersion !in t.vals
  {
    if v in t.vals then Some(t.vals[v])
    else if NoVersion in t.vals then Some(t.vals[NoVersion])
    else None
  }

  /** A `kind` error under version `v` has a handler in the table `exception_handlers` returns for `v`. */
  predicate Handles(t: ExceptionTable, v: Version, kind: string) {
    var table := ExceptionHandlers(t, v);
    table.Some? && kind in table.value.vals
  }

  /** The `versions` argument of `add_exception_handler`: a scalar or a tuple/list. */
  datatype VersionsArg = Single(version: Version) | Several(versions: seq<Version>)

  /** The versions an add applies to: a scalar stands for the one-element tuple holding it. */
  function VersionList(arg: VersionsArg): (r: seq<Version>)
    ensures arg.Single? ==> |r| == 1 && r[0] == arg.version
    ensures arg.Several? ==> r == arg.versions
  {
    match arg
    case Single(v) => [v]
    case Several(vs) => vs
  }

  /** Maps `kind` to `handler` in version `v`'s table, creating that table on first use. */
  function AddOne(t: ExceptionTable, v: Version, kind: string, handler: Opaque): (r: ExceptionTable)
    ensures forall u, k :: Entry(r, u, k) == if u == v && k == kind then Some(handler) else Entry(t, u, k)
    ensures forall u :: u in r.vals <==> u in t.vals || u == v
    ensures forall u :: u != v && u in t.vals ==> r.vals[u] == t.vals[u]
    ensures KeysExtend(t, r)
  {
    var withV := SetDefault(t, v, Empty());
    var r := Put(withV, v, Put(withV.vals[v], kind, handler));
    AddOneEntries(t, v, kind, handler, withV, r);
    r
  }

  /** The entries after one assignment, one version and kind at a time. */
  lemma AddOneEntries(t: ExceptionTable, v: Version, kind: string, handler: Opaque, withV: ExceptionTable, r: ExceptionTable)
    requires withV == SetDefault(t, v, Empty())
    requires r == Put(withV, v, Put(withV.vals[v], kind, handler))
    ensures forall u, k :: Entry(r, u, k) == if u == v && k == kind then Some(handler) else Entry(t, u, k)
  {
    forall u, k ensures Entry(r, u, k) == if u == v && k == kind then Some(handler) else Entry(t, u, k) {
      if u != v {
        assert Get(r, u) == Get(withV, u) == Get(t, u);
      }
    }
  }

  /** The same assignment for each listed `v`, in order. */
  function AddToVersions(t: ExceptionTable, kind: string, handler: Opaque, vs: seq<Version>): (r: ExceptionTable)
    ensures forall v, k :: Entry(r, v, k) == if v in vs && k == kind then Some(handler) else Entry(t, v, k)
    ensures forall v :: v in r.vals <==> v in t.vals || v in vs
    ensures forall v :: v in t.vals && v !in vs ==> r.vals[v] == t.vals[v]
    ensures KeysExtend(t, r)
    decreases |vs|
  {
    if |vs| == 0 then t
    else
      var t' := AddOne(t, vs[0], kind, handler);
      var r := AddToVersions(t', kind, handler, vs[1..]);
      assert forall u :: u in vs <==> u == vs[0] || u in vs[1..];
      KeysExtendTransitive(t, t', r);
      r
  }

  /**
   * `add_exception_handler(kind, handler, versions)` on the table: every listed version gets a
   * table that maps `kind` to `handler`; no other entry changes.
   */
  function AddExceptionHandlerTo(t: ExceptionTable, kind: string, handler: Opaque, versions: VersionsArg): (r: ExceptionTable)
    ensures forall v :: v in VersionList(versions) ==> v in r.vals && Entry(r, v, kind) == Some(handler)
    ensures forall v, k :: (v !in VersionList(versions) || k != kind) ==> Entry(r, v, k) == Entry(t, v, k)
    ensures forall v :: v in r.vals <==> v in t.vals || v in VersionList(versions)
  {
    AddToVersions(t, kind, handler, VersionList(versions))
  }

  /**
   * `add_exception_handler`: afterwards a `kind` error under every listed version goes to
   * `handler`; only the listed `(version, kind)` entries change.
   */
  function AddExceptionHandler(h: Http, kind: string, handler: Opaque, versions: VersionsArg): (h': Http)
    ensures forall v :: v in VersionList(versions) ==>
      v in h'.exceptionHandlers.vals && Entry(h'.exceptionHandlers, v, kind) == Some(handler)
    ensures forall v, k :: (v !in VersionList(versions) || k != kind) ==>
      Entry(h'.exceptionHandlers, v, k) == Entry(h.exceptionHandlers, v, k)
    ensures h' == h.(exceptionHandlers := h'.exceptionHandlers)
  {
    h.(exceptionHandlers := AddExceptionHandlerTo(h.exceptionHandlers, kind, handler, versions))
  }

  /** A scalar `versions` argument behaves exactly as the one-element tuple holding it. */
  lemma ScalarVersionIsOneTuple(t: ExceptionTable, kind: string, handler: Opaque, v: Version)
    ensures AddExceptionHandlerTo(t, kind, handler, Single(v)) == AddExceptionHandlerTo(t, kind, handler, Several([v]))
  {
  }

  /**
   * Lookup after an add: a listed version answers with the new handler; an unlisted version
   * that has its own table answers as before; an unlisted version without its own table falls
   * back to the `None` table, which the add changed only if `None` was listed.
   */
  lemma {:induction false} LookupAfterAdd(t: ExceptionTable, kind: string, handler: Opaque, versions: VersionsArg, v: Version, k: string)
    ensures var t' := AddExceptionHandlerTo(t, kind, handler, versions);
            && (v in VersionList(versions) && k == kind ==> Handles(t', v, k) && Get(ExceptionHandlers(t', v).value, k) == Some(handler))
            && (v in t.vals && v !in VersionList(versions) ==> ExceptionHandlers(t', v) == ExceptionHandlers(t, v))
            && (v !in t.vals && v !in VersionList(versions) && NoVersion !in VersionList(versions) ==>
                  ExceptionHandlers(t', v) == ExceptionHandlers(t, v))
  {
    var t' := AddExceptionHandlerTo(t, kind, handler, versions);
    if v in VersionList(versions) && k == kind {
      assert Entry(t', v, k) == Some(handler);
    }
  }

  // ---------------------------------------------------------------- not-found handling

  /** `set_not_found_handler(handler, version)`. */
  function SetNotFoundHandler(h: Http, handler: Opaque, v: Version): (h': Http)
    ensures v in h'.notFoundHandlers && h'.notFoundHandlers[v] == handler
    ensures forall u :: u != v ==> (u in h'.notFoundHandlers <==> u in h.notFoundHandlers)
    ensures forall u :: u != v && u in h.notFoundHandlers ==> h'.notFoundHandlers[u] == h.notFoundHandlers[u]
    ensures h' == h.(notFoundHandlers := h'.notFoundHandlers)
  {
    h.(notFoundHandlers := h.notFoundHandlers[v := handler])
  }

  /** The `not_found` property: an installed `_not_found`, else `base_404`. */
  function ActiveNotFound(h: Http): (r: NotFoundRef)
    ensures r.Installed? <==> h.notFound.Some?
    ensures r.Installed? ==> r.handler == h.notFound.value
  {
    match h.notFound
    case Some(f) => Installed(f)
    case None => Base404
  }
}
