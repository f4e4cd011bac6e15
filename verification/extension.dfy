/**
 * `HTTPInterfaceAPI.extend(http_api, route, base_url)`: merges another API's HTTP registry
 * into this one. Routes and sinks are re-filed under `base_url or self.base_url`; versions and
 * middleware are unioned; startup handlers appended; exception handlers are back-filled from
 * this API into the OTHER one; input formats and not-found handlers only fill missing keys.
 */
module Extension {
  import opened Outcomes
  import opened OrderedMaps
  import opened Model
  import opened Routes
  import opened HttpInterface

  // ---------------------------------------------------------------- re-filing under a prefix

  /** `route + p` splits back into `route` and `p`, and every key starting with `route` is such a sum. */
  lemma RouteConcat(route: string)
    ensures forall p :: route <= route + p && (route + p)[|route|..] == p
    ensures forall k :: route <= k ==> route + k[|route|..] == k
  {
    forall p
      ensures route <= route + p && (route + p)[|route|..] == p
    {
      assert (route + p)[..|route|] == route;
    }
    forall k | route <= k
      ensures route + k[|route|..] == k
    {
      assert k == k[..|route|] + k[|route|..];
    }
  }

  /**
   * The reference definition of a re-filed dictionary: key `k` holds `incoming[p]` when
   * `k == route + p` for a path `p` of `incoming`, and what it held `before` otherwise.
   */
  function Transferred<X>(route: string, incoming: map<string, X>, before: OMap<string, X>, k: string): Option<X> {
    if route <= k && k[|route|..] in incoming then Some(incoming[k[|route|..]]) else Get(before, k)
  }

  /** The paths of all base URLs in `bases`, a later base overriding an earlier one on a shared path. */
  function Overlay<X>(src: OMap<string, OMap<string, X>>, bases: seq<string>): (r: map<string, X>)
    requires forall b :: b in bases ==> b in src.vals
    ensures forall p :: p in r <==> exists b :: b in bases && p in src.vals[b].vals
    decreases |bases|
  {
    if |bases| == 0 then map[]
    else
      var rest := Overlay(src, bases[1..]);
      assert forall b :: b in bases <==> b == bases[0] || b in bases[1..];
      src.vals[bases[0]].vals + rest
  }

  /** Files each path `p` of `paths`, in order, under `route + p` with the value `src` has for `p`. */
  function PutAll<X>(dst: OMap<string, X>, route: string, src: OMap<string, X>, paths: seq<string>): (r: OMap<string, X>)
    requires forall p :: p in paths ==> p in src.vals
    ensures forall k :: Get(r, k) == if route <= k && k[|route|..] in paths then Some(src.vals[k[|route|..]]) else Get(dst, k)
    ensures KeysExtend(dst, r)
    decreases |paths|
  {
    if |paths| == 0 then dst
    else
      var p := paths[0];
      var d' := Put(dst, route + p, src.vals[p]);
      var r := PutAll(d', route, src, paths[1..]);
      RouteConcat(route);
      assert forall q :: q in paths <==> q == p || q in paths[1..];
      KeysExtendTransitive(dst, d', r);
      r
  }

  /**
   * The route loop of `extend`, over the other API's base URLs `bases`: for each of them the
   * target base URL `b` is created if missing, and every path `p` of that base URL is stored
   * under `b` at `route + p`. The other API's own base URLs are not kept.
   */
  function MergeRoutes(dst: RouteTable, b: string, route: string, src: RouteTable, bases: seq<string>): (r: RouteTable)
    requires forall x :: x in bases ==> x in src.vals
    ensures forall x :: x != b ==> Get(r, x) == Get(dst, x)
    ensures b in r.vals <==> b in dst.vals || |bases| > 0
    decreases |bases|
  {
    if |bases| == 0 then dst
    else
      var withB := SetDefault(dst, b, Empty());
      var paths := src.vals[bases[0]];
      MergeRoutes(Put(withB, b, PutAll(withB.vals[b], route, paths, paths.keys)), b, route, src, bases[1..])
  }

  /** Re-filing all paths of `src` is the reference re-filing with `src` as the incoming paths. */
  lemma PutAllTransfers<X>(dst: OMap<string, X>, route: string, src: OMap<string, X>)
    ensures forall k :: Get(PutAll(dst, route, src, src.keys), k) == Transferred(route, src.vals, dst, k)
  {
  }

  /** Two re-filings in a row are one re-filing with the second batch laid over the first. */
  lemma TransferCompose<X>(route: string, first: map<string, X>, second: map<string, X>,
                           before: OMap<string, X>, mid: OMap<string, X>, after: OMap<string, X>)
    requires forall k :: Get(mid, k) == Transferred(route, first, before, k)
    requires forall k :: Get(after, k) == Transferred(route, second, mid, k)
    ensures forall k :: Get(after, k) == Transferred(route, first + second, before, k)
  {
  }

  /** After the route loop, base URL `B`'s path map is its old one with the re-filed paths laid over it. */
  lemma {:induction false} MergeRoutesContents(dst: RouteTable, b: string, route: string, src: RouteTable, bases: seq<string>)
    requires forall x :: x in bases ==> x in src.vals
    ensures forall k :: Get(GetOrEmpty(MergeRoutes(dst, b, route, src, bases), b), k)
                        == Transferred(route, Overlay(src, bases), GetOrEmpty(dst, b), k)
    decreases |bases|
  {
    if |bases| > 0 {
      var withB := SetDefault(dst, b, Empty());
      var paths := src.vals[bases[0]];
      var merged := PutAll(withB.vals[b], route, paths, paths.keys);
      var dst' := Put(withB, b, merged);
      MergeRoutesContents(dst', b, route, src, bases[1..]);
      assert GetOrEmpty(dst', b) == merged;
      PutAllTransfers(withB.vals[b], route, paths);
      assert forall k :: Get(withB.vals[b], k) == Get(GetOrEmpty(dst, b), k);
      TransferCompose(route, paths.vals, Overlay(src, bases[1..]), GetOrEmpty(dst, b), merged,
                      GetOrEmpty(MergeRoutes(dst', b, route, src, bases[1..]), b));
    }
  }

  /** The route loop keeps the order of existing paths under `B`, and appends new ones after them. */
  lemma {:induction false} MergeRoutesKeepsPathOrder(dst: RouteTable, b: string, route: string, src: RouteTable, bases: seq<string>)
    requires forall x :: x in bases ==> x in src.vals
    ensures KeysExtend(GetOrEmpty(dst, b), GetOrEmpty(MergeRoutes(dst, b, route, src, bases), b))
    decreases |bases|
  {
    if |bases| > 0 {
      var withB := SetDefault(dst, b, Empty());
      var paths := src.vals[bases[0]];
      var merged := PutAll(withB.vals[b], route, paths, paths.keys);
      var dst' := Put(withB, b, merged);
      MergeRoutesKeepsPathOrder(dst', b, route, src, bases[1..]);
      assert GetOrEmpty(dst', b) == merged;
      assert KeysExtend(GetOrEmpty(dst, b), withB.vals[b]);
      KeysExtendTransitive(GetOrEmpty(dst, b), withB.vals[b], merged);
      KeysExtendTransitive(GetOrEmpty(dst, b), merged, GetOrEmpty(MergeRoutes(dst', b, route, src, bases[1..]), b));
    }
  }

  /** The route loop keeps the order of the existing base URLs. */
  lemma {:induction false} MergeRoutesKeepsBaseOrder(dst: RouteTable, b: string, route: string, src: RouteTable, bases: seq<string>)
    requires forall x :: x in bases ==> x in src.vals
    ensures KeysExtend(dst, MergeRoutes(dst, b, route, src, bases))
    decreases |bases|
  {
    if |bases| > 0 {
      var withB := SetDefault(dst, b, Empty());
      var paths := src.vals[bases[0]];
      var dst' := Put(withB, b, PutAll(withB.vals[b], route, paths, paths.keys));
      MergeRoutesKeepsBaseOrder(dst', b, route, src, bases[1..]);
      KeysExtendTransitive(dst, withB, dst');
      KeysExtendTransitive(dst, dst', MergeRoutes(dst', b, route, src, bases[1..]));
    }
  }

  /** The inner sink loop of `extend`: each sink path `url` is added again under `route + url` at base URL `B`. */
  function AddSinks(t: SinkTable, b: string, route: string, src: OMap<string, Opaque>, urls: seq<string>): (t': SinkTable)
    requires forall u :: u in urls ==> u in src.vals
    ensures forall x, k :: x != b ==> SinkAt(t', x, k) == SinkAt(t, x, k)
    ensures forall x :: x in t'.vals <==> x in t.vals || (x == b && |urls| > 0)
    ensures forall k :: SinkAt(t', b, k) ==
              if route <= k && k[|route|..] in urls then Some(src.vals[k[|route|..]]) else SinkAt(t, b, k)
    decreases |urls|
  {
    if |urls| == 0 then t
    else
      var u := urls[0];
      var t1 := PutSink(t, b, route + u, src.vals[u]);
      RouteConcat(route);
      assert forall q :: q in urls <==> q == u || q in urls[1..];
      AddSinks(t1, b, route, src, urls[1..])
  }

  /** The sink loop of `extend`, over the other API's base URLs `bases`. */
  function MergeSinks(t: SinkTable, b: string, route: string, src: SinkTable, bases: seq<string>): (t': SinkTable)
    requires forall x :: x in bases ==> x in src.vals
    ensures forall x, k :: x != b ==> SinkAt(t', x, k) == SinkAt(t, x, k)
    ensures forall x :: x != b ==> (x in t'.vals <==> x in t.vals)
    decreases |bases|
  {
    if |bases| == 0 then t
    else
      var urls := src.vals[bases[0]];
      MergeSinks(AddSinks(t, b, route, urls, urls.keys), b, route, src, bases[1..])
  }

  /** Re-filing all sinks of one base is the reference re-filing with those sinks as the incoming paths. */
  lemma AddSinksTransfers(t: SinkTable, b: string, route: string, src: OMap<string, Opaque>)
    ensures forall k :: Get(GetOrEmpty(AddSinks(t, b, route, src, src.keys), b), k) == Transferred(route, src.vals, GetOrEmpty(t, b), k)
  {
    var t1 := AddSinks(t, b, route, src, src.keys);
    forall k
      ensures Get(GetOrEmpty(t1, b), k) == Transferred(route, src.vals, GetOrEmpty(t, b), k)
    {
      assert SinkAt(t1, b, k) == Get(GetOrEmpty(t1, b), k);
    }
  }

  /** After the sink loop, base URL `B`'s sinks are its old ones with the re-filed sinks laid over them. */
  lemma {:induction false} MergeSinksContents(t: SinkTable, b: string, route: string, src: SinkTable, bases: seq<string>)
    requires forall x :: x in bases ==> x in src.vals
    ensures forall k :: SinkAt(MergeSinks(t, b, route, src, bases), b, k)
                        == Transferred(route, Overlay(src, bases), GetOrEmpty(t, b), k)
    decreases |bases|
  {
    if |bases| > 0 {
      var urls := src.vals[bases[0]];
      var t1 := AddSinks(t, b, route, urls, urls.keys);
      var r := MergeSinks(t1, b, route, src, bases[1..]);
      MergeSinksContents(t1, b, route, src, bases[1..]);
      assert Overlay(src, bases) == urls.vals + Overlay(src, bases[1..]);
      AddSinksTransfers(t, b, route, urls);
      assert forall k :: Get(GetOrEmpty(r, b), k) == SinkAt(r, b, k);
      TransferCompose(route, urls.vals, Overlay(src, bases[1..]), GetOrEmpty(t, b), GetOrEmpty(t1, b), GetOrEmpty(r, b));
    }
  }

  /** Some base URL among `bases` holds at least one sink. */
  ghost predicate AnySinks(src: SinkTable, bases: seq<string>) {
    exists i :: 0 <= i < |bases| && bases[i] in src.vals && |src.vals[bases[i]].keys| > 0
  }

  /** Splitting off the first base URL. */
  lemma AnySinksSplit(src: SinkTable, bases: seq<string>)
    requires |bases| > 0 && bases[0] in src.vals
    ensures AnySinks(src, bases) <==> |src.vals[bases[0]].keys| > 0 || AnySinks(src, bases[1..])
  {
    var tail := bases[1..];
    if AnySinks(src, tail) {
      var i :| 0 <= i < |tail| && tail[i] in src.vals && |src.vals[tail[i]].keys| > 0;
      assert bases[i + 1] == tail[i];
    }
    if AnySinks(src, bases) {
      var i :| 0 <= i < |bases| && bases[i] in src.vals && |src.vals[bases[i]].keys| > 0;
      if i > 0 {
        assert tail[i - 1] == bases[i];
      }
    }
  }

  /** Base URL `B` has a sink table after the sink loop exactly when it had one before or some sink was re-filed. */
  lemma {:induction false} MergeSinksCreatesBase(t: SinkTable, b: string, route: string, src: SinkTable, bases: seq<string>)
    requires forall x :: x in bases ==> x in src.vals
    ensures b in MergeSinks(t, b, route, src, bases).vals <==> b in t.vals || AnySinks(src, bases)
    decreases |bases|
  {
    if |bases| > 0 {
      var urls := src.vals[bases[0]];
      var t1 := AddSinks(t, b, route, urls, urls.keys);
      MergeSinksCreatesBase(t1, b, route, src, bases[1..]);
      AnySinksSplit(src, bases);
    }
  }

  // ---------------------------------------------------------------- exception back-fill

  /** Every entry of `t` is still in `t'`, unchanged. */
  ghost predicate Grows(t: ExceptionTable, t': ExceptionTable) {
    forall v, k :: Entry(t, v, k).Some? ==> Entry(t', v, k) == Entry(t, v, k)
  }

  /** A handled `(v, kind)` has an entry under `v` itself or under `None`. */
  lemma HandledHasEntry(t: ExceptionTable, v: Version, kind: string)
    requires Handles(t, v, kind)
    ensures Entry(t, v, kind).Some? || Entry(t, NoVersion, kind).Some?
  {
  }

  /**
   * One step of the back-fill: when the other API does not already handle `kind` under
   * version `v` (directly or through its `None` table), `handler` is added for `v` alone.
   */
  function BackfillOne(theirs: ExceptionTable, v: Version, kind: string, handler: Opaque): (r: ExceptionTable)
    ensures Handles(r, v, kind)
    ensures r == theirs <==> Handles(theirs, v, kind)
    ensures Grows(theirs, r)
    ensures forall u, k :: Entry(r, u, k) != Entry(theirs, u, k) ==> u == v && k == kind && Entry(r, u, k) == Some(handler)
  {
    if Handles(theirs, v, kind) then theirs
    else
      SingleAddIsAddOne(theirs, kind, handler, v);
      var r := AddExceptionHandlerTo(theirs, kind, handler, Single(v));
      assert Entry(r, v, kind) == Some(handler) && Entry(theirs, v, kind) == None;
      r
  }

  /** The inner back-fill loop: the kinds `kinds` of this API's table `table` for version `v`. */
  function BackfillKinds(theirs: ExceptionTable, v: Version, table: HandlerTable, kinds: seq<string>): (r: ExceptionTable)
    requires forall k :: k in kinds ==> k in table.vals
    ensures Grows(theirs, r)
    ensures forall u, k :: Entry(r, u, k).Some? && Entry(theirs, u, k).None? ==>
              u == v && k in kinds && Entry(r, u, k) == Some(table.vals[k])
    ensures forall k :: k in kinds ==> Entry(r, v, k).Some? || Entry(r, NoVersion, k).Some?
    decreases |kinds|
  {
    if |kinds| == 0 then theirs
    else
      var k0 := kinds[0];
      var t1 := BackfillOne(theirs, v, k0, table.vals[k0]);
      HandledHasEntry(t1, v, k0);
      assert forall k :: k in kinds <==> k == k0 || k in kinds[1..];
      BackfillKinds(t1, v, table, kinds[1..])
  }

  /** The outer back-fill loop over this API's versions `vs`, in the table's order. */
  function BackfillVersions(theirs: ExceptionTable, mine: ExceptionTable, vs: seq<Version>): (r: ExceptionTable)
    requires forall v :: v in vs ==> v in mine.vals
    ensures Grows(theirs, r)
    ensures forall u, k :: Entry(r, u, k).Some? && Entry(theirs, u, k).None? ==> u in vs && Entry(r, u, k) == Entry(mine, u, k)
    ensures forall u, k :: u in vs && Entry(mine, u, k).Some? ==> Entry(r, u, k).Some? || Entry(r, NoVersion, k).Some?
    decreases |vs|
  {
    if |vs| == 0 then theirs
    else
      var v := vs[0];
      var table := mine.vals[v];
      var t1 := BackfillKinds(theirs, v, table, table.keys);
      assert forall u :: u in vs <==> u == v || u in vs[1..];
      BackfillVersions(t1, mine, vs[1..])
  }

  /** The other API's table for version `v`, if it has one. */
  function TableOf(t: ExceptionTable, v: Version): Option<HandlerTable> {
    if v in t.vals then Some(t.vals[v]) else None
  }

  /** The table a lookup for `v` falls back to when `v` has none: the `None` table, for `v != None`. */
  function FallbackOf(t: ExceptionTable, v: Version): Option<HandlerTable> {
    if v == NoVersion then None else TableOf(t, NoVersion)
  }

  /** `kind` is a key of the optional table. */
  predicate Lists(table: Option<HandlerTable>, kind: string) {
    table.Some? && kind in table.value.vals
  }

  /** How many of `kinds`, from the front, the table `fallback` answers. */
  function Answered(fallback: Option<HandlerTable>, kinds: seq<string>): (i: nat)
    ensures i <= |kinds|
    ensures forall j :: 0 <= j < i ==> Lists(fallback, kinds[j])
    ensures i < |kinds| ==> !Lists(fallback, kinds[i])
    decreases |kinds|
  {
    if |kinds| == 0 || !Lists(fallback, kinds[0]) then 0
    else
      var i := Answered(fallback, kinds[1..]);
      assert forall j :: 0 < j <= i ==> kinds[j] == kinds[1..][j - 1];
      1 + i
  }

  /**
   * The reference definition of the back-fill of one version. `own` is the other API's table for
   * the version when the loop reaches it, `fallback` the table its lookup then falls back to,
   * `after` its table once the version is done, and `kinds` this API's kinds for the version, in
   * order, with their handlers in `source`. With a table of its own the version gains exactly the
   * kinds it lacks. Without one, the kinds the fallback answers are skipped up to the first it
   * does not answer; that kind creates the table, which from then on hides the fallback, so it
   * and every later kind are added, and nothing else is.
   */
  ghost predicate BackfilledAs(own: Option<HandlerTable>, fallback: Option<HandlerTable>, after: Option<HandlerTable>,
                               source: HandlerTable, kinds: seq<string>)
    requires forall k :: k in kinds ==> k in source.vals
  {
    if own.Some? then
      && after.Some?
      && (forall k :: k in after.value.vals <==> k in own.value.vals || k in kinds)
      && (forall k :: k in after.value.vals ==>
            after.value.vals[k] == if k in own.value.vals then own.value.vals[k] else source.vals[k])
    else
      var i := Answered(fallback, kinds);
      && (after.Some? <==> i < |kinds|)
      && (after.Some? ==>
            && (forall k :: k in after.value.vals <==> k in kinds[i..])
            && (forall k :: k in after.value.vals ==> after.value.vals[k] == source.vals[k]))
  }

  /** The lookup `Handles` reads only the version's own table, or else its fallback. */
  lemma HandlesThroughTables(t: ExceptionTable, v: Version, kind: string)
    ensures Handles(t, v, kind) <==>
              if TableOf(t, v).Some? then Lists(TableOf(t, v), kind) else Lists(FallbackOf(t, v), kind)
  {
  }

  /** No version other than `v` has a different table in `r` than in `t`. */
  ghost predicate OthersKept(r: ExceptionTable, t: ExceptionTable, v: Version) {
    forall u :: u != v ==> TableOf(r, u) == TableOf(t, u)
  }

  /** `after` is the table `before` (none: empty) with `kind` mapped to `handler` when it was missing. */
  ghost predicate AddedIfMissing(after: Option<HandlerTable>, before: Option<HandlerTable>, kind: string, handler: Opaque) {
    && after.Some?
    && (forall k :: k in after.value.vals <==> Lists(before, k) || k == kind)
    && (forall k :: k in after.value.vals ==>
          after.value.vals[k] == if Lists(before, k) then before.value.vals[k] else handler)
  }

  /** The inner loop, in closed form: version `v` is back-filled as `BackfilledAs` says; no other version changes. */
  lemma {:induction false} BackfillKindsExact(t: ExceptionTable, v: Version, table: HandlerTable, kinds: seq<string>)
    requires Distinct(kinds) && forall k :: k in kinds ==> k in table.vals
    ensures var r := BackfillKinds(t, v, table, kinds);
            && OthersKept(r, t, v)
            && BackfilledAs(TableOf(t, v), FallbackOf(t, v), TableOf(r, v), table, kinds)
    decreases |kinds|
  {
    if |kinds| > 0 {
      var k0 := kinds[0];
      var ks := kinds[1..];
      DistinctTail(kinds);
      assert k0 !in ks by {
        forall j | 0 <= j < |ks| ensures ks[j] != k0 {
          assert ks[j] == kinds[j + 1];
        }
      }
      var t1 := BackfillOne(t, v, k0, table.vals[k0]);
      var r := BackfillKinds(t1, v, table, ks);
      assert r == BackfillKinds(t, v, table, kinds);
      BackfillKindsExact(t1, v, table, ks);
      HandlesThroughTables(t, v, k0);
      if TableOf(t, v).Some? {
        BackfillOneInOwnTable(t, v, k0, table.vals[k0]);
        ComposeOwn(TableOf(t, v), TableOf(t1, v), TableOf(r, v), FallbackOf(t, v), FallbackOf(t1, v), table, kinds);
      } else if Handles(t, v, k0) {
        assert t1 == t;
        ComposeSkip(FallbackOf(t, v), TableOf(r, v), table, kinds);
      } else {
        BackfillOneCreatesTable(t, v, k0, table.vals[k0]);
        ComposeCreate(TableOf(t1, v), TableOf(r, v), FallbackOf(t, v), FallbackOf(t1, v), table, kinds);
      }
    }
  }

  /** With a table of its own: adding the first kind if missing, then the rest, adds every missing kind. */
  lemma ComposeOwn(own: Option<HandlerTable>, mid: Option<HandlerTable>, after: Option<HandlerTable>,
                   fallback: Option<HandlerTable>, fallback': Option<HandlerTable>, source: HandlerTable, kinds: seq<string>)
    requires |kinds| > 0 && kinds[0] !in kinds[1..] && forall k :: k in kinds ==> k in source.vals
    requires own.Some? && AddedIfMissing(mid, own, kinds[0], source.vals[kinds[0]])
    requires BackfilledAs(mid, fallback', after, source, kinds[1..])
    ensures BackfilledAs(own, fallback, after, source, kinds)
  {
    assert forall k :: k in kinds <==> k == kinds[0] || k in kinds[1..];
  }

  /** Without a table: a first kind the fallback answers is skipped. */
  lemma ComposeSkip(fallback: Option<HandlerTable>, after: Option<HandlerTable>, source: HandlerTable, kinds: seq<string>)
    requires |kinds| > 0 && forall k :: k in kinds ==> k in source.vals
    requires Lists(fallback, kinds[0])
    requires BackfilledAs(None, fallback, after, source, kinds[1..])
    ensures BackfilledAs(None, fallback, after, source, kinds)
  {
    assert kinds[Answered(fallback, kinds)..] == kinds[1..][Answered(fallback, kinds[1..])..];
  }

  /** Without a table: a first kind the fallback does not answer creates the table, and every kind is added. */
  lemma ComposeCreate(mid: Option<HandlerTable>, after: Option<HandlerTable>,
                      fallback: Option<HandlerTable>, fallback': Option<HandlerTable>, source: HandlerTable, kinds: seq<string>)
    requires |kinds| > 0 && kinds[0] !in kinds[1..] && forall k :: k in kinds ==> k in source.vals
    requires !Lists(fallback, kinds[0]) && AddedIfMissing(mid, None, kinds[0], source.vals[kinds[0]])
    requires BackfilledAs(mid, fallback', after, source, kinds[1..])
    ensures BackfilledAs(None, fallback, after, source, kinds)
  {
    assert Answered(fallback, kinds) == 0;
    assert forall k :: k in kinds <==> k == kinds[0] || k in kinds[1..];
  }

  /** One step with a table of its own: the table gains `kind` unless it has it; no other version changes. */
  lemma BackfillOneInOwnTable(t: ExceptionTable, v: Version, kind: string, handler: Opaque)
    requires v in t.vals
    ensures var r := BackfillOne(t, v, kind, handler);
            OthersKept(r, t, v) && AddedIfMissing(TableOf(r, v), TableOf(t, v), kind, handler)
  {
    var r := BackfillOne(t, v, kind, handler);
    SingleAddIsAddOne(t, kind, handler, v);
    assert r == if kind in t.vals[v].vals then t else AddOne(t, v, kind, handler);
    forall k
      ensures k in r.vals[v].vals <==> k in t.vals[v].vals || k == kind
      ensures k in r.vals[v].vals ==> r.vals[v].vals[k] == if k in t.vals[v].vals then t.vals[v].vals[k] else handler
    {
      EntryOf(r, v, k);
      EntryOf(t, v, k);
    }
  }

  /** Adding for the one version `v` is one `AddOne`. */
  lemma SingleAddIsAddOne(t: ExceptionTable, kind: string, handler: Opaque, v: Version)
    ensures AddExceptionHandlerTo(t, kind, handler, Single(v)) == AddOne(t, v, kind, handler)
  {
    var t' := AddOne(t, v, kind, handler);
    assert VersionList(Single(v)) == [v] && [v][1..] == [];
    assert AddToVersions(t', kind, handler, []) == t';
    assert AddToVersions(t, kind, handler, [v]) == AddToVersions(t', kind, handler, [v][1..]);
  }

  /** An entry of a version that has a table is that table's entry. */
  lemma EntryOf(t: ExceptionTable, v: Version, k: string)
    requires v in t.vals
    ensures Entry(t, v, k).Some? <==> k in t.vals[v].vals
    ensures k in t.vals[v].vals ==> Entry(t, v, k) == Some(t.vals[v].vals[k])
  {
  }

  /** One step without a table of its own that the fallback does not answer: a one-kind table is created. */
  lemma BackfillOneCreatesTable(t: ExceptionTable, v: Version, kind: string, handler: Opaque)
    requires v !in t.vals && !Handles(t, v, kind)
    ensures var r := BackfillOne(t, v, kind, handler);
            OthersKept(r, t, v) && AddedIfMissing(TableOf(r, v), None, kind, handler)
  {
    var r := BackfillOne(t, v, kind, handler);
    SingleAddIsAddOne(t, kind, handler, v);
    assert r == AddOne(t, v, kind, handler);
    forall k ensures k in r.vals[v].vals <==> k == kind {
      EntryOf(r, v, k);
    }
    EntryOf(r, v, kind);
  }

  /**
   * The fallback version `vs[i]` meets when the outer loop reaches it: the `None` table as
   * back-filled when `None` came earlier in `vs`, else the table as it was before the loop.
   */
  function SeenFallback(before: ExceptionTable, after: ExceptionTable, vs: seq<Version>, i: nat): Option<HandlerTable>
    requires i < |vs|
  {
    if vs[i] == NoVersion then None
    else if NoVersion in vs[..i] then TableOf(after, NoVersion)
    else TableOf(before, NoVersion)
  }

  /** The outer loop, in closed form: each version of `vs` is back-filled as `BackfilledAs` says. */
  lemma {:induction false} BackfillVersionsExact(t: ExceptionTable, mine: ExceptionTable, vs: seq<Version>)
    requires Distinct(vs) && forall v :: v in vs ==> v in mine.vals
    ensures var r := BackfillVersions(t, mine, vs);
            && (forall u :: u !in vs ==> TableOf(r, u) == TableOf(t, u))
            && (forall i :: 0 <= i < |vs| ==>
                  BackfilledAs(TableOf(t, vs[i]), SeenFallback(t, r, vs, i), TableOf(r, vs[i]),
                               mine.vals[vs[i]], mine.vals[vs[i]].keys))
    decreases |vs|
  {
    if |vs| > 0 {
      var v := vs[0];
      var rest := vs[1..];
      var table := mine.vals[v];
      DistinctTail(vs);
      assert v !in rest by {
        forall j | 0 <= j < |rest| ensures rest[j] != v {
          assert rest[j] == vs[j + 1];
        }
      }
      var t1 := BackfillKinds(t, v, table, table.keys);
      var r := BackfillVersions(t1, mine, rest);
      assert r == BackfillVersions(t, mine, vs);
      BackfillKindsExact(t, v, table, table.keys);
      BackfillVersionsExact(t1, mine, rest);
      BackfillVersionsStep(t, t1, r, mine, vs);
    }
  }

  /** The outer loop's step: the first version's back-fill followed by the rest's. */
  lemma BackfillVersionsStep(t: ExceptionTable, t1: ExceptionTable, r: ExceptionTable, mine: ExceptionTable, vs: seq<Version>)
    requires |vs| > 0 && vs[0] !in vs[1..] && forall v :: v in vs ==> v in mine.vals
    requires OthersKept(t1, t, vs[0])
    requires BackfilledAs(TableOf(t, vs[0]), FallbackOf(t, vs[0]), TableOf(t1, vs[0]), mine.vals[vs[0]], mine.vals[vs[0]].keys)
    requires forall u :: u !in vs[1..] ==> TableOf(r, u) == TableOf(t1, u)
    requires forall i :: 0 <= i < |vs[1..]| ==>
               BackfilledAs(TableOf(t1, vs[1..][i]), SeenFallback(t1, r, vs[1..], i), TableOf(r, vs[1..][i]),
                            mine.vals[vs[1..][i]], mine.vals[vs[1..][i]].keys)
    ensures forall u :: u !in vs ==> TableOf(r, u) == TableOf(t, u)
    ensures forall i :: 0 <= i < |vs| ==>
              BackfilledAs(TableOf(t, vs[i]), SeenFallback(t, r, vs, i), TableOf(r, vs[i]),
                           mine.vals[vs[i]], mine.vals[vs[i]].keys)
  {
    var v := vs[0];
    var rest := vs[1..];
    forall i | 0 <= i < |vs|
      ensures BackfilledAs(TableOf(t, vs[i]), SeenFallback(t, r, vs, i), TableOf(r, vs[i]),
                           mine.vals[vs[i]], mine.vals[vs[i]].keys)
    {
      if i == 0 {
        assert TableOf(r, v) == TableOf(t1, v);
        assert SeenFallback(t, r, vs, 0) == FallbackOf(t, v);
      } else {
        assert vs[i] == rest[i - 1] && vs[i] != v;
        assert vs[..i] == [v] + rest[..i - 1];
        assert SeenFallback(t, r, vs, i) == SeenFallback(t1, r, rest, i - 1);
      }
    }
  }

  /**
   * The exception loop of `extend`: for each `(v, kind)` of THIS API's table, in order, the
   * OTHER API gains `kind` under `v` unless its lookup for `v` (with the `None` fallback) already
   * answers `kind` at that moment. Nothing flows from the other API into this one.
   */
  function Backfill(mine: ExceptionTable, theirs: ExceptionTable): (r: ExceptionTable)
    ensures Grows(theirs, r)
    ensures forall v, k :: Entry(r, v, k).Some? && Entry(theirs, v, k).None? ==> Entry(r, v, k) == Entry(mine, v, k)
    ensures forall v, k :: Entry(mine, v, k).Some? ==> Entry(r, v, k).Some? || Entry(r, NoVersion, k).Some?
    ensures BackfilledFrom(mine, theirs, r)
  {
    BackfillExact(mine, theirs);
    BackfillVersions(theirs, mine, mine.keys)
  }

  /** The loop over this API's versions meets the reference definition. */
  lemma BackfillExact(mine: ExceptionTable, theirs: ExceptionTable)
    ensures BackfilledFrom(mine, theirs, BackfillVersions(theirs, mine, mine.keys))
  {
    var r := BackfillVersions(theirs, mine, mine.keys);
    BackfillVersionsExact(theirs, mine, mine.keys);
    forall v | v in mine.vals
      ensures BackfilledAs(TableOf(theirs, v), Seen(mine, theirs, r, v), TableOf(r, v), mine.vals[v], mine.vals[v].keys)
    {
      BackfillAt(mine, theirs, r, v, IndexOf(mine.keys, v));
    }
  }

  /** The outer loop's statement for position `i` is the statement for the version listed there. */
  lemma BackfillAt(mine: ExceptionTable, theirs: ExceptionTable, r: ExceptionTable, v: Version, i: nat)
    requires v in mine.vals && i == IndexOf(mine.keys, v)
    requires BackfilledAs(TableOf(theirs, mine.keys[i]), SeenFallback(theirs, r, mine.keys, i), TableOf(r, mine.keys[i]),
                          mine.vals[mine.keys[i]], mine.vals[mine.keys[i]].keys)
    ensures BackfilledAs(TableOf(theirs, v), Seen(mine, theirs, r, v), TableOf(r, v), mine.vals[v], mine.vals[v].keys)
  {
    assert mine.keys[i] == v;
    assert SeenFallback(theirs, r, mine.keys, i) == Seen(mine, theirs, r, v);
  }

  /**
   * The reference definition of the whole back-fill: a version this API does not list keeps the
   * other API's table; a version it lists is back-filled as `BackfilledAs` says, against the
   * fallback it meets when the loop reaches it.
   */
  ghost predicate BackfilledFrom(mine: ExceptionTable, theirs: ExceptionTable, r: ExceptionTable) {
    && (forall v :: v !in mine.vals ==> TableOf(r, v) == TableOf(theirs, v))
    && (forall v :: v in mine.vals ==>
          BackfilledAs(TableOf(theirs, v), Seen(mine, theirs, r, v), TableOf(r, v), mine.vals[v], mine.vals[v].keys))
  }

  /**
   * The fallback this API's version `v` meets in the other API's table `theirs` during the loop:
   * none for `None` itself; for another version, the `None` table as back-filled (that is, as in
   * the result `r`) when this API lists `None` before `v`, else the `None` table of `theirs`.
   */
  function Seen(mine: ExceptionTable, theirs: ExceptionTable, r: ExceptionTable, v: Version): Option<HandlerTable>
    requires v in mine.vals
  {
    if v == NoVersion then None
    else if NoVersion in mine.keys[..IndexOf(mine.keys, v)] then TableOf(r, NoVersion)
    else TableOf(theirs, NoVersion)
  }

  /**
   * The back-fill can take a handler away from the other API: when this API's version-2 table
   * lists `K1` then `K2` and the other API handles `K1` only through its `None` table, `K1` is
   * skipped, `K2` creates a version-2 table, and that table now hides the `None` fallback for `K1`.
   */
  lemma BackfillCanHideNoneFallback()
    ensures var mine := ShadowMine();
            var theirs := ShadowTheirs();
            Handles(theirs, Num(2), "K1") && !Handles(Backfill(mine, theirs), Num(2), "K1")
  {
    var mine := ShadowMine();
    var theirs := ShadowTheirs();
    var table := mine.vals[Num(2)];
    assert Handles(theirs, Num(2), "K1");
    var t1 := BackfillOne(theirs, Num(2), "K1", Opaque(1));
    assert t1 == theirs;
    var t2 := BackfillOne(t1, Num(2), "K2", Opaque(2));
    assert !Handles(t1, Num(2), "K2");
    assert t2 == AddToVersions(theirs, "K2", Opaque(2), [Num(2)]);
    assert t2.vals[Num(2)].keys == ["K2"];
    assert BackfillKinds(t1, Num(2), table, ["K2"]) == t2;
    assert BackfillKinds(theirs, Num(2), table, ["K1", "K2"]) == t2;
    assert Backfill(mine, theirs) == t2;
  }

  /** This API's table in the example above: version 2 handles `K1`, then `K2`. */
  function ShadowMine(): (r: ExceptionTable)
    ensures r.keys == [Num(2)] && r.vals[Num(2)].keys == ["K1", "K2"]
  {
    var inner: HandlerTable := Dict(["K1", "K2"], map["K1" := Opaque(1), "K2" := Opaque(2)]);
    var vals: map<Version, HandlerTable> := map[Num(2) := inner];
    Dict([Num(2)], vals)
  }

  /** The other API's table in the example above: `K1` handled for every version. */
  function ShadowTheirs(): (r: ExceptionTable)
    ensures r.keys == [NoVersion] && r.vals[NoVersion].keys == ["K1"]
  {
    var inner: HandlerTable := Dict(["K1"], map["K1" := Opaque(3)]);
    var vals: map<Version, HandlerTable> := map[NoVersion := inner];
    Dict([NoVersion], vals)
  }

  // ---------------------------------------------------------------- ownership

  /** `function.interface.api` of every handler, by handler identity. */
  type Owners = map<nat, ApiId>

  /** Every handler of the other API's routes is re-pointed at this API. */
  function Rebind(owners: Owners, t: RouteTable, api: ApiId): (r: Owners)
    ensures forall b, p, m, v :: HasRoute(t, b, p, m, v) ==> RouteAt(t, b, p, m, v).id in r && r[RouteAt(t, b, p, m, v).id] == api
    ensures forall id :: id !in HandlerIds(t) ==> (id in r <==> id in owners) && (id in owners ==> r[id] == owners[id])
  {
    var ids := HandlerIds(t);
    map id | id in owners.Keys + ids :: if id in ids then api else owners[id]
  }

  // ---------------------------------------------------------------- extend

  /** Both registries after `extend` (the other one is changed too), and the handler owners. */
  datatype Extended = Extended(me: Http, other: Http, owners: Owners)

  /**
   * `HTTPInterfaceAPI.extend(other, route, base_url)`. The united version set's iteration
   * order is the input `merged`.
   */
  function HttpExtend(me: Http, other: Http, owners: Owners, route: string, baseUrl: string, merged: VersionSet): (r: Extended)
    requires IsUnionOrder(merged, me.versions, other.versions)
    // versions and middleware are unions; startup handlers are appended in order
    ensures r.me.versions == merged && forall v :: v in r.me.versions <==> v in me.versions || v in other.versions
    ensures forall u :: u in r.me.middleware <==> u in me.middleware || u in other.middleware
    ensures |r.me.startupHandlers| == |me.startupHandlers| + |other.startupHandlers|
    ensures r.me.startupHandlers[..|me.startupHandlers|] == me.startupHandlers
    ensures r.me.startupHandlers[|me.startupHandlers|..] == other.startupHandlers
    // routes: only the target base URL changes, and exists afterwards when the other API has any base URL
    ensures forall x :: x != TargetBase(me, baseUrl) ==> Get(r.me.routes, x) == Get(me.routes, x)
    ensures TargetBase(me, baseUrl) in r.me.routes.vals <==> TargetBase(me, baseUrl) in me.routes.vals || |other.routes.keys| > 0
    // under the target base URL every path of the other API reappears as `route + path`, a later base URL winning
    ensures forall k :: Get(GetOrEmpty(r.me.routes, TargetBase(me, baseUrl)), k)
                        == Transferred(route, Overlay(other.routes, other.routes.keys), GetOrEmpty(me.routes, TargetBase(me, baseUrl)), k)
    ensures KeysExtend(GetOrEmpty(me.routes, TargetBase(me, baseUrl)), GetOrEmpty(r.me.routes, TargetBase(me, baseUrl)))
    // sinks: only the target base URL changes, and it receives the other API's sinks the same way
    ensures forall x, k :: x != TargetBase(me, baseUrl) ==> SinkAt(r.me.sinks, x, k) == SinkAt(me.sinks, x, k)
    ensures forall k :: SinkAt(r.me.sinks, TargetBase(me, baseUrl), k)
                        == Transferred(route, Overlay(other.sinks, other.sinks.keys), GetOrEmpty(me.sinks, TargetBase(me, baseUrl)), k)
    // every handler of the other API's routes now belongs to this API; no other owner changes
    ensures forall b, p, m, v :: HasRoute(other.routes, b, p, m, v) ==>
              RouteAt(other.routes, b, p, m, v).id in r.owners && r.owners[RouteAt(other.routes, b, p, m, v).id] == me.api
    ensures forall id :: id !in HandlerIds(other.routes) ==> (id in r.owners <==> id in owners) && (id in owners ==> r.owners[id] == owners[id])
    // exception handlers flow one way: this API's table is untouched, the other's only grows
    ensures r.me.exceptionHandlers == me.exceptionHandlers
    ensures Grows(other.exceptionHandlers, r.other.exceptionHandlers)
    ensures forall v, k :: Entry(me.exceptionHandlers, v, k).Some? ==>
              Entry(r.other.exceptionHandlers, v, k).Some? || Entry(r.other.exceptionHandlers, NoVersion, k).Some?
    // and exactly as the reference definition says, the `None` fallback gating each addition
    ensures BackfilledFrom(me.exceptionHandlers, other.exceptionHandlers, r.other.exceptionHandlers)
    // input formats and not-found handlers only fill keys this API lacks
    ensures forall c :: c in r.me.inputFormats <==> c in me.inputFormats || c in other.inputFormats
    ensures forall c :: c in me.inputFormats ==> r.me.inputFormats[c] == me.inputFormats[c]
    ensures forall c :: c in other.inputFormats && c !in me.inputFormats ==> r.me.inputFormats[c] == other.inputFormats[c]
    ensures forall v :: v in r.me.notFoundHandlers <==> v in me.notFoundHandlers || v in other.notFoundHandlers
    ensures forall v :: v in me.notFoundHandlers ==> r.me.notFoundHandlers[v] == me.notFoundHandlers[v]
    ensures forall v :: v in other.notFoundHandlers && v !in me.notFoundHandlers ==> r.me.notFoundHandlers[v] == other.notFoundHandlers[v]
    // nothing else changes on either side
    ensures r.me.api == me.api && r.me.baseUrl == me.baseUrl
    ensures r.me.outputFormat == me.outputFormat && r.me.notFound == me.notFound
    ensures r.other == other.(exceptionHandlers := r.other.exceptionHandlers)
  {
    ExtendRoutesAndSinks(me, other, route, baseUrl, merged);
    ExtendKeepsAndUnites(me, other, route, baseUrl, merged);
    var other' := other.(exceptionHandlers := Backfill(me.exceptionHandlers, other.exceptionHandlers));
    Extended(MergedMe(me, other, route, baseUrl, merged), other', Rebind(owners, other.routes, me.api))
  }

  /** This API's registry after `extend`: every merged field, the others as they were. */
  function MergedMe(me: Http, other: Http, route: string, baseUrl: string, merged: VersionSet): Http {
    var b := TargetBase(me, baseUrl);
    me.(
      versions := merged,
      routes := MergeRoutes(me.routes, b, route, other.routes, other.routes.keys),
      sinks := MergeSinks(me.sinks, b, route, other.sinks, other.sinks.keys),
      middleware := me.middleware + other.middleware,
      startupHandlers := me.startupHandlers + other.startupHandlers,
      inputFormats := other.inputFormats + me.inputFormats,
      notFoundHandlers := other.notFoundHandlers + me.notFoundHandlers)
  }

  /** The fields of `extend` that are unions, appends, fills of missing keys, or kept as they were. */
  lemma ExtendKeepsAndUnites(me: Http, other: Http, route: string, baseUrl: string, merged: VersionSet)
    ensures var m := MergedMe(me, other, route, baseUrl, merged);
            && m.versions == merged
            && (forall u :: u in m.middleware <==> u in me.middleware || u in other.middleware)
            && m.startupHandlers == me.startupHandlers + other.startupHandlers
            && (forall c :: c in m.inputFormats <==> c in me.inputFormats || c in other.inputFormats)
            && (forall c :: c in me.inputFormats ==> m.inputFormats[c] == me.inputFormats[c])
            && (forall c :: c in other.inputFormats && c !in me.inputFormats ==> m.inputFormats[c] == other.inputFormats[c])
            && (forall v :: v in m.notFoundHandlers <==> v in me.notFoundHandlers || v in other.notFoundHandlers)
            && (forall v :: v in me.notFoundHandlers ==> m.notFoundHandlers[v] == me.notFoundHandlers[v])
            && (forall v :: v in other.notFoundHandlers && v !in me.notFoundHandlers ==>
                  m.notFoundHandlers[v] == other.notFoundHandlers[v])
            && m.exceptionHandlers == me.exceptionHandlers
            && m.api == me.api && m.baseUrl == me.baseUrl
            && m.outputFormat == me.outputFormat && m.notFound == me.notFound
  {
  }

  /** The route and sink halves of `extend`, stated on the merged tables themselves. */
  lemma ExtendRoutesAndSinks(me: Http, other: Http, route: string, baseUrl: string, merged: VersionSet)
    ensures var b := TargetBase(me, baseUrl);
            var routes := MergedMe(me, other, route, baseUrl, merged).routes;
            var sinks := MergedMe(me, other, route, baseUrl, merged).sinks;
            && (forall x :: x != b ==> Get(routes, x) == Get(me.routes, x))
            && (b in routes.vals <==> b in me.routes.vals || |other.routes.keys| > 0)
            && (forall k :: Get(GetOrEmpty(routes, b), k)
                            == Transferred(route, Overlay(other.routes, other.routes.keys), GetOrEmpty(me.routes, b), k))
            && KeysExtend(GetOrEmpty(me.routes, b), GetOrEmpty(routes, b))
            && (forall x, k :: x != b ==> SinkAt(sinks, x, k) == SinkAt(me.sinks, x, k))
            && (forall k :: SinkAt(sinks, b, k)
                            == Transferred(route, Overlay(other.sinks, other.sinks.keys), GetOrEmpty(me.sinks, b), k))
  {
    var b := TargetBase(me, baseUrl);
    MergeRoutesContents(me.routes, b, route, other.routes, other.routes.keys);
    MergeRoutesKeepsPathOrder(me.routes, b, route, other.routes, other.routes.keys);
    MergeSinksContents(me.sinks, b, route, other.sinks, other.sinks.keys);
  }

  /** The re-filing places every incoming path `p` at `route + p`. */
  lemma TransferredFilesPath<X>(route: string, incoming: map<string, X>, before: OMap<string, X>, p: string)
    requires p in incoming
    ensures Transferred(route, incoming, before, route + p) == Some(incoming[p])
  {
    var k := route + p;
    assert k[..|route|] == route;
    assert k[|route|..] == p;
  }

  /**
   * After `extend`, every path `p` of the other API is found at `route + p` under the target
   * base URL, holding the other API's method map for `p` (from its last base URL listing `p`).
   */
  lemma {:induction false} ExtendFilesEveryPath(me: Http, other: Http, owners: Owners, route: string, baseUrl: string,
                                                merged: VersionSet, ob: string, p: string)
    requires IsUnionOrder(merged, me.versions, other.versions)
    requires ob in other.routes.vals && p in other.routes.vals[ob].vals
    ensures var r := HttpExtend(me, other, owners, route, baseUrl, merged);
            var incoming := Overlay(other.routes, other.routes.keys);
            && p in incoming
            && Get(GetOrEmpty(r.me.routes, TargetBase(me, baseUrl)), route + p) == Some(incoming[p])
  {
    var incoming := Overlay(other.routes, other.routes.keys);
    assert ob in other.routes.keys;
    assert p in incoming;
    var b := TargetBase(me, baseUrl);
    TransferredFilesPath(route, incoming, GetOrEmpty(me.routes, b), p);
  }
}
