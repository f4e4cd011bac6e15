/**
 * The per-module API object (`API`): its directives, its lazily created HTTP interface, CLI
 * interface and context, `extend`, and the `ModuleSingleton` get-or-create rule.
 */
module HugApi {
  import opened Outcomes
  import opened Model
  import opened HttpInterface
  import opened Extension
  import opened CliInterface

  /** A directive callable and its `__name__`. */
  datatype Directive = Directive(name: string, body: Opaque)

  /** `_directives`: every directive is stored under its own `__name__`. */
  type Directives = m: map<string, Directive> | forall k :: k in m ==> m[k].name == k witness map[]

  /** The `API` object of one module; the optional parts are the attributes created on first use. */
  datatype Api = Api(
    moduleName: ApiId,
    directives: Directives,
    http: Option<Http>,
    cli: Option<Cli>,
    context: Option<map<string, Opaque>>)

  /** `API(module)`: only the module is set. */
  function NewApi(name: ApiId): (a: Api)
    ensures a.moduleName == name && a.directives == map[]
    ensures a.http.None? && a.cli.None? && a.context.None?
  {
    Api(name, map[], None, None, None)
  }

  // ---------------------------------------------------------------- directives

  /** The prefix under which `directives()` publishes every directive. */
  const Prefix: string := "hug_"

  /** The name `hug_<name>` a directive is published under. */
  function Published(name: string): string {
    Prefix + name
  }

  /** Different directive names are published under different keys. */
  lemma PublishedInjective()
    ensures forall a, b :: Published(a) == Published(b) ==> a == b
  {
    forall a, b | Published(a) == Published(b) ensures a == b {
      assert a == Published(a)[|Prefix|..];
      assert b == Published(b)[|Prefix|..];
    }
  }

  /**
   * `API.directives()`: the process-wide defaults and this API's own directives, each under
   * `hug_<name>`; an own directive replaces the default of the same name.
   */
  function AllDirectives(a: Api, defaults: map<string, Directive>): (r: map<string, Directive>)
    ensures forall name :: Published(name) in r <==> name in a.directives || name in defaults
    ensures forall name :: name in a.directives ==> r[Published(name)] == a.directives[name]
    ensures forall name :: name in defaults && name !in a.directives ==> r[Published(name)] == defaults[name]
    ensures forall k :: k in r ==> |k| >= |Prefix| && k[..|Prefix|] == Prefix
  {
    var names := defaults.Keys + a.directives.Keys;
    PublishedInjective();
    var r := map name | name in names :: Published(name) := if name in a.directives then a.directives[name] else defaults[name];
    assert forall name :: name in names ==> Published(name) in r && Published(name)[|Prefix|..] == name;
    r
  }

  /**
   * `API.directive(name, default)`: this API's own directive, else the process-wide one, else
   * `default`.
   */
  function DirectiveLookup(a: Api, defaults: map<string, Directive>, name: string, default: Option<Directive>): (r: Option<Directive>)
    ensures name in a.directives ==> r == Some(a.directives[name])
    ensures name !in a.directives && name in defaults ==> r == Some(defaults[name])
    ensures name !in a.directives && name !in defaults ==> r == default
  {
    if name in a.directives then Some(a.directives[name])
    else if name in defaults then Some(defaults[name])
    else default
  }

  /** A directive that is found by name is the one `directives()` publishes under `hug_<name>`. */
  lemma LookupAgreesWithPublished(a: Api, defaults: map<string, Directive>, name: string, default: Option<Directive>)
    requires name in a.directives || name in defaults
    ensures Published(name) in AllDirectives(a, defaults)
    ensures DirectiveLookup(a, defaults, name, default) == Some(AllDirectives(a, defaults)[Published(name)])
  {
  }

  /** `API.add_directive(directive)`: stored under its `__name__`, replacing any directive of that name. */
  function AddDirective(a: Api, d: Directive): (r: Api)
    ensures d.name in r.directives && r.directives[d.name] == d
    ensures forall n :: n != d.name ==> (n in r.directives <==> n in a.directives)
    ensures forall n :: n != d.name && n in a.directives ==> r.directives[n] == a.directives[n]
    ensures r == a.(directives := r.directives)
  {
    a.(directives := a.directives[d.name := d])
  }

  /** The names of the directives `ds`. */
  function Names(ds: seq<Directive>): set<string> {
    set i | 0 <= i < |ds| :: ds[i].name
  }

  /** The names of a non-empty list: its head's and its tail's. */
  lemma NamesCons(ds: seq<Directive>)
    requires |ds| > 0
    ensures Names(ds) == {ds[0].name} + Names(ds[1..])
  {
    forall n | n in Names(ds) ensures n in {ds[0].name} + Names(ds[1..]) {
      var i :| 0 <= i < |ds| && ds[i].name == n;
      if i > 0 { assert ds[1..][i - 1] == ds[i]; }
    }
    forall n | n in Names(ds[1..]) ensures n in Names(ds) {
      var i :| 0 <= i < |ds[1..]| && ds[1..][i].name == n;
      assert ds[i + 1] == ds[1..][i];
    }
  }

  /** No directive after position `i` of `ds` has the name of `ds[i]`. */
  predicate LastOfName(ds: seq<Directive>, i: int)
    requires 0 <= i < |ds|
  {
    forall j :: i < j < |ds| ==> ds[j].name != ds[i].name
  }

  /** Adding the directives `ds` one by one, in order; a later one replaces an earlier one of the same name. */
  function AddDirectives(a: Api, ds: seq<Directive>): (r: Api)
    ensures forall n :: n in r.directives <==> n in a.directives || n in Names(ds)
    ensures forall n :: n in a.directives && n !in Names(ds) ==> r.directives[n] == a.directives[n]
    ensures |ds| > 0 ==> ds[|ds| - 1].name in r.directives && r.directives[ds[|ds| - 1].name] == ds[|ds| - 1]
    ensures forall i :: 0 <= i < |ds| && LastOfName(ds, i) ==> ds[i].name in r.directives && r.directives[ds[i].name] == ds[i]
    ensures r == a.(directives := r.directives)
    decreases |ds|
  {
    if |ds| == 0 then a
    else
      NamesCons(ds);
      var tail := ds[1..];
      var a' := AddDirective(a, ds[0]);
      var r := AddDirectives(a', tail);
      assert |ds| > 1 ==> tail[|tail| - 1] == ds[|ds| - 1];
      assert forall i :: 0 <= i < |ds| && LastOfName(ds, i) ==> ds[i].name in r.directives && r.directives[ds[i].name] == ds[i] by {
        forall i | 0 <= i < |ds| && LastOfName(ds, i)
          ensures ds[i].name in r.directives && r.directives[ds[i].name] == ds[i]
        {
          if i == 0 {
            assert ds[0].name !in Names(tail) by {
              forall k | 0 <= k < |tail| ensures tail[k].name != ds[0].name {
                assert tail[k] == ds[k + 1];
              }
            }
            assert a'.directives[ds[0].name] == ds[0];
          } else {
            assert ds[i] == tail[i - 1];
            assert LastOfName(tail, i - 1) by {
              forall j | i - 1 < j < |tail| ensures tail[j].name != tail[i - 1].name {
                assert tail[j] == ds[j + 1];
              }
            }
          }
        }
      }
      r
  }

  /** An API together with the interface an accessor returned. */
  datatype WithHttp = WithHttp(api: Api, http: Http)
  datatype WithCli = WithCli(api: Api, cli: Cli)
  datatype WithContext = WithContext(api: Api, context: map<string, Opaque>)

  /** The `http` property: the existing interface, or a new one created and kept. */
  function HttpOf(a: Api): (r: WithHttp)
    ensures r.api.http == Some(r.http)
    ensures a.http.Some? ==> r.api == a && r.http == a.http.value
    ensures a.http.None? ==> r.http == NewHttp(a.moduleName, "")
    ensures r.api == a.(http := r.api.http)
  {
    if a.http.Some? then WithHttp(a, a.http.value)
    else
      var h := NewHttp(a.moduleName, "");
      WithHttp(a.(http := Some(h)), h)
  }

  /** The `cli` property: the existing interface, or a new one created and kept. */
  function CliOf(a: Api): (r: WithCli)
    ensures r.api.cli == Some(r.cli)
    ensures a.cli.Some? ==> r.api == a && r.cli == a.cli.value
    ensures a.cli.None? ==> r.cli == NewCli(a.moduleName)
    ensures r.api == a.(cli := r.api.cli)
  {
    if a.cli.Some? then WithCli(a, a.cli.value)
    else
      var c := NewCli(a.moduleName);
      WithCli(a.(cli := Some(c)), c)
  }

  /** The `context` property: the existing dictionary, or a new empty one created and kept. */
  function ContextOf(a: Api): (r: WithContext)
    ensures r.api.context == Some(r.context)
    ensures a.context.Some? ==> r.api == a && r.context == a.context.value
    ensures a.context.None? ==> r.context == map[]
    ensures r.api == a.(context := r.api.context)
  {
    if a.context.Some? then WithContext(a, a.context.value)
    else WithContext(a.(context := Some(map[])), map[])
  }

  /** Reading a lazy property twice returns the same interface and changes nothing more. */
  lemma AccessorsAreIdempotent(a: Api)
    ensures HttpOf(HttpOf(a).api) == HttpOf(a)
    ensures CliOf(CliOf(a).api) == CliOf(a)
    ensures ContextOf(ContextOf(a).api) == ContextOf(a)
  {
  }

  // ---------------------------------------------------------------- extend

  /** Both APIs after `API.extend`, and the handler owners. */
  datatype ApiExtended = ApiExtended(me: Api, other: Api, owners: Owners)

  /**
   * `API.extend(api, route, base_url)` with the other API already resolved: its HTTP interface,
   * when it has one, is merged into this API's (created on demand), and its directives are
   * added to this API's. `merged` is the iteration order of the united version set.
   */
  function ApiExtend(me: Api, other: Api, owners: Owners, route: string, baseUrl: string, merged: VersionSet): (r: ApiExtended)
    requires other.http.Some? ==> IsUnionOrder(merged, HttpOf(me).http.versions, other.http.value.versions)
    ensures other.http.None? ==> r.me.http == me.http && r.other == other && r.owners == owners
    ensures other.http.Some? ==> && r.me.http.Some? && r.other.http.Some?
                                 && var ext := HttpExtend(HttpOf(me).http, other.http.value, owners, route, baseUrl, merged);
                                    r.me.http == Some(ext.me) && r.other.http == Some(ext.other) && r.owners == ext.owners
    ensures forall n :: n in r.me.directives <==> n in me.directives || n in other.directives
    ensures forall n :: n in other.directives ==> r.me.directives[n] == other.directives[n]
    ensures forall n :: n in me.directives && n !in other.directives ==> r.me.directives[n] == me.directives[n]
    ensures r.me.moduleName == me.moduleName && r.me.cli == me.cli && r.me.context == me.context
    ensures r.other == other.(http := r.other.http)
  {
    var joined := if other.http.Some? then
                     var ext := HttpExtend(HttpOf(me).http, other.http.value, owners, route, baseUrl, merged);
                     ApiExtended(me.(http := Some(ext.me)), other.(http := Some(ext.other)), ext.owners)
                   else ApiExtended(me, other, owners);
    var directives := me.directives + other.directives;
    ApiExtended(joined.me.(directives := directives), joined.other, joined.owners)
  }

  /**
   * The directive loop of `API.extend` (`add_directive` for every value of the other API's
   * `_directives`, in any order) gives the table `ApiExtend` stores: the other API's entries
   * over this one's.
   */
  lemma {:induction false} ExtendAddsEachDirective(me: Api, ds: seq<Directive>, other: Directives)
    requires forall i :: 0 <= i < |ds| ==> ds[i].name in other && other[ds[i].name] == ds[i]
    requires Names(ds) == other.Keys
    requires forall i, j :: 0 <= i < j < |ds| ==> ds[i].name != ds[j].name
    ensures AddDirectives(me, ds).directives == me.directives + other
    decreases |ds|
  {
    if |ds| == 0 {
      assert other.Keys == {};
      assert other == map[];
    } else {
      var d := ds[0];
      var tail := ds[1..];
      var rest := other - {d.name};
      NamesCons(ds);
      assert d.name !in Names(tail) by {
        forall i | 0 <= i < |tail| ensures tail[i].name != d.name {
          assert tail[i] == ds[i + 1];
        }
      }
      assert Names(tail) == rest.Keys;
      assert forall i :: 0 <= i < |tail| ==> tail[i] == ds[i + 1];
      var me' := AddDirective(me, d);
      ExtendAddsEachDirective(me', tail, rest);
      assert AddDirectives(me, ds) == AddDirectives(me', tail);
      OverrideOneThenRest(me.directives, other, d);
    }
  }

  /** Storing one entry of `other` first and then the rest of `other` stores all of `other`. */
  lemma OverrideOneThenRest(m: map<string, Directive>, other: map<string, Directive>, d: Directive)
    requires d.name in other && other[d.name] == d
    ensures m[d.name := d] + (other - {d.name}) == m + other
  {
  }

  // ---------------------------------------------------------------- the module singleton

  /** The `__hug__` attribute of every module that has one, by module name. */
  type Registry = map<ApiId, Api>

  /** What `API(...)` is called with. */
  datatype Target = ExistingApi(api: Api) | ModuleNamed(name: ApiId)

  datatype Resolved = Resolved(registry: Registry, api: Api)

  /**
   * `ModuleSingleton.__call__`: an `API` instance is returned as it is; a module (named by
   * its name) returns its `__hug__`, which is created and stored on first use.
   */
  function Singleton(registry: Registry, target: Target): (r: Resolved)
    ensures target.ExistingApi? ==> r == Resolved(registry, target.api)
    ensures target.ModuleNamed? ==> target.name in r.registry && r.registry[target.name] == r.api
    ensures target.ModuleNamed? && target.name in registry ==> r == Resolved(registry, registry[target.name])
    ensures target.ModuleNamed? && target.name !in registry ==> r.api == NewApi(target.name)
    ensures forall m :: m in registry ==> m in r.registry && r.registry[m] == registry[m]
    ensures forall m :: m in r.registry ==> m in registry || (target.ModuleNamed? && m == target.name)
  {
    match target
    case ExistingApi(a) => Resolved(registry, a)
    case ModuleNamed(name) =>
      if name in registry then Resolved(registry, registry[name])
      else
        var a := NewApi(name);
        Resolved(registry[name := a], a)
  }

  /** Every registered API belongs to the module it is registered under. */
  ghost predicate RegistryConsistent(registry: Registry) {
    forall m :: m in registry ==> registry[m].moduleName == m
  }

  /**
   * `API(module)` is a get-or-create: asking again returns the same object and registers
   * nothing more, and a consistent registry stays consistent.
   */
  lemma SingletonIsIdempotent(registry: Registry, target: Target)
    ensures var first := Singleton(registry, target);
            Singleton(first.registry, target) == first
    ensures RegistryConsistent(registry) ==> RegistryConsistent(Singleton(registry, target).registry)
  {
  }

  /** Two requests for the same module name, with any other registration between, get the same API. */
  lemma SingletonSharesInstances(registry: Registry, name: ApiId, between: Target)
    ensures var first := Singleton(registry, ModuleNamed(name));
            var middle := Singleton(first.registry, between);
            Singleton(middle.registry, ModuleNamed(name)).api == first.api
  {
  }
}
