/** Failure-compatible wrappers used throughout the model. */
module Outcomes {

  /** A value that may be absent; `None` here is Python's "not found", not a version key. */
  datatype Option<T> = None | Some(value: T) {

    /** The wrapped value, or `default` when absent (Python's `d.get(k, default)`). */
    function GetOr(default: T): T {
      if Some? then value else default
    }
  }

  /** The outcome of an operation that the source can abort by raising. */
  datatype Result<T, E> = Success(value: T) | Failure(error: E)
}

/** Insertion-ordered dictionaries (Python's `dict` / `OrderedDict`), as a key order plus contents. */
module OrderedMaps {
  import opened Outcomes

  /** No element of `s` occurs twice. */
  predicate Distinct<T(==)>(s: seq<T>) {
    forall i, j :: 0 <= i < j < |s| ==> s[i] != s[j]
  }

  /** The position of the first occurrence of `x` in `s`. */
  function IndexOf<T(==)>(s: seq<T>, x: T): (k: nat)
    requires x in s
    ensures k < |s| && s[k] == x
    ensures forall j :: 0 <= j < k ==> s[j] != x
    decreases |s|
  {
    if s[0] == x then 0
    else
      assert x in s[1..] by {
        var i :| 0 <= i < |s| && s[i] == x;
        assert s[1..][i - 1] == x;
      }
      var k := IndexOf(s[1..], x);
      assert forall j :: 0 < j <= k ==> s[j] == s[1..][j - 1];
      k + 1
  }

  /** In a duplicate-free sequence, the element at position `k` is found at `k`. */
  lemma IndexOfDistinct<T>(s: seq<T>, k: nat)
    requires Distinct(s) && k < |s|
    ensures IndexOf(s, s[k]) == k
  {
  }

  /** Past the head of a duplicate-free sequence, positions shift by one. */
  lemma IndexOfTail<T>(s: seq<T>, x: T)
    requires Distinct(s) && |s| > 0 && x in s[1..]
    ensures x != s[0] && IndexOf(s, x) == 1 + IndexOf(s[1..], x)
  {
    var i :| 0 <= i < |s[1..]| && s[1..][i] == x;
    assert s[i + 1] == x;
  }

  /** `r` lists members of `s`, in the order they have in `s`. */
  predicate KeepsOrder<T(==)>(r: seq<T>, s: seq<T>) {
    && (forall i :: 0 <= i < |r| ==> r[i] in s)
    && (forall i, j :: 0 <= i < j < |r| ==> IndexOf(s, r[i]) < IndexOf(s, r[j]))
  }

  /**
   * Filtering step: if `rt` keeps the order of the tail of `s`, then so do `rt` and
   * `[s[0]] + rt` with respect to `s`.
   */
  lemma KeepsOrderStep<T>(s: seq<T>, rt: seq<T>, keep: bool)
    requires Distinct(s) && |s| > 0 && KeepsOrder(rt, s[1..])
    ensures KeepsOrder(if keep then [s[0]] + rt else rt, s)
  {
    forall i | 0 <= i < |rt| ensures rt[i] in s && IndexOf(s, rt[i]) == 1 + IndexOf(s[1..], rt[i]) {
      IndexOfTail(s, rt[i]);
    }
  }

  /** The tail of a duplicate-free sequence is duplicate-free. */
  lemma DistinctTail<T>(s: seq<T>)
    requires Distinct(s) && |s| > 0
    ensures Distinct(s[1..])
  {
    forall i, j | 0 <= i < j < |s| - 1 ensures s[1..][i] != s[1..][j] {
      assert s[1..][i] == s[i + 1] && s[1..][j] == s[j + 1];
    }
  }

  /** The raw representation: the keys in insertion order and the key/value contents. */
  datatype Dict<K, V> = Dict(keys: seq<K>, vals: map<K, V>)

  /** Every key is listed exactly once, and exactly the listed keys are stored. */
  ghost predicate WellFormed<K(!new), V>(d: Dict<K, V>) {
    && Distinct(d.keys)
    && (forall k :: k in d.vals <==> k in d.keys)
  }

  type OMap<K(!new), V> = d: Dict<K, V> | WellFormed(d) witness Dict([], map[])

  /** A fresh, empty dictionary. */
  function Empty<K(!new), V>(): (r: OMap<K, V>)
    ensures |r.keys| == 0 && r.vals == map[]
  {
    Dict([], map[])
  }

  /** `d.get(k)`. */
  function Get<K(!new), V>(d: OMap<K, V>, k: K): (r: Option<V>)
    ensures r.Some? <==> k in d.keys
    ensures r.Some? ==> r.value == d.vals[k]
  {
    if k in d.vals then Some(d.vals[k]) else None
  }

  /** `d[k] = v`: a present key keeps its position, a new key goes last. */
  function Put<K(!new), V>(d: OMap<K, V>, k: K, v: V): (r: OMap<K, V>)
    ensures Get(r, k) == Some(v)
    ensures forall k' :: k' != k ==> Get(r, k') == Get(d, k')
    ensures k in d.keys ==> r.keys == d.keys
    ensures k !in d.keys ==> r.keys == d.keys + [k]
  {
    if k in d.vals then
      Dict(d.keys, d.vals[k := v])
    else
      var keys := d.keys + [k];
      assert forall i :: 0 <= i < |d.keys| ==> keys[i] == d.keys[i];
      Dict(keys, d.vals[k := v])
  }

  /** `d.setdefault(k, v)` used for its effect: inserts `v` only when `k` is missing. */
  function SetDefault<K(!new), V>(d: OMap<K, V>, k: K, v: V): (r: OMap<K, V>)
    ensures k in r.vals
    ensures k in d.vals ==> r == d
    ensures k !in d.vals ==> Get(r, k) == Some(v) && r.keys == d.keys + [k]
    ensures forall k' :: k' != k ==> Get(r, k') == Get(d, k')
  {
    if k in d.vals then d else Put(d, k, v)
  }

  /** `t.get(k, {})` for a dictionary of dictionaries. */
  function GetOrEmpty<K(!new), K2(!new), V>(t: OMap<K, OMap<K2, V>>, k: K): (r: OMap<K2, V>)
    ensures k in t.vals ==> r == t.vals[k]
    ensures k !in t.vals ==> |r.keys| == 0
  {
    if k in t.vals then t.vals[k] else Empty()
  }

  /** The keys of `d` are listed in `d'` in the same order, ahead of any new ones. */
  predicate KeysExtend<K(!new), V>(d: OMap<K, V>, d': OMap<K, V>) {
    |d.keys| <= |d'.keys| && d'.keys[..|d.keys|] == d.keys
  }

  /** Extending the key order is transitive. */
  lemma KeysExtendTransitive<K(!new), V>(d1: OMap<K, V>, d2: OMap<K, V>, d3: OMap<K, V>)
    requires KeysExtend(d1, d2) && KeysExtend(d2, d3)
    ensures KeysExtend(d1, d3)
  {
    assert d3.keys[..|d2.keys|][..|d1.keys|] == d3.keys[..|d1.keys|];
  }
}

/** The values the registry stores, and the Python value semantics the model needs. */
module Model {
  import opened Outcomes
  import opened OrderedMaps

  /** An API is identified by the name of the module that owns it. */
  type ApiId = string

  /** An opaque Python object (a callable, formatter, sink, context value), compared by identity. */
  datatype Opaque = Opaque(id: nat)

  /** A route handler: its identity and its `private` attribute (an absent attribute reads as false). */
  datatype Handler = Handler(id: nat, isPrivate: bool)

  /**
   * A version key of the route, exception and not-found tables: Python `None` or an integer.
   * Python's `False` compares and hashes equal to `0`, so as a dictionary or set key it is `Num(0)`.
   */
  datatype Version = NoVersion | Num(n: int)

  /** Python truthiness of a version key: `None`, `False` and `0` are falsy. */
  predicate Truthy(v: Version) {
    v.Num? && v.n != 0
  }

  /** A Python set of versions, listed in one fixed iteration order. */
  type VersionSet = s: seq<Version> | Distinct(s)

  /**
   * `merged` is one iteration order of the set `a | b`: it lists exactly the members of both.
   * CPython iterates a set of integers in hash-slot order, which this model does not compute,
   * so an operation that forms a union takes the resulting order as given.
   */
  ghost predicate IsUnionOrder(merged: VersionSet, a: VersionSet, b: VersionSet) {
    forall v :: v in merged <==> v in a || v in b
  }

  /**
   * One duplicate-free listing of the union, with the members of `a` first and in their order.
   * It shows that every pair of sets has a union order; it is not CPython's order.
   */
  function UnionVersions(a: VersionSet, b: VersionSet): (r: VersionSet)
    ensures forall v :: v in r <==> v in a || v in b
    ensures |a| <= |r| && r[..|a|] == a
    decreases |b|
  {
    if |b| == 0 then a
    else if b[0] in a then UnionVersions(a, b[1..])
    else
      var a' := a + [b[0]];
      var r := UnionVersions(a', b[1..]);
      assert r[..|a'|][..|a|] == a;
      r
  }

  /** Any two version sets have a union order: the listing above is one. */
  lemma UnionOrderExists(a: VersionSet, b: VersionSet)
    ensures IsUnionOrder(UnionVersions(a, b), a, b)
  {
  }

  /** The character of a decimal digit. */
  function DigitChar(d: nat): char
    requires d < 10
  {
    "0123456789"[d]
  }

  /** The value of a decimal digit character. */
  function DigitValue(c: char): nat {
    if '0' <= c <= '9' then c as int - '0' as int else 0
  }

  /** Python's `str(n)` for a non-negative integer. */
  function NaturalText(n: nat): (r: string)
    ensures |r| > 0
    ensures forall i :: 0 <= i < |r| ==> '0' <= r[i] <= '9'
    decreases n
  {
    if n < 10 then [DigitChar(n)] else NaturalText(n / 10) + [DigitChar(n % 10)]
  }

  /** Reads a string of decimal digits back as a number (Python's `int(s)` on digits). */
  function ParseNatural(s: string): nat {
    if |s| == 0 then 0 else 10 * ParseNatural(s[..|s| - 1]) + DigitValue(s[|s| - 1])
  }

  /** Python's `str(n)`, and so `"%s" % n` and `"{0}".format(n)`, for an integer. */
  function Decimal(n: int): (r: string)
    ensures |r| > 0
    ensures r[0] == '-' <==> n < 0
  {
    if n < 0 then "-" + NaturalText(-n) else NaturalText(n)
  }

  /** The decimal text of a natural number reads back as that number. */
  lemma {:induction false} NaturalTextRoundTrip(n: nat)
    ensures ParseNatural(NaturalText(n)) == n
    decreases n
  {
    if n >= 10 {
      var s := NaturalText(n);
      assert s[..|s| - 1] == NaturalText(n / 10);
      NaturalTextRoundTrip(n / 10);
    }
  }

  /** Different numbers have different decimal texts. */
  lemma NaturalTextInjective(a: nat, b: nat)
    requires NaturalText(a) == NaturalText(b)
    ensures a == b
  {
    NaturalTextRoundTrip(a);
    NaturalTextRoundTrip(b);
  }

  /** Different versions render to different decimal texts, so their `/v<n>` routes differ. */
  lemma {:induction false} DecimalInjective(a: int, b: int)
    requires Decimal(a) == Decimal(b)
    ensures a == b
  {
    if a < 0 && b < 0 {
      var ta, tb := NaturalText(-a), NaturalText(-b);
      assert ("-" + ta)[1..] == ta;
      assert ("-" + tb)[1..] == tb;
      NaturalTextInjective(-a, -b);
    } else if 0 <= a && 0 <= b {
      NaturalTextInjective(a, b);
    }
  }

  /** Python's substring test `sub in s`. */
  predicate Occurs(sub: string, s: string) {
    exists i :: 0 <= i <= |s| && sub <= s[i..]
  }

  /** The text `"v{0}".format(n)` that marks version `n` in a request path. */
  function Label(n: int): string {
    "v" + Decimal(n)
  }
}
