/**
 * The configuration tree: scalars, strings, lists and string-keyed mappings.
 * A mapping is an ordered list of entries, because Python dictionaries keep
 * insertion order and the loaders visit keys in that order; assigning to a key
 * that is already present keeps its position, a new key goes to the end.
 */
module Tree {

  import opened Wrappers
  import Text

  datatype Value =
    | Null
    | Bool(b: bool)
    | Int(i: int)
    | Str(s: string)
      /** `MissingEnvVar(name)`: a required placeholder whose variable was not set. */
    | Missing(name: string)
    | List(items: seq<Value>)
    | Map(entries: seq<Entry>)

  datatype Entry = Entry(key: string, val: Value)

  /** The error family of the library (all of them share one base class there). */
  datatype ConfigError =
    | NotFound            // ConfigNotFoundError: nothing to load
    | FileMissing         // FileNotFoundError from a required file or directory source
    | UnsupportedFormat   // UnsupportedFormatError
    | Conflict            // a mapping and a non-mapping meet at the same key while merging
    | BadValue            // ValueError
    | KeyMissing          // KeyError
    | AttributeMissing    // AttributeError
    | Interpolation(name: string)  // InterpolationError naming the first unset variable
    | Validation          // ValidationError

  datatype Result<T> = Ok(value: T) | Err(error: ConfigError)

  /** The set of keys of a mapping. */
  function Keys(es: seq<Entry>): set<string>
  {
    set i | 0 <= i < |es| :: es[i].key
  }

  /** `d.get(k)`: the value stored under `k`, if any. */
  function Lookup(es: seq<Entry>, k: string): (r: Option<Value>)
    ensures r.Some? <==> k in Keys(es)
  {
    if |es| == 0 then None
    else if es[0].key == k then Some(es[0].val)
    else
      var r := Lookup(es[1..], k);
      assert Keys(es) == {es[0].key} + Keys(es[1..]) by {
        assert forall i :: 0 < i < |es| ==> es[i] == es[1..][i - 1];
      }
      r
  }

  /** `d[k] = v`: replaces the value of an existing key in place, or appends a new entry. */
  function Put(es: seq<Entry>, k: string, v: Value): (r: seq<Entry>)
  {
    if |es| == 0 then [Entry(k, v)]
    else if es[0].key == k then [Entry(k, v)] + es[1..]
    else [es[0]] + Put(es[1..], k, v)
  }

  /** Reading back after `d[k] = v` gives `v` at `k` and the old value everywhere else. */
  lemma {:induction false} LookupPut(es: seq<Entry>, k: string, v: Value, k': string)
    ensures Lookup(Put(es, k, v), k') == if k' == k then Some(v) else Lookup(es, k')
  {
    if |es| > 0 && es[0].key != k {
      LookupPut(es[1..], k, v, k');
      assert Put(es, k, v)[1..] == Put(es[1..], k, v);
    }
  }

  /** `d[k] = v` adds `k` to the keys and removes none. */
  lemma {:induction false} KeysPut(es: seq<Entry>, k: string, v: Value)
    ensures Keys(Put(es, k, v)) == Keys(es) + {k}
  {
    forall k' ensures k' in Keys(Put(es, k, v)) <==> k' in Keys(es) + {k} {
      LookupPut(es, k, v, k');
    }
  }

  /** No key occurs twice in any mapping of the tree, as in a Python dictionary. */
  predicate DistinctKeys(es: seq<Entry>)
  {
    forall i, j :: 0 <= i < j < |es| ==> es[i].key != es[j].key
  }

  /** `d[k] = v` keeps the keys of a dictionary distinct. */
  lemma {:induction false} PutDistinct(es: seq<Entry>, k: string, v: Value)
    requires DistinctKeys(es)
    ensures DistinctKeys(Put(es, k, v))
  {
    if |es| > 0 && es[0].key != k {
      PutDistinct(es[1..], k, v);
      KeysPut(es[1..], k, v);
      var r := Put(es, k, v);
      assert r == [es[0]] + Put(es[1..], k, v);
      forall j | 0 < j < |r| ensures r[0].key != r[j].key {
        assert r[j].key in Keys(Put(es[1..], k, v));
        assert forall i :: 0 <= i < |es[1..]| ==> es[1..][i].key == es[i + 1].key;
      }
    }
  }

  /** Every mapping in the tree has distinct keys. */
  predicate WellFormed(v: Value)
  {
    match v
    case List(xs) => forall i :: 0 <= i < |xs| ==> WellFormed(xs[i])
    case Map(es) => DistinctKeys(es) && forall i :: 0 <= i < |es| ==> WellFormed(es[i].val)
    case _ => true
  }

  /** A size measure used to order the mutually recursive merge functions. */
  function Size(v: Value): (n: nat)
    ensures n >= 1
  {
    match v
    case List(xs) => 1 + SizeList(xs)
    case Map(es) => 1 + SizeEntries(es)
    case _ => 1
  }

  function SizeList(xs: seq<Value>): nat
  {
    if |xs| == 0 then 0 else Size(xs[0]) + SizeList(xs[1..])
  }

  function SizeEntries(es: seq<Entry>): nat
  {
    if |es| == 0 then 0 else Size(es[0].val) + 1 + SizeEntries(es[1..])
  }

  /** The segments of a dotted key or path: `"a.b.c"` is `["a", "b", "c"]`. */
  function SplitKey(k: string): (path: seq<string>)
    ensures |path| >= 1
  {
    Text.Split(k, ".")
  }

  /** A key with no dot is a one-segment path. */
  lemma PlainKey(k: string)
    requires '.' !in k
    ensures SplitKey(k) == [k]
  {
    Text.SplitNoSeparator(k, ".");
  }

  /** Descends literal key segments through nested mappings (`d[p0][p1]...`). */
  function GetPath(v: Value, path: seq<string>): Option<Value>
    decreases |path|
  {
    if |path| == 0 then Some(v)
    else if !v.Map? then None
    else match Lookup(v.entries, path[0])
      case None => None
      case Some(child) => GetPath(child, path[1..])
  }

  /** `{p0: {p1: ... {pn: v}}}`: the tree holding `v` alone at `path`. */
  function Nest(path: seq<string>, v: Value): (r: Value)
    ensures GetPath(r, path) == Some(v)
  {
    if |path| == 0 then v
    else
      var r := Map([Entry(path[0], Nest(path[1..], v))]);
      assert Lookup(r.entries, path[0]) == Some(Nest(path[1..], v));
      r
  }

  /** True when a `MissingEnvVar` sentinel occurs anywhere in the tree. */
  predicate ContainsMissing(v: Value)
  {
    match v
    case Missing(_) => true
    case List(xs) => exists i :: 0 <= i < |xs| && ContainsMissing(xs[i])
    case Map(es) => exists i :: 0 <= i < |es| && ContainsMissing(es[i].val)
    case _ => false
  }
}
