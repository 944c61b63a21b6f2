/**
 * Environment placeholders in string values: `${NAME}` (required),
 * `${NAME:-DEFAULT}` and `${NAME:DEFAULT}` (both: use DEFAULT when NAME is
 * unset). The environment is passed in as a map. A string value that is
 * exactly one placeholder is replaced by the variable's value, by the default,
 * or, for a required variable that is unset, by the `MissingEnvVar` sentinel.
 * Resolution walks mappings, lists and nested lists and keeps their shape.
 */
module Placeholders {

  import opened Wrappers
  import opened Tree

  /** What follows the name inside the braces. */
  datatype Fallback = Required | ColonDash(text: string) | Colon(text: string)

  datatype Placeholder = Placeholder(name: string, fallback: Fallback)

  /** Position of the first `:` in `body`, or `|body|` when there is none. */
  function NameLength(body: string): (n: nat)
    ensures n <= |body|
    ensures forall i :: 0 <= i < n ==> body[i] != ':'
    ensures n < |body| ==> body[n] == ':'
  {
    if |body| == 0 || body[0] == ':' then 0 else 1 + NameLength(body[1..])
  }

  /** Reads what lies between `${` and `}`: a non-empty name up to the first `:`, then the fallback. */
  function ParseBody(body: string): Option<Placeholder>
  {
    var n := NameLength(body);
    if n == 0 then None
    else
      var rest := body[n..];
      if |rest| == 0 then Some(Placeholder(body[..n], Required))
      else if |rest| >= 2 && rest[1] == '-' then Some(Placeholder(body[..n], ColonDash(rest[2..])))
      else Some(Placeholder(body[..n], Colon(rest[1..])))
  }

  /** Recognises a whole string of the form `${NAME}`, `${NAME:-D}` or `${NAME:D}` (no `}` inside, NAME non-empty and without `:`). */
  function ParsePlaceholder(s: string): Option<Placeholder>
  {
    if |s| >= 3 && s[..2] == "${" && s[|s| - 1] == '}' && '}' !in s[2..|s| - 1] then ParseBody(s[2..|s| - 1])
    else None
  }

  function FallbackText(f: Fallback): string
  {
    match f
    case Required => ""
    case ColonDash(d) => ":-" + d
    case Colon(d) => ":" + d
  }

  /** The placeholder written out as text. */
  function FormatPlaceholder(p: Placeholder): string
  {
    "${" + p.name + FallbackText(p.fallback) + "}"
  }

  /** The placeholders that can be written down: what `ParsePlaceholder` accepts. */
  predicate ValidPlaceholder(p: Placeholder)
  {
    && |p.name| > 0 && ':' !in p.name && '}' !in p.name
    && match p.fallback
       case Required => true
       case ColonDash(d) => '}' !in d
       case Colon(d) => '}' !in d && (|d| == 0 || d[0] != '-')
  }

  /** `str(MissingEnvVar(name))`. */
  function MissingText(name: string): string
  {
    "${" + name + "}"
  }

  /** Resolves one string value against the environment. */
  function ResolveString(s: string, env: map<string, string>): Value
  {
    match ParsePlaceholder(s)
    case None => Str(s)
    case Some(p) =>
      if p.name in env then Str(env[p.name])
      else match p.fallback
        case Required => Missing(p.name)
        case ColonDash(d) => Str(d)
        case Colon(d) => Str(d)
  }

  /** The two trees have the same shape: same kinds, same list lengths, same keys in the same order; strings may become sentinels. */
  predicate SameShape(v: Value, w: Value)
  {
    match v
    case List(xs) => w.List? && |w.items| == |xs| && forall i :: 0 <= i < |xs| ==> SameShape(xs[i], w.items[i])
    case Map(es) =>
      && w.Map? && |w.entries| == |es|
      && forall i :: 0 <= i < |es| ==> es[i].key == w.entries[i].key && SameShape(es[i].val, w.entries[i].val)
    case Str(_) => w.Str? || w.Missing?
    case _ => w == v
  }

  /** `resolve_placeholders(value)`: every string leaf, inside mappings, lists and nested lists, is resolved. */
  function Resolve(v: Value, env: map<string, string>): (r: Value)
    ensures SameShape(v, r)
  {
    match v
    case Str(s) => ResolveString(s, env)
    case List(xs) => List(seq(|xs|, i requires 0 <= i < |xs| => Resolve(xs[i], env)))
    case Map(es) => Map(seq(|es|, i requires 0 <= i < |es| => Entry(es[i].key, Resolve(es[i].val, env))))
    case _ => v
  }

  /** Some string leaf is a required placeholder whose variable is unset. */
  predicate HasUnsetRequired(v: Value, env: map<string, string>)
  {
    match v
    case Str(s) => ParsePlaceholder(s).Some? && ParsePlaceholder(s).value.fallback.Required? && ParsePlaceholder(s).value.name !in env
    case List(xs) => exists i :: 0 <= i < |xs| && HasUnsetRequired(xs[i], env)
    case Map(es) => exists i :: 0 <= i < |es| && HasUnsetRequired(es[i].val, env)
    case _ => false
  }

  /** The name of the first sentinel in document order. */
  function FirstMissing(v: Value): (r: Option<string>)
    ensures r.Some? <==> ContainsMissing(v)
  {
    match v
    case Missing(n) => Some(n)
    case List(xs) => FirstMissingIn(xs)
    case Map(es) => FirstMissingEntries(es)
    case _ => None
  }

  function FirstMissingIn(xs: seq<Value>): (r: Option<string>)
    ensures r.Some? <==> exists i :: 0 <= i < |xs| && ContainsMissing(xs[i])
  {
    if |xs| == 0 then None
    else match FirstMissing(xs[0])
      case Some(n) => Some(n)
      case None =>
        var r := FirstMissingIn(xs[1..]);
        assert forall i :: 0 < i < |xs| ==> xs[i] == xs[1..][i - 1];
        r
  }

  function FirstMissingEntries(es: seq<Entry>): (r: Option<string>)
    ensures r.Some? <==> exists i :: 0 <= i < |es| && ContainsMissing(es[i].val)
  {
    if |es| == 0 then None
    else match FirstMissing(es[0].val)
      case Some(n) => Some(n)
      case None =>
        var r := FirstMissingEntries(es[1..]);
        assert forall i :: 0 < i < |es| ==> es[i] == es[1..][i - 1];
        r
  }

  /** The interpolation step of a load: when enabled, any sentinel left in the tree fails the load with the first unset name. */
  function Interpolate(v: Value, env: map<string, string>, enabled: bool): Result<Value>
  {
    if !enabled then Ok(v)
    else
      var r := Resolve(v, env);
      match FirstMissing(r)
      case Some(n) => Err(Interpolation(n))
      case None => Ok(r)
  }

  // ---------------------------------------------------------------------
  // Properties
  // ---------------------------------------------------------------------

  lemma {:induction false} NameLengthAppend(a: string, b: string)
    requires ':' !in a && (|b| == 0 || b[0] == ':')
    ensures NameLength(a + b) == |a|
  {
    if |a| > 0 {
      assert (a + b)[0] == a[0] && a[0] in a;
      assert (a + b)[1..] == a[1..] + b;
      assert forall c :: c in a[1..] ==> c in a;
      NameLengthAppend(a[1..], b);
    } else {
      assert a + b == b;
    }
  }

  /** The braces around a body are recognised and stripped. */
  lemma Unwrap(body: string)
    ensures var s := "${" + body + "}";
      |s| >= 3 && s[..2] == "${" && s[|s| - 1] == '}' && s[2..|s| - 1] == body
  {
  }

  /** A written name and fallback are read back as themselves. */
  lemma ParseBodyFormat(p: Placeholder)
    requires ValidPlaceholder(p)
    ensures ParseBody(p.name + FallbackText(p.fallback)) == Some(p)
  {
    var tail := FallbackText(p.fallback);
    var body := p.name + tail;
    NameLengthAppend(p.name, tail);
    assert body[..|p.name|] == p.name;
    assert body[|p.name|..] == tail;
  }

  /** Reading back a written placeholder gives the same placeholder. */
  lemma ParseFormat(p: Placeholder)
    requires ValidPlaceholder(p)
    ensures ParsePlaceholder(FormatPlaceholder(p)) == Some(p)
  {
    var tail := FallbackText(p.fallback);
    var body := p.name + tail;
    assert FormatPlaceholder(p) == "${" + body + "}";
    Unwrap(body);
    assert '}' !in tail;
    assert '}' !in body;
    ParseBodyFormat(p);
  }

  lemma NotInSlice(s: string, c: char, i: nat, j: nat)
    requires c !in s && i <= j <= |s|
    ensures c !in s[i..j]
  {
    assert forall k :: 0 <= k < j - i ==> s[i..j][k] == s[i + k];
  }

  /** A body the reader accepts is a valid name and fallback, written out exactly as it was read. */
  lemma FormatParseBody(body: string)
    requires '}' !in body && ParseBody(body).Some?
    ensures ValidPlaceholder(ParseBody(body).value)
    ensures ParseBody(body).value.name + FallbackText(ParseBody(body).value.fallback) == body
  {
    var p := ParseBody(body).value;
    var n := NameLength(body);
    var rest := body[n..];
    assert p.name == body[..n];
    NotInSlice(body, '}', 0, n);
    assert ':' !in p.name by {
      assert forall k :: 0 <= k < n ==> p.name[k] == body[k];
    }
    NotInSlice(body, '}', n, |body|);
    if |rest| > 0 {
      assert rest[0] == ':';
      if |rest| >= 2 && rest[1] == '-' {
        NotInSlice(rest, '}', 2, |rest|);
        assert rest == ":-" + rest[2..];
      } else {
        NotInSlice(rest, '}', 1, |rest|);
        assert rest == ":" + rest[1..];
      }
    }
    assert FallbackText(p.fallback) == rest;
    assert body == p.name + rest;
  }

  /** Whatever the parser accepts is written out exactly as it was read. */
  lemma FormatParse(s: string)
    requires ParsePlaceholder(s).Some?
    ensures ValidPlaceholder(ParsePlaceholder(s).value)
    ensures FormatPlaceholder(ParsePlaceholder(s).value) == s
  {
    var body := s[2..|s| - 1];
    assert s[..2] == "${" && s[|s| - 1] == '}' && '}' !in body;
    var p := ParseBody(body).value;
    assert ParsePlaceholder(s).value == p;
    FormatParseBody(body);
    assert FormatPlaceholder(p) == "${" + body + "}";
    Rewrap(s);
  }

  /** A text of three or more characters is its first two, its middle and its last. */
  lemma Rewrap(s: string)
    requires |s| >= 3
    ensures s == s[..2] + s[2..|s| - 1] + [s[|s| - 1]]
  {
  }

  /** `str(MissingEnvVar(name))` is the required placeholder for `name`, so resolving it again without `name` gives the same sentinel. */
  lemma MissingTextIsRequiredPlaceholder(name: string, env: map<string, string>)
    requires |name| > 0 && ':' !in name && '}' !in name
    ensures ParsePlaceholder(MissingText(name)) == Some(Placeholder(name, Required))
    ensures name in env ==> ResolveString(MissingText(name), env) == Str(env[name])
    ensures name !in env ==> ResolveString(MissingText(name), env) == Missing(name)
  {
    ParseFormat(Placeholder(name, Required));
    assert FormatPlaceholder(Placeholder(name, Required)) == MissingText(name);
  }

  /** A string that is not exactly one placeholder is kept as it is, whatever the environment holds. */
  lemma ResolveKeepsPlainText(s: string, env: map<string, string>)
    ensures ParsePlaceholder(s).None? ==> ResolveString(s, env) == Str(s)
    ensures (|s| < 3 || s[..2] != "${" || s[|s| - 1] != '}') ==> ResolveString(s, env) == Str(s)
    ensures (|s| >= 3 && '}' in s[2..|s| - 1]) ==> ResolveString(s, env) == Str(s)
  {
  }

  /** After resolution a sentinel is left exactly where one already was or where a required variable is unset. */
  lemma {:induction false} ResolveLeavesMissing(v: Value, env: map<string, string>)
    ensures ContainsMissing(Resolve(v, env)) <==> ContainsMissing(v) || HasUnsetRequired(v, env)
  {
    match v
    case Str(s) =>
    case List(xs) =>
      var r := Resolve(v, env);
      forall i | 0 <= i < |xs| ensures ContainsMissing(r.items[i]) <==> ContainsMissing(xs[i]) || HasUnsetRequired(xs[i], env) {
        ResolveLeavesMissing(xs[i], env);
      }
      if ContainsMissing(r) {
        var i :| 0 <= i < |xs| && ContainsMissing(r.items[i]);
      }
    case Map(es) =>
      var r := Resolve(v, env);
      forall i | 0 <= i < |es| ensures ContainsMissing(r.entries[i].val) <==> ContainsMissing(es[i].val) || HasUnsetRequired(es[i].val, env) {
        ResolveLeavesMissing(es[i].val, env);
      }
      if ContainsMissing(r) {
        var i :| 0 <= i < |es| && ContainsMissing(r.entries[i].val);
      }
    case _ =>
  }

  /** With interpolation enabled a load fails exactly when a sentinel was already present or a required variable is unset; on success no sentinel remains. */
  lemma InterpolateFails(v: Value, env: map<string, string>)
    ensures Interpolate(v, env, true).Err? <==> ContainsMissing(v) || HasUnsetRequired(v, env)
    ensures Interpolate(v, env, true).Ok? ==> !ContainsMissing(Interpolate(v, env, true).value)
    ensures Interpolate(v, env, true).Err? ==> Interpolate(v, env, true).error.Interpolation?
  {
    ResolveLeavesMissing(v, env);
  }

  /** With interpolation disabled the placeholders stay as literal text. */
  lemma InterpolationDisabledKeepsText(v: Value, env: map<string, string>)
    ensures Interpolate(v, env, false) == Ok(v)
  {
  }

  // ---------------------------------------------------------------------
  // The behaviour the test suite pins down
  // ---------------------------------------------------------------------

  /** `${X:-default}`: the default when `X` is unset, the variable's value when it is set. */
  lemma ColonDashDefault(name: string, d: string, env: map<string, string>)
    requires |name| > 0 && ':' !in name && '}' !in name && '}' !in d
    ensures ResolveString("${" + name + ":-" + d + "}", env) == Str(if name in env then env[name] else d)
  {
    var p := Placeholder(name, ColonDash(d));
    ParseFormat(p);
    assert FormatPlaceholder(p) == "${" + name + ":-" + d + "}";
  }

  /** `${X:default}`: the same, and the default may contain `:` (as in a URL). */
  lemma ColonDefault(name: string, d: string, env: map<string, string>)
    requires |name| > 0 && ':' !in name && '}' !in name && '}' !in d && (|d| == 0 || d[0] != '-')
    ensures ResolveString("${" + name + ":" + d + "}", env) == Str(if name in env then env[name] else d)
  {
    var p := Placeholder(name, Colon(d));
    ParseFormat(p);
    assert FormatPlaceholder(p) == "${" + name + ":" + d + "}";
  }

  /** `ConfigNode({"x": "${X:-1}"})` resolves to `x == "1"` when `X` is unset. */
  lemma MappingDefaultExample()
    ensures Resolve(Map([Entry("x", Str("${X:-1}"))]), map[]) == Map([Entry("x", Str("1"))])
  {
    assert ResolveString("${X:-1}", map[]) == Str("1") by {
      ColonDashDefault("X", "1", map[]);
      XText();
    }
    ResolveSingleEntry("x", Str("${X:-1}"), map[]);
  }

  /** `["${Y:-ok}"]` resolves to `["ok"]`. */
  lemma ListDefaultExample()
    ensures Resolve(List([Str("${Y:-ok}")]), map[]) == List([Str("ok")])
  {
    assert ResolveString("${Y:-ok}", map[]) == Str("ok") by {
      ColonDashDefault("Y", "ok", map[]);
      YText();
    }
    ResolveSingleItem(Str("${Y:-ok}"), map[]);
  }

  lemma UrlDefault()
    ensures ResolveString("${URL:http://a}", map[]) == Str("http://a")
  {
    ColonDefault("URL", "http://a", map[]);
    UrlText();
  }

  /** `{"arr": [{"url": "${URL:http://a}"}]}` resolves the default inside a mapping inside a list. */
  lemma ListOfMappingsExample()
    ensures Resolve(Map([Entry("arr", List([Map([Entry("url", Str("${URL:http://a}"))])]))]), map[])
      == Map([Entry("arr", List([Map([Entry("url", Str("http://a"))])]))])
  {
    var inner := Map([Entry("url", Str("${URL:http://a}"))]);
    UrlDefault();
    ResolveSingleEntry("url", Str("${URL:http://a}"), map[]);
    ResolveSingleItem(inner, map[]);
    ResolveSingleEntry("arr", List([inner]), map[]);
  }

  lemma NestedDefault()
    ensures ResolveString("${N:ok}", map[]) == Str("ok")
  {
    ColonDefault("N", "ok", map[]);
    NText();
  }

  /** `{"nest": [["${N:ok}"]]}` resolves inside nested lists. */
  lemma NestedListExample()
    ensures Resolve(Map([Entry("nest", List([List([Str("${N:ok}")])]))]), map[])
      == Map([Entry("nest", List([List([Str("ok")])]))])
  {
    NestedDefault();
    ResolveSingleItem(Str("${N:ok}"), map[]);
    ResolveSingleItem(List([Str("${N:ok}")]), map[]);
    ResolveSingleEntry("nest", List([List([Str("${N:ok}")])]), map[]);
  }

  lemma MustSetMissing()
    ensures ResolveString("${MUST_SET}", map[]) == Missing("MUST_SET")
  {
    MissingTextIsRequiredPlaceholder("MUST_SET", map[]);
    MustSetText();
  }

  /** `MissingEnvVar("X")` renders as `${X}`, and an unset `${MUST_SET}` makes the interpolating load fail. */
  lemma RequiredUnsetFails()
    ensures MissingText("X") == "${X}"
    ensures Interpolate(Map([Entry("token", Str("${MUST_SET}"))]), map[], true) == Err(Interpolation("MUST_SET"))
  {
    MustSetMissing();
    ResolveSingleEntry("token", Str("${MUST_SET}"), map[]);
    var r := Map([Entry("token", Missing("MUST_SET"))]);
    assert FirstMissing(r) == Some("MUST_SET");
  }

  // ---------------------------------------------------------------------
  // Proof helpers
  // ---------------------------------------------------------------------

  // Unfoldings of Resolve on small inputs, and the example placeholders spelled out
  // piece by piece: they keep the example proofs small and state nothing new.

  /** Resolving a one-entry mapping resolves its value. */
  lemma ResolveSingleEntry(k: string, v: Value, env: map<string, string>)
    ensures Resolve(Map([Entry(k, v)]), env) == Map([Entry(k, Resolve(v, env))])
  {
  }

  /** Resolving a two-entry mapping resolves both values and keeps the keys in order. */
  lemma ResolveTwoEntries(k1: string, v1: Value, k2: string, v2: Value, env: map<string, string>)
    ensures Resolve(Map([Entry(k1, v1), Entry(k2, v2)]), env) == Map([Entry(k1, Resolve(v1, env)), Entry(k2, Resolve(v2, env))])
  {
  }

  /** Resolving a one-item list resolves its item. */
  lemma ResolveSingleItem(v: Value, env: map<string, string>)
    ensures Resolve(List([v]), env) == List([Resolve(v, env)])
  {
  }

  lemma XText()
    ensures "${" + "X" + ":-" + "1" + "}" == "${X:-1}"
  {
    assert "${" + "X" == "${X";
    assert "${X" + ":-" == "${X:-";
  }

  lemma YText()
    ensures "${" + "Y" + ":-" + "ok" + "}" == "${Y:-ok}"
  {
    assert "${" + "Y" == "${Y";
    assert "${Y" + ":-" == "${Y:-";
  }

  lemma NText()
    ensures "${" + "N" + ":" + "ok" + "}" == "${N:ok}"
  {
    assert "${" + "N" == "${N";
    assert "${N" + ":" == "${N:";
  }

  lemma UrlText()
    ensures "${" + "URL" + ":" + "http://a" + "}" == "${URL:http://a}"
  {
    assert "${" + "URL" == "${URL";
    assert "${URL" + ":" == "${URL:";
    assert "${URL:" + "http://a" == "${URL:http://a";
  }

  lemma MustSetText()
    ensures MissingText("MUST_SET") == "${MUST_SET}"
  {
    assert "${" + "MUST_SET" == "${MUST_SET";
  }
}
