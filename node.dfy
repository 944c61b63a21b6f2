/**
 * Navigation of a configuration mapping, as `ConfigNode` and `ConfigView`
 * offer it: identifier-safe aliases for attribute access (`-` and space become
 * `_`, a leading digit gets a `_` prefix, a Python keyword gets a trailing
 * `_`), subscript and attribute lookup that accept both the original key and
 * its alias, `_dotted_get` over a dotted path, and `get` with a default and an
 * optional coercion. A node is modelled by its mapping; wrapping nested
 * mappings and lists of mappings into nodes is the identity on values.
 */
module Node {

  import opened Wrappers
  import opened Tree
  import Text
  import Coerce
  import Merge

  const Keywords: set<string> := {
    "False", "None", "True", "and", "as", "assert", "async", "await", "break",
    "class", "continue", "def", "del", "elif", "else", "except", "finally", "for",
    "from", "global", "if", "import", "in", "is", "lambda", "nonlocal", "not", "or",
    "pass", "raise", "return", "try", "while", "with", "yield"
  }

  predicate IsIdentChar(c: char)
  {
    'a' <= c <= 'z' || 'A' <= c <= 'Z' || '0' <= c <= '9' || c == '_'
  }

  /** A name usable after a dot in Python source (ASCII letters, digits, `_`; no leading digit). */
  predicate IsIdentifier(s: string)
  {
    |s| > 0 && !Text.IsDigit(s[0]) && forall i :: 0 <= i < |s| ==> IsIdentChar(s[i])
  }

  /** Every character that cannot appear in an identifier becomes `_`. */
  function Sanitize(k: string): (r: string)
    ensures |r| == |k|
    ensures forall i :: 0 <= i < |k| ==> r[i] == if IsIdentChar(k[i]) then k[i] else '_'
  {
    seq(|k|, i requires 0 <= i < |k| => if IsIdentChar(k[i]) then k[i] else '_')
  }

  /** The attribute name under which a key is reachable. */
  function Alias(k: string): string
  {
    var s := Sanitize(k);
    var s' := if |s| > 0 && Text.IsDigit(s[0]) then "_" + s else s;
    if s' in Keywords then s' + "_" else s'
  }

  /** The first key, in mapping order, whose alias is `name`. */
  function FirstAliased(es: seq<Entry>, name: string): (r: Option<string>)
    ensures r.Some? ==> r.value in Keys(es) && Alias(r.value) == name
    ensures r.None? ==> forall i :: 0 <= i < |es| ==> Alias(es[i].key) != name
  {
    if |es| == 0 then None
    else if Alias(es[0].key) == name then Some(es[0].key)
    else
      var r := FirstAliased(es[1..], name);
      assert forall i :: 0 < i < |es| ==> es[i] == es[1..][i - 1];
      r
  }

  /** The key a node's `__getattr__` and `__getitem__` resolve `name` to: the key itself, else a key aliased to it. */
  function FindKey(es: seq<Entry>, name: string): Option<string>
  {
    if name in Keys(es) then Some(name) else FirstAliased(es, name)
  }

  /** `getattr(node, name)`: a missing name raises `AttributeError`. */
  function GetAttr(es: seq<Entry>, name: string): Result<Value>
  {
    match FindKey(es, name)
    case Some(k) => Ok(Lookup(es, k).value)
    case None => Err(AttributeMissing)
  }

  /** `node[name]`: a missing name raises `KeyError`. */
  function GetItem(es: seq<Entry>, name: string): Result<Value>
  {
    match FindKey(es, name)
    case Some(k) => Ok(Lookup(es, k).value)
    case None => Err(KeyMissing)
  }

  /** One step of `_dotted_get`: the segment itself, else its alias, as a key. */
  function StepKey(es: seq<Entry>, part: string): Option<string>
  {
    if part in Keys(es) then Some(part)
    else if Alias(part) in Keys(es) then Some(Alias(part))
    else None
  }

  function Descend(v: Value, parts: seq<string>): Result<Value>
    decreases |parts|
  {
    if |parts| == 0 then Ok(v)
    else if !v.Map? then Err(KeyMissing)
    else match StepKey(v.entries, parts[0])
      case None => Err(KeyMissing)
      case Some(k) => Descend(Lookup(v.entries, k).value, parts[1..])
  }

  /** `_dotted_get(mapping, path)`: a missing segment raises `KeyError`. */
  function DottedGet(es: seq<Entry>, path: string): Result<Value>
  {
    Descend(Map(es), SplitKey(path))
  }

  /** `get(path, default, coerce)`: an empty path raises `ValueError`; a missing path or a failed conversion gives `default`. */
  function Get(es: seq<Entry>, path: string, default: Value, coerce: Option<Coerce.Coercion>): Result<Value>
  {
    if path == "" then Err(BadValue)
    else match DottedGet(es, path)
      case Err(_) => Ok(default)
      case Ok(v) =>
        match coerce
        case None => Ok(v)
        case Some(c) =>
          match Coerce.Apply(c, v)
          case Ok(w) => Ok(w)
          case Err(_) => Ok(default)
  }

  // ---------------------------------------------------------------------
  // Properties of aliases
  // ---------------------------------------------------------------------

  lemma KeywordsHaveNoTrailingUnderscore()
    ensures forall w :: w in Keywords ==> |w| > 0 && w[|w| - 1] != '_'
  {
  }

  /** The alias of a non-empty key is an identifier that is not a keyword. */
  lemma AliasIsIdentifier(k: string)
    requires |k| > 0
    ensures IsIdentifier(Alias(k)) && Alias(k) !in Keywords
  {
    var s := Sanitize(k);
    var s' := if |s| > 0 && Text.IsDigit(s[0]) then "_" + s else s;
    assert IsIdentifier(s');
    if s' in Keywords {
      var r := s' + "_";
      assert Alias(k) == r;
      assert IsIdentifier(r) by {
        assert r[0] == s'[0];
        assert forall i :: 0 <= i < |r| ==> IsIdentChar(r[i]);
      }
      UnderscoreEndIsNoKeyword(r);
    } else {
      assert Alias(k) == s';
    }
  }

  /** No keyword ends with `_`, so a name that does is not one. */
  lemma UnderscoreEndIsNoKeyword(r: string)
    requires |r| > 0 && r[|r| - 1] == '_'
    ensures r !in Keywords
  {
    KeywordsHaveNoTrailingUnderscore();
  }

  /** A key is its own alias exactly when it already is an identifier and not a keyword. */
  lemma AliasFixpoint(k: string)
    requires |k| > 0
    ensures Alias(k) == k <==> IsIdentifier(k) && k !in Keywords
  {
    if IsIdentifier(k) && k !in Keywords {
      assert Sanitize(k) == k;
    }
    if Alias(k) == k {
      AliasIsIdentifier(k);
    }
  }

  /** Aliasing twice is aliasing once. */
  lemma AliasIdempotent(k: string)
    requires |k| > 0
    ensures Alias(Alias(k)) == Alias(k)
  {
    AliasIsIdentifier(k);
    AliasFixpoint(Alias(k));
  }

  // ---------------------------------------------------------------------
  // Properties of lookup
  // ---------------------------------------------------------------------

  /** `FindKey` resolves a name to a key of the node that is the name or has it as alias, and fails only when there is none. */
  lemma FindKeySound(es: seq<Entry>, name: string)
    ensures FindKey(es, name).Some? ==>
      FindKey(es, name).value in Keys(es) &&
      (FindKey(es, name).value == name || Alias(FindKey(es, name).value) == name)
    ensures FindKey(es, name).None? <==> name !in Keys(es) && forall i :: 0 <= i < |es| ==> Alias(es[i].key) != name
  {
    if name !in Keys(es) && FirstAliased(es, name).Some? {
      var k := FirstAliased(es, name).value;
      var i :| 0 <= i < |es| && es[i].key == k;
    }
  }

  /** The original key always stays reachable, by subscript and by `getattr`. */
  lemma OriginalKeyReachable(es: seq<Entry>, k: string)
    requires k in Keys(es)
    ensures GetItem(es, k) == Ok(Lookup(es, k).value)
    ensures GetAttr(es, k) == Ok(Lookup(es, k).value)
  {
  }

  lemma {:induction false} LookupAt(es: seq<Entry>, i: nat)
    requires i < |es| && DistinctKeys(es)
    ensures Lookup(es, es[i].key) == Some(es[i].val)
  {
    if i > 0 {
      assert es[0].key != es[i].key;
      assert DistinctKeys(es[1..]) by {
        assert forall a :: 0 <= a < |es[1..]| ==> es[1..][a] == es[a + 1];
      }
      LookupAt(es[1..], i - 1);
    }
  }

  lemma {:induction false} FirstAliasedAt(es: seq<Entry>, i: nat)
    requires i < |es|
    requires forall j :: 0 <= j < i ==> Alias(es[j].key) != Alias(es[i].key)
    ensures FirstAliased(es, Alias(es[i].key)) == Some(es[i].key)
  {
    if i > 0 {
      FirstAliasedAt(es[1..], i - 1);
    }
  }

  /**
   * The alias reaches the value of its key, by attribute and by subscript, unless
   * the alias is itself a key of the node or an earlier key has the same alias.
   */
  lemma AliasReachable(es: seq<Entry>, i: nat)
    requires i < |es| && DistinctKeys(es)
    requires Alias(es[i].key) !in Keys(es)
    requires forall j :: 0 <= j < i ==> Alias(es[j].key) != Alias(es[i].key)
    ensures GetAttr(es, Alias(es[i].key)) == Ok(es[i].val)
    ensures GetItem(es, Alias(es[i].key)) == Ok(es[i].val)
  {
    FirstAliasedAt(es, i);
    LookupAt(es, i);
  }

  /** `get` raises only for the empty path; otherwise it yields the value, its conversion, or the default. */
  lemma GetNeverRaises(es: seq<Entry>, path: string, default: Value, coerce: Option<Coerce.Coercion>)
    ensures Get(es, path, default, coerce).Err? <==> path == ""
    ensures path == "" ==> Get(es, path, default, coerce) == Err(BadValue)
    ensures path != "" && DottedGet(es, path).Err? ==> Get(es, path, default, coerce) == Ok(default)
    ensures path != "" && DottedGet(es, path).Ok? && coerce.Some? && Coerce.Apply(coerce.value, DottedGet(es, path).value).Err?
      ==> Get(es, path, default, coerce) == Ok(default)
  {
  }

  /** A path found by literal segments is found the same way by `_dotted_get`. */
  lemma {:induction false} DescendFollowsPath(v: Value, parts: seq<string>)
    requires GetPath(v, parts).Some?
    ensures Descend(v, parts) == Ok(GetPath(v, parts).value)
    decreases |parts|
  {
    if |parts| > 0 {
      DescendFollowsPath(Lookup(v.entries, parts[0]).value, parts[1..]);
    }
  }

  /**
   * What `apply_overrides` writes at a dotted key into an empty mapping,
   * `_dotted_get` reads back at the same dotted key.
   */
  lemma DottedRoundTrip(parts: seq<string>, v: Value)
    requires |parts| > 0 && !v.Map?
    requires forall i :: 0 <= i < |parts| ==> '.' !in parts[i]
    ensures var o := Merge.MergeEntries([], [Entry(Text.Join(parts, "."), v)]);
      o.err.None? && DottedGet(o.entries, Text.Join(parts, ".")) == Ok(v)
  {
    var key := Text.Join(parts, ".");
    Text.SplitJoin(parts, ".");
    Merge.AssignIntoEmpty(parts, v);
    var o := Merge.Assign([], parts, v);
    Merge.AssignLeafWins([], parts, v);
    DescendFollowsPath(Map(o.entries), parts);
  }

  // ---------------------------------------------------------------------
  // The behaviour the test suite pins down
  // ---------------------------------------------------------------------

  /** `with-dash`, `inner-key`, `has space`, `1alpha` and `class` become `with_dash`, `inner_key`, `has_space`, `_1alpha` and `class_`. */
  lemma AliasExamples()
    ensures Alias("with-dash") == "with_dash"
    ensures Alias("inner-key") == "inner_key"
    ensures Alias("has space") == "has_space"
    ensures Alias("1alpha") == "_1alpha"
    ensures Alias("class") == "class_"
  {
    AliasOfPlain("with-dash", "with_dash");
    AliasOfPlain("inner-key", "inner_key");
    AliasOfPlain("has space", "has_space");
    AliasOfDigit();
    AliasOfKeyword();
  }

  /** A key whose sanitised form starts with a letter and is no keyword is aliased to that form. */
  lemma AliasOfPlain(k: string, s: string)
    requires Sanitize(k) == s && |s| > 0 && !Text.IsDigit(s[0]) && s !in Keywords
    ensures Alias(k) == s
  {
  }

  lemma AliasOfDigit()
    ensures Alias("1alpha") == "_1alpha"
  {
    assert Sanitize("1alpha") == "1alpha";
    assert Text.IsDigit('1');
    assert "_" + "1alpha" == "_1alpha";
    UnderscoreStartIsNoKeyword("_1alpha");
  }

  /** No keyword starts with `_`. */
  lemma UnderscoreStartIsNoKeyword(r: string)
    requires |r| > 0 && r[0] == '_'
    ensures r !in Keywords
  {
  }

  lemma AliasOfKeyword()
    ensures Alias("class") == "class_"
  {
    assert Sanitize("class") == "class";
  }

  /** `node.with_dash.inner_key == 1` and `node["with-dash"]["inner-key"] == 1`; `class` and `class_` both reach the keyword key. */
  lemma NodeAccessExamples()
    ensures var inner := [Entry("inner-key", Int(1))];
      var es := [Entry("with-dash", Map(inner)), Entry("class", Bool(true))];
      && GetAttr(es, "with_dash") == Ok(Map(inner)) && GetAttr(inner, "inner_key") == Ok(Int(1))
      && GetItem(es, "with-dash") == Ok(Map(inner)) && GetItem(inner, "inner-key") == Ok(Int(1))
      && GetAttr(es, "class") == Ok(Bool(true)) && GetAttr(es, "class_") == Ok(Bool(true))
      && GetItem(es, "class_") == Ok(Bool(true))
  {
    AliasExamples();
    var inner := [Entry("inner-key", Int(1))];
    var es := [Entry("with-dash", Map(inner)), Entry("class", Bool(true))];
    assert "with_dash" !in Keys(es) && "class_" !in Keys(es);
    assert "inner_key" !in Keys(inner);
    assert FirstAliased(es, "with_dash") == Some("with-dash");
    assert FirstAliased(es, "class_") == Some("class");
  }

  /** A missing attribute raises `AttributeError` and a missing item `KeyError`. */
  lemma MissingAccessExamples()
    ensures var es := [Entry("1alpha", Int(10)), Entry("has space", Int(20))];
      && GetAttr(es, "missing_attr") == Err(AttributeMissing)
      && GetItem(es, "missing") == Err(KeyMissing)
  {
    var es := [Entry("1alpha", Int(10)), Entry("has space", Int(20))];
    AliasExamples();
    assert FirstAliased(es, "missing_attr") == None;
    assert FirstAliased(es, "missing") == None;
  }

  /** `get("missing", default=7)` gives 7. */
  lemma GetDefaultExample()
    ensures Get([Entry("1alpha", Int(10)), Entry("has space", Int(20))], "missing", Int(7), None) == Ok(Int(7))
  {
    var es := [Entry("1alpha", Int(10)), Entry("has space", Int(20))];
    assert StepKey(es, "missing") == None by {
      assert Alias("missing") == "missing" by {
        assert Sanitize("missing") == "missing";
        assert "missing" !in Keywords;
      }
      assert Keys(es) == {"1alpha", "has space"} by {
        assert es[0].key in Keys(es) && es[1].key in Keys(es);
      }
    }
    assert Descend(Map(es), ["missing"]) == Err(KeyMissing);
    PlainKey("missing");
  }

  /** `node._1alpha == 10` and `node.has_space == 20`. */
  lemma LeadingDigitAndSpaceExamples()
    ensures var es := [Entry("1alpha", Int(10)), Entry("has space", Int(20))];
      GetAttr(es, "_1alpha") == Ok(Int(10)) && GetAttr(es, "has_space") == Ok(Int(20))
  {
    var es := [Entry("1alpha", Int(10)), Entry("has space", Int(20))];
    AliasExamples();
    assert FirstAliased(es, "_1alpha") == Some("1alpha");
    assert FirstAliased(es, "has_space") == Some("has space");
  }

  /** `_dotted_get({"key": 1}, "key") == 1`. */
  lemma DottedGetPresentExample()
    ensures DottedGet([Entry("key", Int(1))], "key") == Ok(Int(1))
  {
    var es := [Entry("key", Int(1))];
    assert StepKey(es, "key") == Some("key") by {
      assert es[0].key in Keys(es);
    }
    assert Lookup(es, "key") == Some(Int(1));
    assert Descend(Map(es), ["key"]) == Ok(Int(1)) by {
      assert ["key"][1..] == [];
    }
    PlainKey("key");
  }

  /** `_dotted_get({"inner_key": 1}, "inner-key") == 1`: the segment's alias is tried as a key. */
  lemma DottedGetAliasExample()
    ensures DottedGet([Entry("inner_key", Int(1))], "inner-key") == Ok(Int(1))
  {
    var es := [Entry("inner_key", Int(1))];
    assert Alias("inner-key") == "inner_key" by { AliasExamples(); }
    assert es[0].key in Keys(es);
    assert "inner-key" !in Keys(es);
    assert StepKey(es, "inner-key") == Some("inner_key");
    assert Lookup(es, "inner_key") == Some(Int(1));
    assert Descend(Map(es), ["inner-key"]) == Ok(Int(1));
    PlainKey("inner-key");
  }

  /** `_dotted_get({}, "nope")` raises `KeyError`. */
  lemma DottedGetMissingExample()
    ensures DottedGet([], "nope") == Err(KeyMissing)
  {
    PlainKey("nope");
  }

  /** The view used by the `get` examples: a list of mappings and a nested mapping. */
  function ViewExample(): seq<Entry>
  {
    [Entry("items", List([Map([Entry("a", Int(1))]), Map([Entry("a", Int(2))])])),
     Entry("nested", Map([Entry("on", Str("true"))]))]
  }

  lemma NestedStep()
    ensures StepKey(ViewExample(), "nested") == Some("nested")
    ensures Lookup(ViewExample(), "nested") == Some(Map([Entry("on", Str("true"))]))
  {
    var es := ViewExample();
    assert es[1].key in Keys(es);
  }

  lemma NestedPaths()
    ensures SplitKey("nested.on") == ["nested", "on"]
    ensures SplitKey("nested.off") == ["nested", "off"]
  {
    assert Text.Join(["nested", "on"], ".") == "nested.on";
    Text.SplitJoin(["nested", "on"], ".");
    assert Text.Join(["nested", "off"], ".") == "nested.off";
    Text.SplitJoin(["nested", "off"], ".");
  }

  lemma NestedDescend()
    ensures Descend(Map(ViewExample()), ["nested", "on"]) == Ok(Str("true"))
    ensures Descend(Map(ViewExample()), ["nested", "off"]) == Err(KeyMissing)
  {
    var nested := [Entry("on", Str("true"))];
    NestedStep();
    assert Keys(nested) == {"on"} by {
      assert nested[0].key in Keys(nested);
    }
    assert StepKey(nested, "on") == Some("on");
    assert StepKey(nested, "off") == None by {
      assert Alias("off") == "off" by {
        assert Sanitize("off") == "off";
        assert "off" !in Keywords;
      }
    }
    assert Descend(Map(nested), ["on"]) == Ok(Str("true"));
    assert Descend(Map(nested), ["off"]) == Err(KeyMissing);
    assert ["nested", "on"][1..] == ["on"];
    assert ["nested", "off"][1..] == ["off"];
  }

  lemma NestedDottedGet()
    ensures DottedGet(ViewExample(), "nested.on") == Ok(Str("true"))
    ensures DottedGet(ViewExample(), "nested.off") == Err(KeyMissing)
  {
    NestedPaths();
    NestedDescend();
  }

  /** `get("nested.on", coerce=bool)` is true: the string `"true"` is coerced. */
  lemma ViewGetBoolExample()
    ensures Get(ViewExample(), "nested.on", Null, Some(Coerce.ToBool)) == Ok(Bool(true))
  {
    NestedDottedGet();
    Coerce.CoerceBoolExamples();
  }

  /** `get("nested.off", default=False, coerce=bool)` is false: a missing leaf gives the default. */
  lemma ViewGetDefaultExample()
    ensures Get(ViewExample(), "nested.off", Bool(false), Some(Coerce.ToBool)) == Ok(Bool(false))
  {
    NestedDottedGet();
  }

  /** `get("")` raises `ValueError`. */
  lemma EmptyPathExample()
    ensures Get([Entry("a", Int(1))], "", Null, None) == Err(BadValue)
  {
  }

  /** `get("v", default=0, coerce=int)` on `"abc"` gives 0: the failed conversion falls back to the default. */
  lemma FailedCoercionExample()
    ensures Get([Entry("v", Str("abc"))], "v", Int(0), Some(Coerce.ToInt)) == Ok(Int(0))
  {
    var es := [Entry("v", Str("abc"))];
    assert StepKey(es, "v") == Some("v") by {
      assert es[0].key in Keys(es);
    }
    assert Descend(Map(es), ["v"]) == Ok(Str("abc"));
    PlainKey("v");
    Coerce.IntCoercionFailsOnText();
  }

  /** `node.l[0].a == 1` and `node.l[1].a == 2`: a list of mappings is indexed, then each mapping read by attribute. */
  lemma ListOfMappingsExample()
    ensures var items := [Map([Entry("a", Int(1))]), Map([Entry("a", Int(2))])];
      && GetAttr([Entry("l", List(items))], "l") == Ok(List(items))
      && GetAttr(items[0].entries, "a") == Ok(Int(1))
      && GetAttr(items[1].entries, "a") == Ok(Int(2))
  {
    var items := [Map([Entry("a", Int(1))]), Map([Entry("a", Int(2))])];
    OriginalKeyReachable([Entry("l", List(items))], "l") by {
      assert [Entry("l", List(items))][0].key in Keys([Entry("l", List(items))]);
    }
    OriginalKeyReachable(items[0].entries, "a") by {
      assert items[0].entries[0].key in Keys(items[0].entries);
    }
    OriginalKeyReachable(items[1].entries, "a") by {
      assert items[1].entries[0].key in Keys(items[1].entries);
    }
  }

  /** `ConfigView({"a": 1})`: `view["a"] == 1`, and `view.missing` raises `AttributeError`. */
  lemma ViewKeyExamples()
    ensures GetItem([Entry("a", Int(1))], "a") == Ok(Int(1))
    ensures GetAttr([Entry("a", Int(1))], "missing") == Err(AttributeMissing)
  {
    var es := [Entry("a", Int(1))];
    OriginalKeyReachable(es, "a") by {
      assert es[0].key in Keys(es);
    }
    assert Alias("a") == "a" by {
      assert Sanitize("a") == "a";
    }
    assert FirstAliased(es, "missing") == None;
  }
}
