/**
 * The manager's pipeline: load every source in order, require each to give a
 * mapping, merge them in order with the override rules, resolve placeholders
 * unless disabled, then run the validators in order. A validator checks the
 * whole tree or the sub-tree at a dotted selector; any failure surfaces as a
 * single validation error.
 */
module Manager {

  import opened Wrappers
  import opened Tree
  import Text
  import Merge
  import Placeholders
  import Sources
  import Node

  /** A validator over the whole view, or a `(selector, check)` pair over the sub-view at `selector`. */
  datatype Validator = Whole(check: Value -> bool) | Scoped(selector: string, check: Value -> bool)

  /** The validator accepts the tree; a selector that does not resolve fails it. */
  predicate Passes(v: Validator, root: Value)
  {
    match v
    case Whole(f) => f(root)
    case Scoped(sel, f) => root.Map? && Node.DottedGet(root.entries, sel).Ok? && f(Node.DottedGet(root.entries, sel).value)
  }

  /** The validators in order; the first that fails raises `ValidationError`. */
  function RunValidators(vs: seq<Validator>, root: Value): (r: Result<Value>)
    ensures r == Ok(root) <==> forall i :: 0 <= i < |vs| ==> Passes(vs[i], root)
    ensures r.Err? ==> r.error == Validation && exists i :: 0 <= i < |vs| && !Passes(vs[i], root)
    ensures r.Ok? ==> r.value == root
  {
    if |vs| == 0 then Ok(root)
    else if !Passes(vs[0], root) then Err(Validation)
    else
      var r := RunValidators(vs[1..], root);
      assert forall i :: 0 < i < |vs| ==> vs[i] == vs[1..][i - 1];
      r
  }

  /** The sources in order, each loaded and merged into the result; a source that does not give a mapping raises `ValidationError`. */
  function MergeSources(m: seq<Entry>, sources: seq<Sources.Source>): Merge.Outcome
    decreases |sources|
  {
    if |sources| == 0 then Merge.Outcome(m, None)
    else match Sources.LoadSource(sources[0])
      case Err(e) => Merge.Outcome(m, Some(e))
      case Ok(v) =>
        if !v.Map? then Merge.Outcome(m, Some(Validation))
        else
          var o := Merge.MergeEntries(m, v.entries);
          if o.err.Some? then o else MergeSources(o.entries, sources[1..])
  }

  /** The merged, resolved tree, before validation. */
  function Assemble(sources: seq<Sources.Source>, env: map<string, string>, interpolate: bool): Result<Value>
  {
    var o := MergeSources([], sources);
    if o.err.Some? then Err(o.err.value) else Placeholders.Interpolate(Map(o.entries), env, interpolate)
  }

  /** `ConfigManager(sources, interpolate_env, validators).load()` against the environment `env`. */
  function ManagerLoad(sources: seq<Sources.Source>, env: map<string, string>, interpolate: bool, vs: seq<Validator>): Result<Value>
  {
    match Assemble(sources, env, interpolate)
    case Err(e) => Err(e)
    case Ok(t) => RunValidators(vs, t)
  }

  /** The manager's loops: sources merged into one dictionary, then the validators. */
  method Load(sources: seq<Sources.Source>, env: map<string, string>, interpolate: bool, vs: seq<Validator>)
    returns (r: Result<Value>)
    ensures r == ManagerLoad(sources, env, interpolate, vs)
  {
    var d := new Merge.ConfigDict([]);
    var i := 0;
    while i < |sources|
      invariant 0 <= i <= |sources|
      invariant MergeSources([], sources) == MergeSources(d.entries, sources[i..])
    {
      assert sources[i..][0] == sources[i] && sources[i..][1..] == sources[i + 1..];
      var loaded := Sources.LoadSource(sources[i]);
      if loaded.Err? {
        return Err(loaded.error);
      }
      if !loaded.value.Map? {
        return Err(Validation);
      }
      var err := d.ApplyOverrides(loaded.value.entries);
      if err.Some? {
        return Err(err.value);
      }
      i := i + 1;
    }
    assert sources[i..] == [];
    assert MergeSources([], sources) == Merge.Outcome(d.entries, None);
    var resolved := Placeholders.Interpolate(Map(d.entries), env, interpolate);
    if resolved.Err? {
      return resolved;
    }
    var t := resolved.value;
    var k := 0;
    while k < |vs|
      invariant 0 <= k <= |vs|
      invariant forall j :: 0 <= j < k ==> Passes(vs[j], t)
    {
      if !Passes(vs[k], t) {
        return Err(Validation);
      }
      k := k + 1;
    }
    return Ok(t);
  }

  // ---------------------------------------------------------------------
  // Properties
  // ---------------------------------------------------------------------

  /** The result is always a mapping: sources give mappings, merging keeps them, resolution keeps the shape. */
  lemma AssembledIsMapping(sources: seq<Sources.Source>, env: map<string, string>, interpolate: bool)
    ensures Assemble(sources, env, interpolate).Ok? ==> Assemble(sources, env, interpolate).value.Map?
  {
  }

  /** Once the tree is assembled, the load fails exactly when some validator rejects it, and then with the one validation error. */
  lemma ValidationWrapsFailures(sources: seq<Sources.Source>, env: map<string, string>, interpolate: bool, vs: seq<Validator>)
    requires Assemble(sources, env, interpolate).Ok?
    ensures var t := Assemble(sources, env, interpolate).value;
      && (ManagerLoad(sources, env, interpolate, vs).Err? <==> exists i :: 0 <= i < |vs| && !Passes(vs[i], t))
      && (ManagerLoad(sources, env, interpolate, vs).Err? ==> ManagerLoad(sources, env, interpolate, vs).error == Validation)
  {
  }

  /** A source whose `load` gives anything but a mapping fails the load with `ValidationError`, whatever came before. */
  lemma NonMappingSourceRejected(m: seq<Entry>, s: Sources.Source, rest: seq<Sources.Source>)
    requires Sources.LoadSource(s).Ok? && !Sources.LoadSource(s).value.Map?
    ensures MergeSources(m, [s] + rest) == Merge.Outcome(m, Some(Validation))
  {
    assert ([s] + rest)[0] == s;
  }

  /** Loading sources one after another is loading them all: the merge is a left fold over the sources. */
  lemma {:induction false} MergeSourcesAppend(m: seq<Entry>, sources: seq<Sources.Source>, s: Sources.Source)
    ensures MergeSources(m, sources + [s]) ==
      var o := MergeSources(m, sources);
      if o.err.Some? then o else MergeSources(o.entries, [s])
    decreases |sources|
  {
    if |sources| == 0 {
      assert sources + [s] == [s];
    } else {
      assert (sources + [s])[0] == sources[0] && (sources + [s])[1..] == sources[1..] + [s];
      match Sources.LoadSource(sources[0])
      case Err(_) =>
      case Ok(v) =>
        if v.Map? {
          var o := Merge.MergeEntries(m, v.entries);
          if o.err.None? {
            MergeSourcesAppend(o.entries, sources[1..], s);
          }
        }
    }
  }

  /** With interpolation disabled the merged tree is returned as merged, placeholders included. */
  lemma DisabledInterpolationKeepsTree(sources: seq<Sources.Source>, env: map<string, string>)
    requires MergeSources([], sources).err.None?
    ensures Assemble(sources, env, false) == Ok(Map(MergeSources([], sources).entries))
  {
  }

  // ---------------------------------------------------------------------
  // The behaviour the test suite pins down
  // ---------------------------------------------------------------------

  /** A source whose `load` returns `[1, 2, 3]` makes the load raise `ValidationError`. */
  lemma BadSourceExample(env: map<string, string>, interpolate: bool)
    ensures ManagerLoad([Sources.Custom(Ok(List([Int(1), Int(2), Int(3)])))], env, interpolate, []) == Err(Validation)
  {
    NonMappingSourceRejected([], Sources.Custom(Ok(List([Int(1), Int(2), Int(3)]))), []);
    assert [Sources.Custom(Ok(List([Int(1), Int(2), Int(3)])))] + [] == [Sources.Custom(Ok(List([Int(1), Int(2), Int(3)])))];
  }

  /** A single overlay whose keys are plain and distinct is merged into an empty result unchanged. */
  lemma OverlayAlone(payload: seq<Entry>)
    requires Merge.Undotted(Map(payload)) && WellFormed(Map(payload))
    ensures MergeSources([], [Sources.DictOverlay(payload)]) == Merge.Outcome(payload, None)
  {
    LoadedAlone(Sources.DictOverlay(payload), payload);
  }

  /** A single source whose mapping has plain, distinct keys is merged into an empty result unchanged. */
  lemma LoadedAlone(s: Sources.Source, es: seq<Entry>)
    requires Sources.LoadSource(s) == Ok(Map(es))
    requires Merge.Undotted(Map(es)) && WellFormed(Map(es))
    ensures MergeSources([], [s]) == Merge.Outcome(es, None)
  {
    Merge.MergeFresh([], es);
    assert [] + es == es;
    assert [s][1..] == [];
  }

  /** `DictOverlay({"arr": [{"url": "${URL:http://a}"}]})` loads with `arr[0].url == "http://a"`. */
  lemma OverlayListDefaultExample()
    ensures ManagerLoad([Sources.DictOverlay([Entry("arr", List([Map([Entry("url", Str("${URL:http://a}"))])]))])], map[], true, [])
      == Ok(Map([Entry("arr", List([Map([Entry("url", Str("http://a"))])]))]))
  {
    var payload := [Entry("arr", List([Map([Entry("url", Str("${URL:http://a}"))])]))];
    OverlayAlone(payload);
    Placeholders.ListOfMappingsExample();
    var r := Map([Entry("arr", List([Map([Entry("url", Str("http://a"))])]))]);
    assert Placeholders.FirstMissing(Map([Entry("url", Str("http://a"))])) == None;
    assert Placeholders.FirstMissing(List([Map([Entry("url", Str("http://a"))])])) == None;
    assert Placeholders.FirstMissing(r) == None;
  }

  /** `DictOverlay({"nest": [["${N:ok}"]]})` loads with `nest[0][0] == "ok"`. */
  lemma OverlayNestedListExample()
    ensures ManagerLoad([Sources.DictOverlay([Entry("nest", List([List([Str("${N:ok}")])]))])], map[], true, [])
      == Ok(Map([Entry("nest", List([List([Str("ok")])]))]))
  {
    var payload := [Entry("nest", List([List([Str("${N:ok}")])]))];
    OverlayAlone(payload);
    Placeholders.NestedListExample();
    var r := Map([Entry("nest", List([List([Str("ok")])]))]);
    assert Placeholders.FirstMissing(List([Str("ok")])) == None;
    assert Placeholders.FirstMissing(List([List([Str("ok")])])) == None;
    assert Placeholders.FirstMissing(r) == None;
  }

  /** The service file of the validator examples: `url: ${SERVICE_URL:-http://default}` and `flag: ${REQUIRED}`. */
  function ServiceDoc(): seq<Entry>
  {
    [Entry("url", Str("${SERVICE_URL:-http://default}")), Entry("flag", Str("${REQUIRED}"))]
  }

  /** `DirectorySource` over a directory holding `service.yml`. */
  function ServiceSource(base: seq<string>): Sources.Source
  {
    Sources.DirectorySource(base, true, [Sources.FileEntry(base + ["service.yml"], Map(ServiceDoc()))], true, false)
  }

  lemma ServiceDocFresh()
    ensures Merge.Undotted(Map(ServiceDoc())) && WellFormed(Map(ServiceDoc()))
    ensures Merge.MergeEntries([], ServiceDoc()) == Merge.Outcome(ServiceDoc(), None)
  {
    TwoPlainEntries("url", Str("${SERVICE_URL:-http://default}"), "flag", Str("${REQUIRED}"));
  }

  /** Two distinct plain keys holding non-mappings are merged into an empty result unchanged. */
  lemma TwoPlainEntries(k1: string, v1: Value, k2: string, v2: Value)
    requires '.' !in k1 && '.' !in k2 && k1 != k2 && !v1.Map? && !v2.Map? && !v1.List? && !v2.List?
    ensures var es := [Entry(k1, v1), Entry(k2, v2)];
      && Merge.Undotted(Map(es)) && WellFormed(Map(es))
      && Merge.MergeEntries([], es) == Merge.Outcome(es, None)
  {
    var es := [Entry(k1, v1), Entry(k2, v2)];
    assert Merge.Undotted(Map(es)) by {
      assert Merge.Undotted(v1) && Merge.Undotted(v2);
    }
    assert WellFormed(Map(es)) by {
      assert WellFormed(v1) && WellFormed(v2);
      assert DistinctKeys(es);
    }
    assert Keys([]) == {};
    Merge.MergeFresh([], es);
    assert [] + es == es;
  }

  /** `service.yml` sits directly in the directory and is keyed `service`. */
  lemma ServiceFile(base: seq<string>)
    ensures Sources.Discovered(base, base + ["service.yml"], true)
    ensures Sources.RelKeys(base, base + ["service.yml"]) == Some(["service"])
  {
    assert "service" + "." + "yml" == "service.yml";
    assert "." + "yml" == ".yml";
    Sources.TopLevelFile(base, "service", "yml");
  }

  /** The directory loads as `{"service": {...}}`. */
  lemma ServiceLoads(base: seq<string>)
    ensures Sources.LoadSource(ServiceSource(base)) == Ok(Map([Entry("service", Map(ServiceDoc()))]))
  {
    var f := Sources.FileEntry(base + ["service.yml"], Map(ServiceDoc()));
    ServiceFile(base);
    ServiceDocFresh();
    assert Merge.ChildEntries([], "service") == [];
    assert Merge.Assign([], ["service"], Map(ServiceDoc())) == Merge.Outcome([Entry("service", Map(ServiceDoc()))], None);
    assert Sources.PlaceFiles([], base, [f], true, UnsupportedFormat) == Merge.Outcome([Entry("service", Map(ServiceDoc()))], None) by {
      assert [f][1..] == [];
    }
  }

  /** Merging that tree into the empty result gives it back. */
  lemma ServiceMerged(base: seq<string>)
    ensures MergeSources([], [ServiceSource(base)]) == Merge.Outcome([Entry("service", Map(ServiceDoc()))], None)
  {
    ServiceLoads(base);
    ServiceTreeFresh();
    LoadedAlone(ServiceSource(base), [Entry("service", Map(ServiceDoc()))]);
  }

  lemma ServiceTreeFresh()
    ensures Merge.Undotted(Map([Entry("service", Map(ServiceDoc()))])) && WellFormed(Map([Entry("service", Map(ServiceDoc()))]))
  {
    ServiceDocFresh();
  }

  lemma ServiceUrlSplit()
    ensures SplitKey("service.url") == ["service", "url"]
  {
    assert Text.Join(["service", "url"], ".") == "service.url";
    Text.SplitJoin(["service", "url"], ".");
  }

  lemma ServiceUrlDescend()
    ensures Node.Descend(Map([Entry("service", Map(ServiceDoc()))]), ["service", "url"]) == Ok(Str("${SERVICE_URL:-http://default}"))
  {
    var tree := [Entry("service", Map(ServiceDoc()))];
    assert Node.StepKey(tree, "service") == Some("service") by {
      assert tree[0].key in Keys(tree);
    }
    var doc := ServiceDoc();
    assert Node.StepKey(doc, "url") == Some("url") by {
      assert doc[0].key in Keys(doc);
    }
    assert Node.Descend(Map(doc), ["url"]) == Ok(Str("${SERVICE_URL:-http://default}"));
    assert ["service", "url"][1..] == ["url"];
  }

  lemma ServiceUrlPath()
    ensures Node.Get([Entry("service", Map(ServiceDoc()))], "service.url", Null, None) == Ok(Str("${SERVICE_URL:-http://default}"))
  {
    ServiceUrlSplit();
    ServiceUrlDescend();
  }

  /** With interpolation disabled, `service.url` still reads `${SERVICE_URL:-http://default}`. */
  lemma InterpolationDisabledExample(base: seq<string>, env: map<string, string>)
    ensures var r := ManagerLoad([ServiceSource(base)], env, false, []);
      && r == Ok(Map([Entry("service", Map(ServiceDoc()))]))
      && Node.Get(r.value.entries, "service.url", Null, None) == Ok(Str("${SERVICE_URL:-http://default}"))
      && Text.StartsWith("${SERVICE_URL:-http://default}", "${SERVICE_URL")
  {
    ServiceMerged(base);
    var tree := Map([Entry("service", Map(ServiceDoc()))]);
    assert Assemble([ServiceSource(base)], env, false) == Ok(tree);
    assert RunValidators([], tree) == Ok(tree);
    ServiceUrlPath();
    ServiceUrlPrefix();
  }

  lemma ServiceUrlDefault()
    ensures Placeholders.ResolveString("${SERVICE_URL:-http://default}", map["REQUIRED" := "ok"]) == Str("http://default")
  {
    ServiceUrlText();
    Placeholders.ColonDashDefault("SERVICE_URL", "http://default", map["REQUIRED" := "ok"]);
  }

  lemma RequiredIsSet()
    ensures Placeholders.ResolveString("${REQUIRED}", map["REQUIRED" := "ok"]) == Str("ok")
  {
    RequiredText();
    Placeholders.MissingTextIsRequiredPlaceholder("REQUIRED", map["REQUIRED" := "ok"]);
  }

  lemma ServiceResolve()
    ensures Placeholders.Resolve(Map([Entry("service", Map(ServiceDoc()))]), map["REQUIRED" := "ok"])
      == Map([Entry("service", Map([Entry("url", Str("http://default")), Entry("flag", Str("ok"))]))])
  {
    var env := map["REQUIRED" := "ok"];
    ServiceUrlDefault();
    RequiredIsSet();
    Placeholders.ResolveTwoEntries("url", Str("${SERVICE_URL:-http://default}"), "flag", Str("${REQUIRED}"), env);
    Placeholders.ResolveSingleEntry("service", Map(ServiceDoc()), env);
  }

  /** Resolution of the service tree with `REQUIRED=ok` and `SERVICE_URL` unset. */
  lemma ServiceInterpolation()
    ensures Placeholders.Interpolate(Map([Entry("service", Map(ServiceDoc()))]), map["REQUIRED" := "ok"], true)
      == Ok(Map([Entry("service", Map([Entry("url", Str("http://default")), Entry("flag", Str("ok"))]))]))
  {
    ServiceResolve();
    var svc := [Entry("url", Str("http://default")), Entry("flag", Str("ok"))];
    var r := Map([Entry("service", Map(svc))]);
    assert Placeholders.FirstMissing(Map(svc)) == None;
    assert Placeholders.FirstMissing(r) == None;
  }

  /** With `REQUIRED=ok` and `SERVICE_URL` unset, the service resolves to `{"url": "http://default", "flag": "ok"}`. */
  lemma ServiceResolves(base: seq<string>)
    ensures Assemble([ServiceSource(base)], map["REQUIRED" := "ok"], true)
      == Ok(Map([Entry("service", Map([Entry("url", Str("http://default")), Entry("flag", Str("ok"))]))]))
  {
    ServiceMerged(base);
    ServiceInterpolation();
  }

  /** The scoped validator of the examples: the service sub-view has a `url`. */
  function HasUrl(v: Value): bool
  {
    v.Map? && Lookup(v.entries, "url").Some?
  }

  /** The `("service", check)` validator runs on the service sub-view and, with a whole-tree validator that accepts, the load succeeds; a validator that rejects makes it raise `ValidationError`. */
  lemma ValidatorExamples(base: seq<string>)
    ensures ManagerLoad([ServiceSource(base)], map["REQUIRED" := "ok"], true, [Scoped("service", HasUrl), Whole(_ => true)]).Ok?
    ensures ManagerLoad([ServiceSource(base)], map["REQUIRED" := "ok"], true, [Whole(_ => false)]) == Err(Validation)
  {
    ServiceResolves(base);
    var svc := [Entry("url", Str("http://default")), Entry("flag", Str("ok"))];
    var tree := [Entry("service", Map(svc))];
    PlainKey("service");
    assert Node.StepKey(tree, "service") == Some("service") by {
      assert tree[0].key in Keys(tree);
    }
    assert Node.DottedGet(tree, "service") == Ok(Map(svc));
    assert HasUrl(Map(svc)) by {
      assert svc[0].key in Keys(svc);
    }
    var vs := [Scoped("service", HasUrl), Whole(_ => true)];
    assert Passes(vs[0], Map(tree)) && Passes(vs[1], Map(tree));
    assert !Passes(Whole(_ => false), Map(tree));
  }

  // ---------------------------------------------------------------------
  // Proof helpers
  // ---------------------------------------------------------------------

  // The example placeholders spelled out piece by piece: they keep the example
  // proofs small and state nothing new.

  lemma ServiceUrlPrefix()
    ensures Text.StartsWith("${SERVICE_URL:-http://default}", "${SERVICE_URL")
  {
    assert "${SERVICE_URL:-http://default}"[..13] == "${SERVICE_URL";
  }

  lemma ServiceUrlText()
    ensures "${" + "SERVICE_URL" + ":-" + "http://default" + "}" == "${SERVICE_URL:-http://default}"
  {
    assert "${" + "SERVICE_URL" == "${SERVICE_URL";
    assert "${SERVICE_URL" + ":-" == "${SERVICE_URL:-";
    assert "${SERVICE_URL:-" + "http://default" == "${SERVICE_URL:-http://default";
  }

  lemma RequiredText()
    ensures Placeholders.MissingText("REQUIRED") == "${REQUIRED}"
  {
    assert "${" + "REQUIRED" == "${REQUIRED";
  }
}
