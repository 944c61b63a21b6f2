/**
 * The layered loader: an ordered list of layer directories, each contributing
 * every supported file beneath it (recursively), each file's document
 * injected at the key path derived from its location relative to its own
 * layer root. Layers apply in order, so later layers override earlier ones.
 * Loading fails with "nothing found" when there is no layer or no layer holds
 * a supported file; then placeholders are resolved unless disabled.
 */
module Loader {

  import opened Wrappers
  import opened Tree
  import Merge
  import Placeholders
  import Sources

  /** A layer directory and the files beneath it, in the order the loader visits them. */
  datatype Layer = Layer(root: seq<string>, files: seq<Sources.FileEntry>)

  /** `_load_file(path)`: the parsed document; an unsupported suffix raises `ValueError`. */
  function LoadFile(name: string, doc: Value): (r: Result<Value>)
    ensures r.Ok? <==> Sources.Supported(name)
    ensures r.Ok? ==> r.value == doc
    ensures r.Err? ==> r.error == BadValue
  {
    match Sources.ReadFile(name, doc)
    case Ok(v) => Ok(v)
    case Err(_) => Err(BadValue)
  }

  /** Some file of the listing is kept. */
  predicate AnyDiscovered(root: seq<string>, files: seq<Sources.FileEntry>)
    decreases |files|
  {
    |files| > 0 && (Sources.Discovered(root, files[0].path, true) || AnyDiscovered(root, files[1..]))
  }

  /** Some layer holds a supported file. */
  predicate Found(layers: seq<Layer>)
    decreases |layers|
  {
    |layers| > 0 && (AnyDiscovered(layers[0].root, layers[0].files) || Found(layers[1..]))
  }

  /** The layers in order, each file injected (`_inject`) into the same result; the first error stops. */
  function LoadLayers(m: seq<Entry>, layers: seq<Layer>): Merge.Outcome
    decreases |layers|
  {
    if |layers| == 0 then Merge.Outcome(m, None)
    else
      var o := Sources.PlaceFiles(m, layers[0].root, layers[0].files, true, BadValue);
      if o.err.Some? then o else LoadLayers(o.entries, layers[1..])
  }

  /** `LayeredConfigLoader(layers, interpolate).load()` against the environment `env`. */
  function LoaderLoad(layers: seq<Layer>, env: map<string, string>, interpolate: bool): Result<Value>
  {
    if |layers| == 0 then Err(NotFound)
    else
      var o := LoadLayers([], layers);
      if o.err.Some? then Err(o.err.value)
      else if !Found(layers) then Err(NotFound)
      else Placeholders.Interpolate(Map(o.entries), env, interpolate)
  }

  /** The loader's loops: every layer, every file beneath it, injected into one dictionary. */
  method Load(layers: seq<Layer>, env: map<string, string>, interpolate: bool) returns (r: Result<Value>)
    ensures r == LoaderLoad(layers, env, interpolate)
  {
    if |layers| == 0 {
      return Err(NotFound);
    }
    var d := new Merge.ConfigDict([]);
    var found := false;
    var i := 0;
    while i < |layers|
      invariant 0 <= i <= |layers|
      invariant LoadLayers([], layers) == LoadLayers(d.entries, layers[i..])
      invariant Found(layers) == (found || Found(layers[i..]))
    {
      assert layers[i..][0] == layers[i] && layers[i..][1..] == layers[i + 1..];
      var root, files := layers[i].root, layers[i].files;
      ghost var start := d.entries;
      var j := 0;
      while j < |files|
        invariant 0 <= j <= |files|
        invariant Sources.PlaceFiles(start, root, files, true, BadValue)
               == Sources.PlaceFiles(d.entries, root, files[j..], true, BadValue)
        invariant Found(layers) == (found || AnyDiscovered(root, files[j..]) || Found(layers[i + 1..]))
      {
        assert files[j..][0] == files[j] && files[j..][1..] == files[j + 1..];
        if Sources.Discovered(root, files[j].path, true) {
          var err := d.Inject(Sources.RelKeys(root, files[j].path).value, files[j].doc);
          if err.Some? {
            return Err(err.value);
          }
          found := true;
        }
        j := j + 1;
      }
      i := i + 1;
    }
    if !found {
      return Err(NotFound);
    }
    return Placeholders.Interpolate(Map(d.entries), env, interpolate);
  }

  // ---------------------------------------------------------------------
  // Properties
  // ---------------------------------------------------------------------

  /** `AnyDiscovered` says that some file of the listing is kept. */
  lemma {:induction false} AnyDiscoveredIff(root: seq<string>, files: seq<Sources.FileEntry>)
    ensures AnyDiscovered(root, files) <==> exists j :: 0 <= j < |files| && Sources.Discovered(root, files[j].path, true)
    decreases |files|
  {
    if |files| > 0 {
      AnyDiscoveredIff(root, files[1..]);
      assert forall j :: 0 < j < |files| ==> files[j] == files[1..][j - 1];
    }
  }

  /** `Found` says that some file of some layer is kept. */
  lemma {:induction false} FoundIff(layers: seq<Layer>)
    ensures Found(layers) <==> exists i, j :: 0 <= i < |layers| && 0 <= j < |layers[i].files|
                                           && Sources.Discovered(layers[i].root, layers[i].files[j].path, true)
    decreases |layers|
  {
    if |layers| > 0 {
      FoundIff(layers[1..]);
      AnyDiscoveredIff(layers[0].root, layers[0].files);
      assert forall i :: 0 < i < |layers| ==> layers[i] == layers[1..][i - 1];
    }
  }

  /** A listing without a kept file leaves the result as it was. */
  lemma {:induction false} NothingPlaced(m: seq<Entry>, root: seq<string>, files: seq<Sources.FileEntry>)
    requires !AnyDiscovered(root, files)
    ensures Sources.PlaceFiles(m, root, files, true, BadValue) == Merge.Outcome(m, None)
    decreases |files|
  {
    if |files| > 0 {
      NothingPlaced(m, root, files[1..]);
    }
  }

  /** Without a supported file no layer changes anything. */
  lemma {:induction false} NothingLoaded(m: seq<Entry>, layers: seq<Layer>)
    requires !Found(layers)
    ensures LoadLayers(m, layers) == Merge.Outcome(m, None)
    decreases |layers|
  {
    if |layers| > 0 {
      NothingPlaced(m, layers[0].root, layers[0].files);
      NothingLoaded(m, layers[1..]);
    }
  }

  /** Some layer root is itself a kept file holding no mapping, which `_inject` refuses. */
  predicate ScalarLayerRoot(layers: seq<Layer>)
  {
    exists i, j :: 0 <= i < |layers| && 0 <= j < |layers[i].files| && Sources.ScalarAtRoot(layers[i].root, layers[i].files[j], true)
  }

  /** Loading the layers fails only on a structural conflict, or with `ValueError` when a layer root is a file holding no mapping. */
  lemma {:induction false} LoadLayersErrors(m: seq<Entry>, layers: seq<Layer>)
    ensures var o := LoadLayers(m, layers);
      o.err.Some? ==> o.err.value == Conflict || (o.err.value == BadValue && ScalarLayerRoot(layers))
    decreases |layers|
  {
    if |layers| > 0 {
      Sources.PlaceFilesErrors(m, layers[0].root, layers[0].files, true, BadValue);
      var o := Sources.PlaceFiles(m, layers[0].root, layers[0].files, true, BadValue);
      if o.err.None? {
        LoadLayersErrors(o.entries, layers[1..]);
        if ScalarLayerRoot(layers[1..]) {
          var i, j :| 0 <= i < |layers[1..]| && 0 <= j < |layers[1..][i].files|
                      && Sources.ScalarAtRoot(layers[1..][i].root, layers[1..][i].files[j], true);
          assert layers[1..][i] == layers[i + 1];
        }
      }
    }
  }

  /** The loader reports "nothing found" exactly when no layer holds a supported file (in particular when there is no layer). */
  lemma NotFoundIff(layers: seq<Layer>, env: map<string, string>, interpolate: bool)
    ensures LoaderLoad(layers, env, interpolate) == Err(NotFound) <==> !Found(layers)
  {
    if Found(layers) {
      LoadLayersErrors([], layers);
      var o := LoadLayers([], layers);
      if o.err.None? && interpolate {
        Placeholders.InterpolateFails(Map(o.entries), env);
      }
    } else if |layers| > 0 {
      NothingLoaded([], layers);
    }
  }

  /** Loading layers one after another is loading them all: later layers apply on top of earlier ones. */
  lemma {:induction false} LoadLayersAppend(m: seq<Entry>, layers: seq<Layer>, l: Layer)
    ensures LoadLayers(m, layers + [l]) ==
      var o := LoadLayers(m, layers);
      if o.err.Some? then o else Sources.PlaceFiles(o.entries, l.root, l.files, true, BadValue)
    decreases |layers|
  {
    if |layers| == 0 {
      assert layers + [l] == [l] && [l][1..] == [];
    } else {
      assert (layers + [l])[0] == layers[0] && (layers + [l])[1..] == layers[1..] + [l];
      var o := Sources.PlaceFiles(m, layers[0].root, layers[0].files, true, BadValue);
      if o.err.None? {
        LoadLayersAppend(o.entries, layers[1..], l);
      }
    }
  }

  /** Precedence: a non-mapping value in a file of the last layer is what the merged tree holds at that file's key path. */
  lemma LaterLayerWins(layers: seq<Layer>, root: seq<string>, f: Sources.FileEntry)
    requires Sources.Discovered(root, f.path, true) && !f.doc.Map?
    requires LoadLayers([], layers + [Layer(root, [f])]).err.None?
    ensures GetPath(Map(LoadLayers([], layers + [Layer(root, [f])]).entries), Sources.RelKeys(root, f.path).value) == Some(f.doc)
  {
    LoadLayersAppend([], layers, Layer(root, [f]));
    var o := LoadLayers([], layers);
    var keys := Sources.RelKeys(root, f.path).value;
    assert |keys| > 0;
    assert Sources.PlaceFiles(o.entries, root, [f], true, BadValue) == Merge.Assign(o.entries, keys, f.doc) by {
      assert [f][1..] == [];
    }
    Merge.AssignLeafWins(o.entries, keys, f.doc);
  }

  // ---------------------------------------------------------------------
  // The behaviour the test suite pins down
  // ---------------------------------------------------------------------

  /** No layers, an empty layer, or a layer with only `readme.txt`: `ConfigNotFoundError`. */
  lemma NothingFoundExamples(d: seq<string>, env: map<string, string>)
    ensures LoaderLoad([], env, true) == Err(NotFound)
    ensures LoaderLoad([Layer(d, [])], env, true) == Err(NotFound)
    ensures LoaderLoad([Layer(d, [Sources.FileEntry(d + ["readme.txt"], Str("ignore"))])], env, true) == Err(NotFound)
  {
    Sources.NameParts("readme", "txt");
    var p := d + ["readme.txt"];
    assert p[|p| - 1] == "readme.txt";
    var files := [Sources.FileEntry(p, Str("ignore"))];
    assert !AnyDiscovered(d, files) by {
      assert !Sources.Supported("readme.txt");
      assert files[1..] == [];
    }
    assert !Found([Layer(d, files)]) by {
      assert [Layer(d, files)][1..] == [];
    }
    NotFoundIff([Layer(d, [])], env, true);
    NotFoundIff([Layer(d, files)], env, true);
  }

  /**
   * A layer whose root is itself a supported file: its mapping merges at the
   * root of the tree, while a non-mapping document is refused by `_inject` with
   * `ValueError` (the root cases of `_inject`).
   */
  lemma RootFileLayerExamples(root: seq<string>, env: map<string, string>)
    requires |root| > 0 && Sources.Supported(root[|root| - 1])
    ensures LoaderLoad([Layer(root, [Sources.FileEntry(root, Map([Entry("k", Int(1))]))])], env, true) == Ok(Map([Entry("k", Int(1))]))
    ensures LoaderLoad([Layer(root, [Sources.FileEntry(root, Int(123))])], env, true) == Err(BadValue)
  {
    var es := [Entry("k", Int(1))];
    var good := Layer(root, [Sources.FileEntry(root, Map(es))]);
    var bad := Layer(root, [Sources.FileEntry(root, Int(123))]);
    assert Sources.Under(root, root) by { assert root[..|root|] == root; }
    Sources.RootFilePlaced([], root, good.files[0], true, BadValue);
    Sources.RootFilePlaced([], root, bad.files[0], true, BadValue);
    assert good.files == [good.files[0]] && bad.files == [bad.files[0]];
    PlainKey("k");
    Merge.MergeSingle([], es[0]);
    Merge.AssignScalarLeaf([], "k", Int(1));
    assert LoadLayers([], [good]) == Merge.Outcome(es, None) by { assert [good][1..] == []; }
    assert Found([good]) by { assert AnyDiscovered(root, good.files); }
    Placeholders.ResolveSingleEntry("k", Int(1), env);
    assert Placeholders.FirstMissing(Map(es)).None?;
  }

  /** `_load_file("/tmp/config.ini")` raises `ValueError`. */
  lemma IniRejected()
    ensures LoadFile("config.ini", Null) == Err(BadValue)
  {
    Sources.NameParts("config", "ini");
  }

  /** The layer of the missing-variable example: `svc.yml` holding `token: ${MUST_SET}`. */
  function SvcLayer(base: seq<string>): Layer
  {
    Layer(base, [Sources.FileEntry(base + ["svc.yml"], Map([Entry("token", Str("${MUST_SET}"))]))])
  }

  lemma SvcAssign()
    ensures Merge.Assign([], ["svc"], Map([Entry("token", Str("${MUST_SET}"))]))
      == Merge.Outcome([Entry("svc", Map([Entry("token", Str("${MUST_SET}"))]))], None)
  {
    var doc := [Entry("token", Str("${MUST_SET}"))];
    PlainKey("token");
    assert Merge.Assign([], ["token"], Str("${MUST_SET}")) == Merge.Outcome(doc, None);
    assert Merge.MergeEntries([], doc) == Merge.Outcome(doc, None);
    assert Merge.ChildEntries([], "svc") == [];
  }

  lemma SvcLoads(base: seq<string>)
    ensures LoadLayers([], [SvcLayer(base)]) == Merge.Outcome([Entry("svc", Map([Entry("token", Str("${MUST_SET}"))]))], None)
    ensures Found([SvcLayer(base)])
  {
    var f := SvcLayer(base).files[0];
    assert SvcLayer(base).files == [f] && [f][1..] == [];
    assert "svc" + "." + "yml" == "svc.yml";
    assert "." + "yml" == ".yml";
    Sources.TopLevelFile(base, "svc", "yml");
    SvcAssign();
    assert Sources.PlaceFiles([], base, [f], true, BadValue) == Merge.Outcome([Entry("svc", f.doc)], None);
    assert [SvcLayer(base)][1..] == [];
  }

  lemma SvcInterpolation()
    ensures Placeholders.Interpolate(Map([Entry("svc", Map([Entry("token", Str("${MUST_SET}"))]))]), map[], true)
      == Err(Interpolation("MUST_SET"))
  {
    var doc := [Entry("token", Str("${MUST_SET}"))];
    Placeholders.RequiredUnsetFails();
    var r := Placeholders.Resolve(Map([Entry("svc", Map(doc))]), map[]);
    assert Placeholders.Resolve(Map(doc), map[]) == Map([Entry("token", Missing("MUST_SET"))]);
    assert r == Map([Entry("svc", Map([Entry("token", Missing("MUST_SET"))]))]);
    assert Placeholders.FirstMissing(r) == Some("MUST_SET");
  }

  /** A layer with `svc.yml` holding `token: ${MUST_SET}` fails to load while `MUST_SET` is unset. */
  lemma MissingVariableFails(base: seq<string>)
    ensures LoaderLoad([SvcLayer(base)], map[], true) == Err(Interpolation("MUST_SET"))
  {
    SvcLoads(base);
    SvcInterpolation();
  }
}
