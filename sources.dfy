/**
 * The configuration sources: a single file, a directory tree of files, the
 * environment variables under a prefix, an in-memory overlay, and any other
 * object with a `load` method. File parsing is outside the model: a file is
 * given by its path and the document its parser produced. A path is the
 * sequence of its components; the directory listing, in the order the source
 * visits it, and the environment, in its iteration order, are parameters.
 */
module Sources {

  import opened Wrappers
  import opened Tree
  import Text
  import Coerce
  import Merge

  // ---------------------------------------------------------------------
  // File names
  // ---------------------------------------------------------------------

  /** The extensions the sources can parse: YAML, JSON and TOML. */
  const SupportedSuffixes: set<string> := {".yml", ".yaml", ".json", ".toml"}

  /** `s.rfind(c)`: the last position of `c`, or -1. */
  function LastIndex(s: string, c: char): (i: int)
    ensures -1 <= i < |s|
    ensures i >= 0 ==> s[i] == c && forall j :: i < j < |s| ==> s[j] != c
    ensures i == -1 ==> c !in s
  {
    if |s| == 0 then -1
    else if s[|s| - 1] == c then |s| - 1
    else
      var i := LastIndex(s[..|s| - 1], c);
      assert s == s[..|s| - 1] + [s[|s| - 1]];
      i
  }

  /** `PurePath(name).suffix`: from the last dot on, unless the dot leads or ends the name. */
  function Suffix(name: string): string
  {
    var i := LastIndex(name, '.');
    if 0 < i < |name| - 1 then name[i..] else ""
  }

  /** `PurePath(name).stem`: the name without its suffix. */
  function Stem(name: string): string
  {
    var i := LastIndex(name, '.');
    if 0 < i < |name| - 1 then name[..i] else name
  }

  predicate Supported(name: string)
  {
    Suffix(name) in SupportedSuffixes
  }

  /** `_read_file(path)`: the parsed document of a supported file; any other suffix raises `UnsupportedFormatError`. */
  function ReadFile(name: string, doc: Value): (r: Result<Value>)
    ensures r.Ok? <==> Supported(name)
    ensures r.Ok? ==> r.value == doc
    ensures r.Err? ==> r.error == UnsupportedFormat
  {
    if Supported(name) then Ok(doc) else Err(UnsupportedFormat)
  }

  // ---------------------------------------------------------------------
  // Key paths
  // ---------------------------------------------------------------------

  /** True when `root` is a leading part of `path`. */
  predicate Under(root: seq<string>, path: seq<string>)
  {
    |root| <= |path| && path[..|root|] == root
  }

  /**
   * `_rel_keys(root, path)`: the directories of `path` below `root` followed by
   * the file's stem; the root itself gives no keys. A path outside `root`
   * makes `relative_to` raise.
   */
  function RelKeys(root: seq<string>, path: seq<string>): (r: Option<seq<string>>)
    ensures r.Some? <==> Under(root, path)
    ensures r.Some? ==> |r.value| == |path| - |root|
  {
    if !Under(root, path) then None
    else
      var rel := path[|root|..];
      if |rel| == 0 then Some([])
      else Some(rel[..|rel| - 1] + [Stem(rel[|rel| - 1])])
  }

  // ---------------------------------------------------------------------
  // FileSource
  // ---------------------------------------------------------------------

  /** `FileSource(path, optional).load()`; `doc` is `None` when the file does not exist. */
  function FileLoad(name: string, doc: Option<Value>, optional: bool): (r: Result<seq<Entry>>)
    ensures doc.None? ==> r == if optional then Ok([]) else Err(FileMissing)
    ensures doc.Some? ==> (r.Ok? <==> Supported(name))
    ensures r.Ok? && doc.Some? ==> Map(r.value) == if doc.value.Map? then doc.value else Map([Entry("value", doc.value)])
  {
    match doc
    case None => if optional then Ok([]) else Err(FileMissing)
    case Some(d) =>
      match ReadFile(name, d)
      case Err(e) => Err(e)
      case Ok(v) => Ok(if v.Map? then v.entries else [Entry("value", v)])
  }

  // ---------------------------------------------------------------------
  // DirectorySource
  // ---------------------------------------------------------------------

  /** A file of a directory listing: its full path and the document it holds. */
  datatype FileEntry = FileEntry(path: seq<string>, doc: Value)

  /**
   * The listing keeps a file with a supported suffix when it lies below `root`
   * (directly, unless `recursive`) or is `root` itself; a file at the root has
   * the empty key path and so merges at the root of the tree.
   */
  predicate Discovered(root: seq<string>, path: seq<string>, recursive: bool)
  {
    && Under(root, path) && |path| > 0
    && Supported(path[|path| - 1])
    && (recursive || |path| <= |root| + 1)
  }

  /** A kept file that is the root itself and holds something other than a mapping: the root cannot take it. */
  predicate ScalarAtRoot(root: seq<string>, f: FileEntry, recursive: bool)
  {
    Discovered(root, f.path, recursive) && f.path == root && !f.doc.Map?
  }

  /** Every discovered file, in listing order, placed at its key path (`_assign` or `_inject`, by `rootError`); the first error stops. */
  function PlaceFiles(m: seq<Entry>, root: seq<string>, files: seq<FileEntry>, recursive: bool, rootError: ConfigError): Merge.Outcome
    decreases |files|
  {
    if |files| == 0 then Merge.Outcome(m, None)
    else if !Discovered(root, files[0].path, recursive) then PlaceFiles(m, root, files[1..], recursive, rootError)
    else
      var o := Merge.Place(m, RelKeys(root, files[0].path).value, files[0].doc, rootError);
      if o.err.Some? then o else PlaceFiles(o.entries, root, files[1..], recursive, rootError)
  }

  /** `DirectorySource(root, recursive, optional).load()`; `rootExists` says whether the directory is there. */
  function DirectoryLoad(root: seq<string>, rootExists: bool, files: seq<FileEntry>, recursive: bool, optional: bool): Result<seq<Entry>>
  {
    if !rootExists then (if optional then Ok([]) else Err(FileMissing))
    else
      var o := PlaceFiles([], root, files, recursive, UnsupportedFormat);
      if o.err.Some? then Err(o.err.value) else Ok(o.entries)
  }

  /** The source's loop: a fresh dictionary, each discovered file assigned at its key path. */
  method LoadDirectory(root: seq<string>, rootExists: bool, files: seq<FileEntry>, recursive: bool, optional: bool)
    returns (r: Result<seq<Entry>>)
    ensures r == DirectoryLoad(root, rootExists, files, recursive, optional)
  {
    if !rootExists {
      return if optional then Ok([]) else Err(FileMissing);
    }
    var d := new Merge.ConfigDict([]);
    var i := 0;
    while i < |files|
      invariant 0 <= i <= |files|
      invariant PlaceFiles([], root, files, recursive, UnsupportedFormat)
             == PlaceFiles(d.entries, root, files[i..], recursive, UnsupportedFormat)
    {
      assert files[i..][0] == files[i] && files[i..][1..] == files[i + 1..];
      if Discovered(root, files[i].path, recursive) {
        var err := d.AssignAt(RelKeys(root, files[i].path).value, files[i].doc);
        if err.Some? {
          return Err(err.value);
        }
      }
      i := i + 1;
    }
    return Ok(d.entries);
  }

  // ---------------------------------------------------------------------
  // EnvSource
  // ---------------------------------------------------------------------

  /** A variable belongs to the source when its name starts with `prefix + sep`, compared without regard to case. */
  predicate EnvMatches(prefix: string, sep: string, name: string)
  {
    Text.StartsWith(Text.Upper(name), Text.Upper(prefix + sep))
  }

  /** The key path of a matching variable: the rest of its name split at `sep`, each segment lower-cased. */
  function EnvPath(prefix: string, sep: string, name: string): (r: seq<string>)
    requires |sep| > 0 && EnvMatches(prefix, sep, name)
    ensures |r| >= 1
    ensures Text.Join(r, Text.Lower(sep)) == Text.Lower(name[|prefix + sep|..])
    ensures forall i :: 0 <= i < |r| ==> Text.Lower(r[i]) == r[i]
  {
    var parts := Text.Split(name[|prefix + sep|..], sep);
    Text.JoinSplit(name[|prefix + sep|..], sep);
    Text.LowerJoin(parts, sep);
    LowerSegments(parts);
    seq(|parts|, i requires 0 <= i < |parts| => Text.Lower(parts[i]))
  }

  lemma LowerSegments(parts: seq<string>)
    ensures forall i :: 0 <= i < |parts| ==> Text.Lower(Text.Lower(parts[i])) == Text.Lower(parts[i])
  {
    forall i | 0 <= i < |parts| {
      Text.LowerIdempotent(parts[i]);
    }
  }

  /** The variables in iteration order, each matching one typed and assigned at its key path; an empty separator cannot split. */
  function EnvFold(m: seq<Entry>, prefix: string, sep: string, vars: seq<(string, string)>): Merge.Outcome
    decreases |vars|
  {
    if |vars| == 0 then Merge.Outcome(m, None)
    else if !EnvMatches(prefix, sep, vars[0].0) then EnvFold(m, prefix, sep, vars[1..])
    else if |sep| == 0 then Merge.Outcome(m, Some(BadValue))
    else
      var o := Merge.Assign(m, EnvPath(prefix, sep, vars[0].0), Coerce.EnvValue(vars[0].1));
      if o.err.Some? then o else EnvFold(o.entries, prefix, sep, vars[1..])
  }

  /** `EnvSource(prefix, separator).load()`. */
  function EnvLoad(prefix: string, sep: string, vars: seq<(string, string)>): Result<seq<Entry>>
  {
    var o := EnvFold([], prefix, sep, vars);
    if o.err.Some? then Err(o.err.value) else Ok(o.entries)
  }

  /** The source's loop over the environment. */
  method LoadEnv(prefix: string, sep: string, vars: seq<(string, string)>) returns (r: Result<seq<Entry>>)
    ensures r == EnvLoad(prefix, sep, vars)
  {
    var d := new Merge.ConfigDict([]);
    var i := 0;
    while i < |vars|
      invariant 0 <= i <= |vars|
      invariant EnvFold([], prefix, sep, vars) == EnvFold(d.entries, prefix, sep, vars[i..])
    {
      assert vars[i..][0] == vars[i] && vars[i..][1..] == vars[i + 1..];
      var (name, text) := vars[i];
      if EnvMatches(prefix, sep, name) {
        if |sep| == 0 {
          return Err(BadValue);
        }
        var err := d.AssignAt(EnvPath(prefix, sep, name), Coerce.EnvValue(text));
        if err.Some? {
          return Err(err.value);
        }
      }
      i := i + 1;
    }
    return Ok(d.entries);
  }

  // ---------------------------------------------------------------------
  // Sources
  // ---------------------------------------------------------------------

  /** The source kinds; `Custom` is any other object whose `load` returned `loaded`. */
  datatype Source =
    | DictOverlay(payload: seq<Entry>)
    | FileSource(name: string, doc: Option<Value>, optional: bool)
    | DirectorySource(root: seq<string>, rootExists: bool, files: seq<FileEntry>, recursive: bool, optional: bool)
    | EnvSource(prefix: string, sep: string, vars: seq<(string, string)>)
    | Custom(loaded: Result<Value>)

  /** `source.load()`. */
  function LoadSource(s: Source): (r: Result<Value>)
    ensures r.Ok? && !s.Custom? ==> r.value.Map?
  {
    match s
    case DictOverlay(p) => Ok(Map(p))
    case FileSource(name, doc, optional) =>
      (match FileLoad(name, doc, optional) case Ok(es) => Ok(Map(es)) case Err(e) => Err(e))
    case DirectorySource(root, rootExists, files, recursive, optional) =>
      (match DirectoryLoad(root, rootExists, files, recursive, optional) case Ok(es) => Ok(Map(es)) case Err(e) => Err(e))
    case EnvSource(prefix, sep, vars) =>
      (match EnvLoad(prefix, sep, vars) case Ok(es) => Ok(Map(es)) case Err(e) => Err(e))
    case Custom(loaded) => loaded
  }

  // ---------------------------------------------------------------------
  // Properties
  // ---------------------------------------------------------------------

  /** The stem and the suffix together are the whole name. */
  lemma StemSuffix(name: string)
    ensures Stem(name) + Suffix(name) == name
    ensures Suffix(name) == "" || (Suffix(name)[0] == '.' && '.' !in Suffix(name)[1..])
  {
    var i := LastIndex(name, '.');
    if 0 < i < |name| - 1 {
      assert name[..i] + name[i..] == name;
      assert forall j :: 0 <= j < |name[i..][1..]| ==> name[i..][1..][j] == name[i + 1 + j];
    }
  }

  /** A name written as `stem.ext` has that stem and the suffix `.ext`. */
  lemma NameParts(stem: string, ext: string)
    requires |stem| > 0 && |ext| > 0 && '.' !in ext
    ensures Suffix(stem + "." + ext) == "." + ext
    ensures Stem(stem + "." + ext) == stem
  {
    var s := stem + "." + ext;
    assert s[|stem|] == '.';
    assert forall j :: |stem| < j < |s| ==> s[j] == ext[j - |stem| - 1];
    assert LastIndex(s, '.') == |stem|;
    assert s[|stem|..] == "." + ext;
  }

  /** The root relative to itself gives no keys (`_rel_keys(root, root) == []`). */
  lemma RootHasNoKeys(root: seq<string>)
    ensures RelKeys(root, root) == Some([])
  {
    assert root[..|root|] == root;
  }

  /** A file `dirs/stem.ext` below the root is keyed by its directories and its stem. */
  lemma FileKeys(root: seq<string>, dirs: seq<string>, stem: string, ext: string)
    requires |stem| > 0 && |ext| > 0 && '.' !in ext
    ensures RelKeys(root, root + dirs + [stem + "." + ext]) == Some(dirs + [stem])
  {
    var path := root + dirs + [stem + "." + ext];
    assert path[..|root|] == root;
    assert path[|root|..] == dirs + [stem + "." + ext];
    NameParts(stem, ext);
  }

  /** A supported file directly inside the root is discovered and keyed by its stem alone. */
  lemma TopLevelFile(root: seq<string>, stem: string, ext: string)
    requires |stem| > 0 && |ext| > 0 && '.' !in ext && "." + ext in SupportedSuffixes
    ensures Discovered(root, root + [stem + "." + ext], true)
    ensures RelKeys(root, root + [stem + "." + ext]) == Some([stem])
  {
    FileKeys(root, [], stem, ext);
    assert root + [] + [stem + "." + ext] == root + [stem + "." + ext] && [] + [stem] == [stem];
    NameParts(stem, ext);
    var p := root + [stem + "." + ext];
    assert p[..|root|] == root && p[|p| - 1] == stem + "." + ext;
  }

  /** A file the listing does not keep (an unsupported suffix, say) changes nothing, wherever it appears. */
  lemma {:induction false} SkipUndiscovered(m: seq<Entry>, root: seq<string>, a: seq<FileEntry>, f: FileEntry, b: seq<FileEntry>,
                                            recursive: bool, rootError: ConfigError)
    requires !Discovered(root, f.path, recursive)
    ensures PlaceFiles(m, root, a + [f] + b, recursive, rootError) == PlaceFiles(m, root, a + b, recursive, rootError)
    decreases |a|
  {
    if |a| == 0 {
      assert a + [f] + b == [f] + b && ([f] + b)[1..] == b && a + b == b;
    } else {
      assert (a + [f] + b)[0] == a[0] && (a + [f] + b)[1..] == a[1..] + [f] + b;
      assert (a + b)[0] == a[0] && (a + b)[1..] == a[1..] + b;
      if Discovered(root, a[0].path, recursive) {
        var o := Merge.Place(m, RelKeys(root, a[0].path).value, a[0].doc, rootError);
        if o.err.None? {
          SkipUndiscovered(o.entries, root, a[1..], f, b, recursive, rootError);
        }
      } else {
        SkipUndiscovered(m, root, a[1..], f, b, recursive, rootError);
      }
    }
  }

  /** A single discovered file holding a non-mapping document lands, nested, at its key path; at the root itself it is refused. */
  lemma SingleFileNested(root: seq<string>, f: FileEntry, recursive: bool, optional: bool)
    requires Discovered(root, f.path, recursive) && !f.doc.Map?
    ensures f.path != root ==> DirectoryLoad(root, true, [f], recursive, optional) == Ok(Nest(RelKeys(root, f.path).value, f.doc).entries)
    ensures f.path == root ==> DirectoryLoad(root, true, [f], recursive, optional) == Err(UnsupportedFormat)
  {
    var keys := RelKeys(root, f.path).value;
    assert [f][1..] == [];
    if f.path != root {
      assert |keys| > 0;
      Merge.AssignIntoEmpty(keys, f.doc);
      assert PlaceFiles([], root, [f], recursive, UnsupportedFormat) == Merge.Outcome(Nest(keys, f.doc).entries, None);
    }
  }

  /** A kept file that is the root itself is placed at the empty key path: a mapping merges into the result, anything else is refused. */
  lemma RootFilePlaced(m: seq<Entry>, root: seq<string>, f: FileEntry, recursive: bool, rootError: ConfigError)
    requires Discovered(root, f.path, recursive) && f.path == root
    ensures f.doc.Map? ==> PlaceFiles(m, root, [f], recursive, rootError) == Merge.MergeEntries(m, f.doc.entries)
    ensures !f.doc.Map? ==> PlaceFiles(m, root, [f], recursive, rootError) == Merge.Outcome(m, Some(rootError))
  {
    RootHasNoKeys(root);
    assert [f][1..] == [];
  }

  /** Placing files fails only on a structural conflict, or with `rootError` when a kept file at the root holds no mapping. */
  lemma {:induction false} PlaceFilesErrors(m: seq<Entry>, root: seq<string>, files: seq<FileEntry>, recursive: bool, rootError: ConfigError)
    ensures var o := PlaceFiles(m, root, files, recursive, rootError);
      o.err.Some? ==>
        o.err.value == Conflict || (o.err.value == rootError && exists j :: 0 <= j < |files| && ScalarAtRoot(root, files[j], recursive))
    decreases |files|
  {
    if |files| > 0 {
      var f := files[0];
      if Discovered(root, f.path, recursive) {
        var keys := RelKeys(root, f.path).value;
        var p := Merge.Place(m, keys, f.doc, rootError);
        Merge.PlaceErrors(m, keys, f.doc, rootError);
        if p.err.None? {
          PlaceFilesErrors(p.entries, root, files[1..], recursive, rootError);
          ShiftScalarAtRoot(root, files, recursive);
        } else if p.err.value != Conflict {
          assert ScalarAtRoot(root, files[0], recursive);
        }
      } else {
        PlaceFilesErrors(m, root, files[1..], recursive, rootError);
        ShiftScalarAtRoot(root, files, recursive);
      }
    }
  }

  lemma ShiftScalarAtRoot(root: seq<string>, files: seq<FileEntry>, recursive: bool)
    requires |files| > 0
    ensures (exists j :: 0 <= j < |files[1..]| && ScalarAtRoot(root, files[1..][j], recursive))
        ==> (exists j :: 0 <= j < |files| && ScalarAtRoot(root, files[j], recursive))
  {
    if exists j :: 0 <= j < |files[1..]| && ScalarAtRoot(root, files[1..][j], recursive) {
      var j :| 0 <= j < |files[1..]| && ScalarAtRoot(root, files[1..][j], recursive);
      assert files[1..][j] == files[j + 1];
    }
  }

  /** Whether a variable belongs to the source does not depend on the case of the prefix. */
  lemma EnvMatchIgnoresCase(prefix: string, prefix': string, sep: string, name: string)
    requires Text.Upper(prefix) == Text.Upper(prefix')
    ensures EnvMatches(prefix, sep, name) == EnvMatches(prefix', sep, name)
    ensures |prefix + sep| == |prefix' + sep|
  {
    Text.UpperConcat(prefix, sep);
    Text.UpperConcat(prefix', sep);
  }

  /** The whole environment source gives the same tree for prefixes that differ only in case. */
  lemma {:induction false} EnvFoldIgnoresCase(m: seq<Entry>, prefix: string, prefix': string, sep: string, vars: seq<(string, string)>)
    requires Text.Upper(prefix) == Text.Upper(prefix')
    ensures EnvFold(m, prefix, sep, vars) == EnvFold(m, prefix', sep, vars)
    decreases |vars|
  {
    if |vars| > 0 {
      EnvMatchIgnoresCase(prefix, prefix', sep, vars[0].0);
      if EnvMatches(prefix, sep, vars[0].0) && |sep| > 0 {
        assert EnvPath(prefix, sep, vars[0].0) == EnvPath(prefix', sep, vars[0].0);
        var o := Merge.Assign(m, EnvPath(prefix, sep, vars[0].0), Coerce.EnvValue(vars[0].1));
        EnvFoldIgnoresCase(o.entries, prefix, prefix', sep, vars[1..]);
      } else {
        EnvFoldIgnoresCase(m, prefix, prefix', sep, vars[1..]);
      }
    }
  }

  /** A variable `PREFIX<sep>seg1<sep>...<sep>segn` is keyed by the lower-cased segments. */
  lemma EnvPathOfName(prefix: string, sep: string, segs: seq<string>)
    requires |sep| > 0 && |segs| >= 1
    requires forall i :: 0 <= i < |segs| ==> Text.IsPiece(segs[i], sep)
    ensures EnvMatches(prefix, sep, prefix + sep + Text.Join(segs, sep))
    ensures EnvPath(prefix, sep, prefix + sep + Text.Join(segs, sep)) == seq(|segs|, i requires 0 <= i < |segs| => Text.Lower(segs[i]))
  {
    var name := prefix + sep + Text.Join(segs, sep);
    Text.UpperConcat(prefix + sep, Text.Join(segs, sep));
    assert name[..|prefix + sep|] == prefix + sep;
    assert name[|prefix + sep|..] == Text.Join(segs, sep);
    Text.SplitJoinPieces(segs, sep);
  }

  /** A single matching variable gives the tree holding its typed value alone, at its key path. */
  lemma SingleVariable(prefix: string, sep: string, name: string, text: string)
    requires |sep| > 0 && EnvMatches(prefix, sep, name)
    ensures EnvLoad(prefix, sep, [(name, text)]) == Ok(Nest(EnvPath(prefix, sep, name), Coerce.EnvValue(text)).entries)
  {
    var keys := EnvPath(prefix, sep, name);
    var v := Coerce.EnvValue(text);
    assert !v.Map?;
    Merge.AssignIntoEmpty(keys, v);
    assert EnvFold([], prefix, sep, [(name, text)]) == Merge.Outcome(Nest(keys, v).entries, None) by {
      assert [(name, text)][0].0 == name && [(name, text)][1..] == [];
    }
  }

  /** A variable that does not match the prefix contributes nothing, wherever it appears. */
  lemma {:induction false} SkipUnmatched(m: seq<Entry>, prefix: string, sep: string, a: seq<(string, string)>, x: (string, string), b: seq<(string, string)>)
    requires !EnvMatches(prefix, sep, x.0)
    ensures EnvFold(m, prefix, sep, a + [x] + b) == EnvFold(m, prefix, sep, a + b)
    decreases |a|
  {
    if |a| == 0 {
      assert a + [x] + b == [x] + b && ([x] + b)[1..] == b && a + b == b;
    } else {
      assert (a + [x] + b)[0] == a[0] && (a + [x] + b)[1..] == a[1..] + [x] + b;
      assert (a + b)[0] == a[0] && (a + b)[1..] == a[1..] + b;
      if EnvMatches(prefix, sep, a[0].0) && |sep| > 0 {
        var o := Merge.Assign(m, EnvPath(prefix, sep, a[0].0), Coerce.EnvValue(a[0].1));
        if o.err.None? {
          SkipUnmatched(o.entries, prefix, sep, a[1..], x, b);
        }
      } else if !EnvMatches(prefix, sep, a[0].0) {
        SkipUnmatched(m, prefix, sep, a[1..], x, b);
      }
    }
  }

  // ---------------------------------------------------------------------
  // The behaviour the test suite pins down
  // ---------------------------------------------------------------------

  /** `FileSource` of a mapping gives the mapping; of `[1, 2, 3]` gives `{"value": [1, 2, 3]}`; a missing optional file gives `{}`; a missing required one raises `FileNotFoundError`. */
  lemma FileSourceExamples()
    ensures FileLoad("cfg.yml", Some(Map([Entry("foo", Int(1))])), false) == Ok([Entry("foo", Int(1))])
    ensures FileLoad("list.json", Some(List([Int(1), Int(2), Int(3)])), false) == Ok([Entry("value", List([Int(1), Int(2), Int(3)]))])
    ensures FileLoad("missing.yml", None, true) == Ok([])
    ensures FileLoad("nope.json", None, false) == Err(FileMissing)
  {
    NameParts("cfg", "yml");
    NameParts("list", "json");
  }

  /** `_read_file("x.ini")` raises `UnsupportedFormatError`. */
  lemma IniIsUnsupported()
    ensures ReadFile("x.ini", Null) == Err(UnsupportedFormat)
  {
    NameParts("x", "ini");
  }

  /** `sub/a.yml` under the root is keyed `["sub", "a"]`; `sub/note.txt` is not kept. */
  lemma ListingExample(root: seq<string>)
    ensures RelKeys(root, root + ["sub", "a.yml"]) == Some(["sub", "a"])
    ensures Discovered(root, root + ["sub", "a.yml"], true)
    ensures !Discovered(root, root + ["sub", "note.txt"], true)
  {
    FileKeys(root, ["sub"], "a", "yml");
    assert "a" + "." + "yml" == "a.yml";
    assert root + ["sub"] + ["a.yml"] == root + ["sub", "a.yml"];
    assert ["sub"] + ["a"] == ["sub", "a"];
    NameParts("a", "yml");
    NameParts("note", "txt");
    var p := root + ["sub", "a.yml"];
    assert p[..|root|] == root && p[|p| - 1] == "a.yml";
    var q := root + ["sub", "note.txt"];
    assert q[|q| - 1] == "note.txt";
  }

  /** A directory with `sub/a.yml` holding `{x: 1}` and `sub/note.txt` loads as `{"sub": {"a": {"x": 1}}}`. */
  lemma DirectoryExample(root: seq<string>)
    ensures DirectoryLoad(root, true, [FileEntry(root + ["sub", "a.yml"], Map([Entry("x", Int(1))])),
                                       FileEntry(root + ["sub", "note.txt"], Str("ignore"))], true, false)
      == Ok([Entry("sub", Map([Entry("a", Map([Entry("x", Int(1))]))]))])
  {
    var a := FileEntry(root + ["sub", "a.yml"], Map([Entry("x", Int(1))]));
    var note := FileEntry(root + ["sub", "note.txt"], Str("ignore"));
    ListingExample(root);
    SkipUndiscovered([], root, [a], note, [], true, UnsupportedFormat);
    assert [a] + [note] + [] == [a, note] && [a] + [] == [a];
    PlainKey("x");
    var inner := [Entry("x", Int(1))];
    assert Merge.Assign([], ["x"], Int(1)) == Merge.Outcome(inner, None);
    assert Merge.MergeEntries([], inner) == Merge.Outcome(inner, None);
    assert Merge.Assign([], ["a"], Map(inner)) == Merge.Outcome([Entry("a", Map(inner))], None);
    assert Merge.Assign([], ["sub", "a"], Map(inner)) == Merge.Outcome([Entry("sub", Map([Entry("a", Map(inner))]))], None);
    assert [a][1..] == [];
  }

  /** A missing directory gives `{}` when optional and raises `FileNotFoundError` otherwise. */
  lemma MissingDirectoryExamples(root: seq<string>, files: seq<FileEntry>)
    ensures DirectoryLoad(root, false, files, true, true) == Ok([])
    ensures DirectoryLoad(root, false, files, true, false) == Err(FileMissing)
  {
  }

  /** A single `_` inside a segment does not split it: `APP__DB_HOST__PORT` is keyed `["db_host", "port"]`. */
  lemma EnvUnderscoreSegment()
    ensures EnvPath("APP", "__", "APP__DB_HOST__PORT") == ["db_host", "port"]
  {
    DbHostPiece();
    Text.PieceOfChar("PORT", "__");
    assert Text.Join(["DB_HOST", "PORT"], "__") == "DB_HOST__PORT";
    assert "APP" + "__" + "DB_HOST__PORT" == "APP__DB_HOST__PORT";
    EnvPathOfName("APP", "__", ["DB_HOST", "PORT"]);
    assert Text.Lower("DB_HOST") == "db_host" && Text.Lower("PORT") == "port";
  }

  /** `APP__FOO__COUNT=10` loads as `{"foo": {"count": 10}}` with an integer. */
  lemma EnvCountExample()
    ensures EnvLoad("APP", "__", [("APP__FOO__COUNT", "10")]) == Ok([Entry("foo", Map([Entry("count", Int(10))]))])
  {
    FooCountName();
    AppVariable("FOO", "COUNT", "foo", "count", "10");
    Coerce.EnvValueExamples();
  }

  /** `APP__RAW__VALUE=abc` stays the string `"abc"`. */
  lemma EnvStringExample()
    ensures EnvLoad("APP", "__", [("APP__RAW__VALUE", "abc")]) == Ok([Entry("raw", Map([Entry("value", Str("abc"))]))])
  {
    RawValueName();
    AppVariable("RAW", "VALUE", "raw", "value", "abc");
    Coerce.EnvValueExamples();
  }

  /** `APP__BOOL__FLAG=on` loads as `True`. */
  lemma EnvBoolExample()
    ensures EnvLoad("APP", "__", [("APP__BOOL__FLAG", "on")]) == Ok([Entry("bool", Map([Entry("flag", Bool(true))]))])
  {
    BoolFlagName();
    AppVariable("BOOL", "FLAG", "bool", "flag", "on");
    Coerce.EnvValueExamples();
  }

  // ---------------------------------------------------------------------
  // Proof helpers
  // ---------------------------------------------------------------------

  // The example variable names taken apart: they keep the example proofs small.

  lemma FooCountName()
    ensures Text.Lower("FOO") == "foo" && Text.Lower("COUNT") == "count"
    ensures "APP__" + "FOO" + "__" + "COUNT" == "APP__FOO__COUNT"
  {
    assert "APP__" + "FOO" == "APP__FOO";
    assert "APP__FOO" + "__" == "APP__FOO__";
  }

  lemma RawValueName()
    ensures Text.Lower("RAW") == "raw" && Text.Lower("VALUE") == "value"
    ensures "APP__" + "RAW" + "__" + "VALUE" == "APP__RAW__VALUE"
  {
    assert "APP__" + "RAW" == "APP__RAW";
    assert "APP__RAW" + "__" == "APP__RAW__";
  }

  lemma BoolFlagName()
    ensures Text.Lower("BOOL") == "bool" && Text.Lower("FLAG") == "flag"
    ensures "APP__" + "BOOL" + "__" + "FLAG" == "APP__BOOL__FLAG"
  {
    assert "APP__" + "BOOL" == "APP__BOOL";
    assert "APP__BOOL" + "__" == "APP__BOOL__";
  }

  lemma DbHostPiece()
    ensures Text.IsPiece("DB_HOST", "__")
  {
    var t := "DB_HOST" + "__";
    forall j | 0 <= j < |"DB_HOST"|
      ensures !Text.StartsWith(t[j..], "__")
    {
      assert t[j..][..2] == [t[j], t[j + 1]];
    }
  }

  /** The variable `APP__<seg1>__<seg2>` alone loads as `{lower1: {lower2: value}}`. */
  lemma AppVariable(seg1: string, seg2: string, lower1: string, lower2: string, text: string)
    requires |seg1| > 0 && |seg2| > 0 && '_' !in seg1 && '_' !in seg2
    requires Text.Lower(seg1) == lower1 && Text.Lower(seg2) == lower2
    ensures EnvLoad("APP", "__", [("APP__" + seg1 + "__" + seg2, text)])
         == Ok([Entry(lower1, Map([Entry(lower2, Coerce.EnvValue(text))]))])
  {
    var name := "APP__" + seg1 + "__" + seg2;
    assert Text.Join([seg1, seg2], "__") == seg1 + "__" + seg2;
    assert "APP" + "__" + (seg1 + "__" + seg2) == name;
    Text.PieceOfChar(seg1, "__");
    Text.PieceOfChar(seg2, "__");
    EnvPathOfName("APP", "__", [seg1, seg2]);
    assert EnvPath("APP", "__", name) == [lower1, lower2];
    SingleVariable("APP", "__", name, text);
    assert Nest([lower1, lower2], Coerce.EnvValue(text)) == Map([Entry(lower1, Map([Entry(lower2, Coerce.EnvValue(text))]))]) by {
      assert [lower1, lower2][1..] == [lower2] && [lower2][1..] == [];
    }
  }
}
