/**
 * Deep merge of overrides into a target dictionary (`apply_overrides`), its
 * pure variant (`merge_overrides`), and assignment at a key path with the
 * root-must-be-a-mapping rule (`_assign` of the sources, `_inject` of the
 * layered loader).
 *
 * Every key of an override mapping is a dotted path: `"a.b.c"` walks (and
 * creates) the mappings `a` and `b` and assigns `c`. Two mappings at the same
 * key merge recursively; a mapping meeting a non-mapping is a conflict. The
 * target is changed in place, so the changes made before a conflict stay;
 * `Outcome` carries both the target's new contents and the error raised.
 */
module Merge {

  import opened Wrappers
  import opened Tree
  import Text

  datatype Outcome = Outcome(entries: seq<Entry>, err: Option<ConfigError>)

  /** The contents of the child mapping at `k`, empty when `k` is absent. */
  function ChildEntries(m: seq<Entry>, k: string): seq<Entry>
  {
    match Lookup(m, k)
    case Some(Map(es)) => es
    case _ => []
  }

  /** True when `k` holds something other than a mapping. */
  predicate HoldsScalar(m: seq<Entry>, k: string)
  {
    Lookup(m, k).Some? && !Lookup(m, k).value.Map?
  }

  /** Assigns `v` at the literal key path `path` (at least one segment) of the mapping `m`. */
  function Assign(m: seq<Entry>, path: seq<string>, v: Value): (o: Outcome)
    requires |path| > 0
    decreases Size(v), |path|
  {
    var k := path[0];
    if |path| > 1 then
      if HoldsScalar(m, k) then Outcome(m, Some(Conflict))
      else
        var o := Assign(ChildEntries(m, k), path[1..], v);
        Outcome(Put(m, k, Map(o.entries)), o.err)
    else if v.Map? then
      if HoldsScalar(m, k) then Outcome(m, Some(Conflict))
      else
        var o := MergeEntries(ChildEntries(m, k), v.entries);
        Outcome(Put(m, k, Map(o.entries)), o.err)
    else if Lookup(m, k).Some? && Lookup(m, k).value.Map? then Outcome(m, Some(Conflict))
    else Outcome(Put(m, k, v), None)
  }

  /** `apply_overrides(m, ov)` as a function: override entries are applied in order, stopping at the first error. */
  function MergeEntries(m: seq<Entry>, ov: seq<Entry>): (o: Outcome)
    decreases SizeEntries(ov), 0
  {
    if |ov| == 0 then Outcome(m, None)
    else
      var o := Assign(m, SplitKey(ov[0].key), ov[0].val);
      if o.err.Some? then o else MergeEntries(o.entries, ov[1..])
  }

  /** `_assign` / `_inject`: an empty key path merges a mapping into the root and rejects anything else with `rootError`. */
  function Place(m: seq<Entry>, keys: seq<string>, v: Value, rootError: ConfigError): Outcome
  {
    if |keys| == 0 then
      if v.Map? then MergeEntries(m, v.entries) else Outcome(m, Some(rootError))
    else Assign(m, keys, v)
  }

  /** `ConfigNode.merge_overrides`: a new mapping with the overrides merged in; the original is a value and stays as it was. */
  function MergeOverrides(data: seq<Entry>, ov: seq<Entry>): Result<seq<Entry>>
  {
    var o := MergeEntries(data, ov);
    if o.err.Some? then Err(o.err.value) else Ok(o.entries)
  }

  /** A dictionary that the merge functions of the library update in place. */
  class ConfigDict {
    var entries: seq<Entry>

    constructor (entries: seq<Entry>)
      ensures this.entries == entries
    {
      this.entries := entries;
    }

    /** A Python dictionary: distinct keys at every level. */
    predicate Valid()
      reads this
    {
      WellFormed(Map(entries))
    }

    /** `apply_overrides(self, overrides)`: visits the override entries in order; on an error the changes made so far remain. */
    method ApplyOverrides(overrides: seq<Entry>) returns (err: Option<ConfigError>)
      modifies this
      ensures Outcome(entries, err) == MergeEntries(old(entries), overrides)
      ensures old(Valid()) && WellFormed(Map(overrides)) ==> Valid()
    {
      if Valid() && WellFormed(Map(overrides)) {
        MergeWellFormed(entries, overrides);
      }
      var i := 0;
      while i < |overrides|
        invariant 0 <= i <= |overrides|
        invariant MergeEntries(old(entries), overrides) == MergeEntries(entries, overrides[i..])
      {
        assert overrides[i..][0] == overrides[i] && overrides[i..][1..] == overrides[i + 1..];
        var o := Assign(entries, SplitKey(overrides[i].key), overrides[i].val);
        entries := o.entries;
        if o.err.Some? {
          return o.err;
        }
        i := i + 1;
      }
      err := None;
    }

    /** `_assign(self, keys, value)` of the sources: a non-mapping at the root raises `UnsupportedFormatError`. */
    method AssignAt(keys: seq<string>, value: Value) returns (err: Option<ConfigError>)
      modifies this
      ensures Outcome(entries, err) == Place(old(entries), keys, value, UnsupportedFormat)
      ensures |keys| == 0 && !value.Map? ==> err == Some(UnsupportedFormat) && entries == old(entries)
      ensures old(Valid()) && WellFormed(value) ==> Valid()
    {
      if Valid() && WellFormed(value) && |keys| > 0 {
        AssignWellFormed(entries, keys, value);
      }
      if |keys| == 0 {
        if !value.Map? {
          return Some(UnsupportedFormat);
        }
        err := ApplyOverrides(value.entries);
      } else {
        var o := Assign(entries, keys, value);
        entries, err := o.entries, o.err;
      }
    }

    /** `_inject(self, keys, value)` of the layered loader: a non-mapping at the root raises `ValueError`. */
    method Inject(keys: seq<string>, value: Value) returns (err: Option<ConfigError>)
      modifies this
      ensures Outcome(entries, err) == Place(old(entries), keys, value, BadValue)
      ensures |keys| == 0 && !value.Map? ==> err == Some(BadValue) && entries == old(entries)
      ensures old(Valid()) && WellFormed(value) ==> Valid()
    {
      if Valid() && WellFormed(value) && |keys| > 0 {
        AssignWellFormed(entries, keys, value);
      }
      if |keys| == 0 {
        if !value.Map? {
          return Some(BadValue);
        }
        err := ApplyOverrides(value.entries);
      } else {
        var o := Assign(entries, keys, value);
        entries, err := o.entries, o.err;
      }
    }
  }

  // ---------------------------------------------------------------------
  // Properties of the merge
  // ---------------------------------------------------------------------

  /** Merging never removes a key from the target, even when it stops at a conflict. */
  lemma {:induction false} AssignKeepsKeys(m: seq<Entry>, path: seq<string>, v: Value)
    requires |path| > 0
    ensures Keys(m) <= Keys(Assign(m, path, v).entries)
    decreases Size(v), |path|
  {
    var k := path[0];
    var o := Assign(m, path, v);
    if o.entries != m {
      if |path| > 1 {
        KeysPut(m, k, Map(Assign(ChildEntries(m, k), path[1..], v).entries));
      } else if v.Map? {
        KeysPut(m, k, Map(MergeEntries(ChildEntries(m, k), v.entries).entries));
      } else {
        KeysPut(m, k, v);
      }
    }
  }

  lemma {:induction false} MergeKeepsKeys(m: seq<Entry>, ov: seq<Entry>)
    ensures Keys(m) <= Keys(MergeEntries(m, ov).entries)
    decreases |ov|
  {
    if |ov| > 0 {
      var o := Assign(m, SplitKey(ov[0].key), ov[0].val);
      AssignKeepsKeys(m, SplitKey(ov[0].key), ov[0].val);
      if o.err.None? {
        MergeKeepsKeys(o.entries, ov[1..]);
      }
    }
  }

  /** A key that no override entry starts with keeps its value. */
  lemma {:induction false} MergeUntouched(m: seq<Entry>, ov: seq<Entry>, k: string)
    requires forall i :: 0 <= i < |ov| ==> SplitKey(ov[i].key)[0] != k
    ensures Lookup(MergeEntries(m, ov).entries, k) == Lookup(m, k)
    decreases |ov|
  {
    if |ov| > 0 {
      var path := SplitKey(ov[0].key);
      var o := Assign(m, path, ov[0].val);
      if o.entries != m {
        if |path| > 1 {
          LookupPut(m, path[0], Map(Assign(ChildEntries(m, path[0]), path[1..], ov[0].val).entries), k);
        } else if ov[0].val.Map? {
          LookupPut(m, path[0], Map(MergeEntries(ChildEntries(m, path[0]), ov[0].val.entries).entries), k);
        } else {
          LookupPut(m, path[0], ov[0].val, k);
        }
      }
      if o.err.None? {
        MergeUntouched(o.entries, ov[1..], k);
      }
    }
  }

  /** After a successful assignment of a non-mapping, reading the path gives exactly that value. */
  lemma {:induction false} AssignLeafWins(m: seq<Entry>, path: seq<string>, v: Value)
    requires |path| > 0 && !v.Map?
    requires Assign(m, path, v).err.None?
    ensures GetPath(Map(Assign(m, path, v).entries), path) == Some(v)
    decreases |path|
  {
    var k := path[0];
    if |path| > 1 {
      var o := Assign(ChildEntries(m, k), path[1..], v);
      AssignLeafWins(ChildEntries(m, k), path[1..], v);
      LookupPut(m, k, Map(o.entries), k);
    } else {
      LookupPut(m, k, v, k);
    }
  }

  /** Assigning a non-mapping into an empty mapping builds exactly the chain of mappings down to it. */
  lemma {:induction false} AssignIntoEmpty(path: seq<string>, v: Value)
    requires |path| > 0 && !v.Map?
    ensures Assign([], path, v) == Outcome(Nest(path, v).entries, None)
    decreases |path|
  {
    if |path| > 1 {
      AssignIntoEmpty(path[1..], v);
    }
  }

  /** Assigning fails only on a structural conflict. */
  lemma {:induction false} AssignFailsOnlyByConflict(m: seq<Entry>, path: seq<string>, v: Value)
    requires |path| > 0
    ensures Assign(m, path, v).err.Some? ==> Assign(m, path, v).err.value == Conflict
    decreases Size(v), |path|, 1
  {
    var k := path[0];
    if |path| > 1 {
      if !HoldsScalar(m, k) {
        AssignFailsOnlyByConflict(ChildEntries(m, k), path[1..], v);
      }
    } else if v.Map? && !HoldsScalar(m, k) {
      MergeFailsOnlyByConflict(ChildEntries(m, k), v.entries);
    }
  }

  /** `apply_overrides` fails only on a structural conflict. */
  lemma {:induction false} MergeFailsOnlyByConflict(m: seq<Entry>, ov: seq<Entry>)
    ensures MergeEntries(m, ov).err.Some? ==> MergeEntries(m, ov).err.value == Conflict
    decreases SizeEntries(ov), 0
  {
    if |ov| > 0 {
      assert SizeEntries(ov) == Size(ov[0].val) + 1 + SizeEntries(ov[1..]);
      AssignFailsOnlyByConflict(m, SplitKey(ov[0].key), ov[0].val);
      var o := Assign(m, SplitKey(ov[0].key), ov[0].val);
      if o.err.None? {
        MergeFailsOnlyByConflict(o.entries, ov[1..]);
      }
    }
  }

  /** `_assign` / `_inject` fail only on a structural conflict or on a non-mapping at the root. */
  lemma PlaceErrors(m: seq<Entry>, keys: seq<string>, v: Value, rootError: ConfigError)
    ensures var o := Place(m, keys, v, rootError);
      o.err.Some? ==> o.err.value == Conflict || (o.err.value == rootError && |keys| == 0 && !v.Map?)
  {
    if |keys| == 0 {
      if v.Map? {
        MergeFailsOnlyByConflict(m, v.entries);
      }
    } else {
      AssignFailsOnlyByConflict(m, keys, v);
    }
  }

  /** Applying overrides one after another is applying them all: the merge is a left fold. */
  lemma {:induction false} MergeAppend(m: seq<Entry>, ov: seq<Entry>, e: Entry)
    ensures MergeEntries(m, ov + [e]) ==
      var o := MergeEntries(m, ov);
      if o.err.Some? then o else Assign(o.entries, SplitKey(e.key), e.val)
    decreases |ov|
  {
    if |ov| == 0 {
      assert ov + [e] == [e];
    } else {
      assert (ov + [e])[0] == ov[0] && (ov + [e])[1..] == ov[1..] + [e];
      var o := Assign(m, SplitKey(ov[0].key), ov[0].val);
      if o.err.None? {
        MergeAppend(o.entries, ov[1..], e);
      }
    }
  }

  /** Precedence: the last override of a non-mapping value wins at its dotted path. */
  lemma LastOverrideWins(m: seq<Entry>, ov: seq<Entry>, k: string, v: Value)
    requires !v.Map?
    requires MergeEntries(m, ov + [Entry(k, v)]).err.None?
    ensures GetPath(Map(MergeEntries(m, ov + [Entry(k, v)]).entries), SplitKey(k)) == Some(v)
  {
    MergeAppend(m, ov, Entry(k, v));
    var o := MergeEntries(m, ov);
    AssignLeafWins(o.entries, SplitKey(k), v);
  }

  /** At a plain key, a non-mapping override fails exactly when a mapping is already there, and then nothing changes. */
  lemma ScalarOverrideConflict(m: seq<Entry>, k: string, v: Value)
    requires '.' !in k && !v.Map?
    ensures var o := MergeEntries(m, [Entry(k, v)]);
      && (o.err.Some? <==> Lookup(m, k).Some? && Lookup(m, k).value.Map?)
      && (o.err.Some? ==> o == Outcome(m, Some(Conflict)))
  {
    PlainKey(k);
  }

  /** At a plain key, a mapping override over an existing non-mapping is a conflict and nothing changes. */
  lemma MappingOverScalarConflict(m: seq<Entry>, k: string, v: Value)
    requires '.' !in k && v.Map? && HoldsScalar(m, k)
    ensures MergeEntries(m, [Entry(k, v)]) == Outcome(m, Some(Conflict))
  {
    PlainKey(k);
  }

  /** True when no key anywhere in the tree contains a dot. */
  predicate Undotted(v: Value)
  {
    match v
    case Map(es) => forall i :: 0 <= i < |es| ==> '.' !in es[i].key && Undotted(es[i].val)
    case _ => true
  }

  lemma PutFresh(m: seq<Entry>, k: string, v: Value)
    requires k !in Keys(m)
    ensures Put(m, k, v) == m + [Entry(k, v)]
  {
    if |m| > 0 {
      assert k !in Keys(m[1..]) by {
        assert forall i :: 0 <= i < |m[1..]| ==> m[1..][i].key == m[i + 1].key;
      }
      PutFresh(m[1..], k, v);
      assert [m[0]] + (m[1..] + [Entry(k, v)]) == m + [Entry(k, v)];
    }
  }

  /**
   * Merging an undotted, well-formed mapping into a mapping that shares none of
   * its keys appends its entries unchanged; in particular merging into `{}`
   * copies the overrides verbatim.
   */
  lemma {:induction false} MergeFresh(m: seq<Entry>, ov: seq<Entry>)
    requires Undotted(Map(ov)) && WellFormed(Map(ov))
    requires Keys(m) !! Keys(ov)
    ensures MergeEntries(m, ov) == Outcome(m + ov, None)
    decreases SizeEntries(ov), 1
  {
    if |ov| > 0 {
      var e := ov[0];
      assert e.key in Keys(ov);
      assert SizeEntries(ov) == Size(e.val) + 1 + SizeEntries(ov[1..]);
      AssignFresh(m, e);
      PlainKey(e.key);
      var m' := m + [e];
      FreshTail(m, ov);
      MergeFresh(m', ov[1..]);
      assert m' + ov[1..] == m + ov;
    }
  }

  /** The rest of a fresh, undotted mapping is still fresh for the target extended by its first entry. */
  lemma FreshTail(m: seq<Entry>, ov: seq<Entry>)
    requires |ov| > 0 && Undotted(Map(ov)) && WellFormed(Map(ov))
    requires Keys(m) !! Keys(ov)
    ensures Undotted(Map(ov[1..])) && WellFormed(Map(ov[1..]))
    ensures Keys(m + [ov[0]]) !! Keys(ov[1..])
  {
    var m' := m + [ov[0]];
    assert forall i :: 0 <= i < |ov[1..]| ==> ov[1..][i] == ov[i + 1];
    assert Keys(m') == Keys(m) + {ov[0].key} by {
      assert forall i :: 0 <= i < |m| ==> m'[i] == m[i];
      assert m'[|m|] == ov[0];
    }
    assert forall i :: 0 < i < |ov| ==> ov[i].key != ov[0].key;
  }

  /** Assigning an undotted, well-formed entry at a key the target lacks appends that entry. */
  lemma {:induction false} AssignFresh(m: seq<Entry>, e: Entry)
    requires '.' !in e.key && Undotted(e.val) && WellFormed(e.val)
    requires e.key !in Keys(m)
    ensures Assign(m, [e.key], e.val) == Outcome(m + [e], None)
    decreases Size(e.val), 0
  {
    assert Lookup(m, e.key).None?;
    if e.val.Map? {
      assert ChildEntries(m, e.key) == [];
      MergeFresh([], e.val.entries);
      assert [] + e.val.entries == e.val.entries;
    }
    PutFresh(m, e.key, e.val);
  }

  /** `_assign(target, [], {...})` / `_inject(target, (), {...})` on an empty target gives the mapping itself. */
  lemma PlaceAtRootCopies(v: Value, rootError: ConfigError)
    requires v.Map? && Undotted(v) && WellFormed(v)
    ensures Place([], [], v, rootError) == Outcome(v.entries, None)
  {
    MergeFresh([], v.entries);
    assert [] + v.entries == v.entries;
  }

  /** With an empty key path a non-mapping is refused with the caller's error and the target is untouched. */
  lemma PlaceAtRootRejectsScalar(m: seq<Entry>, v: Value, rootError: ConfigError)
    requires !v.Map?
    ensures Place(m, [], v, rootError) == Outcome(m, Some(rootError))
  {
  }

  /** Keys stay distinct at every level of a merged tree. */
  lemma {:induction false} AssignWellFormed(m: seq<Entry>, path: seq<string>, v: Value)
    requires |path| > 0 && WellFormed(Map(m)) && WellFormed(v)
    ensures WellFormed(Map(Assign(m, path, v).entries))
    decreases Size(v), |path|
  {
    var k := path[0];
    var o := Assign(m, path, v);
    if o.entries != m {
      ChildWellFormed(m, k);
      var child: Value;
      if |path| > 1 {
        AssignWellFormed(ChildEntries(m, k), path[1..], v);
        child := Map(Assign(ChildEntries(m, k), path[1..], v).entries);
      } else if v.Map? {
        MergeWellFormed(ChildEntries(m, k), v.entries);
        child := Map(MergeEntries(ChildEntries(m, k), v.entries).entries);
      } else {
        child := v;
      }
      assert o.entries == Put(m, k, child);
      PutWellFormed(m, k, child);
    }
  }

  lemma {:induction false} MergeWellFormed(m: seq<Entry>, ov: seq<Entry>)
    requires WellFormed(Map(m)) && WellFormed(Map(ov))
    ensures WellFormed(Map(MergeEntries(m, ov).entries))
    decreases SizeEntries(ov), 0
  {
    if |ov| > 0 {
      AssignWellFormed(m, SplitKey(ov[0].key), ov[0].val);
      var o := Assign(m, SplitKey(ov[0].key), ov[0].val);
      if o.err.None? {
        assert WellFormed(Map(ov[1..])) by {
          assert DistinctKeys(ov[1..]) && forall i :: 0 <= i < |ov[1..]| ==> ov[1..][i] == ov[i + 1];
        }
        MergeWellFormed(o.entries, ov[1..]);
      }
    }
  }

  lemma ChildWellFormed(m: seq<Entry>, k: string)
    requires WellFormed(Map(m))
    ensures WellFormed(Map(ChildEntries(m, k)))
  {
    LookupWellFormed(m, k);
  }

  lemma {:induction false} LookupWellFormed(m: seq<Entry>, k: string)
    requires forall i :: 0 <= i < |m| ==> WellFormed(m[i].val)
    ensures Lookup(m, k).Some? ==> WellFormed(Lookup(m, k).value)
  {
    if |m| > 0 && m[0].key != k {
      LookupWellFormed(m[1..], k);
    }
  }

  lemma {:induction false} PutWellFormed(m: seq<Entry>, k: string, v: Value)
    requires WellFormed(Map(m)) && WellFormed(v)
    ensures WellFormed(Map(Put(m, k, v)))
  {
    PutDistinct(m, k, v);
    PutValuesWellFormed(m, k, v);
  }

  lemma {:induction false} PutValuesWellFormed(m: seq<Entry>, k: string, v: Value)
    requires (forall i :: 0 <= i < |m| ==> WellFormed(m[i].val)) && WellFormed(v)
    ensures var r := Put(m, k, v); forall i :: 0 <= i < |r| ==> WellFormed(r[i].val)
  {
    if |m| > 0 && m[0].key != k {
      PutValuesWellFormed(m[1..], k, v);
      var r := Put(m, k, v);
      assert r == [m[0]] + Put(m[1..], k, v);
      assert forall i :: 0 < i < |r| ==> r[i] == Put(m[1..], k, v)[i - 1];
    }
  }

  // ---------------------------------------------------------------------
  // The behaviour the test suite pins down
  // ---------------------------------------------------------------------

  /** `{"a": {"x": 1}}` merged with `{"a": {"y": 2}}` is `{"a": {"x": 1, "y": 2}}`. */
  lemma NestedMappingsMerge()
    ensures MergeEntries([Entry("a", Map([Entry("x", Int(1))]))], [Entry("a", Map([Entry("y", Int(2))]))])
      == Outcome([Entry("a", Map([Entry("x", Int(1)), Entry("y", Int(2))]))], None)
  {
    PlainKey("a");
    PlainKey("y");
    var inner := [Entry("x", Int(1))];
    var m := [Entry("a", Map(inner))];
    assert ChildEntries(m, "a") == inner;
    assert Assign(inner, ["y"], Int(2)) == Outcome(inner + [Entry("y", Int(2))], None);
    assert MergeEntries(inner, [Entry("y", Int(2))]) == Outcome(inner + [Entry("y", Int(2))], None);
    assert inner + [Entry("y", Int(2))] == [Entry("x", Int(1)), Entry("y", Int(2))];
    assert Put(m, "a", Map([Entry("x", Int(1)), Entry("y", Int(2))]))
      == [Entry("a", Map([Entry("x", Int(1)), Entry("y", Int(2))]))];
  }

  /** `{}` merged with `{"new.parent.key": 3}` is `{"new": {"parent": {"key": 3}}}`. */
  lemma DottedKeyCreatesParents()
    ensures MergeEntries([], [Entry("new.parent.key", Int(3))])
      == Outcome([Entry("new", Map([Entry("parent", Map([Entry("key", Int(3))]))]))], None)
  {
    var path := ["new", "parent", "key"];
    NewParentKeyPath();
    AssignIntoEmpty(path, Int(3));
    assert Nest(path, Int(3)) == Map([Entry("new", Map([Entry("parent", Map([Entry("key", Int(3))]))]))]) by {
      assert path[1..] == ["parent", "key"] && path[1..][1..] == ["key"] && path[1..][1..][1..] == [];
    }
    MergeSingle([], Entry("new.parent.key", Int(3)));
  }

  lemma NewParentKeyPath()
    ensures SplitKey("new.parent.key") == ["new", "parent", "key"]
  {
    assert Text.Join(["new", "parent", "key"], ".") == "new.parent.key";
    Text.SplitJoin(["new", "parent", "key"], ".");
  }

  /** Applying two override entries with plain keys is assigning the first, then the second unless the first failed. */
  lemma MergeTwo(m: seq<Entry>, e1: Entry, e2: Entry)
    requires '.' !in e1.key && '.' !in e2.key
    ensures MergeEntries(m, [e1, e2]) ==
      var o := Assign(m, [e1.key], e1.val);
      if o.err.Some? then o else Assign(o.entries, [e2.key], e2.val)
  {
    MergePlainStep(m, [e1, e2]);
    assert [e1, e2][1..] == [e2];
    var o := Assign(m, [e1.key], e1.val);
    PlainKey(e2.key);
    MergeSingle(o.entries, e2);
  }

  /** Overriding the scalar at `scalar` with `{"nested": 2}` raises and leaves the target as it was. */
  lemma ScalarReplacedByMappingFails()
    ensures MergeEntries([Entry("scalar", Int(1))], [Entry("scalar", Map([Entry("nested", Int(2))]))])
      == Outcome([Entry("scalar", Int(1))], Some(Conflict))
  {
    MappingOverScalarConflict([Entry("scalar", Int(1))], "scalar", Map([Entry("nested", Int(2))]));
  }

  /** One step of the fold for an override entry whose key has no dot. */
  lemma MergePlainStep(m: seq<Entry>, ov: seq<Entry>)
    requires |ov| > 0 && '.' !in ov[0].key
    ensures MergeEntries(m, ov) ==
      var o := Assign(m, [ov[0].key], ov[0].val);
      if o.err.Some? then o else MergeEntries(o.entries, ov[1..])
  {
    PlainKey(ov[0].key);
  }

  /** `merge_overrides({"extra": True, "has space": 21})`: the override wins, the new key is added, the rest is kept. */
  lemma MergeOverridesExample()
    ensures MergeOverrides([Entry("1alpha", Int(10)), Entry("has space", Int(20))],
                           [Entry("extra", Bool(true)), Entry("has space", Int(21))])
      == Ok([Entry("1alpha", Int(10)), Entry("has space", Int(21)), Entry("extra", Bool(true))])
  {
    var m := [Entry("1alpha", Int(10)), Entry("has space", Int(20))];
    var extra := Entry("extra", Bool(true));
    MergeTwo(m, extra, Entry("has space", Int(21)));
    ExtraAdded();
    HasSpaceReplaced();
  }

  lemma ExtraAdded()
    ensures Assign([Entry("1alpha", Int(10)), Entry("has space", Int(20))], ["extra"], Bool(true))
      == Outcome([Entry("1alpha", Int(10)), Entry("has space", Int(20)), Entry("extra", Bool(true))], None)
  {
    var m := [Entry("1alpha", Int(10)), Entry("has space", Int(20))];
    assert "extra" !in Keys(m);
    AssignFresh(m, Entry("extra", Bool(true)));
    assert m + [Entry("extra", Bool(true))] == [Entry("1alpha", Int(10)), Entry("has space", Int(20)), Entry("extra", Bool(true))];
  }

  lemma HasSpaceReplaced()
    ensures Assign([Entry("1alpha", Int(10)), Entry("has space", Int(20)), Entry("extra", Bool(true))], ["has space"], Int(21))
      == Outcome([Entry("1alpha", Int(10)), Entry("has space", Int(21)), Entry("extra", Bool(true))], None)
  {
    var m := [Entry("1alpha", Int(10)), Entry("has space", Int(20)), Entry("extra", Bool(true))];
    assert Lookup(m, "has space") == Some(Int(20));
    AssignScalarLeaf(m, "has space", Int(21));
  }

  /** `_inject({}, (), {"k": 1})` leaves `{"k": 1}` in the target; `_inject({}, (), 123)` raises `ValueError`. */
  method InjectExamples() returns (target: seq<Entry>, err: Option<ConfigError>, err': Option<ConfigError>)
    ensures target == [Entry("k", Int(1))] && err.None?
    ensures err' == Some(BadValue)
  {
    var d := new ConfigDict([]);
    PlaceAtRootCopies(Map([Entry("k", Int(1))]), BadValue);
    err := d.Inject([], Map([Entry("k", Int(1))]));
    target := d.entries;
    var d' := new ConfigDict([]);
    err' := d'.Inject([], Int(123));
  }

  /** `_assign({}, [], 5)` raises `UnsupportedFormatError`; `_assign(target, [], {"ok": True})` leaves `{"ok": True}` in the target. */
  method AssignAtExamples() returns (err: Option<ConfigError>, target: seq<Entry>, err': Option<ConfigError>)
    ensures err == Some(UnsupportedFormat)
    ensures target == [Entry("ok", Bool(true))] && err'.None?
  {
    var d := new ConfigDict([]);
    err := d.AssignAt([], Int(5));
    var d' := new ConfigDict([]);
    PlaceAtRootCopies(Map([Entry("ok", Bool(true))]), UnsupportedFormat);
    err' := d'.AssignAt([], Map([Entry("ok", Bool(true))]));
    target := d'.entries;
  }

  /**
   * `apply_overrides` on a target dictionary: `{"a": {"x": 1}}` with `{"a": {"y": 2}}`
   * becomes `{"a": {"x": 1, "y": 2}}`, `{}` with `{"new.parent.key": 3}` becomes
   * `{"new": {"parent": {"key": 3}}}`, and `{"scalar": 1}` with `{"scalar": {"nested": 2}}` raises.
   */
  method ApplyOverridesExamples() returns (merged: seq<Entry>, created: seq<Entry>, err: Option<ConfigError>)
    ensures merged == [Entry("a", Map([Entry("x", Int(1)), Entry("y", Int(2))]))]
    ensures created == [Entry("new", Map([Entry("parent", Map([Entry("key", Int(3))]))]))]
    ensures err == Some(Conflict)
  {
    NestedMappingsMerge();
    DottedKeyCreatesParents();
    ScalarReplacedByMappingFails();
    var d := new ConfigDict([Entry("a", Map([Entry("x", Int(1))]))]);
    var e := d.ApplyOverrides([Entry("a", Map([Entry("y", Int(2))]))]);
    merged := d.entries;
    var d' := new ConfigDict([]);
    e := d'.ApplyOverrides([Entry("new.parent.key", Int(3))]);
    created := d'.entries;
    var d'' := new ConfigDict([Entry("scalar", Int(1))]);
    err := d''.ApplyOverrides([Entry("scalar", Map([Entry("nested", Int(2))]))]);
  }

  // ---------------------------------------------------------------------
  // Proof helpers
  // ---------------------------------------------------------------------

  // One-step unfoldings of the merge on a single entry; they link the examples to
  // `Assign` and state nothing beyond its definition.

  /** Applying a single override entry is assigning it at its dotted path. */
  lemma MergeSingle(m: seq<Entry>, e: Entry)
    ensures MergeEntries(m, [e]) == Assign(m, SplitKey(e.key), e.val)
  {
    assert [e][1..] == [];
  }

  /** A non-mapping at a plain key where no mapping is stored replaces or adds the value. */
  lemma AssignScalarLeaf(m: seq<Entry>, k: string, v: Value)
    requires !v.Map? && !(Lookup(m, k).Some? && Lookup(m, k).value.Map?)
    ensures Assign(m, [k], v) == Outcome(Put(m, k, v), None)
  {
  }
}
