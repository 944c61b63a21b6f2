# liteconf configuration tree, in Dafny

liteconf is a layered configuration library. It loads YAML, JSON and TOML
files, directory trees of such files, environment variables and in-memory
overlays. It deep-merges them in order into one tree, resolves `${VAR}`
placeholders against the environment, and gives access to the result through
`ConfigNode` / `ConfigView` objects with identifier-safe attribute aliases and
dotted-path lookup.

This project models the deterministic tree logic of that library:

- the deep merge of overrides: `apply_overrides` in place, `merge_overrides` as a copy;
- root assignment: `_assign` of the sources, `_inject` of the layered loader;
- key paths derived from file locations: `_rel_keys`, `_derive_key_path`;
- placeholder resolution and the `MissingEnvVar` sentinel;
- attribute aliases, subscript and attribute access, `_dotted_get`, and `ConfigView.get` with coercion;
- the token coercions of `_coerce_bool` and `EnvSource`;
- the sources' `load` and the loaders' pipelines, including the loader's "nothing found" rule and the manager's validators.

The only repository file this model cites is the test module
`tests/test_coverage_extras.py`. The implementation modules (`liteconf.core`,
`liteconf.sources`, `liteconf.loader`, `liteconf.namespaces`,
`liteconf.manager`) are not part of this model. Their behaviour is modelled
from the library's documented behaviour and from what the tests assert. Where
the two could differ, the tests decide.

Layout, one module per file:

| file | module | contents |
|---|---|---|
| `wrappers.dfy` | `Wrappers` | `Option` |
| `text.dfy` | `Text` | `str.split`/`join`, ASCII case mapping, `int()` / `str()` of integers |
| `tree.dfy` | `Tree` | the value tree, the error family, ordered dictionaries, dotted keys |
| `merge.dfy` | `Merge` | deep merge, `_assign` / `_inject`, and the class `ConfigDict` whose methods change a dictionary in place |
| `placeholders.dfy` | `Placeholders` | `${NAME}`, `${NAME:-D}`, `${NAME:D}`, `resolve_placeholders`, the interpolation step |
| `coerce.dfy` | `Coerce` | `_coerce_bool`, `get(..., coerce=...)`, typing of environment values |
| `node.dfy` | `Node` | aliases, `getattr` / `[]`, `_dotted_get`, `get` |
| `sources.dfy` | `Sources` | `FileSource`, `DirectorySource`, `EnvSource`, `DictOverlay`, custom sources |
| `loader.dfy` | `Loader` | `LayeredConfigLoader.load` |
| `manager.dfy` | `Manager` | `ConfigManager.load` with validators |

Modelling choices:

- A dictionary is an ordered list of entries. Python dictionaries keep insertion order, and the merge visits override keys in that order. `d[k] = v` keeps an existing key in place and appends a new one.
- The in-place operations are methods of `Merge.ConfigDict`. This class holds the dictionary being changed. Each method is proved equal to a function (`MergeEntries`, `Place`), and the properties are proved about those functions.
- The merge result `Outcome` carries the dictionary and the error raised. The target is changed in place, so changes made before a conflict remain.
- Every key of an override mapping is a dotted path, at every level of nesting. The key paths given to `_assign` and `_inject` are literal segments.
- A mapping meeting a non-mapping at the same key is a conflict.
- The environment is a parameter: a map for placeholder resolution, and a list of name/value pairs in iteration order for `EnvSource`.
- A file system path is the sequence of its components. A directory listing is a parameter giving each file's path and its parsed document, in the order the source visits them.
- A supported file that is the root of a directory source or of a loader layer is kept with the empty key path: a mapping merges at the root of the tree, anything else is refused by `_assign` / `_inject`.
- `ConfigDict.Valid` states that the dictionary has distinct keys at every level; each in-place method keeps it whenever the value it is given is itself well formed.
- A node is modelled by its mapping. Wrapping nested mappings and lists of mappings into nodes is the identity on values.

## Model

| member | source | states |
|---|---|---|
| Tree.Lookup | tests/test_coverage_extras.py:307 | `d.get(k)` finds a value exactly when `k` is a key of the mapping |
| Tree.LookupPut | tests/test_coverage_extras.py:170-172 | after `d[k] = v`, reading `k` gives `v` and every other key gives its old value |
| Tree.KeysPut | tests/test_coverage_extras.py:170-172 | `d[k] = v` adds `k` to the keys and removes none |
| Tree.PutDistinct | tests/test_coverage_extras.py:170-172 | `d[k] = v` keeps the keys of a dictionary distinct |
| Tree.SplitKey | tests/test_coverage_extras.py:180-182 | a dotted key splits into at least one segment |
| Tree.PlainKey | tests/test_coverage_extras.py:170-172 | a key without a dot is a one-segment path |
| Tree.Nest | tests/test_coverage_extras.py:180-182 | the chain of mappings `{p0: {p1: ... v}}` holds `v` at its path |
| Text.JoinSplit | tests/test_coverage_extras.py:180-182 | joining the pieces of a split with the same separator gives the text back |
| Text.SplitJoin | tests/test_coverage_extras.py:180-182 | splitting a join of pieces that do not contain the separator's first character gives the pieces back |
| Text.SplitJoinPieces | tests/test_coverage_extras.py:252-256 | splitting a join gives the pieces back whenever no occurrence of the separator starts inside a piece followed by the separator, so `DB_HOST` survives the separator `__` |
| Text.ParseInt | tests/test_coverage_extras.py:253-256 | a text reads as an integer exactly when it is an optional `+` or `-` followed by at least one decimal digit; a leading `-` gives a value at most zero, otherwise it is at least zero |
| Text.ParseFormatInt | tests/test_coverage_extras.py:253-256 | `int(str(n)) == n` for every integer |
| Merge.ConfigDict.ApplyOverrides | tests/test_coverage_extras.py:328-333 | the target's new contents and the error equal the left fold of the overrides over the old contents; the changes made before an error remain |
| Merge.ConfigDict.AssignAt | tests/test_coverage_extras.py:259-265 | `_assign` with no keys merges a mapping into the target and rejects a non-mapping with `UnsupportedFormatError`, leaving the target unchanged |
| Merge.ConfigDict.Inject | tests/test_coverage_extras.py:95-101 | `_inject` with no keys merges a mapping into the target and rejects a non-mapping with `ValueError`, leaving the target unchanged |
| Merge.Assign | tests/test_coverage_extras.py:173-182 | walks and creates the mappings along a literal key path and places the value at its end; the lemmas below state its keys, leaf, parents and conflicts |
| Merge.MergeEntries | tests/test_coverage_extras.py:328-333 | `apply_overrides` as a left fold over the override entries, each at its dotted path, stopping at the first conflict; the lemmas below state its keys, untouched values, last-wins rule and conflicts |
| Merge.Place | tests/test_coverage_extras.py:95-101 | `_assign` / `_inject`: the empty key path merges a mapping at the root and refuses anything else with the caller's error; stated by `Merge.PlaceErrors`, `Merge.PlaceAtRootCopies` and `Merge.PlaceAtRootRejectsScalar` |
| Merge.MergeOverrides | tests/test_coverage_extras.py:169-172 | `merge_overrides`: the merge applied to a copy, the original left as it was; stated by `Merge.MergeOverridesExample` |
| Merge.AssignKeepsKeys | tests/test_coverage_extras.py:328-333 | assigning at a path never removes a key of the target, even when it stops at a conflict |
| Merge.MergeKeepsKeys | tests/test_coverage_extras.py:328-333 | applying overrides never removes a key of the target |
| Merge.MergeUntouched | tests/test_coverage_extras.py:328-333 | a key that no override touches keeps its value |
| Merge.AssignLeafWins | tests/test_coverage_extras.py:169-172 | after a successful assignment of a non-mapping, the path holds exactly that value |
| Merge.AssignIntoEmpty | tests/test_coverage_extras.py:179-182 | assigning a non-mapping into `{}` at a path creates exactly the missing parents down to it |
| Merge.AssignFailsOnlyByConflict | tests/test_coverage_extras.py:173-178 | assignment fails only with a structural conflict |
| Merge.MergeFailsOnlyByConflict | tests/test_coverage_extras.py:173-178 | `apply_overrides` fails only with a structural conflict |
| Merge.PlaceErrors | tests/test_coverage_extras.py:95-101 | `_assign` / `_inject` fail only with a conflict, or with the caller's error when a non-mapping is placed at the root |
| Merge.MergeAppend | tests/test_coverage_extras.py:169-172 | applying overrides is a left fold: one more override entry is applied to the result of the others unless they failed |
| Merge.MergeTwo | tests/test_coverage_extras.py:169-172 | two plain override entries apply in order, the second only when the first succeeded |
| Merge.LastOverrideWins | tests/test_coverage_extras.py:169-172 | the last override of a non-mapping value is what the merged tree holds at its dotted path |
| Merge.ScalarOverrideConflict | tests/test_coverage_extras.py:173-178 | a non-mapping override at a plain key fails exactly when a mapping is there, and then the target is unchanged |
| Merge.MappingOverScalarConflict | tests/test_coverage_extras.py:173-178 | a mapping override over an existing non-mapping is a conflict that leaves the target unchanged |
| Merge.MergeFresh | tests/test_coverage_extras.py:169-172 | overrides with plain, distinct keys that the target lacks are appended unchanged, in order |
| Merge.AssignFresh | tests/test_coverage_extras.py:169-172 | a plain entry at a key the target lacks is appended |
| Merge.PlaceAtRootCopies | tests/test_coverage_extras.py:97-99 | `_inject({}, (), m)` and `_assign({}, [], m)` leave exactly the mapping `m` in the target |
| Merge.PlaceAtRootRejectsScalar | tests/test_coverage_extras.py:259-261 | a non-mapping at the empty key path is refused with the caller's error and the target is unchanged |
| Merge.AssignWellFormed | tests/test_coverage_extras.py:328-333 | keys stay distinct at every level after an assignment |
| Merge.MergeWellFormed | tests/test_coverage_extras.py:328-333 | keys stay distinct at every level after `apply_overrides` |
| Merge.NestedMappingsMerge | tests/test_coverage_extras.py:331-333 | `{"a": {"x": 1}}` with `{"a": {"y": 2}}` merges to `{"a": {"x": 1, "y": 2}}` |
| Merge.DottedKeyCreatesParents | tests/test_coverage_extras.py:180-182 | `{}` with `{"new.parent.key": 3}` becomes `{"new": {"parent": {"key": 3}}}` |
| Merge.ScalarReplacedByMappingFails | tests/test_coverage_extras.py:173-178 | `{"scalar": 1}` with `{"scalar": {"nested": 2}}` raises and the target keeps `{"scalar": 1}` |
| Merge.MergeOverridesExample | tests/test_coverage_extras.py:169-172 | `merge_overrides({"extra": True, "has space": 21})` gives a new mapping where the override wins, the new key is added and the rest is kept |
| Merge.InjectExamples | tests/test_coverage_extras.py:95-101 | on a target dictionary, `_inject({}, (), {"k": 1})` leaves `{"k": 1}` and `_inject({}, (), 123)` raises `ValueError` |
| Merge.AssignAtExamples | tests/test_coverage_extras.py:259-265 | on a target dictionary, `_assign({}, [], 5)` raises `UnsupportedFormatError` and `_assign(target, [], {"ok": True})` leaves `{"ok": True}` |
| Merge.ApplyOverridesExamples | tests/test_coverage_extras.py:173-182 | on target dictionaries: the recursive merge of nested mappings, parent creation for a dotted key, and the conflict of a mapping over a scalar |
| Placeholders.NameLength | tests/test_coverage_extras.py:218-220 | the variable name ends at the first `:`, so a default may itself contain `:` |
| Placeholders.ParsePlaceholder | tests/test_coverage_extras.py:186-192 | reads `${NAME}`, `${NAME:-D}` and `${NAME:D}`; its inverse is `FormatPlaceholder`, stated by `Placeholders.ParseFormat` and `Placeholders.FormatParse` |
| Placeholders.ResolveString | tests/test_coverage_extras.py:186-192 | a string that is one placeholder resolves to the variable's value when it is set, else to its default or the `MissingEnvVar` sentinel; any other string is kept; stated by `Placeholders.MissingTextIsRequiredPlaceholder`, `Placeholders.ColonDashDefault`, `Placeholders.ColonDefault` and `Placeholders.ResolveKeepsPlainText` |
| Placeholders.Interpolate | tests/test_coverage_extras.py:59-64 | the interpolation step of a load: resolve, then fail on the first sentinel; stated by `Placeholders.InterpolateFails` and `Placeholders.InterpolationDisabledKeepsText` |
| Placeholders.ParseFormat | tests/test_coverage_extras.py:186-192 | every well-formed placeholder written out reads back as itself |
| Placeholders.FormatParse | tests/test_coverage_extras.py:186-192 | whatever is recognised as a placeholder is written out exactly as it was read |
| Placeholders.ParseBodyFormat | tests/test_coverage_extras.py:186-192 | the text between the braces of a written placeholder reads back as its name and fallback |
| Placeholders.FormatParseBody | tests/test_coverage_extras.py:186-192 | a name and fallback the reader accepts are valid and written out exactly as read |
| Placeholders.Resolve | tests/test_coverage_extras.py:186-192 | resolution keeps the shape of mappings, lists and nested lists |
| Placeholders.FirstMissing | tests/test_coverage_extras.py:59-64 | a first unset name exists exactly when a `MissingEnvVar` sentinel is in the tree |
| Placeholders.MissingTextIsRequiredPlaceholder | tests/test_coverage_extras.py:321-324 | `str(MissingEnvVar(name))` is the required placeholder `${name}`: it resolves to the variable's value when `name` is set and to the same sentinel while it is unset |
| Placeholders.ResolveKeepsPlainText | tests/test_coverage_extras.py:186-192 | a string that is not exactly one placeholder, such as one not starting with `${` or not ending with `}`, or one with a `}` before its end, resolves to itself for every environment |
| Placeholders.ResolveLeavesMissing | tests/test_coverage_extras.py:59-64 | after resolution a sentinel is in the tree exactly when one already was or some required variable is unset |
| Placeholders.InterpolateFails | tests/test_coverage_extras.py:59-64 | an interpolating load fails exactly when a required variable is unset or a sentinel is present; on success no sentinel remains; the error is an interpolation error |
| Placeholders.InterpolationDisabledKeepsText | tests/test_coverage_extras.py:115-117 | with interpolation disabled the tree is returned unchanged, placeholder text included |
| Placeholders.ColonDashDefault | tests/test_coverage_extras.py:186-192 | `${X:-D}` gives the variable's value when set and `D` otherwise |
| Placeholders.ColonDefault | tests/test_coverage_extras.py:217-223 | `${X:D}` gives the variable's value when set and `D` otherwise, `D` may contain `:` |
| Placeholders.MappingDefaultExample | tests/test_coverage_extras.py:187-190 | `{"x": "${X:-1}"}` resolves to `{"x": "1"}` with `X` unset |
| Placeholders.ListDefaultExample | tests/test_coverage_extras.py:191-192 | `["${Y:-ok}"]` resolves to `["ok"]` |
| Placeholders.ListOfMappingsExample | tests/test_coverage_extras.py:218-220 | the default inside a mapping inside a list is applied |
| Placeholders.NestedListExample | tests/test_coverage_extras.py:222-223 | the default inside nested lists is applied |
| Placeholders.RequiredUnsetFails | tests/test_coverage_extras.py:321-324 | `MissingEnvVar("X")` renders as `${X}`; an unset `${MUST_SET}` fails the interpolating load naming `MUST_SET` |
| Coerce.CoerceBool | tests/test_coverage_extras.py:309-314 | true exactly for the truthy tokens and false exactly for the falsy tokens, ignoring case; any other text is a `ValueError` |
| Coerce.Apply | tests/test_coverage_extras.py:145-147 | a successful `bool` coercion gives a boolean and a successful `int` coercion an integer; booleans and integers always convert; null, lists, mappings and sentinels never do; every failure is a `ValueError`; on a text, `bool` accepts exactly the tokens and `int` exactly what `int()` reads (the helpers `Coerce.ApplyBoolOnText` and `Coerce.ApplyIntOnText`) |
| Coerce.EnvValue | tests/test_coverage_extras.py:284-289 | an environment value is an integer exactly when it is an optional sign followed by digits, and then it is the integer `int()` reads; otherwise it is a boolean exactly when it is one of the tokens, ignoring case, and then it says whether the token is truthy; otherwise it is the text itself |
| Coerce.CoerceBoolIgnoresCase | tests/test_coverage_extras.py:309-314 | upper-casing a token does not change what it coerces to |
| Coerce.CoerceBoolReadsPythonBool | tests/test_coverage_extras.py:146 | `"True"` and `"False"` read back as the booleans |
| Coerce.EnvValueReadsInt | tests/test_coverage_extras.py:253-256 | a variable holding `str(n)` loads as the integer `n` |
| Coerce.ApplyIntReadsInt | tests/test_coverage_extras.py:308 | `coerce=int` reads `str(n)` back as `n` |
| Coerce.CoerceBoolExamples | tests/test_coverage_extras.py:311-314 | `"on"` is true, `"off"` is false, `"maybe"` raises `ValueError`, `"true"` coerces to true |
| Coerce.EnvValueExamples | tests/test_coverage_extras.py:253-289 | `"10"` is the integer 10, `"abc"` stays a string, `"on"` is true |
| Coerce.IntCoercionFailsOnText | tests/test_coverage_extras.py:308 | `int` coercion of `"abc"` fails |
| Node.Sanitize | tests/test_coverage_extras.py:45-56 | every character that cannot appear in an identifier becomes `_`, and the others are kept |
| Node.Alias | tests/test_coverage_extras.py:45-56 | the identifier-safe alias of a key; stated by `Node.AliasIsIdentifier`, `Node.AliasFixpoint` and `Node.AliasIdempotent` |
| Node.FindKey | tests/test_coverage_extras.py:162-166 | the key a name reaches: the name itself, else the first key with that alias; stated by `Node.FindKeySound` |
| Node.GetAttr | tests/test_coverage_extras.py:162-163 | `getattr(node, name)`: the value of the key the name reaches, else `AttributeError`; stated by `Node.FindKeySound` and `Node.OriginalKeyReachable` |
| Node.GetItem | tests/test_coverage_extras.py:164-165 | `node[name]`: the value of the key the name reaches, else `KeyError`; stated by `Node.FindKeySound` and `Node.OriginalKeyReachable` |
| Node.StepKey | tests/test_coverage_extras.py:193-194 | one segment of a dotted lookup: the segment itself as a key, else its alias as a key; stated by `Node.DescendFollowsPath` and `Node.DottedGetAliasExample` |
| Node.DottedGet | tests/test_coverage_extras.py:325-327 | `_dotted_get`: follows the segments of a dotted path, raising `KeyError` where one is missing; stated by `Node.DescendFollowsPath` and `Node.DottedRoundTrip` |
| Node.Get | tests/test_coverage_extras.py:145-147 | `ConfigView.get(path, default, coerce)`: the empty path raises `ValueError`, a missing path or failed conversion gives the default; stated by `Node.GetNeverRaises` |
| Node.FirstAliased | tests/test_coverage_extras.py:334-336 | the key found for a name is a key of the node with that alias, and none is found only when no key has it |
| Node.AliasIsIdentifier | tests/test_coverage_extras.py:154-158 | the alias of a non-empty key is an identifier and not a keyword |
| Node.AliasFixpoint | tests/test_coverage_extras.py:45-56 | a key is its own alias exactly when it is already a non-keyword identifier |
| Node.AliasIdempotent | tests/test_coverage_extras.py:45-56 | aliasing twice is aliasing once |
| Node.AliasOfPlain | tests/test_coverage_extras.py:45-56 | a key whose sanitised form starts with a letter and is no keyword is aliased to that form |
| Node.UnderscoreEndIsNoKeyword | tests/test_coverage_extras.py:55-56 | a name ending with `_` is never a keyword, so the `class_` alias is safe |
| Node.FindKeySound | tests/test_coverage_extras.py:162-166 | attribute and subscript access resolve a name to a key that is the name or has it as alias, and fail exactly when there is none |
| Node.OriginalKeyReachable | tests/test_coverage_extras.py:52-56 | the original key always reaches its value by subscript and by `getattr` |
| Node.AliasReachable | tests/test_coverage_extras.py:45-56 | the alias reaches its key's value by attribute and subscript, unless it is itself a key or an earlier key shares it |
| Node.GetNeverRaises | tests/test_coverage_extras.py:145-147 | `get` raises only for the empty path; a missing path or a failed conversion gives the default |
| Node.DescendFollowsPath | tests/test_coverage_extras.py:337 | a value present at literal segments is what `_dotted_get` returns there |
| Node.DottedRoundTrip | tests/test_coverage_extras.py:180-182 | what `apply_overrides` writes at a dotted key into `{}` is what `_dotted_get` reads back at that key |
| Node.AliasExamples | tests/test_coverage_extras.py:45-56 | `with-dash`, `inner-key`, `has space`, `1alpha`, `class` alias to `with_dash`, `inner_key`, `has_space`, `_1alpha`, `class_` |
| Node.NodeAccessExamples | tests/test_coverage_extras.py:45-56 | `node.with_dash.inner_key` and `node["with-dash"]["inner-key"]` are 1; `class` and `class_` both reach the keyword key |
| Node.MissingAccessExamples | tests/test_coverage_extras.py:162-166 | a missing attribute raises `AttributeError` and a missing item `KeyError` |
| Node.GetDefaultExample | tests/test_coverage_extras.py:167-168 | `get("missing", default=7)` is 7 |
| Node.LeadingDigitAndSpaceExamples | tests/test_coverage_extras.py:154-158 | `node._1alpha` is 10 and `node.has_space` is 20 |
| Node.DottedGetPresentExample | tests/test_coverage_extras.py:337 | `_dotted_get({"key": 1}, "key")` is 1 |
| Node.DottedGetAliasExample | tests/test_coverage_extras.py:193-194 | `_dotted_get({"inner_key": 1}, "inner-key")` is 1 |
| Node.DottedGetMissingExample | tests/test_coverage_extras.py:325-327 | `_dotted_get({}, "nope")` raises `KeyError` |
| Node.NestedDottedGet | tests/test_coverage_extras.py:139-147 | `nested.on` is found and `nested.off` raises `KeyError` |
| Node.ViewGetBoolExample | tests/test_coverage_extras.py:146 | `get("nested.on", coerce=bool)` is true |
| Node.ViewGetDefaultExample | tests/test_coverage_extras.py:147 | `get("nested.off", default=False, coerce=bool)` is false |
| Node.EmptyPathExample | tests/test_coverage_extras.py:301-302 | `get("")` raises `ValueError` |
| Node.FailedCoercionExample | tests/test_coverage_extras.py:308 | `get("v", default=0, coerce=int)` on `"abc"` is 0 |
| Node.ListOfMappingsExample | tests/test_coverage_extras.py:317-319 | `node.l[0].a` is 1 and `node.l[1].a` is 2 |
| Node.ViewKeyExamples | tests/test_coverage_extras.py:297-307 | `view["a"]` is 1 and `view.missing` raises `AttributeError` |
| Sources.LastIndex | tests/test_coverage_extras.py:272-274 | the result is the last position of the character, or -1 exactly when it does not occur |
| Sources.ReadFile | tests/test_coverage_extras.py:272-274 | `_read_file` succeeds exactly for a supported suffix and returns the parsed document; otherwise it raises `UnsupportedFormatError` |
| Sources.RelKeys | tests/test_coverage_extras.py:275-276 | key paths exist exactly for paths under the root, one key per component below it |
| Sources.Discovered | tests/test_coverage_extras.py:243-250 | the listing keeps a supported file below the root (directly unless recursive) or at the root itself; stated by `Sources.ListingExample`, `Sources.TopLevelFile` and `Sources.RootFilePlaced` |
| Sources.PlaceFiles | tests/test_coverage_extras.py:243-250 | every kept file, in listing order, placed at its key path, stopping at the first error; stated by `Sources.SkipUndiscovered`, `Sources.SingleFileNested` and `Sources.PlaceFilesErrors` |
| Sources.DirectoryLoad | tests/test_coverage_extras.py:276-280 | `DirectorySource.load`: a missing root gives `{}` or `FileNotFoundError` by `optional`, else the placed files; stated by `Sources.MissingDirectoryExamples` and `Sources.DirectoryExample` |
| Sources.FileLoad | tests/test_coverage_extras.py:230-241 | a missing file gives `{}` when optional and `FileNotFoundError` otherwise; a supported file gives its mapping, or `{"value": doc}` for a non-mapping |
| Sources.LoadDirectory | tests/test_coverage_extras.py:243-250 | the source's loop over the listing gives the same result as assigning every discovered file at its key path |
| Sources.EnvPath | tests/test_coverage_extras.py:252-256 | the key segments of a matching variable, joined with the lower-cased separator, are the lower-cased rest of its name after the prefix and separator; every segment is lower case and there is at least one |
| Sources.EnvMatches | tests/test_coverage_extras.py:252-256 | a variable belongs to the source when its name starts with the prefix and separator, ignoring case; stated by `Sources.EnvMatchIgnoresCase` |
| Sources.EnvFold | tests/test_coverage_extras.py:252-257 | every matching variable, in order, typed and assigned at its key path; stated by `Sources.SingleVariable`, `Sources.SkipUnmatched` and `Sources.EnvFoldIgnoresCase` |
| Sources.EnvLoad | tests/test_coverage_extras.py:252-289 | `EnvSource.load`; stated by `Sources.EnvCountExample`, `Sources.EnvStringExample` and `Sources.EnvBoolExample` |
| Sources.LoadEnv | tests/test_coverage_extras.py:252-257 | the source's loop over the environment gives the same result as assigning every matching variable's typed value at its key path |
| Sources.LoadSource | tests/test_coverage_extras.py:197-216 | every built-in source that loads gives a mapping; only a custom source can give something else |
| Sources.StemSuffix | tests/test_coverage_extras.py:243-250 | stem and suffix together are the whole name, and the suffix is empty or a dot followed by no dot |
| Sources.NameParts | tests/test_coverage_extras.py:243-250 | `stem.ext` has stem `stem` and suffix `.ext` |
| Sources.RootHasNoKeys | tests/test_coverage_extras.py:275-276 | `_rel_keys(root, root)` is empty |
| Sources.FileKeys | tests/test_coverage_extras.py:243-250 | a file `dirs/stem.ext` below the root is keyed by its directories and its stem |
| Sources.TopLevelFile | tests/test_coverage_extras.py:243-250 | a supported file directly inside the root is discovered and keyed by its stem alone |
| Sources.SkipUndiscovered | tests/test_coverage_extras.py:247-250 | a file the listing does not keep, such as `note.txt`, changes nothing wherever it appears |
| Sources.SingleFileNested | tests/test_coverage_extras.py:243-250 | one discovered file holding a non-mapping lands nested at its key path; when the file is the root itself it is refused with `UnsupportedFormatError` |
| Sources.RootFilePlaced | tests/test_coverage_extras.py:259-265 | a kept file that is the root itself merges its mapping into the result, and anything else is refused with the caller's error, leaving the result unchanged |
| Sources.PlaceFilesErrors | tests/test_coverage_extras.py:95-101 | placing a listing fails only with a conflict, or with the caller's error when some kept file is the root itself and holds no mapping |
| Sources.EnvMatchIgnoresCase | tests/test_coverage_extras.py:252-256 | whether a variable matches does not depend on the case of the prefix |
| Sources.EnvFoldIgnoresCase | tests/test_coverage_extras.py:252-256 | prefixes differing only in case load the same tree |
| Sources.EnvPathOfName | tests/test_coverage_extras.py:252-256 | a name `PREFIX<sep>seg1<sep>...<sep>segn` matches and is keyed by the lower-cased segments, for any segments the separator cannot cut inside |
| Sources.EnvUnderscoreSegment | tests/test_coverage_extras.py:252-256 | `APP__DB_HOST__PORT` is keyed `["db_host", "port"]`: a single `_` does not split a segment |
| Sources.SingleVariable | tests/test_coverage_extras.py:252-256 | one matching variable gives the tree holding its typed value alone at its key path |
| Sources.SkipUnmatched | tests/test_coverage_extras.py:252-256 | a variable outside the prefix contributes nothing wherever it appears |
| Sources.FileSourceExamples | tests/test_coverage_extras.py:230-241 | the mapping file, the list file wrapped in `value`, and the missing optional file, as the tests show; a missing required file raises `FileNotFoundError` |
| Sources.IniIsUnsupported | tests/test_coverage_extras.py:272-274 | `_read_file("x.ini")` raises `UnsupportedFormatError` |
| Sources.ListingExample | tests/test_coverage_extras.py:243-250 | `sub/a.yml` is keyed `["sub", "a"]` and `sub/note.txt` is not kept |
| Sources.DirectoryExample | tests/test_coverage_extras.py:243-250 | the directory with `sub/a.yml` and `sub/note.txt` loads as `{"sub": {"a": {"x": 1}}}`; the listing is reduced to the files the assertions read, leaving out `cfg.yml` and `list.json` |
| Sources.MissingDirectoryExamples | tests/test_coverage_extras.py:277-280 | a missing directory gives `{}` when optional and raises `FileNotFoundError` otherwise |
| Sources.EnvCountExample | tests/test_coverage_extras.py:253-256 | `APP__FOO__COUNT=10` loads as `{"foo": {"count": 10}}` |
| Sources.EnvStringExample | tests/test_coverage_extras.py:284-287 | `APP__RAW__VALUE=abc` loads as the string `"abc"` |
| Sources.EnvBoolExample | tests/test_coverage_extras.py:288-289 | `APP__BOOL__FLAG=on` loads as true |
| Loader.LoadFile | tests/test_coverage_extras.py:103-105 | `_load_file` succeeds exactly for a supported suffix; otherwise it raises `ValueError` |
| Loader.LoadLayers | tests/test_coverage_extras.py:59-92 | the layers in order, each file injected at its key path relative to its own layer root; stated by `Loader.LoadLayersAppend`, `Loader.LaterLayerWins` and `Loader.LoadLayersErrors` |
| Loader.LoaderLoad | tests/test_coverage_extras.py:67-92 | `LayeredConfigLoader.load`: no layers or no supported file raise `ConfigNotFoundError`, then interpolation; stated by `Loader.NotFoundIff` |
| Loader.Load | tests/test_coverage_extras.py:59-92 | the loader's loops over layers and files give the same result as the layered load function |
| Loader.AnyDiscoveredIff | tests/test_coverage_extras.py:67-73 | a layer counts as holding files exactly when some file of its listing is kept |
| Loader.FoundIff | tests/test_coverage_extras.py:83-92 | something is found exactly when some file of some layer is kept |
| Loader.NothingPlaced | tests/test_coverage_extras.py:67-73 | a listing without a kept file leaves the result unchanged |
| Loader.NothingLoaded | tests/test_coverage_extras.py:83-92 | without a supported file no layer changes anything |
| Loader.LoadLayersErrors | tests/test_coverage_extras.py:95-101 | loading the layers fails only with a conflict, or with `ValueError` when some layer root is itself a supported file holding no mapping |
| Loader.RootFileLayerExamples | tests/test_coverage_extras.py:95-101 | a layer whose root is a supported file holding `{"k": 1}` loads as `{"k": 1}`; one holding `123` raises `ValueError` |
| Loader.NotFoundIff | tests/test_coverage_extras.py:67-92 | the load raises `ConfigNotFoundError` exactly when no layer holds a supported file, including when there is no layer |
| Loader.LoadLayersAppend | tests/test_coverage_extras.py:59-64 | layers apply one after another, each on top of the earlier ones |
| Loader.LaterLayerWins | tests/test_coverage_extras.py:59-64 | a non-mapping document in the last layer is what the tree holds at that file's key path |
| Loader.NothingFoundExamples | tests/test_coverage_extras.py:67-92 | no layers, an empty layer, and a layer with only `readme.txt` all raise `ConfigNotFoundError` |
| Loader.IniRejected | tests/test_coverage_extras.py:103-105 | `_load_file("config.ini")` raises `ValueError` |
| Loader.MissingVariableFails | tests/test_coverage_extras.py:59-64 | a layer with `svc.yml` holding `token: ${MUST_SET}` fails to load while `MUST_SET` is unset |
| Manager.RunValidators | tests/test_coverage_extras.py:119-135 | the validators pass exactly when each accepts the tree, and the tree is then returned unchanged; otherwise the one `ValidationError` comes from a rejecting validator |
| Manager.Passes | tests/test_coverage_extras.py:119-135 | a whole-tree validator sees the root, a `(selector, check)` validator the sub-view its selector reaches; stated by `Manager.ValidatorExamples` |
| Manager.MergeSources | tests/test_coverage_extras.py:197-216 | each source's mapping merged on top of the earlier ones, a non-mapping refused with `ValidationError`; stated by `Manager.MergeSourcesAppend` and `Manager.NonMappingSourceRejected` |
| Manager.Assemble | tests/test_coverage_extras.py:108-117 | merge, then interpolate unless disabled; stated by `Manager.AssembledIsMapping` and `Manager.DisabledInterpolationKeepsTree` |
| Manager.ManagerLoad | tests/test_coverage_extras.py:119-135 | `ConfigManager.load`: assembly, then the validators; stated by `Manager.ValidationWrapsFailures` |
| Manager.Load | tests/test_coverage_extras.py:108-135 | the manager's loops over sources and validators give the same result as the pipeline function |
| Manager.AssembledIsMapping | tests/test_coverage_extras.py:197-216 | an assembled configuration is always a mapping |
| Manager.ValidationWrapsFailures | tests/test_coverage_extras.py:130-135 | once the tree is assembled, the load fails exactly when a validator rejects it, and always with `ValidationError` |
| Manager.NonMappingSourceRejected | tests/test_coverage_extras.py:203-216 | a source whose `load` gives a non-mapping fails the load with `ValidationError` |
| Manager.MergeSourcesAppend | tests/test_coverage_extras.py:197-216 | sources merge one after another, each on top of the earlier ones |
| Manager.DisabledInterpolationKeepsTree | tests/test_coverage_extras.py:115-117 | with interpolation disabled the merged tree is returned as merged |
| Manager.BadSourceExample | tests/test_coverage_extras.py:203-216 | a source returning `[1, 2, 3]` raises `ValidationError` |
| Manager.OverlayAlone | tests/test_coverage_extras.py:217-223 | a single overlay with plain, distinct keys is merged unchanged |
| Manager.LoadedAlone | tests/test_coverage_extras.py:197-213 | a single source whose mapping has plain, distinct keys is merged into the empty result unchanged |
| Manager.OverlayListDefaultExample | tests/test_coverage_extras.py:217-220 | `arr[0].url` resolves to `http://a` |
| Manager.OverlayNestedListExample | tests/test_coverage_extras.py:221-223 | `nest[0][0]` resolves to `ok` |
| Manager.ServiceFile | tests/test_coverage_extras.py:109-116 | `service.yml` lies directly in the directory, is discovered and is keyed `service` |
| Manager.ServiceLoads | tests/test_coverage_extras.py:109-116 | the directory with `service.yml` loads as `{"service": {...}}` |
| Manager.InterpolationDisabledExample | tests/test_coverage_extras.py:115-117 | with interpolation disabled `service.url` still starts with `${SERVICE_URL` |
| Manager.ServiceResolves | tests/test_coverage_extras.py:126-128 | with `REQUIRED=ok` and `SERVICE_URL` unset the service resolves to `{"url": "http://default", "flag": "ok"}` |
| Manager.ValidatorExamples | tests/test_coverage_extras.py:119-135 | the `("service", check)` validator with an accepting whole-tree validator lets the load succeed; a rejecting validator raises `ValidationError` |

## Left out

- Parsing YAML, JSON and TOML, and `dump` / `save`: a file is given by its name and the document its parser produced.
- File system discovery (`rglob`/`glob`, `is_file`, sorting): the directory listing is a parameter, in the order the source visits it, and directory existence is a flag.
- `os.environ`: the environment is a parameter.
- Coerce.EnvValue: float coercion of environment values (`"0.5"` to `0.5`) is not modelled, because floating point is outside the model; such a value stays a string.
- Coerce.EnvValue: a value is an integer when `int()` reads it, so a leading `+` or `-` is accepted (`"-5"` is `-5`); the library's description says "fully numeric", which the model reads as `int()`'s syntax rather than digits only.
- `ensure_config_node`, `as_dataclass`, `len`, `repr`, `to_dict`, and the abstract `ConfigSource.load` raising `NotImplementedError`: these are dynamic-typing and presentation concerns with no tree logic.
- Manager.Validator: validators are total predicates on the tree. Arbitrary callables, the exceptions they raise, and the side effects they have (the `events` list of the test) are not modelled. Any failure becomes the single `ValidationError`.
- Manager.Passes: a `(selector, check)` validator whose selector does not resolve counts as a failing validator.
- `reload` and `sources`: a load is a function of its inputs, so reloading gives the same tree.
- The top-level `load(...)` helper is not modelled on its own. Its call in tests/test_coverage_extras.py:119-128 is modelled by `Manager.Load` over one `DirectorySource` for the layer, which gives the same tree as the layered loader for that layer; how the helper itself builds its sources is not part of this model.
- Placeholders.ResolveString: only a string value that is exactly one placeholder is resolved; placeholders embedded in longer text stay as they are.
- Text.ParseInt: Python's `int()` also accepts surrounding whitespace and `_` digit separators; the model reads only an optional sign and decimal digits.
- Node.IsIdentifier: identifiers are ASCII letters, digits and `_`; non-ASCII identifiers are not modelled.
- Node.FindKey: when several keys share an alias, the first in mapping order is reached.
- Sources.Supported: suffixes are compared exactly, case-sensitively.
- Sources.EnvFold: a scalar variable followed by a deeper variable under the same key is a conflict, as in every other merge; an empty separator cannot split names and gives `ValueError`.
- Loader.LoadLayers: the loader's discovery is always recursive.
