# YamlParser, modelled in Dafny

This project models `YamlParser` of the vitalibo/config library. The class turns values that a
YAML loader has already parsed into the typed value nodes of a Typesafe-style configuration tree.
It has three parts:

- **`fromAnyRef`: type dispatch.** Null, config values, booleans, strings, the numeric classes,
  durations, maps, iterables and memory sizes each become one kind of node. Anything else is a
  `BugOrBroken` error. With the default ("hardcoded value") origin, null and the booleans are the
  shared constants; otherwise they are fresh nodes that carry the origin. Maps are read in one of
  two key modes:
  - keys-are-keys: every key must be a `String`;
  - keys-are-paths: every key is a path expression, and the map is flattened into a tree.
- **The private `fromPathMap`: path flattening.** It works imperatively over hash sets and maps:
  1. collect the value paths and their strict ancestors (the scopes);
  2. reject a path that is both a value and a scope, or in properties mode drop that value;
  3. make one map per scope and store each leaf in its parent's map;
  4. sort the scopes longest first and wrap each one, as a resolved object, into its parent.
- **`fromString` / `fromStringPiece`: the `${...}` tokenizer.**
  1. The string is split on every `$` that is not directly preceded by another `$`.
  2. Empty fields disappear.
  3. A field that opens with `{` becomes a reference, whose path is the text up to the first `}`
     split on `.`. Any text after that `}` becomes a trailing literal.
  4. One piece is returned bare; any other number of pieces makes a concatenation.

The modules follow that structure:

| file | module | what it holds |
|---|---|---|
| `values.dfy` | `ConfigValues` | origins, value nodes, errors, the shared constants, `emptyList`, `emptyObject` and `valueOrigin` |
| `natives.dfy` | `Natives` | the loader's values as a closed datatype; map keys have their own type, so a non-string key can occur |
| `splitting.dfy` | `Splitting` | Java's `String.split` with limit 0, for the `.` and `(?<!\$)\$` patterns |
| `interpolator.dfy` | `Interpolator` | the tokenizer as functions, with a template round trip and the test samples |
| `pathtree.dfy` | `PathTree` | the tree a path map denotes (`Flatten`), and the placement lemmas |
| `conversion.dfy` | `Conversion` | `Conv`, the reference conversion, and its properties per input class |
| `yamlparser.dfy` | `YamlParser` | the methods as the loops they are, each proved against `Conv`, `Flatten` or `TreeFields` |

Object identity becomes data:
- A shared constant is `Prov.Shared`; a new node is `Fresh(origin)`.
- An origin is `NullOrigin`, `DefaultOrigin` or `Named(description)`. A named origin is never the
  default one, because Java compares origins by identity.
- Java exceptions become `Err` results.

Hash maps have no defined iteration order. The model handles this in two places:
- The methods pick the next key with `:|`.
- The reference functions give `Outcome = Converts(v) | Fails(errors)`. `Fails` holds the set of
  errors that some iteration order can raise, and `Agrees` requires a method's error to be one of
  them.

The methods do not depend on key order beyond that:
- every method that stores into a parent map proves that the name was not there yet (`FreshName`);
- the tree they build equals `TreeFields`, which is a function of the key sets alone.

In properties mode the model follows the code. Values that are not strings are skipped
(YamlParser.java lines 242-248). So `{a.b: 1, a.b.c: 2}` flattens to `{a: {b: {}}}`:
- `a.b` is a scope, so its value `1` is dropped;
- `2` is not a string, so it is skipped.

`SamplePropertiesSkip` states this.

## Model

Source paths are relative to the repository root.

| member | source | states |
|---|---|---|
| ConfigValues.ProvFor | src/main/java/com/typesafe/config/impl/YamlParser.java:91-105 | the shared constant is used exactly when the origin is the default origin; otherwise a fresh node carries the given origin |
| ConfigValues.EmptyList | src/main/java/com/typesafe/config/impl/YamlParser.java:36-42 | an empty list, shared exactly for the default or the null origin, otherwise fresh with the origin |
| ConfigValues.EmptyObject | src/main/java/com/typesafe/config/impl/YamlParser.java:44-51 | an empty object whose status comes from its values, shared only for the default origin; a null origin gives a fresh object with the "empty config" origin that `SimpleConfigObject.empty` assigns, any other origin a fresh object carrying it |
| ConfigValues.ValueOrigin | src/main/java/com/typesafe/config/impl/YamlParser.java:53-58 | never the null origin; the default origin exactly when there is no description, otherwise a named origin with that description |
| YamlParser.FromAnyRefDescribed | src/main/java/com/typesafe/config/impl/YamlParser.java:60-63 | the result agrees with converting the value in keys-are-keys mode with the origin made from the description |
| YamlParser.FromPathMapDescribed | src/main/java/com/typesafe/config/impl/YamlParser.java:78-83 | the result agrees with the keys-are-paths conversion of the string-keyed map, and a success is an object (the cast at line 81 cannot fail) |
| YamlParser.ProbeNames | src/main/java/com/typesafe/config/impl/YamlParser.java:69 | the names probed are the basename, then basename.yaml, then basename.yml |
| YamlParser.FirstAvailable | src/main/java/com/typesafe/config/impl/YamlParser.java:69-73 | the first probed name that exists: it exists, no earlier name does, and none means no name exists |
| YamlParser.FindResource | src/main/java/com/typesafe/config/impl/YamlParser.java:69-73 | Missing exactly when none of the three names exists; otherwise an existing name, taken in probe order |
| YamlParser.ParseResourcesYamlSyntax | src/main/java/com/typesafe/config/impl/YamlParser.java:65-76 | Missing when no name exists; otherwise the result agrees with the keys-are-paths conversion of the found document under the origin named after the basename, with the document's keys as loaded (a non-string key reaches the conversion's BugOrBroken), and a success is an object |
| YamlParser.FromAnyRef | src/main/java/com/typesafe/config/impl/YamlParser.java:85-166 | the dispatch agrees with the reference conversion `Conv` for every input, origin and key mode |
| YamlParser.FromKeysMap | src/main/java/com/typesafe/config/impl/YamlParser.java:130-143 | the entry loop agrees with `KeysFromOutcomes`: it fails on a non-string key or a failing value, otherwise it builds the object of all converted entries |
| YamlParser.FromItems | src/main/java/com/typesafe/config/impl/YamlParser.java:147-158 | the element loop agrees with the reference conversion of a non-empty iterable |
| YamlParser.FromPathExpressionMap | src/main/java/com/typesafe/config/impl/YamlParser.java:168-181 | parsing the keys and then flattening agrees with `PathsFromOutcomes` of the converted entries |
| YamlParser.ParseKeys | src/main/java/com/typesafe/config/impl/YamlParser.java:170-179 | an error is the error of some key; a success means every key parsed and the result is the path map `PathMapOf` |
| YamlParser.FromPathMap | src/main/java/com/typesafe/config/impl/YamlParser.java:183-294 | the whole imperative flattening agrees with `Flatten` of the leaves of the path map |
| YamlParser.CollectPaths | src/main/java/com/typesafe/config/impl/YamlParser.java:189-201 | the value paths are the keys, and the scope paths are exactly all strict ancestors of the keys |
| YamlParser.FindCollision | src/main/java/com/typesafe/config/impl/YamlParser.java:209-220 | reports a collision exactly when some value path is also a scope path |
| YamlParser.NewScopes | src/main/java/com/typesafe/config/impl/YamlParser.java:225-231 | one empty map per scope path and no other |
| YamlParser.FillLeaves | src/main/java/com/typesafe/config/impl/YamlParser.java:233-255 | an error comes from a failing leaf; on success no leaf failed, the scope keys are unchanged, and every map holds exactly the values placed directly under it |
| YamlParser.FillStep | src/main/java/com/typesafe/config/impl/YamlParser.java:234-255 | one pass of the leaf loop adds this path's leaf to the stored ones, or reports its failure |
| YamlParser.PlaceLeaf | src/main/java/com/typesafe/config/impl/YamlParser.java:235-254 | converts one raw value, then stores it in its parent map when there is a value to store |
| YamlParser.ConvertLeaf | src/main/java/com/typesafe/config/impl/YamlParser.java:240-252 | properties mode gives a quoted string for a string and nothing otherwise; path mode gives the conversion of the raw value |
| YamlParser.StoreLeaf | src/main/java/com/typesafe/config/impl/YamlParser.java:235-254 | the name was not yet in the parent map; exactly that map gains one field; the stored-leaves invariant is kept |
| YamlParser.SortByLength | src/main/java/com/typesafe/config/impl/YamlParser.java:261-272 | the result holds each scope path exactly once and is ordered from longest to shortest |
| YamlParser.InsertKeepsOrder | src/main/java/com/typesafe/config/impl/YamlParser.java:264-271 | inserting a path at its place keeps the sequence distinct and longest-first, and adds exactly that path |
| YamlParser.ChildrenFirst | src/main/java/com/typesafe/config/impl/YamlParser.java:257-289 | in longest-first order every child scope comes before its parent |
| YamlParser.WrapScopes | src/main/java/com/typesafe/config/impl/YamlParser.java:279-289 | after the wrap loop the root map equals the root fields of the tree, `TreeFields` at the empty path |
| YamlParser.WrapScope | src/main/java/com/typesafe/config/impl/YamlParser.java:280-288 | the scope's map is complete when it is wrapped, its name is new in the parent, maps of equal or longer paths are untouched, and the wrap invariant is kept |
| Conversion.ParsePathExpression | src/main/java/com/typesafe/config/impl/YamlParser.java:177 | the stand-in parser: a parsed path has non-empty, dot-free segments and joins back with dots to the key text |
| Conversion.ParsePathAccepts | src/main/java/com/typesafe/config/impl/YamlParser.java:177 | the converse for the stand-in: non-empty, dot-free segments joined with dots parse back to exactly those segments, so only a key with an empty segment is a BadPath |
| Conversion.ParsePathInjective | src/main/java/com/typesafe/config/impl/YamlParser.java:177-178 | for the dot-split stand-in only: distinct key texts never parse to the same path (the library parser does not have this property; see Left out) |
| Conversion.PathOfInjective | src/main/java/com/typesafe/config/impl/YamlParser.java:171-179 | for the dot-split stand-in only: distinct valid keys have distinct paths, so the model's `pathMap.put` never replaces an entry |
| Conversion.PathMapOf | src/main/java/com/typesafe/config/impl/YamlParser.java:170-179 | each key's path is bound to that key's value, and every path comes from some key |
| Conversion.Conv | src/main/java/com/typesafe/config/impl/YamlParser.java:85-166 | the reference conversion; its properties per input class are the lemmas below and `YamlParser.FromAnyRef` agrees with it |
| Conversion.ConvScalar | src/main/java/com/typesafe/config/impl/YamlParser.java:91-125 | the branches for values that are neither maps nor iterables; see `NullAndBooleans`, `NumbersKeepTheirClass`, `StringsTokenized`, `UnknownRejected` |
| Conversion.KeysFromOutcomes | src/main/java/com/typesafe/config/impl/YamlParser.java:130-143 | see `KeysFromOutcomesSpec` and `KeysModeObject` |
| Conversion.PathsFromOutcomes | src/main/java/com/typesafe/config/impl/YamlParser.java:168-181 | see `PathsObjectFlattens`, `PathsModeConverted` and `PathsModePlacement` |
| Conversion.ConvItems | src/main/java/com/typesafe/config/impl/YamlParser.java:147-158 | see `ItemsConverted`, `ItemsFailureStays` and `ListPreserved` |
| Conversion.NullOriginRejected | src/main/java/com/typesafe/config/impl/YamlParser.java:87-89 | a null origin is a BugOrBroken error, whatever the input |
| Conversion.NullAndBooleans | src/main/java/com/typesafe/config/impl/YamlParser.java:91-105 | null gives a null node and a boolean gives a boolean node of the same truth value; both are shared exactly for the default origin and carry the origin |
| Conversion.NumbersKeepTheirClass | src/main/java/com/typesafe/config/impl/YamlParser.java:108-125 | Double, Integer and Long keep their class; Duration gives a long of its milliseconds, a memory size (lines 159-160) a long of its bytes, and any other number a generic number |
| Conversion.EmptyContainers | src/main/java/com/typesafe/config/impl/YamlParser.java:126-150 | an empty map is `emptyObject` and an empty iterable is `emptyList`; both are shared exactly for the default origin |
| Conversion.UnknownRejected | src/main/java/com/typesafe/config/impl/YamlParser.java:161-164 | a value of no handled class is a BugOrBroken error |
| Conversion.StringsTokenized | src/main/java/com/typesafe/config/impl/YamlParser.java:106-107 | a string goes through `fromString` with the same origin |
| Conversion.KeysModeObject | src/main/java/com/typesafe/config/impl/YamlParser.java:130-143 | it fails exactly when some key is not a string or some value fails, and each error comes from such an entry; otherwise it is a fresh object with exactly the input's keys, each bound to its value converted with the same origin and mode |
| Conversion.KeysFromOutcomesSpec | src/main/java/com/typesafe/config/impl/YamlParser.java:131-143 | the same, for any map of converted entries |
| Conversion.ItemsConverted | src/main/java/com/typesafe/config/impl/YamlParser.java:152-156 | the first n elements convert exactly when each does, in order and one for one; a failure is that of the first failing element |
| Conversion.ItemsFailureStays | src/main/java/com/typesafe/config/impl/YamlParser.java:153-156 | once an element fails, converting more elements keeps that failure |
| Conversion.ListPreserved | src/main/java/com/typesafe/config/impl/YamlParser.java:147-158 | a non-empty iterable gives a fresh list of the same length and order, element by element converted; otherwise the first failure |
| Conversion.PathsModeGivesObject | src/main/java/com/typesafe/config/impl/YamlParser.java:78-83 | a successful keys-are-paths conversion is an object |
| Conversion.PathsObjectFlattens | src/main/java/com/typesafe/config/impl/YamlParser.java:168-181 | with all keys valid, the path-expression overload is `Flatten` of the leaves of `PathMapOf` |
| Conversion.PathsModeConverted | src/main/java/com/typesafe/config/impl/YamlParser.java:168-181 | a successful keys-are-paths conversion had only valid keys and is that flattening |
| Conversion.PathsModePlacement | src/main/java/com/typesafe/config/impl/YamlParser.java:225-294 | after a successful keys-are-paths conversion, following any key's path from the root reaches that key's converted value, and every strict ancestor is a fresh resolved object |
| Conversion.SamplePropertiesSkip | src/main/java/com/typesafe/config/impl/YamlParser.java:242-248 | properties mode on `{a.b: 1, a.b.c: 2}` gives `{a: {b: {}}}` |
| PathTree.Flatten | src/main/java/com/typesafe/config/impl/YamlParser.java:183-294 | the tree a path map denotes; see `CollisionIff`, `SurvivorsAreLeaves`, `FlattenGivesObject`, `FlattenPlacement` and `LookupFound`, and `YamlParser.FromPathMap` agrees with it |
| PathTree.TreeFields | src/main/java/com/typesafe/config/impl/YamlParser.java:225-289 | the fields of one scope's map once everything under it is wrapped; see `Placement`, `FieldsAtComplete` and `YamlParser.WrapScopes` |
| PathTree.Last | src/main/java/com/typesafe/config/impl/YamlParser.java:239 | `path.last()`, the name under which a leaf (line 253) or a scope (line 288) is stored in its parent |
| PathTree.Parent | src/main/java/com/typesafe/config/impl/YamlParser.java:196-199 | no parent exactly for a one-segment path, otherwise the path without its last segment |
| PathTree.FlattenGivesObject | src/main/java/com/typesafe/config/impl/YamlParser.java:292-293 | a successful flattening is a fresh object whose status is computed from its values |
| PathTree.AncestorsInScopes | src/main/java/com/typesafe/config/impl/YamlParser.java:195-200 | every strict ancestor of a key path is a scope |
| PathTree.ScopeIsAncestor | src/main/java/com/typesafe/config/impl/YamlParser.java:195-200 | every scope is a strict ancestor of some key path |
| PathTree.SurvivorsAreLeaves | src/main/java/com/typesafe/config/impl/YamlParser.java:203-220 | the stored value paths are keys and are never scopes; outside properties mode they are all the keys |
| PathTree.PropertiesDrop | src/main/java/com/typesafe/config/impl/YamlParser.java:203-208 | in properties mode a key is dropped exactly when it is a strict prefix of some key |
| PathTree.CollisionIff | src/main/java/com/typesafe/config/impl/YamlParser.java:209-219 | a collision means exactly that some key path is a strict ancestor of another key path |
| PathTree.Placement | src/main/java/com/typesafe/config/impl/YamlParser.java:225-289 | following a placed path from the root reaches its value, and each strict prefix reaches the resolved object of that scope |
| PathTree.FlattenPlacement | src/main/java/com/typesafe/config/impl/YamlParser.java:225-294 | after a successful flattening each surviving key did not fail; a stored value is reached along its path, and every strict ancestor is a resolved object |
| PathTree.LookupFound | src/main/java/com/typesafe/config/impl/YamlParser.java:225-289 | nothing else is in the tree: whatever a path reaches is a placed value, the object of a scope, or lies inside a placed value further up |
| PathTree.LeavesStoredPut | src/main/java/com/typesafe/config/impl/YamlParser.java:253-254 | the leaf's name is new in its parent map, and storing it keeps every map equal to the leaves directly under it |
| PathTree.FieldsStoredPut | src/main/java/com/typesafe/config/impl/YamlParser.java:286-288 | the scope's name is new in its parent map, and wrapping it keeps every map equal to its leaves plus the wrapped child scopes |
| PathTree.FieldsAtComplete | src/main/java/com/typesafe/config/impl/YamlParser.java:279-288 | once all child scopes are wrapped, a scope's map is exactly its fields in the tree |
| PathTree.SampleCollision | src/main/java/com/typesafe/config/impl/YamlParser.java:211-218 | outside properties mode, keys `a` and `a.b` are a BugOrBroken collision |
| PathTree.SampleSiblings | src/main/java/com/typesafe/config/impl/YamlParser.java:225-293 | keys `a.b` and `a.c` give the root object `{a: {b, c}}`, whose inner object is resolved |
| PathTree.EmptyChain | src/main/java/com/typesafe/config/impl/YamlParser.java:225-289 | for the one case of the scopes `a` and `a.b` with no leaves: the tree is `{a: {b: {}}}`, both objects fresh and resolved |
| Splitting.JavaSplit | src/main/java/com/typesafe/config/impl/YamlParser.java:302 | `split` with limit 0: a prefix of all the fields, what it leaves off is empty, a string with no match is its own single field, and otherwise the last field kept is not empty (the trailing empty fields are dropped); see `DropTrailingEmpty`, `FieldsJoin`, `SplitUnique`, `NoSplitOneField` |
| Splitting.DropTrailingEmpty | src/main/java/com/typesafe/config/impl/YamlParser.java:302 | `split` drops exactly the trailing empty fields, and the last field kept is not empty |
| Splitting.FieldsJoin | src/main/java/com/typesafe/config/impl/YamlParser.java:302 | the fields of a split, joined with the delimiter, give back the string |
| Splitting.SplitUnique | src/main/java/com/typesafe/config/impl/YamlParser.java:302 | parts without the delimiter (and non-empty inner parts for `$`) are exactly the fields of their join |
| Splitting.DollarFieldsKeepEscapes | src/main/java/com/typesafe/config/impl/YamlParser.java:302 | inside a field every `$` after the first character follows another `$`, and the first field never starts with `$` (a later field can: `$$x` splits into `""` and `$x`) |
| Splitting.NoSplitOneField | src/main/java/com/typesafe/config/impl/YamlParser.java:302 | a string where the pattern never matches splits into itself |
| Splitting.DotFieldsHaveNoDot | src/main/java/com/typesafe/config/impl/YamlParser.java:330 | no field of a dot split contains a dot |
| Splitting.DotSplitJoin | src/main/java/com/typesafe/config/impl/YamlParser.java:330 | a dot split of a string that does not end in a dot loses nothing and joins back to the string |
| Interpolator.IndexOf | src/main/java/com/typesafe/config/impl/YamlParser.java:322-323 | none exactly when the character is absent; otherwise its first position |
| Interpolator.FromStringPiece | src/main/java/com/typesafe/config/impl/YamlParser.java:313-339 | a Parse error exactly for a field that opens `{` and never closes it; no piece exactly for the empty field; one literal for a field that does not open `{`; at most two pieces, which `RefPiece` gives exactly |
| Interpolator.RefPiece | src/main/java/com/typesafe/config/impl/YamlParser.java:321-338 | a field that opens `{` and first closes it at `i` is the reference whose path is the text in between split on `.` (so `{a.}` is the path `a`), followed by the rest of the field as one literal when there is any |
| Interpolator.PiecesOf | src/main/java/com/typesafe/config/impl/YamlParser.java:301-304 | the pieces fail exactly when some field opens `{` without a `}`, and then with a Parse error |
| Interpolator.PiecesOfAppend | src/main/java/com/typesafe/config/impl/YamlParser.java:301-304 | the pieces of two field lists one after the other are the pieces of the first list followed by those of the second |
| Interpolator.FromString | src/main/java/com/typesafe/config/impl/YamlParser.java:296-311 | see `NoDollarIsLiteral`, `FromStringFails`, `FromStringShape`, `TemplateRoundTrip` and the samples |
| Interpolator.NoDollarIsLiteral | src/main/java/com/typesafe/config/impl/YamlParser.java:297-299 | a string without `$` is one quoted string equal to the input |
| Interpolator.FromStringFails | src/main/java/com/typesafe/config/impl/YamlParser.java:296-326 | `fromString` fails exactly when the string has a `$` and a field of its split opens `{` without a `}`, and then with a Parse error |
| Interpolator.PiecesAreSimple | src/main/java/com/typesafe/config/impl/YamlParser.java:313-338 | every piece is a quoted string or a reference with the given origin |
| Interpolator.FromStringShape | src/main/java/com/typesafe/config/impl/YamlParser.java:306-310 | the result is one bare piece, or a concatenation of simple pieces whose number is not one |
| Interpolator.PlainPathSplit | src/main/java/com/typesafe/config/impl/YamlParser.java:330 | a path of non-empty segments without `.`, `}` or `$`, joined with dots, splits back into itself |
| Interpolator.BodyPieces | src/main/java/com/typesafe/config/impl/YamlParser.java:322-338 | the field `{a.b}tail` is the reference `a.b`, followed by the literal `tail` when the tail is not empty |
| Interpolator.BodiesPieces | src/main/java/com/typesafe/config/impl/YamlParser.java:301-304 | a sequence of such fields gives their pieces in order |
| Interpolator.TemplateRoundTrip | src/main/java/com/typesafe/config/impl/YamlParser.java:296-339 | rendering any well-formed template `lead${p1}t1${p2}t2...` and tokenizing it gives back exactly its pieces |
| Interpolator.EscapedDollar | src/main/java/com/typesafe/config/impl/YamlParser.java:296-319 | `$$rest` (rest without `$`) is the literal `$rest`: the first `$` is the separator, the second stays |
| Interpolator.LoneDollar | src/main/java/com/typesafe/config/impl/YamlParser.java:296-319 | in `a$b` the lone `$` is consumed: the literal `a`, then the literal `b` |
| Interpolator.LeadingBrace | src/main/java/com/typesafe/config/impl/YamlParser.java:313-334 | `{a.b}$` is the bare reference `a.b`, because the trailing empty field is dropped |
| Interpolator.SampleLiteral | src/test/java/com/typesafe/config/impl/YamlParserTest.java:169 | `foo` is the quoted string `foo` |
| Interpolator.SampleReference | src/test/java/com/typesafe/config/impl/YamlParserTest.java:170 | `${foo}` is the reference `foo` |
| Interpolator.SampleEscape | src/test/java/com/typesafe/config/impl/YamlParserTest.java:171 | `$${foo}` is the quoted string `${foo}` |
| Interpolator.SampleDottedReference | src/test/java/com/typesafe/config/impl/YamlParserTest.java:172 | `${foo.bar}` is the reference `foo.bar` |
| Interpolator.SampleReferenceThenLiteral | src/test/java/com/typesafe/config/impl/YamlParserTest.java:173 | `${foo}aaa` is the concatenation of the reference `foo` and the string `aaa` |
| Interpolator.SampleSixFragments | src/test/java/com/typesafe/config/impl/YamlParserTest.java:174-176 | `a${foo}aa${bar}aaa${baz}` is the concatenation of its six fragments, in order |
| Interpolator.SampleLiteralThenReference | src/test/java/com/typesafe/config/impl/YamlParserTest.java:177 | `aaa${foo.bar}` is the concatenation of the string `aaa` and the reference `foo.bar` |

## Left out

- `Path.newPath` (line 177) is a library parser whose quoting rules are not part of this model. `Conversion.ParsePathExpression` stands in for it: a dot split that rejects empty segments.
- Conversion.ParsePathInjective: holds of the stand-in only. With the library parser, distinct keys such as `a.b` and `"a".b` name one path; `pathMap.put` at line 178 then replaces one entry with the other, and which value survives depends on the hash map's iteration order. The model never loses an entry this way.
- Conversion.PathOfInjective: holds of the stand-in only, for the same reason; the entry lost to a repeated path is not modelled.
- `SimpleConfigObject` is not part of this model. `ConfigValues.EmptyObject` gives a null origin the origin "empty config" that the comment at lines 45-46 describes; the branch is unreachable from `fromAnyRef`, which rejects a null origin first (lines 87-89).
- `yaml.load`, the class loader and the `InputStream` (lines 67-75) are I/O and foreign code. The loaded documents and the set of existing resource names are parameters of `ParseResourcesYamlSyntax`.
- A loaded document that is not a map (the unchecked cast at line 75) is not modelled: the documents are given as maps.
- `ConfigNumber.newNumber(..., doubleValue(), ...)` (lines 121-122) goes through floating point. Its result is an opaque generic number node that carries the `double` bit pattern.
- `Duration.toMillis` and `ConfigMemorySize.toBytes` are taken as given 64-bit integers. Their overflow behaviour is not modelled.
- `ResolveStatus.fromValues` (line 292) is recorded only as the status `FromValues`. The status is not computed from the values.
- `SortByLength`: the in-place `Collections.sort` of an `ArrayList` (lines 261-272) is modelled as insertion into a sequence. Only the order it guarantees (longest first) is kept; stability among equal lengths is not.
- The checks inside the `ConfigConcatenation` and `Path` constructors are not part of this model:
  - A string whose split leaves no field at all, such as `$`, gives zero pieces, which the model wraps in an empty concatenation.
  - An empty `${}` gives a reference whose path is `[""]`.
- The internals of `SimpleConfigObject`, `ConfigString.Quoted`, `ConfigReference` and `ConfigConcatenation` are not modelled; each is a plain datatype constructor here.
- Resolving, the getters and the resource-based tests (YamlParserTest.java lines 24-164, ConfigFactoryTest.java) depend on `test.yaml` and on the resolver, neither of which is part of this model.
- Exception messages are not modelled. An error is one of `BugOrBroken` (with its cause), `Parse`, `BadPath` or `Missing`.
