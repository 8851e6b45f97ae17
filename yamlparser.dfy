/**
 * The conversion methods of YamlParser.java, written as the loops they are
 * and proved against the reference conversion `Conv` and the path
 * flattening `Flatten`. Java exceptions become `Err` results; a hash map's
 * unspecified iteration order becomes a free choice of the next key, so the
 * error a method reports is one of the errors the reference allows.
 */
module YamlParser {
  import opened ConfigValues
  import opened Interpolator
  import opened Natives
  import opened PathTree
  import opened Conversion

  /** `fromAnyRef(object, originDescription)`: plain keys, origin from the description. */
  method FromAnyRefDescribed(x: Native, description: Option<string>) returns (r: Result<Value>)
    ensures Agrees(r, Conv(x, ValueOrigin(description), KeysAreKeys))
  {
    var origin := ValueOrigin(description);
    r := FromAnyRef(x, origin, KeysAreKeys);
  }

  /**
   * `fromPathMap(pathMap, originDescription)`: keys read as path
   * expressions; the result, when there is one, is always an object, so the
   * cast to ConfigObject cannot fail.
   */
  method FromPathMapDescribed(pathMap: map<string, Native>, description: Option<string>) returns (r: Result<Value>)
    ensures Agrees(r, Conv(NMap(StringKeyed(pathMap)), ValueOrigin(description), KeysArePaths))
    ensures r.Ok? ==> r.value.VObject?
  {
    var origin := ValueOrigin(description);
    r := FromAnyRef(NMap(StringKeyed(pathMap)), origin, KeysArePaths);
    if r.Ok? {
      PathsModeGivesObject(origin, StringKeyed(pathMap));
    }
  }

  /** The resource names `parseResourcesYamlSyntax` tries, in order. */
  function ProbeNames(basename: string): (names: seq<string>)
    ensures |names| == 3 && names[0] == basename
    ensures names[1] == basename + ".yaml" && names[2] == basename + ".yml"
  {
    [basename, basename + ".yaml", basename + ".yml"]
  }

  /** The first of `names[from..]` that is available, as a position in `names`. */
  function FirstAvailable(names: seq<string>, available: set<string>, from: nat): (r: Option<nat>)
    requires from <= |names|
    ensures r.None? <==> forall i :: from <= i < |names| ==> names[i] !in available
    ensures r.Some? ==> from <= r.value < |names| && names[r.value] in available
    ensures r.Some? ==> forall j :: from <= j < r.value ==> names[j] !in available
    decreases |names| - from
  {
    if from == |names| then None
    else if names[from] in available then Some(from)
    else FirstAvailable(names, available, from + 1)
  }

  /**
   * The resource lookup of `parseResourcesYamlSyntax`: the first of the
   * basename, `.yaml` and `.yml` names that exists, or Missing when none does.
   * The class loader is reduced to the set of names it can open.
   */
  function FindResource(basename: string, available: set<string>): (r: Result<string>)
    ensures r.Err? <==> basename !in available && basename + ".yaml" !in available && basename + ".yml" !in available
    ensures r.Err? ==> r.error == Missing
    ensures r.Ok? ==> r.value in available
    ensures r.Ok? && r.value != basename ==> basename !in available
    ensures r.Ok? ==> r.value == basename || r.value == basename + ".yaml" || r.value == basename + ".yml"
    ensures r.Ok? && r.value == basename + ".yml" ==> basename + ".yaml" !in available
  {
    var names := ProbeNames(basename);
    match FirstAvailable(names, available, 0)
    case None => Err(Missing)
    case Some(i) => Ok(names[i])
  }

  /**
   * `parseResourcesYamlSyntax`: the document of the first resource found is
   * read as a path map whose origin is described by the basename. The YAML
   * loader is reduced to `documents`, the top-level map of each resource;
   * its keys are whatever the loader produced (a key such as `1` or `true`
   * is not a string), because the cast to a string-keyed map is unchecked.
   */
  method ParseResourcesYamlSyntax(basename: string, documents: map<string, map<Key, Native>>) returns (r: Result<Value>)
    ensures FindResource(basename, documents.Keys).Err? ==> r == Err(Missing)
    ensures FindResource(basename, documents.Keys).Ok? ==>
      Agrees(r, Conv(NMap(documents[FindResource(basename, documents.Keys).value]), Named(basename), KeysArePaths))
    ensures r.Ok? ==> r.value.VObject?
  {
    var name := FindResource(basename, documents.Keys);
    if name.Err? {
      return Err(name.error);
    }
    var origin := ValueOrigin(Some(basename));
    r := FromAnyRef(NMap(documents[name.value]), origin, KeysArePaths);
    if r.Ok? {
      PathsModeGivesObject(origin, documents[name.value]);
    }
  }

  /** `fromAnyRef(object, origin, mapMode)`. */
  method FromAnyRef(x: Native, origin: Origin, mode: MapMode) returns (r: Result<Value>)
    ensures Agrees(r, Conv(x, origin, mode))
    decreases Height(x), 3
  {
    if origin == NullOrigin {
      return Err(BugOrBroken(NullOriginBug));
    }
    if !x.NMap? && !x.NList? {
      assert Conv(x, origin, mode) == ConvScalar(x, origin);
    }
    match x {
      case NNull =>
        if origin != DefaultOrigin {
          r := Ok(VNull(Fresh(origin)));
        } else {
          r := Ok(VNull(Shared));
        }
      case NConfig(v) =>
        r := Ok(v);
      case NBool(b) =>
        if origin != DefaultOrigin {
          r := Ok(VBool(Fresh(origin), b));
        } else if b {
          r := Ok(VBool(Shared, true));
        } else {
          r := Ok(VBool(Shared, false));
        }
      case NString(s) =>
        r := FromString(origin, s);
      case NDouble(d) =>
        r := Ok(VDouble(origin, d));
      case NInt(i) =>
        r := Ok(VInt(origin, i));
      case NLong(l) =>
        r := Ok(VLong(origin, l));
      case NOtherNumber(d) =>
        r := Ok(VNumber(origin, d));
      case NDuration(ms) =>
        r := Ok(VLong(origin, ms));
      case NMap(m) =>
        if |m| == 0 {
          r := Ok(EmptyObject(origin));
        } else if mode == KeysAreKeys {
          r := FromKeysMap(x, origin, mode);
        } else {
          MapBoundOfMap(m);
          r := FromPathExpressionMap(origin, m);
        }
      case NList(items) =>
        if |items| == 0 {
          r := Ok(EmptyList(origin));
        } else {
          r := FromItems(x, origin, mode);
        }
      case NMemorySize(b) =>
        r := Ok(VLong(origin, b));
      case NOther(_) =>
        r := Err(BugOrBroken(NotConvertible));
    }
  }

  /** The keys-are-keys branch of `fromAnyRef`: every key must be a string. */
  method FromKeysMap(x: Native, origin: Origin, mode: MapMode) returns (r: Result<Value>)
    requires x.NMap?
    ensures Agrees(r, KeysFromOutcomes(origin, EntryOutcomes(x, origin, mode)))
    decreases Height(x), 2
  {
    var m := x.entries;
    ghost var outs := EntryOutcomes(x, origin, mode);
    KeysFromOutcomesSpec(origin, outs);
    var values: map<string, Value> := map[];
    var rest := m.Keys;
    while rest != {}
      invariant rest <= m.Keys
      invariant forall k :: k in m.Keys - rest ==> k.StrKey? && outs[k].Converts?
      invariant forall s :: s in values <==> StrKey(s) in m.Keys - rest
      invariant forall s :: s in values ==> outs[StrKey(s)] == Converts(values[s])
      decreases rest
    {
      var k :| k in rest;
      if !k.StrKey? {
        assert BugOrBroken(NonStringKey) in EntryErrors(k, outs[k]);
        return Err(BugOrBroken(NonStringKey));
      }
      BelowMapBound(m, k);
      MapBoundOfMap(m);
      var v := FromAnyRef(m[k], origin, mode);
      if v.Err? {
        assert v.error in EntryErrors(k, outs[k]);
        return Err(v.error);
      }
      values := values[k.s := v.value];
      rest := rest - {k};
    }
    r := Ok(VObject(Fresh(origin), values, FromValues));
    var fields := KeysFromOutcomes(origin, outs).v.fields;
    SameMap(values, fields);
  }

  /** The iterable branch of `fromAnyRef`: the elements in iteration order. */
  method FromItems(x: Native, origin: Origin, mode: MapMode) returns (r: Result<Value>)
    requires x.NList? && |x.items| > 0 && origin != NullOrigin
    ensures Agrees(r, Conv(x, origin, mode))
    decreases Height(x), 2
  {
    var items := x.items;
    var values: seq<Value> := [];
    var i := 0;
    while i < |items|
      invariant 0 <= i <= |items|
      invariant ConvItems(x, origin, mode, i) == Converts(values)
    {
      BelowList(items, i);
      var v := FromAnyRef(items[i], origin, mode);
      if v.Err? {
        ItemsFailureStays(x, origin, mode, i + 1, |items|);
        return Err(v.error);
      }
      values := values + [v.value];
      i := i + 1;
    }
    r := Ok(VList(Fresh(origin), values));
  }

  /**
   * `fromPathMap(origin, pathExpressionMap)`: every key must be a string and
   * parse as a path; the resulting path map is then flattened.
   */
  method FromPathExpressionMap(origin: Origin, m: map<Key, Native>) returns (r: Result<Value>)
    ensures Agrees(r, PathsFromOutcomes(origin, EntryOutcomes(NMap(m), origin, KeysArePaths)))
    decreases MapBound(m), 2
  {
    var parsed := ParseKeys(m);
    if parsed.Err? {
      return Err(parsed.error);
    }
    var pathMap := parsed.value;
    MapBoundMono(pathMap, m);
    r := FromPathMap(origin, pathMap, false);
    PathsObjectFlattens(origin, m);
  }

  /** The key loop of the path-expression overload. */
  method ParseKeys(m: map<Key, Native>) returns (r: Result<map<Path, Native>>)
    ensures r.Err? ==> exists k :: k in m && r.error in KeyPathErrors(k)
    ensures r.Ok? ==> (forall k :: k in m ==> KeyPathErrors(k) == {}) && r.value == PathMapOf(m)
  {
    var pathMap: map<Path, Native> := map[];
    var rest := m.Keys;
    PathOfInjective();
    while rest != {}
      invariant rest <= m.Keys
      invariant forall k :: k in m.Keys - rest ==> KeyPathErrors(k) == {}
      invariant forall k :: k in m.Keys - rest ==> PathOf(k) in pathMap && pathMap[PathOf(k)] == m[k]
      invariant forall p :: p in pathMap ==> exists k :: k in m.Keys - rest && PathOf(k) == p
      decreases rest
    {
      var k :| k in rest;
      if !k.StrKey? {
        assert BugOrBroken(NonStringKey) in KeyPathErrors(k);
        return Err(BugOrBroken(NonStringKey));
      }
      var path := ParsePathExpression(k.s);
      if path.Err? {
        assert BadPath in KeyPathErrors(k);
        return Err(path.error);
      }
      pathMap := pathMap[path.value := m[k]];
      rest := rest - {k};
    }
    var expected := PathMapOf(m);
    forall p | p in pathMap ensures p in expected && expected[p] == pathMap[p] {
      var k :| k in m && PathOf(k) == p;
    }
    forall p | p in expected ensures p in pathMap {
      var k :| k in m && PathOf(k) == p;
    }
    SameMap(pathMap, expected);
    r := Ok(pathMap);
  }

  /**
   * The private `fromPathMap(origin, pathMap, convertedFromProperties)`:
   * collect the value and scope paths, reject (or, from properties, drop)
   * values that are also scopes, store the leaves in their parents' maps,
   * then wrap the scopes into objects from the longest path to the shortest.
   */
  method FromPathMap(origin: Origin, pathMap: map<Path, Native>, fromProperties: bool) returns (r: Result<Value>)
    ensures Agrees(r, Flatten(origin, LeavesFor(origin, pathMap, fromProperties), fromProperties))
    decreases MapBound(pathMap), 1
  {
    ghost var leaves := LeavesFor(origin, pathMap, fromProperties);
    assert leaves.Keys == pathMap.Keys;
    var valuePaths, scopePaths := CollectPaths(pathMap);
    if fromProperties {
      valuePaths := valuePaths - scopePaths;
    } else {
      var collides := FindCollision(valuePaths, scopePaths);
      if collides {
        return Err(BugOrBroken(LeafScopeCollision));
      }
    }
    assert valuePaths == Survivors(pathMap.Keys, fromProperties);
    var scopes := NewScopes(scopePaths);
    var filled := FillLeaves(origin, pathMap, fromProperties, valuePaths, scopePaths, scopes);
    if filled.Err? {
      return Err(filled.error);
    }
    ghost var placed := Placed(leaves, valuePaths);
    SurvivorsAreLeaves(pathMap.Keys, fromProperties);
    var sorted := SortByLength(scopePaths);
    forall q | q in scopePaths && |q| > 1 ensures q[..|q| - 1] in scopePaths {
      ScopesClosed(pathMap.Keys, q);
      assert q[..|q| - 1] in Ancestors(q);
    }
    var root := WrapScopes(origin, placed, scopePaths, sorted, filled.value.root, filled.value.scopes);
    r := Ok(VObject(Fresh(origin), root, FromValues));
  }

  /** How many segments an optional path has. */
  function Depth(p: Option<Path>): nat
  {
    if p.Some? then |p.value| else 0
  }

  /** The first loop: every key is a value path, every strict ancestor of a key a scope path. */
  method CollectPaths(pathMap: map<Path, Native>) returns (valuePaths: set<Path>, scopePaths: set<Path>)
    ensures valuePaths == pathMap.Keys
    ensures scopePaths == Scopes(pathMap.Keys)
  {
    valuePaths, scopePaths := {}, {};
    var rest := pathMap.Keys;
    while rest != {}
      invariant rest <= pathMap.Keys
      invariant valuePaths == pathMap.Keys - rest
      invariant scopePaths == Scopes(pathMap.Keys - rest)
      decreases rest
    {
      var path :| path in rest;
      ghost var before := scopePaths;
      valuePaths := valuePaths + {path};
      var next := Parent(path);
      if next.Some? {
        AncestorsAboveParent(path);
      }
      while next.Some?
        invariant next.Some? ==> 0 < |next.value| < |path| && next.value == path[..|next.value|]
        invariant scopePaths == before + AncestorsAbove(path, Depth(next))
        decreases Depth(next)
      {
        var n := |next.value|;
        AncestorsAboveStep(path, n);
        scopePaths := scopePaths + {next.value};
        next := Parent(next.value);
      }
      ScopesAdd(pathMap.Keys - rest, path);
      assert pathMap.Keys - (rest - {path}) == (pathMap.Keys - rest) + {path};
      rest := rest - {path};
    }
  }

  /** The collision check outside properties mode: is some value path also a scope path? */
  method FindCollision(valuePaths: set<Path>, scopePaths: set<Path>) returns (collides: bool)
    ensures collides <==> exists p :: p in valuePaths && p in scopePaths
  {
    var rest := valuePaths;
    while rest != {}
      invariant rest <= valuePaths
      invariant forall p :: p in valuePaths - rest ==> p !in scopePaths
      decreases rest
    {
      var path :| path in rest;
      if path in scopePaths {
        return true;
      }
      rest := rest - {path};
    }
    return false;
  }

  /** One empty map per scope path. */
  method NewScopes(scopePaths: set<Path>) returns (scopes: map<Path, map<string, Value>>)
    ensures scopes.Keys == scopePaths
    ensures forall q :: q in scopes ==> scopes[q] == map[]
  {
    scopes := map[];
    var rest := scopePaths;
    while rest != {}
      invariant rest <= scopePaths
      invariant scopes.Keys == scopePaths - rest
      invariant forall q :: q in scopes ==> scopes[q] == map[]
      decreases rest
    {
      var path :| path in rest;
      scopes := scopes[path := map[]];
      rest := rest - {path};
    }
  }

  /**
   * The leaf loop: each surviving value path's converted value goes into its
   * parent's map (the root map for a one-segment path). From properties only
   * strings are stored; otherwise a conversion error ends the loop.
   */
  method FillLeaves(origin: Origin, pathMap: map<Path, Native>, fromProperties: bool,
                    valuePaths: set<Path>, scopePaths: set<Path>, scopes0: map<Path, map<string, Value>>)
    returns (r: Result<ScopeMaps>)
    requires valuePaths <= pathMap.Keys
    requires scopePaths == Scopes(pathMap.Keys)
    requires scopes0.Keys == scopePaths && forall q :: q in scopes0 ==> scopes0[q] == map[]
    ensures var leaves := LeavesFor(origin, pathMap, fromProperties);
      r.Err? ==> exists p :: p in valuePaths && leaves[p].Fail? && r.error in leaves[p].errs
    ensures var leaves := LeavesFor(origin, pathMap, fromProperties);
      r.Ok? ==>
        (forall p :: p in valuePaths ==> !leaves[p].Fail?) &&
        r.value.scopes.Keys == scopePaths &&
        LeavesStored(r.value.root, r.value.scopes, Placed(leaves, valuePaths))
    decreases MapBound(pathMap), 0
  {
    ghost var leaves := LeavesFor(origin, pathMap, fromProperties);
    var root: map<string, Value> := map[];
    var scopes := scopes0;
    var rest := valuePaths;
    ghost var done: set<Path> := {};
    assert Placed(leaves, {}) == map[];
    assert LeavesStored(root, scopes, map[]);
    while rest != {}
      invariant done !! rest && done + rest == valuePaths
      invariant scopes.Keys == scopePaths
      invariant forall p :: p in done ==> !leaves[p].Fail?
      invariant LeavesStored(root, scopes, Placed(leaves, done))
      decreases rest
    {
      var path :| path in rest;
      BelowMapBound(pathMap, path);
      var stored := FillStep(origin, pathMap, fromProperties, leaves, done, ScopeMaps(root, scopes), path);
      if stored.Err? {
        return Err(stored.error);
      }
      root, scopes := stored.value.root, stored.value.scopes;
      rest, done := rest - {path}, done + {path};
    }
    r := Ok(ScopeMaps(root, scopes));
  }

  /** One pass of the leaf loop, stated over the leaves of the whole path map: `path` joins the stored paths. */
  method FillStep(origin: Origin, pathMap: map<Path, Native>, fromProperties: bool, ghost leaves: map<Path, Leaf>,
                  ghost done: set<Path>, maps: ScopeMaps, path: Path) returns (r: Result<ScopeMaps>)
    requires leaves == LeavesFor(origin, pathMap, fromProperties)
    requires path in pathMap && path !in done
    requires maps.scopes.Keys == Scopes(pathMap.Keys)
    requires LeavesStored(maps.root, maps.scopes, Placed(leaves, done))
    ensures r.Err? ==> path in leaves && leaves[path].Fail? && r.error in leaves[path].errs
    ensures r.Ok? ==>
      path in leaves && !leaves[path].Fail? && r.value.scopes.Keys == maps.scopes.Keys &&
      LeavesStored(r.value.root, r.value.scopes, Placed(leaves, done + {path}))
    decreases Height(pathMap[path]), 6
  {
    if |path| > 1 {
      AncestorsInScopes(pathMap.Keys, path);
      assert path[..|path| - 1] in Ancestors(path);
    }
    LeavesForAt(origin, pathMap, fromProperties, path);
    PlacedAdd(leaves, done, path);
    r := PlaceLeaf(origin, pathMap[path], fromProperties, Placed(leaves, done), maps, path);
  }

  /** One pass of the leaf loop: convert the raw value of `path`, then store it if there is one. */
  method PlaceLeaf(origin: Origin, rawValue: Native, fromProperties: bool, ghost placed: map<Path, Value>,
                   maps: ScopeMaps, path: Path) returns (r: Result<ScopeMaps>)
    requires path !in placed
    requires |path| > 1 ==> path[..|path| - 1] in maps.scopes
    requires LeavesStored(maps.root, maps.scopes, placed)
    ensures var l := LeafFor(origin, rawValue, fromProperties);
      r.Err? ==> l.Fail? && r.error in l.errs
    ensures var l := LeafFor(origin, rawValue, fromProperties);
      r.Ok? ==>
        !l.Fail? && r.value.scopes.Keys == maps.scopes.Keys &&
        LeavesStored(r.value.root, r.value.scopes, if l.Put? then placed[path := l.v] else placed)
    decreases Height(rawValue), 5
  {
    var value := ConvertLeaf(origin, rawValue, fromProperties);
    if value.Err? {
      return Err(value.error);
    }
    if value.value.Some? {
      var root, scopes := StoreLeaf(placed, maps.root, maps.scopes, path, value.value.value);
      r := Ok(ScopeMaps(root, scopes));
    } else {
      r := Ok(maps);
    }
  }

  /** Storing one more surviving path adds its value, if it has one. */
  lemma PlacedAdd(leaves: map<Path, Leaf>, done: set<Path>, p: Path)
    requires p in leaves && p !in done
    ensures p !in Placed(leaves, done)
    ensures Placed(leaves, done + {p}) ==
      if leaves[p].Put? then Placed(leaves, done)[p := leaves[p].v] else Placed(leaves, done)
  {
  }

  /** `r` is what storing a leaf `l` amounts to: a failure, nothing to store, or the value to store. */
  predicate LeafResult(r: Result<Option<Value>>, l: Leaf)
  {
    match r
    case Err(e) => l.Fail? && e in l.errs
    case Ok(None) => l.Skip?
    case Ok(Some(v)) => l == Put(v)
  }

  /** One leaf's value: from properties a string or nothing, otherwise its conversion. */
  method ConvertLeaf(origin: Origin, rawValue: Native, fromProperties: bool) returns (r: Result<Option<Value>>)
    ensures LeafResult(r, LeafFor(origin, rawValue, fromProperties))
    decreases Height(rawValue), 4
  {
    if fromProperties {
      if rawValue.NString? {
        r := Ok(Some(VString(origin, rawValue.s)));
      } else {
        r := Ok(None);
      }
    } else {
      var v := FromAnyRef(rawValue, origin, KeysArePaths);
      if v.Err? {
        return Err(v.error);
      }
      r := Ok(Some(v.value));
    }
  }

  /**
   * `parent.put(last, value)` for a leaf: the value goes into its parent's
   * map, the root for a one-segment path, which did not hold the name before.
   */
  method StoreLeaf(ghost placed: map<Path, Value>, root: map<string, Value>, scopes: map<Path, map<string, Value>>, path: Path, v: Value)
    returns (root': map<string, Value>, scopes': map<Path, map<string, Value>>)
    requires path !in placed
    requires |path| > 1 ==> path[..|path| - 1] in scopes
    requires LeavesStored(root, scopes, placed)
    ensures FreshName(ScopeMaps(root, scopes), path)
    ensures ScopeMaps(root', scopes') == PutAt(ScopeMaps(root, scopes), path, v)
    ensures scopes'.Keys == scopes.Keys
    ensures LeavesStored(root', scopes', placed[path := v])
  {
    var parentPath := Parent(path);
    var last := Last(path);
    if parentPath.None? {
      root', scopes' := root[last := v], scopes;
    } else {
      var parent := scopes[parentPath.value];
      root', scopes' := root, scopes[parentPath.value := parent[last := v]];
    }
    assert ScopeMaps(root', scopes') == PutAt(ScopeMaps(root, scopes), path, v);
    LeavesStoredPut(root, scopes, placed, path, v);
  }

  /** Every path differs from every other. */
  predicate Distinct(s: seq<Path>)
  {
    forall i, j :: 0 <= i < j < |s| ==> s[i] != s[j]
  }

  /** Longer paths come first: children before their parents. */
  predicate LongestFirst(s: seq<Path>)
  {
    forall i, j :: 0 <= i < j < |s| ==> |s[i]| >= |s[j]|
  }

  /** The scope paths, sorted descending by length. */
  method SortByLength(paths: set<Path>) returns (sorted: seq<Path>)
    ensures forall p :: p in sorted <==> p in paths
    ensures Distinct(sorted) && LongestFirst(sorted)
  {
    sorted := [];
    var rest := paths;
    while rest != {}
      invariant rest <= paths
      invariant forall p :: p in sorted <==> p in paths - rest
      invariant Distinct(sorted) && LongestFirst(sorted)
      decreases rest
    {
      var p :| p in rest;
      var i := 0;
      while i < |sorted| && |sorted[i]| >= |p|
        invariant 0 <= i <= |sorted|
        invariant forall j :: 0 <= j < i ==> |sorted[j]| >= |p|
      {
        i := i + 1;
      }
      InsertKeepsOrder(sorted, i, p);
      sorted := sorted[..i] + [p] + sorted[i..];
      rest := rest - {p};
    }
  }

  lemma InsertIndex(s: seq<Path>, i: nat, p: Path)
    requires i <= |s|
    ensures var t := s[..i] + [p] + s[i..];
      |t| == |s| + 1 &&
      (forall k :: 0 <= k < i ==> t[k] == s[k]) && t[i] == p &&
      (forall k :: i < k < |t| ==> t[k] == s[k - 1])
  {
  }
  /** Inserting a path after every path at least as long keeps the order. */
  lemma InsertKeepsOrder(s: seq<Path>, i: nat, p: Path)
    requires i <= |s| && Distinct(s) && LongestFirst(s) && p !in s
    requires forall j :: 0 <= j < i ==> |s[j]| >= |p|
    requires i < |s| ==> |s[i]| < |p|
    ensures var t := s[..i] + [p] + s[i..];
      Distinct(t) && LongestFirst(t) && forall x :: x in t <==> x in s || x == p
  {
    var t := s[..i] + [p] + s[i..];
    InsertIndex(s, i, p);
    forall a, b | 0 <= a < b < |t| ensures t[a] != t[b] && |t[a]| >= |t[b]| {
      if b == i {
      } else if a == i {
        assert |s[b - 1]| <= |s[i]|;
      } else if b < i {
      } else if a < i {
      } else {
      }
    }
    assert s == s[..i] + s[i..];
    forall x ensures x in t <==> x in s || x == p {
      assert x in t <==> x in s[..i] || x == p || x in s[i..];
    }
  }

  /** The scope paths among the first `n` of `sorted`. */
  function WrappedFirst(sorted: seq<Path>, n: nat): set<Path>
    requires n <= |sorted|
  {
    set j | 0 <= j < n :: sorted[j]
  }

  lemma WrappedFirstStart(sorted: seq<Path>)
    ensures WrappedFirst(sorted, 0) == {}
  {
  }

  lemma WrappedFirstStep(sorted: seq<Path>, i: nat)
    requires i < |sorted| && Distinct(sorted)
    ensures sorted[i] !in WrappedFirst(sorted, i)
    ensures WrappedFirst(sorted, i + 1) == WrappedFirst(sorted, i) + {sorted[i]}
  {
  }

  lemma WrappedFirstAll(sorted: seq<Path>, paths: set<Path>)
    requires forall p :: p in sorted <==> p in paths
    ensures WrappedFirst(sorted, |sorted|) == paths
  {
    forall p | p in paths ensures p in WrappedFirst(sorted, |sorted|) {
      var j :| 0 <= j < |sorted| && sorted[j] == p;
    }
  }

  /** Longest first: when a scope's turn comes, its child scopes are already wrapped. */
  lemma ChildrenFirst(sorted: seq<Path>, i: nat)
    requires i < |sorted| && LongestFirst(sorted)
    ensures forall d :: d in sorted && IsChild(sorted[i], d) ==> d in WrappedFirst(sorted, i)
  {
    forall d | d in sorted && IsChild(sorted[i], d) ensures d in WrappedFirst(sorted, i) {
      var j :| 0 <= j < |sorted| && sorted[j] == d;
    }
  }

  /**
   * The wrap loop: each scope, children first, becomes a resolved object in
   * its parent's map. Each map is complete when its scope is wrapped (see
   * `WrapScope`), so the root ends up holding the whole tree.
   */
  method WrapScopes(origin: Origin, ghost placed: map<Path, Value>, scopePaths: set<Path>, sorted: seq<Path>,
                    root0: map<string, Value>, scopes0: map<Path, map<string, Value>>)
    returns (root: map<string, Value>)
    requires placed.Keys !! scopePaths
    requires forall p :: p in sorted <==> p in scopePaths
    requires Distinct(sorted) && LongestFirst(sorted)
    requires forall q :: q in scopePaths && |q| > 1 ==> q[..|q| - 1] in scopePaths
    requires scopes0.Keys == scopePaths
    requires LeavesStored(root0, scopes0, placed)
    ensures root == TreeFields(origin, placed, scopePaths, [])
  {
    ghost var objects := WrappedObjects(origin, placed, scopePaths);
    root := root0;
    var scopes := scopes0;
    FieldsStoredStart(root, scopes, placed, objects);
    WrappedFirstStart(sorted);
    var i := 0;
    while i < |sorted|
      invariant 0 <= i <= |sorted|
      invariant scopes.Keys == scopePaths
      invariant FieldsStored(root, scopes, placed, objects, WrappedFirst(sorted, i))
    {
      WrappedFirstStep(sorted, i);
      ChildrenFirst(sorted, i);
      root, scopes := WrapScope(origin, placed, scopePaths, WrappedFirst(sorted, i), sorted[i], root, scopes);
      i := i + 1;
    }
    WrappedFirstAll(sorted, scopePaths);
    FieldsAtComplete(origin, placed, scopePaths, [], scopePaths, root);
  }

  /**
   * One step of the wrap loop: scope `scopePath`, all of whose child scopes
   * are wrapped, becomes a resolved object of its complete map, stored in
   * its parent's map (the root for a one-segment path), which did not hold
   * the name before. Maps of paths at least as long are not touched.
   */
  method WrapScope(origin: Origin, ghost placed: map<Path, Value>, scopePaths: set<Path>, ghost done: set<Path>,
                   scopePath: Path, root: map<string, Value>, scopes: map<Path, map<string, Value>>)
    returns (root': map<string, Value>, scopes': map<Path, map<string, Value>>)
    requires placed.Keys !! scopePaths && done <= scopePaths
    requires scopePath in scopePaths && scopePath !in done
    requires forall d :: d in scopePaths && IsChild(scopePath, d) ==> d in done
    requires |scopePath| > 1 ==> scopePath[..|scopePath| - 1] in scopePaths
    requires scopes.Keys == scopePaths
    requires FieldsStored(root, scopes, placed, WrappedObjects(origin, placed, scopePaths), done)
    ensures FreshName(ScopeMaps(root, scopes), scopePath)
    ensures scopes'.Keys == scopePaths
    ensures scopes[scopePath] == TreeFields(origin, placed, scopePaths, scopePath)
    ensures forall q :: q in scopes && |q| >= |scopePath| ==> scopes'[q] == scopes[q]
    ensures FieldsStored(root', scopes', placed, WrappedObjects(origin, placed, scopePaths), done + {scopePath})
  {
    ghost var objects := WrappedObjects(origin, placed, scopePaths);
    var scope := scopes[scopePath];
    FieldsAtComplete(origin, placed, scopePaths, scopePath, done, scope);
    var o := VObject(Fresh(origin), scope, Resolved);
    assert o == objects[scopePath];
    var parentPath := Parent(scopePath);
    if parentPath.None? {
      root', scopes' := root[Last(scopePath) := o], scopes;
    } else {
      var parent := scopes[parentPath.value];
      root', scopes' := root, scopes[parentPath.value := parent[Last(scopePath) := o]];
    }
    assert ScopeMaps(root', scopes') == PutAt(ScopeMaps(root, scopes), scopePath, o);
    FieldsStoredPut(root, scopes, placed, objects, done, scopePath);
  }
}
