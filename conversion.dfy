/**
 * What `fromAnyRef` (YamlParser.java) produces for each native value, as a
 * reference function: the node kind per input class, the shared constants for
 * the default origin, key and value conversion of maps in both key modes, and
 * element-wise conversion of lists.
 */
module Conversion {
  import opened ConfigValues
  import opened Splitting
  import opened Interpolator
  import opened Natives
  import opened PathTree

  /**
   * The path-expression parser, reduced to a dot split that rejects empty
   * segments (the quoting rules of the library parser are not modelled).
   */
  function ParsePathExpression(s: string): (r: Result<Path>)
    ensures r.Err? ==> r.error == BadPath
    ensures r.Ok? ==> JoinWith(r.value, '.') == s && forall k :: 0 <= k < |r.value| ==> r.value[k] != ""
    ensures r.Ok? ==> forall k :: 0 <= k < |r.value| ==> '.' !in r.value[k]
  {
    var segments := Fields(Dot, s);
    FieldsJoin(Dot, s);
    DotFieldsHaveNoDot(s);
    if exists k :: 0 <= k < |segments| && segments[k] == "" then Err(BadPath) else Ok(segments)
  }

  /** Distinct path expressions never parse to the same path. */
  lemma ParsePathInjective()
    ensures forall s1, s2 ::
      (ParsePathExpression(s1).Ok? && ParsePathExpression(s2).Ok? &&
       ParsePathExpression(s1).value == ParsePathExpression(s2).value) ==> s1 == s2
  {
  }

  /**
   * The converse: joining non-empty, dot-free segments with dots gives a
   * key that parses back to exactly those segments, so a key is rejected
   * only when it has an empty segment.
   */
  lemma ParsePathAccepts(segments: seq<string>)
    requires |segments| >= 1
    requires forall k :: 0 <= k < |segments| ==> segments[k] != "" && '.' !in segments[k]
    ensures ParsePathExpression(JoinWith(segments, '.')) == Ok(segments)
  {
    SplitUnique(Dot, segments, JoinWith(segments, '.'));
  }

  /** The errors the key loop of the path-expression overload raises for one key. */
  function KeyPathErrors(k: Key): set<Error>
  {
    if !k.StrKey? then {BugOrBroken(NonStringKey)}
    else if ParsePathExpression(k.s).Err? then {BadPath}
    else {}
  }

  function PathOf(k: Key): Path
    requires KeyPathErrors(k) == {}
  {
    ParsePathExpression(k.s).value
  }

  lemma PathOfInjective()
    ensures forall k1, k2 ::
      (KeyPathErrors(k1) == {} && KeyPathErrors(k2) == {} && PathOf(k1) == PathOf(k2)) ==> k1 == k2
  {
    ParsePathInjective();
  }

  /** The errors the keys-are-keys loop raises for one entry, given its value's conversion. */
  function EntryErrors(k: Key, out: Outcome<Value>): set<Error>
  {
    if !k.StrKey? then {BugOrBroken(NonStringKey)}
    else if out.Fails? then out.errs
    else {}
  }

  function LeafOf(out: Outcome<Value>): Leaf
  {
    match out
    case Converts(v) => Put(v)
    case Fails(errs) => Fail(errs)
  }

  /** A raw value under properties rules: strings become quoted strings, anything else is skipped. */
  function PropLeaf(o: Origin, x: Native): Leaf
  {
    if x.NString? then Put(VString(o, x.s)) else Skip
  }

  /** The reference conversion of `fromAnyRef(object, origin, mapMode)`. */
  function Conv(x: Native, o: Origin, mode: MapMode): Outcome<Value>
    decreases x, 1
  {
    if o == NullOrigin then Fails({BugOrBroken(NullOriginBug)})
    else match x
      case NMap(m) =>
        if |m| == 0 then Converts(EmptyObject(o))
        else if mode == KeysAreKeys then KeysFromOutcomes(o, EntryOutcomes(x, o, mode))
        else PathsFromOutcomes(o, EntryOutcomes(x, o, mode))
      case NList(items) =>
        if |items| == 0 then Converts(EmptyList(o))
        else (match ConvItems(x, o, mode, |items|)
          case Fails(errs) => Fails(errs)
          case Converts(vs) => Converts(VList(Fresh(o), vs)))
      case _ => ConvScalar(x, o)
  }

  /** The conversion of a value that is neither a map nor a list; the mode plays no part. */
  function ConvScalar(x: Native, o: Origin): Outcome<Value>
    requires !x.NMap? && !x.NList?
  {
    match x
    case NNull => Converts(VNull(ProvFor(o)))
    case NConfig(v) => Converts(v)
    case NBool(b) => Converts(VBool(ProvFor(o), b))
    case NString(s) => OfResult(FromString(o, s))
    case NDouble(d) => Converts(VDouble(o, d))
    case NInt(i) => Converts(VInt(o, i))
    case NLong(l) => Converts(VLong(o, l))
    case NOtherNumber(d) => Converts(VNumber(o, d))
    case NDuration(ms) => Converts(VLong(o, ms))
    case NMemorySize(b) => Converts(VLong(o, b))
    case NOther(_) => Fails({BugOrBroken(NotConvertible)})
  }

  /** Each entry's value converted with the given origin and mode. */
  function EntryOutcomes(x: Native, o: Origin, mode: MapMode): (r: map<Key, Outcome<Value>>)
    requires x.NMap?
    ensures r.Keys == x.entries.Keys
    decreases x, 0
  {
    map k | k in x.entries :: Conv(x.entries[k], o, mode)
  }

  /** The keys-are-keys object, given each entry's value conversion. */
  function KeysFromOutcomes(o: Origin, outs: map<Key, Outcome<Value>>): Outcome<Value>
  {
    if exists k :: k in outs && (!k.StrKey? || outs[k].Fails?) then
      Fails(set k, e | k in outs && e in EntryErrors(k, outs[k]) :: e)
    else
      Converts(VObject(Fresh(o), map k | k in outs :: k.s := outs[k].v, FromValues))
  }

  /** Keys-are-paths: every key must parse as a path; then the path map is flattened. */
  function PathsFromOutcomes(o: Origin, outs: map<Key, Outcome<Value>>): Outcome<Value>
  {
    if exists k :: k in outs && KeyPathErrors(k) != {} then
      Fails(set k, e | k in outs && e in KeyPathErrors(k) :: e)
    else
      Flatten(o, PathLeaves(outs), false)
  }

  /** Each key's path bound to its value's conversion. */
  function PathLeaves(outs: map<Key, Outcome<Value>>): (r: map<Path, Leaf>)
    requires forall k :: k in outs ==> KeyPathErrors(k) == {}
    ensures forall k :: k in outs ==> PathOf(k) in r && r[PathOf(k)] == LeafOf(outs[k])
    ensures forall p :: p in r ==> exists k :: k in outs && PathOf(k) == p
  {
    PathOfInjective();
    map k | k in outs :: PathOf(k) := LeafOf(outs[k])
  }

  /** The first `n` list elements, converted in order; the first failure stops the loop. */
  function ConvItems(x: Native, o: Origin, mode: MapMode, n: nat): Outcome<seq<Value>>
    requires x.NList? && n <= |x.items|
    decreases x, 0, n
  {
    if n == 0 then Converts([])
    else match ConvItems(x, o, mode, n - 1)
      case Fails(errs) => Fails(errs)
      case Converts(vs) =>
        match Conv(x.items[n - 1], o, mode)
        case Fails(errs) => Fails(errs)
        case Converts(v) => Converts(vs + [v])
  }

  /** The path map the key loop of the path-expression overload builds. */
  function PathMapOf(m: map<Key, Native>): (r: map<Path, Native>)
    requires forall k :: k in m ==> KeyPathErrors(k) == {}
    ensures forall k :: k in m ==> PathOf(k) in r && r[PathOf(k)] == m[k]
    ensures forall p :: p in r ==> exists k :: k in m && PathOf(k) == p
    ensures r.Values <= m.Values
  {
    PathOfInjective();
    map k | k in m :: PathOf(k) := m[k]
  }

  /** What `fromPathMap(origin, pathMap, fromProperties)` stores for one raw value. */
  function LeafFor(o: Origin, x: Native, fromProperties: bool): Leaf
  {
    if fromProperties then PropLeaf(o, x) else LeafOf(Conv(x, o, KeysArePaths))
  }

  /** What `fromPathMap(origin, pathMap, fromProperties)` stores for each key path. */
  function LeavesFor(o: Origin, pathMap: map<Path, Native>, fromProperties: bool): map<Path, Leaf>
  {
    map p | p in pathMap :: LeafFor(o, pathMap[p], fromProperties)
  }

  lemma LeavesForAt(o: Origin, pathMap: map<Path, Native>, fromProperties: bool, p: Path)
    requires p in pathMap
    ensures p in LeavesFor(o, pathMap, fromProperties)
    ensures LeavesFor(o, pathMap, fromProperties)[p] == LeafFor(o, pathMap[p], fromProperties)
  {
  }

  /** The map a `Map<String, ?>` argument stands for. */
  function StringKeyed(m: map<string, Native>): (r: map<Key, Native>)
    ensures forall k :: k in r <==> k.StrKey? && k.s in m
    ensures forall s :: s in m ==> r[StrKey(s)] == m[s]
  {
    map s | s in m :: StrKey(s) := m[s]
  }

  // ---------------------------------------------------------------------
  // Properties

  /** A non-empty map under a non-null origin, keys-are-keys: the object of its entries. */
  lemma ConvKeysMap(o: Origin, m: map<Key, Native>)
    requires o != NullOrigin && |m| > 0
    ensures Conv(NMap(m), o, KeysAreKeys) == KeysFromOutcomes(o, EntryOutcomes(NMap(m), o, KeysAreKeys))
  {
  }

  /** A non-empty map under a non-null origin, keys-are-paths: the flattening of its entries. */
  lemma ConvPathsMap(o: Origin, m: map<Key, Native>)
    requires o != NullOrigin && |m| > 0
    ensures Conv(NMap(m), o, KeysArePaths) == PathsFromOutcomes(o, EntryOutcomes(NMap(m), o, KeysArePaths))
  {
  }

  /** A null origin is always rejected, before the value is looked at. */
  lemma NullOriginRejected(x: Native, mode: MapMode)
    ensures Conv(x, NullOrigin, mode) == Fails({BugOrBroken(NullOriginBug)})
  {
  }

  /**
   * Null and booleans: a null node, or a boolean node of the same truth value,
   * that is the shared constant exactly when the origin is the default one and
   * otherwise a fresh node with the given origin.
   */
  lemma NullAndBooleans(o: Origin, b: bool, mode: MapMode)
    requires o != NullOrigin
    ensures Conv(NNull, o, mode).Converts? && Conv(NNull, o, mode).v.VNull?
    ensures Conv(NBool(b), o, mode).Converts? && Conv(NBool(b), o, mode).v.VBool? && Conv(NBool(b), o, mode).v.b == b
    ensures IsShared(Conv(NNull, o, mode).v) <==> o == DefaultOrigin
    ensures IsShared(Conv(NBool(b), o, mode).v) <==> o == DefaultOrigin
    ensures OriginOf(Conv(NNull, o, mode).v) == o && OriginOf(Conv(NBool(b), o, mode).v) == o
  {
  }

  /** A number keeps its class and its value: no narrowing and no widening. */
  lemma NumbersKeepTheirClass(o: Origin, mode: MapMode, d: Float64, i: Int32, l: Int64)
    requires o != NullOrigin
    ensures Conv(NDouble(d), o, mode) == Converts(VDouble(o, d))
    ensures Conv(NInt(i), o, mode) == Converts(VInt(o, i))
    ensures Conv(NLong(l), o, mode) == Converts(VLong(o, l))
    ensures Conv(NDuration(l), o, mode) == Converts(VLong(o, l))
    ensures Conv(NMemorySize(l), o, mode) == Converts(VLong(o, l))
    ensures Conv(NOtherNumber(d), o, mode) == Converts(VNumber(o, d))
  {
  }

  /**
   * Empty containers: an empty map is the empty object (shared only for the
   * default origin), an empty iterable the empty list (never fresh for the
   * default origin), in either key mode.
   */
  lemma EmptyContainers(o: Origin, mode: MapMode)
    requires o != NullOrigin
    ensures Conv(NMap(map[]), o, mode) == Converts(EmptyObject(o))
    ensures Conv(NList([]), o, mode) == Converts(EmptyList(o))
    ensures IsShared(Conv(NMap(map[]), o, mode).v) <==> o == DefaultOrigin
    ensures IsShared(Conv(NList([]), o, mode).v) <==> o == DefaultOrigin
  {
  }

  /** A value of no known class is a caller bug. */
  lemma UnknownRejected(o: Origin, mode: MapMode, description: string)
    requires o != NullOrigin
    ensures Conv(NOther(description), o, mode) == Fails({BugOrBroken(NotConvertible)})
  {
  }

  /**
   * Keys-are-keys maps: the conversion fails exactly when some key is not a
   * string or some value fails, with one of those errors; otherwise the
   * result is a fresh object with exactly the input's keys, each bound to its
   * value's conversion with the same origin and mode.
   */
  lemma KeysModeObject(o: Origin, m: map<Key, Native>)
    requires o != NullOrigin && |m| > 0
    ensures var out := Conv(NMap(m), o, KeysAreKeys);
      (out.Fails? <==> exists k :: k in m && (!k.StrKey? || Conv(m[k], o, KeysAreKeys).Fails?)) &&
      (out.Fails? ==> forall e :: e in out.errs ==> exists k :: k in m && e in EntryErrors(k, Conv(m[k], o, KeysAreKeys))) &&
      (out.Converts? ==>
        (out.v.VObject? && out.v.prov == Fresh(o) && out.v.status == FromValues &&
         (forall s :: s in out.v.fields <==> StrKey(s) in m) &&
         forall s :: s in out.v.fields ==> Conv(m[StrKey(s)], o, KeysAreKeys) == Converts(out.v.fields[s])))
  {
    KeysFromOutcomesSpec(o, EntryOutcomes(NMap(m), o, KeysAreKeys));
  }

  lemma KeysFromOutcomesSpec(o: Origin, outs: map<Key, Outcome<Value>>)
    ensures var out := KeysFromOutcomes(o, outs);
      (out.Fails? <==> exists k :: k in outs && (!k.StrKey? || outs[k].Fails?)) &&
      (out.Fails? ==> forall e :: e in out.errs ==> exists k :: k in outs && e in EntryErrors(k, outs[k])) &&
      (out.Converts? ==>
        (out.v.VObject? && out.v.prov == Fresh(o) && out.v.status == FromValues &&
         (forall s :: s in out.v.fields <==> StrKey(s) in outs) &&
         forall s :: s in out.v.fields ==> outs[StrKey(s)] == Converts(out.v.fields[s])))
  {
    if !exists k :: k in outs && (!k.StrKey? || outs[k].Fails?) {
      var fields := map k | k in outs :: k.s := outs[k].v;
      assert KeysFromOutcomes(o, outs).v.fields == fields;
      forall s | s in fields ensures StrKey(s) in outs && outs[StrKey(s)] == Converts(fields[s]) {
        var k :| k in outs && k.s == s;
        assert k == StrKey(s);
      }
      forall s | StrKey(s) in outs ensures s in fields {
        assert StrKey(s).s == s;
      }
    }
  }

  lemma {:induction false} ItemsConverted(x: Native, o: Origin, mode: MapMode, n: nat)
    requires x.NList? && n <= |x.items|
    ensures var out := ConvItems(x, o, mode, n);
      (out.Converts? <==> forall i :: 0 <= i < n ==> Conv(x.items[i], o, mode).Converts?) &&
      (out.Converts? ==> |out.v| == n && forall i :: 0 <= i < n ==> Conv(x.items[i], o, mode) == Converts(out.v[i])) &&
      (out.Fails? ==> exists i :: (0 <= i < n && Conv(x.items[i], o, mode) == Fails(out.errs) &&
        forall j :: 0 <= j < i ==> Conv(x.items[j], o, mode).Converts?))
  {
    if n > 0 {
      ItemsConverted(x, o, mode, n - 1);
      var prev := ConvItems(x, o, mode, n - 1);
      var last := Conv(x.items[n - 1], o, mode);
      if prev.Fails? {
        assert ConvItems(x, o, mode, n) == prev;
      } else if last.Fails? {
        assert ConvItems(x, o, mode, n) == Fails(last.errs);
      } else {
        var vs := prev.v + [last.v];
        assert ConvItems(x, o, mode, n) == Converts(vs);
        forall i | 0 <= i < n ensures Conv(x.items[i], o, mode) == Converts(vs[i]) {
          if i < n - 1 {
            assert vs[i] == prev.v[i];
          }
        }
      }
    }
  }

  /** The first failure of the list loop is final: later elements are not looked at. */
  lemma {:induction false} ItemsFailureStays(x: Native, o: Origin, mode: MapMode, n: nat, m: nat)
    requires x.NList? && n <= m <= |x.items|
    requires ConvItems(x, o, mode, n).Fails?
    ensures ConvItems(x, o, mode, m) == ConvItems(x, o, mode, n)
    decreases m
  {
    if m > n {
      ItemsFailureStays(x, o, mode, n, m - 1);
    }
  }

  /**
   * Lists keep length and order, each element converted with the same origin
   * and mode; the conversion fails with the errors of the first failing element.
   */
  lemma ListPreserved(o: Origin, mode: MapMode, items: seq<Native>)
    requires o != NullOrigin && |items| > 0
    ensures var out := Conv(NList(items), o, mode);
      (out.Converts? <==> forall i :: 0 <= i < |items| ==> Conv(items[i], o, mode).Converts?) &&
      (out.Converts? ==>
        (out.v.VList? && out.v.prov == Fresh(o) && |out.v.items| == |items| &&
         forall i :: 0 <= i < |items| ==> Conv(items[i], o, mode) == Converts(out.v.items[i]))) &&
      (out.Fails? ==> exists i :: (0 <= i < |items| && Conv(items[i], o, mode) == Fails(out.errs) &&
        forall j :: 0 <= j < i ==> Conv(items[j], o, mode).Converts?))
  {
    ItemsConverted(NList(items), o, mode, |items|);
  }

  /** A string is tokenized: literal, reference or concatenation, with the Parse error of the tokenizer. */
  lemma StringsTokenized(o: Origin, mode: MapMode, s: string)
    requires o != NullOrigin
    ensures Agrees(FromString(o, s), Conv(NString(s), o, mode))
  {
  }

  /** A keys-are-paths map that converts always gives an object, so the cast of the public overload holds. */
  lemma PathsModeGivesObject(o: Origin, m: map<Key, Native>)
    requires Conv(NMap(m), o, KeysArePaths).Converts?
    ensures Conv(NMap(m), o, KeysArePaths).v.VObject?
  {
    if |m| > 0 {
      var outs := EntryOutcomes(NMap(m), o, KeysArePaths);
      ConvPathsMap(o, m);
      if forall k :: k in outs ==> KeyPathErrors(k) == {} {
        FlattenGivesObject(o, PathLeaves(outs), false);
      }
    }
  }

  /** The path-expression overload is the flattening of the path map its key loop builds. */
  lemma PathsObjectFlattens(o: Origin, m: map<Key, Native>)
    requires forall k :: k in m ==> KeyPathErrors(k) == {}
    ensures PathsFromOutcomes(o, EntryOutcomes(NMap(m), o, KeysArePaths)) == Flatten(o, LeavesFor(o, PathMapOf(m), false), false)
  {
    var outs := EntryOutcomes(NMap(m), o, KeysArePaths);
    var direct := PathLeaves(outs);
    var pm := PathMapOf(m);
    var viaMap := LeavesFor(o, pm, false);
    forall p | p in direct ensures p in viaMap && viaMap[p] == direct[p] {
      var k :| k in outs && PathOf(k) == p;
      assert pm[p] == m[k];
    }
    forall p | p in viaMap ensures p in direct {
      var k :| k in m && PathOf(k) == p;
    }
    SameMap(direct, viaMap);
  }

  /** A keys-are-paths conversion that succeeds went through flattening of the parsed path map. */
  lemma PathsModeConverted(o: Origin, m: map<Key, Native>)
    requires o != NullOrigin && |m| > 0
    requires Conv(NMap(m), o, KeysArePaths).Converts?
    ensures forall k :: k in m ==> KeyPathErrors(k) == {}
    ensures Conv(NMap(m), o, KeysArePaths) == Flatten(o, LeavesFor(o, PathMapOf(m), false), false)
  {
    var outs := EntryOutcomes(NMap(m), o, KeysArePaths);
    ConvPathsMap(o, m);
    assert forall k :: k in m ==> KeyPathErrors(k) == {} by {
      assert outs.Keys == m.Keys;
    }
    PathsObjectFlattens(o, m);
  }

  /**
   * Keys-are-paths placement: when the conversion succeeds, following any key's
   * path segments from the root reaches that key's converted value, and every
   * strict ancestor of the path is a resolved object.
   */
  lemma PathsModePlacement(o: Origin, m: map<Key, Native>, k: Key)
    requires o != NullOrigin && k in m
    requires Conv(NMap(m), o, KeysArePaths).Converts?
    ensures KeyPathErrors(k) == {}
    ensures var root := Conv(NMap(m), o, KeysArePaths).v; var p := PathOf(k);
      root.VObject? && Conv(m[k], o, KeysArePaths).Converts? &&
      Lookup(root.fields, p) == Some(Conv(m[k], o, KeysArePaths).v) &&
      ObjectsAbove(o, root.fields, p)
  {
    PathsModeConverted(o, m);
    var leaves := LeavesFor(o, PathMapOf(m), false);
    var p := PathOf(k);
    LeavesForAt(o, PathMapOf(m), false, p);
    assert leaves[p] == LeafOf(Conv(m[k], o, KeysArePaths));
    FlattenPlacement(o, leaves, false, p);
  }

  /**
   * Properties mode on `{a.b: 1, a.b.c: 2}`: `a.b` is a scope, so its value is
   * dropped, and `2` is not a string, so it is skipped; what is left is the
   * empty object `b` inside `a`.
   */
  lemma SamplePropertiesSkip(o: Origin)
    ensures Flatten(o, LeavesFor(o, map[["a", "b"] := NInt(1), ["a", "b", "c"] := NInt(2)], true), true) ==
      Converts(VObject(Fresh(o), map["a" := VObject(Fresh(o), map["b" := VObject(Fresh(o), map[], Resolved)], Resolved)], FromValues))
  {
    var pathMap: map<Path, Native> := map[["a", "b"] := NInt(1), ["a", "b", "c"] := NInt(2)];
    var leaves := LeavesFor(o, pathMap, true);
    var keys: set<Path> := {["a", "b"], ["a", "b", "c"]};
    assert leaves.Keys == keys;
    assert leaves == map[["a", "b"] := Skip, ["a", "b", "c"] := Skip];
    assert ["a", "b"][..1] == ["a"] && ["a", "b", "c"][..1] == ["a"] && ["a", "b", "c"][..2] == ["a", "b"];
    assert Scopes(keys) == {["a"], ["a", "b"]};
    assert Placed(leaves, Survivors(keys, true)) == map[];
    EmptyChain(o);
  }
}
