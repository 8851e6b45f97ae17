/**
 * The object tree that path flattening builds (YamlParser.java, the private
 * `fromPathMap`): every key path names a leaf, every strict ancestor of a key
 * path is a scope (an intermediate object), and each node's fields are its
 * direct children.
 */
module PathTree {
  import opened ConfigValues

  /** `p.parent()`: the path without its last segment, or none for a one-segment path. */
  function Parent(p: Path): (r: Option<Path>)
    ensures r.None? <==> |p| == 1
    ensures r.Some? ==> r.value == p[..|p| - 1]
  {
    if |p| == 1 then None else Some(p[..|p| - 1])
  }

  /** `p.last()`. */
  function Last(p: Path): string
  {
    p[|p| - 1]
  }

  /** Every strict, non-empty prefix of `p`: the paths `parent()` walks through. */
  function Ancestors(p: Path): set<Path>
  {
    set i | 0 < i < |p| :: p[..i]
  }

  /** The scope paths of a key set: all strict ancestors of its keys. */
  function Scopes(keys: set<Path>): set<Path>
  {
    set p, i | p in keys && 0 < i < |p| :: p[..i]
  }

  /** `p` sits directly below `q`. */
  predicate IsChild(q: seq<string>, p: seq<string>)
  {
    |p| == |q| + 1 && p[..|q|] == q
  }

  /** The field names directly below `q`. */
  function ChildNames(all: set<Path>, q: seq<string>): set<string>
  {
    set p | p in all && IsChild(q, p) :: p[|q|]
  }

  /** The scopes strictly below `q`. */
  function Below(scopes: set<Path>, q: seq<string>): set<Path>
  {
    set p | p in scopes && |q| < |p| && p[..|q|] == q
  }

  lemma ChildPath(all: set<Path>, q: seq<string>, name: string)
    requires name in ChildNames(all, q)
    ensures q + [name] in all
  {
    var p :| p in all && IsChild(q, p) && p[|q|] == name;
    assert p == p[..|q|] + [p[|q|]];
  }

  lemma BelowShrinks(scopes: set<Path>, q: seq<string>, name: string)
    requires q + [name] in scopes
    ensures |Below(scopes, q + [name])| < |Below(scopes, q)|
  {
    var c := q + [name];
    assert c[..|q|] == q;
    forall p | p in Below(scopes, c) ensures p in Below(scopes, q) {
      assert p[..|q|] == p[..|c|][..|q|];
    }
    var small, big := Below(scopes, c), Below(scopes, q);
    assert c in big - small;
    assert big == small + (big - small) && small * (big - small) == {};
  }

  /**
   * The fields of the object at `q` (the root when `q` is empty): one per
   * direct child, a scope child as a resolved object of its own fields, any
   * other child as its placed value.
   */
  function TreeFields(o: Origin, placed: map<Path, Value>, scopes: set<Path>, q: seq<string>): map<string, Value>
    decreases |Below(scopes, q)|, 1
  {
    map name | name in ChildNames(placed.Keys + scopes, q) :: Node(o, placed, scopes, q, name)
  }

  function Node(o: Origin, placed: map<Path, Value>, scopes: set<Path>, q: seq<string>, name: string): Value
    requires name in ChildNames(placed.Keys + scopes, q)
    decreases |Below(scopes, q)|, 0
  {
    ChildPath(placed.Keys + scopes, q, name);
    if q + [name] in scopes then
      BelowShrinks(scopes, q, name);
      VObject(Fresh(o), TreeFields(o, placed, scopes, q + [name]), Resolved)
    else placed[q + [name]]
  }

  /** What flattening one key path's raw value gives: a value, nothing, or failure. */
  datatype Leaf = Put(v: Value) | Skip | Fail(errs: set<Error>)

  /** The values of the surviving key paths that produced one. */
  function Placed(leaves: map<Path, Leaf>, survivors: set<Path>): (r: map<Path, Value>)
    ensures forall p :: p in r <==> p in survivors && p in leaves && leaves[p].Put?
  {
    map p | p in survivors && p in leaves && leaves[p].Put? :: leaves[p].v
  }

  function FailErrors(leaves: map<Path, Leaf>, survivors: set<Path>): set<Error>
  {
    set p, e | p in survivors && p in leaves && leaves[p].Fail? && e in leaves[p].errs :: e
  }

  /** A key path that is also an ancestor of another key path. */
  predicate Collides(keys: set<Path>)
  {
    exists p :: p in keys && p in Scopes(keys)
  }

  /** The key paths whose leaves are stored: in properties mode a scope drops its leaf. */
  function Survivors(keys: set<Path>, fromProperties: bool): set<Path>
  {
    if fromProperties then keys - Scopes(keys) else keys
  }

  /**
   * Path flattening. Outside properties mode a key that is also a scope is an
   * error; otherwise the first failing leaf conversion, in whatever order the
   * map yields them, is the error; otherwise the root object of the tree.
   */
  function Flatten(o: Origin, leaves: map<Path, Leaf>, fromProperties: bool): Outcome<Value>
  {
    var keys := leaves.Keys;
    var survivors := Survivors(keys, fromProperties);
    if !fromProperties && Collides(keys) then Fails({BugOrBroken(LeafScopeCollision)})
    else if exists p :: p in survivors && leaves[p].Fail? then Fails(FailErrors(leaves, survivors))
    else Converts(VObject(Fresh(o), TreeFields(o, Placed(leaves, survivors), Scopes(keys), []), FromValues))
  }

  /** A flattening that succeeds gives a fresh object whose status comes from its values. */
  lemma FlattenGivesObject(o: Origin, leaves: map<Path, Leaf>, fromProperties: bool)
    requires Flatten(o, leaves, fromProperties).Converts?
    ensures var root := Flatten(o, leaves, fromProperties).v;
      root.VObject? && root.prov == Fresh(o) && root.status == FromValues
  {
  }

  /** Following `path` segment by segment through nested objects. */
  function Lookup(fields: map<string, Value>, path: seq<string>): Option<Value>
    decreases |path|
  {
    if |path| == 0 || path[0] !in fields then None
    else if |path| == 1 then Some(fields[path[0]])
    else if fields[path[0]].VObject? then Lookup(fields[path[0]].fields, path[1..])
    else None
  }

  // ---------------------------------------------------------------------
  // Properties

  lemma AncestorsInScopes(keys: set<Path>, p: Path)
    requires p in keys
    ensures Ancestors(p) <= Scopes(keys)
  {
  }

  /** Scopes are closed under ancestors: the parent of a scope is a scope. */
  lemma ScopesClosed(keys: set<Path>, q: Path)
    requires q in Scopes(keys)
    ensures Ancestors(q) <= Scopes(keys)
  {
    var p, i :| p in keys && 0 < i < |p| && q == p[..i];
    forall a | a in Ancestors(q) ensures a in Scopes(keys) {
      var j :| 0 < j < |q| && a == q[..j];
      assert a == p[..j];
    }
  }

  /** Every scope is a strict ancestor of some key; hence no scope is as long as the longest key. */
  lemma ScopeIsAncestor(keys: set<Path>, q: Path)
    requires q in Scopes(keys)
    ensures exists p :: p in keys && q in Ancestors(p)
  {
    var p, i :| p in keys && 0 < i < |p| && q == p[..i];
    assert q in Ancestors(p);
  }

  /** Without a collision, key paths and scopes are disjoint; in properties mode survivors never are scopes. */
  lemma SurvivorsAreLeaves(keys: set<Path>, fromProperties: bool)
    requires fromProperties || !Collides(keys)
    ensures Survivors(keys, fromProperties) !! Scopes(keys)
    ensures Survivors(keys, fromProperties) <= keys
    ensures !fromProperties ==> Survivors(keys, fromProperties) == keys
  {
  }

  /** In properties mode a key is dropped exactly when it is an ancestor of another key. */
  lemma PropertiesDrop(keys: set<Path>, p: Path)
    requires p in keys
    ensures p !in Survivors(keys, true) <==> exists k, i :: k in keys && 0 < i < |k| && p == k[..i]
  {
  }

  lemma {:induction false} LookupPrefix(o: Origin, placed: map<Path, Value>, scopes: set<Path>, p: Path, n: nat)
    requires placed.Keys !! scopes
    requires p in placed.Keys + scopes
    requires Ancestors(p) <= scopes
    requires n < |p|
    ensures var q := p[..n];
      Lookup(TreeFields(o, placed, scopes, q), p[n..]) ==
        Some(if p in scopes then VObject(Fresh(o), TreeFields(o, placed, scopes, p), Resolved) else placed[p])
    decreases |p| - n
  {
    var q := p[..n];
    var all := placed.Keys + scopes;
    var name := p[n];
    var c := q + [name];
    assert c == p[..n + 1];
    assert c in all by {
      if n + 1 < |p| { assert c in Ancestors(p); } else { assert c == p; }
    }
    assert IsChild(q, c);
    assert name in ChildNames(all, q);
    var fields := TreeFields(o, placed, scopes, q);
    assert fields[name] == Node(o, placed, scopes, q, name);
    if n + 1 == |p| {
      assert c == p;
      assert p[n..] == [name];
    } else {
      assert c in scopes by { assert c in Ancestors(p); }
      assert fields[name] == VObject(Fresh(o), TreeFields(o, placed, scopes, c), Resolved);
      LookupPrefix(o, placed, scopes, p, n + 1);
      assert p[n..][1..] == p[n + 1..];
    }
  }

  /**
   * Placement: following a placed key path from the root reaches that key's
   * value, and following any of its strict ancestors reaches a resolved object.
   */
  lemma Placement(o: Origin, placed: map<Path, Value>, scopes: set<Path>, p: Path)
    requires placed.Keys !! scopes
    requires p in placed
    requires Ancestors(p) <= scopes
    ensures Lookup(TreeFields(o, placed, scopes, []), p) == Some(placed[p])
    ensures forall i :: 0 < i < |p| ==>
      Lookup(TreeFields(o, placed, scopes, []), p[..i]) == Some(VObject(Fresh(o), TreeFields(o, placed, scopes, p[..i]), Resolved))
  {
    LookupPrefix(o, placed, scopes, p, 0);
    assert p[..0] == [] && p[0..] == p;
    forall i | 0 < i < |p|
      ensures Lookup(TreeFields(o, placed, scopes, []), p[..i]) == Some(VObject(Fresh(o), TreeFields(o, placed, scopes, p[..i]), Resolved))
    {
      AncestorReached(o, placed, scopes, p, i);
    }
  }

  lemma AncestorReached(o: Origin, placed: map<Path, Value>, scopes: set<Path>, p: Path, i: nat)
    requires placed.Keys !! scopes
    requires Ancestors(p) <= scopes
    requires 0 < i < |p|
    ensures Lookup(TreeFields(o, placed, scopes, []), p[..i]) == Some(VObject(Fresh(o), TreeFields(o, placed, scopes, p[..i]), Resolved))
  {
    var a := p[..i];
    assert a in Ancestors(p);
    forall b | b in Ancestors(a) ensures b in scopes {
      var j :| 0 < j < |a| && b == a[..j];
      assert b == p[..j];
      assert b in Ancestors(p);
    }
    LookupPrefix(o, placed, scopes, a, 0);
    assert a[..0] == [] && a[0..] == a;
  }

  /** Every strict ancestor of `p` reaches a resolved object from `fields`. */
  ghost predicate ObjectsAbove(o: Origin, fields: map<string, Value>, p: Path)
  {
    forall i :: 0 < i < |p| ==> ResolvedObject(o, Lookup(fields, p[..i]))
  }

  predicate ResolvedObject(o: Origin, r: Option<Value>)
  {
    r.Some? && r.value.VObject? && r.value.prov == Fresh(o) && r.value.status == Resolved
  }

  /**
   * Flattening places every surviving key: when it succeeds, each surviving
   * key path holds a value or was skipped, a value is reached by following
   * the path from the root, and every strict ancestor reaches a resolved object.
   */
  lemma FlattenPlacement(o: Origin, leaves: map<Path, Leaf>, fromProperties: bool, p: Path)
    requires Flatten(o, leaves, fromProperties).Converts?
    requires p in Survivors(leaves.Keys, fromProperties)
    ensures var root := Flatten(o, leaves, fromProperties).v;
      root.VObject? && root.prov == Fresh(o) && root.status == FromValues &&
      !leaves[p].Fail? &&
      (leaves[p].Put? ==> Lookup(root.fields, p) == Some(leaves[p].v)) &&
      ObjectsAbove(o, root.fields, p)
  {
    var keys := leaves.Keys;
    var scopes := Scopes(keys);
    SurvivorsAreLeaves(keys, fromProperties);
    var placed := Placed(leaves, Survivors(keys, fromProperties));
    var root := Flatten(o, leaves, fromProperties).v;
    assert root.fields == TreeFields(o, placed, scopes, []);
    AncestorsInScopes(keys, p);
    if leaves[p].Put? {
      Placement(o, placed, scopes, p);
    }
    forall i | 0 < i < |p|
      ensures ResolvedObject(o, Lookup(root.fields, p[..i]))
    {
      AncestorReached(o, placed, scopes, p, i);
    }
  }

  /**
   * Nothing else is in the tree: whatever a path reaches from the object at
   * `q` is a placed value at a placed key, a resolved object at a scope, or
   * lies inside the value of a placed key further up.
   */
  lemma {:induction false} LookupFound(o: Origin, placed: map<Path, Value>, scopes: set<Path>, q: seq<string>, path: seq<string>)
    requires Lookup(TreeFields(o, placed, scopes, q), path).Some?
    ensures var v := Lookup(TreeFields(o, placed, scopes, q), path).value;
      var p := q + path;
      |p| > 0 &&
      ((p in placed && p !in scopes && v == placed[p]) ||
       (p in scopes && v == VObject(Fresh(o), TreeFields(o, placed, scopes, p), Resolved)) ||
       (exists k :: |q| < k < |p| && p[..k] in placed && p[..k] !in scopes))
    decreases |path|
  {
    var all := placed.Keys + scopes;
    var fields := TreeFields(o, placed, scopes, q);
    var name := path[0];
    ChildPath(all, q, name);
    var c := q + [name];
    var p := q + path;
    assert fields[name] == Node(o, placed, scopes, q, name);
    if |path| == 1 {
      assert p == c;
    } else if c in scopes {
      LookupFound(o, placed, scopes, c, path[1..]);
      assert c + path[1..] == p;
    } else {
      assert p[..|q| + 1] == c;
    }
  }

  // ---------------------------------------------------------------------
  // The stages of the imperative construction

  /** Ancestors of `p` strictly longer than `n` segments. */
  function AncestorsAbove(p: Path, n: nat): set<Path>
  {
    set i | n < i < |p| :: p[..i]
  }

  lemma AncestorsAboveStep(p: Path, n: nat)
    requires 0 < n < |p|
    ensures AncestorsAbove(p, n - 1) == AncestorsAbove(p, n) + {p[..n]}
  {
  }

  lemma AncestorsAboveParent(p: Path)
    requires |p| > 1
    ensures AncestorsAbove(p, |p| - 1) == {}
  {
  }

  /** Adding a key adds its ancestors to the scopes. */
  lemma ScopesAdd(keys: set<Path>, p: Path)
    ensures Scopes(keys + {p}) == Scopes(keys) + AncestorsAbove(p, 0)
  {
    forall q | q in Scopes(keys + {p}) ensures q in Scopes(keys) + AncestorsAbove(p, 0) {
      var k, i :| k in keys + {p} && 0 < i < |k| && q == k[..i];
    }
  }

  lemma ChildNamesMember(all: set<Path>, q: seq<string>, name: string)
    ensures name in ChildNames(all, q) <==> q + [name] in all
  {
    if name in ChildNames(all, q) {
      ChildPath(all, q, name);
    } else if q + [name] in all {
      assert IsChild(q, q + [name]);
    }
  }

  /** A child of `q` is `q` plus the child's last segment. */
  lemma ChildIs(q: seq<string>, name: string, c: Path)
    ensures q + [name] == c <==> IsChild(q, c) && name == Last(c)
  {
    if IsChild(q, c) {
      assert c == q + [Last(c)];
    }
  }

  /** `m` holds exactly the leaves of `placed` directly below `q`. */
  ghost predicate LeavesAt(m: map<string, Value>, placed: map<Path, Value>, q: seq<string>)
  {
    forall name {:trigger name in m} :: (name in m <==> q + [name] in placed) && (name in m ==> m[name] == placed[q + [name]])
  }

  /** Storing a new leaf adds one field to its parent's map, which did not have it, and changes no other map. */
  lemma LeavesAtStore(m: map<string, Value>, placed: map<Path, Value>, q: seq<string>, p: Path, v: Value)
    requires p !in placed && LeavesAt(m, placed, q)
    ensures IsChild(q, p) ==> Last(p) !in m && LeavesAt(m[Last(p) := v], placed[p := v], q)
    ensures !IsChild(q, p) ==> LeavesAt(m, placed[p := v], q)
  {
    forall name {
      ChildIs(q, name, p);
    }
  }

  /** The object a scope becomes once wrapped. */
  function Wrapped(o: Origin, placed: map<Path, Value>, scopes: set<Path>, c: seq<string>): Value
  {
    VObject(Fresh(o), TreeFields(o, placed, scopes, c), Resolved)
  }

  /** Every scope's wrapped object. */
  function WrappedObjects(o: Origin, placed: map<Path, Value>, scopes: set<Path>): (r: map<Path, Value>)
    ensures r.Keys == scopes
    ensures forall c :: c in r ==> r[c] == Wrapped(o, placed, scopes, c)
  {
    map c | c in scopes :: Wrapped(o, placed, scopes, c)
  }

  /**
   * `m` holds exactly the leaves directly below `q` and the objects of the
   * child scopes of `q` wrapped so far (`done`).
   */
  ghost predicate FieldsAt(m: map<string, Value>, placed: map<Path, Value>, objects: map<Path, Value>, q: seq<string>, done: set<Path>)
  {
    forall name {:trigger name in m} ::
      (name in m <==> q + [name] in placed || q + [name] in done) &&
      (name in m ==>
        if q + [name] in done then q + [name] in objects && m[name] == objects[q + [name]]
        else m[name] == placed[q + [name]])
  }

  /** Before any scope is wrapped, a scope map holds only its leaves. */
  lemma FieldsAtStart(m: map<string, Value>, placed: map<Path, Value>, objects: map<Path, Value>, q: seq<string>)
    requires LeavesAt(m, placed, q)
    ensures FieldsAt(m, placed, objects, q, {})
  {
  }

  /** Wrapping scope `c` adds one field to its parent's map, which did not have it, and changes no other map. */
  lemma FieldsAtWrap(m: map<string, Value>, placed: map<Path, Value>, objects: map<Path, Value>, q: seq<string>, done: set<Path>, c: Path)
    requires c !in done && c !in placed && c in objects
    requires FieldsAt(m, placed, objects, q, done)
    ensures IsChild(q, c) ==> Last(c) !in m && FieldsAt(m[Last(c) := objects[c]], placed, objects, q, done + {c})
    ensures !IsChild(q, c) ==> FieldsAt(m, placed, objects, q, done + {c})
  {
    forall name {
      ChildIs(q, name, c);
    }
  }

  /** After storing the leaves of `placed`: the root and every scope map hold exactly their leaves. */
  ghost predicate LeavesStored(root: map<string, Value>, scopes: map<Path, map<string, Value>>, placed: map<Path, Value>)
  {
    LeavesAt(root, placed, []) && forall q {:trigger LeavesAt(scopes[q], placed, q)} :: q in scopes ==> LeavesAt(scopes[q], placed, q)
  }

  /** While wrapping: the root and every scope map hold their leaves and their wrapped child scopes. */
  ghost predicate FieldsStored(root: map<string, Value>, scopes: map<Path, map<string, Value>>,
                               placed: map<Path, Value>, objects: map<Path, Value>, done: set<Path>)
  {
    FieldsAt(root, placed, objects, [], done) &&
      forall q {:trigger FieldsAt(scopes[q], placed, objects, q, done)} :: q in scopes ==> FieldsAt(scopes[q], placed, objects, q, done)
  }

  lemma FieldsStoredStart(root: map<string, Value>, scopes: map<Path, map<string, Value>>, placed: map<Path, Value>, objects: map<Path, Value>)
    requires LeavesStored(root, scopes, placed)
    ensures FieldsStored(root, scopes, placed, objects, {})
  {
    FieldsAtStart(root, placed, objects, []);
    forall q | q in scopes ensures FieldsAt(scopes[q], placed, objects, q, {}) {
      FieldsAtStart(scopes[q], placed, objects, q);
    }
  }

  /** The root map and one map per scope path, as the flattening fills them. */
  datatype ScopeMaps = ScopeMaps(root: map<string, Value>, scopes: map<Path, map<string, Value>>)

  /**
   * `parent.put(last, v)`: `v` goes under the last segment of `path` into the
   * map of its parent scope, or into the root map for a one-segment path.
   * No other map changes; in particular no map of a path as long as `path`.
   */
  function PutAt(maps: ScopeMaps, path: Path, v: Value): (r: ScopeMaps)
    requires |path| > 1 ==> path[..|path| - 1] in maps.scopes
    ensures r.scopes.Keys == maps.scopes.Keys
    ensures forall q :: q in maps.scopes && |q| >= |path| ==> r.scopes[q] == maps.scopes[q]
  {
    if |path| == 1 then ScopeMaps(maps.root[Last(path) := v], maps.scopes)
    else
      var q := path[..|path| - 1];
      ScopeMaps(maps.root, maps.scopes[q := maps.scopes[q][Last(path) := v]])
  }

  /** The name a store writes is not yet in the map it writes to. */
  predicate FreshName(maps: ScopeMaps, path: Path)
    requires |path| > 1 ==> path[..|path| - 1] in maps.scopes
  {
    if |path| == 1 then Last(path) !in maps.root else Last(path) !in maps.scopes[path[..|path| - 1]]
  }

  /**
   * Storing a leaf that is not placed yet writes a name its parent's map does
   * not hold, and the maps then hold exactly the leaves placed so far.
   */
  lemma LeavesStoredPut(root: map<string, Value>, scopes: map<Path, map<string, Value>>, placed: map<Path, Value>, path: Path, v: Value)
    requires path !in placed
    requires |path| > 1 ==> path[..|path| - 1] in scopes
    requires LeavesStored(root, scopes, placed)
    ensures FreshName(ScopeMaps(root, scopes), path)
    ensures var r := PutAt(ScopeMaps(root, scopes), path, v); LeavesStored(r.root, r.scopes, placed[path := v])
  {
    var r := PutAt(ScopeMaps(root, scopes), path, v);
    LeavesAtStore(root, placed, [], path, v);
    if |path| == 1 {
      assert IsChild([], path);
    } else {
      var q := path[..|path| - 1];
      LeavesAtStore(scopes[q], placed, q, path, v);
      assert IsChild(q, path);
      assert !IsChild([], path);
    }
    forall q | q in r.scopes ensures LeavesAt(r.scopes[q], placed[path := v], q) {
      LeavesAtStore(scopes[q], placed, q, path, v);
      if IsChild(q, path) {
        assert q == path[..|path| - 1];
      }
    }
  }

  /**
   * Wrapping a scope that is not wrapped yet writes a name its parent's map
   * does not hold, and the maps then hold their leaves and every scope
   * wrapped so far.
   */
  lemma FieldsStoredPut(root: map<string, Value>, scopes: map<Path, map<string, Value>>, placed: map<Path, Value>,
                        objects: map<Path, Value>, done: set<Path>, c: Path)
    requires c !in done && c !in placed && c in objects
    requires |c| > 1 ==> c[..|c| - 1] in scopes
    requires FieldsStored(root, scopes, placed, objects, done)
    ensures FreshName(ScopeMaps(root, scopes), c)
    ensures var r := PutAt(ScopeMaps(root, scopes), c, objects[c]); FieldsStored(r.root, r.scopes, placed, objects, done + {c})
  {
    var r := PutAt(ScopeMaps(root, scopes), c, objects[c]);
    FieldsAtWrap(root, placed, objects, [], done, c);
    if |c| == 1 {
      assert IsChild([], c);
    } else {
      var q := c[..|c| - 1];
      FieldsAtWrap(scopes[q], placed, objects, q, done, c);
      assert IsChild(q, c);
      assert !IsChild([], c);
    }
    forall q | q in r.scopes ensures FieldsAt(r.scopes[q], placed, objects, q, done + {c}) {
      FieldsAtWrap(scopes[q], placed, objects, q, done, c);
      if IsChild(q, c) {
        assert q == c[..|c| - 1];
      }
    }
  }

  lemma NodeIs(o: Origin, placed: map<Path, Value>, scopes: set<Path>, q: seq<string>, name: string)
    requires name in ChildNames(placed.Keys + scopes, q)
    ensures q + [name] in placed.Keys + scopes
    ensures Node(o, placed, scopes, q, name) ==
      if q + [name] in scopes then Wrapped(o, placed, scopes, q + [name]) else placed[q + [name]]
  {
    ChildPath(placed.Keys + scopes, q, name);
  }

  /** The field `name` of the tree at `q`: present exactly for a child path, a wrapped scope or a placed value. */
  lemma TreeFieldsAt(o: Origin, placed: map<Path, Value>, scopes: set<Path>, q: seq<string>, name: string)
    ensures name in TreeFields(o, placed, scopes, q) <==> q + [name] in placed || q + [name] in scopes
    ensures name in TreeFields(o, placed, scopes, q) ==>
      TreeFields(o, placed, scopes, q)[name] ==
        (if q + [name] in scopes then Wrapped(o, placed, scopes, q + [name]) else placed[q + [name]])
  {
    ChildNamesMember(placed.Keys + scopes, q, name);
    if name in ChildNames(placed.Keys + scopes, q) {
      NodeIs(o, placed, scopes, q, name);
    }
  }

  /** Two maps with the same keys and the same value at each key are equal. */
  lemma SameMap<K, V>(a: map<K, V>, b: map<K, V>)
    requires forall k :: k in a <==> k in b
    requires forall k :: k in a ==> a[k] == b[k]
    ensures a == b
  {
  }

  /** Once every child scope of `q` is wrapped, its map is the tree's fields at `q`. */
  lemma FieldsAtComplete(o: Origin, placed: map<Path, Value>, scopes: set<Path>, q: seq<string>, done: set<Path>, m: map<string, Value>)
    requires placed.Keys !! scopes && done <= scopes
    requires forall d :: d in scopes && IsChild(q, d) ==> d in done
    requires FieldsAt(m, placed, WrappedObjects(o, placed, scopes), q, done)
    ensures m == TreeFields(o, placed, scopes, q)
  {
    var tree := TreeFields(o, placed, scopes, q);
    forall name ensures (name in m <==> name in tree) && (name in m ==> m[name] == tree[name]) {
      TreeFieldsAt(o, placed, scopes, q, name);
      assert IsChild(q, q + [name]);
    }
    SameMap(m, tree);
  }

  /** A leaf/scope collision is exactly a key path that is an ancestor of another key path. */
  lemma CollisionIff(keys: set<Path>)
    ensures Collides(keys) <==> exists p, k :: p in keys && k in keys && p in Ancestors(k)
  {
    if Collides(keys) {
      var p :| p in keys && p in Scopes(keys);
      ScopeIsAncestor(keys, p);
    }
  }

  // ---------------------------------------------------------------------
  // Samples

  /** `{a: v, a.b: w}` outside properties mode: `a` is both a value and a scope. */
  lemma SampleCollision(o: Origin, v: Value, w: Value)
    ensures Flatten(o, map[["a"] := Put(v), ["a", "b"] := Put(w)], false) == Fails({BugOrBroken(LeafScopeCollision)})
  {
    var leaves := map[["a"] := Put(v), ["a", "b"] := Put(w)];
    var keys: set<Path> := {["a"], ["a", "b"]};
    assert leaves.Keys == keys;
    assert ["a", "b"][..1] == ["a"];
    assert ["a"] in Scopes(keys);
    assert Collides(keys);
  }

  /** The scope `a` of the two leaves `a.b` and `a.c` holds both values. */
  lemma SiblingsScope(o: Origin, v: Value, w: Value)
    ensures TreeFields(o, map[["a", "b"] := v, ["a", "c"] := w], {["a"]}, ["a"]) == map["b" := v, "c" := w]
  {
    var placed := map[["a", "b"] := v, ["a", "c"] := w];
    var scopes: set<Path> := {["a"]};
    var inner := map["b" := v, "c" := w];
    forall name ensures (name in TreeFields(o, placed, scopes, ["a"]) <==> name in inner) &&
      (name in inner ==> TreeFields(o, placed, scopes, ["a"])[name] == inner[name])
    {
      TreeFieldsAt(o, placed, scopes, ["a"], name);
      assert (["a"] + [name])[1] == name;
      assert ["a"] + ["b"] == ["a", "b"] && ["a"] + ["c"] == ["a", "c"];
    }
    SameMap(TreeFields(o, placed, scopes, ["a"]), inner);
  }

  /** The tree of the two leaves `a.b` and `a.c` below the one scope `a`. */
  lemma SiblingsTree(o: Origin, v: Value, w: Value)
    ensures var placed := map[["a", "b"] := v, ["a", "c"] := w];
      TreeFields(o, placed, {["a"]}, []) == map["a" := VObject(Fresh(o), map["b" := v, "c" := w], Resolved)]
  {
    var placed := map[["a", "b"] := v, ["a", "c"] := w];
    var scopes: set<Path> := {["a"]};
    SiblingsScope(o, v, w);
    var top := map["a" := VObject(Fresh(o), map["b" := v, "c" := w], Resolved)];
    forall name ensures (name in TreeFields(o, placed, scopes, []) <==> name in top) &&
      (name in top ==> TreeFields(o, placed, scopes, [])[name] == top[name])
    {
      TreeFieldsAt(o, placed, scopes, [], name);
      assert ([] + [name])[0] == name;
      assert [] + ["a"] == ["a"];
    }
    SameMap(TreeFields(o, placed, scopes, []), top);
  }

  /** `{a.b: v, a.c: w}`: one object `a` holding both values. */
  lemma SampleSiblings(o: Origin, v: Value, w: Value)
    ensures Flatten(o, map[["a", "b"] := Put(v), ["a", "c"] := Put(w)], false) ==
      Converts(VObject(Fresh(o), map["a" := VObject(Fresh(o), map["b" := v, "c" := w], Resolved)], FromValues))
  {
    var leaves := map[["a", "b"] := Put(v), ["a", "c"] := Put(w)];
    var keys: set<Path> := {["a", "b"], ["a", "c"]};
    assert leaves.Keys == keys;
    assert ["a", "b"][..1] == ["a"] && ["a", "c"][..1] == ["a"];
    assert Scopes(keys) == {["a"]};
    assert !Collides(keys);
    assert Placed(leaves, keys) == map[["a", "b"] := v, ["a", "c"] := w];
    SiblingsTree(o, v, w);
  }

  /** The scopes `a` and `a.b` with no leaves: `a.b` is empty. */
  lemma EmptyChainInner(o: Origin)
    ensures TreeFields(o, map[], {["a"], ["a", "b"]}, ["a", "b"]) == map[]
  {
    var scopes: set<Path> := {["a"], ["a", "b"]};
    forall name ensures name !in TreeFields(o, map[], scopes, ["a", "b"]) {
      TreeFieldsAt(o, map[], scopes, ["a", "b"], name);
      assert |["a", "b"] + [name]| == 3;
    }
    SameMap(TreeFields(o, map[], scopes, ["a", "b"]), map[]);
  }

  /** The scopes `a` and `a.b` with no leaves: `a` holds the empty object `b`. */
  lemma EmptyChainMiddle(o: Origin)
    ensures TreeFields(o, map[], {["a"], ["a", "b"]}, ["a"]) == map["b" := VObject(Fresh(o), map[], Resolved)]
  {
    var scopes: set<Path> := {["a"], ["a", "b"]};
    EmptyChainInner(o);
    var expected := map["b" := VObject(Fresh(o), map[], Resolved)];
    forall name ensures (name in TreeFields(o, map[], scopes, ["a"]) <==> name in expected) &&
      (name in expected ==> TreeFields(o, map[], scopes, ["a"])[name] == expected[name])
    {
      TreeFieldsAt(o, map[], scopes, ["a"], name);
      assert (["a"] + [name])[1] == name;
      assert ["a"] + ["b"] == ["a", "b"];
    }
    SameMap(TreeFields(o, map[], scopes, ["a"]), expected);
  }

  /** The scopes `a` and `a.b` with no leaves: the tree is `{a: {b: {}}}`. */
  lemma EmptyChain(o: Origin)
    ensures TreeFields(o, map[], {["a"], ["a", "b"]}, []) ==
      map["a" := VObject(Fresh(o), map["b" := VObject(Fresh(o), map[], Resolved)], Resolved)]
  {
    var scopes: set<Path> := {["a"], ["a", "b"]};
    EmptyChainMiddle(o);
    var expected := map["a" := VObject(Fresh(o), map["b" := VObject(Fresh(o), map[], Resolved)], Resolved)];
    forall name ensures (name in TreeFields(o, map[], scopes, []) <==> name in expected) &&
      (name in expected ==> TreeFields(o, map[], scopes, [])[name] == expected[name])
    {
      TreeFieldsAt(o, map[], scopes, [], name);
      assert ([] + [name])[0] == name;
      assert [] + ["a"] == ["a"];
    }
    SameMap(TreeFields(o, map[], scopes, []), expected);
  }
}
