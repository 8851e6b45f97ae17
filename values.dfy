/**
 * The value side of the YAML-to-config conversion: origins, configuration
 * value nodes, errors, and the shared "hardcoded default" constants.
 * Models the static fields and the small helpers `emptyList`, `emptyObject`
 * and `valueOrigin` of YamlParser.java.
 */
module ConfigValues {

  /** Java's `int`, `long`; a `double` is carried as its IEEE-754 bit pattern. */
  newtype Int32 = x: int | -0x8000_0000 <= x < 0x8000_0000
  newtype Int64 = x: int | -0x8000_0000_0000_0000 <= x < 0x8000_0000_0000_0000
  type Float64 = bv64

  datatype Option<+T> = None | Some(value: T)

  /** A path: a non-empty sequence of segments (as in `a.b.c`). */
  type Path = p: seq<string> | |p| > 0 witness [""]

  /**
   * Where a value came from. `DefaultOrigin` is the single process-wide
   * "hardcoded value" origin object; `Named` is a fresh origin made from a
   * description. Java compares origins by identity, so a `Named` origin is never
   * the default one, whatever its description.
   */
  datatype Origin = NullOrigin | DefaultOrigin | Named(description: string)

  /**
   * Identity of a node that may be one of the shared default constants:
   * `Shared` is that constant (whose origin is the default origin),
   * `Fresh(o)` a newly allocated node carrying origin `o`.
   */
  datatype Prov = Shared | Fresh(origin: Origin)

  /** Resolve status a config object is built with. */
  datatype Status =
    | Resolved     // passed explicitly as RESOLVED
    | FromValues   // left to the object to compute from its values

  datatype Value =
    | VNull(prov: Prov)
    | VBool(prov: Prov, b: bool)
    | VString(origin: Origin, s: string)                 // a quoted string
    | VInt(origin: Origin, i: Int32)
    | VLong(origin: Origin, l: Int64)
    | VDouble(origin: Origin, d: Float64)
    | VNumber(origin: Origin, d: Float64)                // a number built from a double value
    | VList(prov: Prov, items: seq<Value>)
    | VObject(prov: Prov, fields: map<string, Value>, status: Status)
    | VRef(origin: Origin, path: seq<string>)            // a non-optional `${path}` substitution
    | VConcat(origin: Origin, pieces: seq<Value>)

  datatype Bug = NullOriginBug | NonStringKey | NotConvertible | LeafScopeCollision

  /**
   * BugOrBroken is a caller error; Parse a malformed substitution; BadPath an
   * unparsable path key; Missing a resource found under none of its names.
   */
  datatype Error = BugOrBroken(bug: Bug) | Parse | BadPath | Missing

  datatype Result<+T> = Ok(value: T) | Err(error: Error)

  /**
   * What a conversion leads to. Java's hash maps have no defined iteration
   * order and conversion stops at the first failing entry, so a failure is
   * described by the set of errors some iteration order raises.
   */
  datatype Outcome<+T> = Converts(v: T) | Fails(errs: set<Error>)

  /** `r` is something the code can produce when the reference outcome is `out`. */
  predicate Agrees<T(==)>(r: Result<T>, out: Outcome<T>)
  {
    match r
    case Ok(v) => out == Converts(v)
    case Err(e) => out.Fails? && e in out.errs
  }

  function OfResult<T(==)>(r: Result<T>): (out: Outcome<T>)
    ensures Agrees(r, out)
    ensures out.Fails? ==> |out.errs| == 1
  {
    match r
    case Ok(v) => Converts(v)
    case Err(e) => Fails({e})
  }

  /** The origin a node reports; the shared constants have the default origin. */
  function OriginOf(v: Value): Origin
  {
    match v
    case VNull(p) => ProvOrigin(p)
    case VBool(p, _) => ProvOrigin(p)
    case VList(p, _) => ProvOrigin(p)
    case VObject(p, _, _) => ProvOrigin(p)
    case _ => v.origin
  }

  function ProvOrigin(p: Prov): Origin
  {
    if p.Shared? then DefaultOrigin else p.origin
  }

  predicate IsShared(v: Value)
  {
    (v.VNull? || v.VBool? || v.VList? || v.VObject?) && v.prov == Shared
  }

  /** Null and boolean leaves: the shared constant only under the default origin. */
  function ProvFor(o: Origin): (p: Prov)
    ensures p == Shared <==> o == DefaultOrigin
    ensures p != Shared ==> p == Fresh(o)
    ensures ProvOrigin(p) == o
  {
    if o != DefaultOrigin then Fresh(o) else Shared
  }

  /** `emptyList`: the shared empty list for the default origin and for a null origin. */
  function EmptyList(o: Origin): (v: Value)
    ensures v.VList? && v.items == []
    ensures IsShared(v) <==> (o == DefaultOrigin || o == NullOrigin)
    ensures !IsShared(v) ==> v.prov == Fresh(o)
  {
    if o == NullOrigin || o == DefaultOrigin then VList(Shared, []) else VList(Fresh(o), [])
  }

  /** The origin the library's empty object takes when it is given no origin. */
  const EmptyConfigOrigin: Origin := Named("empty config")

  /**
   * `emptyObject`: the shared empty object only for the default origin; a
   * null origin gives a fresh empty object whose origin is "empty config".
   */
  function EmptyObject(o: Origin): (v: Value)
    ensures v.VObject? && v.fields == map[] && v.status == FromValues
    ensures IsShared(v) <==> o == DefaultOrigin
    ensures o == NullOrigin ==> v.prov == Fresh(EmptyConfigOrigin)
    ensures !IsShared(v) && o != NullOrigin ==> v.prov == Fresh(o)
  {
    if o == DefaultOrigin then VObject(Shared, map[], FromValues)
    else if o == NullOrigin then VObject(Fresh(EmptyConfigOrigin), map[], FromValues)
    else VObject(Fresh(o), map[], FromValues)
  }

  /** `valueOrigin`: no description means the default origin; the result is never null. */
  function ValueOrigin(description: Option<string>): (o: Origin)
    ensures o != NullOrigin
    ensures o == DefaultOrigin <==> description.None?
    ensures description.Some? ==> o == Named(description.value)
  {
    if description.None? then DefaultOrigin else Named(description.value)
  }
}
