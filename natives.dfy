/**
 * The already-parsed values `fromAnyRef` accepts (what a YAML loader hands
 * over): null, config values, booleans, strings, the numeric classes,
 * durations, maps, iterables, memory sizes, and anything else.
 */
module Natives {
  import opened ConfigValues

  /** How map keys are read: as plain keys, or as path expressions. */
  datatype MapMode = KeysAreKeys | KeysArePaths

  /** A map key: a Java `String`, or any other object. */
  datatype Key = StrKey(s: string) | OtherKey(description: string)

  datatype Native =
    | NNull
    | NConfig(value: Value)              // already an AbstractConfigValue
    | NBool(b: bool)
    | NString(s: string)
    | NDouble(d: Float64)
    | NInt(i: Int32)
    | NLong(l: Int64)
    | NOtherNumber(asDouble: Float64)    // any other Number, by its doubleValue()
    | NDuration(millis: Int64)           // a Duration, by its toMillis()
    | NMap(entries: map<Key, Native>)
    | NList(items: seq<Native>)          // an Iterable, in iteration order
    | NMemorySize(bytes: Int64)          // a ConfigMemorySize, by its toBytes()
    | NOther(description: string)

  // ---------------------------------------------------------------------
  // Nesting height, the termination measure of the conversion methods

  ghost function MaxOf(s: set<nat>): (r: nat)
    ensures forall x :: x in s ==> x <= r
    ensures s == {} || r in s
  {
    if s == {} then 0
    else
      var e :| e in s;
      var rest := MaxOf(s - {e});
      assert forall x :: x in s ==> x == e || x in s - {e};
      if e < rest then rest else e
  }

  lemma MaxOfMono(a: set<nat>, b: set<nat>)
    requires a <= b
    ensures MaxOf(a) <= MaxOf(b)
  {
  }

  ghost function Height(x: Native): nat
  {
    match x
    case NMap(m) => 1 + MaxOf(set v | v in m.Values :: Height(v))
    case NList(items) => 1 + MaxOf(set i | 0 <= i < |items| :: Height(items[i]))
    case _ => 0
  }

  /** One more than the height of the tallest value of `m`. */
  ghost function MapBound<K>(m: map<K, Native>): nat
  {
    1 + MaxOf(set v | v in m.Values :: Height(v))
  }

  lemma BelowMapBound<K>(m: map<K, Native>, k: K)
    requires k in m
    ensures Height(m[k]) < MapBound(m)
  {
    var s := set v | v in m.Values :: Height(v);
    assert MapBound(m) == 1 + MaxOf(s);
    assert m[k] in m.Values;
    assert Height(m[k]) in s;
  }

  lemma MapBoundOfMap(m: map<Key, Native>)
    ensures Height(NMap(m)) == MapBound(m)
  {
  }

  /** A map whose values are among those of `m` is no taller. */
  lemma MapBoundMono<J, K>(small: map<J, Native>, big: map<K, Native>)
    requires small.Values <= big.Values
    ensures MapBound(small) <= MapBound(big)
  {
    MaxOfMono(set v | v in small.Values :: Height(v), set v | v in big.Values :: Height(v));
  }

  lemma BelowList(items: seq<Native>, i: nat)
    requires i < |items|
    ensures Height(items[i]) < Height(NList(items))
  {
    var s := set j | 0 <= j < |items| :: Height(items[j]);
    assert Height(NList(items)) == 1 + MaxOf(s);
    assert Height(items[i]) in s;
  }
}
