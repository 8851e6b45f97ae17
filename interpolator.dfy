/**
 * The string-interpolation tokenizer of YamlParser.java (`fromString` and
 * `fromStringPiece`): a raw string scalar becomes a quoted string, a `${path}`
 * reference, or a concatenation of literal and reference pieces.
 */
module Interpolator {
  import opened ConfigValues
  import opened Splitting

  /** `s.indexOf(c)`: the first position of `c`, if any. */
  function IndexOf(s: string, c: char): (r: Option<nat>)
    ensures r.None? <==> c !in s
    ensures r.Some? ==> r.value < |s| && s[r.value] == c && c !in s[..r.value]
  {
    if |s| == 0 then None
    else if s[0] == c then Some(0)
    else match IndexOf(s[1..], c)
      case None => None
      case Some(i) => assert s[1..][..i] == s[1..i + 1]; Some(i + 1)
  }

  /** The first occurrence determines `indexOf`. */
  lemma {:induction false} IndexOfIs(s: string, c: char, m: nat)
    requires m < |s| && s[m] == c && c !in s[..m]
    ensures IndexOf(s, c) == Some(m)
  {
    if m > 0 {
      assert s[0] == s[..m][0];
      assert s[1..][..m - 1] == s[..m][1..];
      IndexOfIs(s[1..], c, m - 1);
    }
  }

  /** `fromStringPiece`: one field of the `$` split becomes zero, one or two pieces. */
  function FromStringPiece(o: Origin, f: string): (r: Result<seq<Value>>)
    ensures r.Err? <==> Unterminated(f)
    ensures r.Err? ==> r.error == Parse
    ensures r.Ok? ==> |r.value| <= 2 && (|r.value| == 0 <==> f == "")
    ensures r.Ok? && f != "" && f[0] != '{' ==> r.value == [VString(o, f)]
  {
    if |f| == 0 then Ok([])
    else if f[0] == '$' || f[0] != '{' then Ok([VString(o, f)])
    else match IndexOf(f, '}')
      case None => Err(Parse)
      case Some(index) =>
        var reference := VRef(o, JavaSplit(Dot, f[1..index]));
        if index == |f| - 1 then Ok([reference])
        else Ok([reference, VString(o, f[index + 1..])])
  }

  /**
   * A field that opens `{` and closes it at position `i`: the reference to
   * the text in between split on `.`, then the rest of the field, if any,
   * as one literal.
   */
  lemma RefPiece(o: Origin, f: string, i: nat)
    requires |f| > 0 && f[0] == '{' && i < |f| && f[i] == '}' && '}' !in f[..i]
    ensures FromStringPiece(o, f) ==
      Ok([VRef(o, JavaSplit(Dot, f[1..i]))] + (if i == |f| - 1 then [] else [VString(o, f[i + 1..])]))
  {
    IndexOfIs(f, '}', i);
    if i == |f| - 1 {
      assert [VRef(o, JavaSplit(Dot, f[1..i]))] + [] == [VRef(o, JavaSplit(Dot, f[1..i]))];
    } else {
      var reference := VRef(o, JavaSplit(Dot, f[1..i]));
      assert FromStringPiece(o, f) == Ok([reference, VString(o, f[i + 1..])]);
      assert [reference] + [VString(o, f[i + 1..])] == [reference, VString(o, f[i + 1..])];
    }
  }

  /** A field that opens a substitution and never closes it. */
  predicate Unterminated(f: string)
  {
    |f| > 0 && f[0] == '{' && '}' !in f
  }

  /** The stream `flatMap` of `fromStringPiece` over the fields, collected in order. */
  function PiecesOf(o: Origin, fields: seq<string>): (r: Result<seq<Value>>)
    ensures r.Err? <==> exists k :: 0 <= k < |fields| && Unterminated(fields[k])
    ensures r.Err? ==> r.error == Parse
  {
    if fields == [] then Ok([])
    else match FromStringPiece(o, fields[0])
      case Err(e) => Err(e)
      case Ok(first) =>
        match PiecesOf(o, fields[1..])
        case Err(e) => assert fields[1..][0] == fields[1]; Err(e)
        case Ok(rest) =>
          assert forall k :: 1 <= k < |fields| ==> fields[k] == fields[1..][k - 1];
          Ok(first + rest)
  }

  /** The pieces of a field list are those of its first field followed by those of the rest. */
  lemma PiecesOfCons(o: Origin, f: string, rest: seq<string>)
    requires FromStringPiece(o, f).Ok? && PiecesOf(o, rest).Ok?
    ensures PiecesOf(o, [f] + rest) == Ok(FromStringPiece(o, f).value + PiecesOf(o, rest).value)
  {
    assert ([f] + rest)[1..] == rest;
  }

  /** The pieces of two field lists one after the other are the pieces of each, in order. */
  lemma {:induction false} PiecesOfAppend(o: Origin, a: seq<string>, b: seq<string>)
    requires PiecesOf(o, a).Ok? && PiecesOf(o, b).Ok?
    ensures PiecesOf(o, a + b) == Ok(PiecesOf(o, a).value + PiecesOf(o, b).value)
  {
    if a == [] {
      assert a + b == b;
      assert PiecesOf(o, a).value == [];
      assert PiecesOf(o, a).value + PiecesOf(o, b).value == PiecesOf(o, b).value;
    } else {
      var first := FromStringPiece(o, a[0]);
      assert first.Ok? && PiecesOf(o, a[1..]).Ok?;
      assert PiecesOf(o, a).value == first.value + PiecesOf(o, a[1..]).value;
      PiecesOfAppend(o, a[1..], b);
      assert (a + b)[1..] == a[1..] + b;
      assert (a + b)[0] == a[0];
      assert PiecesOf(o, a + b) == Ok(first.value + PiecesOf(o, a[1..] + b).value);
      assert first.value + (PiecesOf(o, a[1..]).value + PiecesOf(o, b).value)
        == (first.value + PiecesOf(o, a[1..]).value) + PiecesOf(o, b).value;
    }
  }

  /** `fromString`. */
  function FromString(o: Origin, s: string): Result<Value>
  {
    if '$' !in s then Ok(VString(o, s))
    else match PiecesOf(o, JavaSplit(UnescapedDollar, s))
      case Err(e) => Err(e)
      case Ok(pieces) => if |pieces| == 1 then Ok(pieces[0]) else Ok(VConcat(o, pieces))
  }

  // ---------------------------------------------------------------------
  // Properties

  /** A string without `$` is a single quoted string equal to the input. */
  lemma NoDollarIsLiteral(o: Origin, s: string)
    requires '$' !in s
    ensures FromString(o, s) == Ok(VString(o, s))
  {
  }

  /** Tokenizing fails exactly when some field opens `{` without a `}`, and then with a Parse error. */
  lemma FromStringFails(o: Origin, s: string)
    ensures FromString(o, s).Err? <==>
      '$' in s && exists k :: 0 <= k < |JavaSplit(UnescapedDollar, s)| && Unterminated(JavaSplit(UnescapedDollar, s)[k])
    ensures FromString(o, s).Err? ==> FromString(o, s).error == Parse
  {
  }

  /** A literal or reference piece carrying origin `o`. */
  predicate SimplePiece(v: Value, o: Origin)
  {
    (v.VString? || v.VRef?) && v.origin == o
  }

  lemma {:induction false} PiecesAreSimple(o: Origin, fields: seq<string>)
    requires PiecesOf(o, fields).Ok?
    ensures forall p :: p in PiecesOf(o, fields).value ==> SimplePiece(p, o)
  {
    if fields != [] {
      PiecesAreSimple(o, fields[1..]);
    }
  }

  /**
   * Every piece carries the given origin, and a concatenation is never nested:
   * the result is one literal or reference, or a concatenation of them.
   */
  lemma FromStringShape(o: Origin, s: string)
    requires FromString(o, s).Ok?
    ensures var v := FromString(o, s).value;
      SimplePiece(v, o) || (v.VConcat? && v.origin == o && |v.pieces| != 1 &&
        forall p :: p in v.pieces ==> SimplePiece(p, o))
  {
    if '$' in s {
      PiecesAreSimple(o, JavaSplit(UnescapedDollar, s));
    }
  }

  /** No character `x` other than the separator appears in a join unless it is in some part. */
  lemma {:induction false} JoinAvoids(parts: seq<string>, c: char, x: char)
    requires x != c
    requires forall k :: 0 <= k < |parts| ==> x !in parts[k]
    ensures x !in JoinWith(parts, c)
  {
    if |parts| > 1 {
      JoinAvoids(parts[1..], c, x);
    }
  }

  // ---------------------------------------------------------------------
  // Templates: the strings the tokenizer reads back faithfully

  /** A substitution `${path}` followed by the literal text up to the next one. */
  datatype Substitution = Substitution(path: seq<string>, tail: string)

  /** A literal lead followed by substitutions. */
  datatype Template = Template(lead: string, subs: seq<Substitution>)

  /** A path whose dotted text splits back into it: non-empty segments free of `.`, `}` and `$`. */
  predicate PlainPath(path: seq<string>)
  {
    |path| >= 1 && forall k :: 0 <= k < |path| ==> path[k] != "" && '.' !in path[k] && '}' !in path[k] && '$' !in path[k]
  }

  predicate WellFormed(t: Template)
  {
    '$' !in t.lead && (t.lead == "" || t.lead[0] != '{') &&
    forall k :: 0 <= k < |t.subs| ==> PlainPath(t.subs[k].path) && '$' !in t.subs[k].tail
  }

  /** A substitution without its `$`: the field the `$` split yields for it. */
  function Body(sub: Substitution): string
  {
    "{" + JoinWith(sub.path, '.') + "}" + sub.tail
  }

  function Bodies(subs: seq<Substitution>): (r: seq<string>)
    ensures |r| == |subs| && forall k :: 0 <= k < |subs| ==> r[k] == Body(subs[k])
  {
    if subs == [] then [] else [Body(subs[0])] + Bodies(subs[1..])
  }

  /** The template as text: `lead${a.b}tail1${c}tail2...`. */
  function Render(t: Template): string
  {
    JoinWith([t.lead] + Bodies(t.subs), '$')
  }

  function LeadPieces(o: Origin, lead: string): seq<Value>
  {
    if lead == "" then [] else [VString(o, lead)]
  }

  function SubPieces(o: Origin, subs: seq<Substitution>): (r: seq<Value>)
    ensures |r| >= |subs|
  {
    if subs == [] then []
    else [VRef(o, subs[0].path)] + LeadPieces(o, subs[0].tail) + SubPieces(o, subs[1..])
  }

  /** The value a template stands for. */
  function Meaning(o: Origin, t: Template): Value
  {
    if t.subs == [] then VString(o, t.lead)
    else
      var ps := LeadPieces(o, t.lead) + SubPieces(o, t.subs);
      if |ps| == 1 then ps[0] else VConcat(o, ps)
  }

  /** A plain path's dotted text splits back into the path. */
  lemma PlainPathSplit(path: seq<string>)
    requires PlainPath(path)
    ensures JavaSplit(Dot, JoinWith(path, '.')) == path
  {
    SplitUnique(Dot, path, JoinWith(path, '.'));
  }

  /** The field of one substitution reads back as its reference and its tail. */
  lemma BodyPieces(o: Origin, sub: Substitution)
    requires PlainPath(sub.path)
    ensures FromStringPiece(o, Body(sub)) == Ok([VRef(o, sub.path)] + LeadPieces(o, sub.tail))
  {
    var text := JoinWith(sub.path, '.');
    var f := Body(sub);
    var m := |text| + 1;
    JoinAvoids(sub.path, '.', '}');
    assert f[m] == '}';
    assert f[..m] == "{" + text;
    IndexOfIs(f, '}', m);
    var index := m;
    assert f[1..index] == text;
    PlainPathSplit(sub.path);
    assert f[index + 1..] == sub.tail;
    assert f[0] == '{' && |f| == index + 1 + |sub.tail|;
    if sub.tail == "" {
      assert FromStringPiece(o, f) == Ok([VRef(o, sub.path)]);
      assert [VRef(o, sub.path)] + LeadPieces(o, sub.tail) == [VRef(o, sub.path)];
    } else {
      assert FromStringPiece(o, f) == Ok([VRef(o, sub.path), VString(o, sub.tail)]);
      assert [VRef(o, sub.path)] + LeadPieces(o, sub.tail) == [VRef(o, sub.path), VString(o, sub.tail)];
    }
  }

  lemma {:induction false} BodiesPieces(o: Origin, subs: seq<Substitution>)
    requires forall k :: 0 <= k < |subs| ==> PlainPath(subs[k].path)
    ensures PiecesOf(o, Bodies(subs)) == Ok(SubPieces(o, subs))
  {
    if subs != [] {
      BodyPieces(o, subs[0]);
      BodiesPieces(o, subs[1..]);
      assert Bodies(subs)[1..] == Bodies(subs[1..]);
    }
  }

  /**
   * The tokenizer reads a well-formed template back: its literals as quoted
   * strings and its substitutions as references, in order, with one piece
   * left bare and several wrapped in a concatenation.
   */
  lemma TemplateRoundTrip(o: Origin, t: Template)
    requires WellFormed(t)
    ensures FromString(o, Render(t)) == Ok(Meaning(o, t))
  {
    var parts := [t.lead] + Bodies(t.subs);
    var s := Render(t);
    if t.subs == [] {
      NoDollarIsLiteral(o, s);
    } else {
      forall k | 1 <= k < |parts| ensures '$' !in parts[k] && parts[k] != "" {
        var sub := t.subs[k - 1];
        JoinAvoids(sub.path, '.', '$');
        assert parts[k] == Body(sub);
        assert parts[k][0] == '{';
      }
      SplitUnique(UnescapedDollar, parts, s);
      assert s == t.lead + "$" + JoinWith(parts[1..], '$');
      assert '$' in s by { assert s[|t.lead|] == '$'; }
      assert JavaSplit(UnescapedDollar, s) == parts;
      BodiesPieces(o, t.subs);
      assert parts[1..] == Bodies(t.subs);
    }
  }

  /**
   * `$$` escapes a dollar sign: the leading `$` is a split point that leaves an
   * empty first field, and the second stays in the literal.
   */
  lemma EscapedDollar(o: Origin, rest: string)
    requires '$' !in rest
    ensures FromString(o, "$$" + rest) == Ok(VString(o, "$" + rest))
  {
    var s := "$$" + rest;
    var d := UnescapedDollar;
    assert s[0] == '$' && s[1] == '$' && s[2..] == rest;
    NextSplitIs(d, s, 0, 0);
    NoSplitIn(d, s, 2, |s|);
    NextSplitIs(d, s, 1, |s|);
    assert FieldsFrom(d, s, 1) == [s[1..]];
    assert s[1..] == "$" + rest;
    assert Fields(d, s) == ["", "$" + rest];
    assert JavaSplit(d, s) == ["", "$" + rest];
    assert FromStringPiece(o, "") == Ok([]);
    assert FromStringPiece(o, "$" + rest) == Ok([VString(o, "$" + rest)]);
    PiecesOfCons(o, "$" + rest, []);
    assert ["$" + rest] == ["$" + rest] + [];
    PiecesOfCons(o, "", ["$" + rest]);
    assert ["", "$" + rest] == [""] + ["$" + rest];
  }

  /** A lone `$` between two literals is consumed: the result is the two literals. */
  lemma LoneDollar(o: Origin, a: string, b: string)
    requires a != "" && b != "" && '$' !in a && '$' !in b && a[0] != '{' && b[0] != '{'
    ensures FromString(o, a + "$" + b) == Ok(VConcat(o, [VString(o, a), VString(o, b)]))
  {
    var s := a + "$" + b;
    SplitUnique(UnescapedDollar, [a, b], s);
    assert s[|a|] == '$';
    assert JavaSplit(UnescapedDollar, s) == [a, b];
    assert [a, b][1..] == [b];
    PiecesOfCons(o, b, []);
    assert [b] == [b] + [];
    PiecesOfCons(o, a, [b]);
    assert [a, b] == [a] + [b];
    assert [VString(o, a)] + ([VString(o, b)] + []) == [VString(o, a), VString(o, b)];
    assert '$' in s;
  }

  /**
   * The text before the first split point is read like any other field, so a
   * leading `{...}` is a substitution although no `$` introduces it; a
   * trailing `$` leaves an empty field that the split drops.
   */
  lemma LeadingBrace(o: Origin, path: seq<string>)
    requires PlainPath(path)
    ensures FromString(o, "{" + JoinWith(path, '.') + "}$") == Ok(VRef(o, path))
  {
    var sub := Substitution(path, "");
    var body := Body(sub);
    var s := body + "$";
    assert s == "{" + JoinWith(path, '.') + "}$";
    JoinAvoids(path, '.', '$');
    assert body[0] == '{';
    SplitUnique(UnescapedDollar, [body, ""], s);
    assert s[|body|] == '$';
    assert DropTrailingEmpty([body, ""]) == DropTrailingEmpty([body]);
    assert JavaSplit(UnescapedDollar, s) == [body];
    BodyPieces(o, sub);
    assert LeadPieces(o, "") == [];
    PiecesOfCons(o, body, []);
    assert [body] == [body] + [];
  }

  // ---------------------------------------------------------------------
  // The samples of the tokenizer's tests, as instances of the lemmas above

  lemma SampleLiteral(o: Origin)
    ensures FromString(o, "foo") == Ok(VString(o, "foo"))
  {
  }

  lemma SampleReference(o: Origin)
    ensures FromString(o, "${foo}") == Ok(VRef(o, ["foo"]))
  {
    var sub := Substitution(["foo"], "");
    var t := Template("", [sub]);
    assert JoinWith(["foo"], '.') == "foo";
    assert Body(sub) == "{foo}";
    assert Bodies([sub]) == ["{foo}"];
    assert JoinWith(["", "{foo}"], '$') == "${foo}";
    assert SubPieces(o, [sub]) == [VRef(o, ["foo"])] + [] + SubPieces(o, []);
    assert LeadPieces(o, "") + SubPieces(o, [sub]) == [VRef(o, ["foo"])];
    TemplateRoundTrip(o, t);
  }

  lemma SampleEscape(o: Origin)
    ensures FromString(o, "$${foo}") == Ok(VString(o, "${foo}"))
  {
    EscapedDollar(o, "{foo}");
    assert "$$" + "{foo}" == "$${foo}" && "$" + "{foo}" == "${foo}";
  }

  lemma SampleDottedReference(o: Origin)
    ensures FromString(o, "${foo.bar}") == Ok(VRef(o, ["foo", "bar"]))
  {
    var sub := Substitution(["foo", "bar"], "");
    var t := Template("", [sub]);
    assert JoinWith(["foo", "bar"], '.') == "foo.bar";
    assert Body(sub) == "{foo.bar}";
    assert Bodies([sub]) == ["{foo.bar}"];
    assert JoinWith(["", "{foo.bar}"], '$') == "${foo.bar}";
    assert SubPieces(o, [sub]) == [VRef(o, ["foo", "bar"])] + [] + SubPieces(o, []);
    assert LeadPieces(o, "") + SubPieces(o, [sub]) == [VRef(o, ["foo", "bar"])];
    TemplateRoundTrip(o, t);
  }

  lemma SampleReferenceThenLiteral(o: Origin)
    ensures FromString(o, "${foo}aaa") == Ok(VConcat(o, [VRef(o, ["foo"]), VString(o, "aaa")]))
  {
    var sub := Substitution(["foo"], "aaa");
    var t := Template("", [sub]);
    assert JoinWith(["foo"], '.') == "foo";
    assert Body(sub) == "{foo}aaa";
    assert Bodies([sub]) == ["{foo}aaa"];
    assert JoinWith(["", "{foo}aaa"], '$') == "${foo}aaa";
    assert SubPieces(o, [sub]) == [VRef(o, ["foo"])] + [VString(o, "aaa")] + SubPieces(o, []);
    assert LeadPieces(o, "") + SubPieces(o, [sub]) == [VRef(o, ["foo"]), VString(o, "aaa")];
    TemplateRoundTrip(o, t);
  }

  /** `a${foo}aa${bar}aaa${baz}` as a template. */
  function SixFragments(): Template
  {
    Template("a", [Substitution(["foo"], "aa"), Substitution(["bar"], "aaa"), Substitution(["baz"], "")])
  }

  lemma SixFragmentsBodies()
    ensures Bodies(SixFragments().subs) == ["{foo}aa", "{bar}aaa", "{baz}"]
  {
    var t := SixFragments();
    assert JoinWith(["foo"], '.') == "foo" && JoinWith(["bar"], '.') == "bar" && JoinWith(["baz"], '.') == "baz";
    assert Body(t.subs[0]) == "{foo}aa" && Body(t.subs[1]) == "{bar}aaa" && Body(t.subs[2]) == "{baz}";
  }

  lemma SixFragmentsRender()
    ensures Render(SixFragments()) == "a${foo}aa${bar}aaa${baz}"
  {
    SixFragmentsBodies();
    SixFragmentsJoin();
  }

  lemma SixFragmentsJoin()
    ensures JoinWith(["a", "{foo}aa", "{bar}aaa", "{baz}"], '$') == "a${foo}aa${bar}aaa${baz}"
  {
    SixFragmentsJoinTail();
    JoinCons("a", ["{foo}aa", "{bar}aaa", "{baz}"], '$');
  }

  lemma SixFragmentsJoinTail()
    ensures JoinWith(["{foo}aa", "{bar}aaa", "{baz}"], '$') == "{foo}aa${bar}aaa${baz}"
  {
    JoinCons("{bar}aaa", ["{baz}"], '$');
    JoinCons("{foo}aa", ["{bar}aaa", "{baz}"], '$');
  }

  /** Joining one more leading part puts the separator after it. */
  lemma JoinCons(a: string, rest: seq<string>, c: char)
    requires |rest| > 0
    ensures JoinWith([a] + rest, c) == a + [c] + JoinWith(rest, c)
  {
    assert ([a] + rest)[1..] == rest;
  }

  lemma SixFragmentsPieces(o: Origin)
    ensures SubPieces(o, SixFragments().subs) ==
      [VRef(o, ["foo"]), VString(o, "aa"), VRef(o, ["bar"]), VString(o, "aaa"), VRef(o, ["baz"])]
  {
    var subs := SixFragments().subs;
    assert subs[1..][1..][1..] == [];
    assert SubPieces(o, subs[1..][1..]) == [VRef(o, ["baz"])];
    assert SubPieces(o, subs[1..]) == [VRef(o, ["bar"]), VString(o, "aaa"), VRef(o, ["baz"])];
  }

  lemma SixFragmentsMeaning(o: Origin)
    ensures Meaning(o, SixFragments()) == VConcat(o, [
      VString(o, "a"), VRef(o, ["foo"]), VString(o, "aa"),
      VRef(o, ["bar"]), VString(o, "aaa"), VRef(o, ["baz"])])
  {
    SixFragmentsPieces(o);
  }

  lemma SixFragmentsWellFormed()
    ensures WellFormed(SixFragments())
  {
    var subs := SixFragments().subs;
    assert PlainPath(subs[0].path) && '$' !in subs[0].tail;
    assert PlainPath(subs[1].path) && '$' !in subs[1].tail;
    assert PlainPath(subs[2].path) && '$' !in subs[2].tail;
  }

  lemma SampleSixFragments(o: Origin)
    ensures FromString(o, "a${foo}aa${bar}aaa${baz}") == Ok(VConcat(o, [
      VString(o, "a"), VRef(o, ["foo"]), VString(o, "aa"),
      VRef(o, ["bar"]), VString(o, "aaa"), VRef(o, ["baz"])]))
  {
    SixFragmentsRender();
    SixFragmentsWellFormed();
    SixFragmentsMeaning(o);
    TemplateRoundTrip(o, SixFragments());
  }

  lemma SampleLiteralThenReference(o: Origin)
    ensures FromString(o, "aaa${foo.bar}") == Ok(VConcat(o, [VString(o, "aaa"), VRef(o, ["foo", "bar"])]))
  {
    var sub := Substitution(["foo", "bar"], "");
    var t := Template("aaa", [sub]);
    assert JoinWith(["foo", "bar"], '.') == "foo.bar";
    assert Body(sub) == "{foo.bar}";
    assert Bodies([sub]) == ["{foo.bar}"];
    assert JoinWith(["aaa", "{foo.bar}"], '$') == "aaa${foo.bar}";
    assert SubPieces(o, [sub]) == [VRef(o, ["foo", "bar"])] + [] + SubPieces(o, []);
    assert LeadPieces(o, "aaa") + SubPieces(o, [sub]) == [VString(o, "aaa"), VRef(o, ["foo", "bar"])];
    TemplateRoundTrip(o, t);
  }
}
