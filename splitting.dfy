/**
 * Java's `String.split` as the tokenizer uses it, for the two patterns it
 * splits on: a plain `.` (reference paths) and `(?<!\$)\$`, a `$` not
 * immediately preceded by another `$` (the string-interpolation split).
 * With limit 0, `split` returns the whole string when the pattern never
 * matches, and otherwise every field with the trailing empty ones removed.
 */
module Splitting {

  datatype Delimiter = Dot | UnescapedDollar

  function DelimiterChar(d: Delimiter): char
  {
    if d == Dot then '.' else '$'
  }

  /** Whether position `i` of `s` is a match of the delimiter's pattern. */
  predicate SplitsAt(d: Delimiter, s: string, i: nat)
    requires i < |s|
  {
    match d
    case Dot => s[i] == '.'
    case UnescapedDollar => s[i] == '$' && (i == 0 || s[i - 1] != '$')
  }

  /** The first split point at or after `from`, or `|s|` if there is none. */
  function NextSplit(d: Delimiter, s: string, from: nat): (j: nat)
    requires from <= |s|
    ensures from <= j <= |s|
    ensures j < |s| ==> SplitsAt(d, s, j)
    ensures forall i :: from <= i < j ==> !SplitsAt(d, s, i)
    decreases |s| - from
  {
    if from == |s| || SplitsAt(d, s, from) then from else NextSplit(d, s, from + 1)
  }

  /** Every field of `s[start..]`, empty ones included. */
  function FieldsFrom(d: Delimiter, s: string, start: nat): (r: seq<string>)
    requires start <= |s|
    decreases |s| - start
  {
    var j := NextSplit(d, s, start);
    if j == |s| then [s[start..]] else [s[start..j]] + FieldsFrom(d, s, j + 1)
  }

  function Fields(d: Delimiter, s: string): seq<string>
  {
    FieldsFrom(d, s, 0)
  }

  function DropTrailingEmpty(f: seq<string>): (r: seq<string>)
    ensures |r| <= |f| && r == f[..|r|]
    ensures forall i :: |r| <= i < |f| ==> f[i] == ""
    ensures r == [] || r[|r| - 1] != ""
  {
    if f != [] && f[|f| - 1] == "" then DropTrailingEmpty(f[..|f| - 1]) else f
  }

  /** `s.split(pattern)` with the default limit 0. */
  function JavaSplit(d: Delimiter, s: string): (r: seq<string>)
    ensures |r| <= |Fields(d, s)| && r == Fields(d, s)[..|r|]
    ensures forall i :: |r| <= i < |Fields(d, s)| ==> Fields(d, s)[i] == ""
    ensures |Fields(d, s)| == 1 ==> r == Fields(d, s)
    ensures |Fields(d, s)| > 1 ==> r == [] || r[|r| - 1] != ""
  {
    var f := Fields(d, s);
    if |f| == 1 then f else DropTrailingEmpty(f)
  }

  /** Joins the parts with `c` between consecutive parts. */
  function JoinWith(parts: seq<string>, c: char): string
  {
    if |parts| == 0 then ""
    else if |parts| == 1 then parts[0]
    else parts[0] + [c] + JoinWith(parts[1..], c)
  }

  predicate HasSplit(d: Delimiter, s: string)
  {
    exists i :: 0 <= i < |s| && SplitsAt(d, s, i)
  }

  // ---------------------------------------------------------------------
  // Properties of the fields

  /** A field, the delimiter and the re-joined remainder give back the string from the field's start. */
  lemma JoinStep(s: string, start: nat, j: nat, rest: seq<string>, c: char)
    requires start <= j < |s| && s[j] == c && |rest| >= 1
    requires JoinWith(rest, c) == s[j + 1..]
    ensures JoinWith([s[start..j]] + rest, c) == s[start..]
  {
    assert ([s[start..j]] + rest)[1..] == rest;
    assert s[start..] == s[start..j] + [s[j]] + s[j + 1..];
  }

  /** One step of the field scan: the field up to the next split point, then the fields after it. */
  lemma FieldsFromStep(d: Delimiter, s: string, start: nat)
    requires start <= |s|
    ensures var j := NextSplit(d, s, start);
      if j == |s| then FieldsFrom(d, s, start) == [s[start..]]
      else s[j] == DelimiterChar(d) && FieldsFrom(d, s, start) == [s[start..j]] + FieldsFrom(d, s, j + 1)
  {
  }

  lemma {:induction false} FieldsFromJoin(d: Delimiter, s: string, start: nat)
    requires start <= |s|
    ensures |FieldsFrom(d, s, start)| >= 1
    ensures JoinWith(FieldsFrom(d, s, start), DelimiterChar(d)) == s[start..]
    decreases |s| - start
  {
    var j := NextSplit(d, s, start);
    FieldsFromStep(d, s, start);
    if j < |s| {
      FieldsFromJoin(d, s, j + 1);
      JoinStep(s, start, j, FieldsFrom(d, s, j + 1), DelimiterChar(d));
    }
  }

  /** Splitting loses nothing: re-joining the fields with the delimiter gives back the string. */
  lemma FieldsJoin(d: Delimiter, s: string)
    ensures |Fields(d, s)| >= 1
    ensures JoinWith(Fields(d, s), DelimiterChar(d)) == s
  {
    FieldsFromJoin(d, s, 0);
  }

  /** `f` sits in `s` at position `b` and holds no split point. */
  predicate PieceAt(d: Delimiter, s: string, f: string, b: nat)
  {
    b + |f| <= |s| && f == s[b..b + |f|] && forall i :: b <= i < b + |f| ==> !SplitsAt(d, s, i)
  }

  /** The first field is the text up to the next split point, a piece of `s`. */
  lemma FieldsFromHead(d: Delimiter, s: string, start: nat)
    requires start <= |s|
    ensures PieceAt(d, s, FieldsFrom(d, s, start)[0], start)
  {
    assert FieldsFrom(d, s, start)[0] == s[start..NextSplit(d, s, start)];
  }

  /** A later field is a field of the text after the first split point. */
  lemma FieldsFromTail(d: Delimiter, s: string, start: nat, k: nat) returns (j: nat)
    requires start <= |s| && 0 < k < |FieldsFrom(d, s, start)|
    ensures start <= j < |s| && SplitsAt(d, s, j)
    ensures k - 1 < |FieldsFrom(d, s, j + 1)| && FieldsFrom(d, s, start)[k] == FieldsFrom(d, s, j + 1)[k - 1]
  {
    j := NextSplit(d, s, start);
    FieldsFromStep(d, s, start);
  }

  /** Each field is a piece of `s` holding no split point, at the start or just after a split point. */
  lemma {:induction false} FieldsFromHaveNoSplit(d: Delimiter, s: string, start: nat, k: nat) returns (b: nat)
    requires start <= |s| && k < |FieldsFrom(d, s, start)|
    ensures start <= b && PieceAt(d, s, FieldsFrom(d, s, start)[k], b)
    ensures b == start || (b > 0 && SplitsAt(d, s, b - 1))
    decreases |s| - start
  {
    if k == 0 {
      FieldsFromHead(d, s, start);
      b := start;
    } else {
      var j := FieldsFromTail(d, s, start, k);
      b := FieldsFromHaveNoSplit(d, s, j + 1, k - 1);
    }
  }

  /** No field of a `.` split contains a dot. */
  lemma DotFieldsHaveNoDot(s: string)
    ensures forall k :: 0 <= k < |Fields(Dot, s)| ==> '.' !in Fields(Dot, s)[k]
  {
    forall k | 0 <= k < |Fields(Dot, s)|
      ensures '.' !in Fields(Dot, s)[k]
    {
      var b := FieldsFromHaveNoSplit(Dot, s, 0, k);
      var f := Fields(Dot, s)[k];
      forall i | 0 <= i < |f| ensures f[i] != '.' {
        assert f[i] == s[b + i];
        assert !SplitsAt(Dot, s, b + i);
      }
    }
  }

  /**
   * In a `$` split, every `$` inside a field follows another `$`, and the
   * first field never starts with `$`: a `$$` pair never starts a new field.
   */
  lemma DollarFieldsKeepEscapes(s: string)
    ensures forall k, i :: 0 <= k < |Fields(UnescapedDollar, s)| && 0 < i < |Fields(UnescapedDollar, s)[k]| ==>
      (Fields(UnescapedDollar, s)[k][i] == '$' ==> Fields(UnescapedDollar, s)[k][i - 1] == '$')
    ensures |Fields(UnescapedDollar, s)[0]| > 0 ==> Fields(UnescapedDollar, s)[0][0] != '$'
  {
    FieldsJoin(UnescapedDollar, s);
    forall k, i | 0 <= k < |Fields(UnescapedDollar, s)| && 0 < i < |Fields(UnescapedDollar, s)[k]| &&
      Fields(UnescapedDollar, s)[k][i] == '$'
      ensures Fields(UnescapedDollar, s)[k][i - 1] == '$'
    {
      var b := FieldsFromHaveNoSplit(UnescapedDollar, s, 0, k);
      var f := Fields(UnescapedDollar, s)[k];
      assert f[i] == s[b + i] && f[i - 1] == s[b + i - 1];
      assert !SplitsAt(UnescapedDollar, s, b + i);
    }
    var j := NextSplit(UnescapedDollar, s, 0);
    var f := Fields(UnescapedDollar, s)[0];
    assert f == s[..j];
    if |f| > 0 {
      assert f[0] == s[0];
      assert !SplitsAt(UnescapedDollar, s, 0);
    }
  }

  /**
   * A split is the only way to cut `s` into delimiter-free parts joined by the
   * delimiter; for the `$` pattern, a middle part must not be empty (two
   * consecutive `$` are an escape, not two delimiters).
   */
  lemma SplitUnique(d: Delimiter, parts: seq<string>, s: string)
    requires |parts| >= 1
    requires forall k :: 0 <= k < |parts| ==> DelimiterChar(d) !in parts[k]
    requires d == UnescapedDollar ==> forall k :: 1 <= k < |parts| - 1 ==> parts[k] != ""
    requires JoinWith(parts, DelimiterChar(d)) == s
    ensures Fields(d, s) == parts
  {
    SplitUniqueFrom(d, parts, s, 0);
  }

  lemma {:induction false} SplitUniqueFrom(d: Delimiter, parts: seq<string>, s: string, start: nat)
    requires |parts| >= 1 && start <= |s|
    requires forall k :: 0 <= k < |parts| ==> DelimiterChar(d) !in parts[k]
    requires d == UnescapedDollar ==> forall k :: 1 <= k < |parts| - 1 ==> parts[k] != ""
    requires d == UnescapedDollar && |parts| >= 2 && parts[0] == "" ==> start == 0
    requires JoinWith(parts, DelimiterChar(d)) == s[start..]
    ensures FieldsFrom(d, s, start) == parts
    decreases |parts|
  {
    var c := DelimiterChar(d);
    var p := parts[0];
    if |parts| == 1 {
      assert s[start..] == p;
      NoSplitIn(d, s, start, |s|);
      NextSplitIs(d, s, start, |s|);
    } else {
      var j := start + |p|;
      FirstSplit(d, parts, s, start);
      var tail := parts[1..];
      assert forall k :: 0 <= k < |tail| ==> tail[k] == parts[k + 1];
      SplitUniqueFrom(d, tail, s, j + 1);
    }
  }

  /** The first part of a join ends at the first split point. */
  lemma FirstSplit(d: Delimiter, parts: seq<string>, s: string, start: nat)
    requires |parts| >= 2 && start <= |s|
    requires DelimiterChar(d) !in parts[0]
    requires d == UnescapedDollar && parts[0] == "" ==> start == 0
    requires JoinWith(parts, DelimiterChar(d)) == s[start..]
    ensures start + |parts[0]| < |s|
    ensures NextSplit(d, s, start) == start + |parts[0]|
    ensures s[start..start + |parts[0]|] == parts[0]
    ensures s[start + |parts[0]| + 1..] == JoinWith(parts[1..], DelimiterChar(d))
  {
    var c := DelimiterChar(d);
    var p := parts[0];
    var rest := JoinWith(parts[1..], c);
    var j := start + |p|;
    assert s[start..] == p + [c] + rest;
    assert s[start..j] == p && s[j] == c && s[j + 1..] == rest;
    NoSplitIn(d, s, start, j);
    if d == UnescapedDollar && j > 0 {
      assert s[j - 1] == p[|p| - 1];
    }
    assert SplitsAt(d, s, j);
    NextSplitIs(d, s, start, j);
  }

  /** A stretch of `s` without the delimiter character holds no split point. */
  lemma NoSplitIn(d: Delimiter, s: string, from: nat, to: nat)
    requires from <= to <= |s| && DelimiterChar(d) !in s[from..to]
    ensures forall i :: from <= i < to ==> !SplitsAt(d, s, i)
  {
    forall i | from <= i < to ensures !SplitsAt(d, s, i) {
      assert s[i] == s[from..to][i - from];
    }
  }

  /** The last field is empty exactly when `s` ends at a split point (or is empty). */
  lemma {:induction false} LastFieldFrom(d: Delimiter, s: string, start: nat)
    requires start <= |s|
    ensures var f := FieldsFrom(d, s, start);
      |f| >= 1 && (f[|f| - 1] == "" ==> start == |s| || SplitsAt(d, s, |s| - 1))
    decreases |s| - start
  {
    var j := NextSplit(d, s, start);
    if j < |s| {
      LastFieldFrom(d, s, j + 1);
      if j + 1 == |s| {
        assert SplitsAt(d, s, |s| - 1);
      }
    }
  }

  /** Without a split point there is exactly one field: the whole string. */
  lemma NoSplitOneField(d: Delimiter, s: string)
    requires !HasSplit(d, s)
    ensures Fields(d, s) == [s] && JavaSplit(d, s) == [s]
  {
    assert NextSplit(d, s, 0) == |s|;
  }

  /** A dot-free string splits to itself. */
  lemma NoDotSplit(s: string)
    requires '.' !in s
    ensures JavaSplit(Dot, s) == [s]
  {
    assert forall i :: 0 <= i < |s| ==> s[i] != '.';
    NoSplitOneField(Dot, s);
  }

  /** A `.` split of a string that does not end in `.` loses nothing. */
  lemma DotSplitJoin(s: string)
    requires s == [] || s[|s| - 1] != '.'
    ensures JavaSplit(Dot, s) == Fields(Dot, s)
    ensures JoinWith(JavaSplit(Dot, s), '.') == s
  {
    LastFieldFrom(Dot, s, 0);
    FieldsJoin(Dot, s);
  }

  /** The next split point is the first position that is one. */
  lemma {:induction false} NextSplitIs(d: Delimiter, s: string, from: nat, to: nat)
    requires from <= to <= |s|
    requires forall i :: from <= i < to ==> !SplitsAt(d, s, i)
    requires to < |s| ==> SplitsAt(d, s, to)
    ensures NextSplit(d, s, from) == to
    decreases |s| - from
  {
    if from < to {
      NextSplitIs(d, s, from + 1, to);
    }
  }
}
