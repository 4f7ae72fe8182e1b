/**
 * JavaScript strings as the application sees them: sequences of UTF-16 code
 * units, so that `|s|` is the string's `.length`.  This module holds the three
 * string operations the submission workflow relies on: `String.prototype.trim`,
 * `Array.prototype.join` with a one-unit separator and, as the inverse used to
 * state what `join` does, `String.prototype.split` with a one-unit separator.
 */
module JsText {

  /** One UTF-16 code unit. */
  newtype CodeUnit = x: int | 0 <= x < 0x1_0000

  type JsString = seq<CodeUnit>

  /**
   * The code units of a string literal.  Every literal of the application is
   * in the Basic Multilingual Plane, where one character is one code unit;
   * a character outside it, which would take two, is replaced by U+FFFD.
   */
  function Units(s: string): (r: JsString)
    ensures |r| == |s|
    ensures forall i :: 0 <= i < |s| && s[i] as int < 0x1_0000 ==> r[i] as int == s[i] as int
  {
    seq(|s|, i requires 0 <= i < |s| => if s[i] as int < 0x1_0000 then s[i] as int as CodeUnit else 0xFFFD)
  }

  /**
   * The code units ECMAScript counts as WhiteSpace or LineTerminator: the set
   * that both `trim` removes and the regular-expression class `\s` matches.
   */
  const Whitespace: set<CodeUnit> := {
    0x09, 0x0A, 0x0B, 0x0C, 0x0D, 0x20, 0xA0, 0x1680,
    0x2000, 0x2001, 0x2002, 0x2003, 0x2004, 0x2005, 0x2006, 0x2007, 0x2008, 0x2009, 0x200A,
    0x2028, 0x2029, 0x202F, 0x205F, 0x3000, 0xFEFF
  }

  predicate IsWhitespace(u: CodeUnit) {
    u in Whitespace
  }

  predicate AllWhitespace(s: JsString) {
    forall i :: 0 <= i < |s| ==> IsWhitespace(s[i])
  }

  predicate StartsWith(s: JsString, prefix: JsString) {
    |prefix| <= |s| && s[..|prefix|] == prefix
  }

  /** The index of the first code unit at or after `i` that is not whitespace, or `|s|`. */
  function SkipWhitespace(s: JsString, i: nat): (k: nat)
    requires i <= |s|
    ensures i <= k <= |s|
    ensures forall j :: i <= j < k ==> IsWhitespace(s[j])
    ensures k < |s| ==> !IsWhitespace(s[k])
    decreases |s| - i
  {
    if i < |s| && IsWhitespace(s[i]) then SkipWhitespace(s, i + 1) else i
  }

  /**
   * The end of the last code unit before `j` (and at or after `lo`) that is
   * not whitespace, or `lo` when there is none.
   */
  function BackOverWhitespace(s: JsString, lo: nat, j: nat): (e: nat)
    requires lo <= j <= |s|
    ensures lo <= e <= j
    ensures forall m :: e <= m < j ==> IsWhitespace(s[m])
    ensures e > lo ==> !IsWhitespace(s[e - 1])
    decreases j
  {
    if lo < j && IsWhitespace(s[j - 1]) then BackOverWhitespace(s, lo, j - 1) else j
  }

  /**
   * `String.prototype.trim`: the part of `s` between its leading and its
   * trailing whitespace.
   */
  function Trim(s: JsString): (r: JsString)
    ensures |r| <= |s|
    ensures r != [] ==> !IsWhitespace(r[0]) && !IsWhitespace(r[|r| - 1])
    ensures r == [] <==> AllWhitespace(s)
  {
    var k := SkipWhitespace(s, 0);
    var e := BackOverWhitespace(s, k, |s|);
    assert AllWhitespace(s) ==> k == |s|;
    s[k..e]
  }

  /** `s` is the whitespace `trim` removed in front, `Trim(s)`, and the whitespace it removed behind. */
  lemma TrimSplits(s: JsString)
    ensures var k := SkipWhitespace(s, 0); var e := BackOverWhitespace(s, k, |s|);
      Trim(s) == s[k..e] && s == s[..k] + Trim(s) + s[e..]
      && AllWhitespace(s[..k]) && AllWhitespace(s[e..])
  {
    var k := SkipWhitespace(s, 0);
    var e := BackOverWhitespace(s, k, |s|);
    SliceInThree(s, k, e);
    WhitespacePrefix(s, k);
    WhitespaceSuffix(s, e);
  }

  /** A string is its three consecutive slices. */
  lemma SliceInThree(s: JsString, k: nat, e: nat)
    requires k <= e <= |s|
    ensures s == s[..k] + s[k..e] + s[e..]
  {
    assert s[..k] + s[k..e] == s[..e];
    assert s[..e] + s[e..] == s;
  }

  lemma WhitespacePrefix(s: JsString, k: nat)
    requires k <= |s|
    requires forall j :: 0 <= j < k ==> IsWhitespace(s[j])
    ensures AllWhitespace(s[..k])
  {
    forall j | 0 <= j < k ensures IsWhitespace(s[..k][j]) {
      assert s[..k][j] == s[j];
    }
  }

  lemma WhitespaceSuffix(s: JsString, e: nat)
    requires e <= |s|
    requires forall j :: e <= j < |s| ==> IsWhitespace(s[j])
    ensures AllWhitespace(s[e..])
  {
    forall j | 0 <= j < |s| - e ensures IsWhitespace(s[e..][j]) {
      assert s[e..][j] == s[e + j];
    }
  }

  /**
   * `trim` is determined by what it promises: whenever `s` is whitespace,
   * then `r`, then whitespace, and `r` neither begins nor ends with
   * whitespace, `Trim(s)` is `r`.
   */
  lemma TrimUnique(w1: JsString, r: JsString, w2: JsString)
    requires AllWhitespace(w1) && AllWhitespace(w2)
    requires r != [] ==> !IsWhitespace(r[0]) && !IsWhitespace(r[|r| - 1])
    ensures Trim(w1 + r + w2) == r
  {
    var s := w1 + r + w2;
    if r == [] {
      assert AllWhitespace(s) by {
        forall j | 0 <= j < |s| ensures IsWhitespace(s[j]) {
          if j < |w1| { assert s[j] == w1[j]; } else { assert s[j] == w2[j - |w1|]; }
        }
      }
    } else {
      var a, b := |w1|, |w1| + |r|;
      assert forall j :: 0 <= j < a ==> s[j] == w1[j];
      assert s[a] == r[0] && s[b - 1] == r[|r| - 1];
      SkipWhitespaceAt(s, 0, a);
      assert forall j :: b <= j < |s| ==> s[j] == w2[j - b];
      BackOverWhitespaceAt(s, a, |s|, b);
      assert s[a..b] == r;
    }
  }

  /** `SkipWhitespace` stops at the first code unit that is not whitespace. */
  lemma SkipWhitespaceAt(s: JsString, i: nat, n: nat)
    requires i <= n <= |s|
    requires forall j :: i <= j < n ==> IsWhitespace(s[j])
    requires n < |s| ==> !IsWhitespace(s[n])
    ensures SkipWhitespace(s, i) == n
  {
  }

  /** `BackOverWhitespace` stops behind the last code unit that is not whitespace. */
  lemma BackOverWhitespaceAt(s: JsString, lo: nat, j: nat, n: nat)
    requires lo < n <= j <= |s|
    requires forall m :: n <= m < j ==> IsWhitespace(s[m])
    requires !IsWhitespace(s[n - 1])
    ensures BackOverWhitespace(s, lo, j) == n
  {
  }

  /** Trimming twice is trimming once. */
  lemma TrimIdempotent(s: JsString)
    ensures Trim(Trim(s)) == Trim(s)
  {
    TrimUnique([], Trim(s), []);
    assert [] + Trim(s) + [] == Trim(s);
  }

  /** Whitespace in front of a string does not change its trimmed form. */
  lemma TrimIgnoresLeadingWhitespace(w: JsString, x: JsString)
    requires AllWhitespace(w)
    ensures Trim(w + x) == Trim(x)
  {
    var k := SkipWhitespace(x, 0);
    var e := BackOverWhitespace(x, k, |x|);
    TrimSplits(x);
    var front, r, back := x[..k], Trim(x), x[e..];
    WhitespaceAppend(w, front);
    AppendAssoc(w, front + r, back);
    AppendAssoc(w, front, r);
    TrimUnique(w + front, r, back);
  }

  /** Concatenation is associative. */
  lemma AppendAssoc(a: JsString, b: JsString, c: JsString)
    ensures (a + b) + c == a + (b + c)
  {
  }

  /** Whitespace followed by whitespace is whitespace. */
  lemma WhitespaceAppend(a: JsString, b: JsString)
    requires AllWhitespace(a) && AllWhitespace(b)
    ensures AllWhitespace(a + b)
  {
    forall i | 0 <= i < |a + b| ensures IsWhitespace((a + b)[i]) {
      if i >= |a| {
        assert (a + b)[i] == b[i - |a|];
      }
    }
  }

  /** `x` occurs in `s` at index `i`. */
  predicate OccursAt(x: JsString, s: JsString, i: nat) {
    i + |x| <= |s| && s[i..i + |x|] == x
  }

  /** `x` occurs behind `a` in `a + (x + b)`. */
  lemma OccursInMiddle(a: JsString, x: JsString, b: JsString)
    ensures OccursAt(x, a + (x + b), |a|)
  {
    var y := (a + (x + b))[|a|..|a| + |x|];
    forall k | 0 <= k < |x| ensures y[k] == x[k] {
      assert y[k] == (x + b)[k];
    }
  }

  /** An occurrence moves right by the length of what is put in front. */
  lemma OccursAfterPrefix(x: JsString, a: JsString, s: JsString, i: nat)
    requires OccursAt(x, s, i)
    ensures OccursAt(x, a + s, |a| + i)
  {
    var y := (a + s)[|a| + i..|a| + i + |x|];
    forall k | 0 <= k < |x| ensures y[k] == x[k] {
      assert y[k] == s[i..i + |x|][k];
    }
  }

  /** `parts.join(sep)` for a one-unit separator. */
  function Join(parts: seq<JsString>, sep: CodeUnit): (r: JsString)
    ensures parts != [] ==> |r| == TotalLength(parts) + |parts| - 1
  {
    if |parts| == 0 then []
    else if |parts| == 1 then parts[0]
    else parts[0] + [sep] + Join(parts[1..], sep)
  }

  /** The total length of a list of strings. */
  function TotalLength(parts: seq<JsString>): nat {
    if parts == [] then 0 else |parts[0]| + TotalLength(parts[1..])
  }

  /**
   * What `join` produces: nothing for no parts, the part itself for one, and
   * otherwise the parts with exactly one separator between neighbours, so the
   * result begins with the first part and ends with the last one.
   */
  lemma {:induction false} JoinShape(parts: seq<JsString>, sep: CodeUnit)
    ensures parts == [] ==> Join(parts, sep) == []
    ensures |parts| == 1 ==> Join(parts, sep) == parts[0]
    ensures parts != [] ==> |Join(parts, sep)| == TotalLength(parts) + |parts| - 1
    ensures parts != [] ==> StartsWith(Join(parts, sep), parts[0])
    ensures parts != [] ==> var r, last := Join(parts, sep), parts[|parts| - 1];
      |last| <= |r| && r[|r| - |last|..] == last
  {
    if |parts| >= 2 {
      JoinShape(parts[1..], sep);
      var r := Join(parts, sep);
      var last := parts[|parts| - 1];
      assert parts[1..][|parts| - 2] == last;
      assert r[..|parts[0]|] == parts[0];
      assert r[|r| - |last|..] == Join(parts[1..], sep)[|Join(parts[1..], sep)| - |last|..];
    }
  }

  /**
   * Every part sits in the join behind the parts before it and one separator
   * after each of them: parts are neither lost nor merged.
   */
  lemma {:induction false} JoinLocates(parts: seq<JsString>, sep: CodeUnit, i: nat)
    requires i < |parts|
    ensures OccursAt(parts[i], Join(parts, sep), TotalLength(parts[..i]) + i)
  {
    if i == 0 {
      JoinShape(parts, sep);
      assert parts[..0] == [];
    } else {
      var rest := parts[1..];
      JoinLocates(rest, sep, i - 1);
      assert rest[i - 1] == parts[i];
      assert parts[..i] == [parts[0]] + rest[..i - 1];
      assert ([parts[0]] + rest[..i - 1])[1..] == rest[..i - 1];
      OccursAfterPrefix(parts[i], parts[0] + [sep], Join(rest, sep), TotalLength(rest[..i - 1]) + (i - 1));
    }
  }

  /** Joining one more part appends one separator and the part, keeping list order. */
  lemma {:induction false} JoinAppend(parts: seq<JsString>, p: JsString, sep: CodeUnit)
    requires parts != []
    ensures Join(parts + [p], sep) == Join(parts, sep) + [sep] + p
  {
    if |parts| == 1 {
      assert parts + [p] == [parts[0], p];
    } else {
      assert (parts + [p])[1..] == parts[1..] + [p];
      JoinAppend(parts[1..], p, sep);
    }
  }

  /** `s.split(sep)` for a one-unit separator: never empty, "" splits to [""]. */
  function Split(s: JsString, sep: CodeUnit): (r: seq<JsString>)
    ensures |r| >= 1
    ensures forall i :: 0 <= i < |r| ==> sep !in r[i]
  {
    if s == [] then [[]]
    else
      var rest := Split(s[1..], sep);
      if s[0] == sep then [[]] + rest
      else
        assert forall i :: 1 <= i < |rest| ==> rest[i] == rest[1..][i - 1];
        [[s[0]] + rest[0]] + rest[1..]
  }

  lemma {:induction false} SplitPrefix(p: JsString, t: JsString, sep: CodeUnit)
    requires sep !in p
    ensures Split(p + t, sep) == [p + Split(t, sep)[0]] + Split(t, sep)[1..]
  {
    var u := Split(t, sep);
    if p == [] {
      assert p + t == t;
      assert p + u[0] == u[0];
    } else {
      var q := p[1..];
      assert (p + t)[1..] == q + t;
      SplitPrefix(q, t, sep);
      assert p == [p[0]] + q;
      AppendAssoc([p[0]], q, u[0]);
    }
  }

  /** Splitting a join gives the parts back, when no part holds the separator. */
  lemma {:induction false} SplitJoin(parts: seq<JsString>, sep: CodeUnit)
    requires parts != []
    requires forall i :: 0 <= i < |parts| ==> sep !in parts[i]
    ensures Split(Join(parts, sep), sep) == parts
  {
    if |parts| == 1 {
      SplitPrefix(parts[0], [], sep);
      assert parts[0] + [] == parts[0];
    } else {
      var tail := Join(parts[1..], sep);
      SplitJoin(parts[1..], sep);
      assert parts[0] + [sep] + tail == parts[0] + ([sep] + tail);
      SplitPrefix(parts[0], [sep] + tail, sep);
      assert ([sep] + tail)[1..] == tail;
      assert parts[0] + [] == parts[0];
      assert [parts[0]] + parts[1..] == parts;
    }
  }

  /** Joining a split gives the string back: `join` loses nothing that `split` cut. */
  lemma {:induction false} JoinSplit(s: JsString, sep: CodeUnit)
    ensures Join(Split(s, sep), sep) == s
  {
    if s != [] {
      var rest := Split(s[1..], sep);
      JoinSplit(s[1..], sep);
      if s[0] == sep {
        assert ([[]] + rest)[1..] == rest;
      } else {
        var parts := [[s[0]] + rest[0]] + rest[1..];
        if |rest| == 1 {
          assert rest == [rest[0]];
        } else {
          assert parts[1..] == rest[1..];
          assert rest == [rest[0]] + rest[1..];
          assert Join(rest, sep) == rest[0] + [sep] + Join(rest[1..], sep);
        }
      }
    }
  }
}
