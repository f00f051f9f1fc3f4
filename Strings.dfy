/** The pieces of Go's standard library (strings, strconv, path/filepath) that the
    filename parser and the command line rely on, over strings of Unicode scalar
    values. Case mapping is ASCII only; white space is Go's unicode.IsSpace. */
module Strings {
  import opened Wrappers

  /** unicode.IsSpace: the six ASCII spaces, NEL, NBSP and the Unicode White_Space separators. */
  predicate IsSpace(c: char) {
    || c == ' '
    || ('\t' <= c <= '\r')
    || c == '\U{0085}' || c == '\U{00A0}' || c == '\U{1680}'
    || ('\U{2000}' <= c <= '\U{200A}')
    || c == '\U{2028}' || c == '\U{2029}' || c == '\U{202F}' || c == '\U{205F}' || c == '\U{3000}'
  }

  // ---------------------------------------------------------------------------
  // Case mapping and character replacement

  function LowerChar(c: char): char {
    if 'A' <= c <= 'Z' then (c as int + 32) as char else c
  }

  /** strings.ToLower restricted to ASCII letters: length is preserved. */
  function Lower(s: string): (r: string)
    ensures |r| == |s|
  {
    seq(|s|, i requires 0 <= i < |s| => LowerChar(s[i]))
  }

  /** Each character is lowered on its own. */
  lemma LowerAt(s: string, k: nat)
    requires k < |s|
    ensures Lower(s)[k] == LowerChar(s[k])
  {
  }

  /** Lowering commutes with taking a slice. */
  lemma LowerSlice(s: string, i: nat, j: nat)
    requires i <= j <= |s|
    ensures Lower(s[i..j]) == Lower(s)[i..j]
  {
  }

  /** strings.ReplaceAll with a one-character pattern and replacement. */
  function ReplaceChar(s: string, from: char, to: char): (r: string)
    ensures |r| == |s|
    ensures forall i :: 0 <= i < |s| ==> r[i] == if s[i] == from then to else s[i]
  {
    seq(|s|, i requires 0 <= i < |s| => if s[i] == from then to else s[i])
  }

  // ---------------------------------------------------------------------------
  // Substring search

  /** `sub` occurs in `s` starting at index `i`. */
  predicate OccursAt(s: string, sub: string, i: int) {
    0 <= i && i + |sub| <= |s| && s[i..i + |sub|] == sub
  }

  function IndexFrom(s: string, sub: string, i: nat): (r: int)
    requires i <= |s|
    ensures r == -1 || (i <= r && r + |sub| <= |s|)
    decreases |s| - i
  {
    if OccursAt(s, sub, i) then i
    else if i == |s| then -1
    else IndexFrom(s, sub, i + 1)
  }

  lemma {:induction false} IndexFromSpec(s: string, sub: string, i: nat)
    requires i <= |s|
    ensures var r := IndexFrom(s, sub, i);
      && (r == -1 || OccursAt(s, sub, r))
      && forall j :: i <= j < (if r == -1 then |s| + 1 else r) ==> !OccursAt(s, sub, j)
    decreases |s| - i
  {
    if !OccursAt(s, sub, i) && i < |s| {
      IndexFromSpec(s, sub, i + 1);
    }
  }

  /** strings.Index: the first position of `sub` in `s`, or -1. */
  function IndexOf(s: string, sub: string): (r: int)
    ensures r == -1 || (0 <= r && r + |sub| <= |s|)
  {
    IndexFrom(s, sub, 0)
  }

  /** IndexOf finds the first occurrence, and finds one whenever there is one. */
  lemma IndexOfSpec(s: string, sub: string)
    ensures var r := IndexOf(s, sub);
      && (r == -1 <==> forall j :: !OccursAt(s, sub, j))
      && (r != -1 ==> OccursAt(s, sub, r) && forall j :: 0 <= j < r ==> !OccursAt(s, sub, j))
  {
    IndexFromSpec(s, sub, 0);
  }

  /** strings.Contains */
  predicate Contains(s: string, sub: string) {
    IndexOf(s, sub) >= 0
  }

  /** strings.HasPrefix */
  predicate HasPrefix(s: string, prefix: string) {
    |prefix| <= |s| && s[..|prefix|] == prefix
  }

  /** strings.TrimPrefix */
  function TrimPrefix(s: string, prefix: string): (r: string)
    ensures |r| <= |s|
  {
    if HasPrefix(s, prefix) then s[|prefix|..] else s
  }

  /** TrimPrefix removes the prefix when it is there and leaves `s` alone otherwise; either
      way the result is a suffix of `s`. */
  lemma TrimPrefixSpec(s: string, prefix: string)
    ensures var r := TrimPrefix(s, prefix);
      && r == s[|s| - |r|..]
      && (HasPrefix(s, prefix) ==> s == prefix + r)
      && (!HasPrefix(s, prefix) ==> r == s)
  {
    if HasPrefix(s, prefix) {
      assert s == s[..|prefix|] + s[|prefix|..];
    }
  }

  // ---------------------------------------------------------------------------
  // Split and Join

  /** strings.Split with a one-character separator: the pieces between separators, in order. */
  function Split(s: string, sep: char): (parts: seq<string>)
    ensures |parts| >= 1
    ensures forall p :: p in parts ==> sep !in p
  {
    if s == [] then [""]
    else
      var rest := Split(s[1..], sep);
      if s[0] == sep then [""] + rest else [[s[0]] + rest[0]] + rest[1..]
  }

  /** strings.Join */
  function Join(parts: seq<string>, sep: string): string {
    if |parts| == 0 then ""
    else if |parts| == 1 then parts[0]
    else parts[0] + sep + Join(parts[1..], sep)
  }

  /** Split and Join are inverse: re-joining the pieces with the separator gives back the input. */
  lemma {:induction false} JoinSplit(s: string, sep: char)
    ensures Join(Split(s, sep), [sep]) == s
  {
    if s != [] {
      var rest := Split(s[1..], sep);
      JoinSplit(s[1..], sep);
      if s[0] == sep {
        JoinConsEmpty(rest, [sep]);
      } else {
        JoinConsChar(s[0], rest, [sep]);
      }
      assert s == [s[0]] + s[1..];
    }
  }

  lemma JoinConsEmpty(rest: seq<string>, sep: string)
    requires |rest| >= 1
    ensures Join([""] + rest, sep) == sep + Join(rest, sep)
  {
    assert ([""] + rest)[1..] == rest;
  }

  lemma JoinConsChar(c: char, rest: seq<string>, sep: string)
    requires |rest| >= 1
    ensures Join([[c] + rest[0]] + rest[1..], sep) == [c] + Join(rest, sep)
  {
    var head := [c] + rest[0];
    if |rest| == 1 {
      assert [head] + rest[1..] == [head];
    } else {
      assert ([head] + rest[1..])[1..] == rest[1..];
    }
  }

  lemma {:induction false} JoinAppend(parts: seq<string>, p: string, sep: string)
    requires |parts| >= 1
    ensures Join(parts + [p], sep) == Join(parts, sep) + sep + p
  {
    if |parts| > 1 {
      assert (parts + [p])[1..] == parts[1..] + [p];
      JoinAppend(parts[1..], p, sep);
    }
  }

  /** A character found in neither the pieces nor the separator is not in the joined string. */
  lemma {:induction false} JoinAvoids(parts: seq<string>, sep: string, x: char)
    requires forall p :: p in parts ==> x !in p
    requires x !in sep
    ensures x !in Join(parts, sep)
  {
    if |parts| > 1 {
      JoinAvoids(parts[1..], sep, x);
    }
  }

  // ---------------------------------------------------------------------------
  // White space: TrimSpace and Fields

  function TrimLeft(s: string): (r: string)
    ensures |r| <= |s|
  {
    if s != [] && IsSpace(s[0]) then TrimLeft(s[1..]) else s
  }

  /** TrimLeft drops the leading white space and nothing else. */
  lemma {:induction false} TrimLeftSpec(s: string)
    ensures var r := TrimLeft(s);
      && r == s[|s| - |r|..]
      && (r == [] || !IsSpace(r[0]))
      && forall i :: 0 <= i < |s| - |r| ==> IsSpace(s[i])
  {
    if s != [] && IsSpace(s[0]) {
      TrimLeftSpec(s[1..]);
    }
  }

  function TrimRight(s: string): (r: string)
    ensures |r| <= |s|
  {
    if s != [] && IsSpace(s[|s| - 1]) then TrimRight(s[..|s| - 1]) else s
  }

  /** TrimRight drops the trailing white space and nothing else. */
  lemma {:induction false} TrimRightSpec(s: string)
    ensures var r := TrimRight(s);
      && r == s[..|r|]
      && (r == [] || !IsSpace(r[|r| - 1]))
      && forall i :: |r| <= i < |s| ==> IsSpace(s[i])
  {
    if s != [] && IsSpace(s[|s| - 1]) {
      TrimRightSpec(s[..|s| - 1]);
    }
  }

  /** strings.TrimSpace: drops leading and trailing white space. */
  function TrimSpace(s: string): (r: string)
    ensures |r| <= |s|
  {
    TrimRight(TrimLeft(s))
  }

  /** TrimSpace keeps a contiguous stretch of `s` that neither starts nor ends with white
      space, and drops only white space around it. */
  lemma TrimSpaceSlice(s: string) returns (a: nat)
    ensures var r := TrimSpace(s);
      && a + |r| <= |s| && r == s[a..a + |r|]
      && (r == [] || (!IsSpace(r[0]) && !IsSpace(r[|r| - 1])))
      && (forall i :: 0 <= i < a ==> IsSpace(s[i]))
      && (forall i :: a + |r| <= i < |s| ==> IsSpace(s[i]))
  {
    var l := TrimLeft(s);
    a := |s| - |l|;
    TrimLeftSpec(s);
    TrimRightSpec(l);
    var r := TrimRight(l);
    TakeOfDrop(s, a, |r|);
    if r != [] {
      assert r[0] == l[0];
    }
  }

  lemma TakeOfDrop(s: string, a: nat, n: nat)
    requires a + n <= |s|
    ensures s[a..][..n] == s[a..a + n]
  {
  }

  lemma SpacesInDrop(s: string, a: nat, n: nat)
    requires a + n <= |s|
    requires forall i :: n <= i < |s| - a ==> IsSpace(s[a..][i])
    ensures forall i :: a + n <= i < |s| ==> IsSpace(s[i])
  {
    forall i | a + n <= i < |s| ensures IsSpace(s[i]) {
      assert s[i] == s[a..][i - a];
    }
  }

  /** TrimSpace gives "" exactly when `s` is all white space. */
  lemma TrimSpaceEmpty(s: string)
    ensures TrimSpace(s) == [] <==> forall i :: 0 <= i < |s| ==> IsSpace(s[i])
  {
    var a := TrimSpaceSlice(s);
    var r := TrimSpace(s);
    if r != [] {
      assert r[0] == s[a];
    }
  }

  lemma TrimSpaceUnchanged(s: string)
    requires s == [] || (!IsSpace(s[0]) && !IsSpace(s[|s| - 1]))
    ensures TrimSpace(s) == s
  {
  }

  /** A non-empty run of non-space characters. */
  predicate IsWord(w: string) {
    w != [] && forall i :: 0 <= i < |w| ==> !IsSpace(w[i])
  }

  /** Length of the leading run of non-space characters. */
  function WordLen(s: string): (n: nat)
    ensures n <= |s|
    ensures forall i :: 0 <= i < n ==> !IsSpace(s[i])
    ensures n < |s| ==> IsSpace(s[n])
  {
    if s == [] || IsSpace(s[0]) then 0 else 1 + WordLen(s[1..])
  }

  /** strings.Fields: the maximal runs of non-space characters, in order. */
  function Fields(s: string): (ws: seq<string>)
    ensures forall w :: w in ws ==> IsWord(w)
    ensures forall w, c :: w in ws && c in w ==> c in s
    decreases |s|
  {
    if s == [] then []
    else if IsSpace(s[0]) then Fields(s[1..])
    else
      var n := WordLen(s);
      [s[..n]] + Fields(s[n..])
  }

  lemma WordLenOfWord(w: string, t: string)
    requires IsWord(w)
    requires t == [] || IsSpace(t[0])
    ensures WordLen(w + t) == |w|
  {
    assert forall i :: 0 <= i < |w| ==> (w + t)[i] == w[i];
    assert t != [] ==> (w + t)[|w|] == t[0];
  }

  /** Joining words with single spaces and splitting the result into fields gives the words back. */
  lemma {:induction false} FieldsOfJoin(ws: seq<string>)
    requires forall w :: w in ws ==> IsWord(w)
    ensures Fields(Join(ws, " ")) == ws
  {
    if |ws| == 1 {
      WordLenOfWord(ws[0], "");
      assert ws[0][..|ws[0]|] == ws[0];
      assert Fields(ws[0][|ws[0]|..]) == [];
    } else if |ws| > 1 {
      var w := ws[0];
      var rest := Join(ws[1..], " ");
      var s := w + " " + rest;
      assert Join(ws, " ") == s;
      WordLenOfWord(w, " " + rest);
      assert s == w + (" " + rest);
      assert s[..|w|] == w;
      assert s[|w|..] == " " + rest;
      assert (" " + rest)[1..] == rest;
      FieldsOfJoin(ws[1..]);
      assert ws == [w] + ws[1..];
    }
  }

  /** Words joined with single spaces: no leading or trailing white space and no two
      white-space characters in a row. */
  lemma {:induction false} JoinWordsShape(ws: seq<string>)
    requires forall w :: w in ws ==> IsWord(w)
    ensures var s := Join(ws, " ");
      && (s == [] <==> ws == [])
      && (s == [] || (!IsSpace(s[0]) && !IsSpace(s[|s| - 1])))
      && forall i :: 0 <= i < |s| - 1 ==> !(IsSpace(s[i]) && IsSpace(s[i + 1]))
  {
    if |ws| == 1 {
      assert ws[0] in ws;
    } else if |ws| > 1 {
      var w := ws[0];
      assert w in ws;
      var rest := Join(ws[1..], " ");
      JoinWordsShape(ws[1..]);
      var s := w + " " + rest;
      assert Join(ws, " ") == s;
      assert rest != [];
      forall i | 0 <= i < |s| - 1
        ensures !(IsSpace(s[i]) && IsSpace(s[i + 1]))
      {
        if i < |w| {
          assert s[i] == w[i];
        } else if i == |w| {
          assert s[i + 1] == rest[0];
        } else {
          assert s[i] == rest[i - |w| - 1] && s[i + 1] == rest[i - |w|];
        }
      }
    }
  }

  // ---------------------------------------------------------------------------
  // strconv.Atoi

  predicate IsDigit(c: char) {
    '0' <= c <= '9'
  }

  predicate AllDigits(s: string) {
    forall i :: 0 <= i < |s| ==> IsDigit(s[i])
  }

  function Pow10(n: nat): (p: nat)
    ensures p >= 1
  {
    if n == 0 then 1 else 10 * Pow10(n - 1)
  }

  lemma {:induction false} Pow10Monotone(a: nat, b: nat)
    requires a <= b
    ensures Pow10(a) <= Pow10(b)
  {
    if a < b {
      Pow10Monotone(a, b - 1);
    }
  }

  /** The base-10 value of a digit string; it has no more digits than the string. */
  function DigitsValue(s: string): (v: nat)
    requires AllDigits(s)
    ensures v < Pow10(|s|)
  {
    if s == [] then 0
    else DigitsValue(s[..|s| - 1]) * 10 + (s[|s| - 1] as int - '0' as int)
  }

  const MinInt64: int := -0x8000_0000_0000_0000
  const MaxInt64: int := 0x7FFF_FFFF_FFFF_FFFF

  /** strconv.Atoi on a 64-bit platform: an optional sign, then one or more decimal
      digits, and the value must fit in 64 bits; anything else is an error (None). */
  function Atoi(s: string): (r: Option<int>)
    ensures r.Some? ==> MinInt64 <= r.value <= MaxInt64
    ensures r.Some? ==> |s| >= 1
    ensures r.Some? && AllDigits(s) ==> 0 <= r.value < Pow10(|s|)
  {
    var signed := |s| > 0 && (s[0] == '-' || s[0] == '+');
    var digits := if signed then s[1..] else s;
    if digits == [] || !AllDigits(digits) then None
    else
      var v: int := if |s| > 0 && s[0] == '-' then -(DigitsValue(digits) as int) else DigitsValue(digits);
      if MinInt64 <= v <= MaxInt64 then Some(v) else None
  }

  /** Up to four digits always parse, to their decimal value. */
  lemma AtoiDigits(s: string)
    requires 1 <= |s| <= 4 && AllDigits(s)
    ensures Atoi(s) == Some(DigitsValue(s))
  {
    Pow10Monotone(|s|, 4);
    assert Pow10(4) == 10 * Pow10(3) == 100 * Pow10(2) == 1000 * Pow10(1) == 10000;
  }

  // ---------------------------------------------------------------------------
  // path/filepath

  /** filepath.Base for a path that does not end in '/': the text after the last '/'. */
  function Base(path: string): (r: string)
    ensures '/' !in r
    ensures |r| <= |path|
  {
    if path == [] || path[|path| - 1] == '/' then ""
    else Base(path[..|path| - 1]) + [path[|path| - 1]]
  }

  /** Base is the suffix after the last '/' (the whole path when there is none). */
  lemma {:induction false} BaseSpec(path: string)
    ensures var r := Base(path);
      && r == path[|path| - |r|..]
      && (|r| < |path| ==> path[|path| - |r| - 1] == '/')
  {
    if path != [] && path[|path| - 1] != '/' {
      var init := path[..|path| - 1];
      BaseSpec(init);
      var b := Base(init);
      assert init[|init| - |b|..] + [path[|path| - 1]] == path[|path| - |b| - 1..];
    }
  }

  /** filepath.Ext: the suffix from the last '.' of the final path element, or "". */
  function Ext(path: string): (r: string)
    ensures r == [] || (r[0] == '.' && '.' !in r[1..] && '/' !in r)
    ensures |r| <= |path| && r == path[|path| - |r|..]
  {
    if path == [] || path[|path| - 1] == '/' then ""
    else if path[|path| - 1] == '.' then "."
    else
      var e := Ext(path[..|path| - 1]);
      if e == "" then "" else e + [path[|path| - 1]]
  }
}
