/** Filename normalisation and title clean-up (internal/parser/parser.go,
    cleanFilename and cleanTitle). */
module Normalize {
  import opened Strings

  // ---------------------------------------------------------------------------
  // cleanFilename

  /** `s` has two dots in a row somewhere. */
  predicate HasDoubleDot(s: string) {
    exists i :: 0 <= i < |s| - 1 && s[i] == '.' && s[i + 1] == '.'
  }

  lemma DoubleDotIsContains(s: string)
    ensures Contains(s, "..") <==> HasDoubleDot(s)
  {
    IndexOfSpec(s, "..");
    if HasDoubleDot(s) {
      var i :| 0 <= i < |s| - 1 && s[i] == '.' && s[i + 1] == '.';
      assert OccursAt(s, "..", i);
    }
    if Contains(s, "..") {
      var i := IndexOf(s, "..");
      assert s[i..i + 2] == "..";
      assert s[i] == '.' && s[i + 1] == '.';
    }
  }

  /** One pass of strings.ReplaceAll(s, "..", "."): non-overlapping, left to right. */
  function ReplaceDoubleDots(s: string): (r: string)
    ensures |r| <= |s|
    ensures HasDoubleDot(s) ==> |r| < |s|
    ensures r == [] <==> s == []
    ensures r != [] ==> r[0] == s[0]
  {
    if |s| >= 2 && s[0] == '.' && s[1] == '.' then "." + ReplaceDoubleDots(s[2..])
    else if s == [] then []
    else
      assert HasDoubleDot(s) ==> HasDoubleDot(s[1..]) by {
        if HasDoubleDot(s) {
          var i :| 0 <= i < |s| - 1 && s[i] == '.' && s[i + 1] == '.';
          assert i >= 1 && s[1..][i - 1] == '.' && s[1..][i] == '.';
        }
      }
      [s[0]] + ReplaceDoubleDots(s[1..])
  }

  /** Every run of dots shrunk to a single dot: the fixed point the normaliser's loop reaches. */
  function CollapseDots(s: string): (r: string)
    ensures |r| <= |s|
    ensures r == [] <==> s == []
    ensures r != [] ==> r[0] == s[0]
    ensures forall c :: c in r ==> c in s
  {
    if |s| < 2 then s
    else if s[0] == '.' && s[1] == '.' then CollapseDots(s[1..])
    else [s[0]] + CollapseDots(s[1..])
  }

  lemma {:induction false} CollapseDotsHasNoDoubleDot(s: string)
    ensures !HasDoubleDot(CollapseDots(s))
  {
    if |s| >= 2 {
      CollapseDotsHasNoDoubleDot(s[1..]);
      if !(s[0] == '.' && s[1] == '.') {
        var t := CollapseDots(s[1..]);
        var r := [s[0]] + t;
        forall i | 0 <= i < |r| - 1
          ensures !(r[i] == '.' && r[i + 1] == '.')
        {
          if i == 0 {
            assert r[1] == t[0] == s[1];
          } else {
            assert r[i] == t[i - 1] && r[i + 1] == t[i];
          }
        }
      }
    }
  }

  lemma {:induction false} CollapseDotsUnchanged(s: string)
    requires !HasDoubleDot(s)
    ensures CollapseDots(s) == s
  {
    if |s| >= 2 {
      forall i | 0 <= i < |s| - 2
        ensures !(s[1..][i] == '.' && s[1..][i + 1] == '.')
      {
        assert s[1..][i] == s[i + 1] && s[1..][i + 1] == s[i + 2];
      }
      CollapseDotsUnchanged(s[1..]);
      assert s == [s[0]] + s[1..];
    }
  }

  /** Collapsing after a leading character: a dot before a dot disappears. */
  lemma CollapseDotsCons(c: char, t: string)
    ensures CollapseDots([c] + t) ==
      if c == '.' && t != [] && t[0] == '.' then CollapseDots(t) else [c] + CollapseDots(t)
  {
    assert ([c] + t)[1..] == t;
  }

  /** One replacement pass does not change what the runs collapse to. */
  lemma {:induction false} CollapseAfterReplace(s: string)
    ensures CollapseDots(ReplaceDoubleDots(s)) == CollapseDots(s)
    decreases |s|
  {
    if |s| >= 2 && s[0] == '.' && s[1] == '.' {
      var r := s[2..];
      CollapseAfterReplace(r);
      CollapseDotsCons('.', ReplaceDoubleDots(r));
      CollapseDotsCons('.', r);
      assert s[1..] == "." + r;
    } else if s != [] {
      var r := s[1..];
      CollapseAfterReplace(r);
      CollapseDotsCons(s[0], ReplaceDoubleDots(r));
      CollapseDotsCons(s[0], r);
      assert s == [s[0]] + r;
    }
  }

  /** What cleanFilename returns: the final path element, spaces turned into dots and
      every run of dots shrunk to one dot. */
  function Normalized(filename: string): string {
    CollapseDots(ReplaceChar(Base(filename), ' ', '.'))
  }

  /** cleanFilename: basename, spaces to dots, then replace ".." by "." until none is left. */
  method CleanFilename(filename: string) returns (cleaned: string)
    ensures cleaned == Normalized(filename)
  {
    var base := Base(filename);
    cleaned := ReplaceChar(base, ' ', '.');
    ghost var start := cleaned;
    DoubleDotIsContains(cleaned);
    while Contains(cleaned, "..")
      invariant CollapseDots(cleaned) == CollapseDots(start)
      invariant Contains(cleaned, "..") <==> HasDoubleDot(cleaned)
      decreases |cleaned|
    {
      CollapseAfterReplace(cleaned);
      cleaned := ReplaceDoubleDots(cleaned);
      DoubleDotIsContains(cleaned);
    }
    CollapseDotsUnchanged(cleaned);
  }

  /** The normalised name has no space, no '/', no ".." and is drawn from the input's characters. */
  lemma NormalizedShape(filename: string)
    ensures var n := Normalized(filename);
      && ' ' !in n && '/' !in n && !HasDoubleDot(n)
      && forall c :: c in n ==> c == '.' || c in filename
  {
    var b := Base(filename);
    var d := ReplaceChar(b, ' ', '.');
    CollapseDotsHasNoDoubleDot(d);
    forall c | c in Normalized(filename)
      ensures c != ' ' && c != '/' && (c == '.' || c in filename)
    {
      assert c in d;
      var i :| 0 <= i < |d| && d[i] == c;
      if b[i] != ' ' {
        BaseChar(filename, i);
      }
    }
  }

  lemma BaseChar(path: string, i: nat)
    requires i < |Base(path)|
    ensures Base(path)[i] in path
  {
    BaseSpec(path);
    var b := Base(path);
    assert b[i] == path[|path| - |b| + i];
  }

  /** Normalising twice is the same as normalising once. */
  lemma NormalizedIdempotent(filename: string)
    ensures Normalized(Normalized(filename)) == Normalized(filename)
  {
    var n := Normalized(filename);
    NormalizedShape(filename);
    BaseWithoutSlash(n);
    assert ReplaceChar(n, ' ', '.') == n;
    CollapseDotsUnchanged(n);
  }

  /** Everything up to the last '/' is ignored. */
  lemma NormalizedDropsDirectory(dir: string, name: string)
    ensures Normalized(dir + "/" + name) == Normalized(name)
  {
    BaseAfterSlash(dir, name);
  }

  lemma {:induction false} BaseAfterSlash(dir: string, name: string)
    ensures Base(dir + "/" + name) == Base(name)
    decreases |name|
  {
    var p := dir + "/" + name;
    if name == [] {
      assert p[|p| - 1] == '/';
    } else {
      assert p[..|p| - 1] == dir + "/" + name[..|name| - 1];
      assert p[|p| - 1] == name[|name| - 1];
      BaseAfterSlash(dir, name[..|name| - 1]);
    }
  }

  /** Writing the name with spaces instead of dots gives the same normalised name. */
  lemma NormalizedSpacesAsDots(filename: string)
    ensures Normalized(ReplaceChar(filename, ' ', '.')) == Normalized(filename)
  {
    BaseOfReplace(filename);
    ReplaceCharTwice(Base(filename));
  }

  lemma {:induction false} BaseWithoutSlash(s: string)
    requires '/' !in s
    ensures Base(s) == s
  {
    if s != [] {
      BaseWithoutSlash(s[..|s| - 1]);
      assert s == s[..|s| - 1] + [s[|s| - 1]];
    }
  }

  lemma ReplaceCharSnoc(s: string, c: char)
    ensures ReplaceChar(s + [c], ' ', '.') == ReplaceChar(s, ' ', '.') + [if c == ' ' then '.' else c]
  {
  }

  lemma {:induction false} BaseOfReplace(s: string)
    ensures Base(ReplaceChar(s, ' ', '.')) == ReplaceChar(Base(s), ' ', '.')
  {
    if s != [] {
      var init, last := s[..|s| - 1], s[|s| - 1];
      var ri, rl := ReplaceChar(init, ' ', '.'), if last == ' ' then '.' else last;
      assert s == init + [last];
      ReplaceCharSnoc(init, last);
      var t := ri + [rl];
      assert ReplaceChar(s, ' ', '.') == t;
      assert t[..|t| - 1] == ri && t[|t| - 1] == rl;
      if last == '/' {
        assert Base(t) == [];
      } else {
        BaseOfReplace(init);
        calc {
          Base(t);
          Base(ri) + [rl];
          ReplaceChar(Base(init), ' ', '.') + [rl];
          { ReplaceCharSnoc(Base(init), last); }
          ReplaceChar(Base(init) + [last], ' ', '.');
        }
      }
    }
  }

  lemma ReplaceCharTwice(s: string)
    ensures ReplaceChar(ReplaceChar(s, ' ', '.'), ' ', '.') == ReplaceChar(s, ' ', '.')
  {
  }

  // ---------------------------------------------------------------------------
  // cleanTitle

  /** cleanTitle: dots to spaces, white-space runs to one space, trimmed. */
  function CleanTitle(title: string): (r: string)
    ensures r == Join(Fields(ReplaceChar(title, '.', ' ')), " ")
  {
    var words := Fields(ReplaceChar(title, '.', ' '));
    JoinWordsShape(words);
    TrimSpaceUnchanged(Join(words, " "));
    TrimSpace(Join(words, " "))
  }

  /** The cleaned title has no dot, no leading or trailing white space, no two white-space
      characters in a row, and the same words in the same order as the raw title. */
  lemma CleanTitleShape(title: string)
    ensures var r := CleanTitle(title);
      && '.' !in r
      && (r == [] || (!IsSpace(r[0]) && !IsSpace(r[|r| - 1])))
      && (forall i :: 0 <= i < |r| - 1 ==> !(IsSpace(r[i]) && IsSpace(r[i + 1])))
      && Fields(r) == Fields(ReplaceChar(title, '.', ' '))
  {
    var spaced := ReplaceChar(title, '.', ' ');
    var words := Fields(spaced);
    JoinWordsShape(words);
    FieldsOfJoin(words);
    assert '.' !in spaced;
    JoinAvoids(words, " ", '.');
  }

  /** The title cleans to "" exactly when it is made only of dots and white space. */
  lemma CleanTitleEmpty(title: string)
    ensures CleanTitle(title) == "" <==> forall i :: 0 <= i < |title| ==> title[i] == '.' || IsSpace(title[i])
  {
    var spaced := ReplaceChar(title, '.', ' ');
    var words := Fields(spaced);
    JoinWordsShape(words);
    FieldsEmpty(spaced);
  }

  lemma {:induction false} FieldsEmpty(s: string)
    ensures Fields(s) == [] <==> forall i :: 0 <= i < |s| ==> IsSpace(s[i])
    decreases |s|
  {
    if s != [] && IsSpace(s[0]) {
      FieldsEmpty(s[1..]);
      assert forall i :: 1 <= i < |s| ==> s[i] == s[1..][i - 1];
    }
  }
}
