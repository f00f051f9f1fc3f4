/** Splitting the captured source region of a filename into release tokens and the
    video codec (internal/parser/parser.go: extractSourceAndCodec,
    extractCodecFromPart, extractReleaseGroupFromPart, isCodec). */
module SourceCodec {
  import opened Strings

  /** The codec vocabulary, lower case, in the order a token is searched. */
  const Codecs: seq<string> :=
    ["x264", "x265", "h264", "h265", "hevc", "avc", "xvid", "divx", "vp8", "vp9", "av1", "mpeg2", "mpeg4"]

  /** Every member of the vocabulary is a non-empty word. */
  lemma CodecsNonEmpty()
    ensures forall l :: 0 <= l < |Codecs| ==> |Codecs[l]| > 0
  {
  }

  /** Index of the first word of `vocab`, from position `k` on, that occurs in `s`, or -1
      when none does. */
  function FirstIndex(s: string, vocab: seq<string>, k: nat): (j: int)
    requires k <= |vocab|
    ensures j == -1 || (k <= j < |vocab| && Contains(s, vocab[j]))
    decreases |vocab| - k
  {
    if k == |vocab| then -1
    else if Contains(s, vocab[k]) then k
    else FirstIndex(s, vocab, k + 1)
  }

  /** The search goes through the list in order and stops at the first word present. */
  lemma {:induction false} FirstIndexSpec(s: string, vocab: seq<string>, k: nat)
    requires k <= |vocab|
    ensures var j := FirstIndex(s, vocab, k);
      && (j == -1 <==> forall l :: k <= l < |vocab| ==> !Contains(s, vocab[l]))
      && (j != -1 ==> forall l :: k <= l < j ==> !Contains(s, vocab[l]))
    decreases |vocab| - k
  {
    if k < |vocab| && !Contains(s, vocab[k]) {
      FirstIndexSpec(s, vocab, k + 1);
    }
  }

  /** The loop of extractCodecFromPart from list position `k` on: for the first word of
      `vocab` found in `lower`, the slice of `part` at that position; "" when none is found. */
  function CodecFrom(part: string, lower: string, vocab: seq<string>, k: nat): (r: string)
    requires k <= |vocab| && |lower| == |part|
    ensures |r| <= |part|
    decreases |vocab| - k
  {
    if k == |vocab| then ""
    else
      var idx := IndexOf(lower, vocab[k]);
      if idx >= 0 then part[idx..idx + |vocab[k]|]
      else CodecFrom(part, lower, vocab, k + 1)
  }

  /** The loop returns the slice for the word FirstIndex picks. */
  lemma {:induction false} CodecFromIsFirstIndex(part: string, lower: string, vocab: seq<string>, k: nat)
    requires k <= |vocab| && |lower| == |part|
    ensures var j := FirstIndex(lower, vocab, k);
      CodecFrom(part, lower, vocab, k) ==
        if j == -1 then "" else part[IndexOf(lower, vocab[j])..IndexOf(lower, vocab[j]) + |vocab[j]|]
    decreases |vocab| - k
  {
    if k < |vocab| && IndexOf(lower, vocab[k]) < 0 {
      CodecFromIsFirstIndex(part, lower, vocab, k + 1);
    }
  }

  /** extractCodecFromPart: the first vocabulary member in LIST order found anywhere in the
      lower-cased part, cut out of the part in its original case; "" when none occurs. */
  function CodecOf(part: string): (r: string)
    ensures |r| <= |part|
  {
    CodecFrom(part, Lower(part), Codecs, 0)
  }

  /** A codec found is a slice of the part, at the first occurrence (ignoring case) of the
      earliest list member that occurs, and lower-cases to that member. */
  lemma CodecOfFound(part: string) returns (j: nat, i: nat)
    requires CodecOf(part) != ""
    ensures var r := CodecOf(part);
      && j == FirstIndex(Lower(part), Codecs, 0) && j < |Codecs|
      && i == IndexOf(Lower(part), Codecs[j])
      && Lower(r) == Codecs[j] && i + |r| <= |part| && r == part[i..i + |r|]
  {
    var lower := Lower(part);
    CodecFromIsFirstIndex(part, lower, Codecs, 0);
    j := FirstIndex(lower, Codecs, 0);
    i := IndexOf(lower, Codecs[j]);
    LowerOfFound(part, Codecs[j], i);
  }

  /** Where a word is found in the lower-cased part, the part's own slice there lower-cases
      to the word. */
  lemma LowerOfFound(part: string, w: string, i: int)
    requires 0 <= i && i == IndexOf(Lower(part), w)
    ensures i + |w| <= |part| && Lower(part[i..i + |w|]) == w
  {
    IndexOfSpec(Lower(part), w);
    LowerSlice(part, i, i + |w|);
  }

  /** What extractCodecFromPart promises: "" exactly when no member occurs (ignoring case);
      otherwise the earliest member in list order that occurs, and no earlier one does. */
  lemma CodecOfSpec(part: string)
    ensures var r := CodecOf(part);
      && (r == "" <==> forall l :: 0 <= l < |Codecs| ==> !Contains(Lower(part), Codecs[l]))
      && (r != "" ==>
        var j := FirstIndex(Lower(part), Codecs, 0);
        && 0 <= j < |Codecs| && Lower(r) == Codecs[j]
        && forall l :: 0 <= l < j ==> !Contains(Lower(part), Codecs[l]))
  {
    var lower := Lower(part);
    FirstIndexSpec(lower, Codecs, 0);
    CodecFromIsFirstIndex(part, lower, Codecs, 0);
    var j := FirstIndex(lower, Codecs, 0);
    if j != -1 {
      CodecsNonEmpty();
      assert |CodecOf(part)| == |Codecs[j]| > 0;
      var j', i := CodecOfFound(part);
    }
  }

  /** Some word of `vocab`, from position `k` on, occurs in `s`. */
  function AnyOccurs(s: string, vocab: seq<string>, k: nat): (b: bool)
    requires k <= |vocab|
    ensures b <==> exists l :: k <= l < |vocab| && Contains(s, vocab[l])
    decreases |vocab| - k
  {
    if k == |vocab| then false
    else Contains(s, vocab[k]) || AnyOccurs(s, vocab, k + 1)
  }

  /** isCodec: some vocabulary member occurs in `s`, case-sensitively. */
  function IsCodec(s: string): (b: bool)
    ensures b <==> exists l :: 0 <= l < |Codecs| && Contains(s, Codecs[l])
  {
    AnyOccurs(s, Codecs, 0)
  }

  /** A part carries a codec exactly when isCodec holds of its lower-cased form. */
  lemma CodecOfAgreesWithIsCodec(part: string)
    ensures CodecOf(part) != "" <==> IsCodec(Lower(part))
  {
    CodecOfSpec(part);
  }

  /** extractReleaseGroupFromPart: the text after the first case-insensitive occurrence of
      `codec` in `part`, minus one leading '-' and then one leading '.'; "" when the codec
      does not occur. */
  function ReleaseGroup(part: string, codec: string): (r: string)
    ensures |r| <= |part|
  {
    var i := IndexOf(Lower(part), Lower(codec));
    if i >= 0 && i + |codec| <= |part| then
      var after := part[i + |codec|..];
      TrimPrefix(TrimPrefix(after, "-"), ".")
    else ""
  }

  /** For the codec found in a dot-free token, the release group is the text right after
      the first case-insensitive occurrence of the codec (where strings.Index finds it),
      with one leading '-' dropped; the codec's own text sits at that same position. */
  lemma ReleaseGroupAfterCodec(part: string) returns (i: nat)
    requires CodecOf(part) != "" && '.' !in part
    ensures var c := CodecOf(part);
      && i == IndexOf(Lower(part), Lower(c))
      && i + |c| <= |part| && c == part[i..i + |c|]
      && ReleaseGroup(part, c) == TrimPrefix(part[i + |c|..], "-")
  {
    var c := CodecOf(part);
    var j;
    j, i := CodecOfFound(part);
    ReleaseGroupAt(part, c, i);
  }

  lemma ReleaseGroupAt(part: string, codec: string, i: int)
    requires '.' !in part
    requires 0 <= i && i + |codec| <= |part| && IndexOf(Lower(part), Lower(codec)) == i
    ensures ReleaseGroup(part, codec) == TrimPrefix(part[i + |codec|..], "-")
  {
    ReleaseGroupUnfold(part, codec, i);
    var after := TrimPrefix(part[i + |codec|..], "-");
    NoDotAfterDash(part, i + |codec|);
    assert !HasPrefix(after, ".") by {
      if |after| >= 1 {
        assert after[0] != '.';
      }
    }
  }

  lemma ReleaseGroupUnfold(part: string, codec: string, i: int)
    requires 0 <= i && i + |codec| <= |part| && IndexOf(Lower(part), Lower(codec)) == i
    ensures ReleaseGroup(part, codec) == TrimPrefix(TrimPrefix(part[i + |codec|..], "-"), ".")
  {
  }

  lemma NoDotAfterDash(s: string, k: nat)
    requires k <= |s| && '.' !in s
    ensures var t := TrimPrefix(s[k..], "-"); forall m :: 0 <= m < |t| ==> t[m] != '.'
  {
    var t := TrimPrefix(s[k..], "-");
    TrimPrefixSpec(s[k..], "-");
    assert t == s[|s| - |t|..];
    forall m | 0 <= m < |t| ensures t[m] != '.' {
      assert t[m] == s[|s| - |t| + m];
    }
  }

  // ---------------------------------------------------------------------------
  // extractSourceAndCodec

  /** The outputs of `f` on the elements of `xs`, concatenated in order. */
  function ConcatMap(xs: seq<string>, f: string -> seq<string>): seq<string> {
    if xs == [] then []
    else ConcatMap(xs[..|xs| - 1], f) + f(xs[|xs| - 1])
  }

  /** The first non-empty value of `f` over `xs`, scanning left to right; "" when none. */
  function FirstNonEmpty(xs: seq<string>, f: string -> string): string {
    if xs == [] then ""
    else
      var c := FirstNonEmpty(xs[..|xs| - 1], f);
      if c != "" then c else f(xs[|xs| - 1])
  }

  /** What one trimmed token adds to the source list: nothing if it is empty; itself if it
      carries no codec; otherwise its release group, if that is not empty. */
  function TokenOutput(p: string): seq<string> {
    if p == "" then []
    else
      var c := CodecOf(p);
      if c == "" then [p]
      else
        var g := ReleaseGroup(p, c);
        if g == "" then [] else [g]
  }

  /** What one split part (before trimming) adds to the source list. */
  function PartTokens(part: string): seq<string> {
    TokenOutput(TrimSpace(part))
  }

  /** The codec one split part carries, after trimming; "" when none (an empty part is
      skipped without a search). */
  function PartCodec(part: string): string {
    var t := TrimSpace(part);
    if t == "" then "" else CodecOf(t)
  }

  /** The source tokens produced by a sequence of split parts, in order. */
  function SourceTokens(parts: seq<string>): seq<string> {
    ConcatMap(parts, PartTokens)
  }

  /** The codec recorded from a sequence of split parts: that of the first part carrying one. */
  function FirstCodec(parts: seq<string>): string {
    FirstNonEmpty(parts, PartCodec)
  }

  /** The (source, codec) pair extractSourceAndCodec returns. */
  function SourceAndCodec(combined: string): (string, string) {
    if combined == "" then ("", "")
    else
      var parts := Split(combined, '.');
      var tokens := SourceTokens(parts);
      (if |tokens| > 0 then Join(tokens, ".") else "", FirstCodec(parts))
  }

  /** extractSourceAndCodec: scan the dot-separated parts in order, recording the first codec
      and replacing every codec-bearing part by its release group. */
  method ExtractSourceAndCodec(combined: string) returns (source: string, codec: string)
    ensures (source, codec) == SourceAndCodec(combined)
  {
    if combined == "" {
      return "", "";
    }
    var parts := Split(combined, '.');
    var sourceParts: seq<string> := [];
    codec := "";
    var i := 0;
    while i < |parts|
      invariant 0 <= i <= |parts|
      invariant sourceParts == SourceTokens(parts[..i])
      invariant codec == FirstCodec(parts[..i])
    {
      ConcatMapStep(parts, i, PartTokens);
      FirstNonEmptyStep(parts, i, PartCodec);
      var part := TrimSpace(parts[i]);
      if part != "" {
        var codecPart := CodecOf(part);
        if codecPart != "" {
          if codec == "" {
            codec := codecPart;
          }
          var releaseGroup := ReleaseGroup(part, codecPart);
          PartOutcome(parts[i], part, codecPart, releaseGroup);
          if releaseGroup != "" {
            sourceParts := sourceParts + [releaseGroup];
          }
        } else {
          PartOutcome(parts[i], part, codecPart, "");
          sourceParts := sourceParts + [part];
        }
      } else {
        BlankPartOutcome(parts[i]);
      }
      i := i + 1;
    }
    assert parts[..|parts|] == parts;
    source := "";
    if |sourceParts| > 0 {
      source := Join(sourceParts, ".");
    }
  }

  /** What the loop body adds for a non-blank part, in terms of the values it computed. */
  lemma PartOutcome(p: string, part: string, codec: string, group: string)
    requires part == TrimSpace(p) && part != "" && codec == CodecOf(part)
    requires codec != "" ==> group == ReleaseGroup(part, codec)
    ensures PartTokens(p) == if codec == "" then [part] else if group == "" then [] else [group]
    ensures PartCodec(p) == codec
  {
  }

  /** What one part of the split source adds, in terms of the part itself: nothing when it
      is blank; the trimmed part when it carries no codec; otherwise at most one token, its
      release group, which is the text after the codec's first case-insensitive occurrence
      in the part, less one leading '-'. */
  lemma PartContribution(part: string) returns (i: nat)
    requires '.' !in part
    ensures TrimSpace(part) == "" ==> PartTokens(part) == [] && PartCodec(part) == ""
    ensures var t := TrimSpace(part);
      t != "" && CodecOf(t) == "" ==> PartTokens(part) == [t] && PartCodec(part) == ""
    ensures var t := TrimSpace(part);
      t != "" && CodecOf(t) != "" ==>
        var c := CodecOf(t);
        && i == IndexOf(Lower(t), Lower(c))
        && i + |c| <= |t| && c == t[i..i + |c|]
        && ReleaseGroup(t, c) == TrimPrefix(t[i + |c|..], "-")
        && PartCodec(part) == c
        && PartTokens(part) == (if ReleaseGroup(t, c) == "" then [] else [ReleaseGroup(t, c)])
  {
    i := 0;
    var t := TrimSpace(part);
    if t == "" {
      BlankPartOutcome(part);
    } else if CodecOf(t) == "" {
      PartOutcome(part, t, "", "");
    } else {
      var c := CodecOf(t);
      i := GroupAfterCodec(part, t, c);
      var g := ReleaseGroup(t, c);
      CodecPartOutcome(part, t, c, g);
    }
  }

  /** In a dot-free part, the trimmed token's release group follows the codec's occurrence. */
  lemma GroupAfterCodec(part: string, t: string, c: string) returns (i: nat)
    requires '.' !in part && t == TrimSpace(part) && t != ""
    requires c == CodecOf(t) && c != ""
    ensures i == IndexOf(Lower(t), Lower(c))
    ensures i + |c| <= |t| && c == t[i..i + |c|]
    ensures ReleaseGroup(t, c) == TrimPrefix(t[i + |c|..], "-")
  {
    NoDotAfterTrim(part);
    i := ReleaseGroupAfterCodec(t);
  }

  lemma CodecPartOutcome(part: string, t: string, c: string, g: string)
    requires t == TrimSpace(part) && t != ""
    requires c == CodecOf(t) && c != "" && g == ReleaseGroup(t, c)
    ensures PartCodec(part) == c
    ensures PartTokens(part) == if g == "" then [] else [g]
  {
    PartOutcome(part, t, c, g);
  }

  lemma NoDotAfterTrim(part: string)
    requires '.' !in part
    ensures '.' !in TrimSpace(part)
  {
    var t := TrimSpace(part);
    var a := TrimSpaceSlice(part);
    forall k | 0 <= k < |t| ensures t[k] != '.' {
      assert t[k] == part[a + k];
    }
  }

  /** A part that trims to "" adds nothing and carries no codec. */
  lemma BlankPartOutcome(p: string)
    requires TrimSpace(p) == ""
    ensures PartTokens(p) == [] && PartCodec(p) == ""
  {
  }

  lemma ConcatMapStep(xs: seq<string>, i: nat, f: string -> seq<string>)
    requires i < |xs|
    ensures ConcatMap(xs[..i + 1], f) == ConcatMap(xs[..i], f) + f(xs[i])
  {
    assert xs[..i + 1][..i] == xs[..i];
  }

  lemma FirstNonEmptyStep(xs: seq<string>, i: nat, f: string -> string)
    requires i < |xs|
    ensures FirstNonEmpty(xs[..i + 1], f) ==
      if FirstNonEmpty(xs[..i], f) != "" then FirstNonEmpty(xs[..i], f) else f(xs[i])
  {
    assert xs[..i + 1][..i] == xs[..i];
  }

  // ---------------------------------------------------------------------------
  // Properties of the splitter

  lemma ConcatMapSnoc(xs: seq<string>, x: string, f: string -> seq<string>)
    ensures ConcatMap(xs + [x], f) == ConcatMap(xs, f) + f(x)
  {
    assert (xs + [x])[..|xs|] == xs;
  }

  /** The mapping works element by element: the output of a concatenation is the
      concatenation of the outputs, so no element's output moves relative to another's. */
  lemma {:induction false} ConcatMapAppend(a: seq<string>, b: seq<string>, f: string -> seq<string>)
    ensures ConcatMap(a + b, f) == ConcatMap(a, f) + ConcatMap(b, f)
    decreases |b|
  {
    if b == [] {
      assert a + b == a;
    } else {
      var b', last := b[..|b| - 1], b[|b| - 1];
      assert a + b == (a + b') + [last];
      assert b == b' + [last];
      ConcatMapSnoc(a + b', last, f);
      ConcatMapSnoc(b', last, f);
      ConcatMapAppend(a, b', f);
    }
  }

  /** Two mappings that agree on every element give the same output. */
  lemma {:induction false} ConcatMapAgree(xs: seq<string>, f: string -> seq<string>, g: string -> seq<string>)
    requires forall i :: 0 <= i < |xs| ==> f(xs[i]) == g(xs[i])
    ensures ConcatMap(xs, f) == ConcatMap(xs, g)
  {
    if xs != [] {
      var init := xs[..|xs| - 1];
      assert forall i :: 0 <= i < |init| ==> init[i] == xs[i];
      ConcatMapAgree(init, f, g);
    }
  }

  /** A mapping that keeps every element as it is leaves the sequence unchanged. */
  lemma {:induction false} ConcatMapKeep(xs: seq<string>, f: string -> seq<string>)
    requires forall i :: 0 <= i < |xs| ==> f(xs[i]) == [xs[i]]
    ensures ConcatMap(xs, f) == xs
  {
    if xs != [] {
      var init := xs[..|xs| - 1];
      assert forall i :: 0 <= i < |init| ==> init[i] == xs[i];
      ConcatMapKeep(init, f);
      assert xs == init + [xs[|xs| - 1]];
    }
  }

  /** The scan result is "" exactly when `f` is "" everywhere; otherwise it is the value at
      the first element where `f` is not "". */
  lemma {:induction false} FirstNonEmptyIsFirst(xs: seq<string>, f: string -> string)
    ensures FirstNonEmpty(xs, f) == "" <==> forall i :: 0 <= i < |xs| ==> f(xs[i]) == ""
    ensures FirstNonEmpty(xs, f) != "" ==>
      exists i :: 0 <= i < |xs| && FirstNonEmpty(xs, f) == f(xs[i])
        && forall j :: 0 <= j < i ==> f(xs[j]) == ""
  {
    if xs != [] {
      var init := xs[..|xs| - 1];
      assert forall i :: 0 <= i < |init| ==> init[i] == xs[i];
      FirstNonEmptyIsFirst(init, f);
      if FirstNonEmpty(init, f) == "" && f(xs[|xs| - 1]) != "" {
        assert FirstNonEmpty(xs, f) == f(xs[|init|]);
      }
    }
  }

  /** The recorded codec is "" exactly when no part carries one; otherwise it is the codec
      of the first part that does. */
  lemma FirstCodecIsFirst(parts: seq<string>)
    ensures FirstCodec(parts) == "" <==> forall i :: 0 <= i < |parts| ==> PartCodec(parts[i]) == ""
    ensures FirstCodec(parts) != "" ==>
      exists i :: 0 <= i < |parts| && FirstCodec(parts) == PartCodec(parts[i])
        && forall j :: 0 <= j < i ==> PartCodec(parts[j]) == ""
  {
    FirstNonEmptyIsFirst(parts, PartCodec);
  }

  /** The source tokens of a concatenation of parts are the concatenation of their tokens. */
  lemma SourceTokensAppend(a: seq<string>, b: seq<string>)
    ensures SourceTokens(a + b) == SourceTokens(a) + SourceTokens(b)
  {
    ConcatMapAppend(a, b, PartTokens);
  }

  /** A part trimmed, and dropped when it is empty. */
  function NonBlankPart(part: string): seq<string> {
    var t := TrimSpace(part);
    if t == "" then [] else [t]
  }

  /** With no codec anywhere: the codec is "" and the source is the non-empty trimmed parts
      re-joined with '.'. */
  lemma NoCodecSource(combined: string)
    requires forall p :: p in Split(combined, '.') ==> PartCodec(p) == ""
    ensures var kept := ConcatMap(Split(combined, '.'), NonBlankPart);
      SourceAndCodec(combined) == (if |kept| > 0 then Join(kept, ".") else "", "")
  {
    var parts := Split(combined, '.');
    forall i | 0 <= i < |parts| ensures PartTokens(parts[i]) == NonBlankPart(parts[i]) {
      assert parts[i] in parts;
      var t := TrimSpace(parts[i]);
      if t == "" {
        BlankPartOutcome(parts[i]);
      } else {
        PartOutcome(parts[i], t, "", "");
      }
    }
    ConcatMapAgree(parts, PartTokens, NonBlankPart);
    FirstNonEmptyIsFirst(parts, PartCodec);
  }

  /** With no codec anywhere and every part already trimmed and non-empty, the source is
      the input itself and the codec is "". */
  lemma NoCodecCleanSource(combined: string)
    requires combined != ""
    requires forall p :: p in Split(combined, '.') ==> PartCodec(p) == "" && p != "" && TrimSpace(p) == p
    ensures SourceAndCodec(combined) == (combined, "")
  {
    var parts := Split(combined, '.');
    NoCodecSource(combined);
    forall i | 0 <= i < |parts| ensures NonBlankPart(parts[i]) == [parts[i]] {
      assert parts[i] in parts;
    }
    ConcatMapKeep(parts, NonBlankPart);
    JoinSplit(combined, '.');
  }
}
