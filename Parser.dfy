/** The filename parser (internal/parser/parser.go): the ordered pattern list, building a
    media record from a match, the season/episode rules and the record's validation.
    Each regular expression is abstracted as a recogniser from the cleaned name to the
    texts of its named groups. */
module Parser {
  import opened Wrappers
  import opened Strings
  import opened Models
  import opened Normalize
  import opened SourceCodec

  // ---------------------------------------------------------------------------
  // Patterns and their matches

  /** The named capture groups the patterns declare. */
  datatype Slot =
    | TitleSlot | YearSlot | SeasonSlot | EpisodeSlot | AltEpisodeSlot
    | QualitySlot | SourceSlot | ExtSlot

  /** The named groups of one match: each group the pattern declares maps to the text it
      matched, "" when an optional group took no part. */
  type Captures = map<Slot, string>

  /** One entry of the parser's pattern list. Kind is "tv" or "movie"; Recognize stands for
      the pattern's regular expression: None when it does not match. */
  datatype PatternMatcher = PatternMatcher(
    Name: string,
    Kind: string,
    Example: string,
    Recognize: string -> Option<Captures>)

  /** Name, kind and example of the nine patterns, in the order the parser tries them. */
  const PatternTable: seq<(string, string, string)> := [
    ("TV with Year (SxxExx)", "tv", "Dark.Matter.2024.S01E01.1080p.x265-ELiTE.mkv"),
    ("TV with Year (xXx format)", "tv", "Series.Name.2024.1x01.720p.WEB-DL.mkv"),
    ("TV without Year (SxxExx)", "tv", "The.Office.S03E07.720p.BluRay.x264.mkv"),
    ("TV without Year (SxxExx, no ext)", "tv", "The.Office.S03E07.720p.BluRay.x264"),
    ("TV Alternative (xXx format)", "tv", "Series.Name.1x01.720p.WEB-DL.mkv"),
    ("TV Alternative (3-digit format)", "tv", "Series.Name.101.720p.x264.mkv"),
    ("Movie", "movie", "Inception.2010.1080p.BluRay.x264-SPARKS.mkv"),
    ("Movie (no extension)", "movie", "Movie.Name.2023.1080p.BluRay.x264"),
    ("Movie (no quality)", "movie", "Movie.Name.2023.BluRay.x264-GROUP.mp4")
  ]

  /** compilePatterns: the pattern list, given one recogniser per table entry. */
  function CompilePatterns(recognizers: seq<string -> Option<Captures>>): (ps: seq<PatternMatcher>)
    requires |recognizers| == |PatternTable|
    ensures |ps| == |PatternTable|
    ensures forall k :: 0 <= k < |ps| ==> ps[k].Kind == "tv" || ps[k].Kind == "movie"
    ensures forall k :: 0 <= k < |ps| ==>
      (ps[k].Name, ps[k].Kind, ps[k].Example) == PatternTable[k] && ps[k].Recognize == recognizers[k]
  {
    seq(|PatternTable|, k requires 0 <= k < |PatternTable| =>
      PatternMatcher(PatternTable[k].0, PatternTable[k].1, PatternTable[k].2, recognizers[k]))
  }

  /** The match map: every captured text with surrounding white space trimmed. */
  function MatchMap(raw: Captures): Captures {
    map s | s in raw :: TrimSpace(raw[s])
  }

  /** The text of a slot, "" when the pattern has no such group. */
  function Lookup(m: Captures, slot: Slot): string {
    if slot in m then m[slot] else ""
  }

  /** Builds the match map one group at a time, as extractMediaInfo does. */
  method BuildMatchMap(raw: Captures) returns (m: Captures)
    ensures m == MatchMap(raw)
  {
    m := map[];
    var todo := raw.Keys;
    while todo != {}
      invariant todo <= raw.Keys
      invariant m.Keys == raw.Keys - todo
      invariant forall s :: s in m ==> m[s] == TrimSpace(raw[s])
      decreases todo
    {
      var s :| s in todo;
      m := m[s := TrimSpace(raw[s])];
      todo := todo - {s};
    }
  }

  // ---------------------------------------------------------------------------
  // extractSeasonEpisode

  /** The text parses (strconv.Atoi) to a number in lo..hi. */
  predicate NumberIn(s: string, lo: int, hi: int) {
    Atoi(s).Some? && lo <= Atoi(s).value <= hi
  }

  /** The compact token split into season and episode: the first character and the rest for
      three characters, the first two and the rest for four. Any other length, a part that
      does not parse, or a part below 1 gives None. */
  function AltSeasonEpisode(alt: string): (r: Option<(int, int)>)
    ensures r.Some? ==> (|alt| == 3 || |alt| == 4) && r.value.0 >= 1 && r.value.1 >= 1
  {
    if |alt| != 3 && |alt| != 4 then None
    else
      var cut := if |alt| == 3 then 1 else 2;
      var s, e := Atoi(alt[..cut]), Atoi(alt[cut..]);
      if s.Some? && e.Some? && s.value >= 1 && e.value >= 1 then Some((s.value, e.value)) else None
  }

  /** The explicit numbers of extractSeasonEpisode: a given season must parse to 1..99 and a
      given episode to 1..999; a number not given is 0. */
  function ExplicitNumbers(m: Captures): Result<(int, int), string> {
    var s, e := Lookup(m, SeasonSlot), Lookup(m, EpisodeSlot);
    if s != "" && !NumberIn(s, 1, 99) then Err("invalid season number: " + s)
    else if e != "" && !NumberIn(e, 1, 999) then Err("invalid episode number: " + e)
    else Ok((if s != "" then Atoi(s).value else 0, if e != "" then Atoi(e).value else 0))
  }

  /** The rest of extractSeasonEpisode: the compact token when neither explicit number was
      given, then both numbers must be set. */
  function CompleteNumbers(alt: string, season: int, episode: int): Result<(int, int), string> {
    if alt != "" && season == 0 && episode == 0 && AltSeasonEpisode(alt).None? then
      Err("invalid alternative episode format: " + alt)
    else
      var (season', episode') :=
        if alt != "" && season == 0 && episode == 0 then AltSeasonEpisode(alt).value
        else (season, episode);
      if season' == 0 || episode' == 0 then Err("season and episode must be specified for TV shows")
      else Ok((season', episode'))
  }

  /** extractSeasonEpisode on a match map: explicit numbers first (season 1..99, episode
      1..999), then the compact token when neither explicit number was given, and both
      numbers must end up set. */
  function SeasonEpisodeOf(m: Captures): Result<(int, int), string> {
    match ExplicitNumbers(m)
    case Err(msg) => Err(msg)
    case Ok((season, episode)) => CompleteNumbers(Lookup(m, AltEpisodeSlot), season, episode)
  }

  /** extractSeasonEpisode, updating the two numbers step by step. */
  method ExtractSeasonEpisode(m: Captures) returns (r: Result<(int, int), string>)
    ensures r == SeasonEpisodeOf(m)
  {
    var season, episode := 0, 0;
    var s := Lookup(m, SeasonSlot);
    if s != "" {
      var parsed := Atoi(s);
      if parsed.None? || parsed.value < 1 || parsed.value > 99 {
        return Err("invalid season number: " + s);
      }
      season := parsed.value;
    }
    var e := Lookup(m, EpisodeSlot);
    if e != "" {
      var parsed := Atoi(e);
      if parsed.None? || parsed.value < 1 || parsed.value > 999 {
        return Err("invalid episode number: " + e);
      }
      episode := parsed.value;
    }
    assert ExplicitNumbers(m) == Ok((season, episode));
    var alt := Lookup(m, AltEpisodeSlot);
    if alt != "" && season == 0 && episode == 0 {
      var ok := false;
      if |alt| == 3 || |alt| == 4 {
        var cut := if |alt| == 3 then 1 else 2;
        var ps := Atoi(alt[..cut]);
        if ps.Some? {
          var pe := Atoi(alt[cut..]);
          if pe.Some? {
            season, episode := ps.value, pe.value;
            ok := true;
          }
        }
      }
      if !ok || season < 1 || episode < 1 {
        return Err("invalid alternative episode format: " + alt);
      }
    }
    if season == 0 || episode == 0 {
      return Err("season and episode must be specified for TV shows");
    }
    return Ok((season, episode));
  }

  /** On success both numbers are set: the season is 1..99 and the episode 1..999. */
  lemma SeasonEpisodeRange(m: Captures)
    requires SeasonEpisodeOf(m).Ok?
    ensures var (season, episode) := SeasonEpisodeOf(m).value;
      1 <= season <= 99 && 1 <= episode <= 999
  {
    var s, e, alt := Lookup(m, SeasonSlot), Lookup(m, EpisodeSlot), Lookup(m, AltEpisodeSlot);
    var season := if s != "" then Atoi(s).value else 0;
    var episode := if e != "" then Atoi(e).value else 0;
    if alt != "" && season == 0 && episode == 0 {
      var cut := if |alt| == 3 then 1 else 2;
      assert |alt[..cut]| <= 2 && |alt[cut..]| <= 2;
      AtoiBound(alt[..cut]);
      AtoiBound(alt[cut..]);
    }
  }

  /** A parsed text of at most two characters is below 100. */
  lemma AtoiBound(s: string)
    requires |s| <= 2
    ensures Atoi(s).Some? ==> Atoi(s).value < 100
  {
    var signed := |s| > 0 && (s[0] == '-' || s[0] == '+');
    var digits := if signed then s[1..] else s;
    if digits != [] && AllDigits(digits) {
      Pow10Monotone(|digits|, 2);
      assert Pow10(2) == 100;
    }
  }

  /** Two explicit digit strings that parse in range give exactly their values. */
  lemma SeasonEpisodeExplicit(m: Captures)
    requires var s, e := Lookup(m, SeasonSlot), Lookup(m, EpisodeSlot);
      1 <= |s| <= 2 && AllDigits(s) && DigitsValue(s) >= 1
      && 1 <= |e| <= 3 && AllDigits(e) && DigitsValue(e) >= 1
    ensures SeasonEpisodeOf(m) ==
      Ok((DigitsValue(Lookup(m, SeasonSlot)), DigitsValue(Lookup(m, EpisodeSlot))))
  {
    var s, e := Lookup(m, SeasonSlot), Lookup(m, EpisodeSlot);
    AtoiDigits(s);
    AtoiDigits(e);
    Pow10Monotone(|s|, 2);
    Pow10Monotone(|e|, 3);
    assert Pow10(3) == 1000;
  }

  /** Without explicit numbers, a three-digit compact token splits one plus two digits and a
      four-digit token two plus two; a zero part is rejected with the token in the message. */
  lemma SeasonEpisodeCompact(m: Captures)
    requires Lookup(m, SeasonSlot) == "" && Lookup(m, EpisodeSlot) == ""
    requires var alt := Lookup(m, AltEpisodeSlot); (|alt| == 3 || |alt| == 4) && AllDigits(alt)
    ensures var alt := Lookup(m, AltEpisodeSlot);
      var cut := |alt| - 2;
      var season, episode := DigitsValue(alt[..cut]), DigitsValue(alt[cut..]);
      SeasonEpisodeOf(m) ==
        if season >= 1 && episode >= 1 then Ok((season, episode))
        else Err("invalid alternative episode format: " + alt)
  {
    var alt := Lookup(m, AltEpisodeSlot);
    var cut := |alt| - 2;
    assert AllDigits(alt[..cut]) && AllDigits(alt[cut..]);
    AtoiDigits(alt[..cut]);
    AtoiDigits(alt[cut..]);
  }

  /** A given season outside 1..99, or a given episode outside 1..999, is rejected with a
      message naming it; the season is checked first. */
  lemma SeasonEpisodeRejects(m: Captures)
    ensures var s := Lookup(m, SeasonSlot);
      s != "" && !NumberIn(s, 1, 99) ==> SeasonEpisodeOf(m) == Err("invalid season number: " + s)
    ensures var s, e := Lookup(m, SeasonSlot), Lookup(m, EpisodeSlot);
      (s == "" || NumberIn(s, 1, 99)) && e != "" && !NumberIn(e, 1, 999) ==>
        SeasonEpisodeOf(m) == Err("invalid episode number: " + e)
  {
  }

  /** A compact token of any length other than three or four is rejected. */
  lemma SeasonEpisodeCompactLength(m: Captures)
    requires Lookup(m, SeasonSlot) == "" && Lookup(m, EpisodeSlot) == ""
    requires var alt := Lookup(m, AltEpisodeSlot); alt != "" && |alt| != 3 && |alt| != 4
    ensures SeasonEpisodeOf(m) == Err("invalid alternative episode format: " + Lookup(m, AltEpisodeSlot))
  {
  }

  /** "315" is season 3, episode 15. */
  lemma SeasonEpisodeThreeDigits()
    ensures SeasonEpisodeOf(map[AltEpisodeSlot := "315"]) == Ok((3, 15))
  {
    var m: Captures := map[AltEpisodeSlot := "315"];
    assert Lookup(m, AltEpisodeSlot)[..1] == "3" && Lookup(m, AltEpisodeSlot)[1..] == "15";
    SeasonEpisodeCompact(m);
  }

  /** "1024" is season 10, episode 24, also when the explicit groups matched empty text. */
  lemma SeasonEpisodeFourDigits()
    ensures SeasonEpisodeOf(map[SeasonSlot := "", EpisodeSlot := "", AltEpisodeSlot := "1024"]) == Ok((10, 24))
  {
    var m: Captures := map[SeasonSlot := "", EpisodeSlot := "", AltEpisodeSlot := "1024"];
    assert Lookup(m, AltEpisodeSlot)[..2] == "10" && Lookup(m, AltEpisodeSlot)[2..] == "24";
    SeasonEpisodeCompact(m);
  }

  // ---------------------------------------------------------------------------
  // validateMediaInfo

  /** The year text parses to a year from 1900 to 2030. */
  predicate YearInRange(year: string) {
    NumberIn(year, 1900, 2030)
  }

  /** What a record must satisfy to be returned: a title, both numbers for an episode, and a
      plausible year when there is one. */
  predicate ValidRecord(info: MediaInfo) {
    && info.Title != ""
    && (info.IsEpisode() ==> info.HasSeasonEpisode())
    && (info.Year != "" ==> YearInRange(info.Year))
  }

  /** validateMediaInfo: the message of the first check that fails, or None. */
  function ValidateMediaInfo(info: MediaInfo): Option<string> {
    if info.Title == "" then Some("title cannot be empty")
    else if info.Type == "episode" && !info.HasSeasonEpisode() then
      Some("TV episodes must have valid season and episode numbers")
    else if info.Year != "" && !YearInRange(info.Year) then Some("invalid year: " + info.Year)
    else None
  }

  /** Validation passes exactly on valid records, and the checks run in a fixed order: the
      title first, then the episode numbers, then the year. */
  lemma ValidateMediaInfoSpec(info: MediaInfo)
    ensures ValidateMediaInfo(info).None? <==> ValidRecord(info)
    ensures info.Title == "" ==> ValidateMediaInfo(info) == Some("title cannot be empty")
    ensures info.Title != "" && info.IsEpisode() && !info.HasSeasonEpisode() ==>
      ValidateMediaInfo(info) == Some("TV episodes must have valid season and episode numbers")
    ensures (info.Title != "" && (info.IsEpisode() ==> info.HasSeasonEpisode())
             && info.Year != "" && !YearInRange(info.Year)) ==>
      ValidateMediaInfo(info) == Some("invalid year: " + info.Year)
  {
  }

  /** For a four-digit year the check is the plain numeric range. */
  lemma YearDigits(year: string)
    requires |year| == 4 && AllDigits(year)
    ensures YearInRange(year) <==> 1900 <= DigitsValue(year) <= 2030
  {
    AtoiDigits(year);
  }

  // ---------------------------------------------------------------------------
  // extractMediaInfo

  /** The record a match map describes, with the given type and numbers; absent texts
      stay "". */
  function RecordOf(m: Captures, kind: string, season: int, episode: int): MediaInfo {
    var (src, codec) := SourceCodecOf(m);
    MediaInfo(
      Title := TitleOf(m),
      Year := Lookup(m, YearSlot),
      Season := season,
      Episode := episode,
      Quality := Lookup(m, QualitySlot),
      Source := src,
      Codec := codec,
      Language := "",
      Type := kind)
  }

  /** The cleaned title group, "" when the pattern has none. */
  function TitleOf(m: Captures): string {
    if TitleSlot in m then CleanTitle(m[TitleSlot]) else ""
  }

  /** The source and codec split out of the source group, both "" when it is empty. */
  function SourceCodecOf(m: Captures): (string, string) {
    var source := Lookup(m, SourceSlot);
    if source != "" then SourceAndCodec(source) else ("", "")
  }

  /** The record if it passes validation, otherwise the validation message. */
  function Checked(info: MediaInfo): (r: Result<MediaInfo, string>)
    ensures r.Ok? ==> r.value == info && ValidRecord(info)
    ensures r.Err? ==> !ValidRecord(info)
  {
    ValidateMediaInfoSpec(info);
    match ValidateMediaInfo(info)
    case Some(msg) => Err(msg)
    case None => Ok(info)
  }

  /** extractMediaInfo on a match map: for a "tv" pattern the season and episode come first
      and the record becomes an "episode"; then the record is validated. */
  function MediaInfoFrom(m: Captures, kind: string): Result<MediaInfo, string> {
    if kind == "tv" then
      match SeasonEpisodeOf(m)
      case Err(msg) => Err(msg)
      case Ok((season, episode)) => Checked(RecordOf(m, "episode", season, episode))
    else Checked(RecordOf(m, kind, 0, 0))
  }

  /** extractMediaInfo: builds the match map, then fills the record field by field. */
  method ExtractMediaInfo(raw: Captures, pattern: PatternMatcher) returns (r: Result<MediaInfo, string>)
    ensures r == MediaInfoFrom(MatchMap(raw), pattern.Kind)
  {
    var m := BuildMatchMap(raw);
    var info := MediaInfo("", "", 0, 0, "", "", "", "", pattern.Kind);
    if TitleSlot in m {
      info := info.(Title := CleanTitle(m[TitleSlot]));
    }
    if YearSlot in m && m[YearSlot] != "" {
      info := info.(Year := m[YearSlot]);
    }
    if pattern.Kind == "tv" {
      var se := ExtractSeasonEpisode(m);
      if se.Err? {
        return Err(se.error);
      }
      info := info.(Season := se.value.0, Episode := se.value.1, Type := "episode");
    }
    if QualitySlot in m && m[QualitySlot] != "" {
      info := info.(Quality := m[QualitySlot]);
    }
    if SourceSlot in m && m[SourceSlot] != "" {
      var src, codec := ExtractSourceAndCodec(m[SourceSlot]);
      info := info.(Source := src, Codec := codec);
    }
    var err := ValidateMediaInfo(info);
    if err.Some? {
      return Err(err.value);
    }
    return Ok(info);
  }

  /** A record built from a match is valid; a "tv" match gives an episode numbered within
      range, any other kind keeps its kind and no numbers. */
  lemma MediaInfoFromValid(m: Captures, kind: string)
    requires MediaInfoFrom(m, kind).Ok?
    ensures var info := MediaInfoFrom(m, kind).value;
      && ValidRecord(info)
      && (kind == "tv" ==> info.IsEpisode() && 1 <= info.Season <= 99 && 1 <= info.Episode <= 999)
      && (kind != "tv" ==> info.Type == kind && info.Season == 0 && info.Episode == 0)
  {
    if kind == "tv" {
      SeasonEpisodeRange(m);
    }
  }


  // ---------------------------------------------------------------------------
  // Parse

  /** What one pattern yields on a cleaned name: the record, if the pattern matches and the
      record survives extraction and validation. */
  function Accept(p: PatternMatcher, clean: string): Option<MediaInfo> {
    match p.Recognize(clean)
    case None => None
    case Some(raw) =>
      match MediaInfoFrom(MatchMap(raw), p.Kind)
      case Ok(info) => Some(info)
      case Err(_) => None
  }

  /** A "tv" pattern whose match gives a season outside 1..99 or an episode outside 1..999
      yields no record, whatever the title: the search goes on to the next pattern. */
  lemma OutOfRangeNotAccepted(p: PatternMatcher, clean: string)
    requires p.Kind == "tv" && p.Recognize(clean).Some?
    requires var m := MatchMap(p.Recognize(clean).value);
      var s, e := Lookup(m, SeasonSlot), Lookup(m, EpisodeSlot);
      (s != "" && !NumberIn(s, 1, 99)) || (e != "" && !NumberIn(e, 1, 999))
    ensures Accept(p, clean) == None
  {
    SeasonEpisodeRejects(MatchMap(p.Recognize(clean).value));
  }

  /** The first value `f` yields over the patterns from index k on, None when there is none. */
  function FirstSome(ps: seq<PatternMatcher>, f: PatternMatcher -> Option<MediaInfo>, k: nat): Option<MediaInfo>
    requires k <= |ps|
    decreases |ps| - k
  {
    if k == |ps| then None
    else if f(ps[k]).Some? then f(ps[k])
    else FirstSome(ps, f, k + 1)
  }

  /** The record of the first pattern from index k on that accepts the cleaned name. */
  function FirstAccepted(ps: seq<PatternMatcher>, clean: string, k: nat): Option<MediaInfo>
    requires k <= |ps|
  {
    FirstSome(ps, p => Accept(p, clean), k)
  }

  const ParseErrorPrefix: string := "unable to parse filename '"

  const ParseErrorSuffix: string :=
    "': expected formats like:\n"
    + "  TV Show: Series.Name.S01E01.720p.x264-GROUP.mkv\n"
    + "  TV Show with Year: Series.Name.2024.S01E01.1080p.x265-GROUP.mkv\n"
    + "  Alternative TV: Series.Name.1x01.720p.WEB-DL.mkv\n"
    + "  Movie: Movie.Name.2023.1080p.BluRay.x264-GROUP.mp4"

  /** The error Parse returns when no pattern accepts the name. */
  function ParseFailure(filename: string): string {
    ParseErrorPrefix + filename + ParseErrorSuffix
  }

  /** Parse: the first accepted record for the cleaned name, or the failure message. */
  function ParseSpec(ps: seq<PatternMatcher>, filename: string): Result<MediaInfo, string> {
    match FirstAccepted(ps, Normalized(filename), 0)
    case Some(info) => Ok(info)
    case None => Err(ParseFailure(filename))
  }

  /** Parse: clean the name, then try the patterns in order; a pattern that does not match,
      or whose record is rejected, passes to the next one. */
  method Parse(ps: seq<PatternMatcher>, filename: string) returns (r: Result<MediaInfo, string>)
    ensures r == ParseSpec(ps, filename)
  {
    var clean := CleanFilename(filename);
    var i := 0;
    while i < |ps|
      invariant 0 <= i <= |ps|
      invariant FirstAccepted(ps, clean, 0) == FirstAccepted(ps, clean, i)
    {
      var matches := ps[i].Recognize(clean);
      if matches.Some? {
        var info := ExtractMediaInfo(matches.value, ps[i]);
        if info.Ok? {
          return Ok(info.value);
        }
      }
      i := i + 1;
    }
    return Err(ParseFailure(filename));
  }

  /** The search from k finds nothing exactly when `f` yields nothing from k on; otherwise it
      returns what `f` yields on the first pattern where it yields something. */
  lemma {:induction false} FirstSomeSpec(ps: seq<PatternMatcher>, f: PatternMatcher -> Option<MediaInfo>, k: nat)
    requires k <= |ps|
    ensures var r := FirstSome(ps, f, k);
      && (r.None? <==> forall j :: k <= j < |ps| ==> f(ps[j]).None?)
      && (r.Some? ==> exists j :: (k <= j < |ps| && f(ps[j]) == r
            && forall l :: k <= l < j ==> f(ps[l]).None?))
    decreases |ps| - k
  {
    if k < |ps| && f(ps[k]).None? {
      FirstSomeSpec(ps, f, k + 1);
    }
  }

  /** The same, for the patterns' own outcomes on a cleaned name. */
  lemma FirstAcceptedSpec(ps: seq<PatternMatcher>, clean: string)
    ensures var r := FirstAccepted(ps, clean, 0);
      && (r.None? <==> forall j :: 0 <= j < |ps| ==> Accept(ps[j], clean).None?)
      && (r.Some? ==> exists j :: (0 <= j < |ps| && Accept(ps[j], clean) == r
            && forall l :: 0 <= l < j ==> Accept(ps[l], clean).None?))
  {
    var f := p => Accept(p, clean);
    FirstSomeSpec(ps, f, 0);
    assert forall j :: 0 <= j < |ps| ==> f(ps[j]) == Accept(ps[j], clean);
  }

  /** Parse returns a record exactly when some pattern accepts the cleaned name, and then it
      is the record of the first such pattern in list order. */
  lemma ParseFirstWins(ps: seq<PatternMatcher>, filename: string)
    ensures var clean, r := Normalized(filename), ParseSpec(ps, filename);
      && (r.Ok? <==> exists j :: 0 <= j < |ps| && Accept(ps[j], clean).Some?)
      && (r.Ok? ==> exists j :: (0 <= j < |ps| && Accept(ps[j], clean) == Some(r.value)
            && forall l :: 0 <= l < j ==> Accept(ps[l], clean).None?))
  {
    FirstAcceptedSpec(ps, Normalized(filename));
  }

  /** A record that Parse returns is valid, its title is clean, and it is an episode exactly
      when a "tv" pattern produced it. */
  lemma ParseValid(ps: seq<PatternMatcher>, filename: string)
    requires ParseSpec(ps, filename).Ok?
    ensures var info := ParseSpec(ps, filename).value;
      && ValidRecord(info)
      && '.' !in info.Title
      && !IsSpace(info.Title[0]) && !IsSpace(info.Title[|info.Title| - 1])
      && exists j :: (0 <= j < |ps| && Accept(ps[j], Normalized(filename)) == Some(info)
            && (ps[j].Kind == "tv" <==> info.IsEpisode()))
  {
    var clean := Normalized(filename);
    FirstAcceptedSpec(ps, clean);
    var info := ParseSpec(ps, filename).value;
    var j :| 0 <= j < |ps| && Accept(ps[j], clean) == Some(info);
    AcceptedRecord(ps[j], clean);
  }

  /** What one accepting pattern yields: a valid record with a cleaned title, which is an
      episode exactly when the pattern is a "tv" one. */
  lemma AcceptedRecord(p: PatternMatcher, clean: string)
    requires Accept(p, clean).Some?
    ensures var info := Accept(p, clean).value;
      && ValidRecord(info)
      && '.' !in info.Title
      && !IsSpace(info.Title[0]) && !IsSpace(info.Title[|info.Title| - 1])
      && (p.Kind == "tv" <==> info.IsEpisode())
  {
    var m := MatchMap(p.Recognize(clean).value);
    MediaInfoFromValid(m, p.Kind);
    CleanTitleShape(m[TitleSlot]);
  }

  /** With the nine compiled patterns every returned record is an episode or a movie. */
  lemma ParseKinds(recognizers: seq<string -> Option<Captures>>, filename: string)
    requires |recognizers| == |PatternTable|
    requires ParseSpec(CompilePatterns(recognizers), filename).Ok?
    ensures var info := ParseSpec(CompilePatterns(recognizers), filename).value;
      info.IsEpisode() || info.IsMovie()
  {
    var ps := CompilePatterns(recognizers);
    var clean := Normalized(filename);
    FirstAcceptedSpec(ps, clean);
    var info := ParseSpec(ps, filename).value;
    var j :| 0 <= j < |ps| && Accept(ps[j], clean) == Some(info);
    MediaInfoFromValid(MatchMap(ps[j].Recognize(clean).value), ps[j].Kind);
  }

  /** When nothing accepts, the error starts with "unable to parse filename '" followed by the
      filename exactly as given. */
  lemma ParseFailureMentions(ps: seq<PatternMatcher>, filename: string)
    requires ParseSpec(ps, filename).Err?
    ensures var msg := ParseSpec(ps, filename).error;
      && HasPrefix(msg, "unable to parse filename '")
      && OccursAt(msg, filename, |ParseErrorPrefix|)
  {
    var msg := ParseFailure(filename);
    assert msg[..|ParseErrorPrefix|] == ParseErrorPrefix;
    assert msg[|ParseErrorPrefix|..|ParseErrorPrefix| + |filename|] == filename;
  }

  /** Spaces in place of dots, or a leading directory, do not change the parsed record. */
  lemma ParseIgnoresSpacesAndDirectory(ps: seq<PatternMatcher>, dir: string, filename: string)
    ensures ParseSpec(ps, ReplaceChar(filename, ' ', '.')).Ok? <==> ParseSpec(ps, filename).Ok?
    ensures ParseSpec(ps, ReplaceChar(filename, ' ', '.')).Ok? ==>
      ParseSpec(ps, ReplaceChar(filename, ' ', '.')).value == ParseSpec(ps, filename).value
    ensures ParseSpec(ps, dir + "/" + filename).Ok? <==> ParseSpec(ps, filename).Ok?
    ensures ParseSpec(ps, dir + "/" + filename).Ok? ==>
      ParseSpec(ps, dir + "/" + filename).value == ParseSpec(ps, filename).value
  {
    NormalizedSpacesAsDots(filename);
    NormalizedDropsDirectory(dir, filename);
  }
}
