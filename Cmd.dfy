/** The command line front end (cmd/root.go): the argument checks that need no file
    system, the search query built from a parsed record, and the order in which
    validateArguments runs its checks. What the file system reports about the media path
    and the configuration file is passed in as a probe. */
module Cmd {
  import opened Wrappers
  import opened Strings
  import opened Models
  import Parser

  // ---------------------------------------------------------------------------
  // isValidLanguageCode

  predicate IsLowerLetter(c: char) {
    'a' <= c <= 'z'
  }

  predicate IsAsciiLetter(c: char) {
    'a' <= c <= 'z' || 'A' <= c <= 'Z'
  }

  /** The character loop of isValidLanguageCode: every character is a lower-case letter. */
  function AllLowerLetters(s: string): (b: bool)
    ensures b <==> forall i :: 0 <= i < |s| ==> IsLowerLetter(s[i])
  {
    if s == [] then true
    else IsLowerLetter(s[0]) && AllLowerLetters(s[1..])
  }

  /** isValidLanguageCode: after lower-casing, two or three letters ("en", "por"), or two
      letters, a '-' and two letters ("pt-br"). */
  function IsValidLanguageCode(code: string): (b: bool)
    ensures var c := Lower(code);
      b <==> || ((|c| == 2 || |c| == 3) && forall i :: 0 <= i < |c| ==> IsLowerLetter(c[i]))
             || (|c| == 5 && c[2] == '-' && IsLowerLetter(c[0]) && IsLowerLetter(c[1])
                 && IsLowerLetter(c[3]) && IsLowerLetter(c[4]))
  {
    var c := Lower(code);
    if |c| == 2 || |c| == 3 then AllLowerLetters(c)
    else if |c| == 5 && c[2] == '-' then
      assert c[3..][0] == c[3] && c[3..][1] == c[4];
      AllLowerLetters(c[..2]) && AllLowerLetters(c[3..])
    else false
  }

  /** The same test on the code as written: upper-case letters are as good as lower-case. */
  lemma LanguageCodeIgnoresCase(code: string)
    ensures IsValidLanguageCode(code) <==>
      || ((|code| == 2 || |code| == 3) && forall i :: 0 <= i < |code| ==> IsAsciiLetter(code[i]))
      || (|code| == 5 && code[2] == '-' && IsAsciiLetter(code[0]) && IsAsciiLetter(code[1])
          && IsAsciiLetter(code[3]) && IsAsciiLetter(code[4]))
  {
    var c := Lower(code);
    forall i | 0 <= i < |code|
      ensures IsLowerLetter(c[i]) <==> IsAsciiLetter(code[i])
      ensures c[i] == '-' <==> code[i] == '-'
    {
      LowerAt(code, i);
    }
  }

  // ---------------------------------------------------------------------------
  // Validation results and the media-extension warning

  /** What one check reports: whether it passed, a message and a warning ("" when none). */
  datatype ValidationResult = ValidationResult(Success: bool, Message: string, Warning: string)

  /** The extensions treated as media files. */
  const MediaExtensions: set<string> :=
    {".mp4", ".mkv", ".avi", ".mov", ".wmv", ".flv", ".webm", ".m4v", ".mpg", ".mpeg", ".3gp"}

  const WarningPrefix: string := "File extension '"

  const WarningSuffix: string := "' may not be a supported media format"

  /** The warning validatePath attaches to a file: set when the path's extension, lower-cased,
      is not empty and not a media extension; "" otherwise. */
  function FileWarning(path: string): string {
    var ext := Lower(Ext(path));
    if ext != "" && ext !in MediaExtensions then WarningPrefix + ext + WarningSuffix else ""
  }

  /** The warning is set exactly for an unknown extension, and names that extension. */
  lemma FileWarningSpec(path: string)
    ensures var ext := Lower(Ext(path));
      && (FileWarning(path) != "" <==> ext != "" && ext !in MediaExtensions)
      && (FileWarning(path) != "" ==>
            HasPrefix(FileWarning(path), WarningPrefix) && OccursAt(FileWarning(path), ext, |WarningPrefix|))
  {
    var w := FileWarning(path);
    var ext := Lower(Ext(path));
    if w != "" {
      assert w[..|WarningPrefix|] == WarningPrefix;
      assert w[|WarningPrefix|..|WarningPrefix| + |ext|] == ext;
    }
  }

  // ---------------------------------------------------------------------------
  // The errors of validateArguments

  /** The errors the checks return, one constructor per fmt.Errorf / errors.New call. */
  datatype ArgError =
    | InvalidPath(path: string, cause: string)
    | PathNotFound(abs: string)
    | PathNotAccessible(abs: string, cause: string)
    | NoLanguages
    | BadCodeLength(code: string)
    | BadCodeFormat(code: string)
    | NoValidLanguages
    | InvalidConfigPath(path: string, cause: string)
    | ConfigNotFound(abs: string)
    | ConfigNotAccessible(abs: string, cause: string)
    | EmptySearch

  /** The message each error carries. */
  function ErrorText(e: ArgError): string {
    match e
    case InvalidPath(path, cause) => "invalid path '" + path + "': " + cause
    case PathNotFound(abs) => "path does not exist: " + abs
    case PathNotAccessible(abs, cause) => "cannot access path '" + abs + "': " + cause
    case NoLanguages => "at least one language must be specified"
    case BadCodeLength(code) => "invalid language code '" + code + "': must be 2-5 characters (e.g., 'en', 'pt-BR')"
    case BadCodeFormat(code) => "invalid language code format '" + code + "': expected format like 'en' or 'pt-BR'"
    case NoValidLanguages => "no valid language codes provided"
    case InvalidConfigPath(path, cause) => "invalid config file path '" + path + "': " + cause
    case ConfigNotFound(abs) => "config file does not exist: " + abs
    case ConfigNotAccessible(abs, cause) => "cannot access config file '" + abs + "': " + cause
    case EmptySearch => "search query cannot be empty when using search mode"
  }

  // ---------------------------------------------------------------------------
  // The command's arguments

  /** The fields of the CLI struct, as one value. */
  datatype Args = Args(
    Path: string,
    Language: seq<string>,
    Interactive: bool,
    Config: string,
    DryRun: bool,
    Search: string,
    Version: bool)

  /** What filepath.Abs and os.Stat report about the media path. */
  datatype PathProbe =
    | PathAbsFailed(err: string)
    | PathMissing(abs: string)
    | PathInaccessible(abs: string, err: string)
    | PathFound(abs: string, isDir: bool)

  /** What filepath.Abs and os.Stat report about the configuration file. */
  datatype ConfigProbe =
    | ConfigAbsFailed(err: string)
    | ConfigMissing(abs: string)
    | ConfigInaccessible(abs: string, err: string)
    | ConfigFound(abs: string)

  /** validatePath: on success the path becomes absolute and a file gets the extension
      warning; otherwise the error names the path. */
  function PathCheck(a: Args, probe: PathProbe): (r: (Result<ValidationResult, ArgError>, Args))
    ensures r.0.Ok? ==> r.0.value.Success && r.1 == a.(Path := r.1.Path)
    ensures r.0.Err? ==> r.1 == a
  {
    match probe
    case PathAbsFailed(err) => (Err(InvalidPath(a.Path, err)), a)
    case PathMissing(abs) => (Err(PathNotFound(abs)), a)
    case PathInaccessible(abs, err) => (Err(PathNotAccessible(abs, err)), a)
    case PathFound(abs, isDir) =>
      var result :=
        if isDir then ValidationResult(true, "Directory path validated: " + abs, "")
        else ValidationResult(true, "File path validated: " + abs, FileWarning(abs));
      (Ok(result), a.(Path := abs))
  }

  /** validateConfigFile: on success the configuration path becomes absolute. */
  function ConfigCheck(a: Args, probe: ConfigProbe): (r: (Result<ValidationResult, ArgError>, Args))
    ensures r.0.Ok? ==> r.0.value.Success && r.1 == a.(Config := r.1.Config)
    ensures r.0.Err? ==> r.1 == a
  {
    match probe
    case ConfigAbsFailed(err) => (Err(InvalidConfigPath(a.Config, err)), a)
    case ConfigMissing(abs) => (Err(ConfigNotFound(abs)), a)
    case ConfigInaccessible(abs, err) => (Err(ConfigNotAccessible(abs, err)), a)
    case ConfigFound(abs) => (Ok(ValidationResult(true, "Config file validated: " + abs, "")), a.(Config := abs))
  }

  /** validatePath succeeds exactly when the path exists and can be inspected. The path then
      becomes the absolute path, and a file (not a directory) carries the extension warning.
      A failure leaves the arguments as they were and names the path: as given when it
      could not be made absolute, otherwise the absolute path. */
  lemma PathCheckOutcome(a: Args, probe: PathProbe)
    ensures var (r, a1) := PathCheck(a, probe);
      && (r.Ok? <==> probe.PathFound?)
      && (probe.PathFound? ==>
            && a1 == a.(Path := probe.abs)
            && r.value.Success
            && r.value.Message == (if probe.isDir then "Directory" else "File") + " path validated: " + probe.abs
            && r.value.Warning == (if probe.isDir then "" else FileWarning(probe.abs)))
      && (!probe.PathFound? ==> a1 == a)
      && (probe.PathAbsFailed? ==> r == Err(InvalidPath(a.Path, probe.err)))
      && (probe.PathMissing? ==> r == Err(PathNotFound(probe.abs)))
      && (probe.PathInaccessible? ==> r == Err(PathNotAccessible(probe.abs, probe.err)))
  {
    if probe.PathFound? {
      assert (if probe.isDir then "Directory" else "File") + " path validated: " ==
        if probe.isDir then "Directory path validated: " else "File path validated: ";
    }
  }

  /** validateConfigFile succeeds exactly when the file exists and can be inspected. The
      configuration path then becomes the absolute path. A failure leaves the arguments as
      they were and names the path: as given when it could not be made absolute, otherwise
      the absolute path. */
  lemma ConfigCheckOutcome(a: Args, probe: ConfigProbe)
    ensures var (r, a1) := ConfigCheck(a, probe);
      && (r.Ok? <==> probe.ConfigFound?)
      && (probe.ConfigFound? ==>
            && a1 == a.(Config := probe.abs)
            && r.value == ValidationResult(true, "Config file validated: " + probe.abs, ""))
      && (!probe.ConfigFound? ==> a1 == a)
      && (probe.ConfigAbsFailed? ==> r == Err(InvalidConfigPath(a.Config, probe.err)))
      && (probe.ConfigMissing? ==> r == Err(ConfigNotFound(probe.abs)))
      && (probe.ConfigInaccessible? ==> r == Err(ConfigNotAccessible(probe.abs, probe.err)))
  {
  }

  // ---------------------------------------------------------------------------
  // validateLanguages

  /** A trimmed, non-blank entry that validateLanguages keeps. */
  predicate AcceptableCode(lang: string) {
    2 <= |lang| <= 5 && IsValidLanguageCode(lang)
  }

  /** The loop of validateLanguages over the given entries: each is trimmed, a blank one is
      skipped, the first bad one stops the scan (its length is checked before its format),
      and the good ones are kept in order. */
  function ScanLanguages(langs: seq<string>): Result<seq<string>, ArgError> {
    if langs == [] then Ok([])
    else
      match ScanLanguages(langs[..|langs| - 1])
      case Err(e) => Err(e)
      case Ok(kept) =>
        var lang := TrimSpace(langs[|langs| - 1]);
        if lang == "" then Ok(kept)
        else if |lang| < 2 || |lang| > 5 then Err(BadCodeLength(lang))
        else if !IsValidLanguageCode(lang) then Err(BadCodeFormat(lang))
        else Ok(kept + [lang])
  }

  /** validateLanguages: the list must not be empty and must keep at least one code. */
  function LanguagesCheck(langs: seq<string>): Result<seq<string>, ArgError> {
    if |langs| == 0 then Err(NoLanguages)
    else
      match ScanLanguages(langs)
      case Err(e) => Err(e)
      case Ok(kept) => if |kept| == 0 then Err(NoValidLanguages) else Ok(kept)
  }

  /** The message listing the kept codes, as Go prints a string slice: "[en pt-BR]". */
  function LanguagesMessage(kept: seq<string>): string {
    "Language codes validated: [" + Join(kept, " ") + "]"
  }

  /** The trimmed, non-blank entries, in order: an independent statement of what is kept. */
  function NonBlankTrimmed(langs: seq<string>): (r: seq<string>)
    ensures |r| <= |langs|
    ensures forall k :: 0 <= k < |r| ==> r[k] != ""
  {
    if langs == [] then []
    else
      var lang := TrimSpace(langs[|langs| - 1]);
      NonBlankTrimmed(langs[..|langs| - 1]) + (if lang == "" then [] else [lang])
  }

  /** Every code in the list is one validateLanguages keeps. */
  predicate AllAcceptable(codes: seq<string>) {
    forall k :: 0 <= k < |codes| ==> AcceptableCode(codes[k])
  }

  lemma AllAcceptableSnoc(codes: seq<string>, code: string)
    ensures AllAcceptable(codes + [code]) <==> AllAcceptable(codes) && AcceptableCode(code)
  {
    var all := codes + [code];
    assert all[|codes|] == code;
    assert forall k :: 0 <= k < |codes| ==> all[k] == codes[k];
  }

  /** The scan succeeds exactly when every non-blank entry is acceptable, and then keeps
      exactly the trimmed non-blank entries, in order. */
  lemma {:induction false} ScanLanguagesSpec(langs: seq<string>)
    ensures ScanLanguages(langs).Ok? <==> AllAcceptable(NonBlankTrimmed(langs))
    ensures ScanLanguages(langs).Ok? ==> ScanLanguages(langs).value == NonBlankTrimmed(langs)
  {
    if langs != [] {
      var init := langs[..|langs| - 1];
      ScanLanguagesSpec(init);
      var lang := TrimSpace(langs[|langs| - 1]);
      if lang != "" {
        AllAcceptableSnoc(NonBlankTrimmed(init), lang);
      } else {
        var before := NonBlankTrimmed(init);
        assert before + [] == before;
        assert NonBlankTrimmed(langs) == before;
      }
    }
  }

  /** validateLanguages succeeds exactly when the list is not empty, some entry is not blank,
      and every non-blank entry is a 2-5 character code of the right form; the kept list is
      then the trimmed non-blank entries, in order. */
  lemma LanguagesCheckSpec(langs: seq<string>)
    ensures var kept := NonBlankTrimmed(langs);
      && (LanguagesCheck(langs).Ok? <==>
            |kept| > 0 && AllAcceptable(kept))
      && (LanguagesCheck(langs).Ok? ==> LanguagesCheck(langs).value == kept)
  {
    ScanLanguagesSpec(langs);
  }

  /** An empty list fails first; a list of blank entries only fails with "no valid
      language codes provided". */
  lemma LanguagesCheckNoCodes(langs: seq<string>)
    ensures |langs| == 0 ==> LanguagesCheck(langs) == Err(NoLanguages)
    ensures |langs| > 0 && NonBlankTrimmed(langs) == [] ==> LanguagesCheck(langs) == Err(NoValidLanguages)
  {
    ScanLanguagesSpec(langs);
  }

  /** Once the scan has failed on a prefix, the later entries change nothing. */
  lemma {:induction false} ScanLanguagesStops(langs: seq<string>, n: nat)
    requires n <= |langs| && ScanLanguages(langs[..n]).Err?
    ensures ScanLanguages(langs) == ScanLanguages(langs[..n])
    decreases |langs| - n
  {
    if n < |langs| {
      assert langs[..|langs| - 1][..n] == langs[..n];
      ScanLanguagesStops(langs[..|langs| - 1], n);
    } else {
      assert langs[..n] == langs;
    }
  }

  /** The first bad entry decides the error: a wrong length is reported before a wrong form,
      whatever follows. */
  lemma FirstBadLanguage(langs: seq<string>, k: nat)
    requires k < |langs|
    requires forall j :: 0 <= j < k ==> TrimSpace(langs[j]) == "" || AcceptableCode(TrimSpace(langs[j]))
    requires var lang := TrimSpace(langs[k]); lang != "" && !AcceptableCode(lang)
    ensures var lang := TrimSpace(langs[k]);
      LanguagesCheck(langs) == Err(if |lang| < 2 || |lang| > 5 then BadCodeLength(lang) else BadCodeFormat(lang))
  {
    var pre := langs[..k];
    forall j | 0 <= j < |pre| ensures TrimSpace(pre[j]) == "" || AcceptableCode(TrimSpace(pre[j])) {
      assert pre[j] == langs[j];
    }
    GoodPrefixScans(pre);
    assert langs[..k + 1][..k] == pre && langs[..k + 1][k] == langs[k];
    ScanLanguagesStops(langs, k + 1);
  }

  lemma {:induction false} GoodPrefixScans(langs: seq<string>)
    requires forall j :: 0 <= j < |langs| ==> TrimSpace(langs[j]) == "" || AcceptableCode(TrimSpace(langs[j]))
    ensures ScanLanguages(langs).Ok?
  {
    if langs != [] {
      var init := langs[..|langs| - 1];
      forall j | 0 <= j < |init| ensures TrimSpace(init[j]) == "" || AcceptableCode(TrimSpace(init[j])) {
        assert init[j] == langs[j];
      }
      GoodPrefixScans(init);
    }
  }

  // ---------------------------------------------------------------------------
  // validateModeConsistency

  function IgnoredPathNote(path: string): string {
    "Manual search mode enabled: path argument '" + path + "' will be ignored"
  }

  const InteractiveNote: string := "Interactive mode enabled: you'll be able to select from multiple subtitle options"

  const DryRunNote: string := "Dry run mode: no files will be downloaded, only preview what would happen"

  /** The notes that apply, in the order validateModeConsistency adds them. */
  function ModeNotes(a: Args): (notes: seq<string>)
    ensures |notes| <= 3
  {
    var none: seq<string> := [];
    var afterSearch := if a.Search != "" && a.Path != "." then none + [IgnoredPathNote(a.Path)] else none;
    var afterInteractive := if a.Interactive then afterSearch + [InteractiveNote] else afterSearch;
    if a.DryRun then afterInteractive + [DryRunNote] else afterInteractive
  }

  /** validateModeConsistency: a search made only of white space is an error; otherwise the
      applicable notes, one per line. */
  function ModeCheck(a: Args): Result<ValidationResult, ArgError> {
    if a.Search != "" && TrimSpace(a.Search) == "" then Err(EmptySearch)
    else
      var notes := ModeNotes(a);
      Ok(ValidationResult(true, if |notes| > 0 then Join(notes, "\n") else "", ""))
  }

  /** The mode check fails exactly on a non-empty, all-white-space search. */
  lemma ModeCheckError(a: Args)
    ensures ModeCheck(a).Err? <==>
      a.Search != "" && forall i :: 0 <= i < |a.Search| ==> IsSpace(a.Search[i])
  {
    TrimSpaceEmpty(a.Search);
  }

  /** The message is empty exactly when no note applies: with no flags, or a search with
      the default path. */
  lemma ModeCheckQuiet(a: Args)
    requires ModeCheck(a).Ok?
    ensures ModeCheck(a).value.Message == "" <==>
      (a.Search == "" || a.Path == ".") && !a.Interactive && !a.DryRun
  {
    var notes := ModeNotes(a);
    if |notes| > 0 {
      assert notes[0] != "";
      JoinFirstNonEmpty(notes, "\n");
    }
  }

  lemma JoinFirstNonEmpty(parts: seq<string>, sep: string)
    requires |parts| > 0 && parts[0] != ""
    ensures Join(parts, sep) != ""
  {
  }

  // ---------------------------------------------------------------------------
  // truncateString and createSearchParams

  /** truncateString: a string longer than maxLen keeps its first maxLen-3 characters and
      gets "..."; the caller passes maxLen of at least 3 whenever truncation can happen. */
  function TruncateString(s: string, maxLen: int): (r: string)
    requires |s| <= maxLen || maxLen >= 3
    ensures |s| <= maxLen ==> r == s
    ensures |s| > maxLen ==> |r| == maxLen && r[..maxLen - 3] == s[..maxLen - 3] && r[maxLen - 3..] == "..."
  {
    if |s| <= maxLen then s else s[..maxLen - 3] + "..."
  }

  /** createSearchParams: the title is the query; an episode carries its season and episode
      numbers, anything else is a movie without them; the year is the parsed number, or 0. */
  function CreateSearchParams(info: MediaInfo): (p: SearchParams)
    ensures p.Query == info.Title && p.Language == "" && p.MovieHash == ""
    ensures p.Type == "episode" <==> info.IsEpisode()
    ensures p.Type != "episode" ==> p.Type == "movie" && p.Season == 0 && p.Episode == 0
    ensures p.Type == "episode" ==> p.Season == info.Season && p.Episode == info.Episode
    ensures p.Year != 0 ==> Atoi(info.Year) == Some(p.Year)
    ensures Atoi(info.Year).Some? ==> p.Year == Atoi(info.Year).value
  {
    var year := if info.Year != "" && Atoi(info.Year).Some? then Atoi(info.Year).value else 0;
    if info.IsEpisode() then SearchParams(info.Title, "", info.Season, info.Episode, year, "episode", "")
    else SearchParams(info.Title, "", 0, 0, year, "movie", "")
  }

  /** For a record the parser returns, the query is never empty, the year is 0 or a year from
      1900 to 2030 (its four digits' value when it has four digits), and an episode query has
      both numbers set. */
  lemma SearchParamsOfParsed(info: MediaInfo)
    requires Parser.ValidRecord(info)
    ensures var p := CreateSearchParams(info);
      && p.Query != ""
      && (info.Year == "" <==> p.Year == 0)
      && (p.Year != 0 ==> 1900 <= p.Year <= 2030)
      && (|info.Year| == 4 && AllDigits(info.Year) ==> p.Year == DigitsValue(info.Year))
      && (p.Type == "episode" ==> p.Season >= 1 && p.Episode >= 1)
  {
    if |info.Year| == 4 && AllDigits(info.Year) {
      AtoiDigits(info.Year);
    }
  }

  // ---------------------------------------------------------------------------
  // validateArguments

  /** validateArguments: the path (skipped in search mode), the languages, the configuration
      file (only when one is given) and the mode, in that order; the first error stops the
      run, and the changes the passed checks made to the arguments remain. On success, the
      results of the checks that ran, in order. */
  function ArgumentsCheck(a: Args, pathProbe: PathProbe, configProbe: ConfigProbe)
    : (Result<seq<ValidationResult>, ArgError>, Args)
  {
    if a.Search == "" then
      var (pathResult, a1) := PathCheck(a, pathProbe);
      if pathResult.Err? then (Err(pathResult.error), a1)
      else LanguagesOnward(a1, [pathResult.value], configProbe)
    else LanguagesOnward(a, [], configProbe)
  }

  /** The checks after the path, given the results so far. */
  function LanguagesOnward(a: Args, done: seq<ValidationResult>, configProbe: ConfigProbe)
    : (Result<seq<ValidationResult>, ArgError>, Args)
  {
    match LanguagesCheck(a.Language)
    case Err(e) => (Err(e), a)
    case Ok(kept) => ConfigOnward(a.(Language := kept), done + [ValidationResult(true, LanguagesMessage(kept), "")], configProbe)
  }

  /** The configuration check (when a file is given) and the mode check. */
  function ConfigOnward(a: Args, done: seq<ValidationResult>, configProbe: ConfigProbe)
    : (Result<seq<ValidationResult>, ArgError>, Args)
  {
    if a.Config == "" then ModeLast(a, done)
    else
      match ConfigCheck(a, configProbe)
      case (Err(e), a1) => (Err(e), a1)
      case (Ok(v), a1) => ModeLast(a1, done + [v])
  }

  /** The mode check, last. */
  function ModeLast(a: Args, done: seq<ValidationResult>): (Result<seq<ValidationResult>, ArgError>, Args) {
    match ModeCheck(a)
    case Err(e) => (Err(e), a)
    case Ok(mode) => (Ok(done + [mode]), a)
  }

  /** The mode check changes nothing and, on success, appends one successful result. */
  lemma ModeLastSpec(a: Args, done: seq<ValidationResult>)
    ensures var r := ModeLast(a, done);
      && r.1 == a
      && (r.0.Ok? ==> |r.0.value| == |done| + 1 && r.0.value[..|done|] == done && r.0.value[|done|].Success)
  {
    if ModeCheck(a).Ok? {
      assert (done + [ModeCheck(a).value])[..|done|] == done;
    }
  }

  /** After the languages: on success one more result when a configuration file is given,
      then the mode result, all successful; only the configuration path may change. */
  lemma ConfigOnwardSpec(a: Args, done: seq<ValidationResult>, configProbe: ConfigProbe)
    ensures var r := ConfigOnward(a, done, configProbe);
      r.0.Ok? ==>
        && |r.0.value| == |done| + (if a.Config != "" then 1 else 0) + 1
        && r.0.value[..|done|] == done && (forall k :: |done| <= k < |r.0.value| ==> r.0.value[k].Success)
        && r.1 == a.(Config := r.1.Config)
  {
    if a.Config == "" {
      ModeLastSpec(a, done);
    } else {
      var (c, a1) := ConfigCheck(a, configProbe);
      if c.Ok? {
        var done' := done + [c.value];
        ModeLastSpec(a1, done');
        var r := ModeLast(a1, done').0;
        if r.Ok? {
          assert r.value[..|done|] == r.value[..|done'|][..|done|];
          assert r.value[|done|] == r.value[..|done'|][|done|];
        }
      }
    }
  }

  /** From the languages on: success needs accepted languages, adds one result per check
      that ran, all successful, and replaces the language list by the kept codes. */
  lemma LanguagesOnwardSpec(a: Args, done: seq<ValidationResult>, configProbe: ConfigProbe)
    ensures var r := LanguagesOnward(a, done, configProbe);
      r.0.Ok? ==>
        && LanguagesCheck(a.Language).Ok?
        && |r.0.value| == |done| + 1 + (if a.Config != "" then 1 else 0) + 1
        && r.0.value[..|done|] == done && (forall k :: |done| <= k < |r.0.value| ==> r.0.value[k].Success)
        && r.1 == a.(Language := r.1.Language, Config := r.1.Config)
        && r.1.Language == LanguagesCheck(a.Language).value
  {
    if LanguagesCheck(a.Language).Ok? {
      var kept := LanguagesCheck(a.Language).value;
      var done' := done + [ValidationResult(true, LanguagesMessage(kept), "")];
      ConfigOnwardSpec(a.(Language := kept), done', configProbe);
      var r := ConfigOnward(a.(Language := kept), done', configProbe).0;
      if r.Ok? {
        assert r.value[..|done|] == r.value[..|done'|][..|done|];
        assert r.value[|done|] == r.value[..|done'|][|done|];
      }
    }
  }

  /** Proof helper: one unfolding of ArgumentsCheck at the path stage. */
  lemma PathStage(a: Args, pathProbe: PathProbe, configProbe: ConfigProbe)
    ensures a.Search != "" ==> ArgumentsCheck(a, pathProbe, configProbe) == LanguagesOnward(a, [], configProbe)
    ensures a.Search == "" ==>
      var (r, a1) := PathCheck(a, pathProbe);
      ArgumentsCheck(a, pathProbe, configProbe) ==
        if r.Err? then (Err(r.error), a1) else LanguagesOnward(a1, [r.value], configProbe)
  {
  }

  /** Proof helper: one unfolding of LanguagesOnward at the language stage. */
  lemma LanguagesStage(a: Args, done: seq<ValidationResult>, configProbe: ConfigProbe)
    ensures LanguagesOnward(a, done, configProbe) ==
      match LanguagesCheck(a.Language)
      case Err(e) => (Err(e), a)
      case Ok(kept) =>
        ConfigOnward(a.(Language := kept), done + [ValidationResult(true, LanguagesMessage(kept), "")], configProbe)
  {
  }

  /** Proof helper: one unfolding of ConfigOnward at the configuration stage. */
  lemma ConfigStage(a: Args, done: seq<ValidationResult>, configProbe: ConfigProbe)
    requires a.Config != ""
    ensures ConfigOnward(a, done, configProbe) ==
      var (r, a1) := ConfigCheck(a, configProbe);
      if r.Err? then (Err(r.error), a1) else ModeLast(a1, done + [r.value])
  {
  }

  /** In search mode the path is neither checked nor changed. */
  lemma ArgumentsSkipPath(a: Args, p1: PathProbe, p2: PathProbe, configProbe: ConfigProbe)
    requires a.Search != ""
    ensures ArgumentsCheck(a, p1, configProbe) == ArgumentsCheck(a, p2, configProbe)
    ensures ArgumentsCheck(a, p1, configProbe).1.Path == a.Path
  {
    PathStage(a, p1, configProbe);
    PathStage(a, p2, configProbe);
    LanguagesStage(a, [], configProbe);
  }

  /** Without a configuration file the configuration probe is never consulted. */
  lemma ArgumentsSkipConfig(a: Args, pathProbe: PathProbe, c1: ConfigProbe, c2: ConfigProbe)
    requires a.Config == ""
    ensures ArgumentsCheck(a, pathProbe, c1) == ArgumentsCheck(a, pathProbe, c2)
  {
    PathStage(a, pathProbe, c1);
    PathStage(a, pathProbe, c2);
    var a1 := if a.Search == "" then PathCheck(a, pathProbe).1 else a;
    var done := if a.Search == "" && PathCheck(a, pathProbe).0.Ok? then [PathCheck(a, pathProbe).0.value] else [];
    LanguagesStage(a1, done, c1);
    LanguagesStage(a1, done, c2);
  }

  /** The first failing check decides the error: a path error wins over everything, a
      language error over the configuration and the mode, a configuration error over the
      mode. When every check that runs passes, the arguments are accepted. */
  lemma ArgumentsFirstError(a: Args, pathProbe: PathProbe, configProbe: ConfigProbe)
    ensures a.Search == "" && PathCheck(a, pathProbe).0.Err? ==>
      ArgumentsCheck(a, pathProbe, configProbe).0 == Err(PathCheck(a, pathProbe).0.error)
    ensures (a.Search != "" || PathCheck(a, pathProbe).0.Ok?) && LanguagesCheck(a.Language).Err? ==>
      ArgumentsCheck(a, pathProbe, configProbe).0 == Err(LanguagesCheck(a.Language).error)
    ensures ((a.Search != "" || PathCheck(a, pathProbe).0.Ok?) && LanguagesCheck(a.Language).Ok?
             && a.Config != "" && ConfigCheck(a, configProbe).0.Err?) ==>
      ArgumentsCheck(a, pathProbe, configProbe).0 == Err(ConfigCheck(a, configProbe).0.error)
    ensures ((a.Search != "" || PathCheck(a, pathProbe).0.Ok?) && LanguagesCheck(a.Language).Ok?
             && (a.Config == "" || ConfigCheck(a, configProbe).0.Ok?) && ModeCheck(a).Err?) ==>
      ArgumentsCheck(a, pathProbe, configProbe).0 == Err(ModeCheck(a).error)
    ensures ((a.Search != "" || PathCheck(a, pathProbe).0.Ok?) && LanguagesCheck(a.Language).Ok?
             && (a.Config == "" || ConfigCheck(a, configProbe).0.Ok?) && ModeCheck(a).Ok?) ==>
      ArgumentsCheck(a, pathProbe, configProbe).0.Ok?
  {
    PathStage(a, pathProbe, configProbe);
    if a.Search != "" || PathCheck(a, pathProbe).0.Ok? {
      var a1 := if a.Search == "" then PathCheck(a, pathProbe).1 else a;
      var done := if a.Search == "" then [PathCheck(a, pathProbe).0.value] else [];
      LanguagesStage(a1, done, configProbe);
      if LanguagesCheck(a.Language).Ok? {
        var kept := LanguagesCheck(a.Language).value;
        var a2 := a1.(Language := kept);
        var done2 := done + [ValidationResult(true, LanguagesMessage(kept), "")];
        if a.Config != "" {
          ConfigStage(a2, done2, configProbe);
          assert ConfigCheck(a2, configProbe).0 == ConfigCheck(a, configProbe).0;
        }
      }
    }
  }

  /** On success one result per check that ran, all successful, and the languages are the
      trimmed non-blank codes, each of the right form. */
  lemma ArgumentsSuccess(a: Args, pathProbe: PathProbe, configProbe: ConfigProbe)
    requires ArgumentsCheck(a, pathProbe, configProbe).0.Ok?
    ensures var (r, a') := ArgumentsCheck(a, pathProbe, configProbe);
      && |r.value| == (if a.Search == "" then 1 else 0) + 1 + (if a.Config != "" then 1 else 0) + 1
      && (forall k :: 0 <= k < |r.value| ==> r.value[k].Success)
      && a'.Language == NonBlankTrimmed(a.Language) && |a'.Language| > 0
      && AllAcceptable(a'.Language)
      && a'.Search == a.Search && a'.Interactive == a.Interactive && a'.DryRun == a.DryRun
  {
    var a1 := if a.Search == "" then PathCheck(a, pathProbe).1 else a;
    var done := if a.Search == "" then [PathCheck(a, pathProbe).0.value] else [];
    assert ArgumentsCheck(a, pathProbe, configProbe) == LanguagesOnward(a1, done, configProbe);
    LanguagesOnwardSpec(a1, done, configProbe);
    LanguagesCheckSpec(a1.Language);
    var r := ArgumentsCheck(a, pathProbe, configProbe).0.value;
    forall k | 0 <= k < |r| ensures r[k].Success {
      if k < |done| {
        assert r[k] == r[..|done|][k];
      }
    }
  }

  // ---------------------------------------------------------------------------
  // The CLI object

  /** The parsed command line; the checks rewrite Path, Language and Config in place. */
  class Cli {
    var Path: string
    var Language: seq<string>
    var Interactive: bool
    var Config: string
    var DryRun: bool
    var Search: string
    var Version: bool

    /** The fields as one value. */
    function State(): Args
      reads this
    {
      Args(Path, Language, Interactive, Config, DryRun, Search, Version)
    }

    /** validatePath, with the file system's answer given. */
    method ValidatePath(probe: PathProbe) returns (r: Result<ValidationResult, ArgError>)
      modifies this`Path
      ensures (r, State()) == PathCheck(old(State()), probe)
    {
      match probe {
        case PathAbsFailed(err) =>
          return Err(InvalidPath(Path, err));
        case PathMissing(abs) =>
          return Err(PathNotFound(abs));
        case PathInaccessible(abs, err) =>
          return Err(PathNotAccessible(abs, err));
        case PathFound(abs, isDir) =>
          Path := abs;
          var result := ValidationResult(true, "", "");
          if isDir {
            result := result.(Message := "Directory path validated: " + Path);
          } else {
            result := result.(Message := "File path validated: " + Path);
            var ext := Lower(Ext(Path));
            if ext !in MediaExtensions && ext != "" {
              result := result.(Warning := WarningPrefix + ext + WarningSuffix);
            }
          }
          return Ok(result);
      }
    }

    /** validateLanguages: on success Language holds the kept codes; on error it is unchanged. */
    method ValidateLanguages() returns (r: Result<ValidationResult, ArgError>)
      modifies this`Language
      ensures LanguagesCheck(old(Language)).Ok? ==>
        Language == LanguagesCheck(old(Language)).value
        && r == Ok(ValidationResult(true, LanguagesMessage(Language), ""))
      ensures LanguagesCheck(old(Language)).Err? ==>
        Language == old(Language) && r == Err(LanguagesCheck(old(Language)).error)
    {
      if |Language| == 0 {
        return Err(NoLanguages);
      }
      var valid: seq<string> := [];
      var i := 0;
      while i < |Language|
        invariant 0 <= i <= |Language|
        invariant ScanLanguages(Language[..i]) == Ok(valid)
      {
        var lang := TrimSpace(Language[i]);
        assert Language[..i + 1][..i] == Language[..i];
        if lang != "" {
          if |lang| < 2 || |lang| > 5 {
            ScanLanguagesStops(Language, i + 1);
            return Err(BadCodeLength(lang));
          }
          if !IsValidLanguageCode(lang) {
            ScanLanguagesStops(Language, i + 1);
            return Err(BadCodeFormat(lang));
          }
          valid := valid + [lang];
        }
        i := i + 1;
      }
      assert Language[..i] == Language;
      if |valid| == 0 {
        return Err(NoValidLanguages);
      }
      Language := valid;
      return Ok(ValidationResult(true, LanguagesMessage(Language), ""));
    }

    /** validateConfigFile, with the file system's answer given. */
    method ValidateConfigFile(probe: ConfigProbe) returns (r: Result<ValidationResult, ArgError>)
      modifies this`Config
      ensures (r, State()) == ConfigCheck(old(State()), probe)
    {
      match probe {
        case ConfigAbsFailed(err) =>
          return Err(InvalidConfigPath(Config, err));
        case ConfigMissing(abs) =>
          return Err(ConfigNotFound(abs));
        case ConfigInaccessible(abs, err) =>
          return Err(ConfigNotAccessible(abs, err));
        case ConfigFound(abs) =>
          Config := abs;
          return Ok(ValidationResult(true, "Config file validated: " + Config, ""));
      }
    }

    /** validateModeConsistency: collects the notes one by one. */
    method ValidateModeConsistency() returns (r: Result<ValidationResult, ArgError>)
      ensures r == ModeCheck(State())
    {
      var result := ValidationResult(true, "", "");
      var messages: seq<string> := [];
      if Search != "" {
        if Path != "." {
          messages := messages + [IgnoredPathNote(Path)];
        }
        if TrimSpace(Search) == "" {
          return Err(EmptySearch);
        }
      }
      if Interactive {
        messages := messages + [InteractiveNote];
      }
      if DryRun {
        messages := messages + [DryRunNote];
      }
      if |messages| > 0 {
        result := result.(Message := Join(messages, "\n"));
      }
      return Ok(result);
    }

    /** validateArguments, with the file system's answers given; returns the results that
        would be printed. */
    method ValidateArguments(pathProbe: PathProbe, configProbe: ConfigProbe)
      returns (r: Result<seq<ValidationResult>, ArgError>)
      modifies this
      ensures (r, State()) == ArgumentsCheck(old(State()), pathProbe, configProbe)
    {
      ghost var initial := State();
      var results: seq<ValidationResult> := [];
      if Search == "" {
        var result := ValidatePath(pathProbe);
        PathStage(initial, pathProbe, configProbe);
        if result.Err? {
          return Err(result.error);
        }
        results := [result.value];
      } else {
        PathStage(initial, pathProbe, configProbe);
      }
      ghost var expected := ArgumentsCheck(initial, pathProbe, configProbe);
      ghost var beforeLanguages := State();
      assert expected == LanguagesOnward(beforeLanguages, results, configProbe);
      var langResult := ValidateLanguages();
      LanguagesStage(beforeLanguages, results, configProbe);
      if langResult.Err? {
        return Err(langResult.error);
      }
      results := results + [langResult.value];
      ghost var beforeConfig, doneBeforeConfig := State(), results;
      assert expected == ConfigOnward(beforeConfig, results, configProbe);
      if Config != "" {
        var configResult := ValidateConfigFile(configProbe);
        ConfigStage(beforeConfig, doneBeforeConfig, configProbe);
        if configResult.Err? {
          return Err(configResult.error);
        }
        results := results + [configResult.value];
      }
      assert expected == ModeLast(State(), results);
      var modeResult := ValidateModeConsistency();
      if modeResult.Err? {
        return Err(modeResult.error);
      }
      results := results + [modeResult.value];
      return Ok(results);
    }
  }
}
