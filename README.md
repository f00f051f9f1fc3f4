# subs-cli core, modelled in Dafny

subs-cli is a command-line tool that finds subtitles for video files. Its core turns a
video filename into a media record, checks the command-line arguments, and builds the
search query for the subtitle catalog. This project models that core and proves what it
promises.

The core has three parts:

- **The filename parser** (`internal/parser/parser.go`).
  - `cleanFilename` keeps the last path element, turns spaces into dots and collapses dot runs.
  - `Parse` tries the nine patterns in order. The first pattern whose match survives
    extraction and validation wins.
  - `extractMediaInfo` builds the record from the named groups of a match. Along the way
    it uses `extractSeasonEpisode`, `cleanTitle` and `extractSourceAndCodec`.
  - `extractSourceAndCodec` uses `extractCodecFromPart` and `extractReleaseGroupFromPart`.
  - `validateMediaInfo` checks the finished record.
- **The argument checks of the CLI** (`cmd/root.go`).
  - The language-code grammar, the language list check, the mode check and the
    media-extension warning.
  - The order in which `validateArguments` runs its checks.
  - `truncateString` and `createSearchParams`.
- **The record helpers** (`pkg/models/media.go`).

The files, in dependency order:

| file | contents |
|---|---|
| `Wrappers.dfy` | `Option` and `Result` |
| `Strings.dfy` | The Go library functions the core calls, on `seq<char>`. These are `strings.ToLower` (ASCII), `Index`, `Contains`, `HasPrefix`, `TrimPrefix`, `Split`, `Join`, `TrimSpace`, `Fields`, `ReplaceAll` of one character, `strconv.Atoi`, `filepath.Base` and `filepath.Ext`. Each comes with the lemmas the model needs. |
| `Models.dfy` | `MediaInfo`, `SearchParams` and the record helpers |
| `Normalize.dfy` | `cleanFilename` as a loop method, and `cleanTitle` |
| `SourceCodec.dfy` | The codec vocabulary, `extractCodecFromPart`, `isCodec`, `extractReleaseGroupFromPart`, and `extractSourceAndCodec` as a loop method |
| `Parser.dfy` | The pattern list, the match map, `extractSeasonEpisode`, `validateMediaInfo`, `extractMediaInfo` and `Parse` |
| `Cmd.dfy` | The argument checks as functions, the errors they return, and the `Cli` class whose methods update its fields in place, as the Go methods on `*CLI` do |

How the model is built:

- **Loops are methods proved against functions.** Where the source loops and updates
  variables, the model has a method with the same loop. The method is proved equal to a
  function of its inputs, for example `CleanFilename` and `Normalized`, or `Parse` and
  `ParseSpec`. The promised properties are then lemmas about that function.
- **Patterns are opaque recognisers.** Each pattern's regular expression is a function
  from the cleaned name to an optional map of the named groups it captured. An optional
  group that took no part maps to "".
- **File-system answers are inputs.** `validatePath` and `validateConfigFile` ask
  `filepath.Abs` and `os.Stat`. Their answers are given as the values `PathProbe` and
  `ConfigProbe`.
- **Errors are values.** The errors of the argument checks are the datatype `ArgError`,
  one constructor per error the Go code creates. `ErrorText` gives each one's message
  exactly as Go formats it. The parser's errors stay strings.

## Model

| member | source | states |
|---|---|---|
| Models.MediaInfo.IsEpisode | pkg/models/media.go:43-45 | An episode record never has type "movie". |
| Models.MediaInfo.IsMovie | pkg/models/media.go:47-49 | A movie record is never an episode. |
| Models.MediaInfo.HasSeasonEpisode | pkg/models/media.go:51-53 | Holds only when season and episode are both at least 1. It fails when either is 0. |
| Models.MediaInfo.GetDisplayTitle | pkg/models/media.go:55-60 | The title is always a prefix of the result. The result is the bare title exactly when the year is empty; otherwise " (" + year + ")" follows the title. |
| Normalize.CleanFilename | internal/parser/parser.go:243-253 | The loop's result is the last path element, with spaces as dots and every dot run collapsed. Invariant: a replacement pass does not change what the runs collapse to. |
| Normalize.DoubleDotIsContains | internal/parser/parser.go:248 | The loop's condition `strings.Contains(cleaned, "..")` holds exactly when two adjacent characters are dots. |
| Normalize.CollapseAfterReplace | internal/parser/parser.go:248-250 | One `ReplaceAll(.., "..", ".")` pass leaves the collapsed form unchanged. This is the loop invariant. |
| Normalize.CollapseDotsHasNoDoubleDot | internal/parser/parser.go:248-250 | The collapsed form has no two adjacent dots. |
| Normalize.CollapseDotsUnchanged | internal/parser/parser.go:248-250 | A name without ".." is its own collapsed form, so the loop stops at the collapsed form. |
| Normalize.NormalizedShape | internal/parser/parser.go:243-253 | The cleaned name has no space, no '/' and no "..". Each of its characters is a dot or comes from the input. |
| Normalize.NormalizedIdempotent | internal/parser/parser.go:243-253 | Cleaning a cleaned name changes nothing. |
| Normalize.NormalizedDropsDirectory | internal/parser/parser.go:244 | Everything up to the last '/' is ignored: `dir + "/" + name` cleans like `name`. |
| Normalize.NormalizedSpacesAsDots | internal/parser/parser.go:244-246 | A name with its spaces already turned into dots cleans to the same result. |
| Normalize.CleanTitle | internal/parser/parser.go:255-261 | The final `TrimSpace` is a no-op. The title is the fields of the dot-to-space text, joined by single spaces. |
| Normalize.CleanTitleShape | internal/parser/parser.go:255-261 | The clean title has no '.', no white space at either end and no two white-space characters in a row. Its words are those of the raw title, in order. |
| Normalize.CleanTitleEmpty | internal/parser/parser.go:255-261 | The clean title is empty exactly when the raw title has only dots and white space. |
| SourceCodec.FirstIndexSpec | internal/parser/parser.go:303-307 | The vocabulary search runs in list order and stops at the first word present. It gives -1 exactly when no word is present. |
| SourceCodec.CodecFromIsFirstIndex | internal/parser/parser.go:303-309 | The loop of `extractCodecFromPart` returns the part's slice at the first word in list order, or "" when no word occurs. |
| SourceCodec.CodecOfFound | internal/parser/parser.go:296-310 | A codec found is the slice of the part at the first occurrence of the earliest vocabulary member in list order. That slice lower-cases to the member. |
| SourceCodec.CodecOfSpec | internal/parser/parser.go:296-310 | The result is "" exactly when no member occurs in the lower-cased part. Otherwise it is a slice of the part that lower-cases to a member. |
| SourceCodec.IsCodec | internal/parser/parser.go:328-341 | True exactly when some vocabulary member occurs in the text, case-sensitively. |
| SourceCodec.CodecOfAgreesWithIsCodec | internal/parser/parser.go:296-341 | A part carries a codec exactly when `isCodec` holds of its lower-cased form. |
| SourceCodec.ReleaseGroupAfterCodec | internal/parser/parser.go:312-326 | For the codec found in a dot-free token, the release group is the text right after the codec's first case-insensitive occurrence (the position `strings.Index` finds on the lower-cased texts), with one leading '-' removed. The codec's own text sits at that position. |
| SourceCodec.ExtractSourceAndCodec | internal/parser/parser.go:263-294 | The loop's result equals `SourceAndCodec`: "" and "" for empty input. Otherwise it is the tokens each part contributes, joined by '.', and the codec of the first part that carries one. |
| SourceCodec.PartContribution | internal/parser/parser.go:271-286 | For a part of the dot-split source: a blank part adds nothing. A part without a codec adds itself, trimmed. A part with a codec adds at most one token, its release group: the text right after the codec's first case-insensitive occurrence in the trimmed part, less one leading '-'. The part's codec is the one found in it. |
| SourceCodec.FirstCodecIsFirst | internal/parser/parser.go:277-281 | The codec returned is "" exactly when no part carries one. Otherwise it is the codec of the first part that does, and later codecs are ignored. |
| SourceCodec.SourceTokensAppend | internal/parser/parser.go:271-287 | The tokens are produced part by part: those of a concatenation are the concatenation of the tokens. So the tokens keep the order of the parts. |
| SourceCodec.NoCodecSource | internal/parser/parser.go:263-294 | With no codec in any part, the codec is "". The source is the non-empty trimmed parts re-joined with '.', or "" when there are none. |
| SourceCodec.NoCodecCleanSource | internal/parser/parser.go:263-294 | With no codec and every part already trimmed and non-empty, the source is the input unchanged. |
| Parser.CompilePatterns | internal/parser/parser.go:158-241 | Nine patterns with the source's names, kinds and examples, in the source's order. Every kind is "tv" or "movie". |
| Parser.BuildMatchMap | internal/parser/parser.go:51-58 | The loop builds the match map: every captured group, trimmed. |
| Parser.AltSeasonEpisode | internal/parser/parser.go:115-130 | A compact token gives numbers only when it has 3 or 4 characters and both parts are at least 1. |
| Parser.ExtractSeasonEpisode | internal/parser/parser.go:97-137 | The step-by-step updates give `SeasonEpisodeOf`. That is, explicit numbers first, then the compact token when neither was given, then both must be set. |
| Parser.SeasonEpisodeRange | internal/parser/parser.go:97-137 | On success the season is in 1..99 and the episode in 1..999, including when they come from the compact token. |
| Parser.SeasonEpisodeExplicit | internal/parser/parser.go:101-113 | Explicit digit strings in range give exactly their decimal values. |
| Parser.SeasonEpisodeRejects | internal/parser/parser.go:101-113 | A given season that does not parse to 1..99 fails with "invalid season number: " and the text, whatever else was captured. With the season acceptable or absent, an episode that does not parse to 1..999 fails with "invalid episode number: " and the text. |
| Parser.SeasonEpisodeCompact | internal/parser/parser.go:115-130 | Without explicit numbers, 3 digits split 1+2 and 4 digits split 2+2. A zero part fails with "invalid alternative episode format: " and the token. |
| Parser.SeasonEpisodeCompactLength | internal/parser/parser.go:115-130 | A compact token of any other length fails with the same message. |
| Parser.SeasonEpisodeThreeDigits | internal/parser/parser.go:116-120 | "315" is season 3, episode 15. |
| Parser.SeasonEpisodeFourDigits | internal/parser/parser.go:121-125 | "1024" is season 10, episode 24. |
| Parser.ValidateMediaInfoSpec | internal/parser/parser.go:139-156 | Validation passes exactly on valid records. The title is checked first, then an episode's numbers, then the year, each with its own message. |
| Parser.YearDigits | internal/parser/parser.go:148-153 | For a four-digit year the check is the plain range 1900..2030. |
| Parser.Checked | internal/parser/parser.go:90-94 | A record is returned only if it is valid. A rejected record is never returned. |
| Parser.ExtractMediaInfo | internal/parser/parser.go:50-95 | Filling the record field by field gives `MediaInfoFrom` of the trimmed match map. |
| Parser.MediaInfoFromValid | internal/parser/parser.go:50-95 | An extracted record is valid. A "tv" match gives an episode with season in 1..99 and episode in 1..999. Any other kind keeps its kind and has no numbers. |
| Parser.Parse | internal/parser/parser.go:30-48 | The loop over the patterns, with its early return and `continue`, gives `ParseSpec` of the name. |
| Parser.OutOfRangeNotAccepted | internal/parser/parser.go:34-38 | A "tv" pattern whose match gives a season outside 1..99 or an episode outside 1..999 yields no record, whatever the title, so the search goes on to the next pattern. |
| Parser.FirstSomeSpec | internal/parser/parser.go:33-41 | The ordered search finds nothing exactly when every pattern yields nothing. Otherwise it returns the first pattern's yield. |
| Parser.FirstAcceptedSpec | internal/parser/parser.go:33-41 | The same, for each pattern's own outcome on the cleaned name. |
| Parser.ParseFirstWins | internal/parser/parser.go:30-48 | Parse returns a record exactly when some pattern accepts the cleaned name. It is then the record of the first such pattern in list order. |
| Parser.AcceptedRecord | internal/parser/parser.go:35-40 | An accepting pattern yields a valid record with a clean title. The record is an episode exactly when the pattern is a "tv" one. |
| Parser.ParseValid | internal/parser/parser.go:30-48 | A parsed record is valid: non-empty title, year in 1900..2030 when present, and both numbers for an episode. Its title has no '.' and no white space at either end. It is an episode exactly when a "tv" pattern produced it. |
| Parser.ParseKinds | internal/parser/parser.go:158-241 | With the nine compiled patterns, every parsed record is an episode or a movie. |
| Parser.ParseFailureMentions | internal/parser/parser.go:43-47 | The failure message starts with "unable to parse filename '", followed by the filename exactly as given. |
| Parser.ParseIgnoresSpacesAndDirectory | internal/parser/parser.go:30-31 | Spaces written for dots, or a leading directory, change neither whether a name parses nor its record. |
| Cmd.AllLowerLetters | cmd/root.go:287-291 | The character loop accepts exactly when every character is in 'a'..'z'. |
| Cmd.IsValidLanguageCode | cmd/root.go:283-315 | After lower-casing, the code is 2 or 3 letters a-z, or 5 characters with '-' at index 2 and letters at 0, 1, 3 and 4. The result holds exactly then. |
| Cmd.LanguageCodeIgnoresCase | cmd/root.go:283-315 | The same grammar on the code as written, with upper-case letters as good as lower-case. |
| Cmd.FileWarningSpec | cmd/root.go:168-171 | A file gets a warning exactly when its lower-cased extension is non-empty and not one of the 11 media extensions. The warning names that extension. |
| Cmd.PathCheckOutcome | cmd/root.go:143-175 | The path check succeeds exactly when the path exists and can be inspected. The path then becomes the absolute path; a directory gets no warning and a file gets `FileWarning` of its absolute path. A failure leaves the arguments unchanged and names the path: as given when it cannot be made absolute, otherwise the absolute path. |
| Cmd.ConfigCheckOutcome | cmd/root.go:212-230 | The configuration check succeeds exactly when the file exists and can be inspected. The configuration path then becomes the absolute path. A failure leaves the arguments unchanged and names the path: as given when it cannot be made absolute, otherwise the absolute path. |
| Cmd.ScanLanguagesSpec | cmd/root.go:184-199 | The scan succeeds exactly when every trimmed non-blank entry is a 2-5 character valid code. It then keeps exactly those entries, in order. |
| Cmd.LanguagesCheckSpec | cmd/root.go:177-210 | The check succeeds exactly when some entry is non-blank and every non-blank entry is acceptable. The new list is the trimmed non-blank entries in order. |
| Cmd.LanguagesCheckNoCodes | cmd/root.go:178-203 | An empty list fails with "at least one language must be specified". A list of blank entries fails with "no valid language codes provided". |
| Cmd.ScanLanguagesStops | cmd/root.go:190-196 | Once an entry fails, the entries after it change nothing. |
| Cmd.FirstBadLanguage | cmd/root.go:184-196 | The first bad entry decides the error, whatever follows. A wrong length is reported before a wrong form. |
| Cmd.ModeCheckError | cmd/root.go:236-243 | The mode check fails exactly when the search is non-empty and all white space. |
| Cmd.ModeCheckQuiet | cmd/root.go:232-259 | The message is empty exactly when no note applies: no flags, and either no search or the default path ".". |
| Cmd.TruncateString | cmd/root.go:511-516 | A string that fits is unchanged. A longer one keeps its first maxLen-3 characters, gets "..." and has length exactly maxLen. |
| Cmd.CreateSearchParams | cmd/root.go:452-471 | The query is the title. The type is "episode", with the record's numbers, exactly for an episode. Otherwise it is "movie" with zeros. The year is the parsed year text's value whenever it parses, and 0 otherwise. |
| Cmd.SearchParamsOfParsed | cmd/root.go:452-471 | For a parsed record, the query is non-empty and an episode query has both numbers. The year is 0 exactly when absent, otherwise in 1900..2030; a four-digit year gives its decimal value. |
| Cmd.ModeLastSpec | cmd/root.go:98-103 | The mode check changes nothing. On success it appends one successful result. |
| Cmd.ConfigOnwardSpec | cmd/root.go:90-103 | After the languages: on success there is one result more when a configuration file is given, then the mode result, all successful. Only the configuration path may change. |
| Cmd.LanguagesOnwardSpec | cmd/root.go:84-103 | From the languages on: success needs accepted languages and gives one successful result per check that ran. The language list becomes the kept codes. |
| Cmd.ArgumentsSkipPath | cmd/root.go:76-82 | In search mode the path is neither checked nor changed. |
| Cmd.ArgumentsSkipConfig | cmd/root.go:90-96 | Without a configuration file, the configuration answer is never consulted. |
| Cmd.ArgumentsFirstError | cmd/root.go:73-107 | The first failing check decides the error. A path error beats everything; a language error beats the configuration and the mode; a configuration error beats the mode. When every check that runs passes, the arguments are accepted. |
| Cmd.ArgumentsSuccess | cmd/root.go:73-107 | On success there is one successful result per check that ran, in order. The languages are the trimmed non-blank codes, each acceptable. The mode flags and the search are unchanged. |
| Cmd.Cli.ValidatePath | cmd/root.go:143-175 | The method's result and new fields are those of `PathCheck`. Only `Path` may change. |
| Cmd.Cli.ValidateLanguages | cmd/root.go:177-210 | The loop's result is that of `LanguagesCheck`. On success `Language` holds the kept codes and the message lists them; on error `Language` is unchanged. |
| Cmd.Cli.ValidateConfigFile | cmd/root.go:212-230 | The method's result and new fields are those of `ConfigCheck`. Only `Config` may change. |
| Cmd.Cli.ValidateModeConsistency | cmd/root.go:232-259 | The notes collected one by one give `ModeCheck` of the fields. |
| Cmd.Cli.ValidateArguments | cmd/root.go:73-107 | The method's result and new fields are `ArgumentsCheck` of the old fields: path (unless searching), languages, configuration (when given), mode. |

## Left out

- The regular expressions of the nine patterns are not modelled. Each pattern is a recogniser passed in as a function, and the proofs hold for any recognisers. In the source, the only pattern with a compact token matches exactly three digits, so the four-digit branch of `extractSeasonEpisode` cannot be reached through `Parse`. The model still covers that branch.
- `filepath.Base` is modelled as the text after the last '/'. The model leaves out the "." result for an empty path and the stripping of trailing slashes.
- `strings.ToLower` is modelled on ASCII letters only, and Go's byte lengths are modelled as character counts. Case mapping outside ASCII, which can change byte lengths, is not modelled.
- `filepath.Clean`, `filepath.Abs` and `os.Stat` in `validatePath` and `validateConfigFile` are not modelled. Their outcomes are the inputs `PathProbe` and `ConfigProbe`.
- Cmd.Cli.ValidateArguments: does not print the results (`printValidationResults`). It returns them instead.
- `printVersionInfo`, `displayConfiguration`, `displayMediaInfo`, `displaySubtitleList` and `Execute` are not modelled, because they are console output and argument wiring. The `Version` flag is carried but never acted on.
- `processMediaFiles`, `processDirectory` and `processFile` are not modelled, because they need directory listings and the file system.
- The subtitle catalog client (`internal/api`) is not modelled, because it is network I/O. The float fields of `Subtitle` are left out for the same reason.
- Cmd.TruncateString: requires that `maxLen` is at least 3 whenever truncation happens. With a smaller `maxLen`, Go's slice expression panics. All of the source's callers pass larger values.
- Parser.ValidateMediaInfoSpec: validation checks only that season and episode are positive, not that they are in range. The ranges 1..99 and 1..999 come from `extractSeasonEpisode` (`Parser.SeasonEpisodeRange`, `Parser.SeasonEpisodeRejects`).
