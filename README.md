# SABSync, modelled in Dafny

SABSync is a console program that runs once per invocation. It reads a list of
RSS feeds of TV reports (newzbin-style: a title and a link whose path carries a
numeric report id), collects the reports into a dictionary from id to title,
and for every report decides whether the episode is wanted. A report is wanted
when the title reads as a season/episode (`Show-1x02-Group`) or daily
(`Show-2021-03-15-Title`) release of a show that has a folder under the
TV root, the episode is not already on disk, its season is not on the
ignore list, it is not already in the SABnzbd queue and its NZB is not in the
archive folder. Every wanted report is sent to SABnzbd, and the queue's
answer is recorded.

The model follows `Program.cs` method by method, one Dafny module per concern:

- `Text`, `Numbers`: the .NET string and integer operations the program uses
  (ordinal `Replace`, `Split`, `Trim`, ASCII `ToLower`; `Convert.ToString`,
  `{0:00}`, `Int32.Parse`/`Convert.ToInt32`, `Int32.TryParse`).
- `Settings`: the configuration as a `Config` object with constant fields (the
  program sets its static fields once in `LoadConfig` and only reads them after).
- `Sanitizer`: `CleanString` as a loop of `Replace` calls, proved equal to a
  character-by-character substitution, then `Trim`.
- `Template`, `Naming`, `Layouts`: the four path renderers. Each is a chain of
  `Replace` calls over the directory or file-name half of `root\template`;
  `Template.RunExpands` proves that under stated conditions the chain equals a
  single left-to-right substitution of the tokens, and `Layouts` works out the
  usual layouts.
- `Titles`: how `IsEpisodeWanted` reads a title (cut, split at `-`, dispatch on
  the segment count).
- `Checks`: `IsShowWanted`, `IsOnDisk`, `IsSeasonIgnored` and `IsInQueue`,
  whose loops are methods proved against a function stating the result, and
  `InNzbArchive`, a single file probe written as a predicate.
- `Decisions`: `IsEpisodeWanted` as a method returning the verdict and the
  checks it called, proved against `Decide`, a function naming the reason.
- `Reports`: `GetReports` (nested loops over feed lines and feed items).
- `Run`: the main loop and `AddToQueue`, with the recorded `Queued` list as the
  field of a `Session` object.

The outside world is a parameter: the feeds are a map from URL to items, the
folders under the TV root are a list of names, the disk is a set of existing
folders and of (folder, pattern) pairs that the glob matches, the SABnzbd queue
is an optional list of slots, the NZB archive is a set of file paths, and the
queue's answers to add requests are a map from report id to text. A missing
entry in the feed or answer map is a failed download. The program looks at the
disk, the queue and the archive afresh on every `IsEpisodeWanted` call, and its
own add requests change the queue between reports, so the main loop is given
one such world per turn (`worlds(k)` for the report at position `k`).

Points where the code's behaviour is easy to misread:

- A title longer than 80 characters is cut to its first 79 characters
  (`Titles.Truncate`).
- Only titles of exactly five `-`-separated segments are daily titles: a title
  such as `Show.Name-2021-03-15-HDTV-x264` has six and is unsupported
  (`Titles.ExampleSixSegments`).
- A link without a 7-to-10-digit id makes `Convert.ToInt64` throw inside
  `GetReports`; nothing catches it before `Main`, so the whole run ends with
  nothing queued (`Reports.ReportsFail`). Likewise a failed add request ends the
  main loop; the entries recorded before it stay (`Run.Session.QueueAll`).
- An unreadable ignore-list entry reached before a match throws inside
  `IsSeasonIgnored`; `IsEpisodeWanted`'s handler turns that into "not wanted"
  (`Decisions.Decision.MalformedIgnoreList`).
- The daily file mask turns `.%ext` into `*`; the other three renderers remove it.

## Model

| member | source | states |
|---|---|---|
| Settings.ExtensionList | trunk/SABSync/SABSync/Program.cs:124 | the extension list never holds `;` and joins back with `;` to the trimmed setting |
| Settings.Config.constructor | trunk/SABSync/SABSync/Program.cs:37-48 | the configuration holds the loaded settings; the extension list is the split setting |
| Sanitizer.CleanString | trunk/SABSync/SABSync/Program.cs:309-329 | the nine `Replace` rounds and the trim give `Sanitize`: every bad character mapped through the table, then trimmed |
| Sanitizer.ScrubRound | trunk/SABSync/SABSync/Program.cs:316-326 | one more `Replace` round equals one more table entry applied character by character (no substitute is a bad character) |
| Sanitizer.SanitizeNoBad | trunk/SABSync/SABSync/Program.cs:312-328 | a cleaned name holds none of `\ / < > ? * : \| "`, in both modes |
| Sanitizer.SanitizeIdempotent | trunk/SABSync/SABSync/Program.cs:309-329 | cleaning a cleaned name changes nothing |
| Sanitizer.ScrubReplaces | trunk/SABSync/SABSync/Program.cs:318-321 | in replace mode the length is kept and each bad character becomes its substitute at the same place, others unchanged |
| Sanitizer.ScrubDeletes | trunk/SABSync/SABSync/Program.cs:322-325 | in delete mode bad characters vanish and every other character keeps its multiplicity |
| Sanitizer.SanitizeNoNewChars | trunk/SABSync/SABSync/Program.cs:311-328 | cleaning introduces no character but the substitutes |
| Numbers.NatToString | trunk/SABSync/SABSync/Program.cs:212 | `Convert.ToString` of a natural number is non-empty digits with no leading zero whose value is the number |
| Numbers.Pad2Nat | trunk/SABSync/SABSync/Program.cs:211 | `{0:00}` gives at least two digits whose value is the number |
| Numbers.Pad2Shape | trunk/SABSync/SABSync/Program.cs:211-212 | `{0:00}` adds a leading zero to one digit only: 3 gives `03`, 12 gives `12` |
| Numbers.ParseInt32 | trunk/SABSync/SABSync/Program.cs:512 | a parsed value lies in the 32-bit range |
| Numbers.ParseDigits | trunk/SABSync/SABSync/Program.cs:512 | a bare run of digits within 32 bits parses to its value |
| Numbers.ParseNegativeDigits | trunk/SABSync/SABSync/Program.cs:512 | a minus sign and digits parse to the negated value |
| Numbers.ParseIntToString | trunk/SABSync/SABSync/Program.cs:454-456 | parsing the formatted number gives it back for every 32-bit value |
| Numbers.ParsePad2 | trunk/SABSync/SABSync/Program.cs:369-370 | parsing the zero-padded number gives it back for every 32-bit value |
| Numbers.TryParseNonNumeric | trunk/SABSync/SABSync/Program.cs:369-370 | a number field holding a non-digit, non-sign, non-blank character reads as 0 |
| Naming.LastSeparator | trunk/SABSync/SABSync/Program.cs:216 | the position found is a separator and none follows it |
| Naming.FileNameOfJoin | trunk/SABSync/SABSync/Program.cs:238 | the file-name half of `root\template` is that of the template alone |
| Naming.DirectoryNameOfJoin | trunk/SABSync/SABSync/Program.cs:216 | the directory half of `root\template` is `root`, joined with the template's directory when it has one |
| Naming.StandardDirWellOrdered | trunk/SABSync/SABSync/Program.cs:220-226 | in the directory renderer no token is replaced before a longer token it begins |
| Naming.StandardMaskWellOrdered | trunk/SABSync/SABSync/Program.cs:240-250 | the same for the standard mask renderer |
| Naming.DailyDirWellOrdered | trunk/SABSync/SABSync/Program.cs:270-278 | the same for the daily directory renderer |
| Naming.DailyMaskWellOrdered | trunk/SABSync/SABSync/Program.cs:293-304 | the same for the daily mask renderer |
| Naming.ExtensionAtEnd | trunk/SABSync/SABSync/Program.cs:240 | `.%ext` at the end of a dot-free name is replaced by the given text, and nothing else changes |
| Naming.EpisodeDir | trunk/SABSync/SABSync/Program.cs:203-229 | the standard directory: the cleaned name, then the `.%ext` step and the seven `Replace` calls as `Run` over the token table; its meaning is stated by `EpisodeDirExpands` and `SeasonFolderLayout` |
| Naming.EpisodeFileMask | trunk/SABSync/SABSync/Program.cs:231-253 | the standard mask: the `.%ext` step and the ten `Replace` calls over the template's file name; see `EpisodeFileMaskExpands`, `EpisodeFileMaskDependsOnFileName` and `StandardMaskLayout` |
| Naming.DailyEpisodeDir | trunk/SABSync/SABSync/Program.cs:255-281 | the daily directory: the `.%ext` step and the eight `Replace` calls; see `DailyEpisodeDirExpands` and `DailyDirDescription` |
| Naming.DailyEpisodeFileMask | trunk/SABSync/SABSync/Program.cs:283-307 | the daily mask: `.%ext` becomes `*`, then the eleven `Replace` calls; see `DailyEpisodeFileMaskExpands`, `DailyEpisodeFileMaskDependsOnFileName` and `DailyMaskLayout` |
| Naming.EpisodeDirExpands | trunk/SABSync/SABSync/Program.cs:203-229 | for an unambiguous template the standard directory is the single left-to-right expansion: cleaned name, dotted, underscored, padded and plain season and episode |
| Naming.EpisodeFileMaskExpands | trunk/SABSync/SABSync/Program.cs:231-253 | the standard mask is the expansion with the six name tokens as `*` and the numbers filled in |
| Naming.DailyEpisodeDirExpands | trunk/SABSync/SABSync/Program.cs:255-281 | the daily directory is the expansion with the name forms and the date |
| Naming.DailyEpisodeFileMaskExpands | trunk/SABSync/SABSync/Program.cs:283-307 | the daily mask is the expansion with the title and description tokens as `*` and the date filled in |
| Naming.EpisodeFileMaskDependsOnFileName | trunk/SABSync/SABSync/Program.cs:238 | the standard mask depends only on the template's file name, not on the root or its folders |
| Naming.DailyEpisodeFileMaskDependsOnFileName | trunk/SABSync/SABSync/Program.cs:285 | the daily mask depends only on the daily template's file name |
| Template.RunExpands | trunk/SABSync/SABSync/Program.cs:219-226 | a chain of `Replace` calls with well-ordered tokens and values free of `%` equals replacing each token once, left to right |
| Template.ReplaceFirst | trunk/SABSync/SABSync/Program.cs:220 | the first `Replace` of the chain turns exactly the occurrences of its token into the value |
| Layouts.SeasonFolderLayout | trunk/SABSync/SABSync/Program.cs:203-229 | `%sn\Season %0s\...` gives `root\<cleaned name>\Season <padded season>` |
| Layouts.DailyDirDescription | trunk/SABSync/SABSync/Program.cs:255-281 | the daily directory renderer has no `%desc` step, so the folder template `%desc` renders as `root\<day>esc` |
| Layouts.StandardMaskLayout | trunk/SABSync/SABSync/Program.cs:231-253 | the file name `%sn - %0sx%0e.%ext` gives the mask `* - ` followed by the padded season, `x` and the padded episode, whatever the root and folders |
| Layouts.DailyMaskLayout | trunk/SABSync/SABSync/Program.cs:283-307 | the file name `%t - %y-%0m-%0d.%ext` gives `* - ` followed by year, padded month and padded day, and a final `*` for the extension |
| Titles.Truncate | trunk/SABSync/SABSync/Program.cs:353-356 | a title over 80 characters is cut to its first 79; a shorter one is kept |
| Titles.TruncateIdempotent | trunk/SABSync/SABSync/Program.cs:353-356 | cutting a cut title changes nothing |
| Titles.ParseLongTitle | trunk/SABSync/SABSync/Program.cs:353-358 | text past the cut never changes the reading |
| Titles.ParseThreeSegments | trunk/SABSync/SABSync/Program.cs:360-370 | three segments: the trimmed first is the show, the trimmed second the season/episode part |
| Titles.ParseFourSegmentsEarly | trunk/SABSync/SABSync/Program.cs:400-404 | four segments with `x` in the second: show and part as for three |
| Titles.ParseFourSegmentsLate | trunk/SABSync/SABSync/Program.cs:406-410 | four segments with `x` only in the third: the show is the first two trimmed segments glued with no separator |
| Titles.ParseFiveSegments | trunk/SABSync/SABSync/Program.cs:447-456 | five segments: a daily title with year, month and day read by `TryParse` |
| Titles.Classify | trunk/SABSync/SABSync/Program.cs:358-482 | the reading of a cut title by its `-`-separated segments; its dispatch is stated by `ClassifyShape` and the `ParseThreeSegments` to `ParseFiveSegments` lemmas |
| Titles.ParseTitle | trunk/SABSync/SABSync/Program.cs:353-482 | cut, then `Classify`; see `ParseLongTitle`, `StandardRoundTrip` and `DailyRoundTrip` |
| Titles.ClassifyShape | trunk/SABSync/SABSync/Program.cs:358-482 | daily exactly for five segments; missing-`x` exactly for three segments without `x`; unsupported exactly for other counts or four without `x` in segments two and three |
| Titles.SeasonEpisodeNone | trunk/SABSync/SABSync/Program.cs:365-370 | the exception path is taken exactly when the part holds no `x` |
| Titles.SeasonEpisodeOf | trunk/SABSync/SABSync/Program.cs:365-370 | a part `NxM` with one `x` reads as `TryParse` of the text before and after it |
| Titles.SeasonEpisodeRoundTrip | trunk/SABSync/SABSync/Program.cs:365-370 | `NNxMM` written with `{0:00}` reads back as the two numbers |
| Titles.StandardRoundTrip | trunk/SABSync/SABSync/Program.cs:358-370 | `show-NNxMM-rest` reads back as the trimmed show, season and episode |
| Titles.DailyRoundTrip | trunk/SABSync/SABSync/Program.cs:447-456 | `show-YYYY-MM-DD-rest` reads back as the trimmed show and date |
| Titles.ExampleStandard | trunk/SABSync/SABSync/Program.cs:360-370 | `Show Name-1x02-Group` is `Show Name`, season 1, episode 2 |
| Titles.ExampleNonNumeric | trunk/SABSync/SABSync/Program.cs:369 | `Show-Sx02-Group` is season 0: an unreadable number does not stop the decision |
| Titles.ExampleMissingX | trunk/SABSync/SABSync/Program.cs:365-370 | `Show-102-Group` takes the exception path |
| Titles.ExampleSixSegments | trunk/SABSync/SABSync/Program.cs:447 | `Show.Name-2021-03-15-HDTV-x264` is unsupported: six segments |
| Checks.IsShowWanted | trunk/SABSync/SABSync/Program.cs:331-342 | answers yes exactly when some folder name equals the cleaned show name ignoring case |
| Checks.WatchedIgnoresCase | trunk/SABSync/SABSync/Program.cs:335 | names that clean to the same text up to case are watched alike |
| Checks.WatchedCleaned | trunk/SABSync/SABSync/Program.cs:335 | cleaning the name beforehand never changes the answer |
| Checks.IsOnDisk | trunk/SABSync/SABSync/Program.cs:485-501 | yes exactly when the folder exists and the mask with some listed extension matches a file there |
| Checks.OnDiskExtensionSet | trunk/SABSync/SABSync/Program.cs:490-499 | the answer depends on which extensions are listed, not on their order |
| Checks.IsSeasonIgnored | trunk/SABSync/SABSync/Program.cs:503-525 | the substring pre-check, then the scan with its early return; `None` where an entry reached first throws |
| Checks.IgnoreScanReadable | trunk/SABSync/SABSync/Program.cs:508-522 | with every entry readable, the scan says whether some entry names the show exactly and covers the season |
| Checks.EntryNameOccurs | trunk/SABSync/SABSync/Program.cs:505-511 | a readable entry's name occurs in the setting |
| Checks.IgnoreVerdictReadable | trunk/SABSync/SABSync/Program.cs:503-525 | with every entry readable, the substring pre-check never changes the answer |
| Checks.IsInQueue | trunk/SABSync/SABSync/Program.cs:527-575 | the slot loop with its early returns computes `InQueue`; a queue that could not be fetched answers no |
| Checks.QueueScanMatch | trunk/SABSync/SABSync/Program.cs:550-566 | in the queue exactly when some slot's file name matches the cleaned title or the fetch name before any slot ends the scan |
| Checks.QueueScanStops | trunk/SABSync/SABSync/Program.cs:554-558 | an empty slot or one without a file name hides every later slot |
| Checks.InNzbArchive | trunk/SABSync/SABSync/Program.cs:577-592 | whether `nzbDir\<name>.nzb.gz` is in the archive, the name being the title with trailing dots trimmed and then cleaned; see `ArchiveNameTrailingDot` and `ArchiveNameClean` |
| Checks.ArchiveNameTrailingDot | trunk/SABSync/SABSync/Program.cs:582 | trailing dots of the title never reach the archive name |
| Checks.ArchiveNameClean | trunk/SABSync/SABSync/Program.cs:582-583 | the archive name holds no bad character |
| Decisions.IsEpisodeWanted | trunk/SABSync/SABSync/Program.cs:344-483 | returns yes exactly when `Decide` says wanted, and the checks it called are those the verdict consulted |
| Decisions.RunChecks | trunk/SABSync/SABSync/Program.cs:374-391 | the checks after the title is read, stopping at the first that rejects |
| Decisions.LaterChecks | trunk/SABSync/SABSync/Program.cs:382-391 | the season (standard titles only), queue and archive checks, stopping at the first that rejects |
| Decisions.JudgeEpisode | trunk/SABSync/SABSync/Program.cs:374-391 | on a season/episode title the chain answers wanted exactly when every check passes |
| Decisions.WantedEpisode | trunk/SABSync/SABSync/Program.cs:360-392 | a season/episode report is wanted exactly when watched, not on disk, season not ignored with a readable list, not queued and not archived |
| Decisions.WantedDaily | trunk/SABSync/SABSync/Program.cs:447-473 | a daily report is wanted exactly when watched, not on disk, not queued and not archived |
| Decisions.RejectedTitle | trunk/SABSync/SABSync/Program.cs:475-482 | an unsupported or malformed title is never wanted and consults no check |
| Decisions.JudgeDaily | trunk/SABSync/SABSync/Program.cs:458-472 | a daily title never gets a season verdict |
| Decisions.ConsultedOrder | trunk/SABSync/SABSync/Program.cs:374-391 | the consulted checks are a prefix of the chain; an unwatched show consults only the show check; the whole chain runs only for wanted or archived reports |
| Decisions.ConsultedPrefix | trunk/SABSync/SABSync/Program.cs:344-483 | for every report the checks called follow the chain, all of it when wanted |
| Decisions.DailySkipsSeason | trunk/SABSync/SABSync/Program.cs:458-472 | the season check never runs for a daily title |
| Decisions.DecideLongTitle | trunk/SABSync/SABSync/Program.cs:353-356 | text past the cut never changes the verdict, queue and archive checks included |
| Reports.FeedUrlPlain | trunk/SABSync/SABSync/Program.cs:163-164 | a line without `\|` is the URL |
| Reports.FeedUrlNamed | trunk/SABSync/SABSync/Program.cs:167-171 | on `name\|url\|...` the URL is the second field |
| Reports.IdMatch | trunk/SABSync/SABSync/Program.cs:183 | the leftmost position with at least 7 digits, taking up to 10 of them; none before it |
| Reports.MatchIdOf | trunk/SABSync/SABSync/Program.cs:183 | a path of digit-free text, 7 to 10 digits and a non-digit has those digits as id |
| Reports.MatchIdBound | trunk/SABSync/SABSync/Program.cs:183 | every id is below 10^10, so fits a 64-bit key |
| Reports.GetReports | trunk/SABSync/SABSync/Program.cs:153-201 | the nested loops compute `Reports`: feed by feed, item by item, `None` on a failed download or a link without id |
| Reports.CollectKeeps | trunk/SABSync/SABSync/Program.cs:185-190 | collecting only appends, and keeps ids and titles distinct and passworded titles out |
| Reports.CollectSound | trunk/SABSync/SABSync/Program.cs:179-190 | every added entry is the title and link id of a non-passworded item |
| Reports.CollectComplete | trunk/SABSync/SABSync/Program.cs:179-190 | every non-passworded item has its id or its title collected |
| Reports.CollectFails | trunk/SABSync/SABSync/Program.cs:181-183 | collecting fails exactly when some non-passworded item has no id |
| Reports.StepDistinct | trunk/SABSync/SABSync/Program.cs:186-188 | one item never breaks distinctness |
| Reports.IdMatchOf | trunk/SABSync/SABSync/Program.cs:183 | in a digit-free prefix, 7 to 10 digits and a non-digit, the match is exactly those digits |
| Reports.CollectAppend | trunk/SABSync/SABSync/Program.cs:179-196 | collecting two item lists in turn is collecting their concatenation |
| Reports.GatherFlat | trunk/SABSync/SABSync/Program.cs:161-197 | feed by feed is the same as all items of all feeds in one pass |
| Reports.ReportsFacts | trunk/SABSync/SABSync/Program.cs:153-201 | the dictionary has no id or title twice and no passworded title, each entry comes from an item, and every non-passworded item is represented |
| Reports.ReportsFail | trunk/SABSync/SABSync/Program.cs:175-183 | the run ends in GetReports exactly when a feed is not answered or a non-passworded item has no id |
| Reports.EarlierKept | trunk/SABSync/SABSync/Program.cs:186 | what earlier feeds collected is kept in place when more feeds follow |
| Reports.GatherSplit | trunk/SABSync/SABSync/Program.cs:161-197 | a longer feed list continues from where the shorter one stops |
| Run.Session.AddToQueue | trunk/SABSync/SABSync/Program.cs:594-602 | the queue's answer with line feeds removed, `None` when the request fails |
| Run.ResponseOneLine | trunk/SABSync/SABSync/Program.cs:599 | no recorded answer holds a line feed |
| Run.Session.Sync | trunk/SABSync/SABSync/Program.cs:65-82 | collects the reports, then records what the loop queues, each report judged in the world of its own turn; nothing when collecting fails |
| Run.Session.QueueAll | trunk/SABSync/SABSync/Program.cs:74-81 | appends to the queued list exactly `QueuedFor`: each wanted report's title and answer, in order, up to the first failed request, where report `k` is judged in `worlds(k)` |
| Run.Session.Offer | trunk/SABSync/SABSync/Program.cs:76-79 | one turn: a wanted report is added with its answer, or stops the loop when the request fails; an unwanted one adds nothing |
| Run.QueuedSound | trunk/SABSync/SABSync/Program.cs:74-81 | the recorded entries are, in order, wanted reports with the queue's one-line answer, never more than the wanted reports |
| Run.QueuedComplete | trunk/SABSync/SABSync/Program.cs:74-81 | when the queue answers every wanted report, every wanted report is recorded |

## Left out

- Logging, the summary list, the stopwatch and the start-up banner: they only write text.
- `LoadConfig`'s reading of `app.config`, its existence checks on the TV root and the feed-list file, and the construction of the SABnzbd request URL: the model starts from a `Config` already loaded. Line 133 tests `_tvTemplate` where `_tvDailyTemplate` is meant, so an empty daily template is not refused; the model accepts any template either way.
- Downloading and parsing RSS feeds and the queue's XML, and the HTTP add request: they are the oracles described above (`feeds`, the queue in each turn's world, `answers`).
- `Directory.Exists`, `Directory.GetFiles` wildcard matching and `File.Exists`: the `Disk` oracle and the archive set. An exception from the file system (for example a path with characters Windows refuses) is not modelled.
- `Path.GetDirectoryName` and `Path.GetFileName` are modelled as splitting at the last `\` or `/`; path normalisation, drive roots and invalid-character exceptions are not.
- Culture-aware comparison: case folding and white space are ASCII only; `Int32.Parse` accepts only ASCII digits and the signs `+` and `-`.
- Text.Replace: an empty pattern (which .NET rejects and the program never passes) leaves the text unchanged.
- Numbers.TryParseInt32: the success flag is dropped as the program drops it; 32-bit overflow of seasons, episodes and dates outside `TryParse` does not arise because every number comes from parsing.
- Run.Session.QueueAll, Run.Session.Sync: the world each turn sees (`worlds(k)`) is an unconstrained oracle; the model does not say how SABnzbd's queue grows from the run's own add requests, only that each report is judged against the queue as it is on its turn.
- Run.Session.QueueAll: the dictionary's enumeration order is modelled as insertion order, which .NET gives for a dictionary without removals but does not promise.
- The `name` part of a feed-list line only goes to the log and is not modelled.
- `SABSync.Tests/ConfigTest.cs` and `ITvDbController.cs` hold no logic of the run and are not part of this model.
