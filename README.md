# match_srt, modelled in Dafny

`match_srt` pairs video files with subtitle files by duration. It lists a
video directory and a subtitle directory, keeps the `.mp4` and `.srt` names,
reads each subtitle track's duration (the end time of its last cue), and for
every video walks all subtitles: each subtitle whose duration differs from the
video's by less than two whole seconds (after truncation) overwrites the
video's match. It then prints one table row per video: video name, matched
subtitle name or an empty cell, video duration, subtitle duration or `-`.

This project models that decision logic:

- `paths.dfy` (`Paths`): POSIX `os.path.splitext`, `join` and `basename`.
- `scanner.dfy` (`Scanner`): the extension filter and path join of the two scanning loops.
- `subtitle_time.dfy` (`SubtitleTime`): cue times and `get_subtitles_duration`, in milliseconds.
- `matcher.dfy` (`Matcher`): the tolerance test and the nested matching loop.
- `report.dfy` (`Report`): the four text cells of each report row.
- `formatting.dfy` (`Formatting`): Python's `str` of a duration float, with a reader that inverts it.
- `ordered_dicts.dfy` (`OrderedDicts`): Python dictionaries, which keep insertion order.
- `match_srt.dfy` (`MatchSrt`): `matching` as a whole: scan, load subtitles, match, build rows.
- `strings.dfy` and `wrappers.dfy`: small shared helpers (`rfind`, distinctness, `Option`, `Result`).

Durations are integers. A video duration is a whole number of seconds: the
program truncates `frame_count / fps`. A subtitle duration is a number of
milliseconds, since cue times have millisecond resolution. With integers,
`int(abs(v - s)) < 2` is `|1000 v - s| < 2000`: 1.999 s matches and 2 s does
not. The float computation cannot land on the other side of that boundary,
because the exact difference is a whole number of milliseconds.

Everything outside the program is an input to `MatchSrt.Matching`:

- the two directory listings, as sequences of names;
- the video durations, as a function from path to seconds;
- the subtitle parser, as a function from path to a list of cues.

An exception that would end the program is a `Failure` result. This covers an
empty subtitle track (`subtitles[-1]`) and a last cue end time that
`datetime.time` rejects. `Run` is the whole computation written as one
function, and `Matching` is proved equal to it. `Run` takes each subtitle
file's track duration as a function of its path; `Matching` passes
`Durations(parse)`, which parses the file and takes the end of its last cue.
The lemmas about `Run` hold for any such function, and so for any parser.

Notes on behaviour, where the code decides:

- For each video the loop over the subtitles overwrites the match every time
  a subtitle is within tolerance, so the recorded match is the last
  qualifying subtitle in dictionary order, not the closest one.
  `LastQualifyingWinsOverClosest` shows a closer earlier subtitle losing.
- The subtitle listing is an input. Each kept subtitle name is joined onto
  `video_path` (`match_srt/match_srt.py:38`), and the model does the same:
  see `Run` and `EmptyTrackAborts`.
- A video duration is truncated with `int`, not floored. For the non-negative
  durations modelled here the two agree.

## Model

| member | source | states |
|---|---|---|
| `Paths.Splitext` | match_srt/match_srt.py:31 | root and extension concatenate back to the name; the extension is empty or is a `.` followed by no further `.` or `/` |
| `Paths.ExtensionOfEntry` | match_srt/match_srt.py:31 | an entry name has a non-empty extension exactly when some `.` is preceded by a character other than `.` (so `.mp4` has none) |
| `Paths.ExtensionAfterLastDot` | match_srt/match_srt.py:31 | when the last `.` follows another character, the extension is everything from that `.` on |
| `Paths.ExtensionOfStem` | match_srt/match_srt.py:31 | a name made of a stem holding some character other than `.`, a `.` and a suffix without `.` has extension `.` plus the suffix, case kept |
| `Paths.HiddenNameHasNoExtension` | match_srt/match_srt.py:31 | a name that is a `.` followed by a suffix without `.`, such as `.mp4`, has no extension |
| `Paths.Extension` | match_srt/match_srt.py:31 | the extension compared with the allow-list; `ExtensionOfEntry`, `ExtensionAfterLastDot`, `ExtensionOfStem` and `HiddenNameHasNoExtension` prove when it is empty and what it is otherwise |
| `Paths.Join` | match_srt/match_srt.py:32 | an absolute name replaces the directory; otherwise the result starts with the directory, is as long as directory and name plus one separator when the directory does not already end in `/`, and ends with the name after a `/` unless the prefix is empty |
| `Paths.JoinCases` | match_srt/match_srt.py:32 | the joined path is the absolute name itself, the directory and name run together when the directory is empty or ends in `/`, and otherwise the directory, exactly one `/` and the name |
| `Paths.Basename` | match_srt/match_srt.py:56 | the base name is the suffix of the path that contains no `/` and is either the whole path or preceded by a `/` |
| `Paths.BasenameOfJoin` | match_srt/match_srt.py:56 | the base name of a path joined onto a directory is the joined entry name |
| `Paths.JoinInjective` | match_srt/match_srt.py:32 | distinct entry names give distinct paths under one directory |
| `Scanner.Kept` | match_srt/match_srt.py:30-39 | the filter of both scanning loops; `KeptExactly` proves a name is kept exactly when it is listed and its extension is allowed, and `KeptPreservesOrder` that listing order is kept |
| `Scanner.Scan` | match_srt/match_srt.py:30-39 | the scanning loop returns exactly the kept names joined onto the directory, in listing order |
| `Scanner.Joined` | match_srt/match_srt.py:32-33 | the kept names joined onto the directory, one path per name in order; `BasenameOfJoin` gives each name back and `JoinedNoDuplicates` keeps distinct names distinct |
| `Scanner.KeptExactly` | match_srt/match_srt.py:30-39 | a name is kept if and only if it is listed and its extension is in the allow-list |
| `Scanner.KeptPreservesOrder` | match_srt/match_srt.py:30-39 | filtering a concatenated listing concatenates the filtered parts, so listing order is kept |
| `Scanner.KeptExtensions` | match_srt/match_srt.py:31 | every kept name has an allowed extension |
| `Scanner.KeptNoDuplicates` | match_srt/match_srt.py:30-39 | a listing without repeats keeps no name twice |
| `Scanner.JoinedNoDuplicates` | match_srt/match_srt.py:32-33 | distinct entry names joined onto one directory are distinct paths |
| `SubtitleTime.ClockMillis` | match_srt/match_srt.py:82 | milliseconds since midnight; `ClockRoundTrip` proves it is below a day and lossless on every valid time of day |
| `SubtitleTime.IsTimeOfDay` | match_srt/match_srt.py:82 | the ranges `datetime.time` accepts; `ClockRoundTrip` proves every time in them lies below a day's milliseconds, and `SubtitlesDuration` fails on a non-empty track exactly when its last end time lies outside them |
| `SubtitleTime.ClockAt` | match_srt/match_srt.py:82 | the clock reading for a millisecond count is a valid time of day that converts back to that count |
| `SubtitleTime.ClockRoundTrip` | match_srt/match_srt.py:82 | a valid time of day converts to fewer than a day's milliseconds and back to itself |
| `SubtitleTime.SubtitlesDuration` | match_srt/match_srt.py:81-83 | an empty cue list fails; otherwise the result is the last cue's end time in milliseconds if it is a valid time of day, and a failure if not |
| `SubtitleTime.DurationIgnoresEarlierCues` | match_srt/match_srt.py:82 | only the last cue decides the duration |
| `SubtitleTime.DurationExample` | match_srt/match_srt.py:81-83 | a track ending at 00:02:01,500 lasts 121500 ms |
| `Formatting.NatToDecimal` | match_srt/match_srt.py:74-75 | the digits of a number denote that number and have no leading zero |
| `Formatting.FractionDigits` | match_srt/match_srt.py:75 | one to three fraction digits, no trailing zero unless the only digit, denoting the milliseconds |
| `Formatting.FormatSeconds` | match_srt/match_srt.py:74-75 | `str` of a duration float; `FormatSecondsRoundTrip` proves it reads back as the same milliseconds, `FormatWhole` and `FormatHalf` give its shape |
| `Formatting.FormatSecondsRoundTrip` | match_srt/match_srt.py:74-75 | a printed duration reads back as the same milliseconds |
| `Formatting.FormatSecondsIsNotDash` | match_srt/match_srt.py:75 | a printed duration is never the `-` placeholder |
| `Formatting.FormatWhole` | match_srt/match_srt.py:74 | a whole number of seconds prints as its digits followed by `.0`, as `120.0` |
| `Formatting.FormatHalf` | match_srt/match_srt.py:75 | a number of seconds and a half prints with the single fraction digit `5`, as `121.5` |
| `OrderedDicts.Empty` | match_srt/match_srt.py:27-28 | a new dictionary is valid and has no keys |
| `OrderedDicts.Dict.Items` | match_srt/match_srt.py:54 | `dict.items()` in insertion order; `FromKeysOrder` and `SubtitleTableOrder` prove that order is the order keys were first assigned, and `LoadedInListingOrder` that the subtitles walk the kept names in listing order |
| `OrderedDicts.Dict.Put` | match_srt/match_srt.py:50-52 | assigning a key keeps the dictionary valid: an existing key keeps its position, a new key goes last |
| `OrderedDicts.PutPut` | match_srt/match_srt.py:56-57 | assigning one key twice leaves only the second value |
| `OrderedDicts.PutNew` | match_srt/match_srt.py:50-52 | assigning a key not yet present appends it after all the others |
| `OrderedDicts.FromKeysEntries` | match_srt/match_srt.py:49-52 | a dictionary filled by assigning each key in turn holds exactly those keys, each with its own value |
| `OrderedDicts.FromKeysOrder` | match_srt/match_srt.py:49-52 | filled from distinct keys, the dictionary lists them in the order they were assigned |
| `Matcher.DifferenceSeconds` | match_srt/match_srt.py:55 | the truncated difference `d` in whole seconds satisfies `1000 d <= |1000 v - s| < 1000 d + 1000` |
| `Matcher.WithinTolerance` | match_srt/match_srt.py:55 | the line-55 test; `ToleranceInMillis` proves it holds exactly when the exact difference is below 2000 ms |
| `Matcher.ToleranceInMillis` | match_srt/match_srt.py:55 | the truncated difference is below 2 s exactly when the exact difference is below 2000 ms |
| `Matcher.ToleranceBoundary` | match_srt/match_srt.py:15 | a difference of 1999 ms matches and one of 2000 ms does not, on both sides |
| `Matcher.ToleranceExamples` | match_srt/match_srt.py:55 | 120 s matches 121.5 s; 100 s does not match 105 s |
| `Matcher.LastMatch` | match_srt/match_srt.py:54-57 | no position exactly when no subtitle is within tolerance; otherwise a qualifying position after which none qualifies |
| `Matcher.RecordFor` | match_srt/match_srt.py:54-57 | the duration is unchanged; the video is matched exactly when some subtitle is within tolerance; name and duration are set together and come from the last qualifying subtitle, the name being its base name |
| `Matcher.RecordStep` | match_srt/match_srt.py:54-57 | one more subtitle either becomes the match, if within tolerance, or leaves the record unchanged |
| `Matcher.MatchVideos` | match_srt/match_srt.py:49-57 | the nested loop yields, for every video, its own duration and the match of `RecordFor` |
| `Matcher.VideoTable` | match_srt/match_srt.py:49-57 | the `videos` dictionary after the pass; `VideoTableEntries` proves its keys are the video paths, each with its own `RecordFor` record, and `VideoTableOrder` that they keep scan order |
| `Matcher.VideoTableEntries` | match_srt/match_srt.py:49-57 | the keys are exactly the video paths, and each video's record depends only on its own duration and the subtitles |
| `Matcher.VideoTableOrder` | match_srt/match_srt.py:49-52 | distinct video paths appear in the dictionary in scan order |
| `Matcher.LastQualifyingWinsOverClosest` | match_srt/match_srt.py:54-57 | a 100 s video gets the later 101.9 s subtitle, not the closer 100.5 s one |
| `Report.RowOf` | match_srt/match_srt.py:71-76 | the four cells of one row; `RowMeaning` proves the name, the durations that read back, and `''` and `-` exactly when unmatched |
| `Report.RowMeaning` | match_srt/match_srt.py:70-76 | a row names the video's base name, shows its duration, shows `''` and `-` exactly when unmatched, and otherwise the recorded name and a duration reading back as the recorded milliseconds |
| `Report.BuildRows` | match_srt/match_srt.py:70-76 | the row loop produces one row per video, in dictionary order |
| `Report.Rows` | match_srt/match_srt.py:70-76 | the rows added, one `RowOf` row per dictionary entry in order; `BuildRows` proves the loop yields it, and `RowRecord` and `ReportRow` what each row shows |
| `MatchSrt.SubtitleTable` | match_srt/match_srt.py:42-47 | a loaded subtitles dictionary is valid |
| `MatchSrt.Durations` | match_srt/match_srt.py:43-46 | a path's track duration is the parsed cue list's `SubtitlesDuration`; `EmptyTrackAborts` proves an empty parse aborts the run |
| `MatchSrt.FailureStops` | match_srt/match_srt.py:42-47 | once a track fails, the remaining files do not change the failure |
| `MatchSrt.LoadSubtitles` | match_srt/match_srt.py:42-47 | the loading loop gives the subtitles dictionary or the failure of the first bad track |
| `MatchSrt.TableStep` | match_srt/match_srt.py:42-47 | one more file: an earlier failure stands; otherwise the file's track either fails with its reason or its duration is stored under its path |
| `MatchSrt.SubtitleTableSucceeds` | match_srt/match_srt.py:42-47 | loading succeeds exactly when every track has a duration |
| `MatchSrt.SubtitleTableContents` | match_srt/match_srt.py:42-47 | a successful load holds exactly the subtitle paths, each with its own track's duration |
| `MatchSrt.SubtitleTableFailure` | match_srt/match_srt.py:42-47 | a failed load names the first file without a duration and its reason, all earlier files having one |
| `MatchSrt.SubtitleTableOrder` | match_srt/match_srt.py:42-47 | distinct subtitle paths appear in the dictionary in the order they were read |
| `MatchSrt.Run` | match_srt/match_srt.py:21-76 | the whole computation as a value; `ReportRow`, `ReportMatch`, `NoSubtitlesNoMatches` and `RunStopsAtFirstFailure` prove what it produces |
| `MatchSrt.Matching` | match_srt/match_srt.py:21-76 | the whole run yields the report rows of `Run`, or the failure of the first bad subtitle track |
| `MatchSrt.KeptEntryNames` | match_srt/match_srt.py:30-39 | kept entry names contain no `/` and are not empty |
| `MatchSrt.LoadedInListingOrder` | match_srt/match_srt.py:36-47 | the subtitles dictionary walks the kept subtitle names in listing order, each stored under its path in the video directory with its own duration |
| `MatchSrt.ReportRow` | match_srt/match_srt.py:70-76 | there is one row per kept video, in listing order; each names the video and shows its duration, and shows both subtitle cells or neither |
| `MatchSrt.ReportMatch` | match_srt/match_srt.py:49-76 | a video's row shows a subtitle exactly when some kept subtitle is within tolerance; the one shown is the last such in listing order, with its own duration |
| `MatchSrt.RecordUnmatchedOverNames` | match_srt/match_srt.py:54-57 | over the kept subtitle names, for a function giving each name's track duration (the program's is the duration of the name joined onto the video directory): a video is unmatched exactly when no named track is within tolerance |
| `MatchSrt.RecordMatchedOverNames` | match_srt/match_srt.py:54-57 | over the kept subtitle names, for a function giving each name's track duration: a matched video holds the last name whose track is within tolerance, with that track's duration |
| `MatchSrt.RowRecord` | match_srt/match_srt.py:70-76 | the i-th row is the row of the i-th kept video with its matched record |
| `MatchSrt.VideoExtensionExact` | match_srt/match_srt.py:31 | a name with a stem is kept as a video exactly when what follows its last `.` is `mp4` in lower case, so `clip.MP4` is dropped |
| `MatchSrt.HiddenVideoNameDropped` | match_srt/match_srt.py:30-33 | the hidden name `.mp4` is never kept as a video |
| `MatchSrt.NoSubtitlesNoMatches` | match_srt/match_srt.py:49-76 | with no subtitle files the run succeeds and every row shows `''` and `-` |
| `MatchSrt.RunStopsAtFirstFailure` | match_srt/match_srt.py:36-47 | the run fails on the first kept subtitle file in listing order whose track has no duration, naming its path under the video directory and the reason |
| `MatchSrt.EmptyTrackAborts` | match_srt/match_srt.py:36-47 | a kept subtitle file with no cues, all earlier kept tracks having a duration, ends the run with an empty-track error naming its path under the video directory |

## Left out

- Video durations (`get_duration`, `get_frame_count`, lines 90-101) read container metadata through OpenCV with float division; they are a function parameter giving whole seconds. A zero frame rate and unreadable files are not modelled.
- Subtitle parsing (`parse_subtitles`, lines 86-87) is done by pysrt; it is a function parameter giving the cue list. Malformed subtitle files, cue text and the cue list stored beside each duration are not modelled.
- Directory listing (`os.listdir`, lines 30 and 36) is a parameter: each listing is a sequence of names. Missing or unreadable directories are not modelled, and listing order is whatever the caller gives.
- Command-line handling (lines 18-23) is not modelled. The subtitle listing is an input. By default that is the video directory's listing, as in lines 22-23. When subtitle paths are supplied, `nargs=-1` makes them a tuple, and `os.listdir` at line 36 cannot list a tuple. That path is not modelled.
- Table rendering (title, caption, column styles, printing; lines 11 and 59-69, 78) is console output; only the row cells are modelled.
- Floating point: durations are integer milliseconds throughout.
- `Formatting.FormatSecondsRoundTrip`: `FormatSeconds` does not model the exponent notation Python's `str` uses for durations of 10^16 seconds or more.
- `SubtitleTime.SubtitlesDuration`: cue times are non-negative; a cue shifted before zero, which the parser allows, is not representable.
- `Paths.Splitext`: only POSIX paths (`/` separator) are modelled, not Windows path rules.
