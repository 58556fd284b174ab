# video-stream, modelled in Dafny

video-stream is a small video library. Videos, subtitles and posters are stored in an
S3-compatible bucket, either Cloudflare R2 or DigitalOcean Spaces. Serverless functions list
the catalog, authorise uploads and keep watch progress in sync across devices. In the
browser, a local store remembers playback positions and a service worker caches video byte
ranges.

This project models the logic of that system and proves properties of it:

- **Watch progress** (`watch_progress.dfy`, `episodes.dfy`, from `src/utils/watchProgress.js`):
  - The store is a class. Its two fields are the two `localStorage` entries: records by
    video key, and the most-recent-first list of keys.
  - Formatting a playback time.
  - Reading series, season and episode from a video name. Each of the three regular
    expressions is a hand-written matcher that follows the engine's lazy and greedy choices.
  - Finding the next episode, and grouping a catalog by series and season.
- **Catalog** (`list_videos.dfy`, from `netlify/functions/list-videos.js`):
  - Files are classified by extension and grouped by base name.
  - The two loops are methods. Each is proved against the function that specifies it.
  - The catalog, newest first, and the handler's responses.
  - The subtitle-language extraction, with its two patterns searched leftmost-first.
- **Sync** (`sync_progress.dfy`, `sync_context.dfy`):
  - The server endpoint: code generation, blob keys, GET and POST, and the merge loop.
  - The client: adopting a code, pushing progress and pulling progress, with its own merge
    rule.
- **Storage selection** (`storage_config.dfy`) and **upload authorisation**
  (`get_upload_url.dfy`). The key an upload is stored under reads back, in the listing, as the
  name the user chose.
- **Faststart checker** (`check_faststart.dfy`, from `scripts/check-faststart.js`): the MP4 box
  walk over a file's bytes (ISO/IEC 14496-12 section 4.2 box headers) and the moov-before-mdat
  verdict.
- **Service worker** (`sw.dfy`, from `public/sw.js`):
  - Which requests it intercepts, and the cache key.
  - The cache as a class, whose entries are kept in insertion order.
  - The size-bounded eviction pass, the request handler and the stale-cache filter.

Helper modules:

| Module | Contents |
|---|---|
| `Wrappers` | `Option` |
| `Text` | ASCII character classes and case mapping, `lastIndexOf`/`split().pop()`, decimal printing and parsing |
| `Sorting` | a sort over a total preorder; it stands for `Array.prototype.sort` with a consistent comparator |

Modelling choices:

- Strings are sequences of Dafny `char`, which are Unicode scalar values. JavaScript strings are UTF-16 code units, so the two agree on text inside the Basic Multilingual Plane (code points up to U+FFFF); see "## Left out" for text outside it.
- Environment variables are a map.
- The bucket is a map from object key to blob.
- `Date.now()` is a parameter.
- `Math.random()` is a nondeterministic choice of a real in [0, 1).
- A network call is a function parameter from request to outcome.

Where the code and its documentation disagree, the model follows the code:

- A sync code is drawn from 32 symbols, and `L` is one of them.
- A subtitle whose language cannot be read is labelled `Unknown`.
- `video_english.srt` yields `lish`: the first pattern matches `_eng` + `lish` before the second
  pattern is tried. `ListVideos.LanguageOfFullName` proves this.
- Zero-size objects are not filtered out.
- Subtitles are matched only by base name, never by folder.
- Auto-detection prefers DigitalOcean when both providers are configured.

## Model

| member | source | states |
|---|---|---|
| WatchProgress.Round | src/utils/watchProgress.js:72 | `Math.round` gives the integer within one half of its argument, with halves rounding up |
| WatchProgress.WithoutMembers | src/utils/watchProgress.js:114 | the filter keeps exactly the keys other than the one being bumped |
| WatchProgress.WithoutIsSubsequence | src/utils/watchProgress.js:114 | the filter keeps the other keys in their relative order: the result is the list with some positions removed |
| WatchProgress.BumpSpec | src/utils/watchProgress.js:108-126 | after a bump the key is first and occurs exactly once; every other key was there before; the filtered order is kept; at most 20 keys remain |
| WatchProgress.MoreRecentFirstIsPreorder | src/utils/watchProgress.js:156 | the comparator `b.updatedAt - a.updatedAt` is a total preorder, so the sort is well defined |
| WatchProgress.ProgressStore.constructor | src/utils/watchProgress.js:13-30 | with nothing stored, both entries are empty |
| WatchProgress.ProgressStore.UpdateRecentlyWatched | src/utils/watchProgress.js:108-126 | the recent list becomes the bump of the old list; the progress records are untouched |
| WatchProgress.ProgressStore.SaveProgress | src/utils/watchProgress.js:39-53 | an empty key or a zero duration changes nothing; otherwise the key's record holds the position, the duration, the percentage and the save time, no other record changes, and the key is bumped to the front of the recent list |
| WatchProgress.ProgressStore.GetProgress | src/utils/watchProgress.js:60-63 | returns a record exactly when the key has one, and then that record |
| WatchProgress.ProgressStore.GetProgressPercent | src/utils/watchProgress.js:70-73 | 0 without a record; never above 100; at least 0 for a non-negative percentage; the rounded percentage when it is at most 99.5; 100 above 99.5 |
| WatchProgress.ProgressStore.IsWatched | src/utils/watchProgress.js:80-83 | watched exactly when the key has a record at 90 percent or more |
| WatchProgress.ProgressStore.MarkAsWatched | src/utils/watchProgress.js:90-92 | an empty key or a zero duration changes nothing. Otherwise the key's record holds the duration as both position and duration, 100 percent and the save time, so it counts as watched; no other record changes, and the key is bumped to the front of the recent list |
| WatchProgress.ProgressStore.ClearProgress | src/utils/watchProgress.js:98-102 | removes exactly that key's record and keeps the recent list |
| WatchProgress.ProgressStore.GetInProgressVideos | src/utils/watchProgress.js:145-157 | the items are exactly the records between 5 and 90 percent, one per key, most recently saved first |
| WatchProgress.ProgressStore.PickInProgress | src/utils/watchProgress.js:146-155 | the `filter` and `map` keep exactly the records between 5 and 90 percent, one item per key |
| WatchProgress.JsRem | src/utils/watchProgress.js:169 | JavaScript `%`: for a non-negative dividend the remainder lies in [0, divisor) |
| WatchProgress.RemainderBounds | src/utils/watchProgress.js:167-169 | subtracting the truncated quotient leaves a remainder in [0, divisor) |
| WatchProgress.Pad2 | src/utils/watchProgress.js:171-174 | `padStart(2, '0')`: the field ends the result, and only `0`s are put in front of it, just enough to reach two characters; a field of two or more characters is kept as it is |
| WatchProgress.ClockFields | src/utils/watchProgress.js:167-169 | for a non-negative time, the hours, minutes and seconds fields recombine to the whole seconds, and minutes and seconds are below 60 |
| WatchProgress.Pad2Value | src/utils/watchProgress.js:171-174 | a field below 100 prints as exactly two digits that read back as the field |
| WatchProgress.FormatTime | src/utils/watchProgress.js:164-175 | zero prints as `0:00` |
| WatchProgress.FormatTimeReadsBack | src/utils/watchProgress.js:164-175 | a positive time prints as clock text that reads back as its whole seconds, every field after the first two digits below 60 |
| WatchProgress.FormatTimeShape | src/utils/watchProgress.js:164-175 | a positive time prints with one `:` below an hour (`M:SS`) and two from one hour on (`H:MM:SS`) |
| WatchProgress.ClockTextShape | src/utils/watchProgress.js:171-174 | the hours field and its `:` are printed exactly when the hours are positive |
| WatchProgress.ClockTextReadsBack | src/utils/watchProgress.js:171-174 | the printed `H:MM:SS` or `M:SS` fields, minutes and seconds below 60, read back as the time they stand for |
| WatchProgress.HoursClock | src/utils/watchProgress.js:171-172 | `H:MM:SS` with minutes and seconds below 60 reads back as hours times 3600 plus minutes times 60 plus seconds |
| WatchProgress.MinutesClock | src/utils/watchProgress.js:174 | `M:SS` with seconds below 60 reads back as minutes times 60 plus seconds |
| WatchProgress.ClockValueJoin | src/utils/watchProgress.js:171-174 | a `:` and a two-digit field below 60 after a clock text multiply its value by 60 and add the field; any other digit field makes it no clock text |
| Episodes.RunEndMeans | src/utils/watchProgress.js:185-187 | a repetition takes its maximal run: every character in it matches and the next one does not |
| Episodes.DigitRun | src/utils/watchProgress.js:185-187 | a `\d+` capture consists of digits |
| Episodes.SxxEyyAt | src/utils/watchProgress.js:185 | a match of `[.\s_-]*[Ss](\d+)[Ee](\d+)` after a group 1 of the given length captures that prefix and two digit runs |
| Episodes.SeasonEpisodeAt | src/utils/watchProgress.js:186 | the same for `Season\s*(\d+)\s*Episode\s*(\d+)`, ignoring case |
| Episodes.NxMAt | src/utils/watchProgress.js:187 | the same for `(\d+)x(\d+)` |
| Episodes.LazySearch | src/utils/watchProgress.js:185-190 | a match found by the lazy `^(.+?)` search has a valid capture |
| Episodes.LazySearchIsShortest | src/utils/watchProgress.js:185-190 | the lazy search returns the match with the shortest group 1 whose prefix holds no line terminator, and finds nothing when no such length matches |
| Episodes.ParseEpisodeInfo | src/utils/watchProgress.js:182-202 | no episode exactly when none of the three patterns matches; otherwise the first pattern that matches, in the order `SxxEyy`, `Season N Episode M`, `NxM`, gives series, season and episode |
| Episodes.DotsToSpaces | src/utils/watchProgress.js:194 | `.replace(/[._]/g, ' ')`: every `.` and `_` becomes a space and every other character stays in place |
| Episodes.Trim | src/utils/watchProgress.js:194 | `trim()`: the result is a slice of the input with only white space outside it, and it neither starts nor ends with white space |
| Episodes.SxxEyyNotBefore | src/utils/watchProgress.js:185 | while group 1 is shorter than a series name without an `S<digit>` inside it, the first pattern cannot match |
| Episodes.SxxEyyAtSeries | src/utils/watchProgress.js:185 | with group 1 equal to the series, the first pattern captures the season and episode digits of a conventional name |
| Episodes.SxxEyyAtRuns | src/utils/watchProgress.js:185 | the first pattern's capture, read off its separator run and its two digit runs |
| Episodes.ParseConventionalName | src/utils/watchProgress.js:182-202 | a name laid out as a series, a separator, `S<digits>E<digits>` and a rest parses into that series, season and episode |
| Episodes.BostonLegalExample | src/utils/watchProgress.js:179-202 | `Boston.Legal.S01E02.mkv` parses as season 1, episode 2 of `Boston Legal` |
| Episodes.RunEndOver | src/utils/watchProgress.js:185-187 | a run that stops at a given position ends there |
| Episodes.LazyFirstAt | src/utils/watchProgress.js:185-190 | when a length is the first that matches and its prefix is clean, the lazy search returns that match |
| Episodes.SeriesEpisodesMembers | src/utils/watchProgress.js:215-217 | a video is among the series' episodes exactly when its name parses into a series equal ignoring case |
| Episodes.SeasonThenEpisodeIsPreorder | src/utils/watchProgress.js:218-221 | season-then-episode ordering is a total preorder |
| Episodes.IndexOfKey | src/utils/watchProgress.js:224 | `findIndex`: the first position holding the key, or -1 when none does |
| Episodes.SortedSeries | src/utils/watchProgress.js:215-221 | the series' episodes, sorted by season and episode, and no others |
| Episodes.FindNextEpisode | src/utils/watchProgress.js:210-213 | an unparseable current name has no next episode |
| Episodes.FindNextEpisodeSpec | src/utils/watchProgress.js:210-230 | An unparseable current name has no next episode. A next episode is a catalog video of the same series (ignoring case), parsed from its own name. It is the entry right after the first series video holding the current key in season and episode order: no earlier than that video, and no series video lies strictly between them |
| Episodes.FindNextEpisodeNone | src/utils/watchProgress.js:224-229 | for a parseable current name, there is no next episode exactly when no series video holds the current key or the first one that does ends the sorted series; then no series video comes strictly after a video holding the key |
| Episodes.AddEpisode | src/utils/watchProgress.js:245-254 | pushing creates the missing series and season levels and files the episode under its series and season |
| Episodes.AddEpisodeKeeps | src/utils/watchProgress.js:245-254 | pushing keeps every episode under its own series and season, and adds exactly the new one |
| Episodes.Unparsed | src/utils/watchProgress.js:241-256 | exactly the videos whose names do not parse |
| Episodes.Group | src/utils/watchProgress.js:241-256 | the ungrouped videos are exactly the unparseable ones, in input order |
| Episodes.GroupSpec | src/utils/watchProgress.js:241-256 | the first loop files exactly the parseable videos under their series and season, and keeps exactly the others, in input order, as ungrouped |
| Episodes.ByEpisodeIsPreorder | src/utils/watchProgress.js:263 | the episode-number comparator is a total preorder |
| Episodes.SortSeasons | src/utils/watchProgress.js:261-265 | the same series and seasons, each season sorted by episode and a permutation of itself |
| Episodes.SortSeasonsKeepsGroups | src/utils/watchProgress.js:261-265 | sorting moves episodes only within their season |
| Episodes.PushEpisode | src/utils/watchProgress.js:245-254 | the loop body computes the push |
| Episodes.GroupVideosBySeries | src/utils/watchProgress.js:237-268 | the method returns the grouping followed by the per-season sort, and the ungrouped list |
| Episodes.GroupVideosBySeriesSpec | src/utils/watchProgress.js:237-268 | every parseable video sits under its series and season, each season is sorted by episode, and exactly the unparseable videos are ungrouped |
| ListVideos.StripExtensionOfJoin | netlify/functions/list-videos.js:71 | removing the extension of `stem.ext` gives `stem` |
| ListVideos.StripExtension | netlify/functions/list-videos.js:71 | the result is a prefix of the name |
| ListVideos.DisplayName | netlify/functions/list-videos.js:100-105 | no longer than the file name; without a timestamp prefix a prefix of it; with one, free of underscores |
| ListVideos.LeadingDigitsOfJoin | netlify/functions/list-videos.js:102 | a digit run followed by a non-digit is exactly the leading digit run |
| ListVideos.TimestampedRestOfJoin | netlify/functions/list-videos.js:102 | `^\d+-(.+)$` on digits, a dash and a non-empty rest without line terminators captures that rest |
| ListVideos.StripUnderscoredJoin | netlify/functions/list-videos.js:104 | after underscores become spaces, stripping the extension of `stem.ext` leaves `stem` with its underscores as spaces |
| ListVideos.DisplayNameOfPlain | netlify/functions/list-videos.js:103-105 | without a timestamp prefix, `stem.ext` (dot-free non-empty `ext`) is displayed as `stem` |
| ListVideos.DisplayNameOfTimestamped | netlify/functions/list-videos.js:102-104 | `<digits>-stem.ext` (dot-free non-empty `ext`, no line terminator) is displayed as `stem` with underscores as spaces |
| ListVideos.DisplayNameWithoutDot | netlify/functions/list-videos.js:102-105 | a name without a dot is displayed whole, or, with a timestamp prefix, as the rest after it with underscores as spaces |
| ListVideos.DisplayNameEndingInDot | netlify/functions/list-videos.js:102-105 | a name ending in `.` keeps its dot: it is displayed whole, or, with a timestamp prefix, as the rest after it with underscores as spaces |
| ListVideos.RoleOf | netlify/functions/list-videos.js:80-90 | a file is a video, a subtitle or a poster exactly when its lower-cased extension is in the matching list (a poster must also contain `-poster`) |
| ListVideos.LeadingDigits | netlify/functions/list-videos.js:101 | the `\d+` of the display-name pattern takes the maximal digit run |
| ListVideos.TimestampedRest | netlify/functions/list-videos.js:101-103 | `^\d+-(.+)$` matches exactly when digits and a dash precede a non-empty rest without line terminators, and then captures that rest |
| ListVideos.ContentType | netlify/functions/list-videos.js:169-181 | each of `mp4`, `webm`, `ogg`, `mov`, `avi`, `mkv` and `m4v` gets its own MIME type; any other extension gets `video/mp4` |
| ListVideos.CodeThenName | netlify/functions/list-videos.js:155 | a capture of the code-then-name pattern is a non-empty run of letters |
| ListVideos.LanguagePatternOneAt | netlify/functions/list-videos.js:155 | a match of the first pattern at a position yields letters, and only for a `.srt` name |
| ListVideos.LanguagePatternTwoAt | netlify/functions/list-videos.js:156 | the same for the second pattern |
| ListVideos.LeftmostOneMeans | netlify/functions/list-videos.js:155-163 | the search finds a match exactly when some position matches, and then returns the leftmost one |
| ListVideos.LeftmostTwo | netlify/functions/list-videos.js:156-163 | the second pattern's search finds a match exactly when some position matches |
| ListVideos.ExtractLanguage | netlify/functions/list-videos.js:152-166 | the leftmost match of the first pattern decides when there is one, else the leftmost match of the second; with neither, `Unknown`. The result is `Unknown` or a non-empty run of letters, and `Unknown` for a name not ending in `.srt` |
| ListVideos.CapturedUnknown | netlify/functions/list-videos.js:152-166 | a track captured as `Unknown` (`a-Unknown.srt`) is labelled like a file neither pattern matches |
| ListVideos.ClassifyAll | netlify/functions/list-videos.js:64-72 | one classification per listed object |
| ListVideos.Classify | netlify/functions/list-videos.js:66-90 | the item keeps its object and its key's base name; it is a video exactly when its extension is a video extension; its subtitle record carries its key, file name and a language; a non-video extension has the default content type |
| ListVideos.FirstSeenDistinct | netlify/functions/list-videos.js:74-78 | the `Map`'s key order repeats no base name |
| ListVideos.FirstSeenMembers | netlify/functions/list-videos.js:74-78 | the `Map`'s key order drops nothing but repeats |
| ListVideos.BaseNamesExact | netlify/functions/list-videos.js:64-91 | the map holds exactly the listed base names, each once |
| ListVideos.UnlistedIsEmpty | netlify/functions/list-videos.js:74-78 | a base name no object has gets no video, subtitle or poster |
| ListVideos.FileMapStep | netlify/functions/list-videos.js:74-90 | one turn of the listing loop updates the entry found, or appends a new one |
| ListVideos.FindEntry | netlify/functions/list-videos.js:74-78 | `fileMap.get`: the entry for the base name, or the end of the map when there is none |
| ListVideos.BuildFileMap | netlify/functions/list-videos.js:64-91 | the listing loop builds the specified map |
| ListVideos.EntryVideoIsLast | netlify/functions/list-videos.js:80-81 | a base name has a video exactly when a video file is listed under it, and it is the last one listed |
| ListVideos.EntryPosterIsLast | netlify/functions/list-videos.js:88-89 | likewise the poster is the last `-poster` image listed under the base name |
| ListVideos.TracksUnderSnoc | netlify/functions/list-videos.js:82-87 | a subtitle file listed last adds its record at the end of its base name's tracks |
| ListVideos.EntrySubtitlesInOrder | netlify/functions/list-videos.js:82-87 | an entry holds exactly the subtitle records of its base name's subtitle files, in listing order |
| ListVideos.ClassifyAllWellClassified | netlify/functions/list-videos.js:67-72 | every classified object carries the base name of its own key |
| ListVideos.EmittedExact | netlify/functions/list-videos.js:94-98 | the second loop emits an entry exactly when its base name has a video |
| ListVideos.EmittedKeysDistinct | netlify/functions/list-videos.js:94-117 | no two emitted videos share an object key |
| ListVideos.VideosOf | netlify/functions/list-videos.js:99-116 | one catalog entry per emitted video |
| ListVideos.NewerFirstIsPreorder | netlify/functions/list-videos.js:120 | the newest-upload-first comparator is a total preorder |
| ListVideos.Catalog | netlify/functions/list-videos.js:94-120 | the catalog is sorted newest first and is a permutation of the emitted entries |
| ListVideos.FileMapKeyedByBase | netlify/functions/list-videos.js:64-91 | every map entry's video lies under that entry's own base name |
| ListVideos.CatalogKeysDistinct | netlify/functions/list-videos.js:64-120 | no two catalog entries share a key: one entry per stored video |
| ListVideos.VideosOfExact | netlify/functions/list-videos.js:94-117 | the emitted entries are exactly those built from map entries that have a video |
| ListVideos.CatalogExact | netlify/functions/list-videos.js:64-120 | the catalog holds, for each base name with a video, the entry built from its last video, its subtitles and its poster, and nothing else |
| ListVideos.VideosOfSnoc | netlify/functions/list-videos.js:94-117 | a map entry at the end adds its catalog entry at the end, if it has a video |
| ListVideos.CollectVideos | netlify/functions/list-videos.js:94-117 | the second loop computes the specified catalog entries |
| ListVideos.ListReply.StatusCode | netlify/functions/list-videos.js:11-148 | 200 for the preflight and the catalog, 405 for other methods, 500 for a missing provider or a failed listing |
| ListVideos.ListVideos | netlify/functions/list-videos.js:11-148 | OPTIONS gives the preflight, and any method but GET gives 405. A GET without a provider gives 500. Otherwise the reply is the catalog with its count, the provider name and the available providers, or 500 with the listing error |
| ListVideos.LanguageOfCodeAndName | netlify/functions/list-videos.js:152-166 | `2_eng,English.srt` is labelled `English` |
| ListVideos.LanguageOfTwoLetterCode | netlify/functions/list-videos.js:152-166 | `video.en.srt` is labelled `en` |
| ListVideos.LanguageOfFullName | netlify/functions/list-videos.js:152-166 | `video_english.srt` is labelled `lish` |
| Sorting.Sort | netlify/functions/list-videos.js:120 | the result is ordered by the comparator and is a permutation of the input |
| Sorting.Ties | netlify/functions/list-videos.js:120 | the elements the comparator ranks equal to a given one, in order |
| Sorting.InsertTies | netlify/functions/list-videos.js:120 | inserting an element puts it before the elements it ties with |
| Sorting.SortIsStable | netlify/functions/list-videos.js:120 | the sort is stable: elements the comparator ranks equal keep their input order, as `Array.prototype.sort` guarantees |
| Sorting.PermutationKeepsKeysDistinct | netlify/functions/list-videos.js:120 | reordering cannot make two elements share a key |
| StorageConfig.EnvOr | netlify/functions/storage-config.js:20 | `process.env[name] \|\| fallback`: the value when set and non-empty, otherwise the fallback |
| StorageConfig.GetStorageClient | netlify/functions/storage-config.js:8-51 | With no preference, the client is DigitalOcean when its credentials are set, else R2 when its are, else none. An explicit `do` or `r2` gets that provider exactly when its credentials are set. Any other preference gets none. Each client carries its provider's endpoint and region, the access key and secret of that provider's environment variables, and its bucket, with the documented defaults |
| StorageConfig.ProviderName | netlify/functions/storage-config.js:13-50 | the provider name is absent exactly when there is no client, and is otherwise `do` or `r2` |
| StorageConfig.GetAvailableProviders | netlify/functions/storage-config.js:57-62 | a provider is listed exactly when asking for it by name yields a client |
| UploadUrl.UploadReply.StatusCode | netlify/functions/get-upload-url.js:6-107 | 200 for the preflight and the grant, 400 without a file name, 405 for other methods, 500 for configuration and other errors |
| UploadUrl.Sanitize | netlify/functions/get-upload-url.js:68 | same length; safe characters stay put and every other character becomes `_` |
| UploadUrl.SanitizeIdempotent | netlify/functions/get-upload-url.js:68 | sanitising twice changes nothing more |
| UploadUrl.SanitizedIsPlain | netlify/functions/get-upload-url.js:68 | a sanitised name holds no `/` and no line terminator |
| UploadUrl.UploadKey | netlify/functions/get-upload-url.js:69 | the key lies under `videos/` |
| UploadUrl.GetUploadUrl | netlify/functions/get-upload-url.js:4-107 | OPTIONS gives the preflight, and any method but POST gives 405. A missing file name gives 400. Missing R2 variables give 500. Otherwise the grant is for the timestamped, sanitised key, with the given content type (default `video/mp4`) and a one-hour expiry. A body that does not parse gives 500 |
| UploadUrl.FileNameOfUploadKey | netlify/functions/get-upload-url.js:67-69 | the listing's file name of an uploaded key is the timestamp, a dash and the sanitised name |
| UploadUrl.UploadDisplayRoundTrip | netlify/functions/get-upload-url.js:67-69 | an uploaded file is listed under the name the user chose: sanitised, underscores as spaces, without its extension |
| SyncProgress.AlphabetSymbols | netlify/functions/sync-progress.js:17 | 32 symbols, without `0`, `O`, `1` and `I`; `L` is included |
| SyncProgress.AlphabetUnambiguous | netlify/functions/sync-progress.js:17 | every symbol is an upper-case letter other than `O` and `I`, or a digit other than `0` and `1` |
| SyncProgress.GenerateSyncCode | netlify/functions/sync-progress.js:16-23 | six symbols of the alphabet, none of them `0`, `O`, `1` or `I` |
| SyncProgress.BlobKey | netlify/functions/sync-progress.js:13-46 | the key lies under `sync-data/`, ends in `.json`, and is the code's length plus 15 |
| SyncProgress.BlobKeySameExactly | netlify/functions/sync-progress.js:26-54 | two codes address the same blob exactly when they agree after upper-casing |
| SyncProgress.BlobKeyIgnoresCase | netlify/functions/sync-progress.js:26-54 | a lower-cased code addresses the same blob |
| SyncProgress.Merged | netlify/functions/sync-progress.js:146-162 | the merged keys are those of both sides, and each record comes from one of them |
| SyncProgress.MergedLastWriteWins | netlify/functions/sync-progress.js:146-162 | a key on one side keeps that side's record; on both sides the later `updatedAt` wins, and a tie goes to the incoming record |
| SyncProgress.MergedIdempotent | netlify/functions/sync-progress.js:146-162 | posting the stored map changes nothing |
| SyncProgress.MergedWithEmpty | netlify/functions/sync-progress.js:143-162 | posting into an empty blob stores the post; posting nothing keeps the blob |
| SyncProgress.MergeProgress | netlify/functions/sync-progress.js:146-162 | the spread and the loop compute the merge |
| SyncProgress.SyncReply.StatusCode | netlify/functions/sync-progress.js:61-194 | 204, 200, 400, 404, 405 and 500, each for exactly its replies |
| SyncProgress.Lookup | netlify/functions/sync-progress.js:100-118 | 404 exactly when no blob is stored under the upper-cased code; otherwise the upper-cased code with the stored progress and its `lastUpdated` |
| SyncProgress.Post | netlify/functions/sync-progress.js:122-179 | A falsy code gives 400, and then a progress field that is not an object gives 400; every other body is saved. Only a save changes the bucket. A save writes the merge of the stored and posted progress, stamped `now`, under the upper-cased code, and replies with the upper-cased code and `now` |
| SyncProgress.PostThenLookup | netlify/functions/sync-progress.js:100-179 | after a successful POST, a GET with the same code in any case finds the merged progress |
| SyncProgress.HandleSync | netlify/functions/sync-progress.js:57-194 | OPTIONS gives 204, and a missing provider gives 500. GET without a code hands out a fresh code; GET with a code looks it up. POST validates and merges. Any other method gives 405, and a body that does not parse gives 500. Only a save changes the bucket |
| SyncContext.LocalAlphabetIsServerAlphabet | src/context/SyncContext.jsx:49 | the client's fallback alphabet is the server's |
| SyncContext.Pulled | src/context/SyncContext.jsx:152-157 | the pulled keys are those of both sides, and each record comes from one of them |
| SyncContext.PulledKeepsLocal | src/context/SyncContext.jsx:152-157 | A local record with no remote counterpart stays. A remote record that is no newer does not replace the local one. A strictly newer non-zero remote record does |
| SyncContext.PulledIdempotent | src/context/SyncContext.jsx:152-157 | pulling the map already held changes nothing |
| SyncContext.TieGoesToTheReceiver | src/context/SyncContext.jsx:152-157 | on equal timestamps the server keeps the pushed record and the client keeps its own |
| SyncContext.PullMerge | src/context/SyncContext.jsx:152-157 | the loop computes the pull rule |
| SyncContext.GenerateLocalCode | src/context/SyncContext.jsx:48-55 | six symbols of the server's alphabet |
| SyncContext.SyncState.constructor | src/context/SyncContext.jsx:10-15 | no code, not syncing, never synced, no error, over what `localStorage` holds |
| SyncContext.SyncState.SetSyncCode | src/context/SyncContext.jsx:58-110 | A code that is not six characters is refused with an error. Otherwise the upper-cased code is looked up. Found: the code is adopted and stored, the remote progress is pulled in, and the sync is time-stamped. Not found, or unreachable: a matching error, and nothing else changes |
| SyncContext.SyncState.SyncToServer | src/context/SyncContext.jsx:113-136 | Without a code, nothing happens. Otherwise the local progress is posted under the code. Success time-stamps the sync; failure records an error. The code and progress stay |
| SyncContext.SyncState.SyncFromServer | src/context/SyncContext.jsx:139-172 | Without a code, nothing happens. Otherwise fetched progress is pulled in and time-stamped; a failed fetch records an error and keeps the local progress |
| CheckFaststart.BigEndianEncode | scripts/check-faststart.js:43-50 | reading back the big-endian encoding of a number in range gives the number |
| CheckFaststart.PaddedMeans | scripts/check-faststart.js:38-49 | a zero-filled buffer read at an offset holds the file's bytes, then zeros past its end |
| CheckFaststart.BigEndianZeros | scripts/check-faststart.js:48-50 | zero bytes read as zero |
| CheckFaststart.ReadUInt32BE | scripts/check-faststart.js:43 | `readUInt32BE` is below 2^32 |
| CheckFaststart.ReadBigUInt64BE | scripts/check-faststart.js:50 | `readBigUInt64BE` is below 2^64 |
| CheckFaststart.UInt32IsBigEndian | scripts/check-faststart.js:43 | `readUInt32BE` reads the big-endian number of its four bytes |
| CheckFaststart.UInt64IsBigEndian | scripts/check-faststart.js:50 | `readBigUInt64BE` reads the big-endian number of its eight bytes |
| CheckFaststart.BoxSize | scripts/check-faststart.js:43-56 | the recorded size is never zero |
| CheckFaststart.BoxSizeOfHeader | scripts/check-faststart.js:43 | a size field above 1 is the box size |
| CheckFaststart.BoxSizeToEnd | scripts/check-faststart.js:47-56 | a size field of 0 runs the box to the end of the file; so does a size field of 1 whose 8-byte header already reaches the end of the file, since its `largesize` is then read from zero padding |
| CheckFaststart.BoxSizeOfLargeHeader | scripts/check-faststart.js:47-51 | a size field of 1 with a non-zero `largesize` takes the `largesize` |
| CheckFaststart.AtomAt | scripts/check-faststart.js:58 | the box recorded at an offset has that offset and a positive size |
| CheckFaststart.AtomsFrom | scripts/check-faststart.js:37-61 | the walk is empty exactly when no full header remains, and otherwise starts with a box of positive size at its own offset |
| CheckFaststart.AtomIsHeader | scripts/check-faststart.js:37-58 | every recorded box was read from a full header at its own offset |
| CheckFaststart.AtomsConsecutive | scripts/check-faststart.js:61 | each box starts where the one before it ends |
| CheckFaststart.AtomsStopShort | scripts/check-faststart.js:37-41 | the walk stops only when the last box ends less than a header before the end of the file |
| CheckFaststart.OffsetsIncrease | scripts/check-faststart.js:58-61 | offsets strictly increase along the walk |
| CheckFaststart.ReadAtoms | scripts/check-faststart.js:30-71 | the loop records exactly the specified walk from offset 0 |
| CheckFaststart.FirstOffsetMeans | scripts/check-faststart.js:79-89 | -1 exactly when no box has the type; otherwise the offset of the first box that has it |
| CheckFaststart.FirstOffsetStep | scripts/check-faststart.js:82-89 | one more box scanned sets its type's offset only if none was found yet |
| CheckFaststart.ScanOffsets | scripts/check-faststart.js:79-89 | the loop finds the first `moov` and the first `mdat` offsets |
| CheckFaststart.CheckFaststart | scripts/check-faststart.js:76-103 | The first `moov` and `mdat` offsets of the walk are reported. The file is faststart exactly when both exist and `moov` comes first, and needs a fix exactly when both exist and `mdat` comes first. Never both |
| CheckFaststart.DistinctKindsDistinctOffsets | scripts/check-faststart.js:91-101 | a `moov` box and an `mdat` box never share an offset, so a file with both is either faststart or in need of a fix |
| ServiceWorker.IsVideoRequestIgnoresCase | public/sw.js:15-18 | lower-casing the URL first does not change the verdict |
| ServiceWorker.QueryStringExtension | public/sw.js:15-18 | an extension inside the query string, in any case, counts |
| ServiceWorker.IsVideoRequest | public/sw.js:15-18 | a URL is a video request only if it contains a `.` |
| ServiceWorker.RangePart | public/sw.js:32 | the range, or `full` when it is missing or empty; never empty |
| ServiceWorker.CacheKey | public/sw.js:31-34 | the key is the URL, `\|` and the range part |
| ServiceWorker.CacheKeyInjective | public/sw.js:31-34 | for URLs without `\|`, two requests share a key exactly when they share URL and range |
| ServiceWorker.EmptyRangeIsFull | public/sw.js:32 | an empty `Range` header and a missing one share the `full` entry |
| ServiceWorker.ShouldCache | public/sw.js:94 | `ok \|\| status === 206` holds exactly for a 2xx status |
| ServiceWorker.HandledByCache | public/sw.js:156 | only GET requests whose URL contains a `.` are handled by the worker |
| ServiceWorker.StaleCaches | public/sw.js:138-139 | the stale caches are some of the listed names |
| ServiceWorker.StaleCachesMembers | public/sw.js:138-139 | a cache is deleted on activation exactly when it is another `video-cache-` version |
| ServiceWorker.SumAppend | public/sw.js:43-57 | the size total of two runs of entries adds up |
| ServiceWorker.WithoutMembers | public/sw.js:68 | deleting keys removes exactly the entries under them |
| ServiceWorker.WithoutKeepsDistinct | public/sw.js:68 | deleting keeps keys distinct |
| ServiceWorker.RemoveOne | public/sw.js:68 | with distinct keys, deleting a present entry's key removes exactly that entry |
| ServiceWorker.SumOfPermutation | public/sw.js:64 | reordering the entries keeps their total |
| ServiceWorker.RemoveOneSum | public/sw.js:68-69 | deleting an entry lowers the total by its size, as `totalSize -= oldest.size` assumes |
| ServiceWorker.EvictCountIsMinimal | public/sw.js:66-71 | the loop removes the shortest oldest-first prefix after which the rest fits 80% of the limit, or everything |
| ServiceWorker.Oldest | public/sw.js:64 | the entries sorted oldest first (by the `Date` header), a permutation of the cache |
| ServiceWorker.OlderFirstIsPreorder | public/sw.js:64 | the oldest-first comparator is a total preorder |
| ServiceWorker.OldestKeepsCacheOrder | public/sw.js:64 | entries with the same date keep their cache order in the oldest-first order |
| ServiceWorker.EvictKeepsDistinct | public/sw.js:66-71 | evicting keeps keys distinct |
| ServiceWorker.EvictContents | public/sw.js:66-71 | evicting the first entries of the oldest-first order leaves exactly the rest |
| ServiceWorker.AfterCleanup | public/sw.js:39-73 | a cache within the limit is left alone |
| ServiceWorker.CleanupReachesTarget | public/sw.js:60-71 | a cache with distinct keys over the limit ends at most at 80% of it |
| ServiceWorker.CleanupIsMinimal | public/sw.js:66-71 | any shorter run of deletions would have left more than 80% of the limit |
| ServiceWorker.CleanupEvictsOldest | public/sw.js:64-71 | every deleted entry is no newer than every kept one |
| ServiceWorker.Lookup | public/sw.js:83 | `cache.match(key)` finds an entry under that key, or none when no entry has it |
| ServiceWorker.FallbackAsWrittenMisses | public/sw.js:111 | the fallback as written, a lookup of a bare URL without `\|`, finds nothing in any cache whose keys all come from `getCacheKey`, whatever URLs they were filed for |
| ServiceWorker.FallbackAsWrittenExample | public/sw.js:111 | with `/a.mp4\|full` cached, the lookup as written finds nothing |
| ServiceWorker.FallbackEntry | public/sw.js:110-115 | the first entry for any range of the URL, or none when there is none |
| ServiceWorker.FallbackFindsAnyRange | public/sw.js:110-115 | any cached range of the URL serves as the fallback |
| ServiceWorker.AfterResponseAsWritten | public/sw.js:94-101 | as written, a response that `cache.put` refuses (206) leaves the cache unchanged |
| ServiceWorker.PartialResponseNeverStored | public/sw.js:94-101 | as written, a range answered with 206 is never stored, so the next request for it misses again |
| ServiceWorker.AfterResponse | public/sw.js:94-101 | corrected: a response that is not cacheable leaves the cache alone; a cacheable one that fits the limit is appended under its key |
| ServiceWorker.LookupLast | public/sw.js:83 | a lookup of a key held only by the last entry finds that entry |
| ServiceWorker.PartialResponseStored | public/sw.js:94-101 | corrected: a range answered with 206 that fits the limit is served from the cache the next time |
| ServiceWorker.VideoCache.constructor | public/sw.js:40 | a new cache is empty |
| ServiceWorker.VideoCache.Put | public/sw.js:99 | the new entry replaces any under the same key and goes last |
| ServiceWorker.VideoCache.CacheSize | public/sw.js:43-57 | the walk over the keys lists the entries in cache order and sums their sizes |
| ServiceWorker.VideoCache.EvictOldest | public/sw.js:66-71 | the loop deletes exactly the prefix of the oldest-first order the eviction count names |
| ServiceWorker.VideoCache.CleanupCache | public/sw.js:39-73 | the cache becomes the specified clean-up of the old cache, with keys still distinct |
| ServiceWorker.VideoCache.HandleVideoRequest | public/sw.js:78-119 | A hit is served from the cache and the cache is unchanged. Otherwise a 2xx response (a 206 range included) is filed under the key and the cache cleaned up, and any other response is passed through. A failed fetch falls back to any cached range of the URL |
| Text.AfterLast | netlify/functions/list-videos.js:67 | `split(c).pop()` is a suffix of the input and holds no `c` |
| Text.AfterLastOfJoin | netlify/functions/list-videos.js:67 | the text after the last `c` of `s + c + t` is `t` |
| Text.DecimalRoundTrip | src/utils/watchProgress.js:195-196 | `parseInt` of a printed number gives the number |

## Left out

- Storage I/O: the S3 calls are not modelled.
  - The bucket is a map.
  - A listing either yields its objects or fails with an error.
  - Storage errors other than a missing key are not modelled.
  - URL presigning is not modelled. The grant states the bucket, key, content type and expiry it authorises.
- Browser storage: `localStorage` parse and write failures (the `try`/`catch` of `getAllProgress` and `saveAllProgress`) are not modelled; the entries are plain fields.
- Sync initialisation on mount (`initSync`, `isInitialized`, the context hook) is not modelled; it is React wiring around `SyncState`.
- `getRecentlyWatched` is not a separate member: it returns the `recent` field as it stands.
- HTTP headers, CORS bodies and console logging are not modelled. The replies are datatypes that carry the body fields and a status code.
- Floating point:
  - Positions, durations and percentages are exact reals.
  - The `NaN` cases of `formatTime` and of the percentage guards are not modelled.
  - `Number(BigInt)` rounding of a 64-bit `largesize` above 2^53 is not modelled.
  - Box offsets are exact integers.
- Dates: `new Date(...)` parsing in the two sorts is modelled as integer epoch milliseconds. An unparseable `Date` header is not modelled; the source then compares `NaN`.
- Case mapping: upper- and lower-casing covers ASCII letters only. Unicode case mapping is not modelled.
- Service worker:
  - `cache.put` and the clean-up it triggers run in the background in the source. The model runs them in sequence.
  - Concurrent requests and concurrent devices are not modelled.
  - The `install`/`clients.claim` steps are not modelled.
  - The `CLEAR_VIDEO_CACHE` message is not modelled.
  - The size walk of the `GET_CACHE_SIZE` message shares `VideoCache.CacheSize`. Every key is assumed to have a response.
- Faststart tool: `fixFaststart`, the ffmpeg call, the directory walk and the command line are not modelled.
  - The `if (size === 0) break` guard of `readAtoms` is unreachable: a zero size has already become the rest of the file. `CheckFaststart.BoxSize` proves every recorded size positive.
- Characters outside the Basic Multilingual Plane (code points above U+FFFF) are one `char` in the model but two UTF-16 code units in JavaScript. Lengths and per-unit regular expressions then differ:
  - UploadUrl.Sanitize: maps such a character to one `_`, while the source's regular expression (no `u` flag) replaces each of its two code units, so `🎬.mp4` becomes `__.mp4` there and `_.mp4` here.
  - SyncContext.SyncState.SetSyncCode: counts such a character as length 1, while `newCode.length` counts 2, so a code of three such characters is refused here and looked up by the source.
- Plain-object quirks of JavaScript are not modelled: the progress and blob maps hold only their own keys. In the source, `progress["toString"]` finds an inherited function (so `getProgress("toString")` returns it), assigning `progress["__proto__"]` sets the prototype instead of saving a record, and the `typeof progress !== 'object'` check of the sync POST accepts an array. The `grouped` object of `groupVideosBySeries` has the same quirks: a series named `constructor` or `toString` finds an inherited value, so `!grouped[series]` is false and the push goes astray.
- Episodes.GroupVideosBySeries: the result `Episodes.Grouped` is a map of maps, so the key order of `Object.entries(grouped)` (insertion order, integer-like keys first) is not stated.
- Sync POST: the two `Date.now()` calls of the POST handler are modelled as one time.
- WatchProgress.ProgressStore.GetInProgressVideos: records are a map with no key order, so the order among records saved at the same `updatedAt` is not stated. The source sorts `Object.entries` stably, so such records keep their insertion order.
- ServiceWorker.VideoCache.HandleVideoRequest: follows the corrected definitions of both Findings rows. A 206 response is stored (as written, `cache.put` refuses it), and the fallback finds any cached range of the URL (as written, it matches the bare URL). The as-written behaviour is modelled beside it by `AfterResponseAsWritten` and `FallbackAsWrittenMisses`.

## Findings

| source | as written | input that shows it | evidently intended | confidence | as-written member | corrected member |
|---|---|---|---|---|---|---|
| public/sw.js:111 | the offline fallback calls `cache.match(request.url)`, but every entry is filed under `getCacheKey`, i.e. `url\|range` | `/a.mp4\|full` is cached and the network fails for `/a.mp4`: the bare URL matches nothing | serve any cached range of the same URL when the network fails | high, not executed | ServiceWorker.FallbackAsWrittenMisses | ServiceWorker.FallbackFindsAnyRange |
| public/sw.js:94-101 | a `206 Partial Content` response is handed to `cache.put`, which rejects partial responses with a `TypeError` (W3C Service Workers, the `Cache.put` algorithm), so no range is ever stored and `cleanupCache` never runs after one | a request with a `Range` header that the server answers with 206 | the range is stored under `url\|range`, for example re-wrapped as a 200 response, and served from the cache the next time | high, not executed | ServiceWorker.PartialResponseNeverStored | ServiceWorker.PartialResponseStored |
