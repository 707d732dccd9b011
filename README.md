# daiseihai archive core in Dafny

A model of the deterministic core of *daiseihai*, a Django archive of
tournament videos with a client-side chat replay.

- **Colour field.** `ColorFields` in `fields.dfy` models `ColorFormField.clean`
  and `ColorField`. That means the `#hex` check, `_to_int` over Python's
  `int(s, 16)` grammar, `from_db_value`, `get_prep_value` and `to_python`.
- **Video form.** `Forms` in `forms.dfy` models `VideoForm.clean`. `clean`
  derives `chat_start` from the two sync-helper inputs. `cleaned_data` is a
  map that the method updates in place.
- **Models and invariants.** `Archive` in `models.dfy` covers the records,
  the logo upload path, `Video.link`, `Team.style` and `Tournament.__str__`.
  It also states the `Meta` orderings as total preorders and the uniqueness
  constraints as predicates over a `Catalog` of tables.
- **Views.** `Views` in `views.dfy` models each view as a function over the
  in-memory catalog: the visible videos, the team feed, the team list, the
  tournament list, the per-date `part`/`part_count` numbering, and the
  bookmark feed. `Sorting` in `sorting.dfy` supplies the generic pieces that
  stand in for `ORDER BY`, `WHERE`, `COUNT` and `.reverse()`: a stable
  insertion sort, filter, count and reverse.
- **Chat replay.** `ChatPlayback` in `video.dfy` covers the chat replay of
  `video.js`. It keeps the page's module state (`chatData`, `chatDelay`,
  `chatIndex`, `previousTime` and the chat container) in class `ChatPlayer`.
  The trimming, rewind, advance and drawing loops are methods proved
  against specification functions.
- **Seek labels.** `SeekLabels` in `seek.dfy` models `formatSeconds`, as
  written and as corrected, and what `seekToInitial` reads back from the
  `t` URL parameter.
- **Shared helpers.** `Numerals` provides digit strings and padding.
  `Wrappers` provides `Option` and `Result`.

Units:

- Times in the chat replay are integer milliseconds.
- Durations (`sync_help_video_timestamp` and bookmark positions) are
  integer microseconds, which is what a `timedelta` holds.
- Dates are integers whose order is calendar order.

The code and the documented intent disagree in three places, and the model
follows the code each time:

- The team list keeps every team.
- The tournament list counts hidden videos too.
- `formatSeconds` writes labels that `seekToInitial` misreads.

Each of these has a corrected counterpart, listed under "Findings".

## Model

| member | source | states |
|---|---|---|
| ColorFields.Clean | daiseihai/fields.py:18-21 | When required, rejects exactly the values not matching `^#[A-Fa-f0-9]+$`, where `$` also matches before a final newline. When not required, it accepts everything. Accepted values come back unchanged. |
| ColorFields.CleanExamples | daiseihai/fields.py:19-20 | Six and eight hex digits in either case are accepted, as is `#abc` plus a newline. `#12345g` and `#` are rejected. A non-required field accepts `red`. |
| ColorFields.ToIntOfDigits | daiseihai/fields.py:28-30 | For a first character followed by hex digits, `_to_int` is the base-16 value of the rest. |
| ColorFields.ToIntPrefixExample | daiseihai/fields.py:30 | The first character is dropped unchecked, so `x0x1F` reads as `0x1F`, which is 31. |
| ColorFields.ToIntSignExample | daiseihai/fields.py:30 | `int()` accepts a sign: `#-10` reads as -16. |
| ColorFields.ToIntUnderscoreExamples | daiseihai/fields.py:30 | Single underscores between digits are accepted (`#f_f` is 255). A doubled underscore is an error. |
| ColorFields.ToIntEmptyExample | daiseihai/fields.py:30 | `#` and the empty string fail to convert. |
| ColorFields.FromDbValue | daiseihai/fields.py:40-42 | `hex(v).lstrip('0x').zfill(6)` behind `#`. That is `#` plus the lower-case hex digits, zero-padded to six. |
| ColorFields.FromDbValueShape | daiseihai/fields.py:40-42 | The stored colour is a lower-case colour code of at least 7 characters. It is exactly 7 characters iff the value is below 2^24. |
| ColorFields.IntRoundTrip | daiseihai/fields.py:28-42 | `_to_int(from_db_value(v)) == v` for every unsigned `v`. |
| ColorFields.StringRoundTrip | daiseihai/fields.py:28-42 | For `#` plus six hex digits, `from_db_value(_to_int(s))` is `s` in lower case. |
| ColorFields.CleanAcceptsStoredColours | daiseihai/fields.py:18-42 | Every colour read from the database passes the form check. |
| ColorFields.AcceptedColoursConvert | daiseihai/fields.py:18-30 | Every value the required form check accepts converts to the value of its hex digits. This includes a value with the trailing newline that `$` lets through. |
| ColorFields.GetPrepValue | daiseihai/fields.py:44-47 | Non-strings pass through. A string converts iff `_to_int` succeeds, and then becomes that integer. |
| ColorFields.ToPython | daiseihai/fields.py:49-52 | Same conversion as `get_prep_value`. A successful result is never a string. |
| ColorFields.PrepValueRoundTrip | daiseihai/fields.py:40-52 | Preparing or converting a stored colour string gives back the stored integer. |
| Forms.DeriveChatStart | daiseihai/archive/forms.py:17-28 | Only `chat_start` may change. A given `chat_start`, or a missing or falsy helper, leaves the data unchanged. Otherwise `chat_start` becomes the chat timestamp minus the video position in milliseconds. |
| Forms.VideoForm.Clean | daiseihai/archive/forms.py:17-28 | Updates `cleaned_data` in place to `DeriveChatStart` of the old data and returns it. |
| Forms.ExplicitChatStartWins | daiseihai/archive/forms.py:21 | Whatever the helpers hold, a non-`None` `chat_start` is returned unchanged. |
| Forms.DerivedStartAlignsChat | daiseihai/archive/forms.py:24-26 | A derived start plus the video position in milliseconds equals the chat timestamp. |
| Forms.FalsyHelperLeavesChatStartMissing | daiseihai/archive/forms.py:22-24 | A missing helper, a zero timestamp or a zero duration leaves `chat_start` missing. The key is not added. |
| Forms.MillisTruncates | daiseihai/archive/forms.py:25 | `int(total_seconds() * 1000)` truncates toward zero and is odd in its argument. |
| Forms.MillisOfNegativeExample | daiseihai/archive/forms.py:25 | -1500 microseconds gives -1 ms, not -2. |
| Forms.DeriveIdempotent | daiseihai/archive/forms.py:21-26 | Cleaning twice is cleaning once. |
| Forms.DeriveExample | daiseihai/archive/forms.py:24-26 | A timestamp of 1576949556379 heard 19:19.001 into the video gives a start of 1576948397378. |
| Archive.SplitExtShape | daiseihai/archive/models.py:12 | The extension is empty or starts at the last dot. Leading dots of the last path component are never an extension, as in `os.path.splitext`. Root and extension concatenate back to the name. |
| Archive.LogoPathShape | daiseihai/archive/models.py:10-13 | The logo path is `logos/` plus the slug plus the file name's extension. |
| Archive.LogoPathExample | daiseihai/archive/models.py:10-13 | `tournament.png` is stored as `logos/<slug>.png`. |
| Archive.LogoPathDoubleSuffixExample | daiseihai/archive/models.py:12-13 | Only the last suffix is kept: `archive.tar.gz` gives `.gz`. |
| Archive.LogoPathNoSuffixExamples | daiseihai/archive/models.py:12-13 | `.png`, `..png` and `logo` have no extension. |
| Archive.Link | daiseihai/archive/models.py:59-64 | A non-empty `url` wins. Otherwise the link is the join of `VIDEO_URL` and the file name. |
| Archive.LinkIgnoresFilename | daiseihai/archive/models.py:62-63 | When `url` is set, the file name does not affect the link. |
| Archive.StyleInjective | daiseihai/archive/models.py:40-43 | When the main colour contains no `;`, the style string determines both colours. |
| Archive.LabelNamesSlug | daiseihai/archive/models.py:23-24 | When the slug contains no `(`, the slug is recovered from `name (slug)`. |
| Archive.OrderingsArePreorders | daiseihai/archive/models.py:26-88 | The five `Meta.ordering`s of the models (lines 27, 46, 67, 78 and 88) are total preorders. They are: tournaments by descending start date, teams by slug, videos by `(date, order)`, matchups by `order`, and bookmarks by position. |
| Archive.LexLeTotal | daiseihai/archive/models.py:45-46 | Slug order is total. |
| Archive.LexLeTransitive | daiseihai/archive/models.py:45-46 | Slug order is transitive. |
| Archive.LexLeAntisymmetric | daiseihai/archive/models.py:45-46 | Slug order is antisymmetric. |
| Archive.VideosStrictlyOrdered | daiseihai/archive/models.py:66-68 | With `(date, order)` unique, a sorted video table is strictly increasing in `(date, order)`. |
| Archive.MatchupsStrictlyOrdered | daiseihai/archive/models.py:77-79 | With `(video, order)` unique, the sorted matchups of one video have strictly increasing `order`. |
| Archive.DistinctVideos | daiseihai/archive/models.py:68 | Unique keys make the rows of a table distinct. |
| Views.VisibleVideos | daiseihai/archive/views.py:17-22 | Exactly the visible videos, each as often as in the table. |
| Views.VisibleVideosOrdered | daiseihai/archive/views.py:17-22 | The base set is in `(date, order)` order. Under the uniqueness constraint it is strictly ordered and has no duplicates. |
| Views.MatchupsOf | daiseihai/archive/views.py:19-22 | The prefetched matchups of a video are exactly the matchups pointing at it. |
| Views.MatchupsOfOrdered | daiseihai/archive/models.py:77-79 | The prefetched matchups are sorted by `order`, strictly so under the uniqueness constraints. |
| Views.AppearancesPositive | daiseihai/archive/views.py:30 | A video has a joined row for a team iff one of its matchups has the team at home or away. |
| Views.TeamFeedMembers | daiseihai/archive/views.py:28-31 | The corrected team feed holds exactly the visible videos with a matchup involving the team. |
| Views.TeamFeedNewestFirst | daiseihai/archive/views.py:28-31 | The team feed has no duplicates and is strictly descending in `(date, order)`. |
| Views.JoinRowsMembers | daiseihai/archive/views.py:30-31 | The join yields only visible videos with a matchup involving the team, and yields all of them. |
| Views.TeamFeedAsWrittenMembers | daiseihai/archive/views.py:28-31 | The feed as written has the same members as the corrected feed. |
| Views.TeamFeedDuplicateExample | daiseihai/archive/views.py:30-31 | A video holding two matchups of the team is listed twice as written and once in the corrected feed. |
| Views.TeamRows | daiseihai/archive/views.py:38 | Each team is annotated with its home games plus its away games. |
| Views.AnnotatedTeamsContents | daiseihai/archive/views.py:37-39 | The annotated rows are exactly the teams with their game counts, sorted by slug. |
| Views.TeamListAsWrittenKeepsAll | daiseihai/archive/views.py:39 | `video_count > -1` keeps every team. |
| Views.TeamListAsWrittenExample | daiseihai/archive/views.py:39 | A team with no matchups is still listed as written. |
| Views.TeamListMembers | daiseihai/archive/views.py:37-39 | The corrected list holds exactly the teams that play in some matchup, sorted by slug. |
| Views.TournamentRows | daiseihai/archive/views.py:58 | Each tournament is annotated with its number of videos. |
| Views.TournamentsMembers | daiseihai/archive/views.py:56-59 | The list holds exactly the tournaments with a positive count, newest start date first. The count covers every video as written, and only visible ones when corrected. |
| Views.TournamentListCountExample | daiseihai/archive/views.py:58-59 | One visible and two hidden videos give a count of 3 as written and 1 when corrected. |
| Views.TournamentListHiddenExample | daiseihai/archive/views.py:57-59 | A tournament with only a hidden video is listed as written and omitted when corrected. |
| Views.TournamentVideos | daiseihai/archive/views.py:45-50 | The tournament page shows exactly the visible videos of that tournament. |
| Views.TournamentDetail | daiseihai/archive/views.py:45-50 | One annotated row per video, in queryset order. |
| Views.PartCountIsPeers | daiseihai/archive/views.py:48 | `part_count` is the number of visible videos of the tournament on the same date. |
| Views.PartsInRange | daiseihai/archive/views.py:47-48 | `part` lies in `1..part_count`. |
| Views.PartsDistinct | daiseihai/archive/views.py:47 | Videos sharing a date get distinct parts. |
| Views.PartsFollowOrder | daiseihai/archive/tests.py:53-69 | Within a date, parts increase with `order`. |
| Views.TournamentDetailExample | daiseihai/archive/tests.py:53-69 | One video on one day and two on the next are numbered (1/1), (1/2) and (2/2). A hidden one is left out. |
| Views.BookmarksOf | daiseihai/archive/views.py:73-75 | Exactly the bookmarks of the requested video. |
| Views.BookmarkFeed | daiseihai/archive/views.py:65-71 | One `{position, name}` entry per selected bookmark, in the same order. |
| Views.BookmarkFeedContents | daiseihai/archive/views.py:65-75 | The feed has as many entries as the video has bookmarks, holds exactly their entries, and is in ascending position. |
| Views.BookmarkFeedEmpty | daiseihai/archive/views.py:73-75 | An unknown video id gives an empty list. |
| Views.BookmarkFeedExample | daiseihai/archive/tests.py:114-136 | Bookmarks created at 13:29.132, 5:06:34.948 and 1:38:12.160 come back sorted by position, each with its position in microseconds. |
| ChatPlayback.Shifted | daiseihai/assets/javascript/video.js:163 | Each stored time is the raw timestamp minus `chatStart`. |
| ChatPlayback.Cut | daiseihai/assets/javascript/video.js:162-169 | The trimming loop stops at the first line after the video, or runs to the end. |
| ChatPlayback.LastNegative | daiseihai/assets/javascript/video.js:164-165 | `startIndex` is the last line before the video seen so far, or 0. |
| ChatPlayback.TrimChat | daiseihai/assets/javascript/video.js:158-171 | The loop that shifts the rows in place and slices them computes `Trimmed`. |
| ChatPlayback.TrimmedWithinVideo | daiseihai/assets/javascript/video.js:159-171 | Every kept line lies in `[0, duration]`, whether or not the log is sorted. |
| ChatPlayback.TrimmedIsRun | daiseihai/assets/javascript/video.js:159-171 | The kept lines are a contiguous run of the input in order, each with its shifted time. The run never includes row 0. |
| ChatPlayback.TrimmedSortedIsWindow | daiseihai/assets/javascript/video.js:159-171 | For a chronological log, the kept lines are exactly the lines after row 0 within the video. |
| ChatPlayback.FirstAfter | daiseihai/assets/javascript/video.js:286-292 | The first line later than the time. All lines before it are at or before the time. |
| ChatPlayback.RewindIndex | daiseihai/assets/javascript/video.js:293 | At most 60 lines before the first line after the time. |
| ChatPlayback.Rewind | daiseihai/assets/javascript/video.js:284-294 | The rewind loop computes `max(k - 60, 0)` for the first index `k` after the time. |
| ChatPlayback.AdvanceEnd | daiseihai/assets/javascript/video.js:296-305 | The cursor stops at the end or at a line later than the time. Every line it passes is at or before the time. |
| ChatPlayback.Advance | daiseihai/assets/javascript/video.js:296-305 | The advance loop collects exactly the lines from the cursor to `AdvanceEnd`. |
| ChatPlayback.RewindThenAdvance | daiseihai/assets/javascript/video.js:284-305 | After a rewind, the advance reaches the first line after the time again. It collects that line's last 60 predecessors. |
| ChatPlayback.AdvanceMonotone | daiseihai/assets/javascript/video.js:296-305 | A later time never stops the cursor earlier. |
| ChatPlayback.Last60 | daiseihai/assets/javascript/video.js:309 | `slice(-60)` keeps the last `min(n, 60)` messages. |
| ChatPlayback.Keep60 | daiseihai/assets/javascript/video.js:251-255 | At most the first 60 children remain. |
| ChatPlayback.ShownBounded | daiseihai/assets/javascript/video.js:307-314 | The container never holds more than 60 messages. |
| ChatPlayback.ShownNewestFirst | daiseihai/assets/javascript/video.js:307-314 | The newest collected line, if drawn, is the container's first child. |
| ChatPlayback.ShownMembers | daiseihai/assets/javascript/video.js:307-314 | The container holds only older children and drawn lines of this batch. Lines by `Blinkyy` are never drawn. |
| ChatPlayback.ChatPlayer.AdjustChatDelay | daiseihai/assets/javascript/video.js:42-46 | The delay becomes the running sum of the button amounts. Nothing else changes. |
| ChatPlayback.ChatPlayer.LoadChat | daiseihai/assets/javascript/video.js:157-171 | `chatData` becomes the trimmed log. Nothing else changes. |
| ChatPlayback.ChatPlayer.ClearChat | daiseihai/assets/javascript/video.js:58-62 | Removing first children until none remain empties the container. |
| ChatPlayback.ChatPlayer.CreateMessage | daiseihai/assets/javascript/video.js:65-115 | A line is prepended unless its user is `Blinkyy`. |
| ChatPlayback.ChatPlayer.RefreshChatWindow | daiseihai/assets/javascript/video.js:251-255 | Removing last children while more than 60 remain leaves the first 60. |
| ChatPlayback.ChatPlayer.DrawBatch | daiseihai/assets/javascript/video.js:310-312 | Calling `createMessage` on each line in turn prepends the drawn lines, newest first, to the old container. |
| ChatPlayback.ChatPlayer.Draw | daiseihai/assets/javascript/video.js:307-314 | Drawing the last 60 collected lines and refreshing gives `Shown` of the old container. |
| ChatPlayback.ChatPlayer.Update | daiseihai/assets/javascript/video.js:270-323 | Uses the delayed time `floor(ms) - chatDelay` and rewinds, clearing the container, iff `previousTime` is later. The cursor becomes `AdvanceEnd` and the container `Shown`. At most 60 messages remain, and `previousTime` becomes the delayed time. |
| SeekLabels.ClockOf | daiseihai/assets/javascript/video.js:121-133 | Hours, minutes, seconds and milliseconds recombine to the position. The last three are within their unit ranges. |
| SeekLabels.FormatSecondsAsWritten | daiseihai/assets/javascript/video.js:118-136 | The step-by-step computation gives `WrittenLabel`. |
| SeekLabels.SeekToInitial | daiseihai/assets/javascript/video.js:211-225 | No parameter means no seek. Otherwise the result is the base-60 fold of the `:`-separated parts. |
| SeekLabels.SplitJoin | daiseihai/assets/javascript/video.js:217 | Splitting a join gives the parts back when no part holds the separator. |
| SeekLabels.SeekRoundTrip | daiseihai/assets/javascript/video.js:211-225 | Reading back the corrected `formatSeconds` label (video.js lines 118-136) of any position gives that position. |
| SeekLabels.AsWrittenAgrees | daiseihai/assets/javascript/video.js:126-135 | The label as written differs from the corrected one only when hours hide a zero minute field or the milliseconds are below 100. |
| SeekLabels.HourWithoutMinutesExample | daiseihai/assets/javascript/video.js:127-130 | 1 h 0 min 5 s is written `1:05.0`, which seeks to 65 s. |
| SeekLabels.UnpaddedMillisExample | daiseihai/assets/javascript/video.js:134-135 | 5.050 s is written `05.50`, which seeks to 5.5 s. |
| Sorting.SortBySorted | daiseihai/archive/models.py:67 | The insertion sort standing in for `ORDER BY` yields a sorted permutation of its input. |
| Sorting.SortSortedIdentity | daiseihai/archive/models.py:67 | Sorting rows that are already in order leaves them as they are. |
| Sorting.FilterPermutation | daiseihai/archive/views.py:22 | A filter keeps every satisfying row exactly as often as in the table. |
| Sorting.CountFilter | daiseihai/archive/views.py:58 | `Count` of a predicate is the length of the filter by it. |

## Left out

- Django plumbing is not modelled. That covers `get_context_data`, DetailView and ListView dispatch (including the 404 for an unknown slug), URL routing, admin registration, settings and the Jinja environment.
- The ORM is replaced by in-memory tables. Uniqueness constraints become predicates, and the lemmas that need them take them as preconditions.
- Views.GameCount: the SQL behind two `Count`s over two joins multiplies home and away rows. The model counts home games plus away games, which has the same zero set, so the filters are unaffected.
- Views.TournamentDetail: the window orders only by date, so the tie order within a date is left to the database. The model numbers ties in queryset order `(date, order)`, which is what the tests expect.
- Archive.TeamBefore: slugs are compared by code point, not by the database's collation.
- `League` and `Chat`, and the video fields `kind`, `introUrl`, `chat` and `chatStart`, are declared only. The `models.py` shown does not define them, and no behaviour is modelled for them.
- `urljoin` in `Video.link` is a foreign library call. It is a function parameter of `Archive.Link`.
- `OverwriteStorage` is not modelled. It is filesystem I/O.
- Floating point is replaced by integers:
  - `timedelta.total_seconds()` becomes integer microseconds.
  - `Math.floor(currentTime * 1000)` becomes an integer position given to `ChatPlayer.Update`.
  - `Math.round(time * 1000)` becomes the exact millisecond remainder.
  - Bookmark positions are reported in microseconds, not float seconds.
- SeekLabels.ReadLabel: `parseFloat` is modelled only on the parts a label is made of, digits with at most three decimal places. Any other part reads as `None`, standing for `NaN`. The JavaScript would also accept longer fractions, signs, exponents and trailing junk.
- ChatPlayback.TrimChat: `parseInt`, `NaN` comparisons and Papa's TSV parsing are left out. Rows arrive as `Line`s whose time is already an integer.
- The DOM is the container's list of lines. Element creation, team icons, CSS classes, emote substitution and `innerHTML` are not modelled.
- `fetch` of the chat metadata, `requestAnimationFrame`, the 40 ms throttle and the `updatingChat` re-entrancy flag are not modelled. `Update` is one call with no concurrency.
- `resizeChat`, `keydownHandler`, `bookmarkSeek`, `togglePlayback`, `setTimeFromHistory` and the URL encoding in `setURL` are not modelled. Nor are `main.js`, `sentry.js` and the webpack configuration.
- ColorFields.ToInt: non-ASCII Unicode digits, which Python's `int()` also accepts, are left out.
- ColorFields.FromDbValue: the value is unsigned, as the `integer UNSIGNED` column type says. A negative value, which `hex()` would print with a sign, is not modelled.

## Findings

| source | as written | input that shows it | evidently intended | confidence | as-written member | corrected member |
|---|---|---|---|---|---|---|
| daiseihai/archive/views.py:38-39 | `filter(video_count__gt=-1)` keeps every team | a team with no matchups (the `/gd/` team of daiseihai/archive/tests.py:38-51) is listed | list only teams that have played, as the test expects | not executed; high | Views.TeamListAsWrittenExample | Views.TeamListMembers |
| daiseihai/archive/views.py:57-59 | `Count('videos')` counts hidden videos | a tournament with one hidden video is listed, and one with 1 visible and 2 hidden videos counts 3 | "Return all visible tournaments": count and list only visible videos | not executed; medium | Views.TournamentListHiddenExample | Views.TournamentsMembers |
| daiseihai/archive/views.py:30-31 | the join over `matchups` yields one row per matching matchup, without `distinct()` | a video with two matchups of the team appears twice in the feed | each video of the team once, newest first | not executed; medium | Views.TeamFeedDuplicateExample | Views.TeamFeedNewestFirst |
| daiseihai/assets/javascript/video.js:127-130 | the minute field is pushed only when minutes > 0, even after an hour field | 3 605 000 ms is written `1:05.0`, and `seekToInitial` reads that as 65 s | minutes whenever hours are shown (`1:00:05`) | not executed; high | SeekLabels.HourWithoutMinutesExample | SeekLabels.SeekRoundTrip |
| daiseihai/assets/javascript/video.js:134-135 | the millisecond part is not padded | 5 050 ms is written `05.50`, and `seekToInitial` reads that as 5.5 s | three decimal places (`05.050`) | not executed; high | SeekLabels.UnpaddedMillisExample | SeekLabels.SeekRoundTrip |
