# Olaris server: verified models

Olaris is a media server. This project models the parts of it whose correctness is not visible in any
single function, and proves what those parts are for.

* **Edit distance and best match.** `EditDistance` defines the distance of two strings as the length of a
  shortest script of insertions, deletions and substitutions, `Levenshtein` proves the one-row dynamic
  program against that definition, and `BestMatch` proves what the search-result loops pick with it.
* **The metadata tables and their garbage collector.** Files name episodes, episodes seasons, seasons
  series (`Catalog`). `GarbageCollection` and `EpisodeSweep` say what uninterrupted collections leave;
  `MetadataManager` and `LibraryManager` are the objects that build and tear the tables down;
  `CreationOutcome` says level by level what getting or creating a row comes to; `CollectorThreads` runs any
  number of collectors step by step under the per-row locks, `CreatorThreads` adds any number of creators
  under the creation mutex, `CreatorRuns` has what holds of their whole runs, `CreatorRace` a run in which
  they get in each other's way, and `MovieThreads` the collectors of movies, which take no lock (`Totals`
  holds the sums used to bound the length of a run).
* **Playback sessions.** `SessionTable` is the reference-counted session table as a state machine with
  unboundedly many sessions and request handlers; `PlaybackSessions` has the session and manager objects,
  each method proved equal to a step of that machine; `SessionCollection` is the collection pass over the
  table; `SegmentServing` has segment availability, throttling and the client's request window, and
  `AnswerOrder` what the counters come to when handlers answer in any order; `StrayReferences` accounts for
  the counts when stale timers and failed creations happen, and `SessionLife` says which lookup created a
  session and when its timer finds it left alone.
* **Segmentation.** `Transmux` cuts keyframe intervals into segments and sessions, `ConstantSegments` and
  `AudioSegments` build the transcoding lists (`Segments` holds intervals and truncation), and
  `MediaPlaylist` turns them into HLS entries (RFC 8216).
* **Episode order.** `EpisodeOrder` has the next/previous queries and the "up next" search.

`dafny verify dfyconfig.toml` checks the project.

## How the source is read

* A `float64` quotient converted to an integer is the exact rational quotient truncated toward zero;
  integers are unbounded and time bases positive. Only the denominator of a stream's time base is used,
  as in the source.
* Strings are sequences of Unicode code points, as after Go's conversion to runes.
* A database call, a lock operation and one handler step (one look at the available segments with what is
  done about it) are each atomic. `Poll` is the polling loop of a handler that nobody else disturbs; in
  `SessionTable` the answers of all handlers interleave. A `Save` writes its
  own row and nothing else, `publish` appends to a log, and a row's children are found in the tables.
* The loops of `library.go` over files also appear as one thread per file in `CollectorThreads`, which
  allows more interleavings than the loops have.
* A lookup by a creator fails only if the row is not there. The source takes every error of a lookup for
  that, so a passing database error can make it insert a duplicate; uniqueness is proved without such errors.
* Where it matters that a deleted row does not come back, `FreshIds` says that an inserted row gets an id no
  row of its table had before, as the tables' automatic keys do.
* Choices of the environment are parameters: which agent or database calls fail, which row id an insertion
  gets, the order in which queries and map iterations return things, the clock, what files exist.

## Where the code differs from what is said about it

* `ffmpeg/ffmpeg.go:39-42` calls the segment duration a minimum when transmuxing. The code moves its
  threshold by one segment duration per cut, so only the cumulative bound of `DriftBound` holds.
  `LastsMinimumExactly` says when a segment does last the segment duration, and `MinimumExactly` how long
  keyframe intervals have to be at least for all segments of all streams to do so.
* Full segments overrun their interval for some input exactly if the time base exceeds 10^9
  (`NeverOverrunsExactly`).
* `hls/manifest.go:70-71` says a subtitle playlist has one entry whose duration is the target duration. It
  is cut every five seconds like the others, so it has one entry exactly if the stream is shorter than that
  (`SubtitleSingleEntry`), and the rounding rule of section 4.3.3.1 of RFC 8216 holds under the condition of
  `SubtitleTargetDuration`.
* The closing segment of an audio list never has a positive length (`ClosingSegment`), and the last session
  holds 13 segments, one more than a session should, exactly if the full steps fill their sessions
  (`BuildAudioSegmentDurations`).
* `streaming/session.go:61-63` says the last served index increases with each segment that is requested.
  It does so exactly if no answer repeats the request answered before it (`RunCountsExactly`); overlapping
  handlers can break that and the bound on what is served (`OverlappingRequests`), which holds exactly under
  the condition of `RunBoundExactly`.
* Removing a session deletes by key. The timer of a replaced session therefore unmaps its successor;
  `TimeoutKeepsExactlyIfMapped` gives the exact condition and `StaleTimerExample` a run. A failed creation
  leaves a released session in the table (`FailedGetKeepsExactlyIfUnmapped`), which the next request can be
  given (`FailedSeekExample`). `CountsAccounted` says by how much the counts are off in any run with such
  steps, and `LeakedExactly` when that leaves a session behind for good.
* The "up next" search orders episodes by 100 * season + number (`HeightOrdersExactly`) and skips episodes
  numbered 0 in later seasons (`SuccessorIsFirst`, `SuccessorIsNextExactly`, `SpecialIsSkipped`).
* A get-or-create that fails leaves everything as it was exactly if the first level of the key's path
  without a row is the one that fails (`BelowFailsExactly`); otherwise an empty series or season stays behind
  (`SeriesLeftBehind`), which a collection of all episodes does not remove either (`SweptIsTightExactly`).
* A collector can delete a season between two levels of a creation, which then finishes with an episode of
  a season that is gone (`SeasonTakenAway`). What a finished creation returns is there under its season and
  series exactly if no collector has deleted one of the three (`NamedExactlyIfUntouched`).
* Collectors of movies take no lock, so two of them can both delete and announce the same movie, exactly
  under the condition of `TwiceAnnouncedExactly`.

## Model

| member | source | states |
|---|---|---|
| EditDistance.DistanceIsEditDistance | helpers/levenshtein/levenshtein.go:33-39 | `Distance` is the length of a shortest insert/delete/substitute script: one of that length exists and none is shorter |
| EditDistance.NoShorterScript | helpers/levenshtein/levenshtein.go:33-39 | every script that turns s into t has at least Distance(s, t) edits |
| EditDistance.ScriptExists | helpers/levenshtein/levenshtein.go:33-39 | a script of exactly Distance(s, t) edits, applied one after the other, turns s into t |
| EditDistance.Symmetric | helpers/levenshtein/levenshtein.go:61-64 | the distance is symmetric, which is what makes the swap of the arguments sound |
| EditDistance.ZeroExactlyOnEquality | helpers/levenshtein/levenshtein.go:48-50 | the distance is zero exactly on equal strings |
| EditDistance.Triangle | helpers/levenshtein/levenshtein.go:33-39 | the triangle inequality |
| EditDistance.Bounds | helpers/levenshtein/levenshtein.go:40-46 | the distance lies between the difference of the lengths and the greater length |
| EditDistance.MatchTakesDiagonal | helpers/levenshtein/levenshtein.go:82-86 | on equal last characters the diagonal cell alone is the minimum |
| Levenshtein.InnerCell | helpers/levenshtein/levenshtein.go:82-86 | a cell of the distance table from its three neighbours, with the match shortcut |
| Levenshtein.ComputeDistance | helpers/levenshtein/levenshtein.go:39-93 | the result is the length of a shortest edit script, through the early exits, the swap and the row |
| Levenshtein.FillRows | helpers/levenshtein/levenshtein.go:65-92 | the single row ends with the distance in its last cell |
| Levenshtein.OverwriteRow | helpers/levenshtein/levenshtein.go:79-90 | the inner loop turns row i - 1 into row i in place, half new and half old on the way |
| BestMatch.ExactTitleIsBest | metadata/managers/metadata/movies.go:110-118 | the first exactly matching title is the first result of least distance |
| BestMatch.MovieFromSearch | metadata/managers/metadata/movies.go:99-120 | the id of the first result of least distance, of an exact match whenever there is one, and what is returned when the start value hides every result, which it does for no titles shorter than 2^31 |
| BestMatch.SeriesFromSearch | metadata/managers/metadata/series.go:142-161 | the same for series, where a hidden result list yields its first entry |
| Catalog.TightIsAncestry | metadata/managers/metadata/series.go:348-349 | tables that only shrank, orphaned nothing and leave no row without a child are determined by the files left: exactly their ancestors |
| Catalog.NamesOne | metadata/managers/metadata/series.go:126-127 | with unique keys the three TMDB numbers name at most one row per table |
| Catalog.InsertKeeps | metadata/managers/metadata/series.go:254-265 | inserting under a key that is not taken keeps keys unique and rows well-formed |
| GarbageCollection.CollectedIsTight | metadata/managers/metadata/series.go:350-411 | one call after one loss of a child makes the tables tight again, orphans nothing and touches no file |
| GarbageCollection.CollectedExactly | metadata/managers/metadata/series.go:350-411 | row by row what a call removes from any tables: the row it is called on if that has no child, and above it each row whose last child it removed |
| GarbageCollection.CollectAnnounces | metadata/managers/metadata/series.go:368-408 | its events announce exactly the rows that are gone, once each, and nothing else |
| GarbageCollection.CollectEventsGoUp | metadata/managers/metadata/series.go:368-408 | in the order of the deletions, from the row up |
| GarbageCollection.RemovalIsAncestry | metadata/managers/library.go:81-105 | removing files one by one from tight tables leaves exactly the ancestors of the remaining files, in any order |
| GarbageCollection.AllRemovedCleansUp | metadata/managers/library.go:81-105 | and the tables are tight again with nothing orphaned |
| GarbageCollection.RemovingUndoesAdding | metadata/managers/library.go:286-352 | removing a file whose addition left the tables tight gives back the tables from before |
| EpisodeSweep.SweepOutcome | metadata/managers/metadata/series.go:336-346 | once every episode has been collected, in whatever order, the tables are exactly the rows that had nothing below them and what is above those |
| EpisodeSweep.CollectedSweeps | metadata/managers/metadata/series.go:350-411 | each call keeps what the sweep has achieved so far and settles its episode, from tables that need not be tight |
| EpisodeSweep.SweptIsTightExactly | metadata/managers/metadata/series.go:336-349 | a sweep makes the tables tight exactly if no season, series or movie was empty before |
| MetadataManagement.MetadataManager.GarbageCollectEpisodeIfRequired | metadata/managers/metadata/series.go:350-411 | the tables and the log after an uninterrupted call |
| MetadataManagement.MetadataManager.GarbageCollectMovieIfRequired | metadata/managers/metadata/movies.go:207-236 | the tables and the log after an uninterrupted call |
| MetadataManagement.MetadataManager.GarbageCollectAllEpisodes | metadata/managers/metadata/series.go:336-346 | what the loop leaves of any tables, with one event for each removed row |
| MetadataManagement.MetadataManager.FindOrInsert | metadata/managers/metadata/series.go:254-272 | the row of the key, found or inserted as the only change; the log grows by the one Added event of an inserted row and by nothing else; it fails only if the row is not there and the table fails, and then changes nothing |
| MetadataManagement.MetadataManager.GetOrCreateMovieByTmdbID | metadata/managers/metadata/movies.go:178-203 | the movie with the TMDB id, found or inserted as the only change and announced by one event, keeping TMDB ids unique |
| CreationOutcome.SeriesFailsExactly | metadata/managers/metadata/series.go:282-293 | the first level fails exactly if there is no series and it cannot be created, and changes nothing then |
| CreationOutcome.BelowFailsExactly | metadata/managers/metadata/series.go:241-334 | a level below fails exactly if some level without a row cannot be created; a failure leaves the tables as they were exactly if the first level without a row is among those that fail |
| CreationOutcome.OnlyAddedBelow | metadata/managers/metadata/series.go:241-334 | success or failure, only rows that the key names are added, and none in a table that fails |
| MetadataManagement.MetadataManager.GetOrCreateSeriesByTmdbID | metadata/managers/metadata/series.go:275-301 | the series of the key, when exactly it fails, uniqueness, and no event but that of an inserted series |
| MetadataManagement.MetadataManager.GetOrCreateSeasonByTmdbID | metadata/managers/metadata/series.go:303-334 | the season of the key under its series; every added row is on its path and announced once, the series first, with no other event; when exactly it fails and when that leaves a series behind |
| MetadataManagement.MetadataManager.GetOrCreateEpisodeByTmdbID | metadata/managers/metadata/series.go:241-273 | the episode with the three numbers of the key; every added row is on its path and announced once, from the series down, with no other event; when exactly it fails, when that leaves rows behind, and that these are then childless |
| MetadataManagement.SeriesLeftBehind | metadata/managers/metadata/series.go:303-326 | on empty tables with the season failing, the new series stays behind without a season |
| MetadataManagement.MetadataManager.GetOrCreateEpisodeForEpisodeFile | metadata/managers/metadata/series.go:211-237 | an identified file is left alone; otherwise it names the episode of its key, or stays as it was, and when exactly; one Added event for each added row, from the series down, and no other |
| CreationOutcome.IdentifiedIsTight | metadata/managers/metadata/series.go:224-236 | identifying a new file keeps the tables tight and complete and adds no other file |
| LibraryManagement.LibraryManager.RemoveFiles | metadata/managers/library.go:91-96 | the loop computes the removal of the listed files one after the other, with one event for each removed row |
| LibraryManagement.LibraryManager.DeleteLibrary | metadata/managers/library.go:81-105 | of all files exactly those of this library and kind go, from any tables; from tight tables exactly the ancestors of the other files remain, tight again; each removed row announced once; an unknown kind of library removes no file |
| LibraryManagement.LibraryManager.RemoveMissingFiles | metadata/managers/library.go:418-439 | of all files exactly this library's missing ones under the locator go, with what they leave empty; each removed row announced once |
| LibraryManagement.LibraryManager.ProbeEpisodeFile | metadata/managers/library.go:310-328 | the new file names the episode of its key, or none, and when exactly; one event for each added row; removing it again gives back tight tables from before, unless a failure left an empty row |
| LibraryManagement.RemovedInTwoLoops | metadata/managers/library.go:424-438 | two loops, the second over files listed after the first, add up to one |
| CollectorThreads.Reachable | metadata/managers/metadata/series.go:350-411 | every state of every interleaving of collectors satisfies the invariant: lock ownership, pending checks for childless parents, balanced events, no orphans |
| CollectorThreads.SafeAlways | metadata/managers/metadata/series.go:353-408 | in every interleaving no remaining row points at a removed one, and no row is announced as deleted twice or while present |
| CollectorThreads.NothingLeftChildless | metadata/managers/metadata/series.go:350-411 | no lost collection: when all collectors are done, no row that had children is left without any |
| CollectorThreads.OneEventPerRemovedRow | metadata/managers/metadata/series.go:365-408 | when all are done each removed episode, season and series has exactly one event, nothing else has one, and every lock is free |
| CollectorThreads.OutcomeIsAncestry | metadata/managers/library.go:91-96 | from tight tables every finished interleaving ends in the ancestry of the files nobody deleted |
| CollectorThreads.SameAsOneLoop | metadata/managers/library.go:91-96 | which is where one sequential loop over the same files ends |
| CollectorThreads.SomeoneCanStep | metadata/managers/metadata/series.go:353-393 | from any waiting collector the chain of lock holders leads to one that can step |
| CollectorThreads.DeadlockFree | metadata/managers/metadata/series.go:25-38 | in every reachable state with an unfinished collector some collector can step, for any number of threads and any tables |
| CollectorThreads.RunsEnd | metadata/managers/metadata/series.go:350-411 | every run is over within 17 steps per thread |
| CreatorThreads.UniqueAlways | metadata/managers/metadata/series.go:241-334 | no interleaving of creators and collectors makes a duplicate series, season or episode |
| CreatorThreads.DeadlockFree | metadata/managers/metadata/series.go:249-252 | the creation mutex and the row locks together cannot block all unfinished threads |
| CreatorThreads.CreatorsAgree | metadata/managers/metadata/series.go:241-273 | in every interleaving with collectors, finished creators of whose rows none was deleted return an episode that is there under its season and series, and the same one for the same numbers |
| CreatorRuns.NamedExactlyIfUntouched | metadata/managers/metadata/series.go:241-273 | in every interleaving with collectors, what a finished creator returns is there under its season and series if and only if no collector has deleted one of the three rows |
| CreatorRuns.FailsExactlyIfRefused | metadata/managers/metadata/series.go:254-265 | in every run a creator fails if and only if the agent or an insertion refused it at some level, it then has no row, and one that finishes was never refused |
| CreatorRuns.ArrivesOnce | metadata/managers/metadata/series.go:259-270 | with fresh ids a row comes into the tables at most once in a run |
| CreatorRuns.LogBalances | metadata/managers/metadata/series.go:267-408 | in every interleaving of creators and collectors, a row's Added events less its Deleted events, with those about to be sent, are the change of its presence |
| CreatorRuns.RunsEnd | metadata/managers/metadata/series.go:241-411 | every such run is over within 17 moves per collector and 18 per creator |
| CreatorRace.SeasonTakenAway | metadata/managers/metadata/series.go:244-263 | a run with fresh ids in which a collector deletes the season between two levels of a creation, so that the creator's episode is not named by its key |
| MovieThreads.Reachable | metadata/managers/metadata/movies.go:207-236 | every state of every interleaving of movie collectors satisfies the invariant: pending checks for childless movies, events for those that are gone, no orphans |
| MovieThreads.NothingLeftOver | metadata/managers/metadata/movies.go:207-236 | without locks too, when all are done no movie that had files is left without any, and a movie has an event if and only if it is gone |
| MovieThreads.OutcomeIsAncestry | metadata/managers/library.go:84-89 | from tight tables every finished interleaving ends in the ancestry of the files nobody deleted |
| MovieThreads.OneEventPerAnnouncer | metadata/managers/metadata/movies.go:225-231 | a movie has as many events as threads that deleted and announced it |
| MovieThreads.TwiceAnnouncedExactly | metadata/managers/metadata/movies.go:211-231 | some interleaving announces a movie more than once if and only if it is there, two collectors are called on it, and each of its files has a thread that deletes it |
| MovieThreads.TwoEventsExample | metadata/managers/metadata/movies.go:211-231 | two collectors of one movie without files |
| SessionTable.StepKeeps | streaming/session.go:97-107 | every step of the guarded machine keeps reference conservation and serving order |
| SessionTable.ReferencesConserved | streaming/session.go:65-68 | in every run a session's count is one if it is mapped plus the references handlers hold, and its transcoder is destroyed at most once and exactly when nobody holds it and the table cannot return it |
| SessionTable.ServedInOrder | streaming/session.go:61-63 | in every run a session has served every index from its start to the last one counted and nothing beyond the next |
| SessionTable.ReleaseDestroysExactly | streaming/session.go:246-260 | in every run a release finds the transcoder running and destroys it exactly if no other handler holds the session and the table cannot return it |
| SessionTable.CollectLeavesOne | streaming/session.go:181-210 | a collection step leaves exactly one mapped session per (stream, user) that had any, of maximal last access and untouched; the others lose the table's reference, and nothing else changes |
| SessionTable.CollectOneMore | streaming/session.go:203-207 | removing sessions one by one composes to one collection |
| SessionTable.TimeoutKeepsExactlyIfMapped | streaming/session.go:236-244 | removing a session keeps conservation if and only if it is the one mapped under its key |
| SessionTable.FailedGetKeepsExactlyIfUnmapped | streaming/session.go:154-172 | a lookup whose creation fails keeps conservation if and only if the key had no session |
| SessionTable.StaleTimerExample | streaming/session.go:279-296 | a run of the guarded steps after which the timer of a replaced session destroys it twice and unmaps its successor, whose reference nobody holds |
| SessionTable.FailedSeekExample | streaming/session.go:154-172 | a run after which a failed seek leaves a destroyed session in the table and the next request is given it |
| StrayReferences.CountsAccounted | streaming/session.go:154-172 | in every run, stale timers and failed creations included, a session's count is one if it is mapped, plus the references handlers hold, plus what those steps did to it |
| StrayReferences.LeakedExactly | streaming/session.go:236-244 | a session nobody can reach keeps references if and only if it was unmapped more often than released astray |
| StrayReferences.ExhaustedExactly | streaming/session.go:251-254 | a session has no reference left if and only if it was released astray at least as often as it has references |
| SessionLife.KeptExactly | streaming/session.go:128-159 | a lookup keeps the session of its key if and only if it asks for the init segment or one of the next four, and then only adds a reference; otherwise it maps the new session and releases the old one |
| SessionLife.CreatedByLookup | streaming/session.go:161-178 | in every run each session was created by one lookup for its key that found none or was a seek, and starts at the index that lookup asked for, or at 0 for the init segment |
| SessionLife.AccessedAtLastUse | streaming/segments.go:123 | in every run a session was last accessed when it was created or last answered a request, for a media or the init segment |
| SessionLife.TimesOutExactly | streaming/session.go:279-296 | with a clock that does not go back, a tick finds a session left alone for too long if and only if its creation and all its answers are more than twenty minutes ago |
| SessionTable.RequestReturnsReference | streaming/segments.go:95-129 | a whole request keeps everything conserved, leaves its session mapped and returns its one reference, whoever else holds what |
| PlaybackSessions.PlaybackSession.Release | streaming/session.go:246-249 | one reference less, and the clean-up |
| PlaybackSessions.PlaybackSession.TryServe | streaming/segments.go:112-127 | one round of the polling loop: served exactly if the next index is available, counted unless the request repeats the last, and accessed now |
| PlaybackSessions.PlaybackSession.TryServeInit | streaming/segments.go:46-62 | one round of the loop for the init segment, which counts as an access once it is served |
| PlaybackSessions.PlaybackSession.Poll | streaming/segments.go:104-129 | the loop serves exactly if some listing before the first failing one has the next index, and serves once |
| PlaybackSessions.PlaybackSessionManager.GetPlaybackSession | streaming/session.go:121-179 | the table, all sessions and the held references after a lookup that hits, replaces or fails, with conservation kept; it returns none exactly if it misses and the creation fails |
| PlaybackSessions.PlaybackSessionManager.GetPlaybackSessionByID | streaming/session.go:215-234 | a mapped session with that id is returned and retained, or none has it |
| PlaybackSessions.PlaybackSessionManager.RemovePlaybackSession | streaming/session.go:236-244 | the key is unmapped whatever it maps to, and the session released |
| PlaybackSessions.PlaybackSessionManager.TimerTick | streaming/session.go:279-296 | a tick removes a session left alone for more than twenty minutes, mapped or not, and conservation is kept exactly if it was mapped |
| PlaybackSessions.PlaybackSessionManager.ServeSegment | streaming/segments.go:95-129 | a whole request is a lookup, an answer exactly if the next index becomes available, and a release, with conservation kept; or, exactly if the lookup misses and the creation fails, that failed lookup |
| SessionCollection.BuildGroups | streaming/session.go:188-192 | every mapped session is listed once, in the group of its stream and user |
| SessionCollection.FindNewest | streaming/session.go:197-202 | a session of the group accessed last |
| SessionCollection.GarbageCollectPlaybackSessions | streaming/session.go:181-210 | after the pass exactly one session is mapped per (stream, user) that had any, of maximal last access and untouched; the others lose the table's reference, nothing else changes, and conservation is kept |
| SessionCollection.PickedSurvive | streaming/session.go:194-209 | the sessions picked group by group are legal survivors of a collection |
| SegmentServing.AvailableSegments | ffmpeg/session.go:60-98 | exactly the init segment when it is there and the files, without the newest while the transcoder runs |
| SegmentServing.ShouldThrottle | streaming/session.go:264-274 | whether some available index is ten or more ahead of the last one served |
| SegmentServing.ReadyIsAvailable | ffmpeg/session.go:60-98 | of consecutive files all but the newest are available, or all once ffmpeg has ended, and besides them the init segment when it is there |
| SegmentServing.ThrottlingBoundedAndFair | streaming/ffmpeg_feedback.go:24-29 | in every run the newest file is at most 11 ahead of the last index served, and a throttled producer has the next index to serve ready |
| SegmentServing.ClientProgress | streaming/session.go:142-152 | for a client that waits for each answer: served <= requested <= 4 * served, and it gets consecutive indices without gap or repetition |
| AnswerOrder.RunCounters | streaming/segments.go:112-123 | in every run the counters of a session are determined by the order of its answers, whichever handlers gave them |
| AnswerOrder.RunCountsExactly | streaming/session.go:61-63 | in every run every answer of a session is counted if and only if none repeats the request answered before it |
| AnswerOrder.RunServesInOrderExactly | streaming/segments.go:112-123 | in every run the client is served consecutive indices without gap or repetition if and only if no answer but perhaps the last repeats the one before |
| AnswerOrder.KeepsBoundExactly | streaming/session.go:142-152 | an answer keeps served <= requested <= 4 * served, whatever was served within that bound, if and only if it repeats the last index or exceeds it by no more than the bound allows |
| AnswerOrder.RunKeepsBound | streaming/session.go:142-152 | the bound holds in every run in which each answer does, overlapping handlers and repeated requests included |
| AnswerOrder.RunBoundExactly | streaming/segments.go:119-123 | in every run the bound holds if and only if the last index answered is n to 4n past the start, n being the number of answers that repeat no request |
| AnswerOrder.OverlappingRequests | streaming/segments.go:119-123 | two runs of overlapping handlers, admitted within the window, that break the bound and the order |
| Segments.TruncateExact | ffmpeg/segment_list.go:25-31 | truncating an exact quotient is exact, for either sign |
| Transmux.BuildIntervals | ffmpeg/util.go:121-136 | interval i runs from timestamp i to the next one or the total duration |
| Transmux.GuessTransmuxedSegmentList | ffmpeg/transmux.go:87-137 | the loop over variables and slices computes the fold that the following rows are about |
| Transmux.TransmuxedListTiles | ffmpeg/transmux.go:87-137 | on increasing timestamps the segments tile the stream across session borders, only the very last may be empty, ids are 0, 1, 2, ..., all borders are keyframes |
| Transmux.SessionSizes | ffmpeg/transmux.go:119-134 | all sessions but the last hold exactly 12 segments, the last 1 to 11 |
| Transmux.LastOfFullSession | ffmpeg/transmux.go:119-127 | the twelfth segment of a session is a single keyframe interval |
| Transmux.DriftBound | ffmpeg/transmux.go:105-117 | segment m of a session starting at S ends at the first keyframe at or past S + (m+1)*D, and before that plus the longest interval L and m times what L exceeds D |
| Transmux.SegmentLengths | ffmpeg/ffmpeg.go:39-43 | a cut segment is less than the longest keyframe interval shorter or longer than the segment duration, and the first is not shorter |
| Transmux.LastsMinimumExactly | ffmpeg/transmux.go:105-117 | a cut segment lasts the segment duration D if and only if no keyframe at or past its threshold comes within D of its start |
| Transmux.MinimumExactly | ffmpeg/ffmpeg.go:39-42 | for each time base, D is a minimum for all streams without a keyframe interval below a given length if and only if that length is at least D |
| Transmux.ShortSegment | ffmpeg/transmux.go:105-117 | for every length below D, keyframe intervals of at least that length that make a segment of just that length |
| Transmux.SegmentDurationIsNoMinimum | ffmpeg/ffmpeg.go:39-42 | for example a segment of four seconds |
| ConstantSegments.BuildConstantSegmentDurations | ffmpeg/util.go:78-119 | n full segments and a closing one, under consecutive ids |
| ConstantSegments.ListTiles | ffmpeg/util.go:85-118 | they abut, start at the interval's start and end at its end |
| ConstantSegments.SmallTimeBaseNeverOverruns | ffmpeg/util.go:80-83 | the nested truncations never push the closing segment's start past the interval's end, for any interval and segment duration, up to a time base of 10^9 |
| ConstantSegments.LargeTimeBaseOverruns | ffmpeg/util.go:80-83 | beyond it an interval that overruns |
| ConstantSegments.NeverOverrunsExactly | ffmpeg/util.go:80-83 | no interval overruns if and only if the time base is at most 10^9 |
| ConstantSegments.ComputeSegmentDurations | ffmpeg/ffmpeg.go:50-60 | the durations of the segments of all sessions, in order |
| ConstantSegments.DurationsTelescope | ffmpeg/ffmpeg.go:50-60 | truncation errors cancel: the durations before a segment sum to the distance of the truncated start times |
| MediaPlaylist.BuildTranscodingMediaPlaylist | hls/manifest.go:96-109 | the EXTINF list in seconds |
| MediaPlaylist.EntryDurations | hls/manifest.go:97-105 | every full entry is exactly five seconds and the closing one is what remains of the total |
| MediaPlaylist.InSeconds | hls/manifest.go:106-109 | in the playlist that is 5 for each full entry and less than 5 for the closing one |
| MediaPlaylist.SeekMatchesPlaylist | ffmpeg/ffmpeg.go:138 | the entries before entry i sum to exactly the time ffmpeg seeks to for segment i, and all of them to the total duration |
| MediaPlaylist.TargetDurationRule | hls/manifest.go:54-60 | every rounded entry is within the announced target duration |
| MediaPlaylist.SubtitleSingleEntry | hls/manifest.go:70-71 | a subtitle playlist has one entry if and only if the stream is shorter than a segment |
| MediaPlaylist.SubtitleTargetDuration | hls/manifest.go:70-74 | for subtitles the rule holds if and only if the stream lasts five seconds or its last fraction of a second rounds down |
| AudioSegments.BuildAudioSegmentDurations | ffmpeg/transcode_audio.go:86-127 | every segment of every session: full steps under consecutive ids in sessions of twelve, then the closing segment in the last session, which holds 13 exactly if the steps fill their sessions and 1 exactly if there is none |
| AudioSegments.AudioSegmentAt | ffmpeg/transcode_audio.go:97-122 | segment i runs from i to i + 1 steps past the start, the closing one to the interval's end |
| AudioSegments.StepsReachEnd | ffmpeg/transcode_audio.go:95 | the number of full steps is the least that reaches the interval's end |
| AudioSegments.ClosingSegment | ffmpeg/transcode_audio.go:114-122 | segments abut, and the closing one starts less than a step at or after the interval's end |
| EpisodeOrder.AroundIsWhole | metadata/db/series.go:525-563 | previous episodes read backwards, the episode and the next episodes are the whole series in order |
| EpisodeOrder.NextAnswer | metadata/db/series.go:525-542 | an answer holds episodes of the series after the given one in ascending order of season and number, all up to the limit and before those left out |
| EpisodeOrder.PreviousAnswer | metadata/db/series.go:546-563 | the same backwards |
| EpisodeOrder.LimitedPreviousIsPrefix | metadata/db/series.go:546-563 | a limited answer is a prefix of the unlimited one, so it has the episodes nearest to the given one |
| EpisodeOrder.LimitIsPrefix | metadata/db/series.go:525-542 | a limited answer is a prefix of the unlimited one |
| EpisodeOrder.HeightOrdersExactly | metadata/db/play_state.go:59-65 | 100 * season + number orders all episodes numbered 1 to N like (season, number) if and only if N is at most 100 |
| EpisodeOrder.UpNextInSeries | metadata/db/play_state.go:59-98 | the furthest episode played, or the answer of the two-stage search if that one is finished |
| EpisodeOrder.FindPlayedSeries | metadata/db/play_state.go:52-56 | exactly the series with a play state of the user, each once |
| EpisodeOrder.UpNextEpisodes | metadata/db/play_state.go:48-104 | the episodes of the answers for these series, in their order, leaving out exactly the series with none |
| EpisodeOrder.SuccessorIsFirst | metadata/db/play_state.go:74-96 | the two-stage search finds the first of the next episodes that is in the same season or numbered from 1, for any numbering |
| EpisodeOrder.SuccessorIsNextExactly | metadata/db/play_state.go:74-96 | the two-stage search finds the head of the next episodes if and only if that head is in the same season or not numbered 0 or below |
| EpisodeOrder.SpecialIsSkipped | metadata/db/play_state.go:87-92 | a series in which the search skips the next episode, a special numbered 0 |
| EpisodeOrder.UpNextIsNext | metadata/db/play_state.go:48-104 | with the series' numbers 1 to 100 the answer is the furthest episode played or, if finished, the first of its next episodes |

## Left out

- CreatorThreads.CreatorsAgree: speaks only of creators of whose rows no collector deleted any; `NamedExactlyIfUntouched` shows that the others have no episode under their key, and `SeasonTakenAway` is a run in which one has none.
- CreatorThreads.UniqueAlways: assumes that a lookup fails only if the row is missing; so do the get-or-create methods of `MetadataManager`.
- PlaybackSessions.PlaybackSessionManager.ServeSegment: ends where the source goes on to use the missing session after a failed creation, whose error its handlers do not look at.
- AudioSegments.BuildAudioSegmentDurations: is stated for the inputs on which the source's loop ends; a step that truncates to 0 never reaches the end of a non-empty interval.
- ConstantSegments.BuildConstantSegmentDurations: is stated for the inputs on which the source does not panic; an interval that ends a whole segment duration before it starts makes it index an empty list.
- Errors of database calls in the collectors, other than a row not being found; gorm, SQL dialects, migrations, soft deletion and play-state upserts.
- Float rounding: 64-bit quotients and the printing of seconds are exact rationals here.
- Invalid UTF-8 in titles.
- Unlocked races on counters and timestamps inside one handler step, and collections of playback sessions that overlap with lookups step by step.
- Process control, ffmpeg and ffprobe arguments, output directories, the HTTP layer, routing, JWT and users. ffmpeg appears only as a producer of consecutive segment files.
- The shutdown path `CleanupSessions`, and how `Destroy` works; its calls are counted.
- Subscribers: removal, channel capacity and blocking. Only the log of published events is modelled.
- The concurrency of movie creation, alone and with the unlocked movie collectors of `MovieThreads`, and `GetOrCreateMovieForMovieFile`.
- The fsnotify loop, filename parsers, GraphQL resolvers, rclone, image cache, configuration and command line.
- The playlists' text templates, DASH manifests, codec filtering and encoder parameters.
