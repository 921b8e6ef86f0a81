# Push Port raw store, modelled in Dafny

The Go service consumes the rail "Push Port" feed from a Kafka topic and
hands each message through a bounded in-memory channel to a writer. The
writer appends the message text and a newline to a file named after the
UTC hour of the message: `YYYY/MM/DD/HH.pport` under a work directory. A job
run every minute gzips the previous and the current hour's file and puts
them into an S3-compatible bucket. A job run every hour deletes files whose
hour began more than 48 hours ago. The project models these parts as
pure functions over explicit state:

- `CivilTime`: the proleptic Gregorian calendar. Instants are integer
  nanoseconds since the Unix epoch, and `CivilHour` is the civil hour that
  contains a wall-clock instant. `DateNanos` is `time.Date` with its
  normalisation of out-of-range fields.
- `Decimal`: the `%04d`/`%02d` formatting `Time.Format` uses for the path
  layout, and the `%d` verb of `fmt.Sscanf`. The scanner takes an optional
  sign and the longest digit run, and refuses values outside `int64`.
- `Paths`: `strings.Split` on `/`, and `path.Join` together with the lexical
  clean-up `path.Clean` applies to its result.
- `SegmentPath`: segment names, message-to-segment filing and parsing a
  name back into its fields.
- `SegmentStore`: the filesystem as a map from relative path to `Dir` or
  `File(contents)`, the append of one message, and the writer thread as a
  fold over the channel contents.
- `Relay`: the hand-off channel with capacity 500 000 and the non-blocking
  send.
- `Consumer`: the Kafka consumer loop as a step function over events. It
  covers the backoff sleeps, the throughput counter, the overload counter
  with its fatal exit, commits and the shutdown flag.
- `Pipeline`: the consumer and writer threads interleaved, and the
  end-to-end delivery invariant.
- `Cleanup`: the retention job.
- `Upload`: the bucket dump job. The Europe/London zone is an offset oracle
  `Zone = int -> int`, and gzip and the bucket's failures are parameters.
- `Generic`: `generic.Map`.
- `Sentry`: the release name and the environment-variable binding of the
  Sentry configuration.

On two points where the intended behaviour is in doubt, the model follows
the code:

- The segment name is the UTC hour of the broker timestamp.
- The upload job reads "now" in Europe/London.

The consequence is stated as lemmas (`Upload.CandidatesInSummer`,
`Upload.CandidatesWhenClocksGoBack`) and logged under "## Findings".

## Model

| member | source | states |
|---|---|---|
| CivilTime.CivilHour | src/rawstore/types.go:15 | the hour `Format` prints is a valid calendar hour whose span contains the instant |
| CivilTime.CivilHourUnique | src/rawstore/types.go:15 | a valid hour whose span contains the instant is the only one `Format` can print for it |
| CivilTime.CivilHourSameHour | src/rawstore/types.go:15 | two wall-clock instants get the same civil hour exactly when they lie in the same hour since the epoch |
| CivilTime.CivilHourYearRange | src/rawstore/types.go:15 | every `int64` instant falls in a year with exactly four digits, so the `2006` field is four characters |
| CivilTime.HourStartInjective | src/rawstore/clean_up_local_files_job.go:60 | distinct valid hours begin at distinct instants |
| CivilTime.DateNanos | src/rawstore/clean_up_local_files_job.go:60 | `time.Date` with an in-range month gives the start instant of that calendar hour |
| Decimal.ScanInt | src/rawstore/clean_up_local_files_job.go:54 | a `%d` scan yields an `int64` value and leaves a proper suffix of its input unread |
| Decimal.Literal | src/rawstore/clean_up_local_files_job.go:54 | a literal in the scan format matches exactly when the input starts with it, and consumes it |
| Decimal.ScanSignedRun | src/rawstore/clean_up_local_files_job.go:54 | an optional sign, a digit run and a rest not starting with a digit scan as the signed value of the whole run with the rest unread, or fail when that value is outside `int64` |
| Decimal.ScanNoDigits | src/rawstore/clean_up_local_files_job.go:54-55 | without a digit after the optional sign the `%d` scan fails |
| Decimal.ScanFormatInt | src/rawstore/clean_up_local_files_job.go:54 | scanning a zero-padded formatted `int64` gives the value back and stops at the next non-digit |
| Decimal.ZeroPadZeros | src/rawstore/types.go:15 | padding puts exactly the missing number of zeros before the digits |
| Paths.Split | src/rawstore/dump_to_bucket_job.go:55 | splitting on `/` yields at least one element |
| Paths.SplitJoinSlash | src/rawstore/dump_to_bucket_job.go:55 | splitting on `/` undoes the joining of slash-free elements |
| Paths.Clean | src/rawstore/dump_to_bucket_job.go:55 | the cleaned path is never empty |
| Paths.Join | src/rawstore/dump_to_bucket_job.go:55 | `path.Join` is empty exactly when both arguments are |
| Paths.CleanNormal | src/rawstore/dump_to_bucket_job.go:55 | a relative path of normal elements is already clean |
| Paths.JoinNormal | src/rawstore/dump_to_bucket_job.go:55 | joining two clean relative paths puts exactly one slash between them |
| Paths.JoinTrailingSlash | src/rawstore/dump_to_bucket_job.go:55 | a trailing slash on the prefix does not change the joined key |
| SegmentPath.Utc | src/pubsub/thread.go:99 | a message time converted to UTC keeps its instant, has offset zero, and so reads its instant as the wall clock |
| SegmentPath.FormatPathShape | src/rawstore/types.go:15 | a segment name has 19 characters, slashes at positions 4, 7 and 10, and ends in `.pport` |
| SegmentPath.ParseFormatPath | src/rawstore/clean_up_local_files_job.go:53-58 | the cleanup scan of any segment name, with anything after it, recovers year, month, day and hour |
| SegmentPath.FormatPathInjective | src/rawstore/types.go:14-16 | two hours share a segment name exactly when they are the same hour |
| SegmentPath.PathForTimeRoundTrip | src/rawstore/clean_up_local_files_job.go:53-61 | the time the cleanup rebuilds from a segment name is the start of the hour the name was made from |
| SegmentPath.PathForTimeSameHour | src/rawstore/types.go:14-16 | two timestamps share a segment exactly when their wall clocks lie in the same hour |
| SegmentPath.FilePathIgnoresPayload | src/rawstore/types.go:10-12 | a message's file depends only on its time |
| SegmentStore.Append | src/rawstore/thread.go:35-61 | a message's line, its text and a newline, goes to the end of the file for its UTC hour; no other file is changed or created |
| SegmentStore.LinesAppend | src/rawstore/thread.go:21-32 | the lines of two runs of messages are the lines of the first followed by those of the second |
| SegmentStore.DrainContents | src/rawstore/thread.go:21-32 | after the writer drains the channel, a writable segment holds its old contents followed by the lines of exactly the messages filed under it, in channel order |
| SegmentStore.DrainBlocked | src/rawstore/thread.go:45-48 | a directory, or a file that cannot be opened, is left as it was by the whole drain |
| SegmentStore.DrainFrame | src/rawstore/thread.go:21-32 | a path no message is filed under is left as it was |
| SegmentStore.DrainSnoc | src/rawstore/thread.go:21-32 | draining one more message is one more append |
| SegmentStore.Thread | src/rawstore/thread.go:9-33 | the writer panics exactly when the work directory is unset; otherwise its loop ends with the drained filesystem |
| Relay.BurstWithinCapacity | src/main.go:76 | a burst that fits within the 500 000 slots is taken whole, in order, with no rejection |
| Relay.BurstIntoFullQueue | src/main.go:76 | into a full channel every send of a burst is rejected and the channel is unchanged |
| Consumer.BackoffSchedule | src/pubsub/thread.go:53-57 | the sleep before retry n is 1 second for n = 1, doubles per failure up to 128 seconds, and stays at 128 from the eighth failure |
| Consumer.BackoffExamples | src/pubsub/thread.go:54 | the sleeps after 1, 2, 4, 8 and 9 failures are 1, 2, 8, 128 and 128 seconds |
| Consumer.ToRaw | src/pubsub/thread.go:98-101 | the relayed message carries the broker value and a UTC timestamp of the broker time |
| Consumer.Step | src/pubsub/thread.go:83-127 | a stopped or crashed consumer takes no further step, and a fetch never lowers the failure count |
| Consumer.CommitIffAccepted | src/pubsub/thread.go:103-114 | a fetched message is committed exactly when the channel takes it, and a rejected one changes neither the commits nor the channel |
| Consumer.OverloadCounter | src/pubsub/thread.go:115-120 | a rejection adds one to the overload counter and is fatal exactly when the counter passes 200; an acceptance relieves it and is never fatal |
| Consumer.ShutdownObserved | src/pubsub/thread.go:123-126 | with the flag set the loop stops after any processed message, never stops on its own otherwise, and a fetch error skips the check |
| Consumer.RunInvariant | src/pubsub/thread.go:24-129 | every reachable consumer keeps its counters in range and its channel within capacity, and the failure count and sleeps only grow |
| Consumer.StepAccepted | src/pubsub/thread.go:92-114 | an accepted message is queued, committed and counted, with a throughput report when the count reaches 100 |
| Consumer.AcceptedBurst | src/pubsub/thread.go:103-114 | messages that fit in the channel are all queued and committed, in order |
| Consumer.AcceptedBurstReports | src/pubsub/thread.go:92-96 | while messages are accepted, one throughput report is made per 100 messages |
| Consumer.RejectedBurst | src/pubsub/thread.go:115-120 | messages fetched while the channel is full are discarded uncommitted, and the counter grows by one each |
| Consumer.OverloadThreshold | src/pubsub/thread.go:118 | starting from a clear counter with a full channel, 200 rejections are survived and the 201st is fatal |
| Consumer.FailuresOnly | src/pubsub/thread.go:86-90 | fetch errors alone never stop the consumer, shutdown or not, and each adds the next backoff sleep |
| Consumer.CrashedStays | src/pubsub/thread.go:118-119 | a crashed or stopped consumer stays as it is |
| Pipeline.PipelineStep | src/main.go:76-79 | a writer turn takes the oldest channel entry and delivers it |
| Pipeline.StepDelivery | src/main.go:76-79 | every interleaved turn of the two threads keeps commits, delivered messages and the channel in agreement |
| Pipeline.RunDelivery | src/main.go:76-79 | any interleaving of the two threads keeps the delivery invariant |
| Pipeline.EndToEnd | src/main.go:76-79 | once the channel is empty, each writable segment holds its old contents followed by one line per committed message filed under it, in commit order |
| Cleanup.WalkSegment | src/rawstore/clean_up_local_files_job.go:37-71 | a removable segment file survives the walk exactly when its hour starts at or after the cutoff |
| Cleanup.CleanupJob | src/rawstore/clean_up_local_files_job.go:11-28 | the job panics exactly when the work directory is unset; otherwise it only removes entries, leaving the kept ones unchanged, keeps every directory, every unparsable name, every file not yet expired and every file whose removal fails, and removes every other expired file |
| Cleanup.HourExpiry | src/rawstore/clean_up_local_files_job.go:60-61 | a segment is due for deletion exactly when its hour began strictly before the cutoff |
| Cleanup.SegmentExpiry | src/rawstore/clean_up_local_files_job.go:53-61 | the segment of a message time is due exactly when the start of its UTC hour lies strictly more than 48 hours before now |
| Cleanup.RetentionBoundaryExample | src/rawstore/clean_up_local_files_job.go:60-61 | at 2024-01-03T00:00Z the 2023/12/31/23 segment is due, and 2024/01/01/00 (exactly 48 hours old) and 2024/01/01/01 are not |
| Upload.InZone | src/rawstore/dump_to_bucket_job.go:30 | converting to a zone keeps the instant and reads it with the zone's offset at that instant |
| Upload.UploadToS3 | src/rawstore/dump_to_bucket_job.go:49-92 | an upload succeeds exactly when the file exists, is not a directory, can be read and the put succeeds; success stores the gzip of the contents under the joined key; failure leaves the bucket unchanged |
| Upload.UploadAllIndependent | src/rawstore/dump_to_bucket_job.go:38-46 | a failed candidate does not stop the next one, and each candidate's outcome is the one it would have alone |
| Upload.UploadAllOverwrites | src/rawstore/dump_to_bucket_job.go:82-86 | the bucket after the loop is the old bucket overwritten by the puts, later ones winning |
| Upload.WritesKeys | src/rawstore/dump_to_bucket_job.go:55 | the loop writes no key other than the candidates' remote keys |
| Upload.DumpIdempotent | src/rawstore/dump_to_bucket_job.go:27-47 | a second run at the same instant, with no new local writes and the same read and put failures, gives the same bucket and the same outcomes |
| Upload.DumpEffect | src/rawstore/dump_to_bucket_job.go:27-47 | the job's outcomes are the two candidates' own, and only their two remote keys can change |
| Upload.DumpBodies | src/rawstore/dump_to_bucket_job.go:68-86 | every uploaded candidate's key holds the gzip of its local file afterwards |
| Upload.CandidatesAtSteadyOffset | src/rawstore/dump_to_bucket_job.go:30-36 | under a steady offset of k hours, a UTC segment is a candidate exactly when its hour is the current UTC hour plus k or plus k minus 1 |
| Upload.CandidatesInWinter | src/rawstore/dump_to_bucket_job.go:33-36 | at offset zero the candidates are exactly the UTC hour just ended and the current one |
| Upload.CandidatesInSummer | src/rawstore/dump_to_bucket_job.go:30-36 | in summer time the candidates are the current UTC hour and the next one, so no UTC hour that has ended is ever a candidate |
| Upload.CandidatesWhenClocksGoBack | src/rawstore/dump_to_bucket_job.go:33-36 | in the hour after the clocks go back both candidates name the same file |
| Upload.UtcCandidatesCover | src/rawstore/types.go:14-16 | read in UTC, the candidates are exactly the writer's segments for the previous and the current hour |
| Upload.RemoteKeyWithoutPrefix | src/rawstore/dump_to_bucket_job.go:55 | with no prefix the remote key is the segment name followed by `.gz` |
| Upload.RemoteKeyUnderPrefix | src/rawstore/dump_to_bucket_job.go:55 | with a clean prefix, with or without a trailing slash, the key is the prefix, one slash, the segment name and `.gz` |
| Upload.RemoteKeyInjective | src/rawstore/dump_to_bucket_job.go:55 | distinct hours get distinct remote keys under the same prefix |
| Generic.Map | src/generic/generic.go:3-9 | the result has the input's length and holds `f` of each element at the same index |
| Generic.MapLoop | src/generic/generic.go:3-9 | the indexed loop computes the element-wise map |
| Generic.MapAppend | src/generic/generic.go:3-9 | mapping distributes over concatenation |
| Generic.MapCompose | src/generic/generic.go:3-9 | mapping `f` then `g` is mapping their composition |
| Sentry.GetRelease | src/logging/sentry.go:40-51 | the release is `name@version`; it fails exactly when no version is set, and then sets the version to `unset` |
| Sentry.GetReleaseTwice | src/logging/sentry.go:45-48 | after the first call sets the version, a second call succeeds with the same release |
| Sentry.GetReleaseOverride | src/logging/sentry.go:41-43 | with a configured service name the caller's argument makes no difference |
| Sentry.BindSentryConfig | src/logging/sentry.go:65-78 | five fields are bound |
| Sentry.BindWithoutPaths | src/logging/sentry.go:66-77 | with no path the bare field names are bound to variables of the same names |
| Sentry.BindUnderPaths | src/logging/sentry.go:66-77 | with a path every key is prefixed by the dot-joined path and every variable by the underscore-joined path |
| Sentry.BindKeysAgree | src/logging/sentry.go:66-77 | when no path element contains a dot, each variable is its key with dots replaced by underscores |

## Findings

| source | as written | input that shows it | evidently intended | confidence | as-written member | corrected member |
|---|---|---|---|---|---|---|
| src/rawstore/dump_to_bucket_job.go:30 | "now" and "an hour ago" are read in Europe/London, but segments are named by UTC hour (src/pubsub/thread.go:99) | now = 2024-07-01T10:30Z under British Summer Time: the candidates are `2024/07/01/11.pport` (no such file yet) and `2024/07/01/10.pport`; `2024/07/01/09.pport`, which closed at 10:00Z, is never a candidate again, so what it gained after the last run inside 09:xx is never uploaded | candidates are the UTC hour just ended and the current one | medium, not executed | Upload.CandidatesInSummer | Upload.UtcCandidatesCover |

`Upload.DumpToBucketJob` takes the zone as a parameter. The job lemmas
(`Upload.DumpIdempotent`, `Upload.DumpEffect`, `Upload.DumpBodies`,
`Upload.UploadAllIndependent`) hold for every zone. That includes
`Upload.UtcZone`, the zone under which `Upload.UtcCandidates` gives the
intended pair.

## Left out

- Kafka: the dialer, TLS, SASL, reader creation and the commit call itself are left out. A fetch is an event that either fails or delivers a message, and commits are recorded in a list.
- Kafka commit errors are left out. The source only logs them, so a commit is recorded whenever the channel took the message.
- The deferred reader close is left out. It captures a nil reader, and the old reader is never closed on reconnect; neither affects the state modelled.
- Sleeps and the scheduler are recorded, not performed. `time.Sleep` appends its duration to a `delays` list. The gocron scheduling is left out: the dump job every minute and the cleanup job every hour. Each run of a job is one function call.
- Logging is left out: the logger backends and every log call other than the throughput counter.
- The five-second grace period on shutdown is left out. The goroutines are an interleaving of turns (`Pipeline.RunPipeline`), not threads.
- Environment variables are parameters. The work directory is an empty/non-empty argument; the prefix and bucket name are arguments too.
- `os.Getenv` in `GetServerName` is left out, as are the trivial Sentry accessors.
- The Europe/London time-zone database is left out. It is an offset oracle `Upload.Zone`, and the lemmas state their assumptions about the offsets.
- gzip and the S3 client are parameters. gzip is a function `Services.gzip`; the read, in-memory gzip and put failures are sets of paths and keys.
- The work-directory prefix is left out of the filesystem, which is keyed by paths relative to the work directory. So `path.Join(workdir, …)`, `filepath.Abs` and `filepath.Rel` cancel out.
- `os.MkdirAll` is left out. Parent directories created by the writer are not recorded as entries, and its panic on any `MkdirAll` error is not modelled.
- Errors reported by `filepath.WalkDir` itself, which would abort the walk, are left out. Only the removal failure of a single entry is modelled.
- SegmentStore.AppendLine: a write that fails after a successful open is not modelled. `os.OpenFile` with `O_CREATE` has by then created the file, and it may hold part of the line without its newline. The model treats every successful open as a complete write.
- SegmentStore.DrainContents: an open failure is fixed per path for the whole drain (`failing`), not per message. A transient failure on one message followed by success on the next is not expressed.
- Pipeline.PipelineStep: writer turns stay enabled after the consumer has crashed. The logrus `Fatal` call ends the whole process, and that is not modelled; the crashed consumer only stops taking events.
- Segment lines are one per message only when the payload holds no newline. The model appends the payload and a newline as they are and does not split lines.
- Decimal.ScanInt: does not skip leading spaces before a number as `fmt.Sscanf` does. Segment names never contain spaces.
- CivilTime.DateNanos: does not model `int64` overflow of `time.Date` for years far outside the `int64` nanosecond range.
- Sentry.BindSentryConfig: the binder is not modelled. The calls it would receive are returned, and their discarded errors are left out.
- `logging/logger.go` is not part of this model.
