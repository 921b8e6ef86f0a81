/**
 * `CleanUpLocalFilesJob` and the per-entry decision of
 * `recursiveDeletionWalk` in `rawstore/clean_up_local_files_job.go`: every
 * regular file whose path scans as a segment path and whose hour started
 * strictly before `now - 48h` is removed. `removeFails` names the files
 * whose removal fails; such a file is only logged and stays.
 */
module Cleanup {
  import opened Wrappers
  import opened CivilTime
  import opened SegmentPath
  import opened SegmentStore

  const RetentionHours: int := 48

  /** `time.Now().UTC().Add(-48 * time.Hour)`. */
  function Cutoff(now: int): (c: int)
    ensures c < now && now - c == RetentionHours * NanosPerHour
  {
    now - RetentionHours * NanosPerHour
  }

  /** A file name the job recognises whose hour started strictly before `cutoff`. */
  predicate Expired(rel: string, cutoff: int) {
    match ParsePath(rel)
    case None => false
    case Some(f) => ParsedHourStart(f) < cutoff
  }

  /** The walk: directories are skipped, expired files removed unless removal fails. */
  function Walk(fs: Fs, cutoff: int, removeFails: set<string>): (r: Fs)
    ensures forall p :: p in r <==>
      p in fs && (fs[p].Dir? || !Expired(p, cutoff) || p in removeFails)
    ensures forall p :: p in r ==> r[p] == fs[p]
  {
    map p | p in fs && (fs[p].Dir? || !Expired(p, cutoff) || p in removeFails) :: fs[p]
  }

  datatype CleanupResult = Panicked | Cleaned(fs: Fs)

  /** The whole job: an unset work directory panics before anything is touched. */
  function CleanupJob(workdir: string, now: int, fs: Fs, removeFails: set<string>): (r: CleanupResult)
    ensures workdir == "" <==> r.Panicked?
    ensures r.Cleaned? ==> r.fs.Keys <= fs.Keys
    ensures r.Cleaned? ==> forall p :: p in r.fs ==> r.fs[p] == fs[p]
    ensures r.Cleaned? ==> forall p :: p in fs && fs[p].File? && Expired(p, Cutoff(now)) && p !in removeFails ==> p !in r.fs
    ensures r.Cleaned? ==> forall p :: p in fs && (!Expired(p, Cutoff(now)) || p in removeFails) ==> p in r.fs
    ensures r.Cleaned? ==> forall p :: p in fs && fs[p].Dir? ==> p in r.fs
    ensures r.Cleaned? ==> forall p :: p in fs && ParsePath(p).None? ==> p in r.fs
  {
    if workdir == "" then CleanupResult.Panicked else Cleaned(Walk(fs, Cutoff(now), removeFails))
  }

  /**
   * A segment written for a message time `t` is removed exactly when the
   * start of `t`'s hour lies strictly before the cutoff.
   */
  lemma SegmentExpiry(t: int, now: int)
    requires Decimal.MinInt64 <= t <= Decimal.MaxInt64
    ensures Expired(PathForTime(Utc(t)), Cutoff(now))
        <==> t / NanosPerHour * NanosPerHour < now - 48 * NanosPerHour
  {
    PathForTimeRoundTrip(Utc(t));
  }

  /** For a well-formed hour the comparison is strict: an hour starting at the cutoff is kept. */
  lemma HourExpiry(h: Hour, cutoff: int)
    requires ValidHour(h) && Decimal.MinInt64 <= h.year <= Decimal.MaxInt64
    ensures Expired(FormatPath(h), cutoff) <==> HourStart(h) < cutoff
  {
    ParseFormatPath(h, "");
    assert FormatPath(h) + "" == FormatPath(h);
  }

  /**
   * A removable segment file survives the walk exactly when its hour starts
   * at or after the cutoff.
   */
  lemma WalkSegment(fs: Fs, cutoff: int, removeFails: set<string>, h: Hour)
    requires ValidHour(h) && Decimal.MinInt64 <= h.year <= Decimal.MaxInt64
    requires FormatPath(h) in fs && fs[FormatPath(h)].File? && FormatPath(h) !in removeFails
    ensures FormatPath(h) in Walk(fs, cutoff, removeFails) <==> cutoff <= HourStart(h)
  {
    HourExpiry(h, cutoff);
  }

  /**
   * At `now = 2024-01-03T00:00Z` the file for 2023-12-31 23h is removed, while
   * those for 2024-01-01 00h (exactly 48 hours old) and 01h are kept.
   */
  lemma RetentionBoundaryExample()
    ensures var cutoff := Cutoff(HourStart(Hour(2024, 1, 3, 0)));
      && Expired(FormatPath(Hour(2023, 12, 31, 23)), cutoff)
      && !Expired(FormatPath(Hour(2024, 1, 1, 0)), cutoff)
      && !Expired(FormatPath(Hour(2024, 1, 1, 1)), cutoff)
  {
    var now := Hour(2024, 1, 3, 0);
    var late := Hour(2023, 12, 31, 23);
    var edge := Hour(2024, 1, 1, 0);
    var kept := Hour(2024, 1, 1, 1);
    BoundaryHourStarts();
    var cutoff := Cutoff(HourStart(now));
    assert HourStart(late) < cutoff && HourStart(edge) == cutoff && HourStart(kept) > cutoff;
    HourExpiry(late, cutoff);
    HourExpiry(edge, cutoff);
    HourExpiry(kept, cutoff);
  }

  lemma BoundaryHourStarts()
    ensures HourStart(Hour(2023, 12, 31, 23)) == HourStart(Hour(2024, 1, 3, 0)) - 49 * NanosPerHour
    ensures HourStart(Hour(2024, 1, 1, 0)) == HourStart(Hour(2024, 1, 3, 0)) - 48 * NanosPerHour
    ensures HourStart(Hour(2024, 1, 1, 1)) == HourStart(Hour(2024, 1, 3, 0)) - 47 * NanosPerHour
  {
    YearStep(2023);
  }
}
