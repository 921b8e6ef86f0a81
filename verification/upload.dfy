/**
 * The bucket upload job of `rawstore/dump_to_bucket_job.go`: the two
 * candidate segments (the hour before `now` and the hour of `now`, read in
 * the Europe/London zone), the remote key `path.Join(prefix, segment + ".gz")`,
 * and `uploadToS3` for each candidate on its own.
 *
 * The zone is an offset oracle, gzip is a function from file contents to
 * bytes, and the failing reads and puts are sets of paths and keys.
 */
module Upload {
  import opened CivilTime
  import opened Decimal
  import opened Paths
  import opened SegmentPath
  import opened SegmentStore

  type Bytes = seq<bv8>

  /** The objects of the bucket by key. */
  type Bucket = map<string, Bytes>

  /** A location: the UTC offset in seconds it has at each instant. */
  type Zone = int -> int

  const GzipSuffix: string := ".gz"

  datatype UploadError = OpenFailed | ReadFailed | PutFailed

  datatype Outcome = Uploaded | Failed(error: UploadError)

  /**
   * What the model cannot see: the gzip encoding, the local paths whose read
   * (or compression) fails, and the keys whose `PutObject` fails.
   */
  datatype Services = Services(gzip: string -> Bytes, readFails: set<string>, putFails: set<string>)

  /** `t.In(zone)`: the same instant, read with the zone's offset at that instant. */
  function InZone(instant: int, zone: Zone): (t: Timestamp)
    ensures t.instant == instant && t.offset == zone(instant)
  {
    Timestamp(instant, zone(instant))
  }

  /** The segments the job uploads, in order: the hour before `now` and the hour of `now`. */
  function Candidates(now: int, zone: Zone): (cs: seq<string>)
    ensures |cs| == 2
  {
    [PathForTime(InZone(now - NanosPerHour, zone)), PathForTime(InZone(now, zone))]
  }

  /** `path.Join(prefix, candidate + ".gz")`. */
  function RemoteKey(prefix: string, candidate: string): string {
    Join(prefix, candidate + GzipSuffix)
  }

  /**
   * `uploadToS3` for one candidate, the local file being the candidate under
   * the work directory. A missing file cannot be opened; a directory opens
   * but cannot be read; only a complete compression of the whole file is put,
   * replacing any object under the same key.
   */
  function UploadToS3(fs: Fs, bucket: Bucket, prefix: string, candidate: string, sv: Services): (r: (Bucket, Outcome))
    ensures candidate !in fs ==> r.1 == Failed(OpenFailed)
    ensures r.1 == Uploaded <==>
      && candidate in fs && fs[candidate].File?
      && candidate !in sv.readFails
      && RemoteKey(prefix, candidate) !in sv.putFails
    ensures r.1.Failed? ==> r.0 == bucket
    ensures r.1.Uploaded? ==>
      r.0 == bucket[RemoteKey(prefix, candidate) := sv.gzip(Contents(fs, candidate))]
  {
    if candidate !in fs then (bucket, Failed(OpenFailed))
    else if fs[candidate].Dir? || candidate in sv.readFails then (bucket, Failed(ReadFailed))
    else
      var key := RemoteKey(prefix, candidate);
      if key in sv.putFails then (bucket, Failed(PutFailed))
      else (bucket[key := sv.gzip(fs[candidate].data)], Uploaded)
  }

  /** The loop of `DumpToBucketJob`: each candidate in turn, whatever became of the ones before. */
  function UploadAll(fs: Fs, bucket: Bucket, prefix: string, cs: seq<string>, sv: Services): (r: (Bucket, seq<Outcome>))
    ensures |r.1| == |cs|
    decreases |cs|
  {
    if cs == [] then (bucket, [])
    else
      var first := UploadToS3(fs, bucket, prefix, cs[0], sv);
      var rest := UploadAll(fs, first.0, prefix, cs[1..], sv);
      (rest.0, [first.1] + rest.1)
  }

  /** `DumpToBucketJob` at the instant `now`. */
  function DumpToBucketJob(fs: Fs, bucket: Bucket, prefix: string, now: int, zone: Zone, sv: Services): (r: (Bucket, seq<Outcome>))
    ensures |r.1| == 2
  {
    UploadAll(fs, bucket, prefix, Candidates(now, zone), sv)
  }

  /** The objects a run of uploads writes, independently of what the bucket held. */
  function Writes(fs: Fs, prefix: string, cs: seq<string>, sv: Services): Bucket {
    UploadAll(fs, map[], prefix, cs, sv).0
  }

  function RemoteKeys(prefix: string, cs: seq<string>): set<string>
    decreases |cs|
  {
    if cs == [] then {} else {RemoteKey(prefix, cs[0])} + RemoteKeys(prefix, cs[1..])
  }

  /**
   * Each candidate's outcome is the one it would have on its own: a failure
   * (missing file, unreadable file, failed put) does not stop the others.
   */
  lemma {:induction false} UploadAllIndependent(fs: Fs, bucket: Bucket, prefix: string, cs: seq<string>, sv: Services)
    ensures forall i :: 0 <= i < |cs| ==>
      UploadAll(fs, bucket, prefix, cs, sv).1[i] == UploadToS3(fs, map[], prefix, cs[i], sv).1
    decreases |cs|
  {
    if cs != [] {
      var first := UploadToS3(fs, bucket, prefix, cs[0], sv);
      UploadAllIndependent(fs, first.0, prefix, cs[1..], sv);
      forall i | 0 <= i < |cs|
        ensures UploadAll(fs, bucket, prefix, cs, sv).1[i] == UploadToS3(fs, map[], prefix, cs[i], sv).1
      {
        if i > 0 {
          assert cs[i] == cs[1..][i - 1];
        }
      }
    }
  }

  /**
   * A run of uploads overwrites a fixed set of objects: the bucket
   * afterwards is the old bucket with `Writes` laid over it.
   */
  lemma {:induction false} UploadAllOverwrites(fs: Fs, bucket: Bucket, prefix: string, cs: seq<string>, sv: Services)
    ensures UploadAll(fs, bucket, prefix, cs, sv).0 == bucket + Writes(fs, prefix, cs, sv)
    decreases |cs|
  {
    if cs == [] {
      assert bucket + map[] == bucket;
    } else {
      var first := UploadToS3(fs, bucket, prefix, cs[0], sv);
      var alone := UploadToS3(fs, map[], prefix, cs[0], sv);
      UploadAllOverwrites(fs, first.0, prefix, cs[1..], sv);
      UploadAllOverwrites(fs, alone.0, prefix, cs[1..], sv);
      UploadOverwrites(fs, bucket, prefix, cs[0], sv);
      MapUnionAssociative(bucket, alone.0, Writes(fs, prefix, cs[1..], sv));
    }
  }

  /** One upload lays the same object over any bucket, and its outcome ignores the bucket. */
  lemma UploadOverwrites(fs: Fs, bucket: Bucket, prefix: string, candidate: string, sv: Services)
    ensures var alone := UploadToS3(fs, map[], prefix, candidate, sv);
      && UploadToS3(fs, bucket, prefix, candidate, sv).0 == bucket + alone.0
      && UploadToS3(fs, bucket, prefix, candidate, sv).1 == alone.1
  {
    var alone := UploadToS3(fs, map[], prefix, candidate, sv);
    if alone.1.Uploaded? {
      var key := RemoteKey(prefix, candidate);
      assert bucket[key := sv.gzip(Contents(fs, candidate))] == bucket + map[key := sv.gzip(Contents(fs, candidate))];
    } else {
      assert bucket + map[] == bucket;
    }
  }

  lemma MapUnionAssociative<K, V>(a: map<K, V>, b: map<K, V>, c: map<K, V>)
    ensures (a + b) + c == a + (b + c)
  {
  }

  /** Only the remote keys of the candidates can be written. */
  lemma {:induction false} WritesKeys(fs: Fs, prefix: string, cs: seq<string>, sv: Services)
    ensures Writes(fs, prefix, cs, sv).Keys <= RemoteKeys(prefix, cs)
    decreases |cs|
  {
    if cs != [] {
      var alone := UploadToS3(fs, map[], prefix, cs[0], sv);
      UploadAllOverwrites(fs, alone.0, prefix, cs[1..], sv);
      WritesKeys(fs, prefix, cs[1..], sv);
    }
  }

  /**
   * Re-running the job at the same instant over unchanged files targets the
   * same keys with the same bodies: it overwrites, it does not add.
   */
  lemma DumpIdempotent(fs: Fs, bucket: Bucket, prefix: string, now: int, zone: Zone, sv: Services)
    ensures var once := DumpToBucketJob(fs, bucket, prefix, now, zone, sv);
      && DumpToBucketJob(fs, once.0, prefix, now, zone, sv) == once
  {
    var cs := Candidates(now, zone);
    var once := UploadAll(fs, bucket, prefix, cs, sv);
    var w := Writes(fs, prefix, cs, sv);
    UploadAllOverwrites(fs, bucket, prefix, cs, sv);
    UploadAllOverwrites(fs, once.0, prefix, cs, sv);
    assert (bucket + w) + w == bucket + w;
    var twice := UploadAll(fs, once.0, prefix, cs, sv);
    UploadAllIndependent(fs, bucket, prefix, cs, sv);
    UploadAllIndependent(fs, once.0, prefix, cs, sv);
    assert twice.1 == once.1 by {
      assert |twice.1| == |once.1| == 2;
      assert twice.1[0] == once.1[0] && twice.1[1] == once.1[1];
    }
  }

  /**
   * The job leaves every object but the two candidates' alone, and its
   * outcomes are those of the two uploads attempted separately.
   */
  lemma DumpEffect(fs: Fs, bucket: Bucket, prefix: string, now: int, zone: Zone, sv: Services)
    ensures var cs := Candidates(now, zone);
      var r := DumpToBucketJob(fs, bucket, prefix, now, zone, sv);
      && r.1 == [UploadToS3(fs, map[], prefix, cs[0], sv).1, UploadToS3(fs, map[], prefix, cs[1], sv).1]
      && r.0.Keys <= bucket.Keys + {RemoteKey(prefix, cs[0]), RemoteKey(prefix, cs[1])}
      && (forall k :: k in bucket && k != RemoteKey(prefix, cs[0]) && k != RemoteKey(prefix, cs[1])
            ==> k in r.0 && r.0[k] == bucket[k])
  {
    var cs := Candidates(now, zone);
    UploadAllIndependent(fs, bucket, prefix, cs, sv);
    UploadAllOverwrites(fs, bucket, prefix, cs, sv);
    WritesKeys(fs, prefix, cs, sv);
    RemoteKeysPair(prefix, cs);
  }

  lemma RemoteKeysPair(prefix: string, cs: seq<string>)
    requires |cs| == 2
    ensures RemoteKeys(prefix, cs) == {RemoteKey(prefix, cs[0]), RemoteKey(prefix, cs[1])}
  {
    var tail := cs[1..];
    assert tail[1..] == [];
    assert RemoteKeys(prefix, tail) == {RemoteKey(prefix, cs[1])} + RemoteKeys(prefix, []);
  }

  /**
   * What lands in the bucket: when the two candidates have different keys
   * (or are the same segment), each uploaded candidate's key holds the
   * compression of that candidate's whole file.
   */
  lemma DumpBodies(fs: Fs, bucket: Bucket, prefix: string, now: int, zone: Zone, sv: Services)
    requires var cs := Candidates(now, zone);
      RemoteKey(prefix, cs[0]) == RemoteKey(prefix, cs[1]) ==> cs[0] == cs[1]
    ensures var cs := Candidates(now, zone);
      var r := DumpToBucketJob(fs, bucket, prefix, now, zone, sv);
      forall i :: 0 <= i < 2 && r.1[i] == Uploaded ==>
        RemoteKey(prefix, cs[i]) in r.0 && r.0[RemoteKey(prefix, cs[i])] == sv.gzip(Contents(fs, cs[i]))
  {
    var cs := Candidates(now, zone);
    var first := UploadToS3(fs, bucket, prefix, cs[0], sv);
    var second := UploadToS3(fs, first.0, prefix, cs[1], sv);
    var tail := cs[1..];
    assert tail == [cs[1]] && tail[1..] == [];
    assert UploadAll(fs, second.0, prefix, tail[1..], sv) == (second.0, []);
    assert [second.1] + [] == [second.1];
    assert UploadAll(fs, first.0, prefix, tail, sv) == (second.0, [second.1]);
    assert [first.1] + [second.1] == [first.1, second.1];
    assert UploadAll(fs, bucket, prefix, cs, sv) == (second.0, [first.1, second.1]);
  }

  // Candidate selection against the UTC segments the writer fills.

  /**
   * While the zone's offset stays at `k` whole hours, a message timed at the
   * UTC instant `t` is in a candidate segment exactly when its hour is `k-1`
   * or `k` hours after the hour of `now`.
   */
  lemma CandidatesAtSteadyOffset(now: int, zone: Zone, k: int, t: int)
    requires zone(now) == zone(now - NanosPerHour) == k * 3600
    requires MinInt64 <= now - NanosPerHour + k * NanosPerHour && now + k * NanosPerHour <= MaxInt64
    requires MinInt64 <= t <= MaxInt64
    ensures PathForTime(Utc(t)) in Candidates(now, zone)
        <==> t / NanosPerHour == now / NanosPerHour + k - 1 || t / NanosPerHour == now / NanosPerHour + k
  {
    var earlier := InZone(now - NanosPerHour, zone);
    var current := InZone(now, zone);
    var p := PathForTime(Utc(t));
    SteadyOffsetWalls(now, zone, k);
    PathForTimeSameHour(Utc(t), earlier);
    PathForTimeSameHour(Utc(t), current);
    assert (p == PathForTime(earlier)) == (t / NanosPerHour == now / NanosPerHour + k - 1);
    assert (p == PathForTime(current)) == (t / NanosPerHour == now / NanosPerHour + k);
    assert Candidates(now, zone) == [PathForTime(earlier), PathForTime(current)];
    InPair(p, PathForTime(earlier), PathForTime(current));
  }

  lemma InPair<T>(x: T, a: T, b: T)
    ensures x in [a, b] <==> x == a || x == b
  {
    if x == b {
      assert [a, b][1] == x;
    }
  }

  /** The wall clocks behind the two candidates, under a steady offset of `k` hours. */
  lemma SteadyOffsetWalls(now: int, zone: Zone, k: int)
    requires zone(now) == zone(now - NanosPerHour) == k * 3600
    ensures WallClock(InZone(now, zone)) == now + k * NanosPerHour
    ensures WallClock(InZone(now - NanosPerHour, zone)) == now + (k - 1) * NanosPerHour
    ensures WallClock(InZone(now, zone)) / NanosPerHour == now / NanosPerHour + k
    ensures WallClock(InZone(now - NanosPerHour, zone)) / NanosPerHour == now / NanosPerHour + k - 1
  {
    assert k * 3600 * NanosPerSecond == k * NanosPerHour;
    HourShift(now, k);
    HourShift(now, k - 1);
  }

  /** In winter (offset zero) the candidates are the UTC hour before `now` and the hour of `now`. */
  lemma CandidatesInWinter(now: int, zone: Zone, t: int)
    requires zone(now) == 0 && zone(now - NanosPerHour) == 0
    requires MinInt64 <= now - NanosPerHour && now <= MaxInt64
    requires MinInt64 <= t <= MaxInt64
    ensures PathForTime(Utc(t)) in Candidates(now, zone)
        <==> t / NanosPerHour == now / NanosPerHour - 1 || t / NanosPerHour == now / NanosPerHour
  {
    CandidatesAtSteadyOffset(now, zone, 0, t);
  }

  /**
   * In summer time (offset one hour) the candidates are the UTC hour of
   * `now` and the hour after it. So no run in summer time uploads a UTC
   * hour that has already ended, and whatever was appended to it after the
   * last run inside that hour never reaches the bucket.
   */
  lemma CandidatesInSummer(now: int, zone: Zone, t: int)
    requires zone(now) == 3600 && zone(now - NanosPerHour) == 3600
    requires MinInt64 <= now && now + NanosPerHour <= MaxInt64
    requires MinInt64 <= t <= MaxInt64
    ensures PathForTime(Utc(t)) in Candidates(now, zone)
        <==> t / NanosPerHour == now / NanosPerHour || t / NanosPerHour == now / NanosPerHour + 1
    ensures t / NanosPerHour < now / NanosPerHour ==> PathForTime(Utc(t)) !in Candidates(now, zone)
  {
    CandidatesAtSteadyOffset(now, zone, 1, t);
  }

  /** The zone the segment paths are written in. */
  const UtcZone: Zone := (instant: int) => 0

  /**
   * The candidates read in UTC, the zone the writer names segments in: the
   * segment of the hour that has just ended and that of the current hour.
   */
  function UtcCandidates(now: int): (cs: seq<string>)
    ensures |cs| == 2
  {
    Candidates(now, UtcZone)
  }

  /** Read in UTC, the candidates are exactly the writer's segments for the previous and the current hour. */
  lemma UtcCandidatesCover(now: int, t: int)
    requires MinInt64 <= now - NanosPerHour && now <= MaxInt64
    requires MinInt64 <= t <= MaxInt64
    ensures PathForTime(Utc(t)) in UtcCandidates(now)
        <==> t / NanosPerHour == now / NanosPerHour - 1 || t / NanosPerHour == now / NanosPerHour
  {
    CandidatesInWinter(now, UtcZone, t);
  }

  /**
   * In the hour after the clocks go back, `now - 1h` (summer time) and
   * `now` (winter time) read the same wall-clock hour: both candidates are
   * the same segment.
   */
  lemma CandidatesWhenClocksGoBack(now: int, zone: Zone)
    requires zone(now - NanosPerHour) == 3600 && zone(now) == 0
    ensures Candidates(now, zone)[0] == Candidates(now, zone)[1]
  {
    assert WallClock(InZone(now - NanosPerHour, zone)) == WallClock(InZone(now, zone));
  }

  // The layout of remote keys.

  /** The elements of a candidate's remote name: year, month, day and `HH.pport.gz`. */
  function KeyParts(h: Hour): seq<string> {
    [FormatInt(h.year, 4), FormatInt(h.month, 2), FormatInt(h.day, 2),
     FormatInt(h.hour, 2) + Extension + GzipSuffix]
  }

  lemma FormatIntNormal(x: int, width: nat, suffix: string)
    requires '/' !in suffix
    ensures Normal(FormatInt(x, width) + suffix)
  {
    var s := FormatInt(x, width);
    var digits := ZeroPad(Digits(if x < 0 then -x else x), width);
    PaddedValue(if x < 0 then -x else x, width);
    assert s[0] == '-' || IsDigit(s[0]);
    assert '/' !in s by {
      if x < 0 {
        assert s == "-" + digits;
        assert forall i :: 0 < i < |s| ==> s[i] == digits[i - 1];
      }
    }
    assert (s + suffix)[0] == s[0];
  }

  lemma KeyPartsNormal(h: Hour)
    requires ValidHour(h)
    ensures |KeyParts(h)| == 4 && AllNormal(KeyParts(h))
    ensures JoinSlash(KeyParts(h)) == FormatPath(h) + GzipSuffix
  {
    var f := PathFields(h);
    FormatIntNormal(h.year, 4, "");
    FormatIntNormal(h.month, 2, "");
    FormatIntNormal(h.day, 2, "");
    FormatIntNormal(h.hour, 2, Extension + GzipSuffix);
    assert FormatInt(h.year, 4) + "" == FormatInt(h.year, 4);
    assert FormatInt(h.month, 2) + "" == FormatInt(h.month, 2);
    assert FormatInt(h.day, 2) + "" == FormatInt(h.day, 2);
    assert FormatInt(h.hour, 2) + Extension + GzipSuffix == FormatInt(h.hour, 2) + (Extension + GzipSuffix);
    JoinSlashSuffix(f, Extension + GzipSuffix);
    assert f[..3] + [f[3] + (Extension + GzipSuffix)] == KeyParts(h);
  }

  /** With no prefix, the remote key is the segment path and `.gz`. */
  lemma RemoteKeyWithoutPrefix(h: Hour)
    requires ValidHour(h)
    ensures RemoteKey("", FormatPath(h)) == FormatPath(h) + GzipSuffix
  {
    var parts := KeyParts(h);
    KeyPartsNormal(h);
    CleanNormal(parts);
  }

  /**
   * Under a prefix of clean elements, with or without a trailing slash, the
   * remote key is the prefix, one slash, the segment path and `.gz`.
   */
  lemma RemoteKeyUnderPrefix(ps: seq<string>, h: Hour)
    requires |ps| >= 1 && AllNormal(ps) && ValidHour(h)
    ensures RemoteKey(JoinSlash(ps), FormatPath(h)) == JoinSlash(ps) + "/" + (FormatPath(h) + GzipSuffix)
    ensures RemoteKey(JoinSlash(ps) + "/", FormatPath(h)) == JoinSlash(ps) + "/" + (FormatPath(h) + GzipSuffix)
  {
    var parts := KeyParts(h);
    KeyPartsNormal(h);
    JoinNormal(ps, parts);
    JoinTrailingSlash(ps, parts);
  }

  /** Under such a prefix, different hours never share a remote key. */
  lemma RemoteKeyInjective(ps: seq<string>, prefix: string, a: Hour, b: Hour)
    requires AllNormal(ps) && ValidHour(a) && ValidHour(b)
    requires MinInt64 <= a.year <= MaxInt64 && MinInt64 <= b.year <= MaxInt64
    requires if ps == [] then prefix == "" else prefix == JoinSlash(ps) || prefix == JoinSlash(ps) + "/"
    ensures RemoteKey(prefix, FormatPath(a)) == RemoteKey(prefix, FormatPath(b)) <==> a == b
  {
    var lead := if ps == [] then "" else JoinSlash(ps) + "/";
    var na := FormatPath(a) + GzipSuffix;
    var nb := FormatPath(b) + GzipSuffix;
    if ps == [] {
      RemoteKeyWithoutPrefix(a);
      RemoteKeyWithoutPrefix(b);
      assert RemoteKey(prefix, FormatPath(a)) == lead + na;
      assert RemoteKey(prefix, FormatPath(b)) == lead + nb;
    } else {
      RemoteKeyUnderPrefix(ps, a);
      RemoteKeyUnderPrefix(ps, b);
    }
    if lead + na == lead + nb {
      assert (lead + na)[|lead|..] == na;
      assert (lead + nb)[|lead|..] == nb;
      assert na[..|na| - 3] == FormatPath(a);
      assert nb[..|na| - 3] == FormatPath(b);
      FormatPathInjective(a, b);
    }
  }
}
