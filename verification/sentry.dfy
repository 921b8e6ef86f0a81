/**
 * The string logic of `logging/sentry.go`: the release name reported to
 * Sentry, which writes back the package-level `version` the first time it
 * finds it empty, and the configuration keys `BindSentryConfig` binds to
 * environment variables.
 */
module Sentry {

  datatype SentryConfig = SentryConfig(
    dsn: string,
    environment: string,
    sendWarnings: bool,
    serviceName: string,
    mode: string)

  const UnsetVersion: string := "unset"

  /**
   * The result of `GetRelease` together with the package `version` after
   * the call: the release, whether an error came with it, and the version.
   */
  datatype Release = Release(release: string, failed: bool, version: string)

  /** The configured service name when there is one, the caller's otherwise. */
  function ServiceName(sc: SentryConfig, serviceName: string): (name: string)
    ensures sc.serviceName != "" ==> name == sc.serviceName
    ensures sc.serviceName == "" ==> name == serviceName
  {
    if sc.serviceName != "" then sc.serviceName else serviceName
  }

  /**
   * `GetRelease(serviceName)` with the package `version` passed in and
   * returned: `name@version`, or `name@unset` and an error when no version
   * is set, in which case `version` becomes `unset`.
   */
  function GetRelease(sc: SentryConfig, serviceName: string, version: string): (r: Release)
    ensures r.failed <==> version == ""
    ensures version != "" ==> r.version == version
    ensures version == "" ==> r.version == UnsetVersion
    ensures r.version != ""
    ensures r.release == ServiceName(sc, serviceName) + "@" + r.version
  {
    var name := ServiceName(sc, serviceName);
    if version == "" then Release(name + "@unset", true, UnsetVersion)
    else Release(name + "@" + version, false, version)
  }

  /**
   * A second call, after the first has written the version back, succeeds
   * and reports the same release, `@unset` included.
   */
  lemma GetReleaseTwice(sc: SentryConfig, serviceName: string, version: string)
    ensures var first := GetRelease(sc, serviceName, version);
      var second := GetRelease(sc, serviceName, first.version);
      && !second.failed
      && second.release == first.release
      && second.version == first.version
  {
  }

  /** A configured service name makes the caller's argument irrelevant. */
  lemma GetReleaseOverride(sc: SentryConfig, a: string, b: string, version: string)
    requires sc.serviceName != ""
    ensures GetRelease(sc, a, version) == GetRelease(sc, b, version)
  {
  }

  /** `strings.Join(parts, sep)`. */
  function JoinWith(parts: seq<string>, sep: string): string
    decreases |parts|
  {
    if |parts| == 0 then ""
    else if |parts| == 1 then parts[0]
    else parts[0] + sep + JoinWith(parts[1..], sep)
  }

  /** The fields of `SentryConfig`, in the order they are bound. */
  const BoundFields: seq<string> := ["DSN", "Environment", "SendWarnings", "ServiceName", "Mode"]

  /** The prefix put before each field name: the joined path and the separator, or nothing. */
  function KeyPrefix(paths: seq<string>, sep: string): string {
    if |paths| > 0 then JoinWith(paths, sep) + sep else ""
  }

  /**
   * The `BindEnv(key, envVar)` calls of `BindSentryConfig(paths...)`, in
   * order; their errors are discarded, so the calls are the whole effect.
   */
  function BindSentryConfig(paths: seq<string>): (binds: seq<(string, string)>)
    ensures |binds| == |BoundFields|
  {
    var dotPath := KeyPrefix(paths, ".");
    var underPath := KeyPrefix(paths, "_");
    seq(|BoundFields|, i requires 0 <= i < |BoundFields| => (dotPath + BoundFields[i], underPath + BoundFields[i]))
  }

  /** Without a path the bare field names are bound, to variables of the same name. */
  lemma BindWithoutPaths()
    ensures BindSentryConfig([]) == [
      ("DSN", "DSN"), ("Environment", "Environment"), ("SendWarnings", "SendWarnings"),
      ("ServiceName", "ServiceName"), ("Mode", "Mode")]
  {
    var binds := BindSentryConfig([]);
    forall i | 0 <= i < 5
      ensures binds[i] == (BoundFields[i], BoundFields[i])
    {
      assert "" + BoundFields[i] == BoundFields[i];
    }
  }

  /** With a path, every key sits under `a.b.` and every variable under `a_b_`. */
  lemma BindUnderPaths(paths: seq<string>)
    requires |paths| > 0
    ensures forall i :: 0 <= i < |BoundFields| ==>
      && BindSentryConfig(paths)[i].0 == JoinWith(paths, ".") + "." + BoundFields[i]
      && BindSentryConfig(paths)[i].1 == JoinWith(paths, "_") + "_" + BoundFields[i]
  {
  }

  /** Every dot replaced by an underscore. */
  function Underscored(s: string): (r: string)
    ensures |r| == |s|
    ensures forall i :: 0 <= i < |s| ==> r[i] == if s[i] == '.' then '_' else s[i]
  {
    seq(|s|, i requires 0 <= i < |s| => if s[i] == '.' then '_' else s[i])
  }

  lemma UnderscoredAppend(a: string, b: string)
    ensures Underscored(a + b) == Underscored(a) + Underscored(b)
  {
    assert forall i :: 0 <= i < |a + b| ==> (a + b)[i] == if i < |a| then a[i] else b[i - |a|];
  }

  lemma UnderscoredPlain(s: string)
    requires '.' !in s
    ensures Underscored(s) == s
  {
  }

  lemma {:induction false} UnderscoredJoin(parts: seq<string>)
    requires forall k :: 0 <= k < |parts| ==> '.' !in parts[k]
    ensures Underscored(JoinWith(parts, ".")) == JoinWith(parts, "_")
    decreases |parts|
  {
    if |parts| == 1 {
      UnderscoredPlain(parts[0]);
    } else if |parts| > 1 {
      UnderscoredJoin(parts[1..]);
      UnderscoredAppend(parts[0] + ".", JoinWith(parts[1..], "."));
      UnderscoredAppend(parts[0], ".");
      UnderscoredPlain(parts[0]);
    }
  }

  /**
   * The two names bound together agree: when no path element contains a
   * dot, each variable name is its key with dots turned into underscores.
   */
  lemma BindKeysAgree(paths: seq<string>)
    requires forall k :: 0 <= k < |paths| ==> '.' !in paths[k]
    ensures forall i :: 0 <= i < |BoundFields| ==>
      BindSentryConfig(paths)[i].1 == Underscored(BindSentryConfig(paths)[i].0)
  {
    var binds := BindSentryConfig(paths);
    forall i | 0 <= i < |BoundFields|
      ensures binds[i].1 == Underscored(binds[i].0)
    {
      var field := BoundFields[i];
      assert '.' !in field;
      UnderscoredPlain(field);
      if |paths| > 0 {
        UnderscoredJoin(paths);
        UnderscoredAppend(JoinWith(paths, ".") + ".", field);
        UnderscoredAppend(JoinWith(paths, "."), ".");
      } else {
        assert "" + field == field;
      }
    }
  }
}
