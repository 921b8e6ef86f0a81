/**
 * Slash-separated paths as Go's `path` package handles them: `strings.Split`
 * on `/`, the element-joining the segment layout uses, and `path.Join`
 * with the lexical clean-up `path.Clean` applies to its result.
 */
module Paths {

  /** Path elements joined by `/`. */
  function JoinSlash(parts: seq<string>): string {
    if |parts| == 0 then ""
    else if |parts| == 1 then parts[0]
    else parts[0] + "/" + JoinSlash(parts[1..])
  }

  /** `strings.Split(s, "/")`: the text between slashes, empty elements included. */
  function Split(s: string): (parts: seq<string>)
    ensures |parts| >= 1
  {
    if |s| == 0 then [""]
    else
      var rest := Split(s[1..]);
      if s[0] == '/' then [""] + rest else [[s[0]] + rest[0]] + rest[1..]
  }

  /** An element `path.Clean` leaves as it is: not empty, not `.` or `..`, no slash. */
  predicate Normal(e: string) {
    e != "" && e != "." && e != ".." && '/' !in e
  }

  predicate AllNormal(parts: seq<string>) {
    forall i :: 0 <= i < |parts| ==> Normal(parts[i])
  }

  /**
   * The element pass of `path.Clean`, left to right: empty and `.` elements
   * vanish, `..` removes the element before it when there is one that is not
   * itself `..`, and otherwise stays (relative paths) or vanishes (rooted ones).
   */
  function CleanElements(out: seq<string>, elems: seq<string>, rooted: bool): seq<string>
    decreases |elems|
  {
    if elems == [] then out
    else
      var e := elems[0];
      var next :=
        if e == "" || e == "." then out
        else if e == ".." then
          (if |out| > 0 && out[|out| - 1] != ".." then out[..|out| - 1]
           else if rooted then out
           else out + [".."])
        else out + [e];
      CleanElements(next, elems[1..], rooted)
  }

  /** `path.Clean`: the shortest lexically equivalent path; `.` when nothing is left of a relative one. */
  function Clean(p: string): (r: string)
    ensures r != ""
  {
    var rooted := |p| > 0 && p[0] == '/';
    var body := JoinSlash(CleanElements([], Split(p), rooted));
    if rooted then "/" + body
    else if body == "" then "."
    else body
  }

  /**
   * `path.Join(a, b)`: the empty string when both are empty; otherwise the
   * non-empty arguments joined by `/` and cleaned.
   */
  function Join(a: string, b: string): (r: string)
    ensures r == "" <==> a == "" && b == ""
  {
    if a == "" && b == "" then ""
    else if a == "" then Clean(b)
    else Clean(a + "/" + b)
  }

  lemma {:induction false} SplitNoSlash(a: string)
    requires '/' !in a
    ensures Split(a) == [a]
    decreases |a|
  {
    if |a| > 0 {
      assert '/' !in a[1..];
      SplitNoSlash(a[1..]);
      assert [a[0]] + a[1..] == a;
    }
  }

  lemma {:induction false} SplitSlashAfter(a: string, rest: string)
    requires '/' !in a
    ensures Split(a + "/" + rest) == [a] + Split(rest)
    decreases |a|
  {
    if |a| == 0 {
      assert a + "/" + rest == "/" + rest;
      assert ("/" + rest)[1..] == rest;
    } else {
      assert (a + "/" + rest)[1..] == a[1..] + "/" + rest;
      assert '/' !in a[1..];
      SplitSlashAfter(a[1..], rest);
      assert [a[0]] + a[1..] == a;
    }
  }

  /** `strings.Split` undoes the joining of slash-free elements. */
  lemma {:induction false} SplitJoinSlash(parts: seq<string>)
    requires |parts| >= 1
    requires forall i :: 0 <= i < |parts| ==> '/' !in parts[i]
    ensures Split(JoinSlash(parts)) == parts
    decreases |parts|
  {
    if |parts| == 1 {
      SplitNoSlash(parts[0]);
    } else {
      SplitSlashAfter(parts[0], JoinSlash(parts[1..]));
      SplitJoinSlash(parts[1..]);
      assert [parts[0]] + parts[1..] == parts;
    }
  }

  /** Joining two non-empty runs of elements puts one slash between them. */
  lemma {:induction false} JoinSlashAppend(xs: seq<string>, ys: seq<string>)
    requires |xs| >= 1 && |ys| >= 1
    ensures JoinSlash(xs) + "/" + JoinSlash(ys) == JoinSlash(xs + ys)
    decreases |xs|
  {
    if |xs| == 1 {
      assert (xs + ys)[1..] == ys;
    } else {
      assert (xs + ys)[1..] == xs[1..] + ys;
      JoinSlashAppend(xs[1..], ys);
    }
  }

  /** A suffix glued to a joined path lands on its last element. */
  lemma {:induction false} JoinSlashSuffix(parts: seq<string>, s: string)
    requires |parts| >= 1
    ensures JoinSlash(parts) + s == JoinSlash(parts[..|parts| - 1] + [parts[|parts| - 1] + s])
    decreases |parts|
  {
    if |parts| == 1 {
      assert parts[..0] + [parts[0] + s] == [parts[0] + s];
    } else {
      var last := [parts[|parts| - 1] + s];
      assert (parts[..|parts| - 1] + last)[1..] == parts[1..][..|parts| - 2] + last;
      JoinSlashSuffix(parts[1..], s);
    }
  }

  lemma {:induction false} CleanElementsAppend(out: seq<string>, xs: seq<string>, ys: seq<string>, rooted: bool)
    ensures CleanElements(out, xs + ys, rooted) == CleanElements(CleanElements(out, xs, rooted), ys, rooted)
    decreases |xs|
  {
    if xs == [] {
      assert xs + ys == ys;
    } else {
      assert (xs + ys)[1..] == xs[1..] + ys;
      var e := xs[0];
      var next :=
        if e == "" || e == "." then out
        else if e == ".." then
          (if |out| > 0 && out[|out| - 1] != ".." then out[..|out| - 1]
           else if rooted then out
           else out + [".."])
        else out + [e];
      CleanElementsAppend(next, xs[1..], ys, rooted);
    }
  }

  /** The clean-up pass keeps normal elements as they are. */
  lemma {:induction false} CleanElementsNormal(out: seq<string>, elems: seq<string>, rooted: bool)
    requires AllNormal(elems)
    ensures CleanElements(out, elems, rooted) == out + elems
    decreases |elems|
  {
    if elems != [] {
      assert Normal(elems[0]);
      CleanElementsNormal(out + [elems[0]], elems[1..], rooted);
      assert out + [elems[0]] + elems[1..] == out + elems;
    }
  }

  lemma AllNormalNoSlash(parts: seq<string>)
    requires AllNormal(parts)
    ensures forall i :: 0 <= i < |parts| ==> '/' !in parts[i]
  {
  }

  lemma {:induction false} JoinSlashHead(parts: seq<string>)
    requires |parts| >= 1 && parts[0] != ""
    ensures JoinSlash(parts) != "" && JoinSlash(parts)[0] == parts[0][0]
  {
  }

  /** A relative path made of normal elements is already clean. */
  lemma CleanNormal(parts: seq<string>)
    requires |parts| >= 1 && AllNormal(parts)
    ensures Clean(JoinSlash(parts)) == JoinSlash(parts)
  {
    var p := JoinSlash(parts);
    assert Normal(parts[0]);
    JoinSlashHead(parts);
    AllNormalNoSlash(parts);
    SplitJoinSlash(parts);
    CleanElementsNormal([], parts, false);
    assert [] + parts == parts;
  }

  /**
   * `path.Join` of two clean relative paths is their plain concatenation
   * with one slash between them.
   */
  lemma JoinNormal(xs: seq<string>, ys: seq<string>)
    requires |xs| >= 1 && |ys| >= 1 && AllNormal(xs) && AllNormal(ys)
    ensures Join(JoinSlash(xs), JoinSlash(ys)) == JoinSlash(xs) + "/" + JoinSlash(ys)
  {
    assert Normal(xs[0]);
    JoinSlashHead(xs);
    JoinSlashAppend(xs, ys);
    assert AllNormal(xs + ys) by {
      forall i | 0 <= i < |xs + ys|
        ensures Normal((xs + ys)[i])
      {
        if i < |xs| { assert (xs + ys)[i] == xs[i]; } else { assert (xs + ys)[i] == ys[i - |xs|]; }
      }
    }
    CleanNormal(xs + ys);
  }

  /** The clean-up pass drops one empty element between two runs of normal ones. */
  lemma CleanElementsSkipEmpty(xs: seq<string>, ys: seq<string>)
    requires AllNormal(xs) && AllNormal(ys)
    ensures CleanElements([], xs + [""] + ys, false) == xs + ys
  {
    CleanElementsAppend([], xs + [""], ys, false);
    CleanElementsAppend([], xs, [""], false);
    CleanElementsNormal([], xs, false);
    assert [] + xs == xs;
    CleanElementsNormal(xs, ys, false);
  }

  /** The text `a//b` for joined runs `a` and `b`: an empty element between them. */
  lemma DoubleSlash(xs: seq<string>, ys: seq<string>)
    requires |xs| >= 1 && |ys| >= 1 && AllNormal(xs) && AllNormal(ys)
    ensures JoinSlash(xs) + "/" + "/" + JoinSlash(ys) == JoinSlash(xs + [""] + ys)
    ensures Split(JoinSlash(xs + [""] + ys)) == xs + [""] + ys
  {
    var zs := xs + [""] + ys;
    JoinSlashAppend(xs, [""]);
    JoinSlashAppend(xs + [""], ys);
    assert JoinSlash(xs) + "/" + "" == JoinSlash(xs) + "/";
    forall i | 0 <= i < |zs|
      ensures '/' !in zs[i]
    {
      if i < |xs| { assert Normal(xs[i]); }
      else if i > |xs| { assert zs[i] == ys[i - |xs| - 1]; assert Normal(ys[i - |xs| - 1]); }
    }
    SplitJoinSlash(zs);
  }

  /** A trailing slash on the first argument makes no difference to `path.Join`. */
  lemma JoinTrailingSlash(xs: seq<string>, ys: seq<string>)
    requires |xs| >= 1 && |ys| >= 1 && AllNormal(xs) && AllNormal(ys)
    ensures Join(JoinSlash(xs) + "/", JoinSlash(ys)) == JoinSlash(xs) + "/" + JoinSlash(ys)
  {
    var zs := xs + [""] + ys;
    var p := JoinSlash(xs) + "/" + "/" + JoinSlash(ys);
    DoubleSlash(xs, ys);
    CleanElementsSkipEmpty(xs, ys);
    assert Normal(xs[0]);
    JoinSlashHead(xs);
    assert p[0] == xs[0][0];
    assert Clean(p) == JoinSlash(xs + ys);
    JoinSlashAppend(xs, ys);
  }
}
