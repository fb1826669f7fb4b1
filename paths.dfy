/**
 * Path normalisation of the sidebar data hook: clearing the locale prefix
 * from a path, and deriving the parent path of a route and of the current
 * location. The regular expressions of the source are written out as
 * explicit functions: the leading-slash removal over the first character,
 * and the two trailing-segment removals over the last `/` of a string.
 */
module Paths {
  import opened Wrappers

  /** A resolved locale: its identifier and, optionally, its base URL prefix (`/en-US`). */
  datatype Locale = Locale(id: string, base: Option<string>)

  /** `s.slice(1)`: everything after the first character; empty stays empty. */
  function SliceFrom1(s: string): (r: string)
    ensures |s| > 0 ==> r == s[1..]
    ensures |s| == 0 ==> r == ""
  {
    if |s| == 0 then s else s[1..]
  }

  /** `p` occurs in `s` starting at index `i`. */
  predicate OccursAt(s: string, p: string, i: nat) {
    i + |p| <= |s| && s[i..i + |p|] == p
  }

  /** `i` is the first index at which `p` occurs in `s`. */
  predicate FirstOccurrence(s: string, p: string, i: nat) {
    OccursAt(s, p, i) && forall j: nat :: j < i ==> !OccursAt(s, p, j)
  }

  /** `p` occurs nowhere in `s`. */
  ghost predicate NoOccurrence(s: string, p: string) {
    forall j: nat :: !OccursAt(s, p, j)
  }

  lemma OccursShift(s: string, p: string, i: nat)
    requires |s| > 0
    ensures OccursAt(s, p, i + 1) <==> OccursAt(s[1..], p, i)
  {
    if i + 1 + |p| <= |s| {
      assert s[i + 1..i + 1 + |p|] == s[1..][i..i + |p|];
    }
  }

  /** `s.indexOf(p)`: the first index at which `p` occurs in `s`, or None. */
  function IndexOf(s: string, p: string): (r: Option<nat>)
    ensures r.Some? ==> OccursAt(s, p, r.value)
    ensures r.Some? ==> forall j: nat :: j < r.value ==> !OccursAt(s, p, j)
    ensures r.None? ==> forall j: nat :: !OccursAt(s, p, j)
    decreases |s|
  {
    if OccursAt(s, p, 0) then Some(0)
    else if s == [] then None
    else
      var tail := IndexOf(s[1..], p);
      match tail
      case None =>
        assert forall j: nat :: !OccursAt(s, p, j) by {
          forall j: nat ensures !OccursAt(s, p, j) {
            if j > 0 { OccursShift(s, p, j - 1); }
          }
        }
        None
      case Some(i) =>
        OccursShift(s, p, i);
        assert forall j: nat :: j < i + 1 ==> !OccursAt(s, p, j) by {
          forall j: nat | j < i + 1 ensures !OccursAt(s, p, j) {
            if j > 0 { OccursShift(s, p, j - 1); }
          }
        }
        Some(i + 1)
  }

  /**
   * `s.replace(p, '')` with a string pattern: only the first occurrence of
   * `p` is removed, and `s` is unchanged when `p` does not occur.
   */
  function RemoveFirst(s: string, p: string): (r: string)
    ensures NoOccurrence(s, p) ==> r == s
    ensures forall i: nat :: FirstOccurrence(s, p, i) ==> r == s[..i] + s[i + |p|..]
    ensures |r| <= |s|
  {
    match IndexOf(s, p)
    case None => s
    case Some(k) =>
      assert forall i: nat :: FirstOccurrence(s, p, i) ==> i == k;
      s[..k] + s[k + |p|..]
  }

  /** `s.replace(/^\//, '')`: at most one leading slash is removed. */
  function StripLeadingSlash(s: string): (r: string)
    ensures |s| > 0 && s[0] == '/' ==> r == s[1..]
    ensures !(|s| > 0 && s[0] == '/') ==> r == s
  {
    if |s| > 0 && s[0] == '/' then s[1..] else s
  }

  /** Exactly the one leading slash goes. */
  lemma StripLeadingSlashOfSlash(s: string)
    ensures StripLeadingSlash("/" + s) == s
  {
    assert ("/" + s)[1..] == s;
  }

  /**
   * `getLocaleClearPath`: without a base the path is returned as it is;
   * with one, the first occurrence of the base minus its first character is
   * removed (wherever it stands), then one leading slash.
   */
  function LocaleClearPath(path: string, locale: Locale): (r: string)
    ensures locale.base.None? ==> r == path
    ensures locale.base.Some? && NoOccurrence(path, SliceFrom1(locale.base.value)) ==> r == StripLeadingSlash(path)
    ensures locale.base.Some? ==>
              var p := SliceFrom1(locale.base.value);
              forall i: nat :: FirstOccurrence(path, p, i) ==> r == StripLeadingSlash(path[..i] + path[i + |p|..])
    ensures |r| <= |path|
  {
    match locale.base
    case None => path
    case Some(base) =>
      var cleared := RemoveFirst(path, SliceFrom1(base));
      StripLeadingSlash(cleared)
  }

  /**
   * A path that starts with the locale base (without its first character) loses
   * exactly that prefix and then at most one slash, even when the base recurs later.
   */
  lemma ClearPathOfLocalePrefixed(id: string, c: char, name: string, rest: string)
    ensures LocaleClearPath(name + rest, Locale(id, Some([c] + name))) == StripLeadingSlash(rest)
  {
    var s := name + rest;
    assert SliceFrom1([c] + name) == name;
    assert RemoveFirst(s, name) == rest by {
      assert FirstOccurrence(s, name, 0) by { assert s[..|name|] == name; }
      assert s[..0] + s[|name|..] == rest;
    }
  }

  /**
   * The current location `/L` + `rest` under the base `/L`: dropping the
   * first character and clearing the locale leaves `rest` without one
   * leading slash.
   */
  lemma LocationClearOfLocalePrefixed(id: string, prefix: string, rest: string, pathname: string)
    requires pathname == "/" + prefix + rest
    ensures LocaleClearPath(SliceFrom1(pathname), Locale(id, Some("/" + prefix))) == StripLeadingSlash(rest)
  {
    assert SliceFrom1(pathname) == prefix + rest;
    ClearPathOfLocalePrefixed(id, '/', prefix, rest);
  }

  /** Under the base `/L`, the location `/L/x/y` clears to `x/y`. */
  lemma LocationClearOfNestedPage(id: string, prefix: string, x: string, y: string)
    ensures LocaleClearPath(SliceFrom1("/" + prefix + "/" + x + "/" + y), Locale(id, Some("/" + prefix))) == x + "/" + y
  {
    var tail := x + "/" + y;
    LocationClearOfLocalePrefixed(id, prefix, "/" + tail, "/" + prefix + "/" + x + "/" + y);
    StripLeadingSlashOfSlash(tail);
  }

  /** The index of the last `/` of `s`, or None when it has none. */
  function LastSlash(s: string): (r: Option<nat>)
    ensures r.Some? ==> r.value < |s| && s[r.value] == '/'
    ensures r.Some? ==> forall j :: r.value < j < |s| ==> s[j] != '/'
    ensures r.None? ==> forall j :: 0 <= j < |s| ==> s[j] != '/'
  {
    if s == [] then None
    else if s[|s| - 1] == '/' then Some(|s| - 1)
    else LastSlash(s[..|s| - 1])
  }

  /** The last slash of `q + "/" + seg`, where `seg` has no slash, is the one after `q`. */
  lemma LastSlashAfter(q: string, seg: string)
    requires '/' !in seg
    ensures LastSlash(q + "/" + seg) == Some(|q|)
  {
    var s := q + "/" + seg;
    assert s[|q|] == '/';
    assert forall j :: |q| < j < |s| ==> s[j] == seg[j - |q| - 1];
  }

  /**
   * The parent path of a route path: `/${path.replace(/\/[^/]+$/, '')}`.
   * The final `/segment` is dropped when that segment is non-empty; the
   * result always starts with `/` and the rest is a prefix of the path.
   */
  function RouteParentPath(path: string): (r: string)
    ensures |r| > 0 && r[0] == '/'
    ensures r[1..] <= path
  {
    match LastSlash(path)
    case Some(k) =>
      if k + 1 < |path| then "/" + path[..k] else "/" + path
    case None => "/" + path
  }

  /** `q/seg` with a non-empty, slash-free last segment has parent `/q` (`a/b => /a`, `en-US/a/b => /en-US/a`). */
  lemma RouteParentOfChild(q: string, seg: string)
    requires seg != "" && '/' !in seg
    ensures RouteParentPath(q + "/" + seg) == "/" + q
  {
    LastSlashAfter(q, seg);
    assert (q + "/" + seg)[..|q|] == q;
  }

  /** A path without a slash keeps all of itself (`a => /a`). */
  lemma RouteParentOfTopLevel(path: string)
    requires '/' !in path
    ensures RouteParentPath(path) == "/" + path
  {
  }

  /** A path ending in a slash has an empty last segment, which the expression keeps. */
  lemma RouteParentOfTrailingSlash(q: string)
    ensures RouteParentPath(q + "/") == "/" + q + "/"
  {
    LastSlashAfter(q, "");
    assert q + "/" + "" == q + "/";
  }

  /**
   * The parent path of the location: `pathname.replace(/(\/[^/]+)(\/[^/]+\/?)$/, '$1')`.
   * When the pathname ends in `/X/Y` or `/X/Y/` with X and Y non-empty and
   * slash-free, the `/Y` (and the trailing slash) is dropped; otherwise the
   * pathname is returned unchanged.
   */
  function LocationParentPath(pathname: string): (r: string)
    ensures r <= pathname
    ensures |r| > 0 <==> |pathname| > 0
  {
    var t := if |pathname| > 0 && pathname[|pathname| - 1] == '/' then pathname[..|pathname| - 1] else pathname;
    match LastSlash(t)
    case None => pathname
    case Some(j) =>
      if j + 1 < |t| then
        match LastSlash(t[..j])
        case None => pathname
        case Some(i) => if i + 1 < j then t[..j] else pathname
      else pathname
  }

  /** `/en-US/a/b => /en-US/a` and `/en-US/a/b/ => /en-US/a`: the last segment and a trailing slash go. */
  lemma LocationParentDropsLast(pre: string, x: string, y: string)
    requires x != "" && '/' !in x && y != "" && '/' !in y
    ensures LocationParentPath(pre + "/" + x + "/" + y) == pre + "/" + x
    ensures LocationParentPath(pre + "/" + x + "/" + y + "/") == pre + "/" + x
  {
    var t := pre + "/" + x + "/" + y;
    LastSlashAfter(pre + "/" + x, y);
    assert t[..|pre + "/" + x|] == pre + "/" + x;
    LastSlashAfter(pre, x);
    assert (t + "/")[..|t|] == t;
  }

  /** `/a => /a`: a single segment has no parent to go to, and keeps a trailing slash. */
  lemma LocationParentSingleSegment(x: string)
    requires '/' !in x
    ensures LocationParentPath("/" + x) == "/" + x
    ensures LocationParentPath("/" + x + "/") == "/" + x + "/"
  {
    LastSlashAfter("", x);
    assert "" + "/" + x == "/" + x;
    assert ("/" + x + "/")[..|x| + 1] == "/" + x;
    assert ("/" + x)[..0] == "";
  }

  /**
   * A top-level page under a locale prefix: the route `en-US/a` is filed under
   * `/en-US`, and the location `/en-US/a` looks up `/en-US`, so the two agree
   * (the parent is the locale root, not `/en-US/a`).
   */
  lemma TopLevelLocalePage(prefix: string, page: string)
    requires prefix != "" && '/' !in prefix && page != "" && '/' !in page
    ensures RouteParentPath(prefix + "/" + page) == "/" + prefix
    ensures LocationParentPath("/" + prefix + "/" + page) == "/" + prefix
  {
    assert RouteParentPath(prefix + "/" + page) == "/" + prefix by {
      RouteParentOfChild(prefix, page);
    }
    assert LocationParentPath("/" + prefix + "/" + page) == "/" + prefix by {
      assert "" + "/" == "/";
      LocationParentDropsLast("", prefix, page);
    }
  }

  /** A non-empty path that does not start with a slash never has the parent `/`. */
  lemma RouteParentNotRoot(path: string)
    requires path != "" && path[0] != '/'
    ensures RouteParentPath(path) != "/"
  {
    var last := LastSlash(path);
    if last.Some? && last.value + 1 < |path| {
      assert last.value != 0;
      assert |RouteParentPath(path)| == 1 + last.value;
    } else {
      assert |RouteParentPath(path)| == 1 + |path|;
    }
  }
}
