/** Active-page detection: the current page is the last '/'-separated
    segment of the location's path (or "index.html" when that segment is
    empty), and every navigation link whose `href` equals it gains the
    `active` class. */
module ActivePage {
  import opened Optional

  const DefaultPage := "index.html"

  predicate NoSeparator(s: string, sep: char) {
    forall k :: 0 <= k < |s| ==> s[k] != sep
  }

  /** `String.prototype.split` with a one-character separator: the pieces
      between separators, always at least one, none containing `sep`, and a
      single piece (the whole string) exactly when `s` has no separator. */
  function Split(s: string, sep: char): (r: seq<string>)
    ensures |r| >= 1
    ensures forall i :: 0 <= i < |r| ==> NoSeparator(r[i], sep)
    ensures |r| == 1 <==> NoSeparator(s, sep)
    ensures |r| == 1 ==> r[0] == s
    decreases |s|
  {
    if s == [] then [[]]
    else
      var t := Split(s[1..], sep);
      if s[0] == sep then
        assert !NoSeparator(s, sep);
        [[]] + t
      else
        assert NoSeparator(s, sep) <==> NoSeparator(s[1..], sep) by {
          assert forall k :: 1 <= k < |s| ==> s[k] == s[1..][k - 1];
        }
        [[s[0]] + t[0]] + t[1..]
  }

  /** `l` is a suffix of `s` that is either all of `s` or preceded by `sep`. */
  predicate EndPiece(s: string, l: string, sep: char) {
    && |l| <= |s| && l == s[|s| - |l|..]
    && (|l| < |s| ==> s[|s| - |l| - 1] == sep)
  }

  /** The last piece of `split` is a suffix of `s`, preceded by a separator
      unless it is all of `s`. */
  lemma {:induction false} SplitLastSuffix(s: string, sep: char)
    ensures var r := Split(s, sep); EndPiece(s, r[|r| - 1], sep)
    decreases |s|
  {
    if s != [] {
      var t := Split(s[1..], sep);
      var lt := t[|t| - 1];
      SplitLastSuffix(s[1..], sep);
      assert EndPiece(s[1..], lt, sep);
      SplitLastStep(s, sep);
      if s[0] != sep && |t| == 1 {
        assert s[|s| - |s|..] == s;
      } else {
        if |lt| == |s| - 1 {
          // the tail's last piece is the whole tail, so the tail is one piece
          assert lt == s[1..];
          assert NoSeparator(lt, sep);
          assert |t| == 1;
        }
        TailSuffix(s, lt, sep);
      }
    }
  }

  /** How the last piece of `split` on a non-empty string relates to the
      last piece on its tail: the first character joins it only when the
      tail has no separator. */
  lemma SplitLastStep(s: string, sep: char)
    requires s != []
    ensures var r := Split(s, sep); var t := Split(s[1..], sep);
            r[|r| - 1] == if s[0] != sep && |t| == 1 then s else t[|t| - 1]
  {
    var t := Split(s[1..], sep);
    var r := Split(s, sep);
    if s[0] == sep {
      assert r == [[]] + t;
    } else {
      assert r == [[s[0]] + t[0]] + t[1..];
      if |t| == 1 {
        assert [s[0]] + s[1..] == s;
      }
    }
  }

  /** A separator-preceded suffix of the tail is one of the whole string. */
  lemma TailSuffix(s: string, l: string, sep: char)
    requires s != [] && EndPiece(s[1..], l, sep)
    requires |l| == |s| - 1 ==> s[0] == sep
    ensures EndPiece(s, l, sep)
  {
    assert s[1..][|s| - 1 - |l|..] == s[|s| - |l|..];
  }

  /** `location.pathname.split('/').pop() || 'index.html'`: never empty and
      never containing a '/', so the source's test for an empty current page
      can never succeed. */
  function CurrentPage(path: string): (page: string)
    ensures page != [] && NoSeparator(page, '/')
  {
    var segments := Split(path, '/');
    var last := segments[|segments| - 1];
    if last == [] then DefaultPage else last
  }

  /** The current page is the path's last segment, or "index.html" when the
      path ends with '/' (or is empty). */
  lemma CurrentPageIsLastSegment(path: string)
    ensures var l := LastSegment(path);
            CurrentPage(path) == if l == [] then DefaultPage else l
  {
    SplitLastIsLastSegment(path);
    CurrentPageFromLastPiece(path, LastSegment(path));
  }

  lemma CurrentPageFromLastPiece(path: string, l: string)
    requires var r := Split(path, '/'); r[|r| - 1] == l
    ensures CurrentPage(path) == if l == [] then DefaultPage else l
  {
  }

  /** The reference reading of the last segment: the longest suffix of the
      path without a '/'. */
  function LastSegment(path: string): (l: string)
    ensures NoSeparator(l, '/') && EndPiece(path, l, '/')
  {
    path[|path| - SegmentLength(path)..]
  }

  /** The number of characters after the path's last '/' (all of them when
      it has none). */
  function SegmentLength(path: string): (k: nat)
    ensures k <= |path| && NoSeparator(path[|path| - k..], '/')
    ensures k < |path| ==> path[|path| - k - 1] == '/'
  {
    if |path| > 0 && path[|path| - 1] != '/' then
      var p := path[..|path| - 1];
      var k0 := SegmentLength(p);
      var k := 1 + k0;
      assert path[|path| - k..] == p[|p| - k0..] + [path[|path| - 1]];
      assert k < |path| ==> path[|path| - k - 1] == p[|p| - k0 - 1];
      k
    else 0
  }

  /** Two slash-free suffixes that each start right after a '/' (or at the
      start of the path) are the same suffix. */
  lemma LastSegmentUnique(path: string, a: string, b: string)
    requires NoSeparator(a, '/') && EndPiece(path, a, '/')
    requires NoSeparator(b, '/') && EndPiece(path, b, '/')
    ensures a == b
  {
  }

  /** The piece `split` leaves last is exactly the reference last segment. */
  lemma {:induction false} SplitLastIsLastSegment(path: string)
    ensures var r := Split(path, '/'); r[|r| - 1] == LastSegment(path)
  {
    var r := Split(path, '/');
    var l := r[|r| - 1];
    var m := LastSegment(path);
    SplitLastSuffix(path, '/');
    assert NoSeparator(l, '/') && EndPiece(path, l, '/');
    assert NoSeparator(m, '/') && EndPiece(path, m, '/');
    LastSegmentUnique(path, l, m);
  }

  /** A navigation link: its `href` attribute (`None` when absent, which
      `getAttribute` reports as null) and its `active` class. */
  datatype Link = Link(href: Option<string>, active: bool)

  /** `setActivePage`: marks matching links, never unmarks any. The second
      disjunct of the source's test, for an empty current page, is kept
      although it can never hold. */
  function SetActivePage(path: string, links: seq<Link>): (r: seq<Link>)
    ensures |r| == |links|
    ensures forall i :: 0 <= i < |r| ==> r[i].href == links[i].href
    ensures forall i :: 0 <= i < |r| ==>
              (r[i].active <==> links[i].active || links[i].href == Some(CurrentPage(path)))
    ensures forall i :: 0 <= i < |r| ==> links[i].active ==> r[i].active
  {
    var page := CurrentPage(path);
    seq(|links|, i requires 0 <= i < |links| =>
      var l := links[i];
      if l.href == Some(page) || (page == [] && l.href == Some(DefaultPage)) then l.(active := true) else l)
  }

  /** A path ending in a file name yields that file name. */
  lemma CurrentPageOfFile(folder: string, file: string)
    requires file != [] && NoSeparator(file, '/')
    ensures CurrentPage(folder + "/" + file) == file
  {
    var path := folder + "/" + file;
    CurrentPageIsLastSegment(path);
    assert path[|path| - |file|..] == file;
    assert path[|path| - |file| - 1] == '/';
    LastSegmentUnique(path, LastSegment(path), file);
  }

  /** A path ending in '/' (a folder URL, or the site root) yields
      "index.html". */
  lemma CurrentPageOfFolder(folder: string)
    ensures CurrentPage(folder + "/") == DefaultPage
  {
    CurrentPageIsLastSegment(folder + "/");
  }
}
