/**
 * `highlightCurrentPage`: the current page is the last `/`-separated segment
 * of the location's path (or `"index.html"` when that segment is empty), and
 * every navigation link whose `href` attribute equals it gets the active style.
 */
module Navigation {
  import opened Wrappers

  // ---------------------------------------------------------------------
  // `split('/')` and its inverse
  // ---------------------------------------------------------------------

  /** `s.split(sep)` for a one-character separator: the pieces between separators, empty ones included. */
  function Split(s: string, sep: char): (parts: seq<string>)
    ensures |parts| >= 1
  {
    if s == [] then [""]
    else
      var rest := Split(s[1..], sep);
      if s[0] == sep then [""] + rest else [[s[0]] + rest[0]] + rest[1..]
  }

  /** `parts.join(sep)`. */
  function Join(parts: seq<string>, sep: char): string
    requires |parts| >= 1
  {
    if |parts| == 1 then parts[0] else parts[0] + [sep] + Join(parts[1..], sep)
  }

  /** No piece of a split holds the separator. */
  lemma {:induction false} SplitPiecesAvoidSeparator(s: string, sep: char)
    ensures forall k :: 0 <= k < |Split(s, sep)| ==> sep !in Split(s, sep)[k]
  {
    if s != [] {
      SplitPiecesAvoidSeparator(s[1..], sep);
      var rest := Split(s[1..], sep);
      if s[0] != sep {
        assert forall k :: 1 <= k < |Split(s, sep)| ==> Split(s, sep)[k] == rest[k];
      }
    }
  }

  /** A string with several pieces holds the separator. */
  lemma SeveralPiecesHoldSeparator(s: string, sep: char)
    ensures |Split(s, sep)| > 1 ==> sep in s
  {
    var parts := Split(s, sep);
    if |parts| > 1 {
      JoinSplit(s, sep);
      assert s == parts[0] + [sep] + Join(parts[1..], sep);
      assert s[|parts[0]|] == sep;
    }
  }

  /** Joining the pieces of a split gives the original string back. */
  lemma {:induction false} JoinSplit(s: string, sep: char)
    ensures Join(Split(s, sep), sep) == s
  {
    if s != [] {
      var rest := Split(s[1..], sep);
      JoinSplit(s[1..], sep);
      if s[0] == sep {
        assert ([""] + rest)[1..] == rest;
      } else if |rest| == 1 {
      } else {
        var parts := [[s[0]] + rest[0]] + rest[1..];
        assert parts[1..] == rest[1..];
        assert Join(rest, sep) == rest[0] + [sep] + Join(rest[1..], sep);
      }
    }
  }

  /** Joining pieces whose first piece is empty starts with the separator. */
  lemma JoinEmptyFirst(parts: seq<string>, sep: char)
    requires |parts| > 1 && parts[0] == []
    ensures Join(parts, sep) == [sep] + Join(parts[1..], sep)
  {
    assert parts[0] + [sep] == [sep];
  }

  /** Joining pieces whose first piece is not empty starts with that piece's first character. */
  lemma JoinFirstChar(parts: seq<string>, sep: char)
    requires |parts| >= 1 && parts[0] != []
    ensures var p := parts[0];
      Join(parts, sep) == [p[0]] + Join([p[1..]] + parts[1..], sep)
  {
    var p := parts[0];
    var tailParts := [p[1..]] + parts[1..];
    assert tailParts[1..] == parts[1..];
    if |parts| > 1 {
      calc {
        Join(parts, sep);
        p + [sep] + Join(parts[1..], sep);
        { assert p == [p[0]] + p[1..]; }
        [p[0]] + (p[1..] + [sep] + Join(parts[1..], sep));
        [p[0]] + Join(tailParts, sep);
      }
    } else {
      assert p == [p[0]] + p[1..];
    }
  }

  /** Splitting a join of separator-free pieces gives the pieces back. */
  lemma {:induction false} SplitJoin(parts: seq<string>, sep: char)
    requires |parts| >= 1
    requires forall k :: 0 <= k < |parts| ==> sep !in parts[k]
    ensures Split(Join(parts, sep), sep) == parts
    decreases |parts|, |parts[0]|
  {
    var p := parts[0];
    if p == [] {
      if |parts| > 1 {
        SplitJoin(parts[1..], sep);
        JoinEmptyFirst(parts, sep);
        var j := Join(parts, sep);
        assert j[1..] == Join(parts[1..], sep);
        assert [""] + parts[1..] == parts;
      }
    } else {
      var tailParts := [p[1..]] + parts[1..];
      assert forall k :: 1 <= k < |tailParts| ==> tailParts[k] == parts[k];
      assert sep !in tailParts[0] by { assert forall i :: 0 <= i < |p[1..]| ==> p[1..][i] == p[i + 1]; }
      SplitJoin(tailParts, sep);
      JoinFirstChar(parts, sep);
      var j := Join(parts, sep);
      assert j[1..] == Join(tailParts, sep);
      assert p[0] != sep;
      assert [p[0]] + p[1..] == p;
      assert [p] + parts[1..] == parts;
    }
  }

  // ---------------------------------------------------------------------
  // The current page
  // ---------------------------------------------------------------------

  /** `pathname.split('/').pop()`. */
  function LastSegment(path: string): string {
    var parts := Split(path, '/');
    parts[|parts| - 1]
  }

  /** `seg` is the part of `path` after its last `/` (all of it when it has none). */
  predicate IsAfterLastSlash(path: string, seg: string) {
    && |seg| <= |path|
    && seg == path[|path| - |seg|..]
    && '/' !in seg
    && (|seg| == |path| || path[|path| - |seg| - 1] == '/')
  }

  /** When the tail of `path` splits into pieces, or `path` starts with `/`, the last piece is the tail's. */
  lemma LastSegmentOfTail(path: string)
    requires path != []
    requires path[0] == '/' || |Split(path[1..], '/')| > 1
    ensures LastSegment(path) == LastSegment(path[1..])
  {
    var rest := Split(path[1..], '/');
    var parts := Split(path, '/');
    assert parts[|parts| - 1] == rest[|rest| - 1];
  }

  /** When only one piece follows the first character, the whole path is that piece. */
  lemma LastSegmentWhole(path: string)
    requires path != [] && path[0] != '/'
    requires |Split(path[1..], '/')| == 1
    ensures LastSegment(path) == path
  {
    var t := path[1..];
    JoinSplit(t, '/');
    assert Split(path, '/') == [[path[0]] + t];
  }

  /** Putting a character in front of a path keeps its part after the last `/`, unless that part was the whole path. */
  lemma AfterLastSlashCons(path: string, seg: string)
    requires path != []
    requires IsAfterLastSlash(path[1..], seg)
    requires |seg| < |path| - 1 || path[0] == '/'
    ensures IsAfterLastSlash(path, seg)
  {
    var t := path[1..];
    assert path[|path| - |seg|..] == t[|t| - |seg|..];
    if |seg| < |t| {
      assert path[|path| - |seg| - 1] == t[|t| - |seg| - 1];
    }
  }

  /** `pop()` returns the part of the path after its last `/`. */
  lemma {:induction false} LastSegmentIsAfterLastSlash(path: string)
    ensures IsAfterLastSlash(path, LastSegment(path))
  {
    if path == [] {
    } else if path[0] != '/' && |Split(path[1..], '/')| == 1 {
      LastSegmentWhole(path);
      SplitPiecesAvoidSeparator(path, '/');
    } else {
      var t := path[1..];
      LastSegmentOfTail(path);
      LastSegmentIsAfterLastSlash(t);
      var seg := LastSegment(t);
      if |seg| == |t| && path[0] != '/' {
        SeveralPiecesHoldSeparator(t, '/');
        assert false;
      }
      AfterLastSlashCons(path, seg);
    }
  }

  /** There is only one part after the last `/`. */
  lemma AfterLastSlashUnique(path: string, a: string, b: string)
    requires IsAfterLastSlash(path, a) && IsAfterLastSlash(path, b)
    ensures a == b
  {
  }

  const DefaultPage: string := "index.html"

  /** `window.location.pathname.split('/').pop() || 'index.html'`. */
  function CurrentPage(path: string): (page: string)
    ensures page != "" && '/' !in page
  {
    LastSegmentIsAfterLastSlash(path);
    var last := LastSegment(path);
    if last == "" then DefaultPage else last
  }

  /**
   * The current page is the part of the path after its last `/`, or
   * `"index.html"` when that part is empty (the root `/`, a path ending in
   * `/`, or the empty path).
   */
  lemma CurrentPageIsAfterLastSlash(path: string, seg: string)
    requires IsAfterLastSlash(path, seg)
    ensures CurrentPage(path) == if seg == "" then DefaultPage else seg
  {
    LastSegmentIsAfterLastSlash(path);
    AfterLastSlashUnique(path, seg, LastSegment(path));
  }

  /** `/docs/install.html` names the page `install.html`. */
  lemma InstallPageExample(path: string)
    requires path == "/docs/install.html"
    ensures CurrentPage(path) == "install.html"
  {
    var seg := path[6..];
    assert seg == "install.html";
    assert path[5] == '/';
    CurrentPageIsAfterLastSlash(path, seg);
  }

  /** The root path and a path ending in `/` name the page `index.html`. */
  lemma DirectoryPathExample(path: string)
    requires path == "/" || path == "/docs/"
    ensures CurrentPage(path) == "index.html"
  {
    CurrentPageIsAfterLastSlash(path, []);
  }

  // ---------------------------------------------------------------------
  // Highlighting the navigation links
  // ---------------------------------------------------------------------

  /** The three style properties the script assigns. */
  datatype Style = Style(background: string, borderLeftColor: string, color: string)

  const ActiveStyle: Style := Style("rgba(255,255,255,0.1)", "#3874D8", "white")

  /** A link of the navigation menu; `href` is `None` when it has no `href` attribute. */
  datatype NavLink = NavLink(href: Option<string>, style: Style)

  function Highlight(page: string, link: NavLink): NavLink {
    if link.href == Some(page) then link.(style := ActiveStyle) else link
  }

  /** The links after one pass of `highlightCurrentPage` for `page`. */
  function Highlighted(page: string, links: seq<NavLink>): (r: seq<NavLink>)
    ensures |r| == |links|
  {
    if links == [] then [] else [Highlight(page, links[0])] + Highlighted(page, links[1..])
  }

  /**
   * A link whose `href` equals the page exactly gets the active style; every
   * other link is left as it was; no `href` changes and no link is added or lost.
   */
  lemma {:induction false} HighlightedLinks(page: string, links: seq<NavLink>)
    ensures |Highlighted(page, links)| == |links|
    ensures forall i :: 0 <= i < |links| ==> Highlighted(page, links)[i].href == links[i].href
    ensures forall i :: 0 <= i < |links| && links[i].href == Some(page) ==>
      Highlighted(page, links)[i].style == ActiveStyle
    ensures forall i :: 0 <= i < |links| && links[i].href != Some(page) ==>
      Highlighted(page, links)[i] == links[i]
  {
    if links != [] {
      HighlightedLinks(page, links[1..]);
      var r := Highlighted(page, links);
      assert forall i :: 1 <= i < |links| ==> r[i] == Highlighted(page, links[1..])[i - 1];
    }
  }

  /**
   * When no link was active before, a link is active afterwards if and only
   * if its `href` equals the page (an exact, case-sensitive comparison).
   */
  lemma ActiveIffHrefIsPage(page: string, links: seq<NavLink>)
    requires forall i :: 0 <= i < |links| ==> links[i].style != ActiveStyle
    ensures forall i :: 0 <= i < |links| ==>
      (Highlighted(page, links)[i].style == ActiveStyle <==> links[i].href == Some(page))
  {
    HighlightedLinks(page, links);
  }

  /** Running the highlighter a second time changes nothing. */
  lemma HighlightedIdempotent(page: string, links: seq<NavLink>)
    ensures Highlighted(page, Highlighted(page, links)) == Highlighted(page, links)
  {
    var once := Highlighted(page, links);
    HighlightedLinks(page, links);
    HighlightedLinks(page, once);
    assert forall i :: 0 <= i < |once| ==> Highlighted(page, once)[i] == once[i];
  }

  /** `highlightCurrentPage`: one pass over the menu's links, styling those that match in place. */
  method HighlightCurrentPage(path: string, links: array<NavLink>)
    modifies links
    ensures links[..] == Highlighted(CurrentPage(path), old(links[..]))
  {
    var currentPage := CurrentPage(path);
    HighlightedLinks(currentPage, links[..]);
    for i := 0 to links.Length
      invariant forall k :: 0 <= k < i ==> links[k] == Highlight(currentPage, old(links[k]))
      invariant forall k :: i <= k < links.Length ==> links[k] == old(links[k])
    {
      if links[i].href == Some(currentPage) {
        links[i] := links[i].(style := ActiveStyle);
      }
    }
    ghost var was := old(links[..]);
    HighlightedLinks(currentPage, was);
    assert forall k :: 0 <= k < links.Length ==> Highlighted(currentPage, was)[k] == Highlight(currentPage, was[k]);
  }
}
