/**
 Highlighting the navigation anchor of the page being viewed (script.js,
 `highlightActiveLink`). The current file name is the last segment of the
 location's pathname, `index.html` when that segment is empty; an anchor is
 marked active when its `href`, or the last segment of it, names that file.
 */
module ActiveLink {
  import opened Optional
  import opened Paths

  /** The file a directory path such as `/` or `/site/` serves. */
  const DefaultFile: string := "index.html"

  /** A navigation anchor: its `href` attribute (`None` when absent) and whether it carries `active`. */
  datatype Anchor = Anchor(href: Option<string>, active: bool)

  /** The current page's file name: `pathname.split('/').pop() || 'index.html'`. */
  function CurrentFile(pathname: string): (file: string)
    ensures file != ""
    ensures Separator !in file
    ensures LastSegment(pathname) != "" ==> file == LastSegment(pathname)
    ensures file == LastSegment(pathname) || file == DefaultFile
  {
    var segment := LastSegment(pathname);
    if segment != "" then segment else DefaultFile
  }

  /** The anchor test exactly as the page script writes it, given the current
      file name `path`: a missing or empty `href` never matches; otherwise the
      `href` itself, the root alternative, or the last segment of the `href`. */
  predicate MarksActive(path: string, href: Option<string>)
    ensures href.None? || href == Some("") ==> !MarksActive(path, href)
    ensures path != "" ==>
      (MarksActive(path, href) <==>
         href.Some? && href.value != "" && (href.value == path || LastSegment(href.value) == path))
  {
    match href
    case None => false
    case Some(h) =>
      if h == "" then false
      else if h == path || (h == DefaultFile && path == "") then true
      else LastSegment(h) == path
  }

  /** Whether an anchor with this `href` is marked active on the page at `pathname`. */
  predicate IsActive(pathname: string, href: Option<string>)
    ensures IsActive(pathname, href) ==> href.Some? && href.value != ""
    ensures href.Some? && href.value != "" && LastSegment(href.value) == CurrentFile(pathname) ==>
      IsActive(pathname, href)
  {
    MarksActive(CurrentFile(pathname), href)
  }

  /** The alternative `href === 'index.html' && path === ''` never decides
      anything: the current file name is never empty, so dropping it leaves
      the test unchanged. */
  lemma RootAlternativeIsDead(pathname: string, href: Option<string>)
    ensures IsActive(pathname, href) <==>
      match href
      case None => false
      case Some(h) => h != "" && (h == CurrentFile(pathname) || LastSegment(h) == CurrentFile(pathname))
  {
  }

  /** The whole rule reduces to comparing the last segment of `href` with the
      current file name: because that name holds no '/', an `href` equal to it
      is its own last segment. */
  lemma IsActiveReduces(pathname: string, href: Option<string>)
    ensures IsActive(pathname, href) <==>
      href.Some? && href.value != "" && LastSegment(href.value) == CurrentFile(pathname)
  {
    var path := CurrentFile(pathname);
    if href.Some? && href.value == path {
      LastSegmentOfSegment(path);
    }
  }

  /** An anchor after highlighting: `classList.add('active')` when it matches, untouched otherwise. */
  function Mark(path: string, a: Anchor): (r: Anchor)
    ensures r.href == a.href
    ensures a.active ==> r.active
  {
    if MarksActive(path, a.href) then a.(active := true) else a
  }

  /** Highlighting every navigation anchor once the page has loaded: the
      anchors and their `href`s stay as they are, only `active` marks are added. */
  function Highlight(pathname: string, anchors: seq<Anchor>): (r: seq<Anchor>)
    ensures |r| == |anchors|
    ensures forall i :: 0 <= i < |r| ==> r[i].href == anchors[i].href
    ensures forall i :: 0 <= i < |r| ==> anchors[i].active ==> r[i].active
  {
    var path := CurrentFile(pathname);
    seq(|anchors|, i requires 0 <= i < |anchors| => Mark(path, anchors[i]))
  }

  /** An anchor ends up active exactly when it already was or its `href`'s
      last segment is the current file name. */
  lemma HighlightMarksMatches(pathname: string, anchors: seq<Anchor>, i: int)
    requires 0 <= i < |anchors|
    ensures Highlight(pathname, anchors)[i].active <==>
      anchors[i].active ||
      (anchors[i].href.Some? && anchors[i].href.value != "" &&
       LastSegment(anchors[i].href.value) == CurrentFile(pathname))
  {
  }

  /** Highlighting is idempotent: a second pass marks nothing new. */
  lemma HighlightIdempotent(pathname: string, anchors: seq<Anchor>)
    ensures Highlight(pathname, Highlight(pathname, anchors)) == Highlight(pathname, anchors)
  {
  }

  /** Worked example: on `/about.html` the anchor `about.html` is active. */
  lemma AboutPageExample()
    ensures IsActive("/about.html", Some("about.html"))
    ensures !IsActive("/about.html", Some("contact.html"))
  {
    LastSegmentUnique("/about.html", "about.html");
  }

  /** Worked example: an empty pathname, or the site root, is the `index.html` page. */
  lemma RootPageExample()
    ensures IsActive("", Some("index.html"))
    ensures IsActive("", Some("/index.html"))
    ensures IsActive("/", Some("index.html"))
    ensures IsActive("/", Some("/index.html"))
  {
    LastSegmentUnique("/index.html", "index.html");
  }
}
