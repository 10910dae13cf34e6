/** Active-link matching in `initNav`: the page name is the last `/`-separated
    segment of the location's path (`index.html` when that segment is empty), and a
    navigation link is marked when its `href` contains the page name anywhere. */
module ActiveLink {

  /** `path.split('/').pop()`: the text after the last `/`, or the whole path when it has none. */
  function LastSegment(path: string): (seg: string)
    ensures '/' !in seg
    ensures |seg| <= |path| && seg == path[|path| - |seg|..]
    ensures |seg| < |path| ==> path[|path| - |seg| - 1] == '/'
  {
    if path == [] || path[|path| - 1] == '/' then []
    else
      var init := path[..|path| - 1];
      var seg := LastSegment(init);
      assert path[|path| - |seg| - 1..] == seg + [path[|path| - 1]];
      seg + [path[|path| - 1]]
  }

  /** A suffix of `path` with no `/` that is the whole path or starts right after a `/`. */
  predicate IsLastSegment(path: string, seg: string) {
    '/' !in seg &&
    |seg| <= |path| && seg == path[|path| - |seg|..] &&
    (|seg| < |path| ==> path[|path| - |seg| - 1] == '/')
  }

  /** Those properties pin the segment down: `LastSegment` is the only string that has them. */
  lemma LastSegmentUnique(path: string, seg: string)
    ensures IsLastSegment(path, seg) <==> seg == LastSegment(path)
  {
  }

  lemma DefaultPageHasNoSlash()
    ensures '/' !in "index.html"
  {
  }

  /** The name of the current page as the navigation compares it. */
  function CurrentPage(path: string): (page: string)
    ensures page != [] && '/' !in page
    ensures LastSegment(path) != [] ==> page == LastSegment(path)
    ensures LastSegment(path) == [] ==> page == "index.html"
  {
    DefaultPageHasNoSlash();
    if LastSegment(path) == [] then "index.html" else LastSegment(path)
  }

  /** `text.includes(pat)`. */
  predicate Includes(text: string, pat: string) {
    pat <= text || (text != [] && Includes(text[1..], pat))
  }

  /** `pat` occurs in `text` starting at position `i`. */
  predicate OccursAt(text: string, pat: string, i: int) {
    0 <= i <= |text| - |pat| && text[i..i + |pat|] == pat
  }

  /** An occurrence at position `i` makes `includes` true. */
  lemma {:induction false} OccursIncluded(text: string, pat: string, i: int)
    requires OccursAt(text, pat, i)
    ensures Includes(text, pat)
    decreases i
  {
    if i > 0 {
      assert text[1..][i - 1..i - 1 + |pat|] == text[i..i + |pat|];
      OccursIncluded(text[1..], pat, i - 1);
    }
  }

  /** When `includes` is true, the pattern occurs at some position. */
  lemma {:induction false} IncludedOccurs(text: string, pat: string) returns (i: int)
    requires Includes(text, pat)
    ensures OccursAt(text, pat, i)
  {
    if pat <= text {
      i := 0;
    } else {
      var k := IncludedOccurs(text[1..], pat);
      assert text[1..][k..k + |pat|] == text[k + 1..k + 1 + |pat|];
      i := k + 1;
    }
  }

  /** `includes` holds exactly when the pattern occurs at some position. */
  lemma IncludesIffOccurs(text: string, pat: string)
    ensures Includes(text, pat) <==> exists i :: OccursAt(text, pat, i)
  {
    if Includes(text, pat) {
      var i := IncludedOccurs(text, pat);
    }
    if exists i :: OccursAt(text, pat, i) {
      var i :| OccursAt(text, pat, i);
      OccursIncluded(text, pat, i);
    }
  }

  /** Every suffix of a text is included in it; in particular a link whose `href`
      ends with the page name is marked. */
  lemma {:induction false} SuffixIncluded(text: string, pat: string)
    requires |pat| <= |text| && pat == text[|text| - |pat|..]
    ensures Includes(text, pat)
  {
    if !(pat <= text) {
      assert text != [];
      assert pat == text[1..][|text[1..]| - |pat|..];
      SuffixIncluded(text[1..], pat);
    }
  }

  /** The `href` attribute of a link: absent (`null`) or a string. */
  datatype Href = NoHref | Href(value: string)

  /** The test applied to each navigation link: a non-empty `href` that contains the page name. */
  predicate Matches(href: Href, page: string) {
    href.Href? && href.value != [] && Includes(href.value, page)
  }

  /** The test as applied on the page at location path `path`. */
  predicate IsActiveLink(href: Href, path: string) {
    Matches(href, CurrentPage(path))
  }

  /** A link is marked exactly when its `href` is non-empty and the page name
      occurs somewhere in it: substring matching, not suffix or equality. */
  lemma ActiveLinkIff(href: Href, path: string)
    ensures IsActiveLink(href, path) <==>
              href.Href? && href.value != [] && exists i :: OccursAt(href.value, CurrentPage(path), i)
  {
    if href.Href? {
      IncludesIffOccurs(href.value, CurrentPage(path));
    }
  }

  /** The link to the page itself is marked. */
  lemma OwnLinkMarked(path: string)
    ensures IsActiveLink(Href(CurrentPage(path)), path)
  {
  }

  /** A link whose `href` ends in `/` + page name (`menu/drinks.html` on `/drinks.html`) is marked too. */
  lemma PathLinkMarked(prefix: string, path: string)
    ensures IsActiveLink(Href(prefix + "/" + CurrentPage(path)), path)
  {
    var href := prefix + "/" + CurrentPage(path);
    assert CurrentPage(path) == href[|href| - |CurrentPage(path)|..];
    SuffixIncluded(href, CurrentPage(path));
  }

  /** Substring matching marks unrelated links: on page `x.html` the link to
      `index.html` is marked as well, because "x.html" occurs inside "index.html". */
  lemma HomeLinkMarkedOnXPage()
    ensures CurrentPage("/x.html") == "x.html"
    ensures IsActiveLink(Href("index.html"), "/x.html")
  {
    var path, page, href := "/x.html", "x.html", "index.html";
    assert path[|path| - |page|..] == page && path[0] == '/';
    assert IsLastSegment(path, page);
    LastSegmentUnique(path, page);
    assert href[4..4 + |page|] == page;
    OccursIncluded(href, page, 4);
  }

  /** A path ending in `/` (the site root, or a directory) counts as `index.html`. */
  lemma DirectoryIsIndex(dir: string)
    ensures CurrentPage(dir + "/") == "index.html"
    ensures IsActiveLink(Href("index.html"), dir + "/")
  {
  }
}
