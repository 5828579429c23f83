/** The preview selection of utils/preview_fetcher.py: text cleaning, the
    Project Gutenberg marker slicing and truncation, the HTML fragments and
    the Gutenberg -> Google Books -> placeholder fallback.  Every HTTP
    response, and what the HTML parser found in the search page, is an
    input. */
module PreviewFetcher {
  import opened Wrappers
  import opened TextOps

  // ------------------------------------------------------------ clean_text

  /** The characters of the class `[\*\_\#\[\]]`. */
  predicate IsNoise(c: char)
  {
    c == '*' || c == '_' || c == '#' || c == '[' || c == ']'
  }

  /** The characters of `s` that are not whitespace, in order. */
  function NonSpace(s: string): (r: string)
    ensures |r| <= |s|
  {
    if s == [] then []
    else if IsSpace(s[|s| - 1]) then NonSpace(s[..|s| - 1])
    else NonSpace(s[..|s| - 1]) + [s[|s| - 1]]
  }

  /** `re.sub(r'\s+', ' ', s)`: every maximal run of whitespace becomes one
      space (see CollapseRun, CollapseSpacing and CollapseKeepsText). */
  function Collapse(s: string): (r: string)
    ensures |r| <= |s|
  {
    if s == [] then []
    else
      var r := Collapse(s[..|s| - 1]);
      var c := s[|s| - 1];
      if !IsSpace(c) then r + [c]
      else if r != [] && IsSpace(r[|r| - 1]) then r
      else r + [' ']
  }

  /** Only plain spaces are left as whitespace. */
  predicate PlainSpaces(s: string)
  {
    forall i :: 0 <= i < |s| && IsSpace(s[i]) ==> s[i] == ' '
  }

  /** No two whitespace characters are adjacent. */
  predicate NoAdjacentSpaces(s: string)
  {
    forall i :: 0 <= i < |s| - 1 ==> !(IsSpace(s[i]) && IsSpace(s[i + 1]))
  }

  /** The collapsed text ends in whitespace exactly when the text does. */
  lemma {:induction false} CollapseEnd(s: string)
    requires s != []
    ensures var r := Collapse(s); r != [] && (IsSpace(r[|r| - 1]) <==> IsSpace(s[|s| - 1]))
  {
    var init := s[..|s| - 1];
    if init != [] {
      CollapseEnd(init);
    }
  }

  /** Appending a non-space, or a plain space after a non-space, keeps
      the spacing properties. */
  lemma AppendKeepsSpacing(r: string, c: char)
    requires PlainSpaces(r) && NoAdjacentSpaces(r)
    requires !IsSpace(c) || (c == ' ' && (r == [] || !IsSpace(r[|r| - 1])))
    ensures PlainSpaces(r + [c]) && NoAdjacentSpaces(r + [c])
  {
    var t := r + [c];
    assert forall i :: 0 <= i < |r| ==> t[i] == r[i];
    assert t[|r|] == c;
  }

  /** The collapsed text has only plain spaces as whitespace and never two
      in a row. */
  lemma {:induction false} CollapseSpacing(s: string)
    ensures PlainSpaces(Collapse(s)) && NoAdjacentSpaces(Collapse(s))
  {
    if s != [] {
      var init := s[..|s| - 1];
      var r := Collapse(init);
      var c := s[|s| - 1];
      CollapseSpacing(init);
      if !IsSpace(c) {
        AppendKeepsSpacing(r, c);
      } else if r != [] && IsSpace(r[|r| - 1]) {
      } else {
        AppendKeepsSpacing(r, ' ');
      }
    }
  }

  /** Collapsing keeps every other character, in order. */
  lemma {:induction false} CollapseKeepsText(s: string)
    ensures NonSpace(Collapse(s)) == NonSpace(s)
  {
    if s != [] {
      var init := s[..|s| - 1];
      var r := Collapse(init);
      var c := s[|s| - 1];
      CollapseKeepsText(init);
      if !IsSpace(c) {
        assert (r + [c])[..|r|] == r;
      } else if r != [] && IsSpace(r[|r| - 1]) {
      } else {
        assert (r + [' '])[..|r|] == r;
      }
    }
  }

  /** All of `w` is whitespace, and there is some. */
  predicate WhitespaceRun(w: string)
  {
    w != [] && forall i :: 0 <= i < |w| ==> IsSpace(w[i])
  }

  /** A whitespace run at the end, after text that does not end in
      whitespace, becomes one space. */
  lemma {:induction false} CollapseTrailingRun(a: string, w: string)
    requires WhitespaceRun(w)
    requires a == [] || !IsSpace(a[|a| - 1])
    ensures Collapse(a + w) == Collapse(a) + [' ']
  {
    var s := a + w;
    var init := w[..|w| - 1];
    assert s[..|s| - 1] == a + init;
    assert s[|s| - 1] == w[|w| - 1];
    if init == [] {
      assert a + init == a;
      if a != [] {
        CollapseEnd(a);
      }
    } else {
      assert WhitespaceRun(init) by {
        assert forall i :: 0 <= i < |init| ==> init[i] == w[i];
      }
      CollapseTrailingRun(a, init);
    }
  }

  /** What Collapse does with one more character `c` after the collapsed
      text `r`. */
  function CollapseStep(r: string, c: char): string
  {
    if !IsSpace(c) then r + [c] else if r != [] && IsSpace(r[|r| - 1]) then r else r + [' ']
  }

  lemma CollapseSnoc(s: string, c: char)
    ensures Collapse(s + [c]) == CollapseStep(Collapse(s), c)
  {
    assert (s + [c])[..|s|] == s;
  }

  /** A step after a non-empty text only looks at that text. */
  lemma StepAfter(p: string, q: string, c: char)
    requires q != []
    ensures CollapseStep(p + q, c) == p + CollapseStep(q, c)
  {
    assert (p + q)[|p + q| - 1] == q[|q| - 1];
  }

  /** Text that starts with a non-space collapses on its own. */
  lemma {:induction false} CollapseConcat(x: string, y: string)
    requires y == [] || !IsSpace(y[0])
    ensures Collapse(x + y) == Collapse(x) + Collapse(y)
  {
    if y == [] {
      assert x + y == x;
    } else {
      var init := y[..|y| - 1];
      var c := y[|y| - 1];
      assert y == init + [c];
      assert x + y == (x + init) + [c];
      CollapseSnoc(x + init, c);
      CollapseSnoc(init, c);
      CollapseConcat(x, init);
      if init == [] {
        assert x + init == x;
      } else {
        CollapseEnd(init);
        StepAfter(Collapse(x), Collapse(init), c);
      }
    }
  }

  /** A maximal run of whitespace between two texts becomes exactly one
      space: the result is the collapsed texts on either side of it. */
  lemma CollapseRun(a: string, w: string, b: string)
    requires WhitespaceRun(w)
    requires a == [] || !IsSpace(a[|a| - 1])
    requires b == [] || !IsSpace(b[0])
    ensures Collapse(a + w + b) == Collapse(a) + [' '] + Collapse(b)
  {
    CollapseTrailingRun(a, w);
    CollapseConcat(a + w, b);
  }

  /** The whitespace step `re.sub(r'\s+', ' ', text).strip()`. */
  function Normalize(s: string): (r: string)
    ensures |r| <= |s|
  {
    Strip(Collapse(s))
  }

  /** A slice of a text keeps its spacing properties. */
  lemma SliceKeepsSpacing(c: string, a: int, b: int)
    requires 0 <= a <= b <= |c|
    requires PlainSpaces(c) && NoAdjacentSpaces(c)
    ensures PlainSpaces(c[a..b]) && NoAdjacentSpaces(c[a..b])
  {
    var r := c[a..b];
    assert forall i :: 0 <= i < |r| ==> r[i] == c[a + i];
  }

  /** The text after the whitespace step: no whitespace at either end, none
      twice in a row, and only plain spaces. */
  predicate Normalized(r: string)
  {
    && (r == [] || (!IsSpace(r[0]) && !IsSpace(r[|r| - 1])))
    && NoAdjacentSpaces(r) && PlainSpaces(r)
  }

  /** The whitespace step leaves a normalized text. */
  lemma NormalizeFacts(s: string)
    ensures Normalized(Normalize(s))
  {
    var c := Collapse(s);
    CollapseSpacing(s);
    var a, b := StripSlice(c);
    SliceKeepsSpacing(c, a, b);
  }

  /** A text whose whitespace is single plain spaces is its own collapse. */
  lemma {:induction false} CollapseKeepsCollapsed(s: string)
    requires PlainSpaces(s) && NoAdjacentSpaces(s)
    ensures Collapse(s) == s
  {
    if s != [] {
      var init := s[..|s| - 1];
      SliceKeepsSpacing(s, 0, |s| - 1);
      CollapseKeepsCollapsed(init);
      assert s == init + [s[|s| - 1]];
      if IsSpace(s[|s| - 1]) && init != [] {
        assert !IsSpace(s[|s| - 2]);
      }
    }
  }

  /** A normalized text is left alone by the whitespace step, so the step
      is idempotent. */
  lemma NormalizeKeepsNormalized(s: string)
    requires Normalized(s)
    ensures Normalize(s) == s
  {
    CollapseKeepsCollapsed(s);
    StripKeepsStripped(s);
  }

  lemma NormalizeIdempotent(s: string)
    ensures Normalize(Normalize(s)) == Normalize(s)
  {
    NormalizeFacts(s);
    NormalizeKeepsNormalized(Normalize(s));
  }

  /** `re.sub(r'[\*\_\#\[\]]+', '', s)`: every noise character deleted. */
  function RemoveNoise(s: string): (r: string)
    ensures |r| <= |s|
    ensures forall i :: 0 <= i < |r| ==> !IsNoise(r[i])
  {
    if s == [] then []
    else if IsNoise(s[|s| - 1]) then RemoveNoise(s[..|s| - 1])
    else RemoveNoise(s[..|s| - 1]) + [s[|s| - 1]]
  }

  /** `clean_text`: "" for `None` or "", else the normalized text with the
      noise characters deleted. */
  function CleanText(text: Option<string>): (r: string)
    ensures text == None || text == Some("") ==> r == ""
    ensures text.Some? ==> |r| <= |text.value|
    ensures forall i :: 0 <= i < |r| ==> !IsNoise(r[i])
  {
    match text
    case None => ""
    case Some(t) => if t == "" then "" else RemoveNoise(Normalize(t))
  }

  /** Deleting noise keeps every other character, in order: a text without
      noise is left alone, and deleting twice is deleting once. */
  lemma {:induction false} RemoveNoiseKeepsClean(s: string)
    ensures (forall i :: 0 <= i < |s| ==> !IsNoise(s[i])) ==> RemoveNoise(s) == s
    ensures RemoveNoise(RemoveNoise(s)) == RemoveNoise(s)
  {
    if s != [] {
      var init := s[..|s| - 1];
      RemoveNoiseKeepsClean(init);
      if (forall i :: 0 <= i < |s| ==> !IsNoise(s[i])) {
        assert forall i :: 0 <= i < |init| ==> init[i] == s[i];
        assert s == init + [s[|s| - 1]];
      }
      RemoveNoiseAppend(RemoveNoise(init), s[|s| - 1]);
    }
  }

  /** Deleting noise from a text with one more character at its end. */
  lemma RemoveNoiseAppend(s: string, c: char)
    ensures RemoveNoise(s + [c]) == if IsNoise(c) then RemoveNoise(s) else RemoveNoise(s) + [c]
  {
    assert (s + [c])[..|s|] == s;
  }

  /** Deleting noise from two texts one after the other. */
  lemma {:induction false} RemoveNoiseConcat(s: string, t: string)
    ensures RemoveNoise(s + t) == RemoveNoise(s) + RemoveNoise(t)
  {
    if t != [] {
      var init := t[..|t| - 1];
      RemoveNoiseConcat(s, init);
      assert (s + t)[..|s + t| - 1] == s + init;
    } else {
      assert s + t == s;
    }
  }

  /** Deleting noise from one character. */
  lemma RemoveNoiseChar(c: char)
    ensures RemoveNoise([c]) == if IsNoise(c) then [] else [c]
  {
    assert [c][..0] == [];
  }

  /** Deleting the `*` of `x * y` leaves two spaces. */
  lemma RemoveNoiseExample(x: char, y: char)
    requires !IsNoise(x) && !IsNoise(y)
    ensures RemoveNoise([x, ' ', '*', ' ', y]) == [x, ' ', ' ', y]
  {
    var s1 := [x];
    var s2 := s1 + [' '];
    var s3 := s2 + ['*'];
    var s4 := s3 + [' '];
    assert s4 + [y] == [x, ' ', '*', ' ', y];
    RemoveNoiseChar(x);
    RemoveNoiseAppend(s1, ' ');
    assert RemoveNoise(s2) == [x, ' '];
    RemoveNoiseAppend(s2, '*');
    RemoveNoiseAppend(s3, ' ');
    assert RemoveNoise(s4) == [x, ' '] + [' '];
    RemoveNoiseAppend(s4, y);
    assert [x, ' '] + [' '] + [y] == [x, ' ', ' ', y];
  }

  /** The normalization does not carry over to the cleaned text: deleting a
      noise character between two spaces leaves them adjacent, as in
      "a * b", which is cleaned to "a  b". */
  lemma NoiseLeavesAdjacentSpaces(x: char, y: char)
    requires !IsSpace(x) && !IsNoise(x) && !IsSpace(y) && !IsNoise(y)
    ensures CleanText(Some([x, ' ', '*', ' ', y])) == [x, ' ', ' ', y]
    ensures !NoAdjacentSpaces(CleanText(Some([x, ' ', '*', ' ', y])))
  {
    var s := [x, ' ', '*', ' ', y];
    assert IsSpace(' ') && !IsSpace('*');
    assert Normalized(s);
    NormalizeKeepsNormalized(s);
    RemoveNoiseExample(x, y);
    var r := CleanText(Some(s));
    assert IsSpace(r[1]) && IsSpace(r[2]);
  }

  // ------------------------------------------------------- marker slicing

  const StartMarker: string := "*** START OF"
  const EndMarker: string := "*** END OF"
  const PreviewLength: nat := 2000

  /** The slicing of `get_gutenberg_preview`: from the first START marker
      on, when there is one, and then up to the first END marker after it,
      when there is one. */
  function SliceMarkers(content: string): string
  {
    SliceBetween(content, StartMarker, EndMarker)
  }

  /** The slicing for any pair of markers. */
  function SliceBetween(content: string, start: string, end: string): (r: string)
    ensures |r| <= |content|
  {
    var startIdx := Find(content, start);
    if startIdx != -1 then
      var rest := content[startIdx..];
      var endIdx := Find(rest, end);
      if endIdx != -1 then rest[..endIdx] else rest
    else content
  }

  /** An END marker cannot begin inside a START marker. */
  lemma EndNotInsideStart(rest: string, k: int)
    requires OccursAt(rest, StartMarker, 0)
    requires 0 <= k < |StartMarker|
    ensures !OccursAt(rest, EndMarker, k)
  {
    assert rest[..|StartMarker|] == StartMarker;
    var j := if k < 3 then k + 4 else k;
    assert rest[j] == StartMarker[j] != EndMarker[j - k];
    if k + |EndMarker| <= |rest| {
      assert rest[k..k + |EndMarker|][j - k] == rest[j];
    }
  }

  /** Text cut before the first occurrence of a pattern (or not cut, when
      there is none) holds no occurrence of it. */
  lemma CutBeforeFirst(rest: string, pat: string)
    requires pat != []
    ensures var e := Find(rest, pat); var cut := if e != -1 then rest[..e] else rest;
      forall p :: 0 <= p <= |cut| ==> !OccursAt(cut, pat, p)
  {
    var e := Find(rest, pat);
    var cut := if e != -1 then rest[..e] else rest;
    forall p | 0 <= p <= |cut| ensures !OccursAt(cut, pat, p) {
      if OccursAt(cut, pat, p) {
        assert rest[p..p + |pat|] == cut[p..p + |pat|];
        assert OccursAt(rest, pat, p);
      }
    }
  }

  /** An occurrence in a suffix is an occurrence in the whole text. */
  lemma OccursInSuffix(content: string, k: int, pat: string, e: int)
    requires 0 <= k <= |content| && OccursAt(content[k..], pat, e)
    ensures OccursAt(content, pat, k + e)
  {
    assert content[k + e..k + e + |pat|] == content[k..][e..e + |pat|];
  }

  /** With no START the content is whole.  With one, the slice is the
      content from the first START on, cut at the first END after it or else
      running to the end. */
  lemma SliceBetweenPlace(content: string, start: string, end: string)
    ensures Find(content, start) == -1 ==> SliceBetween(content, start, end) == content
    ensures Find(content, start) != -1 ==>
      var k := Find(content, start);
      var r := SliceBetween(content, start, end);
      && k + |r| <= |content| && r == content[k..k + |r|]
      && (k + |r| == |content| || OccursAt(content, end, k + |r|))
  {
    var k := Find(content, start);
    if k != -1 {
      var rest := content[k..];
      var e := Find(rest, end);
      var r := SliceBetween(content, start, end);
      if e != -1 {
        assert r == rest[..e];
        SliceOfSuffix(content, k, e);
        OccursInSuffix(content, k, end, e);
      } else {
        assert r == rest;
        SliceOfSuffix(content, k, |rest|);
      }
    }
  }

  /** The slice holds no END, and keeps the whole START when no END begins
      inside it. */
  lemma SliceBetweenContents(content: string, start: string, end: string)
    requires end != []
    ensures Find(content, start) != -1 ==>
      var k := Find(content, start);
      var r := SliceBetween(content, start, end);
      var e := Find(content[k..], end);
      && (forall p :: 0 <= p <= |r| ==> !OccursAt(r, end, p))
      && (e == -1 || |start| <= e ==> |start| <= |r| && r[..|start|] == start)
  {
    var k := Find(content, start);
    if k != -1 {
      var rest := content[k..];
      CutBeforeFirst(rest, end);
      var e := Find(rest, end);
      if e == -1 || |start| <= e {
        assert OccursAt(rest, start, 0);
        var r := SliceBetween(content, start, end);
        assert r[..|start|] == rest[..|start|];
      }
    }
  }

  /** Without a START marker the content is whole.  With one, the slice is
      the content from the first START marker on (the marker kept), cut at
      the first END marker after it or else running to the end, and it
      holds no END marker. */
  lemma SliceMarkersSpec(content: string)
    ensures Find(content, StartMarker) == -1 ==> SliceMarkers(content) == content
    ensures Find(content, StartMarker) != -1 ==>
      var k := Find(content, StartMarker);
      var r := SliceMarkers(content);
      && k + |r| <= |content| && r == content[k..k + |r|]
      && |StartMarker| <= |r| && r[..|StartMarker|] == StartMarker
      && (k + |r| == |content| || OccursAt(content, EndMarker, k + |r|))
      && forall p :: 0 <= p <= |r| ==> !OccursAt(r, EndMarker, p)
  {
    SliceBetweenPlace(content, StartMarker, EndMarker);
    SliceBetweenContents(content, StartMarker, EndMarker);
    var k := Find(content, StartMarker);
    if k != -1 {
      var rest := content[k..];
      assert OccursAt(rest, StartMarker, 0);
      var e := Find(rest, EndMarker);
      if 0 <= e < |StartMarker| {
        EndNotInsideStart(rest, e);
      }
    }
  }

  /** The preview text of the Gutenberg fragment: the sliced book text,
      cleaned and cut to its first 2000 characters. */
  function GutenbergText(content: string): (r: string)
    ensures |r| <= PreviewLength
    ensures forall i :: 0 <= i < |r| ==> !IsNoise(r[i])
    ensures var c := CleanText(Some(SliceMarkers(content)));
      && |r| <= |c| && r == c[..|r|] && (|c| <= PreviewLength ==> r == c)
      && |r| == if |c| <= PreviewLength then |c| else PreviewLength
  {
    Take(CleanText(Some(SliceMarkers(content))), PreviewLength)
  }

  // ------------------------------------------------------------- fragments

  function Spaces(n: nat): (r: string)
    ensures |r| == n && forall i :: 0 <= i < n ==> r[i] == ' '
  {
    seq(n, _ => ' ')
  }

  const Open: string := "<div class=\"preview-content\">\n"

  /** The opening of the Gutenberg fragment, up to its preview text. */
  function GutenbergHead(): (r: string)
    ensures |r| > 42 && r[42] == ' '
  {
    Open + Spaces(20) + "<p class=\"preview-source\">Source: Project Gutenberg</p>\n"
    + Spaces(20) + "<div class=\"preview-text\">"
  }

  /** The rest of the Gutenberg fragment, after its preview text. */
  function GutenbergTail(bookId: string): string
  {
    "</div>\n"
    + Spaces(20) + "<p class=\"preview-link\">\n"
    + Spaces(24) + "<a href=\"https://www.gutenberg.org/ebooks/" + bookId + "\" target=\"_blank\">\n"
    + Spaces(28) + "Read full text on Project Gutenberg\n"
    + Spaces(24) + "</a>\n"
    + Spaces(20) + "</p>\n"
    + Spaces(16) + "</div>"
  }

  /** The Gutenberg fragment for a preview text and a book id. */
  function GutenbergHtml(preview: string, bookId: string): (r: string)
    ensures |r| > 42 && r[42] == ' '
  {
    GutenbergHead() + preview + GutenbergTail(bookId)
  }

  /** The opening of the Google Books fragment, up to its preview text. */
  function GoogleHead(): (r: string)
    ensures |r| > 42 && r[42] == ' '
  {
    Open + Spaces(16) + "<p class=\"preview-source\">Source: Google Books</p>\n"
    + Spaces(16) + "<div class=\"preview-text\">"
  }

  /** The rest of the Google Books fragment, after its preview text; the
      link paragraph only for a truthy `previewLink`. */
  function GoogleTail(link: Option<string>): string
  {
    var linkBlock :=
      if link.Some? && link.value != "" then
        "\n" + Spaces(16) + "<p class=\"preview-link\">\n"
        + Spaces(20) + "<a href=\"" + link.value + "\" target=\"_blank\">View on Google Books</a>\n"
        + Spaces(16) + "</p>"
      else "";
    "</div>" + linkBlock + "</div>"
  }

  /** The Google Books fragment for a preview text and a preview link. */
  function GoogleHtml(preview: string, link: Option<string>): (r: string)
    ensures |r| > 42 && r[42] == ' '
  {
    GoogleHead() + preview + GoogleTail(link)
  }

  /** The fragment shown when no source has a preview.  Character 42 tells
      it from the other two: `<` here, a space in theirs. */
  function Placeholder(): (r: string)
    ensures |r| > 42 && r[42] == '<'
  {
    Open + Spaces(12) + "<p class=\"preview-unavailable\">\n"
    + Spaces(16) + "Preview not available for this book.\n"
    + Spaces(12) + "</p>\n"
    + Spaces(8) + "</div>"
  }

  /** The middle of `head + text + tail` is `text`. */
  lemma MiddleReadBack(head: string, text: string, tail: string)
    ensures var h := head + text + tail;
      |head| + |text| <= |h| && h[|head|..|head| + |text|] == text
  {
    var h := head + text + tail;
    assert forall i :: 0 <= i < |text| ==> h[|head| + i] == text[i];
  }

  /** Each fragment carries its preview text right after its fixed opening,
      so the text can be read back out of it. */
  lemma PreviewTextReadBack(preview: string, bookId: string, link: Option<string>)
    ensures var h := GutenbergHtml(preview, bookId); var n := |GutenbergHead()|;
      n + |preview| <= |h| && h[n..n + |preview|] == preview
    ensures var h := GoogleHtml(preview, link); var n := |GoogleHead()|;
      n + |preview| <= |h| && h[n..n + |preview|] == preview
  {
    MiddleReadBack(GutenbergHead(), preview, GutenbergTail(bookId));
    MiddleReadBack(GoogleHead(), preview, GoogleTail(link));
  }

  // ---------------------------------------------------------------- sources

  /** What `get_gutenberg_preview` meets: an exception (in the search
      request or the parse), no `li.booklink` result, a result without a
      link, or the link's `href` with the status and text of the book's text
      file. */
  datatype GutenbergFetch =
    | GutenbergFailed
    | NoResult
    | NoLink
    | BookText(href: string, status: int, text: string)

  /** `book_link['href'].split('/')[-1]` */
  function BookId(href: string): (r: string)
    ensures '/' !in r && |r| <= |href| && r == href[|href| - |r|..]
    ensures |r| == |href| || href[|href| - |r| - 1] == '/'
  {
    LastSegment(href, '/')
  }

  /** `f"{title} {author}".replace(' ', '+')`, the search query. */
  function SearchQuery(title: string, author: string): (r: string)
    ensures |r| == |title| + 1 + |author| && ' ' !in r
    ensures r[|title|] == '+'
    ensures forall i :: 0 <= i < |title| ==> r[i] == if title[i] == ' ' then '+' else title[i]
    ensures forall i :: 0 <= i < |author| ==>
      r[|title| + 1 + i] == if author[i] == ' ' then '+' else author[i]
  {
    var joined := title + " " + author;
    assert forall i :: 0 <= i < |title| ==> joined[i] == title[i];
    assert forall i :: 0 <= i < |author| ==> joined[|title| + 1 + i] == author[i];
    ReplaceChar(joined, ' ', '+')
  }

  /** `get_gutenberg_preview`: the fragment when the text file answered 200,
      else `None`. */
  function GutenbergPreview(fetch: GutenbergFetch): (r: Option<string>)
    ensures r.Some? <==> fetch.BookText? && fetch.status == 200
    ensures r.Some? ==> r.value != "" && r.value != Placeholder()
    ensures r.Some? ==> r.value == GutenbergHtml(GutenbergText(fetch.text), BookId(fetch.href))
  {
    match fetch
    case BookText(href, status, text) =>
      if status == 200 then Some(GutenbergHtml(GutenbergText(text), BookId(href))) else None
    case _ => None
  }

  /** The `volumeInfo` fields read: absent or null is `None`. */
  datatype VolumeInfo = VolumeInfo(description: Option<string>, previewLink: Option<string>)

  /** An item of the `items` list; `None` when it has no `volumeInfo`. */
  datatype Item = Item(volumeInfo: Option<VolumeInfo>)

  /** What `get_google_preview` meets: an exception in the request, or the
      status and the `items` list (`None` when absent or null). */
  datatype GoogleFetch =
    | GoogleFailed
    | GoogleResponse(status: int, items: Option<seq<Item>>)

  /** `get_google_preview`: the fragment for the first item's description,
      or `None` for a bad status, no items, a first item without
      `volumeInfo` (a KeyError), or a missing or empty description. */
  function GooglePreview(fetch: GoogleFetch): (r: Option<string>)
    ensures r.Some? ==> r.value != "" && r.value != Placeholder()
    ensures r.Some? ==> && fetch.GoogleResponse? && fetch.status == 200
                        && fetch.items.Some? && |fetch.items.value| > 0
                        && fetch.items.value[0].volumeInfo.Some?
                        && var info := fetch.items.value[0].volumeInfo.value;
                           && info.description.Some? && info.description.value != ""
                           && r.value == GoogleHtml(CleanText(info.description), info.previewLink)
  {
    match fetch
    case GoogleFailed => None
    case GoogleResponse(status, items) =>
      if status != 200 then None
      else if items.None? || items.value == [] then None
      else
        match items.value[0].volumeInfo
        case None => None
        case Some(info) =>
          if info.description.None? || info.description.value == "" then None
          else Some(GoogleHtml(CleanText(info.description), info.previewLink))
  }

  /** A Google answer that has all it needs gives its fragment. */
  lemma GooglePreviewFound(status: int, first: VolumeInfo, rest: seq<Item>)
    requires status == 200 && first.description.Some? && first.description.value != ""
    ensures GooglePreview(GoogleResponse(status, Some([Item(Some(first))] + rest))) ==
            Some(GoogleHtml(CleanText(first.description), first.previewLink))
  {
    assert ([Item(Some(first))] + rest)[0] == Item(Some(first));
  }

  /** `book.isbn` is truthy. */
  predicate HasIsbn(isbn: Option<string>)
  {
    isbn.Some? && isbn.value != ""
  }

  /** A fragment is a truthy answer. */
  predicate Truthy(preview: Option<string>)
  {
    preview.Some? && preview.value != ""
  }

  /** The choice of `get_preview_content` between the two answers: the
      Gutenberg one if truthy, else the Google Books one when the book has
      an ISBN and that answer is truthy, else the placeholder. */
  function ChoosePreview(gutenberg: Option<string>, hasIsbn: bool, google: Option<string>): (r: string)
    ensures r != ""
    ensures Truthy(gutenberg) ==> r == gutenberg.value
    ensures !Truthy(gutenberg) && hasIsbn && Truthy(google) ==> r == google.value
    ensures !Truthy(gutenberg) && (!hasIsbn || !Truthy(google)) ==> r == Placeholder()
  {
    var preview := gutenberg;
    var preview := if !Truthy(preview) && hasIsbn then google else preview;
    if Truthy(preview) then preview.value else Placeholder()
  }

  /** `get_preview_content` for the answers of the two sources. */
  function GetPreviewContent(gutenberg: GutenbergFetch, isbn: Option<string>, google: GoogleFetch): (r: string)
    ensures r != ""
  {
    ChoosePreview(GutenbergPreview(gutenberg), HasIsbn(isbn), GooglePreview(google))
  }

  /** The fallback order: the Gutenberg fragment, else the Google Books
      fragment for a book with an ISBN, else the placeholder; and the
      placeholder exactly when neither applies. */
  lemma PreviewFallback(gutenberg: GutenbergFetch, isbn: Option<string>, google: GoogleFetch)
    ensures var r := GetPreviewContent(gutenberg, isbn, google);
      && (GutenbergPreview(gutenberg).Some? ==> r == GutenbergPreview(gutenberg).value)
      && (GutenbergPreview(gutenberg).None? && HasIsbn(isbn) && GooglePreview(google).Some? ==>
            r == GooglePreview(google).value)
      && (r == Placeholder() <==>
            GutenbergPreview(gutenberg).None? && (!HasIsbn(isbn) || GooglePreview(google).None?))
  {
    var g := GutenbergPreview(gutenberg);
    var b := GooglePreview(google);
    assert GetPreviewContent(gutenberg, isbn, google) == ChoosePreview(g, HasIsbn(isbn), b);
    ChoiceFallback(g, HasIsbn(isbn), b);
  }

  /** The fallback order for answers that are either absent or a
      fragment other than the placeholder. */
  lemma ChoiceFallback(g: Option<string>, hasIsbn: bool, b: Option<string>)
    requires g.Some? ==> g.value != "" && g.value != Placeholder()
    requires b.Some? ==> b.value != "" && b.value != Placeholder()
    ensures var r := ChoosePreview(g, hasIsbn, b);
      && (g.Some? ==> r == g.value)
      && (g.None? && hasIsbn && b.Some? ==> r == b.value)
      && (r == Placeholder() <==> g.None? && (!hasIsbn || b.None?))
  {
  }

  /** Without an ISBN Google Books is never asked: its answer does not
      matter. */
  lemma NoIsbnIgnoresGoogle(gutenberg: GutenbergFetch, isbn: Option<string>, a: GoogleFetch, b: GoogleFetch)
    requires !HasIsbn(isbn)
    ensures GetPreviewContent(gutenberg, isbn, a) == GetPreviewContent(gutenberg, isbn, b)
  {
  }

  /** A Gutenberg fragment wins over any Google Books answer. */
  lemma GutenbergFirst(gutenberg: GutenbergFetch, isbn: Option<string>, a: GoogleFetch, b: GoogleFetch)
    requires GutenbergPreview(gutenberg).Some?
    ensures GetPreviewContent(gutenberg, isbn, a) == GetPreviewContent(gutenberg, isbn, b)
  {
  }
}
