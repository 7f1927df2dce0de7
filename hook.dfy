/**
 * The page hook: out-of-scope pages pass through; blog posts lose their
 * old excerpt markers, gain a fallback lead image when they have none, and
 * get one excerpt marker after the paragraph under `## Description` (or
 * under the title).
 */
module Hook {
  import opened Text
  import opened Classify
  import opened Markers
  import opened Scan

  const FallbackImage: string := "![FIT Orb](../../assets/orb.png)"

  /** Front-matter keys whose presence means the post declares its own image. */
  const ImageMetaKeys: set<string> :=
    {"image", "cover", "banner", "thumbnail", "hero", "featured_image", "featured-image", "og_image"}

  /** The inserted list element: the marker padded by its own newlines. */
  const ExcerptMarker: string := "\n<!-- more -->\n"

  const PostsPrefix: string := "blog/posts/"

  /** The page's source path, with `\` read as `/`, lies under `blog/posts/`. */
  predicate InScope(srcPath: string) {
    StartsWith(NormalizeSeparators(srcPath), PostsPrefix)
  }

  /** The front matter declares one of the image keys. */
  predicate HasMetaImage(metaKeys: set<string>) {
    exists key :: key in ImageMetaKeys && key in metaKeys
  }

  // ---------------------------------------------------------------------
  // Step 2: the fallback lead image.

  /** Where the fallback goes: before the first H1, or at the top without one. */
  ghost function FallbackPosition(lines: seq<string>): nat {
    var h := First(lines, 0, IsH1);
    if h < |lines| then h else 0
  }

  /** The lines after the fallback step. */
  ghost function WithFallback(lines: seq<string>, metaKeys: set<string>): seq<string> {
    if HasMetaImage(metaKeys) || LeadImage(lines) then lines
    else
      var h := FallbackPosition(lines);
      lines[..h] + [FallbackImage, ""] + lines[h..]
  }

  /** Lines 206-218 of `on_page_markdown`. */
  method AddFallbackImage(lines: seq<string>, metaKeys: set<string>) returns (r: seq<string>)
    ensures r == WithFallback(lines, metaKeys)
  {
    r := lines;
    var hasMetaImage := HasMetaImage(metaKeys);
    var lead := HasLeadImage(lines);
    if !hasMetaImage && !lead {
      r := InsertFallbackImage(r);
    }
  }

  /** Lines 211-218: the image and a blank line go in before the first H1, or at the top. */
  method InsertFallbackImage(lines: seq<string>) returns (r: seq<string>)
    ensures var h := FallbackPosition(lines);
      h <= |lines| && r == lines[..h] + [FallbackImage, ""] + lines[h..]
  {
    r := lines;
    var h1Idx := FindH1Index(r);
    if h1Idx.Some? {
      FirstIsLeast(lines, 0, IsH1, h1Idx.value);
      InsertTwice(r, h1Idx.value, FallbackImage, "");
      r := Insert(r, h1Idx.value, FallbackImage);
      r := Insert(r, h1Idx.value + 1, "");
    } else {
      FirstIsLeast(lines, 0, IsH1, |lines|);
      InsertTwice(r, 0, FallbackImage, "");
      r := Insert(r, 0, FallbackImage);
      r := Insert(r, 1, "");
    }
  }

  // ---------------------------------------------------------------------
  // Step 3: the excerpt marker.

  /** Below `## Description` if there is one, else below the first H1, else the top. */
  ghost function ExcerptAnchor(lines: seq<string>): (i: nat)
    ensures i <= |lines|
  {
    var d := First(lines, 0, IsDescriptionH2);
    if d < |lines| then d + 1
    else
      var h := First(lines, 0, IsH1);
      if h < |lines| then h + 1 else 0
  }

  /** From `i`, skip blank lines, then one image line and the blank lines after it. */
  ghost function SkipLeadingImage(lines: seq<string>, i: nat): (k: nat)
    requires i <= |lines|
    ensures i <= k <= |lines|
  {
    var b := First(lines, i, IsNonBlank);
    if b < |lines| && IsImage(lines[b]) then First(lines, b + 1, IsNonBlank) else b
  }

  /** Where the search for the excerpt paragraph starts. */
  ghost function ContentSearchStart(lines: seq<string>): nat {
    SkipLeadingImage(lines, ExcerptAnchor(lines))
  }

  /** The lines after the excerpt step. */
  ghost function WithExcerptMarker(lines: seq<string>): seq<string> {
    var c := First(lines, ContentSearchStart(lines), IsContent);
    if c == |lines| then lines else InsertExcerptMarker(lines, First(lines, c, IsBreak))
  }

  /** `_insert_excerpt_marker(lines, position)` */
  function InsertExcerptMarker(lines: seq<string>, position: int): (r: seq<string>)
    ensures |r| == |lines| + 1
    ensures 0 <= position <= |lines| ==>
      r[position] == ExcerptMarker && r[..position] == lines[..position] && r[position + 1..] == lines[position..]
  {
    Insert(lines, position, ExcerptMarker)
  }

  /**
   * Lines 221-226 and 244-245 of `on_page_markdown`: the line after
   * `## Description`, else after the first H1, else the top.
   */
  method FindExcerptAnchor(lines: seq<string>) returns (i: nat)
    ensures i == ExcerptAnchor(lines)
  {
    var descIdx := FindDescriptionH2Index(lines);
    if descIdx.Some? {
      FirstIsLeast(lines, 0, IsDescriptionH2, descIdx.value);
      i := descIdx.value + 1;
    } else {
      FirstIsLeast(lines, 0, IsDescriptionH2, |lines|);
      var h1Idx := FindH1Index(lines);
      if h1Idx.Some? {
        FirstIsLeast(lines, 0, IsH1, h1Idx.value);
        i := h1Idx.value + 1;
      } else {
        FirstIsLeast(lines, 0, IsH1, |lines|);
        i := 0;
      }
    }
  }

  /**
   * The loop `while i < len(lines) and _is_blank(lines[i]): i += 1`, which
   * `on_page_markdown` runs at lines 227-228, 233-234, 249-250 and 255-256.
   */
  method SkipBlankLines(lines: seq<string>, start: nat) returns (i: nat)
    requires start <= |lines|
    ensures i == First(lines, start, IsNonBlank)
  {
    i := start;
    while i < |lines| && IsBlank(lines[i])
      invariant start <= i <= |lines|
      invariant forall j :: start <= j < i ==> IsBlank(lines[j])
    {
      i := i + 1;
    }
    FirstIsLeast(lines, start, IsNonBlank, i);
  }

  /**
   * Lines 221-234 and 244-256 of `on_page_markdown`: the two branches run the
   * same skipping code and differ only in the index they start from.
   */
  method FindContentSearchStart(lines: seq<string>) returns (i: nat)
    ensures i == ContentSearchStart(lines)
  {
    var anchor := FindExcerptAnchor(lines);
    i := SkipBlankLines(lines, anchor);
    if i < |lines| && IsImage(lines[i]) {
      i := i + 1;
      i := SkipBlankLines(lines, i);
    }
  }

  /** Lines 220-262 of `on_page_markdown`. */
  method PlaceExcerptMarker(lines: seq<string>) returns (r: seq<string>)
    ensures r == WithExcerptMarker(lines)
  {
    var i := FindContentSearchStart(lines);
    r := lines;
    var contentStart := FindFirstContentLine(lines, i);
    forall j | i <= j < |lines| ensures IsContent(lines[j]) <==> !IsStructural(lines[j]) {
      ContentIffNotStructural(lines[j]);
    }
    if contentStart.Some? {
      FirstIsLeast(lines, i, IsContent, contentStart.value);
      var paraEnd := FindParagraphEnd(lines, contentStart.value);
      FirstIsLeast(lines, contentStart.value, IsBreak, paraEnd);
      r := InsertExcerptMarker(lines, paraEnd);
    } else {
      FirstIsLeast(lines, i, IsContent, |lines|);
    }
  }

  // ---------------------------------------------------------------------
  // The hook.

  /** `on_page_markdown(markdown, page, config, files)`, with the page reduced to its path and metadata keys. */
  method OnPageMarkdown(markdown: string, srcPath: string, metaKeys: set<string>) returns (out: string)
    ensures !InScope(srcPath) ==> out == markdown
    ensures InScope(srcPath) ==>
      out == Join(WithExcerptMarker(WithFallback(Split(RemoveExcerptMarkers(markdown)), metaKeys)))
  {
    if !InScope(srcPath) {
      return markdown;
    }
    var stripped := RemoveExcerptMarkers(markdown);
    var lines := Split(stripped);
    lines := AddFallbackImage(lines, metaKeys);
    lines := PlaceExcerptMarker(lines);
    out := Join(lines);
  }
}
