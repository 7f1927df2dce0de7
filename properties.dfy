/**
 * What the two steps of the hook promise about the lines they rewrite, and
 * what the whole hook promises about its output text.
 */
module Properties {
  import opened Text
  import opened Classify
  import opened Markers
  import opened Scan
  import opened Hook

  /** For a path written with `/` only, the scope test is a plain prefix test. */
  lemma InScopeSlashPath(srcPath: string)
    requires '\\' !in srcPath
    ensures InScope(srcPath) <==> StartsWith(srcPath, PostsPrefix)
  {
    assert NormalizeSeparators(srcPath) == srcPath;
  }

  /** Writing the path's separators as `\` or as `/` does not change the scope test. */
  lemma InScopeEitherSeparator(srcPath: string)
    ensures InScope(NormalizeSeparators(srcPath)) <==> InScope(srcPath)
  {
    var n := NormalizeSeparators(srcPath);
    assert NormalizeSeparators(n) == n;
  }

  /** A line that starts with a non-space character is its own `lstrip()`. */
  lemma TrimLeftUnindented(s: string)
    requires s != [] && !IsSpace(s[0])
    ensures TrimLeft(s) == s
  {
    assert SpaceRun(s, 0) == 0;
  }

  /** A one-line string's image shape, given where its `]` and closing `)` sit. */
  lemma ImageWitness(r: string, j: nat, k: nat)
    requires 2 <= j && j + 2 <= k < |r| && NoNewline(r)
    requires r[0] == '!' && r[1] == '[' && r[j] == ']' && r[j + 1] == '(' && r[k] == ')'
    ensures ImageAt(r)
  {
    assert NoNewline(r[2..j]) && NoNewline(r[j + 2..k]) by {
      assert forall c :: c in r[2..j] || c in r[j + 2..k] ==> c in r;
    }
    assert ClosingParen(r, j + 2);
  }

  /** The fallback line holds no newline. */
  lemma FallbackImageOneLine()
    ensures NoNewline(FallbackImage)
  {
  }

  /** Where the fallback line's brackets and parentheses sit. */
  lemma FallbackImageShape()
    ensures |FallbackImage| == 32 && FallbackImage[0] == '!' && FallbackImage[1] == '['
    ensures FallbackImage[9] == ']' && FallbackImage[10] == '(' && FallbackImage[31] == ')'
  {
  }

  /** The fallback line is an image line. */
  lemma FallbackImageIsImage()
    ensures IsImage(FallbackImage)
  {
    var r := FallbackImage;
    FallbackImageOneLine();
    FallbackImageShape();
    TrimLeftUnindented(r);
    ImageWitness(r, 9, 31);
  }

  /** The fallback line is neither blank nor an H1 or H2 heading. */
  lemma FallbackImageNotHeading()
    ensures !IsH1(FallbackImage) && !IsH2(FallbackImage) && !IsBlank(FallbackImage)
  {
    var r := FallbackImage;
    TrimLeftUnindented(r);
    assert r[..1][0] == '!' && r[..2][0] == '!';
  }

  /**
   * The fallback step either leaves the lines alone (the metadata declares an
   * image, or there is a lead image), or inserts exactly the fallback image
   * and one blank line at the first H1 (at the top without an H1); the other
   * lines keep their order.
   */
  lemma FallbackShape(lines: seq<string>, metaKeys: set<string>)
    ensures HasMetaImage(metaKeys) || LeadImage(lines) ==> WithFallback(lines, metaKeys) == lines
    ensures !HasMetaImage(metaKeys) && !LeadImage(lines) ==>
      var r := WithFallback(lines, metaKeys);
      var h := FallbackPosition(lines);
      |r| == |lines| + 2 && r[h] == FallbackImage && r[h + 1] == ""
      && r[..h] + r[h + 2..] == lines
      && ((h < |lines| && IsH1(lines[h]) && forall j :: 0 <= j < h ==> !IsH1(lines[j]))
          || (h == 0 && forall j :: 0 <= j < |lines| ==> !IsH1(lines[j])))
  {
    if !HasMetaImage(metaKeys) && !LeadImage(lines) {
      var r := WithFallback(lines, metaKeys);
      var h := FallbackPosition(lines);
      assert r[..h] == lines[..h];
      assert r[h + 2..] == lines[h..];
      assert lines[..h] + lines[h..] == lines;
    }
  }

  /** The blank line inserted after the fallback is not an H1. */
  lemma EmptyLineNotH1()
    ensures !IsH1("")
  {
    assert TrimLeft("") == "";
  }

  /** Splicing two lines that fail `P` in front of the first `P` line moves it down by two. */
  lemma FirstPastSplice(lines: seq<string>, x: string, y: string, P: string -> bool)
    requires First(lines, 0, P) < |lines| && !P(x) && !P(y)
    ensures var h := First(lines, 0, P);
      var r := lines[..h] + [x, y] + lines[h..];
      First(r, 0, P) == h + 2 && r[h] == x && r[h + 1] == y
  {
    var h := First(lines, 0, P);
    var r := lines[..h] + [x, y] + lines[h..];
    assert r[h + 2] == lines[h];
    forall j | 0 <= j < h + 2 ensures !P(r[j]) {
      if j < h {
        assert r[j] == lines[j];
      }
    }
    FirstIsLeast(r, 0, P, h + 2);
  }

  /** The fallback image and its blank line, spliced in before the first H1, move it two lines down. */
  lemma SpliceMovesFirstH1(lines: seq<string>)
    requires First(lines, 0, IsH1) < |lines|
    ensures var h := First(lines, 0, IsH1);
      var r := lines[..h] + [FallbackImage, ""] + lines[h..];
      First(r, 0, IsH1) == h + 2 && r[h] == FallbackImage && r[h + 1] == ""
  {
    assert !IsH1(FallbackImage) && !IsH1("") by {
      FallbackImageNotHeading();
      EmptyLineNotH1();
    }
    FirstPastSplice(lines, FallbackImage, "", IsH1);
  }

  /**
   * When the fallback step inserts its lines into a post with an H1, the
   * first H1 sits two lines lower, right after the image and a blank line.
   */
  lemma FallbackBeforeFirstH1(lines: seq<string>, metaKeys: set<string>)
    requires WithFallback(lines, metaKeys) != lines
    requires First(lines, 0, IsH1) < |lines|
    ensures var r := WithFallback(lines, metaKeys);
      var h := First(lines, 0, IsH1);
      First(r, 0, IsH1) == h + 2 && r[h] == FallbackImage && r[h + 1] == ""
  {
    var h := First(lines, 0, IsH1);
    var r := lines[..h] + [FallbackImage, ""] + lines[h..];
    assert WithFallback(lines, metaKeys) == r;
    SpliceMovesFirstH1(lines);
  }

  /** Some line satisfies `P` with no `Q` line above it. */
  ghost predicate LeadBy(lines: seq<string>, P: string -> bool, Q: string -> bool) {
    exists i :: 0 <= i < |lines| && P(lines[i]) && forall j :: 0 <= j < i ==> !Q(lines[j])
  }

  /**
   * Splicing a `P` line (and any other line) into lines that have no `P` line
   * free of `Q` above it creates one exactly when no `Q` line precedes the splice.
   */
  lemma LeadBySplice(lines: seq<string>, h: nat, x: string, y: string, P: string -> bool, Q: string -> bool)
    requires h <= |lines| && P(x) && !LeadBy(lines, P, Q)
    ensures LeadBy(lines[..h] + [x, y] + lines[h..], P, Q) <==> forall j :: 0 <= j < h ==> !Q(lines[j])
  {
    var r := lines[..h] + [x, y] + lines[h..];
    if forall j :: 0 <= j < h ==> !Q(lines[j]) {
      forall j | 0 <= j < h ensures !Q(r[j]) {
        assert r[j] == lines[j];
      }
      assert r[h] == x;
    } else {
      var j0 :| 0 <= j0 < h && Q(lines[j0]);
      forall i | 0 <= i < |r| && P(r[i]) ensures exists j :: 0 <= j < i && Q(r[j]) {
        if i <= j0 {
          assert r[i] == lines[i];
          var j :| 0 <= j < i && Q(lines[j]);
          assert r[j] == lines[j];
        } else {
          assert r[j0] == lines[j0];
        }
      }
    }
  }

  /**
   * Once inserted, the fallback is a lead image exactly when no H2 line
   * comes before the place it was inserted: an H2 above the first H1 keeps
   * the post without a lead image.
   */
  lemma FallbackLeadImageIff(lines: seq<string>, metaKeys: set<string>)
    requires !HasMetaImage(metaKeys) && !LeadImage(lines)
    ensures LeadImage(WithFallback(lines, metaKeys))
      <==> forall j :: 0 <= j < FallbackPosition(lines) ==> !IsH2(lines[j])
  {
    var h := FallbackPosition(lines);
    var r := WithFallback(lines, metaKeys);
    FallbackImageIsImage();
    assert LeadImage(lines) <==> LeadBy(lines, IsImage, IsH2);
    assert LeadImage(r) <==> LeadBy(r, IsImage, IsH2);
    LeadBySplice(lines, h, FallbackImage, "", IsImage, IsH2);
  }

  /**
   * The excerpt search starts on the line after the first `## Description`
   * heading; without one, after the first H1; with neither, at the top.
   */
  lemma AnchorFollowsHeading(lines: seq<string>)
    ensures var i := ExcerptAnchor(lines);
      i == 0 <==> forall j :: 0 <= j < |lines| ==> !IsDescriptionH2(lines[j]) && !IsH1(lines[j])
    ensures var i := ExcerptAnchor(lines);
      (exists j :: 0 <= j < |lines| && IsDescriptionH2(lines[j])) ==>
        0 < i && IsDescriptionH2(lines[i - 1]) && forall j :: 0 <= j < i - 1 ==> !IsDescriptionH2(lines[j])
    ensures var i := ExcerptAnchor(lines);
      (forall j :: 0 <= j < |lines| ==> !IsDescriptionH2(lines[j])) && 0 < i ==>
        IsH1(lines[i - 1]) && forall j :: 0 <= j < i - 1 ==> !IsH1(lines[j])
  {
  }

  /** A line whose text starts with an image is not blank. */
  lemma ImageNotBlank(line: string)
    requires IsImage(line)
    ensures !IsBlank(line)
  {
  }

  /**
   * Skipping from `i` passes only blank lines and at most one image line,
   * and stops on a non-blank line or at the end.
   */
  lemma SkipsBlanksAndOneImage(lines: seq<string>, i: nat)
    requires i <= |lines|
    ensures var k := SkipLeadingImage(lines, i);
      (k == |lines| || !IsBlank(lines[k]))
      && (forall j :: i <= j < k ==> IsBlank(lines[j]) || IsImage(lines[j]))
      && (forall j1, j2 :: i <= j1 < j2 < k && IsImage(lines[j1]) ==> !IsImage(lines[j2]))
    ensures var k := SkipLeadingImage(lines, i);
      k < |lines| && IsImage(lines[k]) ==> exists j :: i <= j < k && IsImage(lines[j])
  {
    var b := First(lines, i, IsNonBlank);
    var k := SkipLeadingImage(lines, i);
    forall j | i <= j < k && IsImage(lines[j]) ensures j == b {
      ImageNotBlank(lines[j]);
    }
    if k < |lines| && IsImage(lines[k]) && b < k {
      assert IsImage(lines[b]);
    }
  }

  /**
   * The excerpt step inserts nothing when no paragraph start is found below
   * the anchor; otherwise it inserts the one marker element at the end of
   * that paragraph, strictly after its first line, so the line before the
   * marker is not blank, and shifts every later line by one.
   */
  lemma ExcerptMarkerPlacement(lines: seq<string>)
    ensures var c := First(lines, ContentSearchStart(lines), IsContent);
      c == |lines| ==> WithExcerptMarker(lines) == lines
    ensures var c := First(lines, ContentSearchStart(lines), IsContent);
      c < |lines| ==>
        var r := WithExcerptMarker(lines);
        var p := First(lines, c, IsBreak);
        ExcerptAnchor(lines) <= c < p <= |lines|
        && IsContent(lines[c]) && !IsBlank(r[p - 1])
        && |r| == |lines| + 1 && r[p] == ExcerptMarker
        && r[..p] == lines[..p] && r[p + 1..] == lines[p..]
        && (forall j :: c <= j < p ==> !IsBreak(lines[j]))
        && (p == |lines| || IsBreak(lines[p]))
  {
    var c := First(lines, ContentSearchStart(lines), IsContent);
    if c < |lines| {
      ContentIsNotBreak(lines[c]);
      FirstPastStart(lines, c, IsBreak);
      var p := First(lines, c, IsBreak);
      var r := WithExcerptMarker(lines);
      assert r[p - 1] == lines[p - 1] by {
        assert r[p - 1] == r[..p][p - 1];
      }
    }
  }

  /** A search from a line that fails `P` ends strictly later, on a line after one that fails `P`. */
  lemma FirstPastStart(lines: seq<string>, c: nat, P: string -> bool)
    requires c < |lines| && !P(lines[c])
    ensures var p := First(lines, c, P);
      c < p && !P(lines[p - 1])
  {
  }

  /**
   * In the output text the marker stands as its own block: the paragraph's
   * last line is followed by an empty line, the `<!-- more -->` line and
   * another empty line.
   */
  lemma ExcerptMarkerOwnBlock(lines: seq<string>)
    requires First(lines, ContentSearchStart(lines), IsContent) < |lines|
    ensures var c := First(lines, ContentSearchStart(lines), IsContent);
      var p := First(lines, c, IsBreak);
      Join(WithExcerptMarker(lines))
        == Join(lines[..p]) + "\n" + ExcerptMarker
           + (if p < |lines| then "\n" + Join(lines[p..]) else "")
  {
    var c := First(lines, ContentSearchStart(lines), IsContent);
    var p := First(lines, c, IsBreak);
    ExcerptSplice(lines);
    JoinSplice(lines, p, ExcerptMarker);
  }

  /** The excerpt step, when it inserts, is a one-element splice below the paragraph's first line. */
  lemma ExcerptSplice(lines: seq<string>)
    requires First(lines, ContentSearchStart(lines), IsContent) < |lines|
    ensures var c := First(lines, ContentSearchStart(lines), IsContent);
      var p := First(lines, c, IsBreak);
      0 < p <= |lines| && WithExcerptMarker(lines) == lines[..p] + [ExcerptMarker] + lines[p..]
  {
    var c := First(lines, ContentSearchStart(lines), IsContent);
    ContentIsNotBreak(lines[c]);
  }

  /**
   * When the metadata or the post supplies the image and no paragraph is
   * found, the hook gives back the text with its markers stripped.
   */
  lemma NothingInsertedGivesStrippedText(markdown: string, metaKeys: set<string>)
    requires var lines := Split(RemoveExcerptMarkers(markdown));
      (HasMetaImage(metaKeys) || LeadImage(lines))
      && First(lines, ContentSearchStart(lines), IsContent) == |lines|
    ensures Join(WithExcerptMarker(WithFallback(Split(RemoveExcerptMarkers(markdown)), metaKeys)))
      == RemoveExcerptMarkers(markdown)
  {
    JoinSplit(RemoveExcerptMarkers(markdown));
  }

  /**
   * The inserted element holds a marker, so a second run strips it back to
   * two newlines: the hook is not idempotent.
   */
  lemma InsertedMarkerStripsToNewlines()
    ensures RemoveExcerptMarkers(ExcerptMarker) == "\n\n"
  {
    var m := ExcerptMarker;
    assert m[..4] != "<!--" by { assert m[..4][0] == '\n'; }
    assert MarkerMatch(m) == 0;
    assert m[1..] == MoreMarker + "\n";
    MoreMarkerMatches("\n");
    assert m[1..][13..] == "\n";
    assert MarkerMatch("\n") == 0;
  }

  /** The canonical marker text. */
  const MoreMarker: string := "<!-- more -->"

  /** A text that starts with `<!-- more -->` matches the marker pattern on those 13 characters. */
  lemma MoreMarkerMatches(rest: string)
    ensures MarkerMatch(MoreMarker + rest) == 13
  {
    var t := MoreMarker + rest;
    MoreMarkerShape(rest);
    assert SpaceRun(t, 4) == 1 by {
      assert IsSpace(t[4]) && !IsSpace(t[5]);
    }
    assert SpaceRun(t, 9) == 1 by {
      assert IsSpace(t[9]) && !IsSpace(t[10]);
    }
    MatchAt(t, 5, 10);
  }

  /** The pieces of `<!-- more -->` at the head of a text. */
  lemma MoreMarkerShape(rest: string)
    ensures var t := MoreMarker + rest;
      |t| >= 13 && t[..4] == "<!--" && t[4] == ' ' && t[9] == ' '
      && t[5..9] == "more" && t[10..13] == "-->" && t[13..] == rest
  {
    var t := MoreMarker + rest;
    assert t[..13] == MoreMarker;
  }

  /** Text without a `<` holds no marker and is kept as it is. */
  lemma {:induction false} NoOpenerUnchanged(s: string)
    requires '<' !in s
    ensures RemoveExcerptMarkers(s) == s
    decreases |s|
  {
    if s != [] {
      assert MarkerMatch(s) == 0 by {
        assert |s| < 4 || s[..4][0] == s[0] != '<';
      }
      assert '<' !in s[1..] by {
        forall c | c in s[1..] ensures c in s { }
      }
      NoOpenerUnchanged(s[1..]);
      assert s == [s[0]] + s[1..];
    }
  }

  /** Where no match starts, stripping keeps the first character and moves on. */
  lemma NoMatchKeepsHead(c: char, w: string)
    requires c != '<' || (|w| >= 3 && w[2] != '-')
    ensures RemoveExcerptMarkers([c] + w) == [c] + RemoveExcerptMarkers(w)
  {
    var u := [c] + w;
    assert u[1..] == w;
    assert |u| < 4 || u[..4][0] == c;
    assert |u| < 4 || u[..4][3] == w[2];
  }

  /** In `<!-` followed by a `<`, none of the first three characters starts a match. */
  lemma NestedOpenerKept(t: string, u: string)
    requires t != [] && t[0] == '<' && u == ['<'] + (['!'] + (['-'] + t))
    ensures RemoveExcerptMarkers(u) == ['<'] + (['!'] + (['-'] + RemoveExcerptMarkers(t)))
  {
    NoMatchKeepsHead('-', t);
    NoMatchKeepsHead('!', ['-'] + t);
    NoMatchKeepsHead('<', ['!'] + (['-'] + t));
  }

  /**
   * `re.sub` makes a single pass: removing the marker nested in
   * `<!-<!-- more -->` + `tail` joins the halves around it, so with
   * `tail == "- more -->"` a new marker is left in the stripped text.
   */
  lemma SinglePassLeavesMarker(s: string, tail: string)
    requires '<' !in tail && s == "<!-" + (MoreMarker + tail)
    ensures RemoveExcerptMarkers(s) == "<!-" + tail
    ensures tail == "- more -->" ==> HasMarker(RemoveExcerptMarkers(s))
  {
    var t := MoreMarker + tail;
    MarkerThenPlainText(tail);
    assert t[0] == '<';
    OpenerPrefix(t);
    NestedOpenerKept(t, s);
    OpenerPrefix(tail);
    if tail == "- more -->" {
      RejoinedHalvesSpellMarker(tail, "<!-" + tail);
    }
  }

  /** `<!-` in front of a text, one character at a time. */
  lemma OpenerPrefix(t: string)
    ensures "<!-" + t == ['<'] + (['!'] + (['-'] + t))
  {
  }

  /** `<!-` and `- more -->` put together spell a marker. */
  lemma RejoinedHalvesSpellMarker(tail: string, u: string)
    requires tail == "- more -->" && u == "<!-" + tail
    ensures HasMarker(u)
  {
    assert u[..3] == "<!-" && u[3..] == tail;
    assert u[3] == '-' && u[4] == ' ' && u[5] == 'm' && u[6] == 'o' && u[7] == 'r' && u[8] == 'e';
    assert u[9] == ' ' && u[10] == '-' && u[11] == '-' && u[12] == '>';
    SpelledMarkerMatches(u);
  }

  /** A leading `<!-- more -->` goes; text without `<` after it stays. */
  lemma MarkerThenPlainText(tail: string)
    requires '<' !in tail
    ensures RemoveExcerptMarkers(MoreMarker + tail) == tail
  {
    MoreMarkerMatches(tail);
    MoreMarkerShape(tail);
    NoOpenerUnchanged(tail);
  }

  /** `t` starts with the characters of `<!-- more -->`. */
  predicate SpellsMoreMarker(t: string) {
    |t| >= 13 && t[0] == '<' && t[1] == '!' && t[2] == '-' && t[3] == '-' && t[4] == ' '
    && t[5] == 'm' && t[6] == 'o' && t[7] == 'r' && t[8] == 'e' && t[9] == ' '
    && t[10] == '-' && t[11] == '-' && t[12] == '>'
  }

  /** A text spelling out `<!-- more -->` holds a marker on its first 13 characters. */
  lemma SpelledMarkerMatches(t: string)
    requires SpellsMoreMarker(t)
    ensures MarkerMatch(t) == 13 && HasMarker(t)
  {
    assert t[..4] == "<!--";
    assert SpaceRun(t, 4) == 1 by {
      assert IsSpace(t[4]) && !IsSpace(t[5]);
    }
    assert FoldsWord(t[5..9], "more");
    assert SpaceRun(t, 9) == 1 by {
      assert IsSpace(t[9]) && !IsSpace(t[10]);
    }
    assert t[10..13] == "-->";
    MatchAt(t, 5, 10);
    MarkerMatchSound(t);
    assert t[0..13] == t[..13];
  }
}
