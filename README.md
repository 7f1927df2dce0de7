# Blog index rules, modelled in Dafny

This project models the MkDocs page hook `hooks/blog_index_rules.py`. The hook
rewrites the Markdown of every blog post (a page whose source path, with `\`
read as `/`, starts with `blog/posts/`) so that the blog index shows a uniform
preview card:

1. every existing `<!-- more -->` excerpt marker (any case, any whitespace
   inside the comment) is stripped from the raw text;
2. the text is split into lines; when the front matter declares no image key
   and no image line comes before the first `##` heading, the fallback image
   `![FIT Orb](../../assets/orb.png)` and a blank line are inserted before the
   first `#` title (at the top when there is none);
3. one new excerpt marker is inserted after the first paragraph below
   `## Description`, or below the title when there is no such section, after
   skipping blank lines and one optional image; when no paragraph line
   follows, no marker is inserted;
4. the lines are joined back with newlines.

Any other page is returned unchanged.

The files:

- `text.dfy` (module `Text`): the Python built-ins the hook relies on. It covers
  `str.isspace`, which is also what `\s` matches on `str` patterns, plus
  `lstrip`/`rstrip`/`strip`, `startswith` and case-insensitive letters. It also
  covers `str.replace("\\", "/")`, `str.split("\n")`, `"\n".join` and
  `list.insert` with Python's index clamping.
- `classify.dfy` (module `Classify`): the line classifiers. Each anchored regular
  expression is written as a predicate on the line's characters.
  `re.IGNORECASE` is modelled by comparing simple lower-case forms. For the
  letters of `more` and `description`, that adds only U+0130 and U+0131 for `i`
  and U+017F for `s` to the upper and lower ASCII cases.
- `markers.dfy` (module `Markers`): the `<!--\s*more\s*-->` matcher and its
  removal by `re.sub`. Matches are leftmost and non-overlapping, and the scan
  resumes right after each match.
- `scan.dfy` (module `Scan`): the document scanners. Each is a method with a
  loop. Its postcondition states the least-index property outright: the index
  it returns has the property and no earlier line does. The ghost function
  `First` states the same property. `FirstIsLeast` links the two, and
  `hook.dfy` uses that link.
- `hook.dfy` (module `Hook`): the constants and the pipeline. Both rewriting
  steps are imperative methods, proved equal to the ghost specifications
  `WithFallback` and `WithExcerptMarker`. `OnPageMarkdown` strings them
  together.
- `properties.dfy` (module `Properties`): what the two steps and the whole hook
  promise.

Where the code and its documented intent differ, the model follows the code:

- A rule line may mix `-`, `*` and `_` (`Classify.MixedRuleIsHr`). It does not
  have to repeat one character.
- `[^#]` also matches whitespace, so `#` followed by two spaces is an H1 line
  (`Classify.HashAndSpacesIsH1`). `#  #x` is one as well.
- A paragraph also ends at a rule line, not only at a blank line or heading.
- The fallback is inserted before the first H1, not prepended. When an H2 comes
  before that H1, the inserted image is still not a lead image
  (`Properties.FallbackLeadImageIff`).
- The hook is not idempotent. A second run strips the inserted element
  `"\n<!-- more -->\n"` down to two newlines
  (`Properties.InsertedMarkerStripsToNewlines`). Together with the newlines
  that joined it to its neighbours, these become three empty lines after the
  paragraph. The paragraph then ends at the first of them, so the new marker
  goes above all three. Each further run adds three more empty lines below the
  marker.
- Stripping makes a single pass, so the output can still hold a marker besides
  the inserted one. In `<!-<!-- more -->- more -->` the removal of the inner
  marker rejoins the outer halves into a new marker
  (`Properties.SinglePassLeavesMarker`).

## Model

| member | source | states |
|---|---|---|
| Text.Strip | hooks/blog_index_rules.py:105 | defines `strip()` as `lstrip` followed by `rstrip` |
| Text.Join | hooks/blog_index_rules.py:264 | defines `"\n".join`: the parts in order, with one newline between neighbours |
| Text.SpaceRun | hooks/blog_index_rules.py:58-65 | the `\s*` run at a position stays in the text, is all whitespace and cannot be extended |
| Text.TrimLeft | hooks/blog_index_rules.py:58-65 | the text after `^\s*` is a suffix, what was removed is whitespace, and it starts with a non-space |
| Text.TrimRight | hooks/blog_index_rules.py:105 | `rstrip` keeps a prefix, removes only whitespace and ends on a non-space |
| Text.StripEmptyIffAllSpace | hooks/blog_index_rules.py:119 | `line.strip()` is empty exactly when the line is blank |
| Text.NormalizeSeparators | hooks/blog_index_rules.py:192 | every `\` becomes `/` and every other character stays, length kept |
| Text.Split | hooks/blog_index_rules.py:202 | `split("\n")` gives at least one part and no part holds a newline |
| Text.JoinSplit | hooks/blog_index_rules.py:202 | joining the split lines with newlines gives back the text |
| Text.SplitJoin | hooks/blog_index_rules.py:264 | splitting the join of newline-free lines gives back the lines |
| Text.JoinAppend | hooks/blog_index_rules.py:264 | joining two non-empty runs of lines puts exactly one newline between them |
| Text.JoinSplice | hooks/blog_index_rules.py:264 | joining after a one-element splice puts the element between its neighbours, newline-separated |
| Text.InsertPosition | hooks/blog_index_rules.py:175 | `list.insert` uses an in-range index as given and clamps the rest into the list |
| Text.Insert | hooks/blog_index_rules.py:175 | `list.insert` adds one element at the clamped position and keeps the elements around it in order |
| Text.InsertTwice | hooks/blog_index_rules.py:213-214 | inserting at `k` and then at `k + 1` splices both elements in at `k`, in order |
| Classify.IsBlank | hooks/blog_index_rules.py:68-70 | defines the lines `^\s*$` matches: whitespace only, empty included |
| Classify.IsImage | hooks/blog_index_rules.py:73-75 | defines the lines `^\s*!\[.*?\]\(.*?\)` matches: after the indentation, `![`, then `](` and then `)`, with no newline in between |
| Classify.IsHeading | hooks/blog_index_rules.py:78-80 | defines the lines `^\s*#+\s+` matches: after the indentation, one or more `#` followed by whitespace |
| Classify.IsH1 | hooks/blog_index_rules.py:83-85 | defines the lines `^\s*#\s+[^#]` matches: one `#`, whitespace, then a character other than `#` |
| Classify.IsH2 | hooks/blog_index_rules.py:88-90 | defines the lines `^\s*##\s+[^#]` matches: two `#`, whitespace, then a character other than `#` |
| Classify.IsDescriptionH2 | hooks/blog_index_rules.py:93-95 | defines the lines `^\s*##\s+description\s*$` matches, ignoring case, with only whitespace after the word |
| Classify.IsHr | hooks/blog_index_rules.py:98-100 | defines the lines `^\s*[-*_]{3,}\s*$` matches: three or more of `-`, `*` and `_` in any mix, then only whitespace |
| Classify.IsStructural | hooks/blog_index_rules.py:103-113 | defines a structural line: blank, heading, image or rule, or stripped text that starts with `<!--` or `>` |
| Classify.IsContent | hooks/blog_index_rules.py:119 | defines the test a paragraph's first line passes: not structural, and non-empty once stripped |
| Classify.IsBreak | hooks/blog_index_rules.py:131 | defines the lines that end a paragraph: blank, heading or rule |
| Classify.DescriptionIsH2 | hooks/blog_index_rules.py:61-62 | every `## Description` line is an H2 line |
| Classify.LevelIsHeading | hooks/blog_index_rules.py:59-61 | H1 and H2 lines are heading lines |
| Classify.H1NotH2 | hooks/blog_index_rules.py:60-61 | no line is both an H1 and an H2 line |
| Classify.ContentIffNotStructural | hooks/blog_index_rules.py:103-121 | the paragraph-start test is exactly "not structural", and such a line is not blank |
| Classify.ContentIsNotBreak | hooks/blog_index_rules.py:116-134 | a paragraph's first line never ends that paragraph |
| Classify.ImageNotH2 | hooks/blog_index_rules.py:158-163 | no line is both an image line and an H2 line |
| Classify.HashAndSpacesIsH1 | hooks/blog_index_rules.py:60 | `#` followed by two spaces matches the H1 pattern |
| Classify.MixedRuleIsHr | hooks/blog_index_rules.py:65 | `-*_` matches the rule pattern |
| Markers.IsMarker | hooks/blog_index_rules.py:63 | defines the whole strings `<!--\s*more\s*-->` matches under `re.IGNORECASE` |
| Markers.MarkerMatch | hooks/blog_index_rules.py:63 | a match at the start is absent or 11 characters or longer, and within the text |
| Markers.MarkerMatchSound | hooks/blog_index_rules.py:63 | a match found at the start is a marker |
| Markers.MarkerMatchComplete | hooks/blog_index_rules.py:63 | every marker prefix of the text is the match found: the pattern has one match per start |
| Markers.RemoveExcerptMarkers | hooks/blog_index_rules.py:167-169 | stripping never lengthens the text |
| Markers.FirstMarkerRemoved | hooks/blog_index_rules.py:167-169 | when `s[i..k]` is a marker and no marker starts before `i`, stripping keeps `s[..i]` unchanged, deletes `s[i..k]` and continues at `k`; with `NoMarkerUnchanged`, this fixes the result on every input in terms of `IsMarker` |
| Markers.RemovalIsSubsequence | hooks/blog_index_rules.py:167-169 | stripping only deletes: the result is a subsequence of the input |
| Markers.MarkerShortens | hooks/blog_index_rules.py:167-169 | a marker anywhere in the text makes the result strictly shorter |
| Markers.NoMarkerUnchanged | hooks/blog_index_rules.py:167-169 | text with no marker in it comes back unchanged |
| Markers.RemovalUnchangedIff | hooks/blog_index_rules.py:167-169 | stripping leaves the text unchanged exactly when it holds no marker |
| Scan.First | hooks/blog_index_rules.py:137-150 | the first index from `start` whose line has the property, or the length when none has |
| Scan.FirstIsLeast | hooks/blog_index_rules.py:137-150 | an index with the least-index property is the one `First` returns |
| Scan.FindFirstContentLine | hooks/blog_index_rules.py:116-121 | returns the first non-structural, non-blank line from `start`; none exactly when every remaining line is structural |
| Scan.FindParagraphEnd | hooks/blog_index_rules.py:124-134 | returns the first blank, heading or rule line from `start`, or the end; a start past the end is returned as is |
| Scan.FindH1Index | hooks/blog_index_rules.py:137-142 | returns the first H1 line; none exactly when no line is an H1 |
| Scan.FindDescriptionH2Index | hooks/blog_index_rules.py:145-150 | returns the first `## Description` line; none exactly when there is none |
| Scan.LeadImage | hooks/blog_index_rules.py:153-164 | defines a lead image: an image line with no H2 line anywhere above it |
| Scan.HasLeadImage | hooks/blog_index_rules.py:153-164 | true exactly when some image line has no H2 line above it |
| Hook.InScope | hooks/blog_index_rules.py:192 | defines the scope test: the path, with every `\` read as `/`, starts with `blog/posts/` |
| Hook.HasMetaImage | hooks/blog_index_rules.py:206 | defines the metadata test: some key of the front matter is one of the eight image keys |
| Hook.WithFallback | hooks/blog_index_rules.py:206-218 | specifies the fallback step: unchanged with a metadata or lead image; otherwise the image and a blank line go in at `FallbackPosition` (characterised by `FallbackShape`) |
| Hook.AddFallbackImage | hooks/blog_index_rules.py:206-218 | leaves the lines alone when a metadata key or a lead image supplies the image; otherwise splices in the fallback and a blank line at `FallbackPosition` |
| Hook.InsertFallbackImage | hooks/blog_index_rules.py:209-218 | the fallback and a blank line go in before the first H1, or at the top without one |
| Hook.ExcerptAnchor | hooks/blog_index_rules.py:221-245 | specifies where the search starts: after the first `## Description`, else after the first H1, else at the top (characterised by `AnchorFollowsHeading`) |
| Hook.SkipLeadingImage | hooks/blog_index_rules.py:226-256 | specifies the skip: blank lines, then one image line and the blank lines after it; it never moves back or past the end (characterised by `SkipsBlanksAndOneImage`) |
| Hook.ContentSearchStart | hooks/blog_index_rules.py:226-256 | specifies where the paragraph search starts: the skip applied at the anchor |
| Hook.WithExcerptMarker | hooks/blog_index_rules.py:220-262 | specifies the excerpt step: unchanged without a paragraph line; otherwise the marker element goes in where the first paragraph ends (characterised by `ExcerptMarkerPlacement`) |
| Hook.InsertExcerptMarker | hooks/blog_index_rules.py:172-176 | adds one element; at an in-range position the marker element sits there with the lines before and after unchanged |
| Hook.FindExcerptAnchor | hooks/blog_index_rules.py:221-245 | computes the anchor `ExcerptAnchor` (characterised by `AnchorFollowsHeading`) with the two scanners |
| Hook.SkipBlankLines | hooks/blog_index_rules.py:227-228 | stops at the first non-blank line from `start`, or at the end |
| Hook.FindContentSearchStart | hooks/blog_index_rules.py:226-256 | computes `ContentSearchStart`: from the anchor, skip blank lines, then one image line and the blank lines after it |
| Hook.PlaceExcerptMarker | hooks/blog_index_rules.py:220-262 | inserts the marker element at the end of the first paragraph found from the search start, or changes nothing |
| Hook.OnPageMarkdown | hooks/blog_index_rules.py:179-264 | out-of-scope pages pass through unchanged; in scope the result is strip, split, fallback, excerpt, join |
| Properties.InScopeSlashPath | hooks/blog_index_rules.py:192 | for a path without `\` the scope test is a plain `blog/posts/` prefix test |
| Properties.InScopeEitherSeparator | hooks/blog_index_rules.py:192 | a path and its `/`-normalised form are in scope together |
| Properties.FallbackImageIsImage | hooks/blog_index_rules.py:49 | the fallback line is an image line |
| Properties.FallbackImageNotHeading | hooks/blog_index_rules.py:49 | the fallback line is neither blank, nor an H1, nor an H2 |
| Properties.FallbackShape | hooks/blog_index_rules.py:204-218 | with a declared or lead image the lines are untouched; otherwise exactly the image and a blank line are inserted, before the first H1 or at the top when there is none, and the other lines keep their order |
| Properties.FallbackBeforeFirstH1 | hooks/blog_index_rules.py:209-214 | after an insertion the first H1 sits two lines lower, right after the fallback image and a blank line |
| Properties.FallbackLeadImageIff | hooks/blog_index_rules.py:153-218 | the inserted fallback counts as a lead image exactly when no H2 line precedes the insertion point |
| Properties.AnchorFollowsHeading | hooks/blog_index_rules.py:221-245 | the excerpt search starts right after the first `## Description` line; without one, right after the first H1; at the top exactly when the post has neither |
| Properties.ImageNotBlank | hooks/blog_index_rules.py:226-234 | an image line is never a blank line |
| Properties.SkipsBlanksAndOneImage | hooks/blog_index_rules.py:226-234 | the skip below the anchor passes only blank lines and at most one image line, and stops on a non-blank line or at the end; it stops on an image line only after passing another image |
| Properties.ExcerptMarkerPlacement | hooks/blog_index_rules.py:220-262 | with no paragraph found nothing changes; otherwise one marker element goes at the paragraph's end, after a non-blank line, no earlier than the anchor, and every later line moves down by one |
| Properties.ExcerptMarkerOwnBlock | hooks/blog_index_rules.py:172-176 | in the joined text the marker element stands between the paragraph's last line and the rest, newline-separated |
| Properties.NothingInsertedGivesStrippedText | hooks/blog_index_rules.py:199-264 | when the image is supplied and no paragraph is found, the in-scope output is the input with its markers stripped |
| Properties.InsertedMarkerStripsToNewlines | hooks/blog_index_rules.py:167-176 | stripping the inserted element leaves two newlines, so a second run does not reproduce the first |
| Properties.SinglePassLeavesMarker | hooks/blog_index_rules.py:167-169 | stripping `<!-` + `<!-- more -->` + plain text removes only the inner marker; for `- more -->` the result is again a marker |

## Left out

- MkDocs plumbing is not part of this model. The page, config and files objects are reduced to the page's source path and the set of its metadata keys. `getattr` defaults are also out, since the path and the key set are plain inputs.
- Metadata values are never read by the hook and are not modelled. Only key presence counts.
- `_insert_excerpt_marker` mutates the list in place and returns it. The caller rebinds its list to the result, so the model treats it as a value update (`Hook.InsertExcerptMarker`). Aliasing of the list is not modelled.
- Hook.OnPageMarkdown: idempotence is not stated, because it does not hold (`Properties.InsertedMarkerStripsToNewlines`).
- The "no line holds a newline" invariant does not hold after the marker is inserted, because the inserted element itself contains newlines. It is not stated.
- Case folding under `re.IGNORECASE` covers ASCII letters plus Python's simple lower-case extras for `i` (U+0130, U+0131) and `s` (U+017F). That is every character that folds to a letter of `more` or `description`. No wider Unicode tables are modelled.
- No general regular-expression engine is modelled. Each pattern is written out directly as its set of matching lines, and for `<!--\s*more\s*-->` as its unique match at a position.
