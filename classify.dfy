/**
 * The single-line classifiers of the hook. Each regular expression of the
 * source is anchored with `^\s*` and is written here as a predicate on the
 * line with its indentation removed: the first character after `\s*` is never
 * whitespace (`!`, `#`, `-`, `*`, `_`), so the regex can only start its body
 * right after the whole run of leading whitespace. The patterns are only
 * tested for a match at the start (`re.match`), so nothing past the matched
 * prefix is constrained unless the pattern ends with `\s*$`.
 */
module Classify {
  import opened Text

  predicate AllHashes(s: string) {
    forall i :: 0 <= i < |s| ==> s[i] == '#'
  }

  /** Characters of the class `[-*_]`. */
  predicate AllRuleChars(s: string) {
    forall i :: 0 <= i < |s| ==> s[i] == '-' || s[i] == '*' || s[i] == '_'
  }

  /** What `.` matches: anything but a newline. */
  predicate NoNewline(s: string) {
    '\n' !in s
  }

  /** `^\s*$` */
  predicate IsBlank(line: string) {
    AllSpace(line)
  }

  /** `!\[.*?\]\(.*?\)` at the start of `r`. */
  predicate ImageAt(r: string) {
    |r| >= 2 && r[0] == '!' && r[1] == '['
    && exists j :: 2 <= j < |r| - 2 && r[j] == ']' && r[j + 1] == '(' && NoNewline(r[2..j])
         && ClosingParen(r, j + 2)
  }

  /** `.*?\)` at position `from` of `r`. */
  predicate ClosingParen(r: string, from: nat)
    requires from <= |r|
  {
    exists k :: from <= k < |r| && r[k] == ')' && NoNewline(r[from..k])
  }

  /** `^\s*!\[.*?\]\(.*?\)` */
  predicate IsImage(line: string) {
    ImageAt(TrimLeft(line))
  }

  /** `#+\s+` at the start of `r`. */
  predicate HeadingAt(r: string) {
    exists h :: 1 <= h < |r| && AllHashes(r[..h]) && IsSpace(r[h])
  }

  /** `^\s*#+\s+` */
  predicate IsHeading(line: string) {
    HeadingAt(TrimLeft(line))
  }

  /** `#{n}\s+[^#]` at the start of `r`. */
  predicate LevelAt(r: string, n: nat) {
    n < |r| && AllHashes(r[..n])
    && exists p :: n < p < |r| && AllSpace(r[n..p]) && r[p] != '#'
  }

  /** `^\s*#\s+[^#]` */
  predicate IsH1(line: string) {
    LevelAt(TrimLeft(line), 1)
  }

  /** `^\s*##\s+[^#]` */
  predicate IsH2(line: string) {
    LevelAt(TrimLeft(line), 2)
  }

  /** `##\s+description\s*$` (ignoring case) for all of `r`. */
  predicate DescriptionAt(r: string) {
    |r| > 2 && r[0] == '#' && r[1] == '#'
    && exists p :: 2 < p && p + 11 <= |r| && AllSpace(r[2..p])
         && FoldsWord(r[p..p + 11], "description") && AllSpace(r[p + 11..])
  }

  /** `^\s*##\s+description\s*$` with `re.IGNORECASE` */
  predicate IsDescriptionH2(line: string) {
    DescriptionAt(TrimLeft(line))
  }

  /** `[-*_]{3,}\s*$` for all of `r`. */
  predicate RuleAt(r: string) {
    exists k :: 3 <= k <= |r| && AllRuleChars(r[..k]) && AllSpace(r[k..])
  }

  /** `^\s*[-*_]{3,}\s*$` */
  predicate IsHr(line: string) {
    RuleAt(TrimLeft(line))
  }

  /** Blank, heading, image, rule, HTML comment or blockquote. */
  predicate IsStructural(line: string) {
    IsBlank(line) || IsHeading(line) || IsImage(line) || IsHr(line)
    || StartsWith(Strip(line), "<!--") || StartsWith(Strip(line), ">")
  }

  /** The test a paragraph's first line passes: not structural, and non-empty once stripped. */
  predicate IsContent(line: string) {
    !IsStructural(line) && Strip(line) != ""
  }

  /** A line that closes a paragraph: blank, heading or rule. */
  predicate IsBreak(line: string) {
    IsBlank(line) || IsHeading(line) || IsHr(line)
  }

  predicate IsNonBlank(line: string) {
    !IsBlank(line)
  }

  /** A `## Description` heading is an H2 heading. */
  lemma DescriptionIsH2(line: string)
    requires IsDescriptionH2(line)
    ensures IsH2(line)
  {
    var r := TrimLeft(line);
    var p :| 2 < p && p + 11 <= |r| && AllSpace(r[2..p])
      && FoldsWord(r[p..p + 11], "description") && AllSpace(r[p + 11..]);
    assert FoldsTo(r[p..p + 11][0], 'd');
    assert r[p] != '#';
    assert AllHashes(r[..2]);
  }

  /** H1 and H2 lines are headings. */
  lemma LevelIsHeading(line: string)
    requires IsH1(line) || IsH2(line)
    ensures IsHeading(line)
  {
    var r := TrimLeft(line);
    var n := if IsH1(line) then 1 else 2;
    var p :| n < p < |r| && AllSpace(r[n..p]) && r[p] != '#';
    assert IsSpace(r[n..p][0]);
    assert AllHashes(r[..n]) && IsSpace(r[n]);
  }

  /** No line is both an H1 and an H2. */
  lemma H1NotH2(line: string)
    requires IsH1(line)
    ensures !IsH2(line)
  {
    var r := TrimLeft(line);
    var p :| 1 < p < |r| && AllSpace(r[1..p]) && r[p] != '#';
    assert IsSpace(r[1..p][0]);
    assert r[1] != '#';
  }

  /**
   * The test for a paragraph's first line is exactly "not structural": the
   * extra emptiness check adds nothing, and such a line is never blank.
   */
  lemma ContentIffNotStructural(line: string)
    ensures IsContent(line) <==> !IsStructural(line)
    ensures IsContent(line) ==> !IsBlank(line)
  {
    StripEmptyIffAllSpace(line);
  }

  /** A line that passes the paragraph-start test is not a paragraph break. */
  lemma ContentIsNotBreak(line: string)
    requires IsContent(line)
    ensures !IsBreak(line)
  {
  }

  /** An image line is never an H2 line, so the lead-image scan has no tie. */
  lemma ImageNotH2(line: string)
    ensures !(IsImage(line) && IsH2(line))
  {
  }

  /**
   * `[^#]` also matches whitespace, so `\s+` can give back a space: a hash
   * followed by two spaces and nothing else is an H1 line.
   */
  lemma HashAndSpacesIsH1()
    ensures IsH1("#  ")
  {
    var r: string := "#  ";
    assert SpaceRun(r, 0) == 0;
    assert TrimLeft(r) == r;
    assert AllSpace(r[1..2]) && r[2] != '#';
  }

  /** `[-*_]{3,}` does not ask for one repeated character: `-*_` is a rule line. */
  lemma MixedRuleIsHr()
    ensures IsHr("-*_")
  {
    var r: string := "-*_";
    assert SpaceRun(r, 0) == 0;
    assert TrimLeft(r) == r;
    assert AllRuleChars(r[..3]) && r[3..] == [];
  }
}
