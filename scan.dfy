/**
 * The document scanners: top-to-bottom searches over the list of lines that
 * return the first qualifying index, or nothing.
 */
module Scan {
  import opened Text
  import opened Classify

  datatype Option<T> = None | Some(value: T)

  /** The least index `i >= start` with `P(s[i])`, or `|s|` when there is none. */
  ghost function First(s: seq<string>, start: nat, P: string -> bool): (i: nat)
    requires start <= |s|
    ensures start <= i <= |s|
    ensures i < |s| ==> P(s[i])
    ensures forall j :: start <= j < i ==> !P(s[j])
    decreases |s| - start
  {
    if start == |s| then |s| else if P(s[start]) then start else First(s, start + 1, P)
  }

  /** Any index with the property of `First` is `First`. */
  lemma FirstIsLeast(s: seq<string>, start: nat, P: string -> bool, i: nat)
    requires start <= i <= |s|
    requires i < |s| ==> P(s[i])
    requires forall j :: start <= j < i ==> !P(s[j])
    ensures First(s, start, P) == i
  {
  }

  /** `_find_first_content_line(lines, start)` */
  method FindFirstContentLine(lines: seq<string>, start: nat) returns (r: Option<nat>)
    ensures r.Some? ==> start <= r.value < |lines|
    ensures r.Some? ==> !IsStructural(lines[r.value]) && !IsBlank(lines[r.value])
    ensures r.Some? ==> forall j :: start <= j < r.value ==> IsStructural(lines[j])
    ensures r.None? <==> forall j :: start <= j < |lines| ==> IsStructural(lines[j])
  {
    var i := start;
    while i < |lines|
      invariant start <= i && (i <= |lines| || i == start)
      invariant forall j :: start <= j < i ==> IsStructural(lines[j])
    {
      ContentIffNotStructural(lines[i]);
      if !IsStructural(lines[i]) && Strip(lines[i]) != "" {
        return Some(i);
      }
      i := i + 1;
    }
    return None;
  }

  /** `_find_paragraph_end(lines, start)`: the first blank, heading or rule line from `start`. */
  method FindParagraphEnd(lines: seq<string>, start: nat) returns (r: nat)
    ensures start <= r
    ensures start <= |lines| ==> r <= |lines|
    ensures start > |lines| ==> r == start
    ensures forall j :: start <= j < r ==> !IsBreak(lines[j])
    ensures r < |lines| ==> IsBreak(lines[r])
  {
    var i := start;
    while i < |lines|
      invariant start <= i && (i <= |lines| || i == start)
      invariant forall j :: start <= j < i ==> !IsBreak(lines[j])
    {
      if IsBlank(lines[i]) || IsHeading(lines[i]) || IsHr(lines[i]) {
        return i;
      }
      i := i + 1;
    }
    return i;
  }

  /** `_find_h1_index(lines)` */
  method FindH1Index(lines: seq<string>) returns (r: Option<nat>)
    ensures r.Some? ==> r.value < |lines| && IsH1(lines[r.value])
    ensures r.Some? ==> forall j :: 0 <= j < r.value ==> !IsH1(lines[j])
    ensures r.None? <==> forall j :: 0 <= j < |lines| ==> !IsH1(lines[j])
  {
    for i := 0 to |lines|
      invariant forall j :: 0 <= j < i ==> !IsH1(lines[j])
    {
      if IsH1(lines[i]) {
        return Some(i);
      }
    }
    return None;
  }

  /** `_find_description_h2_index(lines)` */
  method FindDescriptionH2Index(lines: seq<string>) returns (r: Option<nat>)
    ensures r.Some? ==> r.value < |lines| && IsDescriptionH2(lines[r.value])
    ensures r.Some? ==> forall j :: 0 <= j < r.value ==> !IsDescriptionH2(lines[j])
    ensures r.None? <==> forall j :: 0 <= j < |lines| ==> !IsDescriptionH2(lines[j])
  {
    for i := 0 to |lines|
      invariant forall j :: 0 <= j < i ==> !IsDescriptionH2(lines[j])
    {
      if IsDescriptionH2(lines[i]) {
        return Some(i);
      }
    }
    return None;
  }

  /** Some image line has no H2 line anywhere above it. */
  ghost predicate LeadImage(lines: seq<string>) {
    exists i :: 0 <= i < |lines| && IsImage(lines[i]) && forall j :: 0 <= j < i ==> !IsH2(lines[j])
  }

  /** `_has_lead_image(lines)` */
  method HasLeadImage(lines: seq<string>) returns (b: bool)
    ensures b <==> LeadImage(lines)
  {
    for i := 0 to |lines|
      invariant forall j :: 0 <= j < i ==> !IsImage(lines[j]) && !IsH2(lines[j])
    {
      if IsImage(lines[i]) {
        return true;
      }
      if IsH2(lines[i]) {
        return false;
      }
    }
    return false;
  }
}
