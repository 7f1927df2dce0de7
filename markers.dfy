/**
 * The excerpt-break marker `<!--\s*more\s*-->` (with `re.IGNORECASE`) and
 * its removal by `re.sub`, which replaces the leftmost non-overlapping
 * matches with nothing and resumes scanning right after each match.
 */
module Markers {
  import opened Text

  /** The whole of `t` matches `<!--\s*more\s*-->`, ignoring case. */
  predicate IsMarker(t: string) {
    |t| >= 4 && t[..4] == "<!--"
    && exists a, b :: 4 <= a && a + 4 <= b && b + 3 == |t| && AllSpace(t[4..a])
         && FoldsWord(t[a..a + 4], "more") && AllSpace(t[a + 4..b]) && t[b..] == "-->"
  }

  /**
   * Length of the match of the marker pattern at the start of `s`, or 0 when
   * there is none. Both `\s*` are followed by a character that is never
   * whitespace, so each takes the whole whitespace run and no backtracking
   * can produce another match.
   */
  function MarkerMatch(s: string): (n: nat)
    ensures n == 0 || 11 <= n <= |s|
  {
    if |s| < 4 || s[..4] != "<!--" then 0
    else
      var a := 4 + SpaceRun(s, 4);
      if a + 4 > |s| || !FoldsWord(s[a..a + 4], "more") then 0
      else
        var b := a + 4 + SpaceRun(s, a + 4);
        if b + 3 <= |s| && s[b..b + 3] == "-->" then b + 3 else 0
  }

  /** A letter of `more` (in any accepted case) is never whitespace. */
  lemma FoldedLetterNotSpace(c: char, t: char)
    requires 'a' <= t <= 'z' && t != 'i' && t != 's' && FoldsTo(c, t)
    ensures !IsSpace(c) && c != '-'
  {
  }

  /** A positive match length marks a prefix of `s` that is a marker. */
  lemma MarkerMatchSound(s: string)
    requires MarkerMatch(s) > 0
    ensures IsMarker(s[..MarkerMatch(s)])
  {
    var n := MarkerMatch(s);
    var a := 4 + SpaceRun(s, 4);
    var b := a + 4 + SpaceRun(s, a + 4);
    var t := s[..n];
    assert t[4..a] == s[4..a] && t[a..a + 4] == s[a..a + 4] && t[a + 4..b] == s[a + 4..b];
    assert t[b..] == s[b..b + 3];
  }

  /** A whitespace run from `from` that stops at a non-space is the whole run. */
  lemma RunIsMaximal(s: string, from: nat, e: nat)
    requires from <= e <= |s| && AllSpace(s[from..e]) && (e == |s| || !IsSpace(s[e]))
    ensures e == from + SpaceRun(s, from)
  {
    var n := SpaceRun(s, from);
    forall i | from <= i < e ensures IsSpace(s[i]) {
      assert s[i] == s[from..e][i - from];
    }
    forall i | from <= i < from + n ensures IsSpace(s[i]) {
      assert s[i] == s[from..from + n][i - from];
    }
  }

  /**
   * In a marker, each `\s*` takes the whole whitespace run: the marker
   * `s[..k]` has its `more` right after the run at 4 and its `-->` right
   * after the run that follows `more`.
   */
  lemma MarkerRuns(s: string, k: nat, a: nat, b: nat)
    requires k <= |s|
    requires 4 <= a && a + 4 <= b && b + 3 == k && AllSpace(s[4..a])
    requires FoldsWord(s[a..a + 4], "more") && AllSpace(s[a + 4..b]) && s[b..k] == "-->"
    ensures a == 4 + SpaceRun(s, 4)
    ensures b == a + 4 + SpaceRun(s, a + 4)
  {
    assert s[a..a + 4][0] == s[a];
    FoldedLetterNotSpace(s[a], 'm');
    RunIsMaximal(s, 4, a);
    assert s[b..k][0] == s[b];
    RunIsMaximal(s, a + 4, b);
  }

  /** Every prefix of `s` that is a marker is the one `MarkerMatch` finds. */
  lemma MarkerMatchComplete(s: string, k: nat)
    requires k <= |s| && IsMarker(s[..k])
    ensures MarkerMatch(s) == k
  {
    var t := s[..k];
    var a, b :| 4 <= a && a + 4 <= b && b + 3 == |t| && AllSpace(t[4..a])
      && FoldsWord(t[a..a + 4], "more") && AllSpace(t[a + 4..b]) && t[b..] == "-->";
    assert t[4..a] == s[4..a];
    assert t[a..a + 4] == s[a..a + 4];
    assert t[a + 4..b] == s[a + 4..b];
    assert t[b..] == s[b..k];
    MarkerRuns(s, k, a, b);
    assert s[..4] == t[..4];
    MatchAt(s, a, b);
  }

  /** Unfolds `MarkerMatch` on a prefix with the marker's shape. */
  lemma MatchAt(s: string, a: nat, b: nat)
    requires |s| >= 4 && s[..4] == "<!--"
    requires a == 4 + SpaceRun(s, 4) && a + 4 <= |s| && FoldsWord(s[a..a + 4], "more")
    requires b == a + 4 + SpaceRun(s, a + 4) && b + 3 <= |s| && s[b..b + 3] == "-->"
    ensures MarkerMatch(s) == b + 3
  {
  }

  /** `re.sub(r"<!--\s*more\s*-->", "", s, flags=re.IGNORECASE)` */
  function RemoveExcerptMarkers(s: string): (r: string)
    ensures |r| <= |s|
    decreases |s|
  {
    if s == [] then []
    else
      var n := MarkerMatch(s);
      if n > 0 then RemoveExcerptMarkers(s[n..]) else [s[0]] + RemoveExcerptMarkers(s[1..])
  }

  /** `r` can be obtained from `s` by deleting characters. */
  predicate IsSubsequence(r: string, s: string)
    decreases |s|
  {
    if r == [] then true
    else if s == [] then false
    else (r[0] == s[0] && IsSubsequence(r[1..], s[1..])) || IsSubsequence(r, s[1..])
  }

  lemma {:induction false} SubsequenceOfLonger(r: string, s: string, n: nat)
    requires n <= |s| && IsSubsequence(r, s[n..])
    ensures IsSubsequence(r, s)
    decreases n
  {
    if n > 0 {
      assert s[1..][n - 1..] == s[n..];
      SubsequenceOfLonger(r, s[1..], n - 1);
    }
  }

  /** Stripping only deletes: every kept character stays, in order. */
  lemma {:induction false} RemovalIsSubsequence(s: string)
    ensures IsSubsequence(RemoveExcerptMarkers(s), s)
    decreases |s|
  {
    if s != [] {
      var n := MarkerMatch(s);
      if n > 0 {
        RemovalIsSubsequence(s[n..]);
        SubsequenceOfLonger(RemoveExcerptMarkers(s[n..]), s, n);
      } else {
        RemovalIsSubsequence(s[1..]);
        var r := [s[0]] + RemoveExcerptMarkers(s[1..]);
        assert r[1..] == RemoveExcerptMarkers(s[1..]);
      }
    }
  }

  /** Some substring of `s` matches the marker pattern. */
  predicate HasMarker(s: string) {
    exists i, k :: 0 <= i <= k <= |s| && IsMarker(s[i..k])
  }

  /** A marker anywhere in `s` makes the stripped text strictly shorter. */
  lemma {:induction false} MarkerShortens(s: string, i: nat, k: nat)
    requires i <= k <= |s| && IsMarker(s[i..k])
    ensures |RemoveExcerptMarkers(s)| < |s|
    decreases |s|
  {
    var n := MarkerMatch(s);
    if n == 0 {
      if i == 0 {
        assert s[..k] == s[i..k];
        MarkerMatchComplete(s, k);
        assert false;
      }
      assert s[1..][i - 1..k - 1] == s[i..k];
      MarkerShortens(s[1..], i - 1, k - 1);
    }
  }

  /** Text without any marker is returned unchanged. */
  lemma {:induction false} NoMarkerUnchanged(s: string)
    requires !HasMarker(s)
    ensures RemoveExcerptMarkers(s) == s
    decreases |s|
  {
    if s != [] {
      var n := MarkerMatch(s);
      if n > 0 {
        assert s[0..n] == s[..n] && !IsMarker(s[0..n]);
        MarkerMatchSound(s);
        assert false;
      }
      assert !HasMarker(s[1..]) by {
        forall i, k | 0 <= i <= k <= |s| - 1 ensures !IsMarker(s[1..][i..k]) {
          assert s[1..][i..k] == s[i + 1..k + 1];
        }
      }
      NoMarkerUnchanged(s[1..]);
      assert s == [s[0]] + s[1..];
    }
  }

  /** With no marker starting at 0, the pattern does not match at the start. */
  lemma NoMarkerAtStart(s: string)
    requires forall q :: 0 <= q <= |s| ==> !IsMarker(s[0..q])
    ensures MarkerMatch(s) == 0
  {
    var n := MarkerMatch(s);
    assert s[0..n] == s[..n];
    if n > 0 {
      MarkerMatchSound(s);
    }
  }

  /** No marker starts before `i` in `s` when none starts before `i + 1` in `c` followed by `s`. */
  lemma NoMarkerBeforeTail(s: string, i: nat)
    requires |s| > 0 && i > 0
    requires forall p, q {:trigger IsMarker(s[p..q])} :: 0 <= p < i && p <= q <= |s| ==> !IsMarker(s[p..q])
    ensures forall q :: 0 <= q <= |s| ==> !IsMarker(s[0..q])
    ensures forall p, q :: 0 <= p < i - 1 && p <= q <= |s| - 1 ==> !IsMarker(s[1..][p..q])
  {
    forall p, q | 0 <= p < i - 1 && p <= q <= |s| - 1 ensures !IsMarker(s[1..][p..q]) {
      assert s[1..][p..q] == s[p + 1..q + 1];
    }
  }

  /**
   * Stripping removes exactly the leftmost marker and keeps everything before
   * it: when `s[i..k]` is a marker and no marker starts before `i`, the text
   * up to `i` is kept as it is and stripping resumes at `k`.
   */
  lemma {:induction false} FirstMarkerRemoved(s: string, i: nat, k: nat)
    requires i <= k <= |s| && IsMarker(s[i..k])
    requires forall p, q {:trigger IsMarker(s[p..q])} :: 0 <= p < i && p <= q <= |s| ==> !IsMarker(s[p..q])
    ensures RemoveExcerptMarkers(s) == s[..i] + RemoveExcerptMarkers(s[k..])
    decreases i
  {
    if i == 0 {
      MarkerAtStartRemoved(s, k);
    } else {
      var t := s[1..];
      NoMarkerBeforeTail(s, i);
      NoMarkerAtStart(s);
      assert t[i - 1..k - 1] == s[i..k];
      FirstMarkerRemoved(t, i - 1, k - 1);
      KeptHead(s, i, k);
    }
  }

  /** A marker at the start is removed and stripping resumes after it. */
  lemma MarkerAtStartRemoved(s: string, k: nat)
    requires k <= |s| && IsMarker(s[0..k])
    ensures RemoveExcerptMarkers(s) == RemoveExcerptMarkers(s[k..])
  {
    assert s[..k] == s[0..k];
    MarkerMatchComplete(s, k);
  }

  /** A first character that starts no match is kept ahead of the tail's stripped text. */
  lemma KeptHead(s: string, i: nat, k: nat)
    requires 0 < i <= k <= |s| && MarkerMatch(s) == 0
    requires RemoveExcerptMarkers(s[1..]) == s[1..][..i - 1] + RemoveExcerptMarkers(s[1..][k - 1..])
    ensures RemoveExcerptMarkers(s) == s[..i] + RemoveExcerptMarkers(s[k..])
  {
    UnmatchedHeadKept(s);
    assert s[1..][k - 1..] == s[k..];
    ConsPrefix(s, i, RemoveExcerptMarkers(s[k..]));
  }

  /** The first character followed by the next `i - 1` is the prefix of length `i`. */
  lemma ConsPrefix(s: string, i: nat, rest: string)
    requires 0 < i <= |s|
    ensures [s[0]] + (s[1..][..i - 1] + rest) == s[..i] + rest
  {
    assert [s[0]] + s[1..][..i - 1] == s[..i];
  }

  /** Where no match starts, the first character is kept. */
  lemma UnmatchedHeadKept(s: string)
    requires s != [] && MarkerMatch(s) == 0
    ensures RemoveExcerptMarkers(s) == [s[0]] + RemoveExcerptMarkers(s[1..])
  {
  }

  /** Stripping leaves the text as it is exactly when it holds no marker. */
  lemma RemovalUnchangedIff(s: string)
    ensures RemoveExcerptMarkers(s) == s <==> !HasMarker(s)
  {
    if HasMarker(s) {
      var i, k :| 0 <= i <= k <= |s| && IsMarker(s[i..k]);
      MarkerShortens(s, i, k);
    } else {
      NoMarkerUnchanged(s);
    }
  }
}
