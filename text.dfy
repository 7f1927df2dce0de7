/**
 * The Python string and list built-ins the hook relies on: whitespace
 * (`str.isspace`, which is also what the regex class `\s` matches on `str`
 * patterns), `lstrip`/`strip`, `startswith`, case-insensitive letters,
 * `str.split("\n")`, `"\n".join(...)` and `list.insert`.
 */
module Text {

  /** Python's whitespace set: `str.isspace()` and regex `\s` on `str`. */
  predicate IsSpace(c: char) {
    ('\t' <= c <= '\r') || ('\U{1c}' <= c <= '\U{1f}') || c == ' '
    || c == '\U{85}' || c == '\U{a0}' || c == '\U{1680}'
    || ('\U{2000}' <= c <= '\U{200a}') || c == '\U{2028}' || c == '\U{2029}'
    || c == '\U{202f}' || c == '\U{205f}' || c == '\U{3000}'
  }

  predicate AllSpace(s: string) {
    forall i :: 0 <= i < |s| ==> IsSpace(s[i])
  }

  /** Length of the longest run of whitespace that starts at `s[i]`. */
  function SpaceRun(s: string, i: nat): (n: nat)
    requires i <= |s|
    ensures i + n <= |s|
    ensures AllSpace(s[i..i + n])
    ensures i + n == |s| || !IsSpace(s[i + n])
    decreases |s| - i
  {
    if i < |s| && IsSpace(s[i]) then 1 + SpaceRun(s, i + 1) else 0
  }

  /** `s.lstrip()`: what a pattern anchored by `^\s*` sees after the indentation. */
  function TrimLeft(s: string): (r: string)
    ensures |r| <= |s| && r == s[|s| - |r|..]
    ensures AllSpace(s[..|s| - |r|])
    ensures r == [] || !IsSpace(r[0])
  {
    s[SpaceRun(s, 0)..]
  }

  /** `s.rstrip()`. */
  function TrimRight(s: string): (r: string)
    ensures |r| <= |s| && r == s[..|r|]
    ensures AllSpace(s[|r|..])
    ensures r == [] || !IsSpace(r[|r| - 1])
  {
    if s != [] && IsSpace(s[|s| - 1]) then
      var t := s[..|s| - 1];
      var r := TrimRight(t);
      assert t[..|r|] == s[..|r|] && s[|r|..] == t[|r|..] + [s[|s| - 1]];
      r
    else s
  }

  /** `s.strip()`. */
  function Strip(s: string): string {
    TrimRight(TrimLeft(s))
  }

  /** `s.strip()` is empty exactly when `s` is all whitespace. */
  lemma StripEmptyIffAllSpace(s: string)
    ensures Strip(s) == [] <==> AllSpace(s)
  {
    var l := TrimLeft(s);
    if Strip(s) == [] {
      assert l == [];
      assert s == s[..|s| - |l|];
    }
  }

  predicate StartsWith(s: string, prefix: string) {
    |prefix| <= |s| && s[..|prefix|] == prefix
  }

  /**
   * `c` matches the lower-case ASCII letter `t` under `re.IGNORECASE`:
   * Python compares simple lower-case forms, which adds U+0130 and U+0131
   * to `i` and U+017F to `s`.
   */
  predicate FoldsTo(c: char, t: char)
    requires 'a' <= t <= 'z'
  {
    c == t || c as int == t as int - 32
    || (t == 'i' && (c == '\U{130}' || c == '\U{131}'))
    || (t == 's' && c == '\U{17f}')
  }

  /** `w` matches the lower-case ASCII word `word` under `re.IGNORECASE`. */
  predicate FoldsWord(w: string, word: string)
    requires forall i :: 0 <= i < |word| ==> 'a' <= word[i] <= 'z'
  {
    |w| == |word| && forall i :: 0 <= i < |w| ==> FoldsTo(w[i], word[i])
  }

  /** `s.replace("\\", "/")`. */
  function NormalizeSeparators(s: string): (r: string)
    ensures |r| == |s|
    ensures forall i :: 0 <= i < |s| ==> r[i] == if s[i] == '\\' then '/' else s[i]
  {
    if s == [] then [] else [if s[0] == '\\' then '/' else s[0]] + NormalizeSeparators(s[1..])
  }

  /** `s.split("\n")`: one more part than there are newlines, none holding a newline. */
  function Split(s: string): (parts: seq<string>)
    ensures |parts| >= 1
    ensures forall i :: 0 <= i < |parts| ==> '\n' !in parts[i]
  {
    if s == [] then [""]
    else
      var rest := Split(s[1..]);
      if s[0] == '\n' then [""] + rest else [[s[0]] + rest[0]] + rest[1..]
  }

  /** `"\n".join(parts)`. */
  function Join(parts: seq<string>): string {
    if |parts| == 0 then ""
    else if |parts| == 1 then parts[0]
    else parts[0] + "\n" + Join(parts[1..])
  }

  /** Joining the parts of a split gives back the text. */
  lemma {:induction false} JoinSplit(s: string)
    ensures Join(Split(s)) == s
  {
    if s != [] {
      var rest := Split(s[1..]);
      JoinSplit(s[1..]);
      if s[0] == '\n' {
        assert Split(s) == [""] + rest;
        assert ([""] + rest)[1..] == rest;
      } else {
        var head := [s[0]] + rest[0];
        assert Split(s) == [head] + rest[1..];
        if |rest| == 1 {
          assert Join(rest) == rest[0];
        } else {
          assert ([head] + rest[1..])[1..] == rest[1..];
          assert Join(rest) == rest[0] + "\n" + Join(rest[1..]);
          assert Join(Split(s)) == head + "\n" + Join(rest[1..]);
        }
        assert s == [s[0]] + s[1..];
      }
    }
  }

  /** A line without a newline, followed by a newline, splits off as one part. */
  lemma {:induction false} SplitAfterLine(a: string, b: string)
    requires '\n' !in a
    ensures Split(a + "\n" + b) == [a] + Split(b)
  {
    if a == [] {
      assert ("" + "\n" + b)[1..] == b;
    } else {
      var t := a + "\n" + b;
      assert t[1..] == a[1..] + "\n" + b;
      assert '\n' !in a[1..] by {
        forall c | c in a[1..] ensures c in a { }
      }
      SplitAfterLine(a[1..], b);
      assert t[0] == a[0] != '\n';
      assert [a[0]] + a[1..] == a;
    }
  }

  /** Splitting a join of newline-free parts gives back the parts. */
  lemma {:induction false} SplitJoin(parts: seq<string>)
    requires |parts| >= 1
    requires forall i :: 0 <= i < |parts| ==> '\n' !in parts[i]
    ensures Split(Join(parts)) == parts
  {
    if |parts| == 1 {
      SplitNoNewline(parts[0]);
    } else {
      SplitJoin(parts[1..]);
      SplitAfterLine(parts[0], Join(parts[1..]));
      assert [parts[0]] + parts[1..] == parts;
    }
  }

  /** A text without a newline splits into itself. */
  lemma {:induction false} SplitNoNewline(s: string)
    requires '\n' !in s
    ensures Split(s) == [s]
  {
    if s != [] {
      assert '\n' !in s[1..] by {
        forall c | c in s[1..] ensures c in s { }
      }
      SplitNoNewline(s[1..]);
      assert [s[0]] + s[1..] == s;
    }
  }

  /** Joining two non-empty runs of parts puts one newline between their joins. */
  lemma {:induction false} JoinAppend(a: seq<string>, b: seq<string>)
    requires |a| >= 1 && |b| >= 1
    ensures Join(a + b) == Join(a) + "\n" + Join(b)
  {
    if |a| == 1 {
      assert (a + b)[1..] == b;
    } else {
      assert (a + b)[1..] == a[1..] + b;
      JoinAppend(a[1..], b);
    }
  }

  /** Joining after a one-element splice at `p > 0` puts that element on its own line(s). */
  lemma JoinSplice(parts: seq<string>, p: nat, x: string)
    requires 0 < p <= |parts|
    ensures Join(parts[..p] + [x] + parts[p..])
      == Join(parts[..p]) + "\n" + x + (if p < |parts| then "\n" + Join(parts[p..]) else "")
  {
    var tail := [x] + parts[p..];
    assert parts[..p] + [x] + parts[p..] == parts[..p] + tail;
    JoinAppend(parts[..p], tail);
    if p < |parts| {
      assert tail[1..] == parts[p..];
    }
  }

  /**
   * Python's `list.insert` position: a negative index counts from the end,
   * and the result is clamped to `[0, n]`.
   */
  function InsertPosition(i: int, n: nat): (k: nat)
    ensures k <= n
    ensures 0 <= i <= n ==> k == i
  {
    if i < 0 then (if i + n < 0 then 0 else i + n) else if i > n then n else i
  }

  /** `s.insert(i, x)` on a Python list, as the list it leaves behind. */
  function Insert<T>(s: seq<T>, i: int, x: T): (r: seq<T>)
    ensures |r| == |s| + 1
    ensures var k := InsertPosition(i, |s|);
      r[k] == x && r[..k] == s[..k] && r[k + 1..] == s[k..]
  {
    var k := InsertPosition(i, |s|);
    s[..k] + [x] + s[k..]
  }

  /** Two inserts at consecutive positions splice both elements in, in order. */
  lemma InsertTwice<T>(s: seq<T>, k: nat, x: T, y: T)
    requires k <= |s|
    ensures Insert(Insert(s, k, x), k + 1, y) == s[..k] + [x, y] + s[k..]
  {
    var t := Insert(s, k, x);
    assert t == s[..k] + [x] + s[k..];
    assert t[..k + 1] == s[..k] + [x] && t[k + 1..] == s[k..];
  }
}
