/**
 * The short course label printed in exported timetables: the initials of
 * the words of the course name.
 */
module Abbreviation {
  import opened Wrappers

  /** A character of a `\w` word: an ASCII letter, digit or underscore. */
  predicate IsWordChar(ch: char) {
    ('a' <= ch <= 'z') || ('A' <= ch <= 'Z') || ('0' <= ch <= '9') || ch == '_'
  }

  /** `str.upper()` on one character, for the ASCII letters. */
  function UpperChar(ch: char): (u: char)
    ensures 'a' <= ch <= 'z' ==> 'A' <= u <= 'Z' && u as int - ch as int == 'A' as int - 'a' as int
    ensures !('a' <= ch <= 'z') ==> u == ch
  {
    if 'a' <= ch <= 'z' then (ch as int - 'a' as int + 'A' as int) as char else ch
  }

  function Upper(s: string): (u: string)
    ensures |u| == |s|
    ensures forall i :: 0 <= i < |s| ==> u[i] == UpperChar(s[i])
  {
    if s == [] then [] else [UpperChar(s[0])] + Upper(s[1..])
  }

  /** The length of the run of word characters at the front of `s`. */
  function RunLength(s: string): (n: nat)
    ensures n <= |s|
    ensures forall i :: 0 <= i < n ==> IsWordChar(s[i])
    ensures n < |s| ==> !IsWordChar(s[n])
  {
    if s == [] || !IsWordChar(s[0]) then 0 else 1 + RunLength(s[1..])
  }

  /** `re.findall(r'\b\w+\b', s)`: the maximal runs of word characters, in
    * order. Every word is non-empty and made of word characters only. */
  function Words(s: string): (ws: seq<string>)
    ensures forall w :: w in ws ==> w != [] && forall i :: 0 <= i < |w| ==> IsWordChar(w[i])
    decreases |s|
  {
    if s == [] then []
    else if !IsWordChar(s[0]) then Words(s[1..])
    else
      var n := RunLength(s);
      [s[..n]] + Words(s[n..])
  }

  /** `w` occurs in `s` at position `i` as a maximal run of word
    * characters: no word character touches it on either side. */
  ghost predicate RunAt(s: string, i: nat, w: string) {
    && w != [] && i + |w| <= |s| && s[i..i + |w|] == w
    && (forall k :: 0 <= k < |w| ==> IsWordChar(w[k]))
    && (i == 0 || !IsWordChar(s[i - 1]))
    && (i + |w| == |s| || !IsWordChar(s[i + |w|]))
  }

  /** Where each word of `s` starts. */
  function WordStarts(s: string): (r: seq<nat>)
    ensures |r| == |Words(s)|
    decreases |s|
  {
    if s == [] then []
    else if !IsWordChar(s[0]) then Shift(WordStarts(s[1..]), 1)
    else
      var n := RunLength(s);
      [0] + Shift(WordStarts(s[n..]), n)
  }

  function Shift(xs: seq<nat>, d: nat): (r: seq<nat>)
    ensures |r| == |xs| && forall k :: 0 <= k < |xs| ==> r[k] == xs[k] + d
  {
    seq(|xs|, k requires 0 <= k < |xs| => xs[k] + d)
  }

  /** The `k`-th of `words` is a maximal run of `s` starting at the `k`-th
    * of `starts`, and the starts increase. */
  ghost predicate MaximalRuns(s: string, starts: seq<nat>, words: seq<string>) {
    && |starts| == |words|
    && (forall k :: 0 <= k < |words| ==> RunAt(s, starts[k], words[k]))
    && (forall k, l :: 0 <= k < l < |starts| ==> starts[k] < starts[l])
  }

  /** The words are the maximal runs of word characters of `s`, from left
    * to right. */
  lemma {:induction false} WordsAreMaximalRuns(s: string)
    ensures MaximalRuns(s, WordStarts(s), Words(s))
    decreases |s|
  {
    if s != [] {
      if !IsWordChar(s[0]) {
        var t := s[1..];
        WordsAreMaximalRuns(t);
        SkipKeepsRuns(s, WordStarts(t), Words(t));
      } else {
        var n := RunLength(s);
        var t := s[n..];
        WordsAreMaximalRuns(t);
        RunThenRuns(s, n, WordStarts(t), Words(t));
      }
    }
  }

  /** A leading separator shifts every run by one. */
  lemma SkipKeepsRuns(s: string, starts: seq<nat>, words: seq<string>)
    requires s != [] && !IsWordChar(s[0])
    requires MaximalRuns(s[1..], starts, words)
    ensures MaximalRuns(s, Shift(starts, 1), words)
  {
    forall k | 0 <= k < |words| ensures RunAt(s, starts[k] + 1, words[k]) {
      RunShifted(s, 1, starts[k], words[k]);
    }
  }

  /** A leading run of length `n` is the first word, and the runs after it
    * shift by `n`. */
  lemma RunThenRuns(s: string, n: nat, starts: seq<nat>, words: seq<string>)
    requires 0 < n <= |s| && forall k :: 0 <= k < n ==> IsWordChar(s[k])
    requires n < |s| ==> !IsWordChar(s[n])
    requires MaximalRuns(s[n..], starts, words)
    ensures MaximalRuns(s, [0] + Shift(starts, n), [s[..n]] + words)
  {
    LeadingRun(s, n);
    LaterRuns(s, n, starts, words);
    var later := Shift(starts, n);
    forall k, l | 0 <= k < l < |later| ensures later[k] < later[l] {
      assert starts[k] < starts[l];
    }
    ConsRuns(s, 0, s[..n], later, words);
  }

  /** A run before a left-to-right list of runs extends it. */
  lemma ConsRuns(s: string, i: nat, w: string, starts: seq<nat>, words: seq<string>)
    requires RunAt(s, i, w)
    requires |starts| == |words| && forall k :: 0 <= k < |words| ==> RunAt(s, starts[k], words[k]) && i < starts[k]
    requires forall k, l :: 0 <= k < l < |starts| ==> starts[k] < starts[l]
    ensures MaximalRuns(s, [i] + starts, [w] + words)
  {
    var allStarts, allWords := [i] + starts, [w] + words;
    forall k | 0 <= k < |allWords| ensures RunAt(s, allStarts[k], allWords[k]) {
      if k > 0 {
        assert allStarts[k] == starts[k - 1] && allWords[k] == words[k - 1];
      }
    }
    forall k, l | 0 <= k < l < |allStarts| ensures allStarts[k] < allStarts[l] {
      if k > 0 {
        assert starts[k - 1] < starts[l - 1];
      }
    }
  }

  lemma LeadingRun(s: string, n: nat)
    requires 0 < n <= |s| && forall k :: 0 <= k < n ==> IsWordChar(s[k])
    requires n < |s| ==> !IsWordChar(s[n])
    ensures RunAt(s, 0, s[..n])
  {
    assert s[0..0 + n] == s[..n];
  }

  /** The runs of `s[n..]` lie after position `n` of `s` and are runs of `s`. */
  lemma LaterRuns(s: string, n: nat, starts: seq<nat>, words: seq<string>)
    requires 0 < n <= |s|
    requires n < |s| ==> !IsWordChar(s[n])
    requires MaximalRuns(s[n..], starts, words)
    ensures forall k :: 0 <= k < |words| ==> RunAt(s, starts[k] + n, words[k]) && starts[k] > 0
  {
    forall k | 0 <= k < |words| ensures RunAt(s, starts[k] + n, words[k]) && starts[k] > 0 {
      var w := words[k];
      assert RunAt(s[n..], starts[k], w);
      RunShifted(s, n, starts[k], w);
    }
  }

  /** A maximal run of the suffix `s[d..]` away from its front is a maximal
    * run of `s`. */
  lemma RunShifted(s: string, d: nat, i: nat, w: string)
    requires d <= |s| && RunAt(s[d..], i, w)
    requires i == 0 ==> d == 0 || !IsWordChar(s[d - 1])
    ensures RunAt(s, i + d, w)
  {
    assert s[i + d..i + d + |w|] == s[d..][i..i + |w|];
    if i > 0 {
      assert s[i + d - 1] == s[d..][i - 1];
    }
    if i + |w| < |s[d..]| {
      assert s[i + d + |w|] == s[d..][i + |w|];
    }
  }

  /** The word characters of `s`, in order. */
  function WordChars(s: string): seq<char> {
    if s == [] then [] else (if IsWordChar(s[0]) then [s[0]] else []) + WordChars(s[1..])
  }

  function Concat(ws: seq<string>): string {
    if ws == [] then [] else ws[0] + Concat(ws[1..])
  }

  lemma {:induction false} WordCharsAppend(a: string, b: string)
    ensures WordChars(a + b) == WordChars(a) + WordChars(b)
  {
    if a != [] {
      assert (a + b)[1..] == a[1..] + b;
      WordCharsAppend(a[1..], b);
    } else {
      assert a + b == b;
    }
  }

  lemma {:induction false} WordCharsOfRun(s: string)
    requires forall i :: 0 <= i < |s| ==> IsWordChar(s[i])
    ensures WordChars(s) == s
  {
    if s != [] {
      WordCharsOfRun(s[1..]);
    }
  }

  /** Nothing but separators is dropped: the words put together are the
    * word characters of the name. */
  lemma {:induction false} WordsCoverWordChars(s: string)
    ensures Concat(Words(s)) == WordChars(s)
    decreases |s|
  {
    if s != [] {
      if !IsWordChar(s[0]) {
        WordsCoverWordChars(s[1..]);
      } else {
        var n := RunLength(s);
        WordsCoverWordChars(s[n..]);
        assert s == s[..n] + s[n..];
        WordCharsAppend(s[..n], s[n..]);
        WordCharsOfRun(s[..n]);
        var ws := [s[..n]] + Words(s[n..]);
        assert ws[0] == s[..n] && ws[1..] == Words(s[n..]);
      }
    }
  }

  /** A name has no words exactly when it has no word character. */
  lemma {:induction false} NoWordsIff(s: string)
    ensures Words(s) == [] <==> forall i :: 0 <= i < |s| ==> !IsWordChar(s[i])
  {
    if s != [] {
      if !IsWordChar(s[0]) {
        NoWordsIff(s[1..]);
        if Words(s) == [] {
          forall i | 0 <= i < |s| ensures !IsWordChar(s[i]) {
            if i > 0 {
              assert s[i] == s[1..][i - 1];
            }
          }
        }
      }
    }
  }

  /** `abbreviate_course_name`: "UNK" for a missing or empty name, the
    * first three characters upper-cased when the name has no word, and
    * otherwise the upper-cased first letter of each word. */
  function AbbreviateCourseName(name: Option<string>): (r: string)
    ensures name.None? || name.value == [] ==> r == "UNK"
    ensures name.Some? && name.value != [] && Words(name.value) == [] ==>
              r == Upper(name.value)[..if |name.value| < 3 then |name.value| else 3]
    ensures name.Some? && Words(name.value) != [] ==>
              |r| == |Words(name.value)|
              && forall k :: 0 <= k < |r| ==> Words(name.value)[k] != [] && r[k] == UpperChar(Words(name.value)[k][0])
  {
    if name.None? || name.value == [] then "UNK"
    else
      var words := Words(name.value);
      if words == [] then
        var u := Upper(name.value);
        u[..if |u| < 3 then |u| else 3]
      else
        assert forall k :: 0 <= k < |words| ==> words[k] in words;
        Initials(words)
  }

  /** `''.join(word[0].upper() for word in words)`. */
  function Initials(words: seq<string>): (r: string)
    requires forall k :: 0 <= k < |words| ==> words[k] != []
    ensures |r| == |words|
    ensures forall k :: 0 <= k < |words| ==> r[k] == UpperChar(words[k][0])
  {
    if words == [] then [] else [UpperChar(words[0][0])] + Initials(words[1..])
  }

  /** The fallback keeps the name's separators, at most three of them, and
    * the usual label consists of word characters only. */
  lemma AbbreviationChars(name: string)
    requires name != []
    ensures var r := AbbreviateCourseName(Some(name));
              (exists i :: 0 <= i < |name| && IsWordChar(name[i])) <==>
              forall k :: 0 <= k < |r| ==> IsWordChar(r[k])
  {
    NoWordsIff(name);
    var r := AbbreviateCourseName(Some(name));
    if Words(name) == [] {
      assert r[0] == UpperChar(name[0]);
    } else {
      forall k | 0 <= k < |r| ensures IsWordChar(r[k]) {
        assert Words(name)[k] in Words(name);
      }
    }
  }
}
