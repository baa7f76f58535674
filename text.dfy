/** The string operations that `index_corpus` and the two suggestion entry
    points apply before any lookup: the regular-expression scrub of the corpus
    text, `str.split(' ')`, and ASCII `str.lower()`. */
module Text {

  predicate IsLetter(c: char) {
    'a' <= c <= 'z' || 'A' <= c <= 'Z'
  }

  predicate IsLowerLetter(c: char) {
    'a' <= c <= 'z'
  }

  /** A non-empty word of lowercase letters a-z: the shape of every corpus key. */
  predicate IsLowerWord(s: string) {
    s != [] && forall i :: 0 <= i < |s| ==> IsLowerLetter(s[i])
  }

  /** The characters the pattern `[^a-zA-Z ]+` does not match. */
  predicate IsKept(c: char) {
    IsLetter(c) || c == ' '
  }

  /** Drops the leading run of characters the pattern matches. */
  function DropRun(s: string): (r: string)
    ensures |r| <= |s|
    ensures r == s[|s| - |r|..]
    ensures r == [] || IsKept(r[0])
    ensures forall i :: 0 <= i < |s| - |r| ==> !IsKept(s[i])
  {
    if s != [] && !IsKept(s[0]) then
      var r := DropRun(s[1..]);
      assert forall i :: 1 <= i < |s| - |r| ==> s[1..][i - 1] == s[i];
      r
    else s
  }

  /** `re.sub('[^a-zA-Z ]+', ' ', s)`: every maximal run of characters other than
      ASCII letters and the space becomes one space. */
  function Scrub(s: string): (r: string)
    ensures forall i :: 0 <= i < |r| ==> IsKept(r[i])
    ensures |r| <= |s|
    decreases |s|
  {
    if s == [] then []
    else if IsKept(s[0]) then [s[0]] + Scrub(s[1..])
    else [' '] + Scrub(DropRun(s[1..]))
  }

  /** Text that already consists of letters and spaces is left as it is. */
  lemma {:induction false} ScrubKeepsCleanText(s: string)
    requires forall i :: 0 <= i < |s| ==> IsKept(s[i])
    ensures Scrub(s) == s
  {
    if s != [] {
      ScrubKeepsCleanText(s[1..]);
    }
  }

  /** A string ending in a kept character absorbs none of what follows into
      its leading run. */
  lemma {:induction false} DropRunConcat(u: string, t: string)
    requires u != [] && IsKept(u[|u| - 1])
    ensures DropRun(u + t) == DropRun(u) + t
  {
    if !IsKept(u[0]) {
      assert (u + t)[1..] == u[1..] + t;
      DropRunConcat(u[1..], t);
    }
  }

  /** A run of matched characters followed by a kept character (or by nothing)
      is dropped whole. */
  lemma {:induction false} DropRunSkips(r: string, b: string)
    requires forall i :: 0 <= i < |r| ==> !IsKept(r[i])
    requires b == [] || IsKept(b[0])
    ensures DropRun(r + b) == b
  {
    if r != [] {
      assert (r + b)[1..] == r[1..] + b;
      DropRunSkips(r[1..], b);
    } else {
      assert r + b == b;
    }
  }

  /** The scrub works piece by piece: text cut after a kept character scrubs to
      the scrub of its first part followed by the scrub of the rest. */
  lemma {:induction false} ScrubConcat(a: string, t: string)
    requires a == [] || IsKept(a[|a| - 1])
    ensures Scrub(a + t) == Scrub(a) + Scrub(t)
    decreases |a|
  {
    if a == [] {
      assert a + t == t;
    } else if IsKept(a[0]) {
      assert (a + t)[1..] == a[1..] + t;
      ScrubConcat(a[1..], t);
    } else {
      var u := a[1..];
      assert (a + t)[1..] == u + t;
      assert u != [] && u[|u| - 1] == a[|a| - 1];
      DropRunConcat(u, t);
      var d := DropRun(u);
      assert d != [];
      assert d[|d| - 1] == u[|u| - 1];
      ScrubConcat(d, t);
    }
  }

  /** A maximal run of matched characters becomes exactly one space. */
  lemma ScrubRun(r: string, b: string)
    requires r != [] && forall i :: 0 <= i < |r| ==> !IsKept(r[i])
    requires b == [] || IsKept(b[0])
    ensures Scrub(r + b) == " " + Scrub(b)
  {
    assert (r + b)[1..] == r[1..] + b;
    DropRunSkips(r[1..], b);
  }

  /** `s.split(' ')`: cuts at every single space, so consecutive spaces and a
      space at either end give empty tokens. */
  function Split(s: string): (r: seq<string>)
    ensures |r| >= 1
    ensures forall i :: 0 <= i < |r| ==> ' ' !in r[i]
    ensures forall i, j :: 0 <= i < |r| && 0 <= j < |r[i]| ==> r[i][j] in s
  {
    if s == [] then [[]]
    else
      var rest := Split(s[1..]);
      if s[0] == ' ' then [[]] + rest
      else [[s[0]] + rest[0]] + rest[1..]
  }

  /** `' '.join(parts)`. */
  function Join(parts: seq<string>): string
    requires |parts| >= 1
  {
    if |parts| == 1 then parts[0] else parts[0] + " " + Join(parts[1..])
  }

  /** Splitting loses nothing: joining the tokens with single spaces gives back
      the text. */
  lemma {:induction false} JoinSplit(s: string)
    ensures Join(Split(s)) == s
  {
    if s != [] {
      var rest := Split(s[1..]);
      JoinSplit(s[1..]);
      if s[0] == ' ' {
        assert Split(s)[1..] == rest;
      } else {
        var r := Split(s);
        assert r[0] == [s[0]] + rest[0];
        if |rest| == 1 {
          assert r == [[s[0]] + rest[0]];
        } else {
          assert r[1..] == rest[1..];
          assert Join(rest) == rest[0] + " " + Join(rest[1..]);
        }
      }
    }
  }

  /** ASCII `str.lower()` on one character. */
  function LowerChar(c: char): (d: char)
    ensures IsLetter(c) ==> IsLowerLetter(d)
    ensures 'A' <= c <= 'Z' ==> d as int == c as int - 'A' as int + 'a' as int
    ensures !('A' <= c <= 'Z') ==> d == c
  {
    if 'A' <= c <= 'Z' then (c as int - 'A' as int + 'a' as int) as char else c
  }

  /** ASCII `str.lower()`. */
  function Lower(s: string): (r: string)
    ensures |r| == |s|
    ensures forall i :: 0 <= i < |s| ==> r[i] == LowerChar(s[i])
  {
    if s == [] then [] else [LowerChar(s[0])] + Lower(s[1..])
  }

  /** A word that is already lowercase is its own lowercase form. */
  lemma LowerKeepsLowerWord(s: string)
    requires IsLowerWord(s)
    ensures Lower(s) == s
  {
  }
}
