/** Candidate generation of suggest.py: every string one deletion, insertion
    or substitution away from a word, and the two-step closure of that set.
    The ghost sets are the reference definitions; the methods build the lists
    the way the source does and are proved to list exactly those sets. */
module Edits {
  import opened Lists
  import opened Text

  /** `ALPHA`, the fixed alphabet of inserted and substituted letters. */
  const Alpha: string := "abcdefghijklmnopqrstuvwxyz"

  /** The alphabet holds exactly the lowercase letters a-z that corpus keys
      are made of. */
  lemma AlphaIsLowerLetters(c: char)
    ensures c in Alpha <==> IsLowerLetter(c)
  {
    if IsLowerLetter(c) {
      assert Alpha[c as int - 'a' as int] == c;
    }
  }

  /** `word[:i] + word[i+1:]` */
  function Delete(w: string, i: nat): string
    requires i < |w|
  {
    w[..i] + w[i + 1..]
  }

  /** `word[:i] + letter + word[i:]` */
  function Insert(w: string, i: nat, c: char): string
    requires i <= |w|
  {
    w[..i] + [c] + w[i..]
  }

  /** `word[:i] + letter + word[i+1:]` */
  function Substitute(w: string, i: nat, c: char): string
    requires i < |w|
  {
    w[..i] + [c] + w[i + 1..]
  }

  /** Deleting a character is undone by inserting it back where it was. */
  lemma InsertUndoesDelete(w: string, i: nat)
    requires i < |w|
    ensures |Delete(w, i)| == |w| - 1
    ensures Insert(Delete(w, i), i, w[i]) == w
  {
    assert w == w[..i] + [w[i]] + w[i + 1..];
  }

  /** Inserting a character is undone by deleting it again. */
  lemma DeleteUndoesInsert(w: string, i: nat, c: char)
    requires i <= |w|
    ensures |Insert(w, i, c)| == |w| + 1 && Insert(w, i, c)[i] == c
    ensures Delete(Insert(w, i, c), i) == w
  {
    var x := Insert(w, i, c);
    assert x[..i] == w[..i];
    assert x[i + 1..] == w[i..];
  }

  /** A substitution changes at most position `i`, and substituting a
      character by itself is the identity. */
  lemma SubstituteAgrees(w: string, i: nat, c: char)
    requires i < |w|
    ensures |Substitute(w, i, c)| == |w| && Substitute(w, i, c)[i] == c
    ensures forall j :: 0 <= j < |w| && j != i ==> Substitute(w, i, c)[j] == w[j]
    ensures c == w[i] ==> Substitute(w, i, c) == w
  {
    var x := Substitute(w, i, c);
    forall j | 0 <= j < |w| && j != i
      ensures x[j] == w[j]
    {
      if j < i {
        assert x[j] == w[..i][j];
      } else {
        assert x[j] == w[i + 1..][j - i - 1];
      }
    }
    if c == w[i] {
      assert x == w;
    }
  }

  ghost function Deletions(w: string): set<string> {
    set i | 0 <= i < |w| :: Delete(w, i)
  }

  /** Insertion positions are 0 .. |w| - 1 only: the loop is `range(len(word))`,
      so a letter is never appended after the last character. */
  ghost function Insertions(w: string): set<string> {
    set i, c | 0 <= i < |w| && c in Alpha :: Insert(w, i, c)
  }

  /** The identity substitution is not excluded. */
  ghost function Substitutions(w: string): set<string> {
    set i, c | 0 <= i < |w| && c in Alpha :: Substitute(w, i, c)
  }

  /** The strings `compute_ones` produces, as a set. */
  ghost function OneEdits(w: string): set<string> {
    Deletions(w) + Insertions(w) + Substitutions(w)
  }

  /** The strings `compute_twos` produces, as a set: one edit applied to every
      member of the one-edit set. The word itself is not removed. */
  ghost function TwoEdits(w: string): set<string> {
    set e, x | e in OneEdits(w) && x in OneEdits(e) :: x
  }

  /** `compute_deletions`: the i-th string is `word` without its i-th character. */
  method ComputeDeletions(word: string) returns (edits: seq<string>)
    ensures |edits| == |word|
    ensures forall i :: 0 <= i < |word| ==>
      |edits[i]| == |word| - 1 && Insert(edits[i], i, word[i]) == word
    ensures forall x :: x in edits <==> x in Deletions(word)
  {
    edits := [];
    for i := 0 to |word|
      invariant |edits| == i
      invariant forall j :: 0 <= j < i ==> edits[j] == Delete(word, j)
    {
      edits := edits + [word[..i] + word[i + 1..]];
    }
    forall i | 0 <= i < |word|
      ensures |edits[i]| == |word| - 1 && Insert(edits[i], i, word[i]) == word
    {
      InsertUndoesDelete(word, i);
    }
  }

  /** `compute_insertions`: entry `26 * i + k` is letter `k` of the alphabet
      inserted before position `i`. */
  method ComputeInsertions(word: string) returns (edits: seq<string>)
    ensures |edits| == 26 * |word|
    ensures forall p :: 0 <= p < |edits| ==>
      |edits[p]| == |word| + 1 && edits[p][p / 26] == Alpha[p % 26] &&
      Delete(edits[p], p / 26) == word
    ensures forall x :: x in edits <==> x in Insertions(word)
  {
    edits := [];
    for i := 0 to |word|
      invariant |edits| == 26 * i
      invariant forall p :: 0 <= p < |edits| ==> p / 26 < |word| && edits[p] == Insert(word, p / 26, Alpha[p % 26])
    {
      for k := 0 to |Alpha|
        invariant |edits| == 26 * i + k
        invariant forall p :: 0 <= p < |edits| ==> p / 26 < |word| && edits[p] == Insert(word, p / 26, Alpha[p % 26])
      {
        edits := edits + [word[..i] + [Alpha[k]] + word[i..]];
      }
    }
    InsertionsListed(word, edits);
  }

  /** What the loops of `compute_insertions` build, entry by entry, lists
      exactly the insertions of the word. */
  lemma InsertionsListed(word: string, edits: seq<string>)
    requires |edits| == 26 * |word|
    requires forall p :: 0 <= p < |edits| ==> p / 26 < |word| && edits[p] == Insert(word, p / 26, Alpha[p % 26])
    ensures forall p :: 0 <= p < |edits| ==>
      |edits[p]| == |word| + 1 && edits[p][p / 26] == Alpha[p % 26] &&
      Delete(edits[p], p / 26) == word
    ensures forall x :: x in edits <==> x in Insertions(word)
  {
    forall p | 0 <= p < |edits|
      ensures |edits[p]| == |word| + 1 && edits[p][p / 26] == Alpha[p % 26]
      ensures Delete(edits[p], p / 26) == word
    {
      DeleteUndoesInsert(word, p / 26, Alpha[p % 26]);
    }
    forall p | 0 <= p < |edits|
      ensures edits[p] in Insertions(word)
    {
      var i, c := p / 26, Alpha[p % 26];
      assert 0 <= i < |word| && c in Alpha && edits[p] == Insert(word, i, c);
    }
    forall x | x in Insertions(word)
      ensures x in edits
    {
      var i, c :| 0 <= i < |word| && c in Alpha && x == Insert(word, i, c);
      var k :| 0 <= k < |Alpha| && Alpha[k] == c;
      var p := 26 * i + k;
      assert p / 26 == i && p % 26 == k;
      assert 0 <= p < |edits| && edits[p] == x;
    }
  }

  /** `compute_substitutions`: entry `26 * i + k` is `word` with position `i`
      replaced by letter `k` of the alphabet. */
  method ComputeSubstitutions(word: string) returns (edits: seq<string>)
    ensures |edits| == 26 * |word|
    ensures forall p :: 0 <= p < |edits| ==>
      |edits[p]| == |word| && edits[p][p / 26] == Alpha[p % 26] &&
      forall j :: 0 <= j < |word| && j != p / 26 ==> edits[p][j] == word[j]
    ensures forall x :: x in edits <==> x in Substitutions(word)
    ensures (exists i :: 0 <= i < |word| && word[i] in Alpha) ==> word in edits
  {
    edits := [];
    for i := 0 to |word|
      invariant |edits| == 26 * i
      invariant forall p :: 0 <= p < |edits| ==> p / 26 < |word| && edits[p] == Substitute(word, p / 26, Alpha[p % 26])
    {
      for k := 0 to |Alpha|
        invariant |edits| == 26 * i + k
        invariant forall p :: 0 <= p < |edits| ==> p / 26 < |word| && edits[p] == Substitute(word, p / 26, Alpha[p % 26])
      {
        edits := edits + [word[..i] + [Alpha[k]] + word[i + 1..]];
      }
    }
    SubstitutionsAgree(word, edits);
    SubstitutionsListed(word, edits);
  }

  /** Every entry the loops of `compute_substitutions` build has the word's
      length and agrees with it outside the substituted position. */
  lemma SubstitutionsAgree(word: string, edits: seq<string>)
    requires |edits| == 26 * |word|
    requires forall p :: 0 <= p < |edits| ==> p / 26 < |word| && edits[p] == Substitute(word, p / 26, Alpha[p % 26])
    ensures forall p :: 0 <= p < |edits| ==>
      |edits[p]| == |word| && edits[p][p / 26] == Alpha[p % 26] &&
      forall j :: 0 <= j < |word| && j != p / 26 ==> edits[p][j] == word[j]
  {
    forall p | 0 <= p < |edits|
      ensures |edits[p]| == |word| && edits[p][p / 26] == Alpha[p % 26]
      ensures forall j :: 0 <= j < |word| && j != p / 26 ==> edits[p][j] == word[j]
    {
      SubstituteAgrees(word, p / 26, Alpha[p % 26]);
    }
  }

  /** The loops of `compute_substitutions` list exactly the substitutions of
      the word, the word itself among them when it has a letter a-z. */
  lemma SubstitutionsListed(word: string, edits: seq<string>)
    requires |edits| == 26 * |word|
    requires forall p :: 0 <= p < |edits| ==> p / 26 < |word| && edits[p] == Substitute(word, p / 26, Alpha[p % 26])
    ensures forall x :: x in edits <==> x in Substitutions(word)
    ensures (exists i :: 0 <= i < |word| && word[i] in Alpha) ==> word in edits
  {
    forall p | 0 <= p < |edits|
      ensures edits[p] in Substitutions(word)
    {
      var i, c := p / 26, Alpha[p % 26];
      assert 0 <= i < |word| && c in Alpha && edits[p] == Substitute(word, i, c);
    }
    forall x | x in Substitutions(word)
      ensures x in edits
    {
      var i, c :| 0 <= i < |word| && c in Alpha && x == Substitute(word, i, c);
      var k :| 0 <= k < |Alpha| && Alpha[k] == c;
      var p := 26 * i + k;
      assert p / 26 == i && p % 26 == k;
      assert 0 <= p < |edits| && edits[p] == x;
    }
    IdentitySubstitution(word);
  }

  /** `compute_ones`: the de-duplicated union of the three generators. */
  method ComputeOnes(word: string) returns (edits: seq<string>)
    ensures NoDuplicates(edits)
    ensures forall x :: x in edits <==> x in OneEdits(word)
  {
    var all: seq<string> := [];
    var deletions := ComputeDeletions(word);
    all := all + deletions;
    var insertions := ComputeInsertions(word);
    all := all + insertions;
    var substitutions := ComputeSubstitutions(word);
    all := all + substitutions;
    edits := Dedupe(all);
  }

  /** `compute_twos`: `compute_ones` of every one-edit candidate, de-duplicated. */
  method ComputeTwos(word: string) returns (twoEdits: seq<string>)
    ensures NoDuplicates(twoEdits)
    ensures forall x :: x in twoEdits <==> x in TwoEdits(word)
  {
    var all: seq<string> := [];
    var oneEdits := ComputeOnes(word);
    for i := 0 to |oneEdits|
      invariant forall x :: x in all <==> exists j :: 0 <= j < i && x in OneEdits(oneEdits[j])
    {
      var more := ComputeOnes(oneEdits[i]);
      all := all + more;
    }
    twoEdits := Dedupe(all);
    forall x | x in TwoEdits(word)
      ensures x in all
    {
      var e :| e in OneEdits(word) && x in OneEdits(e);
      var j :| 0 <= j < |oneEdits| && oneEdits[j] == e;
    }
  }

  /** A word with a letter of the alphabet is among its own substitutions. */
  lemma IdentitySubstitution(w: string)
    ensures (exists i :: 0 <= i < |w| && w[i] in Alpha) ==> w in Substitutions(w)
  {
    if i :| 0 <= i < |w| && w[i] in Alpha {
      SubstituteAgrees(w, i, w[i]);
    }
  }

  /** Every one-edit candidate is one character shorter, longer or the same length. */
  lemma OneEditLength(w: string, x: string)
    requires x in OneEdits(w)
    ensures |w| - 1 <= |x| <= |w| + 1
    ensures x in Deletions(w) ==> |x| == |w| - 1
    ensures x in Insertions(w) ==> |x| == |w| + 1
    ensures x in Substitutions(w) ==> |x| == |w|
  {
  }

  /** Every two-edit candidate is within two characters of the word's length. */
  lemma TwoEditLength(w: string, x: string)
    requires x in TwoEdits(w)
    ensures |w| - 2 <= |x| <= |w| + 2
  {
    var e :| e in OneEdits(w) && x in OneEdits(e);
    OneEditLength(w, e);
    OneEditLength(e, x);
  }

  /** The empty word has no candidates at all: no deletion, no insertion
      (there is no position below 0) and no substitution. */
  lemma EmptyWordHasNoEdits()
    ensures OneEdits("") == {}
    ensures TwoEdits("") == {}
  {
  }

  /** An insertion never changes the last character, so appending a different
      letter is never a one-edit candidate by insertion. */
  lemma InsertionKeepsLastChar(w: string, x: string)
    requires x in Insertions(w)
    ensures w != [] && x != [] && x[|x| - 1] == w[|w| - 1]
    ensures forall c :: c != w[|w| - 1] ==> x != w + [c]
  {
    var i, c :| 0 <= i < |w| && c in Alpha && x == Insert(w, i, c);
    assert x[|x| - 1] == w[i..][|w| - i - 1];
  }

  /** Because identity substitutions are kept, a word with a letter of the
      alphabet is its own one-edit candidate, every one-edit candidate is also
      a two-edit candidate, and the word is its own two-edit candidate. */
  lemma OneEditsWithinTwoEdits(w: string)
    requires exists i :: 0 <= i < |w| && w[i] in Alpha
    ensures w in OneEdits(w)
    ensures OneEdits(w) <= TwoEdits(w)
    ensures w in TwoEdits(w)
  {
    IdentitySubstitution(w);
    forall x | x in OneEdits(w)
      ensures x in TwoEdits(w)
    {
      assert w in OneEdits(w) && x in OneEdits(w);
    }
  }

  /** Appending needs two edits: "cat" is not a one-edit candidate of "ca"
      (no insertion goes after the last character), but it is a two-edit
      candidate, by substituting 't' for 'a' and then inserting 'a'. */
  lemma AppendTakesTwoEdits()
    ensures "cat" !in OneEdits("ca")
    ensures "cat" in TwoEdits("ca")
  {
    if "cat" in Insertions("ca") {
      InsertionKeepsLastChar("ca", "cat");
      assert false;
    }
    var e := Substitute("ca", 1, 't');
    assert e == "ct";
    assert e in OneEdits("ca");
    assert Insert(e, 1, 'a') == "cat";
    assert "cat" in OneEdits(e);
  }

  /** Two edits never append two letters: a two-edit candidate two characters
      longer than the word comes from two insertions, and insertions keep the
      last character. */
  lemma TwoEditsNeverAppend(w: string, x: string)
    requires x in TwoEdits(w) && |x| == |w| + 2
    ensures w != [] && x[|x| - 1] == w[|w| - 1]
  {
    var e :| e in OneEdits(w) && x in OneEdits(e);
    OneEditLength(w, e);
    OneEditLength(e, x);
    assert e in Insertions(w);
    assert x in Insertions(e);
    InsertionKeepsLastChar(w, e);
    InsertionKeepsLastChar(e, x);
  }

  /** An instance of `TwoEditsNeverAppend`: "cat" is at edit distance two from
      "c", as the comments on `suggest` count it, yet it is not a two-edit
      candidate of "c". */
  lemma TwoAppendsNotGenerated()
    ensures "cat" !in TwoEdits("c")
  {
    if "cat" in TwoEdits("c") {
      TwoEditsNeverAppend("c", "cat");
      assert false;
    }
  }
}
