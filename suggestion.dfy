/** Selection in suggest.py: `suggest` returns the word itself, else the
    one-edit corpus hit with the largest index, else the two-edit hit with
    the largest index, else the empty string; `suggest_list` returns the word
    followed by every corpus hit within two edits, sorted by index. */
module Suggestion {
  import opened Lists
  import opened Text
  import opened Edits
  import opened Corpus

  /** Every element of `xs` is a key of the index. */
  ghost predicate AllIndexed(xs: seq<string>, index: map<string, int>) {
    forall i :: 0 <= i < |xs| ==> xs[i] in index
  }

  /** Non-decreasing by index value. */
  ghost predicate SortedByIndex(xs: seq<string>, index: map<string, int>)
    requires AllIndexed(xs, index)
  {
    forall i, j :: 0 <= i < j < |xs| ==> index[xs[i]] <= index[xs[j]]
  }

  /** `s` is a corpus hit among `candidates` whose index no other hit exceeds. */
  ghost predicate IsMostRelevant(s: string, candidates: set<string>, index: map<string, int>) {
    && s in candidates && s in index
    && forall x :: x in candidates && x in index ==> index[x] <= index[s]
  }

  /** `sorted(vals, key=vals.get, reverse=True)[0]`: the first of the
      candidates with the largest index (the sort is stable). */
  function MostRelevant(xs: seq<string>, index: map<string, int>): (r: string)
    requires xs != [] && AllIndexed(xs, index)
    ensures r in xs && r in index
    ensures forall i :: 0 <= i < |xs| ==> index[xs[i]] <= index[r]
  {
    if |xs| == 1 then xs[0]
    else
      var best := MostRelevant(xs[1..], index);
      if index[best] > index[xs[0]] then best else xs[0]
  }

  /** Putting an element no larger than the head in front keeps a sequence sorted. */
  lemma ConsSorted(y: string, xs: seq<string>, index: map<string, int>)
    requires y in index && AllIndexed(xs, index) && SortedByIndex(xs, index)
    requires xs != [] ==> index[y] <= index[xs[0]]
    ensures AllIndexed([y] + xs, index) && SortedByIndex([y] + xs, index)
  {
    var r := [y] + xs;
    forall i | 0 < i < |r| ensures r[i] == xs[i - 1] { }
  }

  /** Inserts `x` before the first element whose index is not smaller, so
      ahead of elements with an equal index. */
  function InsertByIndex(x: string, xs: seq<string>, index: map<string, int>): (r: seq<string>)
    requires x in index && AllIndexed(xs, index) && SortedByIndex(xs, index)
    ensures AllIndexed(r, index) && SortedByIndex(r, index)
    ensures |r| == |xs| + 1 && (r[0] == x || (xs != [] && r[0] == xs[0]))
  {
    if xs == [] then [x]
    else if index[x] <= index[xs[0]] then
      ConsSorted(x, xs, index);
      [x] + xs
    else
      var rest := InsertByIndex(x, xs[1..], index);
      assert xs == [xs[0]] + xs[1..];
      assert rest[0] == x || rest[0] == xs[1];
      assert index[xs[0]] <= index[rest[0]];
      ConsSorted(xs[0], rest, index);
      [xs[0]] + rest
  }

  /** Insertion adds exactly one occurrence of the inserted element. */
  lemma {:induction false} InsertPermutes(x: string, xs: seq<string>, index: map<string, int>)
    requires x in index && AllIndexed(xs, index) && SortedByIndex(xs, index)
    ensures multiset(InsertByIndex(x, xs, index)) == multiset(xs) + multiset{x}
  {
    if xs != [] && index[x] > index[xs[0]] {
      assert xs == [xs[0]] + xs[1..];
      InsertPermutes(x, xs[1..], index);
    }
  }

  /** `sorted(xs, key=CORPUS.get)`: a permutation of `xs`, non-decreasing by
      index. */
  function SortByIndex(xs: seq<string>, index: map<string, int>): (r: seq<string>)
    requires AllIndexed(xs, index)
    ensures AllIndexed(r, index) && SortedByIndex(r, index)
    ensures multiset(r) == multiset(xs)
  {
    if xs == [] then []
    else
      var rest := SortByIndex(xs[1..], index);
      assert xs == [xs[0]] + xs[1..];
      InsertPermutes(xs[0], rest, index);
      InsertByIndex(xs[0], rest, index)
  }

  /** Filtering a list of candidates against the index and taking the most
      relevant hit: the hits are empty exactly when no candidate is a key, and
      otherwise the pick is a hit with the largest index. */
  lemma BestHit(candidates: seq<string>, cands: set<string>, index: map<string, int>)
    requires forall x :: x in candidates <==> x in cands
    ensures CleanWithCorpus(candidates, index) == [] <==> cands * index.Keys == {}
    ensures CleanWithCorpus(candidates, index) != [] ==>
      AllIndexed(CleanWithCorpus(candidates, index), index) &&
      IsMostRelevant(MostRelevant(CleanWithCorpus(candidates, index), index), cands, index)
  {
    var hits := CleanWithCorpus(candidates, index);
    if hits == [] {
      forall x | x in cands ensures x !in index {
        assert x in candidates;
      }
    } else {
      assert hits[0] in cands * index.Keys;
      var best := MostRelevant(hits, index);
      forall x | x in cands && x in index
        ensures index[x] <= index[best]
      {
        assert x in hits;
      }
    }
  }

  /** When different keys have different positions, as on an index built by
      `IndexCorpus`, the most relevant hit is unique, so the choice among
      equally relevant candidates never arises. */
  lemma MostRelevantUnique(s1: string, s2: string, candidates: set<string>, index: map<string, int>)
    requires forall k1, k2 :: k1 in index && k2 in index && k1 != k2 ==> index[k1] != index[k2]
    requires IsMostRelevant(s1, candidates, index) && IsMostRelevant(s2, candidates, index)
    ensures s1 == s2
  {
  }

  /** `suggest`: the lowercased word if it is a key; otherwise a one-edit
      candidate that is a key, with the largest index; otherwise such a
      two-edit candidate; otherwise the empty string, meaning no suggestion. */
  method Suggest(word: string, index: map<string, int>) returns (s: string)
    ensures s == "" || s in index
    ensures
      var w := Lower(word);
      if w in index then s == w
      else if OneEdits(w) * index.Keys != {} then IsMostRelevant(s, OneEdits(w), index)
      else if TwoEdits(w) * index.Keys != {} then IsMostRelevant(s, TwoEdits(w), index)
      else s == ""
  {
    var w := Lower(word);
    if w in index {
      return w;
    }
    var ones := ComputeOnes(w);
    var oneHits := CleanWithCorpus(ones, index);
    BestHit(ones, OneEdits(w), index);
    if oneHits != [] {
      s := MostRelevant(oneHits, index);
      return;
    }
    var twos := ComputeTwos(w);
    var twoHits := CleanWithCorpus(twos, index);
    BestHit(twos, TwoEdits(w), index);
    if twoHits != [] {
      s := MostRelevant(twoHits, index);
      return;
    }
    s := "";
  }

  /** `suggest_list`: the lowercased word, then every key of the index that is
      the word itself or one of its one- or two-edit candidates, once each,
      in non-decreasing order of index. */
  method SuggestList(word: string, index: map<string, int>) returns (r: seq<string>)
    ensures |r| >= 1 && r[0] == Lower(word)
    ensures NoDuplicates(r[1..])
    ensures forall x :: x in r[1..] <==>
      x in index && (x == Lower(word) || x in OneEdits(Lower(word)) || x in TwoEdits(Lower(word)))
    ensures AllIndexed(r[1..], index) && SortedByIndex(r[1..], index)
  {
    var w := Lower(word);
    var suggestions: seq<string> := [];
    if w in index {
      suggestions := suggestions + [w];
    }
    var ones := ComputeOnes(w);
    suggestions := suggestions + CleanWithCorpus(ones, index);
    var twos := ComputeTwos(w);
    suggestions := suggestions + CleanWithCorpus(twos, index);
    assert forall x :: x in suggestions <==>
      x in index && (x == w || x in OneEdits(w) || x in TwoEdits(w));
    suggestions := Dedupe(suggestions);
    assert AllIndexed(suggestions, index) by {
      forall i | 0 <= i < |suggestions| ensures suggestions[i] in index {
        assert suggestions[i] in suggestions;
      }
    }
    var sorted := SortByIndex(suggestions, index);
    PermutationKeepsNoDuplicates(suggestions, sorted);
    r := [w] + sorted;
    assert r[1..] == sorted;
    assert forall x :: x in sorted <==> x in multiset(sorted);
  }
}
