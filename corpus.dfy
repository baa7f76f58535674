/** The corpus index of suggest.py (`index_corpus`, `clean_with_corpus`): a map
    from lowercase word to the position of its last occurrence in the corpus
    text, and the membership filter over it. The text is passed in; reading
    the corpus file is not part of this model. */
module Corpus {
  import opened Text
  import opened Lists

  /** `CORPUS.pop('')` raises `KeyError` when no token was empty. */
  datatype Error = NoEmptyToken

  datatype Result<T> = Success(value: T) | Failure(error: Error)

  /** The tokens `index_corpus` enumerates: the scrubbed text split at every
      space. Empty tokens are kept and take up positions. */
  function Tokens(text: string): (tokens: seq<string>)
    ensures |tokens| >= 1
    ensures forall i, j :: 0 <= i < |tokens| && 0 <= j < |tokens[i]| ==> IsLetter(tokens[i][j])
  {
    var tokens := Split(Scrub(text));
    assert forall i, j :: 0 <= i < |tokens| && 0 <= j < |tokens[i]| ==> tokens[i][j] in Scrub(text);
    tokens
  }

  /** Proof bookkeeping for the indexing loop: the key each token is recorded
      under, its lowercase form. */
  ghost function Keys(tokens: seq<string>): seq<string> {
    seq(|tokens|, j requires 0 <= j < |tokens| => Lower(tokens[j]))
  }

  /** `index` maps exactly the first `n` keys, each to the position of its
      last occurrence among them. */
  ghost predicate IndexesLastOccurrences(index: map<string, int>, keys: seq<string>, n: nat)
    requires n <= |keys|
  {
    && (forall k :: k in index <==> exists j :: 0 <= j < n && keys[j] == k)
    && (forall k :: k in index ==>
          && 0 <= index[k] < n
          && keys[index[k]] == k
          && forall j :: index[k] < j < n ==> keys[j] != k)
  }

  /** `index_corpus`, on text instead of a file name, starting from the empty
      index that exists at import time. It fails exactly when no token is empty;
      otherwise every key is a non-empty lowercase word, every non-empty token
      has its lowercase form as a key, and each key maps to the position of its
      last occurrence among all tokens, empty ones included. */
  method IndexCorpus(text: string) returns (r: Result<map<string, int>>)
    ensures r.Failure? <==> "" !in Tokens(text)
    ensures r.Success? ==> forall k :: k in r.value ==> IsLowerWord(k)
    ensures r.Success? ==>
      var tokens := Tokens(text);
      forall j :: 0 <= j < |tokens| && tokens[j] != "" ==> Lower(tokens[j]) in r.value
    ensures r.Success? ==>
      var tokens := Tokens(text);
      forall k :: k in r.value ==>
        && 0 <= r.value[k] < |tokens|
        && Lower(tokens[r.value[k]]) == k
        && forall j :: r.value[k] < j < |tokens| ==> Lower(tokens[j]) != k
    ensures r.Success? ==>
      forall k1, k2 :: k1 in r.value && k2 in r.value && k1 != k2 ==> r.value[k1] != r.value[k2]
  {
    var tokens := Tokens(text);
    ghost var keys := Keys(tokens);
    var index: map<string, int> := map[];
    for idx := 0 to |tokens|
      invariant IndexesLastOccurrences(index, keys, idx)
    {
      IndexStep(index, keys, idx);
      index := index[Lower(tokens[idx]) := idx];
    }
    EmptyKeyIffEmptyToken(index, tokens);
    if "" !in index {
      return Failure(NoEmptyToken);
    }
    r := Success(index - {""});
    PoppedIndex(index, tokens);
  }

  /** One iteration of the indexing loop: recording key `n` at its position
      keeps the map an index of the last occurrences so far. */
  lemma IndexStep(index: map<string, int>, keys: seq<string>, n: nat)
    requires n < |keys|
    requires IndexesLastOccurrences(index, keys, n)
    ensures IndexesLastOccurrences(index[keys[n] := n], keys, n + 1)
  {
    var next := index[keys[n] := n];
    forall k | exists j :: 0 <= j < n + 1 && keys[j] == k
      ensures k in next
    {
      var j :| 0 <= j < n + 1 && keys[j] == k;
      if j < n {
        assert k in index;
      }
    }
  }

  /** The empty string is a key exactly when some token is empty. */
  lemma EmptyKeyIffEmptyToken(index: map<string, int>, tokens: seq<string>)
    requires IndexesLastOccurrences(index, Keys(tokens), |tokens|)
    ensures "" in index <==> "" in tokens
  {
    var keys := Keys(tokens);
    if "" in tokens {
      var j :| 0 <= j < |tokens| && tokens[j] == "";
      assert keys[j] == "";
    }
    if "" in index {
      var j :| 0 <= j < |tokens| && keys[j] == "";
      assert |tokens[j]| == |keys[j]|;
    }
  }

  /** What is left after `CORPUS.pop('')`: every key is a non-empty lowercase
      word, because tokens hold only letters, and the index still holds every
      non-empty token at its last position. */
  lemma PoppedIndex(index: map<string, int>, tokens: seq<string>)
    requires IndexesLastOccurrences(index, Keys(tokens), |tokens|)
    requires forall i, j :: 0 <= i < |tokens| && 0 <= j < |tokens[i]| ==> IsLetter(tokens[i][j])
    ensures forall k :: k in index - {""} ==> IsLowerWord(k)
    ensures forall j :: 0 <= j < |tokens| && tokens[j] != "" ==> Lower(tokens[j]) in index - {""}
    ensures forall k :: k in index - {""} ==>
        && 0 <= (index - {""})[k] < |tokens|
        && Lower(tokens[(index - {""})[k]]) == k
        && forall j :: (index - {""})[k] < j < |tokens| ==> Lower(tokens[j]) != k
  {
    var keys := Keys(tokens);
    assert forall j :: 0 <= j < |tokens| ==> keys[j] == Lower(tokens[j]);
    forall k | k in index && k != ""
      ensures IsLowerWord(k)
    {
      var t := tokens[index[k]];
      assert forall j :: 0 <= j < |t| ==> IsLetter(t[j]);
      assert forall j :: 0 <= j < |k| ==> k[j] == LowerChar(t[j]);
    }
    forall j | 0 <= j < |tokens| && tokens[j] != ""
      ensures Lower(tokens[j]) in index - {""}
    {
      assert keys[j] == Lower(tokens[j]);
      assert |Lower(tokens[j])| == |tokens[j]|;
    }
  }

  /** `clean_with_corpus`: the words that are keys of the index, in their
      original order and with their original multiplicities. */
  function CleanWithCorpus(words: seq<string>, index: map<string, int>): (r: seq<string>)
    ensures forall x :: x in r <==> x in words && x in index
    ensures forall x :: multiset(r)[x] == if x in index then multiset(words)[x] else 0
    ensures IsSubsequence(r, words)
  {
    if words == [] then []
    else
      var rest := CleanWithCorpus(words[1..], index);
      assert words == [words[0]] + words[1..];
      if words[0] in index then [words[0]] + rest else rest
  }
}
