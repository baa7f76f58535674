# Spelling suggestion engine (spelcheck `suggest.py`), modelled in Dafny

This project models the suggestion engine of spelcheck. It covers four parts.

- **Corpus index.** `index_corpus` scrubs the corpus text and splits it at every space. It maps each lowercased token to its token position, so the last occurrence wins. Finally it pops the empty-string key.
- **Candidate generation.** There are deletions, insertions and substitutions over the 26-letter alphabet. Their de-duplicated union is the one-edit list. Applying the one-edit generator to every one-edit candidate gives the two-edit list.
- **Filtering.** `clean_with_corpus` keeps the candidates that are index keys, in their original order.
- **Selection.** `suggest` returns the word itself if it is a key. Otherwise it returns the one-edit hit with the largest index, then the two-edit hit with the largest index, and finally `''`. `suggest_list` returns the word followed by every hit, sorted by index.

Modules, leaf first:

- `Lists` (lists.dfy): duplicate-freedom, subsequences, and `Dedupe`. `Dedupe` models `list(set(xs))`.
- `Text` (text.dfy): the regular-expression scrub, `str.split(' ')`, and ASCII `str.lower()`.
- `Corpus` (corpus.dfy): `IndexCorpus` and `CleanWithCorpus`. The index is a `map<string, int>` value. A loop builds it from corpus text passed as a parameter.
- `Edits` (edits.dfy): reference definitions of the candidate sets as ghost set comprehensions. There is also one method with loops per generator. Each method is proved to list exactly its reference set.
- `Suggestion` (suggestion.dfy): `Suggest` and `SuggestList`. These are methods because they call the generator methods; they have no loops of their own. The sort and the "largest index" pick are pure functions.

The model follows the code as written, including these behaviours that a reader might not expect:

- The index keeps the **last** occurrence of each word.
- Insertions happen only **before** positions `0 .. len(word)-1`, never at the end. The empty word therefore has no candidates at all.
- The identity substitution is **kept**, so a word with a letter a-z is its own one-edit candidate.
- The two-edit list does **not** remove the original word.
- `suggest` picks the **largest** index.
- `suggest_list` always puts the lowercased word first. It has no limit, no length filter and no tiers. The word can appear a second time among the sorted hits.
- Insertions never append, so even two edits cannot add two letters at the end. The comments at suggest.py:100-101 and suggest.py:108-109 speak of words within Levenshtein distance 2, but "cat", at distance 2 from "c", is not a two-edit candidate of "c". In general a two-edit candidate two characters longer than the word ends in the word's last character (`Edits.TwoEditsNeverAppend`, with the instance `Edits.TwoAppendsNotGenerated`).
- The comment at suggest.py:8 says the index counts occurrences. The code stores the last token position, and the model does the same.

## Model

| member | source | states |
|---|---|---|
| `Text.Scrub` | suggest.py:13 | the scrubbed text holds only ASCII letters and spaces and is no longer than the input; together with `ScrubConcat`, `ScrubRun` and `ScrubKeepsCleanText` this fixes the output for every input |
| `Text.ScrubKeepsCleanText` | suggest.py:13 | text made only of letters and spaces is left unchanged by the scrub |
| `Text.ScrubConcat` | suggest.py:13 | text cut just after a letter or space scrubs to the scrub of the first part followed by the scrub of the rest |
| `Text.ScrubRun` | suggest.py:13 | a non-empty run of characters other than letters and the space, followed by nothing or by a letter or space, becomes exactly one space |
| `Text.Split` | suggest.py:14 | `split(' ')` yields at least one token; no token contains a space; every token character comes from the text |
| `Text.JoinSplit` | suggest.py:14 | joining the tokens with single spaces gives back the text, so empty tokens are kept |
| `Text.LowerChar` | suggest.py:16 | ASCII lowercasing of one character: each 'A'..'Z' becomes the a-z letter at the same alphabet position, every other character is kept |
| `Text.Lower` | suggest.py:16 | ASCII lowercasing: the same length, each character lowercased as `LowerChar` states, so 'A'..'Z' become a-z and everything else is kept |
| `Text.LowerKeepsLowerWord` | suggest.py:79-83 | a lowercase word is its own lowercase form, so an exact key is looked up as itself |
| `Corpus.Tokens` | suggest.py:12-14 | every token of the scrubbed, split corpus text consists of ASCII letters only |
| `Corpus.IndexCorpus` | suggest.py:9-17 | fails (the `KeyError` of `pop('')`) exactly when no token is empty; otherwise every key is a non-empty a-z word, every non-empty token's lowercase form is a key, and each key maps to the position of its last occurrence among all tokens, empty ones counted; different keys have different positions |
| `Corpus.IndexStep` | suggest.py:15-16 | one loop iteration keeps the map an index of exactly the lowercased tokens seen so far, each at its last position |
| `Corpus.EmptyKeyIffEmptyToken` | suggest.py:17 | the empty key is present exactly when some token is empty |
| `Corpus.PoppedIndex` | suggest.py:13-17 | after the empty key is removed, every key is a non-empty a-z word (tokens hold only letters), and every non-empty token is still a key at its last position |
| `Corpus.CleanWithCorpus` | suggest.py:22-23 | the result is a subsequence of the input; it holds exactly the input elements that are keys, each with its original multiplicity |
| `Lists.Dedupe` | suggest.py:62 | the result has no duplicates, holds exactly the input's elements, and is no longer than the input |
| `Lists.PermutationKeepsNoDuplicates` | suggest.py:123-125 | sorting a duplicate-free list leaves it duplicate-free |
| `Edits.AlphaIsLowerLetters` | suggest.py:5 | the alphabet holds exactly the letters a-z, the letters corpus keys are made of |
| `Edits.InsertUndoesDelete` | suggest.py:31 | a deletion is one character shorter and is undone by inserting the removed character back |
| `Edits.DeleteUndoesInsert` | suggest.py:41 | an insertion is one character longer, has the letter at its position, and is undone by deleting it |
| `Edits.SubstituteAgrees` | suggest.py:51 | a substitution keeps the length, agrees with the word everywhere except position i, and is the identity when the letter is the original one |
| `Edits.ComputeDeletions` | suggest.py:28-32 | exactly `len(word)` strings; the i-th is one shorter and gives back the word when character i is re-inserted; the strings are exactly the deletion set |
| `Edits.ComputeInsertions` | suggest.py:37-42 | exactly `26*len(word)` strings, each one longer; entry `26i+k` has letter k at position i and gives back the word when it is deleted; the strings are exactly the insertion set, with positions `0..len(word)-1` only |
| `Edits.ComputeSubstitutions` | suggest.py:47-52 | exactly `26*len(word)` strings of the word's length; entry `26i+k` has letter k at i and agrees with the word elsewhere; the strings are exactly the substitution set; the word itself is included when some character is in a-z |
| `Edits.InsertionsListed` | suggest.py:37-42 | each entry the insertion loops build is one longer, has its letter at its position and deletes back to the word; the entries are exactly the insertion set |
| `Edits.SubstitutionsAgree` | suggest.py:47-52 | each entry the substitution loops build has the word's length, its letter at its position, and agrees with the word elsewhere |
| `Edits.SubstitutionsListed` | suggest.py:47-52 | the entries the substitution loops build are exactly the substitution set, and include the word when it has a letter a-z |
| `Edits.ComputeOnes` | suggest.py:57-63 | a duplicate-free list whose elements are exactly the union of deletions, insertions and substitutions |
| `Edits.ComputeTwos` | suggest.py:68-74 | a duplicate-free list whose elements are exactly the one-edit candidates of every one-edit candidate |
| `Edits.IdentitySubstitution` | suggest.py:49-51 | a word with a letter a-z is among its own substitutions |
| `Edits.OneEditLength` | suggest.py:57-63 | every one-edit candidate's length differs from the word's by at most 1: deletions -1, insertions +1, substitutions 0 |
| `Edits.TwoEditLength` | suggest.py:68-74 | every two-edit candidate's length differs from the word's by at most 2 |
| `Edits.EmptyWordHasNoEdits` | suggest.py:28-52 | the empty word has no one-edit and no two-edit candidates |
| `Edits.InsertionKeepsLastChar` | suggest.py:39-41 | an insertion never changes the last character, so appending a different letter is never an insertion |
| `Edits.OneEditsWithinTwoEdits` | suggest.py:68-74 | for a word with a letter a-z, the word is its own one-edit candidate, every one-edit candidate is a two-edit candidate, and the word is its own two-edit candidate |
| `Edits.AppendTakesTwoEdits` | suggest.py:39-41 | "cat" is not a one-edit candidate of "ca" but is a two-edit candidate |
| `Edits.TwoEditsNeverAppend` | suggest.py:68-74 | a two-edit candidate two characters longer than the word keeps the word's last character, so two letters are never appended |
| `Edits.TwoAppendsNotGenerated` | suggest.py:68-74 | "cat" is not a two-edit candidate of "c", although suggest.py:100-101 speaks of Levenshtein distance 2 |
| `Suggestion.MostRelevant` | suggest.py:90-91 | the pick is one of the candidates and no candidate has a larger index |
| `Suggestion.ConsSorted` | suggest.py:125 | putting a key no larger than the head in front of a sorted list keeps it sorted |
| `Suggestion.InsertByIndex` | suggest.py:125 | inserting a key into a list sorted by index keeps it sorted and one longer, with the new key or the old head in front |
| `Suggestion.InsertPermutes` | suggest.py:125 | insertion adds exactly one occurrence of the element and changes nothing else in the multiset |
| `Suggestion.SortByIndex` | suggest.py:125 | the result is non-decreasing by index and is a permutation of the input |
| `Suggestion.MostRelevantUnique` | suggest.py:90-91 | when different keys have different positions, two candidates that both have the maximal index are the same word |
| `Suggestion.BestHit` | suggest.py:87-98 | the filtered candidates are empty exactly when no candidate is a key; otherwise the pick is a key with maximal index among all candidate keys |
| `Suggestion.Suggest` | suggest.py:78-102 | returns `''` or a key: the lowercased word if it is a key; otherwise a one-edit key with maximal index; otherwise a two-edit key with maximal index; otherwise `''` |
| `Suggestion.SuggestList` | suggest.py:105-125 | the first element is the lowercased word; the rest are pairwise distinct, are exactly the keys that equal the word or are one- or two-edit candidates, and are sorted non-decreasing by index |

## Left out

- Reading the corpus file (suggest.py:10-11) and the call at import time (suggest.py:130) are I/O and start-up. `IndexCorpus` takes the text as a parameter.
- `IndexCorpus` starts from an empty index. The source adds to the module-level `CORPUS` dictionary, which is empty when the module is imported and is indexed once.
- The statement `corpus.replace('\n', ' ')` (suggest.py:12) discards its result, so it has no effect. Newlines are replaced by the regular expression on the next line anyway.
- The `print` calls (suggest.py:89, 96) are console output only.
- `Lists.Dedupe`: `list(set(xs))` has an unspecified order. The model fixes one order, and no contract depends on it.
- `Suggestion.Suggest`: for an arbitrary index, the tie-break among candidates with equal index depends on Python's set iteration order, and the contract states only that some candidate with maximal index is returned. On an index built by `IndexCorpus` no ties occur: different keys have different positions, so the pick is unique (`Suggestion.MostRelevantUnique`).
- `Text.Lower` covers ASCII only. The Unicode case mapping of `str.lower()` is not modelled.
- Python's string and integer representations are not modelled. Strings are `seq<char>` and positions are unbounded integers.
