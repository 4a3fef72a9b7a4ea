# Inverted index for keyword search over movie records

This project models, in Dafny, the in-memory core of the `InvertedIndex` class
of `sheet-01/inverted_index.py`, a simple inverted index for conjunctive
keyword search over records, one record per line of a file. The model covers:

- **the build** (`build_from_file`, with the file given as a sequence of lines):
  - line `r` (counted from 1) is record `r`, blank lines included;
  - each line is stripped of Python whitespace and split on runs of
    non-`[A-Za-z]` characters;
  - each piece is lower-cased and stripped, and empty pieces are skipped;
  - every remaining word gets the record id appended to its inverted list once
    per record, a new list being started for a word seen for the first time.
- **`intersect`**: the two-pointer merge of two ascending inverted lists.
- **`intersectMultiple`**: the lists are sorted by length, the result is seeded
  with the shortest one, and it is folded with `intersect` over all the sorted
  lists. The fold includes the shortest one again, since `enumerate(..., start=1)`
  only renumbers. It stops once the result is empty.
- **`getInvertedList` and `process_query`**: the keyword is normalised with
  `lower().strip()`, a missing keyword gives an empty list, and the fetched lists
  are intersected.
- **the pure part of `search`**: the phrase is split into keywords with
  `re.split("[^A-Za-z]+", phrase.strip())`, empty pieces kept, and the answer is
  cut to `[0:count]`.

Modules:

- `Tokenizer` (`tokenizer.dfy`): the text functions. It has the ASCII letter
  test and `str.lower()` on ASCII. `Strip` is `str.strip()` over the characters
  for which Python's `str.isspace` holds. `Split` is the split of the regular
  expression `[^A-Za-z]+`, defined by recursion over characters, with an empty
  first piece when the text is empty or starts with a non-letter and an empty
  last piece when it ends with one. Lemmas prove that its nonempty pieces are
  exactly the maximal runs of letters. `WordSet` is the set of words a line adds
  to the index.
- `Postings` (`postings.dfy`): inverted lists, that is, strictly increasing
  sequences of record ids. It holds the reference meaning of intersection: a
  membership filter (`Intersection`) and its fold over many lists
  (`IntersectAll`). `SortByLength` orders the lists by length as a permutation.
- `InvertedIndex` (`inverted_index.dfy`):
  - the functional specification of the build (`AddRecord`, `AddRecords`,
    `Build`) and of the queries (`GetInvertedList`, `QueryLists`, `SliceTo`);
  - the loops `Intersect` and `IntersectMultiple`, as methods proved equal to
    the reference functions;
  - the class `InvertedIndex`, whose field `invertedLists` is the dictionary the
    source mutates. Its methods `BuildFromLines`, `AddLine` and `AddWords` are
    the nested build loops, proved to leave the index equal to `AddRecords`.
    `ProcessQuery`, `Search` and `SearchWords` are the queries.
- `Examples` (`examples.dfy`): the docstring examples of `intersect` and
  `process_query` as lemmas. The index used is the one listed in the build
  docstring. A build over three concrete one-word lines is also worked out.

Points where the code does something other than a reader might expect; the
model follows the code:

- The docstring of `build_from_file` (lines 26-31) describes a record as
  tab-separated columns of which the last three can be ignored. The code
  tokenizes the whole line, not only the title and description columns.
  Digits and tabs separate words, so numeric columns add nothing.
- Lines with missing columns get no special treatment. The build never looks
  at columns, and `parseMovie` raises `IndexError` on a line with fewer than
  two tab-separated columns.
- One might expect query keywords to be tokenized like record text, with empty
  pieces dropped as the build drops them at lines 53-55. `search` keeps the
  empty pieces of its split, so a query such as "Love story!" typed at the
  prompt of line 185 finds nothing (see Findings).
- The fold of `intersectMultiple` (lines 129-133) runs over all sorted lists,
  the seed included, not only over the remaining ones.

## Model

| member | source | states |
|---|---|---|
| `InvertedIndex.InvertedIndex.constructor` | sheet-01/inverted_index.py:18-22 | A new index has no inverted lists. |
| `InvertedIndex.InvertedIndex.BuildFromLines` | sheet-01/inverted_index.py:44-62 | After the loop over the lines, with the record id counting from 1, the index is the old index with records 1..n added, record `r` holding the words of line `r`. |
| `InvertedIndex.InvertedIndex.AddLine` | sheet-01/inverted_index.py:46-51 | One line, stripped, split and normalised piece by piece, adds the record id to the lists of exactly the words of the line. |
| `InvertedIndex.InvertedIndex.AddWords` | sheet-01/inverted_index.py:50-62 | The inner loop with its `added_words` set appends the record id once to the list of each distinct nonempty word, starts a list for each new word, and leaves every other list unchanged. |
| `InvertedIndex.AddWordStep` | sheet-01/inverted_index.py:54-62 | One iteration of the inner loop, whether the word is new to the index and whether it was already added for this record, keeps the index equal to the record's words added so far. |
| `InvertedIndex.AddRecordNothing` | sheet-01/inverted_index.py:48 | Before any word of the line, with `added_words` empty, the index is unchanged. |
| `InvertedIndex.AddRecordsLast` | sheet-01/inverted_index.py:45-47 | Adding records up to `n` is adding records up to `n - 1` and then record `n` under id `n`. |
| `InvertedIndex.RecordsKeys` | sheet-01/inverted_index.py:57-59 | Starting from an empty index, a word is a key exactly when some record holds it. |
| `InvertedIndex.RecordsList` | sheet-01/inverted_index.py:60-62 | Starting from an empty index, the list of a word holds exactly the ids of the records holding it. |
| `InvertedIndex.RecordsSorted` | sheet-01/inverted_index.py:33-35 | Starting from an empty index, every list is strictly increasing with ids in 1..number of records, so no id appears twice. |
| `InvertedIndex.AddRecord` | sheet-01/inverted_index.py:53-62 | Record `id` appended once to the list of each of its words, a new list started for each word not yet a key, every other list unchanged (the loop `AddWords` is proved to compute it). |
| `InvertedIndex.AddRecords` | sheet-01/inverted_index.py:44-62 | Records 1, 2, ... added in turn under ids counting from 1; what the result holds is stated by `RecordsKeys`, `RecordsList` and `RecordsSorted`. |
| `InvertedIndex.Build` | sheet-01/inverted_index.py:44-62 | The index a fresh object holds after `build_from_file`: the records' word sets added to the empty index; stated by `BuildKeys`, `BuildList`, `BuildSorted` and `BuildWellFormed`. |
| `InvertedIndex.BuildOfWordLines` | sheet-01/inverted_index.py:44-62 | For lines that are each a single term, a term is a key exactly when it is one of the lines, and its list holds exactly the numbers of the lines equal to it. |
| `InvertedIndex.BuildKeys` | sheet-01/inverted_index.py:44-62 | After a build, a word is a key exactly when it occurs in some line. |
| `InvertedIndex.BuildList` | sheet-01/inverted_index.py:44-62 | After a build, record `x` is on the list of `w` exactly when `w` is a word of line `x`. |
| `InvertedIndex.BuildSorted` | sheet-01/inverted_index.py:33-35 | After a build, every inverted list is strictly increasing and holds ids from 1 to the number of lines, even when a word repeats in a line. |
| `InvertedIndex.BuildWellFormed` | sheet-01/inverted_index.py:53-62 | After a build, no key is empty, every key is lower-case letters, and no list is empty. |
| `Tokenizer.Lower` | sheet-01/inverted_index.py:51 | `str.lower()` on ASCII: same length, each character mapped by itself, `A`-`Z` to `a`-`z` and every other character kept. |
| `Tokenizer.Strip` | sheet-01/inverted_index.py:46 | `str.strip()`: removes from both ends the characters for which `str.isspace` holds, keeping the slice between them (its contract is proved in `StripSpec` and `StripSpecEnds`). |
| `Tokenizer.Clean` | sheet-01/inverted_index.py:116 | `keyword.lower().strip()`: lower-case, then strip. |
| `Tokenizer.WordSet` | sheet-01/inverted_index.py:46-55 | The set of words a line adds: the stripped line split on non-letters, each piece normalised, empty pieces dropped; what it holds is stated by `WordSetIsRuns` and `WordsAreTerms`. |
| `Tokenizer.TrailingEmpty` | sheet-01/inverted_index.py:156 | A text ending with a non-letter splits into at least two pieces, the last one empty. |
| `Tokenizer.EmptyPieceAtEnd` | sheet-01/inverted_index.py:156 | A text that is empty, or starts or ends with a non-letter, has an empty piece in its split. |
| `Tokenizer.WordSetOfWord` | sheet-01/inverted_index.py:46-55 | A line that is a single lower-case term adds exactly that term. |
| `Tokenizer.WordSetIsRuns` | sheet-01/inverted_index.py:50-55 | The words of a line are exactly its maximal runs of ASCII letters, lower-cased. |
| `Tokenizer.WordsAreTerms` | sheet-01/inverted_index.py:50-55 | Every word of a line is nonempty and made of lower-case ASCII letters. |
| `Tokenizer.SplitPiecesAreRuns` | sheet-01/inverted_index.py:50 | Every nonempty piece of the split is a maximal run of letters of the input. |
| `Tokenizer.RunsAreSplitPieces` | sheet-01/inverted_index.py:50 | Every maximal run of letters of the input is a piece of the split. |
| `Tokenizer.Split` | sheet-01/inverted_index.py:50 | Every piece of `re.split("[^A-Za-z]+", s)` is letters only, and the first piece is the longest letter prefix of `s`. |
| `Tokenizer.SplitOfLetters` | sheet-01/inverted_index.py:156 | A string of letters splits into itself alone. |
| `Tokenizer.SplitOfLettersThen` | sheet-01/inverted_index.py:156 | Letters followed by one separator split into the letters and an empty piece. |
| `Tokenizer.StripSpec` | sheet-01/inverted_index.py:46 | `strip()` keeps a slice of its input, and everything outside that slice is whitespace. |
| `Tokenizer.StripSpecEnds` | sheet-01/inverted_index.py:46 | The result of `strip()` neither starts nor ends with whitespace. |
| `Tokenizer.StripIdempotent` | sheet-01/inverted_index.py:46 | Stripping twice is stripping once. |
| `Tokenizer.WordSetOfStripped` | sheet-01/inverted_index.py:46 | Stripping a line before splitting does not change its words. |
| `Tokenizer.CleanOfLetters` | sheet-01/inverted_index.py:51 | A piece of letters is normalised by lower-casing alone, and gives a term exactly when it is nonempty. |
| `Tokenizer.CleanOfWord` | sheet-01/inverted_index.py:116 | A term is its own normalisation. |
| `Tokenizer.LowerIdempotent` | sheet-01/inverted_index.py:116 | Lower-casing twice is lower-casing once. |
| `Tokenizer.NonEmptyMembers` | sheet-01/inverted_index.py:53-55 | Skipping empty pieces keeps exactly the nonempty ones. |
| `Tokenizer.WordsOfAppend` | sheet-01/inverted_index.py:53-62 | One more piece adds itself to the record's words, unless it is empty. |
| `Postings.Intersection` | sheet-01/inverted_index.py:64-74 | The reference intersection holds exactly the common elements and is strictly increasing when its first argument is. |
| `Postings.IntersectionIs` | sheet-01/inverted_index.py:64-74 | The intersection of two inverted lists is the unique inverted list holding exactly their common elements. |
| `Postings.IntersectionCommutes` | sheet-01/inverted_index.py:64-74 | Intersecting two inverted lists does not depend on their order. |
| `Postings.IntersectionWithItself` | sheet-01/inverted_index.py:129-133 | Intersecting the seed with itself, as the first fold step does, gives it back. |
| `Postings.SameElementsSameList` | sheet-01/inverted_index.py:77-91 | Two inverted lists with the same elements are equal. |
| `Postings.SortByLength` | sheet-01/inverted_index.py:128 | `sorted(lists, key=len)` is ordered by ascending length and is a permutation of the lists. |
| `Postings.InsertByLengthPermutes` | sheet-01/inverted_index.py:128 | Inserting one list into the length order adds exactly that list. |
| `Postings.IntersectAllMembers` | sheet-01/inverted_index.py:121-134 | The intersection of one or more inverted lists is strictly increasing and holds exactly the ids in all of them. |
| `Postings.IntersectAllPermutation` | sheet-01/inverted_index.py:128 | Any permutation of the lists has the same intersection, so sorting by length does not change the answer. |
| `Postings.PermutationKeepsSorted` | sheet-01/inverted_index.py:128 | A permutation of inverted lists is a sequence of inverted lists of the same number. |
| `Postings.IntersectAllNoLonger` | sheet-01/inverted_index.py:128-133 | The intersection is no longer than any input list, the shortest included. |
| `Postings.EmptyListNoMatch` | sheet-01/inverted_index.py:131-132 | One empty list empties the intersection, so stopping early on an empty result loses nothing. |
| `Postings.SublistNoLonger` | sheet-01/inverted_index.py:77-91 | An inverted list whose elements all occur in another is no longer than it. |
| `Postings.PrefixIncreasing` | sheet-01/inverted_index.py:158 | A prefix of an inverted list is an inverted list. |
| `InvertedIndex.Intersect` | sheet-01/inverted_index.py:77-91 | On two strictly increasing lists the merge returns exactly their common elements, strictly increasing, equal to the reference intersection, and runs at most `|list1| + |list2|` iterations. |
| `InvertedIndex.IntersectMultiple` | sheet-01/inverted_index.py:121-134 | No lists give `[]`. Otherwise the shortest-first fold, with its early stop, returns the intersection of all the lists. |
| `InvertedIndex.FoldMembers` | sheet-01/inverted_index.py:130-134 | Whether the fold ran over all lists or stopped on an empty result, the result holds exactly the ids in all lists. |
| `InvertedIndex.IntersectAllOfPermutation` | sheet-01/inverted_index.py:128-134 | The fold's answer over the length-sorted lists is the intersection of the lists as given. |
| `InvertedIndex.QueryLists` | sheet-01/inverted_index.py:112 | `list(map(getInvertedList, keywords))`: one list per keyword, in keyword order, the `k`-th being the lookup of the `k`-th keyword. |
| `InvertedIndex.GetInvertedList` | sheet-01/inverted_index.py:115-119 | The lookup of a keyword is sorted when the index is. In a well-formed index it is empty exactly when the normalised keyword is absent. Its ids come from the normalised keyword's list. |
| `InvertedIndex.LookupTerm` | sheet-01/inverted_index.py:115-119 | A keyword that is already a term is looked up as it is, with a missing one giving `[]`. |
| `InvertedIndex.LookupIgnoresCase` | sheet-01/inverted_index.py:116 | Lookup ignores the case of ASCII letters in the keyword. |
| `InvertedIndex.LookupAfterBuild` | sheet-01/inverted_index.py:115-119 | On a built index, looking up a keyword gives exactly the records in which the normalised keyword occurs. |
| `InvertedIndex.EmptyKeywordAbsent` | sheet-01/inverted_index.py:116-119 | The empty keyword is never a key of a well-formed index, and its lookup is `[]`. |
| `InvertedIndex.ProcessQuery` | sheet-01/inverted_index.py:93-113 | `process_query` returns the intersection of the lists of the keywords. |
| `InvertedIndex.QueryMembers` | sheet-01/inverted_index.py:93-113 | A query returns exactly the ids on the list of every keyword, and nothing for no keywords. |
| `InvertedIndex.QuerySorted` | sheet-01/inverted_index.py:93-113 | The answer to a query is strictly increasing. |
| `InvertedIndex.QueryListsSorted` | sheet-01/inverted_index.py:112 | The fetched lists are sorted when the index's lists are. |
| `InvertedIndex.AbsentKeywordNoMatch` | sheet-01/inverted_index.py:95-98 | A keyword whose normalised form is not in the index empties the answer. |
| `InvertedIndex.EmptyKeywordNoMatch` | sheet-01/inverted_index.py:116-119 | A query holding the empty keyword matches nothing in a well-formed index. |
| `InvertedIndex.QueryAfterBuild` | sheet-01/inverted_index.py:93-119 | On a built index, record `x` is returned exactly when there is a keyword and every normalised keyword is a word of line `x`. |
| `InvertedIndex.WellFormedSorted` | sheet-01/inverted_index.py:33-35 | A well-formed index has strictly increasing lists. |
| `InvertedIndex.SliceTo` | sheet-01/inverted_index.py:158 | `records_ids[0:count]` is a prefix of the answer of length `min(count, n)`, with a negative `count` counting from the end as Python slicing does. |
| `InvertedIndex.InvertedIndex.Search` | sheet-01/inverted_index.py:155-158 | `search` passes on the first `count` ids of the answer to the query of the split phrase, empty pieces included, still in ascending order. |
| `InvertedIndex.SearchEmptyPiece` | sheet-01/inverted_index.py:155-157 | As written, a phrase whose split has an empty piece finds nothing in a built index. |
| `InvertedIndex.InvertedIndex.SearchWords` | sheet-01/inverted_index.py:155-158 | The corrected `search` drops empty pieces before the query, and passes on the first `count` ids of the answer in ascending order. |
| `InvertedIndex.SearchSeparatorAtEnd` | sheet-01/inverted_index.py:155-157 | As written, a phrase that once stripped is empty, or starts or ends with a non-letter, finds nothing in a built index. |
| `InvertedIndex.PhraseSearchAfterBuild` | sheet-01/inverted_index.py:155-157 | With empty pieces dropped, a built index returns exactly the records whose line holds every word of the phrase, and none for a phrase without words. |
| `Tokenizer.PhraseKeywordsAreWords` | sheet-01/inverted_index.py:156 | The nonempty pieces of a phrase, normalised, are exactly the words the phrase would give as a record line. |
| `Tokenizer.PhraseOfWordThen` | sheet-01/inverted_index.py:156 | A word followed by one punctuation mark splits into the word and an empty piece, and gives the word alone once empty pieces are dropped. |
| `Examples.IntersectDisjointExample` | sheet-01/inverted_index.py:69-71 | `intersect([1, 5, 7], [2, 4])` is `[]`. |
| `Examples.IntersectExample` | sheet-01/inverted_index.py:72-73 | `intersect([1, 2, 5, 7], [1, 3, 5, 6, 7, 9])` is `[1, 5, 7]`. |
| `Examples.NoKeywordsExample` | sheet-01/inverted_index.py:102-103 | `process_query([])` is `[]`. |
| `Examples.OneKeywordExample` | sheet-01/inverted_index.py:104-105 | `process_query(["doc"])` is `[1, 2, 3]` on the index of the build docstring. |
| `Examples.TwoKeywordsExample` | sheet-01/inverted_index.py:106-107 | `process_query(["doc", "movie"])` is `[1, 3]`. |
| `Examples.AbsentKeywordExample` | sheet-01/inverted_index.py:108-109 | `process_query(["doc", "movie", "comedy"])` is `[]`. |
| `Examples.BuildExample` | sheet-01/inverted_index.py:44-62 | The lines "doc", "film", "doc" build the index `doc: [1, 3]`, `film: [2]` and nothing else. |
| `Examples.SearchTrailingPunctuation` | sheet-01/inverted_index.py:155-157 | On the index of the build docstring, the query of `search("film", 3)` finds record 2 but that of `search("film!", 3)` finds nothing. |
| `Examples.SearchWordsTrailingPunctuation` | sheet-01/inverted_index.py:155-157 | With empty pieces dropped, `"film!"` finds record 2. |

## Left out

- File input: `build_from_file` takes the lines of the file as a sequence of
  strings. The file name it stores, `open` and the reading of lines are not
  modelled.
- `getMoviesByRecordIds`, `parseMovie`, `Movie` and `main` are not part of this
  model. They reread the file, build result objects and run the interactive
  loop with `input()` and `print`. `search` is modelled up to the ids it passes
  to `getMoviesByRecordIds`.
- The regular-expression engine: `re.split("[^A-Za-z]+", …)` is a recursive
  function over characters with the same pieces.
- Unicode case mapping: `Lower` maps only `A`-`Z`. Python's `str.lower()` also
  maps non-ASCII letters. Pieces of the split are ASCII letters only, so this
  matters only for keywords given to `process_query` directly.
- Python's `sorted` is stable (Timsort). `SortByLength` is an insertion sort
  into ascending length. Its contract states only what the answer depends on:
  ordered by length and a permutation.
- `intersect` and `intersectMultiple` on unsorted input: the methods require
  strictly increasing lists, the case the index produces.
- `ProcessQuery`, `Search` and `SearchWords` require strictly increasing lists
  in the index. A fresh build gives them (`BuildWellFormed`). Calling
  `build_from_file` twice on one object restarts record ids at 1 and appends to
  the existing lists, which can break this. `BuildFromLines` still states the
  state it leaves in that case.
- InvertedIndex.IntersectMultiple: its contract states the value returned, not
  that the loop stops at the first empty result. That early stop is visible
  only in running time.
- Aliasing: Python's `getInvertedList` returns the very list object stored in
  the index, so a caller mutating it would change the index. The model works on values, and that sharing is not
  captured.
- The build docstring's expected index (lines 37-40) needs `example.tsv`, which
  is not part of this model. The examples use the index it lists, and
  `BuildExample` works out a build over three concrete lines instead.

## Findings

| source | as written | input that shows it | evidently intended | confidence | as-written member | corrected member |
|---|---|---|---|---|---|---|
| sheet-01/inverted_index.py:156-157 | `search` queries every piece of `re.split("[^A-Za-z]+", phrase.strip())`, including the empty piece produced by a leading or trailing non-letter. The lookup of `""` is always `[]`, so the whole answer is empty. | `search("film!", 3)` on the index of the build docstring: the keywords are `["film", ""]` and the answer is empty, while `search("film", 3)` returns record 2. | Empty pieces are skipped, as the build loop skips them at lines 53-55. A phrase then finds the records holding all of its words. | medium, not executed | `Examples.SearchTrailingPunctuation` | `InvertedIndex.InvertedIndex.SearchWords` |

The general statement of the as-written behaviour is
`InvertedIndex.SearchEmptyPiece`, and `InvertedIndex.SearchSeparatorAtEnd`
shows that every phrase that, once stripped, is empty or starts or ends with a
non-letter falls under it (`Tokenizer.TrailingEmpty` gives the empty last
piece). The intended property of the corrected search
is `InvertedIndex.PhraseSearchAfterBuild`, and its example on `"film!"` is
`Examples.SearchWordsTrailingPunctuation`.
