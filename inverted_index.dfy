/** The inverted index of a collection of records, one record per line: the
    index build, the linear-time merge intersection of two inverted lists, the
    shortest-first intersection of several, and keyword queries. */
module InvertedIndex {
  import opened Tokenizer
  import opened Postings

  /** Word to inverted list of record ids. */
  type Index = map<string, seq<int>>

  /** Every inverted list of the index is ascending without repetition. */
  predicate ListsSorted(index: Index) {
    forall w :: w in index ==> StrictlyIncreasing(index[w])
  }

  /** A nonempty inverted list of positive record ids. */
  predicate ValidPostings(l: seq<int>) {
    l != [] && StrictlyIncreasing(l) && forall k :: 0 <= k < |l| ==> l[k] >= 1
  }

  /** The shape of an index built from a collection: every key is a term and
      every inverted list is a nonempty ascending list of record ids. */
  predicate WellFormed(index: Index) {
    forall w :: w in index ==> IsWord(w) && ValidPostings(index[w])
  }

  /** Record `id` appended once to the inverted list of each of its `words`,
      a new list started for each word not yet in the index. */
  function AddRecord(index: Index, words: set<string>, id: int): Index {
    map w | w in index.Keys + words :: (if w in index then index[w] else []) + (if w in words then [id] else [])
  }

  /** The word sets of the records, record `r` (from 1) at position `r - 1`. */
  function RecordWords(lines: seq<string>): (r: seq<set<string>>)
    ensures |r| == |lines|
    ensures forall k :: 0 <= k < |lines| ==> r[k] == WordSet(lines[k])
  {
    seq(|lines|, k requires 0 <= k < |lines| => WordSet(lines[k]))
  }

  /** The index after adding records 1, 2, ... with the given word sets. */
  function AddRecords(index: Index, records: seq<set<string>>): Index {
    if records == [] then index
    else AddRecord(AddRecords(index, records[..|records| - 1]), records[|records| - 1], |records|)
  }

  /** The index built from `lines` by a fresh `InvertedIndex`. */
  function Build(lines: seq<string>): Index {
    AddRecords(map[], RecordWords(lines))
  }

  /** Word `w` is in record `r` of `records`. */
  predicate InRecord(records: seq<set<string>>, w: string, r: int) {
    1 <= r <= |records| && w in records[r - 1]
  }

  /** Word `w` occurs in record `r` of `lines`. */
  predicate Occurs(lines: seq<string>, w: string, r: int) {
    1 <= r <= |lines| && w in WordSet(lines[r - 1])
  }

  /** `getInvertedList`: the inverted list of the normalised keyword, or the
      empty list for a keyword the index does not hold. */
  function GetInvertedList(index: Index, keyword: string): (r: seq<int>)
    ensures ListsSorted(index) ==> StrictlyIncreasing(r)
    ensures WellFormed(index) ==> (r == [] <==> Clean(keyword) !in index)
    ensures forall x :: x in r ==> Clean(keyword) in index && x in index[Clean(keyword)]
  {
    var cleanKeyword := Clean(keyword);
    if cleanKeyword in index then index[cleanKeyword] else []
  }

  /** The inverted lists of the keywords, in keyword order. */
  function QueryLists(index: Index, keywords: seq<string>): (r: seq<seq<int>>)
    ensures |r| == |keywords|
    ensures forall k :: 0 <= k < |keywords| ==> r[k] == GetInvertedList(index, keywords[k])
  {
    seq(|keywords|, k requires 0 <= k < |keywords| => GetInvertedList(index, keywords[k]))
  }

  /** Python's `s[0:stop]`: a negative `stop` counts from the end. */
  function SliceTo(s: seq<int>, stop: int): (r: seq<int>)
    ensures r <= s
    ensures 0 <= stop ==> |r| == if stop <= |s| then stop else |s|
    ensures stop < 0 ==> |r| == if |s| + stop > 0 then |s| + stop else 0
  {
    if 0 <= stop then (if stop <= |s| then s[..stop] else s)
    else if |s| + stop > 0 then s[..|s| + stop]
    else []
  }

  /** `intersect`: the two-pointer merge of two inverted lists. `steps` counts
      the loop iterations, each of which advances at least one pointer. */
  method Intersect(list1: seq<int>, list2: seq<int>) returns (res: seq<int>, ghost steps: nat)
    requires StrictlyIncreasing(list1) && StrictlyIncreasing(list2)
    ensures res == Intersection(list1, list2)
    ensures StrictlyIncreasing(res) && forall x :: x in res <==> x in list1 && x in list2
    ensures steps <= |list1| + |list2|
  {
    res := [];
    var index1, index2 := 0, 0;
    steps := 0;
    while index1 != |list1| && index2 != |list2|
      invariant 0 <= index1 <= |list1| && 0 <= index2 <= |list2|
      invariant steps <= index1 + index2
      invariant StrictlyIncreasing(res)
      invariant forall x :: x in res <==> x in list1[..index1] && x in list2
      invariant forall k :: 0 <= k < |res| && index1 < |list1| ==> res[k] < list1[index1]
      invariant forall k :: 0 <= k < index2 && index1 < |list1| ==> list2[k] < list1[index1]
      decreases |list1| - index1 + |list2| - index2
    {
      steps := steps + 1;
      assert list1[..index1 + 1] == list1[..index1] + [list1[index1]];
      if list1[index1] > list2[index2] {
        index2 := index2 + 1;
      } else if list1[index1] < list2[index2] {
        assert forall j :: 0 <= j < |list2| ==> list2[j] != list1[index1];
        index1 := index1 + 1;
      } else {
        res := res + [list1[index1]];
        index1 := index1 + 1;
        index2 := index2 + 1;
      }
    }
    if index1 < |list1| {
      assert forall k :: index1 <= k < |list1| ==> forall j :: 0 <= j < |list2| ==> list2[j] < list1[k];
    } else {
      assert list1[..index1] == list1;
    }
    SameElementsSameList(res, Intersection(list1, list2));
  }

  /** `intersectMultiple`: intersects the lists shortest first, seeding the
      result with the shortest list and stopping once the result is empty. */
  method IntersectMultiple(lists: seq<seq<int>>) returns (res: seq<int>)
    requires AllStrictlyIncreasing(lists)
    ensures res == IntersectAll(lists)
  {
    if |lists| == 0 {
      return [];
    }
    var sortedByLength := SortByLength(lists);
    PermutationKeepsSorted(lists, sortedByLength);
    res := sortedByLength[0];
    var i := 0;
    while i < |sortedByLength|
      invariant 0 <= i <= |sortedByLength|
      invariant StrictlyIncreasing(res)
      invariant forall x :: x in res <==> x in sortedByLength[0] && InAll(x, sortedByLength[..i])
    {
      if |res| == 0 {
        break;
      }
      ghost var steps;
      res, steps := Intersect(res, sortedByLength[i]);
      InAllExtend(sortedByLength, i);
      i := i + 1;
    }
    FoldMembers(sortedByLength, i, res);
    IntersectAllOfPermutation(lists, sortedByLength, res);
  }

  /** One more list in the prefix: one more list to be in. */
  lemma InAllExtend(lists: seq<seq<int>>, i: int)
    requires 0 <= i < |lists|
    ensures forall x :: InAll(x, lists[..i + 1]) <==> InAll(x, lists[..i]) && x in lists[i]
  {
    assert forall k :: 0 <= k < i ==> lists[..i + 1][k] == lists[..i][k];
  }

  /** When the shortest-first fold stops, either all lists have been folded in
      or the result is empty; either way it holds the ids in all lists. */
  lemma FoldMembers(sorted: seq<seq<int>>, i: int, res: seq<int>)
    requires 0 < |sorted| && 0 <= i <= |sorted|
    requires i == |sorted| || res == []
    requires forall x :: x in res <==> x in sorted[0] && InAll(x, sorted[..i])
    ensures forall x :: x in res <==> InAll(x, sorted)
  {
    forall x
      ensures x in res <==> InAll(x, sorted)
    {
      if InAll(x, sorted) {
        assert x in sorted[0] && InAll(x, sorted[..i]);
      }
      if x in res {
        assert sorted[..i] == sorted;
      }
    }
  }

  /** An inverted list holding the ids in all lists of a permutation of
      `lists` is the intersection of `lists`. */
  lemma IntersectAllOfPermutation(lists: seq<seq<int>>, other: seq<seq<int>>, res: seq<int>)
    requires |lists| > 0 && AllStrictlyIncreasing(lists)
    requires multiset(lists) == multiset(other)
    requires StrictlyIncreasing(res) && forall x :: x in res <==> InAll(x, other)
    ensures res == IntersectAll(lists)
    ensures forall x :: x in res <==> InAll(x, lists)
  {
    forall x
      ensures x in res <==> InAll(x, lists)
    {
      SameListsSameMembership(lists, other, x);
    }
    IntersectAllMembers(lists);
    SameElementsSameList(res, IntersectAll(lists));
  }

  /** The in-memory inverted index. */
  class InvertedIndex {
    var invertedLists: Index

    /** An empty inverted index. */
    constructor ()
      ensures invertedLists == map[]
    {
      invertedLists := map[];
    }

    /** `build_from_file` over the lines of the file: line `r` (from 1) is
        record `r`, blank lines included, and each word of a line adds the
        record id to its inverted list once. */
    method BuildFromLines(lines: seq<string>)
      modifies this
      ensures invertedLists == AddRecords(old(invertedLists), RecordWords(lines))
    {
      ghost var records := RecordWords(lines);
      var recordId := 0;
      while recordId < |lines|
        invariant 0 <= recordId <= |lines|
        invariant invertedLists == AddRecords(old(invertedLists), records[..recordId])
      {
        recordId := recordId + 1;
        AddLine(lines[recordId - 1], recordId);
        assert records[recordId - 1] == WordSet(lines[recordId - 1]);
        AddRecordsLast(old(invertedLists), records, recordId);
      }
      assert records[..recordId] == records;
    }

    /** One line of the file read by `build_from_file` as record `recordId`:
        the line is stripped and split on runs of non-letters, and its pieces
        are lower-cased and stripped. */
    method AddLine(line: string, recordId: int)
      modifies this
      ensures invertedLists == AddRecord(old(invertedLists), WordSet(line), recordId)
    {
      var stripped := Strip(line);
      AddWords(Normalised(Split(stripped)), recordId);
    }

    /** The inner loop of `build_from_file` over the lower-cased, stripped
        pieces of one line: each nonempty one has `recordId` appended to its
        inverted list once, a new list being started for a word not yet in
        the index. */
    method AddWords(words: seq<string>, recordId: int)
      modifies this
      ensures invertedLists == AddRecord(old(invertedLists), WordsOf(words), recordId)
    {
      var addedWords: set<string> := {};
      AddRecordNothing(invertedLists, recordId);
      WordsOfNothing();
      assert words[..0] == [];
      var j := 0;
      while j < |words|
        invariant 0 <= j <= |words|
        invariant addedWords == WordsOf(words[..j])
        invariant invertedLists == AddRecord(old(invertedLists), addedWords, recordId)
      {
        var word := words[j];
        assert |word| == 0 <==> word == "";
        assert words[..j + 1] == words[..j] + [word];
        WordsOfAppend(words[..j], word);
        if |word| != 0 {
          AddWordStep(old(invertedLists), addedWords, word, recordId);
          var lists := invertedLists;
          if word !in lists {
            lists := lists[word := []];
          }
          if word !in addedWords {
            lists := lists[word := lists[word] + [recordId]];
            addedWords := addedWords + {word};
          }
          invertedLists := lists;
        }
        j := j + 1;
      }
      assert words[..j] == words;
    }

    /** `process_query`: the records holding every keyword, ascending; none
        for no keywords or for a keyword the index does not hold. */
    method ProcessQuery(keywords: seq<string>) returns (r: seq<int>)
      requires ListsSorted(invertedLists)
      ensures r == IntersectAll(QueryLists(invertedLists, keywords))
    {
      var lists := QueryLists(invertedLists, keywords);
      QueryListsSorted(invertedLists, keywords);
      r := IntersectMultiple(lists);
    }

    /** The pure part of `search`: the phrase is split into keywords on runs of
        non-letters (empty pieces kept), queried, and the first `count` ids of
        the answer are kept. */
    method Search(searchPhrase: string, count: int) returns (ids: seq<int>)
      requires ListsSorted(invertedLists)
      ensures ids == SliceTo(IntersectAll(QueryLists(invertedLists, Split(Strip(searchPhrase)))), count)
      ensures StrictlyIncreasing(ids)
    {
      var keywords := Split(Strip(searchPhrase));
      var recordIds := ProcessQuery(keywords);
      ids := SliceTo(recordIds, count);
      QuerySorted(invertedLists, keywords);
      PrefixIncreasing(recordIds, ids);
    }

    /** `search` as evidently intended: the empty pieces of the split phrase,
        which no record holds, are dropped before the query. */
    method SearchWords(searchPhrase: string, count: int) returns (ids: seq<int>)
      requires ListsSorted(invertedLists)
      ensures ids == SliceTo(IntersectAll(QueryLists(invertedLists, PhraseKeywords(searchPhrase))), count)
      ensures StrictlyIncreasing(ids)
    {
      var keywords := PhraseKeywords(searchPhrase);
      var recordIds := ProcessQuery(keywords);
      ids := SliceTo(recordIds, count);
      QuerySorted(invertedLists, keywords);
      PrefixIncreasing(recordIds, ids);
    }
  }

  // ---------------------------------------------------------------------------
  // Lemmas

  /** The records up to `n` are those up to `n - 1` and then record `n`. */
  lemma AddRecordsLast(index: Index, records: seq<set<string>>, n: int)
    requires 0 < n <= |records|
    ensures AddRecords(index, records[..n]) == AddRecord(AddRecords(index, records[..n - 1]), records[n - 1], n)
  {
    assert records[..n][..n - 1] == records[..n - 1];
  }

  /** A record without words leaves the index unchanged. */
  lemma AddRecordNothing(index: Index, id: int)
    ensures AddRecord(index, {}, id) == index
  {
    var m := AddRecord(index, {}, id);
    assert m.Keys == index.Keys;
    forall w | w in index
      ensures m[w] == index[w]
    {
      assert index[w] + [] == index[w];
    }
  }

  /** One word of the record, seen for the first time or again: a list is
      started for a word not yet in the index, and the id is appended unless
      the word was already added for this record. */
  lemma AddWordStep(index: Index, added: set<string>, word: string, id: int)
    ensures var m := AddRecord(index, added, id);
            var m1 := if word in m then m else m[word := []];
            AddRecord(index, added + {word}, id) == if word in added then m1 else m1[word := m1[word] + [id]]
  {
    if word in added {
      assert added + {word} == added;
    } else {
      AddRecordStep(index, added, word, id);
    }
  }

  /** Adding one more new word of the record to the index appends the record
      id to that word's list only. */
  lemma AddRecordStep(index: Index, words: set<string>, w: string, id: int)
    requires w !in words
    ensures var m := AddRecord(index, words, id);
            AddRecord(index, words + {w}, id) == m[w := (if w in m then m[w] else []) + [id]]
  {
    var m := AddRecord(index, words, id);
    var m' := AddRecord(index, words + {w}, id);
    var u := m[w := (if w in m then m[w] else []) + [id]];
    assert m'.Keys == u.Keys;
    forall v | v in u
      ensures m'[v] == u[v]
    {
      if v != w {
        assert m'[v] == m[v];
      }
    }
  }

  /** Keys and lists of the index after one more record. */
  lemma AddRecordAt(index: Index, words: set<string>, id: int, w: string)
    ensures w in AddRecord(index, words, id) <==> w in index || w in words
    ensures w in AddRecord(index, words, id) ==>
              AddRecord(index, words, id)[w] == (if w in index then index[w] else []) + (if w in words then [id] else [])
  {
  }

  /** Membership in the first `n` records is membership in `records` at ids
      up to `n`. */
  lemma InRecordPrefix(records: seq<set<string>>, n: int, w: string, r: int)
    requires 0 <= n <= |records|
    ensures InRecord(records[..n], w, r) <==> InRecord(records, w, r) && r <= n
  {
    if 1 <= r <= n {
      assert records[..n][r - 1] == records[r - 1];
    }
  }

  /** After adding records to an empty index, `w` is a key exactly when it is
      in some record. */
  lemma {:induction false} RecordsKeys(records: seq<set<string>>, w: string)
    ensures w in AddRecords(map[], records) <==> exists r :: InRecord(records, w, r)
  {
    if records != [] {
      var n := |records| - 1;
      var init := records[..n];
      RecordsKeys(init, w);
      AddRecordAt(AddRecords(map[], init), records[n], n + 1, w);
      if w in AddRecords(map[], init) {
        var r :| InRecord(init, w, r);
        InRecordPrefix(records, n, w, r);
      } else if w in records[n] {
        assert InRecord(records, w, n + 1);
      }
      if exists r :: InRecord(records, w, r) {
        var r :| InRecord(records, w, r);
        InRecordPrefix(records, n, w, r);
      }
    }
  }

  /** After adding records to an empty index, the inverted list of `w` holds
      exactly the records `w` is in. */
  lemma {:induction false} RecordsList(records: seq<set<string>>, w: string, x: int)
    requires w in AddRecords(map[], records)
    ensures x in AddRecords(map[], records)[w] <==> InRecord(records, w, x)
  {
    var n := |records| - 1;
    var init := records[..n];
    AddRecordAt(AddRecords(map[], init), records[n], n + 1, w);
    InRecordPrefix(records, n, w, x);
    if w in AddRecords(map[], init) {
      RecordsList(init, w, x);
    } else {
      RecordsKeys(init, w);
    }
  }

  /** After a build, `w` is a key exactly when it occurs in some record. */
  lemma BuildKeys(lines: seq<string>, w: string)
    ensures w in Build(lines) <==> exists r :: Occurs(lines, w, r)
  {
    var records := RecordWords(lines);
    RecordsKeys(records, w);
    assert forall r :: InRecord(records, w, r) <==> Occurs(lines, w, r);
  }

  /** After a build, the inverted list of `w` holds exactly the records it
      occurs in. */
  lemma BuildList(lines: seq<string>, w: string, x: int)
    requires w in Build(lines)
    ensures x in Build(lines)[w] <==> Occurs(lines, w, x)
  {
    RecordsList(RecordWords(lines), w, x);
  }

  /** After adding records to an empty index every inverted list is ascending
      without repetition and holds ids from 1 to the number of records. */
  lemma {:induction false} RecordsSorted(records: seq<set<string>>, w: string)
    requires w in AddRecords(map[], records)
    ensures StrictlyIncreasing(AddRecords(map[], records)[w])
    ensures forall k :: 0 <= k < |AddRecords(map[], records)[w]| ==> 1 <= AddRecords(map[], records)[w][k] <= |records|
  {
    var n := |records| - 1;
    var init := records[..n];
    AddRecordAt(AddRecords(map[], init), records[n], n + 1, w);
    if w in AddRecords(map[], init) {
      RecordsSorted(init, w);
    }
  }

  /** After a build every inverted list is ascending without repetition and
      holds record ids from 1 to the number of lines. */
  lemma BuildSorted(lines: seq<string>, w: string)
    requires w in Build(lines)
    ensures StrictlyIncreasing(Build(lines)[w])
    ensures forall k :: 0 <= k < |Build(lines)[w]| ==> 1 <= Build(lines)[w][k] <= |lines|
  {
    RecordsSorted(RecordWords(lines), w);
  }

  /** A fresh build gives a well-formed index. */
  lemma BuildWellFormed(lines: seq<string>)
    ensures WellFormed(Build(lines))
  {
    forall w | w in Build(lines)
      ensures IsWord(w) && ValidPostings(Build(lines)[w])
    {
      BuildKeys(lines, w);
      BuildSorted(lines, w);
      var r :| Occurs(lines, w, r);
      WordsAreTerms(lines[r - 1], w);
      BuildList(lines, w, r);
    }
  }

  /** Looking a keyword up in a built index gives exactly the records in which
      the normalised keyword occurs. */
  lemma LookupAfterBuild(lines: seq<string>, keyword: string, x: int)
    ensures x in GetInvertedList(Build(lines), keyword) <==> Occurs(lines, Clean(keyword), x)
  {
    if Clean(keyword) in Build(lines) {
      BuildList(lines, Clean(keyword), x);
    } else {
      BuildKeys(lines, Clean(keyword));
    }
  }

  /** An empty keyword is never a key of a well-formed index. */
  lemma EmptyKeywordAbsent(index: Index)
    requires WellFormed(index)
    ensures Clean("") !in index && GetInvertedList(index, "") == []
  {
    assert Lower("") == "";
  }

  /** A query holding an empty keyword matches nothing in a well-formed
      index. */
  lemma EmptyKeywordNoMatch(index: Index, keywords: seq<string>)
    requires WellFormed(index) && "" in keywords
    ensures IntersectAll(QueryLists(index, keywords)) == []
  {
    var k :| 0 <= k < |keywords| && keywords[k] == "";
    EmptyKeywordAbsent(index);
    WellFormedSorted(index);
    assert Clean(keywords[k]) !in index;
    AbsentKeywordNoMatch(index, keywords, k);
  }

  /** The answer to a query is an inverted list. */
  lemma QuerySorted(index: Index, keywords: seq<string>)
    requires ListsSorted(index)
    ensures StrictlyIncreasing(IntersectAll(QueryLists(index, keywords)))
  {
    if |keywords| > 0 {
      QueryListsSorted(index, keywords);
      IntersectAllMembers(QueryLists(index, keywords));
    }
  }

  /** A query matches exactly the records on the inverted list of every one
      of its keywords; no keywords match nothing. */
  lemma QueryMembers(index: Index, keywords: seq<string>, x: int)
    requires ListsSorted(index)
    ensures x in IntersectAll(QueryLists(index, keywords))
            <==> |keywords| > 0 && forall k :: 0 <= k < |keywords| ==> x in GetInvertedList(index, keywords[k])
  {
    var lists := QueryLists(index, keywords);
    if |keywords| > 0 {
      QueryListsSorted(index, keywords);
      IntersectAllMembers(lists);
    }
  }

  /** A keyword without an inverted list empties the answer to the query. */
  lemma AbsentKeywordNoMatch(index: Index, keywords: seq<string>, k: int)
    requires ListsSorted(index)
    requires 0 <= k < |keywords| && Clean(keywords[k]) !in index
    ensures IntersectAll(QueryLists(index, keywords)) == []
  {
    QueryListsSorted(index, keywords);
    EmptyListNoMatch(QueryLists(index, keywords), k);
  }

  /** A well-formed index has sorted inverted lists. */
  lemma WellFormedSorted(index: Index)
    requires WellFormed(index)
    ensures ListsSorted(index)
  {
  }

  /** The inverted lists fetched for a query are sorted when the index's are. */
  lemma QueryListsSorted(index: Index, keywords: seq<string>)
    requires ListsSorted(index)
    ensures AllStrictlyIncreasing(QueryLists(index, keywords))
  {
  }

  /** A keyword that is already a term is looked up as it is. */
  lemma LookupTerm(index: Index, w: string)
    requires IsWord(w)
    ensures GetInvertedList(index, w) == if w in index then index[w] else []
  {
    CleanOfWord(w);
  }

  /** Lookup ignores the case of ASCII letters in the keyword. */
  lemma LookupIgnoresCase(index: Index, keyword: string)
    ensures GetInvertedList(index, Lower(keyword)) == GetInvertedList(index, keyword)
  {
    LowerIdempotent(keyword);
  }

  /** A conjunctive query on a built index: record `x` is returned exactly
      when there is at least one keyword and every normalised keyword occurs
      in line `x`. */
  lemma QueryAfterBuild(lines: seq<string>, keywords: seq<string>, x: int)
    ensures x in IntersectAll(QueryLists(Build(lines), keywords))
            <==> |keywords| > 0 && 1 <= x <= |lines| && forall k :: 0 <= k < |keywords| ==> Clean(keywords[k]) in WordSet(lines[x - 1])
  {
    var index := Build(lines);
    var lists := QueryLists(index, keywords);
    if |keywords| > 0 {
      BuildWellFormed(lines);
      IntersectAllMembers(lists);
      forall k | 0 <= k < |keywords|
        ensures x in lists[k] <==> Occurs(lines, Clean(keywords[k]), x)
      {
        LookupAfterBuild(lines, keywords[k], x);
      }
      if InAll(x, lists) {
        assert Occurs(lines, Clean(keywords[0]), x);
      }
    }
  }

  /** `search` as written: a phrase whose split has an empty piece (one that
      is empty, or starts or ends with a separator) finds nothing in a built
      index, since the empty keyword is never indexed. */
  lemma SearchEmptyPiece(lines: seq<string>, phrase: string)
    requires "" in Split(Strip(phrase))
    ensures IntersectAll(QueryLists(Build(lines), Split(Strip(phrase)))) == []
  {
    BuildWellFormed(lines);
    EmptyKeywordNoMatch(Build(lines), Split(Strip(phrase)));
  }

  /** `search` as written finds nothing in a built index for a phrase that,
      once stripped, is empty or starts or ends with a separator. */
  lemma SearchSeparatorAtEnd(lines: seq<string>, phrase: string)
    requires var t := Strip(phrase); t == [] || !IsLetter(t[0]) || !IsLetter(t[|t| - 1])
    ensures IntersectAll(QueryLists(Build(lines), Split(Strip(phrase)))) == []
  {
    EmptyPieceAtEnd(Strip(phrase));
    SearchEmptyPiece(lines, phrase);
  }

  /** An index built from lines that are each a single term: a term is a key
      exactly when it is one of the lines, and its list holds the numbers of
      the lines equal to it. */
  lemma BuildOfWordLines(lines: seq<string>, w: string, x: int)
    requires forall k :: 0 <= k < |lines| ==> IsWord(lines[k])
    ensures w in Build(lines) <==> w in lines
    ensures w in Build(lines) ==> (x in Build(lines)[w] <==> 1 <= x <= |lines| && lines[x - 1] == w)
  {
    forall k | 0 <= k < |lines|
      ensures WordSet(lines[k]) == {lines[k]}
    {
      WordSetOfWord(lines[k]);
    }
    BuildKeys(lines, w);
    if w in lines {
      var k :| 0 <= k < |lines| && lines[k] == w;
      assert Occurs(lines, w, k + 1);
    }
    if w in Build(lines) {
      BuildList(lines, w, x);
    }
  }

  /** The search `SearchWords` makes on a built index returns exactly the
      records whose line holds every word of the phrase, and none for a
      phrase without words. */
  lemma PhraseSearchAfterBuild(lines: seq<string>, phrase: string, x: int)
    ensures x in IntersectAll(QueryLists(Build(lines), PhraseKeywords(phrase)))
            <==> WordSet(phrase) != {} && 1 <= x <= |lines| && WordSet(phrase) <= WordSet(lines[x - 1])
  {
    QueryAfterBuild(lines, PhraseKeywords(phrase), x);
    if 1 <= x <= |lines| {
      PhraseCovers(phrase, WordSet(lines[x - 1]));
    }
  }

  /** Every keyword of a phrase is in `line` iff every word of the phrase is. */
  lemma PhraseCovers(phrase: string, line: set<string>)
    ensures (|PhraseKeywords(phrase)| > 0 && forall k :: 0 <= k < |PhraseKeywords(phrase)| ==> Clean(PhraseKeywords(phrase)[k]) in line)
            <==> (WordSet(phrase) != {} && WordSet(phrase) <= line)
  {
    PhraseKeywordsAreWords(phrase);
    KeywordsCover(PhraseKeywords(phrase), WordSet(phrase), line);
  }

  lemma KeywordsCover(keywords: seq<string>, words: set<string>, line: set<string>)
    requires forall w :: w in words <==> w in Normalised(keywords)
    ensures (|keywords| > 0 && forall k :: 0 <= k < |keywords| ==> Clean(keywords[k]) in line)
            <==> (words != {} && words <= line)
  {
    SeqCoversSet(Normalised(keywords), words, line);
  }

  /** A list meets every member of a set iff its elements are that set's. */
  lemma SeqCoversSet(cs: seq<string>, words: set<string>, line: set<string>)
    requires forall w :: w in words <==> w in cs
    ensures (|cs| > 0 && forall k :: 0 <= k < |cs| ==> cs[k] in line) <==> (words != {} && words <= line)
  {
    if |cs| > 0 {
      assert cs[0] in words;
    }
    if words != {} {
      var w :| w in words;
      assert w in cs;
    }
  }
}
