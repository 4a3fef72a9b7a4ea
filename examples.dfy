/** The examples given with the operations of the inverted index, stated as
    lemmas about the model. */
module Examples {
  import opened Tokenizer
  import opened Postings
  import opened InvertedIndex

  /** `intersect([1, 5, 7], [2, 4])` is empty. */
  lemma IntersectDisjointExample()
    ensures Intersection([1, 5, 7], [2, 4]) == []
  {
    var a, b := [1, 5, 7], [2, 4];
    assert forall x :: x in a <==> x == 1 || x == 5 || x == 7;
    assert forall x :: x in b <==> x == 2 || x == 4;
    IntersectionIs(a, b, []);
  }

  /** `intersect([1, 2, 5, 7], [1, 3, 5, 6, 7, 9])` is `[1, 5, 7]`. */
  lemma IntersectExample()
    ensures Intersection([1, 2, 5, 7], [1, 3, 5, 6, 7, 9]) == [1, 5, 7]
  {
    var a, b, r := [1, 2, 5, 7], [1, 3, 5, 6, 7, 9], [1, 5, 7];
    assert forall x :: x in a <==> x == 1 || x == 2 || x == 5 || x == 7;
    assert forall x :: x in b <==> x == 1 || x == 3 || x == 5 || x == 6 || x == 7 || x == 9;
    assert forall x :: x in r <==> x == 1 || x == 5 || x == 7;
    IntersectionIs(a, b, r);
  }

  /** The index listed by the build example. */
  function ExampleIndex(): Index {
    map["a" := [1, 2], "doc" := [1, 2, 3], "film" := [2], "movie" := [1, 3]]
  }

  lemma ExampleIndexSorted()
    ensures ListsSorted(ExampleIndex())
  {
  }

  /** `process_query([])` is empty. */
  lemma NoKeywordsExample()
    ensures IntersectAll(QueryLists(ExampleIndex(), [])) == []
  {
  }

  /** The inverted list of "doc" in the example index. */
  lemma DocList()
    ensures GetInvertedList(ExampleIndex(), "doc") == [1, 2, 3]
  {
    assert IsWord("doc");
    LookupTerm(ExampleIndex(), "doc");
  }

  /** The inverted list of "movie" in the example index. */
  lemma MovieList()
    ensures GetInvertedList(ExampleIndex(), "movie") == [1, 3]
  {
    assert IsWord("movie");
    LookupTerm(ExampleIndex(), "movie");
  }

  /** `process_query(["doc"])` is `[1, 2, 3]`. */
  lemma OneKeywordExample()
    ensures IntersectAll(QueryLists(ExampleIndex(), ["doc"])) == [1, 2, 3]
  {
    DocList();
    assert QueryLists(ExampleIndex(), ["doc"]) == [[1, 2, 3]];
  }

  /** The intersection of the lists of "doc" and "movie". */
  lemma DocMovieIntersection()
    ensures IntersectAll([[1, 2, 3], [1, 3]]) == [1, 3]
  {
    var lists: seq<seq<int>> := [[1, 2, 3], [1, 3]];
    assert lists[..1] == [[1, 2, 3]];
    assert forall x :: x in [1, 2, 3] <==> x == 1 || x == 2 || x == 3;
    assert forall x :: x in [1, 3] <==> x == 1 || x == 3;
    IntersectionIs([1, 2, 3], [1, 3], [1, 3]);
  }

  lemma QueryListsOfTwo(index: Index, k1: string, k2: string)
    ensures QueryLists(index, [k1, k2]) == [GetInvertedList(index, k1), GetInvertedList(index, k2)]
  {
  }

  /** `process_query(["doc", "movie"])` is `[1, 3]`. */
  lemma TwoKeywordsExample()
    ensures IntersectAll(QueryLists(ExampleIndex(), ["doc", "movie"])) == [1, 3]
  {
    QueryListsOfTwo(ExampleIndex(), "doc", "movie");
    DocList();
    MovieList();
    DocMovieIntersection();
  }

  /** `process_query(["doc", "movie", "comedy"])` is empty: the index has no
      list for "comedy". */
  lemma AbsentKeywordExample()
    ensures IntersectAll(QueryLists(ExampleIndex(), ["doc", "movie", "comedy"])) == []
  {
    var keywords := ["doc", "movie", "comedy"];
    assert keywords[2] == "comedy" && IsWord("comedy") && "comedy" !in ExampleIndex();
    ExampleIndexSorted();
    AbsentTermQuery(ExampleIndex(), keywords, 2);
  }

  /** A query with a term, or the empty string, the index does not hold. */
  lemma AbsentTermQuery(index: Index, keywords: seq<string>, k: int)
    requires ListsSorted(index)
    requires 0 <= k < |keywords| && (keywords[k] == "" || IsWord(keywords[k])) && keywords[k] !in index
    ensures IntersectAll(QueryLists(index, keywords)) == []
  {
    if keywords[k] == "" {
      CleanOfLetters("");
    } else {
      CleanOfWord(keywords[k]);
    }
    AbsentKeywordNoMatch(index, keywords, k);
  }

  /** The inverted list of "film" in the example index. */
  lemma FilmList()
    ensures GetInvertedList(ExampleIndex(), "film") == [2]
  {
    assert IsWord("film");
    LookupTerm(ExampleIndex(), "film");
  }

  /** The phrase "film!" splits into "film" and an empty piece after the "!";
      with the empty piece dropped, "film" is its one keyword. */
  lemma FilmPieces()
    ensures Split(Strip("film!")) == ["film", ""]
    ensures PhraseKeywords("film!") == ["film"]
  {
    assert AllLetters("film") && !IsLetter('!') && !IsSpace('!');
    assert "film" + ['!'] == "film!";
    PhraseOfWordThen("film", '!');
  }

  lemma QueryListsOfOne(index: Index, k1: string)
    ensures QueryLists(index, [k1]) == [GetInvertedList(index, k1)]
  {
  }

  lemma OneListQuery(index: Index, keywords: seq<string>, k1: string, l: seq<int>)
    requires keywords == [k1] && GetInvertedList(index, k1) == l
    ensures IntersectAll(QueryLists(index, keywords)) == l
  {
    QueryListsOfOne(index, k1);
  }

  /** A build over concrete lines: three records holding "doc", "film" and
      "doc" give the lists `doc: [1, 3]` and `film: [2]`, and no other key. */
  lemma BuildExample()
    ensures Build(["doc", "film", "doc"]) == map["doc" := [1, 3], "film" := [2]]
  {
    var lines := ["doc", "film", "doc"];
    BuildExampleKeys();
    BuildExampleDoc();
    BuildExampleFilm();
    IndexOfTwo(Build(lines), "doc", [1, 3], "film", [2]);
  }

  lemma BuildExampleKeys()
    ensures Build(["doc", "film", "doc"]).Keys == {"doc", "film"}
  {
    var lines := ["doc", "film", "doc"];
    assert lines[0] == "doc" && lines[1] == "film" && lines[2] == "doc";
    assert forall k :: 0 <= k < |lines| ==> IsWord(lines[k]);
    WordLinesKeys(lines, {"doc", "film"});
  }

  lemma BuildExampleDoc()
    ensures "doc" in Build(["doc", "film", "doc"]) && Build(["doc", "film", "doc"])["doc"] == [1, 3]
  {
    var lines := ["doc", "film", "doc"];
    assert lines[0] == "doc" && lines[1] == "film" && lines[2] == "doc";
    assert forall k :: 0 <= k < |lines| ==> IsWord(lines[k]);
    assert forall x :: x in [1, 3] <==> 1 <= x <= |lines| && lines[x - 1] == "doc";
    WordLinesList(lines, "doc", [1, 3]);
  }

  lemma BuildExampleFilm()
    ensures "film" in Build(["doc", "film", "doc"]) && Build(["doc", "film", "doc"])["film"] == [2]
  {
    var lines := ["doc", "film", "doc"];
    assert lines[0] == "doc" && lines[1] == "film" && lines[2] == "doc";
    assert forall k :: 0 <= k < |lines| ==> IsWord(lines[k]);
    assert forall x :: x in [2] <==> 1 <= x <= |lines| && lines[x - 1] == "film";
    WordLinesList(lines, "film", [2]);
  }

  /** An index with two keys is the map of those keys to their lists. */
  lemma IndexOfTwo(m: Index, a: string, listA: seq<int>, b: string, listB: seq<int>)
    requires m.Keys == {a, b} && m[a] == listA && m[b] == listB
    ensures m == map[a := listA, b := listB]
  {
  }

  /** The keys of an index built from single-term lines are those terms. */
  lemma WordLinesKeys(lines: seq<string>, keys: set<string>)
    requires forall k :: 0 <= k < |lines| ==> IsWord(lines[k])
    requires forall w :: w in keys <==> w in lines
    ensures Build(lines).Keys == keys
  {
    forall w
      ensures w in Build(lines) <==> w in keys
    {
      BuildOfWordLines(lines, w, 0);
    }
  }

  /** The list of `w` in an index built from single-term lines, given its
      expected ids. */
  lemma WordLinesList(lines: seq<string>, w: string, ids: seq<int>)
    requires forall k :: 0 <= k < |lines| ==> IsWord(lines[k])
    requires w in lines && StrictlyIncreasing(ids)
    requires forall x :: x in ids <==> 1 <= x <= |lines| && lines[x - 1] == w
    ensures w in Build(lines) && Build(lines)[w] == ids
  {
    BuildOfWordLines(lines, w, 0);
    forall x
      ensures x in Build(lines)[w] <==> x in ids
    {
      BuildOfWordLines(lines, w, x);
    }
    BuildSorted(lines, w);
    SameElementsSameList(Build(lines)[w], ids);
  }

  /** `search("film", 3)` finds record 2, but `search("film!", 3)` finds
      nothing: the empty piece after the "!" is a keyword no record holds. */
  lemma SearchTrailingPunctuation()
    ensures IntersectAll(QueryLists(ExampleIndex(), Split(Strip("film")))) == [2]
    ensures IntersectAll(QueryLists(ExampleIndex(), Split(Strip("film!")))) == []
  {
    SearchFilm();
    SearchFilmPunctuation();
  }

  lemma SearchFilm()
    ensures IntersectAll(QueryLists(ExampleIndex(), Split(Strip("film")))) == [2]
  {
    assert AllLetters("film");
    PhraseOfLetters("film");
    FilmList();
    OneListQuery(ExampleIndex(), Split(Strip("film")), "film", [2]);
  }

  lemma SearchFilmPunctuation()
    ensures IntersectAll(QueryLists(ExampleIndex(), Split(Strip("film!")))) == []
  {
    FilmPieces();
    ExampleIndexSorted();
    assert "" !in ExampleIndex();
    AbsentTermQuery(ExampleIndex(), Split(Strip("film!")), 1);
  }

  /** With the empty pieces dropped, "film!" finds record 2 as "film" does. */
  lemma SearchWordsTrailingPunctuation()
    ensures IntersectAll(QueryLists(ExampleIndex(), PhraseKeywords("film!"))) == [2]
  {
    FilmPieces();
    FilmList();
    OneListQuery(ExampleIndex(), PhraseKeywords("film!"), "film", [2]);
  }
}
