/** Text normalisation used by the inverted index: the ASCII letter test,
    lower-casing, Python's whitespace `strip`, and the split of a text on
    runs of non-letters (the regular expression `[^A-Za-z]+`). */
module Tokenizer {

  predicate IsLetter(c: char) {
    'A' <= c <= 'Z' || 'a' <= c <= 'z'
  }

  predicate AllLetters(s: string) {
    forall k :: 0 <= k < |s| ==> IsLetter(s[k])
  }

  /** A term of the index: a nonempty string of lower-case ASCII letters. */
  predicate IsWord(w: string) {
    |w| > 0 && forall k :: 0 <= k < |w| ==> 'a' <= w[k] <= 'z'
  }

  /** The characters Python's `str.isspace` accepts, which `str.strip()` removes. */
  const Whitespace: set<char> := {
      '\t', '\n', '\U{B}', '\U{C}', '\r', '\U{1C}', '\U{1D}', '\U{1E}',
      '\U{1F}', ' ', '\U{85}', '\U{A0}', '\U{1680}', '\U{2000}', '\U{2001}', '\U{2002}',
      '\U{2003}', '\U{2004}', '\U{2005}', '\U{2006}', '\U{2007}', '\U{2008}', '\U{2009}', '\U{200A}',
      '\U{2028}', '\U{2029}', '\U{202F}', '\U{205F}', '\U{3000}'
    }

  predicate IsSpace(c: char) {
    c in Whitespace
  }

  function LowerChar(c: char): char {
    if 'A' <= c <= 'Z' then (c as int + 32) as char else c
  }

  /** `str.lower()` on the ASCII range; other characters are kept. */
  function Lower(s: string): (r: string)
    ensures |r| == |s|
    ensures forall k :: 0 <= k < |s| ==> r[k] == LowerChar(s[k])
  {
    seq(|s|, k requires 0 <= k < |s| => LowerChar(s[k]))
  }

  /** The number of whitespace characters `s` starts with. */
  function LeadingSpaces(s: string): (n: nat)
    ensures n <= |s|
    ensures forall k :: 0 <= k < n ==> IsSpace(s[k])
    ensures n == |s| || !IsSpace(s[n])
  {
    if |s| > 0 && IsSpace(s[0]) then
      var m := LeadingSpaces(s[1..]);
      assert forall k :: 1 <= k <= m ==> s[k] == s[1..][k - 1];
      1 + m
    else 0
  }

  /** The number of whitespace characters `s` ends with. */
  function TrailingSpaces(s: string): (n: nat)
    ensures n <= |s|
    ensures forall k :: |s| - n <= k < |s| ==> IsSpace(s[k])
    ensures n == |s| || !IsSpace(s[|s| - n - 1])
  {
    if |s| > 0 && IsSpace(s[|s| - 1]) then
      var m := TrailingSpaces(s[..|s| - 1]);
      assert forall k :: 0 <= k < |s| - 1 ==> s[k] == s[..|s| - 1][k];
      1 + m
    else 0
  }

  /** Drops leading whitespace. */
  function StripLeft(s: string): (r: string)
    ensures |r| <= |s| && r == s[|s| - |r|..]
    ensures forall k :: 0 <= k < |s| - |r| ==> IsSpace(s[k])
    ensures r == [] || !IsSpace(r[0])
  {
    s[LeadingSpaces(s)..]
  }

  /** Drops trailing whitespace. */
  function StripRight(s: string): (r: string)
    ensures |r| <= |s| && r == s[..|r|]
    ensures forall k :: |r| <= k < |s| ==> IsSpace(s[k])
    ensures r == [] || !IsSpace(r[|r| - 1])
  {
    s[..|s| - TrailingSpaces(s)]
  }

  /** `str.strip()`: the slice of `s` left after removing whitespace at both ends. */
  function Strip(s: string): string {
    StripRight(StripLeft(s))
  }

  /** `str.strip()` keeps a slice of its input, and everything around that
      slice is whitespace ... */
  lemma StripSpec(s: string)
    ensures StrippedAt(s, |s| - |StripLeft(s)|, Strip(s))
  {
    var l := StripLeft(s);
    var r := StripRight(l);
    StrippedCompose(s, l, r);
  }

  /** ... and the slice neither starts nor ends with whitespace. */
  lemma StripSpecEnds(s: string)
    ensures Strip(s) == [] || (!IsSpace(Strip(s)[0]) && !IsSpace(Strip(s)[|Strip(s)| - 1]))
  {
    var l := StripLeft(s);
    var r := StripRight(l);
    assert r == [] || !IsSpace(r[|r| - 1]);
    StripEnds(l, r);
  }

  /** Neither end of a stripped string is whitespace. */
  lemma StripEnds(l: string, r: string)
    requires l == [] || !IsSpace(l[0])
    requires |r| <= |l| && r == l[..|r|]
    requires r == [] || !IsSpace(r[|r| - 1])
    ensures r == [] || (!IsSpace(r[0]) && !IsSpace(r[|r| - 1]))
  {
    if r != [] {
      assert r[0] == l[0];
    }
  }

  /** `r` is `s[a..a + |r|]` and everything of `s` outside that slice is whitespace. */
  predicate StrippedAt(s: string, a: int, r: string) {
    && 0 <= a <= a + |r| <= |s|
    && s[a..a + |r|] == r
    && (forall k :: 0 <= k < a ==> IsSpace(s[k]))
    && (forall k :: a + |r| <= k < |s| ==> IsSpace(s[k]))
  }

  /** A whitespace-free suffix of `s` trimmed at its end by whitespace only is
      a stripped slice of `s`. */
  lemma StrippedCompose(s: string, l: string, r: string)
    requires |l| <= |s| && l == s[|s| - |l|..]
    requires forall k :: 0 <= k < |s| - |l| ==> IsSpace(s[k])
    requires |r| <= |l| && r == l[..|r|]
    requires forall k :: |r| <= k < |l| ==> IsSpace(l[k])
    ensures StrippedAt(s, |s| - |l|, r)
  {
    var a := |s| - |l|;
    assert s[a..a + |r|] == r by {
      assert s[a..a + |r|] == s[a..][..|r|];
    }
    forall k | a + |r| <= k < |s|
      ensures IsSpace(s[k])
    {
      assert s[k] == l[k - a];
    }
  }

  /** The keyword normalisation `keyword.lower().strip()`. */
  function Clean(s: string): string {
    Strip(Lower(s))
  }

  /** `re.split("[^A-Za-z]+", s)`: the pieces of `s` between maximal runs of
      non-letters. The first piece is empty when `s` is empty or starts with a
      non-letter, the last one when `s` ends with a non-letter. */
  function Split(s: string): (r: seq<string>)
    ensures |r| >= 1
    ensures forall k :: 0 <= k < |r| ==> AllLetters(r[k])
    ensures |r[0]| <= |s| && r[0] == s[..|r[0]|]
    ensures |r[0]| == |s| || !IsLetter(s[|r[0]|])
  {
    if |s| == 0 then [""]
    else
      var rest := Split(s[1..]);
      if IsLetter(s[0]) then [[s[0]] + rest[0]] + rest[1..]
      else if |s| > 1 && !IsLetter(s[1]) then rest
      else [""] + rest
  }

  /** `s[i..j]` is a maximal nonempty run of letters of `s`. */
  predicate IsRun(s: string, i: int, j: int) {
    && 0 <= i < j <= |s|
    && AllLetters(s[i..j])
    && (i == 0 || !IsLetter(s[i - 1]))
    && (j == |s| || !IsLetter(s[j]))
  }

  /** `f` is the maximal run of letters of `s` that starts at `i`. */
  predicate RunAt(s: string, i: int, f: string) {
    IsRun(s, i, i + |f|) && s[i..i + |f|] == f
  }

  /** Each piece normalised as a keyword is. */
  function Normalised(pieces: seq<string>): (r: seq<string>)
    ensures |r| == |pieces|
    ensures forall k :: 0 <= k < |pieces| ==> r[k] == Clean(pieces[k])
  {
    seq(|pieces|, k requires 0 <= k < |pieces| => Clean(pieces[k]))
  }

  /** The nonempty strings of a list, in order. */
  function NonEmpty(ws: seq<string>): seq<string> {
    if ws == [] then []
    else NonEmpty(ws[..|ws| - 1]) + (if ws[|ws| - 1] == "" then [] else [ws[|ws| - 1]])
  }

  /** The set of nonempty strings of a list. */
  function WordsOf(ws: seq<string>): set<string> {
    set w | w in NonEmpty(ws)
  }

  /** The words a record line contributes to the index. */
  function WordSet(line: string): set<string> {
    WordsOf(Normalised(Split(Strip(line))))
  }

  /** The keywords of a search phrase with the empty pieces of its split
      dropped, as the build loop drops them from a record line. */
  function PhraseKeywords(phrase: string): seq<string> {
    NonEmpty(Split(Strip(phrase)))
  }

  // ---------------------------------------------------------------------------
  // Lemmas

  lemma LowerOfLetters(s: string)
    requires AllLetters(s)
    ensures AllLetters(Lower(s))
    ensures s != [] ==> IsWord(Lower(s))
  {
  }

  lemma StripNoSpace(s: string)
    requires forall k :: 0 <= k < |s| ==> !IsSpace(s[k])
    ensures Strip(s) == s
  {
  }

  /** Stripping a stripped string changes nothing. */
  lemma {:induction false} StripIdempotent(s: string)
    ensures Strip(Strip(s)) == Strip(s)
  {
    var r := Strip(s);
    StripSpec(s);
    if r != [] {
      assert StripLeft(r) == r;
      assert StripRight(r) == r;
    }
  }

  /** No strings, no words. */
  lemma WordsOfNothing()
    ensures WordsOf([]) == {}
  {
  }

  /** One more string adds itself to the set, unless it is empty. */
  lemma WordsOfAppend(ws: seq<string>, word: string)
    ensures WordsOf(ws + [word]) == WordsOf(ws) + (if word == "" then {} else {word})
  {
    assert (ws + [word])[..|ws|] == ws;
  }

  /** A stripped line has the same words as the line. */
  lemma WordSetOfStripped(line: string)
    ensures WordSet(Strip(line)) == WordSet(line)
  {
    StripIdempotent(line);
  }

  /** Lower-casing twice is lower-casing once, so keyword lookup ignores case. */
  lemma LowerIdempotent(s: string)
    ensures Lower(Lower(s)) == Lower(s)
  {
  }

  /** A letter-only piece is normalised by lower-casing alone. */
  lemma CleanOfLetters(f: string)
    requires AllLetters(f)
    ensures Clean(f) == Lower(f)
    ensures f != "" ==> IsWord(Clean(f))
    ensures f == "" ==> Clean(f) == ""
  {
    var l := Lower(f);
    LowerOfLetters(f);
    forall k | 0 <= k < |l|
      ensures !IsSpace(l[k])
    {
      LetterNotSpace(l[k]);
    }
    StripNoSpace(l);
  }

  /** A term is its own normalisation. */
  lemma CleanOfWord(w: string)
    requires IsWord(w)
    ensures Clean(w) == w
  {
    LowerOfWord(w);
    CleanOfLetters(w);
  }

  lemma LowerOfWord(w: string)
    requires IsWord(w)
    ensures AllLetters(w) && Lower(w) == w
  {
    assert forall k :: 0 <= k < |w| ==> Lower(w)[k] == w[k];
  }

  lemma LetterNotSpace(c: char)
    requires IsLetter(c)
    ensures !IsSpace(c)
  {
  }

  /** A run of the tail of `s` is a run of `s`, one position later, unless
      it starts the tail right after a letter. */
  lemma RunOfTail(s: string, i: int, f: string)
    requires |s| > 0 && RunAt(s[1..], i, f)
    requires i == 0 ==> !IsLetter(s[0])
    ensures RunAt(s, i + 1, f)
  {
    assert s[i + 1..i + 1 + |f|] == s[1..][i..i + |f|];
  }

  /** Every nonempty piece of the split is a maximal run of letters of the
      input, and every piece after the first starts after a separator. */
  lemma {:induction false} SplitPiecesAreRuns(s: string, k: nat)
    requires k < |Split(s)| && Split(s)[k] != ""
    ensures exists i :: RunAt(s, i, Split(s)[k]) && (k > 0 ==> i > 0)
  {
    var r := Split(s);
    var f := r[k];
    var rest := Split(s[1..]);
    if IsLetter(s[0]) {
      if k == 0 {
        assert RunAt(s, 0, f);
      } else {
        assert f == rest[k];
        SplitPiecesAreRuns(s[1..], k);
        var i :| RunAt(s[1..], i, f) && i > 0;
        RunOfTail(s, i, f);
      }
    } else if |s| > 1 && !IsLetter(s[1]) {
      assert f == rest[k];
      SplitPiecesAreRuns(s[1..], k);
      var i :| RunAt(s[1..], i, f);
      RunOfTail(s, i, f);
    } else {
      assert k > 0 && f == rest[k - 1];
      SplitPiecesAreRuns(s[1..], k - 1);
      var i :| RunAt(s[1..], i, f);
      RunOfTail(s, i, f);
    }
  }

  /** Every maximal run of letters of the input is a piece of the split; one
      that starts after a separator is a piece other than the first. */
  lemma {:induction false} RunsAreSplitPieces(s: string, i: int, j: int)
    requires IsRun(s, i, j)
    ensures s[i..j] in Split(s)
    ensures i > 0 ==> s[i..j] in Split(s)[1..]
  {
    if i == 0 {
      FirstPieceIsRun(s, j);
    } else {
      RunInTail(s, i, j);
      RunsAreSplitPieces(s[1..], i - 1, j - 1);
      TailPieceIsPiece(s, s[i..j], i > 1);
    }
  }

  /** A run at the start of `s` is the first piece of its split. */
  lemma FirstPieceIsRun(s: string, j: int)
    requires IsRun(s, 0, j)
    ensures Split(s)[0] == s[..j]
  {
    var f := Split(s)[0];
    assert forall k :: 0 <= k < j ==> s[k] == s[0..j][k];
    assert forall k :: 0 <= k < |f| ==> s[k] == f[k];
    assert |f| == j;
  }

  /** A run that does not start `s` is a run of `s[1..]`, one position earlier. */
  lemma RunInTail(s: string, i: int, j: int)
    requires IsRun(s, i, j) && i > 0
    ensures IsRun(s[1..], i - 1, j - 1) && s[1..][i - 1..j - 1] == s[i..j]
  {
    assert s[1..][i - 1..j - 1] == s[i..j];
  }

  /** A piece of the split of `s[1..]` is a piece after the first of the
      split of `s`, if it is not the first or `s` starts with a separator. */
  lemma TailPieceIsPiece(s: string, f: string, later: bool)
    requires |s| > 0 && f in Split(s[1..])
    requires later ==> f in Split(s[1..])[1..]
    requires !later ==> !IsLetter(s[0]) && |s| > 1 && IsLetter(s[1])
    ensures f in Split(s)[1..]
  {
    var r := Split(s);
    var rest := Split(s[1..]);
    if IsLetter(s[0]) {
      assert r[1..] == rest[1..];
    } else if |s| > 1 && !IsLetter(s[1]) {
      assert r[1..] == rest[1..];
    } else {
      assert r[1..] == rest;
    }
  }

  /** Dropping the empty strings keeps every other one. */
  lemma {:induction false} NonEmptyMembers(ws: seq<string>, w: string)
    ensures w in NonEmpty(ws) <==> w != "" && w in ws
  {
    if ws != [] {
      var n := |ws| - 1;
      NonEmptyMembers(ws[..n], w);
      assert ws == ws[..n] + [ws[n]];
    }
  }

  /** Whitespace is never a letter, so a run of letters of a stripped string
      is a run of the original, shifted by what was stripped at the front. */
  lemma RunOfStrippedIsRun(s: string, a: int, t: string, i: int, f: string)
    requires StrippedAt(s, a, t) && RunAt(t, i, f)
    ensures RunAt(s, a + i, f)
  {
    assert forall k :: 0 <= k < |f| ==> f[k] == s[a + i + k];
    assert s[a + i..a + i + |f|] == f;
    if a + i + |f| < |s| && i + |f| == |t| {
      assert IsSpace(s[a + i + |f|]);
    }
    if a + i > 0 && i == 0 {
      assert IsSpace(s[a - 1]);
    }
  }

  /** Conversely, a run of letters of the original lies inside the stripped
      slice and is a run of it. */
  lemma RunIsRunOfStripped(s: string, a: int, t: string, i: int, f: string)
    requires StrippedAt(s, a, t) && RunAt(s, i, f)
    ensures RunAt(t, i - a, f)
  {
    assert forall k :: 0 <= k < a ==> !IsLetter(s[k]);
    assert forall k :: a + |t| <= k < |s| ==> !IsLetter(s[k]);
    assert IsLetter(s[i..i + |f|][0]) && IsLetter(s[i..i + |f|][|f| - 1]);
    assert IsLetter(s[i]) && IsLetter(s[i + |f| - 1]);
    assert a <= i && i + |f| <= a + |t|;
    assert forall k :: 0 <= k < |f| ==> f[k] == t[i - a + k];
    assert t[i - a..i - a + |f|] == f;
  }

  /** Every word of a line is a lower-cased nonempty piece of its split. */
  lemma WordIsPiece(line: string, w: string)
    requires w in WordSet(line)
    ensures exists f :: f in Split(Strip(line)) && f != "" && w == Lower(f)
  {
    WordIsPieceOf(Split(Strip(line)), w);
  }

  lemma WordIsPieceOf(pieces: seq<string>, w: string)
    requires forall k :: 0 <= k < |pieces| ==> AllLetters(pieces[k])
    requires w in WordsOf(Normalised(pieces))
    ensures exists f :: f in pieces && f != "" && w == Lower(f)
  {
    var cleaned := Normalised(pieces);
    NonEmptyMembers(cleaned, w);
    var k :| 0 <= k < |cleaned| && cleaned[k] == w;
    CleanOfLetters(pieces[k]);
    assert pieces[k] in pieces;
  }

  /** Every nonempty piece of the split of a line gives a word of it. */
  lemma PieceIsWord(line: string, f: string)
    requires f in Split(Strip(line)) && f != ""
    ensures Lower(f) in WordSet(line)
  {
    PieceIsWordOf(Split(Strip(line)), f);
  }

  lemma PieceIsWordOf(pieces: seq<string>, f: string)
    requires forall k :: 0 <= k < |pieces| ==> AllLetters(pieces[k])
    requires f in pieces && f != ""
    ensures Lower(f) in WordsOf(Normalised(pieces))
  {
    var cleaned := Normalised(pieces);
    var k :| 0 <= k < |pieces| && pieces[k] == f;
    CleanOfLetters(f);
    assert cleaned[k] == Lower(f);
    NonEmptyMembers(cleaned, Lower(f));
  }

  /** A nonempty piece of the split of a stripped line is a maximal run of
      letters of the line itself. */
  lemma PieceIsRun(line: string, f: string)
    requires f in Split(Strip(line)) && f != ""
    ensures exists i :: RunAt(line, i, f)
  {
    StripSpec(line);
    PieceIsRunOf(line, |line| - |StripLeft(line)|, Strip(line), f);
  }

  lemma PieceIsRunOf(line: string, a: int, t: string, f: string)
    requires StrippedAt(line, a, t)
    requires f in Split(t) && f != ""
    ensures exists i :: RunAt(line, i, f)
  {
    var pieces := Split(t);
    var k :| 0 <= k < |pieces| && pieces[k] == f;
    SplitPiecesAreRuns(t, k);
    var i :| RunAt(t, i, f);
    RunOfStrippedIsRun(line, a, t, i, f);
  }

  /** A maximal run of letters of a line is a piece of the split of the
      stripped line. */
  lemma RunIsPiece(line: string, i: int, f: string)
    requires RunAt(line, i, f)
    ensures f in Split(Strip(line)) && f != ""
  {
    StripSpec(line);
    RunIsPieceOf(line, |line| - |StripLeft(line)|, Strip(line), i, f);
  }

  lemma RunIsPieceOf(line: string, a: int, t: string, i: int, f: string)
    requires StrippedAt(line, a, t) && RunAt(line, i, f)
    ensures f in Split(t) && f != ""
  {
    RunIsRunOfStripped(line, a, t, i, f);
    RunsAreSplitPieces(t, i - a, i - a + |f|);
  }

  /** The words of a line are exactly its maximal runs of ASCII letters,
      lower-cased: digits, punctuation and whitespace only separate. */
  lemma WordSetIsRuns(line: string, w: string)
    ensures w in WordSet(line) <==> exists i, f :: RunAt(line, i, f) && w == Lower(f)
  {
    if w in WordSet(line) {
      WordIsPiece(line, w);
      var f :| f in Split(Strip(line)) && f != "" && w == Lower(f);
      PieceIsRun(line, f);
    }
    if exists i, f :: RunAt(line, i, f) && w == Lower(f) {
      var i, f :| RunAt(line, i, f) && w == Lower(f);
      RunIsPiece(line, i, f);
      PieceIsWord(line, f);
    }
  }

  /** Every word of a line is a term: nonempty lower-case letters. */
  lemma WordsAreTerms(line: string, w: string)
    requires w in WordSet(line)
    ensures IsWord(w)
  {
    var pieces := Split(Strip(line));
    var cleaned := Normalised(pieces);
    NonEmptyMembers(cleaned, w);
    assert w in cleaned;
    var k :| 0 <= k < |cleaned| && cleaned[k] == w;
    CleanOfLetters(pieces[k]);
  }

  /** The keywords of a phrase, normalised, are exactly the words the phrase
      would give as a record line. */
  lemma PhraseKeywordsAreWords(phrase: string)
    ensures forall w :: w in WordSet(phrase) <==> w in Normalised(PhraseKeywords(phrase))
  {
    forall w
      ensures w in WordSet(phrase) <==> w in Normalised(PhraseKeywords(phrase))
    {
      KeywordsAreWordsOf(Split(Strip(phrase)), w);
    }
  }

  lemma KeywordsAreWordsOf(pieces: seq<string>, w: string)
    requires forall k :: 0 <= k < |pieces| ==> AllLetters(pieces[k])
    ensures w in WordsOf(Normalised(pieces)) <==> w in Normalised(NonEmpty(pieces))
  {
    if w in WordsOf(Normalised(pieces)) {
      WordIsKeyword(pieces, w);
    }
    if w in Normalised(NonEmpty(pieces)) {
      KeywordIsWord(pieces, w);
    }
  }

  lemma WordIsKeyword(pieces: seq<string>, w: string)
    requires forall k :: 0 <= k < |pieces| ==> AllLetters(pieces[k])
    requires w in WordsOf(Normalised(pieces))
    ensures w in Normalised(NonEmpty(pieces))
  {
    WordIsPieceOf(pieces, w);
    var f :| f in pieces && f != "" && w == Lower(f);
    NonEmptyMembers(pieces, f);
    MemberLetters(pieces, f);
    CleanOfLetters(f);
    CleanedMember(NonEmpty(pieces), f);
  }

  lemma KeywordIsWord(pieces: seq<string>, w: string)
    requires forall k :: 0 <= k < |pieces| ==> AllLetters(pieces[k])
    requires w in Normalised(NonEmpty(pieces))
    ensures w in WordsOf(Normalised(pieces))
  {
    CleanedMemberOf(NonEmpty(pieces), w);
    var f :| f in NonEmpty(pieces) && Clean(f) == w;
    NonEmptyMembers(pieces, f);
    MemberLetters(pieces, f);
    CleanOfLetters(f);
    PieceIsWordOf(pieces, f);
  }

  lemma MemberLetters(pieces: seq<string>, f: string)
    requires forall k :: 0 <= k < |pieces| ==> AllLetters(pieces[k])
    requires f in pieces
    ensures AllLetters(f)
  {
  }

  lemma CleanedMember(ws: seq<string>, f: string)
    requires f in ws
    ensures Clean(f) in Normalised(ws)
  {
    var k :| 0 <= k < |ws| && ws[k] == f;
    assert Normalised(ws)[k] == Clean(f);
  }

  lemma CleanedMemberOf(ws: seq<string>, w: string)
    requires w in Normalised(ws)
    ensures exists f :: f in ws && Clean(f) == w
  {
    var k :| 0 <= k < |ws| && Normalised(ws)[k] == w;
    assert ws[k] in ws;
  }

  /** A string of letters is one piece. */
  lemma {:induction false} SplitOfLetters(w: string)
    requires AllLetters(w)
    ensures Split(w) == [w]
  {
    if w != [] {
      SplitOfLetters(w[1..]);
      assert [w[0]] + w[1..] == w;
    }
  }

  /** Letters followed by one separator are two pieces, the second empty. */
  lemma {:induction false} SplitOfLettersThen(w: string, c: char)
    requires AllLetters(w) && !IsLetter(c)
    ensures Split(w + [c]) == [w, ""]
  {
    if w != [] {
      var s := w + [c];
      assert s[1..] == w[1..] + [c];
      SplitOfLettersThen(w[1..], c);
      assert [w[0]] + w[1..] == w;
    }
  }

  /** A text ending with a separator splits into at least two pieces, the
      last one empty. */
  lemma {:induction false} TrailingEmpty(s: string)
    requires s != [] && !IsLetter(s[|s| - 1])
    ensures |Split(s)| >= 2 && Split(s)[|Split(s)| - 1] == ""
  {
    if |s| > 1 {
      assert s[1..][|s[1..]| - 1] == s[|s| - 1];
      TrailingEmpty(s[1..]);
    }
  }

  /** A text that is empty, or starts or ends with a separator, has an empty
      piece. */
  lemma EmptyPieceAtEnd(s: string)
    requires s == [] || !IsLetter(s[0]) || !IsLetter(s[|s| - 1])
    ensures "" in Split(s)
  {
    if s != [] && !IsLetter(s[|s| - 1]) {
      TrailingEmpty(s);
    } else {
      assert Split(s)[0] == "";
    }
  }

  /** A line that is a single term contributes that term alone. */
  lemma WordSetOfWord(w: string)
    requires IsWord(w)
    ensures WordSet(w) == {w}
  {
    assert AllLetters(w);
    PhraseOfLetters(w);
    CleanOfWord(w);
    NormalisedWord(w);
    WordsOfOne(w);
  }

  lemma WordsOfOne(w: string)
    requires w != ""
    ensures WordsOf([w]) == {w}
  {
    assert NonEmpty([w]) == NonEmpty([]) + [w];
  }

  lemma NormalisedWord(w: string)
    requires Clean(w) == w
    ensures Normalised([w]) == [w]
  {
  }

  /** A phrase of letters alone is one keyword. */
  lemma PhraseOfLetters(w: string)
    requires AllLetters(w)
    ensures Split(Strip(w)) == [w]
  {
    LettersNoSpace(w, '!');
    StripNoSpace(w);
    SplitOfLetters(w);
  }

  /** A word followed by one separator that is not whitespace splits into the
      word and an empty piece, and gives the word alone as keyword. */
  lemma PhraseOfWordThen(w: string, c: char)
    requires AllLetters(w) && w != "" && !IsLetter(c) && !IsSpace(c)
    ensures Split(Strip(w + [c])) == [w, ""]
    ensures PhraseKeywords(w + [c]) == [w]
  {
    PiecesOfWordThen(w, c);
    NonEmptyOfPair(w);
  }

  lemma PiecesOfWordThen(w: string, c: char)
    requires AllLetters(w) && !IsLetter(c) && !IsSpace(c)
    ensures Split(Strip(w + [c])) == [w, ""]
  {
    LettersNoSpace(w, c);
    StripNoSpace(w + [c]);
    SplitOfLettersThen(w, c);
  }

  lemma NonEmptyOfPair(w: string)
    requires w != ""
    ensures NonEmpty([w, ""]) == [w]
  {
    var pieces := [w, ""];
    assert pieces[..1] == [w];
    assert [w][..0] == [];
    assert NonEmpty([w]) == [w];
  }

  lemma LettersNoSpace(w: string, c: char)
    requires AllLetters(w) && !IsSpace(c)
    ensures forall k :: 0 <= k < |w| ==> !IsSpace(w[k])
    ensures forall k :: 0 <= k < |w + [c]| ==> !IsSpace((w + [c])[k])
  {
    forall k | 0 <= k < |w|
      ensures !IsSpace(w[k])
    {
      LetterNotSpace(w[k]);
    }
  }
}
