/** The keyword-count relevance score of cookie_scraper.py
    (`calculate_match_score`): the number of entries of the résumé keyword list
    that occur in the lower-cased text as whole words, a match being what
    `re.search(r"\b<keyword>\b", text)` finds with the keyword taken literally
    (`re.escape`). */
module KeywordScore {
  import opened PyText

  /** A character of the regex class `\w`, restricted to ASCII. */
  predicate IsWordChar(c: char) {
    'a' <= c <= 'z' || 'A' <= c <= 'Z' || '0' <= c <= '9' || c == '_'
  }

  /** Position `p` holds a word character; positions outside the text do not. */
  predicate IsWordAt(t: string, p: int) {
    0 <= p < |t| && IsWordChar(t[p])
  }

  /** `\b` matches at position `p` (between `t[p-1]` and `t[p]`) exactly when
      one of the two neighbouring characters is a word character and the
      other is not; the two ends of the text count as non-word. */
  predicate IsBoundary(t: string, p: int) {
    IsWordAt(t, p - 1) != IsWordAt(t, p)
  }

  /** The pattern `\b<kw>\b` matches the text at index `i`. */
  predicate WholeWordAt(t: string, kw: string, i: int) {
    OccursAt(t, kw, i) && IsBoundary(t, i) && IsBoundary(t, i + |kw|)
  }

  /** `re.search(r"\b<kw>\b", t)` finds a match somewhere. */
  predicate HasWholeWord(t: string, kw: string) {
    exists i | 0 <= i <= |t| - |kw| :: WholeWordAt(t, kw, i)
  }

  /** One keyword entry matches the text, both lower-cased. */
  predicate KeywordMatches(text: string, kw: string) {
    HasWholeWord(Lower(text), Lower(kw))
  }

  /** How many of the first entries of `keywords` match the text. */
  function CountMatches(text: string, keywords: seq<string>): (n: nat)
    ensures n <= |keywords|
  {
    if keywords == [] then 0
    else
      CountMatches(text, keywords[..|keywords| - 1])
        + (if KeywordMatches(text, keywords[|keywords| - 1]) then 1 else 0)
  }

  /** The score of `calculate_match_score(text)`: zero for an empty text,
      otherwise the number of keyword entries that match it, so never more than
      the number of entries. */
  function MatchScore(text: string, keywords: seq<string>): (score: nat)
    ensures score <= |keywords|
    ensures text == "" ==> score == 0
  {
    if text == "" then 0 else CountMatches(text, keywords)
  }

  /** The scoring loop: one pass over the keyword list, adding one for each
      entry found as a whole word in the lower-cased text. */
  method CalculateMatchScore(text: string, keywords: seq<string>) returns (score: nat)
    ensures score == MatchScore(text, keywords)
  {
    if text == "" {
      return 0;
    }
    score := 0;
    var lowered := Lower(text);
    for k := 0 to |keywords|
      invariant score == CountMatches(text, keywords[..k])
    {
      assert keywords[..k + 1][..k] == keywords[..k];
      LowerIdempotent(text);
      if HasWholeWord(lowered, Lower(keywords[k])) {
        score := score + 1;
      }
    }
    assert keywords[..|keywords|] == keywords;
  }

  /** The indices of the keyword entries that match the text. */
  function MatchedEntries(text: string, keywords: seq<string>): set<nat> {
    set i: nat | i < |keywords| && KeywordMatches(text, keywords[i])
  }

  /** The score counts list entries: it is the number of positions in the
      keyword list whose entry matches a non-empty text, so each entry adds at
      most one however often it occurs in the text. */
  lemma {:induction false} MatchScoreCountsEntries(text: string, keywords: seq<string>)
    requires text != ""
    ensures MatchScore(text, keywords) == |MatchedEntries(text, keywords)|
  {
    CountMatchesIsCardinality(text, keywords);
  }

  lemma {:induction false} CountMatchesIsCardinality(text: string, keywords: seq<string>)
    ensures CountMatches(text, keywords) == |MatchedEntries(text, keywords)|
  {
    if keywords == [] {
      assert MatchedEntries(text, keywords) == {};
    } else {
      var n := |keywords| - 1;
      CountMatchesIsCardinality(text, keywords[..n]);
      MatchedEntriesStep(text, keywords);
    }
  }

  /** The matching positions of a list are those of the list without its last
      entry, plus the last position when that entry matches. */
  lemma MatchedEntriesStep(text: string, keywords: seq<string>)
    requires keywords != []
    ensures var n := |keywords| - 1;
      MatchedEntries(text, keywords) ==
        MatchedEntries(text, keywords[..n]) + (if KeywordMatches(text, keywords[n]) then {n} else {})
  {
    var n := |keywords| - 1;
    var front := keywords[..n];
    var m := MatchedEntries(text, front);
    var all := MatchedEntries(text, keywords);
    assert forall i :: i in all && i != n ==> i in m by {
      forall i | i in all && i != n ensures i in m {
        assert front[i] == keywords[i];
      }
    }
    assert forall i :: i in m ==> i in all by {
      forall i | i in m ensures i in all {
        assert front[i] == keywords[i];
      }
    }
  }

  /** Scoring the concatenation of two keyword lists is scoring each list. */
  lemma {:induction false} CountMatchesAppend(text: string, a: seq<string>, b: seq<string>)
    ensures CountMatches(text, a + b) == CountMatches(text, a) + CountMatches(text, b)
  {
    if b != [] {
      var n := |b| - 1;
      assert (a + b)[..|a + b| - 1] == a + b[..n];
      CountMatchesAppend(text, a, b[..n]);
    } else {
      assert a + b == a;
    }
  }

  /** A keyword listed twice counts twice. */
  lemma DuplicatedKeywordsCountTwice(text: string, keywords: seq<string>)
    ensures MatchScore(text, keywords + keywords) == 2 * MatchScore(text, keywords)
  {
    CountMatchesAppend(text, keywords, keywords);
  }

  /** Matching is case-insensitive in the text: scoring the lower-cased text
      gives the same score. */
  lemma MatchScoreIgnoresTextCase(text: string, keywords: seq<string>)
    ensures MatchScore(Lower(text), keywords) == MatchScore(text, keywords)
  {
    LowerIdempotent(text);
    CountMatchesIgnoresTextCase(text, keywords);
  }

  lemma {:induction false} CountMatchesIgnoresTextCase(text: string, keywords: seq<string>)
    ensures CountMatches(Lower(text), keywords) == CountMatches(text, keywords)
  {
    LowerIdempotent(text);
    if keywords != [] {
      CountMatchesIgnoresTextCase(text, keywords[..|keywords| - 1]);
    }
  }

  /** Every keyword lower-cased. */
  function LowerAll(keywords: seq<string>): (r: seq<string>)
    ensures |r| == |keywords|
    ensures forall i :: 0 <= i < |r| ==> r[i] == Lower(keywords[i])
  {
    seq(|keywords|, i requires 0 <= i < |keywords| => Lower(keywords[i]))
  }

  /** Matching is case-insensitive in the keywords too: lower-casing every
      keyword leaves the score unchanged. */
  lemma {:induction false} MatchScoreIgnoresKeywordCase(text: string, keywords: seq<string>)
    ensures MatchScore(text, LowerAll(keywords)) == MatchScore(text, keywords)
  {
    if text != "" && keywords != [] {
      var n := |keywords| - 1;
      assert LowerAll(keywords)[..n] == LowerAll(keywords[..n]);
      LowerIdempotent(keywords[n]);
      MatchScoreIgnoresKeywordCase(text, keywords[..n]);
    }
  }

  /** A keyword inside a longer word does not count: "sql" is not found in
      "i know mysql", while it is found in "sql and python". */
  lemma KeywordInsideWordDoesNotCount()
    ensures !HasWholeWord("i know mysql", "sql")
    ensures HasWholeWord("sql and python", "sql")
  {
    var t := "i know mysql";
    forall i | 0 <= i <= |t| - 3 ensures !WholeWordAt(t, "sql", i) {
      if i == 9 {
        assert IsWordAt(t, 8) && IsWordAt(t, 9);
      } else {
        assert t[i..i + 3] != "sql" by {
          assert t[i..i + 3][0] == t[i];
        }
      }
    }
    assert WholeWordAt("sql and python", "sql", 0) by {
      assert "sql and python"[0..3] == "sql";
      assert !IsWordChar("sql and python"[3]);
    }
  }

  /** With the keywords "data" and "engineer", the text "Data Engineer"
      scores 2. */
  lemma DataEngineerScoresTwo()
    ensures MatchScore("Data Engineer", ["data", "engineer"]) == 2
  {
    var text := "Data Engineer";
    DataMatches();
    EngineerMatches();
    assert ["data", "engineer"][..1] == ["data"];
    assert ["data"][..0] == [];
  }

  lemma DataMatches()
    ensures KeywordMatches("Data Engineer", "data")
  {
    LowerDataEngineer();
    assert Lower("data") == "data";
    FindsData(Lower("Data Engineer"));
  }

  lemma EngineerMatches()
    ensures KeywordMatches("Data Engineer", "engineer")
  {
    LowerDataEngineer();
    assert Lower("engineer") == "engineer";
    FindsEngineer(Lower("Data Engineer"));
  }

  lemma LowerDataEngineer()
    ensures Lower("Data Engineer") == "data engineer"
  {
  }

  lemma FindsData(t: string)
    requires t == "data engineer"
    ensures HasWholeWord(t, "data")
  {
    assert t[0..4] == "data" by {
      assert forall k :: 0 <= k < 4 ==> t[k] == "data"[k];
    }
    assert WholeWordAt(t, "data", 0) by {
      assert !IsWordChar(t[4]);
    }
  }

  lemma FindsEngineer(t: string)
    requires t == "data engineer"
    ensures HasWholeWord(t, "engineer")
  {
    assert t[5..13] == "engineer" by {
      assert forall k :: 0 <= k < 8 ==> t[5 + k] == "engineer"[k];
    }
    assert WholeWordAt(t, "engineer", 5) by {
      assert !IsWordChar(t[4]) && !IsWordAt(t, 13);
    }
  }
}
