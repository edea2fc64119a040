/** scraper.py's per-term scrape (`scrape_ziprecruiter`) and the multi-term
    search (`search_all_titles`): each search term's rows tagged with the term,
    a failed term contributing nothing, the rows of all terms concatenated in
    the order the worker threads finished, duplicates on the exact
    (title, company) pair dropped keeping the first, and the rest ordered by
    match percentage, highest first. */
module Search {
  import opened PyText
  import opened Ranking
  import opened CardExtraction

  /** How the browser session for one search term went: the session could
      not be set up (launching the browser, creating its context, adding the
      cookies or opening the page raised) or closing the browser raised, and
      the exception leaves the thread; the page failed to load or to be read
      (caught: the term yields no rows); or the result page was loaded with
      these job cards and location elements. */
  datatype PageOutcome =
    | SessionFailed
    | PageFailed
    | Loaded(cards: seq<CardRead>, locations: seq<string>)

  /** What a worker thread's future holds: the exception it raised, or the
      list of rows it returned. */
  datatype TermResult = Raised | Returned(jobs: seq<Job>)

  /** The rows of one term, each with its `search_title` set to the term. */
  function Tagged(jobs: seq<Job>, term: string): seq<Job> {
    seq(|jobs|, i requires 0 <= i < |jobs| => jobs[i].(searchTitle := Some(term)))
  }

  /** The tagging loop: sets `search_title` on every row and changes nothing
      else. */
  method TagJobs(jobs: seq<Job>, term: string) returns (tagged: seq<Job>)
    ensures |tagged| == |jobs|
    ensures forall i :: 0 <= i < |jobs| ==> tagged[i] == jobs[i].(searchTitle := Some(term))
    ensures tagged == Tagged(jobs, term)
  {
    tagged := jobs;
    for i := 0 to |jobs|
      invariant |tagged| == |jobs|
      invariant forall k :: 0 <= k < i ==> tagged[k] == jobs[k].(searchTitle := Some(term))
      invariant forall k :: i <= k < |jobs| ==> tagged[k] == jobs[k]
    {
      tagged := tagged[i := tagged[i].(searchTitle := Some(term))];
    }
  }

  /** What `scrape_ziprecruiter(term)` yields for a page outcome: an
      exception exactly when the session failed; no rows for a page that
      failed; one row per readable card of a loaded page; every row tagged
      with the term. */
  function TermResultOf(term: string, outcome: PageOutcome, similarity: string -> Option<Percent>): (r: TermResult)
    ensures r.Raised? <==> outcome.SessionFailed?
    ensures outcome.PageFailed? ==> r == Returned([])
    ensures outcome.Loaded? ==> |r.jobs| == ReadableCount(outcome.cards, |outcome.cards|)
    ensures r.Returned? ==> forall j :: j in r.jobs ==> j.searchTitle == Some(term)
  {
    match outcome
    case SessionFailed => Raised
    case PageFailed => Returned([])
    case Loaded(cards, locations) =>
      PageRowsCount(cards, RowBuilder(locations, similarity), |cards|);
      Returned(Tagged(PageRows(cards, RowBuilder(locations, similarity), |cards|), term))
  }

  /** `scrape_ziprecruiter(term)`: a session that cannot be set up or closed
      raises out of the call; a page that fails yields no rows; a loaded page yields its rows,
      every one tagged with the term. */
  method ScrapeZipRecruiter(term: string, outcome: PageOutcome, similarity: string -> Option<Percent>)
    returns (result: TermResult)
    ensures result == TermResultOf(term, outcome, similarity)
    ensures result.Raised? <==> outcome.SessionFailed?
    ensures outcome.PageFailed? ==> result == Returned([])
    ensures result.Returned? ==> forall j :: j in result.jobs ==> j.searchTitle == Some(term)
  {
    match outcome {
      case SessionFailed =>
        return Raised;
      case PageFailed =>
        return Returned([]);
      case Loaded(cards, locations) =>
        var jobs := ExtractJobsFromPage(cards, locations, similarity);
        jobs := TagJobs(jobs, term);
        return Returned(jobs);
    }
  }

  /** What one finished future adds to `all_jobs`: its rows, or nothing when
      it raised. */
  function Contribution(r: TermResult): seq<Job> {
    if r.Returned? then r.jobs else []
  }

  /** A term contributes only when its page loaded, and then only rows tagged
      with the term. */
  lemma TermRowsTagged(term: string, outcome: PageOutcome, similarity: string -> Option<Percent>)
    ensures forall j :: j in Contribution(TermResultOf(term, outcome, similarity)) ==>
      outcome.Loaded? && j.searchTitle == Some(term)
  {
    if outcome.Loaded? {
      var rows := PageRows(outcome.cards, RowBuilder(outcome.locations, similarity), |outcome.cards|);
      forall j | j in Tagged(rows, term) ensures j.searchTitle == Some(term) {
        var i :| 0 <= i < |rows| && Tagged(rows, term)[i] == j;
      }
    }
  }

  /** The result of every term's future, listed in term order. */
  function ResultsOf(terms: seq<string>, outcomes: seq<PageOutcome>, similarity: string -> Option<Percent>): seq<TermResult>
    requires |outcomes| == |terms|
  {
    seq(|terms|, t requires 0 <= t < |terms| => TermResultOf(terms[t], outcomes[t], similarity))
  }

  /** `order` lists every index below `n` exactly once: the order in which the
      `n` futures completed. */
  predicate IsCompletionOrder(order: seq<nat>, n: nat) {
    |order| == n &&
    (forall k :: 0 <= k < |order| ==> order[k] < n) &&
    (forall k, l :: 0 <= k < l < |order| ==> order[k] != order[l]) &&
    (forall t :: 0 <= t < n ==> t in order)
  }

  /** `all_jobs` after the first `m` futures in completion order were
      collected: the rows of each future are appended after those already
      there. */
  function Collected(results: seq<TermResult>, order: seq<nat>, m: nat): seq<Job>
    requires IsCompletionOrder(order, |results|) && m <= |order|
  {
    if m == 0 then []
    else Collected(results, order, m - 1) + Contribution(results[order[m - 1]])
  }

  /** Collecting only appends: the rows after `m` futures begin with the rows
      after any earlier number of futures. */
  lemma {:induction false} CollectedGrows(results: seq<TermResult>, order: seq<nat>, m: nat, m': nat)
    requires IsCompletionOrder(order, |results|) && m <= m' <= |order|
    ensures Collected(results, order, m) <= Collected(results, order, m')
  {
    if m < m' {
      CollectedGrows(results, order, m, m' - 1);
    }
  }

  /** A row is in `all_jobs` after `m` futures exactly when one of those
      futures returned it. */
  lemma {:induction false} CollectedMembership(results: seq<TermResult>, order: seq<nat>, m: nat, j: Job)
    requires IsCompletionOrder(order, |results|) && m <= |order|
    ensures j in Collected(results, order, m) <==>
      exists k :: 0 <= k < m && j in Contribution(results[order[k]])
  {
    if m > 0 {
      CollectedMembership(results, order, m - 1, j);
    }
  }

  /** Whatever order the futures complete in, the same rows are collected: a
      row is in `all_jobs` exactly when some term's future returned it. */
  lemma CollectedIndependentOfOrder(results: seq<TermResult>, order: seq<nat>, j: Job)
    requires IsCompletionOrder(order, |results|)
    ensures j in Collected(results, order, |order|) <==>
      exists t :: 0 <= t < |results| && j in Contribution(results[t])
  {
    CollectedMembership(results, order, |order|, j);
    if t :| 0 <= t < |results| && j in Contribution(results[t]) {
      assert t in order;
      var k :| 0 <= k < |order| && order[k] == t;
    }
  }

  /** A term whose session failed, or whose page failed, adds no row:
      every collected row comes from a term whose page loaded, and carries that
      term. */
  lemma FailedTermsContributeNothing(terms: seq<string>, outcomes: seq<PageOutcome>, order: seq<nat>,
                                     similarity: string -> Option<Percent>)
    requires |outcomes| == |terms| && IsCompletionOrder(order, |terms|)
    ensures forall j :: j in Collected(ResultsOf(terms, outcomes, similarity), order, |order|) ==>
      exists t :: 0 <= t < |terms| && outcomes[t].Loaded? && j.searchTitle == Some(terms[t])
  {
    var results := ResultsOf(terms, outcomes, similarity);
    forall j | j in Collected(results, order, |order|)
      ensures exists t :: 0 <= t < |terms| && outcomes[t].Loaded? && j.searchTitle == Some(terms[t])
    {
      CollectedIndependentOfOrder(results, order, j);
      var t :| 0 <= t < |results| && j in Contribution(results[t]);
      TermRowsTagged(terms[t], outcomes[t], similarity);
    }
  }

  /** When no future returns a row, nothing is collected. */
  lemma {:induction false} NothingReturnedCollectsNothing(results: seq<TermResult>, order: seq<nat>, m: nat)
    requires IsCompletionOrder(order, |results|) && m <= |order|
    requires forall t :: 0 <= t < |results| ==> Contribution(results[t]) == []
    ensures Collected(results, order, m) == []
  {
    if m > 0 {
      NothingReturnedCollectsNothing(results, order, m - 1);
    }
  }

  /** When no term's page loads, for instance when every browser fails to
      start, nothing is collected and the table is empty. */
  lemma NothingLoadedCollectsNothing(terms: seq<string>, outcomes: seq<PageOutcome>, order: seq<nat>,
                                     similarity: string -> Option<Percent>)
    requires |outcomes| == |terms| && IsCompletionOrder(order, |terms|)
    requires forall t :: 0 <= t < |terms| ==> !outcomes[t].Loaded?
    ensures Collected(ResultsOf(terms, outcomes, similarity), order, |order|) == []
  {
    NothingReturnedCollectsNothing(ResultsOf(terms, outcomes, similarity), order, |order|);
  }

  /** The identity used to drop duplicates: the exact (title, company) pair. */
  function Key(j: Job): (string, string) {
    (j.title, j.company)
  }

  /** The keys of a list of rows. */
  function KeysOf(rows: seq<Job>): set<(string, string)> {
    set j | j in rows :: Key(j)
  }

  /** No two rows share a key. */
  predicate NoDuplicateKeys(rows: seq<Job>) {
    forall i, k :: 0 <= i < k < |rows| ==> Key(rows[i]) != Key(rows[k])
  }

  /** `drop_duplicates(subset=["title", "company"])`, keeping the first
      occurrence of every key: no two rows share a key, every key of the input
      is kept, every kept row is an input row, and the result is no longer. */
  function Dedup(rows: seq<Job>): (r: seq<Job>)
    ensures |r| <= |rows|
    ensures NoDuplicateKeys(r)
    ensures KeysOf(r) == KeysOf(rows)
    ensures forall j :: j in r ==> j in rows
  {
    if rows == [] then []
    else
      var front := rows[..|rows| - 1];
      var last := rows[|rows| - 1];
      var d := Dedup(front);
      assert KeysOf(rows) == KeysOf(front) + {Key(last)} by {
        assert rows == front + [last];
      }
      if Key(last) in KeysOf(d) then d
      else
        assert forall i :: 0 <= i < |d| ==> Key(d[i]) in KeysOf(d);
        d + [last]
  }

  /** Row `i` is the first one with its key. */
  predicate IsFirstOccurrence(rows: seq<Job>, i: int) {
    0 <= i < |rows| && forall k :: 0 <= k < i ==> Key(rows[k]) != Key(rows[i])
  }

  /** The key of a row that is not the first with its key was seen before. */
  lemma KeyInFront(rows: seq<Job>, n: nat)
    requires n < |rows|
    ensures IsFirstOccurrence(rows, n) <==> Key(rows[n]) !in KeysOf(rows[..n])
  {
    if Key(rows[n]) in KeysOf(rows[..n]) {
      var j :| j in rows[..n] && Key(j) == Key(rows[n]);
      var k :| 0 <= k < n && rows[..n][k] == j;
    }
  }

  /** Every row that is the first with its key is kept. */
  lemma {:induction false} DedupKeepsEveryFirstOccurrence(rows: seq<Job>, i: nat)
    requires IsFirstOccurrence(rows, i)
    ensures rows[i] in Dedup(rows)
  {
    var n := |rows| - 1;
    var front := rows[..n];
    if i < n {
      assert IsFirstOccurrence(front, i);
      DedupKeepsEveryFirstOccurrence(front, i);
    } else {
      KeyInFront(rows, n);
    }
  }

  /** One step of `Dedup`: the last row is kept exactly when its key is new. */
  lemma DedupStep(rows: seq<Job>)
    requires rows != []
    ensures var n := |rows| - 1;
      Dedup(rows) == if Key(rows[n]) in KeysOf(rows[..n]) then Dedup(rows[..n]) else Dedup(rows[..n]) + [rows[n]]
  {
  }

  /** Every row kept is the first row with its key. */
  lemma DedupKeepsOnlyFirstOccurrences(rows: seq<Job>, j: Job)
    requires j in Dedup(rows)
    ensures exists i :: IsFirstOccurrence(rows, i) && rows[i] == j
  {
    var i := DedupOrigin(rows, j);
  }

  /** The position of the first row with the key of a kept row. */
  lemma {:induction false} DedupOrigin(rows: seq<Job>, j: Job) returns (i: nat)
    requires j in Dedup(rows)
    ensures IsFirstOccurrence(rows, i) && rows[i] == j
  {
    assert rows != [];
    var n := |rows| - 1;
    DedupStep(rows);
    if j in Dedup(rows[..n]) {
      i := DedupOrigin(rows[..n], j);
      FirstInPrefix(rows, n, i);
    } else {
      KeyInFront(rows, n);
      i := n;
    }
  }

  /** A first occurrence in a prefix is a first occurrence in the whole. */
  lemma FirstInPrefix(rows: seq<Job>, n: nat, i: nat)
    requires n <= |rows| && IsFirstOccurrence(rows[..n], i)
    ensures IsFirstOccurrence(rows, i) && rows[i] == rows[..n][i]
  {
    assert forall k :: 0 <= k <= i ==> rows[..n][k] == rows[k];
  }

  /** The in-place `drop_duplicates` as a pass over the rows that remembers
      the keys seen so far. */
  method DropDuplicates(rows: seq<Job>) returns (kept: seq<Job>)
    ensures kept == Dedup(rows)
  {
    kept := [];
    var seen: set<(string, string)> := {};
    for i := 0 to |rows|
      invariant kept == Dedup(rows[..i])
      invariant seen == KeysOf(kept)
    {
      assert rows[..i + 1][..i] == rows[..i];
      var key := (rows[i].title, rows[i].company);
      if key !in seen {
        kept := kept + [rows[i]];
        seen := seen + {key};
      }
    }
    assert rows[..|rows|] == rows;
  }

  /** The sort key of the aggregated table. */
  function PctKey(j: Job): real {
    j.matchPct
  }

  /** Merging, deduplicating and ordering the collected rows: an empty
      collection gives an empty table; otherwise the table holds the
      deduplicated rows, each once, highest match first, and no two rows share
      a (title, company) pair. */
  method Aggregate(allJobs: seq<Job>) returns (table: seq<Job>)
    ensures allJobs == [] ==> table == []
    ensures multiset(table) == multiset(Dedup(allJobs))
    ensures NonIncreasing(table, PctKey)
    ensures NoDuplicateKeys(table)
    ensures KeysOf(table) == KeysOf(allJobs)
    ensures |table| <= |allJobs|
  {
    if allJobs == [] {
      return [];
    }
    var kept := DropDuplicates(allJobs);
    table := SortDesc(kept, PctKey);
    PermutationKeepsKeys(kept, table);
  }

  /** Reordering rows keeps their length, their keys, and the absence of
      duplicate keys. */
  lemma PermutationKeepsKeys(a: seq<Job>, b: seq<Job>)
    requires multiset(a) == multiset(b) && NoDuplicateKeys(a)
    ensures |b| == |a| && KeysOf(b) == KeysOf(a) && NoDuplicateKeys(b)
  {
    assert |a| == |multiset(a)| == |multiset(b)| == |b|;
    assert forall j :: j in a <==> j in b by {
      forall j ensures j in a <==> j in b {
        assert j in a <==> j in multiset(a);
        assert j in b <==> j in multiset(b);
      }
    }
    forall i, k | 0 <= i < k < |b| ensures Key(b[i]) != Key(b[k]) {
      CountAtMostOne(a, b[i]);
      TwoPositionsCountTwice(b, i, k);
      SameKeySameRow(a, b[i], b[k]);
    }
  }

  /** In rows without duplicate keys, a key identifies its row. */
  lemma SameKeySameRow(a: seq<Job>, x: Job, y: Job)
    requires NoDuplicateKeys(a) && x in a && y in a
    ensures Key(x) == Key(y) ==> x == y
  {
  }

  /** A row found at two positions occurs at least twice. */
  lemma TwoPositionsCountTwice(b: seq<Job>, i: nat, k: nat)
    requires i < k < |b|
    ensures b[i] == b[k] ==> multiset(b)[b[i]] >= 2
  {
    assert b == b[..i] + [b[i]] + b[i + 1..k] + [b[k]] + b[k + 1..];
  }

  /** Rows without duplicate keys hold each row at most once. */
  lemma {:induction false} CountAtMostOne(a: seq<Job>, x: Job)
    requires NoDuplicateKeys(a)
    ensures multiset(a)[x] <= 1
  {
    if a != [] {
      var n := |a| - 1;
      var front := a[..n];
      assert a == front + [a[n]];
      CountAtMostOne(front, x);
      assert a[n] !in front by {
        forall k | 0 <= k < n ensures front[k] != a[n] {
          assert Key(a[k]) != Key(a[n]);
        }
      }
    }
  }

  /** `search_all_titles`: the futures collected in completion order `order`,
      each adding the rows its term returned (nothing when it raised), then
      the collected rows deduplicated and ordered. Every row of the table
      comes from a term whose page loaded and carries that term. */
  method SearchAllTitles(terms: seq<string>, outcomes: seq<PageOutcome>, order: seq<nat>,
                         similarity: string -> Option<Percent>) returns (table: seq<Job>)
    requires |outcomes| == |terms| && IsCompletionOrder(order, |terms|)
    ensures multiset(table) == multiset(Dedup(Collected(ResultsOf(terms, outcomes, similarity), order, |order|)))
    ensures NonIncreasing(table, PctKey) && NoDuplicateKeys(table)
    ensures forall j :: j in table ==> exists t :: 0 <= t < |terms| && outcomes[t].Loaded? && j.searchTitle == Some(terms[t])
  {
    ghost var results := ResultsOf(terms, outcomes, similarity);
    var allJobs := [];
    for m := 0 to |order|
      invariant allJobs == Collected(results, order, m)
    {
      var t := order[m];
      var result := ScrapeZipRecruiter(terms[t], outcomes[t], similarity);
      if result.Returned? {
        allJobs := allJobs + result.jobs;
      }
    }
    table := Aggregate(allJobs);
    TableRowsTagged(terms, outcomes, order, similarity, table);
  }

  /** Every row of a table drawn from the de-duplicated collected rows comes
      from a term whose page loaded and carries that term. */
  lemma TableRowsTagged(terms: seq<string>, outcomes: seq<PageOutcome>, order: seq<nat>,
                        similarity: string -> Option<Percent>, table: seq<Job>)
    requires |outcomes| == |terms| && IsCompletionOrder(order, |terms|)
    requires multiset(table) == multiset(Dedup(Collected(ResultsOf(terms, outcomes, similarity), order, |order|)))
    ensures forall j :: j in table ==> exists t :: 0 <= t < |terms| && outcomes[t].Loaded? && j.searchTitle == Some(terms[t])
  {
    FailedTermsContributeNothing(terms, outcomes, order, similarity);
    var collected := Collected(ResultsOf(terms, outcomes, similarity), order, |order|);
    forall j | j in table
      ensures exists t :: 0 <= t < |terms| && outcomes[t].Loaded? && j.searchTitle == Some(terms[t])
    {
      assert j in multiset(Dedup(collected));
      assert j in collected;
    }
  }

  /** The (title, company) pairs of the table do not depend on the completion
      order, although which of several rows with one pair is kept does. */
  lemma TableKeysIndependentOfOrder(results: seq<TermResult>, order1: seq<nat>, order2: seq<nat>)
    requires IsCompletionOrder(order1, |results|) && IsCompletionOrder(order2, |results|)
    ensures KeysOf(Dedup(Collected(results, order1, |order1|)))
         == KeysOf(Dedup(Collected(results, order2, |order2|)))
  {
    var c1 := Collected(results, order1, |order1|);
    var c2 := Collected(results, order2, |order2|);
    forall j ensures j in c1 <==> j in c2 {
      CollectedIndependentOfOrder(results, order1, j);
      CollectedIndependentOfOrder(results, order2, j);
    }
    SameRowsSameKeys(c1, c2);
  }

  /** Two lists holding the same rows have the same keys. */
  lemma SameRowsSameKeys(a: seq<Job>, b: seq<Job>)
    requires forall j :: j in a <==> j in b
    ensures KeysOf(a) == KeysOf(b)
  {
  }
}
