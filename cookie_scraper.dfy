/** The record-building and ranking logic of cookie_scraper.py: one record per
    job card that has both a title and a company element, scored by the
    keyword count of its title; the records of every search title collected,
    then ordered by score, highest first. The HTTP request and the HTML parse
    are not modelled: each card arrives as the texts of the elements the
    parser found. */
module CookieScraper {
  import opened PyText
  import opened KeywordScore
  import opened Ranking

  /** The anchor element with class `job_link`: absent, or present with or
      without an `href` attribute. */
  datatype LinkElem = NoLink | Link(href: Option<string>)

  /** What the parser found in one `<article class="job_result">`: the text of
      each element the card lookups returned, `None` for a lookup that found
      nothing. */
  datatype ResultCard = ResultCard(
    title: Option<string>,
    company: Option<string>,
    location: Option<string>,
    link: LinkElem)

  /** One row of the saved table. */
  datatype Record = Record(
    title: string,
    company: string,
    location: string,
    url: string,
    matchScore: nat)

  /** The sort key of the saved table. */
  function ScoreKey(r: Record): real {
    r.matchScore as real
  }

  /** The record a card yields, or `None` when it yields none: a card needs
      both a title and a company; a link element without an `href` raises
      while the record is built, and the card is skipped. */
  function CardRecord(card: ResultCard, keywords: seq<string>): (r: Option<Record>)
    ensures r.Some? <==> card.title.Some? && card.company.Some? && card.link != Link(None)
  {
    if card.title.None? || card.company.None? || card.link == Link(None) then None
    else
      var title := Strip(card.title.value);
      Some(Record(
        title,
        Strip(card.company.value),
        match card.location { case None => "N/A" case Some(l) => Strip(l) },
        match card.link { case NoLink => "N/A" case Link(href) => href.value },
        MatchScore(title, keywords)))
  }

  /** The fields of a card's record: the stripped title and company, the
      stripped location or "N/A", the link's `href` or "N/A", and the keyword
      score of the stripped title, at most the number of keywords. */
  lemma CardRecordFields(card: ResultCard, keywords: seq<string>)
    requires CardRecord(card, keywords).Some?
    ensures var r := CardRecord(card, keywords).value;
      && r.title == Strip(card.title.value)
      && r.company == Strip(card.company.value)
      && r.matchScore == MatchScore(r.title, keywords) <= |keywords|
      && r.location == (if card.location.None? then "N/A" else Strip(card.location.value))
      && r.url == (if card.link.NoLink? then "N/A" else card.link.href.value)
  {
  }

  /** The record builder for a keyword list. */
  function RecordOf(keywords: seq<string>): ResultCard -> Option<Record> {
    card => CardRecord(card, keywords)
  }

  /** The records of a list of cards, in card order: no more records than
      cards. */
  function CardRecords(cards: seq<ResultCard>, keywords: seq<string>): (records: seq<Record>)
    ensures |records| <= |cards|
  {
    Kept(cards, RecordOf(keywords))
  }

  /** Every record comes from a card with a title and a company, and its score
      is the keyword score of its stripped title. */
  lemma CardRecordsFromCards(cards: seq<ResultCard>, keywords: seq<string>)
    ensures |CardRecords(cards, keywords)| <= |cards|
    ensures forall r :: r in CardRecords(cards, keywords) ==>
      r.matchScore == MatchScore(r.title, keywords) <= |keywords| &&
      exists i :: 0 <= i < |cards| && CardRecord(cards[i], keywords) == Some(r)
  {
    forall r | r in CardRecords(cards, keywords)
      ensures r.matchScore == MatchScore(r.title, keywords) <= |keywords|
      ensures exists i :: 0 <= i < |cards| && CardRecord(cards[i], keywords) == Some(r)
    {
      var i := KeptOrigin(cards, RecordOf(keywords), r);
      CardRecordFields(cards[i], keywords);
    }
  }

  /** The records are exactly those of the qualifying cards, in card order:
      the `j`-th record is the record of card `at[j]`, the positions increase,
      and every card with a title, a company and a usable link is among
      them. */
  lemma CardRecordsInCardOrder(cards: seq<ResultCard>, keywords: seq<string>) returns (at: seq<nat>)
    ensures |at| == |CardRecords(cards, keywords)|
    ensures forall j :: 0 <= j < |at| ==>
      at[j] < |cards| && CardRecord(cards[at[j]], keywords) == Some(CardRecords(cards, keywords)[j])
    ensures forall j, j' :: 0 <= j < j' < |at| ==> at[j] < at[j']
    ensures forall i :: 0 <= i < |cards| ==>
      (cards[i].title.Some? && cards[i].company.Some? && cards[i].link != Link(None) ==> i in at)
  {
    at := KeptPositions(cards, RecordOf(keywords));
  }

  /** The loop's step: one more card adds its record, if it yields one. */
  lemma CardRecordsStep(cards: seq<ResultCard>, keywords: seq<string>, i: nat)
    requires i < |cards|
    ensures CardRecords(cards[..i + 1], keywords) ==
      CardRecords(cards[..i], keywords) + (match CardRecord(cards[i], keywords) case None => [] case Some(r) => [r])
  {
    assert cards[..i + 1][..i] == cards[..i];
  }

  /** `scrape_with_cookies` for one search title: `None` stands for a request
      or parse that raised, which yields no records; otherwise one pass over
      the cards, appending each record built. */
  method ScrapeWithCookies(response: Option<seq<ResultCard>>, keywords: seq<string>)
    returns (results: seq<Record>)
    ensures response.None? ==> results == []
    ensures response.Some? ==> results == CardRecords(response.value, keywords)
  {
    if response.None? {
      return [];
    }
    var cards := response.value;
    results := [];
    for i := 0 to |cards|
      invariant results == CardRecords(cards[..i], keywords)
    {
      CardRecordsStep(cards, keywords, i);
      var card := cards[i];
      if card.title.Some? && card.company.Some? && card.link != Link(None) {
        var title := Strip(card.title.value);
        var score := CalculateMatchScore(title, keywords);
        var location := if card.location.Some? then Strip(card.location.value) else "N/A";
        var url := if card.link.Link? then card.link.href.value else "N/A";
        CardRecordFields(card, keywords);
        results := results + [Record(title, Strip(card.company.value), location, url, score)];
      }
    }
    assert cards[..|cards|] == cards;
  }

  /** The records of every search title's response, in search-title order;
      when every request failed there are none. */
  function AllRecords(responses: seq<Option<seq<ResultCard>>>, keywords: seq<string>): (records: seq<Record>)
    ensures (forall t :: 0 <= t < |responses| ==> responses[t].None?) ==> records == []
  {
    if responses == [] then []
    else
      var last := responses[|responses| - 1];
      AllRecords(responses[..|responses| - 1], keywords)
        + (if last.Some? then CardRecords(last.value, keywords) else [])
  }

  /** The script's main block: each search title scraped in turn, the records
      concatenated, and, when there is at least one, the table saved ordered by
      score, highest first. `None` stands for no file written. */
  method ManualScrapeAll(responses: seq<Option<seq<ResultCard>>>, keywords: seq<string>)
    returns (saved: Option<seq<Record>>)
    ensures saved.None? <==> AllRecords(responses, keywords) == []
    ensures saved.Some? ==> NonIncreasing(saved.value, ScoreKey)
    ensures saved.Some? ==> multiset(saved.value) == multiset(AllRecords(responses, keywords))
    ensures saved.Some? ==> forall r :: r in saved.value ==> r.matchScore <= |keywords|
  {
    var allResults := [];
    for t := 0 to |responses|
      invariant allResults == AllRecords(responses[..t], keywords)
    {
      assert responses[..t + 1][..t] == responses[..t];
      var jobs := ScrapeWithCookies(responses[t], keywords);
      allResults := allResults + jobs;
    }
    assert responses[..|responses|] == responses;
    if allResults == [] {
      return None;
    }
    var table := SortDesc(allResults, ScoreKey);
    forall r | r in table ensures r.matchScore <= |keywords| {
      assert r in multiset(allResults);
      AllRecordsScored(responses, keywords);
    }
    saved := Some(table);
  }

  /** Every collected record carries the keyword score of its title. */
  lemma {:induction false} AllRecordsScored(responses: seq<Option<seq<ResultCard>>>, keywords: seq<string>)
    ensures forall r :: r in AllRecords(responses, keywords) ==>
      r.matchScore == MatchScore(r.title, keywords) <= |keywords|
  {
    if responses != [] {
      var n := |responses| - 1;
      AllRecordsScored(responses[..n], keywords);
      if responses[n].Some? {
        CardRecordsFromCards(responses[n].value, keywords);
      }
    }
  }
}
