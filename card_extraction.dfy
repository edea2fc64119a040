/** The field rules of scraper.py's `extract_jobs_from_page` and the guard of
    `compute_match_pct`: how one job card's texts become one job row. The
    browser is not modelled: each card arrives as the texts the page returned
    for it, and the TF-IDF similarity arrives as a function. */
module CardExtraction {
  import opened PyText

  /** A match percentage: `round(cosine * 100, 1)` of two non-negative TF-IDF
      vectors lies in [0, 100]. */
  type Percent = r: real | 0.0 <= r <= 100.0

  /** Texts whose stripped length is below this are not scored. */
  const MinScoredLength := 20

  /** Descriptions are stored cut to this many characters. */
  const MaxDescriptionLength := 500

  /** The origin prefixed to relative job links. */
  const Origin := "https://www.ziprecruiter.com"

  /** The placeholder for a field that was not found. */
  const Missing := "N/A"

  /** `compute_match_pct(text)`. `similarity(text)` stands for the TF-IDF
      cosine similarity of the résumé profile and `text`, as a rounded
      percentage, or `None` when the vectorizer raises. An empty text or one
      whose stripped length is below 20 scores 0.0 without consulting it; a
      non-zero score is always the similarity's own value. */
  function ComputeMatchPct(text: string, similarity: string -> Option<Percent>): (pct: Percent)
    ensures text == "" || |Strip(text)| < MinScoredLength ==> pct == 0.0
    ensures pct != 0.0 ==> similarity(text) == Some(pct)
    ensures |Strip(text)| >= MinScoredLength && similarity(text).Some? ==> pct == similarity(text).value
  {
    if text == "" || |Strip(text)| < MinScoredLength then 0.0
    else match similarity(text)
      case None => 0.0
      case Some(p) => p
  }

  /** A piece's line: its stripped text, or nothing when that is blank. */
  function NonBlankPiece(p: string): Option<string> {
    var l := Strip(p);
    if l != "" then Some(l) else None
  }

  /** The stripped, non-blank pieces, in order. */
  function NonBlankStripped(parts: seq<string>): (lines: seq<string>)
    ensures |lines| <= |parts|
    ensures forall l :: l in lines ==> l != "" && exists p :: p in parts && l == Strip(p)
  {
    var lines := Kept(parts, NonBlankPiece);
    forall l | l in lines ensures l != "" && exists p :: p in parts && l == Strip(p) {
      var k := KeptOrigin(parts, NonBlankPiece, l);
      assert parts[k] in parts;
    }
    lines
  }

  /** `[l.strip() for l in text.split("\n") if l.strip()]`: non-empty lines
      without surrounding whitespace and without a newline inside. */
  function CardLines(text: string): (lines: seq<string>)
    ensures forall l :: l in lines ==> l != "" && Strip(l) == l && '\n' !in l
  {
    var parts := Split(text, '\n');
    var lines := NonBlankStripped(parts);
    forall l | l in lines ensures Strip(l) == l && '\n' !in l {
      var p :| p in parts && l == Strip(p);
      StrippedPieceFacts(p);
    }
    lines
  }

  /** The pieces are filtered one at a time and in order: the lines of two
      runs of pieces are the lines of the first run followed by those of the
      second. */
  lemma NonBlankStrippedAppend(a: seq<string>, b: seq<string>)
    ensures NonBlankStripped(a + b) == NonBlankStripped(a) + NonBlankStripped(b)
  {
    KeptAppend(a, b, NonBlankPiece);
  }

  /** Every piece that is not blank once stripped is kept, stripped. */
  lemma NonBlankStrippedKeepsEvery(parts: seq<string>, k: nat)
    requires k < |parts| && Strip(parts[k]) != ""
    ensures Strip(parts[k]) in NonBlankStripped(parts)
  {
    var at := KeptPositions(parts, NonBlankPiece);
    assert k in at;
    var j :| 0 <= j < |at| && at[j] == k;
  }

  /** The card lines are read off the text one line at a time: a first line
      (without a newline) contributes its stripped text unless that is blank,
      and the rest of the text contributes its own card lines after it. */
  lemma CardLinesFirstLine(line: string, rest: string)
    requires '\n' !in line
    ensures CardLines(line + "\n" + rest) ==
      (if Strip(line) != "" then [Strip(line)] else []) + CardLines(rest)
  {
    SplitPrefix(line, rest, '\n');
    NonBlankStrippedAppend([line], Split(rest, '\n'));
    assert [line][..0] == [];
    assert NonBlankStripped([line]) == if Strip(line) != "" then [Strip(line)] else [];
  }

  /** A text without a newline is one line: its card lines are its stripped
      text, or nothing when that is blank. */
  lemma CardLinesOneLine(line: string)
    requires '\n' !in line
    ensures CardLines(line) == if Strip(line) != "" then [Strip(line)] else []
  {
    SplitNoSeparator(line, '\n');
  }

  lemma StrippedPieceFacts(p: string)
    requires '\n' !in p
    ensures Strip(Strip(p)) == Strip(p) && '\n' !in Strip(p)
  {
    StripUnchanged(Strip(p));
    if '\n' in Strip(p) {
      StripKeepsChars(p, '\n');
    }
  }

  /** A line that may serve as the title: not the company, not the location,
      longer than three characters and not starting with `$`. */
  predicate IsTitleLine(line: string, company: string, location: string) {
    line != company && line != location && |line| > 3 && !StartsWith(line, "$")
  }

  /** The title rule, stated as a search from the front: "N/A", or one of the
      lines that qualifies as a title. */
  function TitleOf(lines: seq<string>, company: string, location: string): (title: string)
    ensures title == Missing || (title in lines && IsTitleLine(title, company, location))
  {
    if lines == [] then Missing
    else if IsTitleLine(lines[0], company, location) then lines[0]
    else TitleOf(lines[1..], company, location)
  }

  /** The title is "N/A" exactly when no line qualifies; otherwise it is the
      first line that qualifies. */
  lemma {:induction false} TitleIsFirstQualifyingLine(lines: seq<string>, company: string, location: string)
    ensures TitleOf(lines, company, location) == Missing <==>
      forall k :: 0 <= k < |lines| ==> !IsTitleLine(lines[k], company, location)
    ensures TitleOf(lines, company, location) != Missing ==>
      exists k :: 0 <= k < |lines| && lines[k] == TitleOf(lines, company, location) &&
        IsTitleLine(lines[k], company, location) &&
        forall j :: 0 <= j < k ==> !IsTitleLine(lines[j], company, location)
  {
    if lines != [] {
      TitleIsFirstQualifyingLine(lines[1..], company, location);
      if !IsTitleLine(lines[0], company, location) && TitleOf(lines, company, location) != Missing {
        var k :| 0 <= k < |lines| - 1 && lines[1..][k] == TitleOf(lines, company, location) &&
          IsTitleLine(lines[1..][k], company, location) &&
          forall j :: 0 <= j < k ==> !IsTitleLine(lines[1..][j], company, location);
        assert lines[k + 1] == lines[1..][k];
        forall j | 0 <= j < k + 1 ensures !IsTitleLine(lines[j], company, location) {
          if j > 0 {
            assert lines[j] == lines[1..][j - 1];
          }
        }
      }
      if TitleOf(lines, company, location) == Missing {
        forall k | 0 <= k < |lines| ensures !IsTitleLine(lines[k], company, location) {
          if k > 0 {
            assert lines[k] == lines[1..][k - 1];
          }
        }
      }
    }
  }

  /** The title loop: the first qualifying line, breaking out at it, or "N/A". */
  method PickTitle(lines: seq<string>, company: string, location: string) returns (title: string)
    ensures title == TitleOf(lines, company, location)
  {
    title := Missing;
    for i := 0 to |lines|
      invariant TitleOf(lines[i..], company, location) == TitleOf(lines, company, location)
      invariant title == Missing
    {
      if IsTitleLine(lines[i], company, location) {
        title := lines[i];
        break;
      }
      assert lines[i..][1..] == lines[i + 1..];
    }
  }

  /** A line that may serve as the salary: it contains `$`, or, lower-cased,
      `year` or `hour`. */
  predicate IsSalaryLine(line: string) {
    '$' in line || Contains(Lower(line), "year") || Contains(Lower(line), "hour")
  }

  /** The salary rule, stated as a search from the front: "N/A", or one of
      the lines that looks like a salary. */
  function SalaryOf(lines: seq<string>): (salary: string)
    ensures salary == Missing || (salary in lines && IsSalaryLine(salary))
  {
    if lines == [] then Missing
    else if IsSalaryLine(lines[0]) then lines[0]
    else SalaryOf(lines[1..])
  }

  /** The placeholder itself is no salary line. */
  lemma MissingIsNoSalaryLine()
    ensures !IsSalaryLine(Missing)
  {
    assert Lower(Missing) == "n/a";
  }

  /** The salary is "N/A" exactly when no line qualifies; otherwise it is the
      first line that qualifies. */
  lemma {:induction false} SalaryIsFirstQualifyingLine(lines: seq<string>)
    ensures SalaryOf(lines) == Missing <==> forall k :: 0 <= k < |lines| ==> !IsSalaryLine(lines[k])
    ensures SalaryOf(lines) != Missing ==>
      exists k :: 0 <= k < |lines| && lines[k] == SalaryOf(lines) && IsSalaryLine(lines[k]) &&
        forall j :: 0 <= j < k ==> !IsSalaryLine(lines[j])
  {
    MissingIsNoSalaryLine();
    if lines != [] {
      SalaryIsFirstQualifyingLine(lines[1..]);
      if !IsSalaryLine(lines[0]) && SalaryOf(lines) != Missing {
        var k :| 0 <= k < |lines| - 1 && lines[1..][k] == SalaryOf(lines) &&
          IsSalaryLine(lines[1..][k]) && forall j :: 0 <= j < k ==> !IsSalaryLine(lines[1..][j]);
        assert lines[k + 1] == lines[1..][k];
        forall j | 0 <= j < k + 1 ensures !IsSalaryLine(lines[j]) {
          if j > 0 {
            assert lines[j] == lines[1..][j - 1];
          }
        }
      }
      if SalaryOf(lines) == Missing {
        forall k | 0 <= k < |lines| ensures !IsSalaryLine(lines[k]) {
          if k > 0 {
            assert lines[k] == lines[1..][k - 1];
          }
        }
      }
    }
  }

  /** The salary loop: the first qualifying line, breaking out at it, or "N/A". */
  method PickSalary(lines: seq<string>) returns (salary: string)
    ensures salary == SalaryOf(lines)
  {
    salary := Missing;
    for i := 0 to |lines|
      invariant SalaryOf(lines[i..]) == SalaryOf(lines)
      invariant salary == Missing
    {
      if IsSalaryLine(lines[i]) {
        salary := lines[i];
        break;
      }
      assert lines[i..][1..] == lines[i + 1..];
    }
  }

  /** The link's `href`, or the placeholder when the card has no link. */
  function LinkUrl(href: Option<string>): string {
    match href
    case None => Missing
    case Some(h) => h
  }

  /** The URL rule: a non-empty URL that does not start with "http" gets the
      site origin prefixed; any other URL is kept. */
  function ResolveUrl(url: string): (r: string)
    ensures url == "" || StartsWith(url, "http") ==> r == url
    ensures url != "" && !StartsWith(url, "http") ==> r == Origin + url
    ensures r == "" || StartsWith(r, "http")
  {
    if url != "" && !StartsWith(url, "http") then
      assert (Origin + url)[..4] == Origin[..4];
      Origin + url
    else url
  }

  /** Resolving twice is resolving once. */
  lemma ResolveUrlIdempotent(url: string)
    ensures ResolveUrl(ResolveUrl(url)) == ResolveUrl(url)
  {
  }

  /** A card without a link gets the placeholder, and the placeholder is
      prefixed like any relative link. */
  lemma MissingLinkIsPrefixed()
    ensures ResolveUrl(LinkUrl(None)) == "https://www.ziprecruiter.comN/A"
  {
    assert !StartsWith(Missing, "http");
  }

  /** `description[:500] if description else ""`: a prefix of the description
      of at most 500 characters, the whole description when it fits. */
  function StoredDescription(description: string): (r: string)
    ensures |r| <= MaxDescriptionLength
    ensures |description| <= MaxDescriptionLength ==> r == description
    ensures |r| <= |description| && r == description[..|r|]
    ensures |description| > MaxDescriptionLength ==> |r| == MaxDescriptionLength
  {
    if description == "" then ""
    else if |description| <= MaxDescriptionLength then description
    else description[..MaxDescriptionLength]
  }

  /** What the page returned for one job card: the card's whole inner text,
      the company element's text, the `href` of the card's first link (`None`
      without a link), the detail pane's text after clicking the card (`None`
      when the pane was absent or the click failed) and the clock reading
      taken when the row was built. */
  datatype Card = Card(
    text: string,
    companyText: string,
    href: Option<string>,
    detail: Option<string>,
    scrapedAt: string)

  /** A card whose element reads raised is skipped. */
  datatype CardRead = Unreadable | Readable(card: Card)

  /** One job row; `searchTitle` is `None` until the search term is attached. */
  datatype Job = Job(
    title: string,
    company: string,
    location: string,
    salary: string,
    matchPct: Percent,
    description: string,
    url: string,
    dateScraped: string,
    searchTitle: Option<string>)

  /** The loaded description: the detail pane's text or empty. */
  function DetailText(card: Card): string {
    match card.detail
    case None => ""
    case Some(d) => d
  }

  /** The location of the `i`-th card: the stripped text of the `i`-th
      location element, or "N/A" when there are fewer location elements than
      cards. Either way it has no whitespace around it. */
  function CardLocation(i: nat, locations: seq<string>): (location: string)
    ensures i < |locations| ==> location == Strip(locations[i])
    ensures i >= |locations| ==> location == Missing
    ensures Strip(location) == location
  {
    if i < |locations| then
      StripUnchanged(Strip(locations[i]));
      Strip(locations[i])
    else
      StripUnchanged(Missing);
      Missing
  }

  /** The job row of one card at the given location. The match is scored on
      the title and the full description before the description is cut to 500
      characters. */
  function CardJob(card: Card, location: string, similarity: string -> Option<Percent>): (job: Job)
    ensures job.searchTitle.None? && |job.description| <= MaxDescriptionLength
  {
    var lines := CardLines(card.text);
    var company := Strip(card.companyText);
    var title := TitleOf(lines, company, location);
    var description := DetailText(card);
    Job(title, company, location, SalaryOf(lines),
        ComputeMatchPct(title + " " + description, similarity),
        StoredDescription(description), ResolveUrl(LinkUrl(card.href)),
        card.scrapedAt, None)
  }

  /** What a row says about its card: the stripped company and the given
      location; a title that is "N/A" or one of the card's lines that is
      neither the company nor the location, is longer than three characters
      and does not start with `$`; a salary that is "N/A" or one of the card's
      lines that looks like a salary; an absolute or empty URL; a description
      that is a prefix of the loaded one and at most 500 characters; a zero
      match when title and description together are too short to score. */
  lemma CardJobFields(card: Card, location: string, similarity: string -> Option<Percent>)
    ensures var job := CardJob(card, location, similarity);
      && job.company == Strip(card.companyText) && job.location == location
      && (job.title == Missing || (IsTitleLine(job.title, job.company, location) && job.title in CardLines(card.text)))
      && (job.salary == Missing || (IsSalaryLine(job.salary) && job.salary in CardLines(card.text)))
      && (job.url == "" || StartsWith(job.url, "http"))
      && |job.description| <= MaxDescriptionLength && StartsWith(DetailText(card), job.description)
      && (|job.title| + |DetailText(card)| + 1 < MinScoredLength ==> job.matchPct == 0.0)
      && job.dateScraped == card.scrapedAt
  {
    CardTitleIsLine(card, location);
    CardSalaryIsLine(card);
  }

  lemma CardTitleIsLine(card: Card, location: string)
    ensures var title := TitleOf(CardLines(card.text), Strip(card.companyText), location);
      title == Missing || (IsTitleLine(title, Strip(card.companyText), location) && title in CardLines(card.text))
  {
    TitleIsFirstQualifyingLine(CardLines(card.text), Strip(card.companyText), location);
  }

  lemma CardSalaryIsLine(card: Card)
    ensures var salary := SalaryOf(CardLines(card.text));
      salary == Missing || (IsSalaryLine(salary) && salary in CardLines(card.text))
  {
    SalaryIsFirstQualifyingLine(CardLines(card.text));
  }

  /** The body of the per-card loop: split the lines, pick title and salary
      with their first-match loops, resolve the link, score, cut the
      description. */
  method ParseCard(card: Card, location: string, similarity: string -> Option<Percent>) returns (job: Job)
    ensures job == CardJob(card, location, similarity)
  {
    var lines := CardLines(card.text);
    var company := Strip(card.companyText);
    var title := PickTitle(lines, company, location);
    var url := ResolveUrl(LinkUrl(card.href));
    var salary := PickSalary(lines);
    var description := DetailText(card);
    var matchPct := ComputeMatchPct(title + " " + description, similarity);
    job := Job(title, company, location, salary, matchPct,
               StoredDescription(description), url, card.scrapedAt, None);
  }

  /** The row of the `i`-th card, at the `i`-th location. */
  function RowBuilder(locations: seq<string>, similarity: string -> Option<Percent>): (Card, nat) -> Job {
    (card: Card, i: nat) => CardJob(card, CardLocation(i, locations), similarity)
  }

  /** The rows that `row` builds from the readable cards among the first `n`,
      in card order, unreadable cards skipped. */
  function PageRows(cards: seq<CardRead>, row: (Card, nat) -> Job, n: nat): (jobs: seq<Job>)
    requires n <= |cards|
    ensures |jobs| <= n
  {
    if n == 0 then []
    else
      var front := PageRows(cards, row, n - 1);
      match cards[n - 1]
      case Unreadable => front
      case Readable(card) => front + [row(card, n - 1)]
  }

  /** The number of readable cards among the first `n`. */
  function ReadableCount(cards: seq<CardRead>, n: nat): nat
    requires n <= |cards|
  {
    if n == 0 then 0 else ReadableCount(cards, n - 1) + (if cards[n - 1].Readable? then 1 else 0)
  }

  /** Every readable card yields exactly one row, so the page yields as many
      rows as it has readable cards, and one row per card when every card is
      readable. */
  lemma {:induction false} PageRowsCount(cards: seq<CardRead>, row: (Card, nat) -> Job, n: nat)
    requires n <= |cards|
    ensures |PageRows(cards, row, n)| == ReadableCount(cards, n)
    ensures (forall i :: 0 <= i < n ==> cards[i].Readable?) ==> |PageRows(cards, row, n)| == n
  {
    if n > 0 {
      PageRowsCount(cards, row, n - 1);
    }
  }

  /** Each row is the row of one readable card, built from that card and its
      position. */
  lemma {:induction false} PageRowsFromCards(cards: seq<CardRead>, row: (Card, nat) -> Job, n: nat)
    requires n <= |cards|
    ensures forall j :: j in PageRows(cards, row, n) ==>
      exists i :: 0 <= i < n && cards[i].Readable? && j == row(cards[i].card, i)
  {
    if n > 0 {
      PageRowsFromCards(cards, row, n - 1);
    }
  }

  /** The cards the rows come from: increasing positions below `n`, so in
      page order and each card at most once; row `j` is built from the card at
      `at[j]`, which is readable; and every readable card among the first `n`
      is among them. */
  lemma {:induction false} PageRowsPositions(cards: seq<CardRead>, row: (Card, nat) -> Job, n: nat)
    returns (at: seq<nat>)
    requires n <= |cards|
    ensures |at| == |PageRows(cards, row, n)|
    ensures forall j :: 0 <= j < |at| ==>
      at[j] < n && cards[at[j]].Readable? && PageRows(cards, row, n)[j] == row(cards[at[j]].card, at[j])
    ensures forall j, j' :: 0 <= j < j' < |at| ==> at[j] < at[j']
    ensures forall i :: 0 <= i < n && cards[i].Readable? ==> i in at
  {
    if n == 0 {
      return [];
    }
    var front := PageRowsPositions(cards, row, n - 1);
    var rows := PageRows(cards, row, n);
    var frontRows := PageRows(cards, row, n - 1);
    if cards[n - 1].Readable? {
      at := front + [n - 1];
      assert rows == frontRows + [row(cards[n - 1].card, n - 1)];
      forall j | 0 <= j < |at|
        ensures at[j] < n && cards[at[j]].Readable? && rows[j] == row(cards[at[j]].card, at[j])
      {
        if j < |front| {
          assert at[j] == front[j] && rows[j] == frontRows[j];
        }
      }
      forall j, j' | 0 <= j < j' < |at| ensures at[j] < at[j'] {
        if j' == |front| {
          assert at[j] == front[j] < n - 1;
        }
      }
    } else {
      at := front;
      assert rows == frontRows;
    }
  }

  /** `extract_jobs_from_page`: one pass over the cards, appending the row of
      every readable card. */
  method ExtractJobsFromPage(cards: seq<CardRead>, locations: seq<string>, similarity: string -> Option<Percent>)
    returns (jobs: seq<Job>)
    ensures jobs == PageRows(cards, RowBuilder(locations, similarity), |cards|)
  {
    jobs := [];
    for i := 0 to |cards|
      invariant jobs == PageRows(cards, RowBuilder(locations, similarity), i)
    {
      var step := [];
      if cards[i].Readable? {
        var job := ParseCard(cards[i].card, CardLocation(i, locations), similarity);
        step := [job];
      }
      PageRowsStep(cards, locations, similarity, i, step);
      jobs := jobs + step;
    }
  }

  lemma PageRowsStep(cards: seq<CardRead>, locations: seq<string>, similarity: string -> Option<Percent>, i: nat, step: seq<Job>)
    requires i < |cards|
    requires step == if cards[i].Readable? then [CardJob(cards[i].card, CardLocation(i, locations), similarity)] else []
    ensures PageRows(cards, RowBuilder(locations, similarity), i + 1)
      == PageRows(cards, RowBuilder(locations, similarity), i) + step
  {
  }
}
