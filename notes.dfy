/** scraper.py's `save_to_notes`: the plain-text listing of the final table.
    The file is a list of lines, each ended by a newline: a two-line header,
    the row count, and then either a "no jobs" line or a rule followed by one
    eight-line section per row, numbered from 1 in table order. The model
    builds the file's text; opening and writing the file are not modelled. */
module Notes {
  import opened PyText
  import opened CardExtraction

  /** The width of every field label, such as `"  Title:       "`. */
  const LabelWidth := 15

  /** The text of a file whose lines are `lines`, each followed by a newline. */
  function FileText(lines: seq<string>): string {
    if lines == [] then [] else lines[0] + "\n" + FileText(lines[1..])
  }

  /** The eight lines written for the `number`-th row: a heading, six labelled
      fields and a blank line. `showPct` is Python's `str` of the match
      percentage. */
  function JobSection(number: nat, job: Job, showPct: real -> string): seq<string> {
    [ "--- Job #" + NatToString(number) + " ---",
      "  Title:       " + job.title,
      "  Company:     " + job.company,
      "  Location:    " + job.location,
      "  Salary:      " + job.salary,
      "  Match:       " + showPct(job.matchPct) + "%",
      "  URL:         " + job.url,
      "" ]
  }

  /** One block of lines per item, in order, the `i`-th item's block built
      with the number `i + 1`. */
  function Blocks<T>(items: seq<T>, block: (nat, T) -> seq<string>): seq<string> {
    if items == [] then []
    else Blocks(items[..|items| - 1], block) + block(|items|, items[|items| - 1])
  }

  /** The section builder for a given percentage format. */
  function SectionOf(showPct: real -> string): (nat, Job) -> seq<string> {
    (number: nat, job: Job) => JobSection(number, job, showPct)
  }

  /** The sections of the rows, numbered 1, 2, ... in order. */
  function Sections(rows: seq<Job>, showPct: real -> string): seq<string> {
    Blocks(rows, SectionOf(showPct))
  }

  /** The lines before the first section of a non-empty table of `count` rows. */
  function Preamble(scrapedAt: string, count: nat): seq<string> {
    ["# ZipRecruiter Job Listings", "# Scraped: " + scrapedAt,
     "# Total Jobs: " + NatToString(count), Repeat('=', 50), ""]
  }

  /** The lines of the notes file for a table (`None` for no table at all). */
  function NotesLines(scrapedAt: string, table: Option<seq<Job>>, showPct: real -> string): seq<string> {
    if table.None? || table.value == [] then
      ["# ZipRecruiter Job Listings", "# Scraped: " + scrapedAt, "# Total Jobs: 0", "# No jobs found."]
    else
      Preamble(scrapedAt, |table.value|) + Sections(table.value, showPct)
  }

  /** Every notes file starts with the heading, the timestamp and the row
      count (0 for no table); its fourth line is the "no jobs" line exactly
      when there are no rows; otherwise it is a rule of 50 `=` followed by a
      blank line. */
  lemma NotesHeader(scrapedAt: string, table: Option<seq<Job>>, showPct: real -> string)
    ensures var lines := NotesLines(scrapedAt, table, showPct);
      && |lines| >= 4
      && lines[0] == "# ZipRecruiter Job Listings" && lines[1] == "# Scraped: " + scrapedAt
      && lines[2] == "# Total Jobs: " + NatToString(if table.None? then 0 else |table.value|)
      && (table.None? || table.value == [] <==> lines[3] == "# No jobs found.")
      && (table.Some? && table.value != [] ==> |lines| >= 5 && lines[3] == Repeat('=', 50) && lines[4] == "")
  {
  }

  /** `save_to_notes`: the lines of the file, written in the order the source
      writes them (a write ending in two newlines ends two lines); the file's
      text is `FileText(lines)`. */
  method SaveToNotes(scrapedAt: string, table: Option<seq<Job>>, showPct: real -> string)
    returns (lines: seq<string>)
    ensures lines == NotesLines(scrapedAt, table, showPct)
  {
    lines := ["# ZipRecruiter Job Listings"];
    lines := lines + ["# Scraped: " + scrapedAt];
    if table.None? || table.value == [] {
      lines := lines + ["# Total Jobs: 0"];
      lines := lines + ["# No jobs found."];
      return;
    }
    var rows := table.value;
    lines := lines + ["# Total Jobs: " + NatToString(|rows|)];
    lines := lines + [Repeat('=', 50), ""];
    for i := 0 to |rows|
      invariant lines == Preamble(scrapedAt, |rows|) + Sections(rows[..i], showPct)
    {
      var section := WriteSection(i + 1, rows[i], showPct);
      SectionsStep(rows, showPct, i);
      lines := lines + section;
    }
    assert rows[..|rows|] == rows;
  }

  /** The writes for the `number`-th row of the loop, one line each (the last
      write ends two lines). */
  method WriteSection(number: nat, job: Job, showPct: real -> string) returns (section: seq<string>)
    ensures |section| == 8
    ensures section == JobSection(number, job, showPct)
  {
    section := ["--- Job #" + NatToString(number) + " ---"];
    section := section + ["  Title:       " + job.title];
    section := section + ["  Company:     " + job.company];
    section := section + ["  Location:    " + job.location];
    section := section + ["  Salary:      " + job.salary];
    section := section + ["  Match:       " + showPct(job.matchPct) + "%"];
    section := section + ["  URL:         " + job.url, ""];
  }

  /** The loop's step: one more row adds its section. */
  lemma SectionsStep(rows: seq<Job>, showPct: real -> string, i: nat)
    requires i < |rows|
    ensures Sections(rows[..i + 1], showPct) == Sections(rows[..i], showPct) + JobSection(i + 1, rows[i], showPct)
  {
    assert rows[..i + 1][..i] == rows[..i];
  }

  /** Blocks of eight lines sit at fixed places: the `k`-th item's block
      occupies lines `8k` to `8k + 7`. */
  lemma {:induction false} BlocksAt<T>(items: seq<T>, block: (nat, T) -> seq<string>, k: nat)
    requires forall i :: 0 <= i < |items| ==> |block(i + 1, items[i])| == 8
    requires k < |items|
    ensures |Blocks(items, block)| == 8 * |items|
    ensures Blocks(items, block)[8 * k .. 8 * k + 8] == block(k + 1, items[k])
  {
    var n := |items| - 1;
    var front := Blocks(items[..n], block);
    BlocksLength(items[..n], block);
    if k < n {
      BlocksAt(items[..n], block, k);
      assert Blocks(items, block)[8 * k .. 8 * k + 8] == front[8 * k .. 8 * k + 8];
    }
  }

  lemma {:induction false} BlocksLength<T>(items: seq<T>, block: (nat, T) -> seq<string>)
    requires forall i :: 0 <= i < |items| ==> |block(i + 1, items[i])| == 8
    ensures |Blocks(items, block)| == 8 * |items|
  {
    if items != [] {
      BlocksLength(items[..|items| - 1], block);
    }
  }

  /** Each row has its section at a fixed place: the section of row `k`
      (numbered `k + 1`) occupies lines `8k` to `8k + 7` of the sections. */
  lemma SectionsAt(rows: seq<Job>, showPct: real -> string, k: nat)
    requires k < |rows|
    ensures |Sections(rows, showPct)| == 8 * |rows|
    ensures Sections(rows, showPct)[8 * k .. 8 * k + 8] == JobSection(k + 1, rows[k], showPct)
  {
    BlocksAt(rows, SectionOf(showPct), k);
  }

  /** The layout of the file: four lines when there is no row; otherwise five
      preamble lines whose third states the row count, then row `k`'s section,
      numbered `k + 1`, at line `5 + 8k`. */
  lemma NotesLayout(scrapedAt: string, table: Option<seq<Job>>, showPct: real -> string, k: nat)
    ensures table.None? || table.value == [] ==> |NotesLines(scrapedAt, table, showPct)| == 4
    ensures table.Some? && k < |table.value| ==>
      var lines := NotesLines(scrapedAt, table, showPct);
      |lines| == 5 + 8 * |table.value| &&
      lines[2] == "# Total Jobs: " + NatToString(|table.value|) &&
      lines[5 + 8 * k .. 13 + 8 * k] == JobSection(k + 1, table.value[k], showPct)
  {
    if table.Some? && k < |table.value| {
      var rows := table.value;
      SectionsAt(rows, showPct, k);
      var lines := NotesLines(scrapedAt, table, showPct);
      assert lines[5 + 8 * k .. 13 + 8 * k] == Sections(rows, showPct)[8 * k .. 8 * k + 8];
    }
  }

  /** The row count line reads back as the number of rows. */
  lemma TotalLineReadsBack(count: nat)
    ensures var line := "# Total Jobs: " + NatToString(count);
      line[..14] == "# Total Jobs: " &&
      (forall i :: 14 <= i < |line| ==> IsDigit(line[i])) &&
      DigitsValue(line[14..]) == count
  {
    var line := "# Total Jobs: " + NatToString(count);
    assert line[14..] == NatToString(count);
  }

  /** The fields a reader of the notes recovers from one section. */
  datatype Entry = Entry(title: string, company: string, location: string, salary: string, url: string)

  /** The fields of a row that its section shows verbatim. */
  function EntryOf(job: Job): Entry {
    Entry(job.title, job.company, job.location, job.salary, job.url)
  }

  /** Reads a section back: the text after each label, or `None` when the
      lines are not a section. */
  function ReadEntry(section: seq<string>): (e: Option<Entry>)
    ensures e.Some? ==> |section| >= 7
  {
    if |section| < 7 || exists i | 1 <= i < 7 :: |section[i]| < LabelWidth then None
    else Some(Entry(section[1][LabelWidth..], section[2][LabelWidth..], section[3][LabelWidth..],
                    section[4][LabelWidth..], section[6][LabelWidth..]))
  }

  /** Reading a written section gives back the row's fields. */
  lemma ReadEntryOfSection(number: nat, job: Job, showPct: real -> string)
    ensures ReadEntry(JobSection(number, job, showPct)) == Some(EntryOf(job))
  {
    var s := JobSection(number, job, showPct);
    assert s[1][LabelWidth..] == job.title;
    assert s[2][LabelWidth..] == job.company;
    assert s[3][LabelWidth..] == job.location;
    assert s[4][LabelWidth..] == job.salary;
    assert s[6][LabelWidth..] == job.url;
  }

  /** The text holds no newline. */
  predicate NoNewline(s: string) {
    forall k :: 0 <= k < |s| ==> s[k] != '\n'
  }

  /** No line holds a newline. */
  predicate OneLine(lines: seq<string>) {
    forall i :: 0 <= i < |lines| ==> NoNewline(lines[i])
  }

  /** Splitting a file on newlines gives its lines back, followed by the empty
      text after the last newline, when no line holds a newline itself. */
  lemma FileTextSplits(lines: seq<string>)
    requires OneLine(lines)
    ensures Split(FileText(lines), '\n') == lines + [""]
  {
    forall p | p in lines + [""] ensures '\n' !in p {
      if p in lines {
        var i :| 0 <= i < |lines| && lines[i] == p;
        assert NoNewline(p);
      }
    }
    JoinWithEmptyLast(lines);
    SplitJoin(lines + [""], '\n');
  }

  lemma {:induction false} JoinWithEmptyLast(lines: seq<string>)
    ensures Join(lines + [""], '\n') == FileText(lines)
  {
    if lines != [] {
      assert (lines + [""])[1..] == lines[1..] + [""];
      JoinWithEmptyLast(lines[1..]);
    }
  }

  /** No field of the row holds a newline. */
  predicate OneLineFields(job: Job, showPct: real -> string) {
    '\n' !in job.title && '\n' !in job.company && '\n' !in job.location &&
    '\n' !in job.salary && '\n' !in job.url && '\n' !in showPct(job.matchPct)
  }

  /** The notes file reads back: when no field holds a newline, splitting the
      file's text on newlines and reading the section at line `5 + 8k` gives
      row `k`'s title, company, location, salary and URL. */
  lemma NotesReadBack(scrapedAt: string, rows: seq<Job>, showPct: real -> string, k: nat)
    requires '\n' !in scrapedAt
    requires forall i :: 0 <= i < |rows| ==> OneLineFields(rows[i], showPct)
    requires k < |rows|
    ensures var parts := Split(FileText(NotesLines(scrapedAt, Some(rows), showPct)), '\n');
      |parts| == 6 + 8 * |rows| && ReadEntry(parts[5 + 8 * k .. 13 + 8 * k]) == Some(EntryOf(rows[k]))
  {
    var lines := NotesLines(scrapedAt, Some(rows), showPct);
    NotesLayout(scrapedAt, Some(rows), showPct, k);
    NotesLinesOneLine(scrapedAt, rows, showPct);
    SectionReadsBack(lines, 5 + 8 * k, k + 1, rows[k], showPct);
  }

  /** A section written at line `at` of a file of one-line lines is read back
      from the same place in the file's split text. */
  lemma SectionReadsBack(lines: seq<string>, at: nat, number: nat, job: Job, showPct: real -> string)
    requires OneLine(lines) && at + 8 <= |lines|
    requires lines[at .. at + 8] == JobSection(number, job, showPct)
    ensures var parts := Split(FileText(lines), '\n');
      |parts| == |lines| + 1 && ReadEntry(parts[at .. at + 8]) == Some(EntryOf(job))
  {
    SplitSlice(lines, at, at + 8);
    ReadEntryOfSection(number, job, showPct);
  }

  /** Any run of lines of a file is found at the same place after splitting
      the file's text on newlines. */
  lemma SplitSlice(lines: seq<string>, from: nat, to: nat)
    requires OneLine(lines) && from <= to <= |lines|
    ensures var parts := Split(FileText(lines), '\n');
      |parts| == |lines| + 1 && parts[from..to] == lines[from..to]
  {
    FileTextSplits(lines);
    var parts := Split(FileText(lines), '\n');
    assert parts[from..to] == (lines + [""])[from..to];
  }

  /** With one-line fields, no line of the notes file holds a newline. */
  lemma NotesLinesOneLine(scrapedAt: string, rows: seq<Job>, showPct: real -> string)
    requires '\n' !in scrapedAt
    requires forall i :: 0 <= i < |rows| ==> OneLineFields(rows[i], showPct)
    requires rows != []
    ensures OneLine(NotesLines(scrapedAt, Some(rows), showPct))
  {
    PreambleOneLine(scrapedAt, |rows|);
    SectionsOneLine(rows, showPct);
    OneLineAppend(Preamble(scrapedAt, |rows|), Sections(rows, showPct));
  }

  lemma OneLineAppend(a: seq<string>, b: seq<string>)
    requires OneLine(a) && OneLine(b)
    ensures OneLine(a + b)
  {
    forall i | 0 <= i < |a + b| ensures NoNewline((a + b)[i]) {
      if i >= |a| {
        assert (a + b)[i] == b[i - |a|];
      }
    }
  }

  lemma NoNewlineConcat(a: string, b: string)
    requires NoNewline(a) && NoNewline(b)
    ensures NoNewline(a + b)
  {
    forall k | 0 <= k < |a + b| ensures (a + b)[k] != '\n' {
      if k >= |a| {
        assert (a + b)[k] == b[k - |a|];
      }
    }
  }

  lemma NotInIsNoNewline(s: string)
    requires '\n' !in s
    ensures NoNewline(s)
  {
    forall k | 0 <= k < |s| ensures s[k] != '\n' {
      assert s[k] in s;
    }
  }

  lemma DigitsOneLine(n: nat)
    ensures NoNewline(NatToString(n))
  {
    var c := NatToString(n);
    forall i | 0 <= i < |c| ensures c[i] != '\n' {
      assert IsDigit(c[i]);
    }
  }

  /** The fixed texts of the file hold no newline. */
  lemma HeaderLabelsOneLine()
    ensures NoNewline("# ZipRecruiter Job Listings") && NoNewline("# Scraped: ")
    ensures NoNewline("# Total Jobs: ") && NoNewline(Repeat('=', 50)) && NoNewline("")
  {
  }

  lemma FieldLabelsOneLine()
    ensures NoNewline("--- Job #") && NoNewline(" ---") && NoNewline("%") && NoNewline("")
    ensures NoNewline("  Title:       ") && NoNewline("  Company:     ") && NoNewline("  Location:    ")
    ensures NoNewline("  Salary:      ") && NoNewline("  Match:       ") && NoNewline("  URL:         ")
  {
  }

  lemma PreambleOneLine(scrapedAt: string, count: nat)
    requires '\n' !in scrapedAt
    ensures OneLine(Preamble(scrapedAt, count))
  {
    HeaderLabelsOneLine();
    NotInIsNoNewline(scrapedAt);
    NoNewlineConcat("# Scraped: ", scrapedAt);
    DigitsOneLine(count);
    NoNewlineConcat("# Total Jobs: ", NatToString(count));
  }

  lemma JobSectionOneLine(number: nat, job: Job, showPct: real -> string)
    requires OneLineFields(job, showPct)
    ensures OneLine(JobSection(number, job, showPct))
  {
    FieldLabelsOneLine();
    DigitsOneLine(number);
    NoNewlineConcat("--- Job #", NatToString(number));
    NoNewlineConcat("--- Job #" + NatToString(number), " ---");
    NotInIsNoNewline(job.title);
    NoNewlineConcat("  Title:       ", job.title);
    NotInIsNoNewline(job.company);
    NoNewlineConcat("  Company:     ", job.company);
    NotInIsNoNewline(job.location);
    NoNewlineConcat("  Location:    ", job.location);
    NotInIsNoNewline(job.salary);
    NoNewlineConcat("  Salary:      ", job.salary);
    NotInIsNoNewline(showPct(job.matchPct));
    NoNewlineConcat("  Match:       ", showPct(job.matchPct));
    NoNewlineConcat("  Match:       " + showPct(job.matchPct), "%");
    NotInIsNoNewline(job.url);
    NoNewlineConcat("  URL:         ", job.url);
  }

  lemma {:induction false} SectionsOneLine(rows: seq<Job>, showPct: real -> string)
    requires forall i :: 0 <= i < |rows| ==> OneLineFields(rows[i], showPct)
    ensures OneLine(Sections(rows, showPct))
  {
    if rows != [] {
      var n := |rows| - 1;
      SectionsOneLine(rows[..n], showPct);
      JobSectionOneLine(n + 1, rows[n], showPct);
      SectionsStep(rows, showPct, n);
      assert rows[..n + 1] == rows;
      OneLineAppend(Sections(rows[..n], showPct), JobSection(n + 1, rows[n], showPct));
    }
  }
}
