/** The event scraper (`scrape_event` in data/scrape.py): from one parsed event page to
    its judge-scorecard rows.

    The HTML document is not modelled. What the scraper reads from it is given as plain
    data: an optional field is a tag that may be missing, and a string is the text the
    parser returns for a tag that is present.
 */
module Scrape {
  import opened Wrappers
  import opened Text
  import Dedup
  import opened Seqs

  // ---------------------------------------------------------------------------
  // The page, as the scraper sees it
  // ---------------------------------------------------------------------------

  /** A cell after a bout cell: the stripped text of its first `<a>` or `<b>` tag, and
      the unstripped text of its first `<span>` tag, each when the tag exists. */
  datatype JudgeCell = JudgeCell(name: Option<string>, score: Option<string>)

  /** A bout cell: the stripped text of its `<b>` (the matchup) and `<i>` (the decision
      method) tags when they exist, and every `<td>` sibling that follows it, in
      document order. */
  datatype BoutCell = BoutCell(bout: Option<string>, decision: Option<string>, following: seq<JudgeCell>)

  /** An event page: the stripped title text, the full text of the date cell, and the
      bout cells in document order. */
  datatype EventPage = EventPage(title: Option<string>, date: Option<string>, bouts: seq<BoutCell>)

  /** One judge's card for one bout: an output row of the scraper. */
  datatype Row = Row(
    year: Option<int>,
    event: string,
    bout: string,
    decision: string,
    judge: string,
    score: string,
    pos: int)

  /** The six columns the scraper de-duplicates on (every column but the year). */
  datatype RowKey = RowKey(event: string, bout: string, decision: string, judge: string, score: string, pos: int)

  function KeyOf(r: Row): RowKey {
    RowKey(r.event, r.bout, r.decision, r.judge, r.score, r.pos)
  }

  /** The scraper raises when a judge cell has no `<span>`; the error names the bout
      (counted from 0 in page order) and the judge position (from 1). */
  datatype ScrapeError = MissingScore(bout: nat, pos: int)

  /** The judge name used when a cell has neither an `<a>` nor a `<b>` tag. */
  const UnknownJudge: string := "Unknown"

  /** At most this many cells after a bout cell are read as its judges. */
  const JudgesPerBout: nat := 3

  // ---------------------------------------------------------------------------
  // Event year
  // ---------------------------------------------------------------------------

  /** Four digits start at position `i` of `t`, with a word boundary (`\b`) on both
      sides: no word character right before them and none right after them. */
  predicate YearAt(t: string, i: int) {
    && 0 <= i && i + 4 <= |t|
    && IsDigit(t[i]) && IsDigit(t[i + 1]) && IsDigit(t[i + 2]) && IsDigit(t[i + 3])
    && (i == 0 || !IsWordChar(t[i - 1]))
    && (i + 4 == |t| || !IsWordChar(t[i + 4]))
  }

  function DigitValue(c: char): int
    requires IsDigit(c)
  {
    c as int - '0' as int
  }

  /** The decimal value of the four digits at position `i` (Python's `int` of the match). */
  function FourDigitValue(t: string, i: nat): (v: int)
    requires i + 4 <= |t|
    requires IsDigit(t[i]) && IsDigit(t[i + 1]) && IsDigit(t[i + 2]) && IsDigit(t[i + 3])
    ensures 0 <= v <= 9999
  {
    1000 * DigitValue(t[i]) + 100 * DigitValue(t[i + 1]) + 10 * DigitValue(t[i + 2]) + DigitValue(t[i + 3])
  }

  /** The leftmost position at or after `from` where a year match starts: the scan of
      `re.search`. */
  function FirstYearFrom(t: string, from: nat): (r: Option<nat>)
    ensures r.Some? ==> from <= r.value && YearAt(t, r.value)
    ensures r.Some? ==> forall j :: from <= j < r.value ==> !YearAt(t, j)
    ensures r.None? ==> forall j :: from <= j ==> !YearAt(t, j)
    decreases |t| - from
  {
    if from + 4 > |t| then None
    else if YearAt(t, from) then Some(from)
    else FirstYearFrom(t, from + 1)
  }

  /** The event year: the value of the leftmost four-digit run of the date cell's text
      that has a word boundary on both sides; None when there is no such run or no date
      cell. */
  function EventYear(date: Option<string>): (y: Option<int>)
    ensures y.Some? <==> date.Some? && exists i :: YearAt(date.value, i)
    ensures y.Some? ==> 0 <= y.value <= 9999
    ensures y.Some? ==>
      exists i :: && YearAt(date.value, i)
                  && (forall j :: 0 <= j < i ==> !YearAt(date.value, j))
                  && y.value == FourDigitValue(date.value, i)
  {
    if date.None? then None
    else
      match FirstYearFrom(date.value, 0)
      case None => None
      case Some(i) => Some(FourDigitValue(date.value, i))
  }

  /** Runs of more than four digits, or four digits glued to a letter, are not years;
      a free-standing run is, and the leftmost one wins. */
  lemma YearExamples()
    ensures EventYear(Some("12345")) == None
    ensures EventYear(Some("2024a")) == None
    ensures EventYear(Some("Saturday 12.07.2025")) == Some(2025)
    ensures EventYear(Some("1999 / 2024")) == Some(1999)
    ensures EventYear(None) == None
  {
    NoYearInLongRun();
    NoYearBeforeLetter();
    YearAfterDots();
    LeftmostYear();
  }

  lemma NoYearInLongRun()
    ensures EventYear(Some("12345")) == None
  {
    assert !YearAt("12345", 0) && !YearAt("12345", 1);
  }

  lemma NoYearBeforeLetter()
    ensures EventYear(Some("2024a")) == None
  {
    assert !YearAt("2024a", 0) && !YearAt("2024a", 1);
  }

  lemma YearAfterDots()
    ensures EventYear(Some("Saturday 12.07.2025")) == Some(2025)
  {
    var t := "Saturday 12.07.2025";
    assert |t| == 19;
    forall j | 0 <= j < 15
      ensures !YearAt(t, j)
    {
      if j <= 8 {
        assert t[..9] == "Saturday ";
        assert !IsDigit(t[..9][j]);
      } else if j <= 11 {
        assert t[11] == '.';
      } else {
        assert t[14] == '.';
      }
    }
    SkipNoYear(t, 0, 15);
    assert YearAt(t, 15);
    assert FirstYearFrom(t, 15) == Some(15);
    assert t[15] == '2' && t[16] == '0' && t[17] == '2' && t[18] == '5';
  }

  /** Positions without a year match do not stop the scan. */
  lemma {:induction false} SkipNoYear(t: string, lo: nat, hi: nat)
    requires lo <= hi
    requires forall j :: lo <= j < hi ==> !YearAt(t, j)
    ensures hi + 4 <= |t| ==> FirstYearFrom(t, lo) == FirstYearFrom(t, hi)
    decreases hi - lo
  {
    if lo < hi {
      SkipNoYear(t, lo + 1, hi);
    }
  }

  lemma LeftmostYear()
    ensures EventYear(Some("1999 / 2024")) == Some(1999)
  {
    assert YearAt("1999 / 2024", 0);
  }

  // ---------------------------------------------------------------------------
  // Rows of one bout
  // ---------------------------------------------------------------------------

  /** How many judge cells a bout has: the first three following cells, or fewer. */
  function JudgeCount(b: BoutCell): nat {
    if |b.following| < JudgesPerBout then |b.following| else JudgesPerBout
  }

  /** Every cell read as a judge of `b` has a score. */
  predicate BoutHasScores(b: BoutCell) {
    forall k :: 0 <= k < JudgeCount(b) ==> b.following[k].score.Some?
  }

  /** The fields every row of one bout shares. */
  datatype BoutHeader = BoutHeader(year: Option<int>, event: string, bout: string, decision: string)

  /** Row `r` is the card of `cell` at position `pos` under header `h`: the header fields,
      the judge name or "Unknown", and the score with its whitespace normalised. */
  predicate IsJudgeRow(r: Row, h: BoutHeader, cell: JudgeCell, pos: int) {
    && r.year == h.year
    && r.event == h.event
    && r.bout == h.bout
    && r.decision == h.decision
    && r.judge == cell.name.GetOr(UnknownJudge)
    && cell.score.Some?
    && r.score == NormalizeWhitespace(cell.score.value)
    && r.pos == pos
  }

  /** The rows for `cells`, numbered from `pos` on; fails with the position of the first
      cell that has no score. */
  function JudgeRows(h: BoutHeader, cells: seq<JudgeCell>, pos: int): (r: Result<seq<Row>, int>)
    ensures r.Success? <==> forall k :: 0 <= k < |cells| ==> cells[k].score.Some?
    ensures r.Success? ==> |r.value| == |cells|
    ensures r.Success? ==> forall k :: 0 <= k < |cells| ==> IsJudgeRow(r.value[k], h, cells[k], pos + k)
    ensures r.Failure? ==>
      && pos <= r.error < pos + |cells|
      && cells[r.error - pos].score.None?
      && forall k :: 0 <= k < r.error - pos ==> cells[k].score.Some?
    decreases |cells|
  {
    if |cells| == 0 then Success([])
    else
      var cell := cells[0];
      match cell.score
      case None => Failure(pos)
      case Some(raw) =>
        var row := Row(h.year, h.event, h.bout, h.decision, cell.name.GetOr(UnknownJudge),
                       NormalizeWhitespace(raw), pos);
        match JudgeRows(h, cells[1..], pos + 1)
        case Failure(e) =>
          JudgeRowsTailFails(cells, pos, e);
          Failure(e)
        case Success(rest) =>
          JudgeRowsCons(h, cells, pos, row, rest);
          Success([row] + rest)
  }

  /** A failure in the later cells is the first failure of all the cells when the first
      cell has its score. */
  lemma JudgeRowsTailFails(cells: seq<JudgeCell>, pos: int, e: int)
    requires |cells| > 0 && cells[0].score.Some?
    requires pos + 1 <= e < pos + 1 + |cells[1..]|
    requires cells[1..][e - pos - 1].score.None?
    requires forall k :: 0 <= k < e - pos - 1 ==> cells[1..][k].score.Some?
    ensures pos <= e < pos + |cells|
    ensures cells[e - pos].score.None?
    ensures forall k :: 0 <= k < e - pos ==> cells[k].score.Some?
    ensures !(forall k :: 0 <= k < |cells| ==> cells[k].score.Some?)
  {
    assert cells[e - pos] == cells[1..][e - pos - 1];
    forall k | 1 <= k < e - pos
      ensures cells[k].score.Some?
    {
      assert cells[k] == cells[1..][k - 1];
    }
  }

  /** The first cell's row followed by the later cells' rows are the rows of all the
      cells. */
  lemma JudgeRowsCons(h: BoutHeader, cells: seq<JudgeCell>, pos: int, row: Row, rest: seq<Row>)
    requires |cells| > 0 && cells[0].score.Some?
    requires row == Row(h.year, h.event, h.bout, h.decision, cells[0].name.GetOr(UnknownJudge),
                        NormalizeWhitespace(cells[0].score.value), pos)
    requires forall k :: 0 <= k < |cells[1..]| ==> cells[1..][k].score.Some?
    requires |rest| == |cells[1..]|
    requires forall k :: 0 <= k < |cells[1..]| ==> IsJudgeRow(rest[k], h, cells[1..][k], pos + 1 + k)
    ensures forall k :: 0 <= k < |cells| ==> cells[k].score.Some?
    ensures |[row] + rest| == |cells|
    ensures forall k :: 0 <= k < |cells| ==> IsJudgeRow(([row] + rest)[k], h, cells[k], pos + k)
  {
    forall k | 1 <= k < |cells|
      ensures cells[k].score.Some? && IsJudgeRow(([row] + rest)[k], h, cells[k], pos + k)
    {
      assert cells[k] == cells[1..][k - 1];
      assert ([row] + rest)[k] == rest[k - 1];
    }
  }

  /** The rows of bout cell `b`, the `index`-th bout of its event: one row per judge cell
      among the first three that follow it, numbered 1, 2, 3 in sibling order, all
      with the event's year and name and the bout's matchup and method ("" when the
      tag is missing). A judge cell without a score makes it fail. */
  function BoutRows(year: Option<int>, event: string, b: BoutCell, index: nat): (r: Result<seq<Row>, ScrapeError>)
    ensures r.Success? <==> BoutHasScores(b)
    ensures r.Success? ==> |r.value| == JudgeCount(b) <= JudgesPerBout
    ensures r.Success? ==>
      forall k :: 0 <= k < |r.value| ==>
        IsJudgeRow(r.value[k], BoutHeader(year, event, b.bout.GetOr(""), b.decision.GetOr("")), b.following[k], k + 1)
    ensures r.Failure? ==>
      && r.error.bout == index
      && 1 <= r.error.pos <= JudgeCount(b)
      && b.following[r.error.pos - 1].score.None?
      && forall k :: 0 <= k < r.error.pos - 1 ==> b.following[k].score.Some?
  {
    var h := BoutHeader(year, event, b.bout.GetOr(""), b.decision.GetOr(""));
    var cells := b.following[..JudgeCount(b)];
    match JudgeRows(h, cells, 1)
    case Success(rows) => Success(rows)
    case Failure(pos) => Failure(MissingScore(index, pos))
  }

  // ---------------------------------------------------------------------------
  // Rows of a card
  // ---------------------------------------------------------------------------

  /** The fields every row of an event shares, and the bounds every row meets. */
  predicate IsEventRow(r: Row, year: Option<int>, event: string) {
    && r.year == year
    && r.event == event
    && 1 <= r.pos <= JudgesPerBout
    && IsNormalized(r.score)
  }

  /** Bout `i` is the first of `bouts` with a judge cell that has no score. */
  predicate IsFirstFailingBout(bouts: seq<BoutCell>, i: int) {
    && 0 <= i < |bouts|
    && !BoutHasScores(bouts[i])
    && forall j :: 0 <= j < i ==> BoutHasScores(bouts[j])
  }

  lemma FirstFailingBoutShift(bouts: seq<BoutCell>, i: int)
    requires |bouts| > 0 && BoutHasScores(bouts[0])
    requires IsFirstFailingBout(bouts[1..], i - 1)
    ensures IsFirstFailingBout(bouts, i)
  {
    assert bouts[i] == bouts[1..][i - 1];
    forall j | 1 <= j < i
      ensures BoutHasScores(bouts[j])
    {
      assert bouts[j] == bouts[1..][j - 1];
    }
  }

  /** A bout's rows are rows of its event. */
  lemma BoutRowsAreEventRows(year: Option<int>, event: string, b: BoutCell, index: nat)
    requires BoutRows(year, event, b, index).Success?
    ensures forall k :: 0 <= k < |BoutRows(year, event, b, index).value| ==>
      IsEventRow(BoutRows(year, event, b, index).value[k], year, event)
  {
  }

  lemma EventRowsAppend(a: seq<Row>, b: seq<Row>, year: Option<int>, event: string)
    requires forall k :: 0 <= k < |a| ==> IsEventRow(a[k], year, event)
    requires forall k :: 0 <= k < |b| ==> IsEventRow(b[k], year, event)
    ensures forall k :: 0 <= k < |a + b| ==> IsEventRow((a + b)[k], year, event)
  {
  }

  /** How many judge cells the bouts have in all. */
  function JudgeTotal(bouts: seq<BoutCell>): (n: nat)
    ensures n <= JudgesPerBout * |bouts|
  {
    if |bouts| == 0 then 0 else JudgeCount(bouts[0]) + JudgeTotal(bouts[1..])
  }

  /** The row sets of `bouts`, bout `from + i` of the event at index `i`, for a card
      whose bouts all have their scores. */
  function BoutRowSets(year: Option<int>, event: string, bouts: seq<BoutCell>, from: nat): (sets: seq<seq<Row>>)
    requires forall i :: 0 <= i < |bouts| ==> BoutHasScores(bouts[i])
    ensures |sets| == |bouts|
    ensures forall i :: 0 <= i < |bouts| ==> sets[i] == BoutRows(year, event, bouts[i], from + i).value
  {
    seq(|bouts|, i requires 0 <= i < |bouts| && BoutHasScores(bouts[i]) =>
      BoutRows(year, event, bouts[i], from + i).value)
  }

  /** The rows of a card are the first bout's rows followed by those of the rest. */
  lemma BoutRowSetsCons(year: Option<int>, event: string, bouts: seq<BoutCell>, from: nat)
    requires |bouts| > 0
    requires forall i :: 0 <= i < |bouts| ==> BoutHasScores(bouts[i])
    ensures Flatten(BoutRowSets(year, event, bouts, from)) ==
      BoutRows(year, event, bouts[0], from).value + Flatten(BoutRowSets(year, event, bouts[1..], from + 1))
  {
    var sets := BoutRowSets(year, event, bouts, from);
    var tail := BoutRowSets(year, event, bouts[1..], from + 1);
    assert sets[1..] == tail by {
      forall i | 0 <= i < |tail|
        ensures sets[1..][i] == tail[i]
      {
        assert bouts[1..][i] == bouts[i + 1];
        assert (from + 1) + i == from + (i + 1);
      }
    }
  }

  /** The rows of `bouts` (bout `from` of the event and on), bout after bout; fails with
      the first bout, in page order, that has a judge cell without a score. */
  function CardRows(year: Option<int>, event: string, bouts: seq<BoutCell>, from: nat): (r: Result<seq<Row>, ScrapeError>)
    ensures r.Success? <==> forall i :: 0 <= i < |bouts| ==> BoutHasScores(bouts[i])
    ensures r.Success? ==> r.value == Flatten(BoutRowSets(year, event, bouts, from))
    ensures r.Success? ==> |r.value| == JudgeTotal(bouts)
    ensures r.Success? ==> forall k :: 0 <= k < |r.value| ==> IsEventRow(r.value[k], year, event)
    ensures r.Failure? ==> from <= r.error.bout && IsFirstFailingBout(bouts, r.error.bout - from)
    decreases |bouts|
  {
    if |bouts| == 0 then Success([])
    else
      AllScoresCons(bouts);
      match BoutRows(year, event, bouts[0], from)
      case Failure(e) =>
        assert !BoutHasScores(bouts[0]);
        assert IsFirstFailingBout(bouts, 0);
        Failure(e)
      case Success(first) =>
        match CardRows(year, event, bouts[1..], from + 1)
        case Failure(e) =>
          FirstFailingBoutShift(bouts, e.bout - from);
          assert !BoutHasScores(bouts[e.bout - from]);
          Failure(e)
        case Success(rest) =>
          CardRowsCons(year, event, bouts, from, first, rest);
          Success(first + rest)
  }

  /** The step of `CardRows` when the first bout and the rest of the card both succeed:
      the first bout's rows followed by the rest's are the card's rows. */
  lemma CardRowsCons(year: Option<int>, event: string, bouts: seq<BoutCell>, from: nat, first: seq<Row>, rest: seq<Row>)
    requires |bouts| > 0
    requires BoutRows(year, event, bouts[0], from) == Success(first)
    requires forall i :: 0 <= i < |bouts[1..]| ==> BoutHasScores(bouts[1..][i])
    requires rest == Flatten(BoutRowSets(year, event, bouts[1..], from + 1))
    requires |rest| == JudgeTotal(bouts[1..])
    requires forall k :: 0 <= k < |rest| ==> IsEventRow(rest[k], year, event)
    ensures forall i :: 0 <= i < |bouts| ==> BoutHasScores(bouts[i])
    ensures first + rest == Flatten(BoutRowSets(year, event, bouts, from))
    ensures |first + rest| == JudgeTotal(bouts)
    ensures forall k :: 0 <= k < |first + rest| ==> IsEventRow((first + rest)[k], year, event)
  {
    AllScoresCons(bouts);
    BoutRowsAreEventRows(year, event, bouts[0], from);
    EventRowsAppend(first, rest, year, event);
    BoutRowSetsCons(year, event, bouts, from);
  }

  /** Every bout of a non-empty card has its scores exactly when the first one does and
      every later one does. */
  lemma AllScoresCons(bouts: seq<BoutCell>)
    requires |bouts| > 0
    ensures (forall i :: 0 <= i < |bouts| ==> BoutHasScores(bouts[i])) <==>
      BoutHasScores(bouts[0]) && forall i :: 0 <= i < |bouts[1..]| ==> BoutHasScores(bouts[1..][i])
  {
    assert forall i :: 0 <= i < |bouts[1..]| ==> bouts[1..][i] == bouts[i + 1];
  }

  /** The rows of a page's card before de-duplication: every judge row of every bout,
      bout after bout, with the page's year and title. */
  function EventCard(page: EventPage): Result<seq<Row>, ScrapeError> {
    CardRows(EventYear(page.date), page.title.GetOr(""), page.bouts, 0)
  }

  /** `scrape_event` on a parsed page: the rows of all bouts, de-duplicated on the six
      key columns keeping the first occurrence. It fails exactly when some judge cell
      (among the first three after a bout) has no score. Every row is a row of the card
      and carries the page's year and title, a judge position 1 to 3 and a normalised
      score; no two rows share a key, and every key of the card is kept. */
  function ScrapeEvent(page: EventPage): (r: Result<seq<Row>, ScrapeError>)
    ensures r.Success? <==> forall i :: 0 <= i < |page.bouts| ==> BoutHasScores(page.bouts[i])
    ensures r.Success? ==> |r.value| <= JudgeTotal(page.bouts) <= JudgesPerBout * |page.bouts|
    ensures r.Success? ==> Dedup.UniqueKeys(r.value, KeyOf)
    ensures r.Success? ==> forall k :: 0 <= k < |r.value| ==> r.value[k] in EventCard(page).value
    ensures r.Success? ==> Dedup.KeysOf(r.value, KeyOf) == Dedup.KeysOf(EventCard(page).value, KeyOf)
    ensures r.Success? ==>
      forall k :: 0 <= k < |r.value| ==>
        && r.value[k].year == EventYear(page.date)
        && r.value[k].event == page.title.GetOr("")
        && 1 <= r.value[k].pos <= JudgesPerBout
        && IsNormalized(r.value[k].score)
    ensures r.Failure? ==> IsFirstFailingBout(page.bouts, r.error.bout)
  {
    var rows :- EventCard(page);
    Dedup.KeepFirstUnique(rows, KeyOf);
    Dedup.KeepFirstKeys(rows, KeyOf);
    Success(Dedup.KeepFirst(rows, KeyOf))
  }

  /** Order: the scraper's rows are the card's rows at exactly the positions that hold
      the first row with their key, in page order. */
  lemma ScrapeEventPositions(page: EventPage) returns (idx: seq<int>)
    requires ScrapeEvent(page).Success?
    ensures Dedup.SelectedAt(ScrapeEvent(page).value, EventCard(page).value, idx)
    ensures forall i :: 0 <= i < |EventCard(page).value| ==>
      (i in idx <==> Dedup.IsFirstOfKey(EventCard(page).value, KeyOf, i))
  {
    idx := Dedup.KeepFirstPositions(EventCard(page).value, KeyOf);
  }

  // ---------------------------------------------------------------------------
  // What de-duplication removes
  // ---------------------------------------------------------------------------

  /** The matchup and method columns a bout's rows carry. */
  function BoutKeyOf(b: BoutCell): (string, string) {
    (b.bout.GetOr(""), b.decision.GetOr(""))
  }

  function BoutKeys(bouts: seq<BoutCell>): set<(string, string)> {
    set i | 0 <= i < |bouts| :: BoutKeyOf(bouts[i])
  }

  /** No two bouts of the card have the same matchup and method. */
  predicate DistinctBouts(bouts: seq<BoutCell>) {
    forall i, j :: 0 <= i < j < |bouts| ==> BoutKeyOf(bouts[i]) != BoutKeyOf(bouts[j])
  }

  /** Every row of a card carries the matchup and method of one of its bouts. */
  lemma CardRowsFromBouts(year: Option<int>, event: string, bouts: seq<BoutCell>, from: nat)
    requires CardRows(year, event, bouts, from).Success?
    ensures forall k :: 0 <= k < |CardRows(year, event, bouts, from).value| ==>
      (CardRows(year, event, bouts, from).value[k].bout,
       CardRows(year, event, bouts, from).value[k].decision) in BoutKeys(bouts)
  {
    var rows := CardRows(year, event, bouts, from).value;
    var sets := BoutRowSets(year, event, bouts, from);
    assert rows == Flatten(sets);
    FlattenMembers(sets);
    forall k | 0 <= k < |rows|
      ensures (rows[k].bout, rows[k].decision) in BoutKeys(bouts)
    {
      assert rows[k] in Flatten(sets);
      var i :| 0 <= i < |sets| && rows[k] in sets[i];
      var j :| 0 <= j < |sets[i]| && sets[i][j] == rows[k];
      BoutRowKey(year, event, bouts[i], from + i, j);
      assert BoutKeyOf(bouts[i]) in BoutKeys(bouts);
    }
  }

  /** Every row of a bout carries that bout's matchup and method. */
  lemma BoutRowKey(year: Option<int>, event: string, b: BoutCell, index: nat, k: int)
    requires BoutRows(year, event, b, index).Success?
    requires 0 <= k < |BoutRows(year, event, b, index).value|
    ensures (BoutRows(year, event, b, index).value[k].bout,
             BoutRows(year, event, b, index).value[k].decision) == BoutKeyOf(b)
  {
  }

  /** When the bouts are distinct, so are the rows of the card: within a bout the
      judge positions differ, and across bouts the matchup or method does. */
  lemma {:induction false} CardRowsUniqueKeys(year: Option<int>, event: string, bouts: seq<BoutCell>, from: nat)
    requires CardRows(year, event, bouts, from).Success?
    requires DistinctBouts(bouts)
    ensures Dedup.UniqueKeys(CardRows(year, event, bouts, from).value, KeyOf)
    decreases |bouts|
  {
    if |bouts| > 0 {
      var first := BoutRows(year, event, bouts[0], from).value;
      var rest := CardRows(year, event, bouts[1..], from + 1).value;
      assert DistinctBouts(bouts[1..]) by {
        forall i, j | 0 <= i < j < |bouts[1..]|
          ensures BoutKeyOf(bouts[1..][i]) != BoutKeyOf(bouts[1..][j])
        {
          assert bouts[1..][i] == bouts[i + 1] && bouts[1..][j] == bouts[j + 1];
        }
      }
      CardRowsUniqueKeys(year, event, bouts[1..], from + 1);
      CardRowsFromBouts(year, event, bouts[1..], from + 1);
      assert BoutKeyOf(bouts[0]) !in BoutKeys(bouts[1..]) by {
        forall i | 0 <= i < |bouts[1..]|
          ensures BoutKeyOf(bouts[1..][i]) != BoutKeyOf(bouts[0])
        {
          assert bouts[1..][i] == bouts[i + 1];
        }
      }
      var all: seq<Row> := first + rest;
      assert CardRows(year, event, bouts, from).value == all;
      forall i, j | 0 <= i < j < |all|
        ensures KeyOf(all[i]) != KeyOf(all[j])
      {
        if j < |first| {
          assert first[i].pos == i + 1 && first[j].pos == j + 1;
        } else if i < |first| {
          var x := rest[j - |first|];
          assert (x.bout, x.decision) in BoutKeys(bouts[1..]);
          assert (first[i].bout, first[i].decision) == BoutKeyOf(bouts[0]);
        }
      }
    }
  }

  /** On a card whose bouts are distinct, de-duplication removes nothing: the scraper
      returns one row per judge cell, in page order. */
  lemma DistinctBoutsKeepEveryRow(page: EventPage)
    requires ScrapeEvent(page).Success?
    requires DistinctBouts(page.bouts)
    ensures ScrapeEvent(page).value == EventCard(page).value
    ensures |ScrapeEvent(page).value| == JudgeTotal(page.bouts)
  {
    var rows := CardRows(EventYear(page.date), page.title.GetOr(""), page.bouts, 0).value;
    CardRowsUniqueKeys(EventYear(page.date), page.title.GetOr(""), page.bouts, 0);
    Dedup.KeepFirstOfUnique(rows, KeyOf);
  }
}
