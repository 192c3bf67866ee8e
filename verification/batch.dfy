/** The batch driver (the `__main__` block of data/scrape.py): scrape every listed event in
    order, skip the ones that raise, concatenate the rest and rewrite no-break spaces.

    Fetching a page is I/O, so each listed event arrives here already fetched: either
    the parsed page or the error the request raised. The progress and error messages
    the driver prints are summarised by the list of events that failed.
 */
module Batch {
  import opened Wrappers
  import opened Text
  import opened Seqs
  import Scrape

  /** The result of requesting one listed event's page. */
  datatype Fetched = Page(page: Scrape.EventPage) | RequestFailed(reason: string)

  /** Why one event was skipped: the request raised, or the scraper did. */
  datatype EventError = Network(reason: string) | Layout(error: Scrape.ScrapeError)

  /** What one run produces: the positions (from 0, in input order) of the events whose
      error was logged, and the consolidated table, None when there was nothing to
      concatenate (where the driver raises). */
  datatype BatchResult = BatchResult(failed: seq<nat>, table: Option<seq<Scrape.Row>>)

  /** What the loop body gives for one event: its rows, or the error that makes the
      driver skip it. */
  type Outcome = Result<seq<Scrape.Row>, EventError>

  /** Scraping one fetched event. */
  function EventOutcome(f: Fetched): (r: Outcome)
    ensures r.Success? <==> f.Page? && Scrape.ScrapeEvent(f.page).Success?
    ensures r.Success? ==> r.value == Scrape.ScrapeEvent(f.page).value
    ensures f.RequestFailed? ==> r.error.Network?
  {
    match f
    case RequestFailed(reason) => Failure(Network(reason))
    case Page(page) =>
      match Scrape.ScrapeEvent(page)
      case Success(rows) => Success(rows)
      case Failure(e) => Failure(Layout(e))
  }

  /** The row sets of the events that scraped, in input order. */
  function Survivors(outcomes: seq<Outcome>): (sets: seq<seq<Scrape.Row>>)
    ensures |sets| <= |outcomes|
    ensures |sets| == 0 <==> forall i :: 0 <= i < |outcomes| ==> outcomes[i].Failure?
  {
    if |outcomes| == 0 then []
    else
      (if outcomes[0].Success? then [outcomes[0].value] else [])
      + Survivors(outcomes[1..])
  }

  /** The positions of `outcomes`, from `from` on, of the events that raised, in order. */
  function FailedFrom(outcomes: seq<Outcome>, from: nat): (failed: seq<nat>)
    requires from <= |outcomes|
    ensures forall k :: 0 <= k < |failed| ==>
      from <= failed[k] < |outcomes| && outcomes[failed[k]].Failure?
    ensures forall i :: from <= i < |outcomes| && outcomes[i].Failure? ==> i in failed
    ensures forall k, l :: 0 <= k < l < |failed| ==> failed[k] < failed[l]
    decreases |outcomes| - from
  {
    if from == |outcomes| then []
    else if outcomes[from].Success? then FailedFrom(outcomes, from + 1)
    else [from] + FailedFrom(outcomes, from + 1)
  }

  /** No text column of the row holds U+00A0. */
  predicate NoNbsp(r: Scrape.Row) {
    && Nbsp !in r.event
    && Nbsp !in r.bout
    && Nbsp !in r.decision
    && Nbsp !in r.judge
    && Nbsp !in r.score
  }

  /** The row with U+00A0 rewritten to a space in every text column; the numeric year
      and position are not text and are left alone. */
  function CleanRow(r: Scrape.Row): (c: Scrape.Row)
    ensures c.year == r.year && c.pos == r.pos
    ensures && c.event == ReplaceNbsp(r.event)
            && c.bout == ReplaceNbsp(r.bout)
            && c.decision == ReplaceNbsp(r.decision)
            && c.judge == ReplaceNbsp(r.judge)
            && c.score == ReplaceNbsp(r.score)
    ensures NoNbsp(c)
    ensures NoNbsp(r) ==> c == r
  {
    ReplaceNbspIdempotent(r.event);
    ReplaceNbspIdempotent(r.bout);
    ReplaceNbspIdempotent(r.decision);
    ReplaceNbspIdempotent(r.judge);
    ReplaceNbspIdempotent(r.score);
    r.(event := ReplaceNbsp(r.event),
       bout := ReplaceNbsp(r.bout),
       decision := ReplaceNbsp(r.decision),
       judge := ReplaceNbsp(r.judge),
       score := ReplaceNbsp(r.score))
  }

  function CleanRows(rows: seq<Scrape.Row>): (c: seq<Scrape.Row>)
    ensures |c| == |rows|
    ensures forall k :: 0 <= k < |rows| ==> c[k] == CleanRow(rows[k])
  {
    if |rows| == 0 then [] else [CleanRow(rows[0])] + CleanRows(rows[1..])
  }

  /** One run of the driver over the outcomes of the listed events, in order. Every event
      that raised is logged and skipped; the table is the row sets of the other events
      (`Survivors`, see `SurvivorsPositions`) end to end, with no-break spaces rewritten.
      With nothing to concatenate (no event, or every event failed) there is no table. */
  function RunBatch(outcomes: seq<Outcome>): (b: BatchResult)
    ensures forall i :: 0 <= i < |outcomes| ==> (i in b.failed <==> outcomes[i].Failure?)
    ensures forall k :: 0 <= k < |b.failed| ==> b.failed[k] < |outcomes|
    ensures forall k, l :: 0 <= k < l < |b.failed| ==> b.failed[k] < b.failed[l]
    ensures b.table.Some? <==> exists i :: 0 <= i < |outcomes| && outcomes[i].Success?
    ensures b.table.Some? ==> b.table.value == CleanRows(Flatten(Survivors(outcomes)))
    ensures b.table.Some? ==> forall k :: 0 <= k < |b.table.value| ==> NoNbsp(b.table.value[k])
  {
    var failed := FailedFrom(outcomes, 0);
    var sets := Survivors(outcomes);
    if |sets| == 0 then BatchResult(failed, None)
    else BatchResult(failed, Some(CleanRows(Flatten(sets))))
  }

  /** The loop body applied to every fetched event, in order. */
  function Outcomes(events: seq<Fetched>): (outcomes: seq<Outcome>)
    ensures |outcomes| == |events|
    ensures forall i :: 0 <= i < |events| ==> outcomes[i] == EventOutcome(events[i])
  {
    seq(|events|, i requires 0 <= i < |events| => EventOutcome(events[i]))
  }

  /** The event at position `i` was fetched and scraped. */
  predicate Scraped(events: seq<Fetched>, i: int)
    requires 0 <= i < |events|
  {
    events[i].Page? && Scrape.ScrapeEvent(events[i].page).Success?
  }

  /** The driver over fetched pages: each event is scraped, then the run proceeds as above.
      An event is logged exactly when its request or its scrape raised, once, in input
      order, and there is a table exactly when some event scraped. */
  function RunOnPages(events: seq<Fetched>): (b: BatchResult)
    ensures forall i :: 0 <= i < |events| ==> (i in b.failed <==> !Scraped(events, i))
    ensures forall k :: 0 <= k < |b.failed| ==> b.failed[k] < |events|
    ensures forall k, l :: 0 <= k < l < |b.failed| ==> b.failed[k] < b.failed[l]
    ensures b.table.Some? <==> exists i :: 0 <= i < |events| && Scraped(events, i)
    ensures b.table.Some? ==> b.table.value == CleanRows(Flatten(Survivors(Outcomes(events))))
  {
    var outcomes := Outcomes(events);
    assert forall i :: 0 <= i < |events| ==> (outcomes[i].Success? <==> Scraped(events, i));
    RunBatch(outcomes)
  }

  // ---------------------------------------------------------------------------
  // Properties
  // ---------------------------------------------------------------------------

  /** Survivors of a concatenated list are the survivors of each part, in order. */
  lemma {:induction false} SurvivorsAppend(a: seq<Outcome>, b: seq<Outcome>)
    ensures Survivors(a + b) == Survivors(a) + Survivors(b)
    decreases |a|
  {
    if |a| == 0 {
      assert a + b == b;
    } else {
      var ab := a + b;
      assert ab[0] == a[0];
      assert ab[1..] == a[1..] + b;
      SurvivorsAppend(a[1..], b);
      var head := if a[0].Success? then [a[0].value] else [];
      assert Survivors(ab) == head + Survivors(a[1..] + b);
      assert Survivors(a) == head + Survivors(a[1..]);
      AppendAssoc(head, Survivors(a[1..]), Survivors(b));
    }
  }

  /** `sets` are the values of `outcomes` at the strictly increasing positions `idx`, and
      a position is among them exactly when its event scraped. */
  ghost predicate SurvivorsAt(outcomes: seq<Outcome>, sets: seq<seq<Scrape.Row>>, idx: seq<int>) {
    && |idx| == |sets|
    && (forall k :: 0 <= k < |idx| ==>
          0 <= idx[k] < |outcomes| && outcomes[idx[k]].Success? && sets[k] == outcomes[idx[k]].value)
    && (forall k, l :: 0 <= k < l < |idx| ==> idx[k] < idx[l])
    && (forall i :: 0 <= i < |outcomes| ==> (i in idx <==> outcomes[i].Success?))
  }

  /** Which row sets survive: those of the events that scraped, each once, in input
      order. */
  lemma {:induction false} SurvivorsPositions(outcomes: seq<Outcome>) returns (idx: seq<int>)
    ensures SurvivorsAt(outcomes, Survivors(outcomes), idx)
    decreases |outcomes|
  {
    if |outcomes| == 0 {
      idx := [];
    } else {
      var n := |outcomes| - 1;
      var init := outcomes[..n];
      var last := outcomes[n];
      var pidx := SurvivorsPositions(init);
      assert outcomes == init + [last];
      SurvivorsAppend(init, [last]);
      assert Survivors([last]) == (if last.Success? then [last.value] else []) by {
        assert [last][1..] == [];
      }
      idx := SnocPositions(init, last, Survivors(init), pidx);
    }
  }

  /** One step of `SurvivorsPositions`: the positions found so far, with the new last
      position added when the last event scraped. */
  lemma SnocPositions(init: seq<Outcome>, o: Outcome, front: seq<seq<Scrape.Row>>, pidx: seq<int>)
    returns (idx: seq<int>)
    requires SurvivorsAt(init, front, pidx)
    ensures SurvivorsAt(init + [o], front + (if o.Success? then [o.value] else []), idx)
  {
    var outcomes := init + [o];
    assert forall i :: 0 <= i < |init| ==> outcomes[i] == init[i];
    if o.Success? {
      idx := pidx + [|init|];
    } else {
      idx := pidx;
      assert front + [] == front;
    }
  }

  /** Over fetched pages, the row sets in the table are the scraper's rows of the events
      that were fetched and scraped, each once, in input order. */
  lemma RunOnPagesPositions(events: seq<Fetched>) returns (idx: seq<int>)
    ensures |idx| == |Survivors(Outcomes(events))|
    ensures forall k :: 0 <= k < |idx| ==>
      && 0 <= idx[k] < |events|
      && Scraped(events, idx[k])
      && Survivors(Outcomes(events))[k] == Scrape.ScrapeEvent(events[idx[k]].page).value
    ensures forall k, l :: 0 <= k < l < |idx| ==> idx[k] < idx[l]
    ensures forall i :: 0 <= i < |events| ==> (i in idx <==> Scraped(events, i))
  {
    idx := SurvivorsPositions(Outcomes(events));
  }

  /** The rows of a run over two lists of events laid end to end are the rows of the
      first list followed by the rows of the second: the concatenation keeps event order
      and rows of different events never mix. */
  lemma RowsOfAppend(a: seq<Outcome>, b: seq<Outcome>)
    ensures Flatten(Survivors(a + b)) == Flatten(Survivors(a)) + Flatten(Survivors(b))
  {
    SurvivorsAppend(a, b);
    FlattenAppend(Survivors(a), Survivors(b));
  }

  /** An event that raised contributes nothing: dropping it from the input changes
      neither the table nor whether there is one. */
  lemma FailedEventContributesNothing(a: seq<Outcome>, f: Outcome, b: seq<Outcome>)
    requires f.Failure?
    ensures RunBatch(a + [f] + b).table == RunBatch(a + b).table
  {
    SurvivorsAppend(a + [f], b);
    SurvivorsAppend(a, [f]);
    SurvivorsAppend(a, b);
    assert Survivors([f]) == [] by {
      assert [f][1..] == [];
    }
    assert Survivors(a + [f]) == Survivors(a);
  }

  /** Three events of which the middle one raises: one logged failure, at position 1,
      and a table holding the rows of the first event followed by those of the third. */
  lemma MiddleEventFails(e1: Outcome, e2: Outcome, e3: Outcome)
    requires e1.Success? && e2.Failure? && e3.Success?
    ensures RunBatch([e1, e2, e3]).failed == [1]
    ensures RunBatch([e1, e2, e3]).table == Some(CleanRows(e1.value + e3.value))
  {
    var es := [e1, e2, e3];
    MiddleEventRows(e1, e2, e3);
    MiddleEventLogged(e1, e2, e3);
    assert |Survivors(es)| == 2;
    assert RunBatch(es).table == Some(CleanRows(Flatten(Survivors(es))));
  }

  /** The rows of the three-event batch: the first event's then the third's. */
  lemma MiddleEventRows(e1: Outcome, e2: Outcome, e3: Outcome)
    requires e1.Success? && e2.Failure? && e3.Success?
    ensures Survivors([e1, e2, e3]) == [e1.value, e3.value]
    ensures Flatten(Survivors([e1, e2, e3])) == e1.value + e3.value
  {
    var es := [e1, e2, e3];
    assert es[1..] == [e2, e3];
    assert es[1..][1..] == [e3];
    assert es[1..][1..][1..] == [];
    assert Survivors([e3]) == [e3.value];
    assert Survivors([e2, e3]) == [e3.value];
    FlattenSingle(e3.value);
    assert [e1.value, e3.value][1..] == [e3.value];
  }

  /** The failures of the three-event batch: the middle one alone. */
  lemma MiddleEventLogged(e1: Outcome, e2: Outcome, e3: Outcome)
    requires e1.Success? && e2.Failure? && e3.Success?
    ensures FailedFrom([e1, e2, e3], 0) == [1]
  {
    var es := [e1, e2, e3];
    assert FailedFrom(es, 3) == [];
    assert FailedFrom(es, 2) == [];
    assert FailedFrom(es, 1) == [1];
  }

  /** Every event failing (or no event at all) leaves nothing to concatenate, and every
      one of them is logged. */
  lemma AllFailedHasNoTable(outcomes: seq<Outcome>)
    requires forall i :: 0 <= i < |outcomes| ==> outcomes[i].Failure?
    ensures RunBatch(outcomes).table == None
    ensures |RunBatch(outcomes).failed| == |outcomes|
  {
    AllFailedAllLogged(outcomes, 0);
  }

  lemma {:induction false} AllFailedAllLogged(outcomes: seq<Outcome>, from: nat)
    requires from <= |outcomes|
    requires forall i :: 0 <= i < |outcomes| ==> outcomes[i].Failure?
    ensures |FailedFrom(outcomes, from)| == |outcomes| - from
    decreases |outcomes| - from
  {
    if from < |outcomes| {
      AllFailedAllLogged(outcomes, from + 1);
      var rest := FailedFrom(outcomes, from + 1);
      assert outcomes[from].Failure?;
      assert FailedFrom(outcomes, from) == [from] + rest;
      assert |[from] + rest| == 1 + |rest|;
    }
  }

  /** Scraped scores are already free of no-break spaces (the score normalisation
      treats U+00A0 as whitespace), so the final rewrite leaves them as scraped. */
  lemma CleanKeepsScores(page: Scrape.EventPage)
    requires Scrape.ScrapeEvent(page).Success?
    ensures forall k :: 0 <= k < |Scrape.ScrapeEvent(page).value| ==>
      CleanRow(Scrape.ScrapeEvent(page).value[k]).score == Scrape.ScrapeEvent(page).value[k].score
  {
    var rows := Scrape.ScrapeEvent(page).value;
    forall k | 0 <= k < |rows|
      ensures CleanRow(rows[k]).score == rows[k].score
    {
      NormalizedHasNoNbsp(rows[k].score);
      ReplaceNbspIdempotent(rows[k].score);
    }
  }
}
