/**
 * The two recorder services side by side. They differ in one ordering
 * choice: checking the roster before or after the insert. Both send the same
 * mails and give the same answers; only the table differs, and only by the
 * rows of unknown ids.
 */
module Variants {
  import opened Wrappers
  import opened Recorder
  import LookupFirst
  import InsertFirst

  /** One call of `/swipe`: the id, the server's clock, the mail API's answer. */
  datatype SwipeRequest = SwipeRequest(id: Id, now: Time, mailOk: bool)

  /** For a known id the two orderings agree on everything. */
  lemma KnownIdSameEffect(st: ServerState, roster: seq<Resident>, id: Id, now: Time, mailOk: bool)
    requires Known(roster, id)
    ensures LookupFirst.AfterSwipe(st, roster, id, now, mailOk)
         == InsertFirst.AfterSwipe(st, roster, id, now, mailOk)
  {
    MatchesHead(roster, id);
  }

  /** For an unknown id both answer 404 and mail nothing, but only the
      insert-first service keeps the row. */
  lemma UnknownIdDiffers(st: ServerState, roster: seq<Resident>, id: Id, now: Time, mailOk: bool)
    requires !Known(roster, id)
    ensures var (lookup, r1) := LookupFirst.AfterSwipe(st, roster, id, now, mailOk);
            var (insert, r2) := InsertFirst.AfterSwipe(st, roster, id, now, mailOk);
      && r1 == r2 == NotFound
      && lookup == st
      && insert == ServerState(st.swipes + [SwipeRow(id, now)], st.outbox)
  {
    MatchesHead(roster, id);
  }

  function LookupFirstRun(st: ServerState, roster: seq<Resident>, reqs: seq<SwipeRequest>): ServerState
    decreases |reqs|
  {
    if reqs == [] then st
    else
      var (st', _) := LookupFirst.AfterSwipe(st, roster, reqs[0].id, reqs[0].now, reqs[0].mailOk);
      LookupFirstRun(st', roster, reqs[1..])
  }

  function InsertFirstRun(st: ServerState, roster: seq<Resident>, reqs: seq<SwipeRequest>): ServerState
    decreases |reqs|
  {
    if reqs == [] then st
    else
      var (st', _) := InsertFirst.AfterSwipe(st, roster, reqs[0].id, reqs[0].now, reqs[0].mailOk);
      InsertFirstRun(st', roster, reqs[1..])
  }

  /** The rows the requests ask to store, in order. */
  function RequestedRows(reqs: seq<SwipeRequest>): seq<SwipeRow>
  {
    if reqs == [] then [] else [SwipeRow(reqs[0].id, reqs[0].now)] + RequestedRows(reqs[1..])
  }

  /** The rows of the requests whose id the roster knows, in order. */
  function KnownRows(roster: seq<Resident>, reqs: seq<SwipeRequest>): seq<SwipeRow>
  {
    if reqs == [] then []
    else if Known(roster, reqs[0].id) then [SwipeRow(reqs[0].id, reqs[0].now)] + KnownRows(roster, reqs[1..])
    else KnownRows(roster, reqs[1..])
  }

  lemma {:induction false} InsertFirstTable(st: ServerState, roster: seq<Resident>, reqs: seq<SwipeRequest>)
    ensures InsertFirstRun(st, roster, reqs).swipes == st.swipes + RequestedRows(reqs)
    decreases |reqs|
  {
    if reqs != [] {
      var r := reqs[0];
      var (st', _) := InsertFirst.AfterSwipe(st, roster, r.id, r.now, r.mailOk);
      InsertFirst.SwipeEffect(st, roster, r.id, r.now, r.mailOk);
      InsertFirstTable(st', roster, reqs[1..]);
    }
  }

  lemma {:induction false} LookupFirstTable(st: ServerState, roster: seq<Resident>, reqs: seq<SwipeRequest>)
    ensures LookupFirstRun(st, roster, reqs).swipes == st.swipes + KnownRows(roster, reqs)
    decreases |reqs|
  {
    if reqs != [] {
      var r := reqs[0];
      var (st', _) := LookupFirst.AfterSwipe(st, roster, r.id, r.now, r.mailOk);
      LookupFirst.SwipeEffect(st, roster, r.id, r.now, r.mailOk);
      LookupFirstTable(st', roster, reqs[1..]);
    }
  }

  /** Over any run of swipes against one roster: the insert-first table gains
      every requested row, the lookup-first table only those of known ids,
      and both services send exactly the same mails. */
  lemma RunsCompared(st: ServerState, roster: seq<Resident>, reqs: seq<SwipeRequest>)
    ensures InsertFirstRun(st, roster, reqs).swipes == st.swipes + RequestedRows(reqs)
    ensures LookupFirstRun(st, roster, reqs).swipes == st.swipes + KnownRows(roster, reqs)
    ensures LookupFirstRun(st, roster, reqs).outbox == InsertFirstRun(st, roster, reqs).outbox
  {
    InsertFirstTable(st, roster, reqs);
    LookupFirstTable(st, roster, reqs);
    SameMailsFromSameOutbox(st, st, roster, reqs);
  }

  /** The mails a run sends do not depend on the table it starts from. */
  lemma {:induction false} SameMailsFromSameOutbox(a: ServerState, b: ServerState, roster: seq<Resident>,
                                                   reqs: seq<SwipeRequest>)
    requires a.outbox == b.outbox
    ensures InsertFirstRun(a, roster, reqs).outbox == InsertFirstRun(b, roster, reqs).outbox
    ensures LookupFirstRun(a, roster, reqs).outbox == InsertFirstRun(b, roster, reqs).outbox
    decreases |reqs|
  {
    if reqs != [] {
      var r := reqs[0];
      var (a1, _) := InsertFirst.AfterSwipe(a, roster, r.id, r.now, r.mailOk);
      var (b1, _) := InsertFirst.AfterSwipe(b, roster, r.id, r.now, r.mailOk);
      var (l1, _) := LookupFirst.AfterSwipe(a, roster, r.id, r.now, r.mailOk);
      InsertFirst.SwipeEffect(a, roster, r.id, r.now, r.mailOk);
      InsertFirst.SwipeEffect(b, roster, r.id, r.now, r.mailOk);
      LookupFirst.SwipeEffect(a, roster, r.id, r.now, r.mailOk);
      SameMailsFromSameOutbox(a1, b1, roster, reqs[1..]);
      SameMailsFromSameOutbox(l1, b1, roster, reqs[1..]);
    }
  }

  /** Starting from a table of known ids, and with the roster unchanged, the
      lookup-first summary never has a row with null roster columns. */
  lemma LookupFirstSummaryHasNoNullRows(st: ServerState, roster: seq<Resident>, reqs: seq<SwipeRequest>, now: Time)
    requires forall i :: 0 <= i < |st.swipes| ==> Known(roster, st.swipes[i].id)
    ensures var table := LookupFirstRun(st, roster, reqs).swipes;
      forall j :: 0 <= j < |DailySummary(table, roster, now)| ==> DailySummary(table, roster, now)[j].name.Some?
  {
    RunsCompared(st, roster, reqs);
    var table := LookupFirstRun(st, roster, reqs).swipes;
    KnownRowsAreKnown(roster, reqs);
    forall j | 0 <= j < |DailySummary(table, roster, now)|
      ensures DailySummary(table, roster, now)[j].name.Some?
    {
      var selected := SelectSince(table, now - Day);
      LeftJoinRowsFromSwipes(selected, roster, j);
      var row := DailySummary(table, roster, now)[j];
      assert SwipeRow(row.id, row.time) in table;
    }
  }

  lemma {:induction false} KnownRowsAreKnown(roster: seq<Resident>, reqs: seq<SwipeRequest>)
    ensures forall s :: s in KnownRows(roster, reqs) ==> Known(roster, s.id)
  {
    if reqs != [] {
      KnownRowsAreKnown(roster, reqs[1..]);
    }
  }

  /** An unknown badge swiped at the insert-first service within the day
      shows up in its next summary with null roster columns. */
  lemma UnknownBadgeInSummary(st: ServerState, roster: seq<Resident>, id: Id, t: Time, mailOk: bool, now: Time)
    requires !Known(roster, id)
    requires now - Day < t
    ensures var (st', _) := InsertFirst.AfterSwipe(st, roster, id, t, mailOk);
      SummaryRow(id, t, None, None) in DailySummary(st'.swipes, roster, now)
  {
    InsertFirst.SwipeEffect(st, roster, id, t, mailOk);
    StoredSwipeInNextSummary(st.swipes, SwipeRow(id, t), now);
    var selected := SelectSince(st.swipes, now - Day);
    LeftJoinAppend(selected, [SwipeRow(id, t)], roster);
    MatchesHead(roster, id);
    assert LeftJoin([SwipeRow(id, t)], roster) == [SummaryRow(id, t, None, None)];
  }
}
