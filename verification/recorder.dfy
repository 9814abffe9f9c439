/**
 * What the two recorder services have in common: the roster lookup, the
 * swipes table, the mail outbox and the daily summary (the rows stored in the
 * last day, left-joined with the roster).
 *
 * The SQLite table is a sequence of rows in insertion order, the roster CSV a
 * sequence of residents reloaded on every call (so it is a parameter of each
 * operation), and timestamps are integer seconds. The mail API is an outbox:
 * every message handed to it is appended, and whether it answered 200 is an
 * input.
 */
module Recorder {
  import opened Wrappers

  type Id = string

  /** An instant, in seconds. */
  type Time = int

  /** `timedelta(days=1)`. */
  const Day: int := 86400

  /** A row of the roster CSV. */
  datatype Resident = Resident(id: Id, name: string, email: string)

  /** A row of the `swipes` table. */
  datatype SwipeRow = SwipeRow(id: Id, time: Time)

  /** A row of the summary: the swipe and the roster columns, null when the
      roster has no such id. */
  datatype SummaryRow = SummaryRow(id: Id, time: Time, name: Option<string>, email: Option<string>)

  datatype Attachment = Attachment(fileName: string, rows: seq<SummaryRow>)

  datatype Email =
    | Confirmation(to: string, name: string, id: Id, time: Time)
    | Summary(to: string, attachments: seq<Attachment>)

  /** What an endpoint answers. */
  datatype Response =
    | Recorded     // 200, "Swipe recorded and email sent"
    | SummarySent  // 200, "Summary sent successfully"
    | NotFound     // 404, "Badge ID not found"
    | MailFailed   // 500, "Failed to send email"
    | ServerError  // 500, an exception the handler does not catch

  /** The table and the outbox. */
  datatype ServerState = ServerState(swipes: seq<SwipeRow>, outbox: seq<Email>)

  // ---------------------------------------------------------------------
  // Roster lookup

  predicate Known(roster: seq<Resident>, id: Id)
  {
    exists j :: 0 <= j < |roster| && roster[j].id == id
  }

  /** Position of the first roster row with this id, or `|roster|`. */
  function FirstMatchIndex(roster: seq<Resident>, id: Id): (k: nat)
    ensures k <= |roster|
    ensures k < |roster| ==> roster[k].id == id
    ensures forall j :: 0 <= j < k ==> roster[j].id != id
  {
    if roster == [] || roster[0].id == id then 0 else 1 + FirstMatchIndex(roster[1..], id)
  }

  /** `r[r['id'] == id]`: the roster rows with this id, in roster order. */
  function Matches(roster: seq<Resident>, id: Id): (m: seq<Resident>)
    ensures |m| <= |roster|
    ensures forall r :: r in m <==> r in roster && r.id == id
  {
    if roster == [] then []
    else if roster[0].id == id then [roster[0]] + Matches(roster[1..], id)
    else Matches(roster[1..], id)
  }

  /** The row a confirmation goes to (`.iloc[0]` of the matches) is the first
      roster row with the id; there is none exactly when the id is unknown. */
  lemma MatchesHead(roster: seq<Resident>, id: Id)
    ensures Matches(roster, id) == [] <==> !Known(roster, id)
    ensures Known(roster, id) <==> FirstMatchIndex(roster, id) < |roster|
    ensures Known(roster, id) ==> Matches(roster, id)[0] == roster[FirstMatchIndex(roster, id)]
  {
    var m, k := Matches(roster, id), FirstMatchIndex(roster, id);
    if Known(roster, id) {
      var j :| 0 <= j < |roster| && roster[j].id == id;
      assert roster[j] in m;
      FirstMatchIsHead(roster, id);
    }
  }

  /** When the id is in the roster, the filter starts with its first row. */
  lemma {:induction false} FirstMatchIsHead(roster: seq<Resident>, id: Id)
    requires FirstMatchIndex(roster, id) < |roster|
    ensures Matches(roster, id) != [] && Matches(roster, id)[0] == roster[FirstMatchIndex(roster, id)]
  {
    if roster[0].id != id {
      FirstMatchIsHead(roster[1..], id);
    }
  }

  predicate UniqueIds(roster: seq<Resident>)
  {
    forall i, j :: 0 <= i < j < |roster| ==> roster[i].id != roster[j].id
  }

  /** With unique ids, an id matches one row or none. */
  lemma {:induction false} MatchesUnique(roster: seq<Resident>, id: Id)
    requires UniqueIds(roster)
    ensures Matches(roster, id) ==
      if Known(roster, id) then [roster[FirstMatchIndex(roster, id)]] else []
  {
    MatchesHead(roster, id);
    if roster != [] {
      assert UniqueIds(roster[1..]) by {
        forall i, j | 0 <= i < j < |roster[1..]|
          ensures roster[1..][i].id != roster[1..][j].id
        {
          assert roster[1..][i] == roster[i + 1] && roster[1..][j] == roster[j + 1];
        }
      }
      MatchesUnique(roster[1..], id);
      MatchesHead(roster[1..], id);
      if roster[0].id != id && Known(roster, id) {
        var j :| 0 <= j < |roster| && roster[j].id == id;
        assert roster[1..][j - 1].id == id;
      }
    }
  }

  // ---------------------------------------------------------------------
  // The summary

  /** `SELECT ... FROM swipes WHERE timestamp > cutoff`, in table order. */
  function SelectSince(swipes: seq<SwipeRow>, cutoff: Time): (r: seq<SwipeRow>)
    ensures |r| <= |swipes|
    ensures forall s :: s in r <==> s in swipes && s.time > cutoff
  {
    if swipes == [] then []
    else if swipes[0].time > cutoff then [swipes[0]] + SelectSince(swipes[1..], cutoff)
    else SelectSince(swipes[1..], cutoff)
  }

  lemma {:induction false} SelectSinceAppend(a: seq<SwipeRow>, b: seq<SwipeRow>, cutoff: Time)
    ensures SelectSince(a + b, cutoff) == SelectSince(a, cutoff) + SelectSince(b, cutoff)
  {
    if a != [] {
      assert (a + b)[1..] == a[1..] + b;
      SelectSinceAppend(a[1..], b, cutoff);
    } else {
      assert a + b == b;
    }
  }

  /** The summary rows one swipe yields in a left merge: one per matching
      roster row, or a single row with null roster columns. */
  function JoinSwipe(s: SwipeRow, roster: seq<Resident>): (r: seq<SummaryRow>)
    ensures |r| >= 1
    ensures forall i :: 0 <= i < |r| ==> r[i].id == s.id && r[i].time == s.time
  {
    var m := Matches(roster, s.id);
    if m == [] then [SummaryRow(s.id, s.time, None, None)]
    else seq(|m|, i requires 0 <= i < |m| => SummaryRow(s.id, s.time, Some(m[i].name), Some(m[i].email)))
  }

  /** `swipes.merge(roster, on=id, how='left')`, keeping the swipes' order. */
  function LeftJoin(swipes: seq<SwipeRow>, roster: seq<Resident>): (r: seq<SummaryRow>)
    ensures |r| >= |swipes|
    ensures r == [] <==> swipes == []
  {
    if swipes == [] then [] else JoinSwipe(swipes[0], roster) + LeftJoin(swipes[1..], roster)
  }

  /** The left join works swipe by swipe. */
  lemma {:induction false} LeftJoinAppend(a: seq<SwipeRow>, b: seq<SwipeRow>, roster: seq<Resident>)
    ensures LeftJoin(a + b, roster) == LeftJoin(a, roster) + LeftJoin(b, roster)
  {
    if a == [] {
      assert a + b == b;
    } else {
      assert (a + b)[1..] == a[1..] + b;
      LeftJoinAppend(a[1..], b, roster);
    }
  }

  /** The summary a request at `now` produces from this table and roster. */
  function DailySummary(swipes: seq<SwipeRow>, roster: seq<Resident>, now: Time): (r: seq<SummaryRow>)
    ensures |r| >= |SelectSince(swipes, now - Day)|
    ensures r == [] <==> forall s :: s in swipes ==> s.time <= now - Day
  {
    LeftJoin(SelectSince(swipes, now - Day), roster)
  }

  /** A left join drops no swipe: each one keeps at least one row. */
  lemma {:induction false} LeftJoinKeepsEverySwipe(swipes: seq<SwipeRow>, roster: seq<Resident>, i: nat)
    requires i < |swipes|
    ensures exists j :: 0 <= j < |LeftJoin(swipes, roster)|
              && LeftJoin(swipes, roster)[j].id == swipes[i].id
              && LeftJoin(swipes, roster)[j].time == swipes[i].time
  {
    var head := JoinSwipe(swipes[0], roster);
    if i == 0 {
      assert LeftJoin(swipes, roster)[0] == head[0];
    } else {
      LeftJoinKeepsEverySwipe(swipes[1..], roster, i - 1);
      var j :| 0 <= j < |LeftJoin(swipes[1..], roster)|
               && LeftJoin(swipes[1..], roster)[j].id == swipes[i].id
               && LeftJoin(swipes[1..], roster)[j].time == swipes[i].time;
      assert LeftJoin(swipes, roster)[|head| + j] == LeftJoin(swipes[1..], roster)[j];
    }
  }

  /** A left join invents nothing: every row is a stored swipe, its roster
      columns are null exactly when the id is unknown, and otherwise come
      from a roster row with that id. */
  lemma {:induction false} LeftJoinRowsFromSwipes(swipes: seq<SwipeRow>, roster: seq<Resident>, j: nat)
    requires j < |LeftJoin(swipes, roster)|
    ensures var row := LeftJoin(swipes, roster)[j];
      && SwipeRow(row.id, row.time) in swipes
      && (row.name.None? <==> !Known(roster, row.id))
      && row.name.None? == row.email.None?
      && (row.name.Some? ==> Resident(row.id, row.name.value, row.email.value) in roster)
  {
    var s := swipes[0];
    var head := JoinSwipe(s, roster);
    MatchesHead(roster, s.id);
    if j < |head| {
      var row := head[j];
      assert LeftJoin(swipes, roster)[j] == row;
      var m := Matches(roster, s.id);
      if m != [] {
        assert m[j] in m;
        assert m[j] == Resident(row.id, row.name.value, row.email.value);
      }
    } else {
      LeftJoinRowsFromSwipes(swipes[1..], roster, j - |head|);
      assert LeftJoin(swipes, roster)[j] == LeftJoin(swipes[1..], roster)[j - |head|];
    }
  }

  /** Every row of a summary is a stored swipe from the last day. */
  lemma SummaryWithinDay(swipes: seq<SwipeRow>, roster: seq<Resident>, now: Time)
    ensures var r := DailySummary(swipes, roster, now);
      forall j :: 0 <= j < |r| ==> SwipeRow(r[j].id, r[j].time) in swipes && r[j].time > now - Day
  {
    var r := DailySummary(swipes, roster, now);
    forall j | 0 <= j < |r|
      ensures SwipeRow(r[j].id, r[j].time) in swipes && r[j].time > now - Day
    {
      LeftJoinRowsFromSwipes(SelectSince(swipes, now - Day), roster, j);
    }
  }

  /** The roster columns of one swipe, from its first roster row. */
  function Enrich(s: SwipeRow, roster: seq<Resident>): SummaryRow
  {
    var k := FirstMatchIndex(roster, s.id);
    if k < |roster| then SummaryRow(s.id, s.time, Some(roster[k].name), Some(roster[k].email))
    else SummaryRow(s.id, s.time, None, None)
  }

  /** With unique roster ids the summary has exactly one row per swipe, in the
      same order, with the swipe's roster columns or nulls. */
  lemma {:induction false} LeftJoinOneRowPerSwipe(swipes: seq<SwipeRow>, roster: seq<Resident>)
    requires UniqueIds(roster)
    ensures |LeftJoin(swipes, roster)| == |swipes|
    ensures forall i :: 0 <= i < |swipes| ==> LeftJoin(swipes, roster)[i] == Enrich(swipes[i], roster)
  {
    if swipes != [] {
      MatchesUnique(roster, swipes[0].id);
      MatchesHead(roster, swipes[0].id);
      assert JoinSwipe(swipes[0], roster) == [Enrich(swipes[0], roster)];
      LeftJoinOneRowPerSwipe(swipes[1..], roster);
      forall i | 0 <= i < |swipes|
        ensures LeftJoin(swipes, roster)[i] == Enrich(swipes[i], roster)
      {
        if i > 0 {
          assert LeftJoin(swipes, roster)[i] == LeftJoin(swipes[1..], roster)[i - 1];
          assert swipes[1..][i - 1] == swipes[i];
        }
      }
    }
  }

  // ---------------------------------------------------------------------
  // `send_summary`, common to both services

  /** Writes the report into the two attachments, mails it once to the
      summary recipient, and leaves the table alone. */
  function AfterSummary(st: ServerState, roster: seq<Resident>, now: Time, recipient: string,
                        xlsxName: string, csvName: string, mailOk: bool): (r: (ServerState, Response))
    ensures r.0.swipes == st.swipes
    ensures |r.0.outbox| == |st.outbox| + 1 && r.0.outbox[..|st.outbox|] == st.outbox
    ensures r.1 == SummarySent || r.1 == MailFailed
  {
    var report := DailySummary(st.swipes, roster, now);
    var mail := Summary(recipient, [Attachment(xlsxName, report), Attachment(csvName, report)]);
    (st.(outbox := st.outbox + [mail]), if mailOk then SummarySent else MailFailed)
  }

  /** The summary sends exactly one message, carrying the report twice, even
      when no swipe falls in the last day; it never changes the table. */
  lemma SummarySendsOnce(st: ServerState, roster: seq<Resident>, now: Time, recipient: string,
                         xlsxName: string, csvName: string, mailOk: bool)
    ensures var (st', resp) := AfterSummary(st, roster, now, recipient, xlsxName, csvName, mailOk);
      && st'.swipes == st.swipes
      && |st'.outbox| == |st.outbox| + 1 && st'.outbox[..|st.outbox|] == st.outbox
      && st'.outbox[|st.outbox|].Summary?
      && st'.outbox[|st.outbox|].to == recipient
      && |st'.outbox[|st.outbox|].attachments| == 2
      && (SelectSince(st.swipes, now - Day) == [] ==>
            forall a :: a in st'.outbox[|st.outbox|].attachments ==> a.rows == [])
      && (resp == SummarySent <==> mailOk)
  {
  }

  /** A swipe stored at `t` appears in the summary requested at `now` when
      `t` lies within the day before `now`: the summary's last selected
      swipe is the one just stored. */
  lemma StoredSwipeInNextSummary(swipes: seq<SwipeRow>, s: SwipeRow, now: Time)
    requires now - Day < s.time
    ensures SelectSince(swipes + [s], now - Day) == SelectSince(swipes, now - Day) + [s]
  {
    SelectSinceAppend(swipes, [s], now - Day);
  }
}
