/**
 * The recorder service that checks the roster before storing
 * (rad_raspberry/server.py): `/swipe` answers 404 for an unknown `penn_id`
 * and stores nothing; for a known one it stores `(penn_id, now)`, then mails
 * a confirmation to the first roster row with that id. `/send-summary` mails
 * the last day's swipes left-joined with the roster, as a spreadsheet and a
 * CSV file named after the request's time. With no swipe in the last day it
 * fails instead: the timestamp column it reads back is then empty and has
 * no time zone, and converting it to New York time raises before any file is
 * written or any mail is sent.
 */
module LookupFirst {
  import opened Recorder

  /** `/swipe`: roster check, then insert and commit, then the confirmation. */
  function AfterSwipe(st: ServerState, roster: seq<Resident>, pennId: Id, now: Time, mailOk: bool)
    : (r: (ServerState, Response))
    ensures r.1 == NotFound ==> r.0 == st
    ensures r.1 != NotFound ==> (&& r.0.swipes == st.swipes + [SwipeRow(pennId, now)]
                                 && |r.0.outbox| == |st.outbox| + 1
                                 && r.0.outbox[..|st.outbox|] == st.outbox)
  {
    var userData := Matches(roster, pennId);
    if userData == [] then (st, NotFound)
    else
      var resident := userData[0];
      (ServerState(st.swipes + [SwipeRow(pennId, now)],
                   st.outbox + [Confirmation(resident.email, resident.name, pennId, now)]),
       if mailOk then Recorded else MailFailed)
  }

  /** An unknown id is refused before anything is stored or sent; a known id
      stores exactly one row after the earlier ones, mails the first roster
      row with that id, and keeps the row even when the mail fails. */
  lemma SwipeEffect(st: ServerState, roster: seq<Resident>, pennId: Id, now: Time, mailOk: bool)
    ensures var (st', resp) := AfterSwipe(st, roster, pennId, now, mailOk);
      && (resp == NotFound <==> !Known(roster, pennId))
      && (!Known(roster, pennId) ==> st' == st)
      && (Known(roster, pennId) ==>
            var resident := roster[FirstMatchIndex(roster, pennId)];
            && st'.swipes == st.swipes + [SwipeRow(pennId, now)]
            && st'.outbox == st.outbox + [Confirmation(resident.email, resident.name, pennId, now)]
            && (resp == Recorded <==> mailOk)
            && (resp == MailFailed <==> !mailOk))
  {
    MatchesHead(roster, pennId);
  }

  /** `/send-summary`: the empty selection raises at the time-zone
      conversion; otherwise the summary is written and mailed. */
  function AfterSendSummary(st: ServerState, roster: seq<Resident>, now: Time, recipient: string,
                            stamp: string, mailOk: bool): (r: (ServerState, Response))
    ensures r.0.swipes == st.swipes
    ensures r.1 == ServerError ==> r.0 == st
  {
    if SelectSince(st.swipes, now - Day) == [] then (st, ServerError)
    else AfterSummary(st, roster, now, recipient, stamp + ".xlsx", stamp + ".csv", mailOk)
  }

  /** A summary request fails, with nothing written or sent, exactly when no
      stored swipe is later than a day before it; otherwise it sends one
      mail to the recipient carrying a non-empty report twice. */
  lemma SummaryEffect(st: ServerState, roster: seq<Resident>, now: Time, recipient: string,
                      stamp: string, mailOk: bool)
    ensures var (st', resp) := AfterSendSummary(st, roster, now, recipient, stamp, mailOk);
      && st'.swipes == st.swipes
      && (resp == ServerError <==> forall s :: s in st.swipes ==> s.time <= now - Day)
      && (resp == ServerError ==> st' == st)
      && (resp != ServerError ==>
            var report := DailySummary(st.swipes, roster, now);
            && report != []
            && st'.outbox == st.outbox + [Summary(recipient, [Attachment(stamp + ".xlsx", report),
                                                              Attachment(stamp + ".csv", report)])]
            && (resp == SummarySent <==> mailOk)
            && (resp == MailFailed <==> !mailOk))
  {
    var selected := SelectSince(st.swipes, now - Day);
    if selected != [] {
      assert selected[0] in selected;
    }
  }

  class Server {
    const summaryRecipient: string
    var swipes: seq<SwipeRow>
    ghost var outbox: seq<Email>

    ghost function Snapshot(): ServerState
      reads this
    {
      ServerState(swipes, outbox)
    }

    /** Opens the table with whatever rows it already holds. */
    constructor (summaryRecipient: string, swipes: seq<SwipeRow>)
      ensures this.summaryRecipient == summaryRecipient
      ensures Snapshot() == ServerState(swipes, [])
    {
      this.summaryRecipient := summaryRecipient;
      this.swipes := swipes;
      outbox := [];
    }

    method Swipe(roster: seq<Resident>, pennId: Id, now: Time, mailOk: bool) returns (resp: Response)
      modifies this
      ensures (Snapshot(), resp) == AfterSwipe(old(Snapshot()), roster, pennId, now, mailOk)
    {
      var userData := Matches(roster, pennId);
      if userData == [] {
        return NotFound;
      }
      swipes := swipes + [SwipeRow(pennId, now)];
      var resident := userData[0];
      outbox := outbox + [Confirmation(resident.email, resident.name, pennId, now)];
      resp := if mailOk then Recorded else MailFailed;
    }

    /** `/send-summary`; `stamp` is the request time as the file names show it. */
    method SendSummary(roster: seq<Resident>, now: Time, stamp: string, mailOk: bool)
      returns (resp: Response, report: seq<SummaryRow>)
      modifies this
      ensures report == DailySummary(swipes, roster, now)
      ensures (Snapshot(), resp) == AfterSendSummary(old(Snapshot()), roster, now, summaryRecipient, stamp, mailOk)
    {
      var selected := SelectSince(swipes, now - Day);
      report := LeftJoin(selected, roster);
      if selected == [] {
        return ServerError, report;
      }
      var attachments := [Attachment(stamp + ".xlsx", report), Attachment(stamp + ".csv", report)];
      outbox := outbox + [Summary(summaryRecipient, attachments)];
      resp := if mailOk then SummarySent else MailFailed;
    }
  }
}
