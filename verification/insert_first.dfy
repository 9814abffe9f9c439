/**
 * The recorder service that stores before checking the roster (server.py):
 * `/swipe` inserts and commits `(badge_id, timestamp)` first, then answers
 * 404 when the roster has no such badge, so an unknown badge is stored all
 * the same; a known one gets a confirmation mail. `/send-summary` mails the
 * last day's swipes left-joined with the roster, as `summary.xlsx` and
 * `summary.csv`.
 */
module InsertFirst {
  import opened Recorder

  /** The summary's attachment names. */
  const SummaryXlsx: string := "summary.xlsx"
  const SummaryCsv: string := "summary.csv"

  /** `/swipe`: insert and commit, then the roster check, then the confirmation. */
  function AfterSwipe(st: ServerState, roster: seq<Resident>, badgeId: Id, now: Time, mailOk: bool)
    : (r: (ServerState, Response))
    ensures r.0.swipes == st.swipes + [SwipeRow(badgeId, now)]
    ensures r.1 == NotFound ==> r.0.outbox == st.outbox
    ensures r.1 != NotFound ==> |r.0.outbox| == |st.outbox| + 1 && r.0.outbox[..|st.outbox|] == st.outbox
  {
    var stored := st.(swipes := st.swipes + [SwipeRow(badgeId, now)]);
    var userData := Matches(roster, badgeId);
    if userData == [] then (stored, NotFound)
    else
      var resident := userData[0];
      (stored.(outbox := st.outbox + [Confirmation(resident.email, resident.name, badgeId, now)]),
       if mailOk then Recorded else MailFailed)
  }

  /** Every call stores exactly one row after the earlier ones, known or not;
      an unknown badge still gets a 404 and no mail; a known one mails the
      first roster row with that badge, and a failed mail does not take the
      row back. */
  lemma SwipeEffect(st: ServerState, roster: seq<Resident>, badgeId: Id, now: Time, mailOk: bool)
    ensures var (st', resp) := AfterSwipe(st, roster, badgeId, now, mailOk);
      && st'.swipes == st.swipes + [SwipeRow(badgeId, now)]
      && (resp == NotFound <==> !Known(roster, badgeId))
      && (!Known(roster, badgeId) ==> st'.outbox == st.outbox)
      && (Known(roster, badgeId) ==>
            var resident := roster[FirstMatchIndex(roster, badgeId)];
            && st'.outbox == st.outbox + [Confirmation(resident.email, resident.name, badgeId, now)]
            && (resp == Recorded <==> mailOk)
            && (resp == MailFailed <==> !mailOk))
  {
    MatchesHead(roster, badgeId);
  }

  class Server {
    const summaryRecipient: string
    var swipes: seq<SwipeRow>
    ghost var outbox: seq<Email>

    ghost function Snapshot(): ServerState
      reads this
    {
      ServerState(swipes, outbox)
    }

    /** Opens the table with whatever rows it already holds. */
    constructor (summaryRecipient: string, swipes: seq<SwipeRow>)
      ensures this.summaryRecipient == summaryRecipient
      ensures Snapshot() == ServerState(swipes, [])
    {
      this.summaryRecipient := summaryRecipient;
      this.swipes := swipes;
      outbox := [];
    }

    method Swipe(roster: seq<Resident>, badgeId: Id, now: Time, mailOk: bool) returns (resp: Response)
      modifies this
      ensures (Snapshot(), resp) == AfterSwipe(old(Snapshot()), roster, badgeId, now, mailOk)
    {
      swipes := swipes + [SwipeRow(badgeId, now)];
      var userData := Matches(roster, badgeId);
      if userData == [] {
        return NotFound;
      }
      var resident := userData[0];
      outbox := outbox + [Confirmation(resident.email, resident.name, badgeId, now)];
      resp := if mailOk then Recorded else MailFailed;
    }

    method SendSummary(roster: seq<Resident>, now: Time, mailOk: bool)
      returns (resp: Response, report: seq<SummaryRow>)
      modifies this
      ensures report == DailySummary(swipes, roster, now)
      ensures (Snapshot(), resp)
           == AfterSummary(old(Snapshot()), roster, now, summaryRecipient, SummaryXlsx, SummaryCsv, mailOk)
    {
      report := LeftJoin(SelectSince(swipes, now - Day), roster);
      var attachments := [Attachment(SummaryXlsx, report), Attachment(SummaryCsv, report)];
      outbox := outbox + [Summary(summaryRecipient, attachments)];
      resp := if mailOk then SummarySent else MailFailed;
    }
  }
}
