/**
 * The stand-alone capture station (main.py): a loop that, during the daily
 * operating window, reads one swipe with a timeout and appends the badge and
 * a timestamp to a local CSV file, and outside the window runs the pending
 * scheduled job, which mails the file and resets it to its header.
 *
 * The clock is an integer number of microseconds since midnight (Python's
 * `datetime` carries microseconds; the window edges have theirs zeroed). The
 * timed read, the timestamp's text, whether the scheduler has a send due and
 * whether the mail server accepts the message are all inputs of a tick.
 */
module CaptureStation {
  import opened Strings
  import opened Wrappers

  /** A row as `csv.writer` writes it. */
  type Row = seq<string>

  /** The row `send_email` leaves in a fresh file. */
  const Header: Row := ["Badge ID", "Badge Swipe Time"]

  /** What the timed read returns when nobody swipes in time. */
  const TimeoutSentinel: string := "TIMEOUT"

  const MicrosPerMinute: nat := 60 * 1000000
  const MicrosPerDay: nat := 24 * 60 * MicrosPerMinute

  /** An instant of today, in microseconds since midnight. */
  type Instant = nat

  // ---------------------------------------------------------------------
  // Opening and closing times, "HH:MM"

  predicate IsDigits(s: string)
  {
    forall i :: 0 <= i < |s| ==> '0' <= s[i] <= '9'
  }

  function DigitsValue(s: string): nat
    requires IsDigits(s)
  {
    if s == [] then 0 else 10 * DigitsValue(s[..|s| - 1]) + (s[|s| - 1] as int - '0' as int)
  }

  /** Python's `int(s)` on a decimal numeral; anything else raises. */
  function ParseNat(s: string): (r: Option<nat>)
    ensures r.Some? <==> s != [] && IsDigits(s)
  {
    if s != [] && IsDigits(s) then Some(DigitsValue(s)) else None
  }

  /** Today at `hour:minute`, with seconds and microseconds zero. */
  function ClockInstant(hour: nat, minute: nat): (t: Instant)
    requires hour < 24 && minute < 60
    ensures t % MicrosPerMinute == 0 && t < MicrosPerDay
  {
    (60 * hour + minute) * MicrosPerMinute
  }

  /** `now.replace(hour=int(s.split(":")[0]), minute=int(s.split(":")[1]),
      second=0, microsecond=0)`; `None` where Python raises (no `:`, a field
      that is not a numeral, an hour or minute out of range). */
  function ParseClock(s: string): (r: Option<Instant>)
    ensures r.Some? ==> r.value % MicrosPerMinute == 0 && r.value < MicrosPerDay
    ensures ':' !in s ==> r == None
  {
    var parts := Split(s, ':');
    if |parts| < 2 then None
    else
      match (ParseNat(parts[0]), ParseNat(parts[1]))
      case (Some(hour), Some(minute)) =>
        if hour < 24 && minute < 60 then Some(ClockInstant(hour, minute)) else None
      case _ => None
  }

  /** `n` written with two decimal digits, as in "09". */
  function TwoDigits(n: nat): string
    requires n < 100
  {
    [('0' as int + n / 10) as char, ('0' as int + n % 10) as char]
  }

  /** The configuration text "HH:MM". */
  function ClockText(hour: nat, minute: nat): string
    requires hour < 100 && minute < 100
  {
    TwoDigits(hour) + ":" + TwoDigits(minute)
  }

  lemma TwoDigitsValue(n: nat)
    requires n < 100
    ensures ParseNat(TwoDigits(n)) == Some(n)
  {
    var s := TwoDigits(n);
    assert IsDigits(s);
    assert s[..1] == [s[0]] && s[..1][..0] == [];
    assert DigitsValue(s[..1]) == n / 10;
    assert DigitsValue(s) == 10 * (n / 10) + n % 10;
  }

  /** Round trip: the text "HH:MM" of a valid time parses to that time. */
  lemma ParseClockText(hour: nat, minute: nat)
    requires hour < 24 && minute < 60
    ensures ParseClock(ClockText(hour, minute)) == Some(ClockInstant(hour, minute))
  {
    SplitAtFirst(TwoDigits(hour), TwoDigits(minute), ':');
    SplitNoSeparator(TwoDigits(minute), ':');
    TwoDigitsValue(hour);
    TwoDigitsValue(minute);
  }

  /** Today's operating window. */
  datatype Window = Window(open: Instant, close: Instant)

  function TodayWindow(openTime: string, closeTime: string): (r: Option<Window>)
    ensures r.Some? <==> ParseClock(openTime).Some? && ParseClock(closeTime).Some?
    ensures r.Some? ==> (&& r.value.open % MicrosPerMinute == 0 && r.value.open < MicrosPerDay
                         && r.value.close % MicrosPerMinute == 0 && r.value.close < MicrosPerDay)
  {
    match (ParseClock(openTime), ParseClock(closeTime))
    case (Some(open), Some(close)) => Some(Window(open, close))
    case _ => None
  }

  /** Swipes are read only strictly after opening and strictly before closing. */
  predicate Accepting(w: Window, now: Instant)
  {
    w.open < now < w.close
  }

  /** Both edges of a window are closed, the open instants lie strictly
      between them, and a window is open at some instant exactly when its
      closing time is more than one microsecond after its opening time. */
  lemma WindowShape(w: Window)
    ensures !Accepting(w, w.open) && !Accepting(w, w.close)
    ensures forall t: Instant :: Accepting(w, t) ==> w.open < t < w.close
    ensures (exists t: Instant :: Accepting(w, t)) <==> w.open + 1 < w.close
  {
    if w.open + 1 < w.close {
      assert Accepting(w, w.open + 1);
    }
  }

  /** Between two open instants the window stays open. */
  lemma AcceptingBetween(w: Window, a: Instant, b: Instant, c: Instant)
    requires Accepting(w, a) && Accepting(w, c) && a <= b <= c
    ensures Accepting(w, b)
  {
  }

  /** With the window 09:00-17:00, 08:59 and both edges are closed, while the
      first microsecond after 09:00 and 16:59 are open. */
  lemma NineToFive()
    ensures TodayWindow("09:00", "17:00") == Some(Window(ClockInstant(9, 0), ClockInstant(17, 0)))
    ensures var w := TodayWindow("09:00", "17:00").value;
      && !Accepting(w, ClockInstant(8, 59))
      && !Accepting(w, ClockInstant(9, 0))
      && Accepting(w, ClockInstant(9, 0) + 1)
      && Accepting(w, ClockInstant(16, 59))
      && !Accepting(w, ClockInstant(17, 0))
  {
    assert ClockText(9, 0) == "09:00";
    assert ClockText(17, 0) == "17:00";
    ParseClockText(9, 0);
    ParseClockText(17, 0);
  }

  // ---------------------------------------------------------------------
  // What one read yields

  datatype Reading =
    | TimedOut                 // the sentinel: nothing happens
    | Unreadable               // no `=`: the alarm rings
    | Swiped(badgeId: string)  // the second `=`-field, untrimmed

  function Classify(input: string): (r: Reading)
    ensures r == TimedOut <==> input == TimeoutSentinel
    ensures r == Unreadable <==> input != TimeoutSentinel && '=' !in input
    ensures r.Swiped? <==> input != TimeoutSentinel && '=' in input
    ensures r.Swiped? ==> r.badgeId == Before(After(input, '='), '=')
  {
    if input != TimeoutSentinel && '=' !in input then Unreadable
    else if input != TimeoutSentinel then
      SplitHead(input, '=');
      Swiped(Split(input, '=')[1])
    else TimedOut
  }

  // ---------------------------------------------------------------------
  // The attendance file and the loop, as values

  /** `attendance.csv`: missing until the first append or reset creates it. */
  datatype CsvFile = Missing | Present(rows: seq<Row>)

  function Rows(f: CsvFile): seq<Row>
  {
    if f.Present? then f.rows else []
  }

  /** The file and every mail body sent so far. */
  datatype StationState = StationState(file: CsvFile, sent: seq<seq<Row>>)

  /** Inputs of one pass of the loop. */
  datatype TickInput = TickInput(
    now: Instant,       // the clock at the top of the pass
    input: string,      // what the timed read returns
    stamp: string,      // the text of the swipe's timestamp
    sendDue: bool,      // the scheduler holds a due `send_email`
    mailOk: bool)       // the mail server accepts the message

  datatype TickOutcome =
    | ConfigError       // a malformed opening or closing time raises
    | SendFailed        // `send_email` raised: missing file or refused mail
    | Idle              // closed, nothing else happened
    | Mailed            // closed, the log was mailed and reset
    | Ignored           // open, the read timed out
    | Alarm             // open, the input had no `=`
    | Logged(row: Row)  // open, a row was appended

  /** The two outcomes that end the Python process. */
  predicate Fatal(o: TickOutcome)
  {
    o == ConfigError || o == SendFailed
  }

  /** `send_email`: read the file, mail it, then overwrite it with the header. */
  function AfterSend(st: StationState, mailOk: bool): (r: (StationState, bool))
    ensures r.0.file.Present? <==> st.file.Present?
    ensures r.0.sent == st.sent || r.0.sent == st.sent + [Rows(st.file)]
  {
    if st.file.Present? && mailOk then
      (StationState(Present([Header]), st.sent + [st.file.rows]), true)
    else
      (st, false)
  }

  /** One pass of the `while True` loop. */
  function AfterTick(st: StationState, openTime: string, closeTime: string, t: TickInput)
    : (StationState, TickOutcome)
  {
    match TodayWindow(openTime, closeTime)
    case None => (st, ConfigError)
    case Some(w) =>
      if Accepting(w, t.now) then
        match Classify(t.input)
        case TimedOut => (st, Ignored)
        case Unreadable => (st, Alarm)
        case Swiped(badgeId) =>
          (st.(file := Present(Rows(st.file) + [[badgeId, t.stamp]])), Logged([badgeId, t.stamp]))
      else if t.sendDue then
        var (st', ok) := AfterSend(st, t.mailOk);
        (st', if ok then Mailed else SendFailed)
      else
        (st, Idle)
  }

  /** Passes of the loop, until one of them ends the process. */
  function AfterTicks(st: StationState, openTime: string, closeTime: string, ticks: seq<TickInput>)
    : (r: StationState)
    ensures st.sent <= r.sent
    ensures r.file.Missing? ==> st.file.Missing?
    decreases |ticks|
  {
    if ticks == [] then st
    else
      var (st', o) := AfterTick(st, openTime, closeTime, ticks[0]);
      if Fatal(o) then st' else AfterTicks(st', openTime, closeTime, ticks[1..])
  }

  /** Whether one of the passes raises, ending the process before the run is over. */
  function StopsEarly(st: StationState, openTime: string, closeTime: string, ticks: seq<TickInput>)
    : (r: bool)
    ensures r ==> ticks != []
    decreases |ticks|
  {
    if ticks == [] then false
    else
      var (st', o) := AfterTick(st, openTime, closeTime, ticks[0]);
      Fatal(o) || StopsEarly(st', openTime, closeTime, ticks[1..])
  }

  /** The rows the passes append while no send is due. */
  function SwipeRows(w: Window, ticks: seq<TickInput>): seq<Row>
  {
    if ticks == [] then []
    else
      var t := ticks[0];
      var rest := SwipeRows(w, ticks[1..]);
      if Accepting(w, t.now) && '=' in t.input && t.input != TimeoutSentinel then
        [[Before(After(t.input, '='), '='), t.stamp]] + rest
      else rest
  }

  // ---------------------------------------------------------------------
  // Properties of the loop

  /** A successful send mails the rows as they were and leaves only the
      header; a failed one changes nothing. */
  lemma SendMailsThenResets(st: StationState, mailOk: bool)
    ensures var (st', ok) := AfterSend(st, mailOk);
      && (ok <==> st.file.Present? && mailOk)
      && (ok ==> st'.file == Present([Header]) && st'.sent == st.sent + [Rows(st.file)])
      && (!ok ==> st' == st)
  {
  }

  /** Resetting twice leaves one header row, not two. */
  lemma ResetIdempotent(st: StationState)
    requires st.file.Present?
    ensures var (once, _) := AfterSend(st, true);
            var (twice, ok) := AfterSend(once, true);
      ok && twice.file == once.file == Present([Header]) && twice.sent == once.sent + [[Header]]
  {
  }

  /** Any pass: one that raises changes nothing; only a send mails, and it
      mails the rows as they were and leaves the header; every other pass
      keeps the earlier rows and never removes the file. */
  lemma TickFrame(st: StationState, openTime: string, closeTime: string, t: TickInput)
    ensures var (st', o) := AfterTick(st, openTime, closeTime, t);
      && (Fatal(o) ==> st' == st)
      && (o == Mailed ==> st'.sent == st.sent + [Rows(st.file)] && st'.file == Present([Header]))
      && (o != Mailed ==> st'.sent == st.sent && Rows(st.file) <= Rows(st'.file))
      && (st'.file.Missing? ==> st.file.Missing?)
  {
  }

  /** While the window is closed no swipe is read: the input does not matter,
      and the file changes only by a successful send. */
  lemma ClosedTickIgnoresInput(st: StationState, openTime: string, closeTime: string,
                               t: TickInput, other: string)
    requires TodayWindow(openTime, closeTime).Some?
    requires !Accepting(TodayWindow(openTime, closeTime).value, t.now)
    ensures AfterTick(st, openTime, closeTime, t) == AfterTick(st, openTime, closeTime, t.(input := other))
    ensures var (st', o) := AfterTick(st, openTime, closeTime, t);
      && (o == Mailed ==> st'.file == Present([Header]))
      && (o != Mailed ==> st' == st)
      && (o == Mailed || o == Idle || o == SendFailed)
  {
  }

  /** While the window is open nothing is mailed; a timeout changes nothing, an
      input without `=` rings the alarm and changes nothing, and any other
      input appends exactly one row with the untrimmed second field. */
  lemma OpenTick(st: StationState, openTime: string, closeTime: string, t: TickInput)
    requires TodayWindow(openTime, closeTime).Some?
    requires Accepting(TodayWindow(openTime, closeTime).value, t.now)
    ensures var (st', o) := AfterTick(st, openTime, closeTime, t);
      && st'.sent == st.sent
      && (t.input == TimeoutSentinel ==> o == Ignored && st' == st)
      && (t.input != TimeoutSentinel && '=' !in t.input ==> o == Alarm && st' == st)
      && (t.input != TimeoutSentinel && '=' in t.input ==>
            var row := [Before(After(t.input, '='), '='), t.stamp];
            o == Logged(row) && st'.file == Present(Rows(st.file) + [row]))
  {
  }

  /** The first of several passes, with no send due, appends the first rows
      `SwipeRows` gives them, mails nothing and does not end the run. */
  lemma NoSendTick(st: StationState, openTime: string, closeTime: string, ticks: seq<TickInput>)
    returns (st1: StationState, row: seq<Row>)
    requires TodayWindow(openTime, closeTime).Some?
    requires ticks != [] && !ticks[0].sendDue
    ensures var w := TodayWindow(openTime, closeTime).value;
      && SwipeRows(w, ticks) == row + SwipeRows(w, ticks[1..])
      && Rows(st.file) + SwipeRows(w, ticks) == Rows(st1.file) + SwipeRows(w, ticks[1..])
    ensures AfterTicks(st, openTime, closeTime, ticks) == AfterTicks(st1, openTime, closeTime, ticks[1..])
    ensures st1.sent == st.sent && Rows(st1.file) == Rows(st.file) + row
    ensures st1.file.Missing? ==> st.file.Missing? && row == []
  {
    var w := TodayWindow(openTime, closeTime).value;
    var t := ticks[0];
    row := if Accepting(w, t.now) && '=' in t.input && t.input != TimeoutSentinel
           then [[Before(After(t.input, '='), '='), t.stamp]] else [];
    if Accepting(w, t.now) {
      OpenTick(st, openTime, closeTime, t);
    }
    st1 := AfterTick(st, openTime, closeTime, t).0;
    var later := SwipeRows(w, ticks[1..]);
    assert Rows(st.file) + (row + later) == Rows(st.file) + row + later;
  }

  /** Over passes with no send due, the file grows by exactly the rows of the
      swipes read inside the window, in order, and nothing is mailed. */
  lemma {:induction false} NoSendAppendsSwipes(st: StationState, openTime: string, closeTime: string,
                                               ticks: seq<TickInput>)
    requires TodayWindow(openTime, closeTime).Some?
    requires forall i :: 0 <= i < |ticks| ==> !ticks[i].sendDue
    ensures var w := TodayWindow(openTime, closeTime).value;
            var st' := AfterTicks(st, openTime, closeTime, ticks);
      && st'.sent == st.sent
      && Rows(st'.file) == Rows(st.file) + SwipeRows(w, ticks)
      && (st'.file.Missing? ==> st.file.Missing? && SwipeRows(w, ticks) == [])
    decreases |ticks|
  {
    if ticks != [] {
      var w := TodayWindow(openTime, closeTime).value;
      var st1, row := NoSendTick(st, openTime, closeTime, ticks);
      assert forall i :: 0 <= i < |ticks[1..]| ==> !ticks[1..][i].sendDue by {
        forall i | 0 <= i < |ticks[1..]| ensures !ticks[1..][i].sendDue {
          assert ticks[1..][i] == ticks[i + 1];
        }
      }
      NoSendAppendsSwipes(st1, openTime, closeTime, ticks[1..]);
    }
  }

  /** A malformed opening or closing time ends the process at the first
      pass, before anything is read, written or mailed. */
  lemma ConfigErrorStops(st: StationState, openTime: string, closeTime: string, ticks: seq<TickInput>)
    requires TodayWindow(openTime, closeTime).None?
    ensures StopsEarly(st, openTime, closeTime, ticks) <==> ticks != []
    ensures AfterTicks(st, openTime, closeTime, ticks) == st
  {
  }

  /** A run whose passes all read the same well-formed times and never find a
      send due ends only when the run is over. */
  lemma {:induction false} NoSendNeverStops(st: StationState, openTime: string, closeTime: string,
                                            ticks: seq<TickInput>)
    requires TodayWindow(openTime, closeTime).Some?
    requires forall i :: 0 <= i < |ticks| ==> !ticks[i].sendDue
    ensures !StopsEarly(st, openTime, closeTime, ticks)
    decreases |ticks|
  {
    if ticks != [] {
      var (st', o) := AfterTick(st, openTime, closeTime, ticks[0]);
      assert !ticks[0].sendDue;
      assert !Fatal(o);
      NoSendNeverStops(st', openTime, closeTime, ticks[1..]);
    }
  }

  // ---------------------------------------------------------------------
  // The station

  class Station {
    const openTime: string
    const closeTime: string
    var file: CsvFile
    ghost var sent: seq<seq<Row>>

    ghost function Snapshot(): StationState
      reads this
    {
      StationState(file, sent)
    }

    constructor (openTime: string, closeTime: string, file: CsvFile)
      ensures this.openTime == openTime && this.closeTime == closeTime
      ensures Snapshot() == StationState(file, [])
    {
      this.openTime := openTime;
      this.closeTime := closeTime;
      this.file := file;
      sent := [];
    }

    /** `send_email`. */
    method SendEmail(mailOk: bool) returns (ok: bool)
      modifies this
      ensures (Snapshot(), ok) == AfterSend(old(Snapshot()), mailOk)
    {
      if file.Missing? || !mailOk {
        return false;
      }
      sent := sent + [file.rows];
      file := Present([Header]);
      ok := true;
    }

    /** One pass of the main loop. */
    method Tick(t: TickInput) returns (o: TickOutcome)
      modifies this
      ensures (Snapshot(), o) == AfterTick(old(Snapshot()), openTime, closeTime, t)
    {
      var window := TodayWindow(openTime, closeTime);
      if window.None? {
        return ConfigError;
      }
      if Accepting(window.value, t.now) {
        var reading := Classify(t.input);
        match reading {
          case TimedOut => o := Ignored;
          case Unreadable => o := Alarm;
          case Swiped(badgeId) =>
            var row := [badgeId, t.stamp];
            file := Present(Rows(file) + [row]);
            o := Logged(row);
        }
      } else if t.sendDue {
        var ok := SendEmail(t.mailOk);
        o := if ok then Mailed else SendFailed;
      } else {
        o := Idle;
      }
    }

    /** The loop, over a finite run of passes; it stops where Python would
        stop, at the first pass that raises. */
    method Run(ticks: seq<TickInput>) returns (stopped: bool)
      modifies this
      ensures Snapshot() == AfterTicks(old(Snapshot()), openTime, closeTime, ticks)
      ensures stopped == StopsEarly(old(Snapshot()), openTime, closeTime, ticks)
    {
      var i := 0;
      stopped := false;
      while i < |ticks| && !stopped
        invariant 0 <= i <= |ticks|
        invariant stopped ==> Snapshot() == AfterTicks(old(Snapshot()), openTime, closeTime, ticks)
        invariant stopped ==> StopsEarly(old(Snapshot()), openTime, closeTime, ticks)
        invariant !stopped ==>
          AfterTicks(old(Snapshot()), openTime, closeTime, ticks)
            == AfterTicks(Snapshot(), openTime, closeTime, ticks[i..])
        invariant !stopped ==>
          StopsEarly(old(Snapshot()), openTime, closeTime, ticks)
            == StopsEarly(Snapshot(), openTime, closeTime, ticks[i..])
      {
        assert ticks[i..][1..] == ticks[i + 1..];
        var o := Tick(ticks[i]);
        stopped := Fatal(o);
        i := i + 1;
      }
    }
  }
}
