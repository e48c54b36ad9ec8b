/** One run of the `app:shift:send_alerts` console command: strict date
    check, start-of-day normalisation, one repository query, the bucket
    and alert passes, then one mail to all recipients when there is at
    least one alert. */
module AlertCommand {
  import opened Wrappers
  import opened Strings
  import opened Calendar
  import opened Buckets
  import opened Alerts

  /** The repository query `findAt(date, jobs)`. */
  datatype Query = Query(day: DateTime, jobs: seq<string>)

  /** The one mail of a run, addressed to every recipient at once. The
      subject, sender and rendered body are not modelled. */
  datatype Message = Message(to: seq<string>, alerts: seq<ShiftAlert>)

  /** The console line a run ends with. */
  datatype Report = WrongDateFormat | EmailSent(alertCount: nat) | NoShiftAlert

  /** What a run did: the query it made (if any), the mails it sent, and
      its report. */
  datatype Run = Run(query: Option<Query>, sent: seq<Message>, report: Report)

  /** `execute` with the three command arguments. The clock reading `now`
      and the repository `findAt` are parameters. */
  function Execute(date: string, jobs: string, recipients: string, now: DateTime,
                   findAt: Query -> seq<Shift>): (r: Run)
    ensures StrictDate(date, now).None? <==> r.report == WrongDateFormat
    ensures r.report == WrongDateFormat ==> r.query == None && r.sent == []
    ensures r.report != WrongDateFormat ==> r.query.Some?
    ensures r.query.Some? ==>
      && StrictDate(date, now).Some?
      && DateOf(r.query.value.day) == DateOf(StrictDate(date, now).value)
      && r.query.value.day.hour == 0 && r.query.value.day.minute == 0 && r.query.value.day.second == 0
      && r.query.value.jobs == Split(jobs, ',')
    ensures |r.sent| <= 1
    ensures forall m :: m in r.sent ==> m.to == Split(recipients, ',') && |m.alerts| > 0
    ensures r.report.EmailSent? <==> |r.sent| == 1
    ensures r.report.EmailSent? ==> r.report.alertCount == |r.sent[0].alerts|
  {
    var jobIds := Split(jobs, ',');
    var to := Split(recipients, ',');
    match StrictDate(date, now)
    case None => Run(None, [], WrongDateFormat)
    case Some(parsed) =>
      var day := SetTime(parsed, 0, 0);
      var query := Query(day, jobIds);
      Dispatch(query, to, EvaluateAlerts(GroupByCode(findAt(query))))
  }

  /** The end of a run that got as far as the query: one mail carrying all
      alerts when there is any, reporting their number. */
  function Dispatch(query: Query, to: seq<string>, alerts: seq<ShiftAlert>): (r: Run)
    ensures r.query == Some(query) && r.report != WrongDateFormat
    ensures |r.sent| <= 1
    ensures |r.sent| == 1 <==> |alerts| > 0
    ensures forall m :: m in r.sent ==> m.to == to && m.alerts == alerts
    ensures r.report.EmailSent? <==> |alerts| > 0
    ensures r.report.EmailSent? ==> r.report.alertCount == |alerts|
  {
    if |alerts| > 0 then Run(Some(query), [Message(to, alerts)], EmailSent(|alerts|))
    else Run(Some(query), [], NoShiftAlert)
  }

  /** The shifts a run worked on, when it got as far as the query. */
  function ShiftsOf(r: Run, findAt: Query -> seq<Shift>): seq<Shift>
    requires r.query.Some?
  {
    findAt(r.query.value)
  }

  /** A mail goes out exactly when the date is accepted and some interval
      code of the day's shifts has fewer than two people booked. */
  lemma SentIffUnderstaffedCode(date: string, jobs: string, recipients: string, now: DateTime,
                                findAt: Query -> seq<Shift>)
    ensures var r := Execute(date, jobs, recipients, now, findAt);
      |r.sent| == 1 <==>
        && r.query.Some?
        && exists c :: c in Codes(ShiftsOf(r, findAt)) && SumShifters(WithCode(ShiftsOf(r, findAt), c)) < MinShifters
  {
    var r := Execute(date, jobs, recipients, now, findAt);
    if r.query.Some? {
      NoAlertIffStaffed(ShiftsOf(r, findAt));
    }
  }

  /** The mail carries every alert, and its recipients are the whole
      comma-separated argument: joining them back gives the argument. */
  lemma SentToAllRecipients(date: string, jobs: string, recipients: string, now: DateTime,
                            findAt: Query -> seq<Shift>)
    ensures var r := Execute(date, jobs, recipients, now, findAt);
      forall m :: m in r.sent ==>
        && Join(m.to, ',') == recipients
        && m.alerts == EvaluateAlerts(GroupByCode(ShiftsOf(r, findAt)))
  {
    JoinSplit(recipients, ',');
    var r := Execute(date, jobs, recipients, now, findAt);
    if |r.sent| == 1 {
      var shifts := ShiftsOf(r, findAt);
      assert r.sent[0] == Message(Split(recipients, ','), EvaluateAlerts(GroupByCode(shifts)));
    }
  }

  /** A day without shifts gives no bucket, no alert and no mail. */
  lemma NoShiftsNoMail(date: string, jobs: string, recipients: string, now: DateTime,
                       findAt: Query -> seq<Shift>)
    ensures var r := Execute(date, jobs, recipients, now, findAt);
      r.query.Some? && ShiftsOf(r, findAt) == [] ==> r.sent == [] && r.report == NoShiftAlert
  {
    GroupByCodeEmpty();
  }

  /** A rejected date ends the run before the repository is asked and
      before anything is sent. */
  lemma ImpossibleDateStopsRun(jobs: string, recipients: string, now: DateTime,
                               findAt: Query -> seq<Shift>)
    ensures Execute("2024-02-30", jobs, recipients, now, findAt) == Run(None, [], WrongDateFormat)
  {
    RejectsImpossibleDay(now);
  }

  /** The clock only supplies a time of day, which the start-of-day
      normalisation discards: the run does not depend on it. */
  lemma ClockIrrelevant(date: string, jobs: string, recipients: string, now1: DateTime, now2: DateTime,
                        findAt: Query -> seq<Shift>)
    ensures Execute(date, jobs, recipients, now1, findAt) == Execute(date, jobs, recipients, now2, findAt)
  {
  }
}
