/** The data mapper of the shift form: a shift is shown as a date field,
    a start-time field and an end-time field (plus job and formation), and
    on submission the chosen date is grafted onto the start and end
    times. */
module ShiftForm {
  import opened Wrappers
  import opened Calendar
  import opened Buckets

  /** A shift entity as the form sees it. A shift created for the form
      (`new Shift()`) has no start, end, job or formation yet; `None` is
      PHP's null. `shifters` stands for the entity's other state, which the
      form never touches. */
  datatype Entity = Entity(
    start: Option<DateTime>,
    end: Option<DateTime>,
    job: Option<JobId>,
    formation: Option<FormationId>,
    shifters: nat)

  /** The values held by the form's fields; `None` is an empty field. */
  datatype FormFields = FormFields(
    date: Option<DateTime>,
    start: Option<DateTime>,
    end: Option<DateTime>,
    job: Option<JobId>,
    formation: Option<FormationId>)

  /** The submitted fields once their text has been read as date-times. */
  datatype Submitted = Submitted(
    date: DateTime,
    start: DateTime,
    end: DateTime,
    job: Option<JobId>,
    formation: Option<FormationId>)

  /** What the form is bound to: nothing yet, a shift entity, or a value of
      any other type. */
  datatype FormData = NoData | ShiftData(shift: Entity) | OtherData

  datatype MapperError = UnexpectedType

  /** The time of day of a date-time. */
  function TimeOf(t: DateTime): (int, int, int) {
    (t.hour, t.minute, t.second)
  }

  /** The entity of a shift whose start and end are set. */
  function EntityOf(s: Shift): Entity {
    Entity(Some(s.start), Some(s.end), s.job, s.formation, s.shifters)
  }

  /** The shift an entity stands for once its times are set. The entity
      derives the interval code from start and end; `code` is that
      derivation. */
  function Stored(e: Entity, code: (DateTime, DateTime) -> Code): (r: Option<Shift>)
    ensures r.Some? <==> e.start.Some? && e.end.Some?
    ensures r.Some? ==> EntityOf(r.value) == e
    ensures r.Some? ==> r.value.intervalCode == code(r.value.start, r.value.end)
  {
    if e.start.None? || e.end.None? then None
    else
      var s, t := e.start.value, e.end.value;
      Some(Shift(s, t, code(s, t), e.shifters, e.job, e.formation))
  }

  /** A shift is stored by an entity exactly when its interval code is the
      one its times derive: a stale code cannot come out of an entity. */
  lemma StoredEntityOf(s: Shift, code: (DateTime, DateTime) -> Code)
    ensures Stored(EntityOf(s), code) == Some(s) <==> s.intervalCode == code(s.start, s.end)
  {
  }

  /** `mapDataToForms`: fills the fields from a shift entity. Without data
      the fields are left as they are; data of another type is refused. The
      unset times of a new shift fill the date, start and end fields with
      null. */
  function MapDataToForms(data: FormData, forms: FormFields): (r: Result<FormFields, MapperError>)
    ensures data.NoData? ==> r == Ok(forms)
    ensures data.OtherData? ==> r == Err(UnexpectedType)
    ensures data.ShiftData? ==> r.Ok?
    ensures data.ShiftData? ==>
      && r.value.date == data.shift.start
      && r.value.start == data.shift.start
      && r.value.end == data.shift.end
      && r.value.job == data.shift.job
      && r.value.formation == data.shift.formation
  {
    match data
    case NoData => Ok(forms)
    case OtherData => Err(UnexpectedType)
    case ShiftData(e) => Ok(FormFields(e.start, e.start, e.end, e.job, e.formation))
  }

  /** `mapFormsToData`: the start and end take the day of the date field
      and keep their own time of day; job and formation are copied. */
  function MapFormsToData(forms: Submitted, data: Entity): (r: Entity)
    ensures r.start.Some? && r.end.Some?
    ensures DateOf(r.start.value) == DateOf(forms.date) && DateOf(r.end.value) == DateOf(forms.date)
    ensures TimeOf(r.start.value) == TimeOf(forms.start) && TimeOf(r.end.value) == TimeOf(forms.end)
    ensures r.job == forms.job && r.formation == forms.formation
    ensures r.shifters == data.shifters
  {
    var day := DateOf(forms.date);
    data.(start := Some(SetDate(forms.start, day)), end := Some(SetDate(forms.end, day)),
          job := forms.job, formation := forms.formation)
  }

  /** After a submission the entity stands for a shift on the chosen day
      whose interval code follows the new start and end. */
  lemma SubmittedShiftRecoded(forms: Submitted, data: Entity, code: (DateTime, DateTime) -> Code)
    ensures var s := Stored(MapFormsToData(forms, data), code);
      && s.Some?
      && DateOf(s.value.start) == DateOf(forms.date) && DateOf(s.value.end) == DateOf(forms.date)
      && s.value.intervalCode == code(s.value.start, s.value.end)
  {
  }

  /** The fields an entity is shown with, submitted back unchanged; there
      is nothing to resubmit while a time is unset. */
  function Resubmit(e: Entity): Option<Submitted> {
    if e.start.None? || e.end.None? then None
    else Some(Submitted(e.start.value, e.start.value, e.end.value, e.job, e.formation))
  }

  lemma ResubmitIsShown(e: Entity, forms: FormFields)
    ensures var shown := MapDataToForms(ShiftData(e), forms).value;
      && (Resubmit(e).Some? <==> shown.date.Some? && shown.start.Some? && shown.end.Some?)
      && (Resubmit(e).Some? ==>
            Resubmit(e).value == Submitted(shown.date.value, shown.start.value, shown.end.value, shown.job, shown.formation))
  {
  }

  /** Showing a shift and submitting the form untouched gives the shift
      back exactly when it ends on the day it starts: otherwise its end is
      moved onto the start day. */
  lemma RoundTripIffSameDay(e: Entity)
    ensures Resubmit(e).Some? ==>
      (MapFormsToData(Resubmit(e).value, e) == e <==> DateOf(e.end.value) == DateOf(e.start.value))
  {
  }

  /** Submitting the same fields twice changes nothing more. */
  lemma MapFormsToDataIdempotent(forms: Submitted, data: Entity)
    ensures MapFormsToData(forms, MapFormsToData(forms, data)) == MapFormsToData(forms, data)
  {
  }
}
