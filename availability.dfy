/**
 * The form a worker fills in to post availability: the shift-type
 * checkboxes, the form's validity test, and the record a submission builds.
 */
module Availability {
  import opened Wrappers

  /** The form state. Text fields are empty strings until filled in. */
  datatype AvailabilityForm = AvailabilityForm(
    date: string,
    isRecurring: bool,
    recurrencePattern: string,
    recurrenceEndDate: string,
    shiftTypes: seq<string>,
    notes: string)

  /**
   * The form as the page first shows it: nothing selected and not recurring,
   * so it cannot be sent, and a first click selects exactly the clicked type.
   */
  function EmptyForm(): (f: AvailabilityForm)
    ensures f.shiftTypes == [] && !f.isRecurring
    ensures !IsFormValid(f)
    ensures forall t :: ToggleShiftType(f, t).shiftTypes == [t]
  {
    AvailabilityForm("", false, "", "", [], "")
  }

  /** s with every occurrence of t removed, the rest in order. */
  function Without(s: seq<string>, t: string): (r: seq<string>)
    ensures |r| <= |s| && t !in r
    ensures forall x :: x != t ==> (x in r <==> x in s)
  {
    if s == [] then [] else (if s[0] == t then [] else [s[0]]) + Without(s[1..], t)
  }

  /** Removing t from a list without t changes nothing. */
  lemma {:induction false} WithoutAbsent(s: seq<string>, t: string)
    requires t !in s
    ensures Without(s, t) == s
  {
    if s != [] {
      WithoutAbsent(s[1..], t);
    }
  }

  /** Removal works piecewise over a concatenation. */
  lemma {:induction false} WithoutAppend(a: seq<string>, b: seq<string>, t: string)
    ensures Without(a + b, t) == Without(a, t) + Without(b, t)
  {
    if a == [] {
      assert a + b == b;
    } else {
      var head := if a[0] == t then [] else [a[0]];
      assert (a + b)[0] == a[0] && (a + b)[1..] == a[1..] + b;
      WithoutAppend(a[1..], b, t);
      calc {
        Without(a + b, t);
        head + Without(a[1..] + b, t);
        head + (Without(a[1..], t) + Without(b, t));
        (head + Without(a[1..], t)) + Without(b, t);
        Without(a, t) + Without(b, t);
      }
    }
  }

  /**
   * Clicking the checkbox of shift type t: a selected type is removed
   * wherever it occurs, an unselected one is appended at the end. The other
   * types keep their order, and no other field changes.
   */
  function ToggleShiftType(form: AvailabilityForm, t: string): (r: AvailabilityForm)
    ensures t in r.shiftTypes <==> t !in form.shiftTypes
    ensures t !in form.shiftTypes ==> r.shiftTypes == form.shiftTypes + [t]
    ensures t in form.shiftTypes ==> |r.shiftTypes| < |form.shiftTypes|
    ensures Without(r.shiftTypes, t) == Without(form.shiftTypes, t)
    ensures r.(shiftTypes := form.shiftTypes) == form
  {
    var current := form.shiftTypes;
    if t in current then
      WithoutShrinks(current, t);
      WithoutAbsent(Without(current, t), t);
      form.(shiftTypes := Without(current, t))
    else
      WithoutAppend(current, [t], t);
      assert Without([t], t) == [];
      form.(shiftTypes := current + [t])
  }

  /** Removing a type that occurs makes the list shorter. */
  lemma {:induction false} WithoutShrinks(s: seq<string>, t: string)
    requires t in s
    ensures |Without(s, t)| < |s|
  {
    if s[0] != t {
      WithoutShrinks(s[1..], t);
    }
  }

  /** Clicking an unselected type twice gives back the form. */
  lemma ToggleAbsentTwice(form: AvailabilityForm, t: string)
    requires t !in form.shiftTypes
    ensures ToggleShiftType(ToggleShiftType(form, t), t) == form
  {
    var once := ToggleShiftType(form, t);
    WithoutAbsent(form.shiftTypes, t);
    assert Without(once.shiftTypes, t) == form.shiftTypes;
  }

  /** Clicking a selected type twice leaves one copy of it, moved to the end. */
  lemma TogglePresentTwice(form: AvailabilityForm, t: string)
    requires t in form.shiftTypes
    ensures ToggleShiftType(ToggleShiftType(form, t), t).shiftTypes == Without(form.shiftTypes, t) + [t]
  {
    var once := ToggleShiftType(form, t);
    WithoutAbsent(once.shiftTypes, t);
  }

  /**
   * The form may be sent when a date is chosen, at least one shift type is
   * selected, and a recurring form has both a pattern and an end date.
   */
  predicate IsFormValid(form: AvailabilityForm)
    ensures IsFormValid(form) ==> forall w :: w != "" ==> Submit(Some(w), true, form).Ok?
  {
    && form.date != ""
    && |form.shiftTypes| > 0
    && (!form.isRecurring || (form.recurrencePattern != "" && form.recurrenceEndDate != ""))
  }

  /** Why a submission was refused. */
  datatype SubmitError =
    | WorkerIdMissing       // no worker profile id was loaded for the session
    | BackendNotConfigured  // no database client
    | NoShiftTypes          // no shift type selected
    | InvalidTime           // an empty date gives no valid start time

  /**
   * The row a submission inserts. Its start and end times, which the model
   * does not compute, are midnight and 23:59:59.999 local time on the local
   * day that contains UTC midnight of `day`: the date string is read as UTC
   * and the hours are then set in local time, so west of UTC they fall on
   * the day before.
   */
  datatype AvailabilityRecord = AvailabilityRecord(
    workerId: string,
    day: string,
    isRecurring: bool,
    recurrencePattern: Option<string>,
    recurrenceEndDate: Option<string>,
    preferredShiftTypes: seq<string>,
    notes: string,
    status: string)

  /** The status every new availability row gets. */
  const StatusAvailable := "available"

  /**
   * The submit handler up to the insert: the guards in their order, then the
   * record it would insert.
   */
  function Submit(workerId: Option<string>, backendConfigured: bool, form: AvailabilityForm)
    : (r: Result<AvailabilityRecord, SubmitError>)
    ensures (workerId.None? || workerId.value == "") <==> r == Err(WorkerIdMissing)
    ensures r.Ok? <==>
              workerId.Some? && workerId.value != "" && backendConfigured && |form.shiftTypes| > 0 && form.date != ""
    ensures workerId.Some? && workerId.value != "" && !backendConfigured ==> r == Err(BackendNotConfigured)
    ensures backendConfigured && workerId.Some? && workerId.value != "" && |form.shiftTypes| > 0 && form.date == ""
            ==> r == Err(InvalidTime)
    ensures r.Ok? ==> backendConfigured && |form.shiftTypes| > 0 && form.date != ""
    ensures backendConfigured && workerId.Some? && workerId.value != "" && form.shiftTypes == []
            ==> r == Err(NoShiftTypes)
    ensures r.Ok? ==>
              && r.value.workerId == workerId.value
              && r.value.day == form.date
              && r.value.isRecurring == form.isRecurring
              && (r.value.recurrencePattern.Some? <==> form.isRecurring)
              && (r.value.recurrenceEndDate.Some? <==> form.isRecurring)
              && (form.isRecurring ==> r.value.recurrencePattern == Some(form.recurrencePattern)
                                       && r.value.recurrenceEndDate == Some(form.recurrenceEndDate))
              && r.value.preferredShiftTypes == form.shiftTypes
              && r.value.notes == form.notes
              && r.value.status == StatusAvailable
  {
    if workerId.None? || workerId.value == "" then Err(WorkerIdMissing)
    else if !backendConfigured then Err(BackendNotConfigured)
    else if |form.shiftTypes| == 0 then Err(NoShiftTypes)
    else if form.date == "" then Err(InvalidTime)
    else Ok(AvailabilityRecord(
      workerId.value,
      form.date,
      form.isRecurring,
      if form.isRecurring then Some(form.recurrencePattern) else None,
      if form.isRecurring then Some(form.recurrenceEndDate) else None,
      form.shiftTypes,
      form.notes,
      StatusAvailable))
  }

  /** The record made from a valid recurring form carries a non-empty pattern and end date. */
  lemma ValidFormSubmits(workerId: string, form: AvailabilityForm)
    requires workerId != "" && IsFormValid(form)
    ensures form.isRecurring ==>
              && Submit(Some(workerId), true, form).value.recurrencePattern.value != ""
              && Submit(Some(workerId), true, form).value.recurrenceEndDate.value != ""
  {
  }

  /** The empty form is not valid, and selecting one type and a date on it makes it valid. */
  lemma EmptyFormThenToggle(t: string, date: string)
    requires date != ""
    ensures !IsFormValid(EmptyForm())
    ensures IsFormValid(ToggleShiftType(EmptyForm().(date := date), t))
  {
  }
}
