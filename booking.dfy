/** The booking session of the schedule widget: the step the visitor is on
    (date, type, time, details, verification), what they have chosen so far,
    the form fields, the success flag and the month the calendar shows.
    Handlers are atomic: the simulated network delay of each submit is not
    modelled, and the three-second success timer is its own step. */
module Booking {
  import opened Text
  import opened Calendar
  import opened Availability

  datatype Step = PickDate | PickType | PickTime | Details | Verification

  datatype BookingForm = BookingForm(name: string, phone: string, verificationCode: string)

  const EmptyForm := BookingForm("", "", "")

  /** `isPast(date)`: the day is before today's local midnight. */
  predicate IsPast(d: Date, today: Date)
    ensures IsPast(d, today) ==> d != today && !Before(today, d)
  {
    Before(d, today)
  }

  /** `isToday(date)`: same day, month and year as today. */
  predicate IsToday(d: Date, today: Date)
    ensures IsToday(d, today) <==> d == today
  {
    d.day == today.day && d.month == today.month && d.year == today.year
  }

  /** Today is neither past nor any other day than itself: a date is today
      exactly when it equals today, and today is never past. */
  lemma IsTodayNotPast(d: Date, today: Date)
    ensures IsToday(d, today) <==> d == today
    ensures IsToday(d, today) ==> !IsPast(d, today)
  {
  }

  /** `isNextMonth(date)`: only the month numbers are compared, so a January date
      is never "next" after a December cursor. */
  predicate IsNextMonth(d: Date, cursor: YearMonth)
    ensures d.month < 12 && cursor.month == 11 ==> !IsNextMonth(d, cursor)
  {
    d.month > cursor.month
  }

  /** `isCurrentMonth()`: the cursor shows today's month of today's year. */
  predicate IsCurrentMonth(cursor: YearMonth, today: Date)
    ensures IsCurrentMonth(cursor, today) <==> cursor == MonthOf(today)
  {
    cursor.month == today.month && cursor.year == today.year
  }

  /** A day is selectable when it is neither past nor unavailable. */
  predicate Selectable(c: Setup, d: Date, today: Date)
    requires ValidSetup(c)
    ensures Selectable(c, d, today) <==> !Before(d, today) && TimeSlots(c, d) != []
  {
    !IsPast(d, today) && IsAvailable(c, d)
  }

  /** Comparing month numbers agrees with month order inside one year, but a
      date in January of the following year is not "next" after December. */
  lemma IsNextMonthQuirk(d: Date, cursor: YearMonth)
    requires ValidMonth(cursor) && 0 <= d.month < 12
    ensures d.year == cursor.year ==> (IsNextMonth(d, cursor) <==> MonthBefore(cursor, MonthOf(d)))
    ensures cursor.month == 11 ==> !IsNextMonth(d, cursor)
  {
  }

  /** A cursor not before today's month that is not today's month is after it,
      so stepping it back keeps it at today's month or later. */
  lemma PrevMonthStaysCurrent(cursor: YearMonth, today: Date)
    requires ValidMonth(cursor) && 0 <= today.month < 12
    requires !MonthBefore(cursor, MonthOf(today)) && !IsCurrentMonth(cursor, today)
    ensures !MonthBefore(PrevMonth(cursor), MonthOf(today))
  {
    assert MonthBefore(MonthOf(today), cursor);
  }

  /** A well-formed configuration, a real today, and a calendar month that is
      not before today's. */
  ghost predicate CalendarFits(setup: Setup, today: Date, currentMonth: YearMonth) {
    && ValidSetup(setup)
    && ValidDate(today)
    && ValidMonth(currentMonth)
    && !MonthBefore(currentMonth, MonthOf(today))
  }

  /** Each step holds exactly the choices made on the way to it: a date from
      'type' on, a type from 'time' on, a time from 'details' on. A chosen
      date is selectable, a chosen type is in the catalogue, and a chosen time
      is one the date offers. */
  ghost predicate ChoicesFit(setup: Setup, appointmentTypes: seq<AppointmentType>, today: Date, step: Step,
                             selectedDate: Option<Date>, selectedType: Option<AppointmentType>, selectedTime: string) {
    && ValidSetup(setup)
    && (selectedDate.None? <==> step == PickDate)
    && (selectedDate.Some? ==>
          ValidDate(selectedDate.value) && Selectable(setup, selectedDate.value, today))
    && (selectedType.Some? <==> step != PickDate && step != PickType)
    && (selectedType.Some? ==> selectedType.value in appointmentTypes)
    && (selectedTime != "" <==> step == Details || step == Verification)
    && (selectedTime != "" ==> selectedDate.Some? && selectedTime in TimeSlots(setup, selectedDate.value))
  }

  class BookingSession {
    /** The schedule configuration and business hours, fixed for the session. */
    const setup: Setup
    /** `config.appointmentTypes`. */
    const appointmentTypes: seq<AppointmentType>
    /** Today's date, read once. */
    const today: Date

    var step: Step
    var selectedDate: Option<Date>
    var selectedType: Option<AppointmentType>
    /** `""` stands for no time chosen. */
    var selectedTime: string
    var form: BookingForm
    var isSuccess: bool
    /** The first day of the month the calendar shows. */
    var currentMonth: YearMonth
    /** The success timers that have been started and have not fired yet. */
    var pendingResets: nat

    /** The session's configuration is well formed and the calendar never
        shows a month before today's; the choices made so far fit their step
        (`ChoicesFit`); the verification step has a name and a phone; a
        success notice is on screen only while a timer that clears it is
        pending. */
    ghost predicate Valid()
      reads this
    {
      && CalendarFits(setup, today, currentMonth)
      && ChoicesFit(setup, appointmentTypes, today, step, selectedDate, selectedType, selectedTime)
      && (step == Verification ==> form.name != "" && form.phone != "")
      && (isSuccess ==> pendingResets > 0)
    }

    /** The widget's initial state: the date step, nothing chosen, an empty
        form, and the calendar on today's month. */
    constructor (setup: Setup, appointmentTypes: seq<AppointmentType>, today: Date)
      requires ValidSetup(setup) && ValidDate(today)
      ensures Valid()
      ensures this.setup == setup && this.appointmentTypes == appointmentTypes && this.today == today
      ensures step == PickDate && selectedDate == None && selectedType == None && selectedTime == ""
      ensures form == EmptyForm && !isSuccess && currentMonth == MonthOf(today) && pendingResets == 0
    {
      this.setup := setup;
      this.appointmentTypes := appointmentTypes;
      this.today := today;
      step := PickDate;
      selectedDate := None;
      selectedType := None;
      selectedTime := "";
      form := EmptyForm;
      isSuccess := false;
      currentMonth := MonthOf(today);
      pendingResets := 0;
    }

    /** `handleDateSelect(date)`, clicked on a calendar cell: nothing happens
        for a past or unavailable day; otherwise the day is chosen, the step
        becomes 'type', and the calendar jumps to the day's month only when
        that month's number is greater than the cursor's. */
    method SelectDate(d: Date)
      requires Valid() && step == PickDate && ValidDate(d)
      modifies this
      ensures Valid()
      ensures Selectable(setup, d, today) ==>
        && step == PickType && selectedDate == Some(d)
        && currentMonth == (if IsNextMonth(d, old(currentMonth)) then MonthOf(d) else old(currentMonth))
      ensures !Selectable(setup, d, today) ==>
        step == old(step) && selectedDate == old(selectedDate) && currentMonth == old(currentMonth)
      ensures selectedType == old(selectedType) && selectedTime == old(selectedTime)
      ensures form == old(form) && isSuccess == old(isSuccess) && pendingResets == old(pendingResets)
    {
      if Selectable(setup, d, today) {
        if IsNextMonth(d, currentMonth) {
          NotBeforeMonth(d, today);
          currentMonth := MonthOf(d);
        }
        selectedDate := Some(d);
        step := PickType;
      }
    }

    /** `handleAppointmentTypeSelect(type)`: the type is chosen, any time is
        cleared, and the step becomes 'time'. */
    method SelectType(t: AppointmentType)
      requires Valid() && step == PickType && t in appointmentTypes
      modifies this
      ensures Valid()
      ensures selectedType == Some(t) && selectedTime == "" && step == PickTime
      ensures selectedDate == old(selectedDate) && form == old(form)
      ensures isSuccess == old(isSuccess) && currentMonth == old(currentMonth) && pendingResets == old(pendingResets)
    {
      selectedType := Some(t);
      selectedTime := "";
      step := PickTime;
    }

    /** `handleTimeSelect(time)`, clicked on one of the rendered slots of the
        chosen date: the time is taken as given, with no second availability
        check, and the step becomes 'details'. */
    method SelectTime(time: string)
      requires Valid() && step == PickTime && time in TimeSlots(setup, selectedDate.value)
      modifies this
      ensures Valid()
      ensures selectedTime == time && step == Details
      ensures selectedDate == old(selectedDate) && selectedType == old(selectedType)
      ensures form == old(form) && isSuccess == old(isSuccess) && currentMonth == old(currentMonth) && pendingResets == old(pendingResets)
    {
      SlotIsClock(setup, selectedDate.value, time);
      selectedTime := time;
      step := Details;
    }

    /** Typing into the name field of the details form. */
    method EditName(name: string)
      requires Valid() && step == Details
      modifies this
      ensures Valid()
      ensures form == old(form).(name := name)
      ensures step == old(step) && selectedDate == old(selectedDate) && selectedType == old(selectedType)
      ensures selectedTime == old(selectedTime) && isSuccess == old(isSuccess) && currentMonth == old(currentMonth) && pendingResets == old(pendingResets)
    {
      form := form.(name := name);
    }

    /** Typing into the phone field of the details form. */
    method EditPhone(phone: string)
      requires Valid() && step == Details
      modifies this
      ensures Valid()
      ensures form == old(form).(phone := phone)
      ensures step == old(step) && selectedDate == old(selectedDate) && selectedType == old(selectedType)
      ensures selectedTime == old(selectedTime) && isSuccess == old(isSuccess) && currentMonth == old(currentMonth) && pendingResets == old(pendingResets)
    {
      form := form.(phone := phone);
    }

    /** Typing into the verification-code field. */
    method EditCode(code: string)
      requires Valid() && step == Verification
      modifies this
      ensures Valid()
      ensures form == old(form).(verificationCode := code)
      ensures step == old(step) && selectedDate == old(selectedDate) && selectedType == old(selectedType)
      ensures selectedTime == old(selectedTime) && isSuccess == old(isSuccess) && currentMonth == old(currentMonth) && pendingResets == old(pendingResets)
    {
      form := form.(verificationCode := code);
    }

    /** `handleDetailsSubmit`: nothing happens unless both name and phone are
        filled in; otherwise the step becomes 'verification'. */
    method SubmitDetails()
      requires Valid() && step == Details
      modifies this
      ensures Valid()
      ensures step == (if form.name != "" && form.phone != "" then Verification else Details)
      ensures form == old(form) && selectedDate == old(selectedDate) && selectedType == old(selectedType)
      ensures selectedTime == old(selectedTime) && isSuccess == old(isSuccess) && currentMonth == old(currentMonth) && pendingResets == old(pendingResets)
    {
      if form.name == "" || form.phone == "" {
        return;
      }
      step := Verification;
    }

    /** `handleVerificationSubmit`: nothing happens unless the code, the date,
        the time and the type are all present; otherwise the booking succeeds
        and its three-second reset timer starts. In a valid session the last
        three always are present, so only the code decides. */
    method SubmitVerification()
      requires Valid() && step == Verification
      modifies this
      ensures Valid()
      ensures isSuccess == (old(isSuccess) || form.verificationCode != "")
      ensures pendingResets == old(pendingResets) + (if form.verificationCode != "" then 1 else 0)
      ensures step == old(step) && form == old(form) && selectedDate == old(selectedDate)
      ensures selectedType == old(selectedType) && selectedTime == old(selectedTime) && currentMonth == old(currentMonth)
    {
      if form.verificationCode == "" || selectedDate.None? || selectedTime == "" || selectedType.None? {
        return;
      }
      isSuccess := true;
      pendingResets := pendingResets + 1;
    }

    /** A timer set on success fires: everything but the calendar month
        returns to the initial state. */
    method SuccessTimerElapsed()
      requires Valid() && pendingResets > 0
      modifies this
      ensures Valid()
      ensures !isSuccess && selectedDate == None && selectedTime == "" && selectedType == None
      ensures step == PickDate && form == EmptyForm && currentMonth == old(currentMonth)
      ensures pendingResets == old(pendingResets) - 1
    {
      pendingResets := pendingResets - 1;
      isSuccess := false;
      selectedDate := None;
      selectedTime := "";
      selectedType := None;
      step := PickDate;
      form := EmptyForm;
    }

    /** `handleBack`: one step back, clearing one field per step: the date
        when leaving 'type', the type (not the time) when leaving 'time', the
        time when leaving 'details', nothing when leaving 'verification'; on
        'date' nothing happens. */
    method Back()
      requires Valid()
      modifies this
      ensures Valid()
      ensures old(step) == PickDate ==> step == PickDate && selectedDate == old(selectedDate)
      ensures old(step) == PickType ==> step == PickDate && selectedDate == None
      ensures old(step) != PickType ==> selectedDate == old(selectedDate)
      ensures old(step) == PickTime ==> step == PickType && selectedType == None
      ensures old(step) != PickTime ==> selectedType == old(selectedType)
      ensures old(step) == Details ==> step == PickTime && selectedTime == ""
      ensures old(step) != Details ==> selectedTime == old(selectedTime)
      ensures old(step) == Verification ==> step == Details
      ensures form == old(form) && isSuccess == old(isSuccess) && currentMonth == old(currentMonth) && pendingResets == old(pendingResets)
    {
      match step
      case PickDate =>
      case PickType =>
        selectedDate := None;
        step := PickDate;
      case PickTime =>
        selectedType := None;
        step := PickType;
      case Details =>
        selectedTime := "";
        step := PickTime;
      case Verification =>
        step := Details;
    }

    /** The previous-month arrow, disabled while the calendar shows today's
        month. */
    method ShowPreviousMonth()
      requires Valid() && step == PickDate && !IsCurrentMonth(currentMonth, today)
      modifies this
      ensures Valid()
      ensures currentMonth == PrevMonth(old(currentMonth))
      ensures step == old(step) && selectedDate == old(selectedDate) && selectedType == old(selectedType)
      ensures selectedTime == old(selectedTime) && form == old(form) && isSuccess == old(isSuccess) && pendingResets == old(pendingResets)
    {
      PrevMonthStaysCurrent(currentMonth, today);
      currentMonth := PrevMonth(currentMonth);
    }

    /** The next-month arrow, always enabled. */
    method ShowNextMonth()
      requires Valid() && step == PickDate
      modifies this
      ensures Valid()
      ensures currentMonth == NextMonth(old(currentMonth))
      ensures step == old(step) && selectedDate == old(selectedDate) && selectedType == old(selectedType)
      ensures selectedTime == old(selectedTime) && form == old(form) && isSuccess == old(isSuccess) && pendingResets == old(pendingResets)
    {
      currentMonth := NextMonth(currentMonth);
    }
  }

  /** One whole booking: a selectable date, a type from the catalogue, one of
      the date's slots, a name, a phone and a code. The success notice is
      shown for exactly the chosen date, type and time, and once its timer
      has fired the widget is back on the date step with nothing chosen and
      an empty form. */
  method BookOnce(setup: Setup, appointmentTypes: seq<AppointmentType>, today: Date,
                  d: Date, t: AppointmentType, time: string, name: string, phone: string, code: string)
    returns (confirmed: bool, booked: (Option<Date>, Option<AppointmentType>, string),
             step: Step, chosen: (Option<Date>, Option<AppointmentType>, string), form: BookingForm, isSuccess: bool)
    requires ValidSetup(setup) && ValidDate(today) && ValidDate(d) && Selectable(setup, d, today)
    requires t in appointmentTypes && time in TimeSlots(setup, d)
    requires name != "" && phone != "" && code != ""
    ensures confirmed && booked == (Some(d), Some(t), time)
    ensures step == PickDate && chosen == (None, None, "") && form == EmptyForm && !isSuccess
  {
    var session := new BookingSession(setup, appointmentTypes, today);
    session.SelectDate(d);
    session.SelectType(t);
    session.SelectTime(time);
    session.EditName(name);
    session.EditPhone(phone);
    session.SubmitDetails();
    session.EditCode(code);
    session.SubmitVerification();
    confirmed := session.isSuccess;
    booked := (session.selectedDate, session.selectedType, session.selectedTime);
    session.SuccessTimerElapsed();
    step, form, isSuccess := session.step, session.form, session.isSuccess;
    chosen := (session.selectedDate, session.selectedType, session.selectedTime);
  }
}
