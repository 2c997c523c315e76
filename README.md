# ez-lines-front, modelled in Dafny

This project models the logic of a single-page salon website built with
React. The centre of it is the appointment widget, and around that sit the
smaller pieces the page uses.

- **Appointment widget** (`src/components/Schedule.tsx`):
  - Time slots are generated from a weekday's business hours, stepping by
    `minutesPerLine` and keeping the closing minute.
  - Candidates that fall in a vacation or an existing appointment are
    removed.
  - A day is available when it has at least one free slot.
  - The monthly calendar grid has leading blanks, then the month's days,
    then up to three days of the next month.
  - A booking session steps date → type → time → details → verification,
    with a back rule per step and a reset after success.
  - A month cursor moves one month at a time and never goes before today's
    month.
- **Business hours, phone link and address** (`src/components/Contact.tsx`
  and `src/components/About.tsx`): the two files have identical copies of
  `formatWorkingHours`, the `tel:` sanitiser and the address joiner, and
  each is modelled once.
- **Contact form** (`src/components/Contact.tsx`): its submit gating and
  its submit/reset cycle.
- **Portfolio carousel** (`src/components/Portfolio.tsx`): arrows, dots,
  keyboard and swipes.
- **Navigation bar** (`src/components/Navbar.tsx`): its scroll rule, the
  dark-mode flag and the menu filter.
- **Translation context** (`src/contexts/LanguageContext.tsx`): lookup with
  key fallback, the default language, text direction and the
  outside-provider error.
- **Language switch button** (`src/components/LanguageSwitcher.tsx`).

Modules, one per file:

- `Text`: digits, decimal values, `NatToString` and two-digit padding.
- `Calendar`: dates with 0-based months, as JavaScript's `getMonth` gives
  them.
  - The day count is days-from-civil.
  - `Weekday` numbers days 0 = Sunday to 6 = Saturday.
  - Local time is a fixed UTC offset in minutes.
  - Months step forward and back.
- `Availability`: the schedule configuration, the vacation and appointment
  tests, slot generation (the function and the loop) and `isAvailable`.
- `CalendarGrid`: the calendar cells, as a function and as the three loops.
- `Booking`: the date predicates and the `BookingSession` class.
- `Translations`: both 39-entry tables, `Translate` and the
  `LanguageProvider` class.
- `LanguageSwitcher`: the switch button.
- `SiteInfo`:
  - `formatWorkingHours`, including `split`, `join`, `parseInt` (without a
    radix, so a `0x` prefix reads hexadecimal) and the 12-hour clock;
  - the phone sanitiser;
  - the address.
- `ContactForm`: the contact form's `Form` class.
- `Portfolio`: the slide arithmetic and the `Carousel` class.
- `Navbar`: the menu and the `NavbarState` class.

Handlers that change component state are class methods. Each has
`modifies this` and a postcondition that gives the whole new state. The
classes `BookingSession`, `Form`, `Carousel` and `NavbarState` each keep an
invariant `Valid()`. `LanguageProvider` has no invariant beyond its field's
type, and the `LanguageSwitcher.Click` method modifies the provider it is
given.

The booking session's invariant says that each step holds exactly the
choices made on the way to it:
- a chosen date is selectable;
- a chosen time is one of that date's slots;
- the calendar never shows a month before today's;
- a success notice is shown only while a reset timer is pending.

The two loops of the widget are methods, each proved equal to a
specification function:
- `Availability.CollectSlots` equals `SlotsOf`;
- `CalendarGrid.GenerateCalendarDays` equals `CalendarDays`.

Lemmas then prove what those functions mean.

The clock reading `new Date()` is a `today` parameter. In the booking
session it is a constant.

Where the code and its accompanying description differ, the model follows
the code. These quirks are kept as written:
- The closing minute is offered as a slot.
- `isNextMonth` compares month numbers only.
- The last-five-days test compares the month but not the year.
- Back from the time step clears the appointment type, not the chosen time.
- Choosing a time does not check availability again (kept in the code, but not observable in the model: see `SelectTime` under "## Left out").
- A one-digit hour before 1 p.m. prints with its own digits: `"00:30"` in
  English is `"0:30 AM"`, not `"12:30 AM"`.
- `formatWorkingHours` also drops a day whose configured hours are the
  closed text itself (`SiteInfo.HebrewClosedTextDropped`).

## Model

| member | source | states |
|---|---|---|
| Text.NatToString | src/components/Schedule.tsx:198 | the decimal text of a number: digits only, one digit exactly below 10, no leading zero |
| Text.DecimalOfNatToString | src/components/Schedule.tsx:198 | reading the printed number back gives the number |
| Text.NatToStringInjective | src/components/Schedule.tsx:198 | different numbers print differently |
| Text.Pad2 | src/components/Schedule.tsx:198 | `padStart(2, '0')` of a number below 100 is two digits whose value is the number |
| Text.Pad2OfValue | src/components/Schedule.tsx:198 | every two-digit text is the padding of its own value |
| Calendar.DaysInMonth | src/components/Schedule.tsx:346 | the last day of a month, `new Date(y, m + 1, 0)`, is 28 to 31, and 29 exactly in a leap February |
| Calendar.Weekday | src/components/Schedule.tsx:182 | `getDay()` is always 0 to 6 |
| Calendar.KnownWeekdays | src/components/Schedule.tsx:182 | 1 January 1970 is a Thursday, 2 June 2025 a Monday, 29 February 2000 a Tuesday |
| Calendar.EpochMsOffset | src/components/Schedule.tsx:158-160 | two times on the same day are as many milliseconds apart as 60000 times their distance in minutes |
| Calendar.NextMonth | src/components/Schedule.tsx:481 | the month after a month is later than it, with no month in between |
| Calendar.PrevMonth | src/components/Schedule.tsx:461 | the month before a month is earlier than it, with no month in between |
| Calendar.PrevNextInverse | src/components/Schedule.tsx:461-481 | the two month arrows undo each other |
| Calendar.LastDayPrecedesNextMonth | src/components/Schedule.tsx:346 | the day after a month's last day is the first day of the next month, across the new year and leap Februaries |
| Calendar.NotBeforeMonth | src/components/Schedule.tsx:208-212 | a day that is not past lies in today's month or later |
| Availability.ParseClock | src/components/Schedule.tsx:157 | `hours * 60 + minutes` of a well-formed `HH:MM` text is below 6000 |
| Availability.FormatClock | src/components/Schedule.tsx:196-198 | a minute count is printed as a well-formed zero-padded `HH:MM` |
| Availability.ParseFormatClock | src/components/Schedule.tsx:196-198 | parsing a printed slot gives its minute back |
| Availability.FormatParseClock | src/components/Schedule.tsx:196-198 | printing a parsed well-formed time gives the same text back |
| Availability.Candidates | src/components/Schedule.tsx:191-195 | every value of the loop variable lies between the opening and the closing minute |
| Availability.CandidatesShape | src/components/Schedule.tsx:191-195 | the candidates are `start + k * step` in order, none exists exactly when the day opens after it closes, and the last lies within one step of the closing minute |
| Availability.CandidatesAscending | src/components/Schedule.tsx:195 | candidates are strictly ascending |
| Availability.InVacationAt | src/components/Schedule.tsx:169-179 | only a vacation whose start is not after its end can cover a minute, so a list of inverted ranges covers nothing |
| Availability.IsTimeInVacation | src/components/Schedule.tsx:169-179 | the same for the check on the printed label |
| Availability.BookedAt | src/components/Schedule.tsx:156-167 | only an appointment with a positive duration can block a minute, its window being closed at the start and open at the end |
| Availability.IsTimeSlotBooked | src/components/Schedule.tsx:156-167 | the same for the check on the printed label |
| Availability.FreeMinutes | src/components/Schedule.tsx:200-202 | the filter never keeps more minutes than there are candidates |
| Availability.FreeMinutesMembership | src/components/Schedule.tsx:200-202 | a minute is kept exactly when it is a candidate outside every vacation and every appointment |
| Availability.FreeMinutesAscending | src/components/Schedule.tsx:200-202 | filtering keeps ascending order |
| Availability.Labels | src/components/Schedule.tsx:196-198 | one label per kept minute |
| Availability.LabelsAt | src/components/Schedule.tsx:196-198 | label `i` is the printed `HH:MM` of kept minute `i` |
| Availability.LabelChecksAgree | src/components/Schedule.tsx:196-200 | checking the printed label for vacations and bookings is the same as checking its minute |
| Availability.SlotOfFreeCandidate | src/components/Schedule.tsx:195-203 | every slot is the printed form of a free candidate |
| Availability.FreeCandidateInSlots | src/components/Schedule.tsx:195-203 | the printed form of every free candidate is a slot |
| Availability.SlotsOfMembership | src/components/Schedule.tsx:195-203 | a text is a slot exactly when it is the printed form of some free candidate |
| Availability.SlotsOfAscending | src/components/Schedule.tsx:195-203 | slots are well-formed times in strictly ascending order |
| Availability.SlotsOfEmpty | src/components/Schedule.tsx:195-203 | no slot is left exactly when every candidate is taken |
| Availability.CollectSlots | src/components/Schedule.tsx:193-205 | the loop returns exactly the specification's slots for the candidates from opening to closing |
| Availability.GenerateTimeSlots | src/components/Schedule.tsx:181-206 | the generator returns `TimeSlots`, the empty list for a day without hours |
| Availability.TimeSlots | src/components/Schedule.tsx:183-185 | a day without hours has no slots |
| Availability.TimeSlotsMembership | src/components/Schedule.tsx:181-206 | on an open weekday a text is a slot exactly when it is the printed form of a free candidate between opening and closing |
| Availability.TimeSlotsOrdered | src/components/Schedule.tsx:181-206 | the slots of any day are well-formed times in strictly ascending order |
| Availability.TimeSlotsSpec | src/components/Schedule.tsx:181-206 | a closed weekday has no slots; an open one has exactly the printed free candidates, well-formed and ascending |
| Availability.IsAvailable | src/components/Schedule.tsx:226-230 | a day is available exactly when it has a slot; the closed-weekday test agrees with the empty slot list |
| Availability.AvailableIffFreeCandidate | src/components/Schedule.tsx:226-230 | a day is available exactly when its weekday is open and one of its candidates is free |
| Availability.AppointmentCoversMinute | src/components/Schedule.tsx:156-167 | an appointment at minute `a` covers minute `t` exactly when `a <= t` and `t` lies within its duration (end excluded) |
| Availability.HalfHourAppointmentExample | src/components/Schedule.tsx:156-167 | a 30-minute appointment at 10:00 blocks 10:00 and 10:20 and, alone, leaves 10:40 free |
| Availability.VacationCoversMinute | src/components/Schedule.tsx:169-179 | a vacation whose inclusive seconds range spans a whole day covers every minute of it |
| Availability.VacationClosesDay | src/components/Schedule.tsx:169-206 | such a day offers no slot |
| Availability.VacationMissesMinute | src/components/Schedule.tsx:169-179 | a vacation ending before a day's first second, or starting after its last minute, covers no minute of that day |
| Availability.AppointmentMissesMinute | src/components/Schedule.tsx:156-167 | an appointment ending by a day's first millisecond, or starting after its last minute, blocks no minute of that day |
| Availability.UntouchedMinuteFree | src/components/Schedule.tsx:156-179 | on a day that no vacation and no appointment meets, every minute is free |
| Availability.FreeMinutesAllFree | src/components/Schedule.tsx:200-202 | when every candidate is free the filter keeps them all, in order |
| Availability.UntouchedDayOffersAll | src/components/Schedule.tsx:181-206 | on such a day, closing by 23:59, the slots are the labels of every candidate from opening to closing: vacations and appointments on other days change nothing |
| Availability.NineToSevenMinutes | src/App.tsx:22-30 | `"09:00-19:00"` opens at minute 540 and closes at 1140 |
| Availability.NineToSevenEveryTwenty | src/App.tsx:159 | every 20 minutes from 09:00 to 19:00 gives 31 candidates from 540 to 1140, the closing minute included |
| Availability.NineToSevenLabels | src/components/Schedule.tsx:196-198 | the first and last of them print as `"09:00"` and `"19:00"` |
| Availability.NineToSevenFullDay | src/components/Schedule.tsx:181-206 | a `"09:00-19:00"` day on a 20-minute grid that no vacation and no appointment meets offers 31 slots, the first `"09:00"` and the last `"19:00"` |
| CalendarGrid.LeadingBlanks | src/components/Schedule.tsx:348-355 | a month starts with 0 to 6 blank cells |
| CalendarGrid.IsLastFiveDays | src/components/Schedule.tsx:379-380 | only a day from the 24th on, in a month with the displayed month's number, can be one of the last five |
| CalendarGrid.CalendarDays | src/components/Schedule.tsx:342-403 | a month's grid has 28 to 40 cells: at most 6 blanks, the month's days and at most 3 overflow days |
| CalendarGrid.GenerateCalendarDays | src/components/Schedule.tsx:342-414 | the three loops build exactly the cells `CalendarDays` describes |
| CalendarGrid.CalendarDaysShape | src/components/Schedule.tsx:342-403 | blanks for the first day's weekday, then every day of the month in order, then days 1 to 3 of the next month exactly when today is in the last five days |
| CalendarGrid.CalendarDaysValid | src/components/Schedule.tsx:342-403 | every day cell is a real date no earlier than the displayed month |
| CalendarGrid.DaysInWeekdayColumns | src/components/Schedule.tsx:348-359 | laid out seven to a row, each day sits in its weekday's column |
| CalendarGrid.LastFiveDaysIgnoresYear | src/components/Schedule.tsx:379-380 | January 2026 gets overflow days when today is 30 January 2025 |
| CalendarGrid.DecemberOverflow | src/components/Schedule.tsx:382-384 | the overflow after December ends on 3 January of the next year |
| Booking.IsPast | src/components/Schedule.tsx:208-212 | a past day is not today, and today is not before it |
| Booking.IsToday | src/components/Schedule.tsx:219-224 | a date is today exactly when day, month and year all match, that is when it equals today |
| Booking.IsNextMonth | src/components/Schedule.tsx:232-234 | after a December cursor no date is "next", the year not being compared |
| Booking.IsCurrentMonth | src/components/Schedule.tsx:236-240 | the cursor is current exactly when it is today's month of today's year |
| Booking.Selectable | src/components/Schedule.tsx:120 | a cell is enabled exactly when the day is not before today and has a slot |
| Booking.IsTodayNotPast | src/components/Schedule.tsx:208-224 | a date is today exactly when it equals today, and today is never past |
| Booking.IsNextMonthQuirk | src/components/Schedule.tsx:232-234 | within one year, "next month" agrees with month order; after December nothing is "next" |
| Booking.PrevMonthStaysCurrent | src/components/Schedule.tsx:236-240 | stepping back from a month after today's stays at today's month or later |
| Booking.BookingSession.constructor | src/components/Schedule.tsx:139-153 | the date step, nothing chosen, an empty form, the calendar on today's month, no timer pending |
| Booking.BookingSession.SelectDate | src/components/Schedule.tsx:251-259 | a past or unavailable day changes nothing; otherwise the day is chosen, the step becomes type, and the month follows only when its number is greater |
| Booking.BookingSession.SelectType | src/components/Schedule.tsx:261-265 | the type is set, the time cleared, the step becomes time |
| Booking.BookingSession.SelectTime | src/components/Schedule.tsx:267-270 | the clicked slot is taken as given and the step becomes details |
| Booking.BookingSession.EditName | src/components/Schedule.tsx:610 | typing changes the name only |
| Booking.BookingSession.EditPhone | src/components/Schedule.tsx:620 | typing changes the phone only |
| Booking.BookingSession.EditCode | src/components/Schedule.tsx:652 | typing changes the code only |
| Booking.BookingSession.SubmitDetails | src/components/Schedule.tsx:272-280 | the step advances to verification exactly when name and phone are filled |
| Booking.BookingSession.SubmitVerification | src/components/Schedule.tsx:282-291 | success exactly when a code is present, the other checks being implied by the invariant; each success starts one reset timer |
| Booking.BookingSession.SuccessTimerElapsed | src/components/Schedule.tsx:291-302 | a pending timer fires: everything but the calendar month returns to its initial value |
| Booking.BookingSession.Back | src/components/Schedule.tsx:305-323 | one step back, clearing the date, the type, the time or nothing, and nothing else |
| Booking.BookingSession.ShowPreviousMonth | src/components/Schedule.tsx:461-469 | the previous month, only when not on today's month, keeping the cursor at today's month or later |
| Booking.BookingSession.ShowNextMonth | src/components/Schedule.tsx:481 | the next month |
| Booking.BookOnce | src/components/Schedule.tsx:251-302 | a selectable date, a catalogue type, one of the date's slots, a name, a phone and a code give a success for exactly that date, type and time; after the timer the widget is on the date step with nothing chosen and an empty form |
| Translations.Keys | src/contexts/LanguageContext.tsx:11-122 | the keys of a table in table order |
| Translations.Lookup | src/contexts/LanguageContext.tsx:135 | no entry exactly when the key is missing; an entry is one the table pairs with the key |
| Translations.Translate | src/contexts/LanguageContext.tsx:134-136 | the result is the key itself or the table's entry for the key, and a non-empty key never translates to empty text |
| Translations.TranslateSpec | src/contexts/LanguageContext.tsx:134-136 | a missing key comes back as itself; a present key comes back as its non-empty entry |
| Translations.SameKeys | src/contexts/LanguageContext.tsx:11-122 | English and Hebrew define the same keys in the same order |
| Translations.TablesNonEmpty | src/contexts/LanguageContext.tsx:11-122 | no entry is empty, so the fallback is only for missing keys |
| Translations.InitialLanguage | src/contexts/LanguageContext.tsx:131-132 | Hebrew unless another default is given |
| Translations.Direction | src/contexts/LanguageContext.tsx:140 | right-to-left exactly for Hebrew |
| Translations.LanguageProvider.constructor | src/contexts/LanguageContext.tsx:131-132 | the provider starts in the initial language |
| Translations.LanguageProvider.SetLanguage | src/contexts/LanguageContext.tsx:132-139 | the language becomes the one given |
| Translations.UseLanguage | src/contexts/LanguageContext.tsx:147-152 | the error exactly when there is no enclosing provider, the provider otherwise |
| LanguageSwitcher.Toggled | src/components/LanguageSwitcher.tsx:10 | a click always changes the language |
| LanguageSwitcher.Label | src/components/LanguageSwitcher.tsx:16 | the label is the short name of the language a click switches to |
| LanguageSwitcher.ToggleTwice | src/components/LanguageSwitcher.tsx:10-16 | two clicks restore the language, and the label then names the original one |
| LanguageSwitcher.Click | src/components/LanguageSwitcher.tsx:10 | English becomes Hebrew and Hebrew becomes English |
| SiteInfo.DayName | src/components/Contact.tsx:94-100 | the weekday name for indices 0 to 6, none beyond |
| SiteInfo.DayNamesDistinct | src/components/Contact.tsx:94-96 | the seven names differ in each language |
| SiteInfo.Split | src/components/Contact.tsx:105-106 | `split` gives at least one part and no part holds the separator |
| SiteInfo.SplitJoin | src/components/Contact.tsx:105-109 | joining the parts with the separator gives the text back |
| SiteInfo.SplitAround | src/components/Contact.tsx:105-106 | splitting around one separator splits each side separately |
| SiteInfo.DigitPrefix | src/components/Contact.tsx:107 | the leading digits `parseInt` reads, stopping at the first non-digit |
| SiteInfo.HexPrefix | src/components/Contact.tsx:107 | the leading hexadecimal digits `parseInt` reads after `0x`, stopping at the first other character |
| SiteInfo.ParseInt | src/components/Contact.tsx:107 | text starting with a decimal digit, other than a `0x` prefix, is a non-negative number; `0x` alone is NaN |
| SiteInfo.ParseUnsigned | src/components/Contact.tsx:107 | after the sign, `0x` alone gives no number and a leading decimal digit always gives one |
| SiteInfo.ParseDigits | src/components/Contact.tsx:107 | `parseInt` of a digit string is its decimal value, leading zeros included |
| SiteInfo.ParseHexDigits | src/components/Contact.tsx:107 | `parseInt` of `0x` or `0X` followed by hexadecimal digits is their value in base 16 |
| SiteInfo.ParseIntHexExample | src/components/Contact.tsx:107 | `parseInt("0x10")` is 16 |
| SiteInfo.ParseIntLeadingZeroExample | src/components/Contact.tsx:107 | `parseInt("010")` is 10, not octal |
| SiteInfo.Clock12 | src/components/Contact.tsx:108 | the 12-hour text ends in `M`, with `P` exactly from hour 12 |
| SiteInfo.Clock12Examples | src/components/Contact.tsx:108 | 9 is `9:00 AM`, 19 is `7:00 PM`, 12 is `12:00 PM`, 0 is `0:30 AM` with minutes `30` |
| SiteInfo.EnglishTimeOfClock | src/components/Contact.tsx:105-108 | `HH:MM` converts to the 12-hour text of hour `HH` and minutes `MM` |
| SiteInfo.EnglishRangeOfClocks | src/components/Contact.tsx:105-109 | `"HH:MM-HH:MM"` converts to the two 12-hour texts joined by `" - "` |
| SiteInfo.EnglishHoursOfTwo | src/components/Contact.tsx:105-109 | a two-part range converts part by part around `" - "` |
| SiteInfo.EnglishHours | src/components/About.tsx:60-64 | English hours always end in `AM` or `PM`, whatever the configured text, so they never read as closed |
| SiteInfo.JoinEnds | src/components/Contact.tsx:109 | ends that each end in `M` join around `" - "` into text ending in `M` |
| SiteInfo.HoursText | src/components/Contact.tsx:101-109 | closed text for a day without hours; the hours unchanged in Hebrew; the 12-hour range in English |
| SiteInfo.Rendered | src/components/Contact.tsx:98-110 | one entry per weekday in order, each with that weekday's name |
| SiteInfo.KeepOpen | src/components/Contact.tsx:111 | the filter never returns more entries than it is given |
| SiteInfo.KeepOpenMembership | src/components/Contact.tsx:111 | the filter keeps an entry exactly when its hours are not a closed text |
| SiteInfo.KeepOpenAppend | src/components/Contact.tsx:111 | the filter keeps order, part by part |
| SiteInfo.FormatWorkingHours | src/components/Contact.tsx:93-112 | at most one entry per configured weekday |
| SiteInfo.FormatWorkingHoursSpec | src/components/Contact.tsx:93-112 | an entry is listed exactly when it is some weekday's name and hours text and that text is not a closed text |
| SiteInfo.EnglishKeepsOpenDays | src/components/About.tsx:48-67 | in English every day with hours is listed with its name and 12-hour range |
| SiteInfo.ClosedDayDropped | src/components/About.tsx:53-66 | a day without hours is never listed |
| SiteInfo.HebrewClosedTextDropped | src/components/About.tsx:56-66 | a Hebrew day configured as `סגור` is dropped like a closed day |
| SiteInfo.Sanitize | src/components/Contact.tsx:119 | the sanitised phone holds only digits and `+` |
| SiteInfo.SanitizeAppend | src/components/Contact.tsx:119 | sanitising keeps the original order, part by part |
| SiteInfo.SanitizeKeepsPhoneChars | src/components/About.tsx:127 | a phone of digits and `+` only is left unchanged |
| SiteInfo.SanitizeIdempotent | src/components/About.tsx:127 | sanitising twice is sanitising once |
| SiteInfo.SanitizeLength | src/components/Contact.tsx:119 | the result is as long as the count of digits and `+` in the phone |
| SiteInfo.TelHref | src/components/Contact.tsx:119 | `tel:` followed by exactly the sanitised phone |
| SiteInfo.FullAddress | src/components/Contact.tsx:89-91 | the four fields plus three `", "` separators |
| SiteInfo.FullAddressFields | src/components/About.tsx:69-71 | when no field holds a comma, splitting the address at commas gives the street, then other, city and state each after its leading space (from the `", "` join), in that order |
| ContactForm.CanSubmit | src/components/Contact.tsx:316 | the button is enabled only when no submission is in flight and the form is not the empty form |
| ContactForm.CanSubmitNeedsEveryField | src/components/Contact.tsx:316 | submitting needs all three fields and no submission in flight; the cleared form cannot be sent |
| ContactForm.Form.constructor | src/components/Contact.tsx:80-86 | empty fields, not submitting, no notice |
| ContactForm.Form.EditName | src/components/Contact.tsx:286 | typing changes the name only |
| ContactForm.Form.EditPhone | src/components/Contact.tsx:295 | typing changes the phone only |
| ContactForm.Form.EditMessage | src/components/Contact.tsx:305 | typing changes the message only |
| ContactForm.Form.BeginSubmit | src/components/Contact.tsx:141-143 | the enabled button starts a submission and disables itself |
| ContactForm.Form.FinishSubmit | src/components/Contact.tsx:146-149 | submitting ends, the notice appears and a reset is pending |
| ContactForm.Form.SuccessTimerElapsed | src/components/Contact.tsx:149-152 | the notice goes, the form is emptied and the button is disabled |
| ContactForm.SubmitOnce | src/components/Contact.tsx:141-153 | a filled form, once submitted and reset, is empty with no notice and cannot be sent |
| Portfolio.NextIndex | src/components/Portfolio.tsx:31-33 | the next slide stays in range and wraps from the last to the first |
| Portfolio.PrevIndex | src/components/Portfolio.tsx:35-37 | the previous slide stays in range and wraps from the first to the last |
| Portfolio.NextPrevInverse | src/components/Portfolio.tsx:31-37 | the two arrows undo each other |
| Portfolio.Advance | src/components/Portfolio.tsx:31-33 | repeated presses of the right arrow stay in range |
| Portfolio.AdvanceWithinRound | src/components/Portfolio.tsx:31-33 | `k` presses from slide `i`, `k` at most the slide count, land on `i + k` wrapped once |
| Portfolio.FullCircle | src/components/Portfolio.tsx:31-33 | as many presses as slides return to the start |
| Portfolio.SwipeTarget | src/components/Portfolio.tsx:47-57 | whatever the coordinates, the slide after a swipe is a slide of the carousel |
| Portfolio.SwipeCases | src/components/Portfolio.tsx:47-57 | more than 50 pixels left goes next, more than 50 right goes back, anything else stays |
| Portfolio.SwipeBackAndForth | src/components/Portfolio.tsx:47-57 | a swipe and its reverse return to the starting slide |
| Portfolio.CapturedRestNeverSwipes | src/components/Portfolio.tsx:47-90 | a listener that captured equal coordinates never changes the slide |
| Portfolio.Carousel.constructor | src/components/Portfolio.tsx:24-27 | slide 0, the configured view, no touch |
| Portfolio.Carousel.NextSlide | src/components/Portfolio.tsx:287 | the next slide, nothing else changed |
| Portfolio.Carousel.PrevSlide | src/components/Portfolio.tsx:297 | the previous slide, nothing else changed |
| Portfolio.Carousel.SelectDot | src/components/Portfolio.tsx:315 | dot `k` shows slide `k` |
| Portfolio.Carousel.SetGridView | src/components/Portfolio.tsx:169-183 | the view is set; only a real change re-attaches the touch listener with the current coordinates |
| Portfolio.Carousel.TouchStartAsWritten | src/components/Portfolio.tsx:39-41 | the start coordinate is recorded and the end coordinate is left as it was |
| Portfolio.Carousel.TouchStart | src/components/Portfolio.tsx:39-41 | corrected: a gesture starts at rest, with both coordinates at the touch point, so a release without a move is no swipe |
| Portfolio.Carousel.TouchMove | src/components/Portfolio.tsx:43-45 | the end coordinate is recorded |
| Portfolio.Carousel.TouchEndAsWritten | src/components/Portfolio.tsx:47-90 | the attached listener decides by its captured coordinates, then both coordinates return to 0 |
| Portfolio.Carousel.TouchEnd | src/components/Portfolio.tsx:47-60 | corrected: the gesture's own coordinates, as the corrected `TouchStart` and `TouchMove` recorded them, decide the swipe, then both return to 0 |
| Portfolio.Carousel.KeyDown | src/components/Portfolio.tsx:62-70 | in the slideshow, left goes back and right goes on; other keys and the grid view change nothing |
| Portfolio.Tap | src/components/Portfolio.tsx:39-59 | corrected: a touch released without a move never changes the slide, whatever came before and wherever the finger landed |
| Portfolio.TapOnCarousel | src/components/Portfolio.tsx:285-304 | corrected: a tap on any slide of a fresh carousel, on an arrow button or elsewhere, leaves that slide showing, so the button's own click moves one slide and not two |
| Portfolio.SwipeOnFreshCarousel | src/components/Portfolio.tsx:47-90 | a 200-pixel left swipe on a fresh five-slide carousel stays on slide 0 as written and reaches slide 1 as intended |
| Navbar.InitialDarkMode | src/components/Navbar.tsx:27-30 | dark exactly when the saved text is `"true"` |
| Navbar.SavedModeRestored | src/components/Navbar.tsx:27-30 | the saved mode is read back as the same mode |
| Navbar.MenuItems | src/components/Navbar.tsx:112-117 | one to four entries |
| Navbar.MenuItemsSpec | src/components/Navbar.tsx:112-117 | the schedule always listed; each other section exactly when its switch is not off; schedule after about and portfolio, before contact |
| Navbar.Rendered | src/components/Navbar.tsx:119-121 | nothing is rendered exactly when the bar's switch is not on |
| Navbar.NavbarState.constructor | src/components/Navbar.tsx:26-33 | closed menu, restored mode, not scrolled, visible, last position 0 |
| Navbar.NavbarState.HandleScroll | src/components/Navbar.tsx:39-55 | solid past 20 pixels, hidden after a move down, shown otherwise, position remembered |
| Navbar.NavbarState.ToggleDarkMode | src/components/Navbar.tsx:105-110 | the mode flips and is saved as its text, so a reload restores it |
| Navbar.NavbarState.ToggleMenu | src/components/Navbar.tsx:183 | the menu opens or closes |
| Navbar.NavbarState.FollowLink | src/components/Navbar.tsx:78-95 | the menu closes when the target section exists |
| Navbar.NavbarState.MouseDown | src/components/Navbar.tsx:59-69 | a press outside the menu and its button closes it |
| Navbar.ScrollDownThenUp | src/components/Navbar.tsx:46-52 | a scroll down hides the bar and a scroll back up shows it |

## Left out

- Markup, animations and styling (JSX, framer-motion, Tailwind) are presentational and not modelled, and neither are the components that are only presentational.
- Timers and `async`/`await` are not modelled as time. Each submit handler is one atomic step, or two for the contact form (`BeginSubmit` / `FinishSubmit`). A success timer firing is a step of its own.
- The booking widget's `isSubmitting` flag is left out. It only disables buttons while a simulated request is pending, and the steps are atomic.
- Wall-clock time is a parameter. `new Date()` is the `today` argument, and the booking session reads it once.
- Local time is a fixed UTC offset. Daylight-saving changes are not modelled.
- Locale formatting (`toLocaleDateString`, `getDayNames`, `formatSelectedDate`) depends on locale data and is left out.
- Vacation ranges, appointment timestamps and durations are taken already parsed as integers. Their `"start-end"` and numeric strings are not parsed, and the NaN results of malformed ones are not modelled.
- Availability.ValidSetup: business hours are required to be well formed (`"HH:MM-HH:MM"`, two digits each, with minutes at most 59) and `minutesPerLine` to be positive. Malformed hours, which the source turns into NaN and no slots, are not modelled. Neither is a minute field above 59 such as `"09:75"`, which the source accepts as 9 * 60 + 75 and `setHours` carries into the next hour, nor an empty hours string (the source treats it like a closed day).
- `bookedAppointments` is always empty in the source. Here it is an input list, so the conflict rule applies.
- The booking handlers require the step on which their controls are rendered (for example `SelectTime` requires the time step). The source only renders them there. `SelectTime` also requires that the time is one of the chosen date's slots, which the only call site (`src/components/Schedule.tsx:568-572`) passes. Setup and today do not change in a session, so that slot list cannot change between rendering and the click: the quirk that choosing a time does not check availability again cannot be observed in the model.
- Portfolio.Carousel.constructor: a carousel with no pictures is left out (`n > 0`). `% 0` would give NaN.
- Touch and scroll coordinates are whole pixels, not floating-point numbers.
- `localStorage`, the `dark` class on the document, `window.scrollTo` and the DOM `contains` tests are not modelled. The saved text is a field, and the tests are boolean arguments.
- SiteInfo.ParseInt: leading whitespace is the ASCII set plus a few Unicode spaces, not every Unicode space separator. Numbers too large to print without an exponent are not modelled, and neither is the loss of precision beyond 2^53. The `0x`/`0X` prefix is modelled; JavaScript gives `-0` for `"-0"`, which is `0` here.
- SiteInfo.EnglishRangeOfClocks states the conversion for any two `HH:MM` ends. The configured `"09:00-19:00"` is covered by that lemma together with `Clock12Examples`, not by a single literal instance.
- SiteInfo.FullAddress states the length of the result. `FullAddressFields` gives the field order for comma-free fields.
- Translations.Translate: keys that collide with JavaScript object prototype members (such as `constructor`) are not modelled.
- The map link built with `encodeURIComponent` and the `mailto:` link are not modelled.
- `src/App.tsx` routing and the footer are not part of this model. Values from the site configuration appear only as examples.

## Findings

| source | as written | input that shows it | evidently intended | confidence | as-written member | corrected member |
|---|---|---|---|---|---|---|
| src/components/Portfolio.tsx:47-90 | the `touchend` listener is attached by an effect that depends on `isGridView` only, so `handleTouchEnd` keeps the `touchStart` and `touchEnd` of the render that attached it (0 and 0) and a swipe never changes the slide | a carousel of 5 pictures opened in the slideshow view; touch at x = 300, move to x = 100, release: the slide stays 0 | the gesture's own coordinates decide, so the slide becomes 1; a gesture starts at rest (its end at its start), so a tap without a move never swipes | high, not executed | Portfolio.Carousel.TouchEndAsWritten, Portfolio.SwipeOnFreshCarousel | Portfolio.Carousel.TouchEnd, Portfolio.Carousel.TouchStart, Portfolio.Tap |
