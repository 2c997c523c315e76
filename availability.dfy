/** The availability calculator of the booking widget: which "HH:MM" start times
    a date offers, given the weekly business hours, the slot granularity, the
    vacation ranges and the appointments already booked. */
module Availability {
  import opened Text
  import opened Calendar

  /** An entry of the appointment-type catalogue; `durationMs` is the parsed
      `durationMS` string. */
  datatype AppointmentType = AppointmentType(id: string, name: string, price: string, durationMs: int)

  /** An existing booking; `timestampMs` is the parsed epoch-millisecond start. */
  datatype Appointment = Appointment(id: string, kind: AppointmentType, name: string, phone: string, timestampMs: int)

  /** A vacation `"start-end"`, parsed: epoch seconds, both ends inclusive. */
  datatype Vacation = Vacation(start: int, end: int)

  /** Everything slot generation reads: `workingDays` (index 0 is Sunday, `None`
      is closed), `config.vacations`, `config.minutesPerLine`, the booked
      appointments, and the local zone's offset from UTC in minutes. */
  datatype Setup = Setup(
    workingDays: seq<Option<string>>,
    vacations: seq<Vacation>,
    minutesPerLine: int,
    booked: seq<Appointment>,
    utcOffsetMinutes: int)

  /** `"HH:MM"`: two digits, a colon, two digits making at most 59 minutes. */
  predicate WellFormedClock(s: string) {
    |s| == 5 && IsDigit(s[0]) && IsDigit(s[1]) && s[2] == ':' && '0' <= s[3] <= '5' && IsDigit(s[4])
  }

  /** `"HH:MM-HH:MM"`: an opening and a closing time. */
  predicate WellFormedHours(s: string) {
    |s| == 11 && WellFormedClock(s[..5]) && s[5] == '-' && WellFormedClock(s[6..])
  }

  predicate ValidSetup(c: Setup) {
    && |c.workingDays| == 7
    && (forall i :: 0 <= i < 7 && c.workingDays[i].Some? ==> WellFormedHours(c.workingDays[i].value))
    && c.minutesPerLine > 0
  }

  /** `timeStr.split(':').map(Number)` then `hours * 60 + minutes`. */
  function ParseClock(s: string): (t: nat)
    requires WellFormedClock(s)
    ensures t < 6000
  {
    DecimalValueOfTwo(s[..2]);
    DecimalValueOfTwo(s[3..]);
    DecimalValue(s[..2]) * 60 + DecimalValue(s[3..])
  }

  /** The slot label: zero-padded hour `t / 60` and minute `t % 60`. */
  function FormatClock(t: int): (s: string)
    requires 0 <= t < 6000
    ensures WellFormedClock(s)
  {
    var h := Pad2(t / 60);
    var m := Pad2(t % 60);
    DecimalValueOfTwo(m);
    h + ":" + m
  }

  /** Parsing a label gives back the minute it was made from. */
  lemma ParseFormatClock(t: int)
    requires 0 <= t < 6000
    ensures ParseClock(FormatClock(t)) == t
  {
    var s := FormatClock(t);
    assert s[..2] == Pad2(t / 60);
    assert s[3..] == Pad2(t % 60);
  }

  /** Formatting a parsed label gives back the label. */
  lemma FormatParseClock(s: string)
    requires WellFormedClock(s)
    ensures FormatClock(ParseClock(s)) == s
  {
    var hh, mm := s[..2], s[3..];
    DecimalValueOfTwo(hh);
    DecimalValueOfTwo(mm);
    Pad2OfValue(hh);
    Pad2OfValue(mm);
    var h, m := DecimalValue(hh), DecimalValue(mm);
    assert ParseClock(s) == h * 60 + m;
    HourMinuteSplit(h, m);
    assert FormatClock(ParseClock(s)) == Pad2(h) + ":" + Pad2(m);
    assert s == hh + ":" + mm;
  }

  /** Whole hours and the minutes below 60 come back out of `h * 60 + m`. */
  lemma HourMinuteSplit(h: nat, m: nat)
    requires m < 60
    ensures (h * 60 + m) / 60 == h && (h * 60 + m) % 60 == m
  {
  }

  /** The opening and closing minute of a business-hours entry. */
  function OpenMinute(hours: string): nat
    requires WellFormedHours(hours)
  {
    ParseClock(hours[..5])
  }

  function CloseMinute(hours: string): nat
    requires WellFormedHours(hours)
  {
    ParseClock(hours[6..])
  }

  /** The candidate start minutes `start, start + g, start + 2g, ...` up to and
      including `end`: the `for` loop's values of `time`. */
  function Candidates(start: int, end: int, g: int): (r: seq<int>)
    requires g > 0
    ensures forall i :: 0 <= i < |r| ==> start <= r[i] <= end
    decreases if start > end then 0 else end - start + 1
  {
    if start > end then [] else [start] + Candidates(start + g, end, g)
  }

  /** The candidates are exactly the arithmetic progression from `start` with
      step `g` that stops at the last term not past `end`; so `end` itself is a
      candidate whenever `end - start` is a multiple of `g`. */
  lemma {:induction false} CandidatesShape(start: int, end: int, g: int)
    requires g > 0
    ensures var r := Candidates(start, end, g);
      && (start <= end <==> |r| > 0)
      && (forall k :: 0 <= k < |r| ==> r[k] == start + k * g)
      && (|r| > 0 ==> r[|r| - 1] <= end < r[|r| - 1] + g)
    decreases if start > end then 0 else end - start + 1
  {
    if start <= end {
      var r := Candidates(start, end, g);
      var rest := Candidates(start + g, end, g);
      CandidatesShape(start + g, end, g);
      assert r == [start] + rest;
      forall k | 0 < k < |r|
        ensures r[k] == start + k * g
      {
        assert r[k] == rest[k - 1] == start + g + (k - 1) * g;
      }
    }
  }

  /** `isTimeInVacation`, on a minute of the day: the slot's epoch second
      (`Math.floor(ms / 1000)`) lies in some vacation, both ends included. */
  predicate InVacationAt(c: Setup, d: Date, t: int)
    ensures (forall i :: 0 <= i < |c.vacations| ==> c.vacations[i].end < c.vacations[i].start) ==> !InVacationAt(c, d, t)
  {
    var sec := EpochMs(d, t, c.utcOffsetMinutes) / 1000;
    exists i :: 0 <= i < |c.vacations| && c.vacations[i].start <= sec <= c.vacations[i].end
  }

  /** `isTimeSlotBooked`, on a minute of the day: the slot's epoch millisecond
      lies in some booked appointment's `[start, start + duration)`. */
  predicate BookedAt(c: Setup, d: Date, t: int)
    ensures (forall i :: 0 <= i < |c.booked| ==> c.booked[i].kind.durationMs <= 0) ==> !BookedAt(c, d, t)
  {
    var ms := EpochMs(d, t, c.utcOffsetMinutes);
    exists i :: 0 <= i < |c.booked| && c.booked[i].timestampMs <= ms < c.booked[i].timestampMs + c.booked[i].kind.durationMs
  }

  /** A minute the widget offers: neither in a vacation nor booked. */
  predicate FreeAt(c: Setup, d: Date, t: int) {
    !InVacationAt(c, d, t) && !BookedAt(c, d, t)
  }

  /** `isTimeInVacation(date, timeStr)`: the label is parsed back into hours and
      minutes before the timestamp is built. */
  predicate IsTimeInVacation(c: Setup, d: Date, timeStr: string)
    requires WellFormedClock(timeStr)
    ensures (forall i :: 0 <= i < |c.vacations| ==> c.vacations[i].end < c.vacations[i].start) ==> !IsTimeInVacation(c, d, timeStr)
  {
    InVacationAt(c, d, ParseClock(timeStr))
  }

  /** `isTimeSlotBooked(date, timeStr)`. */
  predicate IsTimeSlotBooked(c: Setup, d: Date, timeStr: string)
    requires WellFormedClock(timeStr)
    ensures (forall i :: 0 <= i < |c.booked| ==> c.booked[i].kind.durationMs <= 0) ==> !IsTimeSlotBooked(c, d, timeStr)
  {
    BookedAt(c, d, ParseClock(timeStr))
  }

  /** The candidate minutes that are neither in a vacation nor booked, in order. */
  function FreeMinutes(c: Setup, d: Date, ts: seq<int>): (r: seq<int>)
    ensures |r| <= |ts|
  {
    if ts == [] then []
    else (if FreeAt(c, d, ts[0]) then [ts[0]] else []) + FreeMinutes(c, d, ts[1..])
  }

  /** The `"HH:MM"` label of each minute. */
  function Labels(ms: seq<int>): (r: seq<string>)
    requires forall i :: 0 <= i < |ms| ==> 0 <= ms[i] < 6000
    ensures |r| == |ms|
  {
    if ms == [] then [] else [FormatClock(ms[0])] + Labels(ms[1..])
  }

  /** Label `i` is the label of minute `i`. */
  lemma {:induction false} LabelsAt(ms: seq<int>, i: int)
    requires forall k :: 0 <= k < |ms| ==> 0 <= ms[k] < 6000
    requires 0 <= i < |ms|
    ensures Labels(ms)[i] == FormatClock(ms[i])
  {
    if i > 0 {
      LabelsAt(ms[1..], i - 1);
    }
  }

  /** Labelling distributes over concatenation. */
  lemma {:induction false} LabelsAppend(xs: seq<int>, ys: seq<int>)
    requires forall k :: 0 <= k < |xs| ==> 0 <= xs[k] < 6000
    requires forall k :: 0 <= k < |ys| ==> 0 <= ys[k] < 6000
    ensures Labels(xs + ys) == Labels(xs) + Labels(ys)
  {
    if xs == [] {
      assert xs + ys == ys;
    } else {
      assert (xs + ys)[1..] == xs[1..] + ys;
      LabelsAppend(xs[1..], ys);
    }
  }

  /** The labels the loop pushes for the candidate minutes `ts`, in order. */
  function SlotsOf(c: Setup, d: Date, ts: seq<int>): seq<string>
    requires forall i :: 0 <= i < |ts| ==> 0 <= ts[i] < 6000
  {
    FreeMinutesInRange(c, d, ts);
    Labels(FreeMinutes(c, d, ts))
  }

  /** Every free minute is one of the candidates, and a candidate is among the
      free minutes exactly when it is free. */
  lemma {:induction false} FreeMinutesMembership(c: Setup, d: Date, ts: seq<int>, t: int)
    ensures t in FreeMinutes(c, d, ts) <==> t in ts && FreeAt(c, d, t)
  {
    if ts != [] {
      FreeMinutesMembership(c, d, ts[1..], t);
      assert ts == [ts[0]] + ts[1..];
    }
  }

  lemma FreeMinutesInRange(c: Setup, d: Date, ts: seq<int>)
    requires forall i :: 0 <= i < |ts| ==> 0 <= ts[i] < 6000
    ensures forall i :: 0 <= i < |FreeMinutes(c, d, ts)| ==> 0 <= FreeMinutes(c, d, ts)[i] < 6000
  {
    var r := FreeMinutes(c, d, ts);
    forall i | 0 <= i < |r|
      ensures 0 <= r[i] < 6000
    {
      FreeMinutesMembership(c, d, ts, r[i]);
    }
  }

  /** Filtering appends: one more candidate adds itself when it is free. */
  lemma {:induction false} FreeMinutesSnoc(c: Setup, d: Date, ts: seq<int>, t: int)
    ensures FreeMinutes(c, d, ts + [t]) == FreeMinutes(c, d, ts) + (if FreeAt(c, d, t) then [t] else [])
  {
    if ts == [] {
      assert ([] + [t])[1..] == [];
    } else {
      assert (ts + [t])[1..] == ts[1..] + [t];
      FreeMinutesSnoc(c, d, ts[1..], t);
    }
  }

  /** Filtering keeps the order: from strictly ascending candidates come strictly
      ascending free minutes. */
  lemma {:induction false} FreeMinutesAscending(c: Setup, d: Date, ts: seq<int>)
    requires forall i, j :: 0 <= i < j < |ts| ==> ts[i] < ts[j]
    ensures forall i, j :: 0 <= i < j < |FreeMinutes(c, d, ts)| ==> FreeMinutes(c, d, ts)[i] < FreeMinutes(c, d, ts)[j]
  {
    if ts != [] {
      var rest := FreeMinutes(c, d, ts[1..]);
      FreeMinutesAscending(c, d, ts[1..]);
      forall j | 0 <= j < |rest|
        ensures ts[0] < rest[j]
      {
        FreeMinutesMembership(c, d, ts[1..], rest[j]);
        var m :| 0 <= m < |ts[1..]| && ts[1..][m] == rest[j];
        assert ts[1..][m] == ts[m + 1];
      }
    }
  }

  /** `generateTimeSlots(date)` as a value: nothing on a closed weekday,
      otherwise the free candidates between opening and closing time. */
  function TimeSlots(c: Setup, d: Date): (r: seq<string>)
    requires ValidSetup(c)
    ensures c.workingDays[Weekday(d)].None? ==> r == []
  {
    match c.workingDays[Weekday(d)]
    case None => []
    case Some(hours) => SlotsOf(c, d, Candidates(OpenMinute(hours), CloseMinute(hours), c.minutesPerLine))
  }

  /** Every slot offered is a well-formed `HH:MM` label. */
  lemma SlotIsClock(c: Setup, d: Date, s: string)
    requires ValidSetup(c) && s in TimeSlots(c, d)
    ensures WellFormedClock(s)
  {
    TimeSlotsOrdered(c, d);
  }

  /** `isAvailable(date)`: the weekday is open and offers at least one slot. */
  predicate IsAvailable(c: Setup, d: Date)
    requires ValidSetup(c)
    ensures IsAvailable(c, d) <==> TimeSlots(c, d) != []
  {
    c.workingDays[Weekday(d)] != None && |TimeSlots(c, d)| > 0
  }

  /** `generateTimeSlots`: on a closed weekday nothing, otherwise the loop
      below between the opening and the closing minute. */
  method GenerateTimeSlots(c: Setup, d: Date) returns (slots: seq<string>)
    requires ValidSetup(c)
    ensures slots == TimeSlots(c, d)
  {
    var workingHours := c.workingDays[Weekday(d)];
    if workingHours.None? {
      return [];
    }
    slots := CollectSlots(c, d, OpenMinute(workingHours.value), CloseMinute(workingHours.value));
  }

  /** The `for` loop of `generateTimeSlots`: `time` runs from `startTime` to
      `endTime` inclusive in steps of `minutesPerLine`, and each label that is
      neither in a vacation nor booked is pushed. */
  method CollectSlots(c: Setup, d: Date, startTime: int, endTime: int) returns (slots: seq<string>)
    requires c.minutesPerLine > 0 && 0 <= startTime && endTime < 6000
    ensures slots == SlotsOf(c, d, Candidates(startTime, endTime, c.minutesPerLine))
  {
    ghost var cands := Candidates(startTime, endTime, c.minutesPerLine);
    ghost var k := 0;
    slots := [];
    var time := startTime;
    assert cands[..0] == [];
    while time <= endTime
      invariant 0 <= k <= |cands|
      invariant k < |cands| ==> cands[k] == time
      invariant k == |cands| ==> time > endTime
      invariant slots == SlotsOf(c, d, cands[..k])
      decreases |cands| - k
    {
      CandidatesNext(startTime, endTime, c.minutesPerLine, k);
      PrefixStep(c, d, cands, k);
      var timeStr := FormatClock(time);
      LabelChecksAgree(c, d, time);
      if !IsTimeInVacation(c, d, timeStr) && !IsTimeSlotBooked(c, d, timeStr) {
        slots := slots + [timeStr];
      } else {
        assert slots + [] == slots;
      }
      time := time + c.minutesPerLine;
      k := k + 1;
    }
    assert cands[..k] == cands;
  }

  /** Checking a slot through its label is checking its minute: the label
      parses back to the minute it was made from. */
  lemma LabelChecksAgree(c: Setup, d: Date, t: int)
    requires 0 <= t < 6000
    ensures IsTimeInVacation(c, d, FormatClock(t)) <==> InVacationAt(c, d, t)
    ensures IsTimeSlotBooked(c, d, FormatClock(t)) <==> BookedAt(c, d, t)
  {
    ParseFormatClock(t);
  }

  /** What the loop has pushed after `k + 1` candidates: what it had pushed
      after `k`, then the label of candidate `k` when that minute is free. */
  lemma PrefixStep(c: Setup, d: Date, ts: seq<int>, k: int)
    requires forall i :: 0 <= i < |ts| ==> 0 <= ts[i] < 6000
    requires 0 <= k < |ts|
    ensures SlotsOf(c, d, ts[..k + 1])
      == SlotsOf(c, d, ts[..k]) + (if FreeAt(c, d, ts[k]) then [FormatClock(ts[k])] else [])
  {
    assert ts[..k + 1] == ts[..k] + [ts[k]];
    FreeMinutesSnoc(c, d, ts[..k], ts[k]);
    FreeMinutesInRange(c, d, ts[..k]);
    var before := FreeMinutes(c, d, ts[..k]);
    var piece := if FreeAt(c, d, ts[k]) then [ts[k]] else [];
    LabelsAppend(before, piece);
  }

  /** Consecutive candidates are `g` apart, and one step past the last candidate
      lies beyond `end`. */
  lemma CandidatesNext(start: int, end: int, g: int, k: int)
    requires g > 0
    requires 0 <= k < |Candidates(start, end, g)|
    ensures var r := Candidates(start, end, g);
      && (k + 1 < |r| ==> r[k + 1] == r[k] + g)
      && (k + 1 == |r| ==> r[k] + g > end)
  {
    CandidatesShape(start, end, g);
    var r := Candidates(start, end, g);
    assert (k + 1) * g == k * g + g;
  }

  lemma StepMonotone(start: int, g: int, i: int, j: int)
    requires g > 0 && i < j
    ensures start + i * g < start + j * g
  {
    assert j * g == i * g + (j - i) * g;
  }

  /** The candidates strictly increase, so no minute is offered twice. */
  lemma CandidatesAscending(start: int, end: int, g: int)
    requires g > 0
    ensures forall i, j :: 0 <= i < j < |Candidates(start, end, g)| ==> Candidates(start, end, g)[i] < Candidates(start, end, g)[j]
  {
    var r := Candidates(start, end, g);
    CandidatesShape(start, end, g);
    forall i, j | 0 <= i < j < |r|
      ensures r[i] < r[j]
    {
      StepMonotone(start, g, i, j);
    }
  }

  /** `s` is the label of a free candidate of `ts`. */
  predicate IsFreeCandidateLabel(c: Setup, d: Date, ts: seq<int>, s: string)
    requires forall i :: 0 <= i < |ts| ==> 0 <= ts[i] < 6000
  {
    exists i :: 0 <= i < |ts| && s == FormatClock(ts[i]) && FreeAt(c, d, ts[i])
  }

  /** Every label in the output is the label of a free candidate. */
  lemma SlotOfFreeCandidate(c: Setup, d: Date, ts: seq<int>, s: string)
    requires forall i :: 0 <= i < |ts| ==> 0 <= ts[i] < 6000
    requires s in SlotsOf(c, d, ts)
    ensures IsFreeCandidateLabel(c, d, ts, s)
  {
    var free := FreeMinutes(c, d, ts);
    FreeMinutesInRange(c, d, ts);
    var r := SlotsOf(c, d, ts);
    assert r == Labels(free);
    var j :| 0 <= j < |r| && r[j] == s;
    LabelsAt(free, j);
    FreeMinutesMembership(c, d, ts, free[j]);
    var i :| 0 <= i < |ts| && ts[i] == free[j];
    assert s == FormatClock(ts[i]) && FreeAt(c, d, ts[i]);
  }

  /** The label of every free candidate is in the output. */
  lemma FreeCandidateInSlots(c: Setup, d: Date, ts: seq<int>, i: int)
    requires forall k :: 0 <= k < |ts| ==> 0 <= ts[k] < 6000
    requires 0 <= i < |ts| && FreeAt(c, d, ts[i])
    ensures FormatClock(ts[i]) in SlotsOf(c, d, ts)
  {
    var free := FreeMinutes(c, d, ts);
    FreeMinutesInRange(c, d, ts);
    assert SlotsOf(c, d, ts) == Labels(free);
    FreeMinutesMembership(c, d, ts, ts[i]);
    var j :| 0 <= j < |free| && free[j] == ts[i];
    LabelsAt(free, j);
    assert Labels(free)[j] == FormatClock(ts[i]);
  }

  /** A label is in the output exactly when it is the label of a free
      candidate: the round trip through the label string loses nothing. */
  lemma SlotsOfMembership(c: Setup, d: Date, ts: seq<int>, s: string)
    requires forall i :: 0 <= i < |ts| ==> 0 <= ts[i] < 6000
    ensures s in SlotsOf(c, d, ts) <==> IsFreeCandidateLabel(c, d, ts, s)
  {
    if s in SlotsOf(c, d, ts) {
      SlotOfFreeCandidate(c, d, ts, s);
    }
    if IsFreeCandidateLabel(c, d, ts, s) {
      var i :| 0 <= i < |ts| && s == FormatClock(ts[i]) && FreeAt(c, d, ts[i]);
      FreeCandidateInSlots(c, d, ts, i);
    }
  }

  /** Each label reads back as the minute it was made from, so ascending
      candidates give labels in strictly ascending time order. */
  lemma SlotsOfAscending(c: Setup, d: Date, ts: seq<int>)
    requires forall i :: 0 <= i < |ts| ==> 0 <= ts[i] < 6000
    requires forall i, j :: 0 <= i < j < |ts| ==> ts[i] < ts[j]
    ensures var r := SlotsOf(c, d, ts);
      && (forall i :: 0 <= i < |r| ==> WellFormedClock(r[i]))
      && (forall i, j :: 0 <= i < j < |r| ==> ParseClock(r[i]) < ParseClock(r[j]))
  {
    var free := FreeMinutes(c, d, ts);
    FreeMinutesInRange(c, d, ts);
    FreeMinutesAscending(c, d, ts);
    var r := SlotsOf(c, d, ts);
    forall i | 0 <= i < |r|
      ensures WellFormedClock(r[i]) && ParseClock(r[i]) == free[i]
    {
      LabelsAt(free, i);
      ParseFormatClock(free[i]);
    }
  }

  /** No slot survives exactly when no candidate is free. */
  lemma SlotsOfEmpty(c: Setup, d: Date, ts: seq<int>)
    requires forall i :: 0 <= i < |ts| ==> 0 <= ts[i] < 6000
    ensures SlotsOf(c, d, ts) == [] <==> forall i :: 0 <= i < |ts| ==> !FreeAt(c, d, ts[i])
  {
    var free := FreeMinutes(c, d, ts);
    FreeMinutesInRange(c, d, ts);
    if free != [] {
      FreeMinutesMembership(c, d, ts, free[0]);
    }
    if exists i :: 0 <= i < |ts| && FreeAt(c, d, ts[i]) {
      var i :| 0 <= i < |ts| && FreeAt(c, d, ts[i]);
      FreeMinutesMembership(c, d, ts, ts[i]);
    }
  }

  /** On an open weekday, a label is offered exactly when it is the label of a
      free candidate `open, open + g, ...` up to the closing minute. */
  lemma TimeSlotsMembership(c: Setup, d: Date, s: string)
    requires ValidSetup(c) && c.workingDays[Weekday(d)].Some?
    ensures var hours := c.workingDays[Weekday(d)].value;
      var ts := Candidates(OpenMinute(hours), CloseMinute(hours), c.minutesPerLine);
      s in TimeSlots(c, d) <==> IsFreeCandidateLabel(c, d, ts, s)
  {
    var hours := c.workingDays[Weekday(d)].value;
    var ts := Candidates(OpenMinute(hours), CloseMinute(hours), c.minutesPerLine);
    assert TimeSlots(c, d) == SlotsOf(c, d, ts);
    SlotsOfMembership(c, d, ts, s);
  }

  /** The slots of a date are well-formed labels in strictly ascending time
      order. */
  lemma TimeSlotsOrdered(c: Setup, d: Date)
    requires ValidSetup(c)
    ensures forall i :: 0 <= i < |TimeSlots(c, d)| ==> WellFormedClock(TimeSlots(c, d)[i])
    ensures forall i, j :: 0 <= i < j < |TimeSlots(c, d)| ==> ParseClock(TimeSlots(c, d)[i]) < ParseClock(TimeSlots(c, d)[j])
  {
    if c.workingDays[Weekday(d)].Some? {
      var hours := c.workingDays[Weekday(d)].value;
      var ts := Candidates(OpenMinute(hours), CloseMinute(hours), c.minutesPerLine);
      assert TimeSlots(c, d) == SlotsOf(c, d, ts);
      CandidatesAscending(OpenMinute(hours), CloseMinute(hours), c.minutesPerLine);
      SlotsOfAscending(c, d, ts);
    }
  }

  /** The slots of a date are exactly the labels of the free candidates
      `open, open + g, ...` up to the closing minute, well-formed and in strictly
      ascending time order; a closed weekday has none. */
  lemma TimeSlotsSpec(c: Setup, d: Date)
    requires ValidSetup(c)
    ensures c.workingDays[Weekday(d)].None? ==> TimeSlots(c, d) == []
    ensures c.workingDays[Weekday(d)].Some? ==>
      var hours := c.workingDays[Weekday(d)].value;
      var ts := Candidates(OpenMinute(hours), CloseMinute(hours), c.minutesPerLine);
      forall s :: s in TimeSlots(c, d) <==> IsFreeCandidateLabel(c, d, ts, s)
    ensures forall i :: 0 <= i < |TimeSlots(c, d)| ==> WellFormedClock(TimeSlots(c, d)[i])
    ensures forall i, j :: 0 <= i < j < |TimeSlots(c, d)| ==> ParseClock(TimeSlots(c, d)[i]) < ParseClock(TimeSlots(c, d)[j])
  {
    if c.workingDays[Weekday(d)].Some? {
      forall s {
        TimeSlotsMembership(c, d, s);
      }
    }
    TimeSlotsOrdered(c, d);
  }

  /** `isAvailable(date)` holds exactly when the weekday is open and some
      candidate minute is free. */
  lemma AvailableIffFreeCandidate(c: Setup, d: Date)
    requires ValidSetup(c)
    ensures IsAvailable(c, d) <==>
      match c.workingDays[Weekday(d)]
      case None => false
      case Some(hours) =>
        var ts := Candidates(OpenMinute(hours), CloseMinute(hours), c.minutesPerLine);
        exists i :: 0 <= i < |ts| && FreeAt(c, d, ts[i])
  {
    if c.workingDays[Weekday(d)].Some? {
      var hours := c.workingDays[Weekday(d)].value;
      SlotsOfEmpty(c, d, Candidates(OpenMinute(hours), CloseMinute(hours), c.minutesPerLine));
    }
  }

  /** An appointment starting at minute `a` of the same day covers the slot at
      minute `t` exactly when `a <= t` and fewer than `durationMs` milliseconds
      separate them: the window is closed at its start and open at its end. */
  lemma AppointmentCoversMinute(c: Setup, d: Date, k: int, a: int, t: int)
    requires 0 <= k < |c.booked|
    requires c.booked[k].timestampMs == EpochMs(d, a, c.utcOffsetMinutes)
    ensures (var ms := EpochMs(d, t, c.utcOffsetMinutes);
             c.booked[k].timestampMs <= ms < c.booked[k].timestampMs + c.booked[k].kind.durationMs)
        <==> a <= t && (t - a) * 60000 < c.booked[k].kind.durationMs
  {
    EpochMsOffset(d, a, t, c.utcOffsetMinutes);
  }

  /** A 30-minute appointment at 10:00 removes the 10:00 and 10:20 candidates
      of a 20-minute grid but not 10:40. */
  lemma HalfHourAppointmentExample(c: Setup, d: Date, k: int)
    requires 0 <= k < |c.booked|
    requires c.booked[k].timestampMs == EpochMs(d, 600, c.utcOffsetMinutes)
    requires c.booked[k].kind.durationMs == 1800000
    ensures BookedAt(c, d, 600) && BookedAt(c, d, 620)
    ensures |c.booked| == 1 ==> !BookedAt(c, d, 640)
  {
    AppointmentCoversMinute(c, d, k, 600, 600);
    AppointmentCoversMinute(c, d, k, 600, 620);
    AppointmentCoversMinute(c, d, k, 600, 640);
  }

  /** A vacation that covers a day from its first to its last minute covers
      every minute in between. */
  lemma VacationCoversMinute(c: Setup, d: Date, k: int, t: int)
    requires 0 <= k < |c.vacations|
    requires c.vacations[k].start <= EpochMs(d, 0, c.utcOffsetMinutes) / 1000
    requires EpochMs(d, 1439, c.utcOffsetMinutes) / 1000 <= c.vacations[k].end
    requires 0 <= t <= 1439
    ensures InVacationAt(c, d, t)
  {
    var off := c.utcOffsetMinutes;
    EpochMsOffset(d, 0, t, off);
    EpochMsOffset(d, t, 1439, off);
    var lo, ms, hi := EpochMs(d, 0, off), EpochMs(d, t, off), EpochMs(d, 1439, off);
    assert lo / 1000 <= ms / 1000 <= hi / 1000;
  }

  /** A vacation covering every minute of a day removes all of that day's slots
      when the shop closes by 23:59. */
  lemma VacationClosesDay(c: Setup, d: Date, k: int)
    requires ValidSetup(c)
    requires 0 <= k < |c.vacations|
    requires c.vacations[k].start <= EpochMs(d, 0, c.utcOffsetMinutes) / 1000
    requires EpochMs(d, 1439, c.utcOffsetMinutes) / 1000 <= c.vacations[k].end
    requires c.workingDays[Weekday(d)].Some? ==> CloseMinute(c.workingDays[Weekday(d)].value) < 1440
    ensures TimeSlots(c, d) == []
  {
    if c.workingDays[Weekday(d)].Some? {
      var hours := c.workingDays[Weekday(d)].value;
      var ts := Candidates(OpenMinute(hours), CloseMinute(hours), c.minutesPerLine);
      forall i | 0 <= i < |ts|
        ensures !FreeAt(c, d, ts[i])
      {
        VacationCoversMinute(c, d, k, ts[i]);
      }
      SlotsOfEmpty(c, d, ts);
    }
  }

  /** A vacation that ends before a day's first second, or starts after its
      last, leaves every minute of the day alone. */
  lemma VacationMissesMinute(c: Setup, d: Date, k: int, t: int)
    requires 0 <= k < |c.vacations|
    requires c.vacations[k].end < EpochMs(d, 0, c.utcOffsetMinutes) / 1000
      || EpochMs(d, 1439, c.utcOffsetMinutes) / 1000 < c.vacations[k].start
    requires 0 <= t <= 1439
    ensures !(c.vacations[k].start <= EpochMs(d, t, c.utcOffsetMinutes) / 1000 <= c.vacations[k].end)
  {
    var off := c.utcOffsetMinutes;
    EpochMsOffset(d, 0, t, off);
    EpochMsOffset(d, t, 1439, off);
    var lo, ms, hi := EpochMs(d, 0, off), EpochMs(d, t, off), EpochMs(d, 1439, off);
    assert lo / 1000 <= ms / 1000 <= hi / 1000;
  }

  /** An appointment that ends by a day's first millisecond, or starts after
      its last minute, blocks no minute of the day. */
  lemma AppointmentMissesMinute(c: Setup, d: Date, k: int, t: int)
    requires 0 <= k < |c.booked|
    requires c.booked[k].timestampMs + c.booked[k].kind.durationMs <= EpochMs(d, 0, c.utcOffsetMinutes)
      || EpochMs(d, 1439, c.utcOffsetMinutes) < c.booked[k].timestampMs
    requires 0 <= t <= 1439
    ensures !(c.booked[k].timestampMs <= EpochMs(d, t, c.utcOffsetMinutes) < c.booked[k].timestampMs + c.booked[k].kind.durationMs)
  {
    EpochMsOffset(d, 0, t, c.utcOffsetMinutes);
    EpochMsOffset(d, t, 1439, c.utcOffsetMinutes);
  }

  /** No vacation and no appointment meets any minute of day `d`. */
  predicate DayUntouched(c: Setup, d: Date) {
    var first, last := EpochMs(d, 0, c.utcOffsetMinutes), EpochMs(d, 1439, c.utcOffsetMinutes);
    && (forall k :: 0 <= k < |c.vacations| ==>
          c.vacations[k].end < first / 1000 || last / 1000 < c.vacations[k].start)
    && (forall k :: 0 <= k < |c.booked| ==>
          c.booked[k].timestampMs + c.booked[k].kind.durationMs <= first || last < c.booked[k].timestampMs)
  }

  /** On such a day every minute is free. */
  lemma UntouchedMinuteFree(c: Setup, d: Date, t: int)
    requires DayUntouched(c, d) && 0 <= t <= 1439
    ensures FreeAt(c, d, t)
  {
    var ms := EpochMs(d, t, c.utcOffsetMinutes);
    forall k | 0 <= k < |c.vacations|
      ensures !(c.vacations[k].start <= ms / 1000 <= c.vacations[k].end)
    {
      VacationMissesMinute(c, d, k, t);
    }
    forall k | 0 <= k < |c.booked|
      ensures !(c.booked[k].timestampMs <= ms < c.booked[k].timestampMs + c.booked[k].kind.durationMs)
    {
      AppointmentMissesMinute(c, d, k, t);
    }
  }

  /** When every candidate is free, the filter keeps them all. */
  lemma {:induction false} FreeMinutesAllFree(c: Setup, d: Date, ts: seq<int>)
    requires forall i :: 0 <= i < |ts| ==> FreeAt(c, d, ts[i])
    ensures FreeMinutes(c, d, ts) == ts
  {
    if ts != [] {
      FreeMinutesAllFree(c, d, ts[1..]);
      assert ts == [ts[0]] + ts[1..];
    }
  }

  /** A day that no vacation and no appointment meets offers the label of every
      candidate from opening to closing, when the shop closes by 23:59: a
      vacation or an appointment on another day changes nothing here. */
  lemma UntouchedDayOffersAll(c: Setup, d: Date)
    requires ValidSetup(c) && DayUntouched(c, d)
    requires c.workingDays[Weekday(d)].Some? && CloseMinute(c.workingDays[Weekday(d)].value) < 1440
    ensures var hours := c.workingDays[Weekday(d)].value;
      TimeSlots(c, d) == Labels(Candidates(OpenMinute(hours), CloseMinute(hours), c.minutesPerLine))
  {
    var hours := c.workingDays[Weekday(d)].value;
    var ts := Candidates(OpenMinute(hours), CloseMinute(hours), c.minutesPerLine);
    forall i | 0 <= i < |ts|
      ensures FreeAt(c, d, ts[i])
    {
      UntouchedMinuteFree(c, d, ts[i]);
    }
    FreeMinutesAllFree(c, d, ts);
    assert TimeSlots(c, d) == SlotsOf(c, d, ts);
  }

  /** The business hours `"09:00-19:00"` open at minute 540 and close at 1140. */
  lemma NineToSevenMinutes()
    ensures OpenMinute("09:00-19:00") == 540 && CloseMinute("09:00-19:00") == 1140
  {
    assert "09:00-19:00"[..5] == "09:00";
    assert "09:00-19:00"[6..] == "19:00";
    assert "09:00"[..2] == "09" && "09:00"[3..] == "00";
    assert "19:00"[..2] == "19" && "19:00"[3..] == "00";
    DecimalValueOfTwo("09");
    DecimalValueOfTwo("00");
    DecimalValueOfTwo("19");
  }

  /** A 20-minute grid from 09:00 to 19:00 has 31 candidates, the last being the
      closing minute itself. */
  lemma NineToSevenEveryTwenty()
    ensures var ts := Candidates(540, 1140, 20);
      |ts| == 31 && ts[0] == 540 && ts[30] == 1140
  {
    var ts := Candidates(540, 1140, 20);
    CandidatesShape(540, 1140, 20);
    var n := |ts|;
    assert ts[n - 1] == 540 + (n - 1) * 20;
  }

  /** The first and last labels of that grid read "09:00" and "19:00". */
  lemma NineToSevenLabels()
    ensures FormatClock(540) == "09:00" && FormatClock(1140) == "19:00"
  {
    NineToSevenMinutes();
    assert "09:00-19:00"[..5] == "09:00";
    assert "09:00-19:00"[6..] == "19:00";
    FormatParseClock("09:00");
    FormatParseClock("19:00");
  }

  /** A `"09:00-19:00"` day on a 20-minute grid that no vacation and no
      appointment meets offers 31 slots, from `"09:00"` to `"19:00"`. */
  lemma NineToSevenFullDay(c: Setup, d: Date)
    requires ValidSetup(c) && DayUntouched(c, d)
    requires c.workingDays[Weekday(d)] == Some("09:00-19:00") && c.minutesPerLine == 20
    ensures |TimeSlots(c, d)| == 31
    ensures TimeSlots(c, d)[0] == "09:00" && TimeSlots(c, d)[30] == "19:00"
  {
    NineToSevenMinutes();
    UntouchedDayOffersAll(c, d);
    NineToSevenEveryTwenty();
    NineToSevenLabels();
    var ts := Candidates(540, 1140, 20);
    LabelsAt(ts, 0);
    LabelsAt(ts, 30);
  }
}
