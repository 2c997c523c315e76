/** The business details shown on the About and Contact pages: the opening
    hours list (`formatWorkingHours`, written identically in both pages), the
    `tel:` link built from the phone number, and the one-line address. */
module SiteInfo {
  import opened Text
  import opened Translations

  /** Weekday names, Sunday first, as each page lists them. */
  const HebrewDays: seq<string> := ["ראשון", "שני", "שלישי", "רביעי", "חמישי", "שישי", "שבת"]
  const EnglishDays: seq<string> := ["Sunday", "Monday", "Tuesday", "Wednesday", "Thursday", "Friday", "Saturday"]

  /** The word a closed day is rendered as, and then filtered on. */
  const ClosedEnglish: string := "Closed"
  const ClosedHebrew: string := "סגור"

  function DayNames(lang: Language): (names: seq<string>)
    ensures |names| == 7
  {
    if lang == He then HebrewDays else EnglishDays
  }

  /** `days[index]`: the name of weekday `i`, undefined past Saturday. */
  function DayName(lang: Language, i: nat): (r: Option<string>)
    ensures r.Some? <==> i < 7
    ensures i < 7 ==> r.value == DayNames(lang)[i]
  {
    var names := DayNames(lang);
    if i < |names| then Some(names[i]) else None
  }

  // ---------------------------------------------------------------------------
  // `split` and `join`

  /** `s.split(c)` for a one-character separator: the pieces between the
      separators, always at least one. */
  function Split(s: string, c: char): (parts: seq<string>)
    ensures |parts| >= 1
    ensures forall i :: 0 <= i < |parts| ==> c !in parts[i]
    decreases |s|
  {
    if |s| == 0 then [""]
    else if s[0] == c then [""] + Split(s[1..], c)
    else
      var rest := Split(s[1..], c);
      [[s[0]] + rest[0]] + rest[1..]
  }

  /** `parts.join(sep)`. */
  function Join(parts: seq<string>, sep: string): (s: string)
    decreases |parts|
  {
    if |parts| == 0 then ""
    else if |parts| == 1 then parts[0]
    else parts[0] + sep + Join(parts[1..], sep)
  }

  /** Joining the pieces of a split with the separator restores the string. */
  lemma {:induction false} SplitJoin(s: string, c: char)
    ensures Join(Split(s, c), [c]) == s
    decreases |s|
  {
    if |s| > 0 {
      var rest := Split(s[1..], c);
      SplitJoin(s[1..], c);
      if s[0] == c {
        assert Split(s, c)[1..] == rest;
        assert s == [c] + s[1..];
      } else if |rest| == 1 {
        assert s == [s[0]] + rest[0];
      } else {
        var parts := Split(s, c);
        assert parts[1..] == rest[1..];
        assert Join(rest, [c]) == rest[0] + [c] + Join(rest[1..], [c]);
        assert s == [s[0]] + s[1..];
      }
    }
  }

  /** A string without the separator is a single piece. */
  lemma {:induction false} SplitWithout(s: string, c: char)
    requires c !in s
    ensures Split(s, c) == [s]
    decreases |s|
  {
    if |s| > 0 {
      assert s == [s[0]] + s[1..];
      SplitWithout(s[1..], c);
    }
  }

  /** Splitting a string that starts with `x`: a separator opens a new empty
      first piece, any other character joins the first piece. */
  lemma SplitCons(x: char, s: string, c: char)
    ensures Split([x] + s, c) ==
      if x == c then [""] + Split(s, c) else [[x] + Split(s, c)[0]] + Split(s, c)[1..]
  {
    assert ([x] + s)[1..] == s;
  }

  /** A new first piece commutes with appending more pieces. */
  lemma PrependAppend(y: string, rest: seq<string>, after: seq<string>)
    ensures [y] + (rest + after) == ([y] + rest) + after
  {
  }

  /** Growing the first piece of a list of pieces commutes with appending
      more pieces. */
  lemma GrowFirstAppend(y: string, rest: seq<string>, after: seq<string>)
    requires |rest| >= 1
    ensures [y + (rest + after)[0]] + (rest + after)[1..] == ([y + rest[0]] + rest[1..]) + after
  {
    assert (rest + after)[1..] == rest[1..] + after;
  }

  /** The inductive step of `SplitAround` for a separator in front: it opens
      an empty first piece on both sides. */
  lemma SplitAroundSeparator(a: string, c: char, b: string)
    requires Split(a + [c] + b, c) == Split(a, c) + Split(b, c)
    ensures Split([c] + a + [c] + b, c) == Split([c] + a, c) + Split(b, c)
  {
    assert [c] + a + [c] + b == [c] + (a + [c] + b);
    SplitCons(c, a + [c] + b, c);
    SplitCons(c, a, c);
    PrependAppend("", Split(a, c), Split(b, c));
  }

  /** The inductive step of `SplitAround` for another character in front: it
      joins the first piece on both sides. */
  lemma SplitAroundOther(x: char, a: string, c: char, b: string)
    requires x != c
    requires Split(a + [c] + b, c) == Split(a, c) + Split(b, c)
    ensures Split([x] + a + [c] + b, c) == Split([x] + a, c) + Split(b, c)
  {
    assert [x] + a + [c] + b == [x] + (a + [c] + b);
    SplitCons(x, a + [c] + b, c);
    SplitCons(x, a, c);
    GrowFirstAppend([x], Split(a, c), Split(b, c));
  }

  /** A separator cuts the string into the pieces before it and after it. */
  lemma {:induction false} SplitAround(a: string, c: char, b: string)
    ensures Split(a + [c] + b, c) == Split(a, c) + Split(b, c)
    decreases |a|
  {
    if |a| == 0 {
      assert a + [c] + b == [c] + b;
      SplitCons(c, b, c);
    } else {
      SplitAround(a[1..], c, b);
      if a[0] == c {
        SplitAroundSeparator(a[1..], c, b);
      } else {
        SplitAroundOther(a[0], a[1..], c, b);
      }
      assert a == [a[0]] + a[1..];
    }
  }

  /** The last character of a join is the last character of its last piece. */
  lemma {:induction false} JoinLast(parts: seq<string>, sep: string)
    requires |parts| >= 1 && |parts[|parts| - 1]| >= 1
    ensures |Join(parts, sep)| >= 1
    ensures Join(parts, sep)[|Join(parts, sep)| - 1] == parts[|parts| - 1][|parts[|parts| - 1]| - 1]
    decreases |parts|
  {
    if |parts| > 1 {
      JoinLast(parts[1..], sep);
    }
  }

  // ---------------------------------------------------------------------------
  // `parseInt`

  /** The white space `parseInt` skips before the number: tab, line feed,
      vertical tab, form feed, carriage return, space, no-break space and the
      byte order mark. */
  predicate IsSpace(c: char) {
    c == '\t' || c == '\n' || c == '\U{000B}' || c == '\U{000C}' || c == '\r'
    || c == ' ' || c == '\U{00A0}' || c == '\U{FEFF}'
  }

  function TrimStart(s: string): (r: string)
    ensures |r| <= |s| && r == s[|s| - |r|..]
    ensures |r| > 0 ==> !IsSpace(r[0])
    decreases |s|
  {
    if |s| > 0 && IsSpace(s[0]) then TrimStart(s[1..]) else s
  }

  /** The longest run of digits at the start of `s`. */
  function DigitPrefix(s: string): (p: string)
    ensures AllDigits(p) && |p| <= |s| && p == s[..|p|]
    ensures |p| < |s| ==> !IsDigit(s[|p|])
    decreases |s|
  {
    if |s| > 0 && IsDigit(s[0]) then [s[0]] + DigitPrefix(s[1..]) else []
  }

  lemma {:induction false} DigitPrefixOfDigits(s: string)
    requires AllDigits(s)
    ensures DigitPrefix(s) == s
    decreases |s|
  {
    if |s| > 0 {
      DigitPrefixOfDigits(s[1..]);
      assert s == [s[0]] + s[1..];
    }
  }

  predicate IsHexDigit(c: char) {
    IsDigit(c) || 'a' <= c <= 'f' || 'A' <= c <= 'F'
  }

  predicate AllHexDigits(s: string) {
    forall i :: 0 <= i < |s| ==> IsHexDigit(s[i])
  }

  function HexDigitValue(c: char): (v: nat)
    requires IsHexDigit(c)
    ensures v < 16
    ensures IsDigit(c) ==> v == DigitValue(c)
  {
    if IsDigit(c) then DigitValue(c)
    else if 'a' <= c <= 'f' then c as int - 'a' as int + 10
    else c as int - 'A' as int + 10
  }

  /** The value of a string of hexadecimal digits, most significant first. */
  function HexValue(s: string): nat
    requires AllHexDigits(s)
  {
    if s == [] then 0 else HexValue(s[..|s| - 1]) * 16 + HexDigitValue(s[|s| - 1])
  }

  /** The longest run of hexadecimal digits at the start of `s`. */
  function HexPrefix(s: string): (p: string)
    ensures AllHexDigits(p) && |p| <= |s| && p == s[..|p|]
    ensures |p| < |s| ==> !IsHexDigit(s[|p|])
    decreases |s|
  {
    if |s| > 0 && IsHexDigit(s[0]) then [s[0]] + HexPrefix(s[1..]) else []
  }

  /** A run of hexadecimal digits is its own hexadecimal prefix. */
  lemma {:induction false} HexPrefixOfHexDigits(s: string)
    requires AllHexDigits(s)
    ensures HexPrefix(s) == s
    decreases |s|
  {
    if |s| > 0 {
      HexPrefixOfHexDigits(s[1..]);
      assert s == [s[0]] + s[1..];
    }
  }

  /** `0x` or `0X`, which switches `parseInt` without a radix to base 16. */
  predicate HasHexPrefix(u: string) {
    |u| >= 2 && u[0] == '0' && (u[1] == 'x' || u[1] == 'X')
  }

  /** `parseInt(s)` with no radix: leading white space, an optional sign, then
      either `0x`/`0X` and as many hexadecimal digits as follow, or as many
      decimal digits as follow; `None` stands for `NaN`, when there are none.
      Text that starts with a decimal digit other than a `0x` prefix is a
      number, and `0x` alone is not. */
  function ParseInt(s: string): (r: Option<int>)
    ensures |s| > 0 && IsDigit(s[0]) && !HasHexPrefix(s) ==> r.Some? && r.value >= 0
    ensures HasHexPrefix(s) && |s| == 2 ==> r.None?
  {
    var t := TrimStart(s);
    var u := if |t| > 0 && (t[0] == '+' || t[0] == '-') then t[1..] else t;
    match ParseUnsigned(u)
    case None => None
    case Some(v) => if |t| > 0 && t[0] == '-' then Some(-(v as int)) else Some(v)
  }

  /** The digits after the sign: hexadecimal behind `0x`/`0X`, decimal
      otherwise, as many as there are. */
  function ParseUnsigned(u: string): (r: Option<nat>)
    ensures HasHexPrefix(u) && |u| == 2 ==> r.None?
    ensures |u| > 0 && IsDigit(u[0]) && !HasHexPrefix(u) ==> r.Some?
  {
    if HasHexPrefix(u) then
      var digits := HexPrefix(u[2..]);
      if |digits| == 0 then None else Some(HexValue(digits))
    else
      var digits := DigitPrefix(u);
      if |digits| == 0 then None else Some(DecimalValue(digits))
  }

  /** A string of decimal digits parses to its value, leading zeros included. */
  lemma ParseDigits(s: string)
    requires |s| > 0 && AllDigits(s)
    ensures ParseInt(s) == Some(DecimalValue(s))
  {
    assert !IsSpace(s[0]);
    assert TrimStart(s) == s;
    assert !HasHexPrefix(s) by {
      if |s| >= 2 { assert IsDigit(s[1]); }
    }
    DigitPrefixOfDigits(s);
    assert ParseUnsigned(s) == Some(DecimalValue(s));
  }

  /** `0x` or `0X` followed by hexadecimal digits parses to their value in
      base 16. */
  lemma ParseHexDigits(s: string)
    requires HasHexPrefix(s) && |s| > 2 && AllHexDigits(s[2..])
    ensures ParseInt(s) == Some(HexValue(s[2..]))
  {
    assert !IsSpace(s[0]);
    assert TrimStart(s) == s;
    HexPrefixOfHexDigits(s[2..]);
    assert ParseUnsigned(s) == Some(HexValue(s[2..]));
  }

  /** Without a radix, `"0x10"` is sixteen. */
  lemma ParseIntHexExample(h: string)
    requires |h| == 4 && h[0] == '0' && h[1] == 'x' && h[2] == '1' && h[3] == '0'
    ensures ParseInt(h) == Some(16)
  {
    HexOneZero(h[2..]);
    ParseHexDigits(h);
  }

  /** The hexadecimal digits `10` are sixteen. */
  lemma HexOneZero(s: string)
    requires |s| == 2 && s[0] == '1' && s[1] == '0'
    ensures AllHexDigits(s) && HexValue(s) == 16
  {
    assert s[..1][..0] == [];
    assert HexValue(s[..1]) == 1;
  }

  /** Without a radix, a leading zero still reads as decimal: `"010"` is ten. */
  lemma ParseIntLeadingZeroExample(d: string)
    requires |d| == 3 && d[0] == '0' && d[1] == '1' && d[2] == '0'
    ensures ParseInt(d) == Some(10)
  {
    DecimalZeroOneZero(d);
    ParseDigits(d);
  }

  /** The decimal digits `010` are ten. */
  lemma DecimalZeroOneZero(s: string)
    requires |s| == 3 && s[0] == '0' && s[1] == '1' && s[2] == '0'
    ensures AllDigits(s) && DecimalValue(s) == 10
  {
    assert s[..2][..1][..0] == [];
    assert DecimalValue(s[..2][..1]) == 0;
    assert DecimalValue(s[..2]) == 1;
  }




  /** A number's template-string rendering. */
  function IntToString(x: int): (s: string)
    ensures |s| >= 1
    ensures x >= 0 ==> s == NatToString(x)
  {
    if x < 0 then "-" + NatToString(-x) else NatToString(x)
  }

  // ---------------------------------------------------------------------------
  // Opening hours

  /** One endpoint on the 12-hour clock: the hour without padding, reduced
      only when above 12 (so hour 0 prints as `0`), the minutes as written, and
      PM from 12 on. */
  function Clock12(hour: int, minutes: string): (r: string)
    ensures |r| >= 3 && r[|r| - 1] == 'M'
    ensures r[|r| - 2] == (if hour >= 12 then 'P' else 'A')
  {
    IntToString(if hour > 12 then hour - 12 else hour) + ":" + minutes + (if hour >= 12 then " PM" else " AM")
  }

  /** One endpoint of an English hours range: the text is cut at `:` into the
      hour and the minutes. A missing minutes part prints as `undefined` and an
      unreadable hour as `NaN`, which counts as morning. */
  function EnglishTime(time: string): (r: string)
    ensures |r| >= 3 && r[|r| - 1] == 'M'
  {
    var parts := Split(time, ':');
    var m := if |parts| >= 2 then parts[1] else "undefined";
    match ParseInt(parts[0])
    case None => "NaN:" + m + " AM"
    case Some(hour) => Clock12(hour, m)
  }

  /** Every piece ends in `M`. */
  predicate AllEndInM(parts: seq<string>) {
    forall i :: 0 <= i < |parts| ==> |parts[i]| >= 1 && parts[i][|parts[i]| - 1] == 'M'
  }

  /** Every endpoint of a range, converted. */
  function EnglishEnds(ends: seq<string>): (r: seq<string>)
    ensures |r| == |ends|
    ensures AllEndInM(r)
  {
    seq(|ends|, i requires 0 <= i < |ends| => EnglishTime(ends[i]))
  }

  /** An hours string `"open-close"` in English: both ends converted and joined
      by `" - "`. Whatever the text, the result ends in `M` (of `AM` or `PM`). */
  function EnglishHours(hours: string): (r: string)
    ensures |r| >= 1 && r[|r| - 1] == 'M'
  {
    var ends := Split(hours, '-');
    var converted := EnglishEnds(ends);
    assert |converted| == |ends| >= 1;
    JoinEnds(converted)
  }

  /** `.join(' - ')` of the converted ends: the text ends in `M` like each of them. */
  function JoinEnds(converted: seq<string>): (r: string)
    requires |converted| >= 1
    requires AllEndInM(converted)
    ensures |r| >= 1 && r[|r| - 1] == 'M'
  {
    JoinEndsInM(converted, " - ");
    Join(converted, " - ")
  }

  /** Pieces that all end in `M` join into text ending in `M`. */
  lemma JoinEndsInM(parts: seq<string>, sep: string)
    requires |parts| >= 1
    requires AllEndInM(parts)
    ensures |Join(parts, sep)| >= 1 && Join(parts, sep)[|Join(parts, sep)| - 1] == 'M'
  {
    var last := parts[|parts| - 1];
    assert |last| >= 1 && last[|last| - 1] == 'M';
    JoinLast(parts, sep);
  }

  /** The hour of a well-formed endpoint is read from its two digits. */
  lemma EnglishTimeOfParts(time: string, hh: string, mm: string, hour: int)
    requires Split(time, ':') == [hh, mm] && ParseInt(hh) == Some(hour)
    ensures EnglishTime(time) == Clock12(hour, mm)
  {
  }

  /** A well-formed endpoint `"HH:MM"` is its two-digit hour on the 12-hour
      clock with the minutes as written. */
  lemma EnglishTimeOfClock(hh: string, mm: string)
    requires |hh| == 2 && AllDigits(hh) && ':' !in mm
    ensures EnglishTime(hh + ":" + mm) == Clock12(DecimalValue(hh), mm)
  {
    assert ':' !in hh by {
      assert !IsDigit(':');
    }
    assert hh + ":" + mm == hh + [':'] + mm;
    SplitAround(hh, ':', mm);
    SplitWithout(hh, ':');
    SplitWithout(mm, ':');
    assert Split(hh + [':'] + mm, ':') == [hh] + [mm];
    assert Split(hh + ":" + mm, ':') == [hh, mm];
    ParseDigits(hh);
    EnglishTimeOfParts(hh + ":" + mm, hh, mm, DecimalValue(hh));
  }

  /** The 12-hour rendering at the hours the salon opens and closes, at noon
      and just after midnight, where the hour stays 0. */
  lemma Clock12Examples()
    ensures Clock12(9, "00") == "9:00 AM"
    ensures Clock12(19, "00") == "7:00 PM"
    ensures Clock12(12, "00") == "12:00 PM"
    ensures Clock12(0, "30") == "0:30 AM"
  {
    assert NatToString(12) == "12";
  }

  /** A well-formed range `"HH:MM-HH:MM"` reads in English as its two
      endpoints on the 12-hour clock joined by `" - "`; with
      `Clock12Examples`, `"09:00-19:00"` reads `"9:00 AM - 7:00 PM"`. */
  lemma EnglishRangeOfClocks(ho: string, mo: string, hc: string, mc: string)
    requires |ho| == 2 && AllDigits(ho) && |hc| == 2 && AllDigits(hc)
    requires ':' !in mo && '-' !in mo && ':' !in mc && '-' !in mc
    ensures EnglishHours(ho + ":" + mo + "-" + hc + ":" + mc)
      == Clock12(DecimalValue(ho), mo) + " - " + Clock12(DecimalValue(hc), mc)
  {
    var open, close := ho + ":" + mo, hc + ":" + mc;
    assert !IsDigit('-');
    assert '-' !in open by {
      assert open == ho + ([':'] + mo);
    }
    assert '-' !in close by {
      assert close == hc + ([':'] + mc);
    }
    assert ho + ":" + mo + "-" + hc + ":" + mc == open + ['-'] + close;
    SplitAround(open, '-', close);
    SplitWithout(open, '-');
    SplitWithout(close, '-');
    assert Split(open + ['-'] + close, '-') == [open] + [close];
    EnglishHoursOfTwo(open + ['-'] + close, open, close);
    EnglishTimeOfClock(ho, mo);
    EnglishTimeOfClock(hc, mc);
  }

  /** A range with one `-` reads as its two converted ends. */
  lemma EnglishHoursOfTwo(hours: string, open: string, close: string)
    requires Split(hours, '-') == [open, close]
    ensures EnglishHours(hours) == EnglishTime(open) + " - " + EnglishTime(close)
  {
    var converted := EnglishEnds([open, close]);
    assert EnglishHours(hours) == JoinEnds(converted) == Join(converted, " - ");
    assert converted[0] == EnglishTime(open) && converted[1] == EnglishTime(close);
    assert converted[1..] == [EnglishTime(close)];
    assert Join(converted[1..], " - ") == EnglishTime(close);
    assert Join(converted, " - ") == converted[0] + " - " + Join(converted[1..], " - ");
  }

  /** The hours text of one day: the closed word for `null`, the configured
      string in Hebrew, its 12-hour form in English. */
  function HoursText(raw: Option<string>, lang: Language): (r: string)
    ensures raw.None? ==> r == (if lang == He then ClosedHebrew else ClosedEnglish)
    ensures raw.Some? && lang == He ==> r == raw.value
    ensures raw.Some? && lang == En ==> r == EnglishHours(raw.value)
  {
    match raw
    case None => if lang == He then ClosedHebrew else ClosedEnglish
    case Some(h) => if lang == He then h else EnglishHours(h)
  }

  /** The closed words the list is filtered on, in either language. */
  predicate IsClosedText(s: string) {
    s == ClosedEnglish || s == ClosedHebrew
  }

  datatype DaySchedule = DaySchedule(day: Option<string>, hours: string)

  /** The `map` step: every configured day with its name and hours text. */
  function Rendered(workingDays: seq<Option<string>>, lang: Language): (r: seq<DaySchedule>)
    ensures |r| == |workingDays|
    ensures forall i :: 0 <= i < |r| ==> r[i] == DaySchedule(DayName(lang, i), HoursText(workingDays[i], lang))
  {
    seq(|workingDays|, i requires 0 <= i < |workingDays| =>
      DaySchedule(DayName(lang, i), HoursText(workingDays[i], lang)))
  }

  /** The `filter` step: drop the entries whose text is a closed word. */
  function KeepOpen(entries: seq<DaySchedule>): (r: seq<DaySchedule>)
    ensures |r| <= |entries|
    decreases |entries|
  {
    if |entries| == 0 then []
    else if IsClosedText(entries[0].hours) then KeepOpen(entries[1..])
    else [entries[0]] + KeepOpen(entries[1..])
  }

  /** `formatWorkingHours`. */
  function FormatWorkingHours(workingDays: seq<Option<string>>, lang: Language): (r: seq<DaySchedule>)
    ensures |r| <= |workingDays|
  {
    KeepOpen(Rendered(workingDays, lang))
  }

  /** The filter keeps exactly the entries that are not closed words. */
  lemma {:induction false} KeepOpenMembership(entries: seq<DaySchedule>, e: DaySchedule)
    ensures e in KeepOpen(entries) <==> e in entries && !IsClosedText(e.hours)
    decreases |entries|
  {
    if |entries| > 0 {
      KeepOpenMembership(entries[1..], e);
      assert entries == [entries[0]] + entries[1..];
    }
  }

  /** The filter keeps the order of the entries it keeps: when no entry is a
      closed word it keeps them all, and it distributes over concatenation. */
  lemma {:induction false} KeepOpenAppend(a: seq<DaySchedule>, b: seq<DaySchedule>)
    ensures KeepOpen(a + b) == KeepOpen(a) + KeepOpen(b)
    decreases |a|
  {
    if |a| > 0 {
      assert (a + b)[0] == a[0];
      assert (a + b)[1..] == a[1..] + b;
      KeepOpenAppend(a[1..], b);
    } else {
      assert a + b == b;
    }
  }

  lemma {:induction false} KeepOpenAllOpen(entries: seq<DaySchedule>)
    requires forall i :: 0 <= i < |entries| ==> !IsClosedText(entries[i].hours)
    ensures KeepOpen(entries) == entries
    decreases |entries|
  {
    if |entries| > 0 {
      KeepOpenAllOpen(entries[1..]);
    }
  }

  /** Text ending in `M` is neither closed word. */
  lemma EndsInMIsOpen(h: string)
    requires |h| >= 1 && h[|h| - 1] == 'M'
    ensures !IsClosedText(h)
  {
    assert ClosedEnglish[5] == 'd';
    assert ClosedHebrew[3] == 'ר';
  }

  /** In English an open day is never filtered out: its converted hours end in
      `M`, which neither closed word does. */
  lemma EnglishKeepsOpenDays(workingDays: seq<Option<string>>, i: int)
    requires 0 <= i < |workingDays| && workingDays[i].Some?
    ensures DaySchedule(DayName(En, i), EnglishHours(workingDays[i].value)) in FormatWorkingHours(workingDays, En)
  {
    var entries := Rendered(workingDays, En);
    var h := EnglishHours(workingDays[i].value);
    EndsInMIsOpen(h);
    assert entries[i] == DaySchedule(DayName(En, i), h);
    KeepOpenMembership(entries, entries[i]);
  }

  /** Closed days never appear, in either language, and every entry shown is a
      configured day with its own name and hours text. */
  lemma FormatWorkingHoursSpec(workingDays: seq<Option<string>>, lang: Language, e: DaySchedule)
    ensures e in FormatWorkingHours(workingDays, lang) <==>
      !IsClosedText(e.hours) &&
      exists i :: 0 <= i < |workingDays| && e == DaySchedule(DayName(lang, i), HoursText(workingDays[i], lang))
  {
    var entries := Rendered(workingDays, lang);
    KeepOpenMembership(entries, e);
    if e in entries {
      var i :| 0 <= i < |entries| && entries[i] == e;
      assert e == DaySchedule(DayName(lang, i), HoursText(workingDays[i], lang));
    }
    if exists i :: 0 <= i < |workingDays| && e == DaySchedule(DayName(lang, i), HoursText(workingDays[i], lang)) {
      var i :| 0 <= i < |workingDays| && e == DaySchedule(DayName(lang, i), HoursText(workingDays[i], lang));
      assert entries[i] == e;
    }
  }

  /** No two weekdays share a name. */
  lemma DayNamesDistinct(lang: Language, a: nat, b: nat)
    requires a < 7 && b < 7 && a != b
    ensures DayNames(lang)[a] != DayNames(lang)[b]
  {
  }

  /** A weekday configured as `null` is not listed. */
  lemma ClosedDayDropped(workingDays: seq<Option<string>>, lang: Language, i: nat, e: DaySchedule)
    requires i < |workingDays| && i < 7 && workingDays[i].None?
    requires e in FormatWorkingHours(workingDays, lang)
    ensures e.day != DayName(lang, i)
  {
    FormatWorkingHoursSpec(workingDays, lang, e);
    var j :| 0 <= j < |workingDays| && e == DaySchedule(DayName(lang, j), HoursText(workingDays[j], lang));
    if j != i && j < 7 {
      DayNamesDistinct(lang, i, j);
    }
  }

  /** In Hebrew the configured text is shown verbatim, so a day configured with
      the text `סגור` itself is dropped as if it were closed. */
  lemma HebrewClosedTextDropped()
    ensures FormatWorkingHours([Some(ClosedHebrew), Some("10:00-12:00")], He)
      == [DaySchedule(Some("שני"), "10:00-12:00")]
  {
    var first := DaySchedule(Some("ראשון"), ClosedHebrew);
    var second := DaySchedule(Some("שני"), "10:00-12:00");
    var entries := Rendered([Some(ClosedHebrew), Some("10:00-12:00")], He);
    assert entries == [first, second];
    assert !IsClosedText(second.hours) by {
      assert second.hours[0] == '1';
    }
    assert [first, second][1..] == [second];
    assert KeepOpen([second]) == [second] + KeepOpen([]);
  }

  // ---------------------------------------------------------------------------
  // Phone link and address

  /** The characters the `tel:` link keeps: `/[^0-9+]/g` removes all others. */
  predicate IsPhoneChar(c: char) {
    IsDigit(c) || c == '+'
  }

  /** `phone.replace(/[^0-9+]/g, '')`. */
  function Sanitize(phone: string): (r: string)
    ensures |r| <= |phone|
    ensures forall i :: 0 <= i < |r| ==> IsPhoneChar(r[i])
    decreases |phone|
  {
    if |phone| == 0 then ""
    else if IsPhoneChar(phone[0]) then [phone[0]] + Sanitize(phone[1..])
    else Sanitize(phone[1..])
  }

  /** Sanitising works character by character, keeping the original order. */
  lemma {:induction false} SanitizeAppend(a: string, b: string)
    ensures Sanitize(a + b) == Sanitize(a) + Sanitize(b)
    decreases |a|
  {
    if |a| > 0 {
      assert (a + b)[0] == a[0];
      assert (a + b)[1..] == a[1..] + b;
      SanitizeAppend(a[1..], b);
    } else {
      assert a + b == b;
    }
  }

  /** A number made only of digits and `+` is left as it is, so sanitising
      twice changes nothing. */
  lemma {:induction false} SanitizeKeepsPhoneChars(phone: string)
    requires forall i :: 0 <= i < |phone| ==> IsPhoneChar(phone[i])
    ensures Sanitize(phone) == phone
    decreases |phone|
  {
    if |phone| > 0 {
      SanitizeKeepsPhoneChars(phone[1..]);
    }
  }

  lemma SanitizeIdempotent(phone: string)
    ensures Sanitize(Sanitize(phone)) == Sanitize(phone)
  {
    SanitizeKeepsPhoneChars(Sanitize(phone));
  }

  /** The number of characters kept is the number of digits and `+` signs. */
  function CountPhoneChars(s: string): (n: nat)
    ensures n <= |s|
    decreases |s|
  {
    if |s| == 0 then 0 else (if IsPhoneChar(s[0]) then 1 else 0) + CountPhoneChars(s[1..])
  }

  lemma {:induction false} SanitizeLength(phone: string)
    ensures |Sanitize(phone)| == CountPhoneChars(phone)
    decreases |phone|
  {
    if |phone| > 0 {
      SanitizeLength(phone[1..]);
    }
  }

  /** The phone link target. */
  function TelHref(phone: string): (r: string)
    ensures |r| == 4 + |Sanitize(phone)|
    ensures r[..4] == "tel:" && r[4..] == Sanitize(phone)
  {
    "tel:" + Sanitize(phone)
  }

  datatype Address = Address(state: string, city: string, street: string, other: string)

  /** `getFullAddress`: street, other, city and state, separated by `", "`. */
  function FullAddress(a: Address): (r: string)
    ensures |r| == |a.street| + |a.other| + |a.city| + |a.state| + 6
  {
    a.street + ", " + a.other + ", " + a.city + ", " + a.state
  }

  /** When no field holds a comma, splitting the address at its commas gives the
      fields back, each after the first with its leading space. */
  lemma FullAddressFields(a: Address)
    requires ',' !in a.street && ',' !in a.other && ',' !in a.city && ',' !in a.state
    ensures Split(FullAddress(a), ',') == [a.street, " " + a.other, " " + a.city, " " + a.state]
  {
    var o, c, s := " " + a.other, " " + a.city, " " + a.state;
    assert ',' !in o && ',' !in c && ',' !in s;
    assert FullAddress(a) == a.street + [','] + (o + [','] + (c + [','] + s));
    SplitAround(a.street, ',', o + [','] + (c + [','] + s));
    SplitAround(o, ',', c + [','] + s);
    SplitAround(c, ',', s);
    SplitWithout(a.street, ',');
    SplitWithout(o, ',');
    SplitWithout(c, ',');
    SplitWithout(s, ',');
  }
}
