/** The input checks and the identifier generator of `app/utils/validators.py`.

    Each regular expression is decided by a hand-written predicate over
    character classes and is proved equal to a literal reading of the
    pattern; the date check is the calendar check `strptime` performs on a
    string the request schema has already shaped as `\d{4}-\d{2}-\d{2}`. */
module Validators {
  import opened Results
  import opened Order
  import opened Decimal

  // ---------------------------------------------------------------------
  // validate_email: ^[a-zA-Z0-9._%+-]+@[a-zA-Z0-9.-]+\.[a-zA-Z]{2,}$
  // ---------------------------------------------------------------------

  predicate IsAsciiLetter(c: char)
  {
    'a' <= c <= 'z' || 'A' <= c <= 'Z'
  }

  /** `[a-zA-Z0-9._%+-]` */
  predicate IsLocalChar(c: char)
  {
    IsAsciiLetter(c) || IsDigit(c) || c == '.' || c == '_' || c == '%' || c == '+' || c == '-'
  }

  /** `[a-zA-Z0-9.-]` */
  predicate IsDomainChar(c: char)
  {
    IsAsciiLetter(c) || IsDigit(c) || c == '.' || c == '-'
  }

  predicate AllLocal(s: string)
  {
    forall i :: 0 <= i < |s| ==> IsLocalChar(s[i])
  }

  predicate AllDomain(s: string)
  {
    forall i :: 0 <= i < |s| ==> IsDomainChar(s[i])
  }

  predicate AllLetters(s: string)
  {
    forall i :: 0 <= i < |s| ==> IsAsciiLetter(s[i])
  }

  /** Position of the first `c` in `s`. */
  function FirstIndexOf(s: string, c: char): (r: Option<nat>)
    ensures r.Some? ==> r.value < |s| && s[r.value] == c && c !in s[..r.value]
    ensures r.None? ==> c !in s
  {
    if s == [] then None
    else if s[0] == c then Some(0)
    else
      match FirstIndexOf(s[1..], c)
      case None => None
      case Some(i) =>
        assert s[..i + 1] == [s[0]] + s[1..][..i];
        Some(i + 1)
  }

  /** Position of the last `c` in `s`. */
  function LastIndexOf(s: string, c: char): (r: Option<nat>)
    ensures r.Some? ==> r.value < |s| && s[r.value] == c && c !in s[r.value + 1..]
    ensures r.None? ==> c !in s
  {
    if s == [] then None
    else if s[|s| - 1] == c then Some(|s| - 1)
    else
      match LastIndexOf(s[..|s| - 1], c)
      case None =>
        assert s == s[..|s| - 1] + [s[|s| - 1]];
        None
      case Some(i) =>
        assert s[i + 1..] == s[..|s| - 1][i + 1..] + [s[|s| - 1]];
        Some(i)
  }

  /** The part after the '@': a run of `[a-zA-Z0-9.-]`, whose last '.' is
      preceded by at least one character and followed by two or more
      letters that end the string. */
  predicate ValidDomain(d: string)
  {
    && AllDomain(d)
    && match LastIndexOf(d, '.')
       case None => false
       case Some(dot) => 0 < dot && dot + 3 <= |d| && AllLetters(d[dot + 1..])
  }

  /** `validate_email`: split at the first '@'; the local part before it
      is a non-empty run of `[a-zA-Z0-9._%+-]` and the rest is a domain. The
      shortest accepted address has six characters (`a@b.cd`), and every
      accepted one ends in a letter. */
  predicate ValidEmail(email: string): (ok: bool)
    ensures ok ==> 6 <= |email| && IsAsciiLetter(email[|email| - 1])
  {
    match FirstIndexOf(email, '@')
    case None => false
    case Some(at) => 0 < at && AllLocal(email[..at]) && ValidDomain(email[at + 1..])
  }

  /** The regular expression read literally, as one way to cut `s` into
      local part, '@', domain run, '.', and final letters. */
  predicate EmailSplit(s: string, at: nat, dot: nat)
  {
    && 0 < at && at + 1 < dot && dot + 3 <= |s|
    && AllLocal(s[..at]) && s[at] == '@'
    && AllDomain(s[at + 1..dot]) && s[dot] == '.'
    && AllLetters(s[dot + 1..])
  }

  /** `ValidEmail` accepts exactly the strings the pattern matches. */
  lemma ValidEmailIffPattern(s: string)
    ensures ValidEmail(s) <==> exists at: nat, dot: nat :: EmailSplit(s, at, dot)
  {
    if ValidEmail(s) {
      var at := FirstIndexOf(s, '@').value;
      var d := s[at + 1..];
      var k := LastIndexOf(d, '.').value;
      var dot := at + 1 + k;
      assert s[at + 1..dot] == d[..k];
      assert s[dot + 1..] == d[k + 1..];
      assert EmailSplit(s, at, dot);
    }
    if exists at: nat, dot: nat :: EmailSplit(s, at, dot) {
      var at: nat, dot: nat :| EmailSplit(s, at, dot);
      EmailSplitDecided(s, at, dot);
    }
  }

  lemma EmailSplitDecided(s: string, at: nat, dot: nat)
    requires EmailSplit(s, at, dot)
    ensures ValidEmail(s)
  {
    FirstAtIs(s, at);
    var d := s[at + 1..];
    var k := dot - at - 1;
    assert d[..k] == s[at + 1..dot];
    assert d[k + 1..] == s[dot + 1..];
    LastDotIs(d, k);
  }

  /** The '@' after a local part is the first one: local characters
      exclude '@'. */
  lemma FirstAtIs(s: string, at: nat)
    requires at < |s| && AllLocal(s[..at]) && s[at] == '@'
    ensures FirstIndexOf(s, '@') == Some(at)
  {
    assert s[at] in s;
  }

  /** A '.' after a domain run and before a run of letters is the last one,
      and the whole is a domain run. */
  lemma LastDotIs(d: string, k: nat)
    requires k < |d| && AllDomain(d[..k]) && d[k] == '.' && AllLetters(d[k + 1..])
    ensures AllDomain(d) && LastIndexOf(d, '.') == Some(k)
  {
    assert d == d[..k] + [d[k]] + d[k + 1..];
    assert d[k] in d;
  }

  /** An accepted email holds exactly one '@'. */
  lemma ValidEmailHasOneAt(s: string)
    requires ValidEmail(s)
    ensures multiset(s)['@'] == 1
  {
    var at := FirstIndexOf(s, '@').value;
    var d := s[at + 1..];
    assert s == s[..at] + [s[at]] + d;
    assert '@' !in d;
    assert multiset(s) == multiset(s[..at]) + multiset{'@'} + multiset(d);
  }

  // ---------------------------------------------------------------------
  // validate_date_format: datetime.strptime(s, "%Y-%m-%d")
  // ---------------------------------------------------------------------

  /** `\d{4}-\d{2}-\d{2}`, the shape the attendance request schema enforces. */
  predicate DateShaped(s: string)
  {
    && |s| == 10
    && AllDigits(s[..4]) && s[4] == '-'
    && AllDigits(s[5..7]) && s[7] == '-'
    && AllDigits(s[8..])
  }

  function YearOf(s: string): nat
    requires DateShaped(s)
  {
    Value(s[..4])
  }

  function MonthOf(s: string): nat
    requires DateShaped(s)
  {
    Value(s[5..7])
  }

  function DayOf(s: string): nat
    requires DateShaped(s)
  {
    Value(s[8..])
  }

  /** Gregorian leap years, as Python's `calendar.isleap`. */
  predicate IsLeapYear(y: nat)
  {
    y % 4 == 0 && (y % 100 != 0 || y % 400 == 0)
  }

  function DaysInMonth(y: nat, m: nat): nat
    requires 1 <= m <= 12
  {
    if m == 2 then (if IsLeapYear(y) then 29 else 28)
    else if m == 4 || m == 6 || m == 9 || m == 11 then 30
    else 31
  }

  /** `validate_date_format` on a string of the schema's shape: `strptime`
      reads the three numbers and then rejects year 0 (below
      `datetime.MINYEAR`), a month outside 1..12 and a day outside the
      month. Since four digits never exceed 9999, this accepts exactly the
      strings whose three numbers form a real date. */
  predicate ValidDate(s: string): (ok: bool)
    requires DateShaped(s)
    ensures ok <==> IsRealDate(CalendarDate(YearOf(s), MonthOf(s), DayOf(s)))
  {
    ValueBound(s[..4]);
    assert Pow10(4) == 10000;
    && 1 <= YearOf(s)
    && 1 <= MonthOf(s) <= 12
    && 1 <= DayOf(s) <= DaysInMonth(YearOf(s), MonthOf(s))
  }

  /** A value of Python's `datetime.date` (years 1 to 9999). */
  datatype CalendarDate = CalendarDate(year: nat, month: nat, day: nat)

  predicate IsRealDate(d: CalendarDate)
  {
    1 <= d.year <= 9999 && 1 <= d.month <= 12 && 1 <= d.day <= DaysInMonth(d.year, d.month)
  }

  /** `date.isoformat()`: zero-padded `YYYY-MM-DD`. */
  function IsoFormat(d: CalendarDate): string
  {
    ZFill(ToDecimal(d.year), 4) + "-" + ZFill(ToDecimal(d.month), 2) + "-" + ZFill(ToDecimal(d.day), 2)
  }

  /** A number below 10^w printed and zero-filled to width w has exactly w
      digits and reads back as itself. */
  lemma ZFillOfDecimal(n: nat, w: nat)
    requires 1 <= w && n < Pow10(w)
    ensures var r := ZFill(ToDecimal(n), w); AllDigits(r) && |r| == w && Value(r) == n
  {
    ToDecimalLength(n, w);
    ZFillValue(ToDecimal(n), w);
    ToDecimalValue(n);
  }

  /** A digit string is the zero-filled decimal form of its own value. */
  lemma ZFillOfValue(p: string)
    requires AllDigits(p) && 1 <= |p|
    ensures ZFill(ToDecimal(Value(p)), |p|) == p
  {
    ValueBound(p);
    ZFillOfDecimal(Value(p), |p|);
    ValueInjective(ZFill(ToDecimal(Value(p)), |p|), p);
  }

  /** A shaped string passes the date check exactly when it is the ISO
      form of a real calendar date. */
  lemma ValidDateIffIsoDate(s: string)
    requires DateShaped(s)
    ensures ValidDate(s) <==> exists d :: IsRealDate(d) && IsoFormat(d) == s
  {
    var d := CalendarDate(YearOf(s), MonthOf(s), DayOf(s));
    ZFillOfValue(s[..4]);
    ZFillOfValue(s[5..7]);
    ZFillOfValue(s[8..]);
    assert IsoFormat(d) == s;
    ValueBound(s[..4]);
    assert Pow10(4) == 10000;
    if ValidDate(s) {
      assert IsRealDate(d);
    }
    if exists d' :: IsRealDate(d') && IsoFormat(d') == s {
      var d' :| IsRealDate(d') && IsoFormat(d') == s;
      IsoFormatFields(d');
    }
  }

  /** Reading the three numbers of an ISO date string gives the date back. */
  lemma IsoFormatFields(d: CalendarDate)
    requires IsRealDate(d)
    ensures var s := IsoFormat(d);
      DateShaped(s) && YearOf(s) == d.year && MonthOf(s) == d.month && DayOf(s) == d.day
  {
    assert Pow10(4) == 10000 && Pow10(2) == 100;
    var y, m, dd := ZFill(ToDecimal(d.year), 4), ZFill(ToDecimal(d.month), 2), ZFill(ToDecimal(d.day), 2);
    ZFillOfDecimal(d.year, 4);
    ZFillOfDecimal(d.month, 2);
    ZFillOfDecimal(d.day, 2);
    var s := IsoFormat(d);
    assert s == y + "-" + m + "-" + dd;
    assert s[..4] == y && s[5..7] == m && s[8..] == dd;
  }

  /** Calendar order of two shaped dates: by year, then month, then day. */
  predicate EarlierDate(a: string, b: string)
    requires DateShaped(a) && DateShaped(b)
  {
    || YearOf(a) < YearOf(b)
    || (YearOf(a) == YearOf(b) && MonthOf(a) < MonthOf(b))
    || (YearOf(a) == YearOf(b) && MonthOf(a) == MonthOf(b) && DayOf(a) < DayOf(b))
  }

  /** Two digit fields of one width compare as strings the way their
      numbers compare, and are equal exactly when their numbers are. */
  lemma FieldOrder(a: string, b: string)
    requires AllDigits(a) && AllDigits(b) && |a| == |b|
    ensures LexLess(a, b) <==> Value(a) < Value(b)
    ensures a == b <==> Value(a) == Value(b)
  {
    LexLessIsNumericLess(a, b);
    if Value(a) == Value(b) {
      ValueInjective(a, b);
    }
  }

  /** For strings of the schema's shape, the store's string order on dates
      is calendar order. */
  lemma DateOrderIsChronological(a: string, b: string)
    requires DateShaped(a) && DateShaped(b)
    ensures LexLess(a, b) <==> EarlierDate(a, b)
  {
    FieldOrder(a[..4], b[..4]);
    FieldOrder(a[5..7], b[5..7]);
    FieldOrder(a[8..], b[8..]);
    var dash := "-";
    LexLessIrreflexive(dash);
    assert a == a[..4] + (dash + (a[5..7] + (dash + a[8..])));
    assert b == b[..4] + (dash + (b[5..7] + (dash + b[8..])));
    LexLessConcat(a[..4], dash + (a[5..7] + (dash + a[8..])), b[..4], dash + (b[5..7] + (dash + b[8..])));
    LexLessConcat(dash, a[5..7] + (dash + a[8..]), dash, b[5..7] + (dash + b[8..]));
    LexLessConcat(a[5..7], dash + a[8..], b[5..7], dash + b[8..]);
    LexLessConcat(dash, a[8..], dash, b[8..]);
  }

  // ---------------------------------------------------------------------
  // validate_attendance_status
  // ---------------------------------------------------------------------

  const AttendanceStatuses: seq<string> := ["Present", "Absent", "Half Day", "Leave"]

  /** `validate_attendance_status`: the accepted strings are exactly the
      names of the four `Status` values. */
  predicate ValidStatus(s: string): (ok: bool)
    ensures ok <==> exists st :: StatusName(st) == s
  {
    assert StatusName(Present) == "Present" && StatusName(Absent) == "Absent";
    assert StatusName(HalfDay) == "Half Day" && StatusName(Leave) == "Leave";
    s in AttendanceStatuses
  }

  /** The four statuses as a closed enumeration. Documents keep the status
      as the string the request carried, as the source stores it; this
      enumeration is the view `ValidStatus` and `ParseStatus` are stated
      over. */
  datatype Status = Present | Absent | HalfDay | Leave

  function StatusName(st: Status): string
  {
    match st
    case Present => "Present"
    case Absent => "Absent"
    case HalfDay => "Half Day"
    case Leave => "Leave"
  }

  /** Reads a status string; succeeds exactly on the accepted statuses. */
  function ParseStatus(s: string): (r: Option<Status>)
    ensures r.Some? <==> ValidStatus(s)
    ensures r.Some? ==> StatusName(r.value) == s
  {
    if s == "Present" then Some(Present)
    else if s == "Absent" then Some(Absent)
    else if s == "Half Day" then Some(HalfDay)
    else if s == "Leave" then Some(Leave)
    else None
  }

  lemma StatusNameRoundTrip(st: Status)
    ensures ValidStatus(StatusName(st)) && ParseStatus(StatusName(st)) == Some(st)
  {
  }

  // ---------------------------------------------------------------------
  // validate_employee_id_format: ^EMP\d{3,}$ ; generate_employee_id
  // ---------------------------------------------------------------------

  /** `validate_employee_id_format`: "EMP" and three or more digits. Every
      such identifier whose digits are padded no further than three places
      and denote a positive number is the one the generator gives for that
      number less one. */
  predicate ValidEmployeeIdFormat(id: string): (ok: bool)
    ensures ok ==> |id| >= 6 && (Padded(id[3..], 3) && Value(id[3..]) >= 1 ==> GenerateEmployeeId(Value(id[3..]) - 1) == id)
  {
    if |id| < 6 || id[..3] != "EMP" then false
    else
      ZFillOfPadded(id[3..], 3);
      assert id == "EMP" + id[3..];
      AllDigits(id[3..])
  }

  /** `generate_employee_id`: "EMP" and `str(count + 1).zfill(3)`. The
      digits denote `count + 1`, padded to three places and no further. */
  function GenerateEmployeeId(count: nat): (id: string)
    ensures |id| >= 6 && id[..3] == "EMP"
    ensures Padded(id[3..], 3) && Value(id[3..]) == count + 1
  {
    var digits := ZFill(ToDecimal(count + 1), 3);
    ZFillValue(ToDecimal(count + 1), 3);
    ToDecimalValue(count + 1);
    assert ("EMP" + digits)[3..] == digits;
    "EMP" + digits
  }

  /** A digit string padded to `width` and no further is the zero-filled
      decimal form of its own value. */
  lemma ZFillOfPadded(p: string, width: nat)
    ensures Padded(p, width) ==> ZFill(ToDecimal(Value(p)), width) == p
  {
    if Padded(p, width) {
      var t := ToDecimal(Value(p));
      ZFillOfValue(p);
    }
  }

  /** A generated identifier has the identifier format, and its digits
      denote `count + 1`. */
  lemma GeneratedIdFormat(count: nat)
    ensures var id := GenerateEmployeeId(count);
      ValidEmployeeIdFormat(id) && Value(id[3..]) == count + 1
  {
    var id := GenerateEmployeeId(count);
    var digits := ZFill(ToDecimal(count + 1), 3);
    ZFillValue(ToDecimal(count + 1), 3);
    ToDecimalValue(count + 1);
    assert id[3..] == digits;
    assert id[..3] == "EMP";
  }

  /** Different counts give different identifiers. */
  lemma GeneratedIdInjective(c1: nat, c2: nat)
    requires GenerateEmployeeId(c1) == GenerateEmployeeId(c2)
    ensures c1 == c2
  {
    GeneratedIdFormat(c1);
    GeneratedIdFormat(c2);
  }

  lemma GeneratedIdExamples()
    ensures GenerateEmployeeId(0) == "EMP001"
    ensures GenerateEmployeeId(9) == "EMP010"
    ensures GenerateEmployeeId(999) == "EMP1000"
  {
    assert ToDecimal(1) == "1";
    assert ToDecimal(10) == "10";
    assert ToDecimal(100) == "10" + "0";
    assert ToDecimal(1000) == "100" + "0";
  }
}
