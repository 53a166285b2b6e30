/**
 * Fixed-width timestamps (`src/ledger/timefmt.rs`). The database compares them as text, so the
 * order of the texts has to be the order of the instants.
 */
module Timefmt {
  import opened Prelude
  import opened Decimal
  import Period

  // ---------------------------------------------------------------------
  // Instants: UTC fields, and the nanosecond they name
  // ---------------------------------------------------------------------

  datatype Utc = Utc(year: nat, month: nat, day: nat, hour: nat, minute: nat, second: nat, nanos: nat) {
    predicate Valid() {
      && year <= 9999 && 1 <= month <= 12 && 1 <= day <= DaysIn(year, month)
      && hour < 24 && minute < 60 && second < 60 && nanos < 1_000_000_000
    }

    function Fields(): seq<nat> {
      [year, month, day, hour, minute, second, nanos]
    }
  }

  /** An instant the ledger can hold. */
  type Instant = t: Utc | t.Valid() witness Utc(1970, 1, 1, 0, 0, 0, 0)

  predicate IsLeap(year: nat) {
    year % 4 == 0 && (year % 100 != 0 || year % 400 == 0)
  }

  function DaysIn(year: nat, month: nat): (n: nat)
    requires 1 <= month <= 12
    ensures 28 <= n <= 31
  {
    if month == 2 then (if IsLeap(year) then 29 else 28)
    else if month == 4 || month == 6 || month == 9 || month == 11 then 30
    else 31
  }

  function DaysInYear(year: nat): nat {
    if IsLeap(year) then 366 else 365
  }

  /** Days from 1 January of year 0 to 1 January of `year`. */
  function DaysBeforeYear(year: nat): nat {
    if year == 0 then 0 else DaysBeforeYear(year - 1) + DaysInYear(year - 1)
  }

  function DaysBeforeMonth(year: nat, month: nat): nat
    requires 1 <= month <= 12
  {
    if month == 1 then 0 else DaysBeforeMonth(year, month - 1) + DaysIn(year, month - 1)
  }

  function DayNumber(t: Instant): nat {
    DaysBeforeYear(t.year) + DaysBeforeMonth(t.year, t.month) + t.day - 1
  }

  /** Nanoseconds since the start of year 0: the instant itself. */
  function Nanos(t: Instant): nat {
    (((DayNumber(t) * 24 + t.hour) * 60 + t.minute) * 60 + t.second) * 1_000_000_000 + t.nanos
  }

  /** Leap years before `year`. */
  function LeapsBefore(year: nat): int {
    if year == 0 then 0 else (year - 1) / 4 - (year - 1) / 100 + (year - 1) / 400 + 1
  }

  lemma {:induction false} DaysInClosedForm(year: nat)
    ensures DaysBeforeYear(year) == 365 * year + LeapsBefore(year)
  {
    if year > 0 {
      DaysInClosedForm(year - 1);
      OneMoreYear(year - 1);
    }
  }

  lemma OneMoreYear(year: nat)
    ensures LeapsBefore(year + 1) == LeapsBefore(year) + if IsLeap(year) then 1 else 0
  {
    if year > 0 {
      NextMultiple(year, 4);
      NextMultiple(year, 100);
      NextMultiple(year, 400);
      MultipleOfBoth(year, 4, 25);
      MultipleOfBoth(year, 100, 4);
    }
  }

  lemma MultipleOfBoth(n: nat, d: nat, k: nat)
    requires d > 0 && k > 0
    ensures d * k > 0 && (n % (d * k) == 0 ==> n % d == 0)
  {
    MulPositive(d, k);
    if n % (d * k) == 0 {
      var q := n / (d * k);
      MulAssoc(d, k, q);
      DivModUnique(n, d, k * q, 0);
    }
  }

  lemma MulPositive(a: nat, b: nat)
    requires a > 0 && b > 0
    ensures a * b > 0
  {
  }

  lemma MulAssoc(a: nat, b: nat, c: nat)
    ensures a * b * c == a * (b * c)
  {
  }

  lemma NextMultiple(n: nat, d: nat)
    requires n > 0 && d > 1
    ensures n / d == (n - 1) / d + if n % d == 0 then 1 else 0
  {
    var q, r := (n - 1) / d, (n - 1) % d;
    if r == d - 1 {
      DivModUnique(n, d, q + 1, 0);
    } else {
      DivModUnique(n, d, q, r + 1);
    }
  }

  lemma {:induction false} YearsAddUp(a: nat, b: nat)
    requires a < b
    ensures DaysBeforeYear(a) + DaysInYear(a) <= DaysBeforeYear(b)
  {
    if a + 1 < b {
      YearsAddUp(a, b - 1);
    }
  }

  lemma {:induction false} MonthsAddUp(year: nat, a: nat, b: nat)
    requires 1 <= a < b <= 12
    ensures DaysBeforeMonth(year, a) + DaysIn(year, a) <= DaysBeforeMonth(year, b)
  {
    if a + 1 < b {
      MonthsAddUp(year, a, b - 1);
    }
  }

  lemma TwelveMonths(year: nat)
    ensures DaysBeforeMonth(year, 12) + 31 == DaysInYear(year)
  {
    var february := DaysIn(year, 2);
    assert DaysBeforeMonth(year, 2) == 31;
    assert DaysBeforeMonth(year, 3) == 31 + february;
    assert DaysBeforeMonth(year, 5) == 92 + february;
    assert DaysBeforeMonth(year, 7) == 153 + february;
    assert DaysBeforeMonth(year, 9) == 215 + february;
    assert DaysBeforeMonth(year, 11) == 276 + february;
  }

  /** From March on, the months' lengths follow one rule. */
  lemma MonthsFollowARule(year: nat, month: nat)
    requires 3 <= month <= 12
    ensures DaysBeforeMonth(year, month) == DaysBeforeMonth(year, 3) + (153 * (month - 3) + 2) / 5
  {
    var march := DaysBeforeMonth(year, 3);
    assert DaysBeforeMonth(year, 5) == march + 61;
    assert DaysBeforeMonth(year, 7) == march + 122;
    assert DaysBeforeMonth(year, 9) == march + 184;
    assert DaysBeforeMonth(year, 11) == march + 245;
  }

  lemma DayWithinYear(t: Instant)
    ensures DaysBeforeMonth(t.year, t.month) + t.day - 1 < DaysInYear(t.year)
  {
    TwelveMonths(t.year);
    if t.month < 12 {
      MonthsAddUp(t.year, t.month, 12);
    }
  }

  lemma WithinItsDay(t: Instant)
    ensures Nanos(t) < (DayNumber(t) + 1) * Period.DAY
  {
  }

  lemma LastYear()
    ensures DaysBeforeYear(9999) + DaysInYear(9999) == 3_652_425
  {
    DaysInClosedForm(9999);
  }

  lemma NoLaterDay(t: Instant)
    ensures DayNumber(t) + 1 <= DaysBeforeYear(9999) + DaysInYear(9999)
  {
    DayWithinYear(t);
    if t.year < 9999 {
      YearsAddUp(t.year, 9999);
    }
  }

  lemma LastDay(t: Instant)
    requires t.year == 9999 && t.month == 12 && t.day == 31
    ensures DayNumber(t) + 1 == DaysBeforeYear(9999) + DaysInYear(9999)
  {
    TwelveMonths(9999);
  }

  /** The calendar ends with year 9999: its last instant is the one before `CALENDAR_END`, and none is later. */
  lemma CalendarEndsExactly(t: Instant)
    ensures Nanos(t) < Period.CALENDAR_END
    ensures Nanos(Utc(9999, 12, 31, 23, 59, 59, 999_999_999)) == Period.CALENDAR_END - 1
  {
    LastYear();
    LastDay(Utc(9999, 12, 31, 23, 59, 59, 999_999_999));
    NoLaterDay(t);
    WithinItsDay(t);
  }

  /** Calendar order of dates is the order of their day numbers. */
  lemma DateOrder(a: Instant, b: Instant)
    requires LexLess([a.year, a.month, a.day], [b.year, b.month, b.day])
    ensures DayNumber(a) < DayNumber(b)
  {
    LexHead([a.year, a.month, a.day], [b.year, b.month, b.day]);
    if a.year < b.year {
      YearsAddUp(a.year, b.year);
      DayWithinYear(a);
    } else if a.month < b.month {
      LexHead([a.month, a.day], [b.month, b.day]);
      MonthsAddUp(a.year, a.month, b.month);
    } else {
      LexHead([a.month, a.day], [b.month, b.day]);
      LexHead([a.day], [b.day]);
    }
  }

  // ---------------------------------------------------------------------
  // Lexicographic order, of fields and of texts
  // ---------------------------------------------------------------------

  ghost predicate LexLess(a: seq<nat>, b: seq<nat>)
    requires |a| == |b|
  {
    a != [] && (a[0] < b[0] || (a[0] == b[0] && LexLess(a[1..], b[1..])))
  }

  lemma LexHead(a: seq<nat>, b: seq<nat>)
    requires |a| == |b| && a != [] && LexLess(a, b)
    ensures a[0] < b[0] || (a[0] == b[0] && LexLess(a[1..], b[1..]))
  {
  }

  /** The database's comparison of two texts: byte by byte, a proper prefix first. */
  ghost predicate TextLess(a: string, b: string) {
    b != [] && (a == [] || a[0] < b[0] || (a[0] == b[0] && TextLess(a[1..], b[1..])))
  }

  lemma {:induction false} SharedPrefix(p: string, a: string, b: string)
    ensures TextLess(p + a, p + b) == TextLess(a, b)
  {
    if p == [] {
      assert p + a == a && p + b == b;
    } else {
      SharedPrefix(p[1..], a, b);
      assert (p + a)[1..] == p[1..] + a && (p + b)[1..] == p[1..] + b;
    }
  }

  lemma {:induction false} TextLessAsymmetric(a: string, b: string)
    requires TextLess(a, b)
    ensures !TextLess(b, a) && a != b
  {
    if a != [] && a[0] == b[0] {
      TextLessAsymmetric(a[1..], b[1..]);
    }
  }

  lemma {:induction false} TextTrichotomy(a: string, b: string)
    ensures TextLess(a, b) || TextLess(b, a) || a == b
  {
    if a != [] && b != [] && a[0] == b[0] {
      TextTrichotomy(a[1..], b[1..]);
      assert a == [a[0]] + a[1..] && b == [b[0]] + b[1..];
    }
  }

  // ---------------------------------------------------------------------
  // Fixed-width digits
  // ---------------------------------------------------------------------

  lemma {:induction false} DigitsOrder(n: nat, m: nat, width: nat, x: string, y: string)
    requires n < m < Pow10(width)
    ensures TextLess(Digits(n, width) + x, Digits(m, width) + y)
  {
    var d, e := [DigitChar(n % 10)], [DigitChar(m % 10)];
    var p, q := Digits(n / 10, width - 1), Digits(m / 10, width - 1);
    assert p + d + x == p + (d + x) && q + e + y == q + (e + y);
    if n / 10 < m / 10 {
      DigitsOrder(n / 10, m / 10, width - 1, d + x, e + y);
    } else {
      SharedPrefix(p, d + x, e + y);
    }
  }

  // ---------------------------------------------------------------------
  // Rendering a list of fields, each followed by its separator
  // ---------------------------------------------------------------------

  datatype Column = Column(width: nat, separator: char)

  ghost predicate Fit(values: seq<nat>, layout: seq<Column>) {
    |values| == |layout| && forall i :: 0 <= i < |values| ==> values[i] < Pow10(layout[i].width)
  }

  function Render(values: seq<nat>, layout: seq<Column>): string
    requires |values| == |layout|
  {
    if values == [] then []
    else Digits(values[0], layout[0].width) + ([layout[0].separator] + Render(values[1..], layout[1..]))
  }

  function Width(layout: seq<Column>): nat {
    if layout == [] then 0 else layout[0].width + 1 + Width(layout[1..])
  }

  function Read(text: string, layout: seq<Column>): (r: Option<seq<nat>>)
    ensures r.Some? ==> |r.value| == |layout|
  {
    if layout == [] then (if text == [] then Some([]) else None)
    else
      var w := layout[0].width;
      if |text| <= w || text[w] != layout[0].separator then None
      else
        match Read(text[w + 1..], layout[1..])
        case None => None
        case Some(rest) => if AllDigits(text[..w]) then Some([Value(text[..w])] + rest) else None
  }

  lemma {:induction false} RenderWidth(values: seq<nat>, layout: seq<Column>)
    requires |values| == |layout|
    ensures |Render(values, layout)| == Width(layout)
  {
    if values != [] {
      RenderWidth(values[1..], layout[1..]);
    }
  }

  lemma {:induction false} RenderRead(values: seq<nat>, layout: seq<Column>)
    requires Fit(values, layout)
    ensures Read(Render(values, layout), layout) == Some(values)
  {
    if values != [] {
      FitTail(values, layout);
      RenderRead(values[1..], layout[1..]);
      ReadHead(values[0], Render(values[1..], layout[1..]), layout, values[1..]);
      assert values == [values[0]] + values[1..];
    }
  }

  lemma FitTail(values: seq<nat>, layout: seq<Column>)
    requires Fit(values, layout) && values != []
    ensures values[0] < Pow10(layout[0].width) && Fit(values[1..], layout[1..])
  {
  }

  lemma ReadHead(n: nat, rest: string, layout: seq<Column>, values: seq<nat>)
    requires layout != [] && n < Pow10(layout[0].width) && Read(rest, layout[1..]) == Some(values)
    ensures Read(Digits(n, layout[0].width) + ([layout[0].separator] + rest), layout) == Some([n] + values)
  {
    DigitsRead(n, layout[0].width);
    ReadCons(Digits(n, layout[0].width), rest, layout, values);
  }

  lemma ReadCons(digits: string, rest: string, layout: seq<Column>, values: seq<nat>)
    requires layout != [] && |digits| == layout[0].width && AllDigits(digits)
    requires Read(rest, layout[1..]) == Some(values)
    ensures Read(digits + ([layout[0].separator] + rest), layout) == Some([Value(digits)] + values)
  {
    CutAround(digits, layout[0].separator, rest);
  }

  lemma CutAround(digits: string, separator: char, rest: string)
    ensures var text := digits + ([separator] + rest);
      && |text| > |digits| && text[|digits|] == separator
      && text[..|digits|] == digits && text[|digits| + 1..] == rest
  {
  }

  lemma {:induction false} ReadRender(text: string, layout: seq<Column>)
    requires Read(text, layout).Some?
    ensures Fit(Read(text, layout).value, layout) && Render(Read(text, layout).value, layout) == text
  {
    if layout != [] {
      var w := layout[0].width;
      ReadDigits(text[..w]);
      ReadRender(text[w + 1..], layout[1..]);
      var v, rest := Value(text[..w]), Read(text[w + 1..], layout[1..]).value;
      FitCons(v, rest, layout);
      SplitAround(text, w);
    }
  }

  lemma SplitAround(text: string, w: nat)
    requires w < |text|
    ensures text == text[..w] + ([text[w]] + text[w + 1..])
  {
  }

  lemma FitCons(v: nat, rest: seq<nat>, layout: seq<Column>)
    requires layout != [] && v < Pow10(layout[0].width) && Fit(rest, layout[1..])
    ensures Fit([v] + rest, layout)
    ensures Render([v] + rest, layout)
         == Digits(v, layout[0].width) + ([layout[0].separator] + Render(rest, layout[1..]))
  {
    assert ([v] + rest)[1..] == rest;
  }

  lemma {:induction false} RenderOrder(a: seq<nat>, b: seq<nat>, layout: seq<Column>)
    requires Fit(a, layout) && Fit(b, layout) && LexLess(a, b)
    ensures TextLess(Render(a, layout), Render(b, layout))
  {
    var w := layout[0].width;
    var x := [layout[0].separator] + Render(a[1..], layout[1..]);
    var y := [layout[0].separator] + Render(b[1..], layout[1..]);
    if a[0] < b[0] {
      DigitsOrder(a[0], b[0], w, x, y);
    } else {
      RenderOrder(a[1..], b[1..], layout[1..]);
      SharedPrefix(Digits(a[0], w), x, y);
      SharedPrefix([layout[0].separator], Render(a[1..], layout[1..]), Render(b[1..], layout[1..]));
    }
  }

  // ---------------------------------------------------------------------
  // The stored timestamp and the hour bucket
  // ---------------------------------------------------------------------

  const TS_LAYOUT: seq<Column> := [
    Column(4, '-'), Column(2, '-'), Column(2, 'T'), Column(2, ':'), Column(2, ':'), Column(2, '.'), Column(9, 'Z')]

  function FormatTs(t: Instant): string {
    Render(t.Fields(), TS_LAYOUT)
  }

  function FormatHour(t: Instant): string {
    Digits(t.year, 4) + "-" + Digits(t.month, 2) + "-" + Digits(t.day, 2) + "T" + Digits(t.hour, 2)
  }

  /** The canonical reading: the fixed layout, and fields that name a real instant. */
  function ParseCanonical(text: string): Option<Instant> {
    match Read(text, TS_LAYOUT)
    case None => None
    case Some(f) =>
      var t := Utc(f[0], f[1], f[2], f[3], f[4], f[5], f[6]);
      if t.Valid() then Some(t) else None
  }

  /** `iso` is the `time` crate's ISO 8601 parser, tried when the canonical reading fails. */
  function ParseTs(text: string, iso: string -> Option<Instant>): Option<Instant> {
    match ParseCanonical(text)
    case Some(t) => Some(t)
    case None => iso(text)
  }

  function FormatHourStr(stored: string, iso: string -> Option<Instant>): string {
    if |stored| >= 20 && stored[4] == '-' && stored[7] == '-' && stored[10] == 'T' then stored[..13]
    else
      match ParseTs(stored, iso)
      case Some(t) => FormatHour(t)
      case None => stored[..Min(13, |stored|)]
  }

  lemma FieldsFit(t: Instant)
    ensures Fit(t.Fields(), TS_LAYOUT)
  {
    assert Pow10(2) == 100 && Pow10(4) == 10_000;
    assert Pow10(9) == 1_000_000_000 by {
      assert Pow10(6) == 1_000_000;
    }
  }

  /** Thirty characters, always. */
  lemma TimestampWidth(t: Instant)
    ensures |FormatTs(t)| == 30
  {
    RenderWidth(t.Fields(), TS_LAYOUT);
  }

  /** Reading a stored timestamp gives back the instant that was stored. */
  lemma {:induction false} TimestampRoundTrip(t: Instant, iso: string -> Option<Instant>)
    ensures ParseTs(FormatTs(t), iso) == Some(t)
  {
    FieldsFit(t);
    RenderRead(t.Fields(), TS_LAYOUT);
  }

  /** `parse_ts` with both of the `time` crate's readers left open: the fixed layout's, then ISO 8601's. */
  function ReadTs(text: string, fixed: string -> Option<Instant>, iso: string -> Option<Instant>): Option<Instant> {
    if fixed(text).Some? then fixed(text) else iso(text)
  }

  /**
   * Any reader that reads back what `format_ts` writes is `ParseTs` with itself for the fallback:
   * so whatever holds of `ParseTs` for every fallback holds of the source's two readers.
   */
  lemma {:induction false} AnyReaderWillDo(text: string, read: string -> Option<Instant>)
    requires forall t: Instant :: read(FormatTs(t)) == Some(t)
    ensures ParseTs(text, read) == read(text)
  {
    CanonicalText(text);
  }

  /**
   * It does not matter which reader takes a stored text. The fixed layout names no offset, so its
   * reader may refuse every text; as long as what the two make of `format_ts`'s texts is the
   * instant they were made from, the round trip holds, and so does all that is said of `ParseTs`.
   */
  lemma {:induction false} EitherReaderWillDo(t: Instant, text: string, fixed: string -> Option<Instant>,
                                              iso: string -> Option<Instant>)
    requires forall u: Instant ::
      fixed(FormatTs(u)) == Some(u) || (fixed(FormatTs(u)).None? && iso(FormatTs(u)) == Some(u))
    ensures ReadTs(FormatTs(t), fixed, iso) == Some(t)
    ensures ParseTs(text, x => ReadTs(x, fixed, iso)) == ReadTs(text, fixed, iso)
  {
    var read := x => ReadTs(x, fixed, iso);
    forall u: Instant ensures read(FormatTs(u)) == Some(u) {
      assert ReadTs(FormatTs(u), fixed, iso) == Some(u);
    }
    AnyReaderWillDo(text, read);
  }

  /** A text is canonical exactly when it is some instant's rendering. */
  lemma CanonicalText(text: string)
    ensures ParseCanonical(text).Some? ==> FormatTs(ParseCanonical(text).value) == text
    ensures ParseCanonical(text).None? ==> forall t: Instant :: FormatTs(t) != text
  {
    if ParseCanonical(text).Some? {
      ReadRender(text, TS_LAYOUT);
      assert Read(text, TS_LAYOUT).value == ParseCanonical(text).value.Fields();
    } else {
      forall t: Instant ensures FormatTs(t) != text {
        TimestampRoundTrip(t, _ => None);
      }
    }
  }

  /** Text order is time order: comparing the columns decides what comparing the instants would. */
  lemma TextOrderIsTimeOrder(a: Instant, b: Instant)
    ensures TextLess(FormatTs(a), FormatTs(b)) <==> Nanos(a) < Nanos(b)
    ensures FormatTs(a) == FormatTs(b) <==> a == b
    ensures Nanos(a) == Nanos(b) <==> a == b
  {
    if LexLess(a.Fields(), b.Fields()) {
      EarlierInBoth(a, b);
    } else if LexLess(b.Fields(), a.Fields()) {
      EarlierInBoth(b, a);
    } else {
      FieldsTotal(a, b);
      TextNotLessSelf(FormatTs(a));
    }
  }

  lemma TextNotLessSelf(a: string)
    ensures !TextLess(a, a)
  {
    if TextLess(a, a) {
      TextLessAsymmetric(a, a);
    }
  }

  lemma EarlierInBoth(a: Instant, b: Instant)
    requires LexLess(a.Fields(), b.Fields())
    ensures TextLess(FormatTs(a), FormatTs(b)) && !TextLess(FormatTs(b), FormatTs(a))
    ensures FormatTs(a) != FormatTs(b)
    ensures Nanos(a) < Nanos(b)
  {
    FieldsFit(a);
    FieldsFit(b);
    RenderOrder(a.Fields(), b.Fields(), TS_LAYOUT);
    TextLessAsymmetric(FormatTs(a), FormatTs(b));
    NanosOrder(a, b);
  }

  lemma NanosOrder(a: Instant, b: Instant)
    requires LexLess(a.Fields(), b.Fields())
    ensures Nanos(a) < Nanos(b)
  {
    LexSplit(a.Fields(), b.Fields(), 3);
    assert a.Fields()[..3] == [a.year, a.month, a.day] && b.Fields()[..3] == [b.year, b.month, b.day];
    if LexLess([a.year, a.month, a.day], [b.year, b.month, b.day]) {
      DateOrder(a, b);
    } else {
      assert DayNumber(a) == DayNumber(b);
      ClockOrder(a, b);
    }
  }

  lemma ClockOrder(a: Instant, b: Instant)
    requires LexLess(a.Fields()[3..], b.Fields()[3..]) && DayNumber(a) == DayNumber(b)
    ensures Nanos(a) < Nanos(b)
  {
    var x, y := a.Fields()[3..], b.Fields()[3..];
    LexHead(x, y);
    if x[0] == y[0] {
      LexHead(x[1..], y[1..]);
      if x[1] == y[1] {
        LexHead(x[2..], y[2..]);
        assert x[2..] == x[1..][1..] && y[2..] == y[1..][1..];
        if x[2] == y[2] {
          assert x[3..] == x[2..][1..] && y[3..] == y[2..][1..];
          LexHead(x[3..], y[3..]);
        }
      }
    }
  }

  lemma {:induction false} LexSplit(a: seq<nat>, b: seq<nat>, k: nat)
    requires |a| == |b| && k <= |a| && LexLess(a, b)
    ensures LexLess(a[..k], b[..k]) || (a[..k] == b[..k] && LexLess(a[k..], b[k..]))
  {
    if k > 0 && a[0] == b[0] {
      LexSplit(a[1..], b[1..], k - 1);
      assert a[..k][1..] == a[1..][..k - 1] && b[..k][1..] == b[1..][..k - 1];
      assert a[k..] == a[1..][k - 1..] && b[k..] == b[1..][k - 1..];
      assert a[..k] == [a[0]] + a[1..][..k - 1] && b[..k] == [b[0]] + b[1..][..k - 1];
    }
  }

  lemma FieldsTotal(a: Instant, b: Instant)
    requires !LexLess(a.Fields(), b.Fields()) && !LexLess(b.Fields(), a.Fields())
    ensures a == b
  {
    LexTotal(a.Fields(), b.Fields());
    assert forall i :: 0 <= i < 7 ==> a.Fields()[i] == b.Fields()[i];
  }

  lemma {:induction false} LexTotal(a: seq<nat>, b: seq<nat>)
    requires |a| == |b|
    ensures LexLess(a, b) || LexLess(b, a) || a == b
  {
    if a != [] && a[0] == b[0] {
      LexTotal(a[1..], b[1..]);
      assert a == [a[0]] + a[1..] && b == [b[0]] + b[1..];
    }
  }

  /** The stored text is its hour bucket, a colon, and the rest of the clock. */
  lemma HourLeadsTheRow(t: Instant) returns (rest: string)
    ensures FormatTs(t) == FormatHour(t) + (":" + rest)
  {
    var f, y, m, d, h := t.Fields(), Digits(t.year, 4), Digits(t.month, 2), Digits(t.day, 2), Digits(t.hour, 2);
    RenderTail(f, TS_LAYOUT, 0);
    RenderTail(f, TS_LAYOUT, 1);
    RenderTail(f, TS_LAYOUT, 2);
    RenderTail(f, TS_LAYOUT, 3);
    assert f[0..] == f && TS_LAYOUT[0..] == TS_LAYOUT;
    rest := Render(f[4..], TS_LAYOUT[4..]);
    Reassociate(y, m, d, h, ":" + rest);
  }

  lemma Reassociate(y: string, m: string, d: string, h: string, rest: string)
    ensures y + (['-'] + (m + (['-'] + (d + (['T'] + (h + rest)))))) == y + "-" + m + "-" + d + "T" + h + rest
  {
    assert d + (['T'] + (h + rest)) == d + "T" + h + rest;
    assert m + (['-'] + (d + "T" + h + rest)) == m + "-" + d + "T" + h + rest;
  }

  /** What a stored timestamp looks like. */
  lemma TimestampSpells(t: Instant)
    ensures FormatTs(t)
         == Digits(t.year, 4) + ("-" + (Digits(t.month, 2) + ("-" + (Digits(t.day, 2) + ("T" + (Digits(t.hour, 2) +
            (":" + (Digits(t.minute, 2) + (":" + (Digits(t.second, 2) + ("." + (Digits(t.nanos, 9) + "Z"))))))))))))
  {
    var f := t.Fields();
    assert f[0..] == f && TS_LAYOUT[0..] == TS_LAYOUT;
    RenderTail(f, TS_LAYOUT, 0);
    RenderTail(f, TS_LAYOUT, 1);
    RenderTail(f, TS_LAYOUT, 2);
    ClockSpells(f);
  }

  lemma ClockSpells(f: seq<nat>)
    requires |f| == 7
    ensures Render(f[3..], TS_LAYOUT[3..])
         == Digits(f[3], 2) + (":" + (Digits(f[4], 2) + (":" + (Digits(f[5], 2) + ("." + (Digits(f[6], 9) + "Z"))))))
  {
    assert f[7..] == [] && TS_LAYOUT[7..] == [];
    RenderTail(f, TS_LAYOUT, 3);
    RenderTail(f, TS_LAYOUT, 4);
    RenderTail(f, TS_LAYOUT, 5);
    RenderTail(f, TS_LAYOUT, 6);
    assert ['Z'] + [] == "Z";
  }

  /** The bucket named from a stored row is the bucket of the instant it stores. */
  lemma {:induction false} HourOfStoredRow(t: Instant, iso: string -> Option<Instant>)
    ensures FormatHourStr(FormatTs(t), iso) == FormatHour(t)
  {
    TimestampWidth(t);
    var rest := HourLeadsTheRow(t);
    var hour := FormatHour(t);
    assert |hour| == 13 && hour[4] == '-' && hour[7] == '-' && hour[10] == 'T';
    assert FormatTs(t)[..13] == hour;
  }

  lemma RenderTail(values: seq<nat>, layout: seq<Column>, k: nat)
    requires k < |values| == |layout|
    ensures Render(values[k..], layout[k..])
         == Digits(values[k], layout[k].width) + ([layout[k].separator] + Render(values[k + 1..], layout[k + 1..]))
  {
    assert values[k..][1..] == values[k + 1..] && layout[k..][1..] == layout[k + 1..];
  }
}
