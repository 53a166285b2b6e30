/** Prices as an operator writes them: parsing and rendering (`src/billing/pricing.rs`). */
module PriceText {
  import opened Prelude
  import opened Decimal
  import opened Pricing

  const PLACES := 6

  // ---------------------------------------------------------------------
  // The grammar and the value of a text
  // ---------------------------------------------------------------------

  /** Where the first `.` is, or the length. */
  function Dot(text: string): (at: nat)
    ensures at <= |text|
    ensures at < |text| ==> text[at] == '.'
    ensures forall i :: 0 <= i < at ==> text[i] != '.'
  {
    if text == [] || text[0] == '.' then 0 else 1 + Dot(text[1..])
  }

  function Whole(text: string): string {
    text[..Dot(text)]
  }

  function Fraction(text: string): string {
    if Dot(text) < |text| then text[Dot(text) + 1..] else []
  }

  /** Digits with at most one dot, which does not end the text; not empty. */
  predicate IsPrice(text: string) {
    && AllDigits(Whole(text)) && AllDigits(Fraction(text))
    && (Dot(text) < |text| ==> Fraction(text) != [])
    && text != []
  }

  /** So a price is digits, or digits on either side of a dot, of which those before it may be missing. */
  lemma IsPriceExactlyWhen(text: string)
    ensures IsPrice(text) <==>
      || (text != [] && AllDigits(text))
      || (exists at :: 0 <= at < |text| - 1 && text[at] == '.' && AllDigits(text[..at]) && AllDigits(text[at + 1..]))
  {
    var dot := Dot(text);
    if dot == |text| {
      assert text[..dot] == text;
    } else {
      assert !IsDigit(text[dot]);
      forall at | dot < at < |text| ensures !AllDigits(text[..at]) {
        assert !IsDigit(text[..at][dot]);
      }
    }
  }

  /** `n / d` rounded to the nearest whole number, a tie upward. */
  function HalfUp(n: nat, d: nat): nat
    requires d > 0
  {
    (2 * n + d) / (2 * d)
  }

  lemma HalfUpIsNearest(n: nat, d: nat)
    requires d > 0
    ensures 2 * n - d < 2 * HalfUp(n, d) * d <= 2 * n + d
  {
    var r, left := HalfUp(n, d), (2 * n + d) % (2 * d);
    assert 2 * n + d == 2 * d * r + left;
    Swapped(d, r);
  }

  lemma Swapped(d: nat, r: nat)
    ensures 2 * d * r == 2 * r * d
  {
  }

  /**
   * The text as a rational number of dollars, in micro-dollars rounded half up: the digits with
   * the dot removed, over ten to the number of digits after it, times a million.
   */
  function Micros(text: string): nat
    requires IsPrice(text)
  {
    HalfUp(Value(Whole(text) + Fraction(text)) * UNIT, Pow10(|Fraction(text)|))
  }

  function PriceOf(text: string): Result<i64, PriceError> {
    if !IsPrice(text) then Err(NotANumber)
    else if Micros(text) > I64_MAX then Err(OutOfRange)
    else Ok(Micros(text))
  }

  // ---------------------------------------------------------------------
  // What the digit loop computes
  // ---------------------------------------------------------------------

  /** The first six digits at their place value, and one more when the seventh is at least five. */
  function FractionMicros(f: string): nat
    requires AllDigits(f)
  {
    if |f| <= PLACES then Value(f) * Pow10(PLACES - |f|)
    else Value(f[..PLACES]) + (if f[PLACES] >= '5' then 1 else 0)
  }

  lemma HalfUpShift(w: nat, n: nat, d: nat)
    requires d > 0
    ensures HalfUp(w * d + n, d) == w + HalfUp(n, d)
  {
    DivModUnique(2 * (w * d + n) + d, 2 * d, w + HalfUp(n, d), (2 * n + d) % (2 * d));
  }

  lemma HalfUpExact(n: nat, d: nat)
    requires d > 0
    ensures HalfUp(n * d, d) == n
  {
    DivModUnique(2 * (n * d) + d, 2 * d, n, d);
  }

  lemma HalfUpScaled(n: nat, d: nat, k: nat)
    requires d > 0 && k > 0
    ensures HalfUp(n * k, d * k) == HalfUp(n, d)
  {
    var q, r := (2 * n + d) / (2 * d), (2 * n + d) % (2 * d);
    assert (2 * n + d) * k == (2 * d * q + r) * k;
    Scaled(d, q, r, k);
    DivModUnique(2 * (n * k) + d * k, 2 * (d * k), q, r * k);
  }

  lemma Scaled(d: nat, q: nat, r: nat, k: nat)
    requires r < 2 * d && k > 0
    ensures (2 * d * q + r) * k == 2 * (d * k) * q + r * k
    ensures r * k < 2 * (d * k)
  {
    assert r * k + k <= 2 * d * k by { MulMonotone(r + 1, 2 * d, k, k); }
    calc {
      (2 * d * q + r) * k;
      2 * d * q * k + r * k;
      { assert 2 * d * q * k == 2 * (d * k) * q by { Shuffle(d, q, k); } }
      2 * (d * k) * q + r * k;
    }
  }

  lemma Shuffle(d: int, q: int, k: int)
    ensures 2 * d * q * k == 2 * (d * k) * q
  {
    assert d * q * k == d * k * q;
  }

  lemma ShortFraction(f: string)
    requires AllDigits(f) && |f| <= PLACES
    ensures HalfUp(Value(f) * UNIT, Pow10(|f|)) == FractionMicros(f)
  {
    var k := PLACES - |f|;
    Pow10Add(|f|, k);
    SixPlaces();
    Reorder(Value(f), Pow10(|f|), Pow10(k));
    HalfUpExact(Value(f) * Pow10(k), Pow10(|f|));
  }

  lemma Reorder(a: int, b: int, c: int)
    ensures a * (b * c) == a * c * b
  {
  }

  lemma SixPlaces()
    ensures Pow10(PLACES) == UNIT
  {
    assert Pow10(3) == 1000;
  }

  lemma SevenAndTail(f: string)
    requires AllDigits(f) && |f| > PLACES
    ensures Value(f[PLACES + 1..]) < Pow10(|f[PLACES + 1..]|)
    ensures Value(f) == (10 * Value(f[..PLACES]) + DigitValue(f[PLACES])) * Pow10(|f[PLACES + 1..]|)
                        + Value(f[PLACES + 1..])
  {
    var head, tail := f[..PLACES + 1], f[PLACES + 1..];
    ReadDigits(tail);
    ValueConcat(head, tail);
    assert f == head + tail;
    SevenDigits(f);
    SameProduct(Value(head), 10 * Value(f[..PLACES]) + DigitValue(f[PLACES]), Pow10(|tail|));
  }

  lemma SameProduct(a: int, b: int, p: int)
    requires a == b
    ensures a * p == b * p
  {
  }

  lemma SevenDigits(f: string)
    requires AllDigits(f) && |f| > PLACES
    ensures Value(f[..PLACES + 1]) == 10 * Value(f[..PLACES]) + DigitValue(f[PLACES])
  {
    ValueSnoc(f[..PLACES], f[PLACES]);
    assert f[..PLACES + 1] == f[..PLACES] + [f[PLACES]];
  }

  /** Scaling by a million takes six zeros off the denominator. */
  lemma SixZerosOff(f: string)
    requires AllDigits(f) && |f| > PLACES
    ensures HalfUp(Value(f) * UNIT, Pow10(|f|)) == HalfUp(Value(f), Pow10(|f| - PLACES))
  {
    var k := |f| - PLACES;
    SixPlaces();
    Pow10Add(k, PLACES);
    HalfUpScaled(Value(f), Pow10(k), UNIT);
  }

  /** Only the seventh digit decides the rounding. */
  lemma LongFraction(f: string)
    requires AllDigits(f) && |f| > PLACES
    ensures HalfUp(Value(f) * UNIT, Pow10(|f|)) == FractionMicros(f)
  {
    SixZerosOff(f);
    SeventhRounds(f);
  }

  lemma SeventhRounds(f: string)
    requires AllDigits(f) && |f| > PLACES
    ensures HalfUp(Value(f), Pow10(|f| - PLACES)) == FractionMicros(f)
  {
    var head, seventh, tail := Value(f[..PLACES]), DigitValue(f[PLACES]), Value(f[PLACES + 1..]);
    var p := Pow10(|f[PLACES + 1..]|);
    SevenAndTail(f);
    RoundedAtSeventh(Value(f), Pow10(|f| - PLACES), head, seventh, tail, p);
  }

  lemma RoundedAtSeventh(n: nat, d: nat, head: nat, seventh: nat, tail: nat, p: nat)
    requires seventh < 10 && tail < p && d == 10 * p && n == (10 * head + seventh) * p + tail
    ensures HalfUp(n, d) == head + (if seventh >= 5 then 1 else 0)
  {
    SeventhDecides(head, seventh, tail, p);
  }

  lemma SeventhDecides(head: nat, seventh: nat, tail: nat, p: nat)
    requires seventh < 10 && tail < p
    ensures HalfUp((10 * head + seventh) * p + tail, 10 * p) == head + (if seventh >= 5 then 1 else 0)
  {
    SplitSeventh(head, seventh, tail, p);
    HalfUpShift(head, seventh * p + tail, 10 * p);
    if seventh >= 5 {
      RoundsUp(seventh, tail, p);
    } else {
      RoundsDown(seventh, tail, p);
    }
  }

  lemma SplitSeventh(head: nat, seventh: nat, tail: nat, p: nat)
    ensures (10 * head + seventh) * p + tail == head * (10 * p) + (seventh * p + tail)
  {
    Distribute(10 * head, seventh, p);
    TenTimes(head, p);
  }

  lemma RoundsUp(seventh: nat, tail: nat, p: nat)
    requires 5 <= seventh < 10 && tail < p
    ensures HalfUp(seventh * p + tail, 10 * p) == 1
  {
    MulMonotone(5, seventh, p, p);
    MulMonotone(seventh, 9, p, p);
    HalfIsOne(seventh * p + tail, p);
  }

  lemma RoundsDown(seventh: nat, tail: nat, p: nat)
    requires seventh < 5 && tail < p
    ensures HalfUp(seventh * p + tail, 10 * p) == 0
  {
    MulMonotone(seventh, 4, p, p);
    HalfIsZero(seventh * p + tail, p);
  }

  lemma HalfIsOne(n: nat, p: nat)
    requires 5 * p <= n < 10 * p
    ensures HalfUp(n, 10 * p) == 1
  {
    DivModUnique(2 * n + 10 * p, 20 * p, 1, 2 * n - 10 * p);
  }

  lemma HalfIsZero(n: nat, p: nat)
    requires n < 5 * p
    ensures HalfUp(n, 10 * p) == 0
  {
    DivModUnique(2 * n + 10 * p, 20 * p, 0, 2 * n + 10 * p);
  }

  /** The value of a text is its whole part in micro-dollars plus what the digit loop makes of its fraction. */
  lemma MicrosByParts(text: string)
    requires IsPrice(text)
    ensures Micros(text) == Value(Whole(text)) * UNIT + FractionMicros(Fraction(text))
  {
    var w, f := Whole(text), Fraction(text);
    var d := Pow10(|f|);
    ValueConcat(w, f);
    Regroup(Value(w), d, Value(f));
    HalfUpShift(Value(w) * UNIT, Value(f) * UNIT, d);
    if |f| <= PLACES {
      ShortFraction(f);
    } else {
      LongFraction(f);
    }
  }

  lemma Regroup(w: nat, d: nat, f: nat)
    ensures (w * d + f) * UNIT == w * UNIT * d + f * UNIT
  {
  }

  // ---------------------------------------------------------------------
  // The parser
  // ---------------------------------------------------------------------

  /** `micros +=` is unchecked: an `i128` past its end wraps. */
  function WrapI128(v: int): int {
    if v <= I128_MAX then v else v - 2 * (I128_MAX + 1)
  }

  /** On sums of two of them, that is arithmetic modulo 2 to the 128th, back into range. */
  lemma WrapsModulo(v: int)
    requires 0 <= v <= 2 * I128_MAX + 1
    ensures FitsI128(WrapI128(v))
    ensures WrapI128(v) == v || WrapI128(v) == v - 0x1_0000_0000_0000_0000_0000_0000_0000_0000
  {
  }

  lemma {:induction false} PrefixNoLarger(s: string, i: nat)
    requires AllDigits(s) && i <= |s|
    ensures Value(s[..i]) <= Value(s)
    decreases |s| - i
  {
    if i < |s| {
      ValueSnoc(s[..i], s[i]);
      assert s[..i + 1] == s[..i] + [s[i]];
      PrefixNoLarger(s, i + 1);
    } else {
      assert s[..i] == s;
    }
  }

  /** The whole part, in a checked `i128`. */
  method ParseWhole(whole: string) returns (r: Option<int>)
    requires AllDigits(whole)
    ensures r == if Value(whole) * UNIT <= I128_MAX then Some(Value(whole) * UNIT) else None
  {
    var value := 0;
    for i := 0 to |whole|
      invariant value == Value(whole[..i])
    {
      ValueSnoc(whole[..i], whole[i]);
      assert whole[..i + 1] == whole[..i] + [whole[i]];
      PrefixNoLarger(whole, i + 1);
      if !FitsI128(value * 10) || !FitsI128(value * 10 + DigitValue(whole[i])) {
        return None;
      }
      value := value * 10 + DigitValue(whole[i]);
    }
    assert whole[..|whole|] == whole;
    if !FitsI128(value * UNIT) {
      return None;
    }
    return Some(value * UNIT);
  }

  /** Adds the fraction to `micros`, digit by digit, wrapping where the source does not check. */
  method AddFraction(base: int, fraction: string) returns (micros: int)
    requires 0 <= base <= I128_MAX && AllDigits(fraction)
    ensures micros == WrapI128(base + FractionMicros(fraction))
  {
    micros := base;
    var seen := 0;
    assert Value(fraction[..0]) == 0;
    while seen < |fraction|
      invariant 0 <= seen <= |fraction| && seen <= PLACES
      invariant micros == WrapI128(base + PlacesRead(fraction, seen))
    {
      if seen < PLACES {
        AddPlace(base, fraction, seen);
        micros := WrapI128(micros + DigitValue(fraction[seen]) * Pow10(PLACES - seen - 1));
        seen := seen + 1;
      } else if fraction[seen] >= '5' {
        BelowOneUnit(fraction[..seen]);
        return WrapI128(micros + 1);
      } else {
        return;
      }
    }
    assert fraction[..seen] == fraction;
  }

  /** The first `seen` digits of a fraction, in micros. */
  function PlacesRead(f: string, seen: nat): int
    requires AllDigits(f) && seen <= |f| && seen <= PLACES
  {
    Value(f[..seen]) * Pow10(PLACES - seen)
  }

  lemma AddPlace(base: int, f: string, seen: nat)
    requires 0 <= base <= I128_MAX && AllDigits(f) && seen < |f| && seen < PLACES
    ensures WrapI128(WrapI128(base + PlacesRead(f, seen)) + DigitValue(f[seen]) * Pow10(PLACES - seen - 1))
         == WrapI128(base + PlacesRead(f, seen + 1))
  {
    BelowOneUnit(f[..seen]);
    NextPlace(f, seen);
    BelowOneUnit(f[..seen + 1]);
  }

  lemma NextPlace(f: string, seen: nat)
    requires AllDigits(f) && seen < |f| && seen < PLACES
    ensures Value(f[..seen + 1]) * Pow10(PLACES - seen - 1)
         == Value(f[..seen]) * Pow10(PLACES - seen) + DigitValue(f[seen]) * Pow10(PLACES - seen - 1)
  {
    ValueSnoc(f[..seen], f[seen]);
    assert f[..seen + 1] == f[..seen] + [f[seen]];
    PlaceStep(Value(f[..seen]), DigitValue(f[seen]), Value(f[..seen + 1]),
              Pow10(PLACES - seen - 1), Pow10(PLACES - seen));
  }

  lemma PlaceStep(v: int, d: int, longer: int, p: int, wider: int)
    requires longer == 10 * v + d && wider == 10 * p
    ensures longer * p == v * wider + d * p
  {
    Distribute(10 * v, d, p);
    TenTimes(v, p);
  }

  /** Six digits of fraction stay below one whole unit. */
  lemma BelowOneUnit(f: string)
    requires AllDigits(f) && |f| <= PLACES
    ensures 0 <= Value(f) * Pow10(PLACES - |f|) < UNIT
  {
    ReadDigits(f);
    Pow10Add(|f|, PLACES - |f|);
    SixPlaces();
    ScaledBelow(Value(f), Pow10(|f|), Pow10(PLACES - |f|));
  }

  lemma ScaledBelow(a: nat, b: nat, p: nat)
    requires a < b && p > 0
    ensures 0 <= a * p < b * p
  {
  }

  lemma FractionBelowOne(f: string)
    requires AllDigits(f)
    ensures 0 <= FractionMicros(f) <= UNIT
  {
    BelowOneUnit(if |f| <= PLACES then f else f[..PLACES]);
  }

  /** A sum past the end of an `i128` wraps far below every `i64`. */
  lemma WrapStaysOut(base: int, part: int)
    requires 0 <= base <= I128_MAX && 0 <= part <= UNIT
    ensures FitsI64(WrapI128(base + part)) <==> base + part <= I64_MAX
    ensures FitsI64(WrapI128(base + part)) ==> WrapI128(base + part) == base + part
  {
  }

  /** What the two loops' results make of a price. */
  lemma PriceByParts(text: string, base: int, part: int)
    requires IsPrice(text) && base == Value(Whole(text)) * UNIT && part == FractionMicros(Fraction(text))
    ensures base > I128_MAX ==> PriceOf(text) == Err(OutOfRange)
    ensures base <= I128_MAX ==>
      var sum := WrapI128(base + part);
      PriceOf(text) == if FitsI64(sum) then Ok(sum) else Err(OutOfRange)
  {
    MicrosByParts(text);
    FractionBelowOne(Fraction(text));
    if base <= I128_MAX {
      WrapStaysOut(base, part);
    }
  }

  /** The parser is exact: it agrees with the value of the text on every input, wrap included. */
  method Parse(text: string) returns (r: Result<i64, PriceError>)
    ensures r == PriceOf(text)
  {
    var dot := Dot(text);
    var whole, fraction := text[..dot], if dot < |text| then text[dot + 1..] else [];
    if !AllDigits(whole) || !AllDigits(fraction) || (dot < |text| && fraction == []) || (whole == [] && dot == |text|) {
      return Err(NotANumber);
    }
    PriceByParts(text, Value(whole) * UNIT, FractionMicros(fraction));
    var base := ParseWhole(whole);
    if base.None? {
      return Err(OutOfRange);
    }
    var micros := AddFraction(base.value, fraction);
    if !FitsI64(micros) {
      return Err(OutOfRange);
    }
    return Ok(micros);
  }

  // ---------------------------------------------------------------------
  // Rendering
  // ---------------------------------------------------------------------

  function FormatMicros(micros: i64): string {
    var magnitude := if micros < 0 then -(micros as int) else micros;
    (if micros < 0 then "-" else "") + (Shortest(magnitude / UNIT) + ("." + Digits(magnitude % UNIT, PLACES)))
  }

  function TrimZeros(s: string): string {
    if s != [] && s[|s| - 1] == '0' then TrimZeros(s[..|s| - 1]) else s
  }

  function ToDecimalString(price: i64): string {
    var trimmed := TrimZeros(FormatMicros(price));
    if trimmed != [] && trimmed[|trimmed| - 1] == '.' then trimmed[..|trimmed| - 1] else trimmed
  }

  /** A negative amount is its magnitude's text behind a sign. */
  lemma NegativeRendering(micros: i64)
    requires I64_MIN < micros < 0
    ensures FormatMicros(micros) == "-" + FormatMicros(-(micros as int))
  {
  }

  lemma {:induction false} TrimAfter(p: string, s: string)
    requires p != [] && p[|p| - 1] != '0'
    ensures TrimZeros(p + s) == p + TrimZeros(s)
  {
    if s == [] {
      assert p + s == p;
    } else {
      assert (p + s)[..|p + s| - 1] == p + s[..|s| - 1];
      TrimAfter(p, s[..|s| - 1]);
    }
  }

  /** Trimming only removes zeros from the end, so it divides the value by the places removed. */
  lemma {:induction false} TrimValue(s: string)
    requires AllDigits(s)
    ensures AllDigits(TrimZeros(s)) && |TrimZeros(s)| <= |s|
    ensures Value(TrimZeros(s)) * Pow10(|s| - |TrimZeros(s)|) == Value(s)
  {
    if s != [] && s[|s| - 1] == '0' {
      var most := s[..|s| - 1];
      TrimValue(most);
      TenTimes(Value(TrimZeros(s)), Pow10(|most| - |TrimZeros(most)|));
    }
  }

  /** The rendering, spelled out: the whole part, and the fraction without its trailing zeros when it has one. */
  lemma Rendering(price: i64) returns (kept: string)
    requires price >= 0
    ensures AllDigits(kept) && |kept| <= PLACES
    ensures Value(kept) * Pow10(PLACES - |kept|) == price % UNIT
    ensures ToDecimalString(price)
         == if kept == [] then Shortest(price / UNIT) else Shortest(price / UNIT) + "." + kept
  {
    var w, f := Shortest(price / UNIT), Digits(price % UNIT, PLACES);
    kept := TrimZeros(f);
    assert FormatMicros(price) == w + "." + f;
    TrimAfter(w + ".", f);
    TrimValue(f);
    SixPlaces();
    DigitsRead(price % UNIT, PLACES);
    var text := w + "." + kept;
    if kept == [] {
      assert text == w + "." && text[..|w|] == w;
    } else {
      assert text[|text| - 1] == kept[|kept| - 1];
    }
  }

  lemma WholeParses(w: string)
    requires AllDigits(w) && w != []
    ensures IsPrice(w) && Micros(w) == Value(w) * UNIT
  {
    SplitPlain(w);
    MicrosByParts(w);
  }

  lemma DottedParses(w: string, f: string)
    requires AllDigits(w) && AllDigits(f) && f != [] && |f| <= PLACES
    ensures IsPrice(w + "." + f) && Micros(w + "." + f) == Value(w) * UNIT + Value(f) * Pow10(PLACES - |f|)
  {
    SplitDotted(w, f);
    MicrosByParts(w + "." + f);
  }

  /** What an operator is shown parses back to the price it shows. */
  lemma RenderThenParse(price: i64)
    requires price >= 0
    ensures PriceOf(ToDecimalString(price)) == Ok(price)
  {
    var kept := Rendering(price);
    ShortestRead(price / UNIT);
    RenderedParses(Shortest(price / UNIT), kept, price);
  }

  lemma RenderedParses(w: string, kept: string, price: i64)
    requires price >= 0 && AllDigits(w) && w != [] && Value(w) == price / UNIT
    requires AllDigits(kept) && |kept| <= PLACES && Value(kept) * Pow10(PLACES - |kept|) == price % UNIT
    ensures PriceOf(if kept == [] then w else w + "." + kept) == Ok(price)
  {
    WholeAndRest(price);
    if kept == [] {
      ZeroTimes(Pow10(PLACES - |kept|));
      WholeParses(w);
      PriceOfMicros(w, price);
    } else {
      DottedParses(w, kept);
      PriceOfMicros(w + "." + kept, price);
    }
  }

  lemma PriceOfMicros(text: string, price: i64)
    requires IsPrice(text) && Micros(text) == price
    ensures PriceOf(text) == Ok(price)
  {
  }

  lemma ZeroTimes(p: int)
    ensures 0 * p == 0
  {
  }

  lemma WholeAndRest(price: nat)
    ensures price == price / UNIT * UNIT + price % UNIT
  {
  }

  lemma SplitPlain(w: string)
    requires AllDigits(w)
    ensures Dot(w) == |w| && Whole(w) == w && Fraction(w) == []
  {
  }

  lemma SplitDotted(w: string, f: string)
    requires AllDigits(w)
    ensures Whole(w + "." + f) == w && Fraction(w + "." + f) == f && Dot(w + "." + f) == |w|
  {
    var text := w + "." + f;
    assert text[|w|] == '.';
  }

  /** A rendered price is a normal form: two texts of prices render alike exactly when they are one price. */
  lemma RenderIsNormalForm(a: string, b: string)
    requires PriceOf(a).Ok? && PriceOf(b).Ok?
    ensures PriceOf(ToDecimalString(PriceOf(a).value)) == PriceOf(a)
    ensures ToDecimalString(PriceOf(a).value) == ToDecimalString(PriceOf(b).value) <==> PriceOf(a) == PriceOf(b)
  {
    RenderThenParse(PriceOf(a).value);
    RenderThenParse(PriceOf(b).value);
  }
}
