/** Rendering of an identifier's time by the command line tool. */
module FormatTime {
  import opened Bits
  import opened PlaceValue
  import opened Ulids
  import opened Calendar

  // ---------- Decimal text ----------

  /** Decimal digits of a number, as `{}` prints them. */
  function Decimal(v: nat): (s: seq<u8>)
    ensures |s| > 0
  {
    if v < 10 then [48 + v] else Decimal(v / 10) + [48 + v % 10]
  }

  /** `{:0w}`: zeros in front up to the width; a longer number is not cut. */
  function Pad(v: nat, w: nat): seq<u8> {
    var s := Decimal(v);
    if |s| < w then seq(w - |s|, _ => 48) + s else s
  }

  function DigitChar(ds: seq<nat>, i: nat): u8
    requires Below(ds, 10) && i < |ds|
  {
    48 + ds[i]
  }

  /** The `w` decimal digits of `v` as characters. */
  function Fixed(v: nat, w: nat): (s: seq<u8>)
    ensures |s| == w
  {
    seq<u8>(w, i requires 0 <= i < w => DigitChar(ToDigits(v, 10, w), i))
  }

  lemma {:induction false} FixedStep(v: nat, w: nat)
    requires w > 0
    ensures Fixed(v, w) == Fixed(v / 10, w - 1) + [48 + v % 10]
  {
  }

  lemma {:induction false} FixedZero(w: nat)
    ensures Fixed(0, w) == seq(w, _ => 48)
  {
    if w > 0 {
      FixedStep(0, w);
      FixedZero(w - 1);
    }
  }

  /** A number that fits the width is padded to exactly its digits. */
  lemma {:induction false} PadIsFixed(v: nat, w: nat)
    requires w > 0 && v < Pow(10, w)
    ensures |Decimal(v)| <= w && Pad(v, w) == Fixed(v, w)
  {
    FixedStep(v, w);
    hide Fixed;
    if v < 10 {
      FixedZero(w - 1);
    } else {
      QuotientBound(v, 10, Pow(10, w - 1));
      PadIsFixed(v / 10, w - 1);
    }
  }

  /** A number that needs the whole width, or more than the padding asked for, is printed in its digits. */
  lemma {:induction false} DecimalIsFixed(v: nat, w: nat)
    requires w > 0 && Pow(10, w - 1) <= v < Pow(10, w)
    ensures Decimal(v) == Fixed(v, w)
  {
    FixedStep(v, w);
    if w == 1 {
      FixedZero(0);
    } else {
      assert v >= 10 by { PowMonotone(10, 1, w - 1); assert Pow(10, 1) == 10; }
      QuotientBound(v, 10, Pow(10, w - 1));
      assert v / 10 >= Pow(10, w - 2);
      DecimalIsFixed(v / 10, w - 1);
    }
  }

  /** Number read from the digits at a place. */
  function ReadNumber(s: seq<u8>): nat {
    Num(seq(|s|, i requires 0 <= i < |s| => if s[i] >= 48 then s[i] - 48 else 0), 10)
  }

  lemma {:induction false} ReadFixed(v: nat, w: nat)
    requires v < Pow(10, w)
    ensures ReadNumber(Fixed(v, w)) == v
  {
    DigitsNum(v, 10, w);
    var s := Fixed(v, w);
    assert seq(|s|, i requires 0 <= i < |s| => if s[i] >= 48 then s[i] - 48 else 0) == ToDigits(v, 10, w);
  }

  lemma {:induction false} FixedOrder(v: nat, u: nat, w: nat)
    requires v < Pow(10, w) && u < Pow(10, w)
    ensures LexLess(Fixed(v, w), Fixed(u, w)) <==> v < u
    ensures Fixed(v, w) == Fixed(u, w) <==> v == u
  {
    DigitsOrder(v, u, 10, w);
    LexMap(ToDigits(v, 10, w), ToDigits(u, 10, w), Fixed(v, w), Fixed(u, w), [48, 49, 50, 51, 52, 53, 54, 55, 56, 57]);
    ReadFixed(v, w);
    ReadFixed(u, w);
  }

  // ---------- The fields of a time ----------

  datatype Moment = Moment(date: Date, hour: nat, minute: nat, second: nat, milli: nat)

  /** The decomposition of milliseconds since the epoch. */
  function MomentOf(ms: nat): Moment {
    var totalSecs := ms / 1000;
    var secsToday := totalSecs % 86400;
    Moment(CivilFromDays(totalSecs / 86400), secsToday / 3600, secsToday % 3600 / 60, secsToday % 60, ms % 1000)
  }

  /** Its inverse. */
  function MsOf(t: Moment): int {
    DaysFromCivil(t.date) * 86400000 + t.hour * 3600000 + t.minute * 60000 + t.second * 1000 + t.milli
  }

  predicate Sooner(a: Moment, b: Moment) {
    Earlier(a.date, b.date)
    || (a.date == b.date
        && (a.hour < b.hour || (a.hour == b.hour
        && (a.minute < b.minute || (a.minute == b.minute
        && (a.second < b.second || (a.second == b.second && a.milli < b.milli)))))))
  }

  lemma {:induction false} ClockParts(secs: nat)
    requires secs < 86400
    ensures secs == secs / 3600 * 3600 + secs % 3600 / 60 * 60 + secs % 60
    ensures secs / 3600 < 24 && secs % 3600 / 60 < 60
  {
  }

  lemma {:induction false} MomentRoundTrip(ms: nat)
    ensures MsOf(MomentOf(ms)) == ms
    ensures var t := MomentOf(ms);
            IsDate(t.date) && t.hour < 24 && t.minute < 60 && t.second < 60 && t.milli < 1000
  {
    CivilIsDate(ms / 1000 / 86400);
    ClockParts(ms / 1000 % 86400);
    DivModRange(ms, 1000);
    DivModRange(ms / 1000, 86400);
    hide CivilFromDays, DaysFromCivil, IsDate;
    var days, secs := ms / 1000 / 86400, ms / 1000 % 86400;
    assert secs / 3600 * 3600000 + secs % 3600 / 60 * 60000 + secs % 60 * 1000 == secs * 1000;
  }

  lemma {:induction false} ClockIncreases(a: nat, b: nat)
    requires a < b < 86400
    ensures a / 3600 < b / 3600
            || (a / 3600 == b / 3600
                && (a % 3600 / 60 < b % 3600 / 60 || (a % 3600 / 60 == b % 3600 / 60 && a % 60 < b % 60)))
  {
  }

  /** Later times decompose to later moments. */
  lemma {:induction false} MomentIncreases(a: nat, b: nat)
    requires a < b
    ensures Sooner(MomentOf(a), MomentOf(b))
  {
    var s, t := a / 1000, b / 1000;
    assert s < t || (s == t && a % 1000 < b % 1000);
    assert s < t ==> s / 86400 < t / 86400 || (s / 86400 == t / 86400 && s % 86400 < t % 86400);
    hide CivilFromDays, Earlier;
    if s / 86400 < t / 86400 {
      CivilIncreases(s / 86400, t / 86400);
    } else if s % 86400 < t % 86400 {
      ClockIncreases(s % 86400, t % 86400);
    }
  }

  // ---------- RFC 3339 ----------

  /** 10000-01-01T00:00:00Z, the first time whose year needs five digits. */
  const YEAR_10000_MS: nat := 253402300800000

  lemma {:induction false} YearOfDays(days: nat)
    ensures var y := CivilFromDays(days).y; y >= 1970 && (y >= 10000 <==> days >= 2932897) && (days <= 3257812 ==> y <= 10889)
  {
    DayZero();
    Day2932897();
    Day3257812();
    CivilIsDate(days);
    hide CivilFromDays;
    if 0 < days { CivilIncreases(0, days); }
    if days < 2932897 { CivilIncreases(days, 2932897); }
    if 2932897 < days { CivilIncreases(2932897, days); }
    if days < 3257812 { CivilIncreases(days, 3257812); }
  }

  lemma {:induction false} YearRange(ms: nat)
    ensures MomentOf(ms).date.y >= 1970
    ensures MomentOf(ms).date.y >= 10000 <==> ms >= YEAR_10000_MS
    ensures ms <= MAX_TIME ==> MomentOf(ms).date.y <= 10889
  {
    YearOfDays(ms / 1000 / 86400);
    hide CivilFromDays;
  }

  lemma {:induction false} Day2932897()
    ensures CivilFromDays(2932897) == Date(10000, 1, 1)
  {
    assert DaysFromCivil(Date(10000, 1, 1)) == 2932897;
    hide CivilFromDays, DaysFromCivil;
    CivilOfDate(Date(10000, 1, 1));
  }

  lemma {:induction false} Day3257812()
    ensures CivilFromDays(3257812) == Date(10889, 8, 2)
  {
    assert DaysFromCivil(Date(10889, 8, 2)) == 3257812;
    hide CivilFromDays, DaysFromCivil;
    CivilOfDate(Date(10889, 8, 2));
  }

  function Field(text: seq<u8>, separator: u8, rest: seq<u8>): seq<u8> {
    text + ([separator] + rest)
  }

  /** `{y:04}-{m:02}-{d:02}T{hh:02}:{mm:02}:{ss:02}.{sub_ms:03}Z`. */
  function Rfc3339(ms: nat): seq<u8> {
    var t := MomentOf(ms);
    YearRange(ms);
    MomentRoundTrip(ms);
    Field(Pad(t.date.y, 4), 45, Field(Pad(t.date.m, 2), 45, Field(Pad(t.date.d, 2), 84,
      Field(Pad(t.hour, 2), 58, Field(Pad(t.minute, 2), 58, Field(Pad(t.second, 2), 46, Pad(t.milli, 3) + [90]))))))
  }

  /** The moments the rendering below is for: every field fits its width. */
  predicate Fits(t: Moment, w: nat) {
    && 0 <= t.date.y < Pow(10, w) && 1 <= t.date.m <= 12 && 1 <= t.date.d <= 31
    && t.hour < 24 && t.minute < 60 && t.second < 60 && t.milli < 1000
  }

  /** Fixed-width rendering with `w` digits for the year. */
  function Rendered(t: Moment, w: nat): seq<u8>
    requires Fits(t, w)
  {
    Field(Fixed(t.date.y, w), 45, Field(Fixed(t.date.m, 2), 45, Field(Fixed(t.date.d, 2), 84,
      Field(Fixed(t.hour, 2), 58, Field(Fixed(t.minute, 2), 58, Field(Fixed(t.second, 2), 46, Fixed(t.milli, 3) + [90]))))))
  }

  lemma {:induction false} SmallPowersOfTen()
    ensures Pow(10, 1) == 10 && Pow(10, 2) == 100 && Pow(10, 3) == 1000 && Pow(10, 4) == 10000 && Pow(10, 5) == 100000
  {
  }

  lemma {:induction false} RfcIsRendered(ms: nat)
    requires ms <= MAX_TIME
    ensures var w, t := if ms < YEAR_10000_MS then 4 else 5, MomentOf(ms);
            Fits(t, w) && Rfc3339(ms) == Rendered(t, w)
  {
    var t := MomentOf(ms);
    YearRange(ms);
    MomentRoundTrip(ms);
    SmallPowersOfTen();
    hide Pow, MomentOf, Fixed, Decimal, Field;
    assert t.date.d <= 31;
    if ms < YEAR_10000_MS {
      PadIsFixed(t.date.y, 4);
    } else {
      DecimalIsFixed(t.date.y, 5);
      FixedLength(t.date.y, 5);
    }
    PadIsFixed(t.date.m, 2);
    PadIsFixed(t.date.d, 2);
    PadIsFixed(t.hour, 2);
    PadIsFixed(t.minute, 2);
    PadIsFixed(t.second, 2);
    PadIsFixed(t.milli, 3);
  }

  lemma {:induction false} FixedLength(v: nat, w: nat)
    ensures |Fixed(v, w)| == w
  {
  }

  lemma {:induction false} FieldOrder(v: nat, u: nat, w: nat, separator: u8, r: seq<u8>, r': seq<u8>)
    requires v < Pow(10, w) && u < Pow(10, w)
    ensures LexLess(Field(Fixed(v, w), separator, r), Field(Fixed(u, w), separator, r')) <==>
            v < u || (v == u && LexLess(r, r'))
  {
    FixedOrder(v, u, w);
    LexFields(Fixed(v, w), [separator] + r, Fixed(u, w), [separator] + r');
    LexPrefix([separator], r, r');
    hide Fixed;
  }

  /** Fixed-width renderings sort as the moments do. */
  lemma {:induction false} RenderedOrder(a: Moment, b: Moment, w: nat)
    requires Fits(a, w) && Fits(b, w)
    ensures LexLess(Rendered(a, w), Rendered(b, w)) <==> Sooner(a, b)
  {
    SmallPowersOfTen();
    hide Pow, Fixed, Field, LexLess;
    var a6, b6 := Fixed(a.milli, 3) + [90], Fixed(b.milli, 3) + [90];
    LastField(a.milli, b.milli);
    var a5, b5 := Field(Fixed(a.second, 2), 46, a6), Field(Fixed(b.second, 2), 46, b6);
    FieldOrder(a.second, b.second, 2, 46, a6, b6);
    var a4, b4 := Field(Fixed(a.minute, 2), 58, a5), Field(Fixed(b.minute, 2), 58, b5);
    FieldOrder(a.minute, b.minute, 2, 58, a5, b5);
    var a3, b3 := Field(Fixed(a.hour, 2), 58, a4), Field(Fixed(b.hour, 2), 58, b4);
    FieldOrder(a.hour, b.hour, 2, 58, a4, b4);
    var a2, b2 := Field(Fixed(a.date.d, 2), 84, a3), Field(Fixed(b.date.d, 2), 84, b3);
    FieldOrder(a.date.d, b.date.d, 2, 84, a3, b3);
    var a1, b1 := Field(Fixed(a.date.m, 2), 45, a2), Field(Fixed(b.date.m, 2), 45, b2);
    FieldOrder(a.date.m, b.date.m, 2, 45, a2, b2);
    FieldOrder(a.date.y, b.date.y, w, 45, a1, b1);
  }

  lemma {:induction false} LastField(v: nat, u: nat)
    requires v < 1000 && u < 1000
    ensures LexLess(Fixed(v, 3) + [90], Fixed(u, 3) + [90]) <==> v < u
  {
    SmallPowersOfTen();
    FixedOrder(v, u, 3);
    LexFields(Fixed(v, 3), [90], Fixed(u, 3), [90]);
    LexIrreflexive([90]);
  }

  lemma {:induction false} HeadOfFour(y: nat)
    requires y <= 9999
    ensures Fixed(y, 4)[0] == 48 + y / 1000 && Fixed(y, 4)[1] == 48 + y / 100 % 10
  {
    FixedStep(y, 4);
    FixedStep(y / 10, 3);
    FixedStep(y / 100, 2);
    FixedStep(y / 1000, 1);
    assert y / 10 / 10 == y / 100 && y / 100 / 10 == y / 1000;
    hide Fixed;
  }

  lemma {:induction false} HeadOfFive(z: nat)
    requires 10000 <= z <= 10889
    ensures Fixed(z, 5)[0] == 49 && Fixed(z, 5)[1] == 48
  {
    FixedStep(z, 5);
    HeadOfFour(z / 10);
    hide Fixed;
  }

  /** A five-digit year sorts before any four-digit year from 1970 on. */
  lemma {:induction false} LongYearSortsFirst(y: nat, rest: seq<u8>, z: nat, rest': seq<u8>)
    requires 1970 <= y <= 9999 && 10000 <= z <= 10889
    ensures !LexLess(Fixed(y, 4) + rest, Fixed(z, 5) + rest')
  {
    HeadOfFour(y);
    HeadOfFive(z);
    FixedLength(y, 4);
    FixedLength(z, 5);
    hide Fixed;
    var a, b := Fixed(y, 4) + rest, Fixed(z, 5) + rest';
    assert a[0] == 48 + y / 1000 && a[1] == 48 + y / 100 % 10 && b[0] == 49 && b[1] == 48;
    YearHead(y);
    HeadsDecide(a, b);
  }

  lemma {:induction false} YearHead(y: nat)
    requires 1970 <= y <= 9999
    ensures y / 1000 >= 1 && (y / 1000 == 1 ==> y / 100 % 10 == 9)
  {
  }

  lemma {:induction false} HeadsDecide(a: seq<nat>, b: seq<nat>)
    requires |a| >= 2 && |b| >= 2 && (a[0] > b[0] || (a[0] == b[0] && a[1] > b[1]))
    ensures !LexLess(a, b)
  {
  }

  /** For times an identifier can hold, text order is time order exactly on each side of the year 10000. */
  lemma {:induction false} Rfc3339Order(a: nat, b: nat)
    requires a < b <= MAX_TIME
    ensures LexLess(Rfc3339(a), Rfc3339(b)) <==> !(a < YEAR_10000_MS <= b)
  {
    RfcIsRendered(a);
    RfcIsRendered(b);
    MomentIncreases(a, b);
    YearRange(a);
    YearRange(b);
    hide MomentOf, LexLess, Fixed, Sooner, Rfc3339;
    var t, u := MomentOf(a), MomentOf(b);
    if a < YEAR_10000_MS <= b {
      ShortAndLong(t, u);
    } else {
      RenderedOrder(t, u, if a < YEAR_10000_MS then 4 else 5);
    }
  }

  lemma {:induction false} ShortAndLong(t: Moment, u: Moment)
    requires Fits(t, 4) && Fits(u, 5) && 1970 <= t.date.y <= 9999 && 10000 <= u.date.y <= 10889
    ensures !LexLess(Rendered(t, 4), Rendered(u, 5))
  {
    hide LexLess, Fixed, Fits;
    var p, q := Fixed(t.date.y, 4), Fixed(u.date.y, 5);
    FixedLength(t.date.y, 4);
    FixedLength(u.date.y, 5);
    LongYearSortsFirst(t.date.y, Rendered(t, 4)[4..], u.date.y, Rendered(u, 5)[5..]);
    assert Rendered(t, 4) == p + Rendered(t, 4)[4..] && Rendered(u, 5) == q + Rendered(u, 5)[5..];
  }

  /** The time read back from a rendering; a year of five digits makes it one character longer. */
  function ReadRfc3339(s: seq<u8>): int
    requires 24 <= |s| <= 25
  {
    var o := |s| - 24;
    MsOf(Moment(Date(ReadNumber(s[0..4 + o]), ReadNumber(s[5 + o..7 + o]), ReadNumber(s[8 + o..10 + o])),
                ReadNumber(s[11 + o..13 + o]), ReadNumber(s[14 + o..16 + o]), ReadNumber(s[17 + o..19 + o]),
                ReadNumber(s[20 + o..23 + o])))
  }

  /** Characters longer than 24 of a rendering. */
  function Longer(ms: nat): nat {
    if ms < YEAR_10000_MS then 0 else 1
  }

  /** For every time an identifier can hold, reading the rendering back recovers it to the millisecond. */
  lemma {:induction false} Rfc3339RoundTrip(ms: nat)
    requires ms <= MAX_TIME
    ensures |Rfc3339(ms)| == 24 + Longer(ms) && ReadRfc3339(Rfc3339(ms)) == ms
  {
    RfcIsRendered(ms);
    MomentRoundTrip(ms);
    SmallPowersOfTen();
    var t, w := MomentOf(ms), 4 + Longer(ms);
    hide MomentOf, Rfc3339, Fixed, ReadNumber, MsOf, Pow;
    RenderedSlices(t, w);
    ReadFixed(t.date.y, w);
    ReadFixed(t.date.m, 2);
    ReadFixed(t.date.d, 2);
    ReadFixed(t.hour, 2);
    ReadFixed(t.minute, 2);
    ReadFixed(t.second, 2);
    ReadFixed(t.milli, 3);
  }

  predicate AllDigits(s: seq<u8>) {
    forall i :: 0 <= i < |s| ==> 48 <= s[i] <= 57
  }

  /**
   * The rendering has the form of RFC 3339, section 5.6: digits, with '-', '-', 'T', ':', ':', '.' and 'Z' at their
   * places, which a year of five digits moves by one.
   */
  lemma {:induction false} Rfc3339Form(ms: nat)
    requires ms <= MAX_TIME
    ensures var s, o := Rfc3339(ms), Longer(ms);
            && |s| == 24 + o
            && s[4 + o] == 45 && s[7 + o] == 45 && s[10 + o] == 84 && s[13 + o] == 58 && s[16 + o] == 58
            && s[19 + o] == 46 && s[23 + o] == 90
            && AllDigits(s[0..4 + o]) && AllDigits(s[5 + o..7 + o]) && AllDigits(s[8 + o..10 + o])
            && AllDigits(s[11 + o..13 + o]) && AllDigits(s[14 + o..16 + o]) && AllDigits(s[17 + o..19 + o])
            && AllDigits(s[20 + o..23 + o])
  {
    RfcIsRendered(ms);
    var t, w := MomentOf(ms), 4 + Longer(ms);
    hide MomentOf, Rfc3339, Fixed, Pow, AllDigits;
    RenderedSlices(t, w);
    RenderedSeparators(t, w);
    FixedDigits(t.date.y, w);
    FixedDigits(t.date.m, 2);
    FixedDigits(t.date.d, 2);
    FixedDigits(t.hour, 2);
    FixedDigits(t.minute, 2);
    FixedDigits(t.second, 2);
    FixedDigits(t.milli, 3);
  }

  lemma {:induction false} FixedDigits(v: nat, w: nat)
    ensures AllDigits(Fixed(v, w))
  {
  }

  /** The suffixes of a rendering, from each separator's field on. */
  function Tail(t: Moment, k: nat): seq<u8>
    requires k <= 6 && t.date.m >= 0 && t.date.d >= 0
    decreases 6 - k
  {
    if k == 6 then Fixed(t.milli, 3) + [90]
    else if k == 5 then Field(Fixed(t.second, 2), 46, Tail(t, 6))
    else if k == 4 then Field(Fixed(t.minute, 2), 58, Tail(t, 5))
    else if k == 3 then Field(Fixed(t.hour, 2), 58, Tail(t, 4))
    else if k == 2 then Field(Fixed(t.date.d, 2), 84, Tail(t, 3))
    else Field(Fixed(t.date.m, 2), 45, Tail(t, 2))
  }

  /** Where each field of a rendering stands. */
  lemma {:induction false} RenderedTails(t: Moment, w: nat)
    requires Fits(t, w)
    ensures var s := Rendered(t, w);
            && |s| == 20 + w && s[0..] == Field(Fixed(t.date.y, w), 45, Tail(t, 1))
            && s[1 + w..] == Field(Fixed(t.date.m, 2), 45, Tail(t, 2)) && s[4 + w..] == Field(Fixed(t.date.d, 2), 84, Tail(t, 3))
            && s[7 + w..] == Field(Fixed(t.hour, 2), 58, Tail(t, 4)) && s[10 + w..] == Field(Fixed(t.minute, 2), 58, Tail(t, 5))
            && s[13 + w..] == Field(Fixed(t.second, 2), 46, Tail(t, 6)) && s[16 + w..] == Fixed(t.milli, 3) + [90]
  {
    var s := Rendered(t, w);
    hide Pow, Fixed, Field;
    assert s == Field(Fixed(t.date.y, w), 45, Tail(t, 1));
    assert Tail(t, 6) == Fixed(t.milli, 3) + [90];
    FixedLength(t.milli, 3);
    hide Rendered;
    assert s[0..] == s;
    FieldSlices(s, 0, Fixed(t.date.y, w), 45, Tail(t, 1));
    FieldSlices(s, 1 + w, Fixed(t.date.m, 2), 45, Tail(t, 2));
    FieldSlices(s, 4 + w, Fixed(t.date.d, 2), 84, Tail(t, 3));
    FieldSlices(s, 7 + w, Fixed(t.hour, 2), 58, Tail(t, 4));
    FieldSlices(s, 10 + w, Fixed(t.minute, 2), 58, Tail(t, 5));
    FieldSlices(s, 13 + w, Fixed(t.second, 2), 46, Tail(t, 6));
  }

  lemma {:induction false} RenderedSlices(t: Moment, w: nat)
    requires Fits(t, w)
    ensures var s := Rendered(t, w);
            && |s| == 20 + w && s[0..w] == Fixed(t.date.y, w) && s[1 + w..3 + w] == Fixed(t.date.m, 2)
            && s[4 + w..6 + w] == Fixed(t.date.d, 2) && s[7 + w..9 + w] == Fixed(t.hour, 2)
            && s[10 + w..12 + w] == Fixed(t.minute, 2) && s[13 + w..15 + w] == Fixed(t.second, 2)
            && s[16 + w..19 + w] == Fixed(t.milli, 3)
  {
    hide Pow, Fixed, Field, Rendered, Tail;
    RenderedTails(t, w);
    var s := Rendered(t, w);
    FieldSlices(s, 0, Fixed(t.date.y, w), 45, Tail(t, 1));
    FieldSlices(s, 1 + w, Fixed(t.date.m, 2), 45, Tail(t, 2));
    FieldSlices(s, 4 + w, Fixed(t.date.d, 2), 84, Tail(t, 3));
    FieldSlices(s, 7 + w, Fixed(t.hour, 2), 58, Tail(t, 4));
    FieldSlices(s, 10 + w, Fixed(t.minute, 2), 58, Tail(t, 5));
    FieldSlices(s, 13 + w, Fixed(t.second, 2), 46, Tail(t, 6));
    assert s[16 + w..19 + w] == s[16 + w..][..3];
  }

  lemma {:induction false} RenderedSeparators(t: Moment, w: nat)
    requires Fits(t, w)
    ensures var s := Rendered(t, w);
            && |s| == 20 + w && s[w] == 45 && s[3 + w] == 45 && s[6 + w] == 84 && s[9 + w] == 58 && s[12 + w] == 58
            && s[15 + w] == 46 && s[19 + w] == 90
  {
    hide Pow, Fixed, Field, Rendered, Tail;
    RenderedTails(t, w);
    var s := Rendered(t, w);
    FieldSlices(s, 0, Fixed(t.date.y, w), 45, Tail(t, 1));
    FieldSlices(s, 1 + w, Fixed(t.date.m, 2), 45, Tail(t, 2));
    FieldSlices(s, 4 + w, Fixed(t.date.d, 2), 84, Tail(t, 3));
    FieldSlices(s, 7 + w, Fixed(t.hour, 2), 58, Tail(t, 4));
    FieldSlices(s, 10 + w, Fixed(t.minute, 2), 58, Tail(t, 5));
    FieldSlices(s, 13 + w, Fixed(t.second, 2), 46, Tail(t, 6));
    assert s[19 + w] == s[16 + w..][3];
  }

  /** The text of a field, its separator and what follows it, at a place of a string. */
  lemma {:induction false} FieldSlices(s: seq<u8>, at: nat, text: seq<u8>, separator: u8, rest: seq<u8>)
    requires at <= |s| && s[at..] == Field(text, separator, rest)
    ensures |s| == at + |text| + 1 + |rest|
    ensures s[at..at + |text|] == text && s[at + |text|] == separator && s[at + |text| + 1..] == rest
  {
    assert s[at..at + |text|] == s[at..][..|text|] && s[at + |text| + 1..] == s[at..][|text| + 1..];
    assert s[at + |text|] == s[at..][|text|];
  }

  // ---------- The fraction of the default format ----------

  /** The text without its trailing zeros: only zeros are dropped, and all of them. */
  function StripZeros(s: seq<u8>): (r: seq<u8>)
    ensures |r| <= |s| && r == s[..|r|]
    ensures forall i :: |r| <= i < |s| ==> s[i] == 48
    ensures |r| > 0 ==> r[|r| - 1] != 48
  {
    if |s| > 0 && s[|s| - 1] == 48 then StripZeros(s[..|s| - 1]) else s
  }

  /** The fraction the tool prints: the milliseconds without padding, trailing zeros removed. */
  function FractionText(milli: nat): seq<u8> {
    if milli == 0 then [] else StripZeros([46] + Decimal(milli))
  }

  /** The fraction of the layout it is meant to reproduce: three digits, trailing zeros removed. */
  function LayoutFraction(milli: nat): seq<u8> {
    if milli == 0 then [] else [46] + StripZeros(Fixed(milli, 3))
  }

  method MillisText(milli: nat) returns (s: seq<u8>)
    ensures s == FractionText(milli)
    ensures milli == 0 <==> s == []
    ensures milli > 0 ==> |s| > 1 && s[|s| - 1] != 48
    ensures milli > 0 ==> s + seq(1 + |Decimal(milli)| - |s|, _ => 48) == [46] + Decimal(milli)
  {
    if milli == 0 {
      s := [];
    } else {
      s := [46] + Decimal(milli);
      DecimalHead(milli);
      assert s[1] == Decimal(milli)[0] != 48;
      while |s| > 0 && s[|s| - 1] == 48
        invariant StripZeros(s) == StripZeros([46] + Decimal(milli))
      {
        s := s[..|s| - 1];
      }
    }
  }

  lemma {:induction false} StripAfterPoint(s: seq<u8>)
    ensures StripZeros([46] + s) == [46] + StripZeros(s)
  {
    if |s| > 0 && s[|s| - 1] == 48 {
      assert ([46] + s)[..|s|] == [46] + s[..|s| - 1];
      StripAfterPoint(s[..|s| - 1]);
    }
  }

  lemma {:induction false} StripKeepsHead(s: seq<u8>)
    requires |s| > 0 && s[0] != 48
    ensures |StripZeros(s)| > 0 && StripZeros(s)[0] == s[0]
  {
    if s[|s| - 1] == 48 {
      StripKeepsHead(s[..|s| - 1]);
    }
  }

  lemma {:induction false} DecimalHead(v: nat)
    requires v > 0
    ensures Decimal(v)[0] != 48
  {
    if v >= 10 {
      DecimalHead(v / 10);
    }
  }

  /** The printed fraction is that of the layout exactly when it is zero or needs no leading zero. */
  lemma {:induction false} FractionIsLayout(milli: nat)
    requires milli < 1000
    ensures FractionText(milli) == LayoutFraction(milli) <==> milli == 0 || milli >= 100
  {
    SmallPowersOfTen();
    StripAfterPoint(Decimal(milli));
    hide Pow, StripZeros, Fixed, Decimal;
    if milli >= 100 {
      DecimalIsFixed(milli, 3);
    } else if milli > 0 {
      DecimalHead(milli);
      StripKeepsHead(Decimal(milli));
      ThreeDigitHead(milli);
      var a, b := StripZeros(Decimal(milli)), StripZeros(Fixed(milli, 3));
      assert a != b by {
        assert a[0] != 48;
        assert |b| > 0 ==> b[0] == Fixed(milli, 3)[0];
      }
      assert FractionText(milli)[1..] == a && LayoutFraction(milli)[1..] == b;
    }
  }

  lemma {:induction false} ThreeDigitHead(v: nat)
    requires v < 100
    ensures Fixed(v, 3)[0] == 48
  {
  }

  /** Five and five hundred milliseconds are printed alike. */
  lemma {:induction false} FractionsCollide()
    ensures FractionText(5) == FractionText(500) == [46, 53]
  {
    assert Decimal(5) == [53] && Decimal(500) == [53, 48, 48];
    assert [46] + Decimal(500) == [46, 53, 48, 48] && [46] + Decimal(5) == [46, 53];
    assert [46, 53, 48, 48][..3] == [46, 53, 48] && [46, 53, 48][..2] == [46, 53];
    assert StripZeros([46, 53]) == [46, 53];
    assert StripZeros([46, 53, 48]) == [46, 53];
  }
}
