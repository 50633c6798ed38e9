/**
 * The advisory timestamp rendering of crates/iroh-rooms-cli/src/display.rs: the fields of an
 * instant, what they determine, and how rendered timestamps sort.
 */
module Timestamp {
  import opened Prelude
  import opened Calendar

  datatype Fields = Fields(date: Date, hour: nat, minute: nat, second: nat)

  /** The day number handed to the calendar; the conversion to i64 saturates. */
  function DaysOf(ms: u64): int {
    var days := ms / 1_000 / 86_400;
    if days <= I64_MAX then days else I64_MAX
  }

  function FieldsOf(ms: u64): Fields {
    var rem := ms / 1_000 % 86_400;
    Fields(CivilFromDays(DaysOf(ms)), rem / 3_600, rem % 3_600 / 60, rem % 60)
  }

  /** The second of the epoch a set of fields names, by the reference calendar. */
  function SecondOf(f: Fields): int
    requires 1 <= f.date.month <= 12
  {
    DayNumber(f.date) * 86_400 + f.hour * 3_600 + f.minute * 60 + f.second
  }

  predicate ValidFields(f: Fields) {
    ValidDate(f.date) && f.hour < 24 && f.minute < 60 && f.second < 60
  }

  predicate FieldsBefore(a: Fields, b: Fields) {
    Before(a.date, b.date)
    || (a.date == b.date && (a.hour < b.hour
                             || (a.hour == b.hour && (a.minute < b.minute
                                                      || (a.minute == b.minute && a.second < b.second)))))
  }

  /** No millisecond count overflows: the day number fits, and so does the whole conversion. */
  lemma NoTimestampOverflows(ms: u64)
    ensures DaysOf(ms) == ms / 1_000 / 86_400
    ensures InI64(DaysOf(ms)) && NoOverflow(DaysOf(ms))
  {
    OverflowExactly(DaysOf(ms));
  }

  lemma ClockFields(rem: int)
    requires 0 <= rem < 86_400
    ensures rem / 3_600 < 24 && rem % 3_600 / 60 < 60 && rem % 60 < 60
    ensures rem == rem / 3_600 * 3_600 + rem % 3_600 / 60 * 60 + rem % 60
  {
    var r := rem % 3_600;
    QuotientIs(rem, 60, 60 * (rem / 3_600) + r / 60, r % 60);
  }

  /** The fields name the input second exactly, and name a real date and time of day. */
  lemma FieldsNameTheSecond(ms: u64)
    ensures ValidFields(FieldsOf(ms))
    ensures SecondOf(FieldsOf(ms)) == ms / 1_000
  {
    NoTimestampOverflows(ms);
    CivilHasDayNumber(DaysOf(ms));
    ClockFields(ms / 1_000 % 86_400);
  }

  lemma FieldsOrderSeconds(f: Fields, g: Fields)
    requires ValidFields(f) && ValidFields(g) && FieldsBefore(f, g)
    ensures SecondOf(f) < SecondOf(g)
  {
    if Before(f.date, g.date) {
      DayNumberIsMonotone(f.date, g.date);
    }
  }

  /** Lexicographic order of fields is chronological order, over the whole input range. */
  lemma FieldsSortChronologically(a: u64, b: u64)
    ensures FieldsBefore(FieldsOf(a), FieldsOf(b)) <==> a / 1_000 < b / 1_000
    ensures FieldsOf(a) == FieldsOf(b) <==> a / 1_000 == b / 1_000
  {
    FieldsNameTheSecond(a);
    FieldsNameTheSecond(b);
    var f, g := FieldsOf(a), FieldsOf(b);
    if FieldsBefore(f, g) {
      FieldsOrderSeconds(f, g);
    } else if FieldsBefore(g, f) {
      FieldsOrderSeconds(g, f);
    }
  }

  lemma SameSecondSameFields(f: Fields, g: Fields)
    requires ValidFields(f) && ValidFields(g) && SecondOf(f) == SecondOf(g)
    ensures f == g
  {
    if FieldsBefore(f, g) {
      FieldsOrderSeconds(f, g);
    } else if FieldsBefore(g, f) {
      FieldsOrderSeconds(g, f);
    }
  }

  /** The fields of an instant are the only real date and time that name its second. */
  lemma FieldsAreUnique(ms: u64, f: Fields)
    requires ValidFields(f) && SecondOf(f) == ms / 1_000
    ensures FieldsOf(ms) == f
  {
    FieldsNameTheSecond(ms);
    SameSecondSameFields(FieldsOf(ms), f);
  }

  // ---------------------------------------------------------------------------
  // Rendering
  // ---------------------------------------------------------------------------

  function Digit(n: nat): (c: char)
    requires n < 10
    ensures '0' <= c <= '9'
  {
    '0' + n as char
  }

  function Digits(n: nat): (s: string)
    ensures |s| >= 1
    ensures forall c <- s :: '0' <= c <= '9'
  {
    if n < 10 then [Digit(n)] else Digits(n / 10) + [Digit(n % 10)]
  }

  /** `{n:0w$}`: decimal digits, padded with zeros to at least `w` characters. */
  function Padded(n: nat, w: nat): string {
    ZeroFill(Digits(n), w)
  }

  function ZeroFill(s: string, w: nat): (r: string)
    ensures |r| == if |s| < w then w else |s|
    decreases w - |s|
  {
    if |s| >= w then s else ZeroFill("0" + s, w)
  }

  function Render(f: Fields): string
    requires f.date.year >= 0 && f.date.month >= 0 && f.date.day >= 0
  {
    Padded(f.date.year, 4) + "-" + Padded(f.date.month, 2) + "-" + Padded(f.date.day, 2) + "T"
    + Padded(f.hour, 2) + ":" + Padded(f.minute, 2) + ":" + Padded(f.second, 2) + "Z"
  }

  /** Bytewise string order. */
  predicate Less(a: string, b: string) {
    b != [] && (a == [] || a[0] < b[0] || (a[0] == b[0] && Less(a[1..], b[1..])))
  }

  lemma {:induction false} LessByBlocks(p: string, x: string, q: string, y: string)
    requires |p| == |q|
    ensures Less(p + x, q + y) <==> Less(p, q) || (p == q && Less(x, y))
  {
    if p == [] {
      assert p + x == x && q + y == y;
    } else {
      assert (p + x)[1..] == p[1..] + x && (q + y)[1..] == q[1..] + y;
      LessByBlocks(p[1..], x, q[1..], y);
      assert p == [p[0]] + p[1..] && q == [q[0]] + q[1..];
    }
  }

  function Pow10(k: nat): (p: nat)
    ensures p >= 1
  {
    if k == 0 then 1 else 10 * Pow10(k - 1)
  }

  lemma {:induction false} DigitsLength(n: nat, k: nat)
    requires k >= 1
    ensures n < Pow10(k) <==> |Digits(n)| <= k
  {
    if n < 10 {
      assert Pow10(k) == 10 * Pow10(k - 1);
    } else if k == 1 {
      assert Pow10(1) == 10 * Pow10(0);
    } else {
      DigitsLength(n / 10, k - 1);
      assert n < 10 * Pow10(k - 1) <==> n / 10 < Pow10(k - 1);
    }
  }

  /** Digit strings of equal length compare as the numbers do. */
  lemma {:induction false} DigitsCompare(a: nat, b: nat)
    requires |Digits(a)| == |Digits(b)|
    ensures Less(Digits(a), Digits(b)) <==> a < b
    ensures Digits(a) == Digits(b) <==> a == b
  {
    if a < 10 || b < 10 {
      assert a < 10 && b < 10;
      LessByBlocks([Digit(a)], [], [Digit(b)], []);
    } else {
      var p, q := Digits(a / 10), Digits(b / 10);
      DigitsCompare(a / 10, b / 10);
      LessByBlocks(p, [Digit(a % 10)], q, [Digit(b % 10)]);
      assert Less([Digit(a % 10)], [Digit(b % 10)]) <==> a % 10 < b % 10;
      assert Digits(a)[|p|] == Digit(a % 10) && Digits(b)[|q|] == Digit(b % 10);
      assert Digits(a)[..|p|] == p && Digits(b)[..|q|] == q;
    }
  }

  /** The number left when the last `k` decimal digits are dropped. */
  function DropDigits(n: nat, k: nat): nat {
    if k == 0 then n else DropDigits(n / 10, k - 1)
  }

  lemma DropNothing(n: nat)
    ensures DropDigits(n, 0) == n
  {}

  lemma {:induction false} DropDigitsDivides(n: nat, k: nat)
    ensures DropDigits(n, k) == n / Pow10(k)
  {
    if k > 0 {
      DropDigitsDivides(n / 10, k - 1);
      DivideTwice(n, Pow10(k - 1));
    }
  }

  lemma DivideTwice(n: nat, p: nat)
    requires p >= 1
    ensures n / 10 / p == n / (10 * p)
  {
    var q := n / 10 / p;
    var r := n / 10 % p;
    assert n == 10 * (p * q + r) + n % 10;
    QuotientIs(n, 10 * p, q, 10 * r + n % 10);
  }

  lemma {:induction false} DigitsPrefix(n: nat, k: nat)
    requires k < |Digits(n)|
    ensures Digits(DropDigits(n, k)) == Digits(n)[..|Digits(n)| - k]
  {
    var s := Digits(n);
    if k == 0 {
      assert s[..|s|] == s;
    } else {
      var t := Digits(n / 10);
      assert s == t + [Digit(n % 10)];
      DigitsPrefix(n / 10, k - 1);
      assert s[..|s| - k] == t[..|t| - (k - 1)];
    }
  }

  /** The part of a timestamp after the year. */
  function AfterYear(f: Fields): string
    requires f.date.month >= 0 && f.date.day >= 0
  {
    "-" + Padded(f.date.month, 2) + "-" + Padded(f.date.day, 2) + "T"
    + Padded(f.hour, 2) + ":" + Padded(f.minute, 2) + ":" + Padded(f.second, 2) + "Z"
  }

  lemma RenderSplits(f: Fields)
    requires f.date.year >= 0 && f.date.month >= 0 && f.date.day >= 0
    ensures Render(f) == Padded(f.date.year, 4) + AfterYear(f)
  {}

  /** Two-digit fields: equal width, ordered as the numbers. */
  lemma TwoDigits(a: nat, b: nat)
    requires a < 100 && b < 100
    ensures |Padded(a, 2)| == |Padded(b, 2)| == 2
    ensures Less(Padded(a, 2), Padded(b, 2)) <==> a < b
    ensures Padded(a, 2) == Padded(b, 2) <==> a == b
  {
    PaddedTwo(a);
    PaddedTwo(b);
    LessByBlocks([Digit(a / 10)], [Digit(a % 10)], [Digit(b / 10)], [Digit(b % 10)]);
    LessByBlocks([Digit(a / 10)], [], [Digit(b / 10)], []);
    LessByBlocks([Digit(a % 10)], [], [Digit(b % 10)], []);
  }

  lemma PaddedTwo(n: nat)
    requires n < 100
    ensures Padded(n, 2) == [Digit(n / 10)] + [Digit(n % 10)]
  {
    if n < 10 {
      assert Digits(n) == [Digit(n)];
      assert ZeroFill(Digits(n), 2) == ZeroFill("0" + Digits(n), 2);
    } else {
      assert Digits(n / 10) == [Digit(n / 10)];
    }
  }

  /** A timestamp's fields below the year, as a list of two-digit numbers. */
  lemma {:induction false} TwoDigitBlocks(p: string, a: nat, x: string, b: nat, y: string)
    requires a < 100 && b < 100
    ensures Less(p + Padded(a, 2) + x, p + Padded(b, 2) + y) <==> a < b || (a == b && Less(x, y))
  {
    TwoDigits(a, b);
    assert p + Padded(a, 2) + x == p + (Padded(a, 2) + x);
    assert p + Padded(b, 2) + y == p + (Padded(b, 2) + y);
    LessByBlocks(p, Padded(a, 2) + x, p, Padded(b, 2) + y);
    LessByBlocks(Padded(a, 2), x, Padded(b, 2), y);
    Irreflexive(p);
  }

  lemma {:induction false} Irreflexive(s: string)
    ensures !Less(s, s)
  {
    if s != [] {
      Irreflexive(s[1..]);
    }
  }

  lemma AfterYearNests(f: Fields)
    requires ValidFields(f)
    ensures AfterYear(f) ==
            "-" + Padded(f.date.month, 2) + ("-" + Padded(f.date.day, 2) + ("T" + Padded(f.hour, 2)
            + (":" + Padded(f.minute, 2) + (":" + Padded(f.second, 2) + "Z"))))
  {}

  lemma AfterYearSorts(f: Fields, g: Fields)
    requires ValidFields(f) && ValidFields(g)
    ensures Less(AfterYear(f), AfterYear(g)) <==> FieldsBefore(f, g.(date := g.date.(year := f.date.year)))
  {
    AfterYearNests(f);
    AfterYearNests(g);
    var s5, t5 := "Z", "Z";
    var s4, t4 := ":" + Padded(f.second, 2) + s5, ":" + Padded(g.second, 2) + t5;
    var s3, t3 := ":" + Padded(f.minute, 2) + s4, ":" + Padded(g.minute, 2) + t4;
    var s2, t2 := "T" + Padded(f.hour, 2) + s3, "T" + Padded(g.hour, 2) + t3;
    var s1, t1 := "-" + Padded(f.date.day, 2) + s2, "-" + Padded(g.date.day, 2) + t2;
    Irreflexive("Z");
    TwoDigitBlocks(":", f.second, s5, g.second, t5);
    TwoDigitBlocks(":", f.minute, s4, g.minute, t4);
    TwoDigitBlocks("T", f.hour, s3, g.hour, t3);
    TwoDigitBlocks("-", f.date.day, s2, g.date.day, t2);
    TwoDigitBlocks("-", f.date.month, s1, g.date.month, t1);
  }

  lemma FourDigitYear(y: nat)
    requires y >= 1000
    ensures Padded(y, 4) == Digits(y) && |Digits(y)| >= 4
  {
    DigitsLength(y, 3);
    assert Pow10(3) == 1000 by {
      assert Pow10(1) == 10 && Pow10(2) == 100;
    }
  }

  lemma NotBefore1970(t: Date)
    requires ValidDate(t) && DayNumber(t) >= 0
    ensures t.year >= 1970
  {
    MonthTable(1970);
    if t.year < 1970 {
      DayNumberIsMonotone(t, Date(1970, 1, 1));
    }
  }

  /** Instants render in years of at least four digits, so years are never zero-filled. */
  lemma YearIsAtLeast1970(ms: u64)
    ensures FieldsOf(ms).date.year >= 1970
  {
    NoTimestampOverflows(ms);
    CivilHasDayNumber(DaysOf(ms));
    NotBefore1970(CivilFromDays(DaysOf(ms)));
  }

  /** The rendered text of an instant, as `iso8601_utc` returns it. */
  function Iso8601(ms: u64): string {
    YearIsAtLeast1970(ms);
    FieldsNameTheSecond(ms);
    Render(FieldsOf(ms))
  }

  /** The number a run of decimal digits denotes. */
  function NumberOf(s: string): int {
    if s == [] then 0 else 10 * NumberOf(s[..|s| - 1]) + (s[|s| - 1] as int - '0' as int)
  }

  lemma {:induction false} DigitsDenote(n: nat)
    ensures NumberOf(Digits(n)) == n
  {
    var s := Digits(n);
    if n < 10 {
      assert s[..0] == [];
    } else {
      DigitsDenote(n / 10);
      assert s[..|s| - 1] == Digits(n / 10);
    }
  }

  lemma TwoDigitsDenote(n: nat)
    requires n < 100
    ensures |Padded(n, 2)| == 2 && NumberOf(Padded(n, 2)) == n
  {
    PaddedTwo(n);
    var s := Padded(n, 2);
    var t := s[..1];
    assert t == [Digit(n / 10)] && t[..0] == [];
    assert NumberOf(t) == n / 10;
    assert s[1] as int - '0' as int == n % 10;
  }

  lemma SixteenAfterYear(f: Fields)
    requires ValidFields(f)
    ensures var t := AfterYear(f);
            && |t| == 16 && t[0] == '-' && t[3] == '-' && t[6] == 'T' && t[9] == ':' && t[12] == ':' && t[15] == 'Z'
            && t[1..3] == Padded(f.date.month, 2) && t[4..6] == Padded(f.date.day, 2)
            && t[7..9] == Padded(f.hour, 2) && t[10..12] == Padded(f.minute, 2) && t[13..15] == Padded(f.second, 2)
  {
    TwoDigitsDenote(f.date.month);
    TwoDigitsDenote(f.date.day);
    TwoDigitsDenote(f.hour);
    TwoDigitsDenote(f.minute);
    TwoDigitsDenote(f.second);
    hide Padded, NumberOf, ValidFields;
    Pieces(Padded(f.date.month, 2), Padded(f.date.day, 2), Padded(f.hour, 2), Padded(f.minute, 2), Padded(f.second, 2));
  }

  lemma Pieces(a: string, b: string, c: string, d: string, e: string)
    requires |a| == |b| == |c| == |d| == |e| == 2
    ensures var t := "-" + a + "-" + b + "T" + c + ":" + d + ":" + e + "Z";
            && |t| == 16 && t[0] == '-' && t[3] == '-' && t[6] == 'T' && t[9] == ':' && t[12] == ':' && t[15] == 'Z'
            && t[1..3] == a && t[4..6] == b && t[7..9] == c && t[10..12] == d && t[13..15] == e
  {
    var t := "-" + a + "-" + b + "T" + c + ":" + d + ":" + e + "Z";
    assert t == ['-', a[0], a[1], '-', b[0], b[1], 'T', c[0], c[1], ':', d[0], d[1], ':', e[0], e[1], 'Z'];
  }

  /** What a text in the rendered form says. */
  predicate Says(text: string, f: Fields) {
    var y := |text| - 16;
    && y >= 4 && NumberOf(text[..y]) == f.date.year
    && text[y] == '-' && NumberOf(text[y + 1..y + 3]) == f.date.month
    && text[y + 3] == '-' && NumberOf(text[y + 4..y + 6]) == f.date.day
    && text[y + 6] == 'T' && NumberOf(text[y + 7..y + 9]) == f.hour
    && text[y + 9] == ':' && NumberOf(text[y + 10..y + 12]) == f.minute
    && text[y + 12] == ':' && NumberOf(text[y + 13..y + 15]) == f.second
    && text[y + 15] == 'Z'
  }

  lemma YearAndRestSay(year: string, rest: string, f: Fields)
    requires |year| >= 4 && NumberOf(year) == f.date.year && |rest| == 16
    requires rest[0] == '-' && rest[3] == '-' && rest[6] == 'T' && rest[9] == ':' && rest[12] == ':' && rest[15] == 'Z'
    requires NumberOf(rest[1..3]) == f.date.month && NumberOf(rest[4..6]) == f.date.day
    requires NumberOf(rest[7..9]) == f.hour && NumberOf(rest[10..12]) == f.minute && NumberOf(rest[13..15]) == f.second
    ensures Says(year + rest, f)
  {
    hide NumberOf;
    AfterPrefix(year, rest);
  }

  lemma RenderSays(f: Fields)
    requires ValidFields(f) && f.date.year >= 1000
    ensures Says(Render(f), f)
  {
    assert f.date.month < 100 && f.date.day < 100;
    assert f.hour < 100 && f.minute < 100 && f.second < 100;
    hide Digits, AfterYear, NumberOf, Render, Padded, ValidFields, Says;
    RenderYear(f);
    FourDigitYear(f.date.year);
    DigitsDenote(f.date.year);
    SixteenAfterYear(f);
    TwoDigitsDenote(f.date.month);
    TwoDigitsDenote(f.date.day);
    TwoDigitsDenote(f.hour);
    TwoDigitsDenote(f.minute);
    TwoDigitsDenote(f.second);
    YearAndRestSay(Digits(f.date.year), AfterYear(f), f);
  }

  /**
   * The text says what the instant is: a year of at least four digits, then month, day, hour,
   * minute and second in two digits each, with the separators of an ISO 8601 time in UTC.
   */
  lemma TextReadsBack(ms: u64)
    ensures Says(Iso8601(ms), FieldsOf(ms))
  {
    YearIsAtLeast1970(ms);
    FieldsNameTheSecond(ms);
    hide FieldsOf, Render, Says, ValidFields;
    RenderSays(FieldsOf(ms));
  }

  lemma AfterPrefix(p: string, t: string)
    requires |t| == 16
    ensures var s, y := p + t, |p|;
            && s[..y] == p && (forall i: nat :: i < 16 ==> s[y + i] == t[i])
            && s[y + 1..y + 3] == t[1..3] && s[y + 4..y + 6] == t[4..6] && s[y + 7..y + 9] == t[7..9]
            && s[y + 10..y + 12] == t[10..12] && s[y + 13..y + 15] == t[13..15]
  {}

  lemma RenderYear(f: Fields)
    requires ValidFields(f) && f.date.year >= 1000
    ensures Render(f) == Digits(f.date.year) + AfterYear(f)
    ensures |AfterYear(f)| > 0 && AfterYear(f)[0] == '-'
  {
    RenderSplits(f);
    FourDigitYear(f.date.year);
  }

  /** Timestamps whose years have equally many digits sort by their fields. */
  lemma SameWidthSorts(f: Fields, g: Fields)
    requires ValidFields(f) && ValidFields(g) && f.date.year >= 1000 && g.date.year >= 1000
    requires |Digits(f.date.year)| == |Digits(g.date.year)|
    ensures Less(Render(f), Render(g)) <==> FieldsBefore(f, g)
  {
    RenderYear(f);
    RenderYear(g);
    LessByBlocks(Digits(f.date.year), AfterYear(f), Digits(g.date.year), AfterYear(g));
    DigitsCompare(f.date.year, g.date.year);
    AfterYearSorts(f, g);
  }

  /** A shorter run of digits against a longer one: the dash sorts below every digit. */
  lemma DashBeforeDigit(a: string, x: string, b: string, y: string)
    requires |a| < |b| && x != [] && x[0] == '-' && forall c <- b :: '0' <= c <= '9'
    ensures Less(a + x, b + y) <==> Less(a, b[..|a|]) || a == b[..|a|]
  {
    hide Less;
    var k := |a|;
    assert b + y == b[..k] + (b[k..] + y);
    LessByBlocks(a, x, b[..k], b[k..] + y);
    assert (b[k..] + y)[0] == b[k] && b[k] in b;
    FirstCharDecides(x, b[k..] + y);
  }

  lemma FirstCharDecides(x: string, z: string)
    requires x != [] && z != [] && x[0] < z[0]
    ensures Less(x, z)
  {}

  lemma ShorterYearSorts(f: Fields, g: Fields)
    requires ValidFields(f) && ValidFields(g) && f.date.year >= 1000 && g.date.year >= 1000
    requires |Digits(f.date.year)| < |Digits(g.date.year)|
    ensures Less(Render(f), Render(g)) <==>
            f.date.year <= DropDigits(g.date.year, |Digits(g.date.year)| - |Digits(f.date.year)|)
  {
    RenderYear(f);
    RenderYear(g);
    ShorterDigits(f.date.year, g.date.year);
    DashBeforeDigit(Digits(f.date.year), AfterYear(f), Digits(g.date.year), AfterYear(g));
  }

  lemma ShorterDigits(m: nat, n: nat)
    requires |Digits(m)| < |Digits(n)|
    ensures var a, b := Digits(m), Digits(n);
            Less(a, b[..|a|]) || a == b[..|a|] <==> m <= DropDigits(n, |b| - |a|)
  {
    var k := |Digits(n)| - |Digits(m)|;
    DigitsPrefix(n, k);
    DigitsCompare(m, DropDigits(n, k));
  }

  /** `m` is at most the number formed by as many leading digits of `n` as `m` has. */
  predicate LeadsOrEquals(m: nat, n: nat) {
    |Digits(m)| <= |Digits(n)| && m <= DropDigits(n, |Digits(n)| - |Digits(m)|)
  }

  /**
   * When the rendered timestamps of two instants sort chronologically: for an earlier and a
   * later instant, exactly when the earlier year is at most the leading digits, as many as it
   * has itself, of the later year. Years of equal width always satisfy this.
   */
  lemma RenderedOrderExactly(a: u64, b: u64)
    requires a / 1_000 < b / 1_000
    ensures var ya, yb := FieldsOf(a).date.year, FieldsOf(b).date.year;
            && 1970 <= ya <= yb
            && (Less(Iso8601(a), Iso8601(b)) <==> LeadsOrEquals(ya, yb))
  {
    OrderedFields(a, b);
    OrderedRender(FieldsOf(a), FieldsOf(b));
  }

  lemma OrderedRender(f: Fields, g: Fields)
    requires ValidFields(f) && ValidFields(g) && FieldsBefore(f, g) && 1970 <= f.date.year <= g.date.year
    ensures var ya, yb := f.date.year, g.date.year;
            Less(Render(f), Render(g)) <==> LeadsOrEquals(ya, yb)
  {
    hide Less, Render, Digits, DropDigits, FieldsBefore, ValidFields;
    assert f.date.year >= 1000;
    WiderIsLarger(f.date.year, g.date.year);
    DropNothing(g.date.year);
    if |Digits(f.date.year)| == |Digits(g.date.year)| {
      SameWidthSorts(f, g);
    } else {
      ShorterYearSorts(f, g);
    }
  }

  lemma OrderedFields(a: u64, b: u64)
    requires a / 1_000 < b / 1_000
    ensures ValidFields(FieldsOf(a)) && ValidFields(FieldsOf(b)) && FieldsBefore(FieldsOf(a), FieldsOf(b))
    ensures 1970 <= FieldsOf(a).date.year <= FieldsOf(b).date.year
  {
    FieldsNameTheSecond(a);
    FieldsNameTheSecond(b);
    FieldsSortChronologically(a, b);
    YearIsAtLeast1970(a);
  }

  lemma WiderIsLarger(m: nat, n: nat)
    requires m <= n
    ensures |Digits(m)| <= |Digits(n)|
  {
    var k := |Digits(n)|;
    DigitsLength(n, k);
    DigitsLength(m, k);
  }

  /** Up to the year 9999 rendered timestamps sort exactly as the instants do. */
  lemma RenderedOrderUpTo9999(a: u64, b: u64)
    requires FieldsOf(a).date.year <= 9999 && FieldsOf(b).date.year <= 9999
    ensures Less(Iso8601(a), Iso8601(b)) <==> a / 1_000 < b / 1_000
  {
    var f, g := FieldsOf(a), FieldsOf(b);
    FieldsNameTheSecond(a);
    FieldsNameTheSecond(b);
    YearIsAtLeast1970(a);
    YearIsAtLeast1970(b);
    FourDigits(f.date.year);
    FourDigits(g.date.year);
    SameWidthSorts(f, g);
    FieldsSortChronologically(a, b);
  }

  lemma FourDigits(y: nat)
    requires 1000 <= y <= 9999
    ensures |Digits(y)| == 4
  {
    FourDigitYear(y);
    DigitsLength(y, 4);
    assert Pow10(4) == 10_000 by {
      assert Pow10(1) == 10 && Pow10(2) == 100 && Pow10(3) == 1000;
    }
  }

  /** The first second of year 10000 renders before the last second of year 9999. */
  lemma Year10000SortsEarly()
    ensures var last: u64, first: u64 := 253_402_300_799_000, 253_402_300_800_000;
            && FieldsOf(last) == Fields(Date(9999, 12, 31), 23, 59, 59)
            && FieldsOf(first) == Fields(Date(10_000, 1, 1), 0, 0, 0)
            && Less(Iso8601(first), Iso8601(last)) && !Less(Iso8601(last), Iso8601(first))
  {
    MonthTable(9999);
    MonthTable(10_000);
    FieldsAreUnique(253_402_300_799_000, Fields(Date(9999, 12, 31), 23, 59, 59));
    FieldsAreUnique(253_402_300_800_000, Fields(Date(10_000, 1, 1), 0, 0, 0));
    LateYears(FieldsOf(253_402_300_799_000), FieldsOf(253_402_300_800_000));
  }

  lemma LateYears(f: Fields, g: Fields)
    requires f == Fields(Date(9999, 12, 31), 23, 59, 59) && g == Fields(Date(10_000, 1, 1), 0, 0, 0)
    ensures Less(Render(g), Render(f)) && !Less(Render(f), Render(g))
  {
    RenderSplits(f);
    RenderSplits(g);
    FourDigitYear(9999);
    FourDigitYear(10_000);
    assert Digits(9999)[0] == '9' by {
      assert Digits(99) == Digits(9) + [Digit(9)];
      assert Digits(999) == Digits(99) + [Digit(9)];
    }
    assert Digits(10_000)[0] == '1' by {
      assert Digits(10) == Digits(1) + [Digit(0)];
      assert Digits(100) == Digits(10) + [Digit(0)];
      assert Digits(1000) == Digits(100) + [Digit(0)];
    }
  }
}
