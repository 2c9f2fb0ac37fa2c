/** The ISO-8601 stamp of src-tauri/core/src/time.rs, in the profile of sections 5.1 and 5.6 of RFC 3339. */
module Timestamp {
  import opened Calendar
  import opened Decimal

  // ------------------------------------------------ date order is day order

  predicate DateLess(a: Date, b: Date) {
    a.year < b.year || (a.year == b.year && (a.month < b.month || (a.month == b.month && a.day < b.day)))
  }

  lemma {:induction false} WalkIncreases(a: int, b: int)
    requires 0 <= a <= b
    ensures Valid(Walk(b)) && Walk(b).year >= 1970
    ensures a < b ==> DateLess(Walk(a), Walk(b))
    decreases b
  {
    if b > 0 {
      WalkIncreases(if a < b then a else b - 1, b - 1);
    }
  }

  // ------------------------------------------------------------- the string

  /** A zero-padded number followed by fixed text. */
  datatype Field = Field(value: nat, width: nat, suffix: string)

  function Render(fields: seq<Field>): string {
    if fields == [] then "" else Padded(fields[0].value, fields[0].width) + fields[0].suffix + Render(fields[1..])
  }

  function Fields(date: Date, rem: nat): seq<Field>
    requires date.year >= 0 && date.month >= 0 && date.day >= 0
  {
    [Field(date.year, 4, "-"), Field(date.month, 2, "-"), Field(date.day, 2, "T"),
     Field(rem / 3600, 2, ":"), Field(rem % 3600 / 60, 2, ":"), Field(rem % 60, 2, ".000Z")]
  }

  lemma DateAfterEpoch(secs: nat)
    ensures var d := CivilFromDays(secs / 86_400); d.year >= 1970 && Valid(d)
  {
    AgreesWithWalk(secs / 86_400);
    WalkIncreases(0, secs / 86_400);
  }

  function Iso8601(secs: nat): string {
    DateAfterEpoch(secs);
    Render(Fields(CivilFromDays(secs / 86_400), secs % 86_400))
  }

  /** The first second of the year 10000. */
  const END_OF_9999: nat := 253_402_300_800

  lemma LastDayOf9999()
    ensures CivilFromDays(2_932_897) == Date(10_000, 1, 1)
  {
    CivilAt(2_932_897, 24, 399, 10, 306);
  }

  lemma FourDigitYear(secs: nat)
    requires secs < END_OF_9999
    ensures CivilFromDays(secs / 86_400).year <= 9999
  {
    LastDayOf9999();
    AgreesWithWalk(2_932_897);
    AgreesWithWalk(secs / 86_400);
    WalkIncreases(secs / 86_400, 2_932_897);
  }

  // -------------------------------------------------- order of rendered fields

  predicate Fits(fields: seq<Field>) {
    forall i :: 0 <= i < |fields| ==> fields[i].width > 0 && fields[i].value < Pow10(fields[i].width)
  }

  predicate SameShape(a: seq<Field>, b: seq<Field>) {
    |a| == |b| && forall i :: 0 <= i < |a| ==> a[i].width == b[i].width && a[i].suffix == b[i].suffix
  }

  predicate FieldsLess(a: seq<Field>, b: seq<Field>)
    requires |a| == |b|
  {
    a != [] && (a[0].value < b[0].value || (a[0].value == b[0].value && FieldsLess(a[1..], b[1..])))
  }

  lemma ConcatEqual(p: string, q: string, x: string, y: string)
    requires |p| == |q|
    ensures p + x == q + y <==> p == q && x == y
  {
    if p + x == q + y {
      assert (p + x)[..|p|] == p && (q + y)[..|q|] == q;
      assert (p + x)[|p|..] == x && (q + y)[|q|..] == y;
    }
  }

  lemma SuffixOrder(suffix: string, x: string, y: string)
    ensures Less(suffix + x, suffix + y) <==> Less(x, y)
  {
    LessConcat(suffix, suffix, x, y);
    LessIrreflexive(suffix);
  }

  lemma FieldOrder(v: nat, w: nat, width: nat, suffix: string, x: string, y: string)
    requires width > 0 && v < Pow10(width) && w < Pow10(width)
    ensures var a, b := Padded(v, width) + suffix + x, Padded(w, width) + suffix + y;
            && (Less(a, b) <==> v < w || (v == w && Less(x, y)))
            && (a == b <==> v == w && x == y)
  {
    hide Fixed, Padded, Pow10, Less;
    PaddedIsFixed(v, width);
    PaddedIsFixed(w, width);
    FixedOrder(v, w, width);
    var p, q := Fixed(v, width), Fixed(w, width);
    LessConcat(p, q, suffix + x, suffix + y);
    SuffixOrder(suffix, x, y);
    ConcatEqual(p, q, suffix + x, suffix + y);
    ConcatEqual(suffix, suffix, x, y);
    assert p + suffix + x == p + (suffix + x) && q + suffix + y == q + (suffix + y);
  }

  lemma FirstFits(a: seq<Field>, b: seq<Field>)
    requires Fits(a) && Fits(b) && SameShape(a, b) && a != []
    ensures Fits(a[1..]) && Fits(b[1..]) && SameShape(a[1..], b[1..]) && |a| == |b|
    ensures a[0].width == b[0].width > 0 && a[0].suffix == b[0].suffix
    ensures a[0].value < Pow10(a[0].width) && b[0].value < Pow10(b[0].width)
  {
    hide Pow10;
  }

  /** Fields that fit their widths sort as text exactly as they sort as numbers, and the text determines them. */
  lemma {:induction false} RenderOrder(a: seq<Field>, b: seq<Field>)
    requires Fits(a) && Fits(b) && SameShape(a, b)
    ensures Less(Render(a), Render(b)) <==> FieldsLess(a, b)
    ensures Render(a) == Render(b) <==> a == b
  {
    if a != [] {
      FirstFits(a, b);
      RenderCons(a);
      RenderCons(b);
      LessCons(a, b);
      hide *;
      RenderOrder(a[1..], b[1..]);
      FieldOrder(a[0].value, b[0].value, a[0].width, a[0].suffix, Render(a[1..]), Render(b[1..]));
      assert a == [a[0]] + a[1..] && b == [b[0]] + b[1..];
    }
  }

  lemma RenderCons(a: seq<Field>)
    requires a != []
    ensures Render(a) == Padded(a[0].value, a[0].width) + a[0].suffix + Render(a[1..])
  {
    hide Padded;
  }

  lemma LessCons(a: seq<Field>, b: seq<Field>)
    requires |a| == |b| > 0
    ensures FieldsLess(a, b)
      <==> a[0].value < b[0].value || (a[0].value == b[0].value && FieldsLess(a[1..], b[1..]))
  {
  }

  lemma FieldsFit(secs: nat)
    requires secs < END_OF_9999
    ensures var d := CivilFromDays(secs / 86_400);
      d.year >= 0 && d.month >= 0 && d.day >= 0 && Fits(Fields(d, secs % 86_400))
  {
    FourDigitYear(secs);
    DateAfterEpoch(secs);
    assert Pow10(1) == 10 && Pow10(2) == 100 && Pow10(3) == 1000 && Pow10(4) == 10_000;
  }

  function Width(a: seq<Field>): nat {
    if a == [] then 0 else a[0].width + |a[0].suffix| + Width(a[1..])
  }

  lemma {:induction false} RenderLength(a: seq<Field>)
    requires Fits(a)
    ensures |Render(a)| == Width(a)
  {
    if a != [] {
      PaddedIsFixed(a[0].value, a[0].width);
      RenderLength(a[1..]);
    }
  }

  lemma WidthStep(f: seq<Field>, k: nat)
    requires k < |f|
    ensures Width(f[k..]) == f[k].width + |f[k].suffix| + Width(f[k + 1..])
  {
    assert f[k..][1..] == f[k + 1..];
  }

  /** Through the year 9999 the stamp has 24 characters. */
  lemma StampLength(secs: nat)
    requires secs < END_OF_9999
    ensures |Iso8601(secs)| == 24
  {
    DateAfterEpoch(secs);
    FieldsFit(secs);
    var f := Fields(CivilFromDays(secs / 86_400), secs % 86_400);
    RenderLength(f);
    SixWidths(f);
  }

  lemma SixWidths(f: seq<Field>)
    requires |f| == 6
    ensures Width(f) == f[0].width + |f[0].suffix| + f[1].width + |f[1].suffix| + f[2].width + |f[2].suffix|
                      + f[3].width + |f[3].suffix| + f[4].width + |f[4].suffix| + f[5].width + |f[5].suffix|
  {
    WidthStep(f, 0);
    WidthStep(f, 1);
    WidthStep(f, 2);
    WidthStep(f, 3);
    WidthStep(f, 4);
    WidthStep(f, 5);
    assert f[0..] == f && f[6..] == [];
  }

  // ------------------------------------------------------- what a reader sees

  /** Digits, and the number they spell. */
  predicate Reads(s: string, n: int) {
    AllDigits(s) && Reading(s) == n
  }

  lemma Pieces(text: string, at: nat, p: string, q: string, rest: string)
    requires at <= |text| && text[at..] == p + q + rest
    ensures at + |p| + |q| <= |text|
    ensures text[at..at + |p|] == p && text[at + |p|..at + |p| + |q|] == q && text[at + |p| + |q|..] == rest
  {
    var t := text[at..];
    assert t[..|p|] == p && t[|p|..|p| + |q|] == q && t[|p| + |q|..] == rest;
  }

  lemma PaddedField(n: nat, width: nat)
    requires width > 0 && n < Pow10(width)
    ensures |Padded(n, width)| == width && Reads(Padded(n, width), n)
  {
    PaddedIsFixed(n, width);
    PaddedReads(n, width);
    hide Padded, Fixed, AllDigits, Reading, Pow10;
  }

  lemma FieldReads(f: seq<Field>, k: nat, text: string, at: nat, value: nat, width: nat, suffix: string)
    requires k < |f| && Fits(f) && at <= |text| && text[at..] == Render(f[k..]) && f[k] == Field(value, width, suffix)
    ensures var mid, end := at + width, at + width + |suffix|;
      end <= |text| && Reads(text[at..mid], value) && text[mid..end] == suffix && text[end..] == Render(f[k + 1..])
  {
    assert width > 0 && value < Pow10(width);
    RenderCons(f[k..]);
    hide *;
    PaddedField(value, width);
    assert f[k..][1..] == f[k + 1..];
    Pieces(text, at, Padded(value, width), suffix, Render(f[k + 1..]));
  }

  /** The six numbers of a stamp, each in its columns, and what stands between them. */
  ghost predicate Shows(text: string, date: Date, hour: nat, minute: nat, second: nat) {
    && |text| == 24
    && Reads(text[0..4], date.year) && Reads(text[5..7], date.month) && Reads(text[8..10], date.day)
    && Reads(text[11..13], hour) && Reads(text[14..16], minute) && Reads(text[17..19], second)
    && text[4..5] == "-" && text[7..8] == "-" && text[10..11] == "T" && text[13..14] == ":" && text[16..17] == ":"
    && text[19..24] == ".000Z"
  }

  lemma SixFieldsRead(date: Date, rem: nat)
    requires date.year >= 0 && date.month >= 0 && date.day >= 0 && Fits(Fields(date, rem))
    ensures Shows(Render(Fields(date, rem)), date, rem / 3600, rem % 3600 / 60, rem % 60)
  {
    var f := Fields(date, rem);
    var text := Render(f);
    hide Render, Fits, Reads;
    DateColumns(f, text, date.year, date.month, date.day);
    ClockColumns(f, text, rem / 3600, rem % 3600 / 60, rem % 60);
  }

  lemma DateColumns(f: seq<Field>, text: string, year: nat, month: nat, day: nat)
    requires |f| == 6 && Fits(f) && text == Render(f)
    requires f[0] == Field(year, 4, "-") && f[1] == Field(month, 2, "-") && f[2] == Field(day, 2, "T")
    ensures |text| >= 11 && text[11..] == Render(f[3..])
    ensures Reads(text[0..4], year) && Reads(text[5..7], month) && Reads(text[8..10], day)
    ensures text[4..5] == "-" && text[7..8] == "-" && text[10..11] == "T"
  {
    hide *;
    assert f[0..] == f && text[0..] == text;
    FieldReads(f, 0, text, 0, year, 4, "-");
    FieldReads(f, 1, text, 5, month, 2, "-");
    FieldReads(f, 2, text, 8, day, 2, "T");
  }

  lemma ClockColumns(f: seq<Field>, text: string, hour: nat, minute: nat, second: nat)
    requires |f| == 6 && Fits(f) && |text| >= 11 && text[11..] == Render(f[3..])
    requires f[3] == Field(hour, 2, ":") && f[4] == Field(minute, 2, ":") && f[5] == Field(second, 2, ".000Z")
    ensures |text| == 24
    ensures Reads(text[11..13], hour) && Reads(text[14..16], minute) && Reads(text[17..19], second)
    ensures text[13..14] == ":" && text[16..17] == ":" && text[19..24] == ".000Z"
  {
    hide *;
    FieldReads(f, 3, text, 11, hour, 2, ":");
    FieldReads(f, 4, text, 14, minute, 2, ":");
    FieldReads(f, 5, text, 17, second, 2, ".000Z");
    RenderNone();
    assert f[6..] == [];
  }

  lemma RenderNone()
    ensures Render([]) == ""
  {
  }

  /**
   * Through the year 9999 a stamp shows the date reached by walking day by day from 1970-01-01, and the hours, minutes
   * and seconds that make up the rest of the day.
   */
  lemma StampReads(secs: nat) returns (hour: nat, minute: nat, second: nat)
    requires secs < END_OF_9999
    ensures Shows(Iso8601(secs), Walk(secs / 86_400), hour, minute, second)
    ensures secs == secs / 86_400 * 86_400 + 3600 * hour + 60 * minute + second
    ensures hour < 24 && minute < 60 && second < 60
  {
    DateAfterEpoch(secs);
    FieldsFit(secs);
    AgreesWithWalk(secs / 86_400);
    hide Shows, Walk, CivilFromDays, Fits;
    var rem := secs % 86_400;
    SixFieldsRead(CivilFromDays(secs / 86_400), rem);
    ClockParts(rem);
    hour, minute, second := rem / 3600, rem % 3600 / 60, rem % 60;
  }

  lemma RenderSix(f: seq<Field>)
    requires |f| == 6
    ensures Render(f)
      == Padded(f[0].value, f[0].width) + f[0].suffix + (Padded(f[1].value, f[1].width) + f[1].suffix
       + (Padded(f[2].value, f[2].width) + f[2].suffix + (Padded(f[3].value, f[3].width) + f[3].suffix
       + (Padded(f[4].value, f[4].width) + f[4].suffix + (Padded(f[5].value, f[5].width) + f[5].suffix + "")))))
  {
    hide *;
    RenderNone();
    RenderCons(f[5..]);
    RenderCons(f[4..]);
    RenderCons(f[3..]);
    RenderCons(f[2..]);
    RenderCons(f[1..]);
    RenderCons(f);
    assert f[1..][1..] == f[2..] && f[2..][1..] == f[3..] && f[3..][1..] == f[4..] && f[4..][1..] == f[5..];
    assert f[5..][1..] == [];
  }

  lemma FourNumbers()
    ensures Padded(1970, 4) == "1970" && Padded(1, 2) == "01" && Padded(0, 2) == "00"
  {
    assert Decimal.Decimal(197) == "197";
    assert Zeros(1) == "0";
  }

  lemma EpochFields()
    ensures Iso8601(0) == Render(Fields(Date(1970, 1, 1), 0))
  {
    AgreesWithWalk(0);
    hide CivilFromDays, Render;
  }

  lemma EpochLetters(clock: string)
    requires clock == "00" + ":" + ("00" + ":" + ("00" + ".000Z" + ""))
    ensures "1970" + "-" + ("01" + "-" + ("01" + "T" + clock)) == "1970-01-01T00:00:00.000Z"
  {
    assert clock == "00:00:00.000Z";
  }

  /** The stamp of the first second. */
  lemma Epoch()
    ensures Iso8601(0) == "1970-01-01T00:00:00.000Z"
  {
    EpochFields();
    FourNumbers();
    var f := Fields(Date(1970, 1, 1), 0);
    RenderSix(f);
    EpochLetters("00" + ":" + ("00" + ":" + ("00" + ".000Z" + "")));
    hide *;
  }

  lemma ClockParts(a: nat)
    ensures a == 3600 * (a / 3600) + 60 * (a % 3600 / 60) + a % 60 && a % 3600 / 60 < 60
  {
    assert a % 3600 % 60 == a % 60;
  }

  lemma ClockOrder(a: nat, b: nat)
    requires a < b < 86_400
    ensures a / 3600 < b / 3600 || (a / 3600 == b / 3600
      && (a % 3600 / 60 < b % 3600 / 60 || (a % 3600 / 60 == b % 3600 / 60 && a % 60 < b % 60)))
  {
    ClockParts(a);
    ClockParts(b);
  }

  lemma FieldsLessAt(a: seq<Field>, b: seq<Field>, k: nat)
    requires |a| == |b| && k < |a|
    ensures FieldsLess(a[k..], b[k..])
       <==> a[k].value < b[k].value || (a[k].value == b[k].value && FieldsLess(a[k + 1..], b[k + 1..]))
  {
    assert a[k..][1..] == a[k + 1..] && b[k..][1..] == b[k + 1..];
  }

  lemma FieldsOrder(d: Date, r: nat, e: Date, t: nat)
    requires d.year >= 0 && d.month >= 0 && d.day >= 0 && e.year >= 0 && e.month >= 0 && e.day >= 0
    requires r < 86_400 && t < 86_400 && (DateLess(d, e) || (d == e && r < t))
    ensures FieldsLess(Fields(d, r), Fields(e, t))
  {
    var a, b := Fields(d, r), Fields(e, t);
    if d == e {
      ClockOrder(r, t);
    }
    FieldsLessAt(a, b, 5);
    FieldsLessAt(a, b, 4);
    FieldsLessAt(a, b, 3);
    FieldsLessAt(a, b, 2);
    FieldsLessAt(a, b, 1);
    FieldsLessAt(a, b, 0);
    assert a[0..] == a && b[0..] == b;
  }

  lemma FieldsShape(d: Date, r: nat, e: Date, t: nat)
    requires d.year >= 0 && d.month >= 0 && d.day >= 0 && e.year >= 0 && e.month >= 0 && e.day >= 0
    ensures SameShape(Fields(d, r), Fields(e, t))
  {
  }

  lemma EarlierIsLess(s: nat, t: nat)
    requires s < t < END_OF_9999
    ensures Less(Iso8601(s), Iso8601(t))
  {
    var a, b := s / 86_400, t / 86_400;
    var d, e := CivilFromDays(a), CivilFromDays(b);
    DateAfterEpoch(s);
    DateAfterEpoch(t);
    FieldsFit(s);
    FieldsFit(t);
    AgreesWithWalk(a);
    AgreesWithWalk(b);
    WalkIncreases(a, b);
    FieldsOrder(d, s % 86_400, e, t % 86_400);
    FieldsShape(d, s % 86_400, e, t % 86_400);
    RenderOrder(Fields(d, s % 86_400), Fields(e, t % 86_400));
  }

  /** String order is time order, and the string determines the second. */
  lemma StampOrder(s: nat, t: nat)
    requires s < END_OF_9999 && t < END_OF_9999
    ensures Less(Iso8601(s), Iso8601(t)) <==> s < t
    ensures Iso8601(s) == Iso8601(t) <==> s == t
  {
    if s < t {
      EarlierIsLess(s, t);
      LessIrreflexive(Iso8601(s));
    } else if t < s {
      EarlierIsLess(t, s);
      LessIrreflexive(Iso8601(s));
      LessAsymmetric(Iso8601(t), Iso8601(s));
    } else {
      LessIrreflexive(Iso8601(s));
    }
  }

  lemma {:induction false} LessAsymmetric(a: string, b: string)
    requires Less(a, b)
    ensures !Less(b, a)
  {
    if a != "" && a[0] == b[0] {
      LessAsymmetric(a[1..], b[1..]);
    }
  }
}
