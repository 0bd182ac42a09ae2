/** Registration timestamps: the `datetime` values the pipeline compares, and the
    parser that turns the source's ISO-8601 text into one. */
module Timestamps {
  import opened Options

  /** A UTC calendar date and wall-clock time with microsecond precision: the
      fields of a Python `datetime`. */
  datatype Timestamp = Timestamp(year: int, month: int, day: int,
                                 hour: int, minute: int, second: int, micro: int)

  predicate IsLeapYear(y: int) {
    y % 4 == 0 && (y % 100 != 0 || y % 400 == 0)
  }

  function DaysInMonth(y: int, m: int): int {
    if m == 2 then (if IsLeapYear(y) then 29 else 28)
    else if m == 4 || m == 6 || m == 9 || m == 11 then 30
    else 31
  }

  /** The field ranges `datetime` accepts: years 1..9999 and real calendar days. */
  predicate Valid(t: Timestamp) {
    && 1 <= t.year <= 9999
    && 1 <= t.month <= 12
    && 1 <= t.day <= DaysInMonth(t.year, t.month)
    && 0 <= t.hour < 24
    && 0 <= t.minute < 60
    && 0 <= t.second < 60
    && 0 <= t.micro < 1000000
  }

  /** Midnight at the start of a day, as `datetime(y, m, d)` or `Timestamp("y-m-d")`. */
  function Midnight(y: int, m: int, d: int): Timestamp {
    Timestamp(y, m, d, 0, 0, 0, 0)
  }

  /** Chronological order of two timestamps: the first field that differs decides. */
  predicate Earlier(a: Timestamp, b: Timestamp) {
    || a.year < b.year
    || (a.year == b.year && a.month < b.month)
    || (a.year == b.year && a.month == b.month && a.day < b.day)
    || (a.year == b.year && a.month == b.month && a.day == b.day && a.hour < b.hour)
    || (a.year == b.year && a.month == b.month && a.day == b.day && a.hour == b.hour
        && a.minute < b.minute)
    || (a.year == b.year && a.month == b.month && a.day == b.day && a.hour == b.hour
        && a.minute == b.minute && a.second < b.second)
    || (a.year == b.year && a.month == b.month && a.day == b.day && a.hour == b.hour
        && a.minute == b.minute && a.second == b.second && a.micro < b.micro)
  }

  /** The day count and the second count on the way to `Ticks`. */
  function DayIndex(t: Timestamp): int {
    (t.year * 12 + (t.month - 1)) * 31 + (t.day - 1)
  }

  function SecondIndex(t: Timestamp): int {
    ((DayIndex(t) * 24 + t.hour) * 60 + t.minute) * 60 + t.second
  }

  /** One integer per timestamp; comparisons of registration dates compare these. */
  function Ticks(t: Timestamp): int {
    SecondIndex(t) * 1000000 + t.micro
  }

  lemma MulAtLeast(k: int, base: int)
    requires k >= 1 && base > 0
    ensures k * base >= base
  {
    var j := k - 1;
    assert k * base == j * base + base;
    assert j * base >= 0;
  }

  /** Positional notation: with digits below the base, the high part decides and
      the low part breaks ties. */
  lemma PlaceValue(h1: int, l1: int, h2: int, l2: int, base: int)
    requires 0 <= l1 < base && 0 <= l2 < base
    ensures h1 * base + l1 < h2 * base + l2 <==> h1 < h2 || (h1 == h2 && l1 < l2)
    ensures h1 * base + l1 == h2 * base + l2 <==> h1 == h2 && l1 == l2
  {
    if h1 < h2 {
      MulAtLeast(h2 - h1, base);
      assert h2 * base - h1 * base == (h2 - h1) * base;
    } else if h2 < h1 {
      MulAtLeast(h1 - h2, base);
      assert h1 * base - h2 * base == (h1 - h2) * base;
    }
  }

  /** `Ticks` is faithful to the calendar: on valid timestamps it orders them
      chronologically and tells different instants apart. */
  lemma TicksChronological(a: Timestamp, b: Timestamp)
    requires Valid(a) && Valid(b)
    ensures Ticks(a) < Ticks(b) <==> Earlier(a, b)
    ensures Ticks(a) == Ticks(b) <==> a == b
  {
    var ma, mb := a.year * 12 + (a.month - 1), b.year * 12 + (b.month - 1);
    PlaceValue(a.year, a.month - 1, b.year, b.month - 1, 12);
    PlaceValue(ma, a.day - 1, mb, b.day - 1, 31);
    PlaceValue(DayIndex(a), a.hour, DayIndex(b), b.hour, 24);
    var ha, hb := DayIndex(a) * 24 + a.hour, DayIndex(b) * 24 + b.hour;
    PlaceValue(ha, a.minute, hb, b.minute, 60);
    PlaceValue(ha * 60 + a.minute, a.second, hb * 60 + b.minute, b.second, 60);
    PlaceValue(SecondIndex(a), a.micro, SecondIndex(b), b.micro, 1000000);
  }

  // ---------------------------------------------------------------------
  // Parsing "%Y-%m-%dT%H:%M:%S.%fZ"

  predicate IsDigit(c: char) {
    '0' <= c <= '9'
  }

  predicate AllDigits(s: string) {
    forall i :: 0 <= i < |s| ==> IsDigit(s[i])
  }

  /** Length of the run of ASCII digits at the front of `s`. */
  function DigitRun(s: string): (n: nat)
    ensures n <= |s|
    ensures AllDigits(s[..n])
    ensures n < |s| ==> !IsDigit(s[n])
  {
    if s == [] || !IsDigit(s[0]) then 0 else 1 + DigitRun(s[1..])
  }

  /** The number a string of decimal digits denotes. */
  function DigitsValue(ds: string): nat
    requires AllDigits(ds)
  {
    if ds == [] then 0
    else DigitsValue(ds[..|ds| - 1]) * 10 + (ds[|ds| - 1] as int - '0' as int)
  }

  function Pow10(n: nat): (p: nat)
    ensures p >= 1
  {
    if n == 0 then 1 else 10 * Pow10(n - 1)
  }

  /** A field read from the front of the text: its value, its width in digits,
      and the text that follows it. */
  datatype Scanned = Scanned(value: nat, width: nat, rest: string)

  /** A field of `lo` to `hi` digits. The field is the whole digit run, since every
      field of the format is followed by a non-digit separator. */
  function Number(s: string, lo: nat, hi: nat): Option<Scanned> {
    var n := DigitRun(s);
    if lo <= n <= hi then Some(Scanned(DigitsValue(s[..n]), n, s[n..])) else None
  }

  /** One literal character of the format; matching ignores case. */
  function Literal(s: string, accepted: string): Option<string> {
    if s != [] && s[0] in accepted then Some(s[1..]) else None
  }

  /** A field of `lo` to `hi` digits and the separator after it; `rest` is what
      follows the separator. */
  function Field(s: string, lo: nat, hi: nat, separator: string): (r: Option<Scanned>)
    ensures r.Some? ==> lo <= r.value.width <= hi
  {
    var n :- Number(s, lo, hi);
    var rest :- Literal(n.rest, separator);
    Some(Scanned(n.value, n.width, rest))
  }

  /** One numeric directive of the format: its width bounds and the spellings of
      the literal separator that follows it. */
  datatype Directive = Directive(lo: nat, hi: nat, separator: string)

  /** "%Y-%m-%dT%H:%M:%S.%fZ" as a list of directives: four-digit year, one- or
      two-digit month, day, hour, minute and second, one to six fraction digits;
      separators match without regard to case. */
  const Layout: seq<Directive> := [
    Directive(4, 4, "-"), Directive(1, 2, "-"), Directive(1, 2, "Tt"),
    Directive(1, 2, ":"), Directive(1, 2, ":"), Directive(1, 2, "."),
    Directive(1, 6, "Zz")]

  /** Reads the directives of `format` from index `from` on, in turn, from the front
      of `text`; each scanned field holds the text after its separator. */
  function Scan(text: string, format: seq<Directive>, from: nat): (r: Option<seq<Scanned>>)
    requires from <= |format|
    ensures r.Some? ==> |r.value| == |format| - from
    ensures r.Some? ==> forall i :: 0 <= i < |r.value| ==> r.value[i].width <= format[from + i].hi
    decreases |format| - from
  {
    if from == |format| then Some([])
    else
      var d := format[from];
      var f :- Field(text, d.lo, d.hi, d.separator);
      var more :- Scan(f.rest, format, from + 1);
      Some([f] + more)
  }

  /** The microseconds a fraction of `width` digits with value `value` denotes: the
      digits padded on the right with zeros to six. */
  function Microseconds(value: nat, width: nat): nat
    decreases 6 - width
  {
    if width >= 6 then value else 10 * Microseconds(value, width + 1)
  }

  /** `datetime.strptime(text, "%Y-%m-%dT%H:%M:%S.%fZ")`: every directive of the
      layout matches, nothing is left over, the fraction is padded on the right to
      microseconds, and the fields form a real calendar instant. */
  function Parse(text: string): (r: Option<Timestamp>)
    ensures r.Some? ==> Valid(r.value)
  {
    var fs :- Scan(text, Layout, 0);
    if fs[6].rest != [] then None
    else
      var t := Timestamp(fs[0].value, fs[1].value, fs[2].value, fs[3].value, fs[4].value,
                         fs[5].value, Microseconds(fs[6].value, fs[6].width));
      if Valid(t) then Some(t) else None
  }

  // ---------------------------------------------------------------------
  // The canonical rendering, and the round trip through the parser

  function DigitChar(d: nat): char
    requires d < 10
  {
    ('0' as int + d) as char
  }

  /** `v` written with exactly `w` digits, zero-padded on the left. */
  function Digits(v: nat, w: nat): (r: string)
    ensures |r| == w && AllDigits(r)
  {
    if w == 0 then "" else Digits(v / 10, w - 1) + [DigitChar(v % 10)]
  }

  /** The ISO-8601 form with six fraction digits, e.g. "2006-09-06T19:44:37.808000Z". */
  function Format(t: Timestamp): string
    requires Valid(t)
  {
    Digits(t.year, 4) + "-" + Digits(t.month, 2) + "-" + Digits(t.day, 2) + "T"
      + Digits(t.hour, 2) + ":" + Digits(t.minute, 2) + ":" + Digits(t.second, 2) + "."
      + Digits(t.micro, 6) + "Z"
  }

  lemma {:induction false} DigitsValueOf(v: nat, w: nat)
    requires v < Pow10(w)
    ensures DigitsValue(Digits(v, w)) == v
  {
    if w > 0 {
      var ds := Digits(v, w);
      assert ds[..w - 1] == Digits(v / 10, w - 1);
      assert v / 10 < Pow10(w - 1);
      DigitsValueOf(v / 10, w - 1);
    }
  }

  lemma {:induction false} DigitRunOf(ds: string, rest: string)
    requires AllDigits(ds)
    requires rest == [] || !IsDigit(rest[0])
    ensures DigitRun(ds + rest) == |ds|
  {
    if ds == [] {
      assert ds + rest == rest;
    } else {
      assert (ds + rest)[1..] == ds[1..] + rest;
      DigitRunOf(ds[1..], rest);
    }
  }

  /** A zero-padded field followed by one of its separators is read back as its value. */
  lemma FieldOf(v: nat, w: nat, c: char, rest: string, lo: nat, hi: nat, separator: string)
    requires lo <= w <= hi && v < Pow10(w)
    requires c in separator && !IsDigit(c)
    ensures Field(Digits(v, w) + ([c] + rest), lo, hi, separator) == Some(Scanned(v, w, rest))
  {
    var s := Digits(v, w) + ([c] + rest);
    DigitRunOf(Digits(v, w), [c] + rest);
    assert s[..w] == Digits(v, w);
    assert s[w..] == [c] + rest;
    DigitsValueOf(v, w);
  }

  /** One field as the canonical text writes it: its value, its zero-padded width
      and the separator written after it. */
  datatype Written = Written(value: nat, width: nat, sep: char)

  /** The fields of `ws` from index `k` on, each zero-padded and followed by its
      separator. */
  function Render(ws: seq<Written>, k: nat): string
    requires k <= |ws|
    decreases |ws| - k
  {
    if k == |ws| then "" else Digits(ws[k].value, ws[k].width) + ([ws[k].sep] + Render(ws, k + 1))
  }

  /** What scanning `Render(ws, k)` reads: each field's value and width, and the
      text after its separator. */
  function Scanneds(ws: seq<Written>, k: nat): (r: seq<Scanned>)
    requires k <= |ws|
    ensures |r| == |ws| - k
    ensures forall i :: 0 <= i < |r| ==> r[i].value == ws[k + i].value && r[i].width == ws[k + i].width
    ensures k < |ws| ==> r[|r| - 1].rest == ""
    decreases |ws| - k
  {
    if k == |ws| then []
    else [Scanned(ws[k].value, ws[k].width, Render(ws, k + 1))] + Scanneds(ws, k + 1)
  }

  /** Each written field fits the directive at its position and its separator is
      one of that directive's spellings. */
  predicate FitsLayout(ws: seq<Written>) {
    && |ws| == |Layout|
    && forall i :: 0 <= i < |ws| ==>
         && Layout[i].lo <= ws[i].width <= Layout[i].hi && ws[i].value < Pow10(ws[i].width)
         && ws[i].sep in Layout[i].separator && !IsDigit(ws[i].sep)
  }

  /** Text written field by field to fit the layout scans back to those fields. */
  lemma {:induction false} ScanRender(ws: seq<Written>, k: nat)
    requires FitsLayout(ws) && k <= |ws|
    ensures Scan(Render(ws, k), Layout, k) == Some(Scanneds(ws, k))
    decreases |ws| - k
  {
    if k < |ws| {
      ScanRender(ws, k + 1);
      var w := ws[k];
      FieldOf(w.value, w.width, w.sep, Render(ws, k + 1), Layout[k].lo, Layout[k].hi,
              Layout[k].separator);
    }
  }

  /** The fields of the text of `t` whose fraction is written as the `w` digits of
      `fraction`, in order. */
  function Fields(t: Timestamp, fraction: nat, w: nat): seq<Written>
    requires Valid(t)
  {
    [Written(t.year, 4, '-'), Written(t.month, 2, '-'), Written(t.day, 2, 'T'),
     Written(t.hour, 2, ':'), Written(t.minute, 2, ':'), Written(t.second, 2, '.'),
     Written(fraction, w, 'Z')]
  }

  /** Padding a fraction of `w <= 6` digits scales it by ten to the `6 - w`. */
  lemma {:induction false} MicrosecondsScale(value: nat, w: nat)
    requires w <= 6
    ensures Microseconds(value, w) == value * Pow10(6 - w)
    decreases 6 - w
  {
    if w < 6 {
      MicrosecondsScale(value, w + 1);
      assert Pow10(6 - w) == 10 * Pow10(6 - (w + 1));
    }
  }

  lemma FieldsFit(t: Timestamp, fraction: nat, w: nat)
    requires Valid(t) && 1 <= w <= 6 && fraction < Pow10(w)
    ensures FitsLayout(Fields(t, fraction, w))
  {
    assert Pow10(2) == 100 && Pow10(4) == 10000;
  }

  lemma FormatRenders(t: Timestamp, ws: seq<Written>)
    requires Valid(t)
    requires ws == [Written(t.year, 4, '-'), Written(t.month, 2, '-'), Written(t.day, 2, 'T'),
                    Written(t.hour, 2, ':'), Written(t.minute, 2, ':'), Written(t.second, 2, '.'),
                    Written(t.micro, 6, 'Z')]
    ensures Format(t) == Render(ws, 0)
  {
    var r6 := Digits(t.micro, 6) + "Z";
    assert Render(ws, 6) == r6;
    var r5 := Digits(t.second, 2) + "." + r6;
    assert Render(ws, 5) == r5;
    var r4 := Digits(t.minute, 2) + ":" + r5;
    assert Render(ws, 4) == r4;
    var r3 := Digits(t.hour, 2) + ":" + r4;
    assert Render(ws, 3) == r3;
    var r2 := Digits(t.day, 2) + "T" + r3;
    assert Render(ws, 2) == r2;
    var r1 := Digits(t.month, 2) + "-" + r2;
    assert Render(ws, 1) == r1;
    assert Render(ws, 0) == Digits(t.year, 4) + "-" + r1;
  }

  /** Text whose fields scan to those of a valid timestamp, with the fraction read
      as its digits padded on the right to six, and nothing left over, parses to
      that timestamp. */
  lemma ParseScanned(text: string, t: Timestamp, fs: seq<Scanned>)
    requires Valid(t)
    requires Scan(text, Layout, 0) == Some(fs)
    requires |fs| == 7 && fs[6].rest == []
    requires fs[0].value == t.year && fs[1].value == t.month && fs[2].value == t.day
    requires fs[3].value == t.hour && fs[4].value == t.minute && fs[5].value == t.second
    requires Microseconds(fs[6].value, fs[6].width) == t.micro
    ensures Parse(text) == Some(t)
  {
  }

  /** Text written with one to six fraction digits, such as
      "2006-09-06T19:44:37.808Z", parses to the timestamp it denotes: the fraction
      is padded on the right, so ".808" is 808000 microseconds. */
  lemma ParseShortFraction(t: Timestamp, fraction: nat, w: nat)
    requires Valid(t) && 1 <= w <= 6 && fraction < Pow10(w)
    requires fraction * Pow10(6 - w) == t.micro
    ensures Parse(Render(Fields(t, fraction, w), 0)) == Some(t)
  {
    var ws := Fields(t, fraction, w);
    FieldsFit(t, fraction, w);
    ScanRender(ws, 0);
    MicrosecondsScale(fraction, w);
    ParseScanned(Render(ws, 0), t, Scanneds(ws, 0));
  }

  /** Every valid timestamp survives formatting and parsing unchanged. */
  lemma ParseFormat(t: Timestamp)
    requires Valid(t)
    ensures Parse(Format(t)) == Some(t)
  {
    assert Pow10(6) == 1000000 && Pow10(0) == 1;
    FormatRenders(t, Fields(t, t.micro, 6));
    ParseShortFraction(t, t.micro, 6);
  }
}
