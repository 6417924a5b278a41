/** The RFC 3339 timestamp of the build scripts, and the parser and string order it is read with. */
module Timestamps {
  import opened Basics
  import opened Calendar

  // ---------------------------------------------------------------------------------------------
  // Zero-padded decimals
  // ---------------------------------------------------------------------------------------------

  /** `{n:0w}`: at least `w` decimal digits, more when `n` needs them. */
  function Pad(n: nat, w: nat): string
    decreases n + w
  {
    if n == 0 && w == 0 then ""
    else Pad(n / 10, if w == 0 then 0 else w - 1) + [Digit(n % 10)]
  }

  /** `{y:04}` of a signed number: the sign counts toward the width. */
  function PadYear(y: i32): string {
    if y >= 0 then Pad(y as nat, 4) else "-" + Pad(-(y as int), 3)
  }

  predicate IsDigits(s: string) {
    forall i :: 0 <= i < |s| ==> '0' <= s[i] <= '9'
  }

  function Number(s: string): nat
    requires IsDigits(s)
  {
    if s == "" then 0 else Number(s[..|s| - 1]) * 10 + (s[|s| - 1] - '0') as nat
  }

  function Pow10(w: nat): nat {
    if w == 0 then 1 else 10 * Pow10(w - 1)
  }

  lemma {:induction false} NumberOfPad(n: nat, w: nat)
    ensures IsDigits(Pad(n, w)) && Number(Pad(n, w)) == n
    ensures n < Pow10(w) ==> |Pad(n, w)| == w
    decreases n + w
  {
    if n != 0 || w != 0 {
      var rest := Pad(n / 10, if w == 0 then 0 else w - 1);
      NumberOfPad(n / 10, if w == 0 then 0 else w - 1);
      assert Pad(n, w)[..|Pad(n, w)| - 1] == rest;
    }
  }

  /** A year is printed in at least four characters, its sign among them, and reads back. */
  lemma PadYearReads(y: i32)
    ensures y >= 0 ==> IsDigits(PadYear(y)) && Number(PadYear(y)) == y as int
    ensures y < 0 ==> PadYear(y)[..1] == "-" && IsDigits(PadYear(y)[1..]) && Number(PadYear(y)[1..]) == -(y as int)
    ensures -999 <= y <= 9999 ==> |PadYear(y)| == 4
  {
    assert Pow10(4) == 10_000 && Pow10(3) == 1000 by {
      assert Pow10(2) == 100;
    }
    if y >= 0 {
      NumberOfPad(y as int, 4);
    } else {
      NumberOfPad(-(y as int), 3);
      assert PadYear(y)[1..] == Pad(-(y as int), 3);
    }
  }

  // ---------------------------------------------------------------------------------------------
  // The order of padded numbers
  // ---------------------------------------------------------------------------------------------

  lemma LexSnoc(a: string, b: string, x: char, y: char)
    requires |a| == |b|
    ensures LexLess(a + [x], b + [y]) <==> LexLess(a, b) || (a == b && x < y)
    ensures a + [x] == b + [y] <==> a == b && x == y
  {
    LexConcat(a, b, [x], [y]);
    assert a == (a + [x])[..|a|] && b == (b + [y])[..|b|];
    assert (a + [x])[|a|] == x && (b + [y])[|b|] == y;
  }

  /** Padded to one width, numbers and their strings have the same order. */
  lemma {:induction false} PadOrder(n: nat, m: nat, w: nat)
    requires n < Pow10(w) && m < Pow10(w)
    ensures |Pad(n, w)| == |Pad(m, w)| == w
    ensures LexLess(Pad(n, w), Pad(m, w)) <==> n < m
    ensures Pad(n, w) == Pad(m, w) <==> n == m
  {
    if w > 0 {
      PadOrder(n / 10, m / 10, w - 1);
      LexSnoc(Pad(n / 10, w - 1), Pad(m / 10, w - 1), Digit(n % 10), Digit(m % 10));
    }
  }

  lemma FieldOrder(n: nat, m: nat, w: nat, sep: string, x: string, y: string)
    requires n < Pow10(w) && m < Pow10(w)
    ensures LexLess(Pad(n, w) + (sep + x), Pad(m, w) + (sep + y)) <==> n < m || (n == m && LexLess(x, y))
  {
    PadOrder(n, m, w);
    LexConcat(Pad(n, w), Pad(m, w), sep + x, sep + y);
    LexConcat(sep, sep, x, y);
    LexIrreflexive(sep);
  }

  // ---------------------------------------------------------------------------------------------
  // Formatting and parsing
  // ---------------------------------------------------------------------------------------------

  function Clock(rem: nat): string {
    Pad(rem / 3600, 2) + (":" + (Pad(rem % 3600 / 60, 2) + (":" + (Pad(rem % 60, 2) + "Z"))))
  }

  /** Everything after the year. */
  function AfterYear(m: nat, d: nat, rem: nat): string {
    "-" + (Pad(m, 2) + ("-" + (Pad(d, 2) + ("T" + Clock(rem)))))
  }

  function FormatUnixSecs(secs: u64): string {
    var days, rem := secs / 86_400, secs % 86_400;
    var (y, m, d) := DaysToYmd(days as i64);
    PadYear(y) + AfterYear(m as nat, d as nat, rem as nat)
  }

  function Field(s: string, from: nat, to: nat): Option<nat>
    requires from <= to <= |s|
  {
    if IsDigits(s[from..to]) then Some(Number(s[from..to])) else None
  }

  /** A date-time of section 5.6 of RFC 3339 with offset `Z` and no fraction, as Unix seconds. */
  function ParseDateTime(s: string): (r: Option<int>)
  {
    if |s| != 20 || s[4] != '-' || s[7] != '-' || s[10] != 'T' || s[13] != ':' || s[16] != ':' || s[19] != 'Z' then None
    else
      match (Field(s, 0, 4), Field(s, 5, 7), Field(s, 8, 10), Field(s, 11, 13), Field(s, 14, 16), Field(s, 17, 19))
      case (Some(y), Some(m), Some(d), Some(hh), Some(mm), Some(ss)) =>
        if ValidDate(Date(y, m, d)) && hh < 24 && mm < 60 && ss < 60
        then Some(DayNumber(Date(y, m, d)) * 86_400 + hh * 3600 + mm * 60 + ss)
        else None
      case _ => None
  }

  /** 9999-12-31T23:59:59Z. */
  const LAST_SECOND: int := 253_402_300_799

  lemma Powers()
    ensures Pow10(2) == 100 && Pow10(4) == 10_000
  {
    assert Pow10(1) == 10 && Pow10(3) == 10 * Pow10(2);
  }

  /** Until the end of year 9999 the conversion yields a four-digit year and the exact date. */
  /** Up to year 2147483647 the stamp is the date with that day count, the year in as many digits as it needs. */
  lemma StampDate(secs: u64) returns (t: Date)
    requires secs as int / 86_400 <= MAX_DAY
    ensures ValidDate(t) && 0 <= t.year && DayNumber(t) == secs as int / 86_400
    ensures secs as int <= LAST_SECOND ==> t.year <= 9999
    ensures FormatUnixSecs(secs) == Pad(t.year, 4) + AfterYear(t.month, t.day, secs as int % 86_400)
  {
    var days := (secs / 86_400) as i64;
    var (y, m, d) := DaysToYmd(days);
    t := Date(y as int, m as int, d as int);
    YmdExactly(days);
    DayNumberMonotone(t, EPOCH);
    MonthTable(9999, 12);
    assert DayNumber(Date(9999, 12, 31)) == 2_932_896;
    DayNumberMonotone(Date(9999, 12, 31), t);
    assert secs as int <= LAST_SECOND ==> secs as int / 86_400 <= 2_932_896;
  }

  /** A decimal field of fixed width. */
  ghost predicate IsField(s: string, n: nat, w: nat) {
    |s| == w && IsDigits(s) && Number(s) == n
  }

  lemma PadIsField(n: nat, w: nat)
    requires n < Pow10(w)
    ensures IsField(Pad(n, w), n, w)
  {
    NumberOfPad(n, w);
  }

  /** Six fields joined by their separators. */
  function Joined(y: string, m: string, d: string, hh: string, mm: string, ss: string): string {
    y + ("-" + (m + ("-" + (d + ("T" + (hh + (":" + (mm + (":" + (ss + "Z"))))))))))
  }

  lemma JoinedSlices(y: string, m: string, d: string, hh: string, mm: string, ss: string, s: string)
    requires |y| == 4 && |m| == |d| == |hh| == |mm| == |ss| == 2
    requires s == Joined(y, m, d, hh, mm, ss)
    ensures |s| == 20 && s[4] == '-' && s[7] == '-' && s[10] == 'T' && s[13] == ':' && s[16] == ':' && s[19] == 'Z'
    ensures s[0..4] == y && s[5..7] == m && s[8..10] == d && s[11..13] == hh && s[14..16] == mm && s[17..19] == ss
  {
    assert s == y + "-" + m + "-" + d + "T" + hh + ":" + mm + ":" + ss + "Z";
  }

  lemma ParseJoined(y: string, m: string, d: string, hh: string, mm: string, ss: string, t: Date, n: nat, rem: nat)
    requires ValidDate(t) && t.year >= 0 && DayNumber(t) == n / 86_400 && rem == n % 86_400
    requires IsField(y, t.year, 4) && IsField(m, t.month, 2) && IsField(d, t.day, 2)
    requires IsField(hh, rem / 3600, 2) && IsField(mm, rem % 3600 / 60, 2) && IsField(ss, rem % 60, 2)
    ensures ParseDateTime(Joined(y, m, d, hh, mm, ss)) == Some(n)
  {
    JoinedSlices(y, m, d, hh, mm, ss, Joined(y, m, d, hh, mm, ss));
    ClockDigits(rem);
  }

  lemma ParseStamp(t: Date, n: nat, s: string)
    requires ValidDate(t) && 0 <= t.year <= 9999 && DayNumber(t) == n / 86_400
    requires s == Pad(t.year, 4) + AfterYear(t.month, t.day, n % 86_400)
    ensures ParseDateTime(s) == Some(n)
  {
    Powers();
    var rem := n % 86_400;
    PadIsField(t.year, 4);
    PadIsField(t.month, 2);
    PadIsField(t.day, 2);
    PadIsField(rem / 3600, 2);
    PadIsField(rem % 3600 / 60, 2);
    PadIsField(rem % 60, 2);
    ParseJoined(Pad(t.year, 4), Pad(t.month, 2), Pad(t.day, 2),
                Pad(rem / 3600, 2), Pad(rem % 3600 / 60, 2), Pad(rem % 60, 2), t, n, rem);
  }

  /** No date-time with a four-digit year denotes a second after the end of year 9999. */
  lemma ParsedIsSmall(s: string)
    ensures ParseDateTime(s).Some? ==> ParseDateTime(s).value <= LAST_SECOND
  {
    if ParseDateTime(s).Some? {
      var t := Date(Number(s[0..4]), Number(s[5..7]), Number(s[8..10]));
      NumberIsShort(s[0..4]);
      Powers();
      MonthTable(9999, 12);
      assert DayNumber(Date(9999, 12, 31)) == 2_932_896;
      DayNumberMonotone(Date(9999, 12, 31), t);
    }
  }

  lemma {:induction false} NumberIsShort(s: string)
    requires IsDigits(s)
    ensures Number(s) < Pow10(|s|)
  {
    if s != "" {
      NumberIsShort(s[..|s| - 1]);
    }
  }

  lemma EarlyStampParses(secs: u64)
    requires secs as int <= LAST_SECOND
    ensures ParseDateTime(FormatUnixSecs(secs)) == Some(secs as int)
  {
    var t := StampDate(secs);
    ParseStamp(t, secs as int, FormatUnixSecs(secs));
  }

  /** Parsing the timestamp recovers the seconds exactly when they fall before year 10000. */
  lemma StampRoundTrip(secs: u64)
    ensures ParseDateTime(FormatUnixSecs(secs)) == Some(secs as int) <==> secs as int <= LAST_SECOND
  {
    if secs as int <= LAST_SECOND {
      EarlyStampParses(secs);
    } else {
      ParsedIsSmall(FormatUnixSecs(secs));
    }
  }

  lemma ClockOrder(a: nat, b: nat)
    requires a < 86_400 && b < 86_400
    ensures LexLess(Clock(a), Clock(b)) <==> a < b
  {
    Powers();
    LexIrreflexive("Z");
    FieldOrder(a % 60, b % 60, 2, "Z", "", "");
    assert "Z" + "" == "Z";
    FieldOrder(a % 3600 / 60, b % 3600 / 60, 2, ":", Pad(a % 60, 2) + "Z", Pad(b % 60, 2) + "Z");
    FieldOrder(a / 3600, b / 3600, 2, ":",
               Pad(a % 3600 / 60, 2) + (":" + (Pad(a % 60, 2) + "Z")),
               Pad(b % 3600 / 60, 2) + (":" + (Pad(b % 60, 2) + "Z")));
    ClockDigits(a);
    ClockDigits(b);
  }

  lemma ClockDigits(a: nat)
    ensures a == a / 3600 * 3600 + a % 3600 / 60 * 60 + a % 60 && a % 3600 / 60 < 60
  {
    var q, r := a / 3600, a % 3600;
    Quotient(a, 60, 60 * q + r / 60);
  }

  lemma DateOrder(s: Date, t: Date, a: nat, b: nat)
    requires ValidDate(s) && ValidDate(t) && 0 <= s.year <= 9999 && 0 <= t.year <= 9999
    requires a < 86_400 && b < 86_400
    ensures LexLess(Pad(s.year, 4) + AfterYear(s.month, s.day, a), Pad(t.year, 4) + AfterYear(t.month, t.day, b))
            <==> Before(s, t) || (s == t && a < b)
  {
    Powers();
    ClockOrder(a, b);
    FieldOrder(s.day, t.day, 2, "T", Clock(a), Clock(b));
    FieldOrder(s.month, t.month, 2, "-", Pad(s.day, 2) + ("T" + Clock(a)), Pad(t.day, 2) + ("T" + Clock(b)));
    FieldOrder(s.year, t.year, 4, "-",
               Pad(s.month, 2) + ("-" + (Pad(s.day, 2) + ("T" + Clock(a)))),
               Pad(t.month, 2) + ("-" + (Pad(t.day, 2) + ("T" + Clock(b)))));
  }

  /** Up to the end of year 9999, string order is chronological order. */
  lemma StampOrder(a: u64, b: u64)
    requires a as int <= LAST_SECOND && b as int <= LAST_SECOND
    ensures LexLess(FormatUnixSecs(a), FormatUnixSecs(b)) <==> a < b
  {
    var s := StampDate(a);
    var t := StampDate(b);
    DateOrder(s, t, a as int % 86_400, b as int % 86_400);
    DayNumberMonotone(s, t);
    DayNumberMonotone(t, s);
  }

  lemma LateStamp(secs: u64)
    requires secs as int == LAST_SECOND + 1
    ensures FormatUnixSecs(secs) != "" && FormatUnixSecs(secs)[0] == '1'
  {
    assert secs / 86_400 == 2_932_897;
    assert DayNumber(Date(10_000, 1, 1)) == 2_932_897;
    CivilInverts(Date(10_000, 1, 1), 2_932_897);
    AsI32Exactly(CivilFromDays(2_932_897).0);
    Leading(1, 0);
    Leading(10, 1);
    Leading(100, 2);
    Leading(1000, 3);
    Leading(10_000, 4);
  }

  lemma LastStamp(secs: u64)
    requires secs as int == LAST_SECOND
    ensures FormatUnixSecs(secs) != "" && FormatUnixSecs(secs)[0] == '9'
  {
    var t := StampDate(secs);
    YearNines(t);
    PadNines();
  }

  lemma YearNines(t: Date)
    requires ValidDate(t) && t.year <= 9999 && DayNumber(t) == 2_932_896
    ensures t.year == 9999
  {
    DayNumberMonotone(t, Date(9999, 1, 1));
  }

  lemma PadNines()
    ensures Pad(9999, 4) != "" && Pad(9999, 4)[0] == '9'
  {
    Leading(9, 1);
    Leading(99, 2);
    Leading(999, 3);
    Leading(9999, 4);
  }

  /** The first character of a padded number is that of the number without its last digit. */
  lemma Leading(n: nat, w: nat)
    requires n > 0
    ensures Pad(n, w) != ""
    ensures Pad(n, w)[0] == if n < 10 && w <= 1 then Digit(n) else (Pad(n / 10, if w == 0 then 0 else w - 1) + "0")[0]
  {
  }

  /** One second past year 9999 does not sort after the last second of it. */
  lemma OrderBreaks(last: u64)
    requires last as int == LAST_SECOND
    ensures !LexLess(FormatUnixSecs(last), FormatUnixSecs(last + 1))
  {
    LastStamp(last);
    LateStamp(last + 1);
  }

  /** String order is chronological on all timestamps up to a bound exactly when the bound lies
      before year 10000. */
  lemma StampOrderExactly(bound: u64)
    ensures (forall a: u64, b: u64 :: a <= bound && b <= bound ==>
                                        (LexLess(FormatUnixSecs(a), FormatUnixSecs(b)) <==> a < b))
            <==> bound as int <= LAST_SECOND
  {
    if bound as int <= LAST_SECOND {
      forall a: u64, b: u64 | a <= bound && b <= bound
        ensures LexLess(FormatUnixSecs(a), FormatUnixSecs(b)) <==> a < b
      {
        StampOrder(a, b);
      }
    } else {
      var last := LAST_SECOND as u64;
      OrderBreaks(last);
      assert last < last + 1 <= bound;
    }
  }
}
