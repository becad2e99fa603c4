/** Build numbers from calendar versions: a date key, a legacy floor and a lane floor. */
module SparkleBuild {
  import opened Options
  import opened Text

  datatype Floors = Floors(dateKey: nat, legacyFloor: nat, laneFloor: nat, lane: nat)

  /** A version that matches the calendar-version pattern, with its suffix. */
  datatype CalVer = CalVer(year: nat, month: nat, day: nat, suffix: string)

  /** How many digits s has from position i on, without a break. */
  function DigitRun(s: string, i: nat): (n: nat)
    requires i <= |s|
    ensures i + n <= |s| && AllDigits(s[i..i + n])
    ensures i + n < |s| ==> !IsDigit(s[i + n])
    decreases |s| - i
  {
    if i < |s| && IsDigit(s[i]) then
      var n := DigitRun(s, i + 1);
      assert s[i..i + 1 + n] == [s[i]] + s[i + 1..i + 1 + n];
      1 + n
    else 0
  }

  /** The characters that `.` does not match. */
  predicate IsLineTerminator(c: char) {
    c == '\n' || c == '\r' || c == '\U{2028}' || c == '\U{2029}'
  }

  predicate IsSuffix(s: string) {
    s == "" || ((s[0] == '.' || s[0] == '-') && forall i :: 0 <= i < |s| ==> !IsLineTerminator(s[i]))
  }

  /**
   The pattern `YYYY.M.D` with an optional suffix.  Each digit group ends where its run of digits ends,
   because the pattern continues with a dot, with a dot or a dash, or with the end of the text.
   */
  function MatchCalVer(s: string): Option<CalVer> {
    var y := DigitRun(s, 0);
    if y != 4 || y == |s| || s[y] != '.' then None
    else
      var m := DigitRun(s, y + 1);
      var mEnd := y + 1 + m;
      if !(1 <= m <= 2) || mEnd == |s| || s[mEnd] != '.' then None
      else
        var d := DigitRun(s, mEnd + 1);
        var dEnd := mEnd + 1 + d;
        if !(1 <= d <= 2) || !IsSuffix(s[dEnd..]) then None
        else Some(CalVer(NumberOf(s[0..y]), NumberOf(s[y + 1..mEnd]), NumberOf(s[mEnd + 1..dEnd]), s[dEnd..]))
  }

  /** `String(n).padStart(2, "0")`. */
  function Pad2(n: nat): string {
    if |Numeral(n)| == 1 then "0" + Numeral(n) else Numeral(n)
  }

  /** The digits that end s, the `([0-9]+)$` of the suffix pattern. */
  function TrailingDigits(s: string): (r: string)
    ensures AllDigits(r)
  {
    if s != "" && IsDigit(s[|s| - 1]) then TrailingDigits(s[..|s| - 1]) + [s[|s| - 1]] else ""
  }

  function Lane(suffix: string): nat {
    if suffix == "" then 90
    else if TrailingDigits(suffix) != "" then Min(NumberOf(TrailingDigits(suffix)), 89)
    else 1
  }

  predicate ValidDate(v: CalVer) {
    1 <= v.month <= 12 && 1 <= v.day <= 31
  }

  lemma PadIsDigits(n: nat)
    ensures AllDigits(Pad2(n))
  {
  }

  /** The date key is read off a string of digits, as are the floors. */
  function DateKey(v: CalVer): nat {
    PadIsDigits(v.month);
    PadIsDigits(v.day);
    NumberOf(Numeral(v.year) + Pad2(v.month) + Pad2(v.day))
  }

  method SparkleBuildFloorsFromShortVersion(shortVersion: string) returns (r: Option<Floors>)
    ensures r == FloorsOf(shortVersion)
  {
    hide MatchCalVer, Trim, NumberOf, Numeral, Pad2, DateKey, TrailingDigits;
    var matched := MatchCalVer(Trim(shortVersion));
    if matched.None? {
      return None;
    }
    var v := matched.value;
    if v.month < 1 || v.month > 12 || v.day < 1 || v.day > 31 {
      return None;
    }
    var dateKey := DateKey(v);
    var legacyFloor := NumberOf(Numeral(dateKey) + "0");
    var lane := 90;
    if |v.suffix| > 0 {
      var numericSuffix := TrailingDigits(v.suffix);
      if numericSuffix != "" {
        lane := Min(NumberOf(numericSuffix), 89);
      } else {
        lane := 1;
      }
    }
    PadIsDigits(lane);
    var laneFloor := NumberOf(Numeral(dateKey) + Pad2(lane));
    r := Some(Floors(dateKey, legacyFloor, laneFloor, lane));
    FloorsAreArithmetic(v);
  }

  /** What the method computes, in arithmetic. */
  function FloorsOf(shortVersion: string): Option<Floors> {
    var m := MatchCalVer(Trim(shortVersion));
    if m.None? || !ValidDate(m.value) then None
    else
      var v := m.value;
      var dateKey := v.year * 10000 + v.month * 100 + v.day;
      Some(Floors(dateKey, dateKey * 10, dateKey * 100 + Lane(v.suffix), Lane(v.suffix)))
  }

  function CanonicalSparkleBuild(shortVersion: string): Option<nat> {
    var f := FloorsOf(shortVersion);
    if f.None? then None else Some(f.value.laneFloor)
  }

  // ---------------------------------------------------------------- strings of digits are arithmetic

  function Pow10(n: nat): nat {
    if n == 0 then 1 else 10 * Pow10(n - 1)
  }

  lemma {:induction false} NumberOfConcat(a: string, b: string)
    requires AllDigits(a) && AllDigits(b)
    ensures AllDigits(a + b)
    ensures NumberOf(a + b) == NumberOf(a) * Pow10(|b|) + NumberOf(b)
    decreases |b|
  {
    hide NumberOf;
    if b == "" {
      assert a + b == a;
      NoDigits();
    } else {
      var init := b[..|b| - 1];
      NumberOfConcat(a, init);
      var last := DigitValue(b[|b| - 1]);
      assert b == init + [Digit(last)] && a + b == a + init + [Digit(last)];
      NumberOfSnoc(init, last);
      NumberOfSnoc(a + init, last);
      TenTimes(NumberOf(a), Pow10(|init|));
    }
  }

  lemma NoDigits()
    ensures NumberOf("") == 0
  {
  }

  lemma TenTimes(x: int, y: int)
    ensures 10 * (x * y) == x * (10 * y)
  {
  }

  lemma Pad2Value(n: nat)
    requires n < 100
    ensures AllDigits(Pad2(n)) && |Pad2(n)| == 2 && NumberOf(Pad2(n)) == n
  {
    NumberOfNumeral(n);
    if n >= 10 {
      assert Numeral(n) == Numeral(n / 10) + [Digit(n % 10)];
      assert |Numeral(n / 10)| == 1;
    } else {
      NumberOfSnoc("", 0);
      NumberOfSnoc("0", n);
      assert "" + [Digit(0)] == "0" && "0" + Numeral(n) == "0" + [Digit(n)];
    }
  }

  lemma TwoDigitsMore(n: nat, m: nat)
    requires m < 100
    ensures AllDigits(Numeral(n) + Pad2(m)) && NumberOf(Numeral(n) + Pad2(m)) == n * 100 + m
  {
    NumberOfNumeral(n);
    Pad2Value(m);
    NumberOfConcat(Numeral(n), Pad2(m));
    Hundred();
  }

  lemma LaneIsSmall(suffix: string)
    ensures Lane(suffix) <= 90
    ensures Lane(suffix) == 90 <==> suffix == ""
  {
  }

  lemma OneZeroMore(n: nat)
    ensures NumberOf(Numeral(n) + "0") == n * 10
  {
    NumberOfNumeral(n);
    NumberOfSnoc(Numeral(n), 0);
    assert Numeral(n) + [Digit(0)] == Numeral(n) + "0";
  }

  lemma DateKeyIsArithmetic(v: CalVer)
    requires ValidDate(v)
    ensures DateKey(v) == v.year * 10000 + v.month * 100 + v.day
  {
    hide NumberOf, Numeral, Pad2, Pow10;
    TwoDigitsMore(v.year, v.month);
    Pad2Value(v.day);
    NumberOfConcat(Numeral(v.year) + Pad2(v.month), Pad2(v.day));
    Hundred();
  }

  lemma Hundred()
    ensures Pow10(1) == 10 && Pow10(2) == 100 && Pow10(3) == 1000 && Pow10(4) == 10000
  {
    assert Pow10(1) == 10;
  }

  lemma FloorsAreArithmetic(v: CalVer)
    requires ValidDate(v)
    ensures DateKey(v) == v.year * 10000 + v.month * 100 + v.day
    ensures NumberOf(Numeral(DateKey(v)) + "0") == DateKey(v) * 10
    ensures AllDigits(Numeral(DateKey(v)) + Pad2(Lane(v.suffix)))
    ensures NumberOf(Numeral(DateKey(v)) + Pad2(Lane(v.suffix))) == DateKey(v) * 100 + Lane(v.suffix)
  {
    hide NumberOf, Numeral, Pad2, DateKey, Lane;
    DateKeyIsArithmetic(v);
    OneZeroMore(DateKey(v));
    LaneIsSmall(v.suffix);
    TwoDigitsMore(DateKey(v), Lane(v.suffix));
  }

  // ---------------------------------------------------------------- what the pattern matches

  lemma {:induction false} RunLength(s: string, i: nat, n: nat)
    requires i + n <= |s| && AllDigits(s[i..i + n]) && (i + n < |s| ==> !IsDigit(s[i + n]))
    ensures DigitRun(s, i) == n
    decreases n
  {
    if n > 0 {
      assert s[i] == s[i..i + n][0];
      assert s[i + 1..i + n] == s[i..i + n][1..];
      RunLength(s, i + 1, n - 1);
    }
  }

  /** The text is a year of four digits, a month and a day of one or two, and nothing or a dotted or dashed rest. */
  ghost predicate Spells(s: string, v: CalVer, y: string, m: string, d: string) {
    && AllDigits(y) && AllDigits(m) && AllDigits(d) && |y| == 4 && 1 <= |m| <= 2 && 1 <= |d| <= 2
    && s == y + "." + m + "." + d + v.suffix
    && (v.suffix == "" || v.suffix[0] == '.' || v.suffix[0] == '-')
    && '\n' !in v.suffix && '\r' !in v.suffix && '\U{2028}' !in v.suffix && '\U{2029}' !in v.suffix
    && v.year == NumberOf(y) && v.month == NumberOf(m) && v.day == NumberOf(d)
  }

  lemma SuffixExactly(s: string)
    ensures IsSuffix(s)
        <==> && (s == "" || s[0] == '.' || s[0] == '-')
             && '\n' !in s && '\r' !in s && '\U{2028}' !in s && '\U{2029}' !in s
  {
  }

  lemma SpelledMatches(s: string, v: CalVer, y: string, m: string, d: string)
    requires Spells(s, v, y, m, d)
    ensures MatchCalVer(s) == Some(v)
  {
    hide NumberOf, AllDigits, IsSuffix, DigitRun, MatchCalVer;
    SuffixExactly(v.suffix);
    Pieces(s, y, m, d, v.suffix);
    var mEnd := 5 + |m|;
    RunLength(s, 0, 4);
    RunLength(s, 5, |m|);
    RunLength(s, mEnd + 1, |d|);
    MatchOfRuns(s, |m|, |d|);
  }

  /** The match in terms of its runs of digits. */
  lemma MatchOfRuns(s: string, n: nat, k: nat)
    requires 1 <= n <= 2 && 1 <= k <= 2 && 6 + n + k <= |s|
    requires DigitRun(s, 0) == 4 && s[4] == '.' && DigitRun(s, 5) == n && s[5 + n] == '.' && DigitRun(s, 6 + n) == k
    requires IsSuffix(s[6 + n + k..])
    ensures MatchCalVer(s)
         == Some(CalVer(NumberOf(s[0..4]), NumberOf(s[5..5 + n]), NumberOf(s[6 + n..6 + n + k]), s[6 + n + k..]))
  {
    hide NumberOf, IsSuffix, AllDigits, DigitRun;
  }

  lemma Pieces(s: string, y: string, m: string, d: string, suffix: string)
    requires |y| == 4 && s == y + "." + m + "." + d + suffix
    ensures var mEnd, dEnd := 5 + |m|, 6 + |m| + |d|;
            && |s| == dEnd + |suffix|
            && s[0..4] == y && s[5..mEnd] == m && s[mEnd + 1..dEnd] == d && s[dEnd..] == suffix
            && s[4] == '.' && s[mEnd] == '.' && (suffix != "" ==> s[dEnd] == suffix[0])
  {
  }

  lemma MatchIsSpelled(s: string) returns (y: string, m: string, d: string)
    requires MatchCalVer(s).Some?
    ensures Spells(s, MatchCalVer(s).value, y, m, d)
  {
    hide NumberOf, AllDigits, IsSuffix, DigitRun;
    var n, k := RunsOfMatch(s);
    var mEnd, dEnd := 5 + n, 6 + n + k;
    y, m, d := s[0..4], s[5..mEnd], s[mEnd + 1..dEnd];
    Glue(s, n, k);
    SuffixExactly(s[dEnd..]);
  }

  lemma RunsOfMatch(s: string) returns (n: nat, k: nat)
    requires MatchCalVer(s).Some?
    ensures 1 <= n <= 2 && 1 <= k <= 2 && 6 + n + k <= |s| && s[4] == '.' && s[5 + n] == '.'
    ensures AllDigits(s[0..4]) && AllDigits(s[5..5 + n]) && AllDigits(s[6 + n..6 + n + k]) && IsSuffix(s[6 + n + k..])
    ensures MatchCalVer(s)
         == Some(CalVer(NumberOf(s[0..4]), NumberOf(s[5..5 + n]), NumberOf(s[6 + n..6 + n + k]), s[6 + n + k..]))
  {
    hide NumberOf, IsSuffix, AllDigits;
    n := DigitRun(s, 5);
    k := DigitRun(s, 6 + n);
  }

  lemma Glue(s: string, n: nat, k: nat)
    requires 6 + n + k <= |s| && s[4] == '.' && s[5 + n] == '.'
    ensures s == s[0..4] + "." + s[5..5 + n] + "." + s[6 + n..6 + n + k] + s[6 + n + k..]
  {
  }

  /** The pattern, both ways: exactly the texts it spells match, with the numbers in their places. */
  lemma MatchExactly(s: string, v: CalVer)
    ensures MatchCalVer(s) == Some(v) <==> exists y, m, d :: Spells(s, v, y, m, d)
  {
    hide MatchCalVer;
    if MatchCalVer(s) == Some(v) {
      var y, m, d := MatchIsSpelled(s);
    }
    if y, m, d :| Spells(s, v, y, m, d) {
      SpelledMatches(s, v, y, m, d);
    }
  }

  lemma {:induction false} TrailingDigitsExactly(a: string, d: string)
    requires AllDigits(d) && (a != "" ==> !IsDigit(a[|a| - 1]))
    ensures TrailingDigits(a + d) == d
    decreases |d|
  {
    if d == "" {
      assert a + d == a;
    } else {
      var n := |d| - 1;
      TrailingDigitsExactly(a, d[..n]);
      assert (a + d)[..|a + d| - 1] == a + d[..n];
      assert d == d[..n] + [d[n]];
    }
  }

  /** The lane: 90 without a suffix, the number that ends the suffix, at most 89, or 1 when none does. */
  lemma LaneExactly(a: string, d: string)
    requires AllDigits(d) && (a != "" ==> !IsDigit(a[|a| - 1]))
    ensures Lane("") == 90
    ensures d != "" && NumberOf(d) <= 89 ==> Lane(a + d) == NumberOf(d)
    ensures d != "" && NumberOf(d) > 89 ==> Lane(a + d) == 89
    ensures d == "" && a != "" ==> Lane(a + d) == 1
  {
    TrailingDigitsExactly(a, d);
  }

  /** The version text, without the white space around it, spells a possible date. */
  ghost predicate Dated(shortVersion: string, v: CalVer) {
    && (exists y, m, d :: Spells(Trim(shortVersion), v, y, m, d))
    && 1 <= v.month <= 12 && 1 <= v.day <= 31
  }

  /** The floors, for every version text: there are some exactly for a dated one, and each number is given. */
  lemma FloorsExactly(shortVersion: string, v: CalVer)
    ensures FloorsOf(shortVersion).Some? <==> exists v: CalVer :: Dated(shortVersion, v)
    ensures Dated(shortVersion, v) ==>
              var f := FloorsOf(shortVersion);
              && f.Some?
              && f.value.dateKey == v.year * 10_000 + v.month * 100 + v.day
              && f.value.legacyFloor == f.value.dateKey * 10
              && f.value.lane == Lane(v.suffix) && f.value.laneFloor == f.value.dateKey * 100 + f.value.lane
  {
    hide MatchCalVer, Spells, Trim, Lane;
    var text := Trim(shortVersion);
    MatchExactly(text, v);
    if MatchCalVer(text).Some? {
      MatchExactly(text, MatchCalVer(text).value);
      assert ValidDate(MatchCalVer(text).value) ==> Dated(shortVersion, MatchCalVer(text).value);
    }
    if w: CalVer :| Dated(shortVersion, w) {
      MatchExactly(text, w);
    }
  }

  // ---------------------------------------------------------------- laws

  ghost predicate Earlier(a: CalVer, b: CalVer) {
    a.year < b.year || (a.year == b.year && (a.month < b.month || (a.month == b.month && a.day < b.day)))
  }

  ghost predicate SameDay(a: CalVer, b: CalVer) {
    a.year == b.year && a.month == b.month && a.day == b.day
  }

  ghost function Parsed(shortVersion: string): CalVer
    requires FloorsOf(shortVersion).Some?
  {
    MatchCalVer(Trim(shortVersion)).value
  }

  /**
   The canonical build number orders versions: it is smaller exactly when the date is earlier, whatever the
   suffixes, or the date is the same and the lane is lower; and an unsuffixed release has the highest
   lane of its date, which no suffixed one reaches.
   */
  lemma BuildOrder(a: string, b: string)
    requires FloorsOf(a).Some? && FloorsOf(b).Some?
    ensures var fa, fb := FloorsOf(a).value, FloorsOf(b).value;
            && (fa.dateKey < fb.dateKey <==> Earlier(Parsed(a), Parsed(b)))
            && (fa.dateKey == fb.dateKey <==> SameDay(Parsed(a), Parsed(b)))
            && CanonicalSparkleBuild(a).Some? && CanonicalSparkleBuild(b).Some?
            && (CanonicalSparkleBuild(a).value < CanonicalSparkleBuild(b).value <==>
                Earlier(Parsed(a), Parsed(b)) || (SameDay(Parsed(a), Parsed(b)) && fa.lane < fb.lane))
            && (Parsed(b).suffix == "" && Parsed(a).suffix != "" ==> fa.lane < fb.lane)
  {
    LaneIsSmall(Parsed(a).suffix);
    LaneIsSmall(Parsed(b).suffix);
  }

  lemma {:induction false} NumberBound(s: string)
    requires AllDigits(s)
    ensures NumberOf(s) < Pow10(|s|)
    decreases |s|
  {
    if s != "" {
      NumberBound(s[..|s| - 1]);
    }
  }

  lemma YearHasFourDigits(shortVersion: string)
    requires FloorsOf(shortVersion).Some?
    ensures Parsed(shortVersion).year < 10000
  {
    var s := Trim(shortVersion);
    NumberBound(s[0..4]);
    Hundred();
  }

  const LANE_BUILD_MIN := 1_000_000_000

  /** Legacy floors stay below the lane minimum; lane floors reach it exactly from the year 1000 on. */
  lemma LaneMinimumSeparates(shortVersion: string)
    requires FloorsOf(shortVersion).Some?
    ensures var f := FloorsOf(shortVersion).value;
            && f.legacyFloor < LANE_BUILD_MIN
            && (f.laneFloor >= LANE_BUILD_MIN <==> Parsed(shortVersion).year >= 1000)
  {
    YearHasFourDigits(shortVersion);
    LaneIsSmall(Parsed(shortVersion).suffix);
  }
}
