/** Weekday naming, opening-hours strings and the enumeration of slot start
    times within one opening period (index.ts, generateTimeSlotsForCourt). */
module Clock {
  import opened Maybe
  import Decimal

  /** The schedule keys, starting from Monday. */
  const WeekdayNames: seq<string> :=
    ["Monday", "Tuesday", "Wednesday", "Thursday", "Friday", "Saturday", "Sunday"]

  /** The host's day of the week, `Date.getDay()`: 0 is Sunday. */
  type JsDay = d: int | 0 <= d < 7

  /** The schedule key of a host weekday: Sunday (0) is the last entry and
      day k in 1..6 is the k-th entry counted from Monday. */
  function WeekdayName(d: JsDay): (r: string)
    ensures r in WeekdayNames
  {
    WeekdayNames[if d == 0 then 6 else d - 1]
  }

  /** The host weekday a schedule key stands for; absent for any string that
      is not one of the seven names. */
  function JsDayOf(name: string): (r: Option<JsDay>)
    ensures r.Some? <==> name in WeekdayNames
  {
    if name == "Sunday" then Some(0)
    else if name == "Monday" then Some(1)
    else if name == "Tuesday" then Some(2)
    else if name == "Wednesday" then Some(3)
    else if name == "Thursday" then Some(4)
    else if name == "Friday" then Some(5)
    else if name == "Saturday" then Some(6)
    else None
  }

  /** The mapping is a bijection between host weekdays and schedule keys. */
  lemma WeekdayRoundTrip(d: JsDay, name: string)
    ensures JsDayOf(WeekdayName(d)) == Some(d)
    ensures name in WeekdayNames ==> WeekdayName(JsDayOf(name).value) == name
  {
  }

  /** `getDay()` 0 is Sunday, the last key; 1 to 6 are Monday to Saturday. */
  lemma SundayIsLast()
    ensures WeekdayName(0) == "Sunday"
    ensures WeekdayName(1) == "Monday" && WeekdayName(2) == "Tuesday" && WeekdayName(3) == "Wednesday"
    ensures WeekdayName(4) == "Thursday" && WeekdayName(5) == "Friday" && WeekdayName(6) == "Saturday"
  {
  }

  /** Position of the first `c` in `s`, or `|s|`. */
  function IndexOf(s: string, c: char): (i: nat)
    ensures i <= |s|
    ensures i < |s| ==> s[i] == c
    ensures forall j :: 0 <= j < i ==> s[j] != c
  {
    if s == [] then 0
    else if s[0] == c then 0
    else 1 + IndexOf(s[1..], c)
  }

  /** Minutes of the day denoted by an `"HH:mm"` string: the first two
      `':'`-separated parts, read as numbers. Absent when there is no `':'`
      or a part is not made of digits; those inputs make the source compute
      `NaN`, which admits no slot. */
  function ParseClock(s: string): (r: Option<nat>)
    ensures r.Some? ==> IndexOf(s, ':') < |s|
  {
    var i := IndexOf(s, ':');
    if i == |s| then None
    else
      var rest := s[i + 1..];
      ClockParts(s[..i], rest[..IndexOf(rest, ':')])
  }

  /** The minutes of an hours part and a minutes part, when both are digit
      strings. */
  function ClockParts(hours: string, minutes: string): Option<nat> {
    if Decimal.AllDigits(hours) && Decimal.AllDigits(minutes)
    then Some(Decimal.Value(hours) * 60 + Decimal.Value(minutes))
    else None
  }

  /** The first `c` of `a + b` is the one starting `b` when `a` holds none. */
  lemma {:induction false} IndexOfAfter(a: string, b: string, c: char)
    requires forall i :: 0 <= i < |a| ==> a[i] != c
    requires b == [] || b[0] == c
    ensures IndexOf(a + b, c) == |a|
  {
    if a != [] {
      assert (a + b)[1..] == a[1..] + b;
      IndexOfAfter(a[1..], b, c);
    }
  }

  /** ParseClock in terms of the positions of the separators. */
  lemma ParseClockAt(s: string, h: string, m: string, i: nat, after: string, j: nat)
    requires i == IndexOf(s, ':') && i < |s| && s[..i] == h
    requires after == s[i + 1..] && j == IndexOf(after, ':') && after[..j] == m
    ensures ParseClock(s) == ClockParts(h, m)
  {
  }

  /** How any string with a `':'` is read: `h` before the first `':'` and
      `m` up to the next `':'` or the end, whatever follows. It reads as
      `h` hours and `m` minutes exactly when both parts are digit strings,
      either possibly empty (`Number("")` is 0). */
  lemma ParseClockParts(h: string, m: string, tail: string)
    requires forall i :: 0 <= i < |h| ==> h[i] != ':'
    requires forall i :: 0 <= i < |m| ==> m[i] != ':'
    requires tail == [] || tail[0] == ':'
    ensures ParseClock(h + ":" + m + tail) ==
              if Decimal.AllDigits(h) && Decimal.AllDigits(m)
              then Some(Decimal.Value(h) * 60 + Decimal.Value(m))
              else None
  {
    ParseClockSplit(h, m, tail);
    ClockPartsValue(h, m);
  }

  /** The separators of `h + ":" + m + tail` cut out `h` and `m`. */
  lemma ParseClockSplit(h: string, m: string, tail: string)
    requires forall i :: 0 <= i < |h| ==> h[i] != ':'
    requires forall i :: 0 <= i < |m| ==> m[i] != ':'
    requires tail == [] || tail[0] == ':'
    ensures ParseClock(h + ":" + m + tail) == ClockParts(h, m)
  {
    var rest := m + tail;
    var s := h + ([':'] + rest);
    assert h + ":" + m + tail == s;
    IndexOfAfter(h, [':'] + rest, ':');
    IndexOfAfter(m, tail, ':');
    var i := IndexOf(s, ':');
    assert i == |h| && s[..i] == h;
    var after := s[i + 1..];
    assert after == rest;
    var j := IndexOf(after, ':');
    assert j == |m| && after[..j] == m;
    ParseClockAt(s, h, m, i, after, j);
  }

  /** `ClockParts` spelled out. */
  lemma ClockPartsValue(h: string, m: string)
    ensures ClockParts(h, m) == if Decimal.AllDigits(h) && Decimal.AllDigits(m)
                                then Some(Decimal.Value(h) * 60 + Decimal.Value(m))
                                else None
  {
  }

  /** `"8:0"` reads as 08:00, as `Number("8")` and `Number("0")` do. */
  lemma ParseClockOneDigit()
    ensures ParseClock("8:0") == Some(480)
  {
    assert Decimal.Value("8") == 8 && Decimal.Value("0") == 0;
    assert "8" + ":" + "0" + "" == "8:0";
    ParseClockParts("8", "0", "");
  }

  /** `"08:"` reads as 08:00: an empty minute part is `Number("")`, 0. */
  lemma ParseClockEmptyMinutes()
    ensures ParseClock("08:") == Some(480)
  {
    assert Decimal.Value("08") == 8 by { assert "08"[..1] == "0"; }
    assert "08" + ":" + "" + "" == "08:";
    ParseClockParts("08", "", "");
  }

  /** `"08:00:30"` reads as 08:00: parts after the second are ignored. */
  lemma ParseClockIgnoresSeconds()
    ensures ParseClock("08:00:30") == Some(480)
  {
    assert Decimal.Value("08") == 8 by { assert "08"[..1] == "0"; }
    assert Decimal.Value("00") == 0 by { assert "00"[..1] == "0"; }
    assert "08" + ":" + "00" + ":30" == "08:00:30";
    ParseClockParts("08", "00", ":30");
  }

  /** `"8h:30"` does not read: `Number("8h")` is `NaN`. */
  lemma ParseClockRejectsLetters()
    ensures ParseClock("8h:30") == None
  {
    assert "8h" + ":" + "30" + "" == "8h:30";
    ParseClockParts("8h", "30", "");
    assert !Decimal.AllDigits("8h") by { assert !Decimal.IsDigit("8h"[1]); }
  }

  /** `"08:00"` reads as minute 480. */
  lemma ParseClockEight()
    ensures ParseClock("08:00") == Some(480)
  {
    assert Decimal.Value("08") == 8 by { assert "08"[..1] == "0"; }
    assert Decimal.Value("00") == 0 by { assert "00"[..1] == "0"; }
    assert "08" + ":" + "00" + "" == "08:00";
    ParseClockParts("08", "00", "");
  }

  /** `"12:00"` reads as minute 720. */
  lemma ParseClockNoon()
    ensures ParseClock("12:00") == Some(720)
  {
    assert Decimal.Value("12") == 12 by { assert "12"[..1] == "1"; }
    assert Decimal.Value("00") == 0 by { assert "00"[..1] == "0"; }
    assert "12" + ":" + "00" + "" == "12:00";
    ParseClockParts("12", "00", "");
  }

  function TwoDigits(n: nat): (r: string)
    requires n < 100
    ensures |r| == 2 && Decimal.AllDigits(r)
  {
    [Decimal.DigitChar(n / 10), Decimal.DigitChar(n % 10)]
  }

  /** The canonical `"HH:mm"` rendering of a minute of the day. */
  function FormatClock(m: nat): (r: string)
    requires m < 24 * 60
    ensures |r| == 5 && r[2] == ':'
  {
    TwoDigits(m / 60) + ":" + TwoDigits(m % 60)
  }

  lemma TwoDigitsValue(n: nat)
    requires n < 100
    ensures Decimal.Value(TwoDigits(n)) == n
  {
    var r := TwoDigits(n);
    assert r[..1][..0] == [];
    assert r[..1] == [Decimal.DigitChar(n / 10)];
    assert r[0] as int - '0' as int == n / 10;
    assert r[1] as int - '0' as int == n % 10;
    assert Decimal.Value(r[..1]) == n / 10;
    assert r[..|r| - 1] == r[..1];
  }

  /** Parsing the canonical rendering gives the minute back. */
  lemma {:induction false} ClockRoundTrip(m: nat)
    requires m < 24 * 60
    ensures ParseClock(FormatClock(m)) == Some(m)
  {
    var s := FormatClock(m);
    assert IndexOf(s, ':') == 2 by {
      assert s[0] != ':' && s[1] != ':';
      assert IndexOf(s[2..], ':') == 0;
      assert IndexOf(s[1..], ':') == 1 by { assert s[1..][1..] == s[2..]; }
    }
    assert s[..2] == TwoDigits(m / 60);
    var rest := s[3..];
    assert rest == TwoDigits(m % 60);
    assert IndexOf(rest, ':') == 2 by {
      assert rest[1..][1..] == [];
    }
    assert rest[..2] == rest;
    TwoDigitsValue(m / 60);
    TwoDigitsValue(m % 60);
  }

  /** Start minutes of the fixed-length slots of one opening period:
      `for (t = open; t + duration <= close; t += duration)`. The starts are
      `open`, `open + duration`, ..., every slot ends by closing time, and
      one more slot would not. */
  function SlotOffsets(open: nat, close: nat, duration: nat): (r: seq<nat>)
    requires duration > 0
    ensures forall i :: 0 <= i < |r| ==> r[i] == open + i * duration
    ensures forall i :: 0 <= i < |r| ==> r[i] + duration <= close
    ensures open + |r| * duration + duration > close
    decreases close - open
  {
    if open + duration <= close then
      var rest := SlotOffsets(open + duration, close, duration);
      MulStep(|rest| + 1, duration);
      forall i | 1 <= i < |rest| + 1 ensures rest[i - 1] == open + i * duration {
        MulStep(i, duration);
      }
      [open] + rest
    else
      []
  }

  lemma MulStep(i: int, d: int)
    ensures (i - 1) * d + d == i * d
  {
  }

  lemma MulMono(a: int, b: int, d: nat)
    requires a <= b
    ensures a * d <= b * d
  {
    assert b * d - a * d == (b - a) * d;
  }

  /** Floor division is the unique quotient. */
  lemma DivUnique(n: int, d: nat, q: int, rem: int)
    requires 0 <= rem < d && n == q * d + rem
    ensures n / d == q
  {
    var q', r' := n / d, n % d;
    assert n == q' * d + r';
    if q' < q {
      MulMono(q', q - 1, d);
      MulStep(q, d);
    } else if q < q' {
      MulMono(q, q' - 1, d);
      MulStep(q', d);
    }
  }

  /** The number of slots is max(0, floor((close - open) / duration)). */
  lemma SlotCount(open: nat, close: nat, duration: nat)
    requires duration > 0
    ensures |SlotOffsets(open, close, duration)| ==
              if open <= close then (close - open) / duration else 0
  {
    var r := SlotOffsets(open, close, duration);
    if |r| > 0 {
      assert r[|r| - 1] + duration <= close;
      MulStep(|r|, duration);
      DivUnique(close - open, duration, |r|, close - open - |r| * duration);
    } else if open <= close {
      DivUnique(close - open, duration, 0, close - open);
    }
  }

  /** Consecutive slots are back to back: each ends where the next starts,
      so no two overlap. */
  lemma SlotsAreBackToBack(open: nat, close: nat, duration: nat)
    requires duration > 0
    ensures var r := SlotOffsets(open, close, duration);
            forall i :: 0 <= i < |r| - 1 ==> r[i] + duration == r[i + 1]
  {
    var r := SlotOffsets(open, close, duration);
    forall i | 0 <= i < |r| - 1 ensures r[i] + duration == r[i + 1] {
      MulStep(i + 1, duration);
    }
  }

  /** 08:00 to 12:00 in 60-minute games gives the starts 08, 09, 10, 11. */
  lemma MorningExample()
    ensures SlotOffsets(8 * 60, 12 * 60, 60) == [480, 540, 600, 660]
  {
    var r := SlotOffsets(8 * 60, 12 * 60, 60);
    assert |r| == 4;
  }
}
