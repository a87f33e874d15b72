/**
  The text form of a request's time stamp, `%Y-%m-%d %H:%M:%S.%fZ`: fixed width, so that the
  order of texts is the order of times.
 */
module Timestamps {
  import opened Wrappers
  import opened Lexicographic
  import opened PythonInt

  datatype Time = Time(year: nat, month: nat, day: nat, hour: nat, minute: nat, second: nat, micro: nat)

  predicate IsLeap(year: nat) {
    year % 4 == 0 && (year % 100 != 0 || year % 400 == 0)
  }

  function DaysIn(year: nat, month: nat): nat {
    if month == 2 then (if IsLeap(year) then 29 else 28)
    else if month in {4, 6, 9, 11} then 30 else 31
  }

  /** A `datetime` with a four-digit year. */
  predicate IsTime(t: Time) {
    && 1000 <= t.year <= 9999 && 1 <= t.month <= 12 && 1 <= t.day <= DaysIn(t.year, t.month)
    && t.hour < 24 && t.minute < 60 && t.second < 60 && t.micro < 1000000
  }

  /** Every fourth year is a leap year, of the full centuries every fourth one. */
  lemma LeapIs(century: nat, year: nat)
    requires year < 100
    ensures IsLeap(100 * century + year) <==> if year == 0 then century % 4 == 0 else year % 4 == 0
  {
    var y := 100 * century + year;
    Remainders(y, 25 * century + year / 4, year % 4, century, year, century / 4, 100 * (century % 4) + year);
  }

  lemma Remainders(y: nat, a: nat, r: nat, b: nat, s: nat, c: nat, t: nat)
    requires y == 4 * a + r == 100 * b + s == 400 * c + t && r < 4 && s < 100 && t < 400
    ensures y % 4 == r && y % 100 == s && y % 400 == t
  {
  }

  lemma IsTimeIff(t: Time)
    ensures IsTime(t) <==>
            && 1000 <= t.year < 10000 && 0 < t.month < 13
            && 0 < t.day <= [31, if IsLeap(t.year) then 29 else 28, 31, 30, 31, 30, 31, 31, 30, 31, 30, 31][t.month - 1]
            && t.hour <= 23 && t.minute <= 59 && t.second <= 59 && t.micro <= 999999
  {
  }

  /** Chronological order. */
  predicate Earlier(a: Time, b: Time) {
    a.year < b.year || (a.year == b.year && (
    a.month < b.month || (a.month == b.month && (
    a.day < b.day || (a.day == b.day && (
    a.hour < b.hour || (a.hour == b.hour && (
    a.minute < b.minute || (a.minute == b.minute && (
    a.second < b.second || (a.second == b.second && a.micro < b.micro)))))))))))
  }

  function Pow10(w: nat): (p: nat)
    ensures p > 0
  {
    if w == 0 then 1 else 10 * Pow10(w - 1)
  }

  function Digit(d: nat): char
    requires d < 10
  {
    '0' + d as char
  }

  /** `n` in exactly `w` decimal digits. */
  function Pad(n: nat, w: nat): (s: string)
    requires n < Pow10(w)
    ensures |s| == w
  {
    if w == 0 then [] else Pad(n / 10, w - 1) + [Digit(n % 10)]
  }

  function Format(t: Time): (s: string)
    requires IsTime(t)
    ensures |s| == 27
  {
    assert Pow10(2) == 100 && Pow10(4) == 10000 && Pow10(6) == 1000000 by { SmallPowers(); }
    Pad(t.year, 4) + ("-" + (Pad(t.month, 2) + ("-" + (Pad(t.day, 2) + (" " + (Pad(t.hour, 2) + (":" +
      (Pad(t.minute, 2) + (":" + (Pad(t.second, 2) + ("." + (Pad(t.micro, 6) + "Z"))))))))))))
  }

  lemma SmallPowers()
    ensures Pow10(2) == 100 && Pow10(4) == 10000 && Pow10(6) == 1000000
  {
  }

  // ---------------------------------------------------------------- order

  /** Texts that begin with equally long parts compare by those parts first. */
  lemma {:induction false} LessByParts(a: string, b: string, x: string, y: string)
    requires |a| == |b|
    ensures Less(a + x, b + y) <==> Less(a, b) || (a == b && Less(x, y))
  {
    if a == [] {
      assert a + x == x && b + y == y;
    } else {
      assert (a + x)[1..] == a[1..] + x && (b + y)[1..] == b[1..] + y;
      LessByParts(a[1..], b[1..], x, y);
      assert a == [a[0]] + a[1..] && b == [b[0]] + b[1..];
    }
  }

  lemma {:induction false} PadOrder(m: nat, n: nat, w: nat)
    requires m < Pow10(w) && n < Pow10(w)
    ensures Less(Pad(m, w), Pad(n, w)) <==> m < n
    ensures Pad(m, w) == Pad(n, w) <==> m == n
  {
    if w > 0 {
      PadOrder(m / 10, n / 10, w - 1);
      LessByParts(Pad(m / 10, w - 1), Pad(n / 10, w - 1), [Digit(m % 10)], [Digit(n % 10)]);
      assert Pad(m, w)[..w - 1] == Pad(m / 10, w - 1) && Pad(n, w)[..w - 1] == Pad(n / 10, w - 1);
      assert Pad(m, w)[w - 1] == Digit(m % 10) && Pad(n, w)[w - 1] == Digit(n % 10);
      assert Less([Digit(m % 10)], [Digit(n % 10)]) <==> m % 10 < n % 10;
    }
  }

  /** One padded number, one separator, and the rest. */
  lemma FieldOrder(m: nat, n: nat, w: nat, sep: string, x: string, y: string)
    requires m < Pow10(w) && n < Pow10(w)
    ensures Less(Pad(m, w) + (sep + x), Pad(n, w) + (sep + y)) <==> m < n || (m == n && Less(x, y))
    ensures Pad(m, w) + (sep + x) == Pad(n, w) + (sep + y) <==> m == n && x == y
  {
    PadOrder(m, n, w);
    LessByParts(Pad(m, w), Pad(n, w), sep + x, sep + y);
    LessByParts(sep, sep, x, y);
    LessIrreflexive(sep);
    var s, t := Pad(m, w) + (sep + x), Pad(n, w) + (sep + y);
    assert s[..w] == Pad(m, w) && t[..w] == Pad(n, w);
    assert s[w..][|sep|..] == x && t[w..][|sep|..] == y;
  }

  /** The stamp's text sorts as its time does, and no two times share a text. */
  lemma FormatOrder(a: Time, b: Time)
    requires IsTime(a) && IsTime(b)
    ensures Less(Format(a), Format(b)) <==> Earlier(a, b)
    ensures Format(a) == Format(b) <==> a == b
  {
    SmallPowers();
    LessIrreflexive("");
    var a6, b6 := Pad(a.micro, 6) + ("Z" + ""), Pad(b.micro, 6) + ("Z" + "");
    FieldOrder(a.micro, b.micro, 6, "Z", "", "");
    var a5, b5 := Pad(a.second, 2) + ("." + a6), Pad(b.second, 2) + ("." + b6);
    FieldOrder(a.second, b.second, 2, ".", a6, b6);
    var a4, b4 := Pad(a.minute, 2) + (":" + a5), Pad(b.minute, 2) + (":" + b5);
    FieldOrder(a.minute, b.minute, 2, ":", a5, b5);
    var a3, b3 := Pad(a.hour, 2) + (":" + a4), Pad(b.hour, 2) + (":" + b4);
    FieldOrder(a.hour, b.hour, 2, ":", a4, b4);
    var a2, b2 := Pad(a.day, 2) + (" " + a3), Pad(b.day, 2) + (" " + b3);
    FieldOrder(a.day, b.day, 2, " ", a3, b3);
    var a1, b1 := Pad(a.month, 2) + ("-" + a2), Pad(b.month, 2) + ("-" + b2);
    FieldOrder(a.month, b.month, 2, "-", a2, b2);
    FieldOrder(a.year, b.year, 4, "-", a1, b1);
    assert "Z" + "" == "Z";
    assert Format(a) == Pad(a.year, 4) + ("-" + a1);
    assert Format(b) == Pad(b.year, 4) + ("-" + b1);
  }

  /** Sorting (stamp, unit) pairs as texts is queueing by time, ties by unit name. */
  lemma TicketOrder(a: Time, u: string, b: Time, v: string)
    requires IsTime(a) && IsTime(b)
    ensures Before(Ticket(Format(a), u), Ticket(Format(b), v)) <==> Earlier(a, b) || (a == b && Less(u, v))
  {
    FormatOrder(a, b);
  }

  // ---------------------------------------------------------------- reading a stamp back

  /** The number that a text of digits denotes. */
  function Number(s: string): (r: Option<nat>) {
    if s == [] then Some(0)
    else
      var front := Number(s[..|s| - 1]);
      var c := s[|s| - 1];
      if front.Some? && IsDigit(c) then Some(10 * front.value + (c as nat - '0' as nat)) else None
  }

  lemma {:induction false} NumberOfPad(n: nat, w: nat)
    requires n < Pow10(w)
    ensures Number(Pad(n, w)) == Some(n)
  {
    if w > 0 {
      NumberOfPad(n / 10, w - 1);
      var s := Pad(n, w);
      assert s[..|s| - 1] == Pad(n / 10, w - 1);
    }
  }

  lemma {:induction false} PadOfNumber(s: string)
    requires Number(s).Some?
    ensures Number(s).value < Pow10(|s|)
    ensures Pad(Number(s).value, |s|) == s
  {
    if s != [] {
      PadOfNumber(s[..|s| - 1]);
      assert s == s[..|s| - 1] + [s[|s| - 1]];
    }
  }

  /** Reading a fixed-width stamp: each field a number in range, each separator in place. */
  function Parse(s: string): Option<Time> {
    if |s| == 27 && s[4] == '-' && s[7] == '-' && s[10] == ' ' && s[13] == ':' && s[16] == ':'
       && s[19] == '.' && s[26] == 'Z' then
      var year, month, day := Number(s[..4]), Number(s[5..7]), Number(s[8..10]);
      var hour, minute, second := Number(s[11..13]), Number(s[14..16]), Number(s[17..19]);
      var micro := Number(s[20..26]);
      if year.Some? && month.Some? && day.Some? && hour.Some? && minute.Some? && second.Some? && micro.Some? then
        var t := Time(year.value, month.value, day.value, hour.value, minute.value, second.value, micro.value);
        if IsTime(t) then Some(t) else None
      else None
    else None
  }

  /** Where a field and its separator stand, the text can be cut after them. */
  lemma FieldAt(s: string, i: nat, field: string, sep: string, rest: string)
    requires i <= |s| && |sep| == 1 && s[i..] == field + (sep + rest)
    ensures i + |field| < |s| && s[i..i + |field|] == field && s[i + |field|] == sep[0]
    ensures s[i + |field| + 1..] == rest
  {
  }

  /** The converse: a field, its separator, and the rest make up the text. */
  lemma FieldJoins(s: string, i: nat, w: nat, sep: string)
    requires i + w < |s| && |sep| == 1 && s[i + w] == sep[0]
    ensures s[i..] == s[i..i + w] + (sep + s[i + w + 1..])
  {
  }

  /** A stamp reads back as the time it was made from. */
  lemma ParseFormat(t: Time)
    requires IsTime(t)
    ensures Parse(Format(t)) == Some(t)
  {
    FormatNumbers(t);
  }

  /** What the reader finds in a stamp. */
  lemma FormatNumbers(t: Time)
    requires IsTime(t)
    ensures var s := Format(t);
            && Number(s[..4]) == Some(t.year) && Number(s[5..7]) == Some(t.month) && Number(s[8..10]) == Some(t.day)
            && Number(s[11..13]) == Some(t.hour) && Number(s[14..16]) == Some(t.minute)
            && Number(s[17..19]) == Some(t.second) && Number(s[20..26]) == Some(t.micro)
            && s[4] == '-' && s[7] == '-' && s[10] == ' ' && s[13] == ':' && s[16] == ':' && s[19] == '.'
            && s[26] == 'Z'
  {
    SmallPowers();
    FormatFields(t);
    NumberOfPad(t.year, 4);
    NumberOfPad(t.month, 2);
    NumberOfPad(t.day, 2);
    NumberOfPad(t.hour, 2);
    NumberOfPad(t.minute, 2);
    NumberOfPad(t.second, 2);
    NumberOfPad(t.micro, 6);
  }

  lemma FormatFields(t: Time)
    requires IsTime(t) && Pow10(2) == 100 && Pow10(4) == 10000 && Pow10(6) == 1000000
    ensures var s := Format(t);
            && s[..4] == Pad(t.year, 4) && s[5..7] == Pad(t.month, 2) && s[8..10] == Pad(t.day, 2)
            && s[11..13] == Pad(t.hour, 2) && s[14..16] == Pad(t.minute, 2) && s[17..19] == Pad(t.second, 2)
            && s[20..26] == Pad(t.micro, 6)
            && s[4] == '-' && s[7] == '-' && s[10] == ' ' && s[13] == ':' && s[16] == ':' && s[19] == '.'
            && s[26] == 'Z'
  {
    var s := Format(t);
    assert "Z" + "" == "Z";
    var time := Pad(t.hour, 2) + (":" + (Pad(t.minute, 2) + (":" + (Pad(t.second, 2) + ("." +
                  (Pad(t.micro, 6) + ("Z" + "")))))));
    assert s[0..] == Pad(t.year, 4) + ("-" + (Pad(t.month, 2) + ("-" + (Pad(t.day, 2) + (" " + time)))));
    DateFields(s, Pad(t.year, 4), Pad(t.month, 2), Pad(t.day, 2), time);
    TimeFields(s, Pad(t.hour, 2), Pad(t.minute, 2), Pad(t.second, 2), Pad(t.micro, 6));
  }

  lemma DateFields(s: string, year: string, month: string, day: string, rest: string)
    requires |s| == 27 && |year| == 4 && |month| == |day| == 2
    requires s[0..] == year + ("-" + (month + ("-" + (day + (" " + rest)))))
    ensures s[..4] == year && s[5..7] == month && s[8..10] == day
    ensures s[4] == '-' && s[7] == '-' && s[10] == ' ' && s[11..] == rest
  {
    FieldAt(s, 0, year, "-", month + ("-" + (day + (" " + rest))));
    FieldAt(s, 5, month, "-", day + (" " + rest));
    FieldAt(s, 8, day, " ", rest);
  }

  lemma TimeFields(s: string, hour: string, minute: string, second: string, micro: string)
    requires |s| == 27 && |hour| == |minute| == |second| == 2 && |micro| == 6
    requires s[11..] == hour + (":" + (minute + (":" + (second + ("." + (micro + ("Z" + "")))))))
    ensures s[11..13] == hour && s[14..16] == minute && s[17..19] == second && s[20..26] == micro
    ensures s[13] == ':' && s[16] == ':' && s[19] == '.' && s[26] == 'Z'
  {
    FieldAt(s, 11, hour, ":", minute + (":" + (second + ("." + (micro + ("Z" + ""))))));
    FieldAt(s, 14, minute, ":", second + ("." + (micro + ("Z" + ""))));
    FieldAt(s, 17, second, ".", micro + ("Z" + ""));
    FieldAt(s, 20, micro, "Z", "");
  }

  /** Only stamps read as times. */
  lemma FormatParse(s: string)
    requires Parse(s).Some?
    ensures IsTime(Parse(s).value) && Format(Parse(s).value) == s
  {
    PadOfNumber(s[..4]);
    PadOfNumber(s[5..7]);
    PadOfNumber(s[8..10]);
    PadOfNumber(s[11..13]);
    PadOfNumber(s[14..16]);
    PadOfNumber(s[17..19]);
    PadOfNumber(s[20..26]);
    StampJoins(s);
  }

  lemma StampJoins(s: string)
    requires |s| == 27 && s[4] == '-' && s[7] == '-' && s[10] == ' ' && s[13] == ':' && s[16] == ':'
    requires s[19] == '.' && s[26] == 'Z'
    ensures s == s[..4] + ("-" + (s[5..7] + ("-" + (s[8..10] + (" " + (s[11..13] + (":" +
                 (s[14..16] + (":" + (s[17..19] + ("." + (s[20..26] + "Z"))))))))))))
  {
    var x6 := s[20..26] + "Z";
    assert s[20..] == x6;
    var x5 := s[17..19] + ("." + x6);
    assert s[17..] == x5 by { FieldJoins(s, 17, 2, "."); }
    var x4 := s[14..16] + (":" + x5);
    assert s[14..] == x4 by { FieldJoins(s, 14, 2, ":"); }
    var x3 := s[11..13] + (":" + x4);
    assert s[11..] == x3 by { FieldJoins(s, 11, 2, ":"); }
    var x2 := s[8..10] + (" " + x3);
    assert s[8..] == x2 by { FieldJoins(s, 8, 2, " "); }
    var x1 := s[5..7] + ("-" + x2);
    assert s[5..] == x1 by { FieldJoins(s, 5, 2, "-"); }
    assert s == s[..4] + ("-" + x1) by { FieldJoins(s, 0, 4, "-"); }
  }
}
