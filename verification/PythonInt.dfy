/** Python's `int` on text, the decimal text of a number, and hexadecimal text. */
module PythonInt {
  import opened Wrappers

  predicate IsDigit(c: char) {
    '0' <= c <= '9'
  }

  /** Digits with single underscores between them, as Python's `int` reads them. */
  function ParseDigits(s: string): Option<nat> {
    if s == [] || !IsDigit(s[|s| - 1]) then None
    else
      var d := s[|s| - 1] as nat - '0' as nat;
      if |s| == 1 then Some(d)
      else
        var front := ParseDigits(if s[|s| - 2] == '_' then s[..|s| - 2] else s[..|s| - 1]);
        if front.Some? then Some(10 * front.value + d) else None
  }

  function ParseInt(s: string): Option<int> {
    if s != [] && s[0] in "+-" then
      var n := ParseDigits(s[1..]);
      if n.None? then None
      else
        var v: int := n.value;
        Some(if s[0] == '-' then -v else v)
    else
      var n := ParseDigits(s);
      if n.None? then None else Some(n.value)
  }

  predicate AllDigits(s: string) {
    s != [] && forall i :: 0 <= i < |s| ==> IsDigit(s[i])
  }

  function Power(b: nat, e: nat): nat {
    if e == 0 then 1 else b * Power(b, e - 1)
  }

  lemma OneDigit(n: nat)
    requires n < 10
    ensures ParseDigits(["0123456789"[n]]) == Some(n)
  {
  }

  lemma {:induction false} DigitsRead(s: string)
    requires AllDigits(s)
    ensures ParseDigits(s).Some?
  {
    if |s| > 1 {
      DigitsRead(s[..|s| - 1]);
    }
  }

  lemma DigitStep(s: string, c: char)
    requires AllDigits(s) && IsDigit(c)
    ensures ParseDigits(s).Some?
    ensures ParseDigits(s + [c]) == Some(10 * ParseDigits(s).value + (c as nat - '0' as nat))
  {
    DigitsRead(s);
    assert (s + [c])[..|s|] == s;
  }

  /** What stands further left counts ten times as much for every digit behind it. */
  lemma {:induction false} DigitsAppend(a: string, b: string)
    requires AllDigits(a) && AllDigits(b)
    ensures ParseDigits(a).Some? && ParseDigits(b).Some?
    ensures ParseDigits(a + b) == Some(ParseDigits(a).value * Power(10, |b|) + ParseDigits(b).value)
    decreases |b|
  {
    var init, c := b[..|b| - 1], b[|b| - 1];
    assert a + b == (a + init) + [c] && b == init + [c];
    if init == [] {
      DigitStep(a, c);
      assert a + init == a && Power(10, 1) == 10;
    } else {
      DigitsAppend(a, init);
      DigitStep(a + init, c);
      DigitStep(init, c);
      Distribute(ParseDigits(a).value, Power(10, |init|), ParseDigits(init).value);
    }
  }

  lemma Distribute(x: nat, p: nat, y: nat)
    ensures 10 * (x * p + y) == x * (10 * p) + 10 * y
    ensures 16 * (x * p + y) == x * (16 * p) + 16 * y
  {
  }

  /** An underscore between digits does not count. */
  lemma {:induction false} UnderscoreIsIgnored(a: string, b: string)
    requires ParseDigits(a).Some? && AllDigits(b)
    ensures ParseDigits(a + ("_" + b)) == ParseDigits(a + b)
    decreases |b|
  {
    var s, t, init := a + ("_" + b), a + b, b[..|b| - 1];
    assert t[..|t| - 1] == a + init && s[..|s| - 1] == a + ("_" + init);
    if init == [] {
      assert s[..|s| - 2] == a && s[|s| - 2] == '_' && a + init == a;
      assert a[|a| - 1] != '_';
    } else {
      assert s[|s| - 2] == t[|t| - 2] == init[|init| - 1];
      UnderscoreIsIgnored(a, init);
    }
  }

  /** Digits, with single underscores inside, are what reads; nothing else does. */
  lemma {:induction false} DigitsReadIff(s: string)
    ensures ParseDigits(s).Some? <==>
            && s != [] && IsDigit(s[0]) && IsDigit(s[|s| - 1])
            && (forall i :: 0 <= i < |s| ==> IsDigit(s[i]) || s[i] == '_')
            && (forall i :: 0 < i < |s| ==> s[i - 1] != '_' || s[i] != '_')
    decreases |s|
  {
    if |s| > 1 && IsDigit(s[|s| - 1]) {
      var t := if s[|s| - 2] == '_' then s[..|s| - 2] else s[..|s| - 1];
      DigitsReadIff(t);
      assert forall i :: 0 <= i < |t| ==> t[i] == s[i];
    }
  }

  /** One sign may stand in front. */
  lemma SignIs(sign: char, s: string)
    requires sign == '+' || sign == '-'
    ensures match ParseDigits(s)
            case None => ParseInt([sign] + s) == None
            case Some(n) => ParseInt([sign] + s) == Some(if sign == '-' then 0 - n else n)
  {
    var t := [sign] + s;
    assert t[0] == sign && t[1..] == s;
  }

  lemma NoSignIs(s: string)
    requires s == [] || s[0] !in "+-"
    ensures match ParseDigits(s)
            case None => ParseInt(s) == None
            case Some(n) => ParseInt(s) == Some(n)
  {
  }

  function ShowNat(n: nat): (s: string)
    ensures s != [] && forall i :: 0 <= i < |s| ==> IsDigit(s[i])
    ensures s[0] == '0' ==> n == 0 && |s| == 1
  {
    var last := ['0' + (n % 10) as char];
    if n < 10 then last else ShowNat(n / 10) + last
  }

  function ShowInt(n: int): (s: string)
    ensures s != [] && (s[0] == '-' <==> n < 0)
  {
    if n < 0 then "-" + ShowNat(-n) else ShowNat(n)
  }

  lemma {:induction false} ParseShowNat(n: nat)
    ensures ParseDigits(ShowNat(n)) == Some(n)
  {
    if n >= 10 {
      ParseShowNat(n / 10);
      var s := ShowNat(n);
      assert s[..|s| - 1] == ShowNat(n / 10);
    }
  }

  lemma ParseShow(n: int)
    ensures ParseInt(ShowInt(n)) == Some(n)
  {
    if n < 0 {
      ParseShowNat(-n);
      assert ShowInt(n)[1..] == ShowNat(-n);
    } else {
      ParseShowNat(n);
    }
  }

  // ---------------------------------------------------------------- hexadecimal

  function HexDigit(n: nat): char
    requires n < 16
  {
    if n < 10 then '0' + n as char else 'a' + (n - 10) as char
  }

  function HexDigitValue(c: char): Option<nat> {
    if IsDigit(c) then Some(c as nat - '0' as nat)
    else if 'a' <= c <= 'f' then Some(c as nat - 'a' as nat + 10)
    else None
  }

  /** Hexadecimal digits, no more than needed. */
  function ShowHex(n: nat): (s: string)
    ensures s != [] && (s[0] == '0' ==> n == 0 && |s| == 1)
  {
    if n < 16 then [HexDigit(n)] else ShowHex(n / 16) + [HexDigit(n % 16)]
  }

  /** The number that lower-case hexadecimal digits denote. */
  function ReadHex(s: string): Option<nat> {
    if s == [] then Some(0)
    else
      var front, d := ReadHex(s[..|s| - 1]), HexDigitValue(s[|s| - 1]);
      if front.Some? && d.Some? then Some(16 * front.value + d.value) else None
  }

  lemma OneHexDigit(n: nat)
    requires n < 16
    ensures ReadHex(["0123456789abcdef"[n]]) == Some(n) && HexDigit(n) == "0123456789abcdef"[n]
  {
    assert ["0123456789abcdef"[n]][..0] == [];
  }

  lemma {:induction false} HexAppend(a: string, b: string)
    requires ReadHex(a).Some? && ReadHex(b).Some?
    ensures ReadHex(a + b) == Some(ReadHex(a).value * Power(16, |b|) + ReadHex(b).value)
    decreases |b|
  {
    if b == [] {
      assert a + b == a;
    } else {
      var init := b[..|b| - 1];
      assert (a + b)[..|a + b| - 1] == a + init;
      HexAppend(a, init);
      Distribute(ReadHex(a).value, Power(16, |init|), ReadHex(init).value);
    }
  }

  lemma {:induction false} ReadShowHex(n: nat)
    ensures ReadHex(ShowHex(n)) == Some(n)
  {
    var s := ShowHex(n);
    assert s[..|s| - 1] == if n < 16 then [] else ShowHex(n / 16);
    if n >= 16 {
      ReadShowHex(n / 16);
    }
  }

  function Zeros(w: int): (s: string)
    ensures |s| == if w < 0 then 0 else w
  {
    if w <= 0 then [] else "0" + Zeros(w - 1)
  }

  lemma {:induction false} LeadingZeros(w: int, s: string)
    ensures ReadHex(Zeros(w) + s) == ReadHex(s)
    decreases |s|, w
  {
    if s != [] {
      assert (Zeros(w) + s)[..|Zeros(w) + s| - 1] == Zeros(w) + s[..|s| - 1];
      LeadingZeros(w, s[..|s| - 1]);
    } else {
      assert Zeros(w) + s == Zeros(w);
      ZerosAreZero(w);
    }
  }

  lemma {:induction false} ZerosAreZero(w: int)
    ensures ReadHex(Zeros(w)) == Some(0)
    decreases w
  {
    if w > 0 {
      ZerosAreZero(w - 1);
      ZerosTail(w);
    }
  }

  lemma {:induction false} ZerosTail(w: int)
    requires w > 0
    ensures Zeros(w)[..w - 1] == Zeros(w - 1) && Zeros(w)[w - 1] == '0'
    decreases w
  {
    if w > 1 {
      ZerosTail(w - 1);
      assert Zeros(w) == "0" + Zeros(w - 1);
      assert Zeros(w)[..w - 1] == "0" + Zeros(w - 1)[..w - 2];
    }
  }

  /** `format(n, '#0<width>x')`: the prefix counts for the width. */
  function FormatHex(n: nat, width: nat): (s: string)
    ensures |s| >= width && |s| == if 2 + |ShowHex(n)| > width then 2 + |ShowHex(n)| else width
  {
    "0x" + (Zeros(width - 2 - |ShowHex(n)|) + ShowHex(n))
  }

  /** The number that a formatted text stands for. */
  function ParseHex(s: string): (r: Option<nat>)
    ensures r.Some? ==> |s| > 2 && s[..2] == "0x"
  {
    if |s| > 2 && s[..2] == "0x" then ReadHex(s[2..]) else None
  }

  lemma ParseFormatHex(n: nat, width: nat)
    ensures ParseHex(FormatHex(n, width)) == Some(n)
  {
    ReadShowHex(n);
    LeadingZeros(width - 2 - |ShowHex(n)|, ShowHex(n));
    var s := FormatHex(n, width);
    assert s[2..] == Zeros(width - 2 - |ShowHex(n)|) + ShowHex(n);
  }
}
