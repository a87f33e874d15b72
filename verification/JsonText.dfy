/**
  The text `json.dumps` gives a function call, which is the key of the call's cached result. Two facts
  matter: different calls have different texts, and a call that is handed a plain name has that
  name somewhere in its text.
 */
module JsonText {
  import opened PythonInt
  import opened Wrappers
  import opened Sequences

  /** An argument is `None` or a string. */
  type Argument = Option<string>

  /** Positional arguments, and keyword arguments sorted by name. */
  datatype Call = Call(args: seq<Argument>, kwargs: seq<(string, Argument)>)

  /** `n` in exactly `w` hexadecimal digits. */
  function Hex(n: nat, w: nat): (s: string)
    ensures |s| == w
  {
    if w == 0 then [] else Hex(n / 16, w - 1) + [HexDigit(n % 16)]
  }

  function Unit(n: nat): (s: string)
    ensures |s| == 6 && s[0] == '\\' && s[1] == 'u' && s[2..] == Hex(n, 4)
  {
    "\\u" + Hex(n, 4)
  }

  /** The letter after the backslash of a two-character escape. */
  function Letter(c: char): (r: Option<char>)
    ensures r != Some('u')
  {
    if c == '\"' then Some('\"')
    else if c == '\\' then Some('\\')
    else if c == '\n' then Some('n')
    else if c == '\r' then Some('r')
    else if c == '\t' then Some('t')
    else if c as nat == 0x0c then Some('f')
    else if c as nat == 0x08 then Some('b')
    else None
  }

  predicate Printable(c: char) {
    ' ' <= c <= '~'
  }

  /** The 16-bit units of a character: itself, or its surrogate pair. */
  function High(c: char): (n: nat)
    ensures n < 0x10000
  {
    if c as nat < 0x10000 then c as nat else 0xd800 + (c as nat - 0x10000) / 0x400
  }

  function Low(c: char): (n: nat)
    requires c as nat >= 0x10000
    ensures n < 0x10000
  {
    0xdc00 + (c as nat - 0x10000) % 0x400
  }

  /** One character inside a JSON string, ASCII output. */
  function Escape(c: char): (s: string)
    ensures s != [] && s[0] != '\"'
  {
    if Letter(c).Some? then ['\\', Letter(c).value]
    else if Printable(c) then [c]
    else if c as nat < 0x10000 then Unit(High(c))
    else Unit(High(c)) + Unit(Low(c))
  }

  function EscapeAll(s: string): string {
    if s == [] then [] else Escape(s[0]) + EscapeAll(s[1..])
  }

  function Quote(s: string): string {
    ['\"'] + EscapeAll(s) + ['\"']
  }

  function Value(a: Argument): (s: string)
    ensures |s| >= 2
  {
    if a.None? then "null" else Quote(a.value)
  }

  function ListTail(xs: seq<Argument>): (s: string)
    ensures s != []
  {
    if xs == [] then "]" else ", " + (Value(xs[0]) + ListTail(xs[1..]))
  }

  function List(xs: seq<Argument>): string {
    "[" + if xs == [] then "]" else Value(xs[0]) + ListTail(xs[1..])
  }

  function Pair(p: (string, Argument)): string {
    Quote(p.0) + (": " + Value(p.1))
  }

  function DictTail(ps: seq<(string, Argument)>): (s: string)
    ensures s != []
  {
    if ps == [] then "}" else ", " + (Pair(ps[0]) + DictTail(ps[1..]))
  }

  function Dict(ps: seq<(string, Argument)>): string {
    "{" + if ps == [] then "}" else Pair(ps[0]) + DictTail(ps[1..])
  }

  /** The cache key of calling the function whose `str` is `func`. */
  function Key(func: string, c: Call): string {
    "[" + (Quote(func) + (", " + (List(c.args) + (", " + (Dict(c.kwargs) + "]")))))
  }

  // ---------------------------------------------------------------- different calls, different keys

  lemma HexDigitInjective(m: nat, n: nat)
    requires m < 16 && n < 16
    ensures HexDigit(m) == HexDigit(n) ==> m == n
  {
  }

  function Pow16(w: nat): nat {
    if w == 0 then 1 else 16 * Pow16(w - 1)
  }

  lemma {:induction false} HexInjective(m: nat, n: nat, w: nat)
    requires m < Pow16(w) && n < Pow16(w) && Hex(m, w) == Hex(n, w)
    ensures m == n
  {
    if w > 0 {
      assert Hex(m, w)[..w - 1] == Hex(m / 16, w - 1) && Hex(n, w)[..w - 1] == Hex(n / 16, w - 1);
      assert Hex(m, w)[w - 1] == HexDigit(m % 16) && Hex(n, w)[w - 1] == HexDigit(n % 16);
      HexInjective(m / 16, n / 16, w - 1);
      HexDigitInjective(m % 16, n % 16);
    }
  }

  lemma SameHead(h: string, x: string, y: string)
    requires h + x == h + y
    ensures x == y
  {
    assert x == (h + x)[|h|..] && y == (h + y)[|h|..];
  }

  lemma UnitInjective(m: nat, n: nat, x: string, y: string)
    requires m < 0x10000 && n < 0x10000 && Unit(m) + x == Unit(n) + y
    ensures m == n && x == y
  {
    var s, t := Unit(m) + x, Unit(n) + y;
    assert s[..6] == Unit(m) && t[..6] == Unit(n);
    assert Unit(m)[2..] == Unit(n)[2..];
    assert Pow16(2) == 256;
    assert Pow16(4) == 0x10000;
    HexInjective(m, n, 4);
    SameHead(Unit(m), x, y);
  }

  /** Two characters whose escapes begin with the same unit are both short, or both pairs with that lead. */
  lemma LongInjective(c: char, d: char, x: string, y: string)
    requires Letter(c).None? && !Printable(c) && Letter(d).None? && !Printable(d)
    requires Escape(c) + x == Escape(d) + y
    ensures c == d && x == y
  {
    var cx := if c as nat < 0x10000 then x else Unit(Low(c)) + x;
    var dy := if d as nat < 0x10000 then y else Unit(Low(d)) + y;
    if c as nat >= 0x10000 {
      Regroup(Unit(High(c)), Unit(Low(c)), x);
    }
    if d as nat >= 0x10000 {
      Regroup(Unit(High(d)), Unit(Low(d)), y);
    }
    UnitInjective(High(c), High(d), cx, dy);
    if c as nat >= 0x10000 && d as nat >= 0x10000 {
      UnitInjective(Low(c), Low(d), x, y);
    }
  }

  /** Reading a text that begins with an escaped character gives that character back. */
  lemma EscapeInjective(c: char, d: char, x: string, y: string)
    requires Escape(c) + x == Escape(d) + y
    ensures c == d && x == y
  {
    var s, t := Escape(c) + x, Escape(d) + y;
    assert s[0] == Escape(c)[0] && t[0] == Escape(d)[0];
    if Letter(c).None? && !Printable(c) && Letter(d).None? && !Printable(d) {
      LongInjective(c, d, x, y);
    } else {
      assert |Escape(c)| > 1 ==> s[1] == Escape(c)[1];
      assert |Escape(d)| > 1 ==> t[1] == Escape(d)[1];
      assert c == d;
      SameHead(Escape(c), x, y);
    }
  }

  lemma {:induction false} QuoteBodyInjective(a: string, b: string, x: string, y: string)
    requires EscapeAll(a) + (['\"'] + x) == EscapeAll(b) + (['\"'] + y)
    ensures a == b && x == y
    decreases |a| + |b|
  {
    var s, t := EscapeAll(a) + (['\"'] + x), EscapeAll(b) + (['\"'] + y);
    BodyHead(a, x);
    BodyHead(b, y);
    if a == [] && b == [] {
      SameHead(['\"'], x, y);
    } else if a != [] && b != [] {
      EscapeInjective(a[0], b[0], EscapeAll(a[1..]) + (['\"'] + x), EscapeAll(b[1..]) + (['\"'] + y));
      QuoteBodyInjective(a[1..], b[1..], x, y);
      assert a == [a[0]] + a[1..] && b == [b[0]] + b[1..];
    }
  }

  lemma BodyHead(a: string, x: string)
    ensures a == [] ==> EscapeAll(a) + (['\"'] + x) == ['\"'] + x && (['\"'] + x)[0] == '\"'
    ensures a != [] ==> var s := EscapeAll(a) + (['\"'] + x);
                        s == Escape(a[0]) + (EscapeAll(a[1..]) + (['\"'] + x)) && s[0] != '\"'
  {
  }

  lemma QuoteInjective(a: string, b: string, x: string, y: string)
    requires Quote(a) + x == Quote(b) + y
    ensures a == b && x == y
  {
    QuoteHead(a, x);
    QuoteHead(b, y);
    SameHead(['\"'], EscapeAll(a) + (['\"'] + x), EscapeAll(b) + (['\"'] + y));
    QuoteBodyInjective(a, b, x, y);
  }

  lemma QuoteHead(a: string, x: string)
    ensures Quote(a) + x == ['\"'] + (EscapeAll(a) + (['\"'] + x))
  {
  }

  lemma ValueInjective(a: Argument, b: Argument, x: string, y: string)
    requires Value(a) + x == Value(b) + y
    ensures a == b && x == y
  {
    var s, t := Value(a) + x, Value(b) + y;
    assert s[0] == Value(a)[0] && t[0] == Value(b)[0];
    if a.Some? && b.Some? {
      QuoteInjective(a.value, b.value, x, y);
    } else {
      SameHead("null", x, y);
    }
  }

  lemma ListTailHead(a: seq<Argument>, x: string)
    ensures (ListTail(a) + x)[0] == if a == [] then ']' else ','
    ensures a != [] ==> ListTail(a) + x == ", " + (Value(a[0]) + (ListTail(a[1..]) + x))
  {
  }

  lemma {:induction false} ListTailInjective(a: seq<Argument>, b: seq<Argument>, x: string, y: string)
    requires ListTail(a) + x == ListTail(b) + y
    ensures a == b && x == y
    decreases |a|
  {
    ListTailHead(a, x);
    ListTailHead(b, y);
    if a == [] {
      SameHead("]", x, y);
    } else {
      SameHead(", ", Value(a[0]) + (ListTail(a[1..]) + x), Value(b[0]) + (ListTail(b[1..]) + y));
      ValueInjective(a[0], b[0], ListTail(a[1..]) + x, ListTail(b[1..]) + y);
      ListTailInjective(a[1..], b[1..], x, y);
      assert a == [a[0]] + a[1..] && b == [b[0]] + b[1..];
    }
  }

  /** A list is its first element followed by a tail, behind a bracket; an empty one is a tail alone. */
  lemma ListHead(a: seq<Argument>, x: string)
    ensures a == [] ==> List(a) + x == "[" + ("]" + x)
    ensures a != [] ==> List(a) + x == "[" + (Value(a[0]) + (ListTail(a[1..]) + x))
    ensures (List(a) + x)[1] == ']' <==> a == []
  {
  }

  lemma ListInjective(a: seq<Argument>, b: seq<Argument>, x: string, y: string)
    requires List(a) + x == List(b) + y
    ensures a == b && x == y
  {
    ListHead(a, x);
    ListHead(b, y);
    if a == [] {
      SameHead("[", "]" + x, "]" + y);
      SameHead("]", x, y);
    } else {
      SameHead("[", Value(a[0]) + (ListTail(a[1..]) + x), Value(b[0]) + (ListTail(b[1..]) + y));
      ValueInjective(a[0], b[0], ListTail(a[1..]) + x, ListTail(b[1..]) + y);
      ListTailInjective(a[1..], b[1..], x, y);
      assert a == [a[0]] + a[1..] && b == [b[0]] + b[1..];
    }
  }

  lemma PairInjective(p: (string, Argument), q: (string, Argument), x: string, y: string)
    requires Pair(p) + x == Pair(q) + y
    ensures p == q && x == y
  {
    PairHead(p, x);
    PairHead(q, y);
    QuoteInjective(p.0, q.0, ": " + (Value(p.1) + x), ": " + (Value(q.1) + y));
    SameHead(": ", Value(p.1) + x, Value(q.1) + y);
    ValueInjective(p.1, q.1, x, y);
  }

  lemma PairHead(p: (string, Argument), x: string)
    ensures Pair(p) + x == Quote(p.0) + (": " + (Value(p.1) + x))
    ensures Pair(p)[0] == '\"'
  {
  }

  lemma DictTailHead(a: seq<(string, Argument)>, x: string)
    ensures (DictTail(a) + x)[0] == if a == [] then '}' else ','
    ensures a != [] ==> DictTail(a) + x == ", " + (Pair(a[0]) + (DictTail(a[1..]) + x))
  {
  }

  lemma {:induction false} DictTailInjective(a: seq<(string, Argument)>, b: seq<(string, Argument)>,
                                            x: string, y: string)
    requires DictTail(a) + x == DictTail(b) + y
    ensures a == b && x == y
    decreases |a|
  {
    DictTailHead(a, x);
    DictTailHead(b, y);
    if a == [] {
      SameHead("}", x, y);
    } else {
      SameHead(", ", Pair(a[0]) + (DictTail(a[1..]) + x), Pair(b[0]) + (DictTail(b[1..]) + y));
      PairInjective(a[0], b[0], DictTail(a[1..]) + x, DictTail(b[1..]) + y);
      DictTailInjective(a[1..], b[1..], x, y);
      assert a == [a[0]] + a[1..] && b == [b[0]] + b[1..];
    }
  }

  lemma DictHead(a: seq<(string, Argument)>, x: string)
    ensures a == [] ==> Dict(a) + x == "{" + ("}" + x)
    ensures a != [] ==> Dict(a) + x == "{" + (Pair(a[0]) + (DictTail(a[1..]) + x))
    ensures (Dict(a) + x)[1] == '}' <==> a == []
  {
  }

  lemma DictInjective(a: seq<(string, Argument)>, b: seq<(string, Argument)>, x: string, y: string)
    requires Dict(a) + x == Dict(b) + y
    ensures a == b && x == y
  {
    DictHead(a, x);
    DictHead(b, y);
    if a == [] {
      SameHead("{", "}" + x, "}" + y);
      SameHead("}", x, y);
    } else {
      SameHead("{", Pair(a[0]) + (DictTail(a[1..]) + x), Pair(b[0]) + (DictTail(b[1..]) + y));
      PairInjective(a[0], b[0], DictTail(a[1..]) + x, DictTail(b[1..]) + y);
      DictTailInjective(a[1..], b[1..], x, y);
      assert a == [a[0]] + a[1..] && b == [b[0]] + b[1..];
    }
  }

  /** A cache key belongs to one function and one call only. */
  lemma KeyInjective(f: string, c: Call, g: string, d: Call)
    requires Key(f, c) == Key(g, d)
    ensures f == g && c == d
  {
    var c2, d2 := Dict(c.kwargs) + "]", Dict(d.kwargs) + "]";
    var c1, d1 := List(c.args) + (", " + c2), List(d.args) + (", " + d2);
    SameHead("[", Quote(f) + (", " + c1), Quote(g) + (", " + d1));
    QuoteInjective(f, g, ", " + c1, ", " + d1);
    SameHead(", ", c1, d1);
    ListInjective(c.args, d.args, ", " + c2, ", " + d2);
    SameHead(", ", c2, d2);
    DictInjective(c.kwargs, d.kwargs, "]", "]");
  }

  // ---------------------------------------------------------------- names show in keys

  predicate OccursAt(text: string, i: int, part: string) {
    0 <= i <= |text| - |part| && text[i..i + |part|] == part
  }

  /** Python's `part in text` for strings. */
  ghost predicate Contains(text: string, part: string) {
    exists i :: OccursAt(text, i, part)
  }

  lemma ContainsAfter(a: string, b: string, part: string)
    requires Contains(b, part)
    ensures Contains(a + b, part)
  {
    var i :| OccursAt(b, i, part);
    assert (a + b)[|a| + i..|a| + i + |part|] == b[i..i + |part|];
    assert OccursAt(a + b, |a| + i, part);
  }

  lemma ContainsBefore(a: string, b: string, part: string)
    requires Contains(a, part)
    ensures Contains(a + b, part)
  {
    var i :| OccursAt(a, i, part);
    assert (a + b)[i..i + |part|] == a[i..i + |part|];
    assert OccursAt(a + b, i, part);
  }

  /** Letters, digits and the like: nothing JSON would escape. */
  predicate IsPlain(s: string) {
    forall i :: 0 <= i < |s| ==> ' ' <= s[i] <= '~' && s[i] != '\"' && s[i] != '\\'
  }

  lemma {:induction false} PlainIsItself(s: string)
    requires IsPlain(s)
    ensures EscapeAll(s) == s
  {
    if s != [] {
      PlainIsItself(s[1..]);
      assert s == [s[0]] + s[1..];
    }
  }

  lemma ValueShows(name: string)
    requires IsPlain(name)
    ensures Contains(Value(Some(name)), name)
  {
    PlainIsItself(name);
    assert OccursAt(Value(Some(name)), 1, name);
  }

  lemma {:induction false} ListTailShows(xs: seq<Argument>, name: string)
    requires IsPlain(name) && Some(name) in xs
    ensures Contains(ListTail(xs), name)
  {
    if xs[0] == Some(name) {
      ValueShows(name);
      ContainsBefore(Value(xs[0]), ListTail(xs[1..]), name);
    } else {
      ListTailShows(xs[1..], name);
      ContainsAfter(Value(xs[0]), ListTail(xs[1..]), name);
    }
    ContainsAfter(", ", Value(xs[0]) + ListTail(xs[1..]), name);
  }

  lemma ListShows(xs: seq<Argument>, name: string)
    requires IsPlain(name) && Some(name) in xs
    ensures Contains(List(xs), name)
  {
    if xs[0] == Some(name) {
      ValueShows(name);
      ContainsBefore(Value(xs[0]), ListTail(xs[1..]), name);
    } else {
      ListTailShows(xs[1..], name);
      ContainsAfter(Value(xs[0]), ListTail(xs[1..]), name);
    }
    ContainsAfter("[", Value(xs[0]) + ListTail(xs[1..]), name);
  }

  lemma PairShows(p: (string, Argument), name: string)
    requires IsPlain(name) && p.1 == Some(name)
    ensures Contains(Pair(p), name)
  {
    ValueShows(name);
    ContainsAfter(": ", Value(p.1), name);
    ContainsAfter(Quote(p.0), ": " + Value(p.1), name);
  }

  lemma {:induction false} DictTailShows(ps: seq<(string, Argument)>, i: nat, name: string)
    requires IsPlain(name) && i < |ps| && ps[i].1 == Some(name)
    ensures Contains(DictTail(ps), name)
  {
    if i == 0 {
      PairShows(ps[0], name);
      ContainsBefore(Pair(ps[0]), DictTail(ps[1..]), name);
    } else {
      DictTailShows(ps[1..], i - 1, name);
      ContainsAfter(Pair(ps[0]), DictTail(ps[1..]), name);
    }
    ContainsAfter(", ", Pair(ps[0]) + DictTail(ps[1..]), name);
  }

  lemma DictShows(ps: seq<(string, Argument)>, i: nat, name: string)
    requires IsPlain(name) && i < |ps| && ps[i].1 == Some(name)
    ensures Contains(Dict(ps), name)
  {
    if i == 0 {
      PairShows(ps[0], name);
      ContainsBefore(Pair(ps[0]), DictTail(ps[1..]), name);
    } else {
      DictTailShows(ps[1..], i - 1, name);
      ContainsAfter(Pair(ps[0]), DictTail(ps[1..]), name);
    }
    ContainsAfter("{", Pair(ps[0]) + DictTail(ps[1..]), name);
  }

  /** The call passes the name, by position or by keyword. */
  predicate Passes(c: Call, name: string) {
    Some(name) in c.args || exists i :: 0 <= i < |c.kwargs| && c.kwargs[i].1 == Some(name)
  }

  /** A call that passes a plain name has it in its key. */
  lemma KeyShows(func: string, c: Call, name: string)
    requires IsPlain(name) && Passes(c, name)
    ensures Contains(Key(func, c), name)
  {
    var behind := Dict(c.kwargs) + "]";
    if Some(name) in c.args {
      ListShows(c.args, name);
      ContainsBefore(List(c.args), ", " + behind, name);
    } else {
      var i :| 0 <= i < |c.kwargs| && c.kwargs[i].1 == Some(name);
      DictShows(c.kwargs, i, name);
      ContainsBefore(Dict(c.kwargs), "]", name);
      ContainsAfter(", ", behind, name);
      ContainsAfter(List(c.args), ", " + behind, name);
    }
    var rest := List(c.args) + (", " + behind);
    ContainsAfter(", ", rest, name);
    ContainsAfter(Quote(func), ", " + rest, name);
    ContainsAfter("[", Quote(func) + (", " + rest), name);
  }

  // ---------------------------------------------------------------- what an escape says

  /** A character outside printable ASCII is written by its code in four hexadecimal digits, or by those of its two
      surrogates. */
  lemma EscapeIs(c: char)
    requires Letter(c).None? && !Printable(c)
    ensures c as nat < 0x10000 ==>
              |Escape(c)| == 6 && Escape(c)[..2] == "\\u" && ReadHex(Escape(c)[2..]) == Some(c as nat)
    ensures c as nat >= 0x10000 ==>
              && |Escape(c)| == 12 && Escape(c)[..2] == "\\u" && Escape(c)[6..8] == "\\u"
              && var high, low := ReadHex(Escape(c)[2..6]), ReadHex(Escape(c)[8..]);
                 && high.Some? && low.Some? && 0xd800 <= high.value < 0xdc00 && 0xdc00 <= low.value < 0xe000
                 && c as nat == 0x10000 + (high.value - 0xd800) * 0x400 + (low.value - 0xdc00)
  {
    ReadUnit(High(c));
    if c as nat >= 0x10000 {
      ReadUnit(Low(c));
      assert Escape(c)[2..6] == Unit(High(c))[2..] && Escape(c)[8..] == Unit(Low(c))[2..];
    }
  }

  lemma ReadUnit(n: nat)
    requires n < 0x10000
    ensures ReadHex(Unit(n)[2..]) == Some(n)
  {
    assert Pow16(4) == 0x10000;
    ReadOfHex(n, 4);
  }

  lemma {:induction false} ReadOfHex(n: nat, w: nat)
    requires n < Pow16(w)
    ensures ReadHex(Hex(n, w)) == Some(n)
  {
    if w > 0 {
      ReadOfHex(n / 16, w - 1);
      var s := Hex(n, w);
      assert s[..|s| - 1] == Hex(n / 16, w - 1);
    }
  }
}
