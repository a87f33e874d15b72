/** The text of an fstab file: lines, entries, and what adding and removing an entry does to them. */
module FstabText {
  import opened Wrappers
  import opened PythonInt
  import opened Sequences

  /** An entry's first four fields, dump frequency and pass number. */
  datatype Entry = Entry(device: string, mountpoint: string, filesystem: string, options: string, d: int, p: int)

  datatype Error = ValueError | TypeError

  datatype Attribute = Device | Mountpoint

  // ---------------------------------------------------------------- entries

  /** What `str.split()` and `str.strip()` take for white space in ASCII text. */
  predicate IsSpace(c: char) {
    c in " \t\n\r" || c as nat == 0x0b || c as nat == 0x0c || 0x1c <= c as nat <= 0x1f
  }

  /** By code: tab to carriage return, the four separators, and the space. */
  lemma SpaceIs(c: char)
    ensures IsSpace(c) <==> 9 <= c as int <= 13 || 28 <= c as int <= 32
  {
  }

  predicate IsWord(s: string) {
    s != [] && forall i :: 0 <= i < |s| ==> !IsSpace(s[i])
  }

  function WordLength(s: string): (n: nat)
    ensures n <= |s| && forall i :: 0 <= i < n ==> !IsSpace(s[i])
    ensures n < |s| ==> IsSpace(s[n])
  {
    if s == [] || IsSpace(s[0]) then 0 else 1 + WordLength(s[1..])
  }

  /** `line.split()`. */
  function Fields(s: string): seq<string>
    decreases |s|
  {
    if s == [] then []
    else if IsSpace(s[0]) then Fields(s[1..])
    else
      var n := WordLength(s);
      [s[..n]] + Fields(s[n..])
  }

  /** Neither blank nor a comment. */
  predicate IsSignificant(line: string) {
    if line == [] then false
    else if IsSpace(line[0]) then IsSignificant(line[1..])
    else line[0] != '#'
  }

  /** A line counts if it has a character that is not white space and the first of these opens no comment. */
  lemma {:induction false} SignificantIff(line: string)
    ensures IsSignificant(line) <==>
            exists i :: 0 <= i < |line| && IsBlank(line[..i]) && !IsSpace(line[i]) && line[i] != '#'
  {
    if line != [] {
      if IsSpace(line[0]) {
        var rest := line[1..];
        SignificantIff(rest);
        if i :| 0 <= i < |rest| && IsBlank(rest[..i]) && !IsSpace(rest[i]) && rest[i] != '#' {
          assert line[..i + 1] == [line[0]] + rest[..i] && line[i + 1] == rest[i];
        }
        if i :| 0 <= i < |line| && IsBlank(line[..i]) && !IsSpace(line[i]) && line[i] != '#' {
          assert rest[..i - 1] == line[..i][1..] && rest[i - 1] == line[i];
        }
      } else {
        assert IsBlank(line[..0]);
        assert forall i :: 0 < i <= |line| ==> line[..i][0] == line[0];
      }
    }
  }

  predicate IsBlank(s: string) {
    forall i :: 0 <= i < |s| ==> IsSpace(s[i])
  }

  /** Words with white space before each, and behind the last. */
  function Spread(gaps: seq<string>, words: seq<string>, end: string): string
    requires |gaps| == |words|
  {
    if words == [] then end else gaps[0] + (words[0] + Spread(gaps[1..], words[1..], end))
  }

  /** Only the first gap can be empty. */
  predicate AreGaps(gaps: seq<string>) {
    forall i :: 0 <= i < |gaps| ==> IsBlank(gaps[i]) && (i > 0 ==> gaps[i] != [])
  }

  lemma {:induction false} BlankFields(blank: string, rest: string)
    requires IsBlank(blank)
    ensures Fields(blank + rest) == Fields(rest)
  {
    if blank == [] {
      assert blank + rest == rest;
    } else {
      assert (blank + rest)[1..] == blank[1..] + rest;
      BlankFields(blank[1..], rest);
    }
  }

  /** The text is these words, with white space between them, and perhaps before and behind. */
  ghost predicate IsSpreadOf(s: string, words: seq<string>, gaps: seq<string>, end: string) {
    && |gaps| == |words| && AreGaps(gaps) && IsBlank(end) && (forall i :: 0 <= i < |words| ==> IsWord(words[i]))
    && s == Spread(gaps, words, end)
  }

  /** However the words are spaced, they are the fields, and every text is its fields in some spacing. */
  lemma FieldsIff(s: string, words: seq<string>)
    ensures Fields(s) == words <==> exists gaps, end :: IsSpreadOf(s, words, gaps, end)
  {
    var own, tail := SpreadOfFields(s);
    if gaps, end :| IsSpreadOf(s, words, gaps, end) {
      FieldsOfSpread(s, words, gaps, end);
    }
  }

  lemma {:induction false} FieldsOfSpread(s: string, words: seq<string>, gaps: seq<string>, end: string)
    requires IsSpreadOf(s, words, gaps, end)
    ensures Fields(s) == words
    decreases |words|
  {
    if words == [] {
      BlankFields(end, "");
      assert end + "" == end;
    } else {
      var rest := Spread(gaps[1..], words[1..], end);
      FieldsOfSpread(rest, words[1..], gaps[1..], end);
      BlankFields(gaps[0], words[0] + rest);
      SpreadBegins(gaps, words, end);
      FirstField(words[0], rest);
    }
  }

  lemma SpreadBegins(gaps: seq<string>, words: seq<string>, end: string)
    requires |gaps| == |words| > 0 && AreGaps(gaps) && IsBlank(end)
    ensures var rest := Spread(gaps[1..], words[1..], end);
            rest == [] || IsSpace(rest[0])
  {
    if |words| > 1 {
      assert gaps[1..][0] == gaps[1] && words[1..][0] == words[1];
      assert gaps[1] != [] && IsSpace(gaps[1][0]);
    }
  }

  lemma LeadingBlank(s: string) returns (k: nat)
    ensures k <= |s| && IsBlank(s[..k]) && (k < |s| ==> !IsSpace(s[k]))
  {
    var marks := seq(|s|, i requires 0 <= i < |s| => !IsSpace(s[i]));
    k := FirstTrue(marks);
    forall i | 0 <= i < k ensures IsSpace(s[..k][i]) {
      assert !marks[i];
    }
  }

  lemma {:induction false} SpreadOfFields(s: string) returns (gaps: seq<string>, end: string)
    ensures IsSpreadOf(s, Fields(s), gaps, end)
    decreases |s|
  {
    var k := LeadingBlank(s);
    var t := s[k..];
    assert s == s[..k] + t;
    BlankFields(s[..k], t);
    if t == [] {
      gaps, end := [], s;
    } else {
      var n := WordLength(t);
      var g, e := SpreadOfFields(t[n..]);
      gaps, end := [s[..k]] + g, e;
      NextGap(t[n..], Fields(t[n..]), g, e);
      assert t == t[..n] + t[n..];
      SpreadFurther(s[..k], t[..n], t[n..], Fields(t[n..]), g, e);
    }
  }

  lemma SpreadFurther(blank: string, word: string, rest: string, words: seq<string>, gaps: seq<string>, end: string)
    requires IsSpreadOf(rest, words, gaps, end) && (gaps != [] ==> gaps[0] != [])
    requires IsBlank(blank) && IsWord(word)
    ensures IsSpreadOf(blank + (word + rest), [word] + words, [blank] + gaps, end)
  {
    assert ([blank] + gaps)[1..] == gaps && ([word] + words)[1..] == words;
  }

  lemma NextGap(rest: string, words: seq<string>, gaps: seq<string>, end: string)
    requires IsSpreadOf(rest, words, gaps, end) && (rest == [] || IsSpace(rest[0]))
    ensures gaps != [] ==> gaps[0] != []
  {
    if words != [] {
      assert IsWord(words[0]);
    }
  }

  function FromFields(f: seq<string>): Result<Entry, Error> {
    if |f| < 4 || |f| > 6 then Raise(TypeError)
    else
      var d := if |f| > 4 then ParseInt(f[4]) else Some(0);
      var p := if |f| > 5 then ParseInt(f[5]) else Some(0);
      if d.None? || p.None? then Raise(ValueError)
      else Ok(Entry(f[0], f[1], f[2], f[3], d.value, p.value))
  }

  /** `_hydrate_entry`: four to six fields; the last two are numbers and default to zero. */
  function Hydrate(line: string): Result<Entry, Error> {
    FromFields(Fields(line))
  }

  /** Of the words of a line the first four are device, mount point, type and options, in this order; then come
      dump frequency and pass number, zero where they are not given. Fewer than four words or more than six
      are one error, a word that should be a number and is none another. */
  lemma HydrateWords(line: string, words: seq<string>, gaps: seq<string>, end: string)
    requires IsSpreadOf(line, words, gaps, end)
    ensures |words| == 4 ==> Hydrate(line) == Ok(Entry(words[0], words[1], words[2], words[3], 0, 0))
    ensures |words| == 5 ==>
              Hydrate(line) == if ParseInt(words[4]).None? then Raise(ValueError)
                               else Ok(Entry(words[0], words[1], words[2], words[3], ParseInt(words[4]).value, 0))
    ensures |words| == 6 ==>
              Hydrate(line) == if ParseInt(words[4]).None? || ParseInt(words[5]).None? then Raise(ValueError)
                               else Ok(Entry(words[0], words[1], words[2], words[3],
                                             ParseInt(words[4]).value, ParseInt(words[5]).value))
    ensures |words| < 4 || |words| > 6 ==> Hydrate(line) == Raise(TypeError)
  {
    FieldsOfSpread(line, words, gaps, end);
  }

  /** The entry's text with `end` behind it. */
  function ShowTo(e: Entry, end: string): string {
    e.device + (" " + (e.mountpoint + (" " + (e.filesystem + (" " + (e.options + (" " +
      (ShowInt(e.d) + (" " + (ShowInt(e.p) + end))))))))))
  }

  function Show(e: Entry): string {
    ShowTo(e, "")
  }

  /** The fields in this order, with one space between them. */
  lemma ShowIs(e: Entry)
    ensures Show(e) == e.device + " " + e.mountpoint + " " + e.filesystem + " " + e.options + " "
                       + ShowInt(e.d) + " " + ShowInt(e.p)
  {
    var t := ShowInt(e.p) + "";
    assert t == ShowInt(e.p);
    var numbers := ShowInt(e.d) + (" " + t);
    var t2 := e.filesystem + (" " + (e.options + (" " + numbers)));
    Regroup(e.device, " ", e.mountpoint + (" " + t2));
    Regroup(e.device + " ", e.mountpoint, " " + t2);
    Regroup(e.device + " " + e.mountpoint, " ", t2);
    var a := e.device + " " + e.mountpoint + " ";
    Regroup(a, e.filesystem, " " + (e.options + (" " + numbers)));
    Regroup(a + e.filesystem, " ", e.options + (" " + numbers));
    var b := a + e.filesystem + " ";
    Regroup(b, e.options, " " + numbers);
    Regroup(b + e.options, " ", numbers);
    var c := b + e.options + " ";
    Regroup(c, ShowInt(e.d), " " + t);
    Regroup(c + ShowInt(e.d), " ", t);
  }

  lemma SixWords(a: string, b: string, c: string, d: string, e: string, f: string)
    ensures [a] + ([b] + ([c] + ([d] + ([e] + ([f] + []))))) == [a, b, c, d, e, f]
  {
  }

  lemma ShowEnd(e: Entry, end: string)
    ensures Show(e) + end == ShowTo(e, end)
  {
    var t5 := ShowInt(e.p) + "";
    var t4 := ShowInt(e.d) + (" " + t5);
    var t3 := e.options + (" " + t4);
    var t2 := e.filesystem + (" " + t3);
    var t1 := e.mountpoint + (" " + t2);
    assert t5 + end == ShowInt(e.p) + end;
    Regroup(ShowInt(e.d), " " + t5, end);
    Regroup(" ", t5, end);
    Regroup(e.options, " " + t4, end);
    Regroup(" ", t4, end);
    Regroup(e.filesystem, " " + t3, end);
    Regroup(" ", t3, end);
    Regroup(e.mountpoint, " " + t2, end);
    Regroup(" ", t2, end);
    Regroup(e.device, " " + t1, end);
    Regroup(" ", t1, end);
  }

  /** An entry that can stand on a line: four words, the first of which does not open a comment. */
  predicate IsPrintable(e: Entry) {
    IsWord(e.device) && IsWord(e.mountpoint) && IsWord(e.filesystem) && IsWord(e.options) && e.device[0] != '#'
  }

  lemma {:induction false} WordLengthOf(w: string, rest: string)
    requires forall i :: 0 <= i < |w| ==> !IsSpace(w[i])
    requires rest == [] || IsSpace(rest[0])
    ensures WordLength(w + rest) == |w|
  {
    if w == [] {
      assert w + rest == rest;
    } else {
      assert (w + rest)[1..] == w[1..] + rest;
      WordLengthOf(w[1..], rest);
    }
  }

  lemma FirstField(w: string, rest: string)
    requires IsWord(w) && (rest == [] || IsSpace(rest[0]))
    ensures Fields(w + rest) == [w] + Fields(rest)
  {
    WordLengthOf(w, rest);
    assert (w + rest)[..|w|] == w && (w + rest)[|w|..] == rest;
  }

  lemma NextField(w: string, rest: string)
    requires IsWord(w) && (rest == [] || IsSpace(rest[0]))
    ensures Fields(" " + (w + rest)) == [w] + Fields(rest)
  {
    FirstField(w, rest);
    assert (" " + (w + rest))[1..] == w + rest;
  }

  lemma ShowIntIsWord(n: int)
    ensures IsWord(ShowInt(n))
  {
  }

  lemma FieldsOfShow(e: Entry, end: string)
    requires IsWord(e.device) && IsWord(e.mountpoint) && IsWord(e.filesystem) && IsWord(e.options)
    requires end == "" || end == "\n"
    ensures Fields(Show(e) + end) ==
            [e.device, e.mountpoint, e.filesystem, e.options, ShowInt(e.d), ShowInt(e.p)]
  {
    ShowEnd(e, end);
    ShowIntIsWord(e.d);
    ShowIntIsWord(e.p);
    var t5 := ShowInt(e.p) + end;
    var t4 := ShowInt(e.d) + (" " + t5);
    var t3 := e.options + (" " + t4);
    var t2 := e.filesystem + (" " + t3);
    NextField(ShowInt(e.p), end);
    NextField(ShowInt(e.d), " " + t5);
    NextField(e.options, " " + t4);
    NextField(e.filesystem, " " + t3);
    NextField(e.mountpoint, " " + t2);
    FirstField(e.device, " " + (e.mountpoint + (" " + t2)));
    assert Fields(end) == [];
    SixWords(e.device, e.mountpoint, e.filesystem, e.options, ShowInt(e.d), ShowInt(e.p));
  }

  /** A printed entry reads back as itself, and counts as an entry. */
  lemma HydrateShow(e: Entry)
    requires IsPrintable(e)
    ensures Hydrate(Show(e) + "\n") == Ok(e) && IsSignificant(Show(e) + "\n")
  {
    FieldsOfShow(e, "\n");
    FieldsRead(e);
    assert (Show(e) + "\n")[0] == e.device[0];
  }

  lemma FieldsRead(e: Entry)
    ensures FromFields([e.device, e.mountpoint, e.filesystem, e.options, ShowInt(e.d), ShowInt(e.p)]) == Ok(e)
  {
    ParseShow(e.d);
    ParseShow(e.p);
  }

  // ---------------------------------------------------------------- lines

  /** Length of the first line, its newline included. */
  function LineLength(s: string): (n: nat)
    requires s != []
    ensures 0 < n <= |s|
    ensures forall i :: 0 <= i < n - 1 ==> s[i] != '\n'
    ensures s[n - 1] == '\n' || n == |s|
  {
    if s[0] == '\n' || |s| == 1 then 1 else 1 + LineLength(s[1..])
  }

  /** `readlines`. */
  function Lines(s: string): seq<string>
    decreases |s|
  {
    if s == [] then [] else [s[..LineLength(s)]] + Lines(s[LineLength(s)..])
  }

  function Join(ls: seq<string>): string {
    if ls == [] then [] else ls[0] + Join(ls[1..])
  }

  predicate IsTerminated(s: string) {
    s == [] || s[|s| - 1] == '\n'
  }

  /** One line with its newline, and no newline before. */
  predicate IsLine(l: string) {
    l != [] && l[|l| - 1] == '\n' && forall i :: 0 <= i < |l| - 1 ==> l[i] != '\n'
  }

  predicate NoInnerNewline(l: string) {
    forall i :: 0 <= i < |l| - 1 ==> l[i] != '\n'
  }

  lemma {:induction false} JoinLines(s: string)
    ensures Join(Lines(s)) == s
    decreases |s|
  {
    if s != [] {
      JoinLines(s[LineLength(s)..]);
    }
  }

  lemma {:induction false} LineLengthOf(l: string, rest: string)
    requires IsLine(l)
    ensures LineLength(l + rest) == |l|
  {
    if |l| > 1 {
      assert (l + rest)[1..] == l[1..] + rest;
      LineLengthOf(l[1..], rest);
    }
  }

  lemma FirstLine(l: string, rest: string)
    requires IsLine(l)
    ensures Lines(l + rest) == [l] + Lines(rest)
  {
    LineLengthOf(l, rest);
    assert (l + rest)[..|l|] == l && (l + rest)[|l|..] == rest;
  }

  /** Only the last line can lack its newline. */
  lemma {:induction false} LinesAreLines(s: string)
    ensures forall i :: 0 <= i < |Lines(s)| ==> Lines(s)[i] != []
    ensures forall i :: 0 <= i < |Lines(s)| - 1 ==> IsLine(Lines(s)[i])
    ensures IsTerminated(s) && s != [] ==> IsLine(Lines(s)[|Lines(s)| - 1])
    ensures !IsTerminated(s) ==> Lines(s) != [] && !IsTerminated(Lines(s)[|Lines(s)| - 1])
    decreases |s|
  {
    if s != [] {
      var n := LineLength(s);
      LinesAreLines(s[n..]);
      CutAfter(s, n);
      AreLinesFrom(s[..n], Lines(s[n..]));
      assert s[n..] == [] <==> Lines(s[n..]) == [];
      assert Lines(s) == [s[..n]] + Lines(s[n..]);
    }
  }

  lemma AreLinesFrom(head: string, rest: seq<string>)
    requires head != [] && forall i :: 0 <= i < |rest| ==> rest[i] != []
    requires forall i :: 0 <= i < |rest| - 1 ==> IsLine(rest[i])
    requires rest != [] ==> IsLine(head)
    ensures var ls := [head] + rest;
            && (forall i :: 0 <= i < |ls| ==> ls[i] != [])
            && (forall i :: 0 <= i < |ls| - 1 ==> IsLine(ls[i]))
            && ls[|ls| - 1] == if rest == [] then head else rest[|rest| - 1]
  {
  }

  lemma SplitFirst(s: string)
    requires s != []
    ensures var n := LineLength(s);
            && s == s[..n] + s[n..] && Lines(s) == [s[..n]] + Lines(s[n..])
            && (IsTerminated(s) <==> IsTerminated(s[n..]) && IsLine(s[..n]))
            && (n < |s| ==> IsLine(s[..n]))
  {
    CutAfter(s, LineLength(s));
  }

  lemma CutAfter(s: string, n: nat)
    requires 0 < n <= |s| && (s[n - 1] == '\n' || n == |s|)
    requires forall i :: 0 <= i < n - 1 ==> s[i] != '\n'
    ensures s == s[..n] + s[n..]
    ensures IsTerminated(s) <==> IsTerminated(s[n..]) && IsLine(s[..n])
    ensures n < |s| ==> IsLine(s[..n])
  {
  }

  /** `readline` at a position. */
  function LineAt(s: string, i: nat): (line: string)
    requires i < |s|
    ensures 0 < |line| <= |s| - i
  {
    s[i..][..LineLength(s[i..])]
  }

  /** Appending a line to terminated text adds just that line. */
  lemma {:induction false} LinesAppend(s: string, l: string)
    requires IsTerminated(s) && IsLine(l)
    ensures Lines(s + l) == Lines(s) + [l]
    decreases |s|
  {
    if s == [] {
      assert s + l == l && l == l + "";
      FirstLine(l, "");
    } else {
      var n := LineLength(s);
      SplitFirst(s);
      LinesAppend(s[n..], l);
      Regroup(s[..n], s[n..], l);
      FirstLine(s[..n], s[n..] + l);
      Regroup([s[..n]], Lines(s[n..]), [l]);
    }
  }

  /** Text made of lines, the last perhaps without newline, splits into just these. */
  lemma {:induction false} LinesJoin(ls: seq<string>)
    requires forall i :: 0 <= i < |ls| ==> ls[i] != []
    requires forall i :: 0 <= i < |ls| - 1 ==> IsLine(ls[i])
    requires ls != [] ==> NoInnerNewline(ls[|ls| - 1])
    ensures Lines(Join(ls)) == ls
    decreases |ls|
  {
    if |ls| == 1 {
      assert ls[1..] == [] && Join(ls) == ls[0] + [] == ls[0];
      var l := ls[0];
      assert LineLength(l) == |l|;
      assert l[..|l|] == l && l[|l|..] == [];
    } else if |ls| > 1 {
      assert ls[1..][|ls| - 2] == ls[|ls| - 1];
      LinesJoin(ls[1..]);
      FirstLine(ls[0], Join(ls[1..]));
    }
  }

  lemma {:induction false} JoinAppend(a: seq<string>, b: seq<string>)
    ensures Join(a + b) == Join(a) + Join(b)
  {
    if a == [] {
      assert a + b == b;
    } else {
      assert (a + b)[1..] == a[1..] + b && (a + b)[0] == a[0];
      JoinAppend(a[1..], b);
    }
  }

  /** These are lines, and together they are the text up to position `i`. */
  ghost predicate ReadTo(s: string, i: nat, lines: seq<string>) {
    && i <= |s| && Join(lines) == s[..i]
    && (forall k :: 0 <= k < |lines| ==> lines[k] != [] && NoInnerNewline(lines[k]))
    && (forall k :: 0 <= k < |lines| - 1 ==> IsLine(lines[k]))
    && (i < |s| && lines != [] ==> IsLine(lines[|lines| - 1]))
  }

  lemma NextLine(s: string, i: nat, lines: seq<string>)
    requires i < |s| && ReadTo(s, i, lines)
    ensures ReadTo(s, i + |LineAt(s, i)|, lines + [LineAt(s, i)])
  {
    var line := LineAt(s, i);
    LineAtIsLine(s, i);
    JoinAppend(lines, [line]);
    assert Join([line]) == line + Join([]);
    assert s[..i] + line == s[..i + |line|];
  }

  lemma LineAtIsLine(s: string, i: nat)
    requires i < |s|
    ensures var line := LineAt(s, i);
            line == s[i..i + |line|] && NoInnerNewline(line) && (i + |line| < |s| ==> IsLine(line))
  {
  }

  lemma ReadToEnd(s: string, lines: seq<string>)
    requires ReadTo(s, |s|, lines)
    ensures lines == Lines(s)
  {
    LinesJoin(lines);
    assert s[..|s|] == s;
  }

  // ---------------------------------------------------------------- looking, adding, removing

  function AttributeOf(e: Entry, a: Attribute): string {
    if a.Device? then e.device else e.mountpoint
  }

  /** `get_entry_by_attr`: the first entry with this value. Lines whose numbers do not parse are
      passed over; a line with too few or too many fields stops the search with an error. */
  function Find(ls: seq<string>, a: Attribute, value: string): Result<Option<Entry>, Error> {
    if ls == [] then Ok(None)
    else if !IsSignificant(ls[0]) then Find(ls[1..], a, value)
    else
      match Hydrate(ls[0])
      case Ok(e) => if AttributeOf(e, a) == value then Ok(Some(e)) else Find(ls[1..], a, value)
      case Raise(ValueError) => Find(ls[1..], a, value)
      case Raise(TypeError) => Raise(TypeError)
  }

  predicate HasAttribute(line: string, a: Attribute, value: string) {
    IsSignificant(line) && Hydrate(line).Ok? && AttributeOf(Hydrate(line).value, a) == value
  }

  /** The search finds the first line with the value, and finds nothing only when no line has it. */
  lemma {:induction false} FindIsFirst(ls: seq<string>, a: Attribute, value: string)
    requires Find(ls, a, value).Ok?
    ensures match Find(ls, a, value).value
            case None => forall i :: 0 <= i < |ls| ==> !HasAttribute(ls[i], a, value)
            case Some(e) => exists i :: 0 <= i < |ls| && HasAttribute(ls[i], a, value) && Hydrate(ls[i]) == Ok(e)
                                        && forall j :: 0 <= j < i ==> !HasAttribute(ls[j], a, value)
    decreases |ls|
  {
    if ls != [] {
      if HasAttribute(ls[0], a, value) {
        assert Find(ls, a, value) == Ok(Some(Hydrate(ls[0]).value));
      } else {
        var rest := ls[1..];
        FindIsFirst(rest, a, value);
        assert forall i :: 0 < i < |ls| ==> ls[i] == rest[i - 1];
        if Find(rest, a, value).value.Some? {
          var i :| 0 <= i < |rest| && HasAttribute(rest[i], a, value)
                   && Hydrate(rest[i]) == Ok(Find(rest, a, value).value.value)
                   && forall j :: 0 <= j < i ==> !HasAttribute(rest[j], a, value);
          assert ls[i + 1] == rest[i];
        }
      }
    }
  }

  /** A line with too few or too many fields; one that is no entry, be it for this or for its numbers. */
  predicate IsMalformed(line: string) {
    IsSignificant(line) && Hydrate(line) == Raise(TypeError)
  }

  predicate IsBad(line: string) {
    IsSignificant(line) && Hydrate(line).Raise?
  }

  /** The line holds an entry that prints like `e`. */
  predicate IsEntryLine(line: string, e: Entry) {
    IsSignificant(line) && Hydrate(line).Ok? && Show(Hydrate(line).value) == Show(e)
  }

  /** The loop of `remove_entry`: the index of the first line that is this entry. Here a line whose
      numbers do not parse is an error, too. */
  function Locate(ls: seq<string>, e: Entry): Result<Option<nat>, Error> {
    if ls == [] then Ok(None)
    else
      var here := if IsSignificant(ls[0]) then Hydrate(ls[0]) else Ok(e);
      if here.Raise? then Raise(here.error)
      else if IsEntryLine(ls[0], e) then Ok(Some(0))
      else
        match Locate(ls[1..], e)
        case Ok(Some(i)) => Ok(Some(i + 1))
        case other => other
  }

  datatype Outcome = Outcome(done: bool, content: string)

  function AddText(content: string, e: Entry): Result<Outcome, Error> {
    match Find(Lines(content), Device, e.device)
    case Raise(x) => Raise(x)
    case Ok(Some(_)) => Ok(Outcome(false, content))
    case Ok(None) => Ok(Outcome(true, content + (Show(e) + "\n")))
  }

  lemma LocateInRange(ls: seq<string>, e: Entry)
    requires Locate(ls, e).Ok? && Locate(ls, e).value.Some?
    ensures var i := Locate(ls, e).value.value;
            && i < |ls| && IsEntryLine(ls[i], e)
            && forall j :: 0 <= j < i ==> ls[j] != ls[i]
  {
    var i := FirstEntryOrNone(ls, e);
    if i >= 0 {
      LocateAt(ls, e, i);
    } else {
      LocateNowhere(ls, e);
    }
  }

  function Without(ls: seq<string>, i: nat): seq<string>
    requires i < |ls|
  {
    ls[..i] + ls[i + 1..]
  }

  function RemoveText(content: string, e: Entry): Result<Outcome, Error> {
    match Locate(Lines(content), e)
    case Raise(x) => Raise(x)
    case Ok(None) => Ok(Outcome(false, content))
    case Ok(Some(i)) =>
      assert i < |Lines(content)| by { LocateInRange(Lines(content), e); }
      Ok(Outcome(true, Join(Without(Lines(content), i))))
  }

  function RemoveByMountpointText(content: string, mountpoint: string): Result<Outcome, Error> {
    match Find(Lines(content), Mountpoint, mountpoint)
    case Raise(x) => Raise(x)
    case Ok(None) => Ok(Outcome(false, content))
    case Ok(Some(e)) => RemoveText(content, e)
  }

  // ---------------------------------------------------------------- in terms of the lines

  ghost predicate FirstWith(ls: seq<string>, i: int, a: Attribute, value: string) {
    0 <= i < |ls| && HasAttribute(ls[i], a, value) && forall j :: 0 <= j < i ==> !HasAttribute(ls[j], a, value)
  }

  ghost predicate NoneWith(ls: seq<string>, a: Attribute, value: string) {
    forall j :: 0 <= j < |ls| ==> !HasAttribute(ls[j], a, value)
  }

  /** None of the first n lines is malformed, or bad. */
  ghost predicate NoneMalformed(ls: seq<string>, n: int) {
    forall j :: 0 <= j < n && j < |ls| ==> !IsMalformed(ls[j])
  }

  ghost predicate NoneBad(ls: seq<string>, n: int) {
    forall j :: 0 <= j < n && j < |ls| ==> !IsBad(ls[j])
  }

  lemma {:induction false} FindPassed(ls: seq<string>, a: Attribute, value: string, i: nat)
    requires i <= |ls| && forall j :: 0 <= j < i ==> !HasAttribute(ls[j], a, value) && !IsMalformed(ls[j])
    ensures Find(ls, a, value) == Find(ls[i..], a, value)
    decreases i
  {
    if i > 0 {
      var rest := ls[1..];
      assert forall j :: 0 <= j < i - 1 ==> rest[j] == ls[j + 1];
      FindPassed(rest, a, value, i - 1);
      assert rest[i - 1..] == ls[i..];
    }
  }

  lemma FirstMalformed(ls: seq<string>, n: nat) returns (k: nat)
    requires n <= |ls| && !NoneMalformed(ls, n)
    ensures k < n && IsMalformed(ls[k]) && NoneMalformed(ls, k)
  {
    var marks := seq(n, j requires 0 <= j < n => IsMalformed(ls[j]));
    assert forall j :: 0 <= j < n ==> marks[j] == IsMalformed(ls[j]);
    k := FirstTrue(marks);
  }

  /** The search goes through exactly when no malformed line comes before the first with the value, or none at
      all where there is no such line. */
  lemma FindAt(ls: seq<string>, a: Attribute, value: string, i: nat)
    requires FirstWith(ls, i, a, value)
    ensures Find(ls, a, value) == if NoneMalformed(ls, i) then Ok(Some(Hydrate(ls[i]).value)) else Raise(TypeError)
  {
    if NoneMalformed(ls, i) {
      FindPassed(ls, a, value, i);
    } else {
      var k := FirstMalformed(ls, i);
      FindPassed(ls, a, value, k);
    }
  }

  lemma FindNowhere(ls: seq<string>, a: Attribute, value: string)
    requires NoneWith(ls, a, value)
    ensures Find(ls, a, value) == if NoneMalformed(ls, |ls|) then Ok(None) else Raise(TypeError)
  {
    if NoneMalformed(ls, |ls|) {
      FindPassed(ls, a, value, |ls|);
    } else {
      var k := FirstMalformed(ls, |ls|);
      FindPassed(ls, a, value, k);
    }
  }

  lemma FirstOrNone(ls: seq<string>, a: Attribute, value: string) returns (i: int)
    ensures FirstWith(ls, i, a, value) || (i == -1 && NoneWith(ls, a, value))
  {
    var marks := seq(|ls|, j requires 0 <= j < |ls| => HasAttribute(ls[j], a, value));
    i := FirstTrue(marks);
    assert forall j :: 0 <= j < i ==> marks[j] == HasAttribute(ls[j], a, value);
    i := if i < |ls| then i else -1;
  }

  /** What a search comes to. */
  ghost predicate IsFound(ls: seq<string>, a: Attribute, value: string, r: Result<Option<Entry>, Error>) {
    && (forall i :: FirstWith(ls, i, a, value) ==>
          r == if NoneMalformed(ls, i) then Ok(Some(Hydrate(ls[i]).value)) else Raise(TypeError))
    && (NoneWith(ls, a, value) ==> r == if NoneMalformed(ls, |ls|) then Ok(None) else Raise(TypeError))
  }

  lemma FindIs(ls: seq<string>, a: Attribute, value: string)
    ensures IsFound(ls, a, value, Find(ls, a, value))
  {
    forall i | FirstWith(ls, i, a, value)
      ensures Find(ls, a, value) == if NoneMalformed(ls, i) then Ok(Some(Hydrate(ls[i]).value)) else Raise(TypeError)
    {
      FindAt(ls, a, value, i);
    }
    if NoneWith(ls, a, value) {
      FindNowhere(ls, a, value);
    }
  }

  /** What adding comes to. */
  ghost predicate IsAdded(before: string, e: Entry, r: Result<bool, Error>, after: string) {
    var ls := Lines(before);
    && (r == Ok(true) <==> NoneWith(ls, Device, e.device) && NoneMalformed(ls, |ls|))
    && (r == Ok(false) <==> exists i :: FirstWith(ls, i, Device, e.device) && NoneMalformed(ls, i))
    && after == if r == Ok(true) then before + Show(e) + "\n" else before
  }

  lemma AddIs(content: string, e: Entry)
    ensures match AddText(content, e)
            case Ok(o) => IsAdded(content, e, Ok(o.done), o.content)
            case Raise(x) => IsAdded(content, e, Raise(x), content)
  {
    var ls := Lines(content);
    var i := FirstOrNone(ls, Device, e.device);
    Regroup(content, Show(e), "\n");
    if i >= 0 {
      FindAt(ls, Device, e.device, i);
    } else {
      FindNowhere(ls, Device, e.device);
    }
  }

  ghost predicate FirstEntry(ls: seq<string>, i: int, e: Entry) {
    0 <= i < |ls| && IsEntryLine(ls[i], e) && forall j :: 0 <= j < i ==> !IsEntryLine(ls[j], e)
  }

  ghost predicate NoEntry(ls: seq<string>, e: Entry) {
    forall j :: 0 <= j < |ls| ==> !IsEntryLine(ls[j], e)
  }

  /** The error of the first bad line. */
  ghost predicate IsFirstError(ls: seq<string>, x: Error) {
    exists k :: 0 <= k < |ls| && IsBad(ls[k]) && NoneBad(ls, k) && x == Hydrate(ls[k]).error
  }

  function Shifted(r: Result<Option<nat>, Error>, n: nat): Result<Option<nat>, Error> {
    if r.Ok? && r.value.Some? then Ok(Some(r.value.value + n)) else r
  }

  lemma LocateStep(lines: seq<string>, e: Entry, i: nat)
    requires i < |lines|
    ensures Shifted(Locate(lines[i..], e), i) ==
            if IsSignificant(lines[i]) && Hydrate(lines[i]).Raise? then Raise(Hydrate(lines[i]).error)
            else if IsEntryLine(lines[i], e) then Ok(Some(i))
            else Shifted(Locate(lines[i + 1..], e), i + 1)
  {
    assert lines[i..][1..] == lines[i + 1..];
  }

  lemma {:induction false} LocatePassed(ls: seq<string>, e: Entry, k: nat, i: nat)
    requires k <= i <= |ls| && forall j :: k <= j < i ==> !IsEntryLine(ls[j], e) && !IsBad(ls[j])
    ensures Shifted(Locate(ls[k..], e), k) == Shifted(Locate(ls[i..], e), i)
    decreases i - k
  {
    if k < i {
      LocateStep(ls, e, k);
      LocatePassed(ls, e, k + 1, i);
    }
  }

  lemma FirstBad(ls: seq<string>, n: nat) returns (k: nat)
    requires n <= |ls| && !NoneBad(ls, n)
    ensures k < n && IsBad(ls[k]) && NoneBad(ls, k)
  {
    var marks := seq(n, j requires 0 <= j < n => IsBad(ls[j]));
    assert forall j :: 0 <= j < n ==> marks[j] == IsBad(ls[j]);
    k := FirstTrue(marks);
  }

  lemma LocateHere(ls: seq<string>, e: Entry, i: nat)
    requires i < |ls| && IsEntryLine(ls[i], e) && forall j :: 0 <= j < i ==> !IsEntryLine(ls[j], e) && !IsBad(ls[j])
    ensures Locate(ls, e) == Ok(Some(i))
  {
    LocatePassed(ls, e, 0, i);
    LocateStep(ls, e, i);
    assert ls[0..] == ls;
  }

  lemma LocateBad(ls: seq<string>, e: Entry, k: nat)
    requires k < |ls| && IsBad(ls[k]) && NoneBad(ls, k) && forall j :: 0 <= j < k ==> !IsEntryLine(ls[j], e)
    ensures Locate(ls, e) == Raise(Hydrate(ls[k]).error) && IsFirstError(ls, Hydrate(ls[k]).error)
  {
    LocatePassed(ls, e, 0, k);
    LocateStep(ls, e, k);
    assert ls[0..] == ls;
  }

  /** The line to remove is the first that is the entry, unless a bad line comes before it. */
  lemma LocateAt(ls: seq<string>, e: Entry, i: nat)
    requires FirstEntry(ls, i, e)
    ensures if NoneBad(ls, i) then Locate(ls, e) == Ok(Some(i))
            else Locate(ls, e).Raise? && IsFirstError(ls, Locate(ls, e).error)
  {
    if NoneBad(ls, i) {
      LocateHere(ls, e, i);
    } else {
      var k := FirstBad(ls, i);
      LocateBad(ls, e, k);
    }
  }

  lemma LocateNowhere(ls: seq<string>, e: Entry)
    requires NoEntry(ls, e)
    ensures if NoneBad(ls, |ls|) then Locate(ls, e) == Ok(None)
            else Locate(ls, e).Raise? && IsFirstError(ls, Locate(ls, e).error)
  {
    if NoneBad(ls, |ls|) {
      LocatePassed(ls, e, 0, |ls|);
      assert ls[0..] == ls;
    } else {
      var k := FirstBad(ls, |ls|);
      LocateBad(ls, e, k);
    }
  }

  lemma FirstEntryOrNone(ls: seq<string>, e: Entry) returns (i: int)
    ensures FirstEntry(ls, i, e) || (i == -1 && NoEntry(ls, e))
  {
    var marks := seq(|ls|, j requires 0 <= j < |ls| => IsEntryLine(ls[j], e));
    i := FirstTrue(marks);
    assert forall j :: 0 <= j < i ==> marks[j] == IsEntryLine(ls[j], e);
    i := if i < |ls| then i else -1;
  }

  /** What removing an entry comes to: its first line goes, unless a bad line comes before; with no such line
      nothing happens, unless any line is bad. */
  ghost predicate IsRemoved(before: string, e: Entry, r: Result<bool, Error>, after: string) {
    var ls := Lines(before);
    && (forall i :: FirstEntry(ls, i, e) && NoneBad(ls, i) ==> r == Ok(true) && after == Join(Without(ls, i)))
    && (forall i :: FirstEntry(ls, i, e) && !NoneBad(ls, i) ==>
          r.Raise? && IsFirstError(ls, r.error) && after == before)
    && (NoEntry(ls, e) ==>
          after == before && if NoneBad(ls, |ls|) then r == Ok(false) else r.Raise? && IsFirstError(ls, r.error))
  }

  lemma RemoveIs(content: string, e: Entry)
    ensures match RemoveText(content, e)
            case Ok(o) => IsRemoved(content, e, Ok(o.done), o.content)
            case Raise(x) => IsRemoved(content, e, Raise(x), content)
  {
    var ls := Lines(content);
    var i := FirstEntryOrNone(ls, e);
    if i >= 0 {
      LocateAt(ls, e, i);
      OneFirst(ls, e, i);
    } else {
      LocateNowhere(ls, e);
    }
  }

  lemma OneFirst(ls: seq<string>, e: Entry, i: int)
    requires FirstEntry(ls, i, e)
    ensures forall k :: FirstEntry(ls, k, e) ==> k == i
    ensures !NoEntry(ls, e)
  {
  }

  /** What removing by mount point comes to: the first line with the mount point goes. A malformed line before it
      is one error, a line with bad numbers before it the other; without such a line nothing happens, unless a
      line is malformed. */
  ghost predicate IsUnmounted(before: string, mountpoint: string, r: Result<bool, Error>, after: string) {
    var ls := Lines(before);
    && (forall i :: FirstWith(ls, i, Mountpoint, mountpoint) ==>
          if !NoneMalformed(ls, i) then r == Raise(TypeError) && after == before
          else if !NoneBad(ls, i) then r == Raise(ValueError) && after == before
          else r == Ok(true) && after == Join(Without(ls, i)))
    && (NoneWith(ls, Mountpoint, mountpoint) ==>
          after == before && r == if NoneMalformed(ls, |ls|) then Ok(false) else Raise(TypeError))
  }

  lemma UnmountIs(content: string, mountpoint: string)
    ensures match RemoveByMountpointText(content, mountpoint)
            case Ok(o) => IsUnmounted(content, mountpoint, Ok(o.done), o.content)
            case Raise(x) => IsUnmounted(content, mountpoint, Raise(x), content)
  {
    var ls := Lines(content);
    var i := FirstOrNone(ls, Mountpoint, mountpoint);
    if i >= 0 {
      FindAt(ls, Mountpoint, mountpoint, i);
      if NoneMalformed(ls, i) {
        LocateFound(ls, mountpoint, i);
      }
      forall k | FirstWith(ls, k, Mountpoint, mountpoint) ensures k == i {
      }
    } else {
      FindNowhere(ls, Mountpoint, mountpoint);
    }
  }

  /** The entry found by mount point is looked up again as text, and found on the same line. */
  lemma LocateFound(ls: seq<string>, mountpoint: string, i: nat)
    requires FirstWith(ls, i, Mountpoint, mountpoint) && NoneMalformed(ls, i)
    ensures Locate(ls, Hydrate(ls[i]).value) == if NoneBad(ls, i) then Ok(Some(i)) else Raise(ValueError)
  {
    var e := Hydrate(ls[i]).value;
    forall j | 0 <= j < i ensures !IsEntryLine(ls[j], e) {
      if IsEntryLine(ls[j], e) {
        HydratedIsWords(ls[i]);
        HydratedIsWords(ls[j]);
        ShowInjective(Hydrate(ls[j]).value, e);
      }
    }
    LocateAt(ls, e, i);
  }

  /** Removal takes out one line, which is the entry, and keeps every other line, comments and
      blanks included, in order. */
  lemma RemoveKeepsOthers(content: string, e: Entry)
    requires RemoveText(content, e).Ok? && RemoveText(content, e).value.done
    ensures exists i :: 0 <= i < |Lines(content)|
                        && IsEntryLine(Lines(content)[i], e)
                        && Lines(RemoveText(content, e).value.content) == Without(Lines(content), i)
  {
    var ls := Lines(content);
    LocateInRange(ls, e);
    LinesAreLines(content);
    LastLineClean(content);
    var i := Locate(ls, e).value.value;
    LinesJoin(Without(ls, i));
  }

  lemma {:induction false} LastLineClean(s: string)
    ensures forall i :: 0 <= i < |Lines(s)| ==> NoInnerNewline(Lines(s)[i])
    decreases |s|
  {
    if s != [] {
      var n := LineLength(s);
      LastLineClean(s[n..]);
      assert forall i :: 0 < i < |Lines(s)| ==> Lines(s)[i] == Lines(s[n..])[i - 1];
    }
  }

  // ---------------------------------------------------------------- add, then remove

  /** Every significant line is an entry. */
  predicate AllEntries(ls: seq<string>) {
    forall i :: 0 <= i < |ls| ==> IsSignificant(ls[i]) ==> Hydrate(ls[i]).Ok?
  }

  lemma {:induction false} FindAppend(ls: seq<string>, l: string, a: Attribute, value: string, e: Entry)
    requires Find(ls, a, value) == Ok(None)
    requires IsSignificant(l) && Hydrate(l) == Ok(e) && AttributeOf(e, a) == value
    ensures Find(ls + [l], a, value) == Ok(Some(e))
    decreases |ls|
  {
    if ls == [] {
      assert ls + [l] == [l];
    } else {
      assert (ls + [l])[1..] == ls[1..] + [l] && (ls + [l])[0] == ls[0];
      FindAppend(ls[1..], l, a, value, e);
    }
  }

  lemma {:induction false} LocateAppend(ls: seq<string>, l: string, e: Entry)
    requires AllEntries(ls) && IsPrintable(e)
    requires Find(ls, Mountpoint, e.mountpoint) == Ok(None)
    requires IsSignificant(l) && Hydrate(l) == Ok(e)
    ensures Locate(ls + [l], e) == Ok(Some(|ls|))
    decreases |ls|
  {
    if ls == [] {
      assert ls + [l] == [l];
    } else {
      assert (ls + [l])[1..] == ls[1..] + [l] && (ls + [l])[0] == ls[0];
      assert AllEntries(ls[1..]);
      LocateAppend(ls[1..], l, e);
      if IsSignificant(ls[0]) {
        var other := Hydrate(ls[0]).value;
        HydratedIsWords(ls[0]);
        if Show(other) == Show(e) {
          ShowInjective(other, e);
          assert false;
        }
      }
    }
  }

  lemma {:induction false} FieldsAreWords(s: string)
    ensures forall i :: 0 <= i < |Fields(s)| ==> IsWord(Fields(s)[i])
    decreases |s|
  {
    if s != [] {
      if IsSpace(s[0]) {
        FieldsAreWords(s[1..]);
      } else {
        FieldsAreWords(s[WordLength(s)..]);
      }
    }
  }

  lemma HydratedIsWords(line: string)
    requires Hydrate(line).Ok?
    ensures var e := Hydrate(line).value;
            IsWord(e.device) && IsWord(e.mountpoint) && IsWord(e.filesystem) && IsWord(e.options)
  {
    FieldsAreWords(line);
  }

  /** Entries of words that print alike have the same mount point. */
  lemma ShowInjective(a: Entry, b: Entry)
    requires IsWord(a.device) && IsWord(a.mountpoint) && IsWord(a.filesystem) && IsWord(a.options)
    requires IsWord(b.device) && IsWord(b.mountpoint) && IsWord(b.filesystem) && IsWord(b.options)
    requires Show(a) == Show(b)
    ensures a.mountpoint == b.mountpoint
  {
    FieldsOfShow(a, "");
    FieldsOfShow(b, "");
    assert Show(a) + "" == Show(b) + "";
  }

  lemma ShownIsLine(e: Entry)
    requires IsPrintable(e)
    ensures IsLine(Show(e) + "\n")
  {
    var l := Show(e) + "\n";
    ShowIntIsWord(e.d);
    ShowIntIsWord(e.p);
    forall i | 0 <= i < |l| - 1 ensures l[i] != '\n' {
      assert Show(e)[i] == l[i];
      ShowHasNoNewline(e, i);
    }
  }

  lemma ShowHasNoNewline(e: Entry, i: nat)
    requires IsPrintable(e) && i < |Show(e)|
    ensures Show(e)[i] != '\n'
  {
    ShowIntIsWord(e.d);
    ShowIntIsWord(e.p);
    assert forall c :: c in Show(e) ==> c == ' ' || c in e.device || c in e.mountpoint || c in e.filesystem
                                        || c in e.options || c in ShowInt(e.d) || c in ShowInt(e.p);
    assert Show(e)[i] in Show(e);
  }

  /** On a file of well-formed entries without this device and mount point, adding an entry and then
      removing it by mount point gives the file back exactly when the file ended in a newline:
      otherwise the new entry is glued to the last line. */
  lemma AddThenRemove(content: string, e: Entry)
    requires IsPrintable(e) && AllEntries(Lines(content))
    requires Find(Lines(content), Device, e.device) == Ok(None)
    requires Find(Lines(content), Mountpoint, e.mountpoint) == Ok(None)
    ensures AddText(content, e).Ok? && AddText(content, e).value.done
    ensures var added := AddText(content, e).value.content;
            (RemoveByMountpointText(added, e.mountpoint) == Ok(Outcome(true, content))) <==> IsTerminated(content)
  {
    var l := Show(e) + "\n";
    HydrateShow(e);
    ShownIsLine(e);
    if IsTerminated(content) {
      LinesAppend(content, l);
      var ls := Lines(content);
      FindAppend(ls, l, Mountpoint, e.mountpoint, e);
      LocateAppend(ls, l, e);
      assert Without(ls + [l], |ls|) == ls;
      JoinLines(content);
    } else {
      GluedNeverRestored(content, l, e.mountpoint);
    }
  }

  /** It does happen: an entry added to a file that is a lone comment without newline becomes part of the
      comment, and is not found again. */
  lemma AddedToComment(comment: string, e: Entry)
    requires "#" <= comment && (forall i :: 0 <= i < |comment| ==> comment[i] != '\n') && IsPrintable(e)
    ensures AllEntries(Lines(comment)) && !IsTerminated(comment)
    ensures Find(Lines(comment), Device, e.device) == Find(Lines(comment), Mountpoint, e.mountpoint) == Ok(None)
    ensures var added := comment + (Show(e) + "\n");
            && AddText(comment, e) == Ok(Outcome(true, added))
            && RemoveByMountpointText(added, e.mountpoint) == Ok(Outcome(false, added))
  {
    ShownIsLine(e);
    CommentOnly(comment);
    CommentOnly(comment + (Show(e) + "\n"));
  }

  lemma SomeEntryIsLost()
    ensures var e := Entry("a", "b", "c", "d", 0, 0);
            IsPrintable(e) && RemoveByMountpointText("#" + (Show(e) + "\n"), "b") != Ok(Outcome(true, "#"))
  {
    AddedToComment("#", Entry("a", "b", "c", "d", 0, 0));
  }

  lemma CommentOnly(line: string)
    requires NoInnerNewline(line) && "#" <= line
    ensures Lines(line) == [line] && AllEntries([line])
    ensures forall a, value :: Find([line], a, value) == Ok(None)
  {
    assert [line][0] == line && line == line + "";
    LinesJoin([line]);
    assert Join([line]) == line + Join([]);
    assert WordLength(line) > 0;
  }

  lemma GluedNeverRestored(content: string, l: string, mountpoint: string)
    requires !IsTerminated(content) && IsLine(l)
    ensures RemoveByMountpointText(content + l, mountpoint) != Ok(Outcome(true, content))
  {
    var ls := Lines(content + l);
    var found := Find(ls, Mountpoint, mountpoint);
    if found.Ok? && found.value.Some? {
      var at := Locate(ls, found.value.value);
      if at.Ok? && at.value.Some? {
        LocateInRange(ls, found.value.value);
        GluedMinusLine(content, l, at.value.value);
      }
    }
  }

  lemma GluedMinusLine(content: string, l: string, i: nat)
    requires !IsTerminated(content) && IsLine(l) && i < |Lines(content + l)|
    ensures Join(Without(Lines(content + l), i)) != content
  {
    GluedLast(content, l);
    NotRestored(content, l, Lines(content + l), i);
  }

  lemma NotRestored(content: string, l: string, ls: seq<string>, i: nat)
    requires !IsTerminated(content) && i < |ls| && Join(ls) == content + l
    requires IsLine(ls[|ls| - 1]) && |ls[|ls| - 1]| > |l|
    ensures Join(Without(ls, i)) != content
  {
    var front := JoinWithout(ls, i);
    if i < |ls| - 1 {
      LineEnds(front, ls[|ls| - 1]);
    }
  }

  lemma LineEnds(front: string, l: string)
    requires IsLine(l)
    ensures IsTerminated(front + l)
  {
  }

  lemma GluedLast(content: string, l: string)
    requires !IsTerminated(content) && IsLine(l)
    ensures var ls := Lines(content + l);
            && ls != [] && Join(ls) == content + l
            && IsLine(ls[|ls| - 1]) && |ls[|ls| - 1]| > |l|
  {
    GluedLineIsLonger(content, l);
    LineEnds(content, l);
    LinesAreLines(content + l);
    JoinLines(content + l);
  }

  /** Without its last line a text is shorter by that line; without any other it still ends in the last. */
  lemma JoinWithout(ls: seq<string>, i: nat) returns (front: string)
    requires i < |ls|
    ensures var j, last := Join(Without(ls, i)), ls[|ls| - 1];
            if i == |ls| - 1 then |j| == |Join(ls)| - |last| else j == front + last
  {
    var n := |ls| - 1;
    assert Join([ls[n]]) == ls[n] + Join([]) == ls[n];
    if i < n {
      front := Join(ls[..i] + ls[i + 1..n]);
      assert Without(ls, i) == (ls[..i] + ls[i + 1..n]) + [ls[n]];
      JoinAppend(ls[..i] + ls[i + 1..n], [ls[n]]);
    } else {
      front := [];
      assert Without(ls, i) == ls[..n] && ls == ls[..n] + [ls[n]];
      JoinAppend(ls[..n], [ls[n]]);
    }
  }

  /** The last line of glued text holds all of the new line and some of the old text. */
  lemma {:induction false} GluedLineIsLonger(content: string, l: string)
    requires !IsTerminated(content) && IsLine(l)
    ensures var ls := Lines(content + l);
            ls != [] && |ls[|ls| - 1]| > |l|
    decreases |content|
  {
    var n := LineLength(content);
    SplitFirst(content);
    if n == |content| {
      assert content[..n] == content;
      assert IsLine(content + l) by {
        assert forall i :: 0 <= i < |content| ==> content[i] != '\n';
      }
      assert (content + l) + "" == content + l;
      FirstLine(content + l, "");
    } else {
      Regroup(content[..n], content[n..], l);
      FirstLine(content[..n], content[n..] + l);
      GluedLineIsLonger(content[n..], l);
      SameLast(content[..n], Lines(content[n..] + l));
    }
  }

  lemma SameLast(head: string, rest: seq<string>)
    requires rest != []
    ensures var ls := [head] + rest;
            ls[|ls| - 1] == rest[|rest| - 1]
  {
  }
}
