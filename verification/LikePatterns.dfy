/**
  SQL's LIKE as SQLite evaluates it: `%` stands for any text, `_` for any one character, and
  ASCII letters match regardless of case. `getrange` and `unsetrange` hand it a prefix plus `%`.
 */
module LikePatterns {

  predicate IsLetter(c: char) {
    'a' <= c <= 'z' || 'A' <= c <= 'Z'
  }

  function Fold(c: char): char {
    if 'A' <= c <= 'Z' then 'a' + (c - 'A') else c
  }

  function FoldAll(s: string): (r: string)
    ensures |r| == |s|
  {
    seq(|s|, i requires 0 <= i < |s| => Fold(s[i]))
  }

  predicate Like(pattern: string, text: string)
    decreases |pattern| + |text|
  {
    if pattern == [] then text == []
    else if pattern[0] == '%' then
      Like(pattern[1..], text) || (text != [] && Like(pattern, text[1..]))
    else
      text != [] && (pattern[0] == '_' || Fold(pattern[0]) == Fold(text[0])) && Like(pattern[1..], text[1..])
  }

  /** The keys a prefix scan returns. */
  predicate InScan(prefix: string, key: string) {
    Like(prefix + "%", key)
  }

  predicate WildcardFree(s: string) {
    '%' !in s && '_' !in s
  }

  /** No wildcard and no letter: nothing in the text has a second reading. */
  predicate Literal(s: string) {
    WildcardFree(s) && forall i :: 0 <= i < |s| ==> !IsLetter(s[i])
  }

  lemma {:induction false} PercentMatchesAll(text: string)
    ensures Like("%", text)
    decreases |text|
  {
    if text != [] {
      PercentMatchesAll(text[1..]);
    }
  }

  /** One character of the pattern against one character of the text. */
  predicate Fits(p: char, c: char) {
    p == '%' || p == '_' || Fold(p) == Fold(c)
  }

  /** A text that fits the prefix character by character is scanned, whatever follows. */
  lemma {:induction false} PointwiseScan(prefix: string, key: string)
    requires |prefix| <= |key|
    requires forall i :: 0 <= i < |prefix| ==> Fits(prefix[i], key[i])
    ensures InScan(prefix, key)
    decreases |prefix|
  {
    if prefix == [] {
      assert prefix + "%" == "%";
      PercentMatchesAll(key);
    } else {
      PointwiseScan(prefix[1..], key[1..]);
      assert (prefix + "%")[1..] == prefix[1..] + "%";
      if prefix[0] == '%' {
        PercentAbsorbs(prefix[1..] + "%", key);
      }
    }
  }

  lemma PercentAbsorbs(rest: string, key: string)
    requires key != [] && Like(rest, key[1..])
    ensures Like("%" + rest, key)
  {
  }

  // ---------------------------------------------------------------- what the wildcards mean

  /** Two characters fold alike when they are equal or the two cases of one ASCII letter. */
  lemma FoldIff(a: char, b: char)
    ensures Fold(a) == Fold(b) <==>
            a == b || ('a' <= a <= 'z' && b as int == a as int - 32) || ('A' <= a <= 'Z' && b as int == a as int + 32)
  {
  }

  /** `%` stands for any text, the empty one included. */
  lemma {:induction false} PercentIsAny(rest: string, text: string)
    ensures Like("%" + rest, text) <==> exists i :: 0 <= i <= |text| && Like(rest, text[i..])
    decreases |text|
  {
    assert ("%" + rest)[1..] == rest;
    if text != [] {
      PercentIsAny(rest, text[1..]);
      if i :| 0 <= i <= |text[1..]| && Like(rest, text[1..][i..]) {
        assert text[1..][i..] == text[i + 1..];
      }
      if i :| 0 < i <= |text| && Like(rest, text[i..]) {
        assert text[1..][i - 1..] == text[i..];
      }
    }
    assert text[0..] == text;
  }

  /** Without `%`, a pattern matches texts of its own length, `_` standing for one character. */
  lemma {:induction false} LikeIsPointwise(pattern: string, text: string)
    requires '%' !in pattern
    ensures Like(pattern, text) <==>
            && |pattern| == |text|
            && forall i :: 0 <= i < |text| ==> pattern[i] == '_' || Fold(pattern[i]) == Fold(text[i])
    decreases |pattern|
  {
    if pattern != [] && text != [] {
      LikeIsPointwise(pattern[1..], text[1..]);
      var p, s := pattern[1..], text[1..];
      assert forall i :: 0 < i < |text| && i < |pattern| ==> pattern[i] == p[i - 1] && text[i] == s[i - 1];
      assert |p| == |s| ==> forall i :: 0 <= i < |s| ==> p[i] == pattern[i + 1] && s[i] == text[i + 1];
    }
  }

  /** A key is scanned when some beginning of it matches the prefix, wildcards and all. */
  lemma {:induction false} ScanIsBeginning(prefix: string, key: string)
    ensures InScan(prefix, key) <==> exists n :: 0 <= n <= |key| && Like(prefix, key[..n])
    decreases |prefix| + |key|
  {
    if prefix == [] {
      assert prefix + "%" == "%";
      PercentMatchesAll(key);
      assert Like(prefix, key[..0]);
    } else {
      assert (prefix + "%")[1..] == prefix[1..] + "%" && (prefix + "%")[0] == prefix[0];
      if key != [] {
        assert forall n :: 0 < n <= |key| ==> key[..n][1..] == key[1..][..n - 1] && key[..n][0] == key[0];
        ScanIsBeginning(prefix[1..], key[1..]);
        ScanIsBeginning(prefix, key[1..]);
      }
      if prefix[0] == '%' {
        ScanIsBeginning(prefix[1..], key);
        BeginningsAfterPercent(prefix, key);
      } else {
        BeginningsAfterOne(prefix, key);
      }
    }
  }

  lemma BeginningsAfterPercent(prefix: string, key: string)
    requires prefix != [] && prefix[0] == '%'
    ensures (exists n :: 0 <= n <= |key| && Like(prefix, key[..n])) <==>
            || (exists n :: 0 <= n <= |key| && Like(prefix[1..], key[..n]))
            || (key != [] && exists n :: 0 <= n <= |key[1..]| && Like(prefix, key[1..][..n]))
  {
    if n :| 0 <= n <= |key| && Like(prefix, key[..n]) {
      if !Like(prefix[1..], key[..n]) {
        assert key[..n][1..] == key[1..][..n - 1];
      }
    }
    if key != [] {
      if n :| 0 <= n <= |key[1..]| && Like(prefix, key[1..][..n]) {
        assert key[..n + 1][1..] == key[1..][..n];
      }
    }
  }

  lemma BeginningsAfterOne(prefix: string, key: string)
    requires prefix != [] && prefix[0] != '%'
    ensures (exists n :: 0 <= n <= |key| && Like(prefix, key[..n])) <==>
            && key != [] && (prefix[0] == '_' || Fold(prefix[0]) == Fold(key[0]))
            && exists n :: 0 <= n <= |key[1..]| && Like(prefix[1..], key[1..][..n])
  {
    if n :| 0 <= n <= |key| && Like(prefix, key[..n]) {
      assert key[..n][1..] == key[1..][..n - 1] && key[..n][0] == key[0];
    }
    if key != [] {
      if n :| 0 <= n <= |key[1..]| && Like(prefix[1..], key[1..][..n]) {
        assert key[..n + 1][1..] == key[1..][..n] && key[..n + 1][0] == key[0];
      }
    }
  }

  /** Every key with the prefix is scanned. */
  lemma PrefixIsScanned(prefix: string, key: string)
    requires prefix <= key
    ensures InScan(prefix, key)
  {
    PointwiseScan(prefix, key);
  }

  /** Without wildcards, the scan returns the keys that have the prefix up to ASCII case. */
  lemma {:induction false} ScanIsFoldedPrefix(prefix: string, key: string)
    requires WildcardFree(prefix)
    ensures InScan(prefix, key) <==> |prefix| <= |key| && FoldAll(prefix) == FoldAll(key[..|prefix|])
    decreases |prefix|
  {
    if prefix == [] {
      assert prefix + "%" == "%";
      PercentMatchesAll(key);
    } else {
      assert (prefix + "%")[1..] == prefix[1..] + "%";
      assert prefix[0] in prefix;
      assert forall c :: c in prefix[1..] ==> c in prefix;
      if key != [] {
        ScanIsFoldedPrefix(prefix[1..], key[1..]);
        if |prefix| <= |key| {
          var a, b := FoldAll(prefix), FoldAll(key[..|prefix|]);
          assert a == [Fold(prefix[0])] + FoldAll(prefix[1..]);
          assert key[..|prefix|][1..] == key[1..][..|prefix| - 1];
          assert b == [Fold(key[0])] + FoldAll(key[1..][..|prefix| - 1]);
          assert a == b <==> a[0] == b[0] && a[1..] == b[1..];
        }
      }
    }
  }

  /** Scanning is plain prefix filtering for every content of the store exactly when the prefix
      has neither wildcards nor letters. */
  lemma ScanIsExact(prefix: string)
    ensures (forall key :: InScan(prefix, key) ==> prefix <= key) <==> Literal(prefix)
  {
    if Literal(prefix) {
      forall key | InScan(prefix, key) ensures prefix <= key {
        ScanIsFoldedPrefix(prefix, key);
        forall i | 0 <= i < |prefix| ensures key[i] == prefix[i] {
          assert FoldAll(prefix)[i] == FoldAll(key[..|prefix|])[i];
        }
      }
    } else {
      var i :| 0 <= i < |prefix| && (prefix[i] == '%' || prefix[i] == '_' || IsLetter(prefix[i]));
      var other := OtherReading(prefix[i]);
      var key := prefix[i := other];
      PointwiseScan(prefix, key);
      assert key[i] != prefix[i];
      assert !(prefix <= key);
    }
  }

  function OtherReading(c: char): (d: char)
    requires c == '%' || c == '_' || IsLetter(c)
    ensures d != c && Fits(c, d)
  {
    if 'a' <= c <= 'z' then 'A' + (c - 'a')
    else if 'A' <= c <= 'Z' then 'a' + (c - 'A')
    else 'x'
  }
}
