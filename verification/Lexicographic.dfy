/**
  The order in which the original sorts strings and (stamp, unit) pairs: element by
  element, code point by code point.
 */
module Lexicographic {

  predicate Less(a: string, b: string) {
    if b == [] then false
    else if a == [] then true
    else a[0] < b[0] || (a[0] == b[0] && Less(a[1..], b[1..]))
  }

  /** In one line: a text sorts before another when it is a proper prefix of it, or has the smaller
      character where they first differ. */
  lemma {:induction false} LessIff(a: string, b: string)
    ensures Less(a, b) <==> a < b || exists i :: 0 <= i < |a| && i < |b| && a[..i] == b[..i] && a[i] < b[i]
  {
    if a != [] && b != [] {
      if a[0] == b[0] {
        LessIff(a[1..], b[1..]);
        assert a == [a[0]] + a[1..] && b == [b[0]] + b[1..];
        if Less(a[1..], b[1..]) && !(a[1..] < b[1..]) {
          var i :| 0 <= i < |a[1..]| && i < |b[1..]| && a[1..][..i] == b[1..][..i] && a[1..][i] < b[1..][i];
          assert a[..i + 1] == [a[0]] + a[1..][..i] && b[..i + 1] == [b[0]] + b[1..][..i];
          assert a[i + 1] < b[i + 1];
        }
        if i :| 0 <= i < |a| && i < |b| && a[..i] == b[..i] && a[i] < b[i] {
          assert a[1..][..i - 1] == a[..i][1..] && b[1..][..i - 1] == b[..i][1..];
          assert a[1..][i - 1] < b[1..][i - 1];
        }
      } else if a[0] < b[0] {
        assert a[..0] == b[..0];
      } else {
        forall i | 0 < i < |a| && i < |b| ensures a[..i] != b[..i] {
          assert a[..i][0] == a[0] && b[..i][0] == b[0];
        }
      }
    }
  }

  lemma {:induction false} LessIrreflexive(a: string)
    ensures !Less(a, a)
  {
    if a != [] {
      LessIrreflexive(a[1..]);
    }
  }

  lemma {:induction false} LessTransitive(a: string, b: string, c: string)
    requires Less(a, b) && Less(b, c)
    ensures Less(a, c)
  {
    if a != [] && a[0] == b[0] == c[0] {
      LessTransitive(a[1..], b[1..], c[1..]);
    }
  }

  lemma {:induction false} LessTotal(a: string, b: string)
    ensures a == b || Less(a, b) || Less(b, a)
  {
    if a != [] && b != [] && a[0] == b[0] {
      LessTotal(a[1..], b[1..]);
      assert a == [a[0]] + a[1..] && b == [b[0]] + b[1..];
    }
  }

  /** A place in a lock's queue: the text of the request's time stamp, then the unit's name. */
  datatype Ticket = Ticket(stamp: string, unit: string)

  predicate Before(a: Ticket, b: Ticket) {
    Less(a.stamp, b.stamp) || (a.stamp == b.stamp && Less(a.unit, b.unit))
  }

  lemma BeforeIrreflexive(a: Ticket)
    ensures !Before(a, a)
  {
    LessIrreflexive(a.stamp);
    LessIrreflexive(a.unit);
  }

  lemma BeforeTransitive(a: Ticket, b: Ticket, c: Ticket)
    requires Before(a, b) && Before(b, c)
    ensures Before(a, c)
  {
    if Less(a.stamp, b.stamp) && Less(b.stamp, c.stamp) {
      LessTransitive(a.stamp, b.stamp, c.stamp);
    } else if a.stamp == b.stamp == c.stamp {
      LessTransitive(a.unit, b.unit, c.unit);
    }
  }

  lemma BeforeTotal(a: Ticket, b: Ticket)
    ensures a == b || Before(a, b) || Before(b, a)
  {
    LessTotal(a.stamp, b.stamp);
    LessTotal(a.unit, b.unit);
  }

  lemma BeforeAsymmetric(a: Ticket, b: Ticket)
    requires Before(a, b)
    ensures a != b && !Before(b, a)
  {
    BeforeIrreflexive(a);
    if Before(b, a) {
      BeforeTransitive(a, b, a);
    }
  }

  /** `t` sorts no later than any ticket of `s`. */
  predicate IsLeast(t: Ticket, s: set<Ticket>) {
    t in s && forall x :: x in s ==> x == t || Before(t, x)
  }

  lemma {:induction false} LeastExists(s: set<Ticket>)
    requires s != {}
    ensures exists t :: IsLeast(t, s)
    decreases s
  {
    var t :| t in s;
    if s == {t} {
      assert IsLeast(t, s);
    } else {
      var rest := s - {t};
      LeastExists(rest);
      var m :| IsLeast(m, rest);
      BeforeTotal(t, m);
      var least := if Before(t, m) then t else m;
      forall x | x in s ensures x == least || Before(least, x) {
        if x != t && x != m && Before(t, m) {
          BeforeTransitive(t, m, x);
        }
      }
      assert IsLeast(least, s);
    }
  }

  lemma LeastUnique(a: Ticket, b: Ticket, s: set<Ticket>)
    requires IsLeast(a, s) && IsLeast(b, s)
    ensures a == b
  {
    if a != b {
      BeforeAsymmetric(a, b);
    }
  }

  /** Python's `sorted` on a set of pairs. */
  function Sorted(s: set<Ticket>): (q: seq<Ticket>)
    decreases s
  {
    if s == {} then []
    else
      assert exists t :: IsLeast(t, s) by { LeastExists(s); }
      assert forall a, b :: IsLeast(a, s) && IsLeast(b, s) ==> a == b by {
        forall a, b | IsLeast(a, s) && IsLeast(b, s) ensures a == b { LeastUnique(a, b, s); }
      }
      var t :| IsLeast(t, s);
      [t] + Sorted(s - {t})
  }

  /** Sorting keeps exactly the tickets of the set, each once, and puts them in strictly rising order. */
  lemma {:induction false} SortedIsOrdered(s: set<Ticket>)
    ensures |Sorted(s)| == |s|
    ensures forall x :: x in Sorted(s) <==> x in s
    ensures forall i, j :: 0 <= i < j < |Sorted(s)| ==> Before(Sorted(s)[i], Sorted(s)[j])
    decreases s
  {
    if s != {} {
      var q := Sorted(s);
      assert exists t :: IsLeast(t, s) by { LeastExists(s); }
      assert IsLeast(q[0], s) && q == [q[0]] + Sorted(s - {q[0]}) by {
        forall a, b | IsLeast(a, s) && IsLeast(b, s) ensures a == b { LeastUnique(a, b, s); }
      }
      SortedIsOrdered(s - {q[0]});
      forall i, j | 0 <= i < j < |q| ensures Before(q[i], q[j]) {
        assert q[j] == Sorted(s - {q[0]})[j - 1];
        assert q[j] in s - {q[0]};
      }
    }
  }

  /** The first of the sorted tickets is the least one. */
  lemma SortedHead(s: set<Ticket>)
    requires s != {}
    ensures |Sorted(s)| > 0 && IsLeast(Sorted(s)[0], s)
  {
  }
}
