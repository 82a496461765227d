/**
 The order of a patient's appointment list: ascending by date, then by time
 label. Time labels are strings, and the store orders strings by comparing
 characters from the left, so "10:00" sorts before "9:00".
 */
module Listing {
  import opened Ledger

  /** Lexicographic order on strings, character by character. */
  predicate TextLe(a: string, b: string)
    decreases |a|
  {
    |a| == 0 || (|b| > 0 && (a[0] < b[0] || (a[0] == b[0] && TextLe(a[1..], b[1..]))))
  }

  lemma {:induction false} TextLeTotal(a: string, b: string)
    ensures TextLe(a, b) || TextLe(b, a)
    decreases |a|
  {
    if |a| > 0 && |b| > 0 && a[0] == b[0] {
      TextLeTotal(a[1..], b[1..]);
    }
  }

  lemma {:induction false} TextLeTransitive(a: string, b: string, c: string)
    requires TextLe(a, b) && TextLe(b, c)
    ensures TextLe(a, c)
    decreases |a|
  {
    if |a| > 0 && a[0] == b[0] && b[0] == c[0] {
      TextLeTransitive(a[1..], b[1..], c[1..]);
    }
  }

  /** `x` may come before `y`: an earlier day, or the same day and a time label not after. */
  predicate DateTimeLe(x: Appointment, y: Appointment) {
    x.day < y.day || (x.day == y.day && TextLe(x.time, y.time))
  }

  lemma DateTimeLeTotal(x: Appointment, y: Appointment)
    ensures DateTimeLe(x, y) || DateTimeLe(y, x)
  {
    TextLeTotal(x.time, y.time);
  }

  lemma DateTimeLeTransitive(x: Appointment, y: Appointment, z: Appointment)
    requires DateTimeLe(x, y) && DateTimeLe(y, z)
    ensures DateTimeLe(x, z)
  {
    if x.day == y.day == z.day {
      TextLeTransitive(x.time, y.time, z.time);
    }
  }

  predicate SortedByDateTime(xs: seq<Appointment>) {
    forall i, j :: 0 <= i < j < |xs| ==> DateTimeLe(xs[i], xs[j])
  }

  /** An element that may precede the head of a sorted list may precede all of it. */
  lemma BelowHeadBelowAll(x: Appointment, xs: seq<Appointment>)
    requires SortedByDateTime(xs) && |xs| > 0 && DateTimeLe(x, xs[0])
    ensures forall j :: 0 <= j < |xs| ==> DateTimeLe(x, xs[j])
  {
    forall j | 0 < j < |xs|
      ensures DateTimeLe(x, xs[j])
    {
      DateTimeLeTransitive(x, xs[0], xs[j]);
    }
  }

  /** The head of a sorted list may precede every element of its tail with one element added. */
  lemma HeadBelowInserted(x: Appointment, xs: seq<Appointment>, rest: seq<Appointment>)
    requires SortedByDateTime(xs) && |xs| > 0 && DateTimeLe(xs[0], x)
    requires multiset(rest) == multiset(xs[1..]) + multiset{x}
    ensures forall j :: 0 <= j < |rest| ==> DateTimeLe(xs[0], rest[j])
  {
    forall j | 0 <= j < |rest|
      ensures DateTimeLe(xs[0], rest[j])
    {
      assert rest[j] in multiset(rest);
      if rest[j] != x {
        assert rest[j] in multiset(xs[1..]);
        var k :| 0 <= k < |xs[1..]| && xs[1..][k] == rest[j];
        assert xs[k + 1] == rest[j];
      }
    }
  }

  /** Places `x` into a sorted list, before the first element it may precede. */
  function Insert(x: Appointment, xs: seq<Appointment>): (r: seq<Appointment>)
    requires SortedByDateTime(xs)
    ensures SortedByDateTime(r)
    ensures multiset(r) == multiset(xs) + multiset{x}
  {
    if |xs| == 0 then [x]
    else if DateTimeLe(x, xs[0]) then
      BelowHeadBelowAll(x, xs);
      assert xs == [xs[0]] + xs[1..];
      [x] + xs
    else
      DateTimeLeTotal(x, xs[0]);
      var rest := Insert(x, xs[1..]);
      HeadBelowInserted(x, xs, rest);
      assert xs == [xs[0]] + xs[1..];
      [xs[0]] + rest
  }

  /** Insertion sort: a sorted arrangement of exactly the given appointments. */
  function SortByDateTime(xs: seq<Appointment>): (r: seq<Appointment>)
    ensures SortedByDateTime(r)
    ensures multiset(r) == multiset(xs)
  {
    if |xs| == 0 then []
    else
      assert xs == [xs[0]] + xs[1..];
      Insert(xs[0], SortByDateTime(xs[1..]))
  }
}
