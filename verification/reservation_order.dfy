/** The order the reservation listing is returned in: ascending by date,
    then by start time, both compared as strings. */
module ReservationOrder {
  import opened LexOrder
  import opened ReservationLedger

  /** `a` may precede `b` in the listing. */
  predicate KeyLe(a: Reservation, b: Reservation)
  {
    Less(a.date, b.date) || (a.date == b.date && LessOrEqual(a.startTime, b.startTime))
  }

  predicate Sorted(s: seq<Reservation>)
  {
    forall i, j :: 0 <= i < j < |s| ==> KeyLe(s[i], s[j])
  }

  lemma KeyLeTotal(a: Reservation, b: Reservation)
    ensures KeyLe(a, b) || KeyLe(b, a)
  {
    LessTrichotomous(a.date, b.date);
    LessTrichotomous(a.startTime, b.startTime);
  }

  lemma KeyLeTransitive(a: Reservation, b: Reservation, c: Reservation)
    requires KeyLe(a, b) && KeyLe(b, c)
    ensures KeyLe(a, c)
  {
    if Less(a.date, b.date) && Less(b.date, c.date) {
      LessTransitive(a.date, b.date, c.date);
    } else if a.date == b.date == c.date {
      LessOrEqualTransitive(a.startTime, b.startTime, c.startTime);
    }
  }

  /** Places `x` into a sorted listing, before the first entry it may precede. */
  function Insert(x: Reservation, s: seq<Reservation>): (r: seq<Reservation>)
    ensures multiset(r) == multiset(s) + multiset{x}
  {
    if |s| == 0 then [x]
    else if KeyLe(x, s[0]) then [x] + s
    else
      assert s == [s[0]] + s[1..];
      [s[0]] + Insert(x, s[1..])
  }

  /** Insertion sort by `(date, startTime)`. Entries with equal keys keep
      their insertion order. */
  function SortByKey(s: seq<Reservation>): (r: seq<Reservation>)
    ensures multiset(r) == multiset(s)
  {
    if |s| == 0 then []
    else
      assert s == [s[0]] + s[1..];
      Insert(s[0], SortByKey(s[1..]))
  }

  lemma HeadPrecedesRest(s: seq<Reservation>, y: Reservation)
    requires Sorted(s) && |s| > 0
    requires y in multiset(s[1..])
    ensures KeyLe(s[0], y)
  {
  }

  lemma {:induction false} InsertSorted(x: Reservation, s: seq<Reservation>)
    requires Sorted(s)
    ensures Sorted(Insert(x, s))
  {
    if |s| == 0 {
    } else if KeyLe(x, s[0]) {
      var r := [x] + s;
      assert r == Insert(x, s);
      forall i, j | 0 <= i < j < |r|
        ensures KeyLe(r[i], r[j])
      {
        if i == 0 && j > 1 {
          KeyLeTransitive(x, s[0], s[j - 1]);
        }
      }
    } else {
      KeyLeTotal(x, s[0]);
      var t := Insert(x, s[1..]);
      assert Sorted(s[1..]) by {
        forall i, j | 0 <= i < j < |s[1..]|
          ensures KeyLe(s[1..][i], s[1..][j])
        {
          assert s[1..][i] == s[i + 1] && s[1..][j] == s[j + 1];
        }
      }
      InsertSorted(x, s[1..]);
      var r := [s[0]] + t;
      assert r == Insert(x, s);
      forall i, j | 0 <= i < j < |r|
        ensures KeyLe(r[i], r[j])
      {
        if i == 0 {
          var y := t[j - 1];
          assert y in multiset(t);
          if y != x {
            HeadPrecedesRest(s, y);
          }
        } else {
          assert r[i] == t[i - 1] && r[j] == t[j - 1];
        }
      }
    }
  }

  lemma {:induction false} SortByKeySorted(s: seq<Reservation>)
    ensures Sorted(SortByKey(s))
  {
    if |s| > 0 {
      SortByKeySorted(s[1..]);
      InsertSorted(s[0], SortByKey(s[1..]));
    }
  }
}
