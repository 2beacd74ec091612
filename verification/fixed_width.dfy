/** Times of day and calendar dates reach the store as the zero-padded
    strings a browser's `time` and `date` inputs produce, "HH:MM" and
    "YYYY-MM-DD", and the store compares them as strings. This module shows
    that on such fixed-width strings the string order is the numeric one. */
module FixedWidth {
  import opened LexOrder

  predicate IsDigit(c: char)
  {
    '0' <= c <= '9'
  }

  predicate AllDigits(s: string)
  {
    forall i :: 0 <= i < |s| ==> IsDigit(s[i])
  }

  function DigitValue(c: char): (d: nat)
    requires IsDigit(c)
    ensures d < 10
  {
    (c as int) - ('0' as int)
  }

  function Pow10(n: nat): (p: nat)
    ensures p >= 1
  {
    if n == 0 then 1 else 10 * Pow10(n - 1)
  }

  /** The number a string of decimal digits denotes, most significant first. */
  function Value(s: string): (n: nat)
    requires AllDigits(s)
  {
    if |s| == 0 then 0 else DigitValue(s[0]) * Pow10(|s| - 1) + Value(s[1..])
  }

  /** The digits of `s`, separators dropped. */
  function Digits(s: string): (r: string)
    ensures AllDigits(r)
    ensures |r| <= |s|
  {
    if |s| == 0 then []
    else if IsDigit(s[0]) then [s[0]] + Digits(s[1..])
    else Digits(s[1..])
  }

  /** Two strings of one fixed-width format: digits in the same positions
      and identical separators everywhere else. */
  predicate SameShape(a: string, b: string)
  {
    && |a| == |b|
    && forall i :: 0 <= i < |a| ==>
         (IsDigit(a[i]) <==> IsDigit(b[i])) && (!IsDigit(a[i]) ==> a[i] == b[i])
  }

  lemma {:induction false} ValueBound(s: string)
    requires AllDigits(s)
    ensures Value(s) < Pow10(|s|)
  {
    if |s| > 0 {
      ValueBound(s[1..]);
      var d, p := DigitValue(s[0]), Pow10(|s| - 1);
      assert Value(s) == d * p + Value(s[1..]);
      assert Pow10(|s|) == 10 * p;
      assert d * p <= 9 * p by { MultiplyMonotone(d, 9, p); }
    }
  }

  lemma {:induction false} SameShapeSameDigitCount(a: string, b: string)
    requires SameShape(a, b)
    ensures |Digits(a)| == |Digits(b)|
  {
    if |a| > 0 {
      assert SameShape(a[1..], b[1..]) by {
        forall i | 0 <= i < |a[1..]|
          ensures (IsDigit(a[1..][i]) <==> IsDigit(b[1..][i])) && (!IsDigit(a[1..][i]) ==> a[1..][i] == b[1..][i])
        {
          assert a[1..][i] == a[i + 1] && b[1..][i] == b[i + 1];
        }
      }
      SameShapeSameDigitCount(a[1..], b[1..]);
    }
  }

  lemma MultiplyMonotone(x: nat, y: nat, p: nat)
    requires x <= y
    ensures x * p <= y * p
  {
  }

  /** With the leading digit weighted by 10^k and a tail below 10^k, the
      numbers compare as their leading digits do, then as their tails. */
  lemma LeadingDigitDecides(x: nat, y: nat, u: nat, v: nat, k: nat)
    requires x < 10 && y < 10
    requires u < Pow10(k) && v < Pow10(k)
    ensures x * Pow10(k) + u < y * Pow10(k) + v <==> x < y || (x == y && u < v)
  {
    var p := Pow10(k);
    if x < y {
      assert x * p + u < (x + 1) * p <= y * p + v;
    } else if y < x {
      assert y * p + v < (y + 1) * p <= x * p + u;
    }
  }

  /** On strings of one fixed-width shape, the store's string order is the
      order of the numbers their digits spell. */
  lemma {:induction false} LessIsNumericOrder(a: string, b: string)
    requires SameShape(a, b)
    ensures Less(a, b) <==> Value(Digits(a)) < Value(Digits(b))
  {
    if |a| > 0 {
      var a', b' := a[1..], b[1..];
      assert SameShape(a', b') by {
        forall i | 0 <= i < |a'|
          ensures (IsDigit(a'[i]) <==> IsDigit(b'[i])) && (!IsDigit(a'[i]) ==> a'[i] == b'[i])
        {
          assert a'[i] == a[i + 1] && b'[i] == b[i + 1];
        }
      }
      LessIsNumericOrder(a', b');
      if IsDigit(a[0]) {
        assert IsDigit(b[0]);
        var da, db := Digits(a'), Digits(b');
        SameShapeSameDigitCount(a', b');
        ValueBound(da);
        ValueBound(db);
        assert Digits(a) == [a[0]] + da;
        assert Digits(b) == [b[0]] + db;
        assert ([a[0]] + da)[1..] == da;
        assert ([b[0]] + db)[1..] == db;
        assert Value(Digits(a)) == DigitValue(a[0]) * Pow10(|da|) + Value(da);
        assert Value(Digits(b)) == DigitValue(b[0]) * Pow10(|da|) + Value(db);
        LeadingDigitDecides(DigitValue(a[0]), DigitValue(b[0]), Value(da), Value(db), |da|);
      } else {
        assert a[0] == b[0];
      }
    } else {
      assert |b| == 0;
    }
  }

  /** A two-digit field starting at position `i`. */
  function TwoDigits(s: string, i: nat): (n: nat)
    requires i + 1 < |s| && IsDigit(s[i]) && IsDigit(s[i + 1])
    ensures n < 100
  {
    10 * DigitValue(s[i]) + DigitValue(s[i + 1])
  }

  /** A time of day as the form's `time` input writes it: "HH:MM". */
  predicate IsClock(s: string)
  {
    && |s| == 5
    && IsDigit(s[0]) && IsDigit(s[1]) && s[2] == ':' && IsDigit(s[3]) && IsDigit(s[4])
    && TwoDigits(s, 0) < 24 && TwoDigits(s, 3) < 60
  }

  /** Minutes since midnight. */
  function Minutes(s: string): (m: nat)
    requires IsClock(s)
    ensures m < 24 * 60
  {
    60 * TwoDigits(s, 0) + TwoDigits(s, 3)
  }

  lemma ClockDigits(s: string)
    requires IsClock(s)
    ensures Value(Digits(s)) == 100 * TwoDigits(s, 0) + TwoDigits(s, 3)
  {
    assert Digits(s[4..]) == [s[4]];
    assert Digits(s[3..]) == [s[3]] + Digits(s[4..]);
    assert Digits(s[2..]) == Digits(s[3..]);
    assert Digits(s[1..]) == [s[1]] + Digits(s[2..]);
    assert Digits(s) == [s[0]] + Digits(s[1..]);
    var d := Digits(s);
    assert d == [s[0], s[1], s[3], s[4]];
    assert Value(d[3..]) == DigitValue(s[4]);
    assert Value(d[2..]) == 10 * DigitValue(s[3]) + Value(d[3..]);
    assert Value(d[1..]) == 100 * DigitValue(s[1]) + Value(d[2..]);
    assert Value(d) == 1000 * DigitValue(s[0]) + Value(d[1..]);
  }

  /** On "HH:MM" strings the store's string order is the order of the
      times of day they name. */
  lemma ClockOrderIsTimeOrder(a: string, b: string)
    requires IsClock(a) && IsClock(b)
    ensures Less(a, b) <==> Minutes(a) < Minutes(b)
  {
    assert SameShape(a, b);
    LessIsNumericOrder(a, b);
    ClockDigits(a);
    ClockDigits(b);
  }

  /** A calendar date as the form's `date` input writes it: "YYYY-MM-DD". */
  predicate IsIsoDate(s: string)
  {
    && |s| == 10
    && IsDigit(s[0]) && IsDigit(s[1]) && IsDigit(s[2]) && IsDigit(s[3]) && s[4] == '-'
    && IsDigit(s[5]) && IsDigit(s[6]) && s[7] == '-' && IsDigit(s[8]) && IsDigit(s[9])
  }

  function Year(s: string): (y: nat)
    requires IsIsoDate(s)
  {
    100 * TwoDigits(s, 0) + TwoDigits(s, 2)
  }

  function Month(s: string): (m: nat)
    requires IsIsoDate(s)
  {
    TwoDigits(s, 5)
  }

  function Day(s: string): (d: nat)
    requires IsIsoDate(s)
  {
    TwoDigits(s, 8)
  }

  /** Calendar order: by year, then month, then day. */
  predicate DateBefore(a: string, b: string)
    requires IsIsoDate(a) && IsIsoDate(b)
  {
    || Year(a) < Year(b)
    || (Year(a) == Year(b) && Month(a) < Month(b))
    || (Year(a) == Year(b) && Month(a) == Month(b) && Day(a) < Day(b))
  }

  lemma IsoDateDigitString(s: string)
    requires IsIsoDate(s)
    ensures Digits(s) == [s[0], s[1], s[2], s[3], s[5], s[6], s[8], s[9]]
  {
    assert Digits(s[9..]) == [s[9]];
    assert Digits(s[8..]) == [s[8]] + Digits(s[9..]);
    assert Digits(s[7..]) == Digits(s[8..]);
    assert Digits(s[6..]) == [s[6]] + Digits(s[7..]);
    assert Digits(s[5..]) == [s[5]] + Digits(s[6..]);
    assert Digits(s[4..]) == Digits(s[5..]);
    assert Digits(s[3..]) == [s[3]] + Digits(s[4..]);
    assert Digits(s[2..]) == [s[2]] + Digits(s[3..]);
    assert Digits(s[1..]) == [s[1]] + Digits(s[2..]);
  }

  lemma EightDigitValue(d: string)
    requires |d| == 8 && AllDigits(d)
    ensures Value(d) == 1000000 * TwoDigits(d, 0) + 10000 * TwoDigits(d, 2) + 100 * TwoDigits(d, 4) + TwoDigits(d, 6)
  {
    assert Value(d[7..]) == DigitValue(d[7]);
    assert Value(d[6..]) == 10 * DigitValue(d[6]) + Value(d[7..]);
    assert Value(d[5..]) == 100 * DigitValue(d[5]) + Value(d[6..]);
    assert Value(d[4..]) == 1000 * DigitValue(d[4]) + Value(d[5..]);
    assert Value(d[3..]) == 10000 * DigitValue(d[3]) + Value(d[4..]);
    assert Value(d[2..]) == 100000 * DigitValue(d[2]) + Value(d[3..]);
    assert Value(d[1..]) == 1000000 * DigitValue(d[1]) + Value(d[2..]);
    assert Value(d) == 10000000 * DigitValue(d[0]) + Value(d[1..]);
  }

  lemma IsoDateDigits(s: string)
    requires IsIsoDate(s)
    ensures Value(Digits(s)) == 10000 * Year(s) + 100 * Month(s) + Day(s)
  {
    IsoDateDigitString(s);
    var d := Digits(s);
    EightDigitValue(d);
    assert TwoDigits(d, 0) == TwoDigits(s, 0) && TwoDigits(d, 2) == TwoDigits(s, 2);
    assert TwoDigits(d, 4) == TwoDigits(s, 5) && TwoDigits(d, 6) == TwoDigits(s, 8);
  }

  /** On "YYYY-MM-DD" strings the store's string order is calendar order. */
  lemma DateOrderIsCalendarOrder(a: string, b: string)
    requires IsIsoDate(a) && IsIsoDate(b)
    ensures Less(a, b) <==> DateBefore(a, b)
  {
    assert SameShape(a, b);
    LessIsNumericOrder(a, b);
    IsoDateDigits(a);
    IsoDateDigits(b);
  }
}
