/**
 * Tenant-scoped identifiers (utils/idGenerator.js). `Date.now()` and the
 * integer drawn by `Math.floor(Math.random() * N)` are parameters.
 */
module IdGenerator {

  predicate IsDigit(c: char) {
    '0' <= c <= '9'
  }

  predicate AllDigits(s: string) {
    forall i :: 0 <= i < |s| ==> IsDigit(s[i])
  }

  function DigitChar(d: nat): (c: char)
    requires d < 10
    ensures IsDigit(c)
  {
    ('0' as int + d) as char
  }

  function DigitValue(c: char): (d: nat)
    requires IsDigit(c)
    ensures d < 10
  {
    c as int - '0' as int
  }

  function Pow10(k: nat): (p: nat)
    ensures p >= 1
  {
    if k == 0 then 1 else 10 * Pow10(k - 1)
  }

  /** `Number.prototype.toString()` of a non-negative integer: its decimal digits, most significant first. */
  function Decimal(n: nat): (s: string)
    ensures |s| >= 1 && AllDigits(s)
  {
    if n < 10 then [DigitChar(n)] else Decimal(n / 10) + [DigitChar(n % 10)]
  }

  /** The number a string of decimal digits denotes. */
  function ValueOf(s: string): nat
    requires AllDigits(s)
  {
    if s == [] then 0 else 10 * ValueOf(s[..|s| - 1]) + DigitValue(s[|s| - 1])
  }

  /** `s.slice(-k)` for k > 0: the last k characters, or all of s when it is shorter. */
  function SliceLast(s: string, k: nat): (r: string)
  {
    if k <= |s| then s[|s| - k..] else s
  }

  function Zeros(n: nat): (z: string)
    ensures |z| == n && forall i :: 0 <= i < n ==> z[i] == '0'
  {
    if n == 0 then [] else Zeros(n - 1) + ['0']
  }

  /** `s.padStart(w, '0')`. */
  function PadStart(s: string, w: nat): (r: string)
  {
    if |s| >= w then s else Zeros(w - |s|) + s
  }

  const StudentPrefix := "STU-"
  const StaffPrefix := "TCH-"

  /** generateStudentRegNo: "STU-", the last 6 characters of the timestamp, the random draw padded to 3. */
  function StudentRegNo(timestamp: nat, r: nat): string
    requires r < 1000
  {
    StudentPrefix + SliceLast(Decimal(timestamp), 6) + PadStart(Decimal(r), 3)
  }

  /** generateStaffId: "TCH-", the last 5 characters of the timestamp, the random draw padded to 2. */
  function StaffId(timestamp: nat, r: nat): string
    requires r < 100
  {
    StaffPrefix + SliceLast(Decimal(timestamp), 5) + PadStart(Decimal(r), 2)
  }

  // ---------------------------------------------------------------------
  // Lengths of decimal strings

  lemma {:induction false} DecimalLengthBelow(n: nat, k: nat)
    requires 1 <= k && n < Pow10(k)
    ensures |Decimal(n)| <= k
  {
    if n >= 10 {
      DecimalLengthBelow(n / 10, k - 1);
    }
  }

  lemma {:induction false} DecimalLengthAtLeast(n: nat, k: nat)
    requires n >= Pow10(k)
    ensures |Decimal(n)| >= k + 1
  {
    if k > 0 {
      DecimalLengthAtLeast(n / 10, k - 1);
    }
  }

  // ---------------------------------------------------------------------
  // Digit strings and their values

  lemma {:induction false} ValueOfDecimal(n: nat)
    ensures ValueOf(Decimal(n)) == n
  {
    var s := Decimal(n);
    if n >= 10 {
      assert s[..|s| - 1] == Decimal(n / 10);
      ValueOfDecimal(n / 10);
    }
  }

  lemma {:induction false} ValueOfZeros(n: nat)
    ensures ValueOf(Zeros(n)) == 0
  {
    if n > 0 {
      assert Zeros(n)[..n - 1] == Zeros(n - 1);
      ValueOfZeros(n - 1);
    }
  }

  /** Leading zeros do not change the value of a digit string. */
  lemma {:induction false} ValueOfZerosPrefix(n: nat, s: string)
    requires AllDigits(s)
    ensures AllDigits(Zeros(n) + s) && ValueOf(Zeros(n) + s) == ValueOf(s)
  {
    var t := Zeros(n) + s;
    if s == [] {
      assert t == Zeros(n);
      ValueOfZeros(n);
    } else {
      assert t[..|t| - 1] == Zeros(n) + s[..|s| - 1];
      ValueOfZerosPrefix(n, s[..|s| - 1]);
    }
  }

  lemma LastDigitDetermined(a: nat, x: nat, b: nat, y: nat)
    requires x < 10 && y < 10 && 10 * a + x == 10 * b + y
    ensures a == b && x == y
  {
  }

  /** Two digit strings of the same length and the same value are the same string. */
  lemma {:induction false} ValueOfInjective(s: string, t: string)
    requires AllDigits(s) && AllDigits(t) && |s| == |t|
    requires ValueOf(s) == ValueOf(t)
    ensures s == t
  {
    if s != [] {
      var n := |s|;
      var s', t' := s[..n - 1], t[..n - 1];
      assert AllDigits(s') && AllDigits(t');
      assert ValueOf(s) == 10 * ValueOf(s') + DigitValue(s[n - 1]);
      assert ValueOf(t) == 10 * ValueOf(t') + DigitValue(t[n - 1]);
      LastDigitDetermined(ValueOf(s'), DigitValue(s[n - 1]), ValueOf(t'), DigitValue(t[n - 1]));
      ValueOfInjective(s', t');
      assert s == s' + [s[n - 1]];
      assert t == t' + [t[n - 1]];
    }
  }

  /** Appending the last digit of n to a representation of n / 10. */
  lemma ShiftDigit(n: nat, p: nat, q: nat, v: nat)
    requires n / 10 == p * q + v && v < p
    ensures n == (10 * p) * q + (10 * v + n % 10) && 10 * v + n % 10 < 10 * p
  {
    assert 10 * (p * q) == (10 * p) * q;
  }

  /** A prefix followed by two digit strings: where each part sits. */
  lemma Parts(p: string, a: string, b: string)
    requires AllDigits(a) && AllDigits(b)
    ensures var s := p + a + b;
      && |s| == |p| + |a| + |b| && s[..|p|] == p && AllDigits(s[|p|..])
      && s[|p|..|p| + |a|] == a && s[|p| + |a|..] == b
  {
    var s := p + a + b;
    assert s[|p|..] == a + b;
  }

  lemma Pow10Values()
    ensures Pow10(2) == 100 && Pow10(3) == 1000 && Pow10(4) == 10000
    ensures Pow10(5) == 100000 && Pow10(6) == 1000000
  {
  }

  /**
   * The last k characters of a decimal string of at least k digits are k
   * digits denoting n mod 10^k: a value below 10^k that differs from n by a
   * multiple q of 10^k.
   */
  lemma {:induction false} ValueOfLastDigits(n: nat, k: nat) returns (q: nat)
    requires k <= |Decimal(n)|
    ensures AllDigits(SliceLast(Decimal(n), k))
    ensures |SliceLast(Decimal(n), k)| == k
    ensures ValueOf(SliceLast(Decimal(n), k)) < Pow10(k)
    ensures n == Pow10(k) * q + ValueOf(SliceLast(Decimal(n), k))
  {
    var s := Decimal(n);
    var t := SliceLast(s, k);
    if k == 0 {
      assert t == [];
      q := n;
    } else if n < 10 {
      assert t == s;
      assert t[..0] == [];
      q := 0;
    } else {
      var u := SliceLast(Decimal(n / 10), k - 1);
      assert t[..k - 1] == u;
      var q' := ValueOfLastDigits(n / 10, k - 1);
      assert ValueOf(t) == 10 * ValueOf(u) + n % 10;
      ShiftDigit(n, Pow10(k - 1), q', ValueOf(u));
      q := q';
    }
  }

  /** Padding a decimal string that fits in w characters gives exactly w digits that denote the same number. */
  lemma PaddedDecimal(r: nat, w: nat)
    requires 1 <= w && r < Pow10(w)
    ensures |PadStart(Decimal(r), w)| == w
    ensures AllDigits(PadStart(Decimal(r), w))
    ensures ValueOf(PadStart(Decimal(r), w)) == r
  {
    DecimalLengthBelow(r, w);
    ValueOfDecimal(r);
    if |Decimal(r)| < w {
      ValueOfZerosPrefix(w - |Decimal(r)|, Decimal(r));
    }
  }

  /** The last six characters of a clock value of at least 10^5 are six digits denoting it mod 10^6. */
  lemma LastClockDigits6(t: nat)
    requires t >= 100000
    ensures var a := SliceLast(Decimal(t), 6); |a| == 6 && AllDigits(a) && ValueOf(a) == t % 1000000
  {
    Pow10Values();
    DecimalLengthAtLeast(t, 5);
    var q := ValueOfLastDigits(t, 6);
    var v := ValueOf(SliceLast(Decimal(t), 6));
    assert t == 1000000 * q + v && v < 1000000;
    assert t / 1000000 == q;
  }

  /** The last five characters of a clock value of at least 10^4 are five digits denoting it mod 10^5. */
  lemma LastClockDigits5(t: nat)
    requires t >= 10000
    ensures var a := SliceLast(Decimal(t), 5); |a| == 5 && AllDigits(a) && ValueOf(a) == t % 100000
  {
    Pow10Values();
    DecimalLengthAtLeast(t, 4);
    var q := ValueOfLastDigits(t, 5);
    var v := ValueOf(SliceLast(Decimal(t), 5));
    assert t == 100000 * q + v && v < 100000;
    assert t / 100000 == q;
  }

  // ---------------------------------------------------------------------
  // Properties of the generated identifiers

  /**
   * A student number built from a timestamp of at least 6 digits is 13
   * characters long, starts with "STU-", and its other 9 characters are
   * digits: the timestamp mod 10^6 in six digits, then r in three.
   */
  lemma StudentRegNoShape(timestamp: nat, r: nat)
    requires timestamp >= 100000 && r < 1000
    ensures var s := StudentRegNo(timestamp, r);
      && |s| == 13 && s[..4] == StudentPrefix && AllDigits(s[4..])
      && AllDigits(s[4..10]) && AllDigits(s[10..])
      && ValueOf(s[4..10]) == timestamp % 1000000
      && ValueOf(s[10..]) == r
  {
    var a, b := SliceLast(Decimal(timestamp), 6), PadStart(Decimal(r), 3);
    LastClockDigits6(timestamp);
    assert |b| == 3 && AllDigits(b) && ValueOf(b) == r by {
      Pow10Values();
      PaddedDecimal(r, 3);
    }
    Parts(StudentPrefix, a, b);
  }

  /**
   * A staff id built from a timestamp of at least 5 digits is 11
   * characters long, starts with "TCH-", and its other 7 characters are
   * digits: the timestamp mod 10^5 in five digits, then r in two.
   */
  lemma StaffIdShape(timestamp: nat, r: nat)
    requires timestamp >= 10000 && r < 100
    ensures var s := StaffId(timestamp, r);
      && |s| == 11 && s[..4] == StaffPrefix && AllDigits(s[4..])
      && AllDigits(s[4..9]) && AllDigits(s[9..])
      && ValueOf(s[4..9]) == timestamp % 100000
      && ValueOf(s[9..]) == r
  {
    var a, b := SliceLast(Decimal(timestamp), 5), PadStart(Decimal(r), 2);
    LastClockDigits5(timestamp);
    assert |b| == 2 && AllDigits(b) && ValueOf(b) == r by {
      Pow10Values();
      PaddedDecimal(r, 2);
    }
    Parts(StaffPrefix, a, b);
  }

  /**
   * Two student numbers are equal exactly when their timestamps agree
   * mod 10^6 and their random draws agree: nothing else distinguishes
   * them, so equal draws within the same 10^6 ms window collide.
   */
  lemma StudentRegNoCollision(t1: nat, r1: nat, t2: nat, r2: nat)
    requires t1 >= 100000 && t2 >= 100000 && r1 < 1000 && r2 < 1000
    ensures StudentRegNo(t1, r1) == StudentRegNo(t2, r2) <==> t1 % 1000000 == t2 % 1000000 && r1 == r2
  {
    var s1, s2 := StudentRegNo(t1, r1), StudentRegNo(t2, r2);
    StudentRegNoShape(t1, r1);
    StudentRegNoShape(t2, r2);
    var a1, b1, a2, b2 := s1[4..10], s1[10..], s2[4..10], s2[10..];
    if s1 == s2 {
      assert a1 == a2 && b1 == b2;
    }
    if t1 % 1000000 == t2 % 1000000 && r1 == r2 {
      ValueOfInjective(a1, a2);
      ValueOfInjective(b1, b2);
      assert s1 == s1[..4] + a1 + b1;
      assert s2 == s2[..4] + a2 + b2;
    }
  }

  /** The same for staff ids, with 10^5 and two random digits. */
  lemma StaffIdCollision(t1: nat, r1: nat, t2: nat, r2: nat)
    requires t1 >= 10000 && t2 >= 10000 && r1 < 100 && r2 < 100
    ensures StaffId(t1, r1) == StaffId(t2, r2) <==> t1 % 100000 == t2 % 100000 && r1 == r2
  {
    var s1, s2 := StaffId(t1, r1), StaffId(t2, r2);
    StaffIdShape(t1, r1);
    StaffIdShape(t2, r2);
    var a1, b1, a2, b2 := s1[4..9], s1[9..], s2[4..9], s2[9..];
    if s1 == s2 {
      assert a1 == a2 && b1 == b2;
    }
    if t1 % 100000 == t2 % 100000 && r1 == r2 {
      ValueOfInjective(a1, a2);
      ValueOfInjective(b1, b2);
      assert s1 == s1[..4] + a1 + b1;
      assert s2 == s2[..4] + a2 + b2;
    }
  }

  /** A staff id is never a student number: the prefixes differ. */
  lemma StaffIdIsNotStudentRegNo(t1: nat, r1: nat, t2: nat, r2: nat)
    requires r1 < 100 && r2 < 1000
    ensures StaffId(t1, r1) != StudentRegNo(t2, r2)
  {
    assert StaffId(t1, r1)[0] == 'T';
    assert StudentRegNo(t2, r2)[0] == 'S';
  }
}
