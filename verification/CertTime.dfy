/** Validity times (`wn_CertTimeEpoch`, `wn_X509_TimeValid` in `wn_x509.c`). */
module CertTime {
  import opened Bytes
  import opened CivilDate

  const UTC_TIME: byte := 0x17
  const GENERALIZED_TIME: byte := 0x18

  datatype Time = Time(y: int, mo: int, d: int, h: int, mi: int, s: int) {
    /** What the parser admits; it lets the second be 60. */
    predicate Valid() {
      0 <= y <= 9999 && 1 <= mo <= 12 && 1 <= d <= DaysInMonth(y, mo) && 0 <= h <= 23 && 0 <= mi <= 59 && 0 <= s <= 60
    }

    function Epoch(): int { DaysFromCivil(y, mo, d) * 86400 + h * 3600 + mi * 60 + s }
  }

  // ----- specification ---------------------------------------------------------------------

  predicate Digit(b: byte) { 0x30 <= b <= 0x39 }

  function Digits2(b: bytes, at: nat): Option<int>
    requires at + 2 <= |b|
  {
    if Digit(b[at]) && Digit(b[at + 1]) then Some((b[at] - 0x30) * 10 + b[at + 1] - 0x30) else None
  }

  /** The fields after the year: month, day, hour, minute, second and the final Z. */
  function Fields(y: int, b: bytes): Option<Time>
    requires |b| == 11
  {
    var mo, d, h, mi, s := Digits2(b, 0), Digits2(b, 2), Digits2(b, 4), Digits2(b, 6), Digits2(b, 8);
    if mo.None? || d.None? || h.None? || mi.None? || s.None? || b[10] != 0x5A then None else
    var t := Time(y, mo.value, d.value, h.value, mi.value, s.value);
    if t.Valid() then Some(t) else None
  }

  // RFC 5280 section 4.1.2.5.1: a two-digit year below 50 is in the 21st century.
  function Pivot(yy: int): int { if yy < 50 then yy + 2000 else yy + 1900 }

  function TimeOf(tlv: bytes): Option<Time> {
    if |tlv| < 2 || tlv[1] as int + 2 != |tlv| then None
    else if tlv[0] == UTC_TIME && |tlv| == 15 then
      var yy := Digits2(tlv, 2);
      if yy.None? then None else Fields(Pivot(yy.value), tlv[4..])
    else if tlv[0] == GENERALIZED_TIME && |tlv| == 17 then
      var c, yy := Digits2(tlv, 2), Digits2(tlv, 4);
      if c.None? || yy.None? then None else Fields(yy.value + c.value * 100, tlv[6..])
    else None
  }

  // ----- the code --------------------------------------------------------------------------

  method Dig2(b: bytes, p: nat) returns (ret: Status, out: int)
    requires p + 2 <= |b|
    ensures Digits2(b, p) == if ret == Success then Some(out) else None
    ensures ret == Success || ret == X509Decode
  {
    ret, out := X509Decode, 0;
    if 0x30 <= b[p] <= 0x39 && 0x30 <= b[p + 1] <= 0x39 {
      out := (b[p] - 0x30) * 10 + (b[p + 1] - 0x30);
      ret := Success;
    }
  }

  // The two-digit fields from `p` on, stopping at the first that is not made of digits.
  method ParseFields(tlv: bytes, p: nat, y: int) returns (ret: Status, t: Time)
    requires p + 11 == |tlv| && 0 <= y <= 9999
    ensures Fields(y, tlv[p..]) == if ret == Success then Some(t) else None
    ensures ret == Success || ret == X509Decode
  {
    var mo, d, h, mi, s := 0, 0, 0, 0, 0;
    ghost var b := tlv[p..];
    assert forall i :: 0 <= i < 11 ==> b[i] == tlv[p + i];
    ret, mo := Dig2(tlv, p);
    if ret == Success {
      ret, d := Dig2(tlv, p + 2);
    }
    if ret == Success {
      ret, h := Dig2(tlv, p + 4);
    }
    if ret == Success {
      ret, mi := Dig2(tlv, p + 6);
    }
    if ret == Success {
      ret, s := Dig2(tlv, p + 8);
    }
    if ret == Success && tlv[p + 10] != 0x5A {
      ret := X509Decode;
    }
    if ret == Success && (mo < 1 || mo > 12 || d < 1 || d > DaysInMonth(y, mo) || h > 23 || mi > 59 || s > 60) {
      ret := X509Decode;
    }
    t := Time(y, mo, d, h, mi, s);
  }

  method CertTimeEpoch(tlv: bytes) returns (ret: Status, epoch: int)
    ensures ret == (if TimeOf(tlv).Some? then Success else X509Decode)
    ensures ret == Success ==> epoch == TimeOf(tlv).value.Epoch()
  {
    hide Fields, DaysFromCivil;
    ret, epoch := Success, 0;
    var y, c, p, t := 0, 0, 0, Time(0, 1, 1, 0, 0, 0);
    if |tlv| < 2 || tlv[1] as int + 2 != |tlv| {
      ret := X509Decode;
    }
    if ret == Success {
      var contentLen := tlv[1] as int;
      if tlv[0] == UTC_TIME && contentLen == 13 {
        ret, y := Dig2(tlv, 2);
        y := y + if y < 50 then 2000 else 1900;
        p := 4;
      } else if tlv[0] == GENERALIZED_TIME && contentLen == 15 {
        ret, c := Dig2(tlv, 2);
        if ret == Success {
          ret, y := Dig2(tlv, 4);
        }
        y := y + c * 100;
        p := 6;
      } else {
        ret := X509Decode;
      }
    }
    if ret == Success {
      ret, t := ParseFields(tlv, p, y);
    }
    if ret == Success {
      epoch := t.Epoch();
    }
  }

  /** A certificate is in time when the clock lies between its two times, both included. */
  function TimeVerdict(notBefore: bytes, notAfter: bytes, now: int): Status {
    var nb, na := TimeOf(notBefore), TimeOf(notAfter);
    if nb.None? || na.None? then X509Decode
    else if nb.value.Epoch() <= now <= na.value.Epoch() then Success else BadCert
  }

  method TimeValid(notBefore: bytes, notAfter: bytes, now: int) returns (ret: Status)
    ensures ret == TimeVerdict(notBefore, notAfter, now)
  {
    hide TimeOf, DaysFromCivil;
    var nb, na := 0, 0;
    ret, nb := CertTimeEpoch(notBefore);
    if ret == Success {
      ret, na := CertTimeEpoch(notAfter);
    }
    if ret == Success && (now < nb || now > na) {
      ret := BadCert;
    }
  }

  // ----- order -----------------------------------------------------------------------------

  /** The calendar order of two times. */
  predicate LexBefore(a: Time, b: Time) {
    || a.y < b.y
    || (a.y == b.y && (|| a.mo < b.mo
      || (a.mo == b.mo && (|| a.d < b.d
        || (a.d == b.d && (|| a.h < b.h
          || (a.h == b.h && (|| a.mi < b.mi
            || (a.mi == b.mi && a.s < b.s)))))))))
  }

  lemma {:induction false} YearsGrow(a: nat, b: nat)
    requires a < b
    ensures DaysBeforeYear(a) + YearDays(a) <= DaysBeforeYear(b)
    decreases b
  {
    if a < b - 1 {
      YearsGrow(a, b - 1);
    }
  }

  lemma {:induction false} MonthsGrow(y: int, a: int, b: int)
    requires 1 <= a < b <= 12
    ensures DaysBeforeMonth(y, a) + DaysInMonth(y, a) <= DaysBeforeMonth(y, b)
    decreases b
  {
    if a < b - 1 {
      MonthsGrow(y, a, b - 1);
    }
  }

  lemma MonthInYear(y: int, m: int)
    requires 1 <= m <= 12
    ensures 0 <= DaysBeforeMonth(y, m) && DaysBeforeMonth(y, m) + DaysInMonth(y, m) <= YearDays(y)
  {
    MonthLengths(y, 12);
    if 1 < m { MonthsGrow(y, 1, m); }
    if m < 12 { MonthsGrow(y, m, 12); }
  }

  /** A later date has a larger day number. */
  lemma LaterDate(a: Date, b: Date)
    requires ValidDate(a.y, a.m, a.d) && ValidDate(b.y, b.m, b.d)
    requires a.y < b.y || (a.y == b.y && (a.m < b.m || (a.m == b.m && a.d < b.d)))
    ensures DaysFromCivil(a.y, a.m, a.d) < DaysFromCivil(b.y, b.m, b.d)
  {
    hide DaysFromCivil, DaysBeforeYear, DaysBeforeMonth, DaysInMonth, YearDays;
    CivilCountsDays(a.y, a.m, a.d);
    CivilCountsDays(b.y, b.m, b.d);
    MonthInYear(a.y, a.m);
    MonthInYear(b.y, b.m);
    if a.y < b.y {
      YearsGrow(a.y, b.y);
    } else if a.m < b.m {
      MonthsGrow(a.y, a.m, b.m);
    }
  }

  lemma LaterTime(a: Time, b: Time)
    requires a.Valid() && b.Valid() && a.s <= 59 && b.s <= 59 && LexBefore(a, b)
    ensures a.Epoch() < b.Epoch()
  {
    hide DaysFromCivil;
    if a.y == b.y && a.mo == b.mo && a.d == b.d {
    } else {
      LaterDate(Date(a.y, a.mo, a.d), Date(b.y, b.mo, b.d));
    }
  }

  /** Leap seconds aside, the epoch preserves and reflects the calendar order. */
  lemma EpochIsOrder(a: Time, b: Time)
    requires a.Valid() && b.Valid() && a.s <= 59 && b.s <= 59
    ensures a.Epoch() < b.Epoch() <==> LexBefore(a, b)
    ensures a.Epoch() == b.Epoch() <==> a == b
  {
    hide DaysFromCivil;
    if LexBefore(a, b) {
      LaterTime(a, b);
    } else if LexBefore(b, a) {
      LaterTime(b, a);
    } else {
      assert a == b;
    }
  }

  /** The restriction is needed: an accepted second 60 coincides with the next minute. */
  lemma LeapSecondCollides()
    ensures var a, b := Time(2016, 12, 31, 23, 59, 60), Time(2017, 1, 1, 0, 0, 0);
      a.Valid() && b.Valid() && LexBefore(a, b) && a.Epoch() == b.Epoch()
  {}

  /** What is lost at a leap second: the order is preserved weakly, for all accepted times. */
  lemma EpochWeakOrder(a: Time, b: Time)
    requires a.Valid() && b.Valid() && LexBefore(a, b)
    ensures a.Epoch() <= b.Epoch()
    ensures a.Epoch() == b.Epoch() ==> a.s == 60
  {
    hide DaysFromCivil;
    if a.y == b.y && a.mo == b.mo && a.d == b.d {
    } else {
      LaterDate(Date(a.y, a.mo, a.d), Date(b.y, b.mo, b.d));
    }
  }

  /** The start of the minute behind `t`. */
  function NextMinute(t: Time): (n: Time)
    requires t.Valid()
    ensures n.s == 0
  {
    if t.mi < 59 then Time(t.y, t.mo, t.d, t.h, t.mi + 1, 0)
    else if t.h < 23 then Time(t.y, t.mo, t.d, t.h + 1, 0, 0)
    else var n := NextDate(Date(t.y, t.mo, t.d)); Time(n.y, n.m, n.d, 0, 0, 0)
  }

  /** Its epoch is that of the minute's second 60, which the parser admits. */
  lemma NextMinuteEpoch(t: Time)
    requires t.Valid()
    ensures NextMinute(t).Epoch() == Time(t.y, t.mo, t.d, t.h, t.mi, 60).Epoch()
    ensures LexBefore(t, NextMinute(t))
  {
    hide DaysFromCivil;
    ConsecutiveDates(Date(t.y, t.mo, t.d));
  }

  /**
   * For all accepted times, what the epoch loses is exactly this: it is strictly smaller for the
   * earlier of two times unless that one is a second 60 and the other the start of the next minute,
   * and equal for two different times only then.
   */
  lemma EpochOrderExactly(a: Time, b: Time)
    requires a.Valid() && b.Valid()
    ensures a.Epoch() < b.Epoch() <==> LexBefore(a, b) && !(a.s == 60 && b == NextMinute(a))
    ensures a.Epoch() == b.Epoch()
      <==> a == b || (a.s == 60 && b == NextMinute(a)) || (b.s == 60 && a == NextMinute(b))
  {
    hide DaysFromCivil, NextMinute;
    if LexBefore(a, b) {
      CollisionExactly(a, b);
      EpochWeakOrder(a, b);
      NotBothBefore(a, b);
      NextMinuteEpoch(b);
    } else if LexBefore(b, a) {
      CollisionExactly(b, a);
      EpochWeakOrder(b, a);
      NotBothBefore(b, a);
      NextMinuteEpoch(a);
    } else {
      NextMinuteEpoch(a);
      assert a == b;
    }
  }

  lemma NotBothBefore(a: Time, b: Time)
    requires LexBefore(a, b)
    ensures !LexBefore(b, a) && a != b
  {}

  /** The next minute can be named, except behind the last one of year 9999. */
  lemma NextMinuteValid(t: Time)
    requires t.Valid()
    ensures var m := NextMinute(t);
      m.Valid() || (t.y == 9999 && t.mo == 12 && t.d == 31 && t.h == 23 && t.mi == 59)
  {
    hide DaysFromCivil;
  }

  lemma CollisionExactly(a: Time, b: Time)
    requires a.Valid() && b.Valid() && LexBefore(a, b)
    ensures a.Epoch() == b.Epoch() <==> a.s == 60 && b == NextMinute(a)
  {
    hide DaysFromCivil, NextMinute;
    NextMinuteEpoch(a);
    if a.Epoch() == b.Epoch() {
      EpochWeakOrder(a, b);
      NextMinuteValid(a);
      if b.s == 60 {
        LaterTime(a.(s := 59), b.(s := 59));
      } else if NextMinute(a).Valid() {
        EpochIsOrder(b, NextMinute(a));
      }
    }
  }

  // ----- encodings -------------------------------------------------------------------------

  function Two(n: int): bytes
    requires 0 <= n <= 99
  {
    [n / 10 + 0x30, n % 10 + 0x30]
  }

  function Rest(t: Time): bytes
    requires t.Valid()
  {
    Two(t.mo) + Two(t.d) + Two(t.h) + Two(t.mi) + Two(t.s) + [0x5A]
  }

  function UtcTlv(t: Time): bytes
    requires t.Valid()
  {
    [UTC_TIME, 13] + Two(t.y % 100) + Rest(t)
  }

  function GeneralizedTlv(t: Time): bytes
    requires t.Valid()
  {
    [GENERALIZED_TIME, 15] + Two(t.y / 100) + Two(t.y % 100) + Rest(t)
  }

  lemma ReadTwo(b: bytes, at: nat, n: int)
    requires 0 <= n <= 99 && at + 2 <= |b| && b[at..at + 2] == Two(n)
    ensures Digits2(b, at) == Some(n)
  {}

  lemma ReadRest(t: Time)
    requires t.Valid()
    ensures |Rest(t)| == 11 && Fields(t.y, Rest(t)) == Some(t)
  {
    hide Two, Digits2;
    assert forall n: int {:trigger Two(n)} :: 0 <= n <= 99 ==> |Two(n)| == 2 by { TwoSize(); }
    var b := Rest(t);
    ReadTwo(b, 0, t.mo);
    ReadTwo(b, 2, t.d);
    ReadTwo(b, 4, t.h);
    ReadTwo(b, 6, t.mi);
    ReadTwo(b, 8, t.s);
  }

  lemma TwoSize()
    ensures forall n: int {:trigger Two(n)} :: 0 <= n <= 99 ==> |Two(n)| == 2
  {}

  /** Both forms name the instant; the short one covers the 100 years around its pivot. */
  lemma TimeRoundTrip(t: Time)
    requires t.Valid()
    ensures TimeOf(GeneralizedTlv(t)) == Some(t)
    ensures TimeOf(UtcTlv(t)) == Some(t) <==> 1950 <= t.y <= 2049
  {
    hide Digits2, Fields, Rest;
    ReadRest(t);
    var g, u := GeneralizedTlv(t), UtcTlv(t);
    assert g[2..4] == Two(t.y / 100) && g[4..6] == Two(t.y % 100) && g[6..] == Rest(t);
    ReadTwo(g, 2, t.y / 100);
    ReadTwo(g, 4, t.y % 100);
    assert t.y % 100 + t.y / 100 * 100 == t.y;
    assert u[2..4] == Two(t.y % 100) && u[4..] == Rest(t);
    ReadTwo(u, 2, t.y % 100);
    FieldsYear(Pivot(t.y % 100), Rest(t));
  }

  lemma FieldsYear(y: int, b: bytes)
    requires |b| == 11
    ensures Fields(y, b).Some? ==> Fields(y, b).value.y == y
  {}

  lemma WroteTwo(b: bytes, at: nat)
    requires at + 2 <= |b| && Digits2(b, at).Some?
    ensures var n := Digits2(b, at).value; 0 <= n <= 99 && b[at..at + 2] == Two(n)
  {}

  lemma WroteRest(y: int, b: bytes)
    requires |b| == 11 && Fields(y, b).Some?
    ensures var t := Fields(y, b).value; t.Valid() && t.y == y && b == Rest(t)
  {
    hide Two, Digits2;
    WroteTwo(b, 0);
    WroteTwo(b, 2);
    WroteTwo(b, 4);
    WroteTwo(b, 6);
    WroteTwo(b, 8);
    assert b == b[0..2] + b[2..4] + b[4..6] + b[6..8] + b[8..10] + [b[10]];
  }

  lemma TimeIsWritten(tlv: bytes)
    requires TimeOf(tlv).Some?
    ensures var t := TimeOf(tlv).value;
      t.Valid() && (tlv == GeneralizedTlv(t) || (1950 <= t.y <= 2049 && tlv == UtcTlv(t)))
  {
    hide Digits2, Fields, Rest, Two;
    var t := TimeOf(tlv).value;
    WroteTwo(tlv, 2);
    if tlv[0] == UTC_TIME {
      WroteRest(Pivot(Digits2(tlv, 2).value), tlv[4..]);
      assert tlv == [tlv[0], tlv[1]] + tlv[2..4] + tlv[4..];
    } else {
      WroteTwo(tlv, 4);
      WroteRest(Digits2(tlv, 4).value + Digits2(tlv, 2).value * 100, tlv[6..]);
      assert t.y % 100 == Digits2(tlv, 4).value && t.y / 100 == Digits2(tlv, 2).value;
      assert tlv == [tlv[0], tlv[1]] + tlv[2..4] + tlv[4..6] + tlv[6..];
    }
  }

  /** The parser accepts exactly the two encodings of valid times, each with its own year range. */
  lemma TimesAreEncodings(tlv: bytes, t: Time)
    ensures TimeOf(tlv) == Some(t)
      <==> t.Valid() && (tlv == GeneralizedTlv(t) || (1950 <= t.y <= 2049 && tlv == UtcTlv(t)))
  {
    hide TimeOf, UtcTlv, GeneralizedTlv;
    if TimeOf(tlv).Some? {
      TimeIsWritten(tlv);
    }
    if t.Valid() {
      TimeRoundTrip(t);
    }
  }

  /** A UTCTime and a GeneralizedTime of the same instant give the same epoch. */
  lemma SameInstant(t: Time)
    requires t.Valid() && 1950 <= t.y <= 2049
    ensures TimeOf(UtcTlv(t)).Some? && TimeOf(GeneralizedTlv(t)).Some?
    ensures TimeOf(UtcTlv(t)).value.Epoch() == TimeOf(GeneralizedTlv(t)).value.Epoch() == t.Epoch()
  {
    hide TimeOf, UtcTlv, GeneralizedTlv;
    TimeRoundTrip(t);
  }
}
