/** The clock arithmetic of the scheduler. */
module CronTime {

  const NANOS := 1_000_000_000

  const INT_RANGE := 0x1_0000_0000  // values of a C int
  const INT_HALF := 0x8000_0000

  /** Seconds and nanoseconds, as the clock reports them: 0 <= nsec < 10^9. */
  datatype Timespec = Timespec(sec: int, nsec: int)

  predicate Valid(t: Timespec) { 0 <= t.nsec < NANOS }

  function Nanos(t: Timespec): int { t.sec * NANOS + t.nsec }

  /** Conversion of a wider integer to a C int. */
  function ToInt(d: int): int { (d + INT_HALF) % INT_RANGE - INT_HALF }

  /** Three-way comparison; the difference of the seconds is returned as an int. */
  function Compare(a: Timespec, b: Timespec): int {
    if a.sec == b.sec then ToInt(a.nsec - b.nsec) else ToInt(a.sec - b.sec)
  }

  function Sign(d: int): int { if d < 0 then -1 else if d == 0 then 0 else 1 }

  lemma SecondsDecide(a: Timespec, b: Timespec)
    requires Valid(a) && Valid(b)
    ensures Sign(Nanos(a) - Nanos(b)) == if a.sec == b.sec then Sign(a.nsec - b.nsec) else Sign(a.sec - b.sec)
  {
    if a.sec < b.sec {
      assert a.sec * NANOS + NANOS <= b.sec * NANOS;
    } else if b.sec < a.sec {
      assert b.sec * NANOS + NANOS <= a.sec * NANOS;
    }
  }

  /** The comparison is right exactly when the difference of the seconds, taken modulo the
      range of an int, keeps its sign. */
  lemma CompareExact(a: Timespec, b: Timespec)
    requires Valid(a) && Valid(b)
    ensures var d := (a.sec - b.sec) % INT_RANGE;
      Sign(Compare(a, b)) == Sign(Nanos(a) - Nanos(b)) <==>
      a.sec == b.sec || (a.sec > b.sec && 0 < d < INT_HALF) || (a.sec < b.sec && d >= INT_HALF)
  {
    SecondsDecide(a, b);
    var d := a.sec - b.sec;
    var m := d % INT_RANGE;
    assert (d + INT_HALF) % INT_RANGE == if m < INT_HALF then m + INT_HALF else m - INT_HALF by {
      assert d == d / INT_RANGE * INT_RANGE + m;
      ModShift(d / INT_RANGE, m);
    }
  }

  lemma ModShift(q: int, m: int)
    requires 0 <= m < INT_RANGE
    ensures (q * INT_RANGE + m + INT_HALF) % INT_RANGE == if m < INT_HALF then m + INT_HALF else m - INT_HALF
  {
  }

  /** Times less than 2^31 seconds apart are compared as the clock orders them. */
  lemma CompareNear(a: Timespec, b: Timespec)
    requires Valid(a) && Valid(b) && -INT_HALF < a.sec - b.sec < INT_HALF
    ensures Compare(a, b) >= 0 <==> Nanos(a) >= Nanos(b)
    ensures Compare(a, b) <= 0 <==> Nanos(a) <= Nanos(b)
  {
    CompareExact(a, b);
  }

  lemma CompareSameSecond(a: Timespec, b: Timespec)
    requires Valid(a) && Valid(b) && a.sec == b.sec
    ensures Compare(a, b) == a.nsec - b.nsec
  {
  }

  /** 2^31 seconds after a time, the comparison says before. */
  lemma CompareFarWrong(a: Timespec)
    ensures Nanos(Timespec(a.sec + INT_HALF, a.nsec)) > Nanos(a)
    ensures Compare(Timespec(a.sec + INT_HALF, a.nsec), a) < 0
  {
  }

  /** `ms` milliseconds after `now`. */
  function DueIn(now: Timespec, ms: nat): Timespec {
    var sec := now.sec + ms / 1000;
    var nsec := now.nsec + (ms % 1000) * 1_000_000;
    Timespec(sec + nsec / NANOS, nsec % NANOS)
  }

  lemma DueInExact(now: Timespec, ms: nat)
    requires Valid(now)
    ensures Valid(DueIn(now, ms)) && Nanos(DueIn(now, ms)) == Nanos(now) + ms * 1_000_000
    ensures now.sec <= DueIn(now, ms).sec <= now.sec + ms / 1000 + 1
  {
    var nsec := now.nsec + (ms % 1000) * 1_000_000;
    assert nsec < 2 * NANOS;
    assert ms == ms / 1000 * 1000 + ms % 1000;
  }
}
