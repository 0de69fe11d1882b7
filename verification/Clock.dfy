/** Times as struct timespec holds them, and the arithmetic the bus does on them. */
module Clock {

  const BILLION: int := 1_000_000_000
  const MILLION: int := 1_000_000

  datatype Timespec = Timespec(sec: int, nsec: int)

  predicate Normal(t: Timespec) { 0 <= t.nsec < BILLION }

  function Nanos(t: Timespec): int { t.sec * BILLION + t.nsec }

  function OfNanos(n: nat): (t: Timespec)
    ensures Normal(t) && Nanos(t) == n
  {
    Timespec(n / BILLION, n % BILLION)
  }

  /** The field-by-field comparison written out in slave_poll. */
  predicate Before(a: Timespec, b: Timespec) {
    a.sec < b.sec || (a.sec == b.sec && a.nsec < b.nsec)
  }

  /** On normalised times that comparison is the order of the instants. */
  lemma BeforeIsOrder(a: Timespec, b: Timespec)
    requires Normal(a) && Normal(b)
    ensures Before(a, b) <==> Nanos(a) < Nanos(b)
  {
    if a.sec < b.sec {
      assert (a.sec + 1) * BILLION <= b.sec * BILLION;
    } else if b.sec < a.sec {
      assert (b.sec + 1) * BILLION <= a.sec * BILLION;
    }
  }

  /** Adding a number of nanoseconds with a single carry, as the code does everywhere. */
  function PlusCarry(t: Timespec, sec: int, nsec: int): (r: Timespec)
    ensures Nanos(r) == Nanos(t) + sec * BILLION + nsec
  {
    if t.nsec + nsec >= BILLION then Timespec(t.sec + sec + 1, t.nsec + nsec - BILLION)
    else Timespec(t.sec + sec, t.nsec + nsec)
  }

  /** One carry normalises exactly when the addend is below a second more than the room left. */
  lemma PlusCarryNormal(t: Timespec, sec: int, nsec: nat)
    requires Normal(t)
    ensures Normal(PlusCarry(t, sec, nsec)) <==> t.nsec + nsec < 2 * BILLION
  {
  }

  /** The poll timer read_some computes from the deadline and the clock, in milliseconds. */
  function WaitMillis(deadline: Timespec, tick: Timespec): int {
    var dsec := deadline.sec - tick.sec;
    var dnsec := deadline.nsec - tick.nsec;
    if dnsec < 0 then (dnsec + BILLION) / MILLION + (dsec - 1) * 1000
    else dnsec / MILLION + dsec * 1000
  }

  /** It is the floor of the time remaining, hence negative exactly past the deadline. */
  lemma WaitIsFloor(deadline: Timespec, tick: Timespec)
    requires Normal(deadline) && Normal(tick)
    ensures var w := WaitMillis(deadline, tick);
            w * MILLION <= Nanos(deadline) - Nanos(tick) < (w + 1) * MILLION
    ensures WaitMillis(deadline, tick) < 0 <==> Nanos(deadline) < Nanos(tick)
  {
    var dsec := deadline.sec - tick.sec;
    var dnsec := deadline.nsec - tick.nsec;
    assert dsec * BILLION == dsec * 1000 * MILLION;
    assert (dsec - 1) * BILLION == (dsec - 1) * 1000 * MILLION;
  }
}
