// controller.cpp, stop(): the run time in milliseconds and the time per
// completed cycle as hours, minutes and seconds. Reading the clock and the
// output are not modelled: the elapsed milliseconds are a parameter.
module Controller {

  import opened Wrappers

  const MsPerHour: nat := 3600000
  const MsPerMinute: nat := 60000
  const MsPerSecond: nat := 1000

  datatype Hms = Hms(hours: nat, minutes: nat, seconds: nat)

  /** The milliseconds an Hms stands for. */
  function Millis(t: Hms): nat
  {
    t.hours * MsPerHour + t.minutes * MsPerMinute + t.seconds * MsPerSecond
  }

  predicate Normal(t: Hms)
  {
    t.minutes < 60 && t.seconds < 60
  }

  /**
   * The decomposition of stop(): whole hours, the minutes of the remaining
   * hour and the seconds of the remaining minute; the milliseconds left over
   * are dropped, since the rounding applies to an integer quotient.
   */
  function Decompose(ms: nat): (r: Hms)
    ensures Normal(r)
    ensures Millis(r) <= ms < Millis(r) + MsPerSecond
  {
    DecomposeBounds(ms);
    Hms(ms / MsPerHour, (ms % MsPerHour) / MsPerMinute, (ms % MsPerMinute) / MsPerSecond)
  }

  lemma DecomposeBounds(ms: nat)
    ensures (ms % MsPerHour) / MsPerMinute < 60 && (ms % MsPerMinute) / MsPerSecond < 60
    ensures var m := ms / MsPerHour * MsPerHour + (ms % MsPerHour) / MsPerMinute * MsPerMinute
                     + (ms % MsPerMinute) / MsPerSecond * MsPerSecond;
            m <= ms < m + MsPerSecond
  {
    var h, r1 := ms / MsPerHour, ms % MsPerHour;
    var m, r2 := r1 / MsPerMinute, r1 % MsPerMinute;
    var s, r3 := r2 / MsPerSecond, r2 % MsPerSecond;
    assert ms == h * MsPerHour + r1;
    assert r1 == m * MsPerMinute + r2;
    assert r2 == s * MsPerSecond + r3;
    DivModUnique(ms, MsPerMinute, h * 60 + m, r2);
  }

  /** Quotient and remainder are the only pair with x == q * d + r and 0 <= r < d. */
  lemma DivModUnique(x: int, d: int, q: int, r: int)
    requires d > 0 && 0 <= r < d && x == q * d + r
    ensures x / d == q && x % d == r
  {
    var q0, r0 := x / d, x % d;
    assert x == q0 * d + r0;
    assert (q - q0) * d == q * d - q0 * d;
    if q > q0 {
      AtLeastOnce(q - q0, d);
    } else if q < q0 {
      AtLeastOnce(q0 - q, d);
    }
  }

  lemma AtLeastOnce(k: int, d: int)
    requires k >= 1 && d > 0
    ensures k * d >= d
  {
    assert k * d == (k - 1) * d + d;
    assert (k - 1) * d >= 0;
  }

  /** A normal Hms is the decomposition of every duration it truncates. */
  lemma DecomposeUnique(ms: nat, t: Hms)
    requires Normal(t) && Millis(t) <= ms < Millis(t) + MsPerSecond
    ensures Decompose(ms) == t
  {
    var d := Decompose(ms);
    var rest := ms - Millis(t);
    assert ms == t.hours * MsPerHour + (t.minutes * MsPerMinute + t.seconds * MsPerSecond + rest);
    assert t.minutes * MsPerMinute + t.seconds * MsPerSecond + rest < MsPerHour;
    assert d.hours == t.hours;
    assert ms % MsPerHour == t.minutes * MsPerMinute + (t.seconds * MsPerSecond + rest);
    assert d.minutes == t.minutes;
    assert ms % MsPerMinute == t.seconds * MsPerSecond + rest by {
      assert ms == (t.hours * 60 + t.minutes) * MsPerMinute + (t.seconds * MsPerSecond + rest);
    }
    assert d.seconds == t.seconds;
  }

  /** Decomposing the milliseconds of a normal Hms gives it back. */
  lemma DecomposeMillis(t: Hms)
    requires Normal(t)
    ensures Decompose(Millis(t)) == t
  {
    DecomposeUnique(Millis(t), t);
  }

  /** The time per cycle: the run time divided by the completed cycles, undefined (Err) when none completed. */
  function TimePerCycle(ms: nat, completed: nat): (r: Result<nat>)
    ensures r.Ok? <==> completed > 0
    ensures r.Ok? ==> r.value * completed <= ms < (r.value + 1) * completed
  {
    if completed == 0 then Err("division by zero cycles") else Ok(ms / completed)
  }

  /** What stop() reports: the run time, and the time per cycle when a cycle completed. */
  function StopTimes(ms: nat, completed: nat): (r: (Hms, Result<Hms>))
    ensures Normal(r.0) && Millis(r.0) <= ms < Millis(r.0) + MsPerSecond
    ensures r.1.Ok? <==> completed > 0
    ensures r.1.Ok? ==> Normal(r.1.value) && Millis(r.1.value) * completed <= ms
  {
    var perCycle := TimePerCycle(ms, completed);
    (Decompose(ms), if perCycle.Ok? then Ok(Decompose(perCycle.value)) else Err(perCycle.error))
  }
}
