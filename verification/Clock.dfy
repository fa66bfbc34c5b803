/** Times and the arithmetic of deadlines (`ares__timedout`, `ares__timeadd`). */
module Clock {

  datatype Time = Time(sec: nat, usec: nat)

  ghost predicate Valid(t: Time) {
    t.usec < 1_000_000
  }

  /** The time in microseconds: what comparing and adding mean. */
  function Micros(t: Time): nat {
    1_000_000 * t.sec + t.usec
  }

  /** Is now exactly the time to check, or later? */
  predicate TimedOut(now: Time, check: Time) {
    var secs := now.sec - check.sec;
    if secs > 0 then true
    else if secs < 0 then false
    else now.usec - check.usec >= 0
  }

  lemma TimedOutMeaning(now: Time, check: Time)
    requires Valid(now) && Valid(check)
    ensures TimedOut(now, check) <==> Micros(now) >= Micros(check)
  {
  }

  method TimeAdd(start: Time, millisecs: nat) returns (t: Time)
    requires Valid(start)
    ensures Valid(t) && Micros(t) == Micros(start) + 1000 * millisecs
  {
    t := Time(start.sec + millisecs / 1000, start.usec + millisecs % 1000 * 1000);
    if t.usec >= 1_000_000 {
      t := Time(t.sec + 1, t.usec - 1_000_000);
    }
  }

  /** Earlier in microseconds is no later in seconds. */
  lemma SecondsMonotonic(a: Time, b: Time)
    requires Valid(a) && Valid(b) && Micros(a) <= Micros(b)
    ensures a.sec <= b.sec
  {
  }
}
