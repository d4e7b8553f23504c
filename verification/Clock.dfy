/** Times as struct time holds them, and their difference in whole seconds. */
module Clock {

  datatype Time = Time(sec: int, nsec: int)

  predicate Normalised(t: Time) {
    0 <= t.nsec < 1_000_000_000
  }

  function Nanoseconds(t: Time): int {
    t.sec * 1_000_000_000 + t.nsec
  }

  /** The whole seconds from a to b, a second less when the nanoseconds run backwards. */
  function DiffTime(a: Time, b: Time): int {
    b.sec - a.sec - if b.nsec - a.nsec < 0 then 1 else 0
  }

  /** ll_difftime, on times that are there. */
  method ComputeDiffTime(a: Time, b: Time) returns (sec: int)
    ensures sec == DiffTime(a, b)
    ensures Normalised(a) && Normalised(b) ==>
              sec * 1_000_000_000 <= Nanoseconds(b) - Nanoseconds(a) < (sec + 1) * 1_000_000_000
  {
    sec := b.sec - a.sec;
    var nsec := b.nsec - a.nsec;
    if nsec < 0 {
      sec := sec - 1;
    }
  }
}
