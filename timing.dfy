/**
  `time_difference`: the elapsed time between two `struct timespec`
  readings of the monotonic clock, in nanoseconds.
*/
module Timing {

  const NanosPerSecond: int := 1000000000

  /** A `struct timespec`: whole seconds and nanoseconds. */
  datatype Timespec = Timespec(tvSec: int, tvNsec: int)

  /** A reading as the clock produces it: the nanosecond field below one
      second. */
  predicate Normalised(t: Timespec) {
    0 <= t.tvNsec < NanosPerSecond
  }

  /** The instant a reading denotes, in nanoseconds. */
  function Nanos(t: Timespec): int {
    t.tvSec * NanosPerSecond + t.tvNsec
  }

  /** The seconds and nanoseconds parts of `finish - start` after the
      borrow: when the nanosecond difference is negative, one second is
      taken from the seconds difference. Between normalised readings this
      splits the elapsed time into whole seconds and a nanosecond remainder
      below one second. */
  function Borrow(start: Timespec, finish: Timespec): (r: (int, int))
    ensures r.0 * NanosPerSecond + r.1 == Nanos(finish) - Nanos(start)
    ensures Normalised(start) && Normalised(finish) ==> 0 <= r.1 < NanosPerSecond
    ensures Normalised(start) && Normalised(finish) ==>
      r == ((Nanos(finish) - Nanos(start)) / NanosPerSecond, (Nanos(finish) - Nanos(start)) % NanosPerSecond)
  {
    var ds := finish.tvSec - start.tvSec;
    var dn := finish.tvNsec - start.tvNsec;
    if dn < 0 then (ds - 1, dn + NanosPerSecond) else (ds, dn)
  }

  /** `time_difference(start, finish, &difference)`: stores the elapsed
      nanoseconds in `difference` and returns 1 when that is not positive,
      0 otherwise. The borrowed pair `(ds, dn)` it computes on the way is
      `Borrow(start, finish)` (asserted in the body), so what `Borrow`'s
      contract states, `dn` within [0, 10^9) between normalised readings,
      holds of this method's borrow. */
  method TimeDifference(start: Timespec, finish: Timespec) returns (difference: int, status: int)
    ensures difference == Nanos(finish) - Nanos(start)
    ensures status == (if difference > 0 then 0 else 1)
  {
    var ds := finish.tvSec - start.tvSec;
    var dn := finish.tvNsec - start.tvNsec;
    if dn < 0 {
      ds := ds - 1;
      dn := dn + NanosPerSecond;
    }
    assert (ds, dn) == Borrow(start, finish);
    difference := ds * NanosPerSecond + dn;
    status := if !(difference > 0) then 1 else 0;
  }

  /** From 10 s + 900000000 ns to 11 s + 100000000 ns is 200000000 ns, with
      a borrow from the seconds. */
  lemma SubSecondBorrow()
    ensures Borrow(Timespec(10, 900000000), Timespec(11, 100000000)) == (0, 200000000)
  {
  }
}
