/**
  `main`: crack every stored string in turn, between two readings of the
  monotonic clock, and report the elapsed time.
*/
module Batch {
  import opened Cracker
  import opened Timing

  /** The batch driver. `passwords[..nPasswords]` are the stored strings
      (`encrypted_passwords` and `n_passwords`); `start` and `finish` are the
      two `clock_gettime(CLOCK_MONOTONIC, ...)` readings taken before and
      after the loop. Each search runs to completion before the next one
      starts, in index order, and its outcome is the one a search of that
      string alone produces. */
  method RunBatch(hash: Hash, passwords: seq<string>, nPasswords: nat, start: Timespec, finish: Timespec)
    returns (outcomes: seq<Outcome>, elapsed: int)
    requires nPasswords <= |passwords|
    requires forall i :: 0 <= i < nPasswords ==> IsStored(passwords[i])
    ensures |outcomes| == nPasswords
    ensures forall i :: 0 <= i < nPasswords ==> outcomes[i] == Search(hash, passwords[i])
    ensures elapsed == Nanos(finish) - Nanos(start)
  {
    outcomes := [];
    var i := 0;
    while i < nPasswords
      invariant 0 <= i <= nPasswords
      invariant |outcomes| == i
      invariant forall j :: 0 <= j < i ==> outcomes[j] == Search(hash, passwords[j])
    {
      var outcome := Crack(hash, passwords[i]);
      outcomes := outcomes + [outcome];
      i := i + 1;
    }
    var status;
    elapsed, status := TimeDifference(start, finish);
  }
}
