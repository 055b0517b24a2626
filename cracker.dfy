/**
  `crack`: search the whole keyspace for the plaintext of one stored
  `crypt` string. The salt is the stored string's first six bytes; every
  candidate is hashed with it and the result compared with the whole stored
  string. A match is only flagged; the walk always runs to its end.
*/
module Cracker {
  import opened CStrings
  import opened Keyspace

  /** Bytes of the stored string `substr` copies as the salt (`$6$KB$`).
      One model `char` stands for one C byte, so text is ASCII here. */
  const SaltLength: nat := 6

  /** `crypt(plain, salt)`: the one-way hash, supplied by the caller; its
      internals are not modelled. */
  type Hash = (string, string) -> string

  /** One line of `crack`'s trace: the value of `count` after the step, the
      candidate, the digest `crypt` returned, and whether the line is marked
      `#` (a match). */
  datatype Step = Step(count: nat, plain: string, digest: string, matched: bool)

  /** What one `crack` call produces: the final `count` (the "solutions
      explored" figure) and the trace of every step, in order. */
  datatype Outcome = Outcome(count: nat, trace: seq<Step>)

  /** A stored string `crack` can be given: C text (no NUL) whose first six
      bytes, counting the terminator, can be read by `substr`. */
  predicate IsStored(stored: string) {
    '\0' !in stored && |stored| + 1 >= SaltLength
  }

  /** The salt `crack` passes to `crypt`: what the six bytes copied from the
      start of the stored string read as. */
  function SaltOf(stored: string): (salt: string)
    requires IsStored(stored)
    ensures salt == if |stored| >= SaltLength then stored[..SaltLength] else stored
  {
    var buf := (stored + ['\0'])[..SaltLength];
    if |stored| >= SaltLength then
      CStrOfText(buf);
      CStr(buf)
    else
      CStrOfTerminated(stored, []);
      assert buf == stored + ['\0'] + [];
      CStr(buf)
  }

  /** The step taken at position `n` of the walk. The match test is
      `strcmp(stored, digest) == 0`: exact, case-sensitive equality of the
      two texts. */
  function StepAt(hash: Hash, salt: string, stored: string, n: nat): (s: Step)
    requires n < Size
    ensures s.count == n + 1 && IsCandidate(s.plain)
    ensures '\0' !in s.digest && s.digest <= hash(s.plain, salt)
    ensures s.matched <==> s.digest == stored
  {
    var plain := CandidateAt(n);
    var digest := CStr(hash(plain, salt));
    Step(n + 1, plain, digest, digest == stored)
  }

  /** Every step of one search, in walk order. */
  function Trace(hash: Hash, stored: string): seq<Step>
    requires IsStored(stored)
  {
    seq(Size, n requires 0 <= n < Size => StepAt(hash, SaltOf(stored), stored, n))
  }

  /** The outcome of one search: all `Size` candidates explored. */
  function Search(hash: Hash, stored: string): (o: Outcome)
    requires IsStored(stored)
    ensures o.count == |o.trace| == Letters * Letters * Letters * Numbers
    ensures forall n :: 0 <= n < |o.trace| ==> o.trace[n].count == n + 1
  {
    Outcome(Size, Trace(hash, stored))
  }

  /** `trace` holds the first `n` steps of the walk. */
  predicate TraceUpTo(trace: seq<Step>, hash: Hash, salt: string, stored: string, n: nat) {
    |trace| == n <= Size && forall i :: 0 <= i < n ==> trace[i] == StepAt(hash, salt, stored, i)
  }

  lemma TraceComplete(trace: seq<Step>, hash: Hash, stored: string)
    requires IsStored(stored) && TraceUpTo(trace, hash, SaltOf(stored), stored, Size)
    ensures trace == Trace(hash, stored)
  {
  }

  lemma TraceExtend(trace: seq<Step>, hash: Hash, salt: string, stored: string, n: nat)
    requires TraceUpTo(trace, hash, salt, stored, n) && n < Size
    ensures TraceUpTo(trace + [StepAt(hash, salt, stored, n)], hash, salt, stored, n + 1)
  {
  }

  /** After `substr(salt, salt_and_encrypted, 0, 6)` the salt buffer reads
      as `SaltOf(stored)`. */
  lemma SaltBufferReadsSalt(stored: string, src: seq<char>, salt: seq<char>)
    requires IsStored(stored) && src == stored + ['\0']
    requires |salt| > SaltLength && salt[..SaltLength] == src[..SaltLength] && salt[SaltLength] == '\0'
    ensures CStr(salt) == SaltOf(stored)
  {
    assert salt == salt[..SaltLength] + ['\0'] + salt[SaltLength + 1..];
    CStrUntilNul(salt[..SaltLength], salt[SaltLength + 1..]);
  }

  /** After `sprintf(plain, ...)` with counters `d`, the plain buffer reads
      as the candidate at position `Index(d)`. */
  lemma PlainBufferReadsCandidate(plain: seq<char>, d: Dials, n: nat)
    requires d.Valid() && n == Index(d)
    requires |plain| > CandidateLength && plain[..CandidateLength + 1] == Candidate(d) + ['\0']
    ensures CStr(plain) == CandidateAt(n)
  {
    DialsAtIndex(d);
    assert plain == Candidate(d) + ['\0'] + plain[CandidateLength + 1..];
    CStrOfTerminated(Candidate(d), plain[CandidateLength + 1..]);
  }

  /** `crack(salt_and_encrypted)`: copy the salt out with `substr`, then run
      the four nested loops, formatting each candidate into `plain`, hashing
      it, counting it and recording whether it matched. */
  method Crack(hash: Hash, stored: string) returns (outcome: Outcome)
    requires IsStored(stored)
    ensures outcome == Search(hash, stored)
  {
    // the stored string as C holds it: its text and a terminating NUL
    var src := new char[|stored| + 1](i => if 0 <= i < |stored| then stored[i] else '\0');
    var salt := new char[SaltLength + 1];
    var plain := new char[CandidateLength + 2];
    var count := 0;
    var trace: seq<Step> := [];

    Substr(salt, src, 0, SaltLength);
    var saltText := CStr(salt[..]);
    SaltBufferReadsSalt(stored, src[..], salt[..]);

    var x := 'A' as int;
    while x <= 'Z' as int
      invariant 'A' as int <= x <= 'Z' as int + 1
      invariant count == (x - 'A' as int) * XStride
      invariant TraceUpTo(trace, hash, saltText, stored, count)
    {
      var y := 'A' as int;
      while y <= 'Z' as int
        invariant 'A' as int <= y <= 'Z' as int + 1
        invariant count == (x - 'A' as int) * XStride + (y - 'A' as int) * YStride
        invariant TraceUpTo(trace, hash, saltText, stored, count)
      {
        var k := 'A' as int;
        while k <= 'Z' as int
          invariant 'A' as int <= k <= 'Z' as int + 1
          invariant count == (x - 'A' as int) * XStride + (y - 'A' as int) * YStride + (k - 'A' as int) * Numbers
          invariant TraceUpTo(trace, hash, saltText, stored, count)
        {
          var z := 0;
          while z <= 99
            invariant 0 <= z <= 100
            invariant count == (x - 'A' as int) * XStride + (y - 'A' as int) * YStride + (k - 'A' as int) * Numbers + z
            invariant TraceUpTo(trace, hash, saltText, stored, count)
          {
            WriteCandidate(plain, x, y, k, z);
            var plainText := CStr(plain[..]);
            var enc := CStr(hash(plainText, saltText));
            PlainBufferReadsCandidate(plain[..], Dials(x, y, k, z), count);
            var step := Step(count + 1, plainText, enc, enc == stored);
            assert step == StepAt(hash, saltText, stored, count);
            TraceExtend(trace, hash, saltText, stored, count);
            count := count + 1;
            trace := trace + [step];
            z := z + 1;
          }
          k := k + 1;
        }
        y := y + 1;
      }
      x := x + 1;
    }
    TraceComplete(trace, hash, stored);
    outcome := Outcome(count, trace);
  }

  /** No candidate is examined twice in one search. */
  lemma TraceDistinct(hash: Hash, stored: string, i: nat, j: nat)
    requires IsStored(stored)
    requires i < j < Size
    ensures Trace(hash, stored)[i].plain != Trace(hash, stored)[j].plain
  {
  }

  /** Every text of the candidate shape is examined, at 1-based position
      `IndexOf(p) + 1`; when its hash equals the stored string that step, and
      only a step whose hash equals it, is marked as a match. */
  lemma TraceFindsPlaintext(hash: Hash, stored: string, p: string)
    requires IsStored(stored) && IsCandidate(p)
    ensures Trace(hash, stored)[IndexOf(p)].plain == p
    ensures Trace(hash, stored)[IndexOf(p)].count == IndexOf(p) + 1
    ensures Trace(hash, stored)[IndexOf(p)].matched <==> CStr(hash(p, SaltOf(stored))) == stored
  {
  }

  /** The trace lists the candidates in strictly increasing lexicographic
      order, whatever the hash and the stored string. */
  lemma TraceOrdered(hash: Hash, stored: string, i: nat, j: nat)
    requires IsStored(stored)
    requires i < j < Size
    ensures LexLess(Trace(hash, stored)[i].plain, Trace(hash, stored)[j].plain)
  {
    CandidateOrder(i, j);
  }
}
