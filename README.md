# CrackAZ99: a verified model of the brute-force password cracker

`codePOSIX/CrackAZ99-With-Data.c` recovers the plaintext of salted
SHA-512-crypt strings by exhaustive search. For each stored string it takes
the first six bytes as the salt (`substr`), walks every candidate of the form
three upper-case letters followed by a two-digit number (`crack`'s four nested
loops over `x`, `y`, `k` in `'A'..'Z'` and `z` in `0..99`), hashes each
candidate with `crypt`, counts it, and marks the line `#` when the hash equals
the stored string. A match never stops the walk. `main` cracks every stored
string in order between two monotonic clock readings and prints the elapsed
time computed by `time_difference`.

The Dafny model has five modules, one per part of the program:

- `CStrings` (`cstrings.dfy`): C strings as NUL-terminated `char` buffers.
  `CStr` reads a buffer up to its first NUL, which is what `%s`, `strcmp` and
  `crypt` see. `Substr` is `substr`, a `memcpy` loop over arrays followed by
  the terminator.
- `Keyspace` (`keyspace.dfy`): the walk. `Dials` holds the loop counters of
  one step. `Index` and `DialsAt` convert between counters and position in
  the walk (`((x·26 + y)·26 + k)·100 + z`, letters offset from `'A'`).
  `Candidate` is the `"%c%c%c%02d"` text, and `Parse` reads it back.
  `Tick` is an odometer, an independent description of the loop nest.
  `WriteCandidate` is the `sprintf` into the `plain` buffer.
- `Cracker` (`cracker.dfy`): `crack`. `Crack` is the imperative loop nest over
  the `salt` and `plain` arrays. It is proved equal to the specification
  function `Search`, whose trace lists, for every step, the count, the
  candidate, the digest and the match flag.
- `Timing` (`timing.dfy`): `time_difference` as `TimeDifference`. `Borrow`
  specifies its seconds/nanoseconds borrow.
- `Batch` (`batch.dfy`): `main`'s loop as `RunBatch`.

Modelling choices:

- `crypt` is a parameter `hash: (string, string) -> string`. It is total and
  deterministic, and nothing is assumed about its digests. Its result is read
  as a C string.
- Text is modelled as `seq<char>` without the terminator; one `char`
  stands for one C byte, so text is ASCII. Buffers are
  `array<char>`. The per-line `printf` output becomes a value: the list of
  `Step(count, plain, digest, matched)` records, plus the final `count`.
- The stored strings, `n_passwords` and the two clock readings are inputs to
  `RunBatch`. Nothing in the model depends on the four hard-coded digests.
- The header comment of the C file says candidates have "2 uppercase
  letters". The code loops over three letters, and the model follows the code.
- `main`'s loop increment is written `i<i++`. That is an unsequenced read and
  modification of `i`. The model uses the evidently intended `i := i + 1`.
- The C code does not record a "first match". It only marks every matching
  line with `#`, and the model does the same. `TraceFindsPlaintext` states
  where a known plaintext is found and that its line is marked.
- `crack` calls `crypt` with the salt buffer read as a C string. When the
  stored string is only five characters long, its terminator is the sixth
  byte copied, so the salt is the whole string. `SaltOf` states both cases.
  `IsStored` demands only that the six bytes `substr` reads exist (the text
  plus its terminator).
- `codePOSIX/118.c` contains a textually identical `time_difference`
  (lines 49-60). `Timing.TimeDifference` models both copies.
- `count` is a C `int`. Its largest value is 1,757,600, far below 2^31, so
  unbounded integers model it exactly.

## Model

| member | source | states |
|---|---|---|
| `CStrings.CStr` | codePOSIX/CrackAZ99-With-Data.c:63-68 | the text a buffer holds is the prefix that contains no NUL and ends at the first NUL or at the end of the buffer |
| `CStrings.CStrOfTerminated` | codePOSIX/CrackAZ99-With-Data.c:38 | a buffer holding NUL-free text, a NUL, and anything after reads as exactly that text |
| `CStrings.CStrUntilNul` | codePOSIX/CrackAZ99-With-Data.c:38 | bytes after a terminator never affect what the buffer reads as |
| `CStrings.Substr` | codePOSIX/CrackAZ99-With-Data.c:36-39 | `dest[0..length)` becomes `src[start..start+length)`, `dest[length]` becomes NUL, and the rest of `dest` is unchanged |
| `Keyspace.Index` | codePOSIX/CrackAZ99-With-Data.c:58-61 | the position of a counter setting is below 26·26·26·100 |
| `Keyspace.DialsAt` | codePOSIX/CrackAZ99-With-Data.c:58-64 | every position below 1,757,600 has valid counters whose position is that number |
| `Keyspace.DialsAtIndex` | codePOSIX/CrackAZ99-With-Data.c:58-61 | every valid setting of the four counters is reached, at position `Index` |
| `Keyspace.Candidate` | codePOSIX/CrackAZ99-With-Data.c:62 | the formatted candidate is 5 characters: three upper-case letters and two decimal digits |
| `Keyspace.Parse` | codePOSIX/CrackAZ99-With-Data.c:62 | every text of the candidate shape is the formatting of some valid counters |
| `Keyspace.ParseCandidate` | codePOSIX/CrackAZ99-With-Data.c:62 | `%02d` loses nothing: the counters can be read back from the text |
| `Keyspace.CandidateAt` | codePOSIX/CrackAZ99-With-Data.c:58-62 | the candidate at any position has the candidate shape |
| `Keyspace.IndexOf` | codePOSIX/CrackAZ99-With-Data.c:58-62 | every text of the candidate shape is the candidate at some position of the walk |
| `Keyspace.CandidateAtInjective` | codePOSIX/CrackAZ99-With-Data.c:58-62 | different positions produce different candidates |
| `Keyspace.IndexOfCandidateAt` | codePOSIX/CrackAZ99-With-Data.c:58-62 | a candidate's position can be recovered from its text |
| `Keyspace.Tick` | codePOSIX/CrackAZ99-With-Data.c:58-61 | the increment-and-reset of the four counters (z fastest, then k, y, x) always yields valid counters, and stops only after 'Z','Z','Z',99 |
| `Keyspace.TickIsNextIndex` | codePOSIX/CrackAZ99-With-Data.c:58-61 | one odometer step (z fastest, carry into k, y, x) moves to the next position, and the odometer stops exactly at the last position |
| `Keyspace.TickAt` | codePOSIX/CrackAZ99-With-Data.c:58-61 | the walk is odometer order: the step after position n is the odometer's next setting, and there is none after the last |
| `Keyspace.IndexOrder` | codePOSIX/CrackAZ99-With-Data.c:58-61 | an earlier position means a lexicographically smaller (x, y, k, z) |
| `Keyspace.CandidateLexOrder` | codePOSIX/CrackAZ99-With-Data.c:62 | the candidate texts compare lexicographically exactly as their counters do |
| `Keyspace.CandidateOrder` | codePOSIX/CrackAZ99-With-Data.c:58-62 | position i is before position j if and only if candidate i is lexicographically smaller than candidate j |
| `Keyspace.WriteCandidate` | codePOSIX/CrackAZ99-With-Data.c:52-62 | `plain[0..6)` becomes the candidate followed by NUL, which fits the 7-byte buffer; the rest is unchanged |
| `Cracker.SaltOf` | codePOSIX/CrackAZ99-With-Data.c:51-56 | the salt is the first six bytes of the stored string, or the whole string if that is shorter |
| `Cracker.SaltBufferReadsSalt` | codePOSIX/CrackAZ99-With-Data.c:56 | after `substr(salt, stored, 0, 6)` the salt buffer reads as `SaltOf(stored)` |
| `Cracker.PlainBufferReadsCandidate` | codePOSIX/CrackAZ99-With-Data.c:62-63 | after the `sprintf`, `plain` reads as the candidate at the counters' position |
| `Cracker.StepAt` | codePOSIX/CrackAZ99-With-Data.c:62-69 | one inner-loop iteration: count n + 1, a candidate-shaped plaintext, the digest read as C text from the hash, and the `#` flag set exactly when that digest equals the stored string (`strcmp` == 0) |
| `Cracker.Search` | codePOSIX/CrackAZ99-With-Data.c:54-74 | one search examines 26·26·26·100 candidates; step n's count is n + 1, and the final count is the same whether or not a match occurred |
| `Cracker.Crack` | codePOSIX/CrackAZ99-With-Data.c:49-75 | the loop nest produces exactly `Search`: the same final count and the same step-by-step trace, in walk order, with each match flag set exactly when the digest equals the stored string |
| `Cracker.TraceDistinct` | codePOSIX/CrackAZ99-With-Data.c:58-62 | no candidate is examined twice in one search |
| `Cracker.TraceFindsPlaintext` | codePOSIX/CrackAZ99-With-Data.c:62-69 | every text of the candidate shape is examined, with count equal to its 1-based position, and its line is marked a match exactly when its hash equals the stored string |
| `Cracker.TraceOrdered` | codePOSIX/CrackAZ99-With-Data.c:58-62 | the trace lists candidates in strictly increasing lexicographic order, whatever the hash and the stored string |
| `Timing.Borrow` | codePOSIX/CrackAZ99-With-Data.c:79-85 | the borrowed (seconds, nanoseconds) pair recombines to the exact nanosecond delta; between readings whose nanosecond fields are in [0, 10^9), the nanosecond part is in [0, 10^9) and the pair is the delta's quotient and remainder by 10^9 |
| `Timing.TimeDifference` | codePOSIX/CrackAZ99-With-Data.c:76-88 | `*difference` is (fs·10^9 + fn) − (ss·10^9 + sn); the return value is 1 exactly when that is not positive, and 0 otherwise |
| `Timing.SubSecondBorrow` | codePOSIX/CrackAZ99-With-Data.c:82-85 | from (10 s, 900000000 ns) to (11 s, 100000000 ns) the borrow gives 0 s and 200000000 ns |
| `Batch.RunBatch` | codePOSIX/CrackAZ99-With-Data.c:89-104 | one outcome per stored string, in index order 0..n_passwords−1, each equal to a complete search of that string alone; the elapsed time is the exact difference of the two clock readings |

## Left out

- The internals of `crypt` (SHA-512-crypt): a foreign library call, modelled as the parameter `hash`.
- `crypt` returning NULL on an error: the C code does not check for it, and `strcmp` on NULL is undefined behaviour. The model's `hash` always returns a string.
- The `printf` text (lines 66, 68, 74, 101-102): output formatting. The trace records each line's count, candidate, digest and `#` flag instead, and `Outcome.count` is the "solutions explored" figure.
- `clock_gettime(CLOCK_MONOTONIC, ...)`: a system clock read. The two readings are parameters of `RunBatch`.
- The hard-coded `encrypted_passwords` data: `RunBatch` takes any sequence of stored strings and any `n_passwords` within it.
- Timing.TimeDifference: does not model overflow of `ds * 1000000000` in `long long`, because the integers are unbounded; for seconds differences beyond about 9.2·10^9 the C multiplication overflows a signed `long long`, which is undefined behaviour in C, so the C code promises no result there.
- The floating-point curve fitting in `codePOSIX/118.c` (`residual_error`, `rms_error` and the pattern search in its `main`) and its data table: floating point, outside the cracker.
- Cracker.SaltOf: one model `char` stands for one C byte, so only ASCII text is modelled; for text with multi-byte UTF-8 characters `SaltOf` takes six characters where `substr` copies six bytes, and `IsStored` (which gates `Search`, `Crack` and `RunBatch`) counts characters rather than bytes. The stored `crypt` strings are ASCII.
- CStrings.Substr: requires `dest` and `src` to be different arrays, where C's `memcpy` only forbids overlapping byte ranges. `crack` copies between two separate buffers, so this does not restrict the use modelled.
