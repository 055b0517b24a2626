/**
  The keyspace `crack` walks: three upper-case letters followed by a
  zero-padded two-digit number, produced by four nested counters `x`, `y`,
  `k` (character codes 'A'..'Z') and `z` (0..99), `x` outermost and `z`
  innermost. A step of the walk is identified either by its counters
  (`Dials`), by its position in the walk (an index below `Size`), or by the
  candidate text `sprintf(plain, "%c%c%c%02d", x, y, k, z)` writes.
*/
module Keyspace {

  datatype Option<T> = None | Some(value: T)

  /** Values each letter counter takes. */
  const Letters: nat := 26
  /** Values the number counter takes. */
  const Numbers: nat := 100
  /** Number of candidates one search visits: 26 * 26 * 26 * 100. */
  const Size: nat := Letters * Letters * Letters * Numbers

  /** Positions one step of `y` spans (`Letters * Numbers`), and one step of
      `x` (`Letters * Letters * Numbers`). */
  const YStride: nat := 2600
  const XStride: nat := 67600

  /** Length of a candidate's text; `plain[7]` holds it and its NUL. */
  const CandidateLength: nat := 5

  /** The loop counters of one step: `x`, `y`, `k` are character codes, as
      in the C code, and `z` is the number printed with `%02d`. */
  datatype Dials = Dials(x: int, y: int, k: int, z: int) {
    predicate Valid() {
      IsLetterCode(x) && IsLetterCode(y) && IsLetterCode(k) && 0 <= z <= 99
    }
  }

  predicate IsLetterCode(c: int) {
    'A' as int <= c <= 'Z' as int
  }

  predicate IsUpper(c: char) {
    'A' <= c <= 'Z'
  }

  predicate IsDigit(c: char) {
    '0' <= c <= '9'
  }

  /** The shape of every candidate: three upper-case letters then two
      decimal digits. */
  predicate IsCandidate(s: string) {
    |s| == CandidateLength &&
    IsUpper(s[0]) && IsUpper(s[1]) && IsUpper(s[2]) &&
    IsDigit(s[3]) && IsDigit(s[4])
  }

  lemma Strides()
    ensures YStride == Letters * Numbers && XStride == Letters * YStride && Size == Letters * XStride
  {
  }

  /** Position of a step in the walk: the mixed-radix number whose digits
      are the counters, `x` most significant. */
  function Index(d: Dials): (n: nat)
    requires d.Valid()
    ensures n < Size
  {
    (((d.x - 'A' as int) * Letters + (d.y - 'A' as int)) * Letters + (d.k - 'A' as int)) * Numbers + d.z
  }

  /** The counters of the step at position `n`. */
  function DialsAt(n: nat): (d: Dials)
    requires n < Size
    ensures d.Valid()
    ensures Index(d) == n
  {
    var z := n % 100;
    var m := n / 100;
    var k := m % 26;
    var m2 := m / 26;
    var y := m2 % 26;
    var x := m2 / 26;
    Dials(x + 'A' as int, y + 'A' as int, k + 'A' as int, z)
  }

  /** Distinct positions have distinct counters, and every valid setting of
      the counters is reached: `DialsAt` and `Index` are inverse. */
  lemma DialsAtIndex(d: Dials)
    requires d.Valid()
    ensures DialsAt(Index(d)) == d
  {
    var a := (d.x - 'A' as int) * 26 + (d.y - 'A' as int);
    var b := a * 26 + (d.k - 'A' as int);
    assert Index(d) == b * 100 + d.z;
    assert Index(d) / 100 == b;
    assert b / 26 == a;
  }

  function Digit(v: int): (c: char)
    requires 0 <= v <= 9
    ensures IsDigit(c)
    ensures c as int - '0' as int == v
  {
    ('0' as int + v) as char
  }

  /** `sprintf(plain, "%c%c%c%02d", x, y, k, z)`: the three letters, then
      `z` as two decimal digits with a leading zero below 10. */
  function Candidate(d: Dials): (s: string)
    requires d.Valid()
    ensures IsCandidate(s)
  {
    [d.x as char, d.y as char, d.k as char, Digit(d.z / 10), Digit(d.z % 10)]
  }

  /** Reads the counters back from a candidate's text. */
  function Parse(s: string): (d: Dials)
    requires IsCandidate(s)
    ensures d.Valid()
    ensures Candidate(d) == s
  {
    var tens := s[3] as int - '0' as int;
    var units := s[4] as int - '0' as int;
    Dials(s[0] as int, s[1] as int, s[2] as int, tens * 10 + units)
  }

  /** The formatting loses nothing: the text determines the counters. */
  lemma ParseCandidate(d: Dials)
    requires d.Valid()
    ensures Parse(Candidate(d)) == d
  {
  }

  /** The candidate examined at position `n` (when `count` becomes `n + 1`). */
  function CandidateAt(n: nat): (s: string)
    requires n < Size
    ensures IsCandidate(s)
  {
    Candidate(DialsAt(n))
  }

  /** Position of a candidate text in the walk. */
  function IndexOf(s: string): (n: nat)
    requires IsCandidate(s)
    ensures n < Size
    ensures CandidateAt(n) == s
  {
    var d := Parse(s);
    DialsAtIndex(d);
    Index(d)
  }

  /** Positions and candidates correspond one to one: no candidate is
      examined twice in one search, and every text of the candidate shape is
      examined, at position `IndexOf(s)`. */
  lemma CandidateAtInjective(i: nat, j: nat)
    requires i < Size && j < Size
    requires CandidateAt(i) == CandidateAt(j)
    ensures i == j
  {
  }

  lemma IndexOfCandidateAt(n: nat)
    requires n < Size
    ensures IndexOf(CandidateAt(n)) == n
  {
  }

  /** One turn of an odometer over the counters: the innermost counter `z`
      advances; a counter that has passed its last value resets and carries
      into the next one out; when `x` itself passes 'Z' the walk is over. */
  function Tick(d: Dials): (r: Option<Dials>)
    requires d.Valid()
    ensures r.Some? ==> r.value.Valid()
    ensures r.None? <==> d == Dials('Z' as int, 'Z' as int, 'Z' as int, 99)
  {
    if d.z < 99 then Some(d.(z := d.z + 1))
    else if d.k < 'Z' as int then Some(d.(k := d.k + 1, z := 0))
    else if d.y < 'Z' as int then Some(d.(y := d.y + 1, k := 'A' as int, z := 0))
    else if d.x < 'Z' as int then Some(Dials(d.x + 1, 'A' as int, 'A' as int, 0))
    else None
  }

  /** The walk is odometer order: the step after position `n` is the
      odometer's next setting, and the odometer stops exactly after the last
      position. */
  lemma TickIsNextIndex(d: Dials)
    requires d.Valid()
    ensures Tick(d).None? <==> Index(d) == Size - 1
    ensures Tick(d).Some? ==> Tick(d).value.Valid() && Index(Tick(d).value) == Index(d) + 1
  {
  }

  lemma {:induction false} TickAt(n: nat)
    requires n < Size
    ensures Tick(DialsAt(n)) == if n + 1 < Size then Some(DialsAt(n + 1)) else None
  {
    TickIsNextIndex(DialsAt(n));
    if n + 1 < Size {
      DialsAtIndex(Tick(DialsAt(n)).value);
    }
  }

  /** Strict lexicographic order on texts of equal length, comparing
      characters by their codes. */
  predicate LexLess(a: string, b: string)
    requires |a| == |b|
  {
    |a| > 0 && (a[0] < b[0] || (a[0] == b[0] && LexLess(a[1..], b[1..])))
  }

  /** Lexicographic order on the counters, `x` most significant. */
  predicate DialsLess(d: Dials, e: Dials) {
    d.x < e.x || (d.x == e.x && (d.y < e.y || (d.y == e.y && (d.k < e.k || (d.k == e.k && d.z < e.z)))))
  }

  lemma IndexOrder(d: Dials, e: Dials)
    requires d.Valid() && e.Valid()
    ensures Index(d) < Index(e) <==> DialsLess(d, e)
  {
  }

  lemma {:induction false} CandidateLexOrder(d: Dials, e: Dials)
    requires d.Valid() && e.Valid()
    ensures LexLess(Candidate(d), Candidate(e)) <==> DialsLess(d, e)
  {
    var s, t := Candidate(d), Candidate(e);
    assert LexLess(s, t) <==>
      s[0] < t[0] || (s[0] == t[0] && (s[1] < t[1] || (s[1] == t[1] && (s[2] < t[2] ||
      (s[2] == t[2] && (s[3] < t[3] || (s[3] == t[3] && s[4] < t[4])))))))
    by {
      assert LexLess(s[4..], t[4..]) <==> s[4] < t[4];
      assert LexLess(s[3..], t[3..]) <==> s[3] < t[3] || (s[3] == t[3] && LexLess(s[4..], t[4..]));
      assert LexLess(s[2..], t[2..]) <==> s[2] < t[2] || (s[2] == t[2] && LexLess(s[3..], t[3..]));
      assert LexLess(s[1..], t[1..]) <==> s[1] < t[1] || (s[1] == t[1] && LexLess(s[2..], t[2..]));
    }
    assert d.z < e.z <==> d.z / 10 < e.z / 10 || (d.z / 10 == e.z / 10 && d.z % 10 < e.z % 10);
  }

  /** The walk visits the candidates in strictly increasing lexicographic
      order, so earlier position and lexicographically smaller text are the
      same thing. */
  lemma CandidateOrder(i: nat, j: nat)
    requires i < Size && j < Size
    ensures i < j <==> LexLess(CandidateAt(i), CandidateAt(j))
  {
    IndexOrder(DialsAt(i), DialsAt(j));
    CandidateLexOrder(DialsAt(i), DialsAt(j));
  }

  /** `sprintf` of the candidate into `plain`: five characters and a NUL;
      the rest of the buffer is untouched. */
  method WriteCandidate(plain: array<char>, x: int, y: int, k: int, z: int)
    requires Dials(x, y, k, z).Valid()
    requires plain.Length >= CandidateLength + 1
    modifies plain
    ensures plain[..CandidateLength + 1] == Candidate(Dials(x, y, k, z)) + ['\0']
    ensures plain[CandidateLength + 1..] == old(plain[CandidateLength + 1..])
  {
    plain[0] := x as char;
    plain[1] := y as char;
    plain[2] := k as char;
    plain[3] := Digit(z / 10);
    plain[4] := Digit(z % 10);
    plain[5] := '\0';
  }
}
