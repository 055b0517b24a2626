/**
  C strings as the cracker uses them: a `char` buffer whose text runs up to
  the first NUL, and `substr`, which copies a slice of one buffer into another
  and terminates it.
*/
module CStrings {

  /** The text a NUL-terminated buffer holds: everything before its first NUL
      (or the whole buffer when it holds none). This is what `%s`, `strcmp`
      and `crypt` read from a `char *`. */
  function CStr(buf: seq<char>): (s: seq<char>)
    ensures '\0' !in s
    ensures s <= buf
    ensures |s| < |buf| ==> buf[|s|] == '\0'
  {
    if |buf| == 0 || buf[0] == '\0' then [] else [buf[0]] + CStr(buf[1..])
  }

  /** A buffer holding text `s`, a NUL, and anything after it reads as `s`. */
  lemma {:induction false} CStrOfTerminated(s: seq<char>, rest: seq<char>)
    requires '\0' !in s
    ensures CStr(s + ['\0'] + rest) == s
  {
    if s != [] {
      assert s[0] in s;
      assert (s + ['\0'] + rest)[1..] == s[1..] + ['\0'] + rest;
      CStrOfTerminated(s[1..], rest);
    }
  }

  /** Whatever follows a NUL is never read. */
  lemma {:induction false} CStrUntilNul(a: seq<char>, rest: seq<char>)
    ensures CStr(a + ['\0'] + rest) == CStr(a)
  {
    if a == [] {
    } else if a[0] == '\0' {
      assert (a + ['\0'] + rest)[0] == '\0';
    } else {
      assert (a + ['\0'] + rest)[1..] == a[1..] + ['\0'] + rest;
      CStrUntilNul(a[1..], rest);
    }
  }

  /** A buffer without a NUL reads as the whole buffer. */
  lemma CStrOfText(s: seq<char>)
    requires '\0' !in s
    ensures CStr(s) == s
  {
  }

  /** `substr(dest, src, start, length)`: `memcpy` of `length` bytes from
      `src + start` into `dest`, then a NUL at `dest[length]`. The C code
      demands that the bytes read lie within `src`, that `dest` has room for
      the terminator, and (as `memcpy` does) that the two buffers do not
      overlap. */
  method Substr(dest: array<char>, src: array<char>, start: nat, length: nat)
    requires dest != src
    requires start + length <= src.Length
    requires length < dest.Length
    modifies dest
    ensures dest[..length] == src[start..start + length]
    ensures dest[length] == '\0'
    ensures dest[length + 1..] == old(dest[length + 1..])
  {
    var i := 0;
    while i < length
      invariant 0 <= i <= length
      invariant dest[..i] == src[start..start + i]
      invariant dest[length..] == old(dest[length..])
    {
      dest[i] := src[start + i];
      i := i + 1;
    }
    dest[length] := '\0';
  }
}
