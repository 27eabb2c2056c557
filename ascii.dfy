/** Bytes, C strings and the few character classes the device code relies on.
    A C `char`/`uint8_t` is modelled as a character below 256, so that string
    literals can be written directly; a C string is the sequence of its bytes
    before the terminating NUL. */
module Ascii {

  type byte = c: char | c as int < 256

  datatype Option<+T> = None | Some(value: T)

  const NUL: byte := 0 as char
  const TAB: byte := '\t'
  const LF: byte := '\n'
  const CR: byte := '\r'
  const SPACE: byte := ' '
  const BACKSLASH: byte := '\\'

  /** `isspace` in the C locale. */
  predicate IsSpace(c: byte)
  {
    c == ' ' || c == '\t' || c == '\n' || c == 11 as char || c == 12 as char || c == '\r'
  }

  /** `isprint` in the C locale: 0x20 through 0x7e. */
  predicate IsPrint(c: byte)
  {
    0x20 <= c as int <= 0x7e
  }

  /** `tolower` in the C locale. */
  function ToLower(c: byte): (r: byte)
    ensures 'A' <= c <= 'Z' ==> r as int == c as int + 32
    ensures !('A' <= c <= 'Z') ==> r == c
  {
    if 'A' <= c <= 'Z' then (c as int + 32) as char else c
  }

  /** `strcasecmp(a, b) == 0` for two C strings. */
  predicate EqualsIgnoreCase(a: seq<byte>, b: seq<byte>)
  {
    |a| == |b| && forall i :: 0 <= i < |a| ==> ToLower(a[i]) == ToLower(b[i])
  }

  /** The C string held in a buffer: its bytes up to the first NUL. */
  function CString(s: seq<byte>): (r: seq<byte>)
    ensures |r| <= |s| && r == s[..|r|]
    ensures NUL !in r
    ensures |r| < |s| ==> s[|r|] == NUL
  {
    if s == [] || s[0] == NUL then [] else [s[0]] + CString(s[1..])
  }

  /** The bytes of `s` other than carriage returns, in order. */
  function RemoveCR(s: seq<byte>): (r: seq<byte>)
    ensures CR !in r
    ensures |r| <= |s|
  {
    if s == [] then []
    else if s[0] == CR then RemoveCR(s[1..])
    else [s[0]] + RemoveCR(s[1..])
  }

  lemma {:induction false} RemoveCRAppend(a: seq<byte>, b: seq<byte>)
    ensures RemoveCR(a + b) == RemoveCR(a) + RemoveCR(b)
  {
    if a == [] {
      assert a + b == b;
    } else {
      assert (a + b)[1..] == a[1..] + b;
      RemoveCRAppend(a[1..], b);
    }
  }

  /** The concatenation of a sequence of byte strings. */
  function Concat(parts: seq<seq<byte>>): (r: seq<byte>)
  {
    if parts == [] then [] else parts[0] + Concat(parts[1..])
  }

  /** `n` copies of `c`. */
  function Repeat(c: byte, n: nat): (r: seq<byte>)
    ensures |r| == n && forall i :: 0 <= i < n ==> r[i] == c
  {
    if n == 0 then [] else [c] + Repeat(c, n - 1)
  }
}
