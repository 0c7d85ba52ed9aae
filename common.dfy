/** Value types shared by the libserdes modules. */
module Common {

  /** A C pointer that may be NULL, or an optional field. */
  datatype Option<T> = None | Some(value: T)

  /** An octet of a payload buffer. */
  newtype byte = x: int | 0 <= x < 0x100

  /** A C `int` (32-bit two's complement), the type of a schema id. */
  newtype int32 = x: int | -0x8000_0000 <= x < 0x8000_0000

  /** `s` starts with `p`. */
  predicate IsPrefix(p: string, s: string) {
    |p| <= |s| && s[..|p|] == p
  }

  /** `strlen`: the characters before the first NUL (all of them if there is none). */
  function StrLen(s: seq<char>): (n: nat)
    ensures n <= |s|
    ensures forall i | 0 <= i < n :: s[i] != '\0'
    ensures n < |s| ==> s[n] == '\0'
  {
    if s == [] || s[0] == '\0' then 0 else 1 + StrLen(s[1..])
  }

  /** StrLen is the position of the first NUL, or the length when there is none. */
  lemma {:induction false} StrLenIs(s: seq<char>, n: nat)
    requires n <= |s| && (forall i | 0 <= i < n :: s[i] != '\0') && (n < |s| ==> s[n] == '\0')
    ensures StrLen(s) == n
  {
    if n > 0 {
      StrLenIs(s[1..], n - 1);
    }
  }

  /** `strdup`: the C string a character buffer holds. */
  function CStr(s: seq<char>): (r: seq<char>)
    ensures '\0' !in r && IsPrefix(r, s)
    ensures '\0' !in s ==> r == s
  {
    s[..StrLen(s)]
  }

  function Max(a: int, b: int): int { if a < b then b else a }
}
