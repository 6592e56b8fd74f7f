/** Small value types and string helpers shared by the services. */
module Common {

  datatype Option<T> = None | Some(value: T)

  /** The set of elements of a sequence. */
  function Elems<T>(s: seq<T>): set<T> {
    set x | x in s
  }

  /** No element occurs twice. */
  predicate Distinct<T(==)>(s: seq<T>) {
    forall i, j :: 0 <= i < j < |s| ==> s[i] != s[j]
  }

  /** `s` ends with `suffix` (Python `str.endswith`, JavaScript `String.prototype.endsWith`). */
  predicate EndsWith(s: string, suffix: string) {
    |suffix| <= |s| && s[|s| - |suffix|..] == suffix
  }

  /** Lower-casing of one character; only ASCII letters are mapped. */
  function LowerChar(c: char): char {
    if 'A' <= c <= 'Z' then (c as int - 'A' as int + 'a' as int) as char else c
  }

  /** Python `str.lower` on ASCII text. */
  function Lower(s: string): (r: string)
    ensures |r| == |s|
  {
    seq(|s|, i requires 0 <= i < |s| => LowerChar(s[i]))
  }

  /** Python `str.replace(from, to)` for one-character `from` and `to`. */
  function ReplaceChar(s: string, from: char, to: char): (r: string)
    ensures |r| == |s|
    ensures forall i :: 0 <= i < |s| ==> r[i] == if s[i] == from then to else s[i]
  {
    if s == [] then []
    else (if s[0] == from then [to] else [s[0]]) + ReplaceChar(s[1..], from, to)
  }

  /** Replacing a character that does not occur changes nothing. */
  lemma {:induction false} ReplaceAbsentChar(s: string, from: char, to: char)
    requires from !in s
    ensures ReplaceChar(s, from, to) == s
  {
    if s != [] {
      assert from !in s[1..];
      ReplaceAbsentChar(s[1..], from, to);
    }
  }
}
