/** Bytes, NUL-terminated strings and the Option type shared by every module. */
module Bytes {

  datatype Option<+T> = None | Some(value: T)

  /** One byte of a C string (`char` read as `unsigned char`, as strcmp and the hash do). */
  type Byte = b: int | 0 <= b < 256

  /** The contents of a NUL-terminated C string: the bytes before the terminator, none of them NUL. */
  type CString = s: seq<Byte> | 0 !in s

  const Nul: Byte := 0
  const Space: Byte := ' ' as int
  const Percent: Byte := '%' as int
  const Plus: Byte := '+' as int
  const Slash: Byte := '/' as int
  const Anchor: Byte := '#' as int
  const Colon: Byte := ':' as int

  /** The bytes of a printable ASCII literal; lets constants be written as text. */
  function Ascii(s: string): (r: CString)
    requires forall i :: 0 <= i < |s| ==> 0 < s[i] as int < 128
    ensures |r| == |s|
    ensures forall i :: 0 <= i < |s| ==> r[i] == s[i] as int
  {
    seq(|s|, i requires 0 <= i < |s| => s[i] as int)
  }

  /** What C string functions see of a buffer: everything before its first NUL byte. */
  function CStringView(s: seq<Byte>): (r: CString)
    ensures |r| <= |s| && r == s[..|r|]
    ensures |r| < |s| ==> s[|r|] == Nul
    ensures Nul !in s ==> r == s
  {
    if s == [] || s[0] == Nul then [] else [s[0]] + CStringView(s[1..])
  }

  /** The strings occurring in a sequence. */
  function AsSet(s: seq<CString>): (r: set<CString>)
    ensures forall x :: x in r <==> x in s
  {
    set x | x in s
  }

  /** No value occurs twice. */
  predicate NoDup<T(==)>(s: seq<T>)
  {
    forall i, j :: 0 <= i < j < |s| ==> s[i] != s[j]
  }

  /** A sequence without repeats has as many distinct strings as positions. */
  lemma {:induction false} NoDupSize(s: seq<CString>)
    requires NoDup(s)
    ensures |AsSet(s)| == |s|
    decreases |s|
  {
    if s != [] {
      var rest := s[1..];
      assert NoDup(rest) by {
        forall i, j | 0 <= i < j < |rest| ensures rest[i] != rest[j] {
          assert rest[i] == s[i + 1] && rest[j] == s[j + 1];
        }
      }
      NoDupSize(rest);
      assert s[0] !in AsSet(rest) by {
        forall k | 0 <= k < |rest| ensures rest[k] != s[0] {
          assert rest[k] == s[k + 1];
        }
      }
      assert AsSet(s) == {s[0]} + AsSet(rest) by {
        assert s == [s[0]] + rest;
      }
    }
  }

  /** The positions of `t` picked out of `s` in increasing order. */
  predicate IsSubsequence<T(==)>(t: seq<T>, s: seq<T>)
  {
    if t == [] then true
    else if s == [] then false
    else if t[0] == s[0] then IsSubsequence(t[1..], s[1..])
    else IsSubsequence(t, s[1..])
  }
}
