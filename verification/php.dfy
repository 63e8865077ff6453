/** The slice of PHP's runtime semantics the mapping layer relies on: the
    values a model attribute can hold, `empty()`, string conversion,
    `strlen` (bytes) and `strtolower` (ASCII). */
module Php {

  datatype Option<+T> = None | Some(value: T)

  /** A model attribute value: PHP `null`, a string, or a list of strings
      (a multi-valued directory attribute). */
  datatype Value = Null | Str(s: string) | List(items: seq<string>)

  /** PHP `empty()`: `null`, `""`, `"0"` and the empty array are empty. */
  predicate IsEmpty(v: Value)
  {
    match v
    case Null => true
    case Str(s) => s == "" || s == "0"
    case List(xs) => xs == []
  }

  /** String conversion as `.` concatenation performs it: `null` is `""`,
      and an array prints as the word `Array`. */
  function ToStr(v: Value): string
  {
    match v
    case Null => ""
    case Str(s) => s
    case List(_) => "Array"
  }

  /** The strings a per-element check visits: every element of a list, or
      the scalar itself converted to a string. */
  function Subjects(v: Value): (xs: seq<string>)
    ensures xs == [] <==> v == List([])
  {
    if v.List? then v.items else [ToStr(v)]
  }

  /** Number of bytes of the UTF-8 encoding of one character. */
  function Utf8Width(c: char): (w: nat)
    ensures 1 <= w <= 4
    ensures w == 1 <==> c as int < 0x80
  {
    if c as int < 0x80 then 1
    else if c as int < 0x800 then 2
    else if c as int < 0x10000 then 3
    else 4
  }

  /** PHP `strlen`: the byte length of the UTF-8 encoded string. */
  function StrLen(s: string): (n: nat)
    ensures |s| <= n <= 4 * |s|
  {
    if s == [] then 0 else Utf8Width(s[0]) + StrLen(s[1..])
  }

  predicate IsAscii(s: string)
  {
    forall i :: 0 <= i < |s| ==> s[i] as int < 0x80
  }

  lemma {:induction false} StrLenAppend(a: string, b: string)
    ensures StrLen(a + b) == StrLen(a) + StrLen(b)
    decreases |a|
  {
    if a != [] {
      assert (a + b)[1..] == a[1..] + b;
      StrLenAppend(a[1..], b);
    } else {
      assert a + b == b;
    }
  }

  lemma AppendAssoc<T>(a: seq<T>, b: seq<T>, c: seq<T>)
    ensures a + (b + c) == a + b + c
  {
  }

  /** For ASCII text, bytes and characters coincide. */
  lemma {:induction false} AsciiStrLen(s: string)
    requires IsAscii(s)
    ensures StrLen(s) == |s|
    decreases |s|
  {
    if s != [] {
      assert IsAscii(s[1..]) by {
        forall i | 0 <= i < |s[1..]| ensures s[1..][i] as int < 0x80 {
          assert s[1..][i] == s[i + 1];
        }
      }
      AsciiStrLen(s[1..]);
    }
  }

  /** `strtolower` on one character, in the C locale. */
  function LowerChar(c: char): (d: char)
    ensures !('A' <= d <= 'Z')
    ensures !('A' <= c <= 'Z') ==> d == c
  {
    if 'A' <= c <= 'Z' then (c as int + 32) as char else c
  }

  /** `strtolower` on a string, in the C locale. */
  function Lower(s: string): (r: string)
    ensures |r| == |s|
    ensures forall i :: 0 <= i < |s| ==> r[i] == LowerChar(s[i])
    ensures forall i :: 0 <= i < |r| ==> !('A' <= r[i] <= 'Z')
  {
    if s == [] then []
    else
      var rest := Lower(s[1..]);
      assert forall i :: 1 <= i < |s| ==> s[1..][i - 1] == s[i];
      [LowerChar(s[0])] + rest
  }

  /** Lowercasing twice changes nothing more than lowercasing once. */
  lemma {:induction false} LowerIdempotent(s: string)
    ensures Lower(Lower(s)) == Lower(s)
    decreases |s|
  {
    if s != [] {
      var once := Lower(s);
      assert once[0] == LowerChar(s[0]) && once[1..] == Lower(s[1..]);
      LowerIdempotent(s[1..]);
    }
  }
}
