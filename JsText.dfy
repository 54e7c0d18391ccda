/** JavaScript strings: sequences of UTF-16 code units, with the few
    `String.prototype` operations the core uses. */
module JsText {

  /** One UTF-16 code unit, as `String.prototype.charCodeAt` returns it. */
  type CodeUnit = u: int | 0 <= u < 0x1_0000

  /** A JavaScript string value; `length` is the number of code units. */
  type JsString = seq<CodeUnit>

  predicate IsHighSurrogate(u: CodeUnit) { 0xD800 <= u < 0xDC00 }

  predicate IsLowSurrogate(u: CodeUnit) { 0xDC00 <= u < 0xE000 }

  /** The code point a high/low surrogate pair stands for. */
  function PairValue(hi: CodeUnit, lo: CodeUnit): int {
    0x1_0000 + (hi as int - 0xD800) * 0x400 + (lo as int - 0xDC00)
  }

  /** The code units of one Unicode scalar value: itself when it is in the
      Basic Multilingual Plane, otherwise a high/low surrogate pair. */
  function CharUnits(c: char): (r: seq<CodeUnit>)
    ensures 1 <= |r| <= 2
    ensures |r| == 1 <==> c as int < 0x1_0000
    ensures |r| == 1 ==> r[0] == c as int && !IsHighSurrogate(r[0])
    ensures |r| == 2 ==> IsHighSurrogate(r[0]) && IsLowSurrogate(r[1])
    ensures |r| == 2 ==> PairValue(r[0], r[1]) == c as int
  {
    var v := c as int;
    if v < 0x1_0000 then [v]
    else
      var w := v - 0x1_0000;
      [0xD800 + w / 0x400, 0xDC00 + w % 0x400]
  }

  /** The JavaScript string a string literal denotes (its UTF-16 form). */
  function FromText(s: string): (r: JsString)
    ensures |r| >= |s|
    ensures s == [] <==> r == []
  {
    if s == [] then [] else CharUnits(s[0]) + FromText(s[1..])
  }

  /** The code units of a string literal all of whose characters lie in
      the Basic Multilingual Plane (every literal of the source is ASCII):
      one unit per character. */
  function Literal(s: string): (r: JsString)
    ensures |r| == |s|
  {
    seq(|s|, i requires 0 <= i < |s| => s[i] as int % 0x1_0000)
  }

  /** For such literals `Literal` is the UTF-16 form. */
  lemma {:induction false} LiteralIsUtf16(s: string)
    requires forall i :: 0 <= i < |s| ==> s[i] as int < 0x1_0000
    ensures Literal(s) == FromText(s)
  {
    if s != [] {
      LiteralIsUtf16(s[1..]);
      assert Literal(s) == [s[0] as int] + Literal(s[1..]);
    }
  }

  /** `s.startsWith(prefix)`. */
  function StartsWith(s: JsString, prefix: JsString): (r: bool)
    ensures r <==> |prefix| <= |s| && forall i :: 0 <= i < |prefix| ==> s[i] == prefix[i]
    ensures r && |prefix| == |s| ==> s == prefix
  {
    |prefix| <= |s| && s[..|prefix|] == prefix
  }

  /** How `String.prototype.slice` turns a relative index into a position:
      a negative index counts from the end, and the result is clamped to
      `[0, len]`. */
  function SliceIndex(len: nat, k: int): (r: nat)
    ensures r <= len
    ensures 0 <= k <= len ==> r == k
    ensures -(len as int) <= k < 0 ==> r == len as int + k
    ensures k < -(len as int) ==> r == 0
    ensures k > len ==> r == len
  {
    if k < 0 then (if len + k < 0 then 0 else len + k)
    else if k > len then len
    else k
  }

  /** `s.slice(start, end)`. */
  function Slice(s: JsString, start: int, end: int): (r: JsString)
    ensures |r| <= |s|
    ensures SliceIndex(|s|, start) < SliceIndex(|s|, end)
            ==> r == s[SliceIndex(|s|, start)..SliceIndex(|s|, end)]
    ensures SliceIndex(|s|, end) <= SliceIndex(|s|, start) ==> r == []
  {
    var from, to := SliceIndex(|s|, start), SliceIndex(|s|, end);
    if from < to then s[from..to] else []
  }

  /** `s.slice(start)`: to the end of the string. */
  function SliceFrom(s: JsString, start: int): (r: JsString)
    ensures r == s[SliceIndex(|s|, start)..]
  {
    Slice(s, start, |s|)
  }
}
