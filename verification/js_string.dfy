/** JavaScript strings as the typewriter sees them.

    A JavaScript string is a sequence of UTF-16 code units: `length`,
    `substring` and the indices passed to it all count code units, so a
    character outside the Basic Multilingual Plane occupies two positions
    (a high surrogate followed by a low surrogate). Dafny's `string` holds
    Unicode scalar values instead, so the page's strings are converted with
    `Utf16` before the animation works on them. */
module JsString {

  /** One UTF-16 code unit. */
  type CodeUnit = x: int | 0 <= x < 0x1_0000

  /** A JavaScript string value. */
  type Text = seq<CodeUnit>

  /** Characters that UTF-16 writes as a surrogate pair. */
  predicate IsAstral(c: char) {
    c as int >= 0x1_0000
  }

  predicate IsHighSurrogate(u: CodeUnit) {
    0xD800 <= u < 0xDC00
  }

  predicate IsLowSurrogate(u: CodeUnit) {
    0xDC00 <= u < 0xE000
  }

  /** The code units of one character: itself when it lies in the Basic
      Multilingual Plane, otherwise a surrogate pair from which the
      character can be recovered. */
  function Encode(c: char): (r: Text)
    ensures |r| == if IsAstral(c) then 2 else 1
    ensures !IsAstral(c) ==> r[0] == c as int
    ensures IsAstral(c) ==> IsHighSurrogate(r[0]) && IsLowSurrogate(r[1])
    ensures IsAstral(c) ==> 0x1_0000 + (r[0] as int - 0xD800) * 0x400 + (r[1] as int - 0xDC00) == c as int
  {
    if !IsAstral(c) then [c as int]
    else
      var v := c as int - 0x1_0000;
      [0xD800 + v / 0x400, 0xDC00 + v % 0x400]
  }

  /** Number of characters of `s` outside the Basic Multilingual Plane. */
  function AstralCount(s: string): (n: nat)
    ensures n <= |s|
    ensures n == 0 <==> forall k :: 0 <= k < |s| ==> !IsAstral(s[k])
  {
    if |s| == 0 then 0 else (if IsAstral(s[0]) then 1 else 0) + AstralCount(s[1..])
  }

  /** The JavaScript string a string literal of the page denotes. Its length
      is the number of characters plus one for every astral character. */
  function Utf16(s: string): (r: Text)
    ensures |r| == |s| + AstralCount(s)
    ensures |s| <= |r| <= 2 * |s|
  {
    if |s| == 0 then [] else Encode(s[0]) + Utf16(s[1..])
  }

  /** Without astral characters, code units and characters coincide. */
  lemma {:induction false} Utf16OfBmp(s: string)
    requires forall k :: 0 <= k < |s| ==> !IsAstral(s[k])
    ensures |Utf16(s)| == |s|
    ensures forall k :: 0 <= k < |s| ==> Utf16(s)[k] == s[k] as int
  {
    if |s| > 0 {
      Utf16OfBmp(s[1..]);
      assert Utf16(s) == [s[0] as int] + Utf16(s[1..]);
      forall k | 0 <= k < |s|
        ensures Utf16(s)[k] == s[k] as int
      {
        if k > 0 {
          assert s[k] == s[1..][k - 1];
        }
      }
    }
  }

  function Clamp(x: int, lo: int, hi: int): (r: int)
    requires lo <= hi
    ensures lo <= r <= hi
    ensures lo <= x <= hi ==> r == x
  {
    if x < lo then lo else if x > hi then hi else x
  }

  /** `String.prototype.substring(start, end)`: both ends are clamped into
      `[0, |s|]` and swapped when `start > end`. */
  function Substring(s: Text, start: int, end: int): (r: Text)
    ensures |r| <= |s|
    ensures start <= 0 ==> r == s[..Clamp(end, 0, |s|)]
  {
    var a := Clamp(start, 0, |s|);
    var b := Clamp(end, 0, |s|);
    if a <= b then s[a..b] else s[b..a]
  }
}
