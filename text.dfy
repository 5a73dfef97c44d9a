/**
 * The string primitives of Go's standard library that the core relies on:
 * `strings.TrimSpace`, `strings.ToLower` and `len` on a string (a byte count).
 * Strings are sequences of Unicode scalar values; Go holds them as UTF-8 bytes.
 */
module Text {

  /** `unicode.IsSpace`: the Latin-1 spaces plus the Unicode White_Space property. */
  predicate IsSpace(c: char) {
    || c == ' ' || c == '\t' || c == '\n' || c == '\r'
    || c == '\U{000B}' || c == '\U{000C}' || c == '\U{0085}' || c == '\U{00A0}'
    || c == '\U{1680}' || ('\U{2000}' <= c <= '\U{200A}')
    || c == '\U{2028}' || c == '\U{2029}' || c == '\U{202F}' || c == '\U{205F}' || c == '\U{3000}'
  }

  predicate AllSpace(s: string) {
    forall k :: 0 <= k < |s| ==> IsSpace(s[k])
  }

  /** Drops leading white space; the result is a suffix of `s`. */
  function TrimLeft(s: string): (r: string)
    ensures |r| <= |s| && r == s[|s| - |r|..]
    ensures AllSpace(s[..|s| - |r|])
    ensures r != [] ==> !IsSpace(r[0])
  {
    if s != [] && IsSpace(s[0]) then
      var r := TrimLeft(s[1..]);
      assert s[..|s| - |r|] == [s[0]] + s[1..][..|s| - 1 - |r|];
      r
    else
      s
  }

  /** Drops trailing white space; the result is a prefix of `s`. */
  function TrimRight(s: string): (r: string)
    ensures |r| <= |s| && r == s[..|r|]
    ensures AllSpace(s[|r|..])
    ensures r != [] ==> !IsSpace(r[|r| - 1])
  {
    if s != [] && IsSpace(s[|s| - 1]) then
      var r := TrimRight(s[..|s| - 1]);
      assert s[|r|..] == s[..|s| - 1][|r|..] + [s[|s| - 1]];
      r
    else
      s
  }

  /** `strings.TrimSpace`. */
  function TrimSpace(s: string): (r: string)
    ensures r != [] ==> !IsSpace(r[0]) && !IsSpace(r[|r| - 1])
  {
    TrimRight(TrimLeft(s))
  }

  lemma {:induction false} TrimLeftIdle(s: string)
    requires s == [] || !IsSpace(s[0])
    ensures TrimLeft(s) == s
  {
  }

  lemma {:induction false} TrimRightIdle(s: string)
    requires s == [] || !IsSpace(s[|s| - 1])
    ensures TrimRight(s) == s
  {
  }

  /** Trimming twice is trimming once. */
  lemma TrimSpaceIdempotent(s: string)
    ensures TrimSpace(TrimSpace(s)) == TrimSpace(s)
  {
    var r := TrimSpace(s);
    TrimLeftIdle(r);
    TrimRightIdle(r);
  }

  /**
   * The capitals of `unicode.ToLower`'s case tables in the ASCII, Latin-1, Greek and Cyrillic
   * blocks, each lowered by a fixed offset. Capitals of other blocks are not in this model.
   */
  predicate IsUpper(c: char) {
    || ('A' <= c <= 'Z')
    || ('\U{00C0}' <= c <= '\U{00DE}' && c != '\U{00D7}')
    || ('\U{0391}' <= c <= '\U{03A9}' && c != '\U{03A2}')
    || ('\U{0400}' <= c <= '\U{042F}')
  }

  /** `unicode.ToLower` on the capitals above; every other character is kept. */
  function LowerChar(c: char): (d: char)
    ensures 'A' <= c <= 'Z' ==> d as int == c as int + 32
    ensures '\U{0400}' <= c <= '\U{040F}' ==> d as int == c as int + 80
    ensures IsUpper(c) && !('\U{0400}' <= c <= '\U{040F}') ==> d as int == c as int + 32
    ensures !IsUpper(c) ==> d == c
    ensures !IsUpper(d)
    ensures IsSpace(d) <==> IsSpace(c)
  {
    if '\U{0400}' <= c <= '\U{040F}' then (c as int + 80) as char
    else if IsUpper(c) then (c as int + 32) as char
    else c
  }

  predicate IsLower(s: string) {
    forall k :: 0 <= k < |s| ==> !IsUpper(s[k])
  }

  /** `strings.ToLower`, character by character. */
  function ToLower(s: string): (r: string)
    ensures |r| == |s|
    ensures forall k :: 0 <= k < |s| ==> r[k] == LowerChar(s[k])
    ensures IsLower(r)
  {
    if s == [] then [] else [LowerChar(s[0])] + ToLower(s[1..])
  }

  /** Lower-casing is idempotent, so a key computed from an already lower-cased word is that word. */
  lemma ToLowerIdempotent(s: string)
    ensures ToLower(ToLower(s)) == ToLower(s)
  {
  }

  lemma ToLowerOfLower(s: string)
    requires IsLower(s)
    ensures ToLower(s) == s
  {
  }

  /** `r` is `s[i..]`'s first `|r|` characters lowered, and only white space of `s` lies around them. */
  predicate LoweredCore(s: string, r: string, i: int) {
    && 0 <= i <= |s| - |r|
    && AllSpace(s[..i]) && AllSpace(s[i + |r|..])
    && forall k :: 0 <= k < |r| ==> r[k] == LowerChar(s[i + k])
  }

  /** A prefix `t` of a suffix `left` of `s`, with white space cut off either side, is an infix of `s`. */
  lemma {:induction false} SpaceAroundInfix(s: string, left: string, t: string)
    requires |left| <= |s| && left == s[|s| - |left|..] && AllSpace(s[..|s| - |left|])
    requires |t| <= |left| && t == left[..|t|] && AllSpace(left[|t|..])
    ensures AllSpace(s[|s| - |left| + |t|..])
    ensures t == s[|s| - |left|..|s| - |left| + |t|]
  {
    assert s[|s| - |left| + |t|..] == left[|t|..];
  }

  /** Lowering the trimmed infix gives a lowered core of `s`. */
  lemma LoweredTrimIsCore(s: string)
    ensures LoweredCore(s, ToLower(TrimSpace(s)), |s| - |TrimLeft(s)|)
  {
    var left := TrimLeft(s);
    var t := TrimRight(left);
    SpaceAroundInfix(s, left, t);
  }

  /** Lowering keeps white space where it is, so it commutes with trimming. */
  lemma {:induction false} TrimLeftToLower(s: string)
    ensures TrimLeft(ToLower(s)) == ToLower(TrimLeft(s))
  {
    if s != [] && IsSpace(s[0]) {
      assert ToLower(s)[1..] == ToLower(s[1..]);
      TrimLeftToLower(s[1..]);
    }
  }

  lemma {:induction false} TrimRightToLower(s: string)
    ensures TrimRight(ToLower(s)) == ToLower(TrimRight(s))
  {
    if s != [] && IsSpace(s[|s| - 1]) {
      assert ToLower(s)[..|s| - 1] == ToLower(s[..|s| - 1]);
      TrimRightToLower(s[..|s| - 1]);
    }
  }

  lemma TrimSpaceToLower(s: string)
    ensures TrimSpace(ToLower(s)) == ToLower(TrimSpace(s))
  {
    TrimLeftToLower(s);
    TrimRightToLower(TrimLeft(s));
  }

  /** The number of bytes of the UTF-8 encoding of one scalar value. */
  function Utf8Width(c: char): (n: nat)
    ensures 1 <= n <= 4
    ensures (c as int < 0x80) <==> n == 1
  {
    if c as int < 0x80 then 1
    else if c as int < 0x800 then 2
    else if c as int < 0x1_0000 then 3
    else 4
  }

  /** Go's `len(s)`: the length of the UTF-8 encoding, not the number of characters. */
  function ByteLen(s: string): (n: nat)
    ensures |s| <= n <= 4 * |s|
  {
    if s == [] then 0 else Utf8Width(s[0]) + ByteLen(s[1..])
  }

  predicate IsAscii(s: string) {
    forall k :: 0 <= k < |s| ==> s[k] as int < 0x80
  }

  /** On ASCII text the byte length and the character count agree ... */
  lemma {:induction false} ByteLenAscii(s: string)
    requires IsAscii(s)
    ensures ByteLen(s) == |s|
  {
    if s != [] {
      ByteLenAscii(s[1..]);
    }
  }

  /** ... and any non-ASCII character makes the byte length strictly larger. */
  lemma {:induction false} ByteLenNonAscii(s: string, k: nat)
    requires k < |s| && s[k] as int >= 0x80
    ensures ByteLen(s) > |s|
  {
    if k > 0 {
      ByteLenNonAscii(s[1..], k - 1);
    }
  }
}
