/**
 * Well-formed UTF-8 as defined in section 4 of RFC 3629: the check Rust's
 * `String::from_utf8` and postcard's string deserializer perform.
 */
module Utf8 {
  import opened Wire

  predicate IsCont(b: byte) {
    0x80 <= b <= 0xBF
  }

  /** Length of the well-formed character that starts `s`, or 0 when `s` does not start with one. */
  function CharLen(s: Bytes): (n: nat)
    requires |s| > 0
    ensures n <= |s| && n <= 4
    ensures n == 1 <==> s[0] < 0x80
  {
    var b := s[0];
    if b < 0x80 then 1
    else if 0xC2 <= b <= 0xDF then
      if |s| >= 2 && IsCont(s[1]) then 2 else 0
    else if b == 0xE0 then
      if |s| >= 3 && 0xA0 <= s[1] <= 0xBF && IsCont(s[2]) then 3 else 0
    else if 0xE1 <= b <= 0xEC || 0xEE <= b <= 0xEF then
      if |s| >= 3 && IsCont(s[1]) && IsCont(s[2]) then 3 else 0
    else if b == 0xED then
      if |s| >= 3 && 0x80 <= s[1] <= 0x9F && IsCont(s[2]) then 3 else 0
    else if b == 0xF0 then
      if |s| >= 4 && 0x90 <= s[1] <= 0xBF && IsCont(s[2]) && IsCont(s[3]) then 4 else 0
    else if 0xF1 <= b <= 0xF3 then
      if |s| >= 4 && IsCont(s[1]) && IsCont(s[2]) && IsCont(s[3]) then 4 else 0
    else if b == 0xF4 then
      if |s| >= 4 && 0x80 <= s[1] <= 0x8F && IsCont(s[2]) && IsCont(s[3]) then 4 else 0
    else 0
  }

  predicate IsUtf8(s: Bytes)
    decreases |s|
  {
    s == [] || (CharLen(s) > 0 && IsUtf8(s[CharLen(s)..]))
  }

  /**
   * What `String::from_utf8` accepts and refuses: a two-byte character is
   * accepted, while a lone continuation byte, an overlong encoding, an encoded
   * surrogate and a truncated character are refused (section 3 of RFC 3629).
   */
  lemma Utf8Verdicts()
    ensures IsUtf8([0x61, 0xC3, 0xA9])
    ensures !IsUtf8([0x80])
    ensures !IsUtf8([0xC0, 0xAF])
    ensures !IsUtf8([0xED, 0xA0, 0x80])
    ensures !IsUtf8([0xE2, 0x82])
  {
    assert [0x61, 0xC3, 0xA9][1..] == [0xC3, 0xA9];
  }

  /** Well-formed strings joined together are well formed: characters never straddle the seam. */
  lemma {:induction false} Utf8Concat(a: Bytes, b: Bytes)
    requires IsUtf8(a) && IsUtf8(b)
    ensures IsUtf8(a + b)
    decreases |a|
  {
    if a == [] {
      assert a + b == b;
    } else {
      var n := CharLen(a);
      assert (a + b)[..n] == a[..n];
      CharLenPrefix(a, a + b);
      assert (a + b)[n..] == a[n..] + b;
      Utf8Concat(a[n..], b);
    }
  }

  /** The character at the front depends only on the bytes it is made of. */
  lemma CharLenPrefix(a: Bytes, s: Bytes)
    requires |a| > 0 && CharLen(a) > 0 && |a| <= |s| && s[..|a|] == a
    ensures CharLen(s) == CharLen(a)
  {
    assert s[0] == a[0];
    if CharLen(a) >= 2 { assert s[1] == a[1]; }
    if CharLen(a) >= 3 { assert s[2] == a[2]; }
    if CharLen(a) >= 4 { assert s[3] == a[3]; }
  }

  /** A Rust `String`: a byte sequence that is well-formed UTF-8. */
  type Str = s: Bytes | IsUtf8(s) witness []

  predicate AllAscii(s: Bytes) {
    forall i :: 0 <= i < |s| ==> s[i] < 0x80
  }

  /** Prepending ASCII bytes neither makes nor breaks well-formedness. */
  lemma {:induction false} AsciiPrefix(p: Bytes, s: Bytes)
    requires AllAscii(p)
    ensures IsUtf8(p + s) <==> IsUtf8(s)
    decreases |p|
  {
    if p != [] {
      assert (p + s)[1..] == p[1..] + s;
      AsciiPrefix(p[1..], s);
    } else {
      assert p + s == s;
    }
  }

  lemma AsciiIsUtf8(p: Bytes)
    requires AllAscii(p)
    ensures IsUtf8(p)
  {
    AsciiPrefix(p, []);
    assert p + [] == p;
  }

  /** The bytes of an ASCII literal form a valid `Str`. */
  function AsciiStr(s: string): (r: Str)
    requires IsAscii(s)
    ensures r == Ascii(s)
  {
    AsciiIsUtf8(Ascii(s));
    Ascii(s)
  }
}
