/** Character-level helpers of the translator: ASCII lower-casing, standing in
    for Go's strings.ToLower, and the UTF-8 byte length that Go's built-in len
    returns for a string. A Go string is modelled as its sequence of runes
    (Unicode scalar values), which is what Dafny's char is. */
module Text {

  /** Lower-cases one ASCII capital letter and keeps every other character. */
  function LowerChar(c: char): char
  {
    if 'A' <= c <= 'Z' then (c as int - 'A' as int + 'a' as int) as char else c
  }

  /** Lower-cases a string character by character (ASCII letters only). */
  function Lower(s: string): string
  {
    seq(|s|, k requires 0 <= k < |s| => LowerChar(s[k]))
  }

  /** Number of bytes the UTF-8 encoding of one rune takes. */
  function Utf8Width(c: char): (w: nat)
    ensures 1 <= w <= 4
    ensures w == 1 <==> c as int < 0x80
  {
    if c as int < 0x80 then 1
    else if c as int < 0x800 then 2
    else if c as int < 0x1_0000 then 3
    else 4
  }

  /** Go's len(s): the length of the UTF-8 encoding of s, in bytes. */
  function ByteLen(s: string): (n: nat)
    ensures n >= |s|
    ensures n == 0 <==> s == []
  {
    if s == [] then 0 else Utf8Width(s[0]) + ByteLen(s[1..])
  }

  predicate IsAscii(s: string)
  {
    forall k :: 0 <= k < |s| ==> s[k] as int < 0x80
  }

  /** On ASCII text the byte length and the rune count coincide. */
  lemma {:induction false} AsciiByteLen(s: string)
    ensures IsAscii(s) <==> ByteLen(s) == |s|
  {
    if s != [] {
      AsciiByteLen(s[1..]);
      if IsAscii(s) {
        assert IsAscii(s[1..]) by {
          forall k | 0 <= k < |s[1..]| ensures s[1..][k] as int < 0x80 {
            assert s[1..][k] == s[k + 1];
          }
        }
      }
    }
  }

  /** The result of lower-casing contains no ASCII capital letter, and
      lower-casing twice is lower-casing once. */
  lemma LowerIsLowerCase(s: string)
    ensures forall k :: 0 <= k < |Lower(s)| ==> !('A' <= Lower(s)[k] <= 'Z')
    ensures Lower(Lower(s)) == Lower(s)
  {
  }

  /** Two runes that lower-case alike take the same number of UTF-8 bytes. */
  lemma LowerCharKeepsWidth(c: char, d: char)
    requires LowerChar(c) == LowerChar(d)
    ensures Utf8Width(c) == Utf8Width(d)
  {
  }

  /** Changing the letter case of a string does not change its byte length. */
  lemma {:induction false} CaseChangeKeepsByteLen(s: string, t: string)
    requires Lower(s) == Lower(t)
    ensures ByteLen(s) == ByteLen(t)
  {
    assert |s| == |Lower(s)| == |Lower(t)| == |t|;
    if s != [] {
      assert LowerChar(s[0]) == Lower(s)[0] == Lower(t)[0] == LowerChar(t[0]);
      LowerCharKeepsWidth(s[0], t[0]);
      assert Lower(s[1..]) == Lower(s)[1..];
      assert Lower(t[1..]) == Lower(t)[1..];
      CaseChangeKeepsByteLen(s[1..], t[1..]);
    }
  }
}
