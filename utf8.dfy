/**
 * Well-formed UTF-8 as section 4 of RFC 3629 defines it, which is the rule
 * Rust's `String::from_utf8` applies when `decrypt` turns the recovered bytes
 * into a `String`:
 *
 *   UTF8-octets = *( UTF8-char )
 *   UTF8-char   = UTF8-1 / UTF8-2 / UTF8-3 / UTF8-4
 *
 * `IsChar` writes the alternatives of UTF8-char out; `ValidUtf8` is the
 * left-to-right validator that reads one character at a time. The two are
 * tied by `ValidUtf8IsOctets`.
 */
module Utf8 {
  import opened Base

  /** UTF8-tail = %x80-BF */
  predicate IsTail(b: byte) {
    0x80 <= b <= 0xBF
  }

  /** The byte sequence `c` is exactly one UTF8-char of the grammar. */
  predicate IsChar(c: seq<byte>) {
    || (|c| == 1 && c[0] <= 0x7F)
    || (|c| == 2 && 0xC2 <= c[0] <= 0xDF && IsTail(c[1]))
    || (|c| == 3 &&
        (|| (c[0] == 0xE0 && 0xA0 <= c[1] <= 0xBF && IsTail(c[2]))
         || (0xE1 <= c[0] <= 0xEC && IsTail(c[1]) && IsTail(c[2]))
         || (c[0] == 0xED && 0x80 <= c[1] <= 0x9F && IsTail(c[2]))
         || (0xEE <= c[0] <= 0xEF && IsTail(c[1]) && IsTail(c[2]))))
    || (|c| == 4 &&
        (|| (c[0] == 0xF0 && 0x90 <= c[1] <= 0xBF && IsTail(c[2]) && IsTail(c[3]))
         || (0xF1 <= c[0] <= 0xF3 && IsTail(c[1]) && IsTail(c[2]) && IsTail(c[3]))
         || (c[0] == 0xF4 && 0x80 <= c[1] <= 0x8F && IsTail(c[2]) && IsTail(c[3]))))
  }

  /** The number of bytes a lead byte announces, 0 for a byte that cannot start a character. */
  function Width(lead: byte): (w: nat)
    ensures w <= 4
  {
    if lead <= 0x7F then 1
    else if 0xC2 <= lead <= 0xDF then 2
    else if 0xE0 <= lead <= 0xEF then 3
    else if 0xF0 <= lead <= 0xF4 then 4
    else 0
  }

  /** The range the second byte must lie in after `lead` (only the four special leads narrow it). */
  predicate SecondOk(lead: byte, b: byte) {
    if lead == 0xE0 then 0xA0 <= b <= 0xBF
    else if lead == 0xED then 0x80 <= b <= 0x9F
    else if lead == 0xF0 then 0x90 <= b <= 0xBF
    else if lead == 0xF4 then 0x80 <= b <= 0x8F
    else IsTail(b)
  }

  /**
   * The length of the character that starts `s`, or 0 when `s` is empty or
   * does not start with a well-formed character.
   */
  function LeadingCharLength(s: seq<byte>): (n: nat)
    ensures n <= 4 && n <= |s|
  {
    if |s| == 0 then 0
    else
      var w := Width(s[0]);
      if w == 0 || |s| < w then 0
      else if w == 1 then 1
      else if !SecondOk(s[0], s[1]) then 0
      else if w >= 3 && !IsTail(s[2]) then 0
      else if w == 4 && !IsTail(s[3]) then 0
      else w
  }

  /** What `LeadingCharLength` measures is a UTF8-char of the grammar. */
  lemma LeadingCharIsChar(s: seq<byte>)
    ensures LeadingCharLength(s) > 0 ==> IsChar(s[..LeadingCharLength(s)])
  {
  }

  /** The leading character is unique: no other prefix of `s` is a UTF8-char. */
  lemma OnlyLeadingChar(s: seq<byte>, k: nat)
    requires 0 < k <= |s| && IsChar(s[..k])
    ensures LeadingCharLength(s) == k
  {
  }

  /** The octets that section 1 of RFC 3629 says never appear in UTF-8: C0, C1 and F5 to FF. */
  predicate NeverAppears(b: byte) {
    b == 0xC0 || b == 0xC1 || b >= 0xF5
  }

  /** No byte of a well-formed leading character is one of those octets. */
  lemma LeadingCharOctets(s: seq<byte>)
    ensures forall i {:trigger NeverAppears(s[i])} :: 0 <= i < LeadingCharLength(s) ==> !NeverAppears(s[i])
  {
  }

  /**
   * What `String::from_utf8` accepts: the bytes split into well-formed
   * characters, read left to right. Accepted text holds none of the octets
   * that never appear in UTF-8.
   */
  predicate ValidUtf8(s: seq<byte>)
    ensures ValidUtf8(s) ==> forall i {:trigger NeverAppears(s[i])} :: 0 <= i < |s| ==> !NeverAppears(s[i])
    decreases |s|
  {
    if |s| == 0 then true
    else
      var n := LeadingCharLength(s);
      LeadingCharOctets(s);
      n > 0 && ValidUtf8(s[n..])
  }

  function Concat(cs: seq<seq<byte>>): (s: seq<byte>)
  {
    if cs == [] then [] else cs[0] + Concat(cs[1..])
  }

  /** UTF8-octets = *( UTF8-char ): some split of `s` into characters exists. */
  ghost predicate IsOctets(s: seq<byte>) {
    exists cs :: Concat(cs) == s && forall i :: 0 <= i < |cs| ==> IsChar(cs[i])
  }

  /** The split into characters that `ValidUtf8` finds. */
  function Chars(s: seq<byte>): (cs: seq<seq<byte>>)
    requires ValidUtf8(s)
    ensures Concat(cs) == s
    ensures forall i :: 0 <= i < |cs| ==> IsChar(cs[i])
    decreases |s|
  {
    if |s| == 0 then []
    else
      var n := LeadingCharLength(s);
      LeadingCharIsChar(s);
      var rest := Chars(s[n..]);
      assert Concat([s[..n]] + rest) == s[..n] + Concat(rest) by {
        assert ([s[..n]] + rest)[1..] == rest;
      }
      [s[..n]] + rest
  }

  lemma {:induction false} OctetsAreValid(cs: seq<seq<byte>>)
    requires forall i :: 0 <= i < |cs| ==> IsChar(cs[i])
    ensures ValidUtf8(Concat(cs))
  {
    if cs != [] {
      var s := Concat(cs);
      var k := |cs[0]|;
      assert s[..k] == cs[0];
      OnlyLeadingChar(s, k);
      assert s[k..] == Concat(cs[1..]);
      OctetsAreValid(cs[1..]);
    }
  }

  /** The validator accepts exactly the sentences of the grammar. */
  lemma ValidUtf8IsOctets(s: seq<byte>)
    ensures ValidUtf8(s) <==> IsOctets(s)
  {
    if ValidUtf8(s) {
      var cs := Chars(s);
      assert Concat(cs) == s;
    }
    if IsOctets(s) {
      var cs :| Concat(cs) == s && forall i :: 0 <= i < |cs| ==> IsChar(cs[i]);
      OctetsAreValid(cs);
    }
  }

  /** Well-formed text stays well-formed when more well-formed text follows it. */
  lemma {:induction false} ValidUtf8Append(a: seq<byte>, b: seq<byte>)
    requires ValidUtf8(a) && ValidUtf8(b)
    ensures ValidUtf8(a + b)
    decreases |a|
  {
    if |a| > 0 {
      var n := LeadingCharLength(a);
      assert (a + b)[..n] == a[..n];
      OnlyLeadingChar(a + b, n);
      assert (a + b)[n..] == a[n..] + b;
      ValidUtf8Append(a[n..], b);
    } else {
      assert a + b == b;
    }
  }

  /** Bytes below 0x80, the US-ASCII range. */
  predicate IsAscii(s: seq<byte>) {
    forall i :: 0 <= i < |s| ==> s[i] <= 0x7F
  }

  /** Every byte sequence of US-ASCII is well-formed. */
  lemma {:induction false} AsciiIsValid(s: seq<byte>)
    requires IsAscii(s)
    ensures ValidUtf8(s)
    decreases |s|
  {
    if |s| > 0 {
      assert IsChar(s[..1]);
      AsciiIsValid(s[1..]);
    }
  }

  /** US-ASCII text that ends in the lead byte of a longer character is not well-formed. */
  lemma {:induction false} AsciiThenLeadIsInvalid(a: seq<byte>, lead: byte)
    requires IsAscii(a)
    requires Width(lead) > 1
    ensures !ValidUtf8(a + [lead])
    decreases |a|
  {
    if |a| > 0 {
      var s := a + [lead];
      assert LeadingCharLength(s) == 1;
      assert s[1..] == a[1..] + [lead];
      AsciiThenLeadIsInvalid(a[1..], lead);
    }
  }

  /** A lead byte whose continuation has been cut off is not well-formed. */
  lemma TruncatedCharIsInvalid(s: seq<byte>)
    requires |s| > 0 && |s| < Width(s[0])
    ensures !ValidUtf8(s)
  {
  }
}
