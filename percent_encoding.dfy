/**
 * Percent-encoding of variable values: the encoders encodeU and encodeU_AND_R
 * and the single-character encoder pctEncode (the %XX form of RFC 3986
 * section 2.1, as the expander writes it).
 */
module PercentEncoding {
  import opened CharClasses
  import opened Sequences

  /**
   * A byte as an unsigned value. Java's `byte` is signed, but
   * `String.format("%X", b)` prints a negative byte as b + 256, which is this value.
   */
  type Byte = b: int | 0 <= b < 0x100

  /** Which characters an operator lets through unencoded (OperatorParams.Allow). */
  datatype Allow = U | UAndR

  /** The number of bytes a UTF-8 sequence has, read off its first byte (up to three). */
  function Utf8Length(lead: Byte): nat {
    if lead < 0x80 then 1
    else if 0xC0 <= lead < 0xE0 then 2
    else if 0xE0 <= lead < 0xF0 then 3
    else 0
  }

  /**
   * `Character.toString(c).getBytes("UTF-8")` for a code unit that is not a
   * surrogate: a well-formed sequence whose first byte announces its length,
   * followed by continuation bytes 10xxxxxx.
   */
  function Utf8(c: char): (bs: seq<Byte>)
    requires IsCodeUnit(c)
    ensures 1 <= |bs| <= 3 && Utf8Length(bs[0]) == |bs|
    ensures forall k :: 1 <= k < |bs| ==> 0x80 <= bs[k] < 0xC0
    ensures (|bs| == 1) == (c as int < 0x80)
    ensures (|bs| == 2) == (0x80 <= c as int < 0x800)
  {
    var n := c as int;
    if n < 0x80 then [n]
    else if n < 0x800 then [0xC0 + n / 0x40, 0x80 + n % 0x40]
    else [0xE0 + n / 0x1000, 0x80 + n / 0x40 % 0x40, 0x80 + n % 0x40]
  }

  /** An upper-case hexadecimal digit. */
  predicate IsHexDigit(h: char) {
    IsDigit(h) || 'A' <= h <= 'F'
  }

  function HexDigit(d: int): (h: char)
    requires 0 <= d < 16
    ensures IsHexDigit(h)
    ensures h as int == if d < 10 then '0' as int + d else 'A' as int + d - 10
  {
    if d < 10 then ('0' as int + d) as char else ('A' as int + d - 10) as char
  }

  /**
   * `String.format("%2X", b)`: upper-case hexadecimal, right-justified in a
   * field of width two and padded with a SPACE, so a byte below 0x10 gives a
   * space and one digit.
   */
  function Hex2(b: Byte): (s: string)
    ensures |s| == 2 && IsHexDigit(s[1])
    ensures s[0] == ' ' <==> b < 0x10
    ensures s[0] != ' ' ==> IsHexDigit(s[0])
  {
    if b < 0x10 then [' ', HexDigit(b)] else [HexDigit(b / 16), HexDigit(b % 16)]
  }

  /** Hex2 of every byte, one after the other. */
  function HexOfBytes(bs: seq<Byte>): (s: string)
    ensures |s| == 2 * |bs|
    ensures forall i :: 0 <= i < |s| ==> IsHexDigit(s[i]) || s[i] == ' '
  {
    if bs == [] then [] else HexOfBytes(bs[..|bs| - 1]) + Hex2(bs[|bs| - 1])
  }

  /** What pctEncode returns: ONE "%" followed by Hex2 of every UTF-8 byte of c. */
  function PctEncoded(c: char): (s: string)
    requires IsCodeUnit(c)
  {
    "%" + HexOfBytes(Utf8(c))
  }

  /** pctEncode: appends "%" and then the formatted bytes of c, one at a time. */
  method PctEncode(c: char) returns (s: string)
    requires IsCodeUnit(c)
    ensures s == PctEncoded(c)
  {
    var bytes := Utf8(c);
    s := "%";
    for k := 0 to |bytes|
      invariant s == "%" + HexOfBytes(bytes[..k])
    {
      assert bytes[..k + 1][..k] == bytes[..k];
      s := s + Hex2(bytes[k]);
    }
    assert bytes[..|bytes|] == bytes;
  }

  /**
   * The encoding of one character starts with the only "%" it holds and is
   * followed by two characters per UTF-8 byte, each a hexadecimal digit or the
   * padding space; so it is 3, 5 or 7 characters long.
   */
  lemma PctEncodedShape(c: char)
    requires IsCodeUnit(c)
    ensures var s := PctEncoded(c);
      && |s| == 1 + 2 * |Utf8(c)|
      && s[0] == '%'
      && forall i :: 1 <= i < |s| ==> IsHexDigit(s[i]) || s[i] == ' '
  {
  }

  /** A character from 0x10 to 0x7F becomes exactly "%XX", the two hexadecimal digits of its value. */
  lemma PctEncodedAscii(c: char)
    requires 0x10 <= c as int < 0x80
    ensures PctEncoded(c) == ['%', HexDigit(c as int / 16), HexDigit(c as int % 16)]
  {
    assert Utf8(c) == [c as int];
  }

  /** A character below 0x10 becomes "%", a space and one digit: the padding of "%2X" is a space, not a zero. */
  lemma PctEncodedControl(c: char)
    requires c as int < 0x10
    ensures PctEncoded(c) == ['%', ' ', HexDigit(c as int)]
  {
    assert Utf8(c) == [c as int];
  }

  /** A character beyond 0x7F gets one "%" for all of its bytes, e.g. U+00E9 becomes "%C3A9". */
  lemma PctEncodedMultiByte(c: char)
    requires 0x80 <= c as int && IsCodeUnit(c)
    ensures |PctEncoded(c)| >= 5
    ensures '%' !in PctEncoded(c)[1..]
  {
    PctEncodedShape(c);
  }

  /** Whether a character passes through unencoded under the given class. */
  predicate Kept(allow: Allow, c: char) {
    IsUnreserved(c) || (allow == UAndR && IsReserved(c))
  }

  /** The encoding of one character of a value. */
  function EncodeChar(allow: Allow, c: char): string
    requires IsCodeUnit(c)
  {
    if Kept(allow, c) then [c] else PctEncoded(c)
  }

  /**
   * What encodeU (allow == U) and encodeU_AND_R (allow == UAndR) return: every
   * character replaced by its encoding. The result is never shorter than the input.
   */
  function Encoded(allow: Allow, s: string): (r: string)
    requires IsBmp(s)
    ensures |r| >= |s|
  {
    if s == [] then [] else Encoded(allow, s[..|s| - 1]) + EncodeChar(allow, s[|s| - 1])
  }

  /** encodeU: keeps the unreserved characters and percent-encodes every other one. */
  method EncodeU(input: string) returns (r: string)
    requires IsBmp(input)
    ensures r == Encoded(U, input)
  {
    r := [];
    for k := 0 to |input|
      invariant r == Encoded(U, input[..k])
    {
      assert input[..k + 1][..k] == input[..k];
      var c := input[k];
      if IsUnreserved(c) {
        r := r + [c];
      } else {
        var e := PctEncode(c);
        r := r + e;
      }
    }
    assert input[..|input|] == input;
  }

  /** encodeU_AND_R: keeps the unreserved and the reserved characters and percent-encodes every other one. */
  method EncodeUAndR(input: string) returns (r: string)
    requires IsBmp(input)
    ensures r == Encoded(UAndR, input)
  {
    r := [];
    for k := 0 to |input|
      invariant r == Encoded(UAndR, input[..k])
    {
      assert input[..k + 1][..k] == input[..k];
      var c := input[k];
      if IsUnreserved(c) || IsReserved(c) {
        r := r + [c];
      } else {
        var e := PctEncode(c);
        r := r + e;
      }
    }
    assert input[..|input|] == input;
  }

  /** Encoding distributes over concatenation. */
  lemma {:induction false} EncodedAppend(allow: Allow, a: string, b: string)
    requires IsBmp(a) && IsBmp(b)
    ensures IsBmp(a + b)
    ensures Encoded(allow, a + b) == Encoded(allow, a) + Encoded(allow, b)
    decreases |b|
  {
    if b == [] {
      assert a + b == a;
    } else {
      var b' := b[..|b| - 1];
      assert (a + b)[..|a + b| - 1] == a + b';
      EncodedAppend(allow, a, b');
      Assoc(Encoded(allow, a), Encoded(allow, b'), EncodeChar(allow, b[|b| - 1]));
    }
  }

  /** Encoding the characters of s one at a time from the front. */
  lemma EncodedCons(allow: Allow, s: string)
    requires IsBmp(s) && s != []
    ensures Encoded(allow, s) == EncodeChar(allow, s[0]) + Encoded(allow, s[1..])
  {
    assert s == [s[0]] + s[1..];
    EncodedAppend(allow, [s[0]], s[1..]);
  }

  /** A value whose characters are all kept is its own encoding. */
  lemma {:induction false} EncodedAllKept(allow: Allow, s: string)
    requires IsBmp(s) && forall i :: 0 <= i < |s| ==> Kept(allow, s[i])
    ensures Encoded(allow, s) == s
  {
    if s != [] {
      var s' := s[..|s| - 1];
      assert forall i :: 0 <= i < |s'| ==> s'[i] == s[i];
      EncodedAllKept(allow, s');
      DropLast(s);
    }
  }

  /** A value holding a character that is not kept has a strictly longer encoding. */
  lemma {:induction false} EncodedGrows(allow: Allow, s: string, k: nat)
    requires IsBmp(s) && k < |s| && !Kept(allow, s[k])
    ensures |Encoded(allow, s)| > |s|
  {
    var s' := s[..|s| - 1];
    if k == |s| - 1 {
      assert |EncodeChar(allow, s[k])| >= 3;
    } else {
      assert s'[k] == s[k];
      EncodedGrows(allow, s', k);
    }
  }

  /**
   * A value comes out unchanged exactly when all its characters are kept;
   * otherwise the encoding is strictly longer.
   */
  lemma EncodedUnchangedIffKept(allow: Allow, s: string)
    requires IsBmp(s)
    ensures Encoded(allow, s) == s <==> forall i :: 0 <= i < |s| ==> Kept(allow, s[i])
    ensures (exists i :: 0 <= i < |s| && !Kept(allow, s[i])) ==> |Encoded(allow, s)| > |s|
  {
    if forall i :: 0 <= i < |s| ==> Kept(allow, s[i]) {
      EncodedAllKept(allow, s);
    } else {
      var k :| 0 <= k < |s| && !Kept(allow, s[k]);
      EncodedGrows(allow, s, k);
    }
  }

  /**
   * Every character of an encoded value is one the class keeps, a "%", a
   * hexadecimal digit or the padding space. Under U no reserved character
   * survives encoding.
   */
  lemma {:induction false} EncodedCharacters(allow: Allow, s: string)
    requires IsBmp(s)
    ensures forall i :: 0 <= i < |Encoded(allow, s)| ==>
      var e := Encoded(allow, s)[i];
      Kept(allow, e) || e == '%' || e == ' '
  {
    if s != [] {
      var c := s[|s| - 1];
      EncodedCharacters(allow, s[..|s| - 1]);
      if !Kept(allow, c) {
        PctEncodedShape(c);
      }
    }
  }
}
