/**
 * A decoder for the output of the encoders. It reads the "%2X" fields back,
 * including the space-padded ones, and uses the first UTF-8 byte to find how
 * many fields follow a single "%". The round-trip lemma shows that, quirks
 * and all, the encoders lose no information on strings of code units.
 */
module PercentDecoding {
  import opened Wrappers
  import opened CharClasses
  import opened PercentEncoding
  import opened Sequences

  /** The value of an upper-case hexadecimal digit. */
  function HexValue(h: char): Option<int> {
    if '0' <= h <= '9' then Some(h as int - '0' as int)
    else if 'A' <= h <= 'F' then Some(h as int - 'A' as int + 10)
    else None
  }

  /** Reads one "%2X" field: a space and a digit, or two digits. */
  function FieldValue(p0: char, p1: char): Option<Byte> {
    match (if p0 == ' ' then Some(0) else HexValue(p0), HexValue(p1))
    case (Some(hi), Some(lo)) => Some(16 * hi + lo)
    case _ => None
  }

  /** Reads n fields from the front of s. */
  function ReadBytes(s: string, n: nat): Option<seq<Byte>>
    decreases n
  {
    if n == 0 then Some([])
    else if |s| < 2 then None
    else match (FieldValue(s[0], s[1]), ReadBytes(s[2..], n - 1))
      case (Some(b), Some(bs)) => Some([b] + bs)
      case _ => None
  }

  /** The code unit a UTF-8 sequence of one to three bytes stands for, if any. */
  function Utf8Value(bs: seq<Byte>): Option<char> {
    if |bs| == 1 && bs[0] < 0x80 then
      Some(bs[0] as char)
    else if |bs| == 2 && 0xC0 <= bs[0] < 0xE0 && 0x80 <= bs[1] < 0xC0 then
      Some(((bs[0] as int - 0xC0) * 0x40 + (bs[1] as int - 0x80)) as char)
    else if |bs| == 3 && 0xE0 <= bs[0] < 0xF0 && 0x80 <= bs[1] < 0xC0 && 0x80 <= bs[2] < 0xC0 then
      var n := (bs[0] as int - 0xE0) * 0x1000 + (bs[1] as int - 0x80) * 0x40 + (bs[2] as int - 0x80);
      if 0xD800 <= n < 0xE000 then None else Some(n as char)
    else
      None
  }

  /** Percent-decoding of an encoded value; None when s is not something the encoders produce. */
  function Decode(s: string): Option<string>
    decreases |s|
  {
    if s == [] then Some([])
    else if s[0] != '%' then
      match Decode(s[1..])
      case Some(r) => Some([s[0]] + r)
      case None => None
    else if |s| < 3 then None
    else match FieldValue(s[1], s[2])
      case None => None
      case Some(lead) =>
        var n := Utf8Length(lead);
        if n == 0 || |s| < 1 + 2 * n then None
        else match (ReadBytes(s[1..], n), Decode(s[1 + 2 * n..]))
          case (Some(bs), Some(r)) =>
            (match Utf8Value(bs)
             case Some(c) => Some([c] + r)
             case None => None)
          case _ => None
  }

  /** A field written by "%2X" reads back as the byte it was written from. */
  lemma FieldValueHex2(b: Byte)
    ensures FieldValue(Hex2(b)[0], Hex2(b)[1]) == Some(b)
  {
    if b >= 0x10 {
      assert HexValue(HexDigit(b / 16)) == Some(b / 16);
    }
  }

  /** The UTF-8 bytes of a code unit decode back to it. */
  lemma Utf8RoundTrip(c: char)
    requires IsCodeUnit(c)
    ensures Utf8Value(Utf8(c)) == Some(c)
  {
    var n := c as int;
    if 0x800 <= n {
      var bs := Utf8(c);
      assert n / 0x40 == n / 0x1000 * 0x40 + n / 0x40 % 0x40;
      assert (bs[0] as int - 0xE0) * 0x1000 + (bs[1] as int - 0x80) * 0x40 + (bs[2] as int - 0x80) == n;
    }
  }

  /** Formatting bytes one after the other, seen from the front. */
  lemma {:induction false} HexOfBytesCons(b: Byte, bs: seq<Byte>)
    ensures HexOfBytes([b] + bs) == Hex2(b) + HexOfBytes(bs)
    decreases |bs|
  {
    if bs != [] {
      var bs' := bs[..|bs| - 1];
      assert ([b] + bs)[..|bs|] == [b] + bs';
      HexOfBytesCons(b, bs');
    }
  }

  /** Reading back as many fields as were formatted gives the bytes back, whatever follows. */
  lemma {:induction false} ReadBytesHexOfBytes(bs: seq<Byte>, rest: string)
    ensures ReadBytes(HexOfBytes(bs) + rest, |bs|) == Some(bs)
    decreases |bs|
  {
    if bs != [] {
      var s := HexOfBytes(bs) + rest;
      HexOfBytesCons(bs[0], bs[1..]);
      assert [bs[0]] + bs[1..] == bs;
      FieldValueHex2(bs[0]);
      assert s[2..] == HexOfBytes(bs[1..]) + rest;
      ReadBytesHexOfBytes(bs[1..], rest);
    }
  }

  /** The first field of the formatted bytes holds the first byte. */
  lemma FirstField(bs: seq<Byte>, rest: string)
    requires bs != []
    ensures var s := HexOfBytes(bs) + rest; |s| >= 2 && FieldValue(s[0], s[1]) == Some(bs[0])
  {
    HexOfBytesCons(bs[0], bs[1..]);
    assert [bs[0]] + bs[1..] == bs;
    FieldValueHex2(bs[0]);
  }

  /** Decoding a percent-encoded character followed by anything decodes that character and then the rest. */
  lemma DecodePctEncoded(c: char, rest: string)
    requires IsCodeUnit(c)
    ensures Decode(PctEncoded(c) + rest) ==
      match Decode(rest)
      case Some(r) => Some([c] + r)
      case None => None
  {
    var bs := Utf8(c);
    var n := |bs|;
    var s := PctEncoded(c) + rest;
    assert s[1..] == HexOfBytes(bs) + rest;
    FirstField(bs, rest);
    ReadBytesHexOfBytes(bs, rest);
    assert s[1 + 2 * n..] == rest;
    Utf8RoundTrip(c);
  }

  /** Decoding the encoding of one character followed by anything decodes that character and then the rest. */
  lemma DecodeEncodeChar(allow: Allow, c: char, rest: string)
    requires IsCodeUnit(c)
    ensures Decode(EncodeChar(allow, c) + rest) ==
      match Decode(rest)
      case Some(r) => Some([c] + r)
      case None => None
  {
    if Kept(allow, c) {
      ClassesDisjoint(c);
      assert ([c] + rest)[1..] == rest;
    } else {
      DecodePctEncoded(c, rest);
    }
  }

  /** Decoding inverts both encoders on every string of code units. */
  lemma {:induction false} DecodeEncoded(allow: Allow, s: string)
    requires IsBmp(s)
    ensures Decode(Encoded(allow, s)) == Some(s)
    decreases |s|
  {
    if s != [] {
      EncodedCons(allow, s);
      DecodeEncoded(allow, s[1..]);
      DecodeEncodeChar(allow, s[0], Encoded(allow, s[1..]));
      DropFirst(s);
    }
  }

  /** So two values with the same encoding are equal. */
  lemma EncodedInjective(allow: Allow, s: string, t: string)
    requires IsBmp(s) && IsBmp(t)
    requires Encoded(allow, s) == Encoded(allow, t)
    ensures s == t
  {
    DecodeEncoded(allow, s);
    DecodeEncoded(allow, t);
  }
}
