/**
 * Session ids: the bytes drawn from the random source are written out as
 * lowercase hexadecimal, two digits per byte (`x.toString(16).padStart(2, "0")`
 * joined together), so 8 bytes give a 16-character id.
 */
module HexId {
  import opened Wrappers

  newtype byte = x: int | 0 <= x < 256

  /** Number of random bytes drawn per candidate id. */
  const IdBytes: nat := 8

  predicate IsHexChar(c: char) {
    '0' <= c <= '9' || 'a' <= c <= 'f'
  }

  /** A well-formed session id: 16 lowercase hexadecimal characters. */
  predicate IsSessionId(s: string) {
    |s| == 2 * IdBytes && forall k :: 0 <= k < |s| ==> IsHexChar(s[k])
  }

  /** The lowercase digit for a value below 16. */
  function HexDigit(d: int): (c: char)
    requires 0 <= d < 16
    ensures IsHexChar(c)
  {
    if d < 10 then ('0' as int + d) as char else ('a' as int + d - 10) as char
  }

  /** The value of a lowercase hexadecimal digit, or None for any other character. */
  function DigitValue(c: char): (d: Option<int>)
    ensures d.Some? <==> IsHexChar(c)
    ensures d.Some? ==> 0 <= d.value < 16 && HexDigit(d.value) == c
  {
    if '0' <= c <= '9' then Some(c as int - '0' as int)
    else if 'a' <= c <= 'f' then Some(c as int - 'a' as int + 10)
    else None
  }

  lemma DigitValueOfHexDigit(d: int)
    requires 0 <= d < 16
    ensures DigitValue(HexDigit(d)) == Some(d)
  {
  }

  /** The number a string of hexadecimal digits denotes (most significant first). */
  function HexValue(s: string): nat
    requires forall k :: 0 <= k < |s| ==> IsHexChar(s[k])
  {
    if s == [] then 0 else 16 * HexValue(s[..|s| - 1]) + DigitValue(s[|s| - 1]).value
  }

  /** `Number.prototype.toString(16)` on a non-negative integer. */
  function ToString16(n: nat): (s: string)
    ensures |s| >= 1
    ensures |s| == 1 <==> n < 16
    decreases n
  {
    if n < 16 then [HexDigit(n)] else ToString16(n / 16) + [HexDigit(n % 16)]
  }

  /**
   * `toString(16)` writes lowercase hex digits only, denotes the number it was
   * given, and has no leading zero.
   */
  lemma {:induction false} ToString16Digits(n: nat)
    ensures forall k :: 0 <= k < |ToString16(n)| ==> IsHexChar(ToString16(n)[k])
    ensures HexValue(ToString16(n)) == n
    ensures |ToString16(n)| > 1 ==> ToString16(n)[0] != '0'
    decreases n
  {
    if n < 16 {
      DigitValueOfHexDigit(n);
    } else {
      ToString16Digits(n / 16);
      var high := ToString16(n / 16);
      var s := high + [HexDigit(n % 16)];
      assert s[..|s| - 1] == high;
      DigitValueOfHexDigit(n % 16);
    }
  }

  /** `String.prototype.padStart(width, [pad])` with a one-character pad string. */
  function PadStart(s: string, width: nat, pad: char): (r: string)
    ensures |r| == if |s| >= width then |s| else width
  {
    if |s| >= width then s else seq(width - |s|, _ => pad) + s
  }

  /** `padStart` keeps the string at its end and fills in front of it with the pad character. */
  lemma PadStartShape(s: string, width: nat, pad: char)
    ensures PadStart(s, width, pad)[|PadStart(s, width, pad)| - |s|..] == s
    ensures forall k :: 0 <= k < |PadStart(s, width, pad)| - |s| ==> PadStart(s, width, pad)[k] == pad
  {
  }

  /** One byte as written into an id: exactly its high and its low nibble. */
  function ByteHex(b: byte): (r: string)
    ensures r == [HexDigit(b as int / 16), HexDigit(b as int % 16)]
  {
    var digits := ToString16(b as nat);
    if b < 16 then
      assert digits == [HexDigit(b as int)];
      PadStart(digits, 2, '0')
    else
      assert digits == ToString16(b as int / 16) + [HexDigit(b as int % 16)];
      PadStart(digits, 2, '0')
  }

  /** `[...bytes].map(x => x.toString(16).padStart(2, "0")).join("")`: two characters per byte. */
  function EncodeId(bytes: seq<byte>): (id: string)
    ensures |id| == 2 * |bytes|
  {
    if bytes == [] then []
    else
      var head, rest := ByteHex(bytes[0]), EncodeId(bytes[1..]);
      head + rest
  }

  /** Every character of an encoded id is a lowercase hexadecimal digit. */
  lemma {:induction false} EncodeIdIsHex(bytes: seq<byte>)
    ensures forall k :: 0 <= k < |EncodeId(bytes)| ==> IsHexChar(EncodeId(bytes)[k])
  {
    if bytes != [] {
      EncodeIdIsHex(bytes[1..]);
      var head, rest := ByteHex(bytes[0]), EncodeId(bytes[1..]);
      assert EncodeId(bytes) == head + rest;
      assert forall k :: 0 <= k < 2 ==> IsHexChar(head[k]);
    }
  }

  /** The byte written as the digit pair `high`, `low`; None unless both are lowercase hex digits. */
  function PairValue(high: char, low: char): (b: Option<byte>)
    ensures b.Some? <==> IsHexChar(high) && IsHexChar(low)
    ensures b.Some? ==> ByteHex(b.value) == [high, low]
  {
    match (DigitValue(high), DigitValue(low))
    case (Some(h), Some(l)) =>
      var b := (16 * h + l) as byte;
      NibblesOf(h, l);
      assert ByteHex(b) == [HexDigit(h), HexDigit(l)];
      Some(b)
    case _ => None
  }

  lemma NibblesOf(high: int, low: int)
    requires 0 <= high < 16 && 0 <= low < 16
    ensures (16 * high + low) / 16 == high && (16 * high + low) % 16 == low
  {
  }

  lemma PairValueOfByteHex(b: byte)
    ensures PairValue(ByteHex(b)[0], ByteHex(b)[1]) == Some(b)
  {
  }

  /** Reads an id back as bytes, two digits per byte; None unless it is whole hex pairs. */
  function DecodeId(s: string): (r: Option<seq<byte>>)
    ensures r.Some? ==> 2 * |r.value| == |s|
  {
    if |s| < 2 then
      if s == [] then Some([]) else None
    else
      match PairValue(s[0], s[1])
      case None => None
      case Some(b) =>
        match DecodeId(s[2..])
        case None => None
        case Some(rest) => Some([b] + rest)
  }

  /** Decoding an encoded id gives back the bytes it was drawn from. */
  lemma {:induction false} DecodeEncode(bytes: seq<byte>)
    ensures DecodeId(EncodeId(bytes)) == Some(bytes)
  {
    if bytes != [] {
      var head, rest := ByteHex(bytes[0]), EncodeId(bytes[1..]);
      EncodeIdStep(bytes);
      DecodeEncode(bytes[1..]);
      PairValueOfByteHex(bytes[0]);
      DecodeIdCons(head, rest, bytes[0], bytes[1..]);
      assert [bytes[0]] + bytes[1..] == bytes;
    }
  }

  lemma DecodeIdCons(pair: string, rest: string, b: byte, restBytes: seq<byte>)
    requires |pair| == 2 && PairValue(pair[0], pair[1]) == Some(b) && DecodeId(rest) == Some(restBytes)
    ensures DecodeId(pair + rest) == Some([b] + restBytes)
  {
  }

  lemma DecodeIdStep(s: string)
    requires |s| >= 2 && DecodeId(s).Some?
    ensures PairValue(s[0], s[1]).Some? && DecodeId(s[2..]).Some?
    ensures DecodeId(s).value == [PairValue(s[0], s[1]).value] + DecodeId(s[2..]).value
  {
  }

  lemma EncodeIdStep(bytes: seq<byte>)
    requires bytes != []
    ensures EncodeId(bytes) == ByteHex(bytes[0]) + EncodeId(bytes[1..])
  {
  }

  lemma SplitPair(s: string)
    requires |s| >= 2
    ensures s == [s[0], s[1]] + s[2..]
  {
  }

  /** Whatever decodes is the encoding of what it decodes to. */
  lemma {:induction false} EncodeDecode(s: string, bytes: seq<byte>)
    requires DecodeId(s) == Some(bytes)
    ensures EncodeId(bytes) == s
  {
    if |s| >= 2 {
      DecodeIdStep(s);
      var rest := DecodeId(s[2..]).value;
      EncodeDecode(s[2..], rest);
      var b := PairValue(s[0], s[1]).value;
      assert bytes == [b] + rest;
      assert bytes[0] == b && bytes[1..] == rest;
      EncodeIdStep(bytes);
      assert ByteHex(b) == [s[0], s[1]];
      assert EncodeId(bytes) == [s[0], s[1]] + s[2..];
      SplitPair(s);
    }
  }

  /** Every string of whole lowercase hex pairs decodes. */
  lemma {:induction false} DecodeTotal(s: string)
    requires |s| % 2 == 0
    requires forall k :: 0 <= k < |s| ==> IsHexChar(s[k])
    ensures DecodeId(s).Some?
  {
    if s != [] {
      DecodeTotal(s[2..]);
    }
  }

  /** Distinct byte draws give distinct ids. */
  lemma EncodeIdInjective(a: seq<byte>, b: seq<byte>)
    requires EncodeId(a) == EncodeId(b)
    ensures a == b
  {
    DecodeEncode(a);
    DecodeEncode(b);
  }

  /** An 8-byte draw always gives a well-formed session id. */
  lemma DrawIsSessionId(bytes: seq<byte>)
    requires |bytes| == IdBytes
    ensures IsSessionId(EncodeId(bytes))
  {
    EncodeIdIsHex(bytes);
  }

  /** Every well-formed session id is the encoding of some 8-byte draw: the id space has 2^64 members. */
  lemma SessionIdSpace(s: string)
    requires IsSessionId(s)
    ensures exists bytes :: |bytes| == IdBytes && EncodeId(bytes) == s
  {
    DecodeTotal(s);
    var bytes := DecodeId(s).value;
    EncodeDecode(s, bytes);
  }
}
