/** Bytes and their hexadecimal text form, as the tree exchanges digests.
    Encoding is Buffer#toString('hex'): two lowercase digits per byte.
    Decoding is Buffer.from(s, 'hex'): it reads pairs of hex digits (either
    case) and stops silently at the first pair holding a non-digit; a
    trailing unpaired digit is dropped. */
module Hex {

  newtype byte = x: int | 0 <= x < 0x100

  predicate IsLowerHexDigit(c: char) {
    '0' <= c <= '9' || 'a' <= c <= 'f'
  }

  /** Well-formed output of the encoder: even length, lowercase digits only. */
  predicate IsLowerHex(s: string) {
    |s| % 2 == 0 && forall i :: 0 <= i < |s| ==> IsLowerHexDigit(s[i])
  }

  /** The lowercase digit for a nibble. */
  function Digit(v: int): (c: char)
    requires 0 <= v < 16
    ensures IsLowerHexDigit(c)
  {
    if v < 10 then ('0' as int + v) as char else ('a' as int + v - 10) as char
  }

  /** The value of a hex digit of either case, or -1 for any other character. */
  function DigitValue(c: char): (v: int)
    ensures -1 <= v < 16
    ensures v == -1 <==> !(IsLowerHexDigit(c) || 'A' <= c <= 'F')
    ensures IsLowerHexDigit(c) ==> Digit(v) == c
    ensures 'A' <= c <= 'F' ==> v == c as int - 'A' as int + 10
  {
    if '0' <= c <= '9' then c as int - '0' as int
    else if 'a' <= c <= 'f' then c as int - 'a' as int + 10
    else if 'A' <= c <= 'F' then c as int - 'A' as int + 10
    else -1
  }

  function ByteToHex(b: byte): string {
    [Digit(b as int / 16), Digit(b as int % 16)]
  }

  function Encode(bytes: seq<byte>): (s: string)
    ensures |s| == 2 * |bytes|
  {
    if bytes == [] then [] else ByteToHex(bytes[0]) + Encode(bytes[1..])
  }

  /** The encoder writes lowercase hex digits only. */
  lemma {:induction false} EncodeIsLowerHex(bytes: seq<byte>)
    ensures IsLowerHex(Encode(bytes))
  {
    if bytes != [] {
      EncodeIsLowerHex(bytes[1..]);
      var s := Encode(bytes);
      forall i | 0 <= i < |s| ensures IsLowerHexDigit(s[i]) {
        if i >= 2 {
          assert s[i] == Encode(bytes[1..])[i - 2];
        }
      }
    }
  }

  function Decode(s: string): (bytes: seq<byte>)
    ensures |bytes| <= |s| / 2
  {
    if |s| < 2 then []
    else
      var hi, lo := DigitValue(s[0]), DigitValue(s[1]);
      if hi < 0 || lo < 0 then [] else [(hi * 16 + lo) as byte] + Decode(s[2..])
  }

  lemma {:induction false} DecodeEncode(bytes: seq<byte>)
    ensures Decode(Encode(bytes)) == bytes
  {
    if bytes != [] {
      var s := Encode(bytes);
      var b := bytes[0] as int;
      assert s[0] == Digit(b / 16) && s[1] == Digit(b % 16);
      assert s[2..] == Encode(bytes[1..]);
      DecodeEncode(bytes[1..]);
    }
  }

  /** Two lowercase digits read as a byte are written back as themselves. */
  lemma DigitPairRoundTrip(c0: char, c1: char)
    requires IsLowerHexDigit(c0) && IsLowerHexDigit(c1)
    ensures ByteToHex((DigitValue(c0) * 16 + DigitValue(c1)) as byte) == [c0, c1]
  {
  }

  lemma LowerHexTail(s: string)
    requires IsLowerHex(s) && |s| >= 2
    ensures IsLowerHex(s[2..])
  {
  }

  lemma {:induction false} EncodeDecode(s: string)
    requires IsLowerHex(s)
    ensures Encode(Decode(s)) == s
  {
    if |s| >= 2 {
      var tail := s[2..];
      var b := (DigitValue(s[0]) * 16 + DigitValue(s[1])) as byte;
      var rest := Decode(tail);
      assert Decode(s) == [b] + rest;
      assert ([b] + rest)[1..] == rest;
      LowerHexTail(s);
      EncodeDecode(tail);
      DigitPairRoundTrip(s[0], s[1]);
      calc {
        Encode(Decode(s));
        ByteToHex(b) + Encode(rest);
        [s[0], s[1]] + tail;
        s;
      }
    }
  }

  /** Distinct byte strings have distinct hex forms. */
  lemma EncodeInjective(a: seq<byte>, b: seq<byte>)
    requires Encode(a) == Encode(b)
    ensures a == b
  {
    DecodeEncode(a);
    DecodeEncode(b);
  }

  /** Distinct well-formed lowercase hex strings decode to distinct bytes. */
  lemma DecodeInjectiveOnLowerHex(s: string, t: string)
    requires IsLowerHex(s) && IsLowerHex(t)
    requires Decode(s) == Decode(t)
    ensures s == t
  {
    EncodeDecode(s);
    EncodeDecode(t);
  }

  /** A lowercase hex letter written in upper case; every other character
      is kept. */
  function Upcase(c: char): (u: char)
    ensures DigitValue(u) == DigitValue(c)
    ensures 'a' <= c <= 'f' ==> 'A' <= u <= 'F' && u != c
  {
    if 'a' <= c <= 'f' then (c as int - 'a' as int + 'A' as int) as char else c
  }

  function UpperHex(s: string): (t: string)
    ensures |t| == |s|
  {
    seq(|s|, i requires 0 <= i < |s| => Upcase(s[i]))
  }

  /** The decoder ignores the case of hex letters, so a digest has many
      string forms that decode to it. */
  lemma {:induction false} DecodeIgnoresCase(s: string)
    ensures Decode(UpperHex(s)) == Decode(s)
    decreases |s|
  {
    if |s| >= 2 {
      var t := UpperHex(s);
      assert t[0] == Upcase(s[0]) && t[1] == Upcase(s[1]);
      assert t[2..] == UpperHex(s[2..]);
      DecodeIgnoresCase(s[2..]);
    }
  }

  /** Decoding stops silently at the first pair that is not two hex digits,
      including a trailing unpaired character: whatever follows well-formed
      hex from there on is ignored. */
  lemma {:induction false} DecodeStopsAtBadPair(s: string, t: string)
    requires IsLowerHex(s)
    requires |t| < 2 || DigitValue(t[0]) < 0 || DigitValue(t[1]) < 0
    ensures Decode(s + t) == Decode(s)
    decreases |s|
  {
    if s == [] {
      assert s + t == t;
    } else {
      var u := s + t;
      assert u[0] == s[0] && u[1] == s[1];
      assert u[2..] == s[2..] + t;
      LowerHexTail(s);
      DecodeStopsAtBadPair(s[2..], t);
    }
  }
}
