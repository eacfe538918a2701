/**
 * The three hexadecimal codecs of the invoice code: `strToHex` (one
 * unpadded hexadecimal number per character code), `byteArrayToHexString`
 * (two lower-case digits per byte) and `hexToArrayBuffer` (two characters
 * per byte, read with `parseInt(_, 16)` into a `Uint8Array`).
 */
module Hex {
  import opened Bits
  import opened JsBuiltins

  /** `str.split('').map(x => x.charCodeAt(0))`. */
  function CharCodes(s: string): (r: seq<int>)
    ensures |r| == |s| && forall i :: 0 <= i < |s| ==> r[i] == s[i] as int
  {
    seq(|s|, i requires 0 <= i < |s| => s[i] as int)
  }

  /** `strToHex`: each character code written as an unpadded lower-case hexadecimal number. */
  function StrToHex(s: string): (r: string)
    ensures forall i :: 0 <= i < |r| ==> IsLowerHexDigit(r[i])
    ensures |s| <= |r|
  {
    if s == [] then [] else StrToHex(s[..|s| - 1]) + NatToHex(s[|s| - 1] as int)
  }

  /** `('0' + (byte & 0xff).toString(16)).slice(-2)` for one byte. */
  function ByteToHex(b: byte): (r: string)
    ensures r == [HexDigit(b / 16), HexDigit(b % 16)]
  {
    NatToHexByte(b);
    var padded := "0" + NatToHex(b);
    padded[|padded| - 2..]
  }

  /** `b.toString(16)` for a byte: one digit below 16, two digits from 16 on. */
  lemma NatToHexByte(b: byte)
    ensures NatToHex(b) == if b < 16 then [HexDigit(b)] else [HexDigit(b / 16), HexDigit(b % 16)]
  {
    if b >= 16 {
      assert NatToHex(b / 16) == [HexDigit(b / 16)];
    }
  }

  /** `byteArrayToHexString`: two lower-case hexadecimal digits per byte, high digit first. */
  function ByteArrayToHexString(bytes: seq<byte>): (r: string)
    ensures |r| == 2 * |bytes|
    ensures forall i :: 0 <= i < |r| ==> IsHexDigit(r[i])
    ensures forall i :: 0 <= i < |bytes| ==> r[2 * i] == HexDigit(bytes[i] / 16) && r[2 * i + 1] == HexDigit(bytes[i] % 16)
  {
    if bytes == [] then []
    else
      var init := ByteArrayToHexString(bytes[..|bytes| - 1]);
      HexStringDigitsStep(init, bytes[|bytes| - 1]);
      HexStringStep(bytes, init);
      init + ByteToHex(bytes[|bytes| - 1])
  }

  /** Appending the two digits of the last byte keeps every character a digit. */
  lemma {:induction false} HexStringDigitsStep(init: string, b: byte)
    requires forall i :: 0 <= i < |init| ==> IsHexDigit(init[i])
    ensures var r := init + ByteToHex(b); forall i :: 0 <= i < |r| ==> IsHexDigit(r[i])
  {
    var t := ByteToHex(b);
    var r := init + t;
    forall i | 0 <= i < |r|
      ensures IsHexDigit(r[i])
    {
      if i < |init| {
        assert r[i] == init[i];
      } else {
        assert r[i] == t[i - |init|];
      }
    }
  }

  /** Appending the two digits of the last byte keeps the digit layout of the bytes before it. */
  lemma {:induction false} HexStringStep(bytes: seq<byte>, init: string)
    requires bytes != [] && |init| == 2 * (|bytes| - 1)
    requires forall i :: 0 <= i < |bytes| - 1 ==>
      init[2 * i] == HexDigit(bytes[..|bytes| - 1][i] / 16) && init[2 * i + 1] == HexDigit(bytes[..|bytes| - 1][i] % 16)
    ensures var r := init + ByteToHex(bytes[|bytes| - 1]);
      forall i :: 0 <= i < |bytes| ==> r[2 * i] == HexDigit(bytes[i] / 16) && r[2 * i + 1] == HexDigit(bytes[i] % 16)
  {
    var n := |bytes| - 1;
    forall i | 0 <= i < n
      ensures init[2 * i] == HexDigit(bytes[i] / 16) && init[2 * i + 1] == HexDigit(bytes[i] % 16)
    {
      assert bytes[..n][i] == bytes[i];
    }
    var t := ByteToHex(bytes[n]);
    HexLayoutStep(bytes, init, t, init + t);
  }

  /** The layout step, over named parts: `r` is `init` followed by the two digits `t` of the last byte. */
  lemma {:induction false} HexLayoutStep(bytes: seq<byte>, init: string, t: string, r: string)
    requires bytes != [] && |init| == 2 * (|bytes| - 1) && |t| == 2 && r == init + t
    requires t[0] == HexDigit(bytes[|bytes| - 1] / 16) && t[1] == HexDigit(bytes[|bytes| - 1] % 16)
    requires forall i :: 0 <= i < |bytes| - 1 ==> init[2 * i] == HexDigit(bytes[i] / 16) && init[2 * i + 1] == HexDigit(bytes[i] % 16)
    ensures forall i :: 0 <= i < |bytes| ==> r[2 * i] == HexDigit(bytes[i] / 16) && r[2 * i + 1] == HexDigit(bytes[i] % 16)
  {
    forall i | 0 <= i < |bytes|
      ensures r[2 * i] == HexDigit(bytes[i] / 16) && r[2 * i + 1] == HexDigit(bytes[i] % 16)
    {
      if i < |bytes| - 1 {
        ConcatFront(init, t, 2 * i);
        ConcatFront(init, t, 2 * i + 1);
      } else {
        ConcatBack(init, t, 0);
        ConcatBack(init, t, 1);
      }
    }
  }

  /** Appending leaves the characters before the join in place. */
  lemma ConcatFront(init: string, t: string, k: nat)
    requires k < |init|
    ensures (init + t)[k] == init[k]
  {
  }

  /** The appended characters follow the join. */
  lemma ConcatBack(init: string, t: string, k: nat)
    requires k < |t|
    ensures (init + t)[|init| + k] == t[k]
  {
  }

  /** `parseInt(pair, 16)` stored into a `Uint8Array` element. */
  function PairByte(pair: string): byte
  {
    ToUint8(ParseInt16(pair))
  }

  /** The two-character pieces `hexString.substr(i * 2, 2)` for i < |s| / 2. */
  function Pairs(s: string): (r: seq<string>)
    ensures |r| == |s| / 2
  {
    seq(|s| / 2, i requires 0 <= i < |s| / 2 => s[2 * i..2 * i + 2])
  }

  /** What `hexToArrayBuffer` computes: |s| / 2 bytes, one per pair of characters; an odd last character is ignored. */
  function DecodeHex(s: string): (r: seq<byte>)
    ensures |r| == |s| / 2
  {
    var pairs := Pairs(s);
    seq(|pairs|, i requires 0 <= i < |pairs| => PairByte(pairs[i]))
  }

  /** The i-th decoded byte comes from the characters at 2 * i and 2 * i + 1. */
  lemma DecodeHexAt(s: string, i: nat)
    requires i < |s| / 2
    ensures DecodeHex(s)[i] == PairByte(s[2 * i..2 * i + 2])
  {
  }

  /** A pair of hexadecimal digits, in either case, is stored as its value. */
  lemma PairByteDigits(c1: char, c2: char)
    requires IsHexDigit(c1) && IsHexDigit(c2)
    ensures PairByte([c1, c2]) == 16 * HexValue(c1) + HexValue(c2)
  {
    ParseInt16Pair(c1, c2);
  }

  /** `hexToArrayBuffer`: fills a `Uint8Array` of length |s| / 2 pair by pair. */
  method HexToArrayBuffer(hexString: string) returns (bytes: array<byte>)
    ensures fresh(bytes)
    ensures bytes.Length == |hexString| / 2
    ensures bytes[..] == DecodeHex(hexString)
  {
    ghost var decoded := DecodeHex(hexString);
    bytes := new byte[|hexString| / 2];
    for i := 0 to bytes.Length
      invariant bytes.Length == |decoded|
      invariant forall k :: 0 <= k < i ==> bytes[k] == decoded[k]
    {
      assert i * 2 + 2 <= |hexString|;
      DecodeHexAt(hexString, i);
      bytes[i] := PairByte(hexString[i * 2..i * 2 + 2]);
    }
    assert bytes[..] == decoded;
  }

  /** Pairs of hexadecimal digits decode to their value, whatever their case. */
  lemma {:induction false} DecodeHexDigits(s: string)
    requires forall i :: 0 <= i < |s| ==> IsHexDigit(s[i])
    ensures forall i :: 0 <= i < |s| / 2 ==> DecodeHex(s)[i] == 16 * HexValue(s[2 * i]) + HexValue(s[2 * i + 1])
  {
    forall i | 0 <= i < |s| / 2
      ensures DecodeHex(s)[i] == 16 * HexValue(s[2 * i]) + HexValue(s[2 * i + 1])
    {
      DecodeHexAt(s, i);
      assert s[2 * i..2 * i + 2] == [s[2 * i], s[2 * i + 1]];
      PairByteDigits(s[2 * i], s[2 * i + 1]);
    }
  }

  /** Round trip: decoding the hexadecimal string of a byte array gives the bytes back. */
  lemma {:induction false} HexRoundTrip(bytes: seq<byte>)
    ensures DecodeHex(ByteArrayToHexString(bytes)) == bytes
  {
    var h := ByteArrayToHexString(bytes);
    var d := DecodeHex(h);
    forall i | 0 <= i < |bytes|
      ensures d[i] == bytes[i]
    {
      PairRoundTrip(h, i, bytes[i]);
    }
    assert d == bytes;
  }

  /** The pair of digits written for byte b at position i decodes back to b. */
  lemma {:induction false} PairRoundTrip(h: string, i: nat, b: byte)
    requires 2 * i + 1 < |h|
    requires h[2 * i] == HexDigit(b / 16) && h[2 * i + 1] == HexDigit(b % 16)
    ensures DecodeHex(h)[i] == b
  {
    var c1, c2 := h[2 * i], h[2 * i + 1];
    assert DecodeHex(h)[i] == PairByte([c1, c2]) by {
      DecodeHexAt(h, i);
      assert h[2 * i..2 * i + 2] == [c1, c2];
    }
    PairByteDigits(c1, c2);
  }

  /** Two-digit character codes: strToHex doubles the length and decodes back to the codes. */
  lemma {:induction false} StrToHexCodes(s: string)
    requires forall i :: 0 <= i < |s| ==> 0x10 <= s[i] as int <= 0xFF
    ensures |StrToHex(s)| == 2 * |s|
    ensures DecodeHex(StrToHex(s)) == CharCodes(s)
  {
    if s != [] {
      StrToHexCodes(s[..|s| - 1]);
      StrToHexStep(s);
    }
  }

  /** One more character with a two-digit code adds its two digits and decodes to one more code. */
  lemma {:induction false} StrToHexStep(s: string)
    requires s != [] && 0x10 <= s[|s| - 1] as int <= 0xFF
    requires |StrToHex(s[..|s| - 1])| == 2 * (|s| - 1)
    requires DecodeHex(StrToHex(s[..|s| - 1])) == CharCodes(s[..|s| - 1])
    ensures |StrToHex(s)| == 2 * |s|
    ensures DecodeHex(StrToHex(s)) == CharCodes(s)
  {
    var init, c := s[..|s| - 1], s[|s| - 1] as int;
    var front, digits := StrToHex(init), NatToHex(c);
    assert |digits| == 2 && DecodeHex(digits) == [c] by {
      TwoDigitCode(c);
    }
    assert DecodeHex(front + digits) == CharCodes(init) + [c] by {
      DecodeHexAppend(front, digits);
    }
    CharCodesLast(s);
  }

  lemma {:induction false} CharCodesLast(s: string)
    requires s != []
    ensures CharCodes(s) == CharCodes(s[..|s| - 1]) + [s[|s| - 1] as int]
  {
    var a, b := CharCodes(s), CharCodes(s[..|s| - 1]) + [s[|s| - 1] as int];
    forall i | 0 <= i < |s|
      ensures a[i] == b[i]
    {
      if i < |s| - 1 {
        assert s[..|s| - 1][i] == s[i];
      }
    }
  }

  /** Cutting into pairs splits at an even boundary. */
  lemma {:induction false} PairsAppend(a: string, b: string)
    requires |a| % 2 == 0
    ensures Pairs(a + b) == Pairs(a) + Pairs(b)
  {
    var n := |a| / 2;
    assert |a| == 2 * n;
    forall i | 0 <= i < |Pairs(a + b)|
      ensures Pairs(a + b)[i] == (Pairs(a) + Pairs(b))[i]
    {
      if i < n {
        assert (a + b)[2 * i..2 * i + 2] == a[2 * i..2 * i + 2];
      } else {
        var j := i - n;
        assert (Pairs(a) + Pairs(b))[i] == Pairs(b)[j];
        assert (a + b)[2 * i..2 * i + 2] == b[2 * j..2 * j + 2] by {
          assert 2 * i == |a| + 2 * j;
        }
      }
    }
  }

  /** A code from 0x10 to 0xFF is written with two digits, which decode back to it. */
  lemma TwoDigitCode(c: int)
    requires 0x10 <= c <= 0xFF
    ensures |NatToHex(c)| == 2 && DecodeHex(NatToHex(c)) == [c]
  {
    var hi, lo := HexDigit(c / 16), HexDigit(c % 16);
    assert NatToHex(c) == [hi, lo] by {
      NatToHexByte(c);
    }
    assert DecodeHex([hi, lo]) == [PairByte([hi, lo])] by {
      DecodeHexAt([hi, lo], 0);
      assert [hi, lo][0..2] == [hi, lo];
    }
    assert PairByte([hi, lo]) == c by {
      PairByteDigits(hi, lo);
    }
  }

  /** Decoding splits at an even boundary. */
  lemma {:induction false} DecodeHexAppend(a: string, b: string)
    requires |a| % 2 == 0
    ensures DecodeHex(a + b) == DecodeHex(a) + DecodeHex(b)
  {
    PairsAppend(a, b);
  }
}
