/**
 * Rendering of a digest as lowercase hexadecimal (src/js/index.js:10-11):
 * every byte becomes `byte.toString(16).padStart(2, '0')` and the pairs are
 * joined with the empty separator. This is the base16 encoding of section 8
 * of RFC 4648 with the lowercase alphabet. A decoder is given as the partner
 * of the encoder, so that the encoding can be proved injective.
 */
module Hex {
  import opened Wrappers

  /** An element of a `Uint8Array`. */
  newtype byte = x: int | 0 <= x < 256

  /** A lowercase hexadecimal digit: `0`-`9` or `a`-`f`. */
  predicate IsHexDigit(c: char) {
    '0' <= c <= '9' || 'a' <= c <= 'f'
  }

  /** True when every character of `s` is a lowercase hexadecimal digit. */
  predicate IsLowerHex(s: string) {
    forall i :: 0 <= i < |s| ==> IsHexDigit(s[i])
  }

  /** The character `toString(16)` writes for the digit value `d`: `0`-`9`, then `a`-`f`. */
  function Digit(d: nat): (c: char)
    requires d < 16
    ensures IsHexDigit(c)
  {
    if d < 10 then ('0' as int + d) as char else ('a' as int + (d - 10)) as char
  }

  /** The value of a lowercase hexadecimal digit; `None` for any other character. */
  function DigitValue(c: char): (v: Option<nat>)
    ensures v.Some? <==> IsHexDigit(c)
    ensures v.Some? ==> v.value < 16 && Digit(v.value) == c
  {
    if '0' <= c <= '9' then Some(c as int - '0' as int)
    else if 'a' <= c <= 'f' then Some(c as int - 'a' as int + 10)
    else None
  }

  lemma DigitValueOfDigit(d: nat)
    requires d < 16
    ensures DigitValue(Digit(d)) == Some(d)
  {
  }

  /** `n.toString(16)`: the base-16 numeral of `n`, most significant digit first, without leading zeros. */
  function Radix16(n: nat): (s: string)
    ensures |s| >= 1 && IsLowerHex(s)
    ensures s[0] == '0' <==> n == 0
    decreases n
  {
    if n < 16 then [Digit(n)] else Radix16(n / 16) + [Digit(n % 16)]
  }

  /** `s.padStart(width, '0')`: `s` with zeros prepended up to `width` characters; `s` itself when already that long. */
  function PadStart(s: string, width: nat): (r: string)
    ensures |r| == if |s| < width then width else |s|
    ensures r[|r| - |s|..] == s
    ensures forall i :: 0 <= i < |r| - |s| ==> r[i] == '0'
  {
    if |s| >= width then s else seq(width - |s|, _ => '0') + s
  }

  /** One byte as its two-character pair: the high-nibble digit, then the low-nibble digit. */
  function ByteToHex(b: byte): (s: string)
    ensures |s| == 2 && IsLowerHex(s)
    ensures s[0] == '0' <==> b < 16
  {
    [Digit(b as nat / 16), Digit(b as nat % 16)]
  }

  /** The pair is exactly what `byte.toString(16).padStart(2, '0')` writes. */
  lemma ByteToHexIsPaddedRadix(b: byte)
    ensures ByteToHex(b) == PadStart(Radix16(b as nat), 2)
  {
    var n := b as nat;
    if n < 16 {
      assert n / 16 == 0 && n % 16 == n;
      assert PadStart([Digit(n)], 2) == ['0'] + [Digit(n)];
    } else {
      assert n / 16 < 16;
      assert Radix16(n) == [Digit(n / 16)] + [Digit(n % 16)];
    }
  }

  /** True when every part has exactly two characters. */
  predicate AllPairs(parts: seq<string>) {
    forall i :: 0 <= i < |parts| ==> |parts[i]| == 2
  }

  /** `parts.join('')`: the parts one after another, the first part leading; two-character parts give twice as many characters. */
  function Join(parts: seq<string>): (r: string)
    ensures parts != [] ==> |r| >= |parts[0]| && r[..|parts[0]|] == parts[0]
    ensures AllPairs(parts) ==> |r| == 2 * |parts|
  {
    if parts == [] then "" else parts[0] + Join(parts[1..])
  }

  /** Joining two-character parts puts part i at characters 2i and 2i+1. */
  lemma {:induction false} JoinPairsAt(parts: seq<string>, i: nat)
    requires AllPairs(parts) && i < |parts|
    ensures |Join(parts)| == 2 * |parts|
    ensures Join(parts)[2 * i] == parts[i][0] && Join(parts)[2 * i + 1] == parts[i][1]
  {
    if i > 0 {
      JoinPairsAt(parts[1..], i - 1);
      assert Join(parts) == parts[0] + Join(parts[1..]);
    }
  }

  /** The byte pairs in order: `hashArray.map(ByteToHex)`. */
  function Pairs(bytes: seq<byte>): (pairs: seq<string>)
    ensures AllPairs(pairs)
  {
    seq(|bytes|, i requires 0 <= i < |bytes| => ByteToHex(bytes[i]))
  }

  /** `hashArray.map(ByteToHex).join('')`; its length is twice the number of bytes. */
  function ToHex(bytes: seq<byte>): (s: string)
    ensures |s| == 2 * |bytes|
  {
    Join(Pairs(bytes))
  }

  /** The rendering is `hashArray.map(b => b.toString(16).padStart(2, '0')).join('')`, spelled out call by call. */
  lemma ToHexAsWritten(bytes: seq<byte>)
    ensures ToHex(bytes) == Join(seq(|bytes|, i requires 0 <= i < |bytes| => PadStart(Radix16(bytes[i] as nat), 2)))
  {
    forall i | 0 <= i < |bytes| {
      ByteToHexIsPaddedRadix(bytes[i]);
    }
    assert Pairs(bytes) == seq(|bytes|, i requires 0 <= i < |bytes| => PadStart(Radix16(bytes[i] as nat), 2));
  }

  /** The rendering of a non-empty sequence is the pair of its first byte followed by the rendering of the rest. */
  lemma ToHexCons(bytes: seq<byte>)
    requires bytes != []
    ensures ToHex(bytes) == ByteToHex(bytes[0]) + ToHex(bytes[1..])
  {
    assert Pairs(bytes)[1..] == Pairs(bytes[1..]);
  }

  /** Reads a string of lowercase hexadecimal pairs back into bytes; `None` on odd length or a foreign character. */
  function FromHex(s: string): (r: Option<seq<byte>>)
    ensures r.Some? ==> |s| == 2 * |r.value|
    decreases |s|
  {
    if |s| == 0 then Some([])
    else if |s| == 1 then None
    else
      match PairValue(s[0], s[1])
      case None => None
      case Some(b) =>
        match FromHex(s[2..])
        case None => None
        case Some(rest) => Some([b] + rest)
  }

  /** The byte a pair of digits stands for, high digit first. */
  function PairValue(hi: char, lo: char): (r: Option<byte>)
    ensures r.Some? <==> IsHexDigit(hi) && IsHexDigit(lo)
    ensures r.Some? ==> ByteToHex(r.value) == [hi, lo]
  {
    match (DigitValue(hi), DigitValue(lo))
    case (Some(h), Some(l)) =>
      Nibbles(h, l);
      Some((16 * h + l) as byte)
    case _ => None
  }

  /** A number built from two digits splits back into them. */
  lemma Nibbles(h: nat, l: nat)
    requires h < 16 && l < 16
    ensures (16 * h + l) / 16 == h && (16 * h + l) % 16 == l
  {
  }

  lemma PairValueOfByte(b: byte)
    ensures PairValue(Digit(b as nat / 16), Digit(b as nat % 16)) == Some(b)
  {
    DigitValueOfDigit(b as nat / 16);
    DigitValueOfDigit(b as nat % 16);
  }

  /** Characters 2i and 2i+1 of the rendering are the pair of byte i. */
  lemma ToHexPair(bytes: seq<byte>, i: nat)
    requires i < |bytes|
    ensures ToHex(bytes)[2 * i] == ByteToHex(bytes[i])[0]
    ensures ToHex(bytes)[2 * i + 1] == ByteToHex(bytes[i])[1]
  {
    JoinPairsAt(Pairs(bytes), i);
  }

  /** Characters 2i and 2i+1 of the rendering are the two digits of byte i, and read as a base-16 number give it back. */
  lemma ToHexAt(bytes: seq<byte>, i: nat)
    requires i < |bytes|
    ensures ToHex(bytes)[2 * i] == Digit(bytes[i] as nat / 16)
    ensures ToHex(bytes)[2 * i + 1] == Digit(bytes[i] as nat % 16)
    ensures DigitValue(ToHex(bytes)[2 * i]).Some? && DigitValue(ToHex(bytes)[2 * i + 1]).Some?
    ensures 16 * DigitValue(ToHex(bytes)[2 * i]).value + DigitValue(ToHex(bytes)[2 * i + 1]).value == bytes[i] as nat
  {
    ToHexPair(bytes, i);
    DigitValueOfDigit(bytes[i] as nat / 16);
    DigitValueOfDigit(bytes[i] as nat % 16);
  }

  /** Every character of the rendering is in `0-9a-f`. */
  lemma {:induction false} ToHexIsLowerHex(bytes: seq<byte>)
    ensures IsLowerHex(ToHex(bytes))
  {
    var s := ToHex(bytes);
    forall k | 0 <= k < |s|
      ensures IsHexDigit(s[k])
    {
      ToHexAt(bytes, k / 2);
      assert k == 2 * (k / 2) || k == 2 * (k / 2) + 1;
    }
  }

  /** Decoding a valid pair followed by a decodable rest. */
  lemma FromHexCons(hi: char, lo: char, rest: string, b: byte, tail: seq<byte>)
    requires PairValue(hi, lo) == Some(b) && FromHex(rest) == Some(tail)
    ensures FromHex([hi, lo] + rest) == Some([b] + tail)
  {
    var s := [hi, lo] + rest;
    DropPair([hi, lo], rest);
    assert s[0] == hi && s[1] == lo;
  }

  /** Decoding the rendering gives back the bytes. */
  lemma {:induction false} FromHexToHex(bytes: seq<byte>)
    ensures FromHex(ToHex(bytes)) == Some(bytes)
  {
    if bytes != [] {
      var b := bytes[0];
      ToHexCons(bytes);
      FromHexToHex(bytes[1..]);
      PairValueOfByte(b);
      FromHexCons(Digit(b as nat / 16), Digit(b as nat % 16), ToHex(bytes[1..]), b, bytes[1..]);
      SplitFirst(bytes);
    }
  }

  /** The decoder accepts exactly the renderings: whatever it reads, rendering the result gives the string back. */
  lemma {:induction false} ToHexFromHex(s: string, bytes: seq<byte>)
    requires FromHex(s) == Some(bytes)
    ensures ToHex(bytes) == s
    decreases |s|
  {
    if |s| > 0 {
      var b := PairValue(s[0], s[1]).value;
      var rest := FromHex(s[2..]).value;
      assert bytes == [b] + rest;
      ToHexFromHex(s[2..], rest);
      assert bytes[1..] == rest;
      ToHexCons(bytes);
      SplitPair(s);
    }
  }

  // Sequence facts the decoder proofs use.

  lemma SplitFirst<T>(s: seq<T>)
    requires |s| >= 1
    ensures [s[0]] + s[1..] == s
  {
  }

  lemma SplitPair<T>(s: seq<T>)
    requires |s| >= 2
    ensures [s[0], s[1]] + s[2..] == s
  {
  }

  lemma DropPair<T>(head: seq<T>, tail: seq<T>)
    requires |head| == 2
    ensures (head + tail)[2..] == tail
  {
  }

  /** Distinct byte sequences render to distinct strings. */
  lemma ToHexInjective(a: seq<byte>, b: seq<byte>)
    ensures ToHex(a) == ToHex(b) <==> a == b
  {
    if ToHex(a) == ToHex(b) {
      FromHexToHex(a);
      FromHexToHex(b);
    }
  }

  /** A string is a rendering exactly when the decoder accepts it. */
  lemma FromHexExactlyRenderings(s: string, bytes: seq<byte>)
    ensures FromHex(s) == Some(bytes) <==> ToHex(bytes) == s
  {
    if FromHex(s) == Some(bytes) {
      ToHexFromHex(s, bytes);
    }
    if ToHex(bytes) == s {
      FromHexToHex(bytes);
    }
  }
}
