/**
 The percent-encoding of AWS Signature Version 4 (sections 2.1 and 2.3 of RFC 3986), used for
 canonical requests and for policy documents.
 */
module UriEncoding {
  import opened Texts

  predicate Unreserved(b: Byte) {
    'A' <= b <= 'Z' || 'a' <= b <= 'z' || '0' <= b <= '9' || b == '-' || b == '_' || b == '.' || b == '~'
  }

  function HexDigit(n: nat): (d: Byte)
    requires n < 16
  {
    if n < 10 then ('0' as int + n) as char else ('A' as int + n - 10) as char
  }

  function EncodeByte(b: Byte, encodeSlash: bool): Text {
    if Unreserved(b) then [b]
    else if b == '/' && !encodeSlash then ['/']
    else ['%', HexDigit(b as int / 16), HexDigit(b as int % 16)]
  }

  function Encode(s: Text, encodeSlash: bool): Text {
    if s == [] then [] else EncodeByte(s[0], encodeSlash) + Encode(s[1..], encodeSlash)
  }

  lemma {:induction false} EncodeConcat(a: Text, b: Text, encodeSlash: bool)
    ensures Encode(a + b, encodeSlash) == Encode(a, encodeSlash) + Encode(b, encodeSlash)
  {
    if a == [] {
      assert a + b == b;
    } else {
      assert (a + b)[1..] == a[1..] + b;
      EncodeConcat(a[1..], b, encodeSlash);
    }
  }

  lemma EncodeSnoc(value: Text, i: nat, encodeSlash: bool)
    requires i < |value|
    ensures Encode(value[..i + 1], encodeSlash) == Encode(value[..i], encodeSlash) + EncodeByte(value[i], encodeSlash)
  {
    assert value[..i + 1] == value[..i] + [value[i]];
    EncodeConcat(value[..i], [value[i]], encodeSlash);
    assert Encode([value[i]], encodeSlash) == EncodeByte(value[i], encodeSlash);
  }

  lemma PushThree(s: Text, a: Byte, b: Byte, c: Byte)
    ensures s + [a] + [b] + [c] == s + [a, b, c]
  {
  }

  method UriEncode(value: Text, encodeSlash: bool) returns (encoded: Text)
    ensures encoded == Encode(value, encodeSlash)
  {
    encoded := [];
    for i := 0 to |value|
      invariant encoded == Encode(value[..i], encodeSlash)
    {
      var b := value[i];
      ghost var before := encoded;
      if Unreserved(b) {
        encoded := encoded + [b];
      } else if b == '/' && !encodeSlash {
        encoded := encoded + ['/'];
      } else {
        var high, low := HexDigit(b as int / 16), HexDigit(b as int % 16);
        PushThree(encoded, '%', high, low);
        encoded := encoded + ['%'];
        encoded := encoded + [high];
        encoded := encoded + [low];
      }
      assert encoded == before + EncodeByte(b, encodeSlash);
      EncodeSnoc(value, i, encodeSlash);
    }
    assert value[..|value|] == value;
  }

  // ----- decoding -----

  predicate IsHexDigit(b: Byte) {
    '0' <= b <= '9' || 'A' <= b <= 'F'
  }

  function HexValue(b: Byte): (n: nat)
    requires IsHexDigit(b)
    ensures n < 16
  {
    if b <= '9' then b as int - '0' as int else b as int - 'A' as int + 10
  }

  // Percent-decoding: every "%XY" becomes one byte, everything else stands for itself.
  function Decode(s: Text): Text {
    if s == [] then []
    else if s[0] == '%' && |s| >= 3 && IsHexDigit(s[1]) && IsHexDigit(s[2])
    then [(HexValue(s[1]) * 16 + HexValue(s[2])) as char] + Decode(s[3..])
    else [s[0]] + Decode(s[1..])
  }

  lemma DecodeByte(b: Byte, encodeSlash: bool, rest: Text)
    ensures Decode(EncodeByte(b, encodeSlash) + rest) == [b] + Decode(rest)
  {
  }

  /** Decoding inverts the encoding of every byte sequence, in both slash modes. */
  lemma {:induction false} DecodeInvertsEncode(s: Text, encodeSlash: bool)
    ensures Decode(Encode(s, encodeSlash)) == s
  {
    if s != [] {
      DecodeByte(s[0], encodeSlash, Encode(s[1..], encodeSlash));
      DecodeInvertsEncode(s[1..], encodeSlash);
    }
  }

  lemma EncodeInjective(a: Text, b: Text, encodeSlash: bool)
    requires Encode(a, encodeSlash) == Encode(b, encodeSlash)
    ensures a == b
  {
    DecodeInvertsEncode(a, encodeSlash);
    DecodeInvertsEncode(b, encodeSlash);
  }

  // ----- which bytes stay, and what becomes of the others -----

  // Letters, digits, '-', '_', '.' and '~' stand for themselves, and so does '/' in a path.
  ghost predicate StandsForItself(b: Byte, encodeSlash: bool) {
    || 'A' <= b <= 'Z' || 'a' <= b <= 'z' || '0' <= b <= '9'
    || b == '-' || b == '_' || b == '.' || b == '~'
    || (b == '/' && !encodeSlash)
  }

  const UPPER_HEX: Text := "0123456789ABCDEF"

  /**
   The encoding goes byte by byte: a byte that stands for itself is kept, and every other byte b
   becomes '%' and the two upper-case hexadecimal digits of b.
   */
  lemma EncodingOfBytes(s: Text, b: Byte, encodeSlash: bool)
    ensures Encode(s + [b], encodeSlash) ==
            Encode(s, encodeSlash) +
            if StandsForItself(b, encodeSlash) then [b]
            else ['%', UPPER_HEX[b as int / 16], UPPER_HEX[b as int % 16]]
  {
    EncodeConcat(s, [b], encodeSlash);
    assert Encode([b], encodeSlash) == EncodeByte(b, encodeSlash);
    HexDigitIs(b as int / 16);
    HexDigitIs(b as int % 16);
  }

  lemma HexDigitIs(n: nat)
    requires n < 16
    ensures HexDigit(n) == UPPER_HEX[n]
  {
  }

  lemma {:induction false} EncodeGrows(s: Text, encodeSlash: bool)
    ensures |s| <= |Encode(s, encodeSlash)|
  {
    if s != [] { EncodeGrows(s[1..], encodeSlash); }
  }

  /** A text is its own encoding exactly when all its bytes stand for themselves. */
  lemma {:induction false} EncodeKeepsIff(s: Text, encodeSlash: bool)
    ensures Encode(s, encodeSlash) == s <==> forall i :: 0 <= i < |s| ==> StandsForItself(s[i], encodeSlash)
  {
    if s != [] {
      EncodeKeepsIff(s[1..], encodeSlash);
      EncodeGrows(s[1..], encodeSlash);
      assert s == [s[0]] + s[1..];
      if StandsForItself(s[0], encodeSlash) {
        assert Encode(s, encodeSlash) == [s[0]] + Encode(s[1..], encodeSlash);
        assert forall i :: 1 <= i < |s| ==> s[i] == s[1..][i - 1];
      } else {
        assert |Encode(s, encodeSlash)| == 3 + |Encode(s[1..], encodeSlash)|;
      }
    }
  }

  /** The encoding consists of bytes that stand for themselves and '%'. */
  lemma {:induction false} EncodeAlphabet(s: Text, encodeSlash: bool)
    ensures forall b: Byte :: b in Encode(s, encodeSlash) ==> StandsForItself(b, encodeSlash) || b == '%'
  {
    if s != [] { EncodeAlphabet(s[1..], encodeSlash); }
  }

  // ----- policy documents -----

  // The upper-case hexadecimal digits of a number, padded with zeros to a width: "{:0wX}".
  function UpperHex(n: nat): Text {
    if n < 16 then [HexDigit(n)] else UpperHex(n / 16) + [HexDigit(n % 16)]
  }

  function PaddedHex(n: nat, width: nat): Text {
    var digits := UpperHex(n);
    if |digits| < width then seq(width - |digits|, _ => '0') + digits else digits
  }

  function FlatMap(s: Text, f: Byte -> Text): Text {
    if s == [] then [] else f(s[0]) + FlatMap(s[1..], f)
  }

  function UrlEncodePolicyDocument(document: Text): Text {
    FlatMap(document, (b: Byte) => if Unreserved(b) then [b] else ['%'] + PaddedHex(b as int, 2))
  }

  lemma PaddedHexOfByte(n: nat)
    requires n < 256
    ensures PaddedHex(n, 2) == [HexDigit(n / 16), HexDigit(n % 16)]
  {
    if n < 16 {
      assert UpperHex(n) == [HexDigit(n)];
    } else {
      assert UpperHex(n) == UpperHex(n / 16) + [HexDigit(n % 16)];
    }
  }

  lemma {:induction false} FlatMapIsEncode(s: Text, f: Byte -> Text)
    requires forall b: Byte :: f(b) == EncodeByte(b, true)
    ensures FlatMap(s, f) == Encode(s, true)
  {
    if s != [] { FlatMapIsEncode(s[1..], f); }
  }

  /** The policy-document encoder agrees with the signing encoder that also encodes slashes. */
  lemma PolicyDocumentEncodingAgrees(document: Text)
    ensures UrlEncodePolicyDocument(document) == Encode(document, true)
  {
    var f := (b: Byte) => if Unreserved(b) then [b] else ['%'] + PaddedHex(b as int, 2);
    forall b: Byte ensures f(b) == EncodeByte(b, true) {
      PaddedHexOfByte(b as int);
    }
    FlatMapIsEncode(document, f);
  }
}
