/**
 * Attribute text in TinyXML: what the printer makes of a value and how the reader takes
 * text apart again (tinyxml.cpp, tinyxmlparser.cpp, tinyxml.h). A document is its bytes
 * before the terminating NUL; beyond them every byte reads as 0.
 */
module XmlText {
  type Byte = b: nat | b < 256

  type Bytes = seq<Byte>

  /** TIXML_ENCODING_UTF8, or any other encoding. */
  datatype Encoding = Utf8 | Legacy

  const AMPERSAND: Byte := 38
  const HASH: Byte := 35
  const LOWER_X: Byte := 120
  const SEMICOLON: Byte := 59
  const DOUBLE_QUOTE: Byte := 34
  const SINGLE_QUOTE: Byte := 39
  const LESS_THAN: Byte := 60
  const GREATER_THAN: Byte := 62
  const CONTINUATION: Byte := 0x80

  function At(d: Bytes, i: nat): Byte {
    if i < |d| then d[i] else 0
  }

  // ------------------------------------------------ entities

  const AMP: Bytes := [38, 97, 109, 112, 59]
  const LT: Bytes := [38, 108, 116, 59]
  const GT: Bytes := [38, 103, 116, 59]
  const QUOT: Bytes := [38, 113, 117, 111, 116, 59]
  const APOS: Bytes := [38, 97, 112, 111, 115, 59]

  /** The entity table: the text of each entity and the character it stands for. */
  const ENTITIES: seq<(Bytes, Byte)> :=
    [(AMP, AMPERSAND), (LT, LESS_THAN), (GT, GREATER_THAN), (QUOT, DOUBLE_QUOTE), (APOS, SINGLE_QUOTE)]

  function HexDigit(v: nat): Byte
    requires v < 16
  {
    if v < 10 then 48 + v else 55 + v
  }

  /** What a byte is printed as: an entity, a hexadecimal reference if it is a control character, or itself. */
  function EncodeByte(c: Byte): (text: Bytes)
    ensures |text| > 0
  {
    if c == AMPERSAND then AMP
    else if c == LESS_THAN then LT
    else if c == GREATER_THAN then GT
    else if c == DOUBLE_QUOTE then QUOT
    else if c == SINGLE_QUOTE then APOS
    else if c < 32 then [AMPERSAND, HASH, LOWER_X, HexDigit(c / 16), HexDigit(c % 16), SEMICOLON]
    else [c]
  }

  /** A hexadecimal character reference seems to start here. */
  predicate HexAt(v: Bytes) {
    |v| >= 3 && v[0] == AMPERSAND && v[1] == HASH && v[2] == LOWER_X
  }

  /** How far such a reference is passed through: up to a semicolon, or up to the last character. */
  function PassEnd(v: Bytes, i: nat): (k: nat)
    requires i < |v|
    ensures i <= k < |v| && forall j :: i < j < k ==> v[j] != SEMICOLON
    ensures i < |v| - 1 ==> i < k && (k == |v| - 1 || v[k] == SEMICOLON)
    decreases |v| - i
  {
    if i >= |v| - 1 then i
    else if v[i + 1] == SEMICOLON then i + 1
    else PassEnd(v, i + 1)
  }

  /** EncodeString. */
  function Encode(v: Bytes): Bytes {
    if |v| == 0 then []
    else if HexAt(v) then
      var k := PassEnd(v, 0);
      v[..k] + Encode(v[k..])
    else EncodeByte(v[0]) + Encode(v[1..])
  }

  /** The inner loop of EncodeString: copies until it meets a semicolon or the last character. */
  method PassThrough(str: Bytes, start: nat) returns (text: Bytes, i: nat)
    requires start < |str|
    ensures i == PassEnd(str, start) && text == str[start..i]
  {
    i, text := start, [];
    while i < |str| - 1
      invariant start <= i < |str|
      invariant text == str[start..i]
      invariant PassEnd(str, i) == PassEnd(str, start)
    {
      text := text + [str[i]];
      i := i + 1;
      if str[i] == SEMICOLON {
        break;
      }
    }
  }

  /** PassEnd depends only on what follows. */
  lemma {:induction false} PassEndShift(v: Bytes, i: nat, j: nat)
    requires i + j < |v|
    ensures PassEnd(v, i + j) == i + PassEnd(v[i..], j)
    decreases |v| - j
  {
    if i + j < |v| - 1 && v[i + j + 1] != SEMICOLON {
      PassEndShift(v, i, j + 1);
    }
  }

  lemma Regroup(a: Bytes, b: Bytes, c: Bytes)
    ensures (a + b) + c == a + (b + c)
  {
  }

  lemma EncodeReference(v: Bytes, k: nat)
    requires HexAt(v) && k == PassEnd(v, 0)
    ensures 0 < k < |v| && Encode(v) == v[..k] + Encode(v[k..])
  {
  }

  lemma EncodePlain(v: Bytes)
    requires |v| > 0 && !HexAt(v)
    ensures Encode(v) == EncodeByte(v[0]) + Encode(v[1..])
  {
  }

  /** What has been printed, followed by the rest's encoding, is the whole encoding. */
  ghost predicate Printed(str: Bytes, i: nat, out: Bytes) {
    i <= |str| && out + Encode(str[i..]) == Encode(str)
  }

  lemma SliceOfSlice(str: Bytes, i: nat, k: nat)
    requires i <= k <= |str|
    ensures str[i..][..k - i] == str[i..k] && str[i..][k - i..] == str[k..]
  {
  }

  lemma PrintedReference(str: Bytes, i: nat, out: Bytes, text: Bytes, k: nat)
    requires Printed(str, i, out) && i < |str| && HexAt(str[i..]) && k == PassEnd(str, i) && text == str[i..k]
    ensures i < k && Printed(str, k, out + text)
  {
    PassEndShift(str, i, 0);
    SliceOfSlice(str, i, k);
    PrintedSplit(str, i, out, text, k, str[i..]);
  }

  lemma PrintedSplit(str: Bytes, i: nat, out: Bytes, text: Bytes, k: nat, rest: Bytes)
    requires i <= k <= |str| && rest == str[i..] && HexAt(rest) && k - i == PassEnd(rest, 0)
    requires rest[..k - i] == text && rest[k - i..] == str[k..]
    requires out + Encode(rest) == Encode(str)
    ensures i < k && (out + text) + Encode(str[k..]) == Encode(str)
  {
    EncodeReference(rest, k - i);
    Regroup(out, text, Encode(str[k..]));
  }

  lemma PrintedByte(str: Bytes, i: nat, out: Bytes, text: Bytes)
    requires Printed(str, i, out) && i < |str| && !HexAt(str[i..]) && text == EncodeByte(str[i])
    ensures Printed(str, i + 1, out + text)
  {
    EncodePlain(str[i..]);
    assert str[i..][1..] == str[i + 1..];
    Regroup(out, text, Encode(str[i + 1..]));
  }

  /** The branches of EncodeString for a single character. */
  method EncodeCharacter(c: Byte) returns (text: Bytes)
    ensures text == EncodeByte(c)
  {
    if c == AMPERSAND {
      text := AMP;
    } else if c == LESS_THAN {
      text := LT;
    } else if c == GREATER_THAN {
      text := GT;
    } else if c == DOUBLE_QUOTE {
      text := QUOT;
    } else if c == SINGLE_QUOTE {
      text := APOS;
    } else if c < 32 {
      text := [AMPERSAND, HASH, LOWER_X, HexDigit(c / 16), HexDigit(c % 16), SEMICOLON];
    } else {
      text := [c];
    }
  }

  /** The printing loop. */
  method EncodeString(str: Bytes) returns (out: Bytes)
    ensures out == Encode(str)
  {
    out := [];
    var i := 0;
    assert str[0..] == str;
    while i < |str|
      invariant Printed(str, i, out)
    {
      if str[i] == AMPERSAND && i < |str| - 2 && str[i + 1] == HASH && str[i + 2] == LOWER_X {
        var text, k := PassThrough(str, i);
        PrintedReference(str, i, out, text, k);
        out, i := out + text, k;
      } else {
        var text := EncodeCharacter(str[i]);
        PrintedByte(str, i, out, text);
        out, i := out + text, i + 1;
      }
    }
    assert str[|str|..] == [] && out + [] == out;
  }
}
