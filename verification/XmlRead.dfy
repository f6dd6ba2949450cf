/**
 * Reading attribute text in TinyXML: characters, entities and quoted text
 * (tinyxmlparser.cpp, tinyxml.h).
 */
module XmlRead {
  import opened Wrappers
  import opened XmlText

  // ------------------------------------------------ UTF-8

  /** utf8ByteTable: the number of bytes of a sequence, from its first byte. */
  function ByteTable(lead: Byte): (n: nat)
    ensures 1 <= n <= 4
  {
    if lead < 0xC2 then 1
    else if lead < 0xE0 then 2
    else if lead < 0xF0 then 3
    else if lead < 0xF5 then 4
    else 1
  }

  predicate IsContinuation(b: Byte) {
    CONTINUATION <= b < CONTINUATION + 64
  }

  /** The bytes ConvertUTF32ToUTF8 gives for a code point; none from 0x200000 on. */
  function Utf8Of(u: nat): (bytes: Bytes)
    ensures |bytes| <= 4
  {
    if u < 0x80 then [u]
    else if u < 0x800 then [0xC0 + u / 64, CONTINUATION + u % 64]
    else if u < 0x10000 then [0xE0 + u / 4096, CONTINUATION + u / 64 % 64, CONTINUATION + u % 64]
    else if u < 0x200000 then
      [0xF0 + u / 262144, CONTINUATION + u / 4096 % 64, CONTINUATION + u / 64 % 64, CONTINUATION + u % 64]
    else []
  }

  /** The code point a sequence stands for: its payload bits, most significant first. */
  function CodePoint(bytes: Bytes): int
    requires 1 <= |bytes| <= 4
  {
    if |bytes| == 1 then bytes[0]
    else if |bytes| == 2 then (bytes[0] - 0xC0) * 64 + (bytes[1] - CONTINUATION)
    else if |bytes| == 3 then (bytes[0] - 0xE0) * 4096 + (bytes[1] - CONTINUATION) * 64 + (bytes[2] - CONTINUATION)
    else
      (bytes[0] - 0xF0) * 262144 + (bytes[1] - CONTINUATION) * 4096 + (bytes[2] - CONTINUATION) * 64
      + (bytes[3] - CONTINUATION)
  }

  /** Every code point below 0x200000 can be read back from its bytes, all but the first of them continuations. */
  lemma Utf8RoundTrip(u: nat)
    requires u < 0x200000
    ensures 1 <= |Utf8Of(u)| <= 4 && CodePoint(Utf8Of(u)) == u
    ensures forall i :: 1 <= i < |Utf8Of(u)| ==> IsContinuation(Utf8Of(u)[i])
  {
    assert u == u / 64 * 64 + u % 64;
    assert u / 64 == u / 4096 * 64 + u / 64 % 64;
    assert u / 4096 == u / 262144 * 64 + u / 4096 % 64;
  }

  /** The table gives the length that was written, except for the lead bytes F5 to F7. */
  lemma TableAgrees(u: nat)
    requires u < 0x200000
    ensures ByteTable(Utf8Of(u)[0]) == |Utf8Of(u)| <==> u < 0x140000
  {
  }

  /** ConvertUTF32ToUTF8: (x | 0x80) & 0xBF is 0x80 plus the low six bits of x. */
  method ConvertUTF32ToUTF8(u: nat, output: array<Byte>) returns (length: nat)
    requires output.Length >= 4
    modifies output
    ensures length == |Utf8Of(u)| && output[..length] == Utf8Of(u)
  {
    var input := u;
    if input < 0x80 {
      length := 1;
    } else if input < 0x800 {
      length := 2;
    } else if input < 0x10000 {
      length := 3;
    } else if input < 0x200000 {
      length := 4;
    } else {
      length := 0;
      return;
    }
    var at := length;
    if length >= 4 {
      at := at - 1;
      output[at] := CONTINUATION + input % 64;
      input := input / 64;
    }
    if length >= 3 {
      at := at - 1;
      output[at] := CONTINUATION + input % 64;
      input := input / 64;
    }
    if length >= 2 {
      at := at - 1;
      output[at] := CONTINUATION + input % 64;
      input := input / 64;
    }
    at := at - 1;
    output[at] := input + if length == 1 then 0 else if length == 2 then 0xC0 else if length == 3 then 0xE0 else 0xF0;
    assert u / 64 / 64 == u / 4096 && u / 64 / 64 / 64 == u / 262144;
  }

  // ------------------------------------------------ entities

  /** strchr: where a character is found before the end of the string. */
  function Find(d: Bytes, p: nat, c: Byte): (q: Option<nat>)
    ensures q.Some? ==> p <= q.value < |d| && d[q.value] == c
    ensures q.Some? ==> forall i :: p <= i < q.value ==> d[i] != c && d[i] != 0
    decreases |d| - p
  {
    if p >= |d| || d[p] == 0 then None else if d[p] == c then Some(p) else Find(d, p + 1, c)
  }

  function HexValue(c: Byte): Option<nat> {
    if 48 <= c <= 57 then Some(c - 48)
    else if 97 <= c <= 102 then Some(c - 87)
    else if 65 <= c <= 70 then Some(c - 55)
    else None
  }

  function DecimalValue(c: Byte): Option<nat> {
    if 48 <= c <= 57 then Some(c - 48) else None
  }

  const U32: nat := 0x1_0000_0000
  const U64: nat := 0x1_0000_0000_0000_0000

  /** The digits before position q, last one first, down to the mark: 32-bit weights, a 64-bit sum. */
  function Digits(d: Bytes, lo: nat, q: nat, mark: Byte, base: nat, mult: nat, ucs: nat): Option<nat>
    requires lo <= q < |d| && d[lo] == mark
    decreases q
  {
    if d[q] == mark then Some(ucs)
    else
      var value := if base == 16 then HexValue(d[q]) else DecimalValue(d[q]);
      match value
      case None => None
      case Some(v) => Digits(d, lo, q - 1, mark, base, mult * base % U32, (ucs + mult * v % U32) % U64)
  }

  /** A character reference with the given mark ('x' or '#') at lo: where it ends, and its number. */
  function Reference(d: Bytes, lo: nat, base: nat): Option<(nat, nat)>
    requires lo < |d|
  {
    if At(d, lo + 1) == 0 then None
    else match Find(d, lo + 1, SEMICOLON)
      case None => None
      case Some(q) =>
        match Digits(d, lo, q - 1, d[lo], base, 1, 0)
        case None => None
        case Some(ucs) => Some((q + 1, ucs))
  }

  /** What one character of the document stands for, and where the next begins; None if the reader gives up. */
  type Character = Option<(nat, Bytes)>

  function Written(ucs: nat, encoding: Encoding): Bytes {
    if encoding == Utf8 then Utf8Of(ucs) else [ucs % 256]
  }

  predicate StartsWith(d: Bytes, p: nat, text: Bytes) {
    p + |text| <= |d| && d[p..p + |text|] == text
  }

  /** The first entity of the table, from k on, that the document has at p. */
  function NamedEntity(d: Bytes, p: nat, k: nat): (r: Option<nat>)
    requires k <= |ENTITIES|
    ensures r.Some? ==> k <= r.value < |ENTITIES|
    decreases |ENTITIES| - k
  {
    if k == |ENTITIES| then None
    else if StartsWith(d, p, ENTITIES[k].0) then Some(k)
    else NamedEntity(d, p, k + 1)
  }

  /** GetEntity at an ampersand. A reference has its digits down to the 'x', or down to the '#' if decimal. */
  function GetEntity(d: Bytes, p: nat, encoding: Encoding): (r: Character)
    requires p < |d| && d[p] == AMPERSAND
    ensures r.Some? ==> r.value.0 > p
  {
    if At(d, p + 1) == HASH && At(d, p + 2) != 0 then
      var hex := d[p + 2] == LOWER_X;
      match Reference(d, if hex then p + 2 else p + 1, if hex then 16 else 10)
      case None => None
      case Some((next, ucs)) => Some((next, Written(ucs, encoding)))
    else
      match NamedEntity(d, p, 0)
      case Some(k) => Some((p + |ENTITIES[k].0|, [ENTITIES[k].1]))
      case None => Some((p + 1, [])) // the length is left at 0: the ampersand is dropped
  }

  /** A raw multi-byte sequence; after the end of the string its bytes stay 0. */
  function RawBytes(d: Bytes, p: nat, n: nat): (bytes: Bytes)
    ensures |bytes| == n
    decreases n
  {
    if n == 0 then []
    else if At(d, p) == 0 then seq(n, _ => 0)
    else [At(d, p)] + RawBytes(d, p + 1, n - 1)
  }

  function GetChar(d: Bytes, p: nat, encoding: Encoding): (r: Character)
    requires p < |d|
    ensures r.Some? ==> r.value.0 > p
  {
    var length := if encoding == Utf8 then ByteTable(d[p]) else 1;
    if length == 1 then
      if d[p] == AMPERSAND then GetEntity(d, p, encoding) else Some((p + 1, [d[p]]))
    else Some((p + length, RawBytes(d, p, length)))
  }

  /** Text up to an end tag, keeping white space: where the document goes on after the tag, and the text. */
  function ReadText(d: Bytes, p: nat, endTag: Bytes, encoding: Encoding): Character
    decreases |d| - p
  {
    if At(d, p) == 0 then None
    else if StartsWith(d, p, endTag) then
      if At(d, p + |endTag|) != 0 then Some((p + |endTag|, [])) else None
    else match GetChar(d, p, encoding)
      case None => None
      case Some((next, bytes)) =>
        match ReadText(d, next, endTag, encoding)
        case None => None
        case Some((end, text)) => Some((end, bytes + text))
  }

  // ------------------------------------------------ the loops

  method FindChar(d: Bytes, p: nat, c: Byte) returns (q: Option<nat>)
    ensures q == Find(d, p, c)
  {
    var i := p;
    while At(d, i) != 0
      invariant Find(d, p, c) == Find(d, i, c)
      decreases |d| - i
    {
      if d[i] == c {
        return Some(i);
      }
      i := i + 1;
    }
    return None;
  }

  /** The hexadecimal and the decimal loop of GetEntity. */
  method ReadDigits(d: Bytes, lo: nat, semicolon: nat, mark: Byte, base: nat) returns (ucs: Option<nat>)
    requires lo < semicolon < |d| && d[lo] == mark
    ensures ucs == Digits(d, lo, semicolon - 1, mark, base, 1, 0)
  {
    var q: nat, mult: nat, sum: nat := semicolon - 1, 1, 0;
    while d[q] != mark
      invariant lo <= q < |d|
      invariant Digits(d, lo, semicolon - 1, mark, base, 1, 0) == Digits(d, lo, q, mark, base, mult, sum)
      decreases q
    {
      var v := if base == 16 then HexValue(d[q]) else DecimalValue(d[q]);
      if v.None? {
        return None;
      }
      sum := (sum + mult * v.value % U32) % U64;
      mult := mult * base % U32;
      q := q - 1;
    }
    return Some(sum);
  }

  method ReadReference(d: Bytes, lo: nat, base: nat) returns (r: Option<(nat, nat)>)
    requires lo < |d|
    ensures r == Reference(d, lo, base)
  {
    if At(d, lo + 1) == 0 {
      return None;
    }
    var q := FindChar(d, lo + 1, SEMICOLON);
    if q.None? {
      return None;
    }
    var ucs := ReadDigits(d, lo, q.value, d[lo], base);
    r := if ucs.None? then None else Some((q.value + 1, ucs.value));
  }

  method MatchEntity(d: Bytes, p: nat) returns (k: Option<nat>)
    ensures k == NamedEntity(d, p, 0)
  {
    for i := 0 to |ENTITIES|
      invariant NamedEntity(d, p, 0) == NamedEntity(d, p, i)
    {
      if StartsWith(d, p, ENTITIES[i].0) {
        return Some(i);
      }
    }
    return None;
  }

  method ReadEntity(d: Bytes, p: nat, encoding: Encoding) returns (r: Character)
    requires p < |d| && d[p] == AMPERSAND
    ensures r == GetEntity(d, p, encoding)
  {
    if At(d, p + 1) != 0 && At(d, p + 1) == HASH && At(d, p + 2) != 0 {
      var hex := d[p + 2] == LOWER_X;
      var reference := ReadReference(d, if hex then p + 2 else p + 1, if hex then 16 else 10);
      match reference {
        case None => r := None;
        case Some((next, ucs)) =>
          if encoding == Utf8 {
            var buffer := new Byte[4];
            var length := ConvertUTF32ToUTF8(ucs, buffer);
            r := Some((next, buffer[..length]));
          } else {
            r := Some((next, [ucs % 256]));
          }
      }
      return;
    }
    var k := MatchEntity(d, p);
    r := if k.Some? then Some((p + |ENTITIES[k.value].0|, [ENTITIES[k.value].1])) else Some((p + 1, []));
  }

  method ReadChar(d: Bytes, p: nat, encoding: Encoding) returns (r: Character)
    requires p < |d|
    ensures r == GetChar(d, p, encoding)
  {
    var length := if encoding == Utf8 then ByteTable(d[p]) else 1;
    if length == 1 {
      if d[p] == AMPERSAND {
        r := ReadEntity(d, p, encoding);
      } else {
        r := Some((p + 1, [d[p]]));
      }
      return;
    }
    var value := ReadRaw(d, p, length);
    r := Some((p + length, value));
  }

  /** The first i bytes of a raw sequence have been copied. */
  ghost predicate Copied(d: Bytes, p: nat, length: nat, i: nat, value: Bytes) {
    i <= length && |value| == i && RawBytes(d, p, length) == value + RawBytes(d, p + i, length - i)
  }

  /** The copying loop of GetChar; what it does not fill stays 0. */
  method ReadRaw(d: Bytes, p: nat, length: nat) returns (value: Bytes)
    ensures value == RawBytes(d, p, length)
  {
    value := [];
    var i := 0;
    while i < length && At(d, p + i) != 0
      invariant Copied(d, p, length, i, value)
    {
      CopyStep(d, p, length, i, value);
      value := value + [d[p + i]];
      i := i + 1;
    }
    CopyRest(d, p, length, i, value);
    value := value + seq(length - i, _ => 0);
  }

  lemma CopyStep(d: Bytes, p: nat, length: nat, i: nat, value: Bytes)
    requires Copied(d, p, length, i, value) && i < length && At(d, p + i) != 0
    ensures Copied(d, p, length, i + 1, value + [d[p + i]])
  {
    RawStep(d, p + i, length - i);
    Regroup(value, [d[p + i]], RawBytes(d, p + i + 1, length - i - 1));
  }

  lemma CopyRest(d: Bytes, p: nat, length: nat, i: nat, value: Bytes)
    requires Copied(d, p, length, i, value) && (i < length ==> At(d, p + i) == 0)
    ensures RawBytes(d, p, length) == value + seq(length - i, _ => 0)
  {
    RawRest(d, p + i, length - i);
  }

  lemma RawStep(d: Bytes, p: nat, n: nat)
    requires n > 0 && At(d, p) != 0
    ensures RawBytes(d, p, n) == [d[p]] + RawBytes(d, p + 1, n - 1)
  {
  }

  lemma RawRest(d: Bytes, p: nat, n: nat)
    requires n > 0 ==> At(d, p) == 0
    ensures RawBytes(d, p, n) == seq(n, _ => 0)
  {
  }

  /** StringEqual, case-sensitive: whether the document goes on with the tag. */
  method StringEqual(d: Bytes, p: nat, tag: Bytes) returns (equal: bool)
    requires At(d, p) != 0 && 0 !in tag
    ensures equal == StartsWith(d, p, tag)
  {
    var i := 0;
    while i < |tag| && At(d, p + i) != 0 && At(d, p + i) == tag[i]
      invariant 0 <= i <= |tag| && p + i <= |d| && d[p..p + i] == tag[..i]
    {
      i := i + 1;
    }
    if i < |tag| && p + |tag| <= |d| {
      assert d[p..p + |tag|][i] == d[p + i];
    }
    return i == |tag|;
  }

  /** The branch of ReadText that keeps all white space, which is how attribute values are read. */
  method ReadTextKeepingSpace(d: Bytes, start: nat, endTag: Bytes, encoding: Encoding)
    returns (next: Option<nat>, text: Bytes)
    requires 0 !in endTag && |endTag| > 0
    ensures next.Some? <==> ReadText(d, start, endTag, encoding).Some?
    ensures next.Some? ==> ReadText(d, start, endTag, encoding) == Some((next.value, text))
  {
    var p := start;
    text := [];
    PrependNothing(ReadText(d, start, endTag, encoding));
    while At(d, p) != 0
      invariant ReadText(d, start, endTag, encoding) == Prepend(text, ReadText(d, p, endTag, encoding))
      decreases |d| - p
    {
      var found := StringEqual(d, p, endTag);
      if found {
        break;
      }
      var r := ReadChar(d, p, encoding);
      if r.None? {
        return None, text;
      }
      PrependTwice(text, r.value.1, ReadText(d, r.value.0, endTag, encoding));
      text := text + r.value.1;
      p := r.value.0;
    }
    assert text + [] == text;
    if At(d, p) != 0 {
      p := p + |endTag|;
    }
    return if At(d, p) != 0 then Some(p) else None, text;
  }

  function Prepend(text: Bytes, r: Character): Character {
    match r
    case None => None
    case Some((end, rest)) => Some((end, text + rest))
  }

  lemma PrependNothing(r: Character)
    ensures Prepend([], r) == r
  {
    if r.Some? {
      assert [] + r.value.1 == r.value.1;
    }
  }

  lemma PrependTwice(a: Bytes, b: Bytes, r: Character)
    ensures Prepend(a, Prepend(b, r)) == Prepend(a + b, r)
  {
    if r.Some? {
      assert a + (b + r.value.1) == (a + b) + r.value.1;
    }
  }
}
