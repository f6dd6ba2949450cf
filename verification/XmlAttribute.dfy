/**
 * Printing and parsing an attribute in TinyXML: for which names and values the parser
 * gives back what the printer was given (tinyxml.cpp, tinyxmlparser.cpp).
 */
module XmlAttribute {
  import opened Wrappers
  import opened XmlRead
  import opened XmlText

  const EQUALS: Byte := 61
  const SLASH: Byte := 47

  // ------------------------------------------------ white space and names

  /** isspace in the C locale. */
  predicate IsWhiteSpace(c: Byte) {
    c == 32 || 9 <= c <= 13
  }

  /** One of the three-byte marks that are skipped like white space in UTF-8. */
  predicate MarkAt(d: Bytes, p: nat) {
    At(d, p) == 0xEF
    && ((At(d, p + 1) == 0xBB && At(d, p + 2) == 0xBF)
        || (At(d, p + 1) == 0xBF && (At(d, p + 2) == 0xBE || At(d, p + 2) == 0xBF)))
  }

  /** Past white space and marks; None at the end of the document. */
  function Skip(d: Bytes, p: nat, encoding: Encoding): (q: nat)
    ensures q >= p
    decreases |d| - p
  {
    if At(d, p) == 0 then p
    else if encoding == Utf8 && MarkAt(d, p) then Skip(d, p + 3, encoding)
    else if IsWhiteSpace(d[p]) then Skip(d, p + 1, encoding)
    else p
  }

  /** SkipWhiteSpace, whose callers give up if it stops at the end of the document. */
  method SkipWhiteSpace(d: Bytes, p: nat, encoding: Encoding) returns (q: Option<nat>)
    ensures q == if At(d, p) == 0 then None else Some(Skip(d, p, encoding))
  {
    if At(d, p) == 0 {
      return None;
    }
    var i := p;
    if encoding == Utf8 {
      while At(d, i) != 0
        invariant p <= i && Skip(d, i, encoding) == Skip(d, p, encoding)
        decreases |d| - i
      {
        if At(d, i) == 0xEF && At(d, i + 1) == 0xBB && At(d, i + 2) == 0xBF {
          i := i + 3;
          continue;
        } else if At(d, i) == 0xEF && At(d, i + 1) == 0xBF && At(d, i + 2) == 0xBE {
          i := i + 3;
          continue;
        } else if At(d, i) == 0xEF && At(d, i + 1) == 0xBF && At(d, i + 2) == 0xBF {
          i := i + 3;
          continue;
        }
        if IsWhiteSpace(d[i]) {
          i := i + 1;
        } else {
          break;
        }
      }
    } else {
      while At(d, i) != 0 && IsWhiteSpace(d[i])
        invariant p <= i && Skip(d, i, encoding) == Skip(d, p, encoding)
        decreases |d| - i
      {
        i := i + 1;
      }
    }
    return Some(i);
  }

  predicate IsAlpha(c: Byte) {
    65 <= c <= 90 || 97 <= c <= 122 || c >= 127
  }

  predicate IsAlphaNum(c: Byte) {
    IsAlpha(c) || 48 <= c <= 57
  }

  predicate StartsName(c: Byte) {
    IsAlpha(c) || c == 95
  }

  predicate InName(c: Byte) {
    IsAlphaNum(c) || c == 95 || c == 45 || c == 46 || c == 58
  }

  /** Where the characters of a name end. */
  function NameEnd(d: Bytes, p: nat): (q: nat)
    ensures p <= q && (q == p || q <= |d|) && forall i :: p <= i < q ==> InName(At(d, i))
    ensures At(d, q) == 0 || !InName(At(d, q))
    decreases |d| - p
  {
    if At(d, p) != 0 && InName(d[p]) then NameEnd(d, p + 1) else p
  }

  /** ReadName: where the name ends, and the name. */
  method ReadName(d: Bytes, p: nat) returns (next: Option<nat>, name: Bytes)
    ensures next == if At(d, p) != 0 && StartsName(d[p]) then Some(NameEnd(d, p)) else None
    ensures next.Some? ==> next.value <= |d| && name == d[p..next.value]
  {
    name := [];
    if At(d, p) != 0 && (IsAlpha(d[p]) || d[p] == 95) {
      var q := p;
      while At(d, q) != 0 && InName(d[q])
        invariant p <= q <= |d| && NameEnd(d, q) == NameEnd(d, p)
        decreases |d| - q
      {
        q := q + 1;
      }
      if q - p > 0 {
        name := d[p..q];
      }
      return Some(q), name;
    }
    return None, name;
  }

  // ------------------------------------------------ the attribute

  /** A parsed attribute, and where the document goes on. */
  datatype Attribute = Attribute(name: Bytes, value: Bytes, next: nat)

  /** The value of an attribute without quotes: up to white space, '/' or '>'; a quote in it is an error. */
  function Unquoted(d: Bytes, p: nat): Character
    decreases |d| - p
  {
    if At(d, p) == 0 || IsWhiteSpace(d[p]) || d[p] == SLASH || d[p] == GREATER_THAN then Some((p, []))
    else if d[p] == SINGLE_QUOTE || d[p] == DOUBLE_QUOTE then None
    else match Unquoted(d, p + 1)
      case None => None
      case Some((q, value)) => Some((q, [d[p]] + value))
  }

  function ParseValue(d: Bytes, p: nat, encoding: Encoding): Character {
    if At(d, p) == SINGLE_QUOTE || At(d, p) == DOUBLE_QUOTE then ReadText(d, p + 1, [At(d, p)], encoding)
    else Unquoted(d, p)
  }

  /** TiXmlAttribute::Parse. */
  function Parse(d: Bytes, start: nat, encoding: Encoding): Option<Attribute> {
    var p := Skip(d, start, encoding);
    if At(d, p) == 0 || !StartsName(d[p]) then None
    else
      var q := NameEnd(d, p);
      var r := Skip(d, q, encoding);
      if At(d, r) != EQUALS then None
      else
        var v := Skip(d, r + 1, encoding);
        if At(d, v) == 0 then None
        else match ParseValue(d, v, encoding)
          case None => None
          case Some((next, value)) => Some(Attribute(d[p..q], value, next))
  }

  method ParseAttribute(d: Bytes, start: nat, encoding: Encoding) returns (a: Option<Attribute>)
    ensures a == Parse(d, start, encoding)
  {
    var p := SkipWhiteSpace(d, start, encoding);
    if p.None? || At(d, p.value) == 0 {
      return None;
    }
    var q, name := ReadName(d, p.value);
    if q.None? || At(d, q.value) == 0 {
      return None;
    }
    var r := SkipWhiteSpace(d, q.value, encoding);
    if r.None? || At(d, r.value) == 0 || At(d, r.value) != EQUALS {
      return None;
    }
    var v := SkipWhiteSpace(d, r.value + 1, encoding);
    if v.None? || At(d, v.value) == 0 {
      return None;
    }
    var next, value := ReadValue(d, v.value, encoding);
    a := if next.None? then None else Some(Attribute(name, value, next.value));
  }

  /** The value: in either kind of quotes, or without. */
  method ReadValue(d: Bytes, p: nat, encoding: Encoding) returns (next: Option<nat>, value: Bytes)
    requires At(d, p) != 0
    ensures next.Some? <==> ParseValue(d, p, encoding).Some?
    ensures next.Some? ==> ParseValue(d, p, encoding) == Some((next.value, value))
  {
    if d[p] == SINGLE_QUOTE {
      next, value := ReadTextKeepingSpace(d, p + 1, [SINGLE_QUOTE], encoding);
    } else if d[p] == DOUBLE_QUOTE {
      next, value := ReadTextKeepingSpace(d, p + 1, [DOUBLE_QUOTE], encoding);
    } else {
      next, value := ReadUnquoted(d, p);
    }
  }

  method ReadUnquoted(d: Bytes, start: nat) returns (next: Option<nat>, value: Bytes)
    ensures next.Some? <==> Unquoted(d, start).Some?
    ensures next.Some? ==> Unquoted(d, start) == Some((next.value, value))
  {
    var p := start;
    value := [];
    PrependNothing(Unquoted(d, start));
    while At(d, p) != 0 && !IsWhiteSpace(d[p]) && d[p] != SLASH && d[p] != GREATER_THAN
      invariant Unquoted(d, start) == Prepend(value, Unquoted(d, p))
      decreases |d| - p
    {
      if d[p] == SINGLE_QUOTE || d[p] == DOUBLE_QUOTE {
        return None, value;
      }
      PrependTwice(value, [d[p]], Unquoted(d, p + 1));
      value := value + [d[p]];
      p := p + 1;
    }
    assert value + [] == value;
    return Some(p), value;
  }

  /** The quote a value is printed in. */
  function QuoteFor(value: Bytes): Byte {
    if DOUBLE_QUOTE in value then SINGLE_QUOTE else DOUBLE_QUOTE
  }

  /** TiXmlAttribute::Print, appending to a string. */
  function Print(name: Bytes, value: Bytes): Bytes {
    Encode(name) + [EQUALS, QuoteFor(value)] + Encode(value) + [QuoteFor(value)]
  }

  method PrintAttribute(name: Bytes, value: Bytes, before: Bytes) returns (str: Bytes)
    ensures str == before + Print(name, value)
  {
    var n := EncodeString(name);
    var v := EncodeString(value);
    str := before;
    if DOUBLE_QUOTE !in value {
      str := str + n + [EQUALS, DOUBLE_QUOTE] + v + [DOUBLE_QUOTE];
    } else {
      str := str + n + [EQUALS, SINGLE_QUOTE] + v + [SINGLE_QUOTE];
    }
    assert str == before + (n + [EQUALS, QuoteFor(value)] + v + [QuoteFor(value)]);
  }
}
