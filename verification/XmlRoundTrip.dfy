/**
 * Which attributes survive printing and parsing: of well-formed values, those in which the text
 * "&#x" does not occur, and of values without that text, those whose multi-byte sequences hold
 * no byte that is escaped (tinyxml.cpp, tinyxmlparser.cpp).
 */
module XmlRoundTrip {
  import opened Wrappers
  import opened XmlAttribute
  import opened XmlRead
  import opened XmlText

  // ------------------------------------------------ values

  /** How many bytes the reader takes from a value at once. */
  function Unit(lead: Byte, encoding: Encoding): (n: nat)
    ensures 1 <= n <= 4
  {
    if encoding == Utf8 then ByteTable(lead) else 1
  }

  /** In UTF-8, every lead byte is followed by its continuation bytes, as in all well-formed text. */
  predicate WellFormed(v: Bytes, encoding: Encoding) {
    |v| == 0
    || var n := Unit(v[0], encoding);
       n <= |v| && (forall i :: 1 <= i < n ==> IsContinuation(v[i])) && WellFormed(v[n..], encoding)
  }

  /** A byte that is printed as itself. */
  predicate Plain(c: Byte) {
    EncodeByte(c) == [c]
  }

  /** The value starts with a unit that is printed as it is. */
  predicate UnitAt(v: Bytes, encoding: Encoding)
    requires |v| > 0
  {
    Unit(v[0], encoding) <= |v| && forall i :: 1 <= i < Unit(v[0], encoding) ==> Plain(v[i])
  }

  /** The units that the reader takes end with the value, and nothing is escaped inside one. */
  predicate Whole(v: Bytes, encoding: Encoding) {
    |v| == 0 || (UnitAt(v, encoding) && Whole(v[Unit(v[0], encoding)..], encoding))
  }

  /** Well-formed text is whole; the other encodings have no longer units. */
  lemma {:induction false} WellFormedIsWhole(v: Bytes, encoding: Encoding)
    requires WellFormed(v, encoding)
    ensures Whole(v, encoding)
    decreases |v|
  {
    if |v| > 0 {
      WellFormedIsWhole(v[Unit(v[0], encoding)..], encoding);
    }
  }

  lemma {:induction false} LegacyIsWhole(v: Bytes)
    ensures WellFormed(v, Legacy)
    decreases |v|
  {
    if |v| > 0 {
      LegacyIsWhole(v[1..]);
    }
  }

  /** The text "&#x" occurs in the value. */
  predicate HasReference(v: Bytes) {
    |v| > 0 && (HexAt(v) || HasReference(v[1..]))
  }

  /** An occurrence is what one expects it to be. */
  lemma {:induction false} ReferenceOccurs(v: Bytes)
    ensures HasReference(v) <==> exists i :: 0 <= i <= |v| && HexAt(v[i..])
    decreases |v|
  {
    if |v| > 0 {
      ReferenceOccurs(v[1..]);
      if i :| 0 <= i <= |v[1..]| && HexAt(v[1..][i..]) {
        assert v[1..][i..] == v[i + 1..];
      }
      if i :| 0 <= i <= |v| && HexAt(v[i..]) {
        assert v[0..] == v;
        if i > 0 { assert v[1..][i - 1..] == v[i..]; }
      }
    }
  }

  // ------------------------------------------------ reading one unit

  lemma HasBytes(d: Bytes, p: nat, text: Bytes)
    requires StartsWith(d, p, text)
    ensures forall i :: 0 <= i < |text| ==> At(d, p + i) == text[i] && p + i < |d|
  {
    forall i | 0 <= i < |text| ensures At(d, p + i) == text[i] {
      assert d[p..p + |text|][i] == d[p + i];
    }
  }

  lemma HasByte(d: Bytes, p: nat, text: Bytes, i: nat, q: nat, c: Byte)
    requires StartsWith(d, p, text) && i < |text| && q == p + i && c == text[i]
    ensures q < |d| && At(d, q) == c
  {
    assert d[p..p + |text|][i] == d[q];
  }

  lemma HasParts(d: Bytes, p: nat, a: Bytes, b: Bytes)
    requires StartsWith(d, p, a + b)
    ensures StartsWith(d, p, a) && StartsWith(d, p + |a|, b)
  {
    assert d[p..p + |a + b|][..|a|] == a && d[p..p + |a + b|][|a|..] == b;
    assert d[p..p + |a|] == d[p..p + |a + b|][..|a|];
    assert d[p + |a|..p + |a| + |b|] == d[p..p + |a + b|][|a|..];
  }

  /** One more digit. */
  lemma DigitStep(d: Bytes, lo: nat, q: nat, p: nat, mult: nat, mult': nat, ucs: nat, v: nat, next: nat)
    requires lo < q < |d| && p == q - 1 && d[lo] == LOWER_X && v < 16 && d[q] == HexDigit(v)
    requires mult' == mult * 16 % U32 && next == (ucs + mult * v % U32) % U64
    ensures Digits(d, lo, q, LOWER_X, 16, mult, ucs) == Digits(d, lo, p, LOWER_X, 16, mult', next)
  {
    assert HexValue(d[q]) == Some(v);
  }

  lemma HexSum(low: nat, high: nat)
    requires low < 16 && high < 16
    ensures (0 + 1 * low % U32) % U64 == low && (low + 16 * high % U32) % U64 == 16 * high + low
  {
  }

  lemma HexPair(d: Bytes, lo: nat, x: nat, y: nat, z: nat, c: nat, high: nat, low: nat)
    requires lo <= x && y == x + 1 && z == x + 2 && z < |d| && d[lo] == LOWER_X == d[x] && high < 16 && low < 16
    requires c == 16 * high + low && d[y] == HexDigit(high) && d[z] == HexDigit(low)
    ensures Digits(d, lo, z, LOWER_X, 16, 1, 0) == Some(c)
  {
    HexSum(low, high);
    DigitStep(d, lo, z, y, 1, 16, 0, low, low);
    DigitStep(d, lo, y, x, 16, 256, low, high, c);
    assert Digits(d, lo, x, LOWER_X, 16, 256, c) == Some(c);
  }

  /** Two hexadecimal digits after an 'x' are read as the byte that was printed with them. */
  lemma TwoDigits(d: Bytes, lo: nat, x: nat, c: Byte)
    requires lo <= x && x + 2 < |d| && d[lo] == LOWER_X == d[x]
    requires d[x + 1] == HexDigit(c / 16) && d[x + 2] == HexDigit(c % 16)
    ensures Digits(d, lo, x + 2, LOWER_X, 16, 1, 0) == Some(c)
  {
    HexPair(d, lo, x, x + 1, x + 2, c, c / 16, c % 16);
  }

  /** The first semicolon, if nothing before it ends the string. */
  lemma {:induction false} FindsAt(d: Bytes, p: nat, q: nat, c: Byte)
    requires p <= q < |d| && d[q] == c && c != 0 && forall i :: p <= i < q ==> d[i] != c
    ensures Find(d, p, c) == Some(q) || Find(d, p, c) == None
    ensures (forall i :: p <= i < q ==> d[i] != 0) ==> Find(d, p, c) == Some(q)
    decreases q - p
  {
    if p < q && d[p] != 0 {
      FindsAt(d, p + 1, q, c);
    }
  }

  lemma ControlRead(d: Bytes, p: nat, c: Byte, encoding: Encoding)
    requires c < 32 && StartsWith(d, p, EncodeByte(c))
    ensures GetChar(d, p, encoding) == Some((p + |EncodeByte(c)|, [c]))
  {
    var text := EncodeByte(c);
    HasByte(d, p, text, 0, p, AMPERSAND);
    HasByte(d, p, text, 1, p + 1, HASH);
    HasByte(d, p, text, 2, p + 2, LOWER_X);
    HasByte(d, p, text, 3, p + 3, HexDigit(c / 16));
    HasByte(d, p, text, 4, p + 4, HexDigit(c % 16));
    HasByte(d, p, text, 5, p + 5, SEMICOLON);
    FindsAt(d, p + 3, p + 5, SEMICOLON);
    TwoDigits(d, p + 2, p + 2, c);
  }

  lemma EntityRead(d: Bytes, p: nat, k: nat, encoding: Encoding)
    requires k < |ENTITIES| && StartsWith(d, p, ENTITIES[k].0)
    ensures GetChar(d, p, encoding) == Some((p + |ENTITIES[k].0|, [ENTITIES[k].1]))
  {
    HasByte(d, p, ENTITIES[k].0, 0, p, AMPERSAND);
    HasByte(d, p, ENTITIES[k].0, 1, p + 1, ENTITIES[k].0[1]);
    HasByte(d, p, ENTITIES[k].0, 2, p + 2, ENTITIES[k].0[2]);
    assert At(d, p + 1) != HASH;
    forall j | 0 <= j < k ensures !StartsWith(d, p, ENTITIES[j].0) {
      assert ENTITIES[j].0[1] != ENTITIES[k].0[1] || ENTITIES[j].0[2] != ENTITIES[k].0[2];
      if StartsWith(d, p, ENTITIES[j].0) {
        HasByte(d, p, ENTITIES[j].0, 1, p + 1, ENTITIES[j].0[1]);
        HasByte(d, p, ENTITIES[j].0, 2, p + 2, ENTITIES[j].0[2]);
      }
    }
    FirstEntity(d, p, 0, k);
  }

  lemma {:induction false} FirstEntity(d: Bytes, p: nat, j: nat, k: nat)
    requires j <= k < |ENTITIES| && StartsWith(d, p, ENTITIES[k].0)
    requires forall i :: j <= i < k ==> !StartsWith(d, p, ENTITIES[i].0)
    ensures NamedEntity(d, p, j) == Some(k)
    decreases k - j
  {
    if j < k {
      FirstEntity(d, p, j + 1, k);
    }
  }

  /** A printed byte is read back as that byte. */
  lemma ByteRead(d: Bytes, p: nat, c: Byte, encoding: Encoding)
    requires StartsWith(d, p, EncodeByte(c)) && Unit(c, encoding) == 1
    ensures p < |d| && GetChar(d, p, encoding) == Some((p + |EncodeByte(c)|, [c]))
    ensures At(d, p) != 0 && At(d, p) != DOUBLE_QUOTE && At(d, p) != SINGLE_QUOTE
  {
    HasBytes(d, p, EncodeByte(c));
    assert At(d, p) == EncodeByte(c)[0];
    if c == AMPERSAND {
      EntityRead(d, p, 0, encoding);
    } else if c == LESS_THAN {
      EntityRead(d, p, 1, encoding);
    } else if c == GREATER_THAN {
      EntityRead(d, p, 2, encoding);
    } else if c == DOUBLE_QUOTE {
      EntityRead(d, p, 3, encoding);
    } else if c == SINGLE_QUOTE {
      EntityRead(d, p, 4, encoding);
    } else if c < 32 {
      ControlRead(d, p, c, encoding);
    }
  }

  /** A multi-byte sequence is read as it is. */
  lemma {:induction false} RawRead(d: Bytes, p: nat, bytes: Bytes)
    requires StartsWith(d, p, bytes) && 0 !in bytes
    ensures RawBytes(d, p, |bytes|) == bytes
    decreases |bytes|
  {
    if |bytes| > 0 {
      HasBytes(d, p, bytes);
      assert At(d, p + 0) == bytes[0];
      assert bytes == [bytes[0]] + bytes[1..];
      HasParts(d, p, [bytes[0]], bytes[1..]);
      RawRead(d, p + 1, bytes[1..]);
    }
  }

  // ------------------------------------------------ the encoding, unit by unit

  /** Bytes that are printed as themselves. */
  lemma {:induction false} EncodeRaw(v: Bytes, n: nat)
    requires n <= |v| && forall i :: 0 <= i < n ==> Plain(v[i])
    ensures Encode(v) == v[..n] + Encode(v[n..])
    ensures HasReference(v) <==> HasReference(v[n..])
    decreases n
  {
    if n > 0 {
      EncodeRaw(v[1..], n - 1);
      EncodePlain(v);
      assert v[1..][n - 1..] == v[n..];
      assert v[..n] == [v[0]] + v[1..][..n - 1];
      Regroup([v[0]], v[1..][..n - 1], Encode(v[n..]));
    } else {
      assert v[..0] == [] && v[0..] == v;
    }
  }

  /** An ASCII byte starts a unit, so what follows it is well-formed too. */
  lemma {:induction false} WellFormedFrom(v: Bytes, k: nat, encoding: Encoding)
    requires WellFormed(v, encoding) && k < |v| && v[k] < CONTINUATION
    ensures WellFormed(v[k..], encoding) && WellFormed(v[k + 1..], encoding)
    decreases |v|
  {
    var n := Unit(v[0], encoding);
    if k == 0 {
      assert v[0..] == v;
    } else {
      assert k >= n;
      WellFormedFrom(v[n..], k - n, encoding);
      assert v[n..][k - n..] == v[k..] && v[n..][k - n + 1..] == v[k + 1..];
    }
  }

  // ------------------------------------------------ a reference passed through

  lemma TakeOneMore(w: Bytes, k: nat)
    requires k < |w|
    ensures w[..k] + [w[k]] == w[..k + 1] && w[k..][1..] == w[k + 1..] && w[k..] == [w[k]] + w[k + 1..]
  {
  }

  /** What is printed for a value that starts like a reference and has a semicolon. */
  lemma PassedSemicolon(w: Bytes, k: nat)
    requires HexAt(w) && k == PassEnd(w, 0) && k < |w| && w[k] == SEMICOLON
    ensures Encode(w) == w[..k + 1] + Encode(w[k + 1..])
  {
    EncodeReference(w, k);
    TakeOneMore(w, k);
    EncodeSemicolon(w[k..], w[k + 1..]);
    Regroup(w[..k], [w[k]], Encode(w[k + 1..]));
  }

  lemma EncodeSemicolon(v: Bytes, rest: Bytes)
    requires v == [SEMICOLON] + rest
    ensures Encode(v) == [SEMICOLON] + Encode(rest)
  {
    assert v[0] == SEMICOLON && v[1..] == rest;
  }

  /** What is printed for one that has none. */
  lemma PassedToLast(w: Bytes, k: nat)
    requires HexAt(w) && k == PassEnd(w, 0) && k == |w| - 1
    ensures Encode(w) == w[..k] + EncodeByte(w[k])
  {
    EncodeReference(w, k);
    TakeOneMore(w, k);
    EncodeOne(w[k..], w[k]);
  }

  lemma EncodeOne(v: Bytes, c: Byte)
    requires v == [c]
    ensures Encode(v) == EncodeByte(c)
  {
    assert v[1..] == [] && EncodeByte(c) + [] == EncodeByte(c);
  }

  /** Where a reference that is passed through ends. */
  lemma PassBounds(w: Bytes, k: nat)
    requires HexAt(w) && k == PassEnd(w, 0)
    ensures 2 <= k < |w| && (w[k] == SEMICOLON ==> k >= 3) && (w[k] != SEMICOLON ==> k == |w| - 1)
    ensures forall i :: 0 <= i < k ==> w[i] != SEMICOLON
  {
    assert w[0] == AMPERSAND && w[1] == HASH && w[2] == LOWER_X;
  }

  /** What is printed for a value that starts like a reference. */
  lemma PassedThrough(w: Bytes, k: nat)
    requires HexAt(w) && k == PassEnd(w, 0)
    ensures 2 <= k < |w|
    ensures w[k] == SEMICOLON ==> k >= 3 && Encode(w) == w[..k + 1] + Encode(w[k + 1..])
    ensures w[k] != SEMICOLON ==> k == |w| - 1 && Encode(w) == w[..k] + EncodeByte(w[k])
    ensures forall i :: 0 <= i < k ==> w[i] != SEMICOLON
  {
    PassBounds(w, k);
    if w[k] == SEMICOLON {
      PassedSemicolon(w, k);
    } else {
      PassedToLast(w, k);
    }
  }

  /** A hexadecimal reference in the document, given where its semicolon is. */
  lemma ReferenceRead(d: Bytes, p: nat, encoding: Encoding)
    requires p + 2 < |d| && d[p] == AMPERSAND && d[p + 1] == HASH && d[p + 2] == LOWER_X
    ensures var q := Find(d, p + 3, SEMICOLON);
            && (q.None? ==> GetChar(d, p, encoding) == None)
            && (q.Some? ==> q.value > p + 2
                            && var ucs := Digits(d, p + 2, q.value - 1, LOWER_X, 16, 1, 0);
                               GetChar(d, p, encoding)
                               == if ucs.None? then None else Some((q.value + 1, Written(ucs.value, encoding))))
  {
    assert At(d, p + 1) == HASH && At(d, p + 2) == LOWER_X;
  }

  /** A reference inside the value: it is read as fewer bytes than it has, or not at all. */
  lemma ClosedReference(d: Bytes, p: nat, w: Bytes, k: nat, next: nat, rest: Bytes, encoding: Encoding)
    requires HexAt(w) && k == PassEnd(w, 0) && k < |w| && w[k] == SEMICOLON && rest == w[k + 1..]
    requires StartsWith(d, p, Encode(w)) && next == p + k + 1
    ensures var r := GetChar(d, p, encoding);
            p < |d| && (r.Some? ==> r.value.0 == p + k + 1 && |r.value.1| <= k)
    ensures |Encode(w)| == k + 1 + |Encode(rest)| && StartsWith(d, next, Encode(rest))
  {
    PassedThrough(w, k);
    ClosedParts(d, p, w, w[..k + 1], k, next, Encode(rest), encoding);
  }

  lemma ClosedParts(d: Bytes, p: nat, w: Bytes, text: Bytes, k: nat, next: nat, after: Bytes, encoding: Encoding)
    requires HexAt(w) && 3 <= k < |w| && w[k] == SEMICOLON && text == w[..k + 1]
             && forall i :: 0 <= i < k ==> w[i] != SEMICOLON
    requires StartsWith(d, p, text + after) && next == p + k + 1
    ensures var r := GetChar(d, p, encoding);
            p < |d| && (r.Some? ==> r.value.0 == p + k + 1 && |r.value.1| <= k)
    ensures StartsWith(d, next, after)
  {
    HasParts(d, p, text, after);
    ClosedText(d, p, text, k, encoding);
  }

  lemma ClosedText(d: Bytes, p: nat, text: Bytes, k: nat, encoding: Encoding)
    requires k >= 3 && |text| == k + 1 && HexAt(text) && text[k] == SEMICOLON
             && forall i :: 0 <= i < k ==> text[i] != SEMICOLON
    requires StartsWith(d, p, text)
    ensures var r := GetChar(d, p, encoding);
            p < |d| && (r.Some? ==> r.value.0 == p + k + 1 && |r.value.1| <= k)
  {
    HasBytes(d, p, text);
    assert At(d, p + 0) == AMPERSAND && At(d, p + 1) == HASH && At(d, p + 2) == LOWER_X && At(d, p + k) == SEMICOLON;
    forall i | p + 3 <= i < p + k ensures d[i] != SEMICOLON { assert At(d, p + (i - p)) == text[i - p]; }
    FindsAt(d, p + 3, p + k, SEMICOLON);
    ReferenceRead(d, p, encoding);
  }

  /** Of what a byte is printed as, only the last character can be a semicolon. */
  lemma SemicolonLast(c: Byte)
    requires c != SEMICOLON
    ensures forall i :: 0 <= i < |EncodeByte(c)| - 1 ==> EncodeByte(c)[i] != SEMICOLON
    ensures EncodeByte(c)[|EncodeByte(c)| - 1] == SEMICOLON ==>
              c < 32 || c in [AMPERSAND, LESS_THAN, GREATER_THAN, DOUBLE_QUOTE, SINGLE_QUOTE]
  {
  }

  /** No semicolon among these bytes of the document. */
  ghost predicate NoSemicolon(d: Bytes, p: nat, q: nat) {
    forall x :: p <= x < q ==> At(d, x) != SEMICOLON
  }

  lemma NoSemicolonIn(d: Bytes, p: nat, q: nat, text: Bytes, n: nat)
    requires StartsWith(d, p, text) && n <= |text| && (forall i :: 0 <= i < n ==> text[i] != SEMICOLON) && q == p + n
    ensures NoSemicolon(d, p, q)
  {
    HasBytes(d, p, text);
    forall x | p <= x < q ensures At(d, x) != SEMICOLON {
      assert At(d, p + (x - p)) == text[x - p];
    }
  }

  lemma FoundAfter(d: Bytes, p: nat, q: nat)
    requires NoSemicolon(d, p, q)
    ensures Find(d, p, SEMICOLON).Some? ==>
              Find(d, p, SEMICOLON).value >= q
              && At(d, Find(d, p, SEMICOLON).value) == SEMICOLON
  {
    var r := Find(d, p, SEMICOLON);
    if r.Some? {
      assert At(d, r.value) == SEMICOLON;
    }
  }

  /** Searching on from p, a semicolon is found in the last byte's encoding or after the closing quote. */
  lemma FoundLate(d: Bytes, p: nat, w: Bytes, k: nat, last: Bytes, mid: nat, e: nat, quote: Byte)
    requires HexAt(w) && k == PassEnd(w, 0) && k < |w| && w[k] != SEMICOLON && StartsWith(d, p, Encode(w))
    requires last == EncodeByte(w[k]) && mid == p + k && e == p + |Encode(w)| && At(d, e) == quote != SEMICOLON
    ensures e == mid + |last| && StartsWith(d, mid, last)
    ensures var q := Find(d, p + 3, SEMICOLON);
            q.Some? ==> q.value > e || (q.value == e - 1 && d[q.value] == SEMICOLON)
  {
    PassedThrough(w, k);
    HasParts(d, p, w[..k], last);
    SemicolonLast(w[k]);
    FoundAtLast(d, p, w[..k], k, mid, last, e);
  }

  lemma FoundAtLast(d: Bytes, p: nat, first: Bytes, k: nat, mid: nat, last: Bytes, e: nat)
    requires 2 <= k == |first| && mid == p + k && |last| > 0 && e == mid + |last| && At(d, e) != SEMICOLON
    requires StartsWith(d, p, first) && StartsWith(d, mid, last)
    requires forall i :: 0 <= i < k ==> first[i] != SEMICOLON
    requires forall i :: 0 <= i < |last| - 1 ==> last[i] != SEMICOLON
    ensures var q := Find(d, p + 3, SEMICOLON);
            q.Some? ==> q.value > e || (q.value == e - 1 && d[q.value] == SEMICOLON)
  {
    NoSemicolonIn(d, p, mid, first, k);
    NoSemicolonIn(d, mid, e - 1, last, |last| - 1);
    NoSemicolonJoin(d, p, mid, e - 1);
    FoundAfter(d, p + 3, e - 1);
  }

  lemma NoSemicolonJoin(d: Bytes, p: nat, q: nat, r: nat)
    requires NoSemicolon(d, p, q) && NoSemicolon(d, q, r)
    ensures NoSemicolon(d, p + 3, r)
  {
  }

  /** Reading the digits before the semicolon of a printed entity or control character. */
  lemma LastByteDigits(d: Bytes, p: nat, lo: nat, c: Byte, text: Bytes, semicolon: nat)
    requires StartsWith(d, p, text) && text == EncodeByte(c) && c != SEMICOLON && semicolon == p + |text| - 1
    requires lo < p && d[lo] == LOWER_X && d[semicolon] == SEMICOLON
    ensures semicolon - 1 >= lo
    ensures var ucs := Digits(d, lo, semicolon - 1, LOWER_X, 16, 1, 0);
            ucs.Some? ==> ucs.value == c && c < 32
  {
    HasBytes(d, p, text);
    assert At(d, p + (|text| - 1)) == SEMICOLON;
    SemicolonLast(c);
    if c < 32 {
      HasByte(d, p, text, 2, p + 2, LOWER_X);
      HasByte(d, p, text, 3, p + 3, HexDigit(c / 16));
      HasByte(d, p, text, 4, p + 4, HexDigit(c % 16));
      TwoDigits(d, lo, p + 2, c);
    } else {
      var n := |text|;
      assert At(d, p + (n - 2)) == text[n - 2];
    }
  }

  /** A reference without a semicolon of its own, and the first semicolon the reader finds. */
  ghost predicate Opened(d: Bytes, p: nat, mid: nat, e: nat, c: Byte, last: Bytes) {
    && p + 2 < |d| && d[p] == AMPERSAND && d[p + 1] == HASH && d[p + 2] == LOWER_X
    && c != SEMICOLON && last == EncodeByte(c) && StartsWith(d, mid, last) && e == mid + |last|
    && (mid == p + 2 ==> e == p + 3) && p + 2 <= mid
    && var q := Find(d, p + 3, SEMICOLON);
       q.Some? ==> q.value > e || (q.value == e - 1 && d[q.value] == SEMICOLON)
  }

  lemma OpensLate(d: Bytes, p: nat, mid: nat, e: nat, w: Bytes, k: nat, quote: Byte)
    requires HexAt(w) && k == PassEnd(w, 0) && k < |w| && w[k] != SEMICOLON && StartsWith(d, p, Encode(w))
             && mid == p + k
    requires e == p + |Encode(w)| && At(d, e) == quote != SEMICOLON && quote != 0
    ensures Opened(d, p, mid, e, w[k], EncodeByte(w[k])) && |w| >= 3
  {
    PassedThrough(w, k);
    FoundLate(d, p, w, k, EncodeByte(w[k]), mid, e, quote);
    OpensReference(w, k);
    ReferenceStart(d, p, Encode(w));
  }

  /** It swallows the rest of the value, or more, or fails. */
  lemma OpenReference(d: Bytes, p: nat, mid: nat, e: nat, c: Byte, last: Bytes, length: nat, encoding: Encoding)
    requires Opened(d, p, mid, e, c, last) && length >= 3
    ensures var r := GetChar(d, p, encoding);
            r.Some? ==> r.value.0 > e + 1 || (r.value.0 == e && |r.value.1| < length)
  {
    ReferenceRead(d, p, encoding);
    var q := Find(d, p + 3, SEMICOLON);
    if q.Some? {
      if q.value == e - 1 {
        LastByteDigits(d, mid, p + 2, c, last, q.value);
      }
      OpenOutcome(GetChar(d, p, encoding), q.value, Digits(d, p + 2, q.value - 1, LOWER_X, 16, 1, 0), e, length,
        encoding);
    }
  }

  /** A number below 32 is one byte; a semicolon behind the quote takes the reader past it. */
  lemma OpenOutcome(r: Character, q: nat, ucs: Option<nat>, e: nat, length: nat, encoding: Encoding)
    requires r == if ucs.None? then None else Some((q + 1, Written(ucs.value, encoding)))
    requires length >= 3 && (q > e || (q == e - 1 && (ucs.Some? ==> ucs.value < 32)))
    ensures r.Some? ==> r.value.0 > e + 1 || (r.value.0 == e && |r.value.1| < length)
  {
  }

  lemma ReferenceStart(d: Bytes, p: nat, text: Bytes)
    requires StartsWith(d, p, text) && |text| >= 3 && text[0] == AMPERSAND && text[1] == HASH && text[2] == LOWER_X
    ensures p + 2 < |d| && d[p] == AMPERSAND && d[p + 1] == HASH && d[p + 2] == LOWER_X
  {
    HasBytes(d, p, text);
    assert At(d, p + 0) == AMPERSAND && At(d, p + 1) == HASH && At(d, p + 2) == LOWER_X;
  }

  /** However short, it is printed with its first three characters. */
  lemma OpensReference(w: Bytes, k: nat)
    requires HexAt(w) && 2 <= k < |w| && Encode(w) == w[..k] + EncodeByte(w[k]) && (k == 2 ==> |w| == 3)
    ensures |Encode(w)| >= 3 && Encode(w)[0] == AMPERSAND && Encode(w)[1] == HASH && Encode(w)[2] == LOWER_X
    ensures k == 2 ==> |Encode(w)| == 3
  {
    assert w[2] == LOWER_X;
  }

  // ------------------------------------------------ reading a value

  /** The text of w is at p, and the closing quote after it, at e. */
  ghost predicate Quoted(d: Bytes, p: nat, e: nat, w: Bytes, quote: Byte) {
    && (quote == DOUBLE_QUOTE || quote == SINGLE_QUOTE)
    && StartsWith(d, p, Encode(w)) && e == p + |Encode(w)| && At(d, e) == quote
  }

  /** What may come of reading from p a value of some length, with its closing quote at e. */
  ghost predicate Acceptable(r: Character, e: nat, length: nat, strict: bool) {
    r.Some? ==>
      r.value.0 > e + 1 || (r.value.0 == e + 1 && |r.value.1| <= length && (strict ==> |r.value.1| < length))
  }

  /** Reading goes forward, and never returns the end of the document. */
  lemma {:induction false} ReadsForward(d: Bytes, p: nat, quote: Byte, encoding: Encoding)
    ensures ReadText(d, p, [quote], encoding).Some? ==>
              ReadText(d, p, [quote], encoding).value.0 > p && At(d, ReadText(d, p, [quote], encoding).value.0) != 0
    decreases |d| - p
  {
    if At(d, p) != 0 && !StartsWith(d, p, [quote]) {
      var c := GetChar(d, p, encoding);
      if c.Some? {
        ReadsForward(d, c.value.0, quote, encoding);
      }
    }
  }

  /** One turn of the reading loop. */
  lemma ReadOne(d: Bytes, p: nat, quote: Byte, encoding: Encoding)
    requires p < |d| && d[p] != 0 && d[p] != quote
    ensures ReadText(d, p, [quote], encoding)
            == match GetChar(d, p, encoding)
               case None => None
               case Some((next, bytes)) => Prepend(bytes, ReadText(d, next, [quote], encoding))
  {
    assert d[p..p + 1][0] == d[p];
  }

  lemma ReadEnd(d: Bytes, p: nat, quote: Byte, encoding: Encoding)
    requires At(d, p) == quote != 0
    ensures ReadText(d, p, [quote], encoding) == if At(d, p + 1) != 0 then Some((p + 1, [])) else None
  {
    assert d[p..p + 1] == [quote];
  }

  /** The reader, at p with the value w before it, goes on at `next` with the rest of the value. */
  ghost predicate Advances(d: Bytes, p: nat, e: nat, bytes: Bytes, next: nat, rest: Bytes, quote: Byte,
                           encoding: Encoding) {
    && p < |d| && d[p] != 0 && d[p] != quote
    && GetChar(d, p, encoding) == Some((next, bytes))
    && Quoted(d, next, e, rest, quote)
  }

  lemma ByteAdvances(d: Bytes, p: nat, e: nat, w: Bytes, c: Byte, rest: Bytes, quote: Byte, encoding: Encoding)
    requires Quoted(d, p, e, w, quote) && w == [c] + rest && !HexAt(w) && Unit(c, encoding) == 1
    ensures Advances(d, p, e, [c], p + |EncodeByte(c)|, rest, quote, encoding)
    ensures HasReference(w) <==> HasReference(rest)
  {
    assert w[1..] == rest;
    EncodePlain(w);
    AfterByte(d, p, e, EncodeByte(c), Encode(rest), Encode(w));
    ByteRead(d, p, c, encoding);
  }

  lemma AfterByte(d: Bytes, p: nat, e: nat, a: Bytes, b: Bytes, all: Bytes)
    requires StartsWith(d, p, all) && all == a + b && e == p + |all|
    ensures StartsWith(d, p, a) && StartsWith(d, p + |a|, b) && e == p + |a| + |b|
  {
    HasParts(d, p, a, b);
  }

  lemma RawAdvances(d: Bytes, p: nat, e: nat, w: Bytes, bytes: Bytes, rest: Bytes, quote: Byte, encoding: Encoding)
    requires Quoted(d, p, e, w, quote) && w == bytes + rest && |bytes| > 1 && |bytes| == Unit(bytes[0], encoding)
    requires forall i :: 0 <= i < |bytes| ==> Plain(bytes[i])
    ensures Advances(d, p, e, bytes, p + |bytes|, rest, quote, encoding)
    ensures HasReference(w) <==> HasReference(rest)
  {
    assert w[..|bytes|] == bytes && w[|bytes|..] == rest;
    EncodeRaw(w, |bytes|);
    AfterByte(d, p, e, bytes, Encode(rest), Encode(w));
    RawGetChar(d, p, bytes, encoding);
  }

  lemma RawGetChar(d: Bytes, p: nat, bytes: Bytes, encoding: Encoding)
    requires StartsWith(d, p, bytes) && |bytes| > 1 && |bytes| == Unit(bytes[0], encoding)
    requires forall i :: 0 <= i < |bytes| ==> Plain(bytes[i])
    ensures p < |d| && d[p] >= CONTINUATION && GetChar(d, p, encoding) == Some((p + |bytes|, bytes))
  {
    HasByte(d, p, bytes, 0, p, bytes[0]);
    RawRead(d, p, bytes);
  }

  /** Any unit that is not a reference is read back as it was. */
  lemma UnitAdvances(d: Bytes, p: nat, e: nat, w: Bytes, quote: Byte, encoding: Encoding)
    returns (bytes: Bytes, next: nat, rest: Bytes)
    requires Quoted(d, p, e, w, quote) && |w| > 0 && UnitAt(w, encoding) && !HexAt(w)
    ensures w == bytes + rest && |rest| < |w| && rest == w[Unit(w[0], encoding)..]
    ensures HasReference(w) <==> HasReference(rest)
    ensures Advances(d, p, e, bytes, next, rest, quote, encoding)
  {
    var n := Unit(w[0], encoding);
    bytes, rest := w[..n], w[n..];
    TakeAndDrop(w, n);
    if n == 1 {
      ByteAdvances(d, p, e, w, w[0], rest, quote, encoding);
      next := p + |EncodeByte(w[0])|;
    } else {
      RawAdvances(d, p, e, w, bytes, rest, quote, encoding);
      next := p + n;
    }
  }

  lemma TakeAndDrop(w: Bytes, n: nat)
    requires 0 < n <= |w|
    ensures w == w[..n] + w[n..] && (n == 1 ==> w[..n] == [w[0]])
  {
  }

  /** A reference with its semicolon: the reader goes on after it, or gives up. */
  ghost predicate Skips(d: Bytes, p: nat, k: nat, quote: Byte, encoding: Encoding) {
    && p < |d| && d[p] != 0 && d[p] != quote
    && var r := GetChar(d, p, encoding); r.Some? ==> r.value.0 == p + k + 1 && |r.value.1| <= k
  }

  lemma ShorterReference(d: Bytes, p: nat, e: nat, k: nat, next: nat, length: nat, quote: Byte, encoding: Encoding)
    requires Skips(d, p, k, quote, encoding) && next == p + k + 1
    requires Acceptable(ReadText(d, next, [quote], encoding), e, length, false)
    ensures Acceptable(ReadText(d, p, [quote], encoding), e, k + 1 + length, true)
  {
    ReadOne(d, p, quote, encoding);
    var r := GetChar(d, p, encoding);
    if r.Some? { ShorterPrepend(r.value.1, ReadText(d, next, [quote], encoding), e, k, length); }
  }

  lemma ShorterPrepend(bytes: Bytes, r: Character, e: nat, k: nat, length: nat)
    requires |bytes| <= k && Acceptable(r, e, length, false)
    ensures Acceptable(Prepend(bytes, r), e, k + 1 + length, true)
  {
  }

  lemma ClosedCase(d: Bytes, p: nat, e: nat, w: Bytes, k: nat, next: nat, rest: Bytes, quote: Byte, encoding: Encoding)
    requires Quoted(d, p, e, w, quote) && WellFormed(w, encoding) && HexAt(w) && k == PassEnd(w, 0)
    requires k < |w| && w[k] == SEMICOLON && rest == w[k + 1..] && next == p + k + 1
    ensures Skips(d, p, k, quote, encoding) && WellFormed(rest, encoding) && Quoted(d, next, e, rest, quote)
  {
    StartsLikeReference(d, p, w);
    ClosedReference(d, p, w, k, next, rest, encoding);
    WellFormedFrom(w, k, encoding);
  }

  lemma LongReference(d: Bytes, p: nat, e: nat, w: Bytes, quote: Byte, encoding: Encoding)
    requires p < |d| && d[p] != 0 && d[p] != quote && At(d, e) == quote != 0
    requires var r := GetChar(d, p, encoding);
             r.Some? ==> r.value.0 > e + 1 || (r.value.0 == e && |r.value.1| < |w|)
    ensures Acceptable(ReadText(d, p, [quote], encoding), e, |w|, true)
  {
    ReadOne(d, p, quote, encoding);
    ReadEnd(d, e, quote, encoding);
    var r := GetChar(d, p, encoding);
    if r.Some? {
      ReadsForward(d, r.value.0, quote, encoding);
    }
  }

  lemma StartsLikeReference(d: Bytes, p: nat, w: Bytes)
    requires HexAt(w) && StartsWith(d, p, Encode(w))
    ensures p < |d| && d[p] == AMPERSAND
  {
    EncodeReference(w, PassEnd(w, 0));
    HasBytes(d, p, Encode(w));
    assert At(d, p + 0) == Encode(w)[0] == w[0];
  }

  /** A value that starts with a reference: what is left of it after the reference, if anything. */
  lemma ReferenceCase(d: Bytes, p: nat, e: nat, w: Bytes, quote: Byte, encoding: Encoding)
    returns (closed: bool, next: nat, rest: Bytes)
    requires Quoted(d, p, e, w, quote) && WellFormed(w, encoding) && HexAt(w)
    ensures !closed ==> Acceptable(ReadText(d, p, [quote], encoding), e, |w|, true)
    ensures closed ==> |rest| < |w| && Quoted(d, next, e, rest, quote) && WellFormed(rest, encoding)
    ensures closed && Acceptable(ReadText(d, next, [quote], encoding), e, |rest|, false) ==>
              Acceptable(ReadText(d, p, [quote], encoding), e, |w|, true)
  {
    var k := PassEnd(w, 0);
    closed, next, rest := w[k] == SEMICOLON, p + k + 1, w[k + 1..];
    if closed {
      ClosedCase(d, p, e, w, k, next, rest, quote, encoding);
      if Acceptable(ReadText(d, next, [quote], encoding), e, |rest|, false) {
        ShorterReference(d, p, e, k, next, |rest|, quote, encoding);
      }
    } else {
      StartsLikeReference(d, p, w);
      OpensLate(d, p, p + k, e, w, k, quote);
      OpenReference(d, p, p + k, e, w[k], EncodeByte(w[k]), |w|, encoding);
      LongReference(d, p, e, w, quote, encoding);
    }
  }

  lemma UnitStep(d: Bytes, p: nat, e: nat, w: Bytes, bytes: Bytes, next: nat, rest: Bytes, quote: Byte,
                 encoding: Encoding, strict: bool)
    requires w == bytes + rest && Advances(d, p, e, bytes, next, rest, quote, encoding)
    requires Acceptable(ReadText(d, next, [quote], encoding), e, |rest|, strict)
    ensures Acceptable(ReadText(d, p, [quote], encoding), e, |w|, strict)
  {
    ReadOne(d, p, quote, encoding);
  }

  /** A value never comes back longer, and comes back shorter if it has a reference. */
  lemma {:induction false} ReadsNoMore(d: Bytes, p: nat, e: nat, w: Bytes, quote: Byte, encoding: Encoding)
    requires Quoted(d, p, e, w, quote) && WellFormed(w, encoding)
    ensures Acceptable(ReadText(d, p, [quote], encoding), e, |w|, HasReference(w))
    decreases |w|
  {
    if |w| == 0 {
      ReadEnd(d, p, quote, encoding);
    } else if HexAt(w) {
      var closed, next, rest := ReferenceCase(d, p, e, w, quote, encoding);
      if closed {
        ReadsNoMore(d, next, e, rest, quote, encoding);
      }
    } else {
      var bytes, next, rest := UnitAdvances(d, p, e, w, quote, encoding);
      ReadsNoMore(d, next, e, rest, quote, encoding);
      UnitStep(d, p, e, w, bytes, next, rest, quote, encoding, HasReference(w));
    }
  }

  /** A whole value without a reference comes back as it was. */
  lemma {:induction false} ReadsBack(d: Bytes, p: nat, e: nat, w: Bytes, quote: Byte, encoding: Encoding)
    requires Quoted(d, p, e, w, quote) && Whole(w, encoding) && !HasReference(w)
    requires At(d, e + 1) != 0
    ensures ReadText(d, p, [quote], encoding) == Some((e + 1, w))
    decreases |w|
  {
    if |w| == 0 {
      ReadEnd(d, p, quote, encoding);
    } else {
      var bytes, next, rest := UnitAdvances(d, p, e, w, quote, encoding);
      ReadOne(d, p, quote, encoding);
      ReadsBack(d, next, e, rest, quote, encoding);
    }
  }

  // ------------------------------------------------ values that are not whole

  /** Characters that the reader takes one by one and as they are. */
  ghost predicate Ordinary(text: Bytes) {
    forall i :: 0 <= i < |text| ==>
      32 <= text[i] < CONTINUATION && text[i] !in [AMPERSAND, DOUBLE_QUOTE, SINGLE_QUOTE]
  }

  /** All of what an escaped byte is printed as, but the ampersand, is ordinary. */
  lemma EscapedTail(c: Byte, text: Bytes)
    requires !Plain(c) && text == EncodeByte(c)
    ensures |text| >= 4 && Ordinary(text[1..])
  {
    if c !in [AMPERSAND, LESS_THAN, GREATER_THAN, DOUBLE_QUOTE, SINGLE_QUOTE] {
      ControlTail(c / 16, c % 16, text);
    }
  }

  lemma ControlTail(high: nat, low: nat, text: Bytes)
    requires high < 16 && low < 16
    requires text == [AMPERSAND, HASH, LOWER_X, HexDigit(high), HexDigit(low), SEMICOLON]
    ensures Ordinary(text[1..])
  {
  }

  lemma OrdinaryRest(text: Bytes, i: nat)
    requires 1 <= i <= |text| && Ordinary(text[1..])
    ensures Ordinary(text[i..])
  {
    forall x | 0 <= x < |text[i..]| ensures text[i..][x] == text[1..][x + (i - 1)] {}
  }

  lemma {:induction false} OrdinaryRead(d: Bytes, p: nat, next: nat, text: Bytes, quote: Byte, encoding: Encoding)
    requires StartsWith(d, p, text) && Ordinary(text) && (quote == DOUBLE_QUOTE || quote == SINGLE_QUOTE)
    requires next == p + |text|
    ensures ReadText(d, p, [quote], encoding) == Prepend(text, ReadText(d, next, [quote], encoding))
    decreases |text|
  {
    if |text| == 0 {
      PrependNothing(ReadText(d, p, [quote], encoding));
      assert text == [];
    } else {
      var c, rest := text[0], text[1..];
      assert text == [c] + rest;
      HasParts(d, p, [c], rest);
      HasByte(d, p, text, 0, p, c);
      assert d[p] == c;
      ReadOne(d, p, quote, encoding);
      OrdinaryRead(d, p + 1, next, rest, quote, encoding);
      PrependTwice([c], rest, ReadText(d, next, [quote], encoding));
    }
  }

  /** What comes of reading a value is as long as the value, or longer. */
  ghost predicate Grown(r: Character, length: nat, strict: bool) {
    r.Some? ==> |r.value.1| >= length && (strict ==> |r.value.1| > length)
  }

  /** The first byte of a unit that is escaped or outside the value. */
  function FirstEscaped(v: Bytes, i: nat, n: nat): (j: nat)
    requires i <= n && i <= |v|
    ensures i <= j <= n && j <= |v|
    ensures forall x :: i <= x < j ==> Plain(v[x])
    ensures j < n ==> j == |v| || !Plain(v[j])
    decreases n - i
  {
    if i == n || i == |v| || !Plain(v[i]) then i else FirstEscaped(v, i + 1, n)
  }

  /** A unit that does not end with the value takes the closing quote with it. */
  lemma UnitCutShort(d: Bytes, p: nat, e: nat, w: Bytes, quote: Byte, encoding: Encoding)
    requires Quoted(d, p, e, w, quote) && |w| > 0 && Unit(w[0], encoding) > |w|
    ensures Grown(ReadText(d, p, [quote], encoding), |w|, true)
  {
    FirstByte(d, p, w);
    ReadOne(d, p, quote, encoding);
  }

  /** The first byte of a longer unit is printed as itself. */
  lemma FirstByte(d: Bytes, p: nat, w: Bytes)
    requires |w| > 0 && w[0] >= CONTINUATION && StartsWith(d, p, Encode(w))
    ensures p < |d| && d[p] == w[0]
  {
    EncodeHigh(w, w[0], w[1..], Encode(w[1..]));
    FirstOf(d, p, [w[0]], Encode(w[1..]), w[0]);
  }

  lemma EncodeHigh(w: Bytes, c: Byte, rest: Bytes, after: Bytes)
    requires |w| > 0 && c == w[0] && rest == w[1..] && after == Encode(rest) && c >= CONTINUATION
    ensures Encode(w) == [c] + after
  {
    HighBytePlain(c);
    EncodePlain(w);
  }

  lemma HighBytePlain(c: Byte)
    requires c >= CONTINUATION
    ensures Plain(c)
  {
  }

  lemma FirstOf(d: Bytes, p: nat, first: Bytes, rest: Bytes, c: Byte)
    requires StartsWith(d, p, first + rest) && first == [c]
    ensures p < |d| && d[p] == c
  {
    HasParts(d, p, first, rest);
    HasByte(d, p, first, 0, p, c);
  }

  /** What is printed for a unit up to a byte that is escaped, for that byte, and for the rest. */
  lemma EscapedInside(w: Bytes, j: nat, front: Bytes, text: Bytes, rest: Bytes)
    requires j < |w| && front == w[..j] && rest == w[j + 1..] && text == EncodeByte(w[j])
    requires (forall i :: 0 <= i < j ==> Plain(w[i])) && !HasReference(w)
    ensures Encode(w) == front + (text + Encode(rest)) && !HasReference(rest)
  {
    EncodeRaw(w, j);
    EncodePlain(w[j..]);
    assert w[j..][1..] == rest && w[j..][0] == w[j];
  }

  /** The unit takes the start of what the byte is printed as; the reader goes on in the middle of it. */
  lemma UnitBroken(d: Bytes, p: nat, mid: nat, next: nat, w: Bytes, n: nat, j: nat, text: Bytes, quote: Byte,
                   encoding: Encoding)
    requires (quote == DOUBLE_QUOTE || quote == SINGLE_QUOTE) && p < |d| && d[p] >= CONTINUATION
    requires n == Unit(d[p], encoding) && 1 <= j < n && mid == p + j && next == mid + |text|
    requires |text| >= 4 && StartsWith(d, mid, text) && Ordinary(text[n - j..])
    ensures ReadText(d, p, [quote], encoding).Some? ==>
              && ReadText(d, next, [quote], encoding).Some?
              && |ReadText(d, p, [quote], encoding).value.1|
                 == j + |text| + |ReadText(d, next, [quote], encoding).value.1|
  {
    var k := n - j;
    assert text == text[..k] + text[k..];
    HasParts(d, mid, text[..k], text[k..]);
    ReadOne(d, p, quote, encoding);
    OrdinaryRead(d, p + n, next, text[k..], quote, encoding);
  }

  /** A unit with a byte inside that is escaped comes back with the escape. */
  lemma UnitEscaped(d: Bytes, p: nat, e: nat, w: Bytes, j: nat, quote: Byte, encoding: Encoding)
    returns (next: nat, rest: Bytes)
    requires Quoted(d, p, e, w, quote) && |w| > 0 && !HasReference(w) && 1 <= j < Unit(w[0], encoding)
    requires j < |w| && !Plain(w[j]) && forall i :: 1 <= i < j ==> Plain(w[i])
    ensures |rest| < |w| && !HasReference(rest) && Quoted(d, next, e, rest, quote)
    ensures Grown(ReadText(d, next, [quote], encoding), |rest|, false) ==>
              Grown(ReadText(d, p, [quote], encoding), |w|, true)
  {
    var n, text := Unit(w[0], encoding), EncodeByte(w[j]);
    rest, next := w[j + 1..], p + j + |text|;
    EscapedParts(d, p, p + j, next, e, w, j, text, rest, quote);
    FirstByte(d, p, w);
    EscapedTail(w[j], text);
    OrdinaryRest(text, n - j);
    UnitBroken(d, p, p + j, next, w, n, j, text, quote, encoding);
  }

  lemma EscapedParts(d: Bytes, p: nat, mid: nat, next: nat, e: nat, w: Bytes, j: nat, text: Bytes, rest: Bytes,
                     quote: Byte)
    requires Quoted(d, p, e, w, quote) && !HasReference(w) && j < |w| && forall i :: 0 <= i < j ==> Plain(w[i])
    requires text == EncodeByte(w[j]) && rest == w[j + 1..] && mid == p + j && next == mid + |text|
    ensures StartsWith(d, mid, text) && Quoted(d, next, e, rest, quote) && !HasReference(rest)
  {
    EscapedInside(w, j, w[..j], text, rest);
    MiddlePart(d, p, mid, next, e, w[..j], text, Encode(rest), Encode(w));
  }

  /** Text in three parts: where the second and the third are, and where the third ends. */
  lemma MiddlePart(d: Bytes, p: nat, mid: nat, next: nat, e: nat, a: Bytes, b: Bytes, c: Bytes, all: Bytes)
    requires StartsWith(d, p, all) && all == a + (b + c)
    requires mid == p + |a| && next == mid + |b| && e == p + |all|
    ensures StartsWith(d, mid, b) && StartsWith(d, next, c) && e == next + |c|
  {
    HasParts(d, p, a, b + c);
    HasParts(d, mid, b, c);
  }

  lemma UnitGrown(d: Bytes, p: nat, e: nat, w: Bytes, bytes: Bytes, next: nat, rest: Bytes, quote: Byte,
                  encoding: Encoding, strict: bool)
    requires w == bytes + rest && Advances(d, p, e, bytes, next, rest, quote, encoding)
    requires Grown(ReadText(d, next, [quote], encoding), |rest|, strict)
    ensures Grown(ReadText(d, p, [quote], encoding), |w|, strict)
  {
    ReadOne(d, p, quote, encoding);
  }

  /** A value without a reference never comes back shorter, and comes back longer if it is not whole. */
  lemma {:induction false} ReadsNoLess(d: Bytes, p: nat, e: nat, w: Bytes, quote: Byte, encoding: Encoding)
    requires Quoted(d, p, e, w, quote) && !HasReference(w)
    ensures Grown(ReadText(d, p, [quote], encoding), |w|, !Whole(w, encoding))
    decreases |w|
  {
    if |w| > 0 {
      var j := FirstEscaped(w, 1, Unit(w[0], encoding));
      if j == Unit(w[0], encoding) {
        var bytes, next, rest := UnitAdvances(d, p, e, w, quote, encoding);
        ReadsNoLess(d, next, e, rest, quote, encoding);
        UnitGrown(d, p, e, w, bytes, next, rest, quote, encoding, !Whole(w, encoding));
      } else if j == |w| {
        UnitCutShort(d, p, e, w, quote, encoding);
      } else {
        var next, rest := UnitEscaped(d, p, e, w, j, quote, encoding);
        ReadsNoLess(d, next, e, rest, quote, encoding);
      }
    }
  }

  // ------------------------------------------------ the attribute

  /** A name as the parser understands it, which in UTF-8 does not start with a byte order mark. */
  predicate ValidName(name: Bytes, encoding: Encoding) {
    && |name| > 0 && StartsName(name[0]) && (forall i :: 0 <= i < |name| ==> InName(name[i]))
    && (encoding == Utf8 ==> !MarkAt(name, 0))
  }

  lemma {:induction false} EncodeName(name: Bytes)
    requires forall i :: 0 <= i < |name| ==> InName(name[i])
    ensures Encode(name) == name
    decreases |name|
  {
    if |name| > 0 {
      EncodeName(name[1..]);
      EncodePlain(name);
      assert name == [name[0]] + name[1..];
    }
  }

  /** The name, the equals sign and the opening quote, as the parser meets them. */
  lemma NameParsed(d: Bytes, p: nat, name: Bytes, quote: Byte, encoding: Encoding)
    requires ValidName(name, encoding) && (quote == DOUBLE_QUOTE || quote == SINGLE_QUOTE)
    requires StartsWith(d, p, name + [EQUALS, quote])
    ensures var q := p + |name|;
            && q <= |d| && d[p..q] == name && p < |d|
            && Skip(d, p, encoding) == p && At(d, p) != 0 && StartsName(d[p]) && NameEnd(d, p) == q
            && Skip(d, q, encoding) == q && At(d, q) == EQUALS
            && Skip(d, q + 1, encoding) == q + 1 && At(d, q + 1) == quote
  {
    HasBytes(d, p, name + [EQUALS, quote]);
    HasParts(d, p, name, [EQUALS, quote]);
    var q := p + |name|;
    forall i | p <= i < q ensures At(d, i) == name[i - p] {
      assert At(d, p + (i - p)) == (name + [EQUALS, quote])[i - p];
    }
    assert At(d, p + |name|) == EQUALS && At(d, p + (|name| + 1)) == quote;
    NoMark(d, p, name, encoding);
    NameEndsAt(d, p, q);
  }

  lemma NoMark(d: Bytes, p: nat, name: Bytes, encoding: Encoding)
    requires |name| > 0 && (forall i :: p <= i < p + |name| ==> At(d, i) == name[i - p]) && At(d, p + |name|) == EQUALS
    requires encoding == Utf8 ==> !MarkAt(name, 0)
    ensures encoding == Utf8 ==> !MarkAt(d, p)
  {
    assert At(d, p) == name[0];
    if |name| > 1 { assert At(d, p + 1) == name[1]; }
    if |name| > 2 { assert At(d, p + 2) == name[2]; }
  }

  lemma {:induction false} NameEndsAt(d: Bytes, p: nat, q: nat)
    requires p <= q && (forall i :: p <= i < q ==> InName(At(d, i))) && At(d, q) == EQUALS
    ensures NameEnd(d, p) == q
    decreases q - p
  {
    if p < q {
      NameEndsAt(d, p + 1, q);
    }
  }

  lemma ParseUnfolds(d: Bytes, p: nat, q: nat, v: nat, quote: Byte, encoding: Encoding)
    requires p <= q <= |d| && At(d, p) != 0 && StartsName(d[p]) && NameEnd(d, p) == q && At(d, q) == EQUALS
    requires Skip(d, p, encoding) == p && Skip(d, q, encoding) == q && Skip(d, q + 1, encoding) == q + 1
    requires At(d, q + 1) == quote && (quote == DOUBLE_QUOTE || quote == SINGLE_QUOTE) && v == q + 2
    ensures Parse(d, p, encoding)
            == match ReadText(d, v, [quote], encoding)
               case None => None
               case Some((next, value)) => Some(Attribute(d[p..q], value, next))
  {
    assert ParseValue(d, q + 1, encoding) == ReadText(d, q + 2, [quote], encoding);
  }

  /** Once the name and the opening quote have been read, the outcome is that of the value. */
  lemma ParsedAs(d: Bytes, p: nat, q: nat, v: nat, name: Bytes, quote: Byte, encoding: Encoding)
    requires ValidName(name, encoding) && (quote == DOUBLE_QUOTE || quote == SINGLE_QUOTE)
    requires StartsWith(d, p, name + [EQUALS, quote]) && q == p + |name| && v == q + 2
    ensures Parse(d, p, encoding)
            == match ReadText(d, v, [quote], encoding)
               case None => None
               case Some((next, value)) => Some(Attribute(name, value, next))
  {
    NameParsed(d, p, name, quote, encoding);
    ParseUnfolds(d, p, q, v, quote, encoding);
  }

  /**
   * Wherever a printed attribute stands in a document, parsing it gives the name and the
   * value back and stops right after the closing quote if and only if the text "&#x" does
   * not occur in the value, the value is whole, and the document does not end there. The
   * value is well-formed, or any bytes at all in which that text does not occur.
   */
  lemma AttributeRoundTrip(d: Bytes, p: nat, next: nat, name: Bytes, value: Bytes, encoding: Encoding)
    requires ValidName(name, encoding) && (WellFormed(value, encoding) || !HasReference(value))
    requires StartsWith(d, p, Print(name, value)) && next == p + |Print(name, value)|
    ensures Parse(d, p, encoding) == Some(Attribute(name, value, next)) <==>
            !HasReference(value) && Whole(value, encoding) && At(d, next) != 0
    ensures WellFormed(value, encoding) ==> Whole(value, encoding)
  {
    var quote, q := QuoteFor(value), p + |name|;
    var v, e := q + 2, q + 2 + |Encode(value)|;
    EncodeName(name);
    PrintedParts(d, p, q, v, e, next, name, value, Encode(value), quote);
    ParsedAs(d, p, q, v, name, quote, encoding);
    ValueReads(d, v, e, next, value, quote, encoding);
    if WellFormed(value, encoding) { WellFormedIsWhole(value, encoding); }
  }

  lemma PrintedParts(d: Bytes, p: nat, q: nat, v: nat, e: nat, next: nat, name: Bytes, value: Bytes, text: Bytes,
                     quote: Byte)
    requires q == p + |name| && v == q + 2 && e == v + |text| && next == p + |Print(name, value)|
    requires quote == QuoteFor(value) && Encode(name) == name && text == Encode(value)
             && StartsWith(d, p, Print(name, value))
    ensures StartsWith(d, p, name + [EQUALS, quote])
    ensures Quoted(d, v, e, value, quote) && next == e + 1
  {
    var front := name + [EQUALS, quote];
    Regroup(front, text, [quote]);
    HasThreeParts(d, p, v, e, front, text, quote);
  }

  lemma HasThreeParts(d: Bytes, p: nat, v: nat, e: nat, front: Bytes, text: Bytes, quote: Byte)
    requires StartsWith(d, p, front + (text + [quote])) && v == p + |front| && e == v + |text|
    ensures StartsWith(d, p, front) && StartsWith(d, v, text) && At(d, e) == quote
  {
    HasParts(d, p, front, text + [quote]);
    HasParts(d, p + |front|, text, [quote]);
    HasBytes(d, e, [quote]);
    assert At(d, e + 0) == quote;
  }

  /** Reading the value gives it back exactly under the condition of the theorem. */
  lemma ValueReads(d: Bytes, p: nat, e: nat, next: nat, value: Bytes, quote: Byte, encoding: Encoding)
    requires Quoted(d, p, e, value, quote) && (WellFormed(value, encoding) || !HasReference(value)) && next == e + 1
    ensures ReadText(d, p, [quote], encoding) == Some((next, value)) <==>
            !HasReference(value) && Whole(value, encoding) && At(d, next) != 0
  {
    if HasReference(value) {
      ReadsNoMore(d, p, e, value, quote, encoding);
      NotSame(ReadText(d, p, [quote], encoding), e, next, value);
    } else {
      PlainValueReads(d, p, e, next, value, quote, encoding);
    }
  }

  lemma PlainValueReads(d: Bytes, p: nat, e: nat, next: nat, value: Bytes, quote: Byte, encoding: Encoding)
    requires Quoted(d, p, e, value, quote) && !HasReference(value) && next == e + 1
    ensures ReadText(d, p, [quote], encoding) == Some((next, value)) <==> Whole(value, encoding) && At(d, next) != 0
  {
    if !Whole(value, encoding) {
      ReadsNoLess(d, p, e, value, quote, encoding);
      NotSame(ReadText(d, p, [quote], encoding), e, next, value);
    } else if At(d, next) != 0 {
      ReadsBack(d, p, e, value, quote, encoding);
    } else {
      ReadsForward(d, p, quote, encoding);
    }
  }

  /** A shorter or a longer text is another one. */
  lemma NotSame(r: Character, e: nat, next: nat, value: Bytes)
    requires (Acceptable(r, e, |value|, true) || Grown(r, |value|, true)) && next == e + 1
    ensures r != Some((next, value))
  {
  }

  /** The smallest value that is lost: "&#x;" is printed as it is and read as a single NUL. */
  lemma ReferenceIsLost(d: Bytes, encoding: Encoding)
    requires StartsWith(d, 0, Encode([AMPERSAND, HASH, LOWER_X, SEMICOLON]) + [DOUBLE_QUOTE, SLASH])
    ensures ReadText(d, 0, [DOUBLE_QUOTE], encoding) == Some((5, [0]))
  {
    var value := [AMPERSAND, HASH, LOWER_X, SEMICOLON];
    ReferenceText(value);
    LostReads(d, value + [DOUBLE_QUOTE, SLASH], encoding);
  }

  lemma ReferenceText(value: Bytes)
    requires value == [AMPERSAND, HASH, LOWER_X, SEMICOLON]
    ensures Encode(value) == value
  {
    PassedThrough(value, PassEnd(value, 0));
    assert value[4..] == [] && value[..4] == value;
  }

  lemma LostReads(d: Bytes, text: Bytes, encoding: Encoding)
    requires StartsWith(d, 0, text) && text == [AMPERSAND, HASH, LOWER_X, SEMICOLON, DOUBLE_QUOTE, SLASH]
    ensures ReadText(d, 0, [DOUBLE_QUOTE], encoding) == Some((5, [0]))
  {
    HasByte(d, 0, text, 0, 0, AMPERSAND);
    HasByte(d, 0, text, 1, 1, HASH);
    HasByte(d, 0, text, 2, 2, LOWER_X);
    HasByte(d, 0, text, 3, 3, SEMICOLON);
    HasByte(d, 0, text, 4, 4, DOUBLE_QUOTE);
    HasByte(d, 0, text, 5, 5, SLASH);
    NulRead(d, encoding);
    ReadOne(d, 0, DOUBLE_QUOTE, encoding);
    ReadEnd(d, 4, DOUBLE_QUOTE, encoding);
    assert [0] + [] == [0];
  }

  lemma NulRead(d: Bytes, encoding: Encoding)
    requires |d| > 3 && d[0] == AMPERSAND && d[1] == HASH && d[2] == LOWER_X && d[3] == SEMICOLON
    ensures GetChar(d, 0, encoding) == Some((4, [0]))
  {
    FindsAt(d, 3, 3, SEMICOLON);
    ReferenceRead(d, 0, encoding);
  }

  /**
   * Why the theorem asks for one of the two: the bytes C3 26 23 78 3B hold the text "&#x" and
   * come back all the same, because the ampersand is the second byte of a unit.
   */
  lemma HiddenReference(d: Bytes, value: Bytes)
    requires value == [0xC3, AMPERSAND, HASH, LOWER_X, SEMICOLON]
    requires StartsWith(d, 0, Encode(value) + [DOUBLE_QUOTE, SLASH])
    ensures HasReference(value) && !Whole(value, Utf8)
    ensures ReadText(d, 0, [DOUBLE_QUOTE], Utf8) == Some((6, value))
  {
    var reference := [AMPERSAND, HASH, LOWER_X, SEMICOLON];
    assert value[1..] == reference && value == [0xC3] + reference;
    HighBytePlain(0xC3);
    EncodeRaw(value, 1);
    ReferenceText(reference);
    HiddenReads(d, value + [DOUBLE_QUOTE, SLASH], value);
  }

  lemma HiddenReads(d: Bytes, text: Bytes, value: Bytes)
    requires value == [0xC3, AMPERSAND, HASH, LOWER_X, SEMICOLON] && text == value + [DOUBLE_QUOTE, SLASH]
    requires StartsWith(d, 0, text)
    ensures ReadText(d, 0, [DOUBLE_QUOTE], Utf8) == Some((6, value))
  {
    var unit, rest := [0xC3, AMPERSAND], [HASH, LOWER_X, SEMICOLON];
    assert text == unit + (rest + [DOUBLE_QUOTE, SLASH]);
    HasParts(d, 0, unit, rest + [DOUBLE_QUOTE, SLASH]);
    HasParts(d, 2, rest, [DOUBLE_QUOTE, SLASH]);
    HasByte(d, 0, text, 0, 0, 0xC3);
    HasByte(d, 0, text, 5, 5, DOUBLE_QUOTE);
    HasByte(d, 0, text, 6, 6, SLASH);
    RawRead(d, 0, unit);
    ReadOne(d, 0, DOUBLE_QUOTE, Utf8);
    OrdinaryRead(d, 2, 5, rest, DOUBLE_QUOTE, Utf8);
    ReadEnd(d, 5, DOUBLE_QUOTE, Utf8);
    assert rest + [] == rest && unit + rest == value;
  }
}
