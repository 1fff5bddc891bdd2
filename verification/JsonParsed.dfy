/** What the parser produces can be printed again, and what its surrogate-pair escapes denote. */
module JsonParsed {
  import opened Octets
  import opened JsonTree
  import opened JsonRoundTrip

  /** Integers that fit 64 bits, and no fraction or exponent: trees the integer printer covers. */
  ghost predicate InRange(j: Json) {
    match j
    case Int(value, _) => -INT64_LIMIT < value < INT64_LIMIT
    case Dec(_, _) => false
    case Arr(items) => ItemsInRange(items)
    case Obj(fields) => FieldsInRange(fields)
    case _ => true
  }

  ghost predicate ItemsInRange(items: Items) {
    items.Items? ==> InRange(items.head) && ItemsInRange(items.tail)
  }

  ghost predicate FieldsInRange(fields: Fields) {
    fields.Fields? ==> InRange(fields.head) && FieldsInRange(fields.tail)
  }

  lemma {:induction false} SkipNoNul(s: Bytes)
    requires NoNul(s)
    ensures NoNul(Skip(s))
    decreases |s|
  {
    if s != [] && 0 < s[0] <= 32 {
      SkipNoNul(s[1..]);
    }
  }

  lemma {:induction false} DigitsNoNul(s: Bytes, acc: nat)
    requires NoNul(s)
    ensures NoNul(Digits(s, acc).rest)
    decreases |s|
  {
    if IsDigit(Head(s)) {
      DigitsNoNul(s[1..], acc * 10 + (s[0] as int - 48));
    }
  }

  lemma WholeNoNul(s: Bytes)
    requires NoNul(s)
    ensures NoNul(ParseWhole(s).rest)
  {
    var t := if Head(s) == ZERO then s[1..] else s;
    DigitsNoNul(t, 0);
  }

  lemma NumberNoNul(s: Bytes)
    requires NoNul(s) && (Head(s) == MINUS || IsDigit(Head(s)))
    ensures NoNul(ParseNumber(s).rest)
  {
    var t := if Head(s) == MINUS then s[1..] else s;
    var whole := ParseWhole(t);
    WholeNoNul(t);
    if HasFraction(whole.rest) {
      DigitsNoNul(whole.rest[1..], whole.value);
    }
    ExponentNoNul(ParseMantissa(t).rest);
  }

  lemma ExponentNoNul(s: Bytes)
    requires NoNul(s)
    ensures NoNul(ParseExponent(s).rest)
  {
    if Head(s) == LOWER_E || Head(s) == UPPER_E {
      var t := s[1..];
      DigitsNoNul(if Head(t) == PLUS || Head(t) == MINUS then t[1..] else t, 0);
    }
  }

  lemma Utf8NoNul(uc: nat)
    requires 0 < uc < 0x20_0000
    ensures NoNul(Utf8(uc))
  {
  }

  lemma EscapeNoNul(s: Bytes)
    requires s != [] && NoNul(s) && DecodeEscape(s).Escaped?
    ensures NoNul(DecodeEscape(s).octets)
  {
    if s[1] == LOWER_U {
      var uc := ReadHex4(s[2..]);
      if !IsLow(uc) && uc != 0 && !IsHigh(uc) {
        Utf8NoNul(uc);
      } else if IsHigh(uc) && DecodeEscape(s).length == 12 && IsLow(ReadHex4(s[8..])) {
        Utf8NoNul(CombineSurrogates(uc, ReadHex4(s[8..])));
      }
    }
  }

  lemma {:induction false} UnescapeNoNul(s: Bytes)
    requires NoNul(s) && Unescape(s).Ok?
    ensures NoNul(Unescape(s).value) && NoNul(Unescape(s).rest)
    decreases |s|
  {
    if s != [] && s[0] != QUOTE {
      if s[0] == BACKSLASH {
        EscapeNoNul(s);
        UnescapeNoNul(s[DecodeEscape(s).length..]);
      } else {
        UnescapeNoNul(s[1..]);
      }
    }
  }

  lemma {:induction false} ValuePrintable(s: Bytes)
    requires NoNul(s) && ParseValue(s).Ok?
    ensures NoNul(ParseValue(s).rest)
    ensures InRange(ParseValue(s).value) ==> Printable(ParseValue(s).value)
    decreases |s|, 0
  {
    if HasPrefix(s, NULL_TEXT) || HasPrefix(s, FALSE_TEXT) || HasPrefix(s, TRUE_TEXT) {
    } else if Head(s) == QUOTE {
      UnescapeNoNul(s[1..]);
    } else if Head(s) == MINUS || IsDigit(Head(s)) {
      NumberNoNul(s);
    } else if Head(s) == LBRACKET {
      SkipNoNul(s[1..]);
      if Head(Skip(s[1..])) != RBRACKET {
        ItemsPrintable(Skip(s[1..]));
      }
    } else {
      SkipNoNul(s[1..]);
      if Head(Skip(s[1..])) != RBRACE {
        FieldsPrintable(Skip(s[1..]));
      }
    }
  }

  lemma {:induction false} ItemsPrintable(s: Bytes)
    requires NoNul(s) && ParseItems(s).Ok?
    ensures NoNul(ParseItems(s).rest)
    ensures ItemsInRange(ParseItems(s).value) ==> PrintableItems(ParseItems(s).value)
    decreases |s|, 1
  {
    SkipNoNul(s);
    ValuePrintable(Skip(s));
    var t := ParseValue(Skip(s)).rest;
    SkipNoNul(t);
    if Head(Skip(t)) == COMMA {
      ItemsPrintable(Skip(t)[1..]);
    }
  }

  lemma {:induction false} FieldsPrintable(s: Bytes)
    requires NoNul(s) && ParseFields(s).Ok?
    ensures NoNul(ParseFields(s).rest)
    ensures FieldsInRange(ParseFields(s).value) ==> PrintableFields(ParseFields(s).value)
    decreases |s|, 1
  {
    SkipNoNul(s);
    UnescapeNoNul(Skip(s)[1..]);
    var t := ParseString(Skip(s)).rest;
    SkipNoNul(t);
    SkipNoNul(Skip(t)[1..]);
    ValuePrintable(Skip(Skip(t)[1..]));
    var u := ParseValue(Skip(Skip(t)[1..])).rest;
    SkipNoNul(u);
    if Head(Skip(u)) == COMMA {
      FieldsPrintable(Skip(u)[1..]);
    }
  }

  /**
   Any text the parser accepts, however it was written, has a printed form, and reading that form gives
   the same tree: parsing followed by printing normalizes.
   */
  lemma AcceptedTextNormalizes(text: Bytes, fmt: bool)
    requires NoNul(text) && Parse(text).Ok? && InRange(Parse(text).value)
    ensures Printable(Parse(text).value)
    ensures Parse(PrintValue(Parse(text).value, 0, fmt)) == Ok(Canonical(Parse(text).value), [])
  {
    SkipNoNul(text);
    ValuePrintable(Skip(text));
    ParseUndoesPrint(Parse(text).value, fmt);
  }

  // ---------------------------------------------------------------- surrogate pairs

  /** The code point a surrogate pair denotes (section 7 of RFC 8259). */
  function PairCodePoint(high: nat, low: nat): nat
    requires IsHigh(high) && IsLow(low)
  {
    0x1_0000 + (high - 0xD800) * 1024 + (low - 0xDC00)
  }

  /** The parser's combination is that code point exactly when bit 6 of the high half is clear. */
  lemma PairsDecodeExactly(high: nat, low: nat)
    requires IsHigh(high) && IsLow(low)
    ensures CombineSurrogates(high, low) == PairCodePoint(high, low) <==> high / 64 % 2 == 0
  {
    var h, l := high - 0xD800, low - 0xDC00;
    var bits := h * 1024 + l;
    assert bits / 1024 == h;
    assert bits / 0x1_0000 == bits / 1024 / 64 == h / 64;
    assert high / 64 == h / 64 + 864;
  }

  /** The literal of the pair for U+20000, the first character to come out wrong. */
  const PAIR_LITERAL: Bytes := [QUOTE, BACKSLASH, LOWER_U, 100, 56, 52, 48, BACKSLASH, LOWER_U, 100, 99, 48, 48, QUOTE]

  /** It is read as the string of U+10000. */
  lemma PairDecodesWrongly()
    ensures PairCodePoint(0xD840, 0xDC00) == 0x2_0000
    ensures ParseString(PAIR_LITERAL) == Ok(Utf8(0x1_0000), [])
    ensures Utf8(0x1_0000) != Utf8(0x2_0000)
  {
    var s := PAIR_LITERAL[1..];
    PairEscape(s);
    assert s[12..] == [QUOTE] && [QUOTE][1..] == [];
    assert Unescape(s[12..]) == Ok([], []);
    assert Unescape(s) == Ok(Utf8(0x1_0000) + [], []);
    assert Utf8(0x1_0000) + [] == Utf8(0x1_0000);
    assert Utf8(0x1_0000)[1] != Utf8(0x2_0000)[1];
  }

  lemma PairEscape(s: Bytes)
    requires s == PAIR_LITERAL[1..]
    ensures DecodeEscape(s) == Escaped(Utf8(0x1_0000), 12)
  {
    var first, second := s[2..], s[8..];
    assert first[..4] == [100, 56, 52, 48] && second[..4] == [100, 99, 48, 48];
    assert IsHex4(first) && ReadHex4(first) == 0xD840;
    assert IsHex4(second) && ReadHex4(second) == 0xDC00;
    assert s[6..][..2] == [BACKSLASH, LOWER_U];
  }
}
