/**
 The parser as it runs: positions moving over a text, a string buffer sized by a first scan, lists grown at the end.
 */
module JsonReader {
  import opened Basics
  import opened Octets
  import opened JsonTree

  /** The octet at a position, or the terminating NUL. */
  function At(text: Bytes, pos: nat): byte
    requires pos <= |text|
  {
    if pos < |text| then text[pos] else 0
  }

  lemma Advance(text: Bytes, pos: nat, n: nat)
    requires pos + n <= |text|
    ensures text[pos..][n..] == text[pos + n..]
  {
  }

  method SkipAt(text: Bytes, pos: nat) returns (next: nat)
    requires pos <= |text|
    ensures pos <= next <= |text| && text[next..] == Skip(text[pos..])
  {
    next := pos;
    while At(text, next) != 0 && At(text, next) <= 32
      invariant pos <= next <= |text| && Skip(text[next..]) == Skip(text[pos..])
      decreases |text| - next
    {
      Advance(text, next, 1);
      next := next + 1;
    }
  }

  // ---------------------------------------------------------------- numbers

  method DigitsAt(text: Bytes, pos: nat, acc: nat) returns (n: nat, next: nat)
    requires pos <= |text|
    ensures pos <= next <= |text| && Scan(n, text[next..]) == Digits(text[pos..], acc)
  {
    n, next := acc, pos;
    while IsDigit(At(text, next))
      invariant pos <= next <= |text| && Digits(text[next..], n) == Digits(text[pos..], acc)
      decreases |text| - next
    {
      Advance(text, next, 1);
      n := n * 10 + (text[next] as int - 48);
      next := next + 1;
    }
  }

  method WholeAt(text: Bytes, pos: nat) returns (n: nat, next: nat)
    requires pos <= |text|
    ensures pos <= next <= |text| && Scan(n, text[next..]) == ParseWhole(text[pos..])
  {
    n, next := 0, pos;
    if At(text, next) == ZERO {
      Advance(text, next, 1);
      next := next + 1;
    }
    if 49 <= At(text, next) <= 57 {
      n, next := DigitsAt(text, next, 0);
    }
  }

  method ExponentAt(text: Bytes, pos: nat) returns (power: int, next: nat)
    requires pos <= |text|
    ensures pos <= next <= |text| && Exponent(power, text[next..]) == ParseExponent(text[pos..])
  {
    power, next := 0, pos;
    if At(text, pos) != LOWER_E && At(text, pos) != UPPER_E {
      return;
    }
    Advance(text, pos, 1);
    next := pos + 1;
    var negative := At(text, next) == MINUS;
    if At(text, next) == PLUS || negative {
      Advance(text, next, 1);
      next := next + 1;
    }
    var subscale;
    subscale, next := DigitsAt(text, next, 0);
    power := Negate(negative, subscale);
  }

  method MantissaAt(text: Bytes, pos: nat) returns (n: nat, scale: int, next: nat)
    requires pos <= |text|
    ensures pos <= next <= |text| && Mantissa(n, scale, text[next..]) == ParseMantissa(text[pos..])
  {
    n, next := WholeAt(text, pos);
    scale := 0;
    if At(text, next) == DOT && IsDigit(At(text, next + 1)) {
      Advance(text, next, 1);
      var start := next + 1;
      n, next := DigitsAt(text, start, n);
      scale := start as int - next as int;
    }
  }

  method NumberAt(text: Bytes, pos: nat) returns (item: Json, next: nat)
    requires pos < |text| && (text[pos] == MINUS || IsDigit(text[pos]))
    ensures pos < next <= |text| && Ok(item, text[next..]) == ParseNumber(text[pos..])
  {
    var p, negative := pos, false;
    if At(text, p) == MINUS {
      Advance(text, p, 1);
      negative, p := true, p + 1;
    }
    var n, scale, power;
    n, scale, p := MantissaAt(text, p);
    power, next := ExponentAt(text, p);
    item := NumberItem(negative, n, scale, power);
  }

  // ---------------------------------------------------------------- strings

  /** What the first scan of a string literal counts: one for each character or pair behind a backslash. */
  function ScanLength(s: Bytes): nat
    decreases |s|
  {
    if s == [] || s[0] == QUOTE then 0
    else 1 + ScanLength(s[if s[0] == BACKSLASH && |s| > 1 then 2 else 1..])
  }

  /** Plain characters count one each. */
  lemma {:induction false} ScanPlain(s: Bytes, n: nat)
    requires n <= |s|
    requires forall i :: 0 <= i < n ==> s[i] != QUOTE && s[i] != BACKSLASH
    ensures ScanLength(s) == n + ScanLength(s[n..])
    decreases n
  {
    if n > 0 {
      ScanPlain(s[1..], n - 1);
      assert s[1..][n - 1..] == s[n..];
    } else {
      assert s[0..] == s;
    }
  }

  lemma ScanHex(s: Bytes)
    requires IsHex4(s)
    ensures ScanLength(s) == 4 + ScanLength(s[4..])
  {
    ScanPlain(s, 4);
  }

  /** Every escape decodes to no more octets than the scan counted for it. */
  lemma EscapeFits(s: Bytes)
    requires s != [] && s[0] == BACKSLASH && DecodeEscape(s).Escaped?
    ensures var e := DecodeEscape(s);
            |e.octets| + ScanLength(s[e.length..]) <= ScanLength(s)
  {
    assert ScanLength(s) == 1 + ScanLength(s[2..]);
    if s[1] == LOWER_U {
      UnicodeFits(s);
    } else {
      assert DecodeEscape(s).length == 2 && |DecodeEscape(s).octets| == 1;
    }
  }

  lemma UnicodeFits(s: Bytes)
    requires |s| >= 2 && DecodeUnicode(s).Escaped?
    ensures var e := DecodeUnicode(s);
            |e.octets| + ScanLength(s[e.length..]) <= 1 + ScanLength(s[2..])
  {
    ScanHex(s[2..]);
    assert s[2..][4..] == s[6..];
    if DecodeUnicode(s).length == 12 {
      ScanPair(s);
    }
  }

  /** The second half of a pair counts five: one for its backslash and `u`, four for its digits. */
  lemma ScanPair(s: Bytes)
    requires |s| >= 8 && HasPrefix(s[6..], [BACKSLASH, LOWER_U]) && IsHex4(s[8..])
    ensures ScanLength(s[6..]) == 5 + ScanLength(s[12..])
  {
    var t := s[6..];
    assert t[0] == t[..2][0] == BACKSLASH;
    assert t[2..] == s[8..];
    ScanHex(s[8..]);
    assert s[8..][4..] == s[12..];
  }

  ghost function Prepend(front: Bytes, r: Parsed<Bytes>): Parsed<Bytes> {
    if r.Fail? then Fail else Ok(front + r.value, r.rest)
  }

  /** The decoded text is never longer than the buffer the first scan asks for. */
  lemma {:induction false} DecodedFits(s: Bytes)
    requires Unescape(s).Ok?
    ensures |Unescape(s).value| <= ScanLength(s)
    decreases |s|
  {
    if s != [] && s[0] != QUOTE {
      if s[0] == BACKSLASH {
        EscapeFits(s);
        DecodedFits(s[DecodeEscape(s).length..]);
      } else {
        DecodedFits(s[1..]);
      }
    }
  }

  /** Writes the low six bits of a code point as a continuation octet and drops them. */
  method PutContinuation(out: array<byte>, at: nat, uc: nat) returns (u: nat)
    requires at < out.Length
    modifies out
    ensures out[at] == 0x80 + uc % 64 && u == uc / 64
    ensures forall i :: 0 <= i < out.Length && i != at ==> out[i] == old(out[i])
  {
    out[at] := 0x80 + uc % 64;
    u := uc / 64;
  }

  /** Writes a code point as UTF-8, last octet first. */
  method WriteUtf8(out: array<byte>, at: nat, uc: nat) returns (end: nat)
    requires uc < 0x20_0000 && at + |Utf8(uc)| <= out.Length
    modifies out
    ensures end == at + |Utf8(uc)| <= out.Length
    ensures out[..end] == old(out[..at]) + Utf8(uc)
  {
    var len := if uc < 0x80 then 1 else if uc < 0x800 then 2 else if uc < 0x1_0000 then 3 else 4;
    end := at + len;
    var p, u := end, uc;
    assert uc / 64 / 64 == uc / 4096 && uc / 4096 / 64 == uc / 262144;
    if len == 4 {
      p := p - 1;
      u := PutContinuation(out, p, u);
    }
    if len >= 3 {
      p := p - 1;
      u := PutContinuation(out, p, u);
    }
    if len >= 2 {
      p := p - 1;
      u := PutContinuation(out, p, u);
    }
    out[at] := (if len == 1 then 0 else if len == 2 then 0xC0 else if len == 3 then 0xE0 else 0xF0) + u;
    forall i | 0 <= i < len ensures out[at + i] == Utf8(uc)[i] {
    }
    assert out[..end] == old(out[..at]) + Utf8(uc);
  }

  /** The octets a text holds before the write position, after one more octet. */
  method Put(out: array<byte>, at: nat, c: byte)
    requires at < out.Length
    modifies out
    ensures out[..at + 1] == old(out[..at]) + [c]
  {
    out[at] := c;
  }

  /** One escape of a literal, decoded into the buffer. */
  method EscapeAt(text: Bytes, pos: nat, out: array<byte>, at: nat) returns (ok: bool, next: nat, end: nat)
    requires pos < |text| && text[pos] == BACKSLASH
    requires at + ScanLength(text[pos..]) < out.Length
    modifies out
    ensures ok == DecodeEscape(text[pos..]).Escaped?
    ensures ok ==> var e := DecodeEscape(text[pos..]);
                   && next == pos + e.length <= |text|
                   && end == at + |e.octets| <= out.Length
                   && out[..end] == old(out[..at]) + e.octets
  {
    var s := text[pos..];
    ok, next, end := true, pos + 2, at + 1;
    if |text| < pos + 2 {
      return false, pos, at;
    }
    if s[1] == LOWER_B {
      Put(out, at, BACKSPACE);
    } else if s[1] == LOWER_F {
      Put(out, at, FORMFEED);
    } else if s[1] == LOWER_N {
      Put(out, at, NEWLINE);
    } else if s[1] == LOWER_R {
      Put(out, at, RETURN);
    } else if s[1] == LOWER_T {
      Put(out, at, TAB);
    } else if s[1] == LOWER_U {
      ok, next, end := UnicodeAt(text, pos, out, at);
    } else {
      Put(out, at, s[1]);
    }
  }

  /** A `\u` escape, with the second half of a surrogate pair where there is one. */
  method UnicodeAt(text: Bytes, pos: nat, out: array<byte>, at: nat) returns (ok: bool, next: nat, end: nat)
    requires pos + 2 <= |text| && text[pos] == BACKSLASH && text[pos + 1] == LOWER_U
    requires at + ScanLength(text[pos..]) < out.Length
    modifies out
    ensures ok == DecodeUnicode(text[pos..]).Escaped?
    ensures ok ==> var e := DecodeUnicode(text[pos..]);
                   && next == pos + e.length <= |text|
                   && end == at + |e.octets| <= out.Length
                   && out[..end] == old(out[..at]) + e.octets
  {
    var s := text[pos..];
    assert s[1] == LOWER_U;
    if DecodeUnicode(s).Escaped? {
      EscapeFits(s);
    }
    ok, next, end := true, pos + 6, at;
    if !IsHex4(s[2..]) {
      return false, pos, at;
    }
    var uc := ReadHex4(s[2..]);
    if IsLow(uc) || uc == 0 {
      return;
    }
    if IsHigh(uc) {
      if !HasPrefix(s[6..], [BACKSLASH, LOWER_U]) {
        return;
      }
      if !IsHex4(s[8..]) {
        return false, pos, at;
      }
      next := pos + 12;
      var uc2 := ReadHex4(s[8..]);
      if !IsLow(uc2) {
        return;
      }
      uc := CombineSurrogates(uc, uc2);
    }
    end := WriteUtf8(out, at, uc);
  }

  /** One character or escape of a literal. */
  method CharacterAt(text: Bytes, pos: nat, out: array<byte>, at: nat) returns (ok: bool, next: nat, end: nat)
    requires pos < |text| && text[pos] != QUOTE
    requires at + ScanLength(text[pos..]) < out.Length
    modifies out
    ensures !ok ==> Unescape(text[pos..]) == Fail
    ensures ok ==> && pos < next <= |text|
                   && end + ScanLength(text[next..]) <= at + ScanLength(text[pos..])
                   && Prepend(out[..end], Unescape(text[next..])) == Prepend(old(out[..at]), Unescape(text[pos..]))
  {
    if text[pos] != BACKSLASH {
      PlainMoves(out[..at], text, pos);
      Put(out, at, text[pos]);
      return true, pos + 1, at + 1;
    }
    ghost var front := out[..at];
    ok, next, end := EscapeAt(text, pos, out, at);
    if ok {
      EscapeMoves(text, pos, front, next, out[..end]);
    } else {
      MalformedFails(text[pos..]);
    }
  }

  lemma MalformedFails(s: Bytes)
    requires s != [] && s[0] == BACKSLASH && DecodeEscape(s).Malformed?
    ensures Unescape(s) == Fail
  {
  }

  /** Reading a plain character moves it from the text to the buffer. */
  lemma PlainMoves(front: Bytes, text: Bytes, pos: nat)
    requires pos < |text| && text[pos] != QUOTE && text[pos] != BACKSLASH
    ensures 1 + ScanLength(text[pos + 1..]) == ScanLength(text[pos..])
    ensures Prepend(front + [text[pos]], Unescape(text[pos + 1..])) == Prepend(front, Unescape(text[pos..]))
  {
    Advance(text, pos, 1);
    PrependPlain(front, text[pos..]);
  }

  /** So does reading an escape, as what it denotes. */
  lemma EscapeMoves(text: Bytes, pos: nat, front: Bytes, next: nat, after: Bytes)
    requires pos < |text| && text[pos] == BACKSLASH && DecodeEscape(text[pos..]).Escaped?
    requires next == pos + DecodeEscape(text[pos..]).length && after == front + DecodeEscape(text[pos..]).octets
    ensures |after| + ScanLength(text[next..]) <= |front| + ScanLength(text[pos..])
    ensures Prepend(after, Unescape(text[next..])) == Prepend(front, Unescape(text[pos..]))
  {
    var s, e := text[pos..], DecodeEscape(text[pos..]);
    Advance(text, pos, e.length);
    assert s[e.length..] == text[next..];
    PrependEscape(front, s, e);
    EscapeFits(s);
  }

  /** The first scan: how long a buffer the literal needs. */
  method ScanAt(text: Bytes, pos: nat) returns (len: nat)
    requires pos <= |text|
    ensures len == ScanLength(text[pos..])
  {
    len := 0;
    var p := pos;
    while p < |text| && text[p] != QUOTE
      invariant pos <= p <= |text| && len + ScanLength(text[p..]) == ScanLength(text[pos..])
    {
      len := len + 1;
      if text[p] == BACKSLASH && p + 1 < |text| {
        Advance(text, p, 2);
        p := p + 2;
      } else {
        Advance(text, p, 1);
        p := p + 1;
      }
    }
  }

  method StringAt(text: Bytes, pos: nat) returns (ok: bool, value: Bytes, next: nat)
    requires pos <= |text|
    ensures match ParseString(text[pos..])
            case Fail => !ok
            case Ok(v, rest) => ok && value == v && pos < next <= |text| && text[next..] == rest
  {
    value, next := [], pos;
    if At(text, pos) != QUOTE {
      return false, [], pos;
    }
    Advance(text, pos, 1);
    var len := ScanAt(text, pos + 1);
    var out := new byte[len + 1];
    ghost var whole := Unescape(text[pos + 1..]);
    assert out[..0] == [] && (whole.Ok? ==> [] + whole.value == whole.value);
    var k: nat := 0;
    ok, next := true, pos + 1;
    while next < |text| && text[next] != QUOTE
      invariant pos < next <= |text| && k + ScanLength(text[next..]) <= len
      invariant whole == Prepend(out[..k], Unescape(text[next..]))
      decreases |text| - next
    {
      ok, next, k := CharacterAt(text, next, out, k);
      if !ok {
        return;
      }
    }
    out[k] := 0;
    ok, value := true, out[..k];
    assert value + [] == value;
    if next < |text| {
      Advance(text, next, 1);
      next := next + 1;
    }
  }

  lemma PrependPlain(front: Bytes, s: Bytes)
    requires s != [] && s[0] != QUOTE && s[0] != BACKSLASH
    ensures Prepend(front, Unescape(s)) == Prepend(front + [s[0]], Unescape(s[1..]))
  {
    if Unescape(s[1..]).Ok? {
      Assoc(front, [s[0]], Unescape(s[1..]).value);
    }
  }

  lemma PrependEscape(front: Bytes, s: Bytes, e: Escaped)
    requires s != [] && s[0] == BACKSLASH && DecodeEscape(s) == e && e.Escaped?
    ensures Prepend(front, Unescape(s)) == Prepend(front + e.octets, Unescape(s[e.length..]))
  {
    if Unescape(s[e.length..]).Ok? {
      Assoc(front, e.octets, Unescape(s[e.length..]).value);
    }
  }

  // ---------------------------------------------------------------- values

  function ToItems(values: seq<Json>, tail: Items): Items {
    if values == [] then tail else Items(values[0], ToItems(values[1..], tail))
  }

  /** What follows an element: a comma and more elements, or the end of the array. */
  function ItemsTail(s: Bytes): Parsed<Items> {
    if Head(s) == COMMA then ParseItems(s[1..])
    else if Head(s) == RBRACKET then Ok(NoItems, s[1..])
    else Fail
  }

  ghost function ThenItems(values: seq<Json>, r: Parsed<Items>): Parsed<Items> {
    if r.Fail? then Fail else Ok(ToItems(values, r.value), r.rest)
  }

  lemma {:induction false} ToItemsSnoc(values: seq<Json>, v: Json, tail: Items)
    ensures ToItems(values + [v], tail) == ToItems(values, Items(v, tail))
    decreases |values|
  {
    if values == [] {
      assert ([] + [v])[1..] == [];
    } else {
      assert (values + [v])[1..] == values[1..] + [v];
      ToItemsSnoc(values[1..], v, tail);
    }
  }

  /** An element with the white space around it. */
  function ParseItem(s: Bytes): (r: Parsed<Json>)
    ensures r.Ok? ==> |r.rest| < |s|
  {
    var v := ParseValue(Skip(s));
    if v.Fail? then Fail else Ok(v.value, Skip(v.rest))
  }

  /** Reading one more element moves it from the text to the list. */
  lemma ItemMoves(values: seq<Json>, s: Bytes)
    ensures match ParseItem(s)
            case Fail => ThenItems(values, ParseItems(s)) == Fail
            case Ok(v, rest) => ThenItems(values, ParseItems(s)) == ThenItems(values + [v], ItemsTail(rest))
  {
    var v := ParseItem(s);
    if v.Ok? && ItemsTail(v.rest).Ok? {
      ToItemsSnoc(values, v.value, ItemsTail(v.rest).value);
    }
  }

  method ValueAt(text: Bytes, pos: nat) returns (ok: bool, item: Json, next: nat)
    requires pos <= |text|
    ensures match ParseValue(text[pos..])
            case Fail => !ok
            case Ok(v, rest) => ok && item == v && pos < next <= |text| && text[next..] == rest
    decreases |text| - pos, 1
  {
    var s := text[pos..];
    ok, item, next := true, Null, pos;
    if HasPrefix(s, NULL_TEXT) {
      next := pos + 4;
    } else if HasPrefix(s, FALSE_TEXT) {
      item, next := Bool(false), pos + 5;
    } else if HasPrefix(s, TRUE_TEXT) {
      item, next := Bool(true), pos + 4;
    } else if At(text, pos) == QUOTE {
      var value;
      ok, value, next := StringAt(text, pos);
      item := Str(value);
    } else if At(text, pos) == MINUS || IsDigit(At(text, pos)) {
      item, next := NumberAt(text, pos);
    } else if At(text, pos) == LBRACKET {
      ok, item, next := ArrayAt(text, pos);
    } else if At(text, pos) == LBRACE {
      ok, item, next := ObjectAt(text, pos);
    } else {
      ok := false;
    }
  }

  method ItemAt(text: Bytes, pos: nat) returns (ok: bool, v: Json, next: nat)
    requires pos <= |text|
    ensures match ParseItem(text[pos..])
            case Fail => !ok
            case Ok(item, rest) => ok && v == item && pos < next <= |text| && text[next..] == rest
    decreases |text| - pos, 2
  {
    var p := SkipAt(text, pos);
    ok, v, next := ValueAt(text, p);
    if ok {
      next := SkipAt(text, next);
    }
  }

  /** Reads one element and appends it to those already read. */
  method AppendItem(text: Bytes, pos: nat, values: seq<Json>) returns (ok: bool, longer: seq<Json>, next: nat)
    requires pos <= |text|
    ensures !ok ==> ThenItems(values, ParseItems(text[pos..])) == Fail
    ensures ok ==> && pos < next <= |text|
                   && ThenItems(values, ParseItems(text[pos..])) == ThenItems(longer, ItemsTail(text[next..]))
    decreases |text| - pos, 3
  {
    ItemMoves(values, text[pos..]);
    var v;
    ok, v, next := ItemAt(text, pos);
    longer := values + [v];
  }

  method ItemAfterComma(text: Bytes, pos: nat, values: seq<Json>) returns (ok: bool, longer: seq<Json>, next: nat)
    requires pos < |text| && text[pos] == COMMA
    ensures !ok ==> ThenItems(values, ItemsTail(text[pos..])) == Fail
    ensures ok ==> && pos < next <= |text|
                   && ThenItems(values, ItemsTail(text[pos..])) == ThenItems(longer, ItemsTail(text[next..]))
    decreases |text| - pos, 0
  {
    Advance(text, pos, 1);
    ok, longer, next := AppendItem(text, pos + 1, values);
  }

  /** All elements of a non-empty array, each appended behind the last, and the closing bracket. */
  method ItemsAt(text: Bytes, pos: nat) returns (ok: bool, values: seq<Json>, next: nat)
    requires pos <= |text|
    ensures match ParseItems(text[pos..])
            case Fail => !ok
            case Ok(items, rest) =>
              ok && ToItems(values, NoItems) == items && pos < next <= |text| && text[next..] == rest
    decreases |text| - pos, 4
  {
    ghost var whole := ThenItems([], ParseItems(text[pos..]));
    ok, values, next := AppendItem(text, pos, []);
    while ok && At(text, next) == COMMA
      invariant ok ==> pos < next <= |text| && whole == ThenItems(values, ItemsTail(text[next..]))
      invariant !ok ==> whole == Fail
      decreases ok, |text| - next
    {
      ok, values, next := ItemAfterComma(text, next, values);
    }
    if ok {
      ok := At(text, next) == RBRACKET;
      if ok {
        Advance(text, next, 1);
        next := next + 1;
      }
    }
  }

  method ArrayAt(text: Bytes, pos: nat) returns (ok: bool, item: Json, next: nat)
    requires pos < |text| && text[pos] == LBRACKET
    ensures match ParseArray(text[pos..])
            case Fail => !ok
            case Ok(v, rest) => ok && item == v && pos < next <= |text| && text[next..] == rest
    decreases |text| - pos, 0
  {
    Advance(text, pos, 1);
    var p := SkipAt(text, pos + 1);
    if At(text, p) == RBRACKET {
      Advance(text, p, 1);
      return true, Arr(NoItems), p + 1;
    }
    var values;
    ok, values, next := ItemsAt(text, p);
    item := Arr(ToItems(values, NoItems));
  }

  /** Names and values read so far, in order. */
  datatype Entry = Entry(name: Bytes, value: Json)

  function ToFields(entries: seq<Entry>, tail: Fields): Fields {
    if entries == [] then tail else Fields(entries[0].name, entries[0].value, ToFields(entries[1..], tail))
  }

  function FieldsTail(s: Bytes): Parsed<Fields> {
    if Head(s) == COMMA then ParseFields(s[1..])
    else if Head(s) == RBRACE then Ok(NoFields, s[1..])
    else Fail
  }

  ghost function ThenFields(entries: seq<Entry>, r: Parsed<Fields>): Parsed<Fields> {
    if r.Fail? then Fail else Ok(ToFields(entries, r.value), r.rest)
  }

  /** One member with the white space around it. */
  function ParseEntry(s: Bytes): (r: Parsed<Entry>)
    ensures r.Ok? ==> |r.rest| < |s|
  {
    var name := ParseString(Skip(s));
    if name.Fail? || Head(Skip(name.rest)) != COLON then Fail
    else
      var v := ParseItem(Skip(name.rest)[1..]);
      if v.Fail? then Fail else Ok(Entry(name.value, v.value), v.rest)
  }

  lemma {:induction false} ToFieldsSnoc(entries: seq<Entry>, e: Entry, tail: Fields)
    ensures ToFields(entries + [e], tail) == ToFields(entries, Fields(e.name, e.value, tail))
    decreases |entries|
  {
    if entries == [] {
      assert ([] + [e])[1..] == [];
    } else {
      assert (entries + [e])[1..] == entries[1..] + [e];
      ToFieldsSnoc(entries[1..], e, tail);
    }
  }

  lemma EntryMoves(entries: seq<Entry>, s: Bytes)
    ensures match ParseEntry(s)
            case Fail => ThenFields(entries, ParseFields(s)) == Fail
            case Ok(e, rest) => ThenFields(entries, ParseFields(s)) == ThenFields(entries + [e], FieldsTail(rest))
  {
    var e := ParseEntry(s);
    if e.Ok? && FieldsTail(e.rest).Ok? {
      ToFieldsSnoc(entries, e.value, FieldsTail(e.rest).value);
    }
  }

  /** A member's name and the colon behind it. */
  method NameAt(text: Bytes, pos: nat) returns (ok: bool, name: Bytes, next: nat)
    requires pos <= |text|
    ensures var n := ParseString(Skip(text[pos..]));
            && ok == (n.Ok? && Head(Skip(n.rest)) == COLON)
            && (ok ==> name == n.value && pos < next <= |text| && text[next..] == Skip(n.rest)[1..])
  {
    var p := SkipAt(text, pos);
    ok, name, next := StringAt(text, p);
    if !ok {
      return;
    }
    p := SkipAt(text, next);
    if At(text, p) != COLON {
      return false, [], next;
    }
    Advance(text, p, 1);
    next := p + 1;
  }

  /** Name, colon and value of one member, with the white space behind it. */
  method EntryAt(text: Bytes, pos: nat) returns (ok: bool, entry: Entry, next: nat)
    requires pos <= |text|
    ensures match ParseEntry(text[pos..])
            case Fail => !ok
            case Ok(e, rest) => ok && entry == e && pos < next <= |text| && text[next..] == rest
    decreases |text| - pos, 2
  {
    entry := Entry([], Null);
    var name;
    ok, name, next := NameAt(text, pos);
    if ok {
      var value;
      ok, value, next := ItemAt(text, next);
      entry := Entry(name, value);
    }
  }

  /** Reads one member and appends it to those already read. */
  method AppendEntry(text: Bytes, pos: nat, entries: seq<Entry>) returns (ok: bool, longer: seq<Entry>, next: nat)
    requires pos <= |text|
    ensures !ok ==> ThenFields(entries, ParseFields(text[pos..])) == Fail
    ensures ok ==> && pos < next <= |text|
                   && ThenFields(entries, ParseFields(text[pos..])) == ThenFields(longer, FieldsTail(text[next..]))
    decreases |text| - pos, 3
  {
    EntryMoves(entries, text[pos..]);
    var e;
    ok, e, next := EntryAt(text, pos);
    longer := entries + [e];
  }

  method AfterComma(text: Bytes, pos: nat, entries: seq<Entry>) returns (ok: bool, longer: seq<Entry>, next: nat)
    requires pos < |text| && text[pos] == COMMA
    ensures !ok ==> ThenFields(entries, FieldsTail(text[pos..])) == Fail
    ensures ok ==> && pos < next <= |text|
                   && ThenFields(entries, FieldsTail(text[pos..])) == ThenFields(longer, FieldsTail(text[next..]))
    decreases |text| - pos, 0
  {
    Advance(text, pos, 1);
    ok, longer, next := AppendEntry(text, pos + 1, entries);
  }

  /** All members of a non-empty object, each appended behind the last, and the closing brace. */
  method FieldsAt(text: Bytes, pos: nat) returns (ok: bool, entries: seq<Entry>, next: nat)
    requires pos <= |text|
    ensures match ParseFields(text[pos..])
            case Fail => !ok
            case Ok(fields, rest) =>
              ok && ToFields(entries, NoFields) == fields && pos < next <= |text| && text[next..] == rest
    decreases |text| - pos, 4
  {
    ghost var whole := ThenFields([], ParseFields(text[pos..]));
    ok, entries, next := AppendEntry(text, pos, []);
    while ok && At(text, next) == COMMA
      invariant ok ==> pos < next <= |text| && whole == ThenFields(entries, FieldsTail(text[next..]))
      invariant !ok ==> whole == Fail
      decreases ok, |text| - next
    {
      ok, entries, next := AfterComma(text, next, entries);
    }
    if ok {
      ok := At(text, next) == RBRACE;
      if ok {
        Advance(text, next, 1);
        next := next + 1;
      }
    }
  }

  method ObjectAt(text: Bytes, pos: nat) returns (ok: bool, item: Json, next: nat)
    requires pos < |text| && text[pos] == LBRACE
    ensures match ParseObject(text[pos..])
            case Fail => !ok
            case Ok(v, rest) => ok && item == v && pos < next <= |text| && text[next..] == rest
    decreases |text| - pos, 0
  {
    Advance(text, pos, 1);
    var p := SkipAt(text, pos + 1);
    if At(text, p) == RBRACE {
      Advance(text, p, 1);
      return true, Obj(NoFields), p + 1;
    }
    var entries;
    ok, entries, next := FieldsAt(text, p);
    item := Obj(ToFields(entries, NoFields));
  }

  method ParseText(text: Bytes) returns (ok: bool, item: Json)
    ensures match Parse(text)
            case Fail => !ok
            case Ok(v, _) => ok && item == v
  {
    var start := SkipAt(text, 0);
    assert text[0..] == text;
    var next;
    ok, item, next := ValueAt(text, start);
  }
}
