/**
 The JSON trees of the legacy client and server, the text they are printed as, and the recursive-descent
 parser. Texts are octet strings without the terminating NUL; reading past their end reads that NUL.
 */
module JsonTree {
  import opened Octets

  // ---------------------------------------------------------------- trees

  /**
   An integer carries the `sign` flag of its node: `signed` is a flag of -1. `Dec` is a number with a
   fraction or an exponent, kept exactly as mantissa and power of ten; printing it is not modelled.
   */
  datatype Json =
    | Null
    | Bool(b: bool)
    | Int(value: int, signed: bool)
    | Dec(mantissa: int, exponent: int)
    | Str(text: Bytes)
    | Arr(items: Items)
    | Obj(fields: Fields)

  /** The child list of an array, linked through `next`. */
  datatype Items = NoItems | Items(head: Json, tail: Items)

  /** The child list of an object, each child carrying its name. */
  datatype Fields = NoFields | Fields(name: Bytes, head: Json, tail: Fields)

  const INT64_LIMIT: int := 0x8000_0000_0000_0000
  const UINT64_LIMIT: int := 0x1_0000_0000_0000_0000

  ghost predicate NoNul(s: Bytes) {
    forall i :: 0 <= i < |s| ==> s[i] != 0
  }

  /** 64-bit integers whose flag agrees with a minus sign, and strings without NUL. */
  ghost predicate Printable(j: Json) {
    match j
    case Int(value, signed) => -INT64_LIMIT < value < INT64_LIMIT && (value >= 0 || signed)
    case Dec(_, _) => false
    case Str(text) => NoNul(text)
    case Arr(items) => PrintableItems(items)
    case Obj(fields) => PrintableFields(fields)
    case _ => true
  }

  ghost predicate PrintableItems(items: Items) {
    items.Items? ==> Printable(items.head) && PrintableItems(items.tail)
  }

  ghost predicate PrintableFields(fields: Fields) {
    fields.Fields? ==> NoNul(fields.name) && Printable(fields.head) && PrintableFields(fields.tail)
  }

  /** The same tree with each sign flag set only on negative integers, as the parser sets it. */
  function Canonical(j: Json): Json {
    match j
    case Int(value, _) => Int(value, value < 0)
    case Arr(items) => Arr(CanonicalItems(items))
    case Obj(fields) => Obj(CanonicalFields(fields))
    case _ => j
  }

  function CanonicalItems(items: Items): Items {
    if items.NoItems? then NoItems else Items(Canonical(items.head), CanonicalItems(items.tail))
  }

  function CanonicalFields(fields: Fields): Fields {
    if fields.NoFields? then NoFields
    else Fields(fields.name, Canonical(fields.head), CanonicalFields(fields.tail))
  }

  // ---------------------------------------------------------------- characters

  const BACKSPACE: byte := 8
  const TAB: byte := 9
  const NEWLINE: byte := 10
  const FORMFEED: byte := 12
  const RETURN: byte := 13
  const SPACE: byte := 32
  const QUOTE: byte := 34
  const PLUS: byte := 43
  const COMMA: byte := 44
  const MINUS: byte := 45
  const DOT: byte := 46
  const ZERO: byte := 48
  const COLON: byte := 58
  const UPPER_E: byte := 69
  const LBRACKET: byte := 91
  const BACKSLASH: byte := 92
  const RBRACKET: byte := 93
  const LOWER_B: byte := 98
  const LOWER_E: byte := 101
  const LOWER_F: byte := 102
  const LOWER_N: byte := 110
  const LOWER_R: byte := 114
  const LOWER_T: byte := 116
  const LOWER_U: byte := 117
  const LBRACE: byte := 123
  const RBRACE: byte := 125

  const NULL_TEXT: Bytes := [110, 117, 108, 108]
  const FALSE_TEXT: Bytes := [102, 97, 108, 115, 101]
  const TRUE_TEXT: Bytes := [116, 114, 117, 101]

  /** The octet at the front, or the terminating NUL. */
  function Head(s: Bytes): byte {
    if s == [] then 0 else s[0]
  }

  predicate IsDigit(c: byte) { 48 <= c <= 57 }

  predicate IsHex(c: byte) { 48 <= c <= 57 || 65 <= c <= 70 || 97 <= c <= 102 }

  function HexValue(c: byte): (v: nat)
    requires IsHex(c)
    ensures v < 16
  {
    if c <= 57 then c as int - 48 else if c <= 70 then c as int - 55 else c as int - 87
  }

  /** A lower-case hexadecimal digit. */
  function HexDigit(v: nat): (c: byte)
    requires v < 16
    ensures IsHex(c) && HexValue(c) == v
  {
    if v < 10 then 48 + v else 87 + v
  }

  // ---------------------------------------------------------------- printing

  function Decimal(n: nat): (d: Bytes)
    ensures d != []
    ensures forall i :: 0 <= i < |d| ==> IsDigit(d[i])
  {
    if n < 10 then [48 + n] else Decimal(n / 10) + [48 + n % 10]
  }

  /** Signed items print as signed numbers; the others as the unsigned 64-bit value of the same bits. */
  function PrintInt(value: int, signed: bool): Bytes {
    if signed then if value < 0 then [MINUS] + Decimal(-value) else Decimal(value)
    else Decimal(value % UINT64_LIMIT)
  }

  predicate IsPlain(c: byte) {
    c > 31 && c != QUOTE && c != BACKSLASH
  }

  function EscapeByte(c: byte): (e: Bytes)
    ensures e != []
  {
    if IsPlain(c) then [c]
    else if c == BACKSLASH || c == QUOTE then [BACKSLASH, c]
    else if c == BACKSPACE then [BACKSLASH, LOWER_B]
    else if c == FORMFEED then [BACKSLASH, LOWER_F]
    else if c == NEWLINE then [BACKSLASH, LOWER_N]
    else if c == RETURN then [BACKSLASH, LOWER_R]
    else if c == TAB then [BACKSLASH, LOWER_T]
    else [BACKSLASH, LOWER_U, ZERO, ZERO, HexDigit(c as int / 16), HexDigit(c as int % 16)]
  }

  function Escape(s: Bytes): Bytes {
    if s == [] then [] else EscapeByte(s[0]) + Escape(s[1..])
  }

  function PrintString(s: Bytes): Bytes {
    [QUOTE] + Escape(s) + [QUOTE]
  }

  function Tabs(n: nat): (t: Bytes)
    ensures |t| == n
  {
    if n == 0 then [] else [TAB] + Tabs(n - 1)
  }

  /** Text that appears only in formatted output. */
  function When(fmt: bool, s: Bytes): Bytes {
    if fmt then s else []
  }

  ghost function PrintValue(j: Json, depth: nat, fmt: bool): Bytes
    requires Printable(j)
    decreases j
  {
    match j
    case Null => NULL_TEXT
    case Bool(b) => if b then TRUE_TEXT else FALSE_TEXT
    case Int(value, signed) => PrintInt(value, signed)
    case Str(text) => PrintString(text)
    case Arr(items) => [LBRACKET] + (PrintItems(items, depth + 1, fmt) + [RBRACKET])
    case Obj(fields) =>
      [LBRACE] + (When(fmt, [NEWLINE]) + (PrintFields(fields, depth + 1, fmt) + (When(fmt, Tabs(depth)) + [RBRACE])))
  }

  ghost function PrintItems(items: Items, depth: nat, fmt: bool): Bytes
    requires PrintableItems(items)
    decreases items
  {
    if items.NoItems? then []
    else PrintValue(items.head, depth, fmt) + (ItemSeparator(items, fmt) + PrintItems(items.tail, depth, fmt))
  }

  function ItemSeparator(items: Items, fmt: bool): Bytes
    requires items.Items?
  {
    if items.tail.NoItems? then [] else [COMMA] + When(fmt, [SPACE])
  }

  ghost function PrintFields(fields: Fields, depth: nat, fmt: bool): Bytes
    requires PrintableFields(fields)
    decreases fields
  {
    if fields.NoFields? then []
    else
      When(fmt, Tabs(depth)) + (PrintName(fields.name, fmt)
      + (PrintValue(fields.head, depth, fmt) + (FieldSeparator(fields, fmt) + PrintFields(fields.tail, depth, fmt))))
  }

  function PrintName(name: Bytes, fmt: bool): Bytes {
    PrintString(name) + ([COLON] + When(fmt, [TAB]))
  }

  function FieldSeparator(fields: Fields, fmt: bool): Bytes
    requires fields.Fields?
  {
    (if fields.tail.NoFields? then [] else [COMMA]) + When(fmt, [NEWLINE])
  }

  // ---------------------------------------------------------------- parsing

  /** A parse fails or yields a value and the text behind it. */
  datatype Parsed<+T> = Fail | Ok(value: T, rest: Bytes)

  function Skip(s: Bytes): (r: Bytes)
    ensures |r| <= |s|
  {
    if s != [] && 0 < s[0] <= 32 then Skip(s[1..]) else s
  }

  predicate HasPrefix(s: Bytes, word: Bytes) {
    |word| <= |s| && s[..|word|] == word
  }

  datatype Scan = Scan(value: nat, rest: Bytes)

  /** Reads decimal digits onto an accumulator. */
  function Digits(s: Bytes, acc: nat): (r: Scan)
    ensures |r.rest| <= |s|
    ensures IsDigit(Head(s)) ==> |r.rest| < |s|
  {
    if IsDigit(Head(s)) then Digits(s[1..], acc * 10 + (s[0] as int - 48)) else Scan(acc, s)
  }

  function Negate(negative: bool, n: nat): int {
    if negative then -(n as int) else n
  }

  datatype Exponent = Exponent(power: int, rest: Bytes)

  function ParseExponent(s: Bytes): (r: Exponent)
    ensures |r.rest| <= |s|
  {
    if Head(s) != LOWER_E && Head(s) != UPPER_E then Exponent(0, s)
    else
      var t := s[1..];
      var signed := Head(t) == PLUS || Head(t) == MINUS;
      var digits := Digits(if signed then t[1..] else t, 0);
      Exponent(Negate(Head(t) == MINUS, digits.value), digits.rest)
  }

  /** The digits before any fraction; a leading zero is skipped, and no digits at all read as zero. */
  function ParseWhole(s: Bytes): (r: Scan)
    ensures |r.rest| <= |s|
    ensures IsDigit(Head(s)) ==> |r.rest| < |s|
  {
    var t := if Head(s) == ZERO then s[1..] else s;
    if Head(t) != ZERO && IsDigit(Head(t)) then Digits(t, 0) else Scan(0, t)
  }

  predicate HasFraction(s: Bytes) {
    Head(s) == DOT && IsDigit(Head(s[1..]))
  }

  /** All digits as one number, and minus how many of them are behind the point. */
  datatype Mantissa = Mantissa(digits: nat, scale: int, rest: Bytes)

  function ParseMantissa(s: Bytes): (r: Mantissa)
    ensures |r.rest| <= |s|
    ensures IsDigit(Head(s)) ==> |r.rest| < |s|
  {
    var whole := ParseWhole(s);
    if !HasFraction(whole.rest) then Mantissa(whole.value, 0, whole.rest)
    else
      var all := Digits(whole.rest[1..], whole.value);
      Mantissa(all.value, |all.rest| - |whole.rest[1..]|, all.rest)
  }

  /** A number without fraction and with a zero exponent is an integer. */
  function NumberItem(negative: bool, digits: nat, scale: int, power: int): Json {
    if scale == 0 && power == 0 then Int(Negate(negative, digits), negative)
    else Dec(Negate(negative, digits), scale + power)
  }

  function ParseNumber(s: Bytes): (r: Parsed<Json>)
    requires Head(s) == MINUS || IsDigit(Head(s))
    ensures r.Ok? && |r.rest| < |s|
  {
    var negative := Head(s) == MINUS;
    var mantissa := ParseMantissa(if negative then s[1..] else s);
    var exponent := ParseExponent(mantissa.rest);
    Ok(NumberItem(negative, mantissa.digits, mantissa.scale, exponent.power), exponent.rest)
  }

  /** The UTF-8 octets of a code point below 0x200000, as the parser assembles them. */
  function Utf8(uc: nat): (u: Bytes)
    requires uc < 0x20_0000
    ensures 1 <= |u| <= 4
  {
    if uc < 0x80 then [uc]
    else if uc < 0x800 then [0xC0 + uc / 64, 0x80 + uc % 64]
    else if uc < 0x1_0000 then [0xE0 + uc / 4096, 0x80 + uc / 64 % 64, 0x80 + uc % 64]
    else [0xF0 + uc / 262144, 0x80 + uc / 4096 % 64, 0x80 + uc / 64 % 64, 0x80 + uc % 64]
  }

  /** Four hexadecimal digits, as `%4x` reads them. */
  function ReadHex4(s: Bytes): (v: nat)
    requires IsHex4(s)
    ensures v < 0x1_0000
  {
    HexValue(s[0]) * 4096 + HexValue(s[1]) * 256 + HexValue(s[2]) * 16 + HexValue(s[3])
  }

  predicate IsHex4(s: Bytes) {
    |s| >= 4 && IsHex(s[0]) && IsHex(s[1]) && IsHex(s[2]) && IsHex(s[3])
  }

  predicate IsHigh(uc: nat) { 0xD800 <= uc <= 0xDBFF }

  predicate IsLow(uc: nat) { 0xDC00 <= uc <= 0xDFFF }

  /** The two halves joined by bitwise or: bit 16 is set, not added. */
  function CombineSurrogates(high: nat, low: nat): (uc: nat)
    requires IsHigh(high) && IsLow(low)
    ensures 0x1_0000 <= uc < 0x10_0000
  {
    var bits := (high - 0xD800) * 1024 + (low - 0xDC00);
    if bits / 0x1_0000 % 2 == 1 then bits else bits + 0x1_0000
  }

  /** An escape sequence decodes to some octets and is `length` octets long, or its text is malformed. */
  datatype Escaped = Malformed | Escaped(octets: Bytes, length: nat)

  function DecodeUnicode(s: Bytes): (r: Escaped)
    requires |s| >= 2
    ensures r.Escaped? ==> 2 < r.length <= |s| && |r.octets| <= 4 && |r.octets| + 2 < r.length
  {
    if !IsHex4(s[2..]) then Malformed
    else
      var uc := ReadHex4(s[2..]);
      if IsLow(uc) || uc == 0 then Escaped([], 6)
      else if !IsHigh(uc) then Escaped(Utf8(uc), 6)
      else if !HasPrefix(s[6..], [BACKSLASH, LOWER_U]) then Escaped([], 6)
      else if !IsHex4(s[8..]) then Malformed
      else
        var uc2 := ReadHex4(s[8..]);
        Escaped(if IsLow(uc2) then Utf8(CombineSurrogates(uc, uc2)) else [], 12)
  }

  /** The escape at the front of `s`, which starts with a backslash. */
  function DecodeEscape(s: Bytes): (r: Escaped)
    requires s != []
    ensures r.Escaped? ==> 2 <= r.length <= |s|
  {
    if |s| < 2 then Malformed
    else if s[1] == LOWER_B then Escaped([BACKSPACE], 2)
    else if s[1] == LOWER_F then Escaped([FORMFEED], 2)
    else if s[1] == LOWER_N then Escaped([NEWLINE], 2)
    else if s[1] == LOWER_R then Escaped([RETURN], 2)
    else if s[1] == LOWER_T then Escaped([TAB], 2)
    else if s[1] == LOWER_U then DecodeUnicode(s)
    else Escaped([s[1]], 2)
  }

  /** The contents of a string literal up to its closing quote, or to the end of the text. */
  function Unescape(s: Bytes): (r: Parsed<Bytes>)
    ensures r.Ok? ==> |r.rest| <= |s|
    decreases |s|
  {
    if s == [] then Ok([], [])
    else if s[0] == QUOTE then Ok([], s[1..])
    else
      var part := if s[0] == BACKSLASH then DecodeEscape(s) else Escaped([s[0]], 1);
      if part.Malformed? then Fail
      else
        var more := Unescape(s[part.length..]);
        if more.Fail? then Fail else Ok(part.octets + more.value, more.rest)
  }

  function ParseString(s: Bytes): (r: Parsed<Bytes>)
    ensures r.Ok? ==> |r.rest| < |s|
  {
    if Head(s) != QUOTE then Fail else Unescape(s[1..])
  }

  function ParseValue(s: Bytes): (r: Parsed<Json>)
    ensures r.Ok? ==> |r.rest| < |s|
    decreases |s|, 1
  {
    if HasPrefix(s, NULL_TEXT) then Ok(Null, s[4..])
    else if HasPrefix(s, FALSE_TEXT) then Ok(Bool(false), s[5..])
    else if HasPrefix(s, TRUE_TEXT) then Ok(Bool(true), s[4..])
    else if Head(s) == QUOTE then
      var str := ParseString(s);
      if str.Fail? then Fail else Ok(Str(str.value), str.rest)
    else if Head(s) == MINUS || IsDigit(Head(s)) then ParseNumber(s)
    else if Head(s) == LBRACKET then ParseArray(s)
    else if Head(s) == LBRACE then ParseObject(s)
    else Fail
  }

  function ParseArray(s: Bytes): (r: Parsed<Json>)
    requires Head(s) == LBRACKET
    ensures r.Ok? ==> |r.rest| < |s|
    decreases |s|, 0
  {
    var t := Skip(s[1..]);
    if Head(t) == RBRACKET then Ok(Arr(NoItems), t[1..])
    else
      var items := ParseItems(t);
      if items.Fail? then Fail else Ok(Arr(items.value), items.rest)
  }

  function ParseObject(s: Bytes): (r: Parsed<Json>)
    requires Head(s) == LBRACE
    ensures r.Ok? ==> |r.rest| < |s|
    decreases |s|, 0
  {
    var t := Skip(s[1..]);
    if Head(t) == RBRACE then Ok(Obj(NoFields), t[1..])
    else
      var fields := ParseFields(t);
      if fields.Fail? then Fail else Ok(Obj(fields.value), fields.rest)
  }

  /** One or more array elements and the closing bracket. */
  function ParseItems(s: Bytes): (r: Parsed<Items>)
    ensures r.Ok? ==> |r.rest| < |s|
    decreases |s|, 2
  {
    var v := ParseValue(Skip(s));
    if v.Fail? then Fail
    else
      var t := Skip(v.rest);
      if Head(t) == COMMA then
        var more := ParseItems(t[1..]);
        if more.Fail? then Fail else Ok(Items(v.value, more.value), more.rest)
      else if Head(t) == RBRACKET then Ok(Items(v.value, NoItems), t[1..])
      else Fail
  }

  /** One or more object members and the closing brace. */
  function ParseFields(s: Bytes): (r: Parsed<Fields>)
    ensures r.Ok? ==> |r.rest| < |s|
    decreases |s|, 2
  {
    var name := ParseString(Skip(s));
    if name.Fail? then Fail
    else
      var t := Skip(name.rest);
      if Head(t) != COLON then Fail
      else
        var v := ParseValue(Skip(t[1..]));
        if v.Fail? then Fail
        else
          var u := Skip(v.rest);
          if Head(u) == COMMA then
            var more := ParseFields(u[1..]);
            if more.Fail? then Fail else Ok(Fields(name.value, v.value, more.value), more.rest)
          else if Head(u) == RBRACE then Ok(Fields(name.value, v.value, NoFields), u[1..])
          else Fail
  }

  /** The public entry point, which ignores whatever follows the first value. */
  function Parse(s: Bytes): Parsed<Json> {
    ParseValue(Skip(s))
  }
}
