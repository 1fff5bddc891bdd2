/**
 The grammar of JSON text (sections 2 to 7 of RFC 8259), as concrete syntax trees with their spelling and their meaning,
 and why the parser reads every such text as what it means. Nothing here is taken from the parser: characters, escapes,
 digits and UTF-8 have their own tables.
 */
module JsonGrammar {
  import opened Basics
  import opened Octets
  import opened JsonTree
  import opened JsonRoundTrip

  // ---------------------------------------------------------------- characters

  /** What a letter behind a backslash stands for. */
  function Stands(letter: byte): byte {
    if letter == 98 then 8
    else if letter == 102 then 12
    else if letter == 110 then 10
    else if letter == 114 then 13
    else if letter == 116 then 9
    else letter
  }

  /** The value of a hexadecimal digit in either case; 16 for other characters. */
  function DigitValue(c: byte): nat {
    if 48 <= c <= 57 then c as int - 48
    else if 65 <= c <= 70 then 10 + (c as int - 65)
    else if 97 <= c <= 102 then 10 + (c as int - 97)
    else 16
  }

  predicate FourDigits(d: Bytes) {
    |d| == 4 && DigitValue(d[0]) < 16 && DigitValue(d[1]) < 16 && DigitValue(d[2]) < 16 && DigitValue(d[3]) < 16
  }

  function CodeUnit(d: Bytes): nat
    requires FourDigits(d)
  {
    ((DigitValue(d[0]) * 16 + DigitValue(d[1])) * 16 + DigitValue(d[2])) * 16 + DigitValue(d[3])
  }

  predicate Trails(c: byte) { 128 <= c < 192 }

  /** The six bits that a trailing octet carries. */
  function Six(c: byte): nat
    requires Trails(c)
  {
    c as int - 128
  }

  /** The code point that these octets are the UTF-8 form of (section 3 of RFC 3629), if they are one. */
  function CodePoint(u: Bytes): Option<nat> {
    if |u| == 1 && u[0] < 128 then Some(u[0] as int)
    else if |u| == 2 && 194 <= u[0] < 224 && Trails(u[1]) then Some((u[0] as int - 192) * 64 + Six(u[1]))
    else if |u| == 3 && 224 <= u[0] < 240 && Trails(u[1]) && Trails(u[2]) then
      var uc := ((u[0] as int - 224) * 64 + Six(u[1])) * 64 + Six(u[2]);
      if uc < 0x800 then None else Some(uc)
    else if |u| == 4 && 240 <= u[0] < 248 && Trails(u[1]) && Trails(u[2]) && Trails(u[3]) then
      var uc := (((u[0] as int - 240) * 64 + Six(u[1])) * 64 + Six(u[2])) * 64 + Six(u[3]);
      if uc < 0x1_0000 then None else Some(uc)
    else None
  }

  /** A character of a string literal; `octets` is the UTF-8 form of what a `\u` escape stands for. */
  datatype Char =
    | Raw(c: byte)
    | Short(letter: byte)
    | Unicode(digits: Bytes, octets: Bytes)
    | Pair(high: Bytes, low: Bytes, octets: Bytes)

  /** Surrogate pairs are those the parser combines correctly. */
  predicate IsChar(ch: Char) {
    match ch
    case Raw(c) => c > 31 && c != 34 && c != 92
    case Short(letter) => letter in [34, 92, 47, 98, 102, 110, 114, 116]
    case Unicode(digits, octets) =>
      && FourDigits(digits) && CodeUnit(digits) != 0 && !(0xD800 <= CodeUnit(digits) <= 0xDFFF)
      && CodePoint(octets) == Some(CodeUnit(digits))
    case Pair(high, low, octets) =>
      && FourDigits(high) && 0xD800 <= CodeUnit(high) <= 0xDBFF && CodeUnit(high) / 64 % 2 == 0
      && FourDigits(low) && 0xDC00 <= CodeUnit(low) <= 0xDFFF
      && CodePoint(octets) == Some(0x1_0000 + (CodeUnit(high) - 0xD800) * 1024 + (CodeUnit(low) - 0xDC00))
  }

  function SpellChar(ch: Char): Bytes {
    match ch
    case Raw(c) => [c]
    case Short(letter) => [92, letter]
    case Unicode(digits, _) => [92, 117] + digits
    case Pair(high, low, _) => [92, 117] + high + ([92, 117] + low)
  }

  function MeantByChar(ch: Char): Bytes
    requires IsChar(ch)
  {
    match ch
    case Raw(c) => [c]
    case Short(letter) => [Stands(letter)]
    case Unicode(_, octets) => octets
    case Pair(_, _, octets) => octets
  }

  predicate AreChars(chars: seq<Char>) {
    forall i :: 0 <= i < |chars| ==> IsChar(chars[i])
  }

  function SpellChars(chars: seq<Char>): Bytes {
    if chars == [] then [] else SpellChar(chars[0]) + SpellChars(chars[1..])
  }

  function MeantByChars(chars: seq<Char>): Bytes
    requires AreChars(chars)
  {
    if chars == [] then [] else MeantByChar(chars[0]) + MeantByChars(chars[1..])
  }

  lemma HexAgrees(c: byte)
    requires DigitValue(c) < 16
    ensures IsHex(c) && HexValue(c) == DigitValue(c)
  {
  }

  lemma UnitAgrees(d: Bytes)
    requires FourDigits(d)
    ensures IsHex4(d) && ReadHex4(d) == CodeUnit(d)
  {
    HexAgrees(d[0]);
    HexAgrees(d[1]);
    HexAgrees(d[2]);
    HexAgrees(d[3]);
  }

  /** The parser's octets for a code point are its UTF-8 form. */
  lemma Utf8Decodes(uc: nat)
    requires uc < 0x11_0000
    ensures CodePoint(Utf8(uc)) == Some(uc)
  {
    var a, b, c := uc / 64, uc / 4096, uc / 262144;
    assert b == a / 64 && c == b / 64;
    assert uc == 64 * a + uc % 64 && a == 64 * b + a % 64 && b == 64 * c + b % 64;
  }

  /** There is only one such form. */
  lemma Utf8Unique(u: Bytes, uc: nat)
    requires CodePoint(u) == Some(uc) && uc < 0x11_0000
    ensures u == Utf8(uc)
  {
    if |u| == 2 {
      assert uc / 64 == u[0] as int - 192 && uc % 64 == Six(u[1]);
    } else if |u| == 3 {
      var a := (u[0] as int - 224) * 64 + Six(u[1]);
      assert uc / 64 == a && uc % 64 == Six(u[2]);
      assert a / 64 == u[0] as int - 224 && a % 64 == Six(u[1]);
      assert uc / 4096 == a / 64;
    } else if |u| == 4 {
      var a := (u[0] as int - 240) * 64 + Six(u[1]);
      var b := a * 64 + Six(u[2]);
      assert uc / 64 == b && uc % 64 == Six(u[3]);
      assert b / 64 == a && b % 64 == Six(u[2]);
      assert a / 64 == u[0] as int - 240 && a % 64 == Six(u[1]);
      assert uc / 4096 == b / 64 && uc / 262144 == b / 64 / 64;
    }
  }

  lemma UnicodeDecodes(ch: Char, tail: Bytes)
    requires ch.Unicode? && IsChar(ch)
    ensures DecodeEscape(SpellChar(ch) + tail) == Escaped(ch.octets, 6)
  {
    var s := SpellChar(ch) + tail;
    assert s[2..6] == ch.digits;
    UnitsAt(s, 2, ch.digits);
    Utf8Unique(ch.octets, CodeUnit(ch.digits));
    assert DecodeUnicode(s) == Escaped(ch.octets, 6);
  }

  /** An escape of NUL or of half a surrogate pair without the other half reads as nothing. */
  lemma DroppedEscape(digits: Bytes, tail: Bytes, text: Bytes, rest: Bytes)
    requires FourDigits(digits) && Unescape(tail) == Ok(text, rest)
    requires || CodeUnit(digits) == 0 || 0xDC00 <= CodeUnit(digits) <= 0xDFFF
             || (0xD800 <= CodeUnit(digits) <= 0xDBFF && !(|tail| >= 2 && tail[0] == 92 && tail[1] == 117))
    ensures Unescape([92, 117] + digits + tail) == Ok(text, rest)
  {
    var s := [92, 117] + digits + tail;
    assert s[6..] == tail;
    NothingDecoded(digits, tail);
    assert [] + text == text;
  }

  lemma NothingDecoded(digits: Bytes, tail: Bytes)
    requires FourDigits(digits)
    requires || CodeUnit(digits) == 0 || 0xDC00 <= CodeUnit(digits) <= 0xDFFF
             || (0xD800 <= CodeUnit(digits) <= 0xDBFF && !(|tail| >= 2 && tail[0] == 92 && tail[1] == 117))
    ensures DecodeEscape([92, 117] + digits + tail) == Escaped([], 6)
  {
    var s := [92, 117] + digits + tail;
    assert s[2..6] == digits && s[6..] == tail;
    UnitsAt(s, 2, digits);
  }

  lemma UnitsAt(s: Bytes, i: nat, d: Bytes)
    requires FourDigits(d) && i + 4 <= |s| && s[i..i + 4] == d
    ensures IsHex4(s[i..]) && ReadHex4(s[i..]) == CodeUnit(d)
  {
    UnitAgrees(d);
    assert forall k :: 0 <= k < 4 ==> s[i..][k] == s[i..i + 4][k];
  }

  lemma PairAt(s: Bytes, high: Bytes, low: Bytes)
    requires |s| >= 12 && s[0] == 92 && s[1] == 117 && s[6] == 92 && s[7] == 117
    requires FourDigits(high) && IsHigh(CodeUnit(high)) && s[2..6] == high
    requires FourDigits(low) && IsLow(CodeUnit(low)) && s[8..12] == low
    ensures DecodeEscape(s) == Escaped(Utf8(CombineSurrogates(CodeUnit(high), CodeUnit(low))), 12)
  {
    UnitsAt(s, 2, high);
    UnitsAt(s, 8, low);
    assert s[6..][..2] == [BACKSLASH, LOWER_U];
    assert HasPrefix(s[6..], [BACKSLASH, LOWER_U]);
  }

  lemma PairDecodes(ch: Char, tail: Bytes)
    requires ch.Pair? && IsChar(ch)
    ensures DecodeEscape(SpellChar(ch) + tail) == Escaped(ch.octets, 12)
  {
    var s, high, low := SpellChar(ch) + tail, CodeUnit(ch.high), CodeUnit(ch.low);
    assert s[2..6] == ch.high && s[8..12] == ch.low;
    PairCombines(high, low);
    Utf8Unique(ch.octets, 0x1_0000 + (high - 0xD800) * 1024 + (low - 0xDC00));
    PairAt(s, ch.high, ch.low);
  }

  lemma PairCombines(high: nat, low: nat)
    requires IsHigh(high) && IsLow(low) && high / 64 % 2 == 0
    ensures CombineSurrogates(high, low) == 0x1_0000 + (high - 0xD800) * 1024 + (low - 0xDC00)
  {
    var h, l := high - 0xD800, low - 0xDC00;
    var bits := h * 1024 + l;
    assert bits / 1024 == h;
    assert bits / 0x1_0000 == bits / 1024 / 64 == h / 64;
    assert high / 64 == h / 64 + 864;
  }

  /** Reading a character adds what it stands for. */
  lemma CharRead(ch: Char, tail: Bytes, text: Bytes, rest: Bytes)
    requires IsChar(ch) && Unescape(tail) == Ok(text, rest)
    ensures Unescape(SpellChar(ch) + tail) == Ok(MeantByChar(ch) + text, rest)
  {
    var s := SpellChar(ch) + tail;
    assert s[|SpellChar(ch)|..] == tail;
    match ch {
      case Raw(c) =>
      case Short(letter) => assert DecodeEscape(s) == Escaped([Stands(letter)], 2);
      case Unicode(_, _) => UnicodeDecodes(ch, tail);
      case Pair(_, _, _) => PairDecodes(ch, tail);
    }
  }

  lemma {:induction false} CharsRead(chars: seq<Char>, rest: Bytes)
    requires AreChars(chars)
    ensures Unescape(SpellChars(chars) + ([34] + rest)) == Ok(MeantByChars(chars), rest)
    decreases |chars|
  {
    if chars == [] {
      assert SpellChars(chars) + ([34] + rest) == [34] + rest && ([34] + rest)[1..] == rest;
    } else {
      CharsRead(chars[1..], rest);
      Assoc(SpellChar(chars[0]), SpellChars(chars[1..]), [34] + rest);
      CharRead(chars[0], SpellChars(chars[1..]) + ([34] + rest), MeantByChars(chars[1..]), rest);
    }
  }

  /** What an escape of any four hexadecimal digits, in either case and not of a surrogate, reads as. */
  lemma UnicodeEscapeMeans(digits: Bytes)
    requires FourDigits(digits) && CodeUnit(digits) != 0 && !(0xD800 <= CodeUnit(digits) <= 0xDFFF)
    ensures var r := ParseString([34, 92, 117] + digits + [34]);
            r.Ok? && r.rest == [] && CodePoint(r.value) == Some(CodeUnit(digits))
  {
    var octets := Utf8(CodeUnit(digits));
    Utf8Decodes(CodeUnit(digits));
    OneCharRead(Unicode(digits, octets));
    QuotedEscape(digits);
  }

  lemma QuotedEscape(digits: Bytes)
    ensures [34, 92, 117] + digits + [34] == [34] + (([92, 117] + digits) + [34])
  {
  }

  lemma OneCharRead(ch: Char)
    requires IsChar(ch)
    ensures ParseString([34] + (SpellChar(ch) + [34])) == Ok(MeantByChar(ch), [])
  {
    assert [34][1..] == [];
    assert Unescape([34]) == Ok([], []);
    CharRead(ch, [34], [], []);
    assert MeantByChar(ch) + [] == MeantByChar(ch);
    LiteralRead(SpellChar(ch) + [34], MeantByChar(ch), []);
  }

  lemma LiteralRead(inner: Bytes, text: Bytes, rest: Bytes)
    requires Unescape(inner) == Ok(text, rest)
    ensures ParseString([34] + inner) == Ok(text, rest)
  {
    assert ([34] + inner)[1..] == inner;
  }

  // ---------------------------------------------------------------- numbers

  /** Digits as their values. */
  predicate AreDigits(d: seq<nat>) {
    forall i :: 0 <= i < |d| ==> d[i] < 10
  }

  function SpellDigits(d: seq<nat>): (s: Bytes)
    requires AreDigits(d)
    ensures |s| == |d| && forall i :: 0 <= i < |s| ==> s[i] == 48 + d[i] && IsDigit(s[i])
  {
    seq(|d|, i requires 0 <= i < |d| => (48 + d[i]) as byte)
  }

  /** Positional value, the last digit counting once. */
  function MeantByDigits(d: seq<nat>): nat {
    if d == [] then 0 else 10 * MeantByDigits(d[..|d| - 1]) + d[|d| - 1]
  }

  datatype Power = NoPower | Power(letter: byte, sign: Bytes, digits: seq<nat>)

  datatype Number = Number(minus: bool, whole: seq<nat>, fraction: seq<nat>, power: Power)

  /** No leading zero; a fraction and a power have at least one digit. */
  predicate IsNumber(n: Number) {
    && AreDigits(n.whole) && n.whole != [] && (n.whole[0] == 0 ==> |n.whole| == 1)
    && AreDigits(n.fraction)
    && (n.power.Power? ==>
          && n.power.letter in [101, 69] && n.power.sign in [[], [43], [45]]
          && AreDigits(n.power.digits) && n.power.digits != [])
  }

  function SpellPower(p: Power): Bytes
    requires p.Power? ==> AreDigits(p.digits)
  {
    if p.NoPower? then [] else [p.letter] + (p.sign + SpellDigits(p.digits))
  }

  function SpellFraction(d: seq<nat>): Bytes
    requires AreDigits(d)
  {
    if d == [] then [] else [46] + SpellDigits(d)
  }

  /** The text of a number behind its sign. */
  function SpellUnsigned(n: Number): Bytes
    requires IsNumber(n)
  {
    SpellDigits(n.whole) + (SpellFraction(n.fraction) + SpellPower(n.power))
  }

  function SpellNumber(n: Number): Bytes
    requires IsNumber(n)
  {
    (if n.minus then [45] else []) + SpellUnsigned(n)
  }

  function MeantByPower(p: Power): int {
    if p.NoPower? then 0
    else if p.sign == [45] then -(MeantByDigits(p.digits) as int) else MeantByDigits(p.digits)
  }

  /** An integer, or all digits as one number times a power of ten. */
  function MeantByNumber(n: Number): Json {
    var power, digits := MeantByPower(n.power), MeantByDigits(n.whole + n.fraction);
    var signed := if n.minus then -(digits as int) else digits;
    if n.fraction == [] && power == 0 then Int(signed, n.minus) else Dec(signed, power - |n.fraction|)
  }

  /** What may follow a number. */
  predicate EndsNumber(rest: Bytes) {
    rest == [] || !(48 <= rest[0] <= 57 || rest[0] in [46, 69, 101])
  }

  lemma {:induction false} ValueAgrees(d: seq<nat>)
    requires AreDigits(d)
    ensures AllDigits(SpellDigits(d)) && ValueOf(SpellDigits(d), 0) == MeantByDigits(d)
    decreases |d|
  {
    if d != [] {
      var n := |d| - 1;
      ValueAgrees(d[..n]);
      assert SpellDigits(d) == SpellDigits(d[..n]) + [48 + d[n]];
      ValueOfSnoc(SpellDigits(d[..n]), 48 + d[n], 0);
    }
  }

  lemma {:induction false} ValueOfMore(a: Bytes, b: Bytes, acc: nat)
    requires AllDigits(a) && AllDigits(b)
    ensures AllDigits(a + b) && ValueOf(a + b, acc) == ValueOf(b, ValueOf(a, acc))
    decreases |a|
  {
    if a == [] {
      assert a + b == b;
    } else {
      assert (a + b)[1..] == a[1..] + b;
      ValueOfMore(a[1..], b, acc * 10 + (a[0] as int - 48));
    }
  }

  lemma WholeOfNumber(d: seq<nat>, rest: Bytes)
    requires AreDigits(d) && d != [] && (d[0] == 0 ==> |d| == 1) && !IsDigit(Head(rest))
    ensures ParseWhole(SpellDigits(d) + rest) == Scan(MeantByDigits(d), rest)
  {
    var s := SpellDigits(d) + rest;
    ValueAgrees(d);
    if d[0] == 0 {
      assert s[1..] == rest && MeantByDigits(d[..0]) == 0;
    } else {
      DigitsRead(SpellDigits(d), rest, 0);
    }
  }

  lemma SpellDigitsJoin(a: seq<nat>, b: seq<nat>)
    requires AreDigits(a) && AreDigits(b)
    ensures AreDigits(a + b) && SpellDigits(a + b) == SpellDigits(a) + SpellDigits(b)
  {
  }

  lemma DigitsJoin(a: seq<nat>, b: seq<nat>)
    requires AreDigits(a) && AreDigits(b)
    ensures AllDigits(SpellDigits(b)) && ValueOf(SpellDigits(b), MeantByDigits(a)) == MeantByDigits(a + b)
  {
    ValueAgrees(a);
    ValueAgrees(b);
    ValueAgrees(a + b);
    SpellDigitsJoin(a, b);
    ValueOfMore(SpellDigits(a), SpellDigits(b), 0);
  }

  lemma FractionRead(s: Bytes, whole: nat, f: Bytes, rest: Bytes)
    requires AllDigits(f) && f != [] && !IsDigit(Head(rest))
    requires ParseWhole(s) == Scan(whole, [46] + (f + rest))
    ensures ParseMantissa(s) == Mantissa(ValueOf(f, whole), -|f|, rest)
  {
    assert ([46] + (f + rest))[1..] == f + rest && Head(f + rest) == f[0];
    DigitsRead(f, rest, whole);
  }

  lemma MantissaOfNumber(n: Number, rest: Bytes)
    requires IsNumber(n) && (rest == [] || !(48 <= rest[0] <= 57 || rest[0] == 46))
    ensures ParseMantissa(SpellDigits(n.whole) + (SpellFraction(n.fraction) + rest))
            == Mantissa(MeantByDigits(n.whole + n.fraction), -|n.fraction|, rest)
  {
    var behind := SpellFraction(n.fraction) + rest;
    if n.fraction == [] {
      assert behind == rest && n.whole + n.fraction == n.whole;
      WholeOfNumber(n.whole, behind);
    } else {
      Assoc([46], SpellDigits(n.fraction), rest);
      WholeOfNumber(n.whole, behind);
      DigitsJoin(n.whole, n.fraction);
      FractionRead(SpellDigits(n.whole) + behind, MeantByDigits(n.whole), SpellDigits(n.fraction), rest);
    }
  }

  lemma PowerOfNumber(p: Power, rest: Bytes)
    requires p.Power? ==> p.letter in [101, 69] && p.sign in [[], [43], [45]]
    requires p.Power? ==> AreDigits(p.digits) && p.digits != []
    requires EndsNumber(rest)
    ensures ParseExponent(SpellPower(p) + rest) == Exponent(MeantByPower(p), rest)
  {
    var s := SpellPower(p) + rest;
    if p.NoPower? {
      assert s == rest;
    } else {
      var d := SpellDigits(p.digits);
      Assoc([p.letter], p.sign + d, rest);
      Assoc(p.sign, d, rest);
      assert s[1..] == p.sign + (d + rest);
      ValueAgrees(p.digits);
      DigitsRead(d, rest, 0);
      if p.sign == [] {
        assert s[1..] == d + rest && IsDigit(d[0]);
      } else {
        assert s[1..][1..] == d + rest;
      }
    }
  }

  lemma UnsignedRead(n: Number, rest: Bytes)
    requires IsNumber(n) && EndsNumber(rest)
    ensures var s := SpellUnsigned(n) + rest;
            var m := ParseMantissa(s);
            && s != [] && IsDigit(s[0])
            && m.digits == MeantByDigits(n.whole + n.fraction) && m.scale == -|n.fraction|
            && ParseExponent(m.rest) == Exponent(MeantByPower(n.power), rest)
  {
    var w, f, p := SpellDigits(n.whole), SpellFraction(n.fraction), SpellPower(n.power);
    Assoc(w, f + p, rest);
    Assoc(f, p, rest);
    MantissaOfNumber(n, p + rest);
    PowerOfNumber(n.power, rest);
    assert (SpellUnsigned(n) + rest)[0] == w[0];
  }

  lemma NumberFrom(s: Bytes, body: Bytes, minus: bool, m: Mantissa, power: int, rest: Bytes, item: Json)
    requires body != [] && IsDigit(body[0])
    requires ParseMantissa(body) == m && ParseExponent(m.rest) == Exponent(power, rest)
    requires if minus then s != [] && s[0] == 45 && s[1..] == body else s == body
    requires item == NumberItem(minus, m.digits, m.scale, power)
    ensures Head(s) == MINUS || IsDigit(Head(s))
    ensures ParseNumber(s) == Ok(item, rest)
  {
  }

  lemma ItemMeant(n: Number)
    ensures NumberItem(n.minus, MeantByDigits(n.whole + n.fraction), -|n.fraction|, MeantByPower(n.power))
            == MeantByNumber(n)
  {
  }

  lemma SignSplit(n: Number, rest: Bytes)
    requires IsNumber(n)
    ensures var s, body := SpellNumber(n) + rest, SpellUnsigned(n) + rest;
            if n.minus then s != [] && s[0] == 45 && s[1..] == body else s == body
  {
  }

  lemma NumberRead(n: Number, rest: Bytes)
    requires IsNumber(n) && EndsNumber(rest)
    ensures var s := SpellNumber(n) + rest;
            && (Head(s) == MINUS || IsDigit(Head(s)))
            && ParseNumber(s) == Ok(MeantByNumber(n), rest)
  {
    var body := SpellUnsigned(n) + rest;
    UnsignedRead(n, rest);
    SignSplit(n, rest);
    ItemMeant(n);
    NumberFrom(SpellNumber(n) + rest, body, n.minus, ParseMantissa(body), MeantByPower(n.power), rest,
               MeantByNumber(n));
  }

  // ---------------------------------------------------------------- texts

  /** White space is written out wherever the grammar allows it. */
  datatype Text =
    | NullText
    | TrueText
    | FalseText
    | NumberText(number: Number)
    | StringText(chars: seq<Char>)
    | EmptyArray(blank: Bytes)
    | ArrayText(elements: Elements)
    | EmptyObject(blank: Bytes)
    | ObjectText(members: Members)

  /** One or more array elements. */
  datatype Elements = Last(before: Bytes, head: Text, after: Bytes)
                    | More(before: Bytes, head: Text, after: Bytes, tail: Elements)

  /** One or more object members. */
  datatype Members = LastMember(member: Member) | MoreMembers(member: Member, tail: Members)

  datatype Member = Member(before: Bytes, name: seq<Char>, beforeColon: Bytes, afterColon: Bytes, value: Text,
                           after: Bytes)

  predicate IsBlank(b: Bytes) {
    forall i :: 0 <= i < |b| ==> b[i] in [32, 9, 10, 13]
  }

  predicate IsText(t: Text) {
    match t
    case NumberText(n) => IsNumber(n)
    case StringText(chars) => AreChars(chars)
    case EmptyArray(blank) => IsBlank(blank)
    case ArrayText(elements) => AreElements(elements)
    case EmptyObject(blank) => IsBlank(blank)
    case ObjectText(members) => AreMembers(members)
    case _ => true
  }

  predicate AreElements(e: Elements) {
    && IsBlank(e.before) && IsText(e.head) && IsBlank(e.after)
    && (e.More? ==> AreElements(e.tail))
  }

  predicate IsMember(m: Member) {
    IsBlank(m.before) && AreChars(m.name) && IsBlank(m.beforeColon) && IsBlank(m.afterColon) && IsBlank(m.after)
  }

  predicate AreMembers(m: Members) {
    IsMember(m.member) && IsText(m.member.value) && (m.MoreMembers? ==> AreMembers(m.tail))
  }

  function SpellString(chars: seq<Char>): Bytes {
    [34] + (SpellChars(chars) + [34])
  }

  function Spell(t: Text): Bytes
    requires IsText(t)
  {
    match t
    case NullText => [110, 117, 108, 108]
    case TrueText => [116, 114, 117, 101]
    case FalseText => [102, 97, 108, 115, 101]
    case NumberText(n) => SpellNumber(n)
    case StringText(chars) => SpellString(chars)
    case EmptyArray(blank) => [91] + (blank + [93])
    case ArrayText(elements) => [91] + SpellElements(elements)
    case EmptyObject(blank) => [123] + (blank + [125])
    case ObjectText(members) => [123] + SpellMembers(members)
  }

  /** The elements and the closing bracket. */
  function SpellElements(e: Elements): Bytes
    requires AreElements(e)
  {
    e.before + (Spell(e.head) + (e.after + if e.Last? then [93] else [44] + SpellElements(e.tail)))
  }

  /** The members and the closing brace. */
  function SpellMembers(m: Members): Bytes
    requires AreMembers(m)
  {
    m.member.before + (SpellString(m.member.name) + (m.member.beforeColon + ([58] + (m.member.afterColon
    + (Spell(m.member.value) + (m.member.after
    + if m.LastMember? then [125] else [44] + SpellMembers(m.tail)))))))
  }

  function Meant(t: Text): Json
    requires IsText(t)
  {
    match t
    case NullText => Null
    case TrueText => Bool(true)
    case FalseText => Bool(false)
    case NumberText(n) => MeantByNumber(n)
    case StringText(chars) => Str(MeantByChars(chars))
    case EmptyArray(_) => Arr(NoItems)
    case ArrayText(elements) => Arr(MeantByElements(elements))
    case EmptyObject(_) => Obj(NoFields)
    case ObjectText(members) => Obj(MeantByMembers(members))
  }

  function MeantByElements(e: Elements): JsonTree.Items
    requires AreElements(e)
  {
    JsonTree.Items.Items(Meant(e.head), if e.Last? then NoItems else MeantByElements(e.tail))
  }

  function MeantByMembers(m: Members): JsonTree.Fields
    requires AreMembers(m)
  {
    JsonTree.Fields.Fields(MeantByChars(m.member.name), Meant(m.member.value),
                           if m.LastMember? then NoFields else MeantByMembers(m.tail))
  }

  // ---------------------------------------------------------------- reading them

  /** White space is skipped, and nothing else: what is left starts with none. */
  lemma {:induction false} BlankSkipped(b: Bytes, s: Bytes)
    requires IsBlank(b) && (s == [] || s[0] == 0 || s[0] > 32)
    ensures Skip(b + s) == s
    decreases |b|
  {
    if b == [] {
      assert b + s == s;
    } else {
      assert (b + s)[1..] == b[1..] + s;
      BlankSkipped(b[1..], s);
    }
  }

  lemma BlankThen(b: Bytes, s: Bytes)
    requires IsBlank(b)
    ensures Skip(b + s) == Skip(s)
    decreases |b|
  {
    if b == [] {
      assert b + s == s;
    } else {
      assert (b + s)[1..] == b[1..] + s;
      BlankThen(b[1..], s);
    }
  }

  /** A value starts with a visible character. */
  lemma TextStarts(t: Text, rest: Bytes)
    requires IsText(t)
    ensures var s := Spell(t) + rest; s != [] && s[0] > 32 && s[0] != 93 && s[0] != 125
  {
    if t.NumberText? {
      var n := t.number;
      assert SpellDigits(n.whole)[0] == 48 + n.whole[0];
    }
  }

  lemma StringTextRead(chars: seq<Char>, rest: Bytes)
    requires AreChars(chars)
    ensures ParseString(SpellString(chars) + rest) == Ok(MeantByChars(chars), rest)
  {
    Assoc([34], SpellChars(chars) + [34], rest);
    Assoc(SpellChars(chars), [34], rest);
    CharsRead(chars, rest);
    LiteralRead(SpellChars(chars) + ([34] + rest), MeantByChars(chars), rest);
  }

  /** What is behind a value that the grammar lets follow it. */
  predicate MayFollow(t: Text, rest: Bytes) {
    t.NumberText? ==> EndsNumber(rest)
  }

  lemma Keywords(s: Bytes)
    requires Head(s) != 110 && Head(s) != 102 && Head(s) != 116
    ensures !HasPrefix(s, NULL_TEXT) && !HasPrefix(s, FALSE_TEXT) && !HasPrefix(s, TRUE_TEXT)
  {
    NoKeyword(s);
  }

  lemma KeywordRead(t: Text, rest: Bytes)
    requires t.NullText? || t.TrueText? || t.FalseText?
    ensures ParseValue(Spell(t) + rest) == Ok(Meant(t), rest)
  {
    var s, word := Spell(t) + rest, Spell(t);
    assert s[..|word|] == word && s[|word|..] == rest;
    NoKeyword(s);
  }

  /**
   The parser reads every text of the grammar as what it means, whatever white space, escapes and number formats it is
   written with, and stops right behind it.
   */
  lemma {:induction false} ReadsEveryText(t: Text, rest: Bytes)
    requires IsText(t) && MayFollow(t, rest)
    ensures ParseValue(Spell(t) + rest) == Ok(Meant(t), rest)
    decreases t
  {
    var s := Spell(t) + rest;
    match t {
      case NumberText(n) => NumberRead(n, rest); Keywords(s);
      case StringText(chars) => StringTextRead(chars, rest); Keywords(s);
      case EmptyArray(blank) => EmptyRead(91, blank, 93, rest); BracketDispatch(s, Arr(NoItems), rest);
      case EmptyObject(blank) => EmptyRead(123, blank, 125, rest); BraceDispatch(s, Obj(NoFields), rest);
      case ArrayText(elements) =>
        BehindFirst(91, SpellElements(elements), rest);
        ElementsRead(elements, rest);
        ArrayRead(s, SpellElements(elements) + rest, MeantByElements(elements), rest);
        BracketDispatch(s, Meant(t), rest);
      case ObjectText(members) =>
        BehindFirst(123, SpellMembers(members), rest);
        MembersRead(members, rest);
        ObjectRead(s, SpellMembers(members) + rest, MeantByMembers(members), rest);
        BraceDispatch(s, Meant(t), rest);
      case _ => KeywordRead(t, rest);
    }
  }

  lemma BehindFirst(first: byte, body: Bytes, rest: Bytes)
    ensures Head([first] + body + rest) == first && ([first] + body + rest)[1..] == body + rest
  {
    Assoc([first], body, rest);
  }

  lemma BracketDispatch(s: Bytes, j: Json, rest: Bytes)
    requires Head(s) == 91 && ParseArray(s) == Ok(j, rest)
    ensures ParseValue(s) == Ok(j, rest)
  {
    Keywords(s);
  }

  lemma BraceDispatch(s: Bytes, j: Json, rest: Bytes)
    requires Head(s) == 123 && ParseObject(s) == Ok(j, rest)
    ensures ParseValue(s) == Ok(j, rest)
  {
    Keywords(s);
  }

  lemma EmptyRead(open: byte, blank: Bytes, close: byte, rest: Bytes)
    requires IsBlank(blank) && close > 32
    ensures var s := [open] + (blank + [close]) + rest;
            Head(s) == open && Skip(s[1..]) == [close] + rest && ([close] + rest)[1..] == rest
  {
    var s := [open] + (blank + [close]) + rest;
    Assoc([open], blank + [close], rest);
    Assoc(blank, [close], rest);
    assert s[1..] == blank + ([close] + rest);
    BlankSkipped(blank, [close] + rest);
    assert ([close] + rest)[1..] == rest;
  }

  lemma ArrayRead(s: Bytes, body: Bytes, items: JsonTree.Items, rest: Bytes)
    requires Head(s) == 91 && s[1..] == body && Head(Skip(body)) != 93 && ParseItems(body) == Ok(items, rest)
    ensures ParseArray(s) == Ok(Arr(items), rest)
  {
    SkipTwice(body);
    ItemsIgnoreLayout(Skip(body), body);
  }

  /** One element, the white space around it and what is behind it. */
  lemma ElementRead(before: Bytes, value: Bytes, after: Bytes, behind: Bytes, v: Json)
    requires IsBlank(before) && IsBlank(after) && value != [] && value[0] > 32 && behind != [] && behind[0] > 32
    requires ParseValue(value + (after + behind)) == Ok(v, after + behind)
    ensures var s := before + (value + (after + behind));
            && Head(Skip(s)) == value[0]
            && ParseValue(Skip(s)) == Ok(v, after + behind) && Skip(after + behind) == behind
  {
    BlankSkipped(before, value + (after + behind));
    BlankSkipped(after, behind);
  }

  /** White space, a comma or a bracket ends a number. */
  lemma FollowsAfter(t: Text, after: Bytes, behind: Bytes)
    requires IsBlank(after) && behind != [] && behind[0] in [44, 93, 125]
    ensures MayFollow(t, after + behind)
  {
    if after == [] {
      assert after + behind == behind;
    } else {
      assert (after + behind)[0] == after[0];
    }
  }

  lemma {:induction false} ElementsRead(e: Elements, rest: Bytes)
    requires AreElements(e)
    ensures ParseItems(SpellElements(e) + rest) == Ok(MeantByElements(e), rest)
    ensures Head(Skip(SpellElements(e) + rest)) != 93
    decreases e
  {
    var close := if e.Last? then [93] else [44] + SpellElements(e.tail);
    var s, behind := SpellElements(e) + rest, close + rest;
    Assoc(e.before, Spell(e.head) + (e.after + close), rest);
    Assoc(Spell(e.head), e.after + close, rest);
    Assoc(e.after, close, rest);
    assert s == e.before + (Spell(e.head) + (e.after + behind));
    FollowsAfter(e.head, e.after, behind);
    ReadsEveryText(e.head, e.after + behind);
    TextStarts(e.head, []);
    assert Spell(e.head) + [] == Spell(e.head);
    ElementRead(e.before, Spell(e.head), e.after, behind, Meant(e.head));
    if e.Last? {
      assert behind[1..] == rest;
    } else {
      Assoc([44], SpellElements(e.tail), rest);
      assert behind[1..] == SpellElements(e.tail) + rest;
      ElementsRead(e.tail, rest);
    }
  }

  /** The name of a member, the colon and the white space around them. */
  lemma NameRead(m: Member, behind: Bytes)
    requires IsMember(m)
    ensures var s := m.before + (SpellString(m.name) + (m.beforeColon + ([58] + (m.afterColon + behind))));
            var name := ParseString(Skip(s));
            && Head(Skip(s)) == 34 && name.Ok? && name.value == MeantByChars(m.name)
            && Head(Skip(name.rest)) == 58 && Skip(Skip(name.rest)[1..]) == Skip(behind)
  {
    var colon := [58] + (m.afterColon + behind);
    var tail := m.beforeColon + colon;
    var str := SpellString(m.name);
    assert (str + tail)[0] == 34;
    BlankSkipped(m.before, str + tail);
    StringTextRead(m.name, tail);
    BlankSkipped(m.beforeColon, colon);
    assert colon[1..] == m.afterColon + behind;
    BlankThen(m.afterColon, behind);
  }

  /** Puts the parts of a member together. */
  lemma MemberRead(s: Bytes, name: Bytes, v: Json, after: Bytes, behind: Bytes, rest: Bytes, fields: JsonTree.Fields)
    requires var n := ParseString(Skip(s));
             && n.Ok? && n.value == name && Head(Skip(n.rest)) == 58
             && ParseValue(Skip(Skip(n.rest)[1..])) == Ok(v, after) && Skip(after) == behind
    requires || (Head(behind) == 125 && fields == NoFields && behind[1..] == rest)
             || (Head(behind) == 44 && ParseFields(behind[1..]) == Ok(fields, rest))
    ensures ParseFields(s) == Ok(JsonTree.Fields.Fields(name, v, fields), rest)
  {
  }

  lemma {:induction false} MembersRead(m: Members, rest: Bytes)
    requires AreMembers(m)
    ensures ParseFields(SpellMembers(m) + rest) == Ok(MeantByMembers(m), rest)
    ensures Head(Skip(SpellMembers(m) + rest)) != 125
    decreases m
  {
    var o, close := m.member, if m.LastMember? then [125] else [44] + SpellMembers(m.tail);
    var s, behind := SpellMembers(m) + rest, close + rest;
    var value := Spell(o.value) + (o.after + behind);
    MemberText(m, rest);
    NameRead(o, value);
    FollowsAfter(o.value, o.after, behind);
    ReadsEveryText(o.value, o.after + behind);
    TextStarts(o.value, o.after + behind);
    BlankSkipped([], value);
    assert [] + value == value;
    BlankSkipped(o.after, behind);
    if m.LastMember? {
      assert behind[1..] == rest;
      MemberRead(s, MeantByChars(o.name), Meant(o.value), o.after + behind, behind, rest, NoFields);
    } else {
      Assoc([44], SpellMembers(m.tail), rest);
      assert behind[1..] == SpellMembers(m.tail) + rest;
      MembersRead(m.tail, rest);
      MemberRead(s, MeantByChars(o.name), Meant(o.value), o.after + behind, behind, rest, MeantByMembers(m.tail));
    }
  }

  /** The text of a member and what is behind it, regrouped. */
  lemma MemberText(m: Members, rest: Bytes)
    requires AreMembers(m)
    ensures var o, close := m.member, if m.LastMember? then [125] else [44] + SpellMembers(m.tail);
            SpellMembers(m) + rest
            == o.before + (SpellString(o.name) + (o.beforeColon + ([58] + (o.afterColon
               + (Spell(o.value) + (o.after + (close + rest)))))))
  {
    var o, close := m.member, if m.LastMember? then [125] else [44] + SpellMembers(m.tail);
    var e := o.after + close;
    var d := Spell(o.value) + e;
    var c := o.afterColon + d;
    var b := o.beforeColon + ([58] + c);
    Assoc(o.before, SpellString(o.name) + b, rest);
    Assoc(SpellString(o.name), b, rest);
    Assoc(o.beforeColon, [58] + c, rest);
    Assoc([58], c, rest);
    Assoc(o.afterColon, d, rest);
    Assoc(Spell(o.value), e, rest);
    Assoc(o.after, close, rest);
  }

  /** The entry point reads a text with white space before it, and ignores what is behind it. */
  lemma EntryReadsEveryText(before: Bytes, t: Text, rest: Bytes)
    requires IsBlank(before) && IsText(t) && MayFollow(t, rest)
    ensures Parse(before + (Spell(t) + rest)) == Ok(Meant(t), rest)
  {
    TextStarts(t, rest);
    BlankSkipped(before, Spell(t) + rest);
    ReadsEveryText(t, rest);
  }
}
