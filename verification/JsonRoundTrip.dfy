/** Printing and parsing undo each other, for every tree and in both layouts. */
module JsonRoundTrip {
  import opened Basics
  import opened Octets
  import opened JsonTree

  // ---------------------------------------------------------------- numbers

  ghost predicate AllDigits(d: Bytes) {
    forall i :: 0 <= i < |d| ==> IsDigit(d[i])
  }

  /** The number read when the digits `d` follow the ones already in `acc`. */
  function ValueOf(d: Bytes, acc: nat): nat
    requires forall i :: 0 <= i < |d| ==> IsDigit(d[i])
  {
    if d == [] then acc else assert IsDigit(d[0]); ValueOf(d[1..], acc * 10 + (d[0] as int - 48))
  }

  lemma {:induction false} DigitsRead(d: Bytes, rest: Bytes, acc: nat)
    requires AllDigits(d) && !IsDigit(Head(rest))
    ensures Digits(d + rest, acc) == Scan(ValueOf(d, acc), rest)
    decreases |d|
  {
    if d == [] {
      assert d + rest == rest;
    } else {
      assert (d + rest)[1..] == d[1..] + rest;
      DigitsRead(d[1..], rest, acc * 10 + (d[0] as int - 48));
    }
  }

  lemma {:induction false} ValueOfSnoc(d: Bytes, last: byte, acc: nat)
    requires AllDigits(d) && IsDigit(last)
    ensures ValueOf(d + [last], acc) == ValueOf(d, acc) * 10 + (last as int - 48)
    decreases |d|
  {
    if d == [] {
      assert (d + [last])[1..] == [];
    } else {
      assert (d + [last])[1..] == d[1..] + [last];
      ValueOfSnoc(d[1..], last, acc * 10 + (d[0] as int - 48));
    }
  }

  lemma {:induction false} DecimalValue(n: nat)
    ensures ValueOf(Decimal(n), 0) == n
    ensures n == 0 ==> Decimal(n) == [ZERO]
    ensures n > 0 ==> Decimal(n)[0] != ZERO
    decreases n
  {
    if n < 10 {
      assert Decimal(n)[1..] == [];
    } else {
      DecimalValue(n / 10);
      ValueOfSnoc(Decimal(n / 10), 48 + n % 10, 0);
    }
  }

  /** Text that ends a number: in printed output, the end or one of these characters. */
  ghost predicate Delimited(rest: Bytes) {
    Head(rest) == 0 || Head(rest) == COMMA || Head(rest) == RBRACKET || Head(rest) == RBRACE || Head(rest) == NEWLINE
  }

  lemma WholeRead(n: nat, rest: Bytes)
    requires Delimited(rest)
    ensures ParseWhole(Decimal(n) + rest) == Scan(n, rest)
  {
    DecimalValue(n);
    var s := Decimal(n) + rest;
    if n == 0 {
      assert s[1..] == rest;
    } else {
      DigitsRead(Decimal(n), rest, 0);
    }
  }

  lemma SignedRead(v: int, rest: Bytes)
    requires Delimited(rest)
    ensures var text := if v < 0 then [MINUS] + Decimal(-v) else Decimal(v);
            && (Head(text + rest) == MINUS || IsDigit(Head(text + rest)))
            && ParseNumber(text + rest) == Ok(Int(v, v < 0), rest)
  {
    if v < 0 {
      var s := [MINUS] + Decimal(-v) + rest;
      assert s[0] == MINUS && s[1..] == Decimal(-v) + rest;
      WholeRead(-v, rest);
      assert ParseNumber(s) == Ok(Int(Negate(true, -v), true), rest);
    } else {
      WholeRead(v, rest);
      assert (Decimal(v) + rest)[0] == Decimal(v)[0];
      assert ParseNumber(Decimal(v) + rest) == Ok(Int(Negate(false, v), false), rest);
    }
  }

  lemma IntRead(v: int, signed: bool, rest: Bytes)
    requires Printable(Int(v, signed)) && Delimited(rest)
    ensures Head(PrintInt(v, signed) + rest) == MINUS || IsDigit(Head(PrintInt(v, signed) + rest))
    ensures ParseNumber(PrintInt(v, signed) + rest) == Ok(Int(v, v < 0), rest)
  {
    SignedRead(v, rest);
    assert v >= 0 ==> v % UINT64_LIMIT == v;
  }

  // ---------------------------------------------------------------- strings

  /** What the parser makes of one escaped octet. */
  lemma EscapedByteRead(c: byte, rest: Bytes)
    requires c != 0
    ensures var s := EscapeByte(c) + rest;
            && s[0] != QUOTE
            && (s[0] != BACKSLASH ==> IsPlain(c) && s == [c] + rest)
            && (s[0] == BACKSLASH ==> DecodeEscape(s) == Escaped([c], |EscapeByte(c)|))
  {
    var s := EscapeByte(c) + rest;
    if c < 32 && |EscapeByte(c)| == 6 {
      assert s[1] == LOWER_U;
      assert s[2..][0] == ZERO && s[2..][1] == ZERO;
      assert s[2..][2] == HexDigit(c as int / 16) && s[2..][3] == HexDigit(c as int % 16);
      assert ReadHex4(s[2..]) == c as int;
    }
  }

  /** Reading the text of an octet gives the octet, then what follows. */
  lemma UnescapeByte(c: byte, tail: Bytes, text: Bytes, rest: Bytes)
    requires c != 0 && Unescape(tail) == Ok(text, rest)
    ensures Unescape(EscapeByte(c) + tail) == Ok([c] + text, rest)
  {
    var s := EscapeByte(c) + tail;
    EscapedByteRead(c, tail);
    assert s[|EscapeByte(c)|..] == tail;
  }

  lemma {:induction false} EscapeRead(text: Bytes, rest: Bytes)
    requires NoNul(text)
    ensures Unescape(Escape(text) + [QUOTE] + rest) == Ok(text, rest)
    decreases |text|
  {
    if text == [] {
      var s := Escape(text) + [QUOTE] + rest;
      assert s[0] == QUOTE && s[1..] == rest;
    } else {
      EscapeText(text, rest);
      EscapeRead(text[1..], rest);
      UnescapeByte(text[0], Escape(text[1..]) + [QUOTE] + rest, text[1..], rest);
      assert [text[0]] + text[1..] == text;
    }
  }

  /** The text of a string is that of its first octet, then that of the others. */
  lemma EscapeText(text: Bytes, rest: Bytes)
    requires text != []
    ensures Escape(text) + [QUOTE] + rest == EscapeByte(text[0]) + (Escape(text[1..]) + [QUOTE] + rest)
  {
    var first, more := EscapeByte(text[0]), Escape(text[1..]);
    Assoc(first, more, [QUOTE]);
    Assoc(first, more + [QUOTE], rest);
  }

  lemma StringRead(text: Bytes, rest: Bytes)
    requires NoNul(text)
    ensures PrintString(text)[0] == QUOTE
    ensures ParseString(PrintString(text) + rest) == Ok(text, rest)
  {
    var s := PrintString(text) + rest;
    assert s[1..] == Escape(text) + [QUOTE] + rest;
    EscapeRead(text, rest);
  }

  // ---------------------------------------------------------------- white space

  lemma {:induction false} SkipTabs(n: nat, s: Bytes)
    ensures Skip(Tabs(n) + s) == Skip(s)
    decreases n
  {
    if n == 0 {
      assert Tabs(n) + s == s;
    } else {
      assert (Tabs(n) + s)[1..] == Tabs(n - 1) + s;
      SkipTabs(n - 1, s);
    }
  }

  lemma SkipOne(c: byte, s: Bytes)
    requires 0 < c <= 32
    ensures Skip([c] + s) == Skip(s)
  {
    assert ([c] + s)[1..] == s;
  }

  /** Layout printed only in formatted mode is skipped by the parser. */
  lemma SkipLayout(fmt: bool, n: nat, s: Bytes)
    ensures Skip(When(fmt, Tabs(n)) + s) == Skip(s)
    ensures Skip(When(fmt, [TAB]) + s) == Skip(s)
    ensures Skip(When(fmt, [SPACE]) + s) == Skip(s)
    ensures Skip(When(fmt, [NEWLINE]) + s) == Skip(s)
  {
    if fmt {
      SkipTabs(n, s);
      SkipOne(TAB, s);
      SkipOne(SPACE, s);
      SkipOne(NEWLINE, s);
    } else {
      assert [] + s == s;
    }
  }

  /** A value starts with a visible character, which no closing bracket is. */
  lemma ValueStarts(j: Json, depth: nat, fmt: bool)
    requires Printable(j)
    ensures var text := PrintValue(j, depth, fmt);
            text != [] && text[0] > 32 && text[0] != RBRACKET && text[0] != RBRACE
  {
  }

  // ---------------------------------------------------------------- values

  lemma PrefixHead(s: Bytes, word: Bytes)
    requires word != [] && HasPrefix(s, word)
    ensures Head(s) == word[0]
  {
    assert s[..|word|][0] == word[0];
  }

  /** The keyword tests all fail on text that starts with none of their first letters. */
  lemma NoKeyword(s: Bytes)
    ensures Head(s) != 110 ==> !HasPrefix(s, NULL_TEXT)
    ensures Head(s) != 102 ==> !HasPrefix(s, FALSE_TEXT)
    ensures Head(s) != 116 ==> !HasPrefix(s, TRUE_TEXT)
  {
    if HasPrefix(s, NULL_TEXT) { PrefixHead(s, NULL_TEXT); }
    if HasPrefix(s, FALSE_TEXT) { PrefixHead(s, FALSE_TEXT); }
    if HasPrefix(s, TRUE_TEXT) { PrefixHead(s, TRUE_TEXT); }
  }

  lemma {:induction false} ValueRoundTrip(j: Json, depth: nat, fmt: bool, rest: Bytes)
    requires Printable(j) && Delimited(rest)
    ensures ParseValue(PrintValue(j, depth, fmt) + rest) == Ok(Canonical(j), rest)
    decreases j
  {
    var s := PrintValue(j, depth, fmt) + rest;
    NoKeyword(s);
    match j {
      case Null => assert s[..4] == NULL_TEXT && s[4..] == rest;
      case Bool(b) =>
        if b {
          assert s[..4] == TRUE_TEXT && s[4..] == rest;
        } else {
          assert s[..5] == FALSE_TEXT && s[5..] == rest;
        }
      case Int(value, signed) => IntRead(value, signed, rest);
      case Str(text) => StringRead(text, rest);
      case Arr(items) => ArrayRoundTrip(items, depth, fmt, rest);
      case Obj(fields) => ObjectRoundTrip(fields, depth, fmt, rest);
    }
  }

  /** The text of an array behind its opening bracket. */
  lemma ArrayText(items: Items, depth: nat, fmt: bool, rest: Bytes)
    requires PrintableItems(items)
    ensures var s := PrintValue(Arr(items), depth, fmt) + rest;
            && Head(s) == LBRACKET
            && s[1..] == PrintItems(items, depth + 1, fmt) + ([RBRACKET] + rest)
  {
    Assoc(PrintItems(items, depth + 1, fmt), [RBRACKET], rest);
    Assoc([LBRACKET], PrintItems(items, depth + 1, fmt) + [RBRACKET], rest);
  }

  lemma {:induction false} ArrayRoundTrip(items: Items, depth: nat, fmt: bool, rest: Bytes)
    requires PrintableItems(items)
    ensures var s := PrintValue(Arr(items), depth, fmt) + rest;
            Head(s) == LBRACKET && ParseArray(s) == Ok(Arr(CanonicalItems(items)), rest)
    decreases items, 1
  {
    var tail := PrintItems(items, depth + 1, fmt) + ([RBRACKET] + rest);
    ArrayText(items, depth, fmt, rest);
    if items.NoItems? {
      assert tail == [RBRACKET] + rest && tail[1..] == rest;
    } else {
      ItemsStart(items, depth + 1, fmt, [RBRACKET] + rest);
      ItemsRoundTrip(items, depth + 1, fmt, rest);
    }
  }

  /** The text of an array's elements starts with a value, so nothing is skipped before it. */
  lemma ItemsStart(items: Items, depth: nat, fmt: bool, closing: Bytes)
    requires items.Items? && PrintableItems(items)
    ensures var s := PrintItems(items, depth, fmt) + closing;
            && s == PrintValue(items.head, depth, fmt) + AfterItem(items, depth, fmt, closing)
            && Skip(s) == s && Head(s) != RBRACKET
  {
    var value := PrintValue(items.head, depth, fmt);
    var after := ItemSeparator(items, fmt) + PrintItems(items.tail, depth, fmt);
    Assoc(value, after, closing);
    Assoc(ItemSeparator(items, fmt), PrintItems(items.tail, depth, fmt), closing);
    ValueStarts(items.head, depth, fmt);
  }

  /** The text behind an element. */
  ghost function AfterItem(items: Items, depth: nat, fmt: bool, closing: Bytes): Bytes
    requires items.Items? && PrintableItems(items)
  {
    ItemSeparator(items, fmt) + (PrintItems(items.tail, depth, fmt) + closing)
  }

  lemma {:induction false} ItemsRoundTrip(items: Items, depth: nat, fmt: bool, rest: Bytes)
    requires items.Items? && PrintableItems(items)
    ensures ParseItems(PrintItems(items, depth, fmt) + ([RBRACKET] + rest)) == Ok(CanonicalItems(items), rest)
    decreases items, 0
  {
    var closing := [RBRACKET] + rest;
    var after := AfterItem(items, depth, fmt, closing);
    ItemsStart(items, depth, fmt, closing);
    var more := PrintItems(items.tail, depth, fmt) + closing;
    if items.tail.NoItems? {
      assert after == closing && after[1..] == rest;
      ValueRoundTrip(items.head, depth, fmt, after);
    } else {
      Assoc([COMMA], When(fmt, [SPACE]), more);
      assert after[1..] == When(fmt, [SPACE]) + more;
      ValueRoundTrip(items.head, depth, fmt, after);
      ItemsRoundTrip(items.tail, depth, fmt, rest);
      SkipLayout(fmt, 0, more);
      ItemsIgnoreLayout(after[1..], more);
    }
  }

  lemma ItemsIgnoreLayout(s: Bytes, t: Bytes)
    requires Skip(s) == Skip(t)
    ensures ParseItems(s) == ParseItems(t)
  {
  }

  lemma FieldsIgnoreLayout(s: Bytes, t: Bytes)
    requires Skip(s) == Skip(t)
    ensures ParseFields(s) == ParseFields(t)
  {
  }

  /** Everything printed behind the fields of an object. */
  ghost function Closing(depth: nat, fmt: bool, rest: Bytes): Bytes {
    When(fmt, Tabs(depth)) + ([RBRACE] + rest)
  }

  lemma SkipToClosing(depth: nat, fmt: bool, rest: Bytes)
    ensures Skip(Closing(depth, fmt, rest)) == [RBRACE] + rest
  {
    SkipLayout(fmt, depth, [RBRACE] + rest);
  }

  /** The text of an object behind its opening brace. */
  lemma ObjectText(fields: Fields, depth: nat, fmt: bool, rest: Bytes)
    requires PrintableFields(fields)
    ensures var s := PrintValue(Obj(fields), depth, fmt) + rest;
            && Head(s) == LBRACE
            && s[1..] == When(fmt, [NEWLINE]) + (PrintFields(fields, depth + 1, fmt) + Closing(depth, fmt, rest))
  {
    var body, end := PrintFields(fields, depth + 1, fmt), When(fmt, Tabs(depth));
    Assoc([LBRACE], When(fmt, [NEWLINE]) + (body + (end + [RBRACE])), rest);
    Assoc(When(fmt, [NEWLINE]), body + (end + [RBRACE]), rest);
    Assoc(body, end + [RBRACE], rest);
    Assoc(end, [RBRACE], rest);
  }

  lemma EmptyObjectRead(s: Bytes, rest: Bytes)
    requires Head(s) == LBRACE && Skip(s[1..]) == [RBRACE] + rest
    ensures ParseObject(s) == Ok(Obj(NoFields), rest)
  {
    assert ([RBRACE] + rest)[1..] == rest;
  }

  lemma ObjectRead(s: Bytes, body: Bytes, fields: Fields, rest: Bytes)
    requires Head(s) == LBRACE && Skip(s[1..]) == Skip(body) && Head(Skip(body)) != RBRACE
    requires ParseFields(body) == Ok(fields, rest)
    ensures ParseObject(s) == Ok(Obj(fields), rest)
  {
    SkipTwice(body);
    FieldsIgnoreLayout(Skip(body), body);
  }

  lemma {:induction false} ObjectRoundTrip(fields: Fields, depth: nat, fmt: bool, rest: Bytes)
    requires PrintableFields(fields)
    ensures var s := PrintValue(Obj(fields), depth, fmt) + rest;
            Head(s) == LBRACE && ParseObject(s) == Ok(Obj(CanonicalFields(fields)), rest)
    decreases fields, 1
  {
    if fields.NoFields? {
      EmptyObjectRoundTrip(depth, fmt, rest);
    } else {
      FieldsRoundTrip(fields, depth + 1, fmt, depth, rest);
      FilledObjectRead(fields, depth, fmt, rest);
    }
  }

  lemma EmptyObjectRoundTrip(depth: nat, fmt: bool, rest: Bytes)
    ensures var s := PrintValue(Obj(NoFields), depth, fmt) + rest;
            Head(s) == LBRACE && ParseObject(s) == Ok(Obj(NoFields), rest)
  {
    ObjectText(NoFields, depth, fmt, rest);
    var body := PrintFields(NoFields, depth + 1, fmt) + Closing(depth, fmt, rest);
    assert body == Closing(depth, fmt, rest);
    SkipLayout(fmt, 0, body);
    SkipToClosing(depth, fmt, rest);
    EmptyObjectRead(PrintValue(Obj(NoFields), depth, fmt) + rest, rest);
  }

  lemma FilledObjectRead(fields: Fields, depth: nat, fmt: bool, rest: Bytes)
    requires fields.Fields? && PrintableFields(fields)
    requires ParseFields(PrintFields(fields, depth + 1, fmt) + Closing(depth, fmt, rest))
             == Ok(CanonicalFields(fields), rest)
    ensures var s := PrintValue(Obj(fields), depth, fmt) + rest;
            Head(s) == LBRACE && ParseObject(s) == Ok(Obj(CanonicalFields(fields)), rest)
  {
    var body := PrintFields(fields, depth + 1, fmt) + Closing(depth, fmt, rest);
    ObjectText(fields, depth, fmt, rest);
    SkipLayout(fmt, 0, body);
    FieldsStart(fields, depth + 1, fmt, Closing(depth, fmt, rest));
    ObjectRead(PrintValue(Obj(fields), depth, fmt) + rest, body, CanonicalFields(fields), rest);
  }

  lemma {:induction false} SkipTwice(s: Bytes)
    ensures Skip(Skip(s)) == Skip(s)
    decreases |s|
  {
    if s != [] && 0 < s[0] <= 32 {
      SkipTwice(s[1..]);
    }
  }

  /** The text of a member from its name on. */
  ghost function Member(fields: Fields, depth: nat, fmt: bool, after: Bytes): Bytes
    requires fields.Fields? && PrintableFields(fields)
  {
    PrintName(fields.name, fmt) + (PrintValue(fields.head, depth, fmt) + after)
  }

  /** The text behind a member's value. */
  ghost function AfterMember(fields: Fields, depth: nat, fmt: bool, closing: Bytes): Bytes
    requires fields.Fields? && PrintableFields(fields)
  {
    FieldSeparator(fields, fmt) + (PrintFields(fields.tail, depth, fmt) + closing)
  }

  lemma FieldsText(fields: Fields, depth: nat, fmt: bool, closing: Bytes)
    requires fields.Fields? && PrintableFields(fields)
    ensures PrintFields(fields, depth, fmt) + closing
            == When(fmt, Tabs(depth)) + Member(fields, depth, fmt, AfterMember(fields, depth, fmt, closing))
  {
    var tabs, name, value := When(fmt, Tabs(depth)), PrintName(fields.name, fmt), PrintValue(fields.head, depth, fmt);
    var sep, more := FieldSeparator(fields, fmt), PrintFields(fields.tail, depth, fmt);
    Assoc(tabs, name + (value + (sep + more)), closing);
    Assoc(name, value + (sep + more), closing);
    Assoc(value, sep + more, closing);
    Assoc(sep, more, closing);
  }

  lemma FieldsStart(fields: Fields, depth: nat, fmt: bool, closing: Bytes)
    requires fields.Fields? && PrintableFields(fields)
    ensures var member := Member(fields, depth, fmt, AfterMember(fields, depth, fmt, closing));
            && Skip(PrintFields(fields, depth, fmt) + closing) == member
            && Head(member) == QUOTE
  {
    var member := Member(fields, depth, fmt, AfterMember(fields, depth, fmt, closing));
    FieldsText(fields, depth, fmt, closing);
    SkipLayout(fmt, depth, member);
    assert member[0] == PrintName(fields.name, fmt)[0] == PrintString(fields.name)[0] == QUOTE;
  }

  /** At the front of `s` the parser finds a member `name: v`, and `after` is the text behind it. */
  ghost predicate ReadsMember(s: Bytes, name: Bytes, v: Json, after: Bytes) {
    var n := ParseString(s);
    && n.Ok? && n.value == name
    && Head(Skip(n.rest)) == COLON
    && ParseValue(Skip(Skip(n.rest)[1..])) == Ok(v, after)
  }

  lemma MemberRead(fields: Fields, depth: nat, fmt: bool, after: Bytes)
    requires fields.Fields? && PrintableFields(fields)
    requires ParseValue(PrintValue(fields.head, depth, fmt) + after) == Ok(Canonical(fields.head), after)
    ensures ReadsMember(Member(fields, depth, fmt, after), fields.name, Canonical(fields.head), after)
  {
    var value := PrintValue(fields.head, depth, fmt) + after;
    var behind := ([COLON] + When(fmt, [TAB])) + value;
    Assoc(PrintString(fields.name), [COLON] + When(fmt, [TAB]), value);
    StringRead(fields.name, behind);
    Assoc([COLON], When(fmt, [TAB]), value);
    assert Skip(behind) == behind && behind[1..] == When(fmt, [TAB]) + value;
    SkipLayout(fmt, 0, value);
    ValueStarts(fields.head, depth, fmt);
    assert Skip(value) == value;
  }

  lemma LastFieldRead(s: Bytes, name: Bytes, v: Json, after: Bytes, rest: Bytes)
    requires ReadsMember(Skip(s), name, v, after)
    requires Skip(after) == [RBRACE] + rest
    ensures ParseFields(s) == Ok(Fields(name, v, NoFields), rest)
  {
    assert ([RBRACE] + rest)[1..] == rest;
  }

  lemma FieldRead(s: Bytes, name: Bytes, v: Json, after: Bytes, more: Bytes)
    requires ReadsMember(Skip(s), name, v, after)
    requires Head(after) == COMMA && ParseFields(after[1..]) == ParseFields(more)
    ensures ParseFields(more).Ok? ==>
              ParseFields(s) == Ok(Fields(name, v, ParseFields(more).value), ParseFields(more).rest)
  {
    assert Skip(after) == after;
  }

  lemma {:induction false} FieldsRoundTrip(fields: Fields, depth: nat, fmt: bool, outer: nat, rest: Bytes)
    requires fields.Fields? && PrintableFields(fields)
    ensures ParseFields(PrintFields(fields, depth, fmt) + Closing(outer, fmt, rest))
            == Ok(CanonicalFields(fields), rest)
    decreases fields, 0
  {
    var closing := Closing(outer, fmt, rest);
    var s := PrintFields(fields, depth, fmt) + closing;
    var after := AfterMember(fields, depth, fmt, closing);
    FieldsStart(fields, depth, fmt, closing);
    if fields.tail.NoFields? {
      LastMember(fields, depth, fmt, outer, rest);
      ValueRoundTrip(fields.head, depth, fmt, after);
      MemberRead(fields, depth, fmt, after);
      LastFieldRead(s, fields.name, Canonical(fields.head), after, rest);
    } else {
      var more := PrintFields(fields.tail, depth, fmt) + closing;
      NextMember(fields, depth, fmt, closing);
      ValueRoundTrip(fields.head, depth, fmt, after);
      MemberRead(fields, depth, fmt, after);
      FieldsRoundTrip(fields.tail, depth, fmt, outer, rest);
      FieldRead(s, fields.name, Canonical(fields.head), after, more);
    }
  }

  /** Behind any other member come a comma and, after layout, the next member. */
  lemma NextMember(fields: Fields, depth: nat, fmt: bool, closing: Bytes)
    requires fields.Fields? && PrintableFields(fields) && fields.tail.Fields?
    ensures var after := AfterMember(fields, depth, fmt, closing);
            && Delimited(after) && Head(after) == COMMA
            && ParseFields(after[1..]) == ParseFields(PrintFields(fields.tail, depth, fmt) + closing)
  {
    var more := PrintFields(fields.tail, depth, fmt) + closing;
    var after := AfterMember(fields, depth, fmt, closing);
    Assoc([COMMA], When(fmt, [NEWLINE]), more);
    assert after[1..] == When(fmt, [NEWLINE]) + more;
    SkipLayout(fmt, 0, more);
    FieldsIgnoreLayout(after[1..], more);
  }

  /** Behind the last member only layout precedes the closing brace. */
  lemma LastMember(fields: Fields, depth: nat, fmt: bool, outer: nat, rest: Bytes)
    requires fields.Fields? && PrintableFields(fields) && fields.tail.NoFields?
    ensures var after := AfterMember(fields, depth, fmt, Closing(outer, fmt, rest));
            Delimited(after) && Skip(after) == [RBRACE] + rest
  {
    var closing := Closing(outer, fmt, rest);
    var after := AfterMember(fields, depth, fmt, closing);
    assert FieldSeparator(fields, fmt) == When(fmt, [NEWLINE]);
    assert PrintFields(fields.tail, depth, fmt) + closing == closing;
    assert after == When(fmt, [NEWLINE]) + closing;
    SkipLayout(fmt, 0, closing);
    SkipToClosing(outer, fmt, rest);
    if !fmt {
      assert after == [] + closing == [RBRACE] + rest;
    }
  }

  // ---------------------------------------------------------------- the two theorems

  /** Parsing the printed text gives the tree back, up to the sign flag of non-negative integers. */
  lemma ParseUndoesPrint(j: Json, fmt: bool)
    requires Printable(j)
    ensures Parse(PrintValue(j, 0, fmt)) == Ok(Canonical(j), [])
  {
    var text := PrintValue(j, 0, fmt);
    assert text + [] == text;
    ValueStarts(j, 0, fmt);
    ValueRoundTrip(j, 0, fmt, []);
  }

  lemma {:induction false} CanonicalPrintsAlike(j: Json, depth: nat, fmt: bool)
    requires Printable(j)
    ensures Printable(Canonical(j)) && PrintValue(Canonical(j), depth, fmt) == PrintValue(j, depth, fmt)
    decreases j
  {
    match j {
      case Int(value, _) => assert value >= 0 ==> value % UINT64_LIMIT == value;
      case Arr(items) => CanonicalItemsPrintAlike(items, depth + 1, fmt);
      case Obj(fields) => CanonicalFieldsPrintAlike(fields, depth + 1, fmt);
      case _ =>
    }
  }

  lemma {:induction false} CanonicalItemsPrintAlike(items: Items, depth: nat, fmt: bool)
    requires PrintableItems(items)
    ensures PrintableItems(CanonicalItems(items))
    ensures PrintItems(CanonicalItems(items), depth, fmt) == PrintItems(items, depth, fmt)
    decreases items
  {
    if items.Items? {
      CanonicalPrintsAlike(items.head, depth, fmt);
      CanonicalItemsPrintAlike(items.tail, depth, fmt);
    }
  }

  lemma {:induction false} CanonicalFieldsPrintAlike(fields: Fields, depth: nat, fmt: bool)
    requires PrintableFields(fields)
    ensures PrintableFields(CanonicalFields(fields))
    ensures PrintFields(CanonicalFields(fields), depth, fmt) == PrintFields(fields, depth, fmt)
    decreases fields
  {
    if fields.Fields? {
      CanonicalPrintsAlike(fields.head, depth, fmt);
      CanonicalFieldsPrintAlike(fields.tail, depth, fmt);
    }
  }

  /** Printing what was parsed back reproduces the text, whichever layout each of the two prints uses. */
  lemma ReprintReproduces(j: Json, fmt: bool, depth: nat, layout: bool)
    requires Printable(j)
    ensures var back := Parse(PrintValue(j, 0, fmt));
            && back.Ok? && Printable(back.value)
            && PrintValue(back.value, depth, layout) == PrintValue(j, depth, layout)
  {
    ParseUndoesPrint(j, fmt);
    CanonicalPrintsAlike(j, depth, layout);
  }
}
