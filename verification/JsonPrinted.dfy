/** Every printed text is in the grammar and means the tree it was printed from. */
module JsonPrinted {
  import opened Basics
  import opened Octets
  import opened JsonTree
  import G = JsonGrammar

  // ---------------------------------------------------------------- the grammar text of a tree

  function DigitsOf(n: nat): (d: seq<nat>)
    ensures d != [] && G.AreDigits(d)
  {
    if n < 10 then [n] else DigitsOf(n / 10) + [n % 10]
  }

  function NumberOf(value: int): G.Number {
    G.Number(value < 0, DigitsOf(if value < 0 then -value else value), [], G.NoPower)
  }

  function CharOf(c: byte): G.Char {
    if c == 8 then G.Short(98)
    else if c == 9 then G.Short(116)
    else if c == 10 then G.Short(110)
    else if c == 12 then G.Short(102)
    else if c == 13 then G.Short(114)
    else if c == 34 || c == 92 then G.Short(c)
    else if c < 32 then G.Unicode([48, 48, 48 + c as int / 16, LowerDigit(c as int % 16)], [c])
    else G.Raw(c)
  }

  function LowerDigit(v: nat): byte
    requires v < 16
  {
    if v < 10 then 48 + v else 87 + v
  }

  function CharsOf(s: Bytes): (chars: seq<G.Char>)
    ensures |chars| == |s|
  {
    if s == [] then [] else [CharOf(s[0])] + CharsOf(s[1..])
  }

  function LineStart(fmt: bool, depth: nat): Bytes {
    if fmt then [10] + seq(depth, _ => 9) else []
  }

  ghost function TextOf(j: Json, depth: nat, fmt: bool): G.Text
    requires Printable(j)
    decreases j
  {
    match j
    case Null => G.NullText
    case Bool(b) => if b then G.TrueText else G.FalseText
    case Int(value, _) => G.NumberText(NumberOf(value))
    case Str(text) => G.StringText(CharsOf(text))
    case Arr(items) => if items.NoItems? then G.EmptyArray([]) else G.ArrayText(ElementsOf(items, [], depth + 1, fmt))
    case Obj(fields) =>
      if fields.NoFields? then G.EmptyObject(LineStart(fmt, depth)) else G.ObjectText(MembersOf(fields, depth + 1, fmt))
  }

  ghost function ElementsOf(items: Items, before: Bytes, depth: nat, fmt: bool): G.Elements
    requires items.Items? && PrintableItems(items)
    decreases items
  {
    var head := TextOf(items.head, depth, fmt);
    if items.tail.NoItems? then G.Last(before, head, [])
    else G.More(before, head, [], ElementsOf(items.tail, if fmt then [32] else [], depth, fmt))
  }

  ghost function MembersOf(fields: Fields, depth: nat, fmt: bool): G.Members
    requires fields.Fields? && PrintableFields(fields) && depth > 0
    decreases fields
  {
    var value := TextOf(fields.head, depth, fmt);
    var after := if fields.tail.NoFields? then LineStart(fmt, depth - 1) else [];
    var member := G.Member(LineStart(fmt, depth), CharsOf(fields.name), [], if fmt then [9] else [], value, after);
    if fields.tail.NoFields? then G.LastMember(member) else G.MoreMembers(member, MembersOf(fields.tail, depth, fmt))
  }

  // ---------------------------------------------------------------- its parts

  lemma {:induction false} DigitsSpell(n: nat)
    ensures G.SpellDigits(DigitsOf(n)) == Decimal(n) && G.MeantByDigits(DigitsOf(n)) == n
    ensures DigitsOf(n)[0] == 0 ==> n == 0
    decreases n
  {
    var d := DigitsOf(n);
    if n < 10 {
      assert d[..0] == [] && G.MeantByDigits(d) == 10 * G.MeantByDigits(d[..0]) + n;
    } else {
      DigitsSpell(n / 10);
      assert d[..|d| - 1] == DigitsOf(n / 10);
      assert G.SpellDigits(d) == G.SpellDigits(d[..|d| - 1]) + [48 + n % 10];
    }
  }

  lemma NumberSpells(value: int)
    ensures G.IsNumber(NumberOf(value)) && G.MeantByNumber(NumberOf(value)) == Int(value, value < 0)
    ensures G.SpellUnsigned(NumberOf(value)) == Decimal(if value < 0 then -value else value)
  {
    var n, number := if value < 0 then -value else value, NumberOf(value);
    DigitsSpell(n);
    assert number.whole + number.fraction == number.whole;
    var none: Bytes := [];
    assert Decimal(n) + (none + none) == Decimal(n);
  }

  lemma IntSpells(value: int, signed: bool)
    requires Printable(Int(value, signed))
    ensures G.IsNumber(NumberOf(value))
    ensures G.SpellNumber(NumberOf(value)) == PrintInt(value, signed)
    ensures G.MeantByNumber(NumberOf(value)) == Canonical(Int(value, signed))
  {
    NumberSpells(value);
    if value >= 0 {
      SameBits(value);
      assert PrintInt(value, signed) == Decimal(value);
      assert [] + Decimal(value) == Decimal(value);
    }
  }

  lemma SameBits(value: int)
    requires 0 <= value < INT64_LIMIT
    ensures value % UINT64_LIMIT == value
  {
  }

  lemma CharSpells(c: byte)
    requires c != 0
    ensures G.IsChar(CharOf(c)) && G.SpellChar(CharOf(c)) == EscapeByte(c) && G.MeantByChar(CharOf(c)) == [c]
  {
    if c < 32 && CharOf(c).Unicode? {
      assert c as int / 16 < 2;
      assert G.CodeUnit(CharOf(c).digits) == c as int / 16 * 16 + c as int % 16 == c as int;
    }
  }

  lemma {:induction false} CharsSpell(s: Bytes)
    requires NoNul(s)
    ensures G.AreChars(CharsOf(s)) && G.SpellChars(CharsOf(s)) == Escape(s) && G.MeantByChars(CharsOf(s)) == s
    decreases |s|
  {
    if s != [] {
      CharSpells(s[0]);
      CharsSpell(s[1..]);
      var chars := CharsOf(s);
      assert chars[1..] == CharsOf(s[1..]);
      assert forall i :: 0 < i < |chars| ==> chars[i] == chars[1..][i - 1];
      assert [s[0]] + s[1..] == s;
    }
  }

  lemma StringSpells(s: Bytes)
    requires NoNul(s)
    ensures G.AreChars(CharsOf(s)) && G.SpellString(CharsOf(s)) == PrintString(s) && G.MeantByChars(CharsOf(s)) == s
  {
    CharsSpell(s);
    Assoc([34], Escape(s), [34]);
  }

  lemma {:induction false} TabsAlike(n: nat)
    ensures Tabs(n) == seq(n, _ => 9)
    decreases n
  {
    if n > 0 {
      TabsAlike(n - 1);
    }
  }

  lemma LineStartBlank(fmt: bool, depth: nat)
    ensures G.IsBlank(LineStart(fmt, depth))
    ensures LineStart(fmt, depth) == When(fmt, [10]) + When(fmt, Tabs(depth))
  {
    TabsAlike(depth);
  }

  // ---------------------------------------------------------------- groupings

  lemma LastGroup(value: Bytes, close: Bytes)
    ensures value + ([] + close) == (value + ([] + [])) + close
  {
    var none: Bytes := [];
    assert none + close == close && none + none == none && value + none == value;
  }

  lemma MoreGroup(value: Bytes, gap: Bytes, more: Bytes, close: Bytes)
    ensures value + ([] + ([44] + (gap + (more + close)))) == (value + (([44] + gap) + more)) + close
  {
    var tail := [44] + (gap + (more + close));
    assert [] + tail == tail;
    Assoc([44], gap, more + close);
    Assoc([44] + gap, more, close);
    Assoc(value, ([44] + gap) + more, close);
  }

  /** The text of a member, grouped as the grammar does and as the printer does. */
  lemma MemberGroup(line: Bytes, tabs: Bytes, name: Bytes, gap: Bytes, value: Bytes, end: Bytes, close: Bytes)
    ensures (line + tabs) + (name + ([] + ([58] + (gap + (value + (end + close))))))
            == line + ((tabs + ((name + ([58] + gap)) + (value + end))) + close)
  {
    var colon, body := [58] + gap, value + end;
    var tail := [58] + (gap + (value + (end + close)));
    assert [] + tail == tail;
    Assoc(value, end, close);
    Assoc([58], gap, body + close);
    Assoc(name, colon, body + close);
    Assoc(name + colon, body, close);
    Assoc(tabs, (name + colon) + body, close);
    Assoc(line, tabs, ((name + colon) + body) + close);
  }

  lemma SpellLast(before: Bytes, head: G.Text)
    requires G.IsBlank(before) && G.IsText(head)
    ensures G.AreElements(G.Last(before, head, []))
    ensures G.SpellElements(G.Last(before, head, [])) == before + (G.Spell(head) + ([] + [93]))
  {
  }

  lemma SpellMore(before: Bytes, head: G.Text, tail: G.Elements)
    requires G.IsBlank(before) && G.IsText(head) && G.AreElements(tail)
    ensures G.AreElements(G.More(before, head, [], tail))
    ensures G.SpellElements(G.More(before, head, [], tail))
            == before + (G.Spell(head) + ([] + ([44] + G.SpellElements(tail))))
  {
  }

  /** What is behind a member's value. */
  function Behind(m: G.Members): Bytes
    requires G.AreMembers(m)
  {
    m.member.after + if m.LastMember? then [125] else [44] + G.SpellMembers(m.tail)
  }

  lemma SpellMember(m: G.Members)
    requires G.AreMembers(m)
    ensures G.SpellMembers(m)
            == m.member.before + (G.SpellString(m.member.name) + (m.member.beforeColon + ([58] + (m.member.afterColon
               + (G.Spell(m.member.value) + Behind(m))))))
  {
  }

  // ---------------------------------------------------------------- whole texts

  /** Printing a tree spells a text of the grammar, and that text means the tree with the parser's sign flags. */
  lemma {:induction false} PrintedIsText(j: Json, depth: nat, fmt: bool)
    requires Printable(j)
    ensures G.IsText(TextOf(j, depth, fmt))
    ensures G.Spell(TextOf(j, depth, fmt)) == PrintValue(j, depth, fmt)
    ensures G.Meant(TextOf(j, depth, fmt)) == Canonical(j)
    decreases j, 1
  {
    match j {
      case Int(value, signed) => IntSpells(value, signed);
      case Str(text) => StringSpells(text);
      case Arr(items) => ArrayPrinted(items, depth, fmt);
      case Obj(fields) => ObjectPrinted(fields, depth, fmt);
      case _ =>
    }
  }

  lemma {:induction false} ArrayPrinted(items: Items, depth: nat, fmt: bool)
    requires PrintableItems(items)
    ensures var t := TextOf(Arr(items), depth, fmt);
            G.IsText(t) && G.Spell(t) == PrintValue(Arr(items), depth, fmt) && G.Meant(t) == Arr(CanonicalItems(items))
    decreases items, 1
  {
    if items.Items? {
      ElementsPrinted(items, [], depth + 1, fmt);
      var body := PrintItems(items, depth + 1, fmt) + [93];
      assert [] + body == body;
    } else {
      assert [] + [93] == [93];
    }
  }

  lemma {:induction false} ObjectPrinted(fields: Fields, depth: nat, fmt: bool)
    requires PrintableFields(fields)
    ensures var t := TextOf(Obj(fields), depth, fmt);
            && G.IsText(t) && G.Spell(t) == PrintValue(Obj(fields), depth, fmt)
            && G.Meant(t) == Obj(CanonicalFields(fields))
    decreases fields, 1
  {
    if fields.Fields? {
      var m := MembersOf(fields, depth + 1, fmt);
      MembersPrinted(fields, depth + 1, fmt);
      TextOfObject(fields, depth, fmt);
      FilledObject(fields, depth, fmt, m);
    } else {
      TextOfObject(fields, depth, fmt);
      EmptyObjectPrinted(depth, fmt);
    }
  }

  lemma TextOfObject(fields: Fields, depth: nat, fmt: bool)
    requires PrintableFields(fields)
    ensures TextOf(Obj(fields), depth, fmt)
            == if fields.Fields? then G.ObjectText(MembersOf(fields, depth + 1, fmt))
               else G.EmptyObject(LineStart(fmt, depth))
  {
  }

  lemma EmptyObjectPrinted(depth: nat, fmt: bool)
    ensures var t := G.EmptyObject(LineStart(fmt, depth));
            G.IsText(t) && G.Spell(t) == PrintValue(Obj(NoFields), depth, fmt) && G.Meant(t) == Obj(NoFields)
  {
    var close := When(fmt, Tabs(depth)) + [125];
    LineStartBlank(fmt, depth);
    assert [] + close == close;
    Assoc(When(fmt, [10]), When(fmt, Tabs(depth)), [125]);
  }

  lemma SpellObject(m: G.Members)
    requires G.AreMembers(m)
    ensures G.IsText(G.ObjectText(m)) && G.Spell(G.ObjectText(m)) == [123] + G.SpellMembers(m)
    ensures G.Meant(G.ObjectText(m)) == Obj(G.MeantByMembers(m))
  {
  }

  lemma ObjectPrints(fields: Fields, depth: nat, fmt: bool)
    requires PrintableFields(fields)
    ensures PrintValue(Obj(fields), depth, fmt)
            == [123] + (When(fmt, [10]) + (PrintFields(fields, depth + 1, fmt) + CloseOf(depth + 1, fmt)))
  {
  }

  lemma FilledObject(fields: Fields, depth: nat, fmt: bool, m: G.Members)
    requires fields.Fields? && PrintableFields(fields) && G.AreMembers(m)
    requires G.MeantByMembers(m) == CanonicalFields(fields)
    requires G.SpellMembers(m) == When(fmt, [10]) + (PrintFields(fields, depth + 1, fmt) + CloseOf(depth + 1, fmt))
    ensures var t := G.ObjectText(m);
            && G.IsText(t) && G.Spell(t) == PrintValue(Obj(fields), depth, fmt)
            && G.Meant(t) == Obj(CanonicalFields(fields))
  {
    SpellObject(m);
    ObjectPrints(fields, depth, fmt);
  }

  lemma {:induction false} ElementsPrinted(items: Items, before: Bytes, depth: nat, fmt: bool)
    requires items.Items? && PrintableItems(items) && G.IsBlank(before)
    ensures var e := ElementsOf(items, before, depth, fmt);
            && G.AreElements(e) && G.MeantByElements(e) == CanonicalItems(items)
            && G.SpellElements(e) == before + (PrintItems(items, depth, fmt) + [93])
    decreases items, 0
  {
    var head, value := TextOf(items.head, depth, fmt), PrintValue(items.head, depth, fmt);
    PrintedIsText(items.head, depth, fmt);
    if items.tail.NoItems? {
      SpellLast(before, head);
      LastGroup(value, [93]);
    } else {
      var gap: Bytes := if fmt then [32] else [];
      ElementsPrinted(items.tail, gap, depth, fmt);
      SpellMore(before, head, ElementsOf(items.tail, gap, depth, fmt));
      MoreGroup(value, gap, PrintItems(items.tail, depth, fmt), [93]);
    }
  }

  lemma MembersMean(fields: Fields, depth: nat, fmt: bool)
    requires fields.Fields? && PrintableFields(fields) && depth > 0
    requires G.IsText(TextOf(fields.head, depth, fmt))
    requires G.Meant(TextOf(fields.head, depth, fmt)) == Canonical(fields.head)
    requires fields.tail.Fields? ==> G.AreMembers(MembersOf(fields.tail, depth, fmt))
    requires fields.tail.Fields? ==>
               G.MeantByMembers(MembersOf(fields.tail, depth, fmt)) == CanonicalFields(fields.tail)
    ensures G.AreMembers(MembersOf(fields, depth, fmt))
    ensures G.MeantByMembers(MembersOf(fields, depth, fmt)) == CanonicalFields(fields)
  {
    StringSpells(fields.name);
    LineStartBlank(fmt, depth);
    LineStartBlank(fmt, depth - 1);
  }

  lemma {:induction false} MembersPrinted(fields: Fields, depth: nat, fmt: bool)
    requires fields.Fields? && PrintableFields(fields) && depth > 0
    ensures var m := MembersOf(fields, depth, fmt);
            && G.AreMembers(m) && G.MeantByMembers(m) == CanonicalFields(fields)
            && G.SpellMembers(m) == When(fmt, [10]) + (PrintFields(fields, depth, fmt) + CloseOf(depth, fmt))
    decreases fields, 0
  {
    PrintedIsText(fields.head, depth, fmt);
    StringSpells(fields.name);
    LineStartBlank(fmt, depth);
    if fields.tail.Fields? {
      MembersPrinted(fields.tail, depth, fmt);
    }
    MembersMean(fields, depth, fmt);
    BehindPrinted(fields, depth, fmt);
    MembersSpell(fields, depth, fmt, MembersOf(fields, depth, fmt));
  }

  lemma MembersSpell(fields: Fields, depth: nat, fmt: bool, m: G.Members)
    requires fields.Fields? && PrintableFields(fields) && depth > 0 && G.AreMembers(m)
    requires m.member.before == When(fmt, [10]) + When(fmt, Tabs(depth)) && m.member.beforeColon == []
    requires G.SpellString(m.member.name) == PrintString(fields.name) && m.member.afterColon == When(fmt, [9])
    requires G.Spell(m.member.value) == PrintValue(fields.head, depth, fmt)
    requires Behind(m) == (FieldSeparator(fields, fmt) + PrintFields(fields.tail, depth, fmt)) + CloseOf(depth, fmt)
    ensures G.SpellMembers(m) == When(fmt, [10]) + (PrintFields(fields, depth, fmt) + CloseOf(depth, fmt))
  {
    var name, value := PrintString(fields.name), PrintValue(fields.head, depth, fmt);
    var end := FieldSeparator(fields, fmt) + PrintFields(fields.tail, depth, fmt);
    SpellMember(m);
    MemberGroup(When(fmt, [10]), When(fmt, Tabs(depth)), name, When(fmt, [9]), value, end, CloseOf(depth, fmt));
    assert PrintFields(fields, depth, fmt)
           == When(fmt, Tabs(depth)) + ((name + ([58] + When(fmt, [9]))) + (value + end));
  }

  /** The brace that closes an object whose members are at this depth. */
  function CloseOf(depth: nat, fmt: bool): Bytes
    requires depth > 0
  {
    When(fmt, Tabs(depth - 1)) + [125]
  }

  lemma BehindPrinted(fields: Fields, depth: nat, fmt: bool)
    requires fields.Fields? && PrintableFields(fields) && depth > 0 && G.AreMembers(MembersOf(fields, depth, fmt))
    requires fields.tail.Fields? ==>
               G.SpellMembers(MembersOf(fields.tail, depth, fmt))
               == When(fmt, [10]) + (PrintFields(fields.tail, depth, fmt) + CloseOf(depth, fmt))
    ensures Behind(MembersOf(fields, depth, fmt))
            == (FieldSeparator(fields, fmt) + PrintFields(fields.tail, depth, fmt)) + CloseOf(depth, fmt)
  {
    var line, close := When(fmt, [10]), CloseOf(depth, fmt);
    var more := PrintFields(fields.tail, depth, fmt);
    if fields.tail.NoFields? {
      LineStartBlank(fmt, depth - 1);
      Assoc(line, When(fmt, Tabs(depth - 1)), [125]);
      var none: Bytes := [];
      assert (none + line) + none == line;
    } else {
      Assoc([44], line, more + close);
      Assoc([44] + line, more, close);
      assert [] + ([44] + (line + (more + close))) == [44] + (line + (more + close));
    }
  }
}
