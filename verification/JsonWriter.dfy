/**
 The printer as it runs: every text is written into a buffer whose size was computed beforehand, so each
 write here is also a proof that the computed size suffices.
 */
module JsonWriter {
  import opened Basics
  import opened Octets
  import opened JsonTree

  // ---------------------------------------------------------------- buffer sizes

  predicate HasShortEscape(c: byte) {
    c == QUOTE || c == BACKSLASH || c == BACKSPACE || c == FORMFEED || c == NEWLINE || c == RETURN || c == TAB
  }

  /** What the first scan of the string printer counts for an octet. */
  function EscapeLength(c: byte): nat {
    if HasShortEscape(c) then 2 else if c < 32 then 6 else 1
  }

  function EscapedLength(s: Bytes): nat {
    if s == [] then 0 else EscapeLength(s[0]) + EscapedLength(s[1..])
  }

  /** The string printer allocates exactly the printed octets and the terminator. */
  lemma {:induction false} StringSizeIsExact(s: Bytes)
    ensures EscapedLength(s) == |Escape(s)|
    ensures EscapedLength(s) + 3 == |PrintString(s)| + 1
    decreases |s|
  {
    if s != [] {
      StringSizeIsExact(s[1..]);
    }
  }

  function Extra(fmt: bool, n: nat): nat {
    if fmt then n else 0
  }

  function ArraySize(entries: seq<Bytes>, fmt: bool): nat {
    if entries == [] then 5 else |entries[0]| + 2 + Extra(fmt, 1) + ArraySize(entries[1..], fmt)
  }

  /** The printed elements with their separators. */
  function ArrayBody(entries: seq<Bytes>, fmt: bool): Bytes {
    if entries == [] then []
    else entries[0] + ((if |entries| == 1 then [] else [COMMA] + When(fmt, [SPACE])) + ArrayBody(entries[1..], fmt))
  }

  /** Brackets, elements and terminator fit the buffer the array printer allocates. */
  lemma {:induction false} ArrayFits(entries: seq<Bytes>, fmt: bool)
    ensures |ArrayBody(entries, fmt)| + 3 <= ArraySize(entries, fmt)
    decreases |entries|
  {
    if entries != [] {
      ArrayFits(entries[1..], fmt);
    }
  }

  /** A printed name and value. */
  datatype Entry = Entry(name: Bytes, value: Bytes)

  /** `depth` is that of the members, one more than the object's. */
  function ObjectSize(entries: seq<Entry>, depth: nat, fmt: bool): nat {
    if entries == [] then 7 + Extra(fmt, depth)
    else |entries[0].value| + |entries[0].name| + 2 + Extra(fmt, 2 + depth) + ObjectSize(entries[1..], depth, fmt)
  }

  function MemberText(e: Entry, depth: nat, fmt: bool, last: bool): Bytes {
    When(fmt, Tabs(depth)) + ((e.name + ([COLON] + When(fmt, [TAB])))
    + (e.value + ((if last then [] else [COMMA]) + When(fmt, [NEWLINE]))))
  }

  function ObjectBody(entries: seq<Entry>, depth: nat, fmt: bool): Bytes {
    if entries == [] then []
    else MemberText(entries[0], depth, fmt, |entries| == 1) + ObjectBody(entries[1..], depth, fmt)
  }

  /** Braces, members, indentation at any depth and terminator fit the buffer the object printer allocates. */
  lemma {:induction false} ObjectFits(entries: seq<Entry>, depth: nat, fmt: bool)
    ensures |ObjectBody(entries, depth, fmt)| + 3 + Extra(fmt, depth) <= ObjectSize(entries, depth, fmt)
    decreases |entries|
  {
    if entries != [] {
      ObjectFits(entries[1..], depth, fmt);
    }
  }

  function Pow10(k: nat): nat {
    if k == 0 then 1 else 10 * Pow10(k - 1)
  }

  lemma {:induction false} DecimalLength(n: nat, k: nat)
    requires k >= 1 && n < Pow10(k)
    ensures |Decimal(n)| <= k
    decreases k
  {
    if n >= 10 {
      assert Pow10(1) == 10 * Pow10(0);
      DecimalLength(n / 10, k - 1);
    }
  }

  /** Any 64-bit integer, signed or unsigned, fits the 22 octets of the integer printer. */
  lemma IntFits(value: int, signed: bool)
    requires -INT64_LIMIT <= value < INT64_LIMIT
    ensures |PrintInt(value, signed)| + 1 <= 22
  {
    var n := if !signed then value % UINT64_LIMIT else if value < 0 then -value else value;
    assert Pow10(20) == 100_000_000_000_000_000_000 by {
      assert Pow10(4) == 10_000;
      assert Pow10(8) == 10_000 * Pow10(4);
      assert Pow10(12) == 10_000 * Pow10(8);
      assert Pow10(16) == 10_000 * Pow10(12);
      assert Pow10(20) == 10_000 * Pow10(16);
    }
    DecimalLength(n, 20);
  }

  // ---------------------------------------------------------------- writing into a buffer

  /** `out` holds `text` up to `end`. */
  ghost predicate Holds(out: array<byte>, end: nat, text: Bytes)
    reads out
  {
    end <= out.Length && out[..end] == text
  }

  method Put(out: array<byte>, end: nat, c: byte, ghost text: Bytes) returns (next: nat)
    requires Holds(out, end, text) && end < out.Length
    modifies out
    ensures next == end + 1 && Holds(out, next, text + [c])
  {
    out[end] := c;
    next := end + 1;
  }

  /** Appends a string and its terminator; the terminator is not counted. */
  method StrCpy(out: array<byte>, end: nat, s: Bytes, ghost text: Bytes) returns (next: nat)
    requires Holds(out, end, text) && end + |s| < out.Length
    modifies out
    ensures next == end + |s| && next < out.Length && Holds(out, next, text + s) && out[next] == 0
  {
    var i := 0;
    while i < |s|
      invariant 0 <= i <= |s| && Holds(out, end + i, text + s[..i])
    {
      out[end + i] := s[i];
      assert s[..i + 1] == s[..i] + [s[i]];
      assert out[..end + i + 1] == out[..end + i] + [s[i]];
      i := i + 1;
    }
    assert s[..|s|] == s;
    next := end + |s|;
    out[next] := 0;
  }

  method PutTabs(out: array<byte>, end: nat, n: nat, ghost text: Bytes) returns (next: nat)
    requires Holds(out, end, text) && end + n <= out.Length
    modifies out
    ensures next == end + n && Holds(out, next, text + Tabs(n))
  {
    next := end;
    var j := 0;
    assert text + Tabs(0) == text;
    while j < n
      invariant 0 <= j <= n && next == end + j && Holds(out, next, text + Tabs(j))
    {
      next := Put(out, next, TAB, text + Tabs(j));
      j := j + 1;
      TabsSnoc(j);
      Assoc(text, Tabs(j - 1), [TAB]);
    }
  }

  lemma {:induction false} TabsSnoc(n: nat)
    requires n > 0
    ensures Tabs(n) == Tabs(n - 1) + [TAB]
    decreases n
  {
    if n > 1 {
      TabsSnoc(n - 1);
      Assoc([TAB], Tabs(n - 2), [TAB]);
    }
  }

  /** The buffer of a printed text: the text, then a terminator inside the allocation. */
  ghost predicate Printed(out: array<byte>, n: nat, text: Bytes)
    reads out
  {
    n < out.Length && out[..n] == text && out[n] == 0
  }

  // ---------------------------------------------------------------- the printers

  /** An unsigned value that fits 32 bits survives the narrowing. */
  lemma NarrowFormat(value: int)
    requires -INT64_LIMIT <= value < INT64_LIMIT && value % UINT64_LIMIT <= 0xFFFF_FFFF
    ensures value % 0x1_0000_0000 == value % UINT64_LIMIT
  {
    assert value % UINT64_LIMIT == if value < 0 then value + UINT64_LIMIT else value;
  }

  method PrintIntItem(value: int, signed: bool) returns (out: array<byte>, n: nat)
    requires -INT64_LIMIT <= value < INT64_LIMIT
    ensures Printed(out, n, PrintInt(value, signed))
  {
    IntFits(value, signed);
    out := new byte[22];
    var text;
    if signed {
      text := if value < 0 then [MINUS] + Decimal(-value) else Decimal(value);
    } else {
      var bits := value % UINT64_LIMIT;
      if bits <= 0xFFFF_FFFF {
        NarrowFormat(value);
        text := Decimal(value % 0x1_0000_0000);
      } else {
        text := Decimal(bits);
      }
    }
    assert out[..0] == [];
    assert [] + text == text;
    n := StrCpy(out, 0, text, []);
  }

  /** Sizes the buffer in a first pass over the string and fills it in a second. */
  method PrintStringPtr(str: Bytes) returns (out: array<byte>)
    requires NoNul(str)
    ensures out.Length == |PrintString(str)| + 1
    ensures out[..] == PrintString(str) + [0]
  {
    var len, i := 0, 0;
    while i < |str|
      invariant 0 <= i <= |str| && len + EscapedLength(str[i..]) == EscapedLength(str)
    {
      len := len + 1;
      if HasShortEscape(str[i]) {
        len := len + 1;
      } else if str[i] < 32 {
        len := len + 5;
      }
      assert str[i..][1..] == str[i + 1..];
      i := i + 1;
    }
    StringSizeIsExact(str);
    out := new byte[len + 3];
    out[0] := QUOTE;
    ghost var text := [QUOTE];
    var p: nat := 1;
    i := 0;
    while i < |str|
      invariant 0 <= i <= |str| && Holds(out, p, text) && p == |text|
      invariant text + Escape(str[i..]) == [QUOTE] + Escape(str)
    {
      assert str[i..][1..] == str[i + 1..];
      Assoc(text, EscapeByte(str[i]), Escape(str[i + 1..]));
      assert |text + Escape(str[i..])| == 1 + |Escape(str)|;
      p := PutEscaped(out, p, str[i], text);
      text := text + EscapeByte(str[i]);
      i := i + 1;
    }
    assert text + [] == text;
    p := Put(out, p, QUOTE, text);
    p := Put(out, p, 0, text + [QUOTE]);
    assert out[..] == out[..p];
  }

  /** One octet of a string, escaped where it must be. */
  method PutEscaped(out: array<byte>, end: nat, c: byte, ghost text: Bytes) returns (next: nat)
    requires c != 0 && Holds(out, end, text) && end + |EscapeByte(c)| < out.Length
    modifies out
    ensures next == end + |EscapeByte(c)| && Holds(out, next, text + EscapeByte(c))
  {
    if IsPlain(c) {
      next := Put(out, end, c, text);
      return;
    }
    var behind := EscapeByte(c)[1..];
    assert EscapeByte(c) == [BACKSLASH] + behind;
    Assoc(text, [BACKSLASH], behind);
    next := Put(out, end, BACKSLASH, text);
    next := StrCpy(out, next, behind, text + [BACKSLASH]);
  }

  ghost function Texts(items: Items, depth: nat, fmt: bool): seq<Bytes>
    requires PrintableItems(items)
    decreases items
  {
    if items.NoItems? then [] else [PrintValue(items.head, depth, fmt)] + Texts(items.tail, depth, fmt)
  }

  lemma {:induction false} ArrayBodyPrints(items: Items, depth: nat, fmt: bool)
    requires PrintableItems(items)
    ensures ArrayBody(Texts(items, depth, fmt), fmt) == PrintItems(items, depth, fmt)
    decreases items
  {
    if items.Items? {
      ArrayBodyPrints(items.tail, depth, fmt);
      var texts := Texts(items, depth, fmt);
      assert texts[1..] == Texts(items.tail, depth, fmt);
    }
  }

  /** Writes the printed elements into a buffer of the size computed from them. */
  method ComposeArray(entries: seq<Bytes>, fmt: bool) returns (out: array<byte>, n: nat)
    ensures Printed(out, n, [LBRACKET] + (ArrayBody(entries, fmt) + [RBRACKET]))
  {
    var len, i := 5, 0;
    while i < |entries|
      invariant 0 <= i <= |entries| && len + ArraySize(entries[i..], fmt) == 5 + ArraySize(entries, fmt)
    {
      len := len + |entries[i]| + 2 + Extra(fmt, 1);
      assert entries[i..][1..] == entries[i + 1..];
      i := i + 1;
    }
    ArrayFits(entries, fmt);
    out := new byte[len];
    out[0] := LBRACKET;
    ghost var text := [LBRACKET];
    n, i := 1, 0;
    while i < |entries|
      invariant 0 <= i <= |entries| && Holds(out, n, text) && n == |text|
      invariant text + ArrayBody(entries[i..], fmt) == [LBRACKET] + ArrayBody(entries, fmt)
    {
      var sep := if i == |entries| - 1 then [] else [COMMA] + When(fmt, [SPACE]);
      assert entries[i..][1..] == entries[i + 1..];
      Assoc(text, entries[i], sep + ArrayBody(entries[i + 1..], fmt));
      Assoc(text + entries[i], sep, ArrayBody(entries[i + 1..], fmt));
      assert |text + ArrayBody(entries[i..], fmt)| == 1 + |ArrayBody(entries, fmt)|;
      n := StrCpy(out, n, entries[i], text);
      n := StrCpy(out, n, sep, text + entries[i]);
      text := text + entries[i] + sep;
      i := i + 1;
    }
    assert text + [] == text;
    n := Put(out, n, RBRACKET, text);
    Assoc([LBRACKET], ArrayBody(entries, fmt), [RBRACKET]);
    out[n] := 0;
  }

  method PrintArray(items: Items, depth: nat, fmt: bool) returns (out: array<byte>, n: nat)
    requires PrintableItems(items)
    ensures Printed(out, n, PrintValue(Arr(items), depth, fmt))
    decreases items, 1
  {
    var entries := PrintEntries(items, depth + 1, fmt);
    ArrayBodyPrints(items, depth + 1, fmt);
    out, n := ComposeArray(entries, fmt);
  }

  /** The texts of the children, in order. */
  method PrintEntries(items: Items, depth: nat, fmt: bool) returns (entries: seq<Bytes>)
    requires PrintableItems(items)
    ensures entries == Texts(items, depth, fmt)
    decreases items, 0
  {
    entries := [];
    var child := items;
    while child.Items?
      invariant PrintableItems(child) && (child == items || child < items)
      invariant entries + Texts(child, depth, fmt) == Texts(items, depth, fmt)
      decreases child
    {
      var ret, n := PrintTree(child.head, depth, fmt);
      Assoc(entries, [ret[..n]], Texts(child.tail, depth, fmt));
      entries := entries + [ret[..n]];
      child := child.tail;
    }
  }

  ghost function Members(fields: Fields, depth: nat, fmt: bool): seq<Entry>
    requires PrintableFields(fields)
    decreases fields
  {
    if fields.NoFields? then []
    else [Entry(PrintString(fields.name), PrintValue(fields.head, depth, fmt))] + Members(fields.tail, depth, fmt)
  }

  lemma {:induction false} ObjectBodyPrints(fields: Fields, depth: nat, fmt: bool)
    requires PrintableFields(fields)
    ensures ObjectBody(Members(fields, depth, fmt), depth, fmt) == PrintFields(fields, depth, fmt)
    decreases fields
  {
    if fields.Fields? {
      ObjectBodyPrints(fields.tail, depth, fmt);
      var members := Members(fields, depth, fmt);
      var tabs, name, value := When(fmt, Tabs(depth)), PrintName(fields.name, fmt), PrintValue(fields.head, depth, fmt);
      var sep, more := FieldSeparator(fields, fmt), PrintFields(fields.tail, depth, fmt);
      assert members[1..] == Members(fields.tail, depth, fmt);
      assert MemberText(members[0], depth, fmt, |members| == 1) == tabs + (name + (value + sep));
      Assoc(tabs, name + (value + sep), more);
      Assoc(name, value + sep, more);
      Assoc(value, sep, more);
    }
  }

  /** One member: indentation, name, colon, value, comma unless it is the last, line end. */
  method PutMember(out: array<byte>, end: nat, e: Entry, depth: nat, fmt: bool, last: bool, ghost text: Bytes)
    returns (next: nat)
    requires Holds(out, end, text) && end + |MemberText(e, depth, fmt, last)| < out.Length
    modifies out
    ensures next == end + |MemberText(e, depth, fmt, last)|
    ensures Holds(out, next, text + MemberText(e, depth, fmt, last))
  {
    ghost var tabs, name := When(fmt, Tabs(depth)), e.name + ([COLON] + When(fmt, [TAB]));
    ghost var tail := (if last then [] else [COMMA]) + When(fmt, [NEWLINE]);
    ghost var t1 := text + tabs;
    assert text + MemberText(e, depth, fmt, last) == ((t1 + name) + e.value) + tail by {
      Assoc(text, tabs, name + (e.value + tail));
      Assoc(t1, name, e.value + tail);
      Assoc(t1 + name, e.value, tail);
    }
    next := end;
    if fmt {
      next := PutTabs(out, next, depth, text);
    } else {
      assert t1 == text;
    }
    assert Holds(out, next, t1);
    next := PutName(out, next, e.name, fmt, t1);
    next := StrCpy(out, next, e.value, t1 + name);
    next := StrCpy(out, next, (if last then [] else [COMMA]) + When(fmt, [NEWLINE]), t1 + name + e.value);
  }

  method PutName(out: array<byte>, end: nat, name: Bytes, fmt: bool, ghost text: Bytes) returns (next: nat)
    requires Holds(out, end, text) && end + |name + ([COLON] + When(fmt, [TAB]))| < out.Length
    modifies out
    ensures next == end + |name + ([COLON] + When(fmt, [TAB]))|
    ensures Holds(out, next, text + (name + ([COLON] + When(fmt, [TAB]))))
  {
    next := StrCpy(out, end, name, text);
    next := StrCpy(out, next, [COLON] + When(fmt, [TAB]), text + name);
    Assoc(text, name, [COLON] + When(fmt, [TAB]));
  }

  /** Writes the printed members into a buffer of the size computed from them; `depth` is the object's own. */
  method ComposeObject(entries: seq<Entry>, depth: nat, fmt: bool) returns (out: array<byte>, n: nat)
    ensures Printed(out, n, [LBRACE] + (When(fmt, [NEWLINE])
                            + (ObjectBody(entries, depth + 1, fmt) + (When(fmt, Tabs(depth)) + [RBRACE]))))
  {
    var len := ObjectLength(entries, depth + 1, fmt);
    ObjectFits(entries, depth + 1, fmt);
    out := new byte[len];
    ghost var open, body := [LBRACE] + When(fmt, [NEWLINE]), ObjectBody(entries, depth + 1, fmt);
    assert out[..0] == [] && [] + open == open;
    n := StrCpy(out, 0, [LBRACE] + When(fmt, [NEWLINE]), []);
    n := PutMembers(out, n, entries, depth + 1, fmt, open);
    ghost var text := open + body;
    if fmt {
      n := PutTabs(out, n, depth, text);
    } else {
      assert text + [] == text;
    }
    n := Put(out, n, RBRACE, text + When(fmt, Tabs(depth)));
    Assoc(text, When(fmt, Tabs(depth)), [RBRACE]);
    Assoc(open, body, When(fmt, Tabs(depth)) + [RBRACE]);
    Assoc([LBRACE], When(fmt, [NEWLINE]), body + (When(fmt, Tabs(depth)) + [RBRACE]));
    out[n] := 0;
  }

  method ObjectLength(entries: seq<Entry>, depth: nat, fmt: bool) returns (len: nat)
    ensures len == ObjectSize(entries, depth, fmt)
  {
    len := 7;
    if fmt {
      len := len + depth;
    }
    ghost var start := len;
    var i := 0;
    while i < |entries|
      invariant 0 <= i <= |entries|
      invariant len + ObjectSize(entries[i..], depth, fmt) == start + ObjectSize(entries, depth, fmt)
    {
      len := len + |entries[i].value| + |entries[i].name| + 2 + Extra(fmt, 2 + depth);
      assert entries[i..][1..] == entries[i + 1..];
      i := i + 1;
    }
  }

  method PutMembers(out: array<byte>, end: nat, entries: seq<Entry>, depth: nat, fmt: bool, ghost before: Bytes)
    returns (next: nat)
    requires Holds(out, end, before) && end + |ObjectBody(entries, depth, fmt)| < out.Length
    modifies out
    ensures next == end + |ObjectBody(entries, depth, fmt)|
    ensures Holds(out, next, before + ObjectBody(entries, depth, fmt))
  {
    ghost var whole, text := before + ObjectBody(entries, depth, fmt), before;
    next := end;
    var i := 0;
    while i < |entries|
      invariant 0 <= i <= |entries| && Holds(out, next, text) && next == |text|
      invariant text + ObjectBody(entries[i..], depth, fmt) == whole
    {
      ghost var member := MemberText(entries[i], depth, fmt, i == |entries| - 1);
      ghost var more := ObjectBody(entries[i + 1..], depth, fmt);
      assert entries[i..][1..] == entries[i + 1..];
      Assoc(text, member, more);
      assert |whole| == |text| + |member| + |more|;
      next := PutMember(out, next, entries[i], depth, fmt, i == |entries| - 1, text);
      text := text + member;
      i := i + 1;
    }
    assert text + [] == text;
  }

  /** Names and values of the children, printed in order. */
  method PrintMembers(fields: Fields, depth: nat, fmt: bool) returns (entries: seq<Entry>)
    requires PrintableFields(fields)
    ensures entries == Members(fields, depth, fmt)
    decreases fields, 0
  {
    entries := [];
    var child := fields;
    while child.Fields?
      invariant PrintableFields(child) && (child == fields || child < fields)
      invariant entries + Members(child, depth, fmt) == Members(fields, depth, fmt)
      decreases child
    {
      var str := PrintStringPtr(child.name);
      var name := str[..str.Length - 1];
      assert str[..][..str.Length - 1] == PrintString(child.name);
      var ret, n := PrintTree(child.head, depth, fmt);
      var e := Entry(name, ret[..n]);
      Assoc(entries, [e], Members(child.tail, depth, fmt));
      entries := entries + [e];
      child := child.tail;
    }
  }

  method PrintObject(fields: Fields, depth: nat, fmt: bool) returns (out: array<byte>, n: nat)
    requires PrintableFields(fields)
    ensures Printed(out, n, PrintValue(Obj(fields), depth, fmt))
    decreases fields, 1
  {
    var entries := PrintMembers(fields, depth + 1, fmt);
    ObjectBodyPrints(fields, depth + 1, fmt);
    out, n := ComposeObject(entries, depth, fmt);
  }

  method Duplicate(text: Bytes) returns (out: array<byte>, n: nat)
    ensures Printed(out, n, text)
  {
    out := new byte[|text| + 1];
    assert out[..0] == [] && [] + text == text;
    n := StrCpy(out, 0, text, []);
  }

  method PrintTree(j: Json, depth: nat, fmt: bool) returns (out: array<byte>, n: nat)
    requires Printable(j)
    ensures Printed(out, n, PrintValue(j, depth, fmt))
    decreases j
  {
    match j {
      case Null => out, n := Duplicate(NULL_TEXT);
      case Bool(b) => out, n := Duplicate(if b then TRUE_TEXT else FALSE_TEXT);
      case Int(value, signed) => out, n := PrintIntItem(value, signed);
      case Str(text) =>
        out := PrintStringPtr(text);
        n := out.Length - 1;
        assert out[..n] == out[..][..n];
      case Arr(items) => out, n := PrintArray(items, depth, fmt);
      case Obj(fields) => out, n := PrintObject(fields, depth, fmt);
    }
  }
}
