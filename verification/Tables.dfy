/**
 The write-through row cache in front of SQLite. A stored table is a sequence of serialized rows; the
 serializer and its parser come from a vendored library and are parameters.
 */
module Tables {
  import opened Basics

  datatype Codec<!Row> = Codec(serialize: Row -> string, parse: string -> Option<Row>)

  /** Serialized rows are not empty and parse back to themselves. */
  ghost predicate Faithful<Row(!new)>(c: Codec<Row>) {
    forall r: Row :: c.serialize(r) != "" && c.parse(c.serialize(r)) == Some(r)
  }

  /** Loading skips empty texts and texts that do not hold a row. */
  function Decode<Row>(c: Codec<Row>, texts: seq<string>): seq<Row> {
    if texts == [] then []
    else
      var row := if texts[0] == "" then None else c.parse(texts[0]);
      (if row.Some? then [row.value] else []) + Decode(c, texts[1..])
  }

  function Encode<Row>(c: Codec<Row>, rows: seq<Row>): seq<string> {
    if rows == [] then [] else [c.serialize(rows[0])] + Encode(c, rows[1..])
  }

  function Where<Row>(rows: seq<Row>, p: Row -> bool): seq<Row> {
    if rows == [] then [] else (if p(rows[0]) then [rows[0]] else []) + Where(rows[1..], p)
  }

  function Edited<Row>(rows: seq<Row>, p: Row -> bool, f: Row -> Row): seq<Row> {
    if rows == [] then [] else [if p(rows[0]) then f(rows[0]) else rows[0]] + Edited(rows[1..], p, f)
  }

  function Filtered<Row>(rows: seq<Row>, p: Row -> bool): seq<Row> {
    if rows == [] then [] else (if p(rows[0]) then [] else [rows[0]]) + Filtered(rows[1..], p)
  }

  // ---------------------------------------------------------------- what they select and change

  /** `at` lists, in order, the places of the rows that pass the test; no others are left. */
  ghost predicate Places<T>(rows: seq<T>, p: T -> bool, at: seq<nat>) {
    Rises(at) && forall i :: i in at <==> 0 <= i < |rows| && p(rows[i])
  }

  predicate Rises(at: seq<nat>) {
    forall j, k :: 0 <= j < k < |at| ==> at[j] < at[k]
  }

  /** The rows at these places, in order. */
  ghost predicate Picked<T>(rows: seq<T>, at: seq<nat>, out: seq<T>) {
    |out| == |at| && forall k :: 0 <= k < |at| ==> at[k] < |rows| && out[k] == rows[at[k]]
  }

  /** One place further on, and with the first row or without. */
  function Shifted(at: seq<nat>, first: bool): seq<nat> {
    (if first then [0] else []) + seq(|at|, k requires 0 <= k < |at| => at[k] + 1)
  }

  lemma ShiftedPlaces<T>(rows: seq<T>, p: T -> bool, at: seq<nat>)
    requires rows != [] && Places(rows[1..], p, at)
    ensures Places(rows, p, Shifted(at, p(rows[0])))
  {
    var all := Shifted(at, p(rows[0]));
    ShiftedHas(at, p(rows[0]));
    forall i
      ensures i in all <==> 0 <= i < |rows| && p(rows[i])
    {
      if i > 0 {
        assert i in all <==> i - 1 in at;
        assert i < |rows| ==> rows[1..][i - 1] == rows[i];
      }
    }
  }

  lemma ShiftedHas(at: seq<nat>, first: bool)
    ensures forall i :: i in Shifted(at, first) <==> if i == 0 then first else i > 0 && i - 1 in at
    ensures Rises(at) ==> Rises(Shifted(at, first))
  {
    var all, n := Shifted(at, first), if first then 1 else 0;
    forall i
      ensures i in all <==> if i == 0 then first else i > 0 && i - 1 in at
    {
      if k :| 0 <= k < |all| && all[k] == i && k >= n {
        assert at[k - n] == i - 1;
      }
      if k :| 0 <= k < |at| && at[k] == i - 1 {
        assert all[n + k] == i;
      }
      if i == 0 && first {
        assert all[0] == i;
      }
    }
  }

  lemma ShiftedPicked<T>(rows: seq<T>, at: seq<nat>, out: seq<T>, first: bool)
    requires rows != [] && Picked(rows[1..], at, out)
    ensures Picked(rows, Shifted(at, first), (if first then [rows[0]] else []) + out)
  {
    var all, picked, n := Shifted(at, first), (if first then [rows[0]] else []) + out, if first then 1 else 0;
    forall k | 0 <= k < |all|
      ensures all[k] < |rows| && picked[k] == rows[all[k]]
    {
      if k >= n {
        assert all[k] == at[k - n] + 1 && picked[k] == out[k - n] == rows[1..][at[k - n]];
      }
    }
  }

  /** A selection is the rows that pass, in their order. */
  lemma {:induction false} WhereExact<Row>(rows: seq<Row>, p: Row -> bool) returns (at: seq<nat>)
    ensures Places(rows, p, at) && Picked(rows, at, Where(rows, p))
    decreases |rows|
  {
    at := [];
    if rows != [] {
      var later := WhereExact(rows[1..], p);
      ShiftedPlaces(rows, p, later);
      ShiftedPicked(rows, later, Where(rows[1..], p), p(rows[0]));
      at := Shifted(later, p(rows[0]));
    }
  }

  /** What a removal leaves is the rows that fail, in their order. */
  lemma {:induction false} FilteredExact<Row>(rows: seq<Row>, p: Row -> bool) returns (at: seq<nat>)
    ensures Places(rows, x => !p(x), at) && Picked(rows, at, Filtered(rows, p))
    decreases |rows|
  {
    at := [];
    if rows != [] {
      var later := FilteredExact(rows[1..], p);
      ShiftedPlaces(rows, x => !p(x), later);
      ShiftedPicked(rows, later, Filtered(rows[1..], p), !p(rows[0]));
      at := Shifted(later, !p(rows[0]));
    }
  }

  /** An edit changes the rows that pass, each in its place, and no others. */
  lemma {:induction false} EditedExact<Row>(rows: seq<Row>, p: Row -> bool, f: Row -> Row)
    ensures |Edited(rows, p, f)| == |rows|
    ensures forall i :: 0 <= i < |rows| ==> Edited(rows, p, f)[i] == if p(rows[i]) then f(rows[i]) else rows[i]
    decreases |rows|
  {
    if rows != [] {
      EditedExact(rows[1..], p, f);
    }
  }

  ghost predicate Parsed<Row(!new)>(c: Codec<Row>, texts: seq<string>, at: seq<nat>, out: seq<Row>) {
    && |out| == |at| && (forall k :: 0 <= k < |at| ==> at[k] < |texts|)
    && forall k :: 0 <= k < |at| ==> c.parse(texts[at[k]]) == Some(out[k])
  }

  lemma ParsedShifted<Row(!new)>(c: Codec<Row>, texts: seq<string>, at: seq<nat>, out: seq<Row>, first: bool)
    requires texts != [] && Parsed(c, texts[1..], at, out) && (first ==> c.parse(texts[0]).Some?)
    ensures Parsed(c, texts, Shifted(at, first), (if first then [c.parse(texts[0]).value] else []) + out)
  {
    var head, n := if first then [c.parse(texts[0]).value] else [], if first then 1 else 0;
    var all, rows := Shifted(at, first), head + out;
    forall k | 0 <= k < |all|
      ensures all[k] < |texts| && c.parse(texts[all[k]]) == Some(rows[k])
    {
      if k >= n {
        assert all[k] == at[k - n] + 1 && rows[k] == out[k - n] && texts[1..][at[k - n]] == texts[all[k]];
      }
    }
  }

  /** Loading yields, in order, the row of every text that is not empty and holds one. */
  lemma {:induction false} DecodeExact<Row(!new)>(c: Codec<Row>, texts: seq<string>) returns (at: seq<nat>)
    ensures Places(texts, text => text != "" && c.parse(text).Some?, at) && Parsed(c, texts, at, Decode(c, texts))
    decreases |texts|
  {
    at := [];
    if texts != [] {
      var holds := (text: string) => text != "" && c.parse(text).Some?;
      var later := DecodeExact(c, texts[1..]);
      ShiftedPlaces(texts, holds, later);
      ParsedShifted(c, texts, later, Decode(c, texts[1..]), holds(texts[0]));
      at := Shifted(later, holds(texts[0]));
    }
  }

  // ---------------------------------------------------------------- the database

  datatype Store<!Row> = Store(disk: map<string, seq<string>>, cache: map<string, seq<Row>>)

  function Load<Row>(c: Codec<Row>, s: Store<Row>, name: string): Store<Row> {
    if name in s.cache then s
    else s.(cache := s.cache[name := if name in s.disk then Decode(c, s.disk[name]) else []])
  }

  /** Rewriting a table that does not exist fails at its first statement and is rolled back. */
  function Save<Row>(c: Codec<Row>, s: Store<Row>, name: string): Store<Row> {
    if name in s.cache && name in s.disk then s.(disk := s.disk[name := Encode(c, s.cache[name])]) else s
  }

  datatype Op<!Row> =
    | EnsureTable(name: string)
    | Query(name: string)
    | Insert(name: string, row: Row)
    | Update(name: string, test: Row -> bool, change: Row -> Row)
    | Remove(name: string, test: Row -> bool)
    | Close

  /** What an operation makes of the cached rows of its table. */
  function Change<Row>(op: Op<Row>, rows: seq<Row>): seq<Row> {
    match op
    case Insert(_, row) => rows + [row]
    case Update(_, test, change) => Edited(rows, test, change)
    case Remove(_, test) => Filtered(rows, test)
    case _ => rows
  }

  function Apply<Row>(c: Codec<Row>, s: Store<Row>, op: Op<Row>): Store<Row> {
    match op
    case EnsureTable(name) => if name in s.disk then s else s.(disk := s.disk[name := []])
    case Query(name) => Load(c, s, name)
    case Close => s.(cache := map[])
    case _ =>
      var loaded := Load(c, s, op.name);
      Save(c, loaded.(cache := loaded.cache[op.name := Change(op, loaded.cache[op.name])]), op.name)
  }

  function Run<Row>(c: Codec<Row>, s: Store<Row>, ops: seq<Op<Row>>): Store<Row>
    decreases |ops|
  {
    if ops == [] then s else Run(c, Apply(c, s, ops[0]), ops[1..])
  }

  /** The rows a query without predicate returns. */
  function Rows<Row>(c: Codec<Row>, s: Store<Row>, name: string): seq<Row> {
    Load(c, s, name).cache[name]
  }

  // ---------------------------------------------------------------- coherence

  /** The table exists and, if it is cached, the cache holds what is stored, in order. */
  ghost predicate Coherent<Row>(c: Codec<Row>, s: Store<Row>, name: string) {
    name in s.disk && (name in s.cache ==> s.cache[name] == Decode(c, s.disk[name]))
  }

  lemma {:induction false} DecodeEncode<Row(!new)>(c: Codec<Row>, rows: seq<Row>)
    requires Faithful(c)
    ensures Decode(c, Encode(c, rows)) == rows
    decreases |rows|
  {
    if rows != [] {
      var texts := Encode(c, rows);
      assert texts[0] == c.serialize(rows[0]) && texts[1..] == Encode(c, rows[1..]);
      DecodeEncode(c, rows[1..]);
    }
  }

  /** Whatever table an operation names, it keeps a coherent table coherent and does to it what a plain list would. */
  lemma StepCoherent<Row(!new)>(c: Codec<Row>, s: Store<Row>, op: Op<Row>, name: string)
    requires Faithful(c) && Coherent(c, s, name)
    ensures Coherent(c, Apply(c, s, op), name)
    ensures Rows(c, Apply(c, s, op), name) == if !op.Close? && op.name == name then Change(op, Rows(c, s, name))
                                              else Rows(c, s, name)
  {
    if op.Insert? || op.Update? || op.Remove? {
      EditCoherent(c, s, op, name);
    }
  }

  lemma EditCoherent<Row(!new)>(c: Codec<Row>, s: Store<Row>, op: Op<Row>, name: string)
    requires Faithful(c) && Coherent(c, s, name) && (op.Insert? || op.Update? || op.Remove?)
    ensures Coherent(c, Apply(c, s, op), name)
    ensures Rows(c, Apply(c, s, op), name) == if op.name == name then Change(op, Rows(c, s, name)) else Rows(c, s, name)
  {
    var rows := Change(op, Rows(c, s, op.name));
    var loaded := Load(c, s, op.name);
    var edited := loaded.(cache := loaded.cache[op.name := rows]);
    assert Apply(c, s, op) == Save(c, edited, op.name);
    DecodeEncode(c, rows);
  }

  /**
   What a table answers after one operation on it: with the row behind the others, with the rows that pass changed in
   their places, or with those that fail alone.
   */
  lemma AnswersAfter<Row(!new)>(c: Codec<Row>, s: Store<Row>, op: Op<Row>)
    requires Faithful(c) && !op.Close? && Coherent(c, s, op.name)
    ensures var rows, after := Rows(c, s, op.name), Rows(c, Apply(c, s, op), op.name);
            match op
            case Insert(_, row) => after == rows + [row]
            case Update(_, test, change) =>
              && |after| == |rows|
              && forall i :: 0 <= i < |rows| ==> after[i] == if test(rows[i]) then change(rows[i]) else rows[i]
            case Remove(_, test) =>
              exists at :: Places(rows, x => !test(x), at) && Picked(rows, at, after)
            case _ => after == rows
  {
    var rows := Rows(c, s, op.name);
    StepCoherent(c, s, op, op.name);
    match op {
      case Update(_, test, change) => EditedExact(rows, test, change);
      case Remove(_, test) => var at := FilteredExact(rows, test);
      case _ =>
    }
  }

  /** The rows of a table after a run, computed on a plain list. */
  function ListAfter<Row>(rows: seq<Row>, ops: seq<Op<Row>>, name: string): seq<Row>
    decreases |ops|
  {
    if ops == [] then rows
    else ListAfter(if !ops[0].Close? && ops[0].name == name then Change(ops[0], rows) else rows, ops[1..], name)
  }

  lemma {:induction false} RunCoherent<Row(!new)>(c: Codec<Row>, s: Store<Row>, ops: seq<Op<Row>>, name: string)
    requires Faithful(c) && Coherent(c, s, name)
    ensures Coherent(c, Run(c, s, ops), name)
    ensures Rows(c, Run(c, s, ops), name) == ListAfter(Rows(c, s, name), ops, name)
    decreases |ops|
  {
    if ops != [] {
      StepCoherent(c, s, ops[0], name);
      RunCoherent(c, Apply(c, s, ops[0]), ops[1..], name);
    }
  }

  /**
   After any operations, a table that was ensured before it was first used, whether new or there from earlier,
   answers every query as the plain list would, and as a fresh load after closing and reopening does.
   */
  lemma ReopenAnswersAlike<Row(!new)>(c: Codec<Row>, s: Store<Row>, ops: seq<Op<Row>>, name: string, p: Row -> bool)
    requires Faithful(c) && name !in s.cache
    ensures var ready := Apply(c, s, EnsureTable(name));
            var now := Run(c, ready, ops);
            && Where(Rows(c, now, name), p) == Where(ListAfter(Rows(c, ready, name), ops, name), p)
            && (name !in s.disk ==> Rows(c, ready, name) == [])
            && Where(Rows(c, Apply(c, now, Close), name), p) == Where(Rows(c, now, name), p)
  {
    RunCoherent(c, Apply(c, s, EnsureTable(name)), ops, name);
    StepCoherent(c, Run(c, Apply(c, s, EnsureTable(name)), ops), Close, name);
  }

  /** On an empty database, with no table ensured, an inserted row is answered until the database is closed. */
  lemma InsertIsLost<Row(!new)>(c: Codec<Row>, name: string, row: Row)
    ensures var after := Apply(c, Store(map[], map[]), Insert(name, row));
            Rows(c, after, name) == [row] && Rows(c, Apply(c, after, Close), name) == []
  {
    assert [] + [row] == [row];
  }

  /** A row inserted into a table survives reopening exactly if the table exists. */
  lemma InsertSurvives<Row(!new)>(c: Codec<Row>, s: Store<Row>, name: string, row: Row)
    requires Faithful(c)
    ensures var after := Apply(c, s, Insert(name, row));
            Rows(c, Apply(c, after, Close), name) == Rows(c, after, name) <==> name in s.disk
  {
    DecodeEncode(c, Rows(c, s, name) + [row]);
  }
}

/** The database object: the cache is filled, edited in place and written back whole. */
module TableStore {
  import opened Tables

  method DecodeTexts<Row>(codec: Codec<Row>, texts: seq<string>) returns (rows: seq<Row>)
    ensures rows == Decode(codec, texts)
  {
    rows := [];
    var i := 0;
    while i < |texts|
      invariant 0 <= i <= |texts| && rows + Decode(codec, texts[i..]) == Decode(codec, texts)
    {
      assert texts[i..][1..] == texts[i + 1..];
      if texts[i] != "" {
        var value := codec.parse(texts[i]);
        if value.Some? {
          rows := rows + [value.value];
        }
      }
      i := i + 1;
    }
    assert rows + [] == rows;
  }

  method EncodeRows<Row>(codec: Codec<Row>, rows: seq<Row>) returns (texts: seq<string>)
    ensures texts == Encode(codec, rows)
  {
    texts := [];
    var i := 0;
    while i < |rows|
      invariant 0 <= i <= |rows| && texts + Encode(codec, rows[i..]) == Encode(codec, rows)
    {
      assert rows[i..][1..] == rows[i + 1..];
      texts := texts + [codec.serialize(rows[i])];
      i := i + 1;
    }
    assert texts + [] == texts;
  }

  method Select<Row>(rows: seq<Row>, test: Row -> bool) returns (result: seq<Row>)
    ensures result == Where(rows, test)
  {
    result := [];
    var i := 0;
    while i < |rows|
      invariant 0 <= i <= |rows| && result + Where(rows[i..], test) == Where(rows, test)
    {
      assert rows[i..][1..] == rows[i + 1..];
      if test(rows[i]) {
        result := result + [rows[i]];
      }
      i := i + 1;
    }
    assert result + [] == result;
  }

  method EditRows<Row>(rows: seq<Row>, test: Row -> bool, change: Row -> Row) returns (edited: seq<Row>)
    ensures edited == Edited(rows, test, change)
  {
    edited := [];
    var i := 0;
    while i < |rows|
      invariant 0 <= i <= |rows| && edited + Edited(rows[i..], test, change) == Edited(rows, test, change)
    {
      assert rows[i..][1..] == rows[i + 1..];
      edited := edited + [if test(rows[i]) then change(rows[i]) else rows[i]];
      i := i + 1;
    }
    assert edited + [] == edited;
  }

  method RemoveRows<Row>(rows: seq<Row>, test: Row -> bool) returns (kept: seq<Row>)
    ensures kept == Filtered(rows, test)
  {
    kept := [];
    var i := 0;
    while i < |rows|
      invariant 0 <= i <= |rows| && kept + Filtered(rows[i..], test) == Filtered(rows, test)
    {
      assert rows[i..][1..] == rows[i + 1..];
      if !test(rows[i]) {
        kept := kept + [rows[i]];
      }
      i := i + 1;
    }
    assert kept + [] == kept;
  }

  class Database<Row(!new)> {
    const codec: Codec<Row>
    var disk: map<string, seq<string>>
    var cache: map<string, seq<Row>>

    constructor (codec: Codec<Row>, disk: map<string, seq<string>>)
      ensures this.codec == codec && Contents() == Store(disk, map[])
    {
      this.codec := codec;
      this.disk, cache := disk, map[];
    }

    ghost function Contents(): Store<Row>
      reads this
    {
      Store(disk, cache)
    }

    method EnsureTable(name: string)
      modifies this
      ensures Contents() == Apply(codec, old(Contents()), Op.EnsureTable(name))
    {
      if name !in disk {
        disk := disk[name := []];
      }
    }

    method Close()
      modifies this
      ensures Contents() == Apply(codec, old(Contents()), Op.Close)
    {
      cache := map[];
    }

    method LoadTable(name: string)
      modifies this
      ensures Contents() == Load(codec, old(Contents()), name)
    {
      if name in cache {
        return;
      }
      var rows := [];
      if name in disk {
        rows := DecodeTexts(codec, disk[name]);
      }
      cache := cache[name := rows];
    }

    method SaveTable(name: string)
      modifies this
      ensures Contents() == Save(codec, old(Contents()), name)
    {
      if name in cache && name in disk {
        var texts := EncodeRows(codec, cache[name]);
        disk := disk[name := texts];
      }
    }

    method Query(name: string, test: Row -> bool) returns (result: seq<Row>)
      modifies this
      ensures Contents() == Apply(codec, old(Contents()), Op.Query(name))
      ensures result == Where(Rows(codec, old(Contents()), name), test)
    {
      LoadTable(name);
      result := Select(cache[name], test);
    }

    method Insert(name: string, row: Row)
      modifies this
      ensures Contents() == Apply(codec, old(Contents()), Op.Insert(name, row))
    {
      LoadTable(name);
      cache := cache[name := cache[name] + [row]];
      SaveTable(name);
    }

    method Update(name: string, test: Row -> bool, change: Row -> Row)
      modifies this
      ensures Contents() == Apply(codec, old(Contents()), Op.Update(name, test, change))
    {
      LoadTable(name);
      var rows := EditRows(cache[name], test, change);
      cache := cache[name := rows];
      SaveTable(name);
    }

    method Remove(name: string, test: Row -> bool)
      modifies this
      ensures Contents() == Apply(codec, old(Contents()), Op.Remove(name, test))
    {
      LoadTable(name);
      var rows := RemoveRows(cache[name], test);
      cache := cache[name := rows];
      SaveTable(name);
    }
  }
}
