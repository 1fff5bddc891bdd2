/** The messages table: what each operation may do to a stored message, and the offline batches. */
module Messages {

  datatype Message = Message(
    id: int, sender: int, to: int, group: int, content: string, contentType: string, timestamp: int,
    delivered: bool, read: bool, edited: bool, deleted: bool, editedAt: int, deletedAt: int, reactions: string,
    readBy: int)

  /** The largest stored id (at least 0) plus one. */
  function NextId(rows: seq<Message>): (id: int)
    ensures id >= 1 && forall i :: 0 <= i < |rows| ==> rows[i].id < id
  {
    if rows == [] then 1
    else
      var n := |rows| - 1;
      var id := NextId(rows[..n]);
      assert forall i :: 0 <= i < n ==> rows[..n][i] == rows[i];
      if rows[n].id >= id then rows[n].id + 1 else id
  }

  /** There is no smaller one. */
  lemma {:induction false} NextIdIsLeast(rows: seq<Message>)
    ensures NextId(rows) == 1 || exists i :: 0 <= i < |rows| && rows[i].id + 1 == NextId(rows)
    decreases |rows|
  {
    if rows != [] {
      var n := |rows| - 1;
      NextIdIsLeast(rows[..n]);
      if i :| 0 <= i < n && rows[..n][i].id + 1 == NextId(rows[..n]) {
        assert rows[i].id + 1 == NextId(rows[..n]);
      }
    }
  }

  function Fresh(rows: seq<Message>, sender: int, to: int, group: int, content: string, contentType: string,
                 now: int, delivered: bool): Message
  {
    Message(NextId(rows), sender, to, group, content, if contentType == "" then "text" else contentType, now,
            delivered, false, false, false, 0, 0, "", 0)
  }

  function PrivateMessage(rows: seq<Message>, sender: int, to: int, content: string, contentType: string,
                          now: int, delivered: bool): Message
  {
    Fresh(rows, sender, to, 0, content, contentType, now, delivered)
  }

  function GroupMessage(rows: seq<Message>, sender: int, group: int, content: string, contentType: string,
                        now: int): Message
  {
    Fresh(rows, sender, 0, group, content, contentType, now, true)
  }

  // ---------------------------------------------------------------- changes to stored messages

  datatype Change =
    | Edit(id: int, actor: int, content: string, now: int)
    | SoftDelete(id: int, actor: int, now: int)
    | AddReaction(id: int, actor: int, reaction: string)
    | MarkRead(id: int, reader: int)
    | MarkDelivered(id: int)

  /** Does the change apply to this message? */
  predicate Hits(m: Message, c: Change) {
    && m.id == c.id
    && match c
       case Edit(_, actor, content, _) => m.sender == actor && !m.deleted && content != ""
       case SoftDelete(_, actor, _) => m.sender == actor && !m.deleted
       case AddReaction(_, _, reaction) => reaction != "" && !m.deleted
       case MarkRead(_, _) => true
       case MarkDelivered(_) => true
  }

  function NatText(n: nat): string {
    if n < 10 then ["0123456789"[n]] else NatText(n / 10) + ["0123456789"[n % 10]]
  }

  function IntText(n: int): string {
    if n < 0 then "-" + NatText(-n) else NatText(n)
  }

  function ReactionText(actor: int, reaction: string): string {
    IntText(actor) + ":" + reaction
  }

  /** The number that decimal digits spell, the last one counting once. */
  function Spelled(digits: string): int {
    if digits == "" then 0
    else 10 * Spelled(digits[..|digits| - 1]) + (digits[|digits| - 1] as int - '0' as int)
  }

  /** Decimal digits without a leading zero that spell the number. */
  predicate Spells(digits: string, n: nat) {
    && (forall i :: 0 <= i < |digits| ==> '0' <= digits[i] <= '9')
    && digits != "" && (digits[0] == '0' ==> n == 0) && Spelled(digits) == n
  }

  lemma {:induction false} NatTextSpells(n: nat)
    ensures Spells(NatText(n), n)
    decreases n
  {
    if n >= 10 {
      NatTextSpells(n / 10);
      assert NatText(n) == NatText(n / 10) + ["0123456789"[n % 10]];
      assert NatText(n)[..|NatText(n)| - 1] == NatText(n / 10);
    } else {
      assert Spelled("") == 0 && [NatText(n)[0]][..0] == "";
    }
  }

  /** The text of a reaction starts with the number of the user, in decimal, with a minus sign if it is negative. */
  lemma ReactionNamesUser(actor: int, reaction: string) returns (digits: string)
    ensures ReactionText(actor, reaction) == (if actor < 0 then "-" else "") + digits + ":" + reaction
    ensures Spells(digits, if actor < 0 then -actor else actor)
  {
    digits := NatText(if actor < 0 then -actor else actor);
    NatTextSpells(if actor < 0 then -actor else actor);
  }

  predicate OccursAt(text: string, part: string, i: nat) {
    i + |part| <= |text| && text[i..i + |part|] == part
  }

  predicate Contains(text: string, part: string) {
    exists i: nat :: i <= |text| && OccursAt(text, part, i)
  }

  /** Reactions are a comma-separated list, extended unless the new entry occurs somewhere in its text. */
  function WithReaction(reactions: string, entry: string): string {
    if Contains(reactions, entry) then reactions
    else if reactions == "" then entry
    else reactions + "," + entry
  }

  function Changed(m: Message, c: Change): Message {
    if !Hits(m, c) then m
    else
      match c
      case Edit(_, _, content, now) => m.(content := content, edited := true, editedAt := now)
      case SoftDelete(_, _, now) => m.(content := "", deleted := true, deletedAt := now)
      case AddReaction(_, actor, reaction) => m.(reactions := WithReaction(m.reactions, ReactionText(actor, reaction)))
      case MarkRead(_, reader) => m.(read := true, readBy := reader)
      case MarkDelivered(_) => m.(delivered := true)
  }

  function ChangeAll(rows: seq<Message>, c: Change): (r: seq<Message>)
    ensures |r| == |rows|
  {
    seq(|rows|, i requires 0 <= i < |rows| => Changed(rows[i], c))
  }

  predicate HitsAny(rows: seq<Message>, c: Change) {
    exists i :: 0 <= i < |rows| && Hits(rows[i], c)
  }

  // ---------------------------------------------------------------- lifecycle

  /**
   What may become of a message: identity and time never change, flags are only ever set, reactions are only
   appended to, and once deleted neither content nor reactions change again.
   */
  ghost predicate Evolves(m: Message, n: Message) {
    && n.id == m.id && n.sender == m.sender && n.to == m.to && n.group == m.group
    && n.contentType == m.contentType && n.timestamp == m.timestamp
    && (m.delivered ==> n.delivered) && (m.read ==> n.read) && (m.edited ==> n.edited) && (m.deleted ==> n.deleted)
    && m.reactions <= n.reactions
    && (m.deleted ==> n.content == m.content && n.reactions == m.reactions && n.edited == m.edited
                      && n.editedAt == m.editedAt && n.deletedAt == m.deletedAt)
  }

  ghost predicate AllEvolve(rows: seq<Message>, later: seq<Message>) {
    |rows| <= |later| && forall i :: 0 <= i < |rows| ==> Evolves(rows[i], later[i])
  }

  lemma AllEvolveTransitive(a: seq<Message>, b: seq<Message>, c: seq<Message>)
    requires AllEvolve(a, b) && AllEvolve(b, c)
    ensures AllEvolve(a, c)
  {
    forall i | 0 <= i < |a|
      ensures Evolves(a[i], c[i])
    {
      assert Evolves(a[i], b[i]) && Evolves(b[i], c[i]);
    }
  }

  lemma ChangeEvolves(rows: seq<Message>, c: Change)
    ensures AllEvolve(rows, ChangeAll(rows, c))
  {
  }

  /** Ids increase strictly in storage order, and a deleted message has no content. */
  ghost predicate WellStored(rows: seq<Message>) {
    && (forall i :: 0 <= i < |rows| ==> rows[i].id >= 1 && (rows[i].deleted ==> rows[i].content == ""))
    && (forall i, j :: 0 <= i < j < |rows| ==> rows[i].id < rows[j].id)
  }

  lemma ChangeWellStored(rows: seq<Message>, c: Change)
    requires WellStored(rows)
    ensures WellStored(ChangeAll(rows, c))
  {
  }

  lemma AppendWellStored(rows: seq<Message>, m: Message)
    requires WellStored(rows) && m.id == NextId(rows) && !m.deleted
    ensures WellStored(rows + [m])
  {
  }

  /** The content of a message changes only by its author's edit or deletion. */
  lemma OnlyAuthorChangesContent(m: Message, c: Change)
    requires Changed(m, c).content != m.content
    ensures (c.Edit? || c.SoftDelete?) && c.id == m.id && c.actor == m.sender && !m.deleted
  {
  }

  lemma EntryIsContained(reactions: string, entry: string)
    ensures Contains(WithReaction(reactions, entry), entry)
  {
    var after := WithReaction(reactions, entry);
    if !Contains(reactions, entry) {
      assert OccursAt(after, entry, |after| - |entry|);
    }
  }

  /** Repeating a reaction changes nothing. */
  lemma RepeatedReaction(m: Message, c: Change)
    requires c.AddReaction?
    ensures Changed(Changed(m, c), c) == Changed(m, c)
  {
    EntryIsContained(m.reactions, ReactionText(c.actor, c.reaction));
  }

  // ---------------------------------------------------------------- reactions as a list

  /** The texts between commas. */
  function Pieces(s: string): (r: seq<string>)
    ensures r != []
  {
    if s == "" then [""]
    else
      var rest := Pieces(s[1..]);
      if s[0] == ',' then [""] + rest else [[s[0]] + rest[0]] + rest[1..]
  }

  function NonEmpty(pieces: seq<string>): seq<string> {
    if pieces == [] then [] else (if pieces[0] == "" then [] else [pieces[0]]) + NonEmpty(pieces[1..])
  }

  /** The reactions a reader finds in the stored text: split at commas, empty texts dropped. */
  function Entries(reactions: string): seq<string> {
    NonEmpty(Pieces(reactions))
  }

  lemma {:induction false} PiecesJoin(a: string, b: string)
    ensures Pieces(a + "," + b) == Pieces(a) + Pieces(b)
    decreases |a|
  {
    var s := a + "," + b;
    if a == "" {
      assert s[1..] == b;
    } else {
      assert s[0] == a[0] && s[1..] == a[1..] + "," + b;
      PiecesJoin(a[1..], b);
    }
  }

  lemma {:induction false} NonEmptyAppend(a: seq<string>, b: seq<string>)
    ensures NonEmpty(a + b) == NonEmpty(a) + NonEmpty(b)
    decreases |a|
  {
    if a == [] {
      assert a + b == b;
    } else {
      assert (a + b)[1..] == a[1..] + b;
      NonEmptyAppend(a[1..], b);
    }
  }

  lemma {:induction false} InNonEmpty(pieces: seq<string>, x: string)
    ensures x in NonEmpty(pieces) <==> x in pieces && x != ""
    decreases |pieces|
  {
    if pieces != [] {
      InNonEmpty(pieces[1..], x);
      assert pieces == [pieces[0]] + pieces[1..];
    }
  }

  lemma {:induction false} WholePiece(s: string)
    requires ',' !in s
    ensures Pieces(s) == [s]
    decreases |s|
  {
    if s != "" {
      WholePiece(s[1..]);
      assert [s[0]] + s[1..] == s;
    }
  }

  lemma {:induction false} PiecesHaveNoComma(s: string, x: string)
    requires x in Pieces(s)
    ensures ',' !in x
    decreases |s|
  {
    if s != "" {
      var rest := Pieces(s[1..]);
      if s[0] != ',' && x == [s[0]] + rest[0] {
        PiecesHaveNoComma(s[1..], rest[0]);
      } else if x != "" {
        PiecesHaveNoComma(s[1..], x);
      }
    }
  }

  /** A text is one entry, namely itself, exactly if it has no comma. */
  lemma OneEntry(e: string)
    requires e != ""
    ensures Entries(e) == [e] <==> ',' !in e
  {
    if ',' !in e {
      WholePiece(e);
      assert NonEmpty([e]) == [e] + NonEmpty([e][1..]) == [e];
    } else if Entries(e) == [e] {
      assert e in Entries(e);
      InNonEmpty(Pieces(e), e);
      PiecesHaveNoComma(e, e);
    }
  }

  lemma {:induction false} NumberHasNoComma(n: nat)
    ensures ',' !in NatText(n)
    decreases n
  {
    if n >= 10 {
      NumberHasNoComma(n / 10);
    }
    assert forall i :: 0 <= i < 10 ==> "0123456789"[i] != ',';
  }

  lemma CommaOnlyInReaction(actor: int, reaction: string)
    ensures ',' in ReactionText(actor, reaction) <==> ',' in reaction
  {
    NumberHasNoComma(if actor < 0 then -actor else actor);
  }

  /** However many commas are in it, the text of a reaction has an entry. */
  lemma SomeEntry(actor: int, reaction: string)
    ensures Entries(ReactionText(actor, reaction)) != []
  {
    var text := ReactionText(actor, reaction);
    var n := if actor < 0 then -actor else actor;
    NumberStarts(n);
    NumberHasNoComma(n);
    assert text[0] == IntText(actor)[0] && IntText(actor)[0] in IntText(actor) && text[0] != ',';
    InNonEmpty(Pieces(text), Pieces(text)[0]);
  }

  lemma {:induction false} NumberStarts(n: nat)
    ensures NatText(n) != ""
    decreases n
  {
    if n >= 10 {
      NumberStarts(n / 10);
    }
  }

  /** An accepted reaction whose text does not occur in the recorded ones adds the entries of its own text. */
  lemma EntriesAfter(reactions: string, entry: string)
    ensures Entries(WithReaction(reactions, entry))
            == Entries(reactions) + if Contains(reactions, entry) then [] else Entries(entry)
  {
    if !Contains(reactions, entry) {
      if reactions == "" {
        assert NonEmpty([""]) == [] + NonEmpty([""][1..]) == [];
      } else {
        PiecesJoin(reactions, entry);
        NonEmptyAppend(Pieces(reactions), Pieces(entry));
      }
    }
  }

  /** A part without comma occurs in a text exactly if it occurs inside one of its entries. */
  lemma ContainedInEntry(s: string, e: string)
    requires e != "" && ',' !in e
    ensures Contains(s, e) <==> exists x :: x in Entries(s) && Contains(x, e)
  {
    if i: nat :| i <= |s| && OccursAt(s, e, i) {
      var x := PieceWith(s, e, i);
      InNonEmpty(Pieces(s), x);
    }
    if x :| x in Entries(s) && Contains(x, e) {
      InNonEmpty(Pieces(s), x);
      PieceOccurs(s, x, e);
    }
  }

  lemma {:induction false} PrefixOfPiece(s: string, e: string)
    requires e <= s && ',' !in e
    ensures e <= Pieces(s)[0]
    decreases |s|
  {
    if e != "" {
      assert s[0] == e[0] && e[0] in e && e[1..] <= s[1..];
      PrefixOfPiece(s[1..], e[1..]);
      assert e == [e[0]] + e[1..];
    }
  }

  lemma {:induction false} PieceWith(s: string, e: string, i: nat) returns (x: string)
    requires OccursAt(s, e, i) && e != "" && ',' !in e
    ensures x in Pieces(s) && x != "" && Contains(x, e)
    decreases |s|
  {
    if i == 0 {
      PrefixOfPiece(s, e);
      x := Pieces(s)[0];
      assert OccursAt(x, e, 0);
    } else {
      assert s[1..][i - 1..i - 1 + |e|] == s[i..i + |e|];
      var rest := Pieces(s[1..]);
      x := PieceWith(s[1..], e, i - 1);
      if s[0] != ',' && x == rest[0] {
        x := [s[0]] + x;
        var j: nat :| j <= |rest[0]| && OccursAt(rest[0], e, j);
        assert x[j + 1..j + 1 + |e|] == rest[0][j..j + |e|];
        assert OccursAt(x, e, j + 1);
      }
    }
  }

  lemma {:induction false} FirstPieceLeads(s: string)
    ensures Pieces(s)[0] <= s
    decreases |s|
  {
    if s != "" {
      FirstPieceLeads(s[1..]);
      assert s == [s[0]] + s[1..];
    }
  }

  lemma {:induction false} PieceOccurs(s: string, x: string, e: string)
    requires x in Pieces(s) && x != "" && Contains(x, e)
    ensures Contains(s, e)
    decreases |s|
  {
    var j: nat :| j <= |x| && OccursAt(x, e, j);
    FirstPieceLeads(s);
    if x == Pieces(s)[0] {
      assert s[j..j + |e|] == x[j..j + |e|];
      assert OccursAt(s, e, j);
    } else {
      PieceOccurs(s[1..], x, e);
      var k: nat :| k <= |s[1..]| && OccursAt(s[1..], e, k);
      assert s[k + 1..k + 1 + |e|] == s[1..][k..k + |e|];
      assert OccursAt(s, e, k + 1);
    }
  }

  /**
   What an accepted reaction does to the list. Without a comma in it, it is listed afterwards exactly if it was
   listed before or occurs inside no listed entry, and no other entry changes; it adds just itself exactly if it has
   no comma and was not swallowed.
   */
  lemma ReactionListed(m: Message, actor: int, reaction: string)
    requires Hits(m, AddReaction(m.id, actor, reaction))
    ensures var entry, before := ReactionText(actor, reaction), Entries(m.reactions);
            var after := Entries(Changed(m, AddReaction(m.id, actor, reaction)).reactions);
            && before <= after
            && (',' !in reaction ==>
                  && (entry in after <==> entry in before || !Contains(m.reactions, entry))
                  && (entry in after <==> entry in before || forall x :: x in before ==> !Contains(x, entry))
                  && (after == before || after == before + [entry]))
            && (after == before + [entry] <==> ',' !in reaction && !Contains(m.reactions, entry))
  {
    var entry := ReactionText(actor, reaction);
    EntriesAfter(m.reactions, entry);
    OneEntry(entry);
    CommaOnlyInReaction(actor, reaction);
    var before, added := Entries(m.reactions), if Contains(m.reactions, entry) then [] else Entries(entry);
    assert Entries(Changed(m, AddReaction(m.id, actor, reaction)).reactions) == before + added;
    assert (before + added)[|before|..] == added && (before + [entry])[|before|..] == [entry];
    if ',' !in reaction {
      ContainedInEntry(m.reactions, entry);
      if entry in before {
        assert OccursAt(entry, entry, 0);
      }
    }
  }

  lemma SpelledOut()
    ensures ReactionText(1, "a") == "1:a" && ReactionText(2, "b") == "2:b" && ReactionText(11, "a") == "11:a"
    ensures ReactionText(1, "a,2:b") == "1:a,2:b"
  {
    assert NatText(11) == NatText(1) + "1";
    assert IntText(1) == "1" && IntText(2) == "2" && IntText(11) == "11";
  }

  lemma TwoEntries(left: string, right: string)
    requires left != "" && right != "" && ',' !in left && ',' !in right
    ensures Entries(left + "," + right) == [left, right]
  {
    PiecesJoin(left, right);
    NonEmptyAppend(Pieces(left), Pieces(right));
    OneEntry(left);
    OneEntry(right);
  }

  /** Reactions do not form a set: user 1 cannot react like user 11 did, though the reaction is reported as added. */
  lemma ReactionSwallowed(m: Message)
    requires !m.deleted && m.reactions == ReactionText(11, "a")
    ensures Hits(m, AddReaction(m.id, 1, "a")) && Changed(m, AddReaction(m.id, 1, "a")) == m
    ensures ReactionText(1, "a") !in Entries(m.reactions)
  {
    SpelledOut();
    assert OccursAt("11:a", "1:a", 1);
    OneEntry("11:a");
  }

  /** Nor is a reaction with a comma one entry: this one also lists a reaction of user 2. */
  lemma ReactionSplits(m: Message)
    requires !m.deleted && m.reactions == ""
    ensures Entries(Changed(m, AddReaction(m.id, 1, "a,2:b")).reactions) == [ReactionText(1, "a"), ReactionText(2, "b")]
  {
    SpelledOut();
    assert Entries("") == NonEmpty([""]) == NonEmpty([""][1..]) == [];
    EntriesAfter("", "1:a,2:b");
    assert "1:a,2:b" == "1:a" + "," + "2:b";
    TwoEntries("1:a", "2:b");
  }

  // ---------------------------------------------------------------- offline batches

  predicate IsPending(m: Message, user: int) {
    m.to == user && m.group == 0 && !m.delivered
  }

  function PendingFor(rows: seq<Message>, user: int): seq<Message> {
    if rows == [] then []
    else
      var n := |rows| - 1;
      PendingFor(rows[..n], user) + if IsPending(rows[n], user) then [rows[n]] else []
  }

  ghost predicate ByTime(ms: seq<Message>) {
    forall i, j :: 0 <= i < j < |ms| ==> ms[i].timestamp <= ms[j].timestamp
  }

  /** One of the orders `std::sort` may leave: equal timestamps in any order. */
  ghost predicate Sorts(ms: seq<Message>, sorted: seq<Message>) {
    ByTime(sorted) && multiset(sorted) == multiset(ms)
  }

  /** The last `limit` messages; no limit if it is not positive. */
  function Trim(sorted: seq<Message>, limit: int): seq<Message> {
    if limit > 0 && |sorted| > limit then sorted[|sorted| - limit..] else sorted
  }

  predicate InBatch(id: int, batch: seq<Message>) {
    exists k :: 0 <= k < |batch| && batch[k].id == id
  }

  function MarkBatch(rows: seq<Message>, batch: seq<Message>): (r: seq<Message>)
    ensures |r| == |rows|
  {
    seq(|rows|, i requires 0 <= i < |rows| =>
      if InBatch(rows[i].id, batch) then rows[i].(delivered := true) else rows[i])
  }

  lemma MarkBatchKeeps(rows: seq<Message>, batch: seq<Message>)
    ensures AllEvolve(rows, MarkBatch(rows, batch))
    ensures WellStored(rows) ==> WellStored(MarkBatch(rows, batch))
  {
  }

  lemma {:induction false} PendingForExact(rows: seq<Message>, user: int, m: Message)
    ensures m in PendingFor(rows, user) <==> m in rows && IsPending(m, user)
    decreases |rows|
  {
    if rows != [] {
      var n := |rows| - 1;
      PendingForExact(rows[..n], user, m);
      assert rows == rows[..n] + [rows[n]];
    }
  }

  function CountId(ms: seq<Message>, id: int): nat {
    if ms == [] then 0 else CountId(ms[..|ms| - 1], id) + if ms[|ms| - 1].id == id then 1 else 0
  }

  /** Occurrences of an id can be counted in the multiset of messages. */
  lemma {:induction false} CountIdZero(ms: seq<Message>, id: int)
    ensures CountId(ms, id) == 0 <==> !InBatch(id, ms)
    decreases |ms|
  {
    if ms != [] {
      var n := |ms| - 1;
      CountIdZero(ms[..n], id);
      if InBatch(id, ms[..n]) {
        var k :| 0 <= k < n && ms[..n][k].id == id;
        assert ms[k].id == id;
      }
      if k :| 0 <= k < |ms| && ms[k].id == id {
        if k < n {
          assert ms[..n][k].id == id;
        }
      }
    }
  }

  /** Messages with distinct ids carry each id once. */
  lemma {:induction false} CountIdOne(ms: seq<Message>, id: int)
    requires forall i, j :: 0 <= i < j < |ms| ==> ms[i].id != ms[j].id
    ensures CountId(ms, id) == if InBatch(id, ms) then 1 else 0
    decreases |ms|
  {
    if ms != [] {
      var n := |ms| - 1;
      CountIdOne(ms[..n], id);
      CountIdZero(ms[..n], id);
      CountIdZero(ms, id);
      forall k | 0 <= k < n
        ensures ms[..n][k].id != ms[n].id
      {
        assert ms[..n][k] == ms[k];
      }
    }
  }

  ghost predicate Increasing(ms: seq<Message>) {
    forall i, j :: 0 <= i < j < |ms| ==> ms[i].id < ms[j].id
  }

  /** `PendingFor` keeps storage order, so its ids increase. */
  lemma {:induction false} PendingIncreases(rows: seq<Message>, user: int)
    requires WellStored(rows)
    ensures Increasing(PendingFor(rows, user))
    decreases |rows|
  {
    if rows != [] {
      var n := |rows| - 1;
      var before, p := rows[..n], PendingFor(rows[..n], user);
      assert WellStored(before);
      PendingIncreases(before, user);
      forall i | 0 <= i < |p|
        ensures p[i].id < rows[n].id
      {
        PendingForExact(before, user, p[i]);
        var k :| 0 <= k < n && before[k] == p[i];
        assert rows[k] == p[i];
      }
    }
  }

  /** Sorting messages with distinct ids gives messages with distinct ids. */
  lemma SortedDistinct(ms: seq<Message>, sorted: seq<Message>)
    requires multiset(sorted) == multiset(ms)
    requires forall i, j :: 0 <= i < j < |ms| ==> ms[i].id != ms[j].id
    ensures forall i, j :: 0 <= i < j < |sorted| ==> sorted[i].id != sorted[j].id
  {
    forall i, j | 0 <= i < j < |sorted|
      ensures sorted[i].id != sorted[j].id
    {
      if sorted[i].id == sorted[j].id {
        assert sorted[i] in multiset(ms) && sorted[j] in multiset(ms);
        var a :| 0 <= a < |ms| && ms[a] == sorted[i];
        var b :| 0 <= b < |ms| && ms[b] == sorted[j];
        assert a == b;
        DuplicateCounts(sorted, i, j);
        DistinctCountsOnce(ms, a);
      }
    }
  }

  lemma DuplicateCounts(ms: seq<Message>, i: nat, j: nat)
    requires i < j < |ms| && ms[i] == ms[j]
    ensures multiset(ms)[ms[i]] >= 2
  {
    assert ms == ms[..j] + ms[j..];
    assert ms[i] in ms[..j] && ms[j] in ms[j..];
  }

  lemma DistinctCountsOnce(ms: seq<Message>, a: nat)
    requires a < |ms|
    requires forall i, j :: 0 <= i < j < |ms| ==> ms[i].id != ms[j].id
    ensures multiset(ms)[ms[a]] == 1
  {
    assert ms == ms[..a] + [ms[a]] + ms[a + 1..];
    assert ms[a] !in ms[..a] && ms[a] !in ms[a + 1..];
  }

  /** A message is in the batch unless it is among those the limit cuts off at the front. */
  lemma TrimKeepsTail(sorted: seq<Message>, limit: int, i: nat)
    requires i < |sorted|
    ensures InBatch(sorted[i].id, Trim(sorted, limit)) || (limit > 0 && i < |sorted| - limit)
  {
    var batch := Trim(sorted, limit);
    if limit <= 0 || |sorted| <= limit {
      assert batch[i].id == sorted[i].id;
    } else if i >= |sorted| - limit {
      assert batch[i - (|sorted| - limit)].id == sorted[i].id;
    }
  }

  /** An offline batch holds pending messages of the user, each once. */
  lemma BatchIsPending(rows: seq<Message>, user: int, sorted: seq<Message>, limit: int)
    requires WellStored(rows) && Sorts(PendingFor(rows, user), sorted)
    ensures var batch := Trim(sorted, limit);
            && (forall i, j :: 0 <= i < j < |batch| ==> batch[i].id != batch[j].id)
            && (forall k :: 0 <= k < |batch| ==> batch[k] in rows && IsPending(batch[k], user))
            && (limit > 0 ==> |batch| <= limit)
  {
    var p, batch := PendingFor(rows, user), Trim(sorted, limit);
    PendingIncreases(rows, user);
    SortedDistinct(p, sorted);
    forall k | 0 <= k < |batch|
      ensures batch[k] in rows && IsPending(batch[k], user)
    {
      assert batch[k] in sorted;
      assert batch[k] in multiset(p);
      PendingForExact(rows, user, batch[k]);
    }
  }

  /** A pending message that is not in the batch was cut off by the limit and is no newer than any in the batch. */
  lemma BatchIsNewest(rows: seq<Message>, user: int, sorted: seq<Message>, limit: int, m: Message)
    requires Sorts(PendingFor(rows, user), sorted)
    requires m in rows && IsPending(m, user) && !InBatch(m.id, Trim(sorted, limit))
    ensures var batch := Trim(sorted, limit);
            limit > 0 && |batch| == limit && forall k :: 0 <= k < |batch| ==> m.timestamp <= batch[k].timestamp
  {
    PendingForExact(rows, user, m);
    assert m in multiset(sorted);
    var i :| 0 <= i < |sorted| && sorted[i] == m;
    TrimKeepsTail(sorted, limit, i);
  }

  /** After the batch is marked, exactly the pending messages outside it are still pending. */
  lemma TrimmedStayPending(rows: seq<Message>, user: int, sorted: seq<Message>, limit: int, i: nat)
    requires WellStored(rows) && Sorts(PendingFor(rows, user), sorted) && i < |rows|
    ensures var after := MarkBatch(rows, Trim(sorted, limit));
            && (after[i].delivered <==> rows[i].delivered || InBatch(rows[i].id, Trim(sorted, limit)))
            && (InBatch(rows[i].id, Trim(sorted, limit)) ==> IsPending(rows[i], user))
  {
    var batch := Trim(sorted, limit);
    BatchIsPending(rows, user, sorted, limit);
    if InBatch(rows[i].id, batch) {
      var k :| 0 <= k < |batch| && batch[k].id == rows[i].id;
      var j :| 0 <= j < |rows| && rows[j] == batch[k];
      assert j == i;
    }
  }
}
