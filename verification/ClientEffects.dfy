/** Where a client applies what the server announces, by the keys of its lists, and what it shows afterwards. */
module ClientEffects {
  import opened Basics
  import opened Sessions
  import opened Router
  import opened ServerPresence
  import opened ServerDelivery
  import opened History
  import opened Replica
  import M = Messages
  import C = Channels

  /** The list kept under a key; a missing one is empty. */
  function Held(lists: map<int, seq<Chat>>, key: int): seq<Chat> {
    if key in lists then lists[key] else []
  }

  /** Nothing but the list under this key differs. */
  predicate OnlyAt(lists: map<int, seq<Chat>>, after: map<int, seq<Chat>>, key: int) {
    && after.Keys == lists.Keys + {key}
    && forall k :: k in lists && k != key ==> after[k] == lists[k]
  }

  predicate OnlyContact(c: Client, after: Client, contact: int) {
    after.me == c.me && after.byGroup == c.byGroup && OnlyAt(c.byContact, after.byContact, contact)
  }

  predicate OnlyGroup(c: Client, after: Client, group: int) {
    after.me == c.me && after.byContact == c.byContact && OnlyAt(c.byGroup, after.byGroup, group)
  }

  // ---------------------------------------------------------------- announcements

  datatype News = Rewritten(content: string) | Erased | Reacted(reaction: string) | MarkedRead

  /** What the server sends about a message of `id`, from a user, to another one or to a group. */
  function Announcement(news: News, id: int, fromId: int, toId: int, group: int): Payload {
    match news
    case Rewritten(content) => EditReturn(true, id, fromId, toId, group, content)
    case Erased => DeleteReturn(true, id, fromId, toId, group)
    case Reacted(reaction) => ReactionReturn(true, id, fromId, toId, group, reaction)
    case MarkedRead => ReadReceipt(id, fromId, toId, group)
  }

  /** The same message afterwards, field by field. */
  predicate Altered(news: News, fromId: int, before: Chat, after: Chat) {
    && after.id == before.id && after.fromId == before.fromId && after.timestamp == before.timestamp
    && var f, g := before.face, after.face;
       && g.content == (match news case Rewritten(content) => content case Erased => "" case _ => f.content)
       && g.edited == (f.edited || news.Rewritten?)
       && g.deleted == (f.deleted || news.Erased?)
       && g.read == (f.read || news.MarkedRead?)
       && (if news.Reacted? && M.ReactionText(fromId, news.reaction) !in f.reactions
           then g.reactions == f.reactions + [M.ReactionText(fromId, news.reaction)] else g.reactions == f.reactions)
  }

  /** Every message of that id is altered, and every other one is as it was, in its place. */
  predicate ListAltered(news: News, id: int, fromId: int, before: seq<Chat>, after: seq<Chat>) {
    && |after| == |before|
    && forall i :: 0 <= i < |before| ==>
         if before[i].id == FromServer(id) then Altered(news, fromId, before[i], after[i]) else after[i] == before[i]
  }

  /**
   News of a direct message between two users changes, on the client of the one it comes from, the list kept of the
   other one and, on anybody else's, the list kept of the one it comes from, and no other list.
   */
  lemma DirectNews(c: Client, news: News, id: int, a: int, b: int)
    requires a > 0 && b > 0
    ensures var after := Receive(c, Announcement(news, id, a, b, 0));
            && (c.me == a ==> OnlyContact(c, after, b)
                              && ListAltered(news, id, a, Held(c.byContact, b), after.byContact[b]))
            && (c.me != a ==> OnlyContact(c, after, a)
                              && ListAltered(news, id, a, Held(c.byContact, a), after.byContact[a]))
  {
    var after := Receive(c, Announcement(news, id, a, b, 0));
    if c.me == a {
      assert after.byContact[b] == UpdateById(Held(c.byContact, b), id, Announcement(news, id, a, b, 0));
    } else {
      assert after.byContact[a] == UpdateById(Held(c.byContact, a), id, Announcement(news, id, a, b, 0));
    }
  }

  /** News of a group message changes the list of that group, on every client, and no other list. */
  lemma GroupNews(c: Client, news: News, id: int, a: int, b: int, group: int)
    requires group > 0
    ensures var after := Receive(c, Announcement(news, id, a, b, group));
            OnlyGroup(c, after, group) && ListAltered(news, id, a, Held(c.byGroup, group), after.byGroup[group])
  {
    var after := Receive(c, Announcement(news, id, a, b, group));
    assert after.byGroup[group] == UpdateById(Held(c.byGroup, group), id, Announcement(news, id, a, b, group));
  }

  /** Other answers leave all lists alone. */
  lemma OtherwiseUntouched(c: Client, payload: Payload)
    requires payload.HistoryResponse? ==> payload.messages == []
    requires !payload.ReadReceipt?
    requires payload.EditReturn? || payload.DeleteReturn? || payload.ReactionReturn? ==> !payload.ok
    ensures Receive(c, payload) == c
  {
  }

  // ---------------------------------------------------------------- history responses

  /** The message looks as its row says. */
  predicate Pictures(chat: Chat, m: M.Message) {
    && chat.id == FromServer(m.id) && chat.fromId == m.sender && chat.timestamp == m.timestamp
    && chat.face.content == m.content && chat.face.edited == m.edited && chat.face.deleted == m.deleted
    && chat.face.read == m.read && chat.face.reactions == M.Entries(m.reactions)
  }

  /** The list holds the last version of every message that was held or came, once, in time order. */
  ghost predicate Merged(held: seq<Chat>, ms: seq<M.Message>, after: seq<Chat>) {
    && ByTime(after) && DistinctIds(after)
    && exists came: seq<Chat> ::
         && |came| == |ms| && (forall i :: 0 <= i < |ms| ==> Pictures(came[i], ms[i]))
         && forall chat :: chat in after <==> IsLatest(held + came, chat)
  }

  lemma MergeIsMerged(held: seq<Chat>, ms: seq<M.Message>)
    ensures Merged(held, ms, Merge(held, ToChats(ms)))
  {
    var came := ToChats(ms);
    MergeYieldsLatest(held, came);
    assert |came| == |ms| && forall i :: 0 <= i < |ms| ==> Pictures(came[i], ms[i]);
  }

  /** A response about the direct messages of two users goes to the list that either keeps of the other one. */
  lemma DirectHistory(c: Client, ms: seq<M.Message>, a: int, b: int)
    requires a > 0 && b > 0 && a != b && ms != [] && ms[0].group == 0 && ms[0].sender == a && ms[0].to == b
    ensures var after := Receive(c, HistoryResponse(ms));
            && (c.me == a ==> OnlyContact(c, after, b) && Merged(Held(c.byContact, b), ms, after.byContact[b]))
            && (c.me == b ==> OnlyContact(c, after, a) && Merged(Held(c.byContact, a), ms, after.byContact[a]))
  {
    MergeIsMerged(Held(c.byContact, a), ms);
    MergeIsMerged(Held(c.byContact, b), ms);
  }

  lemma GroupHistory(c: Client, ms: seq<M.Message>, group: int)
    requires group > 0 && ms != [] && ms[0].group == group
    ensures var after := Receive(c, HistoryResponse(ms));
            OnlyGroup(c, after, group) && Merged(Held(c.byGroup, group), ms, after.byGroup[group])
  {
    MergeIsMerged(Held(c.byGroup, group), ms);
  }

  // ---------------------------------------------------------------- what a client shows

  /** The list has the message, and wherever it does, with the text, the flags and the reactions of the row. */
  predicate Displays(list: seq<Chat>, row: M.Message) {
    && (exists i :: 0 <= i < |list| && list[i].id == FromServer(row.id))
    && forall i :: 0 <= i < |list| && list[i].id == FromServer(row.id) ==>
         && list[i].face.content == row.content && list[i].face.edited == row.edited
         && list[i].face.deleted == row.deleted && list[i].face.read == row.read
         && list[i].face.reactions == M.Entries(row.reactions)
  }

  /** The client displays the message under the other user, or under the group. */
  predicate DisplaysInPlace(c: Client, row: M.Message) {
    && (row.group > 0 ==> Displays(Held(c.byGroup, row.group), row))
    && (row.group == 0 && row.sender == c.me ==> Displays(Held(c.byContact, row.to), row))
    && (row.group == 0 && row.to == c.me ==> Displays(Held(c.byContact, row.sender), row))
  }

  /** For whoever takes part, to agree with a row is to display it there. */
  lemma AgreesInPlace(c: Client, row: M.Message)
    requires IsConversation(row) && (row.group == 0 ==> c.me == row.sender || c.me == row.to)
    ensures Agrees(c, row) <==> DisplaysInPlace(c, row)
  {
    var list := if row.group > 0 then Held(c.byGroup, row.group)
                else if row.sender == c.me then Held(c.byContact, row.to) else Held(c.byContact, row.sender);
    assert list == Conversation(c, row);
    assert Agrees(c, row) <==> Displays(list, row);
  }

  /** The step, if it is about the row, names the row's conversation, says what it stores and is not a silent mark. */
  predicate Proper(st: Server, step: Step, row: M.Message) {
    if IsChange(step) then step.id == row.id ==> NamesConversation(st, step, row) && AnnouncedTruly(st, step, row)
    else step.RequestHistory? ==> step.readId != row.id
  }

  /** The user takes part and stays online there, and every step is proper and leaves the server up. */
  ghost predicate ProperRun(st: Server, steps: seq<Step>, i: nat, user: int, session: nat)
    decreases |steps|
  {
    steps == []
    || (&& i < |st.messages| && TakesPart(st, st.messages[i], user)
        && Stays(st, steps[0], st.messages[i], user, session)
        && Proper(st, steps[0], st.messages[i]) && !Next(st, steps[0]).down
        && ProperRun(Next(st, steps[0]), steps[1..], i, user, session))
  }

  lemma {:induction false} ProperKeeps(st: Server, steps: seq<Step>, i: nat, user: int, session: nat)
    requires TablesSound(st) && Forward(st.pool) && CanRun(st, steps)
    requires i < |st.messages| && IsConversation(st.messages[i]) && ProperRun(st, steps, i, user, session)
    ensures KeepsAll(st, steps, i, user, session)
    decreases |steps|
  {
    if steps != [] {
      var row, next := st.messages[i], Next(st, steps[0]);
      if IsChange(steps[0]) {
        WellAddressedKeeps(st, steps[0], row, user, session);
      }
      StepTables(st, steps[0]);
      StepForward(st, steps[0]);
      assert M.Evolves(row, next.messages[i]);
      ProperKeeps(next, steps[1..], i, user, session);
    }
  }

  /**
   Through every run of proper steps, a participant who stays online and displays a message where it belongs displays
   it there, in the end, as the server then stores it.
   */
  lemma DisplayFollows(st: Server, steps: seq<Step>, i: nat, user: int, session: nat, c: Client)
    requires TablesSound(st) && Forward(st.pool) && CanRun(st, steps) && c.me == user
    requires i < |st.messages| && IsConversation(st.messages[i]) && TakesPart(st, st.messages[i], user)
    requires ProperRun(st, steps, i, user, session) && DisplaysInPlace(c, st.messages[i])
    ensures i < |Run(st, steps).messages|
    ensures DisplaysInPlace(Replay(c, st, steps, session), Run(st, steps).messages[i])
  {
    var row := st.messages[i];
    AgreesInPlace(c, row);
    ProperKeeps(st, steps, i, user, session);
    ReplicaFollows(st, steps, i, user, session, c);
    ReplayKeeps(c, st, steps, session);
    RowKept(st, steps, i);
    AgreesInPlace(Replay(c, st, steps, session), Run(st, steps).messages[i]);
  }

  lemma {:induction false} ReceiveAllKeeps(c: Client, out: seq<Delivery>, session: nat)
    ensures ReceiveAll(c, out, session).me == c.me
    decreases |out|
  {
    if out != [] {
      ReceiveAllKeeps(if out[0].session == session then Receive(c, out[0].payload) else c, out[1..], session);
    }
  }

  lemma {:induction false} ReplayKeeps(c: Client, st: Server, steps: seq<Step>, session: nat)
    ensures Replay(c, st, steps, session).me == c.me
    decreases |steps|
  {
    if steps != [] {
      ReceiveAllKeeps(c, Output(st, steps[0]), session);
      ReplayKeeps(ReceiveAll(c, Output(st, steps[0]), session), Next(st, steps[0]), steps[1..], session);
    }
  }

  lemma {:induction false} RowKept(st: Server, steps: seq<Step>, i: nat)
    requires TablesSound(st) && CanRun(st, steps) && i < |st.messages|
    ensures i < |Run(st, steps).messages| && SameMessage(st.messages[i], Run(st, steps).messages[i])
    decreases |steps|
  {
    if steps != [] {
      StepTables(st, steps[0]);
      assert M.Evolves(st.messages[i], Next(st, steps[0]).messages[i]);
      RowKept(Next(st, steps[0]), steps[1..], i);
    }
  }
}
