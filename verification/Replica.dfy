/**
 A client's copy of its conversations, and why it follows the server: whoever stays online and applies what the
 server sends, in order, shows each message as the server stores it.
 */
module Replica {
  import opened Basics
  import opened Sessions
  import opened Router
  import opened ServerPresence
  import opened ServerDelivery
  import opened History
  import M = Messages
  import C = Channels

  // ---------------------------------------------------------------- the client's handlers

  datatype Client = Client(me: int, byContact: map<int, seq<Chat>>, byGroup: map<int, seq<Chat>>)

  function Bucket(m: map<int, seq<Chat>>, key: int): seq<Chat> {
    if key in m then m[key] else []
  }

  /** How a stored message is shown. */
  function FaceOf(m: M.Message): Face {
    Face(m.content, m.edited, m.deleted, m.read, M.Entries(m.reactions))
  }

  function ToChat(m: M.Message): Chat {
    Chat(FromServer(m.id), m.sender, m.timestamp, FaceOf(m))
  }

  function ToChats(ms: seq<M.Message>): (r: seq<Chat>)
    ensures |r| == |ms|
  {
    seq(|ms|, i requires 0 <= i < |ms| => ToChat(ms[i]))
  }

  /** A list of reactions with one more, unless it is listed already. */
  function WithEntry(list: seq<string>, entry: string): seq<string> {
    if entry in list then list else list + [entry]
  }

  /** What a broadcast does to the looks of the message it names. */
  function Applied(f: Face, payload: Payload): Face {
    match payload
    case EditReturn(_, _, _, _, _, content) => f.(content := content, edited := true)
    case DeleteReturn(_, _, _, _, _) => f.(content := "", deleted := true)
    case ReactionReturn(_, _, fromId, _, _, reaction) =>
      f.(reactions := WithEntry(f.reactions, M.ReactionText(fromId, reaction)))
    case ReadReceipt(_, _, _, _) => f.(read := true)
    case _ => f
  }

  function UpdateById(list: seq<Chat>, id: int, payload: Payload): (r: seq<Chat>)
    ensures |r| == |list|
  {
    seq(|list|, i requires 0 <= i < |list| =>
      if list[i].id == FromServer(id) then list[i].(face := Applied(list[i].face, payload)) else list[i])
  }

  /** The other end of a direct conversation; absent fields read as 0. */
  function DirectPeer(fromId: int, toId: int, me: int): int {
    if fromId == me then toId else fromId
  }

  /** The server sends the target fields of a reply only if they are positive. */
  function Present(field: int): int {
    if field > 0 then field else 0
  }

  function UpdateIn(c: Client, group: int, peer: int, id: int, payload: Payload): Client {
    if group != 0 then c.(byGroup := c.byGroup[group := UpdateById(Bucket(c.byGroup, group), id, payload)])
    else if peer != 0 then c.(byContact := c.byContact[peer := UpdateById(Bucket(c.byContact, peer), id, payload)])
    else c
  }

  /** A history response goes to the conversation of its first message. */
  function ReceiveHistory(c: Client, ms: seq<M.Message>): Client {
    if ms == [] then c
    else
      var group, peer := Present(ms[0].group), DirectPeer(ms[0].sender, Present(ms[0].to), c.me);
      if group != 0 then c.(byGroup := c.byGroup[group := Merge(Bucket(c.byGroup, group), ToChats(ms))])
      else if peer != 0 then c.(byContact := c.byContact[peer := Merge(Bucket(c.byContact, peer), ToChats(ms))])
      else c
  }

  /** Handlers that add messages are not part of this model; they do not touch the messages already held. */
  function Receive(c: Client, payload: Payload): Client {
    match payload
    case EditReturn(ok, id, fromId, toId, groupId, _) =>
      if ok then UpdateIn(c, Present(groupId), DirectPeer(fromId, Present(toId), c.me), id, payload) else c
    case DeleteReturn(ok, id, fromId, toId, groupId) =>
      if ok then UpdateIn(c, Present(groupId), DirectPeer(fromId, Present(toId), c.me), id, payload) else c
    case ReactionReturn(ok, id, fromId, toId, groupId, _) =>
      if ok then UpdateIn(c, Present(groupId), DirectPeer(fromId, Present(toId), c.me), id, payload) else c
    case ReadReceipt(id, fromId, toId, groupId) =>
      UpdateIn(c, groupId, DirectPeer(fromId, toId, c.me), id, payload)
    case HistoryResponse(ms) => ReceiveHistory(c, ms)
    case _ => c
  }

  /** The deliveries to one session, applied in order. */
  function ReceiveAll(c: Client, out: seq<Delivery>, session: nat): Client
    decreases |out|
  {
    if out == [] then c
    else ReceiveAll(if out[0].session == session then Receive(c, out[0].payload) else c, out[1..], session)
  }

  // ---------------------------------------------------------------- agreement with a stored row

  /** Where a client keeps a message. */
  function Conversation(c: Client, row: M.Message): seq<Chat> {
    if row.group > 0 then Bucket(c.byGroup, row.group)
    else Bucket(c.byContact, DirectPeer(row.sender, row.to, c.me))
  }

  /** The list has the message, and wherever it does, it looks like this. */
  ghost predicate Shows(list: seq<Chat>, id: int, face: Face) {
    && HasId(list, FromServer(id))
    && forall i :: 0 <= i < |list| && list[i].id == FromServer(id) ==> list[i].face == face
  }

  /** The client holds the message, and shows it as the row says. */
  ghost predicate Agrees(c: Client, row: M.Message) {
    Shows(Conversation(c, row), row.id, FaceOf(row))
  }

  /** A message has one face in a list that shows it. */
  lemma OneFace(list: seq<Chat>, id: int, a: Face, b: Face)
    requires Shows(list, id, a)
    ensures Shows(list, id, b) <==> a == b
  {
    var k :| 0 <= k < |list| && list[k].id == FromServer(id);
    assert list[k].face == a;
  }

  predicate SameMessage(row: M.Message, after: M.Message) {
    after.id == row.id && after.group == row.group && after.sender == row.sender && after.to == row.to
  }

  /** Rows that a client would show alike. */
  predicate ShownAlike(row: M.Message, after: M.Message) {
    SameMessage(row, after) && FaceOf(after) == FaceOf(row)
  }

  lemma UpdateShows(list: seq<Chat>, id: int, payload: Payload, face: Face)
    requires Shows(list, id, face)
    ensures Shows(UpdateById(list, id, payload), id, Applied(face, payload))
  {
    var k :| 0 <= k < |list| && list[k].id == FromServer(id);
    assert UpdateById(list, id, payload)[k].id == FromServer(id);
  }

  lemma UpdateOther(list: seq<Chat>, other: int, payload: Payload, id: int, face: Face)
    requires Shows(list, id, face) && other != id
    ensures Shows(UpdateById(list, other, payload), id, face)
  {
    var k :| 0 <= k < |list| && list[k].id == FromServer(id);
    assert UpdateById(list, other, payload)[k].id == FromServer(id);
  }

  /** All messages with this id look like this. */
  ghost predicate Carry(ms: seq<M.Message>, id: int, face: Face) {
    forall k :: 0 <= k < |ms| && ms[k].id == id ==> FaceOf(ms[k]) == face
  }

  /** The last version of a message has this face, if it does in the response or, failing that, in the list. */
  lemma LatestFace(list: seq<Chat>, ms: seq<M.Message>, id: int, face: Face, c: Chat)
    requires Carry(ms, id, face) && (Shows(list, id, face) || M.InBatch(id, ms))
    requires IsLatest(list + ToChats(ms), c) && c.id == FromServer(id)
    ensures c.face == face
  {
    var chats := ToChats(ms);
    var all := list + chats;
    var k :| 0 <= k < |all| && all[k] == c && NoneAfter(all, k, c.id);
    if k >= |list| {
      assert all[k] == chats[k - |list|] == ToChat(ms[k - |list|]);
    } else {
      forall b | 0 <= b < |ms|
        ensures ms[b].id != id
      {
        assert all[|list| + b] == chats[b];
        assert all[|list| + b].id != c.id;
      }
      assert Shows(list, id, face) && list[k] == c;
    }
  }

  lemma MergeShows(list: seq<Chat>, ms: seq<M.Message>, id: int, face: Face)
    requires Carry(ms, id, face) && (Shows(list, id, face) || M.InBatch(id, ms))
    ensures Shows(Merge(list, ToChats(ms)), id, face)
  {
    var merged := Merge(list, ToChats(ms));
    if b :| 0 <= b < |ms| && ms[b].id == id {
      assert ToChats(ms)[b].id == FromServer(id);
    }
    MergeUnitesIds(list, ToChats(ms), FromServer(id));
    MergeYieldsLatest(list, ToChats(ms));
    forall i | 0 <= i < |merged| && merged[i].id == FromServer(id)
      ensures merged[i].face == face
    {
      assert merged[i] in merged;
      LatestFace(list, ms, id, face, merged[i]);
    }
  }

  // ---------------------------------------------------------------- one broadcast

  /** A payload that is not about this message, or not successful, or repeats what the row says. */
  ghost predicate Harmless(payload: Payload, row: M.Message) {
    match payload
    case EditReturn(ok, id, _, _, _, _) => ok ==> id != row.id
    case DeleteReturn(ok, id, _, _, _) => ok ==> id != row.id
    case ReactionReturn(ok, id, _, _, _, _) => ok ==> id != row.id
    case ReadReceipt(id, _, _, _) => id != row.id
    case HistoryResponse(ms) => Carry(ms, row.id, FaceOf(row))
    case _ => true
  }

  lemma UpdateInOther(c: Client, group: int, peer: int, id: int, payload: Payload, row: M.Message)
    requires Agrees(c, row) && id != row.id
    ensures Agrees(UpdateIn(c, group, peer, id, payload), row)
  {
    var list := Conversation(c, row);
    UpdateOther(list, id, payload, row.id, FaceOf(row));
    assert Conversation(UpdateIn(c, group, peer, id, payload), row) in {list, UpdateById(list, id, payload)};
  }

  lemma HarmlessKeeps(c: Client, payload: Payload, row: M.Message)
    requires Agrees(c, row) && Harmless(payload, row)
    ensures Agrees(Receive(c, payload), row)
    ensures Receive(c, payload).me == c.me
  {
    match payload {
      case EditReturn(ok, id, fromId, toId, groupId, _) =>
        if ok { UpdateInOther(c, Present(groupId), DirectPeer(fromId, Present(toId), c.me), id, payload, row); }
      case DeleteReturn(ok, id, fromId, toId, groupId) =>
        if ok { UpdateInOther(c, Present(groupId), DirectPeer(fromId, Present(toId), c.me), id, payload, row); }
      case ReactionReturn(ok, id, fromId, toId, groupId, _) =>
        if ok { UpdateInOther(c, Present(groupId), DirectPeer(fromId, Present(toId), c.me), id, payload, row); }
      case ReadReceipt(id, fromId, toId, groupId) =>
        UpdateInOther(c, groupId, DirectPeer(fromId, toId, c.me), id, payload, row);
      case HistoryResponse(ms) =>
        var list := Conversation(c, row);
        MergeShows(list, ms, row.id, FaceOf(row));
        assert Conversation(ReceiveHistory(c, ms), row) in {list, Merge(list, ToChats(ms))};
      case _ =>
    }
  }

  /** Broadcasts that announce a change of a message. */
  predicate IsAnnouncement(payload: Payload) {
    match payload
    case EditReturn(ok, _, _, _, _, _) => ok
    case DeleteReturn(ok, _, _, _, _) => ok
    case ReactionReturn(ok, _, _, _, _, _) => ok
    case ReadReceipt(_, _, _, _) => true
    case _ => false
  }

  /** The broadcast is addressed, on this client, to the conversation of the row. */
  predicate FindsConversation(payload: Payload, row: M.Message, me: int)
    requires IsAnnouncement(payload)
  {
    if payload.ReadReceipt? then Locates(payload.groupId, payload.fromId, payload.toId, row, me)
    else Locates(Present(payload.groupId), payload.fromId, Present(payload.toId), row, me)
  }

  predicate Locates(group: int, fromId: int, toId: int, row: M.Message, me: int) {
    if row.group > 0 then group == row.group
    else group == 0 && DirectPeer(fromId, toId, me) == DirectPeer(row.sender, row.to, me) != 0
  }

  lemma BroadcastUpdates(c: Client, payload: Payload, row: M.Message, face: Face)
    requires IsAnnouncement(payload) && payload.id == row.id && FindsConversation(payload, row, c.me)
    requires Shows(Conversation(c, row), row.id, face)
    ensures Shows(Conversation(Receive(c, payload), row), row.id, Applied(face, payload))
    ensures Receive(c, payload).me == c.me
  {
    var list := Conversation(c, row);
    UpdateShows(list, row.id, payload, face);
    assert Conversation(Receive(c, payload), row) == UpdateById(list, row.id, payload);
  }

  /** A broadcast that the client takes for another conversation does not touch the message. */
  lemma MissesConversation(c: Client, payload: Payload, row: M.Message)
    requires IsAnnouncement(payload) && IsConversation(row) && !FindsConversation(payload, row, c.me)
    ensures Conversation(Receive(c, payload), row) == Conversation(c, row) && Receive(c, payload).me == c.me
  {
  }

  // ---------------------------------------------------------------- deliveries to one session

  /** All deliveries to the session are harmless. */
  lemma {:induction false} HarmlessAll(c: Client, out: seq<Delivery>, session: nat, row: M.Message)
    requires Agrees(c, row)
    requires forall k :: 0 <= k < |out| && out[k].session == session ==> Harmless(out[k].payload, row)
    ensures Agrees(ReceiveAll(c, out, session), row) && ReceiveAll(c, out, session).me == c.me
    decreases |out|
  {
    if out != [] {
      var next := if out[0].session == session then Receive(c, out[0].payload) else c;
      if out[0].session == session {
        HarmlessKeeps(c, out[0].payload, row);
      }
      assert forall k :: 0 <= k < |out[1..]| ==> out[1..][k] == out[k + 1];
      HarmlessAll(next, out[1..], session, row);
    }
  }

  /** Copies of one broadcast do what the first of them does. */
  lemma {:induction false} BroadcastAll(c: Client, out: seq<Delivery>, session: nat, payload: Payload,
                                        row: M.Message, face: Face)
    requires IsAnnouncement(payload) && payload.id == row.id && FindsConversation(payload, row, c.me)
    requires Shows(Conversation(c, row), row.id, face)
    requires forall k :: 0 <= k < |out| ==> out[k].payload == payload
    requires Applied(face, payload) == face || exists k :: 0 <= k < |out| && out[k].session == session
    ensures Shows(Conversation(ReceiveAll(c, out, session), row), row.id, Applied(face, payload))
    ensures ReceiveAll(c, out, session).me == c.me
    decreases |out|
  {
    if out != [] {
      assert forall k :: 0 <= k < |out[1..]| ==> out[1..][k] == out[k + 1];
      if out[0].session != session {
        if k :| 0 <= k < |out| && out[k].session == session {
          assert out[1..][k - 1].session == session;
        }
        BroadcastAll(c, out[1..], session, payload, row, face);
      } else {
        BroadcastUpdates(c, payload, row, face);
        BroadcastAll(Receive(c, payload), out[1..], session, payload, row, Applied(face, payload));
      }
    }
  }

  lemma {:induction false} MissesAll(c: Client, out: seq<Delivery>, session: nat, payload: Payload, row: M.Message)
    requires IsAnnouncement(payload) && IsConversation(row) && !FindsConversation(payload, row, c.me)
    requires forall k :: 0 <= k < |out| ==> out[k].payload == payload
    ensures Conversation(ReceiveAll(c, out, session), row) == Conversation(c, row)
    ensures ReceiveAll(c, out, session).me == c.me
    decreases |out|
  {
    if out != [] {
      assert forall k :: 0 <= k < |out[1..]| ==> out[1..][k] == out[k + 1];
      if out[0].session == session {
        MissesConversation(c, payload, row);
        MissesAll(Receive(c, payload), out[1..], session, payload, row);
      } else {
        MissesAll(c, out[1..], session, payload, row);
      }
    }
  }

  lemma {:induction false} NoneForSession(c: Client, out: seq<Delivery>, session: nat)
    requires forall k :: 0 <= k < |out| ==> out[k].session != session
    ensures ReceiveAll(c, out, session) == c
    decreases |out|
  {
    if out != [] {
      assert forall k :: 0 <= k < |out[1..]| ==> out[1..][k] == out[k + 1];
      NoneForSession(c, out[1..], session);
    }
  }

  // ---------------------------------------------------------------- one step of the server

  /** What a step added to the log. */
  function Added(st: Server, after: Server): seq<Delivery> {
    if |st.log| <= |after.log| then after.log[|st.log|..] else []
  }

  function Output(st: Server, step: Step): seq<Delivery> {
    Added(st, Next(st, step))
  }

  /** A private message between registered ids, or a group message. */
  predicate IsConversation(row: M.Message) {
    row.group > 0 || (row.group == 0 && row.sender > 0 && row.to > 0)
  }

  /** A step whose deliveries are harmless and whose row is shown as before. */
  lemma QuietStep(st: Server, after: Server, out: seq<Delivery>, i: nat, c: Client, session: nat)
    requires i < |st.messages| <= |after.messages| && after.log == st.log + Fitting(st.fits, out)
    requires ShownAlike(st.messages[i], after.messages[i]) && Agrees(c, st.messages[i])
    requires forall k :: 0 <= k < |out| ==> Harmless(out[k].payload, st.messages[i])
    ensures Agrees(ReceiveAll(c, Added(st, after), session), after.messages[i])
    ensures ReceiveAll(c, Added(st, after), session).me == c.me
  {
    var queued := Fitting(st.fits, out);
    assert Added(st, after) == queued;
    HarmlessAll(c, queued, session, st.messages[i]);
  }

  lemma {:induction false} FanOutIncludes(p: Pool, users: seq<int>, payload: Payload, user: int, session: nat)
    requires user in users && FindByUser(p, user) == Some(session)
    ensures exists k :: 0 <= k < |ToUsers(p, users, payload)| && ToUsers(p, users, payload)[k].session == session
    decreases |users|
  {
    var n := |users| - 1;
    var before, last := ToUsers(p, users[..n], payload), ToUser(p, users[n], payload);
    var all := before + last;
    assert all == ToUsers(p, users, payload);
    if users[n] == user {
      assert all[|before|].session == session;
    } else {
      assert users == users[..n] + [users[n]];
      FanOutIncludes(p, users[..n], payload, user, session);
      var k :| 0 <= k < |before| && before[k].session == session;
      assert all[k].session == session;
    }
  }

  lemma ConversationPayload(st: Server, payload: Payload, sender: int, to: int, group: int)
    ensures var out := ToConversation(st, payload, sender, to, group);
            forall k :: 0 <= k < |out| ==> out[k].payload == payload
  {
    FanOutPayload(st.pool, C.Members(st.channels, group), payload);
  }

  /** With unique ids, a change about a row's id changes that row alone. */
  lemma ChangeHitsRow(rows: seq<M.Message>, c: M.Change, i: nat)
    requires M.WellStored(rows) && i < |rows| && M.HitsAny(rows, c) && c.id == rows[i].id
    ensures M.Hits(rows[i], c)
  {
    var k :| 0 <= k < |rows| && M.Hits(rows[k], c);
    assert k == i;
  }

  /** The requester and, in a private conversation, the one named, or else the members of the group named, are told. */
  predicate Told(st: Server, step: Step, user: int)
    requires IsChange(step)
  {
    if step.group > 0 then user in C.Members(st.channels, step.group)
    else user == UserOf(st.pool, step.s) || (user == step.to && step.to > 0)
  }

  lemma {:induction false} FanOutOnlyTo(p: Pool, users: seq<int>, payload: Payload, k: nat)
    requires k < |ToUsers(p, users, payload)|
    ensures var d := ToUsers(p, users, payload)[k];
            d.addressee in users && FindByUser(p, d.addressee) == Some(d.session)
    decreases |users|
  {
    var n := |users| - 1;
    if k < |ToUsers(p, users[..n], payload)| {
      FanOutOnlyTo(p, users[..n], payload, k);
    }
  }

  /** A user's session is among those a broadcast goes to exactly if the user is told. */
  lemma ToldExactly(st: Server, step: Step, payload: Payload, user: int, session: nat)
    requires Forward(st.pool) && IsChange(step) && FindByUser(st.pool, user) == Some(session)
    ensures var out := ToConversation(st, payload, UserOf(st.pool, step.s), step.to, step.group);
            (exists k :: 0 <= k < |out| && out[k].session == session) <==> Told(st, step, user)
  {
    var actor := UserOf(st.pool, step.s);
    var out := ToConversation(st, payload, actor, step.to, step.group);
    if Told(st, step, user) {
      if step.group > 0 {
        FanOutIncludes(st.pool, C.Members(st.channels, step.group), payload, user, session);
      } else if user == actor {
        assert out[0].session == session;
      } else {
        assert out[|ToUser(st.pool, actor, payload)|].session == session;
      }
    }
    if k :| 0 <= k < |out| && out[k].session == session {
      if step.group > 0 {
        FanOutOnlyTo(st.pool, C.Members(st.channels, step.group), payload, k);
      }
      LookupsAreFresh(st.pool, user, out[k].addressee);
    }
  }

  // ---------------------------------------------------------------- changes

  /** The entry a reaction request asks for. */
  function Entry(st: Server, step: Step): string
    requires step.React?
  {
    M.ReactionText(UserOf(st.pool, step.s), step.reaction)
  }

  /** The request changes nothing a client shows. */
  predicate Repeats(st: Server, step: Step, row: M.Message)
    requires IsChange(step)
  {
    match step
    case EditMessage(_, _, content, _, _, _) => row.edited && row.content == content
    case DeleteMessage(_, _, _, _, _) => false
    case React(_, _, _, _, _) => M.Contains(row.reactions, Entry(st, step))
    case MarkAsRead(_, _, _, _, _) => row.read
  }

  /** The announcement says what becomes of the row. Only a reaction may be announced and yet be stored otherwise. */
  predicate AnnouncedTruly(st: Server, step: Step, row: M.Message)
    requires IsChange(step)
  {
    step.React? ==>
      && ',' !in step.reaction
      && (Entry(st, step) in M.Entries(row.reactions) || !M.Contains(row.reactions, Entry(st, step)))
  }

  /**
   A client that shows the stored reactions still does after an accepted reaction is announced to it, exactly if the
   reaction has no comma and the server did not swallow it.
   */
  lemma ReactionsAgreeExactly(m: M.Message, actor: int, reaction: string)
    requires M.Hits(m, M.AddReaction(m.id, actor, reaction))
    ensures var entry, before := M.ReactionText(actor, reaction), M.Entries(m.reactions);
            WithEntry(before, entry) == M.Entries(M.Changed(m, M.AddReaction(m.id, actor, reaction)).reactions)
            <==> ',' !in reaction && (entry in before || !M.Contains(m.reactions, entry))
  {
    var entry, before := M.ReactionText(actor, reaction), M.Entries(m.reactions);
    M.ReactionListed(m, actor, reaction);
    M.CommaOnlyInReaction(actor, reaction);
    if entry in before {
      M.InNonEmpty(M.Pieces(m.reactions), entry);
      M.PiecesHaveNoComma(m.reactions, entry);
      assert M.OccursAt(entry, entry, 0);
      M.ContainedInEntry(m.reactions, entry);
    }
  }

  /** A reaction leaves the list alone exactly if its text occurs in those recorded. */
  lemma ReactionsStayExactly(m: M.Message, actor: int, reaction: string)
    requires M.Hits(m, M.AddReaction(m.id, actor, reaction))
    ensures M.Entries(M.Changed(m, M.AddReaction(m.id, actor, reaction)).reactions) == M.Entries(m.reactions)
            <==> M.Contains(m.reactions, M.ReactionText(actor, reaction))
  {
    M.EntriesAfter(m.reactions, M.ReactionText(actor, reaction));
    M.SomeEntry(actor, reaction);
  }

  /** What an accepted change makes of the row, and when that is what is announced, or what was there. */
  lemma ChangeMade(st: Server, step: Step, i: nat)
    requires TablesSound(st) && IsChange(step) && ChangeAccepted(st, step)
    requires i < |st.messages| && step.id == st.messages[i].id
    ensures var row, answer := st.messages[i], AnswerTo(st, step, true);
            var after := M.Changed(row, ChangeOf(st, step));
            && i < |DoChange(st, step).messages| && DoChange(st, step).messages[i] == after && SameMessage(row, after)
            && IsAnnouncement(answer) && answer.id == row.id
            && (Applied(FaceOf(row), answer) == FaceOf(after) <==> AnnouncedTruly(st, step, row))
            && (FaceOf(row) == FaceOf(after) <==> Repeats(st, step, row))
  {
    ChangeHitsRow(st.messages, ChangeOf(st, step), i);
    if step.React? {
      ReactionsAgreeExactly(st.messages[i], UserOf(st.pool, step.s), step.reaction);
      ReactionsStayExactly(st.messages[i], UserOf(st.pool, step.s), step.reaction);
    }
  }

  /** What an accepted change queues: its announcement for everyone told, or nothing if that does not fit. */
  lemma ChangeQueues(st: Server, step: Step)
    requires IsChange(step) && ChangeAccepted(st, step)
    ensures var answer := AnswerTo(st, step, true);
            var out := ToConversation(st, answer, UserOf(st.pool, step.s), step.to, step.group);
            && (forall k :: 0 <= k < |out| ==> out[k].payload == answer)
            && Added(st, DoChange(st, step)) == (if st.fits(answer) then out else [])
            && (out != [] && !st.fits(answer) ==> DoChange(st, step).down)
  {
    var answer, actor := AnswerTo(st, step, true), UserOf(st.pool, step.s);
    var out := ToConversation(st, answer, actor, step.to, step.group);
    ConversationPayload(st, answer, actor, step.to, step.group);
    FittingAlike(st.fits, out, answer);
    assert (st.log + Fitting(st.fits, out))[|st.log|..] == Fitting(st.fits, out);
  }

  /** The announcement fits, goes to this user and finds the message there. */
  predicate Reached(st: Server, step: Step, row: M.Message, user: int)
    requires IsChange(step)
  {
    var answer := AnswerTo(st, step, true);
    st.fits(answer) && Told(st, step, user) && FindsConversation(answer, row, user)
  }

  /** Whether a client of this user that agrees with the row still does after an accepted change of it. */
  predicate StaysShown(st: Server, step: Step, row: M.Message, user: int)
    requires IsChange(step)
  {
    if Reached(st, step, row, user) then AnnouncedTruly(st, step, row) else Repeats(st, step, row)
  }

  /**
   After an accepted edit, deletion, reaction or read receipt, an online user who holds the message agrees with its
   row exactly if the announcement fits, goes to that user, names on the user's client the conversation the message is
   in and says what was stored, or else the request repeats what the row said. The server sees to none of this.
   */
  lemma ChangeShownExactly(st: Server, step: Step, i: nat, user: int, session: nat, c: Client)
    requires TablesSound(st) && Forward(st.pool) && IsChange(step) && ChangeAccepted(st, step)
    requires i < |st.messages| && IsConversation(st.messages[i]) && step.id == st.messages[i].id
    requires FindByUser(st.pool, user) == Some(session) && Agrees(c, st.messages[i]) && c.me == user
    ensures var after := DoChange(st, step);
            && i < |after.messages| && ReceiveAll(c, Added(st, after), session).me == user
            && (Agrees(ReceiveAll(c, Added(st, after), session), after.messages[i])
                <==> StaysShown(st, step, st.messages[i], user))
  {
    var row, answer, out := st.messages[i], AnswerTo(st, step, true), Added(st, DoChange(st, step));
    var after := M.Changed(row, ChangeOf(st, step));
    var later, face := ReceiveAll(c, out, session), FaceOf(row);
    ChangeMade(st, step, i);
    ChangeQueues(st, step);
    ToldExactly(st, step, answer, user, session);
    if Reached(st, step, row, user) {
      BroadcastAll(c, out, session, answer, row, face);
      OneFace(Conversation(later, row), row.id, Applied(face, answer), FaceOf(after));
    } else {
      if !FindsConversation(answer, row, user) {
        MissesAll(c, out, session, answer, row);
      } else {
        NoneForSession(c, out, session);
      }
      OneFace(Conversation(later, row), row.id, face, FaceOf(after));
    }
    assert Conversation(later, after) == Conversation(later, row);
  }

  /** Refused requests and changes of other messages leave the message as it is shown. */
  lemma FollowsOtherChange(st: Server, step: Step, i: nat, session: nat, c: Client)
    requires TablesSound(st) && IsChange(step) && i < |st.messages| && Agrees(c, st.messages[i])
    requires !ChangeAccepted(st, step) || step.id != st.messages[i].id
    ensures Agrees(ReceiveAll(c, Added(st, DoChange(st, step)), session), DoChange(st, step).messages[i])
    ensures ReceiveAll(c, Added(st, DoChange(st, step)), session).me == c.me
  {
    var accepted, actor := ChangeAccepted(st, step), UserOf(st.pool, step.s);
    var answer := AnswerTo(st, step, accepted);
    var out := if accepted then ToConversation(st, answer, actor, step.to, step.group) else Reply(st, step.s, answer);
    ConversationPayload(st, answer, actor, step.to, step.group);
    assert Harmless(answer, st.messages[i]);
    assert DoChange(st, step).messages[i] == st.messages[i];
    QuietStep(st, DoChange(st, step), out, i, c, session);
  }

  /** A change request about the row that names the row's own conversation, under the requester's own id. */
  predicate NamesConversation(st: Server, step: Step, row: M.Message)
    requires IsChange(step)
  {
    var actor := UserOf(st.pool, step.s);
    && (step.MarkAsRead? ==> step.claimedFrom == actor)
    && if row.group > 0 then step.group == row.group
       else
         && step.group == 0
         && ((actor == row.sender && step.to == row.to) || (actor == row.to && step.to == row.sender))
  }

  predicate TakesPart(st: Server, row: M.Message, user: int) {
    && user > 0
    && if row.group > 0 then user in C.Members(st.channels, row.group) else user == row.sender || user == row.to
  }

  /** If a request names the message's own conversation and the server stays up, every participant online is reached. */
  lemma NamingReaches(st: Server, step: Step, row: M.Message, user: int, session: nat)
    requires IsChange(step) && ChangeAccepted(st, step) && NamesConversation(st, step, row) && IsConversation(row)
    requires TakesPart(st, row, user) && FindByUser(st.pool, user) == Some(session) && Forward(st.pool)
    requires !DoChange(st, step).down
    ensures Reached(st, step, row, user)
  {
    ChangeQueues(st, step);
    ToldExactly(st, step, AnswerTo(st, step, true), user, session);
  }

  /** An edit of a message from 1 to 2 that names user 3: user 2, online and holding it, does not learn of it. */
  lemma EditNamesAnother(st: Server, i: nat, s: nat, session: nat, c: Client)
    requires TablesSound(st) && Forward(st.pool) && i < |st.messages|
    requires st.messages[i].sender == 1 && st.messages[i].to == 2 && st.messages[i].group == 0
    requires !st.messages[i].deleted && st.messages[i].content == "hello"
    requires UserOf(st.pool, s) == 1 && FindByUser(st.pool, 2) == Some(session)
    requires Agrees(c, st.messages[i]) && c.me == 2
    ensures var step := EditMessage(s, st.messages[i].id, "goodbye", 3, 0, 0);
            var after := DoChange(st, step);
            && ChangeAccepted(st, step) && i < |after.messages| && after.messages[i].content == "goodbye"
            && !Agrees(ReceiveAll(c, Added(st, after), session), after.messages[i])
  {
    var step := EditMessage(s, st.messages[i].id, "goodbye", 3, 0, 0);
    assert M.Hits(st.messages[i], ChangeOf(st, step));
    ChangeMade(st, step, i);
    ChangeShownExactly(st, step, i, 2, session, c);
  }

  // ---------------------------------------------------------------- histories, with their read mark on the side

  lemma {:induction false} HistoryFromRows(rows: seq<M.Message>, user: int, to: int, group: int, m: M.Message)
    requires m in HistoryOf(rows, user, to, group)
    ensures m in rows && InHistory(m, user, to, group)
    decreases |rows|
  {
    var n := |rows| - 1;
    assert rows == rows[..n] + [rows[n]];
    if m in HistoryOf(rows[..n], user, to, group) {
      HistoryFromRows(rows[..n], user, to, group, m);
    }
  }

  /** A history response carries stored rows. */
  lemma HistoryCarriesRows(rows: seq<M.Message>, user: int, to: int, group: int, sorted: seq<M.Message>, limit: int,
                           k: nat)
    requires M.Sorts(HistoryOf(rows, user, to, group), sorted) && k < |M.Trim(sorted, limit)|
    ensures M.Trim(sorted, limit)[k] in rows && InHistory(M.Trim(sorted, limit)[k], user, to, group)
  {
    var m := M.Trim(sorted, limit)[k];
    assert m in sorted;
    assert m in multiset(HistoryOf(rows, user, to, group));
    HistoryFromRows(rows, user, to, group, m);
  }

  /** What a history request answers with. */
  function HistoryBatch(step: Step): seq<M.Message>
    requires step.RequestHistory?
  {
    M.Trim(step.sorted, if step.limit < 1 then 1 else step.limit)
  }

  /** The rows of a history response are those after the read mark. */
  lemma ResponseRows(st: Server, step: Step, i: nat)
    requires TablesSound(st) && step.RequestHistory? && Enabled(st, step) && i < |st.messages|
    ensures var rows := RowsAfterHistory(st.messages, step.readId);
            && i < |rows| && rows[i].id == st.messages[i].id && Carry(HistoryBatch(step), rows[i].id, FaceOf(rows[i]))
            && (forall k :: 0 <= k < |HistoryBatch(step)| ==>
                  InHistory(HistoryBatch(step)[k], UserOf(st.pool, step.s), step.to, step.group))
            && (M.InBatch(rows[i].id, HistoryBatch(step)) ==>
                  InHistory(rows[i], UserOf(st.pool, step.s), step.to, step.group))
  {
    var rows, batch := RowsAfterHistory(st.messages, step.readId), HistoryBatch(step);
    HistoryKeepsRows(st.messages, step.readId);
    assert M.Evolves(st.messages[i], rows[i]);
    forall k | 0 <= k < |batch|
      ensures InHistory(batch[k], UserOf(st.pool, step.s), step.to, step.group)
      ensures batch[k].id == rows[i].id ==> batch[k] == rows[i]
    {
      HistoryCarriesRows(rows, UserOf(st.pool, step.s), step.to, step.group, step.sorted,
                         if step.limit < 1 then 1 else step.limit, k);
      var j :| 0 <= j < |rows| && rows[j] == batch[k];
      assert j != i ==> rows[j].id != rows[i].id;
    }
  }

  /** A response goes to the conversation that the request named, for the one who made it. */
  lemma ResponseFindsConversation(c: Client, ms: seq<M.Message>, to: int, group: int, row: M.Message)
    requires ms != [] && InHistory(ms[0], c.me, to, group) && InHistory(row, c.me, to, group)
    ensures Conversation(ReceiveHistory(c, ms), row) == Merge(Conversation(c, row), ToChats(ms))
  {
  }

  /** The client whose response carries the message has its new version. */
  lemma ResponseUpdates(st: Server, step: Step, i: nat, c: Client)
    requires TablesSound(st) && step.RequestHistory? && Enabled(st, step) && i < |st.messages|
    requires M.InBatch(st.messages[i].id, HistoryBatch(step)) && c.me == UserOf(st.pool, step.s)
    ensures i < |RowsAfterHistory(st.messages, step.readId)|
    ensures Agrees(Receive(c, HistoryResponse(HistoryBatch(step))), RowsAfterHistory(st.messages, step.readId)[i])
  {
    var batch := HistoryBatch(step);
    ResponseRows(st, step, i);
    var after := RowsAfterHistory(st.messages, step.readId)[i];
    MergeShows(Conversation(c, after), batch, after.id, FaceOf(after));
    ResponseFindsConversation(c, batch, step.to, step.group, after);
  }

  lemma HistoryQueues(st: Server, s: nat, readId: int, batch: seq<M.Message>)
    ensures Added(st, DoHistory(st, s, readId, batch))
            == if st.fits(HistoryResponse(batch)) then Reply(st, s, HistoryResponse(batch)) else []
  {
    var out := Reply(st, s, HistoryResponse(batch));
    FittingAlike(st.fits, out, HistoryResponse(batch));
    assert (st.log + Fitting(st.fits, out))[|st.log|..] == Fitting(st.fits, out);
  }

  /** The row was read already, or this session is the one that asked, and the response fits and carries the message. */
  predicate StaysRead(st: Server, step: Step, row: M.Message, session: nat)
    requires step.RequestHistory?
  {
    || row.read
    || (step.s == session && M.InBatch(row.id, HistoryBatch(step)) && st.fits(HistoryResponse(HistoryBatch(step))))
  }

  /**
   A history request that also marks a message as read tells nobody, so a client that holds the message goes on
   agreeing with the row exactly in those cases.
   */
  lemma SilentReadDiverges(st: Server, step: Step, i: nat, session: nat, c: Client)
    requires TablesSound(st) && step.RequestHistory? && Enabled(st, step) && i < |st.messages|
    requires step.readId == st.messages[i].id && Agrees(c, st.messages[i])
    requires step.s == session ==> c.me == UserOf(st.pool, session)
    ensures var after := DoHistory(st, step.s, step.readId, HistoryBatch(step));
            && i < |after.messages| && ReceiveAll(c, Added(st, after), session).me == c.me
            && (Agrees(ReceiveAll(c, Added(st, after), session), after.messages[i])
                <==> StaysRead(st, step, st.messages[i], session))
  {
    var row, batch := st.messages[i], HistoryBatch(step);
    var after, out := row.(read := true, readBy := 0), Added(st, DoHistory(st, step.s, step.readId, batch));
    assert RowsAfterHistory(st.messages, step.readId)[i] == after;
    HistoryQueues(st, step.s, step.readId, batch);
    if step.s != session || !st.fits(HistoryResponse(batch)) {
      NoneForSession(c, out, session);
      OneFace(Conversation(c, row), row.id, FaceOf(row), FaceOf(after));
    } else {
      var c' := Receive(c, HistoryResponse(batch));
      assert out[1..] == [];
      assert ReceiveAll(c, out, session) == ReceiveAll(c', out[1..], session) == c';
      if M.InBatch(row.id, batch) {
        ResponseUpdates(st, step, i, c);
      } else {
        HarmlessKeeps(c, HistoryResponse(batch), row);
        OneFace(Conversation(c', row), row.id, FaceOf(row), FaceOf(after));
      }
    }
  }

  /** A history request of user 1 marks a message from 2 as read: user 2, who sent it, goes on showing it as unread. */
  lemma SenderNotTold(st: Server, step: Step, i: nat, session: nat, c: Client)
    requires TablesSound(st) && step.RequestHistory? && Enabled(st, step) && i < |st.messages|
    requires st.messages[i].sender == 2 && st.messages[i].to == 1 && !st.messages[i].read
    requires step.readId == st.messages[i].id && UserOf(st.pool, step.s) == 1 && UserOf(st.pool, session) == 2
    requires Agrees(c, st.messages[i]) && c.me == 2
    ensures var after := DoHistory(st, step.s, step.readId, HistoryBatch(step));
            && i < |after.messages| && after.messages[i].read
            && !Agrees(ReceiveAll(c, Added(st, after), session), after.messages[i])
  {
    SilentReadDiverges(st, step, i, session, c);
  }

  lemma FollowsHistory(st: Server, step: Step, i: nat, session: nat, c: Client)
    requires TablesSound(st) && step.RequestHistory? && Enabled(st, step) && i < |st.messages|
    requires step.readId != st.messages[i].id && Agrees(c, st.messages[i])
    ensures var after := DoHistory(st, step.s, step.readId, HistoryBatch(step));
            && i < |after.messages| && ReceiveAll(c, Added(st, after), session).me == c.me
            && Agrees(ReceiveAll(c, Added(st, after), session), after.messages[i])
  {
    var after := DoHistory(st, step.s, step.readId, HistoryBatch(step));
    ResponseRows(st, step, i);
    assert after.messages[i] == st.messages[i];
    QuietStep(st, after, Reply(st, step.s, HistoryResponse(HistoryBatch(step))), i, c, session);
  }

  // ---------------------------------------------------------------- other steps

  /** Logging in marks messages as delivered, which clients do not show. */
  lemma FollowsLogin(st: Server, step: Step, i: nat, session: nat, c: Client)
    requires step.Login? && i < |st.messages| && Agrees(c, st.messages[i])
    ensures i < |Next(st, step).messages|
    ensures Agrees(ReceiveAll(c, Output(st, step), session), Next(st, step).messages[i])
    ensures ReceiveAll(c, Output(st, step), session).me == c.me
  {
    LoginRows(st, step);
    LoginQueues(st, step);
    HarmlessAll(c, Output(st, step), session, st.messages[i]);
  }

  lemma FollowsPrivate(st: Server, s: nat, to: int, content: string, contentType: string, now: int, i: nat,
                       session: nat, c: Client)
    requires i < |st.messages| && Agrees(c, st.messages[i])
    ensures var after := DoSendPrivate(st, s, to, content, contentType, now);
            && i < |after.messages| && ReceiveAll(c, Added(st, after), session).me == c.me
            && Agrees(ReceiveAll(c, Added(st, after), session), after.messages[i])
  {
    var after := DoSendPrivate(st, s, to, content, contentType, now);
    var payload := ReceiveMsg(StoredPrivate(st, s, to, content, contentType, now));
    var out := if PrivateAccepted(st, s, to, content) then ToUser(st.pool, to, payload) + Reply(st, s, payload)
               else Reply(st, s, Notice("fromId, toId and msg required"));
    QuietStep(st, after, out, i, c, session);
  }

  lemma FollowsGroup(st: Server, s: nat, group: int, content: string, contentType: string, now: int, i: nat,
                     session: nat, c: Client)
    requires i < |st.messages| && Agrees(c, st.messages[i])
    ensures var after := DoSendGroup(st, s, group, content, contentType, now);
            && i < |after.messages| && ReceiveAll(c, Added(st, after), session).me == c.me
            && Agrees(ReceiveAll(c, Added(st, after), session), after.messages[i])
  {
    var after := DoSendGroup(st, s, group, content, contentType, now);
    var payload := ReceiveGroupMsg(StoredGroup(st, s, group, content, contentType, now));
    FanOutPayload(st.pool, C.Members(st.channels, group), payload);
    var out := if UserOf(st.pool, s) > 0 && group > 0 && content != ""
               then ToUsers(st.pool, C.Members(st.channels, group), payload)
               else Reply(st, s, Notice("fromId, groupId and msg required"));
    QuietStep(st, after, out, i, c, session);
  }

  lemma FollowsRest(st: Server, step: Step, i: nat, session: nat, c: Client)
    requires IsQuiet(step) && i < |st.messages| && Agrees(c, st.messages[i])
    ensures i < |Next(st, step).messages|
    ensures Agrees(ReceiveAll(c, Output(st, step), session), Next(st, step).messages[i])
    ensures ReceiveAll(c, Output(st, step), session).me == c.me
  {
    QuietSends(st, step);
    QuietStep(st, Next(st, step), QuietOutput(st, step), i, c, session);
  }

  // ---------------------------------------------------------------- every step and every run

  /** The user is online at this session, and neither logs in there again nor leaves the group of the message there. */
  predicate Stays(st: Server, step: Step, row: M.Message, user: int, session: nat) {
    && FindByUser(st.pool, user) == Some(session)
    && (step.Login? ==> step.s != session)
    && (step.LeaveGroup? && step.s == session ==> row.group == 0 || step.group != row.group)
  }

  /** Whether a client at this session that agrees with the row still does after the step. */
  predicate Keeps(st: Server, step: Step, row: M.Message, user: int, session: nat) {
    if IsChange(step) then ChangeAccepted(st, step) && step.id == row.id ==> StaysShown(st, step, row, user)
    else step.RequestHistory? && step.readId == row.id ==> StaysRead(st, step, row, session)
  }

  /** After any step and its deliveries, a client that agreed with a row still does exactly if the step keeps it so. */
  lemma FollowsStep(st: Server, step: Step, i: nat, user: int, session: nat, c: Client)
    requires TablesSound(st) && Forward(st.pool) && Enabled(st, step) && i < |st.messages|
    requires IsConversation(st.messages[i]) && Stays(st, step, st.messages[i], user, session)
    requires Agrees(c, st.messages[i]) && c.me == user
    ensures i < |Next(st, step).messages| && ReceiveAll(c, Output(st, step), session).me == user
    ensures Agrees(ReceiveAll(c, Output(st, step), session), Next(st, step).messages[i])
            <==> Keeps(st, step, st.messages[i], user, session)
  {
    if IsChange(step) {
      assert Next(st, step) == DoChange(st, step);
      if ChangeAccepted(st, step) && step.id == st.messages[i].id {
        ChangeShownExactly(st, step, i, user, session, c);
      } else {
        FollowsOtherChange(st, step, i, session, c);
      }
    } else if step.RequestHistory? {
      assert Next(st, step) == DoHistory(st, step.s, step.readId, HistoryBatch(step));
      LookupsAreFresh(st.pool, user, user);
      if step.readId == st.messages[i].id {
        SilentReadDiverges(st, step, i, session, c);
      } else {
        FollowsHistory(st, step, i, session, c);
      }
    } else if step.Login? {
      FollowsLogin(st, step, i, session, c);
    } else if step.SendPrivate? {
      FollowsPrivate(st, step.s, step.to, step.content, step.contentType, step.now, i, session, c);
    } else if step.SendGroup? {
      FollowsGroup(st, step.s, step.group, step.content, step.contentType, step.now, i, session, c);
    } else {
      FollowsRest(st, step, i, session, c);
    }
  }

  /** The user stays, and every step keeps the message as it is shown. */
  ghost predicate KeepsAll(st: Server, steps: seq<Step>, i: nat, user: int, session: nat)
    decreases |steps|
  {
    steps == []
    || (&& i < |st.messages| && Stays(st, steps[0], st.messages[i], user, session)
        && Keeps(st, steps[0], st.messages[i], user, session)
        && KeepsAll(Next(st, steps[0]), steps[1..], i, user, session))
  }

  /** The client after applying, step by step, what each step delivers to its session. */
  function Replay(c: Client, st: Server, steps: seq<Step>, session: nat): Client
    decreases |steps|
  {
    if steps == [] then c
    else Replay(ReceiveAll(c, Output(st, steps[0]), session), Next(st, steps[0]), steps[1..], session)
  }

  /**
   However edits, deletions, reactions and read receipts are interleaved with everything else the server does, a user
   who stays online and holds a message ends with the content, the flags and the reactions of the server's row, if
   each step keeps them so.
   */
  lemma {:induction false} ReplicaFollows(st: Server, steps: seq<Step>, i: nat, user: int, session: nat, c: Client)
    requires TablesSound(st) && Forward(st.pool) && CanRun(st, steps)
    requires i < |st.messages| && IsConversation(st.messages[i])
    requires KeepsAll(st, steps, i, user, session) && Agrees(c, st.messages[i]) && c.me == user
    ensures i < |Run(st, steps).messages|
    ensures Agrees(Replay(c, st, steps, session), Run(st, steps).messages[i])
    decreases |steps|
  {
    if steps != [] {
      FollowsStep(st, steps[0], i, user, session, c);
      StepTables(st, steps[0]);
      StepForward(st, steps[0]);
      assert M.Evolves(st.messages[i], Next(st, steps[0]).messages[i]);
      ReplicaFollows(Next(st, steps[0]), steps[1..], i, user, session, ReceiveAll(c, Output(st, steps[0]), session));
    }
  }

  /** A participant's client keeps up with a change request that is well addressed, while the server is up. */
  lemma WellAddressedKeeps(st: Server, step: Step, row: M.Message, user: int, session: nat)
    requires Forward(st.pool) && FindByUser(st.pool, user) == Some(session) && IsConversation(row)
    requires TakesPart(st, row, user) && IsChange(step) && !DoChange(st, step).down
    requires step.id == row.id ==> NamesConversation(st, step, row) && AnnouncedTruly(st, step, row)
    ensures Keeps(st, step, row, user, session)
  {
    if ChangeAccepted(st, step) && step.id == row.id {
      NamingReaches(st, step, row, user, session);
    }
  }
}
