/**
 The server as a state machine. The I/O context is run by one thread, so each request, each disconnect and
 each accepted connection is one atomic step. Requests are already-parsed records; clock readings, password
 checks and the order in which a sort leaves equal timestamps are chosen by the environment.
 */
module Router {
  import opened Basics
  import opened Sessions
  import opened Users
  import opened PresenceStore
  import M = Messages
  import C = Channels

  /** What a session is sent, where the theorems need to know; everything else is a notice. */
  datatype Payload =
    | ReceiveMsg(message: M.Message)
    | ReceiveGroupMsg(message: M.Message)
    | OfflineMessages(messages: seq<M.Message>)
    | HistoryResponse(messages: seq<M.Message>)
    | EditReturn(ok: bool, id: int, fromId: int, toId: int, groupId: int, content: string)
    | DeleteReturn(ok: bool, id: int, fromId: int, toId: int, groupId: int)
    | ReactionReturn(ok: bool, id: int, fromId: int, toId: int, groupId: int, reaction: string)
    | ReadReceipt(id: int, fromId: int, toId: int, groupId: int)
    | UserOffline(user: int, nickname: string)
    | FriendStatus(user: int, nickname: string, online: bool)
    | LoginReturn(user: int, nickname: string, avatarId: int, friends: seq<Listed>, users: seq<Listed>,
                  groups: seq<C.Group>)
    | Notice(text: string)

  /** A user as lists show it. */
  datatype Listed = Listed(id: int, nickname: string, avatarId: int, status: string)

  /** A payload queued on a session, and the user it is meant for. */
  datatype Delivery = Delivery(session: nat, addressee: int, payload: Payload)

  /**
   `fits` tells which payloads, serialized, are within the limit of a frame; queueing any other throws. `down` is set
   once that has happened: nothing catches the exception, so it ends the I/O loop.
   */
  datatype Server = Server(pool: Pool, presence: map<int, string>, users: seq<User>, messages: seq<M.Message>,
                           channels: C.Directory, log: seq<Delivery>, down: bool, fits: Payload -> bool)

  // ---------------------------------------------------------------- deliveries

  /** A payload for a user goes to the user's session, if there is one. */
  function ToUser(p: Pool, user: int, payload: Payload): seq<Delivery> {
    match FindByUser(p, user)
    case Some(s) => [Delivery(s, user, payload)]
    case None => []
  }

  function ToUsers(p: Pool, users: seq<int>, payload: Payload): seq<Delivery> {
    if users == [] then [] else ToUsers(p, users[..|users| - 1], payload) + ToUser(p, users[|users| - 1], payload)
  }

  /** To the members of the group, or else to the sender and to the other end of the conversation. */
  function ToConversation(st: Server, payload: Payload, sender: int, to: int, group: int): seq<Delivery> {
    if group > 0 then ToUsers(st.pool, C.Members(st.channels, group), payload)
    else ToUser(st.pool, sender, payload) + if to > 0 && to != sender then ToUser(st.pool, to, payload) else []
  }

  function Reply(st: Server, s: nat, payload: Payload): seq<Delivery> {
    [Delivery(s, UserOf(st.pool, s), payload)]
  }

  predicate AllFit(fits: Payload -> bool, out: seq<Delivery>) {
    forall i :: 0 <= i < |out| ==> fits(out[i].payload)
  }

  /** What is queued of a sequence of deliveries: those before the first that does not fit. */
  function Fitting(fits: Payload -> bool, out: seq<Delivery>): (r: seq<Delivery>)
    ensures r <= out
  {
    if out == [] then []
    else
      var n := |out| - 1;
      var r := Fitting(fits, out[..n]);
      if |r| == n && fits(out[n].payload) then out else r
  }

  /** Deliveries queued in order; the first that does not fit stops the server, which keeps what it had stored. */
  function Sent(st: Server, out: seq<Delivery>): Server {
    var queued := Fitting(st.fits, out);
    st.(log := st.log + queued, down := st.down || |queued| < |out|)
  }

  /** It is the longest prefix that fits. */
  lemma {:induction false} FittingExact(fits: Payload -> bool, out: seq<Delivery>)
    ensures AllFit(fits, Fitting(fits, out))
    ensures Fitting(fits, out) == out <==> AllFit(fits, out)
    ensures |Fitting(fits, out)| < |out| ==> !fits(out[|Fitting(fits, out)|].payload)
    decreases |out|
  {
    if out != [] {
      var n := |out| - 1;
      FittingExact(fits, out[..n]);
      assert forall i :: 0 <= i < n ==> out[..n][i] == out[i];
    }
  }

  lemma FittingAppend(fits: Payload -> bool, a: seq<Delivery>, b: seq<Delivery>)
    ensures Fitting(fits, a + b) == if AllFit(fits, a) then a + Fitting(fits, b) else Fitting(fits, a)
  {
    FittingExact(fits, a);
    FittingExact(fits, b);
    if AllFit(fits, a) {
      FirstUnfit(fits, a + b, a + Fitting(fits, b));
    } else {
      FirstUnfit(fits, a + b, Fitting(fits, a));
    }
  }

  /** There is one prefix that fits and is followed by nothing that does. */
  lemma FirstUnfit(fits: Payload -> bool, out: seq<Delivery>, r: seq<Delivery>)
    requires r <= out && AllFit(fits, r) && (|r| < |out| ==> !fits(out[|r|].payload))
    ensures Fitting(fits, out) == r
  {
    FittingExact(fits, out);
    assert |Fitting(fits, out)| == |r|;
  }

  /** Sending twice is sending both, unless the first stopped the server. */
  lemma SentTwice(st: Server, a: seq<Delivery>, b: seq<Delivery>)
    ensures Sent(st, a + b) == if AllFit(st.fits, a) then Sent(Sent(st, a), b) else Sent(st, a)
  {
    FittingExact(st.fits, a);
    FittingAppend(st.fits, a, b);
    if AllFit(st.fits, a) {
      Assoc(st.log, a, Fitting(st.fits, b));
    }
  }

  /** Copies of one payload are all queued or none. */
  lemma FittingAlike(fits: Payload -> bool, out: seq<Delivery>, payload: Payload)
    requires forall k :: 0 <= k < |out| ==> out[k].payload == payload
    ensures Fitting(fits, out) == if fits(payload) then out else []
  {
    FirstUnfit(fits, out, if fits(payload) then out else []);
  }

  // ---------------------------------------------------------------- steps

  /**
   `reply` is the text of a reply the model does not look into, `friends` are the ids the friends table lists for the
   user, and `order` is the order in which the pool lists its sessions.
   */
  datatype Step =
    | Connect(s: nat)
    | Disconnect(s: nat, now: int, order: seq<nat>)
    | Register(s: nat, nickname: string, password: string, avatarId: int, reply: string)
    | Login(s: nat, user: int, passwordOk: bool, now: int, sorted: seq<M.Message>, limit: int, friends: seq<int>)
    | Logout(s: nat, now: int, friends: seq<int>)
    | UpdateProfile(s: nat, nickname: string, avatarId: int)
    | SendPrivate(s: nat, to: int, content: string, contentType: string, now: int)
    | SendGroup(s: nat, group: int, content: string, contentType: string, now: int)
    | CreateGroup(s: nat, name: string, now: int, reply: string)
    | JoinGroup(s: nat, group: int, now: int, reply: string)
    | LeaveGroup(s: nat, group: int)
    | RequestHistory(s: nat, to: int, group: int, readId: int, sorted: seq<M.Message>, limit: int)
    | EditMessage(s: nat, id: int, content: string, to: int, group: int, now: int)
    | DeleteMessage(s: nat, id: int, to: int, group: int, now: int)
    | React(s: nat, id: int, reaction: string, to: int, group: int)
    | MarkAsRead(s: nat, claimedFrom: int, id: int, to: int, group: int)

  function OfflineUser(st: Server, user: int, now: int): Server {
    st.(presence := st.presence - {user}, users := WithOnline(st.users, user, false, now))
  }

  /** Every session in the pool is told that the user has gone. */
  function OfflineNotice(st: Server, user: int, order: seq<nat>): (out: seq<Delivery>)
    ensures forall k :: 0 <= k < |out| ==> out[k].payload.UserOffline?
  {
    var found := Find(st.users, user);
    if found == [] then []
    else
      seq(|order|, i requires 0 <= i < |order| =>
        Delivery(order[i], UserOf(st.pool, order[i]), UserOffline(user, found[0].nickname)))
  }

  /** Friends who are online are told that the user came or went. */
  function FriendNotice(st: Server, user: int, online: bool, friends: seq<int>): seq<Delivery> {
    var found := Find(st.users, user);
    if found == [] then [] else ToUsers(st.pool, friends, FriendStatus(user, found[0].nickname, online))
  }

  /** The pool forgets the session; its user, if any, goes offline and everybody is told. */
  function DoDisconnect(st: Server, s: nat, now: int, order: seq<nat>): Server {
    var user := if s in st.pool.pooled then UserOf(st.pool, s) else 0;
    var after := st.(pool := Remove(st.pool, s));
    if user > 0 then Sent(OfflineUser(after, user, now), OfflineNotice(OfflineUser(after, user, now), user, order))
    else after
  }

  predicate LoginAccepted(st: Server, user: int, passwordOk: bool) {
    user > 0 && Known(st.users, user) && passwordOk
  }

  function List(user: User, presence: map<int, string>): Listed {
    Listed(user.id, user.nickname, user.avatarId, StatusOf(presence, user.id))
  }

  function ListAll(users: seq<User>, presence: map<int, string>): (r: seq<Listed>)
    ensures |r| == |users|
  {
    seq(|users|, i requires 0 <= i < |users| => List(users[i], presence))
  }

  /** The registered users among these ids. */
  function ListSome(users: seq<User>, presence: map<int, string>, ids: seq<int>): seq<Listed> {
    if ids == [] then []
    else
      var found := Find(users, ids[|ids| - 1]);
      ListSome(users, presence, ids[..|ids| - 1]) + if found == [] then [] else [List(found[0], presence)]
  }

  function LoginReply(st: Server, user: int, friends: seq<int>): Payload {
    var found := Find(st.users, user);
    if found == [] then Notice("user not found")
    else
      LoginReturn(user, found[0].nickname, found[0].avatarId, ListSome(st.users, st.presence, friends),
                  ListAll(st.users, st.presence), C.GroupsForUser(st.channels, user))
  }

  /** The session is bound; the user is present and stored as online. */
  function Bound(st: Server, s: nat, user: int, now: int): Server {
    st.(pool := Bind(st.pool, s, user), presence := st.presence[user := "online"],
        users := WithOnline(st.users, user, true, now))
  }

  /** Then the session is answered. */
  function LoggedIn(st: Server, s: nat, user: int, now: int, friends: seq<int>): Server {
    var bound := Bound(st, s, user, now);
    Sent(bound, Reply(bound, s, LoginReply(bound, user, friends)))
  }

  /** The pending messages go to the session that logged in, in one batch. */
  function BatchDelivery(s: nat, user: int, batch: seq<M.Message>): seq<Delivery> {
    if batch == [] then [] else [Delivery(s, user, OfflineMessages(batch))]
  }

  /** The batch is marked as delivered first and queued then. */
  function DeliverOffline(st: Server, s: nat, user: int, batch: seq<M.Message>): Server {
    Sent(st.(messages := M.MarkBatch(st.messages, batch)), BatchDelivery(s, user, batch))
  }

  function DoLogin(st: Server, s: nat, user: int, passwordOk: bool, now: int, batch: seq<M.Message>,
                   friends: seq<int>): Server
  {
    if !LoginAccepted(st, user, passwordOk) then Sent(st, Reply(st, s, Notice("invalid credentials")))
    else
      var replied := LoggedIn(st, s, user, now, friends);
      if replied.down then replied
      else
        var given := DeliverOffline(replied, s, user, batch);
        if given.down then given else Sent(given, FriendNotice(given, user, true, friends))
  }

  function DoLogout(st: Server, s: nat, now: int, friends: seq<int>): Server {
    var user := UserOf(st.pool, s);
    if user > 0 then
      var after := OfflineUser(st, user, now).(pool := Unbind(st.pool, user));
      Sent(after, FriendNotice(after, user, false, friends) + Reply(after, s, Notice("logged out")))
    else Sent(st, Reply(st, s, Notice("logged out")))
  }

  function DoProfile(st: Server, s: nat, nickname: string, avatarId: int): Server {
    var user := UserOf(st.pool, s);
    if user <= 0 || nickname == "" then Sent(st, Reply(st, s, Notice("id and nickname required")))
    else
      Sent(st.(users := WithProfile(st.users, user, nickname, avatarId)),
           Reply(st, s, Notice(if Known(st.users, user) then "profile updated" else "user not found")))
  }

  function DoSendPrivate(st: Server, s: nat, to: int, content: string, contentType: string, now: int): Server {
    var sender := UserOf(st.pool, s);
    if sender <= 0 || to <= 0 || content == "" then Sent(st, Reply(st, s, Notice("fromId, toId and msg required")))
    else
      var target := FindByUser(st.pool, to);
      var m := M.PrivateMessage(st.messages, sender, to, content, contentType, now, target.Some?);
      Sent(st.(messages := st.messages + [m]), ToUser(st.pool, to, ReceiveMsg(m)) + Reply(st, s, ReceiveMsg(m)))
  }

  function DoSendGroup(st: Server, s: nat, group: int, content: string, contentType: string, now: int): Server {
    var sender := UserOf(st.pool, s);
    if sender <= 0 || group <= 0 || content == ""
    then Sent(st, Reply(st, s, Notice("fromId, groupId and msg required")))
    else
      var m := M.GroupMessage(st.messages, sender, group, content, contentType, now);
      Sent(st.(messages := st.messages + [m]), ToUsers(st.pool, C.Members(st.channels, group), ReceiveGroupMsg(m)))
  }

  function DoCreateGroup(st: Server, s: nat, name: string, now: int, reply: string): Server {
    var host := UserOf(st.pool, s);
    var after := if host <= 0 || name == "" then st else st.(channels := C.CreateGroup(st.channels, host, name, now));
    Sent(after, Reply(st, s, Notice(reply)))
  }

  /** The messages a history request selects. */
  predicate InHistory(m: M.Message, user: int, to: int, group: int) {
    if group > 0 then m.group == group
    else user > 0 && to > 0 && m.group == 0 && ((m.sender == user && m.to == to) || (m.sender == to && m.to == user))
  }

  function HistoryOf(rows: seq<M.Message>, user: int, to: int, group: int): seq<M.Message> {
    if rows == [] then []
    else
      var n := |rows| - 1;
      HistoryOf(rows[..n], user, to, group) + if InHistory(rows[n], user, to, group) then [rows[n]] else []
  }

  /** A history request may also mark a message as read, without telling anyone. */
  function RowsAfterHistory(rows: seq<M.Message>, readId: int): seq<M.Message> {
    if readId > 0 then M.ChangeAll(rows, M.MarkRead(readId, 0)) else rows
  }

  function DoHistory(st: Server, s: nat, readId: int, batch: seq<M.Message>): Server {
    Sent(st.(messages := RowsAfterHistory(st.messages, readId)), Reply(st, s, HistoryResponse(batch)))
  }

  predicate IsChange(step: Step) {
    step.EditMessage? || step.DeleteMessage? || step.React? || step.MarkAsRead?
  }

  /** The change a request asks for. */
  function ChangeOf(st: Server, step: Step): (c: M.Change)
    requires IsChange(step)
    ensures c.id == step.id
  {
    var actor := UserOf(st.pool, step.s);
    match step
    case EditMessage(_, id, content, _, _, now) => M.Edit(id, actor, content, now)
    case DeleteMessage(_, id, _, _, now) => M.SoftDelete(id, actor, now)
    case React(_, id, reaction, _, _) => M.AddReaction(id, actor, reaction)
    case MarkAsRead(_, _, id, _, _) => M.MarkRead(id, actor)
  }

  /**
   What is sent about a change request. A read receipt is the request itself passed on, so its sender field is the
   one the client wrote.
   */
  function AnswerTo(st: Server, step: Step, ok: bool): Payload
    requires IsChange(step)
  {
    var actor := UserOf(st.pool, step.s);
    match step
    case EditMessage(_, id, content, to, group, _) =>
      EditReturn(ok, id, actor, to, group, if ok then content else "message edit failed")
    case DeleteMessage(_, id, to, group, _) => DeleteReturn(ok, id, actor, to, group)
    case React(_, id, reaction, to, group) => ReactionReturn(ok, id, actor, to, group, reaction)
    case MarkAsRead(_, claimedFrom, id, to, group) => 
      if ok then ReadReceipt(id, claimedFrom, to, group) else Notice("read receipt failed")
  }

  predicate ChangeAccepted(st: Server, step: Step)
    requires IsChange(step)
  {
    UserOf(st.pool, step.s) > 0 && step.id > 0 && M.HitsAny(st.messages, ChangeOf(st, step))
  }

  /** A change that hits is made, and the conversation the request names is told; else only the requester is. */
  function DoChange(st: Server, step: Step): Server
    requires IsChange(step)
  {
    if ChangeAccepted(st, step)
    then Sent(st.(messages := M.ChangeAll(st.messages, ChangeOf(st, step))),
              ToConversation(st, AnswerTo(st, step, true), UserOf(st.pool, step.s), step.to, step.group))
    else Sent(st, Reply(st, step.s, AnswerTo(st, step, false)))
  }

  function Next(st: Server, step: Step): Server {
    match step
    case Connect(s) => st.(pool := Add(st.pool, s))
    case Disconnect(s, now, order) => DoDisconnect(st, s, now, order)
    case Register(s, nickname, password, avatarId, reply) =>
      var after := if nickname == "" || password == "" then st else st.(users := Created(st.users, nickname, avatarId));
      Sent(after, Reply(st, s, Notice(reply)))
    case Login(s, user, passwordOk, now, sorted, limit, friends) =>
      DoLogin(st, s, user, passwordOk, now, M.Trim(sorted, limit), friends)
    case Logout(s, now, friends) => DoLogout(st, s, now, friends)
    case UpdateProfile(s, nickname, avatarId) => DoProfile(st, s, nickname, avatarId)
    case SendPrivate(s, to, content, contentType, now) => DoSendPrivate(st, s, to, content, contentType, now)
    case SendGroup(s, group, content, contentType, now) => DoSendGroup(st, s, group, content, contentType, now)
    case CreateGroup(s, name, now, reply) => DoCreateGroup(st, s, name, now, reply)
    case JoinGroup(s, group, now, reply) =>
      Sent(st.(channels := C.Join(st.channels, UserOf(st.pool, s), group, now)), Reply(st, s, Notice(reply)))
    case LeaveGroup(s, group) =>
      Sent(st.(channels := C.Leave(st.channels, UserOf(st.pool, s), group)), Reply(st, s, Notice("left group")))
    case RequestHistory(s, _, _, readId, sorted, limit) =>
      DoHistory(st, s, readId, M.Trim(sorted, if limit < 1 then 1 else limit))
    case _ => DoChange(st, step)
  }

  /** The sequence names each of the sessions once. */
  ghost predicate Lists(order: seq<nat>, sessions: set<nat>) {
    C.NoDuplicates(order) && forall s :: s in order <==> s in sessions
  }

  /**
   Steps that can happen, while the server is up. A connecting session is a new object, without a user; any other
   session may send requests, also one that has already left the pool (its last reads may still be on their way).
   */
  ghost predicate Enabled(st: Server, step: Step) {
    && !st.down
    && match step
       case Connect(s) => s !in st.pool.pooled && UserOf(st.pool, s) == 0
       case Disconnect(s, _, order) => Lists(order, st.pool.pooled - {s})
       case Login(_, user, _, _, sorted, _, _) => M.Sorts(M.PendingFor(st.messages, user), sorted)
       case RequestHistory(s, to, group, readId, sorted, _) =>
         M.Sorts(HistoryOf(RowsAfterHistory(st.messages, readId), UserOf(st.pool, s), to, group), sorted)
       case _ => true
  }

  ghost predicate CanRun(st: Server, steps: seq<Step>)
    decreases |steps|
  {
    steps == [] || (Enabled(st, steps[0]) && CanRun(Next(st, steps[0]), steps[1..]))
  }

  function Run(st: Server, steps: seq<Step>): Server
    decreases |steps|
  {
    if steps == [] then st else Run(Next(st, steps[0]), steps[1..])
  }

  /** A server that has just started, on whatever its database holds: nobody connected, nobody present, nothing sent. */
  ghost predicate Booted(st: Server) {
    && st.pool.userOf == map[] && st.pool.pooled == {} && st.pool.index == map[]
    && st.presence == map[] && st.log == [] && !st.down
  }

  /** A server started on the database that another left behind. */
  ghost predicate Restarted(before: Server, st: Server) {
    Booted(st) && st.users == before.users && st.messages == before.messages && st.channels == before.channels
  }

  /** One that has started on a database that stores nobody as online. */
  ghost predicate Started(st: Server) {
    Booted(st) && OnlineIds(st.users) == {}
  }
}
