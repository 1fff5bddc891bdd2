/** The router object: each handler edits the pool, presence and repositories, and queues deliveries. */
module MessageRouter {
  import opened Sessions
  import opened Users
  import opened Router
  import opened UserStore
  import opened MessageStore
  import opened ChannelStore
  import opened PresenceStore
  import M = Messages
  import C = Channels

  class ChatServer {
    const sessions: SessionPool
    const presence: PresenceManager
    const users: UserRepository
    const messages: MessageRepository
    const channels: ChannelRepository
    const fits: Payload -> bool
    var log: seq<Delivery>
    var down: bool

    constructor (capacity: nat, rows: seq<User>, stored: seq<M.Message>, directory: C.Directory, fits: Payload -> bool)
      ensures Contents() == Server(Pool(map[], {}, map[], capacity), map[], rows, stored, directory, [], false, fits)
      ensures fresh(sessions) && fresh(presence) && fresh(users) && fresh(messages) && fresh(channels)
    {
      sessions := new SessionPool(capacity);
      presence := new PresenceManager();
      users := new UserRepository(rows);
      messages := new MessageRepository(stored);
      channels := new ChannelRepository(directory.groups, directory.members);
      this.fits := fits;
      log, down := [], false;
    }

    ghost function Contents(): Server
      reads this, sessions, presence, users, messages, channels
    {
      Server(sessions.Contents(), presence.presence, users.rows, messages.rows, channels.Contents(), log, down, fits)
    }

    // -------------------------------------------------------------- deliveries, which throw unless the payload fits

    /** Queues a payload on a session. If it does not fit, the exception ends the server. */
    method Deliver(s: nat, addressee: int, payload: Payload) returns (ok: bool)
      modifies this
      ensures ok == fits(payload)
      ensures Contents() == Sent(old(Contents()), [Delivery(s, addressee, payload)])
    {
      ghost var d := Delivery(s, addressee, payload);
      FittingAlike(fits, [d], payload);
      ok := fits(payload);
      if ok {
        log := log + [Delivery(s, addressee, payload)];
      } else {
        down := true;
        assert log == log + [];
      }
    }

    method Answer(s: nat, payload: Payload) returns (ok: bool)
      modifies this
      ensures ok == fits(payload)
      ensures Contents() == Sent(old(Contents()), Reply(old(Contents()), s, payload))
    {
      var user := sessions.UserId(s);
      ok := Deliver(s, user, payload);
    }

    method DeliverToUser(user: int, payload: Payload) returns (ok: bool)
      modifies this
      ensures ok == AllFit(fits, ToUser(sessions.Contents(), user, payload))
      ensures Contents() == Sent(old(Contents()), ToUser(sessions.Contents(), user, payload))
    {
      ok := true;
      var target := sessions.FindByUserId(user);
      if target.Some? {
        ok := Deliver(target.value, user, payload);
      } else {
        assert log == log + [];
      }
    }

    method DeliverToUsers(recipients: seq<int>, payload: Payload) returns (ok: bool)
      modifies this
      ensures ok == AllFit(fits, ToUsers(sessions.Contents(), recipients, payload))
      ensures Contents() == Sent(old(Contents()), ToUsers(sessions.Contents(), recipients, payload))
    {
      ok := true;
      assert log == log + [];
      ghost var before, pool := Contents(), sessions.Contents();
      for i := 0 to |recipients|
        invariant AllFit(fits, ToUsers(pool, recipients[..i], payload))
        invariant Contents() == Sent(before, ToUsers(pool, recipients[..i], payload))
      {
        OneMore(before, pool, recipients, i, payload);
        ok := DeliverToUser(recipients[i], payload);
        if !ok {
          OneMoreStops(before, pool, recipients, i, payload);
          return;
        }
        assert recipients[..i + 1][..i] == recipients[..i];
      }
      assert recipients[..|recipients|] == recipients;
    }

    method DeliverToConversation(payload: Payload, sender: int, to: int, group: int) returns (ok: bool)
      modifies this
      ensures ok == AllFit(fits, ToConversation(old(Contents()), payload, sender, to, group))
      ensures Contents() == Sent(old(Contents()), ToConversation(old(Contents()), payload, sender, to, group))
    {
      if group > 0 {
        var members := channels.ListMembers(group);
        ok := DeliverToUsers(members, payload);
        return;
      }
      ghost var before, pool := Contents(), sessions.Contents();
      ghost var first := ToUser(pool, sender, payload);
      ghost var second := if to > 0 && to != sender then ToUser(pool, to, payload) else [];
      SentTwice(before, first, second);
      ok := DeliverToUser(sender, payload);
      if ok && to > 0 && to != sender {
        ok := DeliverToUser(to, payload);
      } else if ok {
        assert first + second == first;
      }
    }

    // -------------------------------------------------------------- connections

    method AcceptSession(s: nat)
      modifies this, sessions
      ensures Contents() == Next(old(Contents()), Connect(s))
    {
      var added := sessions.AddSession(s);
    }

    method MarkOffline(user: int, now: int)
      modifies presence, users
      ensures presence.presence == old(presence.presence) - {user}
      ensures users.rows == WithOnline(old(users.rows), user, false, now)
    {
      presence.SetOffline(user);
      users.SetOnlineStatus(user, false, now);
    }

    /** Tells every pooled session that the user has gone; `order` is the order the pool lists them in. */
    method BroadcastOffline(user: int) returns (ok: bool, ghost order: seq<nat>)
      modifies this
      ensures Lists(order, sessions.pooled)
      ensures ok == AllFit(fits, OfflineNotice(old(Contents()), user, order))
      ensures Contents() == Sent(old(Contents()), OfflineNotice(old(Contents()), user, order))
    {
      ok := true;
      var listed := sessions.All();
      order := listed;
      assert log == log + [];
      var found := users.FindById(user);
      if found == [] {
        return;
      }
      ghost var before := Contents();
      ghost var out := OfflineNotice(before, user, order);
      for i := 0 to |listed|
        invariant AllFit(fits, out[..i]) && Contents() == Sent(before, out[..i])
      {
        SentSnoc(before, out, i);
        var addressee := sessions.UserId(listed[i]);
        ok := Deliver(listed[i], addressee, UserOffline(user, found[0].nickname));
        if !ok {
          StopsAt(before, out, i);
          return;
        }
      }
      assert out[..|listed|] == out;
    }

    method RemoveSession(s: nat, now: int) returns (ghost order: seq<nat>)
      modifies this, sessions, presence, users
      ensures Lists(order, old(sessions.pooled) - {s})
      ensures Contents() == Next(old(Contents()), Disconnect(s, now, order))
    {
      var user := 0;
      if s in sessions.pooled {
        user := sessions.UserId(s);
      }
      sessions.RemoveSession(s);
      if user > 0 {
        MarkOffline(user, now);
        var ok;
        ok, order := BroadcastOffline(user);
      } else {
        order := sessions.All();
      }
    }

    // -------------------------------------------------------------- accounts

    /** `reply` is the text of the reply. */
    method HandleRegister(s: nat, nickname: string, password: string, avatarId: int, reply: string)
      modifies this, users
      ensures Contents() == Next(old(Contents()), Register(s, nickname, password, avatarId, reply))
    {
      if nickname != "" && password != "" {
        var id := users.Create(nickname, avatarId);
      }
      var ok := Answer(s, Notice(reply));
    }

    method DeliverOffline(s: nat, user: int, limit: int) returns (ok: bool, ghost sorted: seq<M.Message>)
      modifies this, messages
      ensures M.Sorts(M.PendingFor(old(messages.rows), user), sorted)
      ensures Contents() == Router.DeliverOffline(old(Contents()), s, user, M.Trim(sorted, limit))
      ensures ok == AllFit(fits, BatchDelivery(s, user, M.Trim(sorted, limit)))
    {
      ok := true;
      var offline;
      offline, sorted := messages.OfflineForUser(user, limit);
      if offline != [] {
        ok := Deliver(s, user, OfflineMessages(offline));
      } else {
        assert log == log + [];
      }
    }

    /** `friends` is what the friends table lists for the user. */
    method BroadcastPresence(user: int, online: bool, friends: seq<int>) returns (ok: bool)
      modifies this
      ensures ok == AllFit(fits, FriendNotice(old(Contents()), user, online, friends))
      ensures Contents() == Sent(old(Contents()), FriendNotice(old(Contents()), user, online, friends))
    {
      ok := true;
      var found := users.FindById(user);
      if found == [] {
        assert log == log + [];
        return;
      }
      ok := DeliverToUsers(friends, FriendStatus(user, found[0].nickname, online));
    }

    method ListUser(user: User) returns (listed: Listed)
      ensures listed == List(user, presence.presence)
    {
      var status := presence.Status(user.id);
      listed := Listed(user.id, user.nickname, user.avatarId, status);
    }

    /** All users with their statuses. */
    method ListEverybody() returns (listed: seq<Listed>)
      ensures listed == ListAll(users.rows, presence.presence)
    {
      listed := [];
      for i := 0 to |users.rows|
        invariant |listed| == i && forall j :: 0 <= j < i ==> listed[j] == List(users.rows[j], presence.presence)
      {
        var entry := ListUser(users.rows[i]);
        listed := listed + [entry];
      }
    }

    /** The registered users among these ids, with their statuses. */
    method ListThese(ids: seq<int>) returns (listed: seq<Listed>)
      ensures listed == ListSome(users.rows, presence.presence, ids)
    {
      listed := [];
      for i := 0 to |ids|
        invariant listed == ListSome(users.rows, presence.presence, ids[..i])
      {
        assert ids[..i + 1][..i] == ids[..i];
        var found := users.FindById(ids[i]);
        if found != [] {
          var entry := ListUser(found[0]);
          listed := listed + [entry];
        }
      }
      assert ids[..|ids|] == ids;
    }

    method AnswerLogin(s: nat, user: int, friends: seq<int>) returns (ok: bool)
      modifies this
      ensures ok == fits(LoginReply(old(Contents()), user, friends))
      ensures Contents() == Sent(old(Contents()), Reply(old(Contents()), s, LoginReply(old(Contents()), user, friends)))
    {
      var found := users.FindById(user);
      if found == [] {
        ok := Answer(s, Notice("user not found"));
        return;
      }
      var everybody := ListEverybody();
      var listed := ListThese(friends);
      var groups := channels.ListGroups(user);
      ok := Answer(s, LoginReturn(user, found[0].nickname, found[0].avatarId, listed, everybody, groups));
    }

    method BindAndAnswer(s: nat, user: int, now: int, friends: seq<int>) returns (ok: bool)
      requires user > 0
      modifies this, sessions, presence, users
      ensures Contents() == LoggedIn(old(Contents()), s, user, now, friends)
      ensures ok == fits(LoginReply(Bound(old(Contents()), s, user, now), user, friends))
    {
      var bound := sessions.BindUser(s, user);
      presence.SetOnline(user, "online");
      users.SetOnlineStatus(user, true, now);
      ok := AnswerLogin(s, user, friends);
    }

    /** `sorted` is the order the pending messages were sorted into. */
    method HandleLogin(s: nat, user: int, passwordOk: bool, now: int, limit: int, friends: seq<int>)
      returns (ghost sorted: seq<M.Message>)
      requires !down
      modifies this, sessions, presence, users, messages
      ensures Enabled(old(Contents()), Login(s, user, passwordOk, now, sorted, limit, friends))
      ensures Contents() == Next(old(Contents()), Login(s, user, passwordOk, now, sorted, limit, friends))
    {
      sorted := SomeOrder(M.PendingFor(messages.rows, user));
      var known := users.Exists(user);
      if user <= 0 || !known || !passwordOk {
        var told := Answer(s, Notice("invalid credentials"));
        return;
      }
      ghost var bound := Bound(Contents(), s, user, now);
      var ok := BindAndAnswer(s, user, now, friends);
      SentDown(fits, Reply(bound, s, LoginReply(bound, user, friends)));
      if !ok {
        return;
      }
      ok, sorted := DeliverOffline(s, user, limit);
      SentDown(fits, BatchDelivery(s, user, M.Trim(sorted, limit)));
      if ok {
        ok := BroadcastPresence(user, true, friends);
      }
    }

    method HandleLogout(s: nat, now: int, friends: seq<int>)
      modifies this, sessions, presence, users
      ensures Contents() == Next(old(Contents()), Logout(s, now, friends))
    {
      var user := sessions.UserId(s);
      var ok := true;
      if user > 0 {
        MarkOffline(user, now);
        sessions.UnbindUser(user);
        ghost var here := Contents();
        SentTwice(here, FriendNotice(here, user, false, friends), Reply(here, s, Notice("logged out")));
        ok := BroadcastPresence(user, false, friends);
      }
      if ok {
        ok := Answer(s, Notice("logged out"));
      }
    }

    method HandleProfileUpdate(s: nat, nickname: string, avatarId: int)
      modifies this, users
      ensures Contents() == Next(old(Contents()), UpdateProfile(s, nickname, avatarId))
    {
      var user := sessions.UserId(s);
      var ok;
      if user <= 0 || nickname == "" {
        ok := Answer(s, Notice("id and nickname required"));
        return;
      }
      var found := users.UpdateProfile(user, nickname, avatarId);
      ok := Answer(s, Notice(if found then "profile updated" else "user not found"));
    }

    // -------------------------------------------------------------- messages

    method HandlePrivateMessage(s: nat, to: int, content: string, contentType: string, now: int)
      modifies this, messages
      ensures Contents() == Next(old(Contents()), SendPrivate(s, to, content, contentType, now))
    {
      var ok;
      var sender := sessions.UserId(s);
      if sender <= 0 || to <= 0 || content == "" {
        ok := Answer(s, Notice("fromId, toId and msg required"));
        return;
      }
      var target := sessions.FindByUserId(to);
      var m := messages.SavePrivate(sender, to, content, contentType, now, target.Some?);
      ok := LiveAndEcho(s, to, ReceiveMsg(m));
    }

    /** To the recipient, if online, and back to the sender. */
    method LiveAndEcho(s: nat, to: int, payload: Payload) returns (ok: bool)
      modifies this
      ensures Contents() == Sent(old(Contents()), ToUser(sessions.Contents(), to, payload)
                                                  + Reply(old(Contents()), s, payload))
    {
      SentTwice(Contents(), ToUser(sessions.Contents(), to, payload), Reply(Contents(), s, payload));
      ok := DeliverToUser(to, payload);
      if ok {
        ok := Answer(s, payload);
      }
    }

    method HandleGroupMessage(s: nat, group: int, content: string, contentType: string, now: int)
      modifies this, messages
      ensures Contents() == Next(old(Contents()), SendGroup(s, group, content, contentType, now))
    {
      var ok;
      var sender := sessions.UserId(s);
      if sender <= 0 || group <= 0 || content == "" {
        ok := Answer(s, Notice("fromId, groupId and msg required"));
        return;
      }
      var m := messages.SaveGroup(sender, group, content, contentType, now);
      var members := channels.ListMembers(group);
      ok := DeliverToUsers(members, ReceiveGroupMsg(m));
    }

    method HandleCreateGroup(s: nat, name: string, now: int, reply: string)
      modifies this, channels
      ensures Contents() == Next(old(Contents()), CreateGroup(s, name, now, reply))
    {
      var host := sessions.UserId(s);
      if host > 0 && name != "" {
        var group := channels.NewGroup(host, name, now);
      }
      var ok := Answer(s, Notice(reply));
    }

    method HandleJoinGroup(s: nat, group: int, now: int, reply: string)
      modifies this, channels
      ensures Contents() == Next(old(Contents()), JoinGroup(s, group, now, reply))
    {
      var user := sessions.UserId(s);
      var joined := channels.JoinGroup(user, group, now);
      var ok := Answer(s, Notice(reply));
    }

    method HandleLeaveGroup(s: nat, group: int)
      modifies this, channels
      ensures Contents() == Next(old(Contents()), LeaveGroup(s, group))
    {
      var user := sessions.UserId(s);
      var removed := channels.LeaveGroup(user, group);
      var ok := Answer(s, Notice("left group"));
    }

    method SelectHistory(user: int, to: int, group: int) returns (history: seq<M.Message>)
      ensures history == HistoryOf(messages.rows, user, to, group)
    {
      history := [];
      var rows := messages.rows;
      for i := 0 to |rows|
        invariant history == HistoryOf(rows[..i], user, to, group)
      {
        assert rows[..i + 1][..i] == rows[..i];
        if InHistory(rows[i], user, to, group) {
          history := history + [rows[i]];
        }
      }
      assert rows[..|rows|] == rows;
    }

    method HandleHistory(s: nat, to: int, group: int, readId: int, limit: int) returns (ghost sorted: seq<M.Message>)
      requires !down
      modifies this, messages
      ensures Enabled(old(Contents()), RequestHistory(s, to, group, readId, sorted, limit))
      ensures Contents() == Next(old(Contents()), RequestHistory(s, to, group, readId, sorted, limit))
    {
      var user := sessions.UserId(s);
      if readId > 0 {
        var marked := messages.Update(M.MarkRead(readId, 0));
      }
      var history := SelectHistory(user, to, group);
      var ordered := SortByTimestamp(history);
      sorted := ordered;
      var ok := Answer(s, HistoryResponse(M.Trim(ordered, if limit < 1 then 1 else limit)));
    }

    /** Edit, delete, react and mark as read: the change is tried on the table, and its outcome decides who is told. */
    method HandleChange(s: nat, c: M.Change, done: Payload, failed: Payload, to: int, group: int)
      modifies this, messages
      ensures var st, actor := old(Contents()), UserOf(old(sessions.Contents()), s);
              Contents() == if actor > 0 && c.id > 0 && M.HitsAny(st.messages, c)
                            then Sent(st.(messages := M.ChangeAll(st.messages, c)),
                                      ToConversation(st, done, actor, to, group))
                            else Sent(st, Reply(st, s, failed))
    {
      var actor := sessions.UserId(s);
      var changed, ok := false, true;
      if actor > 0 && c.id > 0 {
        changed := messages.Update(c);
        if !changed {
          UntouchedWithoutHit(old(messages.rows), c);
        }
      }
      if changed {
        ok := DeliverToConversation(done, actor, to, group);
      } else {
        ok := Answer(s, failed);
      }
    }

    method HandleMessageEdit(s: nat, id: int, content: string, to: int, group: int, now: int)
      modifies this, messages
      ensures Contents() == Next(old(Contents()), EditMessage(s, id, content, to, group, now))
    {
      var actor := sessions.UserId(s);
      HandleChange(s, M.Edit(id, actor, content, now), EditReturn(true, id, actor, to, group, content),
                   EditReturn(false, id, actor, to, group, "message edit failed"), to, group);
    }

    method HandleMessageDelete(s: nat, id: int, to: int, group: int, now: int)
      modifies this, messages
      ensures Contents() == Next(old(Contents()), DeleteMessage(s, id, to, group, now))
    {
      var actor := sessions.UserId(s);
      HandleChange(s, M.SoftDelete(id, actor, now), DeleteReturn(true, id, actor, to, group),
                   DeleteReturn(false, id, actor, to, group), to, group);
    }

    method HandleMessageReaction(s: nat, id: int, reaction: string, to: int, group: int)
      modifies this, messages
      ensures Contents() == Next(old(Contents()), React(s, id, reaction, to, group))
    {
      var actor := sessions.UserId(s);
      HandleChange(s, M.AddReaction(id, actor, reaction), ReactionReturn(true, id, actor, to, group, reaction),
                   ReactionReturn(false, id, actor, to, group, reaction), to, group);
    }

    method HandleReadReceipt(s: nat, claimedFrom: int, id: int, to: int, group: int)
      modifies this, messages
      ensures Contents() == Next(old(Contents()), MarkAsRead(s, claimedFrom, id, to, group))
    {
      var actor := sessions.UserId(s);
      HandleChange(s, M.MarkRead(id, actor), ReadReceipt(id, claimedFrom, to, group), Notice("read receipt failed"),
                   to, group);
    }
  }

  // ---------------------------------------------------------------- steps of the delivery loops

  /** Sending leaves the server up exactly if everything fits. */
  lemma SentDown(fits: Payload -> bool, out: seq<Delivery>)
    ensures |Fitting(fits, out)| < |out| <==> !AllFit(fits, out)
  {
    FittingExact(fits, out);
  }

  lemma SentSnoc(st: Server, out: seq<Delivery>, i: nat)
    requires i < |out| && AllFit(st.fits, out[..i])
    ensures Sent(st, out[..i + 1]) == Sent(Sent(st, out[..i]), [out[i]])
    ensures AllFit(st.fits, out[..i + 1]) <==> st.fits(out[i].payload)
  {
    assert out[..i + 1] == out[..i] + [out[i]];
    SentTwice(st, out[..i], [out[i]]);
  }

  /** Where a delivery does not fit, the rest does not matter. */
  lemma StopsAt(st: Server, out: seq<Delivery>, i: nat)
    requires i < |out| && AllFit(st.fits, out[..i]) && !st.fits(out[i].payload)
    ensures Sent(st, out) == Sent(st, out[..i + 1]) && !AllFit(st.fits, out)
  {
    assert out[..i + 1][i] == out[i];
    StoppedEarlier(st, out[..i + 1], out);
  }

  lemma OneMore(st: Server, p: Pool, users: seq<int>, i: nat, payload: Payload)
    requires i < |users| && AllFit(st.fits, ToUsers(p, users[..i], payload))
    ensures Sent(st, ToUsers(p, users[..i + 1], payload))
            == Sent(Sent(st, ToUsers(p, users[..i], payload)), ToUser(p, users[i], payload))
    ensures AllFit(st.fits, ToUsers(p, users[..i + 1], payload)) <==> AllFit(st.fits, ToUser(p, users[i], payload))
  {
    var a, b := ToUsers(p, users[..i], payload), ToUser(p, users[i], payload);
    assert users[..i + 1][..i] == users[..i];
    assert ToUsers(p, users[..i + 1], payload) == a + b;
    SentTwice(st, a, b);
    AllFitAppend(st.fits, a, b);
  }

  lemma AllFitAppend(fits: Payload -> bool, a: seq<Delivery>, b: seq<Delivery>)
    ensures AllFit(fits, a + b) <==> AllFit(fits, a) && AllFit(fits, b)
  {
    if AllFit(fits, a + b) {
      assert forall k :: 0 <= k < |a| ==> (a + b)[k] == a[k];
      assert forall k :: 0 <= k < |b| ==> (a + b)[|a| + k] == b[k];
    }
  }

  lemma {:induction false} FanOutExtends(p: Pool, users: seq<int>, i: nat, payload: Payload)
    requires i <= |users|
    ensures ToUsers(p, users[..i], payload) <= ToUsers(p, users, payload)
    decreases |users|
  {
    if i == |users| {
      assert users[..i] == users;
    } else {
      var n := |users| - 1;
      FanOutExtends(p, users[..n], i, payload);
      assert users[..n][..i] == users[..i];
    }
  }

  lemma OneMoreStops(st: Server, p: Pool, users: seq<int>, i: nat, payload: Payload)
    requires i < |users| && AllFit(st.fits, ToUsers(p, users[..i], payload))
    requires !AllFit(st.fits, ToUser(p, users[i], payload))
    ensures Sent(st, ToUsers(p, users, payload)) == Sent(st, ToUsers(p, users[..i + 1], payload))
    ensures !AllFit(st.fits, ToUsers(p, users, payload))
  {
    OneMore(st, p, users, i, payload);
    FanOutExtends(p, users, i + 1, payload);
    StoppedEarlier(st, ToUsers(p, users[..i + 1], payload), ToUsers(p, users, payload));
  }

  /** What comes behind a sequence that does not fit does not matter. */
  lemma StoppedEarlier(st: Server, front: seq<Delivery>, all: seq<Delivery>)
    requires front <= all && !AllFit(st.fits, front)
    ensures Sent(st, all) == Sent(st, front) && !AllFit(st.fits, all)
  {
    assert all == front + all[|front|..];
    SentTwice(st, front, all[|front|..]);
    AllFitAppend(st.fits, front, all[|front|..]);
  }

  /** A change that hits no row leaves the table as it is. */
  lemma UntouchedWithoutHit(rows: seq<M.Message>, c: M.Change)
    requires !M.HitsAny(rows, c)
    ensures M.ChangeAll(rows, c) == rows
  {
    forall i | 0 <= i < |rows|
      ensures M.Changed(rows[i], c) == rows[i]
    {
      assert !M.Hits(rows[i], c);
    }
  }
}
