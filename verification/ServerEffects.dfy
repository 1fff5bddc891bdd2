/**
 What each request does, in terms of the request and of the tables alone: every statement here compares the state after
 a step with the state before it, field by field.
 */
module ServerEffects {
  import opened Basics
  import opened Sessions
  import opened Users
  import opened Router
  import opened ServerPresence
  import opened ServerDelivery
  import M = Messages
  import C = Channels

  // ---------------------------------------------------------------- connections

  /** The user a session carries. */
  function Carries(st: Server, s: nat): int {
    if s in st.pool.userOf then st.pool.userOf[s] else 0
  }

  /** A connecting session enters the pool exactly if there is room, and nothing else changes. */
  lemma ConnectEffect(st: Server, s: nat)
    requires Enabled(st, Connect(s))
    ensures var after := Next(st, Connect(s));
            && after.pool.pooled == st.pool.pooled + (if |st.pool.pooled| < st.pool.capacity then {s} else {})
            && after == st.(pool := after.pool)
            && after.pool.userOf == st.pool.userOf && after.pool.index == st.pool.index
  {
  }

  lemma StepCapacity(st: Server, step: Step)
    requires |st.pool.pooled| <= st.pool.capacity && Enabled(st, step)
    ensures |Next(st, step).pool.pooled| <= Next(st, step).pool.capacity == st.pool.capacity
  {
    if !TouchesPresence(step) {
      OthersLeavePresence(st, step);
    } else if step.Disconnect? {
      assert Next(st, step).pool.pooled == st.pool.pooled - {step.s};
      assert st.pool.pooled - {step.s} <= st.pool.pooled;
      SmallerSet(st.pool.pooled - {step.s}, st.pool.pooled);
    }
  }

  lemma SmallerSet(a: set<nat>, b: set<nat>)
    requires a <= b
    ensures |a| <= |b|
  {
    assert b == a + (b - a);
  }

  /** Over every run the pool never holds more sessions than its capacity. */
  lemma {:induction false} CapacityAlways(st: Server, steps: seq<Step>)
    requires |st.pool.pooled| <= st.pool.capacity && CanRun(st, steps)
    ensures |Run(st, steps).pool.pooled| <= Run(st, steps).pool.capacity == st.pool.capacity
    decreases |steps|
  {
    if steps != [] {
      StepCapacity(st, steps[0]);
      CapacityAlways(Next(st, steps[0]), steps[1..]);
    }
  }

  /** A disconnected session leaves the pool; its user has no session any more, everybody else keeps theirs. */
  lemma DisconnectEffect(st: Server, s: nat, now: int, order: seq<nat>)
    ensures var after := Next(st, Disconnect(s, now, order)).pool;
            && after.pooled == st.pool.pooled - {s} && after.userOf == st.pool.userOf
            && (forall u :: u in after.index <==>
                  u in st.pool.index && !(s in st.pool.pooled && Carries(st, s) != 0 && u == Carries(st, s)))
            && (forall u :: u in after.index ==> after.index[u] == st.pool.index[u])
  {
  }

  /** After an accepted login at a pooled session the user is found there, and users other than the two keep theirs. */
  lemma LoginEffectOnPool(st: Server, step: Step)
    requires step.Login? && step.user > 0 && Known(st.users, step.user) && step.passwordOk
    ensures var after, former := Next(st, step).pool, Carries(st, step.s);
            && after.pooled == st.pool.pooled
            && (step.s !in st.pool.pooled ==> after == st.pool)
            && (step.s in st.pool.pooled ==>
                  && step.user in after.index && after.index[step.user] == step.s
                  && FindByUser(after, step.user) == Some(step.s)
                  && step.s in after.userOf && after.userOf[step.s] == step.user
                  && (former != 0 && former != step.user ==> former !in after.index)
                  && (forall u :: u != step.user && u != former ==>
                        (u in after.index <==> u in st.pool.index)
                        && (u in after.index ==> after.index[u] == st.pool.index[u]))
                  && (forall t :: t != step.s ==> (t in after.userOf <==> t in st.pool.userOf)
                                                  && (t in after.userOf ==> after.userOf[t] == st.pool.userOf[t])))
  {
    ServerPresence.LoginEffect(st, step.s, step.user, step.now, M.Trim(step.sorted, step.limit), step.friends);
    assert Next(st, step).pool == Bind(st.pool, step.s, step.user);
  }

  /** A refused login changes nothing but the log. */
  lemma RefusedLogin(st: Server, step: Step)
    requires step.Login? && !(step.user > 0 && Known(st.users, step.user) && step.passwordOk)
    ensures Next(st, step) == st.(log := Next(st, step).log, down := Next(st, step).down)
  {
  }

  /** From a start on, a connection below capacity followed by an accepted login there makes the user found there. */
  lemma ConnectThenLogin(st: Server, s: nat, login: Step)
    requires Enabled(st, Connect(s)) && |st.pool.pooled| < st.pool.capacity
    requires login.Login? && login.s == s && login.user > 0 && Known(st.users, login.user) && login.passwordOk
    ensures FindByUser(Next(Next(st, Connect(s)), login).pool, login.user) == Some(s)
  {
    ConnectEffect(st, s);
    LoginEffectOnPool(Next(st, Connect(s)), login);
  }

  /** After a logout the user has no session, the session found for the user carries nobody, the others keep theirs. */
  lemma LogoutEffect(st: Server, s: nat, now: int, friends: seq<int>)
    ensures var user, after := Carries(st, s), Next(st, Logout(s, now, friends));
            && after.pool.pooled == st.pool.pooled
            && (user > 0 ==> user !in after.pool.index && user !in after.presence)
            && (user > 0 && user in st.pool.index && st.pool.index[user] in st.pool.pooled ==>
                  Carries(after, st.pool.index[user]) == 0)
            && (forall u :: u != user || user <= 0 ==>
                  (u in after.pool.index <==> u in st.pool.index)
                  && (u in after.pool.index ==> after.pool.index[u] == st.pool.index[u]))
            && (forall u :: u in after.presence <==> u in st.presence && !(user > 0 && u == user))
  {
  }

  // ---------------------------------------------------------------- accounts

  /** Registering with a free nickname adds one user, offline, with these fields; otherwise the table stays. */
  lemma RegisterEffect(st: Server, s: nat, nickname: string, password: string, avatarId: int, reply: string)
    ensures var users, after := st.users, Next(st, Register(s, nickname, password, avatarId, reply)).users;
            var free := forall i :: 0 <= i < |users| ==> users[i].nickname != nickname;
            if nickname != "" && password != "" && free then
              && |after| == |users| + 1 && after[..|users|] == users
              && after[|users|].nickname == nickname && after[|users|].avatarId == avatarId
              && !after[|users|].online && after[|users|].lastSeen == 0
              && after[|users|].id >= 1000 && forall i :: 0 <= i < |users| ==> users[i].id < after[|users|].id
            else after == users
  {
  }

  /** A profile update rewrites nickname and avatar of the requester's rows and nothing else. */
  lemma ProfileEffect(st: Server, s: nat, nickname: string, avatarId: int)
    ensures var users, after := st.users, Next(st, UpdateProfile(s, nickname, avatarId)).users;
            && |after| == |users|
            && forall i :: 0 <= i < |users| ==>
                 && after[i].id == users[i].id && after[i].online == users[i].online
                 && after[i].lastSeen == users[i].lastSeen
                 && (if users[i].id == Carries(st, s) > 0 && nickname != ""
                     then after[i].nickname == nickname && after[i].avatarId == avatarId
                     else after[i].nickname == users[i].nickname && after[i].avatarId == users[i].avatarId)
  {
  }

  /** Logging in stores the user as online and seen now, going offline as offline; nobody else's row changes. */
  lemma StoredFlags(st: Server, step: Step, i: nat)
    requires step.Login? || step.Logout? || step.Disconnect?
    requires i < |st.users|
    ensures var after := Next(st, step).users;
            && |after| == |st.users|
            && after[i].id == st.users[i].id && after[i].nickname == st.users[i].nickname
            && after[i].avatarId == st.users[i].avatarId
            && if !Settles(st, step, st.users[i].id) then after[i] == st.users[i]
               else after[i].online == step.Login?
                    && after[i].lastSeen == if step.Login? then step.now else st.users[i].lastSeen
  {
    if step.Login? && LoginAccepted(st, step.user, step.passwordOk) {
      ServerPresence.LoginEffect(st, step.s, step.user, step.now, M.Trim(step.sorted, step.limit), step.friends);
    }
  }

  // ---------------------------------------------------------------- the reply to a login

  /** The entry shows a stored user, with the status once `user` has logged in. */
  predicate Shows(x: Listed, row: User, presence: map<int, string>, user: int) {
    && x.id == row.id && x.nickname == row.nickname && x.avatarId == row.avatarId
    && x.status == if row.id == user then "online" else if row.id in presence then presence[row.id] else "offline"
  }

  /**
   An accepted login that leaves the server up is answered, first of all and at its session, with the user's nickname
   and avatar, with every stored user in order, and with users among the friends and groups that are stored.
   */
  lemma LoginReplied(st: Server, step: Step) returns (p: Payload)
    requires step.Login? && step.user > 0 && Known(st.users, step.user) && step.passwordOk
    requires !st.down && !Next(st, step).down
    ensures |st.log| < |Next(st, step).log|
    ensures Next(st, step).log[|st.log|].session == step.s && Next(st, step).log[|st.log|].payload == p
    ensures p.LoginReturn? && p.user == step.user
    ensures exists i :: 0 <= i < |st.users| && st.users[i].id == step.user && p.nickname == st.users[i].nickname
                        && p.avatarId == st.users[i].avatarId
    ensures |p.users| == |st.users|
    ensures forall i :: 0 <= i < |p.users| ==> Shows(p.users[i], st.users[i], st.presence, step.user)
    ensures forall x :: x in p.friends ==>
              x.id in step.friends && exists i :: 0 <= i < |st.users| && Shows(x, st.users[i], st.presence, step.user)
    ensures forall group :: group in p.groups ==> group in st.channels.groups
  {
    var bound := Bound(st, step.s, step.user, step.now);
    p := LoginReply(bound, step.user, step.friends);
    var replied := LoggedIn(st, step.s, step.user, step.now, step.friends);
    assert !replied.down && replied.log == st.log + [Delivery(step.s, UserOf(bound.pool, step.s), p)];
    assert replied.log <= Next(st, step).log;
    ReplyShows(st, step);
  }

  lemma ReplyShows(st: Server, step: Step)
    requires step.Login? && step.user > 0 && Known(st.users, step.user)
    ensures var p := LoginReply(Bound(st, step.s, step.user, step.now), step.user, step.friends);
            && p.LoginReturn? && p.user == step.user
            && (exists i :: 0 <= i < |st.users| && st.users[i].id == step.user && p.nickname == st.users[i].nickname
                            && p.avatarId == st.users[i].avatarId)
            && |p.users| == |st.users|
            && (forall i :: 0 <= i < |p.users| ==> Shows(p.users[i], st.users[i], st.presence, step.user))
            && (forall x :: x in p.friends ==>
                  && x.id in step.friends
                  && exists i :: 0 <= i < |st.users| && Shows(x, st.users[i], st.presence, step.user))
            && (forall group :: group in p.groups ==> group in st.channels.groups)
  {
    var bound := Bound(st, step.s, step.user, step.now);
    KnownKept(st.users, step.user, step.user, true, step.now, "", 0);
    FindExact(bound.users, step.user);
    FoundStored(bound.users, step.user);
    SomeShown(st, bound, step.friends, step.user);
    GroupsStored(st.channels.groups, st.channels.members, step.user);
  }

  lemma {:induction false} FoundStored(users: seq<User>, id: int)
    requires Find(users, id) != []
    ensures exists i :: 0 <= i < |users| && users[i] == Find(users, id)[0] && users[i].id == id
    decreases |users|
  {
    if users[0].id != id {
      FoundStored(users[1..], id);
      var i :| 0 <= i < |users[1..]| && users[1..][i] == Find(users, id)[0] && users[1..][i].id == id;
      assert users[i + 1] == Find(users, id)[0];
    }
  }

  lemma {:induction false} SomeShown(st: Server, bound: Server, ids: seq<int>, user: int)
    requires |bound.users| == |st.users| && bound.presence == st.presence[user := "online"]
    requires forall i :: 0 <= i < |st.users| ==>
               && bound.users[i].id == st.users[i].id && bound.users[i].nickname == st.users[i].nickname
               && bound.users[i].avatarId == st.users[i].avatarId
    ensures forall x :: x in ListSome(bound.users, bound.presence, ids) ==>
              x.id in ids && exists i :: 0 <= i < |st.users| && Shows(x, st.users[i], st.presence, user)
    decreases |ids|
  {
    if ids != [] {
      var n := |ids| - 1;
      SomeShown(st, bound, ids[..n], user);
      if Find(bound.users, ids[n]) != [] {
        FoundStored(bound.users, ids[n]);
        var found := Find(bound.users, ids[n])[0];
        var i :| 0 <= i < |bound.users| && bound.users[i] == found && found.id == ids[n];
        assert Shows(List(bound.users[i], bound.presence), st.users[i], st.presence, user);
      }
    }
  }

  lemma {:induction false} GroupsStored(groups: seq<C.Group>, members: seq<C.Membership>, user: int)
    ensures forall group :: group in C.GroupsIn(groups, members, user) ==> group in groups
    decreases |members|
  {
    if members != [] {
      GroupsStored(groups, members[..|members| - 1], user);
      LookupStored(groups, members[|members| - 1].group);
    }
  }

  lemma {:induction false} LookupStored(groups: seq<C.Group>, id: int)
    ensures forall group :: group in C.Lookup(groups, id) ==> group in groups
    decreases |groups|
  {
    if groups != [] {
      LookupStored(groups[1..], id);
    }
  }

  // ---------------------------------------------------------------- groups

  ghost predicate InGroup(d: C.Directory, user: int, group: int) {
    exists i :: 0 <= i < |d.members| && d.members[i].user == user && d.members[i].group == group
  }

  ghost predicate GroupExists(d: C.Directory, group: int) {
    exists i :: 0 <= i < |d.groups| && d.groups[i].id == group
  }

  lemma AppendedMember(members: seq<C.Membership>, m: C.Membership, user: int, group: int)
    ensures var all := members + [m];
            (exists i :: 0 <= i < |all| && all[i].user == user && all[i].group == group)
            <==> || (exists i :: 0 <= i < |members| && members[i].user == user && members[i].group == group)
                 || (m.user == user && m.group == group)
  {
    var all := members + [m];
    assert all[|members|] == m;
    if i :| 0 <= i < |members| && members[i].user == user && members[i].group == group {
      assert all[i].user == user && all[i].group == group;
    }
  }

  /** Joining an existing group makes the requester a member; nobody else joins or leaves. */
  lemma JoinEffect(st: Server, s: nat, group: int, now: int, reply: string, u: int, g: int)
    ensures var after := Next(st, JoinGroup(s, group, now, reply)).channels;
            && after.groups == st.channels.groups
            && st.channels.members <= after.members
            && (forall i :: |st.channels.members| <= i < |after.members| ==> after.members[i].joinedAt == now)
            && (InGroup(after, u, g)
                <==> || InGroup(st.channels, u, g)
                     || (GroupExists(st.channels, group) && u == Carries(st, s) && g == group))
  {
    var user := Carries(st, s);
    AppendedMember(st.channels.members, C.Membership(user, group, now), u, g);
  }

  /**
   Creating a group adds one with a new id, this name and the requester as host and member; nobody else joins it.
   Without a name or a user nothing is added.
   */
  lemma CreateEffect(st: Server, s: nat, name: string, now: int, reply: string, u: int, g: int)
    requires C.Sound(st.channels)
    ensures Carries(st, s) <= 0 || name == "" ==> Next(st, CreateGroup(s, name, now, reply)).channels == st.channels
    ensures Carries(st, s) > 0 && name != "" ==>
            var before, after := st.channels, Next(st, CreateGroup(s, name, now, reply)).channels;
            && |after.groups| == |before.groups| + 1 && after.groups[..|before.groups|] == before.groups
            && var group := after.groups[|before.groups|];
               && group.name == name && group.host == Carries(st, s) && group.createdAt == now
               && group.id > 2000 && !GroupExists(before, group.id)
               && (InGroup(after, u, g) <==> InGroup(before, u, g) || (u == Carries(st, s) && g == group.id))
  {
    var before, host := st.channels, Carries(st, s);
    var group := C.Group(C.NextGroupId(before.groups), host, name, now);
    var grown := before.(groups := before.groups + [group]);
    assert grown.groups[|before.groups|] == group && C.Exists(grown, group.id);
    AppendedMember(before.members, C.Membership(host, group.id, now), u, g);
    forall i | 0 <= i < |before.members|
      ensures before.members[i].group != group.id
    {
      assert C.Exists(before, before.members[i].group);
    }
    assert !C.IsMember(grown, host, group.id);
  }

  /** Leaving ends the requester's membership of that group and no other. */
  lemma LeaveEffect(st: Server, s: nat, group: int, u: int, g: int)
    requires C.Sound(st.channels)
    ensures var after := Next(st, LeaveGroup(s, group)).channels;
            && after.groups == st.channels.groups
            && (InGroup(after, u, g) <==> InGroup(st.channels, u, g) && !(u == Carries(st, s) && g == group))
  {
    C.LeaveSound(st.channels, Carries(st, s), group);
    assert InGroup(st.channels, u, g) <==> C.IsMember(st.channels, u, g);
    var after := C.Leave(st.channels, Carries(st, s), group);
    assert InGroup(after, u, g) <==> C.IsMember(after, u, g);
  }

  // ---------------------------------------------------------------- sending

  /** The user's session, if there is one. */
  predicate Online(st: Server, user: int) {
    user in st.pool.index && st.pool.index[user] in st.pool.pooled
  }

  function TypeOr(contentType: string): string {
    if contentType == "" then "text" else contentType
  }

  /** The row says what the request said, and nothing has happened to it yet. */
  predicate SaysSo(m: M.Message, sender: int, to: int, group: int, content: string, contentType: string, now: int) {
    && m.sender == sender && m.to == to && m.group == group && m.content == content
    && m.contentType == TypeOr(contentType) && m.timestamp == now
    && !m.read && !m.edited && !m.deleted && m.reactions == ""
  }

  /**
   An accepted private message is one more row that says what the request said, delivered exactly if the recipient is
   online; what is queued is that row, first for the recipient, if online, and then for the sender.
   */
  lemma SendPrivateEffect(st: Server, s: nat, to: int, content: string, contentType: string, now: int)
    requires Carries(st, s) > 0 && to > 0 && content != ""
    ensures var after, n := Next(st, SendPrivate(s, to, content, contentType, now)), |st.messages|;
            && |after.messages| == n + 1 && after.messages[..n] == st.messages
            && var m := after.messages[n];
               && SaysSo(m, Carries(st, s), to, 0, content, contentType, now)
               && (m.delivered <==> Online(st, to))
               && (forall i :: 0 <= i < n ==> st.messages[i].id < m.id)
               && (st.fits(ReceiveMsg(m)) ==>
                     after.log == st.log
                                  + (if Online(st, to) then [Delivery(st.pool.index[to], to, ReceiveMsg(m))] else [])
                                  + [Delivery(s, Carries(st, s), ReceiveMsg(m))])
               && (!st.fits(ReceiveMsg(m)) ==> after.log == st.log && after.down)
  {
    var after := Next(st, SendPrivate(s, to, content, contentType, now));
    assert after == DoSendPrivate(st, s, to, content, contentType, now);
    var m := after.messages[|st.messages|];
    var live := if Online(st, to) then [Delivery(st.pool.index[to], to, ReceiveMsg(m))] else [];
    var echo := [Delivery(s, Carries(st, s), ReceiveMsg(m))];
    assert ToUser(st.pool, to, ReceiveMsg(m)) == live && Reply(st, s, ReceiveMsg(m)) == echo;
    FittingAlike(st.fits, live + echo, ReceiveMsg(m));
    Assoc(st.log, live, echo);
  }

  /** An accepted group message is one more row that says what the request said, and only it is queued, for members. */
  lemma SendGroupEffect(st: Server, s: nat, group: int, content: string, contentType: string, now: int)
    requires Carries(st, s) > 0 && group > 0 && content != ""
    ensures var after, n := Next(st, SendGroup(s, group, content, contentType, now)), |st.messages|;
            && |after.messages| == n + 1 && after.messages[..n] == st.messages && st.log <= after.log
            && var m := after.messages[n];
               && SaysSo(m, Carries(st, s), 0, group, content, contentType, now) && m.delivered
               && (forall i :: 0 <= i < n ==> st.messages[i].id < m.id)
               && (forall k :: |st.log| <= k < |after.log| ==>
                     && after.log[k].payload == ReceiveGroupMsg(m)
                     && after.log[k].addressee in C.Members(st.channels, group))
  {
    var after := Next(st, SendGroup(s, group, content, contentType, now));
    assert after == DoSendGroup(st, s, group, content, contentType, now);
    var m, users := after.messages[|st.messages|], C.Members(st.channels, group);
    assert after.log == st.log + Fitting(st.fits, ToUsers(st.pool, users, ReceiveGroupMsg(m)));
    FanOutQueued(st, users, ReceiveGroupMsg(m));
  }

  lemma FanOutQueued(st: Server, users: seq<int>, payload: Payload)
    ensures var log := st.log + Fitting(st.fits, ToUsers(st.pool, users, payload));
            && st.log <= log
            && forall k :: |st.log| <= k < |log| ==> log[k].payload == payload && log[k].addressee in users
  {
    var out := ToUsers(st.pool, users, payload);
    forall k | |st.log| <= k < |st.log + Fitting(st.fits, out)|
      ensures var d := (st.log + Fitting(st.fits, out))[k]; d.payload == payload && d.addressee in users
    {
      EntryOf(st, out, k);
      FanOutAddressee(st.pool, users, payload, k - |st.log|);
    }
  }

  lemma {:induction false} FanOutAddressee(p: Pool, users: seq<int>, payload: Payload, k: nat)
    requires k < |ToUsers(p, users, payload)|
    ensures var d := ToUsers(p, users, payload)[k];
            && d.payload == payload
            && d.addressee in users && d.addressee in p.index && p.index[d.addressee] == d.session
    decreases |users|
  {
    var n := |users| - 1;
    if k < |ToUsers(p, users[..n], payload)| {
      FanOutAddressee(p, users[..n], payload, k);
    }
  }

  /** A message that is refused is not stored. */
  lemma RefusedSend(st: Server, step: Step)
    requires step.SendPrivate? || step.SendGroup?
    requires || Carries(st, step.s) <= 0 || step.content == ""
             || (if step.SendPrivate? then step.to <= 0 else step.group <= 0)
    ensures Next(st, step).messages == st.messages
  {
  }

  // ---------------------------------------------------------------- what becomes of a stored message

  /** What a step makes of a row, reactions and the delivered flag apart. */
  function RowAfter(st: Server, step: Step, m: M.Message): M.Message {
    match step
    case EditMessage(s, id, content, _, _, now) =>
      if id == m.id > 0 && Carries(st, s) == m.sender > 0 && !m.deleted && content != ""
      then m.(content := content, edited := true, editedAt := now) else m
    case DeleteMessage(s, id, _, _, now) =>
      if id == m.id > 0 && Carries(st, s) == m.sender > 0 && !m.deleted
      then m.(content := "", deleted := true, deletedAt := now) else m
    case MarkAsRead(s, _, id, _, _) =>
      if id == m.id > 0 && Carries(st, s) > 0 then m.(read := true, readBy := Carries(st, s)) else m
    case RequestHistory(_, _, _, readId, _, _) =>
      if readId == m.id > 0 then m.(read := true, readBy := 0) else m
    case _ => m
  }

  /** The rows agree on all but reactions and the delivered flag. */
  predicate SameText(m: M.Message, n: M.Message) {
    m.(reactions := "", delivered := false) == n.(reactions := "", delivered := false)
  }

  /** Every step makes of every row exactly that, reactions and the delivered flag apart. */
  lemma RowEffect(st: Server, step: Step, i: nat)
    requires i < |st.messages|
    ensures i < |Next(st, step).messages| && SameText(Next(st, step).messages[i], RowAfter(st, step, st.messages[i]))
  {
    if IsChange(step) {
      ChangeRowEffect(st, step, i);
      assert Next(st, step) == DoChange(st, step);
    } else if step.RequestHistory? {
      HistoryRowEffect(st, step, i);
    } else if step.Login? {
      LoginRowEffect(st, step, i);
    } else {
      if IsQuiet(step) {
        QuietSends(st, step);
      } else {
        SendKeepsRows(st, step);
      }
      AppendedRowEffect(st.messages, Next(st, step).messages, i);
    }
  }

  lemma ChangeRowEffect(st: Server, step: Step, i: nat)
    requires IsChange(step) && i < |st.messages|
    ensures var after := DoChange(st, step).messages;
            i < |after| && SameText(after[i], RowAfter(st, step, st.messages[i]))
  {
    if ChangeAccepted(st, step) {
      assert DoChange(st, step).messages[i] == M.Changed(st.messages[i], ChangeOf(st, step));
      ChangedText(st, step, st.messages[i]);
    } else {
      RefusedChange(st, step, i);
    }
  }

  lemma ChangedText(st: Server, step: Step, m: M.Message)
    requires IsChange(step) && ChangeAccepted(st, step)
    ensures SameText(M.Changed(m, ChangeOf(st, step)), RowAfter(st, step, m))
  {
  }

  lemma RefusedChange(st: Server, step: Step, i: nat)
    requires IsChange(step) && !ChangeAccepted(st, step) && i < |st.messages|
    ensures DoChange(st, step).messages == st.messages && RowAfter(st, step, st.messages[i]) == st.messages[i]
  {
    assert UserOf(st.pool, step.s) > 0 && step.id > 0 ==> !M.Hits(st.messages[i], ChangeOf(st, step));
  }

  lemma HistoryRowEffect(st: Server, step: Step, i: nat)
    requires step.RequestHistory? && i < |st.messages|
    ensures var after := RowsAfterHistory(st.messages, step.readId);
            i < |after| && SameText(after[i], RowAfter(st, step, st.messages[i]))
    ensures Next(st, step).messages == RowsAfterHistory(st.messages, step.readId)
  {
  }

  lemma LoginRowEffect(st: Server, step: Step, i: nat)
    requires step.Login? && i < |st.messages|
    ensures var after := Next(st, step).messages;
            i < |after| && SameText(after[i], st.messages[i])
  {
    LoginRows(st, step);
    var marked := M.MarkBatch(st.messages, M.Trim(step.sorted, step.limit));
    assert SameText(marked[i], st.messages[i]);
  }

  lemma AppendedRowEffect(rows: seq<M.Message>, after: seq<M.Message>, i: nat)
    requires rows <= after && i < |rows|
    ensures SameText(after[i], rows[i])
  {
  }

  lemma SendKeepsRows(st: Server, step: Step)
    requires step.SendPrivate? || step.SendGroup?
    ensures st.messages <= Next(st, step).messages
  {
    if step.SendPrivate? {
      assert Next(st, step) == DoSendPrivate(st, step.s, step.to, step.content, step.contentType, step.now);
    } else {
      assert Next(st, step) == DoSendGroup(st, step.s, step.group, step.content, step.contentType, step.now);
    }
  }

  /** A row followed through the requests of a run. */
  function RowThrough(st: Server, steps: seq<Step>, m: M.Message): M.Message
    decreases |steps|
  {
    if steps == [] then m else RowThrough(Next(st, steps[0]), steps[1..], RowAfter(st, steps[0], m))
  }

  lemma SameTextAfter(st: Server, step: Step, m: M.Message, n: M.Message)
    requires SameText(m, n)
    ensures SameText(RowAfter(st, step, m), RowAfter(st, step, n))
  {
  }

  lemma {:induction false} SameTextThrough(st: Server, steps: seq<Step>, m: M.Message, n: M.Message)
    requires SameText(m, n)
    ensures SameText(RowThrough(st, steps, m), RowThrough(st, steps, n))
    decreases |steps|
  {
    if steps != [] {
      SameTextAfter(st, steps[0], m, n);
      SameTextThrough(Next(st, steps[0]), steps[1..], RowAfter(st, steps[0], m), RowAfter(st, steps[0], n));
    }
  }

  /** Over every run each row is what the requests have made of it: its first text, or that of the last edit. */
  lemma {:induction false} RowsFollowRequests(st: Server, steps: seq<Step>, i: nat)
    requires i < |st.messages|
    ensures i < |Run(st, steps).messages|
    ensures SameText(Run(st, steps).messages[i], RowThrough(st, steps, st.messages[i]))
    decreases |steps|
  {
    if steps != [] {
      RowEffect(st, steps[0], i);
      RowsFollowRequests(Next(st, steps[0]), steps[1..], i);
      var next := Next(st, steps[0]);
      SameTextThrough(next, steps[1..], next.messages[i], RowAfter(st, steps[0], st.messages[i]));
    }
  }

  /** The request that a new row comes from. */
  ghost predicate CameFrom(st: Server, step: Step, m: M.Message) {
    match step
    case SendPrivate(s, to, content, contentType, now) =>
      Carries(st, s) > 0 && SaysSo(m, Carries(st, s), to, 0, content, contentType, now)
    case SendGroup(s, group, content, contentType, now) =>
      Carries(st, s) > 0 && SaysSo(m, Carries(st, s), 0, group, content, contentType, now)
    case _ => false
  }

  /** A step adds at most one row, and that came from its request. */
  lemma NewRow(st: Server, step: Step)
    ensures |st.messages| <= |Next(st, step).messages| <= |st.messages| + 1
    ensures |Next(st, step).messages| > |st.messages| ==> CameFrom(st, step, Next(st, step).messages[|st.messages|])
  {
    if IsChange(step) {
      assert Next(st, step) == DoChange(st, step);
    } else if step.Login? {
      LoginRows(st, step);
    } else if IsQuiet(step) {
      QuietSends(st, step);
    }
  }

  lemma Cut<T>(items: seq<T>, m: nat)
    requires m + 1 < |items|
    ensures items[1..][m + 1..] == items[m + 2..] && items[..m + 1][1..] == items[1..][..m]
    ensures items[..m + 1][0] == items[0] && items[1..][m] == items[m + 1]
  {
  }

  /** Every row that a run has added came from an accepted request, and is what the later requests have made of it. */
  lemma {:induction false} RowOrigin(st: Server, steps: seq<Step>, i: nat)
    returns (here: Server, n: nat, first: M.Message)
    requires |st.messages| <= i < |Run(st, steps).messages|
    ensures n < |steps| && here == Run(st, steps[..n]) && CameFrom(here, steps[n], first)
    ensures SameText(Run(st, steps).messages[i], RowThrough(Next(here, steps[n]), steps[n + 1..], first))
    decreases |steps|
  {
    if steps == [] {
      assert false;
    } else {
      NewRow(st, steps[0]);
      if i < |Next(st, steps[0]).messages| {
        here, n, first := st, 0, Next(st, steps[0]).messages[i];
        RowsFollowRequests(Next(st, steps[0]), steps[1..], i);
      } else {
        var m: nat;
        here, m, first := RowOrigin(Next(st, steps[0]), steps[1..], i);
        n := m + 1;
        Cut(steps, m);
      }
    }
  }

  // ---------------------------------------------------------------- which requests are accepted

  /** The request may change this row. */
  predicate MayChange(st: Server, step: Step, m: M.Message)
    requires IsChange(step)
  {
    && m.id == step.id > 0 && Carries(st, step.s) > 0
    && match step
       case EditMessage(s, _, content, _, _, _) => m.sender == Carries(st, s) && !m.deleted && content != ""
       case DeleteMessage(s, _, _, _, _) => m.sender == Carries(st, s) && !m.deleted
       case React(_, _, reaction, _, _) => !m.deleted && reaction != ""
       case MarkAsRead(_, _, _, _, _) => true
  }

  /** A change request is accepted exactly if some row is one it may change. */
  lemma AcceptedExactly(st: Server, step: Step)
    requires IsChange(step)
    ensures ChangeAccepted(st, step) <==> exists i :: 0 <= i < |st.messages| && MayChange(st, step, st.messages[i])
  {
    if i :| 0 <= i < |st.messages| && MayChange(st, step, st.messages[i]) {
      assert M.Hits(st.messages[i], ChangeOf(st, step));
    }
    if ChangeAccepted(st, step) {
      var i :| 0 <= i < |st.messages| && M.Hits(st.messages[i], ChangeOf(st, step));
      assert MayChange(st, step, st.messages[i]);
    }
  }

  /** What is announced or refused: the fields of the request, the requester's id, and whether it was accepted. */
  predicate Answers(st: Server, step: Step, payload: Payload, ok: bool)
    requires IsChange(step)
  {
    var user := Carries(st, step.s);
    match step
    case EditMessage(_, id, content, to, group, _) =>
      payload == EditReturn(ok, id, user, to, group, if ok then content else "message edit failed")
    case DeleteMessage(_, id, to, group, _) => payload == DeleteReturn(ok, id, user, to, group)
    case React(_, id, reaction, to, group) => payload == ReactionReturn(ok, id, user, to, group, reaction)
    case MarkAsRead(_, claimedFrom, id, to, group) =>
      payload == if ok then ReadReceipt(id, claimedFrom, to, group) else Notice("read receipt failed")
  }

  /** What a step adds to the log are the first of the deliveries it tries to queue. */
  lemma EntryOf(st: Server, out: seq<Delivery>, k: nat)
    requires |st.log| <= k < |st.log + Fitting(st.fits, out)|
    ensures k - |st.log| < |out| && (st.log + Fitting(st.fits, out))[k] == out[k - |st.log|]
  {
  }

  lemma AnswerSays(st: Server, step: Step, ok: bool)
    requires IsChange(step)
    ensures Answers(st, step, AnswerTo(st, step, ok), ok)
  {
  }

  lemma ConversationPayload(st: Server, payload: Payload, sender: int, to: int, group: int)
    ensures var out := ToConversation(st, payload, sender, to, group);
            forall k :: 0 <= k < |out| ==> out[k].payload == payload
  {
    FanOutPayload(st.pool, C.Members(st.channels, group), payload);
  }

  /** Everything a change request queues says so; a refusal goes to the requester's session alone. */
  lemma ChangeAnswered(st: Server, step: Step, k: nat)
    requires IsChange(step) && |st.log| <= k < |DoChange(st, step).log|
    ensures var d, ok := DoChange(st, step).log[k], ChangeAccepted(st, step);
            && Answers(st, step, d.payload, ok)
            && (!ok ==> d.session == step.s && |DoChange(st, step).log| == |st.log| + 1)
  {
    var answer, actor := AnswerTo(st, step, ChangeAccepted(st, step)), UserOf(st.pool, step.s);
    var out := if ChangeAccepted(st, step) then ToConversation(st, answer, actor, step.to, step.group)
               else Reply(st, step.s, answer);
    AnswerSays(st, step, ChangeAccepted(st, step));
    ConversationPayload(st, answer, actor, step.to, step.group);
    assert DoChange(st, step).log == st.log + Fitting(st.fits, out);
    EntryOf(st, out, k);
  }

  // ---------------------------------------------------------------- offline batches

  /** A message that waits for this user. */
  predicate Waits(m: M.Message, user: int) {
    m.to == user && m.group == 0 && !m.delivered
  }

  /**
   An accepted login that does not stop the server gives the user, at that session, every message that waits, or, if
   the limit is positive and too small for that, as many as it says, none of them older than one left out; each with
   the text of its row.
   */
  lemma LoginGivesWaiting(st: Server, step: Step, i: nat) returns (batch: seq<M.Message>)
    requires Enabled(st, step) && step.Login? && LoginAccepted(st, step.user, step.passwordOk) && !Next(st, step).down
    requires i < |st.messages| && Waits(st.messages[i], step.user)
    ensures forall m :: m in batch ==> m in st.messages && Waits(m, step.user)
    ensures forall j, k :: 0 <= j < k < |batch| ==> batch[j].timestamp <= batch[k].timestamp
    ensures step.limit > 0 ==> |batch| <= step.limit
    ensures Delivery(step.s, step.user, OfflineMessages(batch)) in Next(st, step).log[|st.log|..]
    ensures || st.messages[i] in batch
            || (&& 0 < step.limit == |batch|
                && forall m :: m in batch ==> st.messages[i].timestamp <= m.timestamp)
  {
    batch := M.Trim(step.sorted, step.limit);
    WaitingBatch(st.messages, step.user, step.sorted, step.limit, st.messages[i]);
    var replied := LoggedIn(st, step.s, step.user, step.now, step.friends);
    var given := DeliverOffline(replied, step.s, step.user, batch);
    var d := Delivery(step.s, step.user, OfflineMessages(batch));
    assert !replied.down && !given.down;
    FittingAlike(st.fits, [d], OfflineMessages(batch));
    assert given.log == replied.log + [d];
    assert st.log <= replied.log && given.log <= Next(st, step).log;
    assert Next(st, step).log[|replied.log|] == d;
    assert Next(st, step).log[|st.log|..][|replied.log| - |st.log|] == d;
  }

  lemma WaitingBatch(rows: seq<M.Message>, user: int, sorted: seq<M.Message>, limit: int, m: M.Message)
    requires M.Sorts(M.PendingFor(rows, user), sorted) && m in rows && Waits(m, user)
    ensures var batch := M.Trim(sorted, limit);
            && batch != [] && (limit > 0 ==> |batch| <= limit)
            && (forall x :: x in batch ==> x in rows && Waits(x, user))
            && (forall j, k :: 0 <= j < k < |batch| ==> batch[j].timestamp <= batch[k].timestamp)
            && (m in batch || (0 < limit == |batch| && forall x :: x in batch ==> m.timestamp <= x.timestamp))
  {
    var batch := M.Trim(sorted, limit);
    M.PendingForExact(rows, user, m);
    assert m in multiset(sorted);
    var i :| 0 <= i < |sorted| && sorted[i] == m;
    forall x | x in batch
      ensures x in rows && Waits(x, user)
    {
      assert x in sorted;
      assert x in multiset(M.PendingFor(rows, user));
      M.PendingForExact(rows, user, x);
    }
    if limit > 0 {
      TrimmedAreOlder(sorted, limit, m);
    }
  }

  /** Messages are queued by these steps alone, with the texts of stored rows. */
  lemma QueuedTexts(st: Server, step: Step, k: nat)
    requires Enabled(st, step) && |st.log| <= k < |Next(st, step).log|
    ensures var d, after := Next(st, step).log[k], Next(st, step).messages;
            match d.payload
            case ReceiveMsg(m) => step.SendPrivate? && |after| == |st.messages| + 1 && m == after[|st.messages|]
            case ReceiveGroupMsg(m) => step.SendGroup? && |after| == |st.messages| + 1 && m == after[|st.messages|]
            case OfflineMessages(batch) =>
              step.Login? && d.addressee == step.user && d.session == step.s
              && forall m :: m in batch ==> m in st.messages && Waits(m, step.user)
            case _ => true
  {
    if step.SendPrivate? {
      PrivateTexts(st, step, k);
    } else if step.SendGroup? {
      GroupTexts(st, step, k);
    } else if step.Login? {
      LoginTexts(st, step, k);
    } else {
      OtherTexts(st, step, k);
    }
  }

  lemma OtherTexts(st: Server, step: Step, k: nat)
    requires !step.SendPrivate? && !step.SendGroup? && !step.Login? && |st.log| <= k < |Next(st, step).log|
    ensures var p := Next(st, step).log[k].payload; !p.ReceiveMsg? && !p.ReceiveGroupMsg? && !p.OfflineMessages?
  {
    if IsChange(step) {
      assert Next(st, step) == DoChange(st, step);
      ChangeAnswered(st, step, k);
    } else if IsQuiet(step) {
      QuietSends(st, step);
      EntryOf(st, QuietOutput(st, step), k);
    }
  }

  lemma GroupTexts(st: Server, step: Step, k: nat)
    requires step.SendGroup? && |st.log| <= k < |Next(st, step).log|
    ensures var d, after := Next(st, step).log[k], Next(st, step).messages;
            && !d.payload.ReceiveMsg? && !d.payload.OfflineMessages?
            && (d.payload.ReceiveGroupMsg? ==>
                  |after| == |st.messages| + 1 && d.payload.message == after[|st.messages|])
  {
    if Carries(st, step.s) > 0 && step.group > 0 && step.content != "" {
      SendGroupEffect(st, step.s, step.group, step.content, step.contentType, step.now);
    } else {
      var out := Reply(st, step.s, Notice("fromId, groupId and msg required"));
      assert Next(st, step).log == st.log + Fitting(st.fits, out);
      EntryOf(st, out, k);
    }
  }

  lemma PrivateTexts(st: Server, step: Step, k: nat)
    requires step.SendPrivate? && |st.log| <= k < |Next(st, step).log|
    ensures var d, after := Next(st, step).log[k], Next(st, step).messages;
            && !d.payload.ReceiveGroupMsg? && !d.payload.OfflineMessages?
            && (d.payload.ReceiveMsg? ==> |after| == |st.messages| + 1 && d.payload.message == after[|st.messages|])
  {
    if Carries(st, step.s) > 0 && step.to > 0 && step.content != "" {
      AcceptedTexts(st, step, k);
    } else {
      assert Next(st, step) == DoSendPrivate(st, step.s, step.to, step.content, step.contentType, step.now);
      var out := Reply(st, step.s, Notice("fromId, toId and msg required"));
      assert Next(st, step).log == st.log + Fitting(st.fits, out);
      EntryOf(st, out, k);
    }
  }

  lemma AcceptedTexts(st: Server, step: Step, k: nat)
    requires step.SendPrivate? && |st.log| <= k < |Next(st, step).log|
    requires Carries(st, step.s) > 0 && step.to > 0 && step.content != ""
    ensures var d, after := Next(st, step).log[k], Next(st, step).messages;
            |after| == |st.messages| + 1 && d.payload == ReceiveMsg(after[|st.messages|])
  {
    SendPrivateEffect(st, step.s, step.to, step.content, step.contentType, step.now);
  }

  lemma LoginTexts(st: Server, step: Step, k: nat)
    requires Enabled(st, step) && step.Login? && |st.log| <= k < |Next(st, step).log|
    ensures var d := Next(st, step).log[k];
            && !d.payload.ReceiveMsg? && !d.payload.ReceiveGroupMsg?
            && (d.payload.OfflineMessages? ==>
                  && d.addressee == step.user && d.session == step.s
                  && forall m :: m in d.payload.messages ==> m in st.messages && Waits(m, step.user))
  {
    LoginQueues(st, step);
    var d := Next(st, step).log[k];
    if d.payload.OfflineMessages? {
      LoginBatchOnly(st, step, k);
      var batch := M.Trim(step.sorted, step.limit);
      forall m | m in batch
        ensures m in st.messages && Waits(m, step.user)
      {
        assert m in step.sorted;
        assert m in multiset(M.PendingFor(st.messages, step.user));
        M.PendingForExact(st.messages, step.user, m);
      }
    }
  }

  /** The only batch a login queues. */
  lemma LoginBatchOnly(st: Server, step: Step, k: nat)
    requires step.Login? && |st.log| <= k < |Next(st, step).log|
    ensures Next(st, step).log[k].payload.OfflineMessages? ==>
              Next(st, step).log[k] == Delivery(step.s, step.user, OfflineMessages(M.Trim(step.sorted, step.limit)))
  {
    if !LoginAccepted(st, step.user, step.passwordOk) {
      var out := Reply(st, step.s, Notice("invalid credentials"));
      assert Next(st, step).log == st.log + Fitting(st.fits, out);
      EntryOf(st, out, k);
    } else {
      var batch, bound := M.Trim(step.sorted, step.limit), Bound(st, step.s, step.user, step.now);
      var reply := Reply(bound, step.s, LoginReply(bound, step.user, step.friends));
      var replied := LoggedIn(st, step.s, step.user, step.now, step.friends);
      assert replied.log == st.log + Fitting(st.fits, reply);
      if k < |replied.log| {
        EntryOf(st, reply, k);
      } else {
        var given := DeliverOffline(replied, step.s, step.user, batch);
        var one := BatchDelivery(step.s, step.user, batch);
        assert given.log == replied.log + Fitting(st.fits, one);
        if k < |given.log| {
          EntryOf(replied, one, k);
        } else {
          var told := FriendNotice(given, step.user, true, step.friends);
          FriendNotices(given, step.user, true, step.friends);
          assert Next(st, step).log == given.log + Fitting(st.fits, told);
          EntryOf(given, told, k);
        }
      }
    }
  }

  // ---------------------------------------------------------------- histories

  /** The message belongs to the conversation a history request names. */
  predicate Concerns(m: M.Message, user: int, to: int, group: int) {
    if group > 0 then m.group == group
    else user > 0 && to > 0 && m.group == 0 && ((m.sender == user && m.to == to) || (m.sender == to && m.to == user))
  }

  lemma {:induction false} HistoryExact(rows: seq<M.Message>, user: int, to: int, group: int, m: M.Message)
    ensures m in HistoryOf(rows, user, to, group) <==> m in rows && Concerns(m, user, to, group)
    decreases |rows|
  {
    if rows != [] {
      var n := |rows| - 1;
      HistoryExact(rows[..n], user, to, group, m);
      assert rows == rows[..n] + [rows[n]];
    }
  }

  /**
   A history request is answered, at its session, with messages of that conversation as they are stored after the read
   mark, both directions alike, in time order; all of them, or as many as the limit says and none older than one left
   out.
   */
  lemma HistoryAnswered(st: Server, step: Step) returns (batch: seq<M.Message>)
    requires Enabled(st, step) && step.RequestHistory?
    ensures var after, limit := Next(st, step), if step.limit < 1 then 1 else step.limit;
            && (forall m :: m in batch ==> m in after.messages && Concerns(m, Carries(st, step.s), step.to, step.group))
            && (forall j, k :: 0 <= j < k < |batch| ==> batch[j].timestamp <= batch[k].timestamp)
            && |batch| <= limit
            && (forall m :: m in after.messages && Concerns(m, Carries(st, step.s), step.to, step.group) ==>
                  m in batch || (|batch| == limit && forall x :: x in batch ==> m.timestamp <= x.timestamp))
            && (!after.down ==> after.log == st.log + [Delivery(step.s, Carries(st, step.s), HistoryResponse(batch))])
  {
    var limit, after := if step.limit < 1 then 1 else step.limit, Next(st, step);
    var rows, user := RowsAfterHistory(st.messages, step.readId), Carries(st, step.s);
    batch := M.Trim(step.sorted, limit);
    assert after.messages == rows;
    FittingAlike(st.fits, Reply(st, step.s, HistoryResponse(batch)), HistoryResponse(batch));
    BatchOfHistory(rows, user, step.to, step.group, step.sorted, limit);
  }

  lemma BatchOfHistory(rows: seq<M.Message>, user: int, to: int, group: int, sorted: seq<M.Message>, limit: int)
    requires M.Sorts(HistoryOf(rows, user, to, group), sorted) && limit > 0
    ensures var batch := M.Trim(sorted, limit);
            && (forall m :: m in batch ==> m in rows && Concerns(m, user, to, group))
            && (forall m :: m in rows && Concerns(m, user, to, group) ==>
                  m in batch || (|batch| == limit && forall x :: x in batch ==> m.timestamp <= x.timestamp))
  {
    var batch := M.Trim(sorted, limit);
    forall m | m in batch
      ensures m in rows && Concerns(m, user, to, group)
    {
      assert m in sorted;
      assert m in multiset(HistoryOf(rows, user, to, group));
      HistoryExact(rows, user, to, group, m);
    }
    forall m | m in rows && Concerns(m, user, to, group)
      ensures m in batch || (|batch| == limit && forall x :: x in batch ==> m.timestamp <= x.timestamp)
    {
      HistoryExact(rows, user, to, group, m);
      assert m in multiset(sorted);
      TrimmedAreOlder(sorted, limit, m);
    }
  }

  lemma TrimmedAreOlder(sorted: seq<M.Message>, limit: int, m: M.Message)
    requires M.ByTime(sorted) && m in sorted && limit > 0
    ensures var batch := M.Trim(sorted, limit);
            m in batch || (|batch| == limit && forall x :: x in batch ==> m.timestamp <= x.timestamp)
  {
    var batch := M.Trim(sorted, limit);
    var i :| 0 <= i < |sorted| && sorted[i] == m;
    if i >= |sorted| - |batch| {
      assert batch[i - (|sorted| - |batch|)] == m;
    } else {
      forall x | x in batch
        ensures m.timestamp <= x.timestamp
      {
        var k :| 0 <= k < |batch| && batch[k] == x;
        assert sorted[k + (|sorted| - |batch|)] == x;
      }
    }
  }

  // ---------------------------------------------------------------- notices

  lemma {:induction false} FanOutReaches(p: Pool, users: seq<int>, payload: Payload, user: int)
    requires user in users && user in p.index && p.index[user] in p.pooled
    ensures Delivery(p.index[user], user, payload) in ToUsers(p, users, payload)
    decreases |users|
  {
    var n := |users| - 1;
    if users[n] == user {
      assert ToUser(p, user, payload) == [Delivery(p.index[user], user, payload)];
    } else {
      assert users == users[..n] + [users[n]];
      FanOutReaches(p, users[..n], payload, user);
    }
  }

  /** A notice says what the user's row says. */
  predicate Names(users: seq<User>, user: int, nickname: string) {
    exists i :: 0 <= i < |users| && users[i].id == user && users[i].nickname == nickname
  }

  lemma FindNames(users: seq<User>, id: int)
    requires Find(users, id) != []
    ensures Names(users, id, Find(users, id)[0].nickname)
    decreases |users|
  {
    if users[0].id == id {
      assert users[0].nickname == Find(users, id)[0].nickname;
    } else {
      FindNames(users[1..], id);
      var i :| 0 <= i < |users[1..]| && users[1..][i].id == id && users[1..][i].nickname == Find(users, id)[0].nickname;
      assert users[i + 1].id == id;
    }
  }

  /** After a login that does not stop the server every listed friend who is online is told that the user came. */
  lemma FriendsAreTold(st: Server, step: Step, friend: int) returns (nickname: string)
    requires step.Login? && LoginAccepted(st, step.user, step.passwordOk) && !st.down && !Next(st, step).down
    requires friend in step.friends && Online(Next(st, step), friend)
    ensures Names(Next(st, step).users, step.user, nickname)
    ensures Delivery(Next(st, step).pool.index[friend], friend, FriendStatus(step.user, nickname, true))
            in Next(st, step).log[|st.log|..]
  {
    var replied := LoggedIn(st, step.s, step.user, step.now, step.friends);
    var given := DeliverOffline(replied, step.s, step.user, M.Trim(step.sorted, step.limit));
    assert !replied.down && !given.down;
    KnownKept(st.users, step.user, step.user, true, step.now, "", 0);
    assert st.log <= replied.log <= given.log;
    assert Next(st, step) == Sent(given, FriendNotice(given, step.user, true, step.friends));
    nickname := NoticeReaches(given, step.user, true, step.friends, friend);
    var d := Delivery(given.pool.index[friend], friend, FriendStatus(step.user, nickname, true));
    SuffixHas(st.log, given.log, Next(st, step).log, d);
  }

  /** What is new since a later point is new since an earlier one. */
  lemma SuffixHas(start: seq<Delivery>, middle: seq<Delivery>, end: seq<Delivery>, d: Delivery)
    requires start <= middle <= end && d in end[|middle|..]
    ensures d in end[|start|..]
  {
    var j :| 0 <= j < |end[|middle|..]| && end[|middle|..][j] == d;
    assert end[|start|..][|middle| - |start| + j] == d;
  }

  lemma NoticeReaches(st: Server, user: int, online: bool, friends: seq<int>, friend: int) returns (nickname: string)
    requires var out := FriendNotice(st, user, online, friends); !st.down && !Sent(st, out).down
    requires Known(st.users, user) && friend in friends && Online(st, friend)
    ensures Names(st.users, user, nickname)
    ensures Delivery(st.pool.index[friend], friend, FriendStatus(user, nickname, online))
            in Sent(st, FriendNotice(st, user, online, friends)).log[|st.log|..]
  {
    FindExact(st.users, user);
    FindNames(st.users, user);
    nickname := Find(st.users, user)[0].nickname;
    var out := FriendNotice(st, user, online, friends);
    FanOutReaches(st.pool, friends, FriendStatus(user, nickname, online), friend);
    assert Sent(st, out).log[|st.log|..] == out;
  }

  /** After a logout that does not stop the server they are told that the user went. */
  lemma FriendsAreToldOff(st: Server, s: nat, now: int, friends: seq<int>, friend: int) returns (nickname: string)
    requires Carries(st, s) > 0 && Known(st.users, Carries(st, s))
    requires !st.down && !Next(st, Logout(s, now, friends)).down
    requires friend in friends && Online(Next(st, Logout(s, now, friends)), friend)
    ensures Names(Next(st, Logout(s, now, friends)).users, Carries(st, s), nickname)
    ensures Delivery(Next(st, Logout(s, now, friends)).pool.index[friend], friend,
                     FriendStatus(Carries(st, s), nickname, false))
            in Next(st, Logout(s, now, friends)).log[|st.log|..]
  {
    var user, end := Carries(st, s), Next(st, Logout(s, now, friends));
    var after := OfflineUser(st, user, now).(pool := Unbind(st.pool, user));
    KnownKept(st.users, user, user, false, now, "", 0);
    FindExact(after.users, user);
    FindNames(after.users, user);
    nickname := Find(after.users, user)[0].nickname;
    var payload := FriendStatus(user, nickname, false);
    var out := FriendNotice(after, user, false, friends) + Reply(after, s, Notice("logged out"));
    assert end == Sent(after, out);
    assert end.log == st.log + out;
    FanOutReaches(after.pool, friends, payload, friend);
    var d := Delivery(after.pool.index[friend], friend, payload);
    var j :| 0 <= j < |FriendNotice(after, user, false, friends)| && FriendNotice(after, user, false, friends)[j] == d;
    assert out[j] == d && end.log[|st.log|..][j] == d;
  }

  /** When a session that carries a user goes and the server stays up, every other session is told. */
  lemma EverybodyIsTold(st: Server, s: nat, now: int, order: seq<nat>, t: nat) returns (nickname: string)
    requires Enabled(st, Disconnect(s, now, order)) && !Next(st, Disconnect(s, now, order)).down
    requires s in st.pool.pooled && Carries(st, s) > 0 && Known(st.users, Carries(st, s))
    requires t in st.pool.pooled && t != s
    ensures Names(Next(st, Disconnect(s, now, order)).users, Carries(st, s), nickname)
    ensures Delivery(t, Carries(st, t), UserOffline(Carries(st, s), nickname))
            in Next(st, Disconnect(s, now, order)).log[|st.log|..]
  {
    var user, end := Carries(st, s), Next(st, Disconnect(s, now, order));
    var after := OfflineUser(st.(pool := Remove(st.pool, s)), user, now);
    KnownKept(st.users, user, user, false, now, "", 0);
    FindExact(after.users, user);
    FindNames(after.users, user);
    nickname := Find(after.users, user)[0].nickname;
    var out := OfflineNotice(after, user, order);
    assert end == Sent(after, out) && end.log == st.log + out;
    assert t in st.pool.pooled - {s};
    assert t in order;
    var j :| 0 <= j < |order| && order[j] == t;
    assert out[j] == Delivery(t, Carries(st, t), UserOffline(user, nickname));
    assert end.log[|st.log|..][j] == out[j];
  }
}
