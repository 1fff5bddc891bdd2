/** Sessions, presence and stored online flags over every run of the server. */
module ServerPresence {
  import opened Basics
  import opened Sessions
  import opened Users
  import opened Router
  import opened PresenceStore
  import M = Messages
  import C = Channels

  /**
   Index entries are never stale, indexed users are present, and the users table stores as online those who are present
   and, apart from them, `left`: users whose flag an earlier run of the server left set.
   */
  ghost predicate PresenceSound(st: Server, left: set<int>) {
    && Forward(st.pool)
    && st.pool.index.Keys <= st.presence.Keys
    && OnlineIds(st.users) == st.presence.Keys + left && st.presence.Keys !! left
    && (forall u :: u in st.presence ==> st.presence[u] == "online")
    && CarriedKnown(st.pool.userOf, st.users)
  }

  /** The user ids that sessions carry belong to registered users. */
  ghost predicate CarriedKnown(userOf: map<nat, int>, users: seq<User>) {
    forall s :: s in userOf && userOf[s] != 0 ==> userOf[s] > 0 && Known(users, userOf[s])
  }

  lemma CarriedStayKnown(userOf: map<nat, int>, users: seq<User>, user: int, online: bool, now: int,
                         nickname: string, avatarId: int)
    requires CarriedKnown(userOf, users)
    ensures CarriedKnown(userOf, WithOnline(users, user, online, now))
    ensures CarriedKnown(userOf, Created(users, nickname, avatarId))
  {
    forall s | s in userOf && userOf[s] != 0
      ensures Known(WithOnline(users, user, online, now), userOf[s])
      ensures Known(Created(users, nickname, avatarId), userOf[s])
    {
      KnownKept(users, userOf[s], user, online, now, nickname, avatarId);
    }
  }

  lemma OfflineSound(st: Server, pool: Pool, user: int, now: int, left: set<int>)
    requires PresenceSound(st, left) && Known(st.users, user)
    requires Forward(pool) && pool.index.Keys <= st.pool.index.Keys - {user}
    requires CarriedKnown(pool.userOf, st.users)
    ensures PresenceSound(OfflineUser(st, user, now).(pool := pool), left - {user})
  {
    OnlineAfter(st.users, user, false, now);
    CarriedStayKnown(pool.userOf, st.users, user, false, now, "", 0);
  }

  /** The step sets or clears the stored flag of this user. */
  predicate Settles(st: Server, step: Step, user: int) {
    match step
    case Login(_, u, passwordOk, _, _, _, _) => LoginAccepted(st, u, passwordOk) && u == user
    case Logout(s, _, _) => UserOf(st.pool, s) == user > 0
    case Disconnect(s, _, _) => s in st.pool.pooled && UserOf(st.pool, s) == user > 0
    case _ => false
  }

  ghost function StillLeft(st: Server, step: Step, left: set<int>): set<int> {
    set u | u in left && !Settles(st, step, u)
  }

  lemma DisconnectSound(st: Server, step: Step, left: set<int>)
    requires PresenceSound(st, left) && step.Disconnect?
    ensures PresenceSound(Next(st, step), StillLeft(st, step, left))
  {
    ForwardKept(st.pool, step.s, 0);
    var user := if step.s in st.pool.pooled then UserOf(st.pool, step.s) else 0;
    if user > 0 {
      OfflineSound(st, Remove(st.pool, step.s), user, step.now, left);
      assert StillLeft(st, step, left) == left - {user};
    } else {
      assert StillLeft(st, step, left) == left;
    }
  }

  lemma LogoutSound(st: Server, step: Step, left: set<int>)
    requires PresenceSound(st, left) && step.Logout?
    ensures PresenceSound(Next(st, step), StillLeft(st, step, left))
  {
    var user := UserOf(st.pool, step.s);
    if user > 0 {
      ForwardKept(st.pool, step.s, user);
      OfflineSound(st, Unbind(st.pool, user), user, step.now, left);
      assert StillLeft(st, step, left) == left - {user};
    } else {
      assert StillLeft(st, step, left) == left;
    }
  }

  /** Whichever of its deliveries stops it, a login does the same to pool, presence and users. */
  lemma LoginEffect(st: Server, s: nat, user: int, now: int, batch: seq<M.Message>, friends: seq<int>)
    requires LoginAccepted(st, user, true)
    ensures var after := DoLogin(st, s, user, true, now, batch, friends);
            && after.pool == Bind(st.pool, s, user) && after.presence == st.presence[user := "online"]
            && after.users == WithOnline(st.users, user, true, now)
  {
  }

  lemma BoundSound(st: Server, s: nat, user: int, now: int, left: set<int>)
    requires PresenceSound(st, left) && LoginAccepted(st, user, true)
    ensures PresenceSound(Bound(st, s, user, now), left - {user})
  {
    ForwardKept(st.pool, s, user);
    OnlineAfter(st.users, user, true, now);
    CarriedStayKnown(Bind(st.pool, s, user).userOf, st.users, user, true, now, "", 0);
  }

  lemma LoginSound(st: Server, step: Step, left: set<int>)
    requires PresenceSound(st, left) && step.Login?
    ensures PresenceSound(Next(st, step), StillLeft(st, step, left))
  {
    if LoginAccepted(st, step.user, step.passwordOk) {
      LoginEffect(st, step.s, step.user, step.now, M.Trim(step.sorted, step.limit), step.friends);
      BoundSound(st, step.s, step.user, step.now, left);
      assert StillLeft(st, step, left) == left - {step.user};
    } else {
      assert StillLeft(st, step, left) == left;
    }
  }

  lemma RegisterSound(st: Server, nickname: string, avatarId: int, left: set<int>)
    requires PresenceSound(st, left)
    ensures PresenceSound(st.(users := Created(st.users, nickname, avatarId)), left)
  {
    OnlineAfterCreated(st.users, nickname, avatarId);
    CarriedStayKnown(st.pool.userOf, st.users, 0, false, 0, nickname, avatarId);
  }

  lemma ProfileSound(st: Server, s: nat, nickname: string, avatarId: int, left: set<int>)
    requires PresenceSound(st, left)
    ensures PresenceSound(DoProfile(st, s, nickname, avatarId), left)
  {
    ProfileKeeps(st.users, UserOf(st.pool, s), nickname, avatarId);
  }

  /** Only these steps touch sessions, presence or the users table. */
  predicate TouchesPresence(step: Step) {
    step.Connect? || step.Disconnect? || step.Register? || step.Login? || step.Logout?
    || step.UpdateProfile?
  }

  lemma OthersLeavePresence(st: Server, step: Step)
    requires !TouchesPresence(step)
    ensures var after := Next(st, step);
            after.pool == st.pool && after.presence == st.presence && after.users == st.users
  {
    if IsChange(step) {
      assert Next(st, step) == DoChange(st, step);
    }
  }

  lemma StepSound(st: Server, step: Step, left: set<int>)
    requires PresenceSound(st, left) && Enabled(st, step)
    ensures PresenceSound(Next(st, step), StillLeft(st, step, left))
  {
    if step.Login? {
      LoginSound(st, step, left);
    } else if step.Logout? {
      LogoutSound(st, step, left);
    } else if step.Disconnect? {
      DisconnectSound(st, step, left);
    } else {
      assert StillLeft(st, step, left) == left;
      match step {
        case Connect(s) => ForwardKept(st.pool, s, 0);
        case Register(_, nickname, _, avatarId, _) => RegisterSound(st, nickname, avatarId, left);
        case UpdateProfile(s, nickname, avatarId) => ProfileSound(st, s, nickname, avatarId, left);
        case _ => OthersLeavePresence(st, step);
      }
    }
  }

  /** No step of the run sets or clears the flag of this user. */
  predicate Unsettled(st: Server, steps: seq<Step>, user: int)
    decreases |steps|
  {
    steps == [] || (!Settles(st, steps[0], user) && Unsettled(Next(st, steps[0]), steps[1..], user))
  }

  /** Those whose flag was left set and who have neither logged in nor gone offline since. */
  ghost function LeftAfter(st: Server, steps: seq<Step>, left: set<int>): set<int> {
    set u | u in left && Unsettled(st, steps, u)
  }

  /**
   In every reachable state each index entry points to a pooled session that carries that user, every indexed user is
   present, and the users table stores as online exactly those who are present and those whose flag is left over.
   */
  lemma {:induction false} PresenceAlwaysSound(st: Server, steps: seq<Step>, left: set<int>)
    requires PresenceSound(st, left) && CanRun(st, steps)
    ensures PresenceSound(Run(st, steps), LeftAfter(st, steps, left))
    decreases |steps|
  {
    if steps == [] {
      assert LeftAfter(st, steps, left) == left;
    } else {
      var next, still := Next(st, steps[0]), StillLeft(st, steps[0], left);
      StepSound(st, steps[0], left);
      PresenceAlwaysSound(next, steps[1..], still);
      assert LeftAfter(next, steps[1..], still) == LeftAfter(st, steps, left);
    }
  }

  /** Every step keeps index entries fresh. */
  lemma StepForward(st: Server, step: Step)
    requires Forward(st.pool)
    ensures Forward(Next(st, step).pool)
  {
    if !TouchesPresence(step) {
      OthersLeavePresence(st, step);
    } else {
      match step {
        case Connect(s) => ForwardKept(st.pool, s, 0);
        case Disconnect(s, _, _) => ForwardKept(st.pool, s, 0);
        case Login(s, user, _, _, _, _, _) => ForwardKept(st.pool, s, user);
        case Logout(s, _, _) => ForwardKept(st.pool, s, UserOf(st.pool, s));
        case _ =>
      }
    }
  }

  lemma BootedIsSound(st: Server)
    requires Booted(st)
    ensures PresenceSound(st, OnlineIds(st.users)) && Exact(st)
  {
  }

  /** In every reachable state, whatever the database held, index entries are never stale. */
  lemma ForwardAlways(st: Server, steps: seq<Step>)
    requires Booted(st) && CanRun(st, steps)
    ensures Forward(Run(st, steps).pool)
  {
    BootedIsSound(st);
    PresenceAlwaysSound(st, steps, OnlineIds(st.users));
  }

  /**
   Over every run from any start, presence is what the users table says exactly if no flag of an earlier run of the
   server is left; and a user is reported as offline exactly if stored as offline or left over.
   */
  lemma FlagsAreExact(st: Server, steps: seq<Step>, user: int)
    requires Booted(st) && CanRun(st, steps)
    ensures var now, left := Run(st, steps), LeftAfter(st, steps, OnlineIds(st.users));
            && (now.presence.Keys == OnlineIds(now.users) <==> left == {})
            && (StatusOf(now.presence, user) == "offline" <==> user !in OnlineIds(now.users) || user in left)
            && (FindByUser(now.pool, user).Some? ==> StatusOf(now.presence, user) == "online")
  {
    BootedIsSound(st);
    PresenceAlwaysSound(st, steps, OnlineIds(st.users));
    var now, left := Run(st, steps), LeftAfter(st, steps, OnlineIds(st.users));
    LookupsAreFresh(now.pool, user, user);
    if now.presence.Keys == OnlineIds(now.users) {
      assert forall u :: u in left ==> u in now.presence.Keys + left;
      assert left == {};
    }
  }

  /** From an all-offline database, presence is always what the users table says. */
  lemma StatusIsStored(st: Server, steps: seq<Step>, user: int)
    requires Started(st) && CanRun(st, steps)
    ensures var now := Run(st, steps);
            && now.presence.Keys == OnlineIds(now.users)
            && (StatusOf(now.presence, user) == "offline" <==> user !in OnlineIds(now.users))
  {
    FlagsAreExact(st, steps, user);
    assert LeftAfter(st, steps, OnlineIds(st.users)) == {};
  }

  /** Nothing clears the flags when the server stops: whoever logged in last is stored as online at the next start. */
  lemma RestartLeavesFlag(st: Server, step: Step, again: Server)
    requires step.Login? && LoginAccepted(st, step.user, step.passwordOk)
    requires Booted(again) && again.users == Next(st, step).users
    ensures step.user in OnlineIds(again.users) && StatusOf(again.presence, step.user) == "offline"
  {
    LoginEffect(st, step.s, step.user, step.now, M.Trim(step.sorted, step.limit), step.friends);
    OnlineAfter(st.users, step.user, true, step.now);
  }

  // ---------------------------------------------------------------- what a login is told

  /** A listed user is reported as online exactly if stored as online by this run of the server. */
  ghost predicate Truthful(listed: Listed, st: Server, left: set<int>) {
    listed.status == (if listed.id in OnlineIds(st.users) && listed.id !in left then "online" else "offline")
  }

  lemma {:induction false} ListSomeExact(st: Server, ids: seq<int>, left: set<int>)
    requires PresenceSound(st, left)
    ensures forall x :: x in ListSome(st.users, st.presence, ids) ==> x.id in ids && Truthful(x, st, left)
    ensures forall id :: id in ids && Known(st.users, id) ==>
              exists x :: x in ListSome(st.users, st.presence, ids) && x.id == id
    decreases |ids|
  {
    if ids != [] {
      var n := |ids| - 1;
      ListSomeExact(st, ids[..n], left);
      assert ids == ids[..n] + [ids[n]];
      FindExact(st.users, ids[n]);
      var before, all := ListSome(st.users, st.presence, ids[..n]), ListSome(st.users, st.presence, ids);
      assert before <= all;
      forall id | id in ids && Known(st.users, id)
        ensures exists x :: x in all && x.id == id
      {
        if id == ids[n] {
          assert all[|before|] == List(Find(st.users, id)[0], st.presence);
        } else {
          var x :| x in before && x.id == id;
          assert x in all;
        }
      }
    }
  }

  /**
   The reply to a login lists every user and every registered friend with the status the server stores, flags left
   over from an earlier run apart, and exactly the groups the user is a member of, each once.
   */
  lemma LoginReplyIsTruthful(st: Server, s: nat, user: int, now: int, friends: seq<int>, left: set<int>)
    requires PresenceSound(st, left) && C.Sound(st.channels) && LoginAccepted(st, user, true)
    ensures var bound := Bound(st, s, user, now);
            var reply := LoginReply(bound, user, friends);
            && reply.LoginReturn? && reply.user == user && |reply.users| == |st.users|
            && (forall i :: 0 <= i < |st.users| ==>
                  reply.users[i].id == st.users[i].id && Truthful(reply.users[i], bound, left - {user}))
            && (forall x :: x in reply.friends ==> x.id in friends && Truthful(x, bound, left - {user}))
            && (forall id :: id in friends && Known(st.users, id) ==> exists x :: x in reply.friends && x.id == id)
            && (forall group :: C.HasGroup(reply.groups, group) <==> C.IsMember(st.channels, user, group))
            && C.DistinctIds(reply.groups)
  {
    var bound := Bound(st, s, user, now);
    BoundSound(st, s, user, now, left);
    KnownKept(st.users, user, user, true, now, "", 0);
    FindExact(bound.users, user);
    ListSomeExact(bound, friends, left - {user});
    forall id | id in friends && Known(st.users, id)
      ensures Known(bound.users, id)
    {
      KnownKept(st.users, id, user, true, now, "", 0);
    }
    C.GroupsExact(st.channels.groups, st.channels.members, user);
  }

  // ---------------------------------------------------------------- when the correspondence is exact

  /** Index, user ids of pooled sessions and presence describe the same one-to-one correspondence. */
  ghost predicate Exact(st: Server) {
    Inverse(st.pool) && st.presence.Keys == st.pool.index.Keys
  }

  /**
   A login that repeats the session's own login or joins an idle session and an absent user; on a session that
   has left the pool, one by a user who is found elsewhere.
   */
  predicate CleanLogin(p: Pool, s: nat, user: int) {
    if s in p.pooled then UserOf(p, s) == user || (UserOf(p, s) == 0 && user !in p.index) else user in p.index
  }

  /** An accepted login keeps the correspondence exactly if it is clean. */
  lemma LoginExactly(st: Server, s: nat, user: int, now: int, batch: seq<M.Message>, friends: seq<int>)
    requires Exact(st) && LoginAccepted(st, user, true)
    ensures Exact(DoLogin(st, s, user, true, now, batch, friends)) <==> CleanLogin(st.pool, s, user)
  {
    var after := DoLogin(st, s, user, true, now, batch, friends);
    LoginEffect(st, s, user, now, batch, friends);
    assert user in after.presence;
    if s in st.pool.pooled {
      BindKeepsInverse(st.pool, s, user);
      var before := UserOf(st.pool, s);
      if before != 0 && before != user {
        assert before in after.presence && before !in after.pool.index;
      }
    }
  }

  /** A session that logs in as another user leaves the former one present without a session. */
  lemma FormerUserStays(st: Server, s: nat, user: int, now: int, batch: seq<M.Message>, friends: seq<int>)
    requires Exact(st) && s in st.pool.pooled && LoginAccepted(st, user, true)
    requires UserOf(st.pool, s) != 0 && UserOf(st.pool, s) != user
    ensures var former, after := UserOf(st.pool, s), DoLogin(st, s, user, true, now, batch, friends);
            former in after.presence && FindByUser(after.pool, former).None? && FindByUser(after.pool, user) == Some(s)
  {
    LoginEffect(st, s, user, now, batch, friends);
  }

  /** So does a login handled after its session has left the pool, for a user without another session. */
  lemma GoneSessionLogsIn(st: Server, s: nat, user: int, now: int, batch: seq<M.Message>, friends: seq<int>)
    requires Exact(st) && s !in st.pool.pooled && user !in st.pool.index && LoginAccepted(st, user, true)
    ensures var after := DoLogin(st, s, user, true, now, batch, friends);
            user in after.presence && FindByUser(after.pool, user).None?
  {
    LoginEffect(st, s, user, now, batch, friends);
  }

  lemma StepExact(st: Server, step: Step)
    requires Exact(st) && CarriedKnown(st.pool.userOf, st.users) && Enabled(st, step)
    requires step.Login? && LoginAccepted(st, step.user, step.passwordOk) ==> CleanLogin(st.pool, step.s, step.user)
    ensures Exact(Next(st, step))
  {
    if !TouchesPresence(step) {
      OthersLeavePresence(st, step);
    } else {
      match step {
        case Connect(s) => InverseKept(st.pool, s, 0);
        case Disconnect(s, now, order) => DisconnectExact(st, s, now, order);
        case Register(_, _, _, _, _) =>
        case Login(s, user, passwordOk, now, sorted, limit, friends) =>
          if LoginAccepted(st, user, passwordOk) {
            LoginExactly(st, s, user, now, M.Trim(sorted, limit), friends);
          }
        case Logout(s, now, friends) => LogoutExact(st, s, now, friends);
        case UpdateProfile(_, _, _) =>
      }
    }
  }

  lemma DisconnectExact(st: Server, s: nat, now: int, order: seq<nat>)
    requires Exact(st) && CarriedKnown(st.pool.userOf, st.users)
    ensures Exact(DoDisconnect(st, s, now, order))
  {
    InverseKept(st.pool, s, 0);
  }

  lemma LogoutExact(st: Server, s: nat, now: int, friends: seq<int>)
    requires Exact(st) && CarriedKnown(st.pool.userOf, st.users)
    ensures Exact(DoLogout(st, s, now, friends))
  {
    InverseKept(st.pool, s, UserOf(st.pool, s));
  }

  /** Every accepted login of the run is clean when it happens. */
  ghost predicate CleanRun(st: Server, steps: seq<Step>)
    decreases |steps|
  {
    steps == []
    || (&& (steps[0].Login? && LoginAccepted(st, steps[0].user, steps[0].passwordOk) ==>
              CleanLogin(st.pool, steps[0].s, steps[0].user))
        && CleanRun(Next(st, steps[0]), steps[1..]))
  }

  lemma {:induction false} ExactAlways(st: Server, steps: seq<Step>, left: set<int>)
    requires PresenceSound(st, left) && Exact(st) && CanRun(st, steps) && CleanRun(st, steps)
    ensures Exact(Run(st, steps))
    decreases |steps|
  {
    if steps != [] {
      StepSound(st, steps[0], left);
      StepExact(st, steps[0]);
      ExactAlways(Next(st, steps[0]), steps[1..], StillLeft(st, steps[0], left));
    }
  }
}
