/** Stored messages and their deliveries over every run of the server. */
module ServerDelivery {
  import opened Basics
  import opened Sessions
  import opened Users
  import opened Router
  import opened ServerPresence
  import M = Messages
  import C = Channels

  // ---------------------------------------------------------------- the life of stored messages

  /** The tables keep their own invariants. */
  ghost predicate TablesSound(st: Server) {
    M.WellStored(st.messages) && C.Sound(st.channels)
  }

  lemma HistoryKeepsRows(rows: seq<M.Message>, readId: int)
    ensures M.AllEvolve(rows, RowsAfterHistory(rows, readId))
    ensures M.WellStored(rows) ==> M.WellStored(RowsAfterHistory(rows, readId))
  {
    if readId > 0 {
      M.ChangeEvolves(rows, M.MarkRead(readId, 0));
      if M.WellStored(rows) {
        M.ChangeWellStored(rows, M.MarkRead(readId, 0));
      }
    }
  }

  /** A change request either makes its change to the messages or leaves them alone, and never touches the channels. */
  lemma ChangeTables(st: Server, step: Step)
    requires IsChange(step) && TablesSound(st)
    ensures var after := DoChange(st, step);
            && after.messages == (if ChangeAccepted(st, step) then M.ChangeAll(st.messages, ChangeOf(st, step))
                                  else st.messages)
            && TablesSound(after) && M.AllEvolve(st.messages, after.messages)
  {
    M.ChangeEvolves(st.messages, ChangeOf(st, step));
    M.ChangeWellStored(st.messages, ChangeOf(st, step));
  }

  /** A send appends one message with the next id, or nothing. */
  lemma AppendTables(st: Server, after: Server, m: M.Message)
    requires TablesSound(st) && after.channels == st.channels && m.id == M.NextId(st.messages) && !m.deleted
    requires after.messages == st.messages || after.messages == st.messages + [m]
    ensures TablesSound(after) && M.AllEvolve(st.messages, after.messages)
  {
    M.AppendWellStored(st.messages, m);
  }

  lemma SendPrivateTables(st: Server, s: nat, to: int, content: string, contentType: string, now: int)
    requires TablesSound(st)
    ensures var after := DoSendPrivate(st, s, to, content, contentType, now);
            TablesSound(after) && M.AllEvolve(st.messages, after.messages)
  {
    AppendTables(st, DoSendPrivate(st, s, to, content, contentType, now),
                 M.PrivateMessage(st.messages, UserOf(st.pool, s), to, content, contentType, now,
                                  FindByUser(st.pool, to).Some?));
  }

  lemma SendGroupTables(st: Server, s: nat, group: int, content: string, contentType: string, now: int)
    requires TablesSound(st)
    ensures var after := DoSendGroup(st, s, group, content, contentType, now);
            TablesSound(after) && M.AllEvolve(st.messages, after.messages)
  {
    AppendTables(st, DoSendGroup(st, s, group, content, contentType, now),
                 M.GroupMessage(st.messages, UserOf(st.pool, s), group, content, contentType, now));
  }

  lemma ChannelTables(st: Server, step: Step)
    requires TablesSound(st) && (step.CreateGroup? || step.JoinGroup? || step.LeaveGroup?)
    ensures TablesSound(Next(st, step)) && Next(st, step).messages == st.messages
  {
    match step {
      case CreateGroup(s, name, now, _) => C.CreateSound(st.channels, UserOf(st.pool, s), name, now);
      case JoinGroup(s, group, now, _) => C.JoinSound(st.channels, UserOf(st.pool, s), group, now);
      case LeaveGroup(s, group) => C.LeaveSound(st.channels, UserOf(st.pool, s), group);
    }
  }

  lemma LoginTables(st: Server, step: Step)
    requires TablesSound(st) && step.Login?
    ensures TablesSound(Next(st, step)) && M.AllEvolve(st.messages, Next(st, step).messages)
  {
    M.MarkBatchKeeps(st.messages, M.Trim(step.sorted, step.limit));
    LoginRows(st, step);
  }

  /** A login marks its batch unless it is refused or its reply already stops the server. */
  lemma LoginRows(st: Server, step: Step)
    requires step.Login?
    ensures Next(st, step).channels == st.channels
    ensures Next(st, step).messages
            == if LoginMarks(st, step) then M.MarkBatch(st.messages, M.Trim(step.sorted, step.limit)) else st.messages
  {
  }

  predicate LoginMarks(st: Server, step: Step)
    requires step.Login?
  {
    LoginAccepted(st, step.user, step.passwordOk) && !LoggedIn(st, step.s, step.user, step.now, step.friends).down
  }

  lemma StepTables(st: Server, step: Step)
    requires TablesSound(st)
    ensures TablesSound(Next(st, step)) && M.AllEvolve(st.messages, Next(st, step).messages)
  {
    if IsChange(step) {
      assert Next(st, step) == DoChange(st, step);
      ChangeTables(st, step);
    } else if step.SendPrivate? {
      SendPrivateTables(st, step.s, step.to, step.content, step.contentType, step.now);
    } else if step.SendGroup? {
      SendGroupTables(st, step.s, step.group, step.content, step.contentType, step.now);
    } else if step.CreateGroup? || step.JoinGroup? || step.LeaveGroup? {
      ChannelTables(st, step);
    } else if step.Login? {
      LoginTables(st, step);
    } else if step.RequestHistory? {
      HistoryKeepsRows(st.messages, step.readId);
    } else {
      assert Next(st, step).messages == st.messages && Next(st, step).channels == st.channels;
    }
  }

  /**
   Over every run ids increase in storage order, what is stored only evolves (identity and time fixed, flags only
   set, reactions only appended, deleted messages frozen and empty), and channels stay sound.
   */
  lemma {:induction false} MessagesOnlyEvolve(st: Server, steps: seq<Step>)
    requires TablesSound(st)
    ensures TablesSound(Run(st, steps)) && M.AllEvolve(st.messages, Run(st, steps).messages)
    decreases |steps|
  {
    if steps != [] {
      StepTables(st, steps[0]);
      MessagesOnlyEvolve(Next(st, steps[0]), steps[1..]);
      M.AllEvolveTransitive(st.messages, Next(st, steps[0]).messages, Run(st, steps).messages);
    }
  }

  /** Once a message is deleted, every later request to edit, delete or react to it is refused and changes nothing. */
  lemma DeletedForever(st: Server, steps: seq<Step>, i: nat, step: Step)
    requires TablesSound(st) && CanRun(st, steps) && i < |st.messages| && st.messages[i].deleted
    requires (step.EditMessage? || step.DeleteMessage? || step.React?) && step.id == st.messages[i].id
    ensures var here := Run(st, steps);
            && i < |here.messages| && here.messages[i].deleted && here.messages[i].content == ""
            && here.messages[i].reactions == st.messages[i].reactions
            && !ChangeAccepted(here, step) && Next(here, step).messages == here.messages
  {
    MessagesOnlyEvolve(st, steps);
    var rows, c := Run(st, steps).messages, ChangeOf(Run(st, steps), step);
    assert M.Evolves(st.messages[i], rows[i]);
    forall k | 0 <= k < |rows|
      ensures !M.Hits(rows[k], c)
    {
      assert k != i ==> rows[k].id != rows[i].id;
    }
  }

  /** In any step, content changes only by a request from the author of that very message. */
  lemma OnlyAuthorChanges(st: Server, step: Step, i: nat)
    requires TablesSound(st) && i < |st.messages|
    ensures i < |Next(st, step).messages|
    ensures Next(st, step).messages[i].content != st.messages[i].content ==> AuthorChanges(st, step, st.messages[i])
  {
    if IsChange(step) {
      ChangeTables(st, step);
      if Next(st, step).messages[i].content != st.messages[i].content {
        M.OnlyAuthorChangesContent(st.messages[i], ChangeOf(st, step));
      }
    } else {
      OthersKeepContent(st, step, i);
    }
  }

  /** The step is an edit or deletion of this very message by its author, before it was deleted. */
  predicate AuthorChanges(st: Server, step: Step, m: M.Message) {
    && (step.EditMessage? || step.DeleteMessage?)
    && step.id == m.id && UserOf(st.pool, step.s) == m.sender && !m.deleted
  }

  lemma OthersKeepContent(st: Server, step: Step, i: nat)
    requires !IsChange(step) && i < |st.messages|
    ensures i < |Next(st, step).messages| && Next(st, step).messages[i].content == st.messages[i].content
  {
    if step.RequestHistory? && step.readId > 0 {
      assert Next(st, step).messages == M.ChangeAll(st.messages, M.MarkRead(step.readId, 0));
    } else if step.Login? {
      LoginRows(st, step);
    } else {
      assert st.messages <= Next(st, step).messages;
    }
  }

  // ---------------------------------------------------------------- exactly-once delivery

  /** A private message between two different users. */
  predicate IsDirect(m: M.Message) {
    m.group == 0 && m.sender != m.to
  }

  /** How often a delivery gives the message with this id to this user. */
  function Weight(d: Delivery, id: int, user: int): nat {
    if d.addressee != user then 0
    else
      match d.payload
      case ReceiveMsg(m) => if m.id == id then 1 else 0
      case OfflineMessages(batch) => M.CountId(batch, id)
      case _ => 0
  }

  /** How often the message with this id has been given to this user, live or in an offline batch. */
  function Given(log: seq<Delivery>, id: int, user: int): nat {
    if log == [] then 0 else Given(log[..|log| - 1], id, user) + Weight(log[|log| - 1], id, user)
  }

  predicate IsPlain(d: Delivery) {
    !d.payload.ReceiveMsg? && !d.payload.OfflineMessages?
  }

  ghost predicate AllPlain(out: seq<Delivery>) {
    forall i :: 0 <= i < |out| ==> IsPlain(out[i])
  }

  lemma GivenSnoc(log: seq<Delivery>, d: Delivery, id: int, user: int)
    ensures Given(log + [d], id, user) == Given(log, id, user) + Weight(d, id, user)
  {
    assert (log + [d])[..|log|] == log;
  }

  lemma {:induction false} GivenPlain(log: seq<Delivery>, out: seq<Delivery>, id: int, user: int)
    requires AllPlain(out)
    ensures Given(log + out, id, user) == Given(log, id, user)
    decreases |out|
  {
    if out == [] {
      assert log + out == log;
    } else {
      var n := |out| - 1;
      GivenPlain(log, out[..n], id, user);
      assert log + out == (log + out[..n]) + [out[n]];
      GivenSnoc(log + out[..n], out[n], id, user);
    }
  }

  lemma {:induction false} ToUsersPlain(p: Pool, users: seq<int>, payload: Payload)
    requires !payload.ReceiveMsg? && !payload.OfflineMessages?
    ensures AllPlain(ToUsers(p, users, payload))
    decreases |users|
  {
    if users != [] {
      ToUsersPlain(p, users[..|users| - 1], payload);
    }
  }

  predicate Stored(rows: seq<M.Message>, id: int) {
    exists i :: 0 <= i < |rows| && rows[i].id == id
  }

  lemma StoredLater(rows: seq<M.Message>, later: seq<M.Message>, id: int)
    requires |rows| <= |later| && forall i :: 0 <= i < |rows| ==> later[i].id == rows[i].id
    ensures Stored(rows, id) ==> Stored(later, id)
  {
    if i :| 0 <= i < |rows| && rows[i].id == id {
      assert later[i].id == id;
    }
  }

  /** Given to its recipient before the run began, according to the stored flag. */
  predicate GivenBefore(initial: seq<M.Message>, i: nat) {
    i < |initial| && initial[i].delivered
  }

  /**
   A private message has been given to its recipient exactly once, live or in one offline batch, if its row says
   delivered, and not at all if not (messages given in earlier runs of the server are not given again).
   */
  ghost predicate RowGivenOnce(st: Server, initial: seq<M.Message>, i: nat)
    requires i < |st.messages|
  {
    var m := st.messages[i];
    && (GivenBefore(initial, i) ==> m.delivered)
    && Given(st.log, m.id, m.to) == if m.delivered && !GivenBefore(initial, i) then 1 else 0
  }

  /** Of the private messages between different users all but those with these ids have been given as they should. */
  ghost predicate GivenExcept(st: Server, initial: seq<M.Message>, lost: set<int>) {
    && (forall i :: 0 <= i < |st.messages| && IsDirect(st.messages[i]) ==>
          (RowGivenOnce(st, initial, i) <==> st.messages[i].id !in lost))
    && (forall id, user :: !Stored(st.messages, id) ==> Given(st.log, id, user) == 0)
  }

  /** The rows agree on everything the invariant looks at. */
  ghost predicate SameDelivery(rows: seq<M.Message>, later: seq<M.Message>) {
    && |rows| == |later|
    && forall i :: 0 <= i < |rows| ==>
         && later[i].id == rows[i].id && later[i].sender == rows[i].sender && later[i].to == rows[i].to
         && later[i].group == rows[i].group && later[i].delivered == rows[i].delivered
  }

  lemma PlainKeepsGiven(st: Server, after: Server, out: seq<Delivery>, initial: seq<M.Message>, lost: set<int>)
    requires GivenExcept(st, initial, lost)
    requires SameDelivery(st.messages, after.messages)
    requires after.log == st.log + Fitting(st.fits, out) && AllPlain(out)
    ensures GivenExcept(after, initial, lost)
  {
    forall id, user
      ensures Given(after.log, id, user) == Given(st.log, id, user)
    {
      GivenPlain(st.log, Fitting(st.fits, out), id, user);
    }
    forall id | !Stored(after.messages, id)
      ensures !Stored(st.messages, id)
    {
      StoredLater(st.messages, after.messages, id);
    }
    forall i | 0 <= i < |after.messages| && IsDirect(after.messages[i])
      ensures RowGivenOnce(after, initial, i) <==> after.messages[i].id !in lost
    {
      assert IsDirect(st.messages[i]);
      assert RowGivenOnce(st, initial, i) <==> st.messages[i].id !in lost;
    }
  }

  lemma ConversationPlain(st: Server, payload: Payload, sender: int, to: int, group: int)
    requires !payload.ReceiveMsg? && !payload.OfflineMessages?
    ensures AllPlain(ToConversation(st, payload, sender, to, group))
  {
    ToUsersPlain(st.pool, C.Members(st.channels, group), payload);
  }

  lemma ChangeKeepsDelivery(rows: seq<M.Message>, c: M.Change)
    requires !c.MarkDelivered?
    ensures SameDelivery(rows, M.ChangeAll(rows, c))
  {
  }

  lemma ChangeGiven(st: Server, step: Step, initial: seq<M.Message>)
    requires GivenExcept(st, initial, {}) && IsChange(step)
    ensures GivenExcept(DoChange(st, step), initial, {})
  {
    var after, actor := DoChange(st, step), UserOf(st.pool, step.s);
    if ChangeAccepted(st, step) {
      var answer := AnswerTo(st, step, true);
      ConversationPlain(st, answer, actor, step.to, step.group);
      ChangeKeepsDelivery(st.messages, ChangeOf(st, step));
      PlainKeepsGiven(st, after, ToConversation(st, answer, actor, step.to, step.group), initial, {});
    } else {
      PlainKeepsGiven(st, after, Reply(st, step.s, AnswerTo(st, step, false)), initial, {});
    }
  }

  // ---------------------------------------------------------------- live messages

  /** A new row with a fresh id: deliveries of that message do not concern the others. */
  lemma FreshRowGiven(st: Server, after: Server, m: M.Message, out: seq<Delivery>, initial: seq<M.Message>)
    requires GivenExcept(st, initial, {}) && |initial| <= |st.messages|
    requires m.id == M.NextId(st.messages) && after.messages == st.messages + [m] && after.log == st.log + out
    requires forall id, user :: id != m.id ==> Given(st.log + out, id, user) == Given(st.log, id, user)
    ensures IsDirect(m) && Given(st.log + out, m.id, m.to) != (if m.delivered then 1 else 0) ==>
              GivenExcept(after, initial, {m.id})
    ensures IsDirect(m) && Given(st.log + out, m.id, m.to) == (if m.delivered then 1 else 0) ==>
              GivenExcept(after, initial, {})
    ensures !IsDirect(m) ==> GivenExcept(after, initial, {})
  {
    forall i | 0 <= i < |st.messages| && IsDirect(after.messages[i])
      ensures RowGivenOnce(after, initial, i) && after.messages[i].id != m.id
    {
      assert IsDirect(st.messages[i]);
      assert RowGivenOnce(st, initial, i);
    }
    forall id, user | !Stored(after.messages, id)
      ensures Given(after.log, id, user) == 0
    {
      assert after.messages[|st.messages|].id == m.id;
      StoredLater(st.messages, after.messages, id);
    }
  }

  lemma NextIdIsFresh(rows: seq<M.Message>)
    ensures !Stored(rows, M.NextId(rows))
  {
  }

  /** At most one live delivery and the echo add their weights. */
  lemma LiveAndEcho(log: seq<Delivery>, live: seq<Delivery>, echo: Delivery, id: int, user: int)
    requires |live| <= 1
    ensures Given(log + (live + [echo]), id, user)
            == Given(log, id, user) + (if live == [] then 0 else Weight(live[0], id, user)) + Weight(echo, id, user)
  {
    assert log + (live + [echo]) == (log + live) + [echo];
    GivenSnoc(log + live, echo, id, user);
    if live == [] {
      assert log + live == log;
    } else {
      assert live == [live[0]];
      GivenSnoc(log, live[0], id, user);
    }
  }

  predicate PrivateAccepted(st: Server, s: nat, to: int, content: string) {
    UserOf(st.pool, s) > 0 && to > 0 && content != ""
  }

  /** The message a private send stores. */
  function StoredPrivate(st: Server, s: nat, to: int, content: string, contentType: string, now: int): M.Message {
    M.PrivateMessage(st.messages, UserOf(st.pool, s), to, content, contentType, now, FindByUser(st.pool, to).Some?)
  }

  /** The row is stored as delivered, and then the payload does not fit. */
  predicate LosesLive(st: Server, s: nat, to: int, content: string, contentType: string, now: int) {
    && PrivateAccepted(st, s, to, content) && UserOf(st.pool, s) != to && FindByUser(st.pool, to).Some?
    && !st.fits(ReceiveMsg(StoredPrivate(st, s, to, content, contentType, now)))
  }

  /** A private message is given as its row says, unless it is lost. */
  lemma SendPrivateGiven(st: Server, s: nat, to: int, content: string, contentType: string, now: int,
                         initial: seq<M.Message>)
    requires GivenExcept(st, initial, {}) && |initial| <= |st.messages|
    ensures GivenExcept(DoSendPrivate(st, s, to, content, contentType, now), initial,
                        if LosesLive(st, s, to, content, contentType, now) then {M.NextId(st.messages)} else {})
  {
    var after := DoSendPrivate(st, s, to, content, contentType, now);
    if !PrivateAccepted(st, s, to, content) {
      PlainKeepsGiven(st, after, Reply(st, s, Notice("fromId, toId and msg required")), initial, {});
    } else {
      var m := StoredPrivate(st, s, to, content, contentType, now);
      var live, echo := ToUser(st.pool, to, ReceiveMsg(m)), Reply(st, s, ReceiveMsg(m));
      FittingAlike(st.fits, live + echo, ReceiveMsg(m));
      NextIdIsFresh(st.messages);
      assert Given(st.log, m.id, m.to) == 0;
      if st.fits(ReceiveMsg(m)) {
        forall id, user
          ensures id != m.id ==> Given(st.log + (live + echo), id, user) == Given(st.log, id, user)
          ensures id == m.id && user == to != m.sender ==>
                    Given(st.log + (live + echo), id, user) == Given(st.log, id, user) + if live == [] then 0 else 1
        {
          LiveAndEcho(st.log, live, echo[0], id, user);
        }
        FreshRowGiven(st, after, m, live + echo, initial);
      } else {
        assert st.log + [] == st.log;
        FreshRowGiven(st, after, m, [], initial);
      }
    }
  }

  lemma SendGroupGiven(st: Server, s: nat, group: int, content: string, contentType: string, now: int,
                       initial: seq<M.Message>)
    requires GivenExcept(st, initial, {}) && |initial| <= |st.messages|
    ensures GivenExcept(DoSendGroup(st, s, group, content, contentType, now), initial, {})
  {
    var sender := UserOf(st.pool, s);
    var after := DoSendGroup(st, s, group, content, contentType, now);
    if sender <= 0 || group <= 0 || content == "" {
      PlainKeepsGiven(st, after, Reply(st, s, Notice("fromId, groupId and msg required")), initial, {});
    } else {
      var m := M.GroupMessage(st.messages, sender, group, content, contentType, now);
      var out := ToUsers(st.pool, C.Members(st.channels, group), ReceiveGroupMsg(m));
      var queued := Fitting(st.fits, out);
      ToUsersPlain(st.pool, C.Members(st.channels, group), ReceiveGroupMsg(m));
      forall id, user
        ensures Given(st.log + queued, id, user) == Given(st.log, id, user)
      {
        GivenPlain(st.log, queued, id, user);
      }
      FreshRowGiven(st, after, m, queued, initial);
    }
  }

  // ---------------------------------------------------------------- offline batches

  /** A batch that fits adds to each message its occurrences in the batch; one that does not adds nothing. */
  lemma BatchGiven(st: Server, s: nat, user: int, batch: seq<M.Message>, id: int, u: int)
    ensures Given(DeliverOffline(st, s, user, batch).log, id, u)
            == Given(st.log, id, u)
               + if u == user && st.fits(OfflineMessages(batch)) then M.CountId(batch, id) else 0
  {
    var d := Delivery(s, user, OfflineMessages(batch));
    var after := DeliverOffline(st, s, user, batch);
    FittingAlike(st.fits, BatchDelivery(s, user, batch), OfflineMessages(batch));
    if batch == [] || !st.fits(OfflineMessages(batch)) {
      assert after.log == st.log + [] == st.log;
      assert batch == [] ==> M.CountId(batch, id) == 0;
    } else {
      assert after.log == st.log + [d];
      GivenSnoc(st.log, d, id, u);
      assert Weight(d, id, u) == if u == user then M.CountId(batch, id) else 0;
    }
  }

  /** The ids of a batch that is marked as delivered and does not fit. */
  ghost function LostBatch(st: Server, batch: seq<M.Message>): set<int> {
    if st.fits(OfflineMessages(batch)) then {} else set k | 0 <= k < |batch| :: batch[k].id
  }

  lemma InLostBatch(st: Server, batch: seq<M.Message>, id: int)
    ensures id in LostBatch(st, batch) <==> M.InBatch(id, batch) && !st.fits(OfflineMessages(batch))
  {
    if k :| 0 <= k < |batch| && batch[k].id == id {
      assert st.fits(OfflineMessages(batch)) || batch[k].id in LostBatch(st, batch);
    }
  }

  /** After a batch, a row is given as it says exactly if it was not in the batch or the batch fits. */
  lemma BatchRowGiven(st: Server, s: nat, user: int, sorted: seq<M.Message>, limit: int, initial: seq<M.Message>,
                      i: nat)
    requires GivenExcept(st, initial, {}) && M.WellStored(st.messages)
    requires M.Sorts(M.PendingFor(st.messages, user), sorted) && i < |st.messages| && IsDirect(st.messages[i])
    ensures var batch := M.Trim(sorted, limit);
            RowGivenOnce(DeliverOffline(st, s, user, batch), initial, i)
            <==> !M.InBatch(st.messages[i].id, batch) || st.fits(OfflineMessages(batch))
  {
    var m, batch := st.messages[i], M.Trim(sorted, limit);
    var after := DeliverOffline(st, s, user, batch);
    assert after.messages == M.MarkBatch(st.messages, batch);
    assert RowGivenOnce(st, initial, i);
    M.BatchIsPending(st.messages, user, sorted, limit);
    M.TrimmedStayPending(st.messages, user, sorted, limit, i);
    M.CountIdOne(batch, m.id);
    BatchGiven(st, s, user, batch, m.id, m.to);
  }

  lemma OfflineGiven(st: Server, s: nat, user: int, sorted: seq<M.Message>, limit: int, initial: seq<M.Message>)
    requires GivenExcept(st, initial, {}) && M.WellStored(st.messages)
    requires M.Sorts(M.PendingFor(st.messages, user), sorted)
    ensures var batch := M.Trim(sorted, limit);
            GivenExcept(DeliverOffline(st, s, user, batch), initial, LostBatch(st, batch))
  {
    var batch := M.Trim(sorted, limit);
    var after := DeliverOffline(st, s, user, batch);
    assert after.messages == M.MarkBatch(st.messages, batch);
    M.BatchIsPending(st.messages, user, sorted, limit);
    forall i | 0 <= i < |after.messages| && IsDirect(after.messages[i])
      ensures RowGivenOnce(after, initial, i) <==> after.messages[i].id !in LostBatch(st, batch)
    {
      assert IsDirect(st.messages[i]);
      BatchRowGiven(st, s, user, sorted, limit, initial, i);
      InLostBatch(st, batch, st.messages[i].id);
    }
    forall id, u | !Stored(after.messages, id)
      ensures Given(after.log, id, u) == 0
    {
      StoredLater(st.messages, after.messages, id);
      InBatchStored(st.messages, batch, id);
      M.CountIdZero(batch, id);
      BatchGiven(st, s, user, batch, id, u);
    }
  }

  lemma InBatchStored(rows: seq<M.Message>, batch: seq<M.Message>, id: int)
    requires forall k :: 0 <= k < |batch| ==> batch[k] in rows
    ensures M.InBatch(id, batch) ==> Stored(rows, id)
  {
    if k :| 0 <= k < |batch| && batch[k].id == id {
      var i :| 0 <= i < |rows| && rows[i] == batch[k];
      assert rows[i].id == id;
    }
  }

  /** Payloads that concern no message at all. */
  predicate IsNotice(payload: Payload) {
    payload.Notice? || payload.LoginReturn? || payload.UserOffline? || payload.FriendStatus?
  }

  ghost predicate AllNotices(out: seq<Delivery>) {
    forall i :: 0 <= i < |out| ==> IsNotice(out[i].payload)
  }

  lemma FriendNotices(st: Server, user: int, online: bool, friends: seq<int>)
    ensures AllNotices(FriendNotice(st, user, online, friends))
  {
    var found := Find(st.users, user);
    if found != [] {
      FanOutPayload(st.pool, friends, FriendStatus(user, found[0].nickname, online));
    }
  }

  lemma ReplyGiven(st: Server, s: nat, user: int, now: int, friends: seq<int>, initial: seq<M.Message>)
    requires GivenExcept(st, initial, {})
    ensures GivenExcept(LoggedIn(st, s, user, now, friends), initial, {})
  {
    var bound := Bound(st, s, user, now);
    PlainKeepsGiven(st, LoggedIn(st, s, user, now, friends), Reply(bound, s, LoginReply(bound, user, friends)),
                    initial, {});
  }

  lemma FriendsToldGiven(st: Server, user: int, friends: seq<int>, initial: seq<M.Message>, lost: set<int>)
    requires GivenExcept(st, initial, lost)
    ensures GivenExcept(Sent(st, FriendNotice(st, user, true, friends)), initial, lost)
  {
    FriendNotices(st, user, true, friends);
    PlainKeepsGiven(st, Sent(st, FriendNotice(st, user, true, friends)), FriendNotice(st, user, true, friends),
                    initial, lost);
  }

  lemma LoginGiven(st: Server, step: Step, initial: seq<M.Message>)
    requires GivenExcept(st, initial, {}) && M.WellStored(st.messages) && step.Login?
    requires M.Sorts(M.PendingFor(st.messages, step.user), step.sorted)
    ensures GivenExcept(Next(st, step), initial, Lost(st, step))
  {
    if !LoginAccepted(st, step.user, step.passwordOk) {
      PlainKeepsGiven(st, Next(st, step), Reply(st, step.s, Notice("invalid credentials")), initial, {});
    } else {
      var replied := LoggedIn(st, step.s, step.user, step.now, step.friends);
      ReplyGiven(st, step.s, step.user, step.now, step.friends, initial);
      if !replied.down {
        var batch := M.Trim(step.sorted, step.limit);
        var given := DeliverOffline(replied, step.s, step.user, batch);
        OfflineGiven(replied, step.s, step.user, step.sorted, step.limit, initial);
        assert LostBatch(replied, batch) == Lost(st, step);
        if !given.down {
          FriendsToldGiven(given, step.user, step.friends, initial, Lost(st, step));
        }
      }
    }
  }

  /** What a login queues: its reply, its batch and notices to friends. */
  lemma LoginQueues(st: Server, step: Step)
    requires step.Login?
    ensures var after := Next(st, step);
            && st.log <= after.log
            && forall k :: |st.log| <= k < |after.log| ==> IsNotice(after.log[k].payload)
                                                           || after.log[k].payload.OfflineMessages?
  {
    if LoginAccepted(st, step.user, step.passwordOk) {
      var replied := LoggedIn(st, step.s, step.user, step.now, step.friends);
      if !replied.down {
        var given := DeliverOffline(replied, step.s, step.user, M.Trim(step.sorted, step.limit));
        FriendNotices(given, step.user, true, step.friends);
      }
    }
  }

  lemma HistoryGiven(st: Server, s: nat, readId: int, batch: seq<M.Message>, initial: seq<M.Message>)
    requires GivenExcept(st, initial, {})
    ensures GivenExcept(DoHistory(st, s, readId, batch), initial, {})
  {
    ChangeKeepsDelivery(st.messages, M.MarkRead(readId, 0));
    PlainKeepsGiven(st, DoHistory(st, s, readId, batch), Reply(st, s, HistoryResponse(batch)), initial, {});
  }

  /** What steps that leave the messages alone send. */
  function QuietOutput(st: Server, step: Step): seq<Delivery> {
    match step
    case Disconnect(s, now, order) =>
      var user := if s in st.pool.pooled then UserOf(st.pool, s) else 0;
      if user > 0 then OfflineNotice(OfflineUser(st.(pool := Remove(st.pool, s)), user, now), user, order) else []
    case Register(s, _, _, _, reply) => Reply(st, s, Notice(reply))
    case Logout(s, now, friends) =>
      var user := UserOf(st.pool, s);
      var after := if user > 0 then OfflineUser(st, user, now).(pool := Unbind(st.pool, user)) else st;
      (if user > 0 then FriendNotice(after, user, false, friends) else []) + Reply(after, s, Notice("logged out"))
    case UpdateProfile(s, nickname, _) =>
      var user := UserOf(st.pool, s);
      Reply(st, s, Notice(if user <= 0 || nickname == "" then "id and nickname required"
                          else if Known(st.users, user) then "profile updated" else "user not found"))
    case CreateGroup(s, _, _, reply) => Reply(st, s, Notice(reply))
    case JoinGroup(s, _, _, reply) => Reply(st, s, Notice(reply))
    case LeaveGroup(s, _) => Reply(st, s, Notice("left group"))
    case _ => []
  }

  predicate IsQuiet(step: Step) {
    !IsChange(step) && !step.RequestHistory? && !step.Login? && !step.SendPrivate? && !step.SendGroup?
  }

  lemma QuietSends(st: Server, step: Step)
    requires IsQuiet(step)
    ensures Next(st, step).messages == st.messages
    ensures Next(st, step).log == st.log + Fitting(st.fits, QuietOutput(st, step))
    ensures AllNotices(QuietOutput(st, step))
  {
    if step.Logout? {
      LogoutSends(st, step);
    }
  }

  lemma LogoutSends(st: Server, step: Step)
    requires step.Logout?
    ensures Next(st, step).log == st.log + Fitting(st.fits, QuietOutput(st, step))
    ensures AllNotices(QuietOutput(st, step))
  {
    var user, reply := UserOf(st.pool, step.s), Reply(st, step.s, Notice("logged out"));
    if user > 0 {
      FriendNotices(OfflineUser(st, user, step.now).(pool := Unbind(st.pool, user)), user, false, step.friends);
    } else {
      assert [] + reply == reply;
    }
  }

  lemma QuietGiven(st: Server, step: Step, initial: seq<M.Message>)
    requires GivenExcept(st, initial, {}) && IsQuiet(step)
    ensures GivenExcept(Next(st, step), initial, {})
  {
    QuietSends(st, step);
    PlainKeepsGiven(st, Next(st, step), QuietOutput(st, step), initial, {});
  }

  // ---------------------------------------------------------------- every step and every run

  /** The ids of the messages a step stores as delivered without giving them to anybody. */
  ghost function Lost(st: Server, step: Step): set<int> {
    match step
    case Login(_, _, _, _, sorted, limit, _) =>
      if LoginMarks(st, step) then LostBatch(st, M.Trim(sorted, limit)) else {}
    case SendPrivate(s, to, content, contentType, now) =>
      if LosesLive(st, s, to, content, contentType, now) then {M.NextId(st.messages)} else {}
    case _ => {}
  }

  /** Every step gives exactly what the rows then say, except the messages it loses. */
  lemma StepGiven(st: Server, step: Step, initial: seq<M.Message>)
    requires GivenExcept(st, initial, {}) && M.WellStored(st.messages) && |initial| <= |st.messages|
    requires Enabled(st, step)
    ensures GivenExcept(Next(st, step), initial, Lost(st, step))
  {
    if step.Login? {
      LoginGiven(st, step, initial);
    } else if step.SendPrivate? {
      SendPrivateGiven(st, step.s, step.to, step.content, step.contentType, step.now, initial);
    } else if step.SendGroup? {
      SendGroupGiven(st, step.s, step.group, step.content, step.contentType, step.now, initial);
    } else if step.RequestHistory? {
      HistoryGiven(st, step.s, step.readId, M.Trim(step.sorted, if step.limit < 1 then 1 else step.limit), initial);
    } else if IsChange(step) {
      ChangeGiven(st, step, initial);
    } else {
      QuietGiven(st, step, initial);
    }
  }

  /** A loss stops the server. */
  lemma LossStops(st: Server, step: Step)
    requires Lost(st, step) != {}
    ensures Next(st, step).down
  {
    if step.SendPrivate? {
      var m := StoredPrivate(st, step.s, step.to, step.content, step.contentType, step.now);
      var out := ToUser(st.pool, step.to, ReceiveMsg(m)) + Reply(st, step.s, ReceiveMsg(m));
      FittingAlike(st.fits, out, ReceiveMsg(m));
    } else {
      var batch := M.Trim(step.sorted, step.limit);
      FittingAlike(st.fits, BatchDelivery(step.s, step.user, batch), OfflineMessages(batch));
    }
  }

  /** Only messages not yet delivered are lost. */
  lemma LossIsNew(st: Server, step: Step, i: nat)
    requires M.WellStored(st.messages) && Enabled(st, step) && i < |st.messages|
    requires st.messages[i].id in Lost(st, step)
    ensures !st.messages[i].delivered
  {
    if step.Login? {
      var batch := M.Trim(step.sorted, step.limit);
      InLostBatch(st, batch, st.messages[i].id);
      M.TrimmedStayPending(st.messages, step.user, step.sorted, step.limit, i);
    }
  }

  /** Over every run nothing is lost while the server is up, and nothing already delivered is ever lost. */
  lemma {:induction false} GivenAlways(st: Server, steps: seq<Step>, initial: seq<M.Message>) returns (lost: set<int>)
    requires GivenExcept(st, initial, {}) && TablesSound(st) && |initial| <= |st.messages| && CanRun(st, steps)
    ensures GivenExcept(Run(st, steps), initial, lost)
    ensures !Run(st, steps).down ==> lost == {}
    ensures forall i :: 0 <= i < |st.messages| && st.messages[i].delivered ==> st.messages[i].id !in lost
    decreases |steps|
  {
    if steps == [] {
      lost := {};
    } else {
      var next := Next(st, steps[0]);
      StepGiven(st, steps[0], initial);
      StepTables(st, steps[0]);
      if |steps| == 1 {
        assert Run(st, steps) == next;
        lost := Lost(st, steps[0]);
        forall i | 0 <= i < |st.messages| && st.messages[i].delivered
          ensures st.messages[i].id !in lost
        {
          if st.messages[i].id in lost {
            LossIsNew(st, steps[0], i);
          }
        }
        if lost != {} {
          LossStops(st, steps[0]);
        }
      } else {
        assert Enabled(next, steps[1..][0]);
        if Lost(st, steps[0]) != {} {
          LossStops(st, steps[0]);
        }
        lost := GivenAlways(next, steps[1..], initial);
        forall i | 0 <= i < |st.messages| && st.messages[i].delivered
          ensures st.messages[i].id !in lost
        {
          assert M.Evolves(st.messages[i], next.messages[i]);
        }
      }
    }
  }

  lemma BootedGiven(st: Server)
    requires Booted(st)
    ensures GivenExcept(st, st.messages, {})
  {
    forall i | 0 <= i < |st.messages|
      ensures RowGivenOnce(st, st.messages, i)
    {
    }
  }

  /**
   Over every run of a server, on whatever database it started, as long as it is up: each private message between
   different users has been queued for its recipient exactly once if its row is marked delivered (and was not so at
   the start), and never otherwise.
   */
  lemma DeliveredExactlyOnce(st: Server, steps: seq<Step>, i: nat)
    requires Booted(st) && TablesSound(st) && CanRun(st, steps) && !Run(st, steps).down
    requires i < |Run(st, steps).messages| && IsDirect(Run(st, steps).messages[i])
    ensures var now := Run(st, steps);
            Given(now.log, now.messages[i].id, now.messages[i].to)
            == if now.messages[i].delivered && !GivenBefore(st.messages, i) then 1 else 0
  {
    BootedGiven(st);
    var lost := GivenAlways(st, steps, st.messages);
    assert RowGivenOnce(Run(st, steps), st.messages, i);
  }

  /**
   Whatever the next step is, afterwards each private message has been given as its row says exactly if the step does
   not lose it: if it is not in an offline batch that does not fit, nor itself a live message that does not fit.
   */
  lemma LossIsExact(st: Server, steps: seq<Step>, step: Step, i: nat)
    requires Booted(st) && TablesSound(st) && CanRun(st, steps) && Enabled(Run(st, steps), step)
    requires var after := Next(Run(st, steps), step); i < |after.messages| && IsDirect(after.messages[i])
    ensures var after := Next(Run(st, steps), step);
            RowGivenOnce(after, st.messages, i) <==> after.messages[i].id !in Lost(Run(st, steps), step)
  {
    BootedGiven(st);
    MessagesOnlyEvolve(st, steps);
    var lost := GivenAlways(st, steps, st.messages);
    StepGiven(Run(st, steps), step, st.messages);
  }

  /** A message stored as delivered when the server starts is not given to anybody in this run. */
  lemma NeverGivenAgain(st: Server, steps: seq<Step>, i: nat)
    requires Booted(st) && TablesSound(st) && CanRun(st, steps)
    requires i < |st.messages| && IsDirect(st.messages[i]) && st.messages[i].delivered
    ensures Given(Run(st, steps).log, st.messages[i].id, st.messages[i].to) == 0
  {
    BootedGiven(st);
    MessagesOnlyEvolve(st, steps);
    var lost := GivenAlways(st, steps, st.messages);
    assert M.Evolves(st.messages[i], Run(st, steps).messages[i]);
    assert RowGivenOnce(Run(st, steps), st.messages, i);
  }

  /** A lost message is stored as delivered, nobody has been given it, and the server has stopped. */
  ghost predicate IsLost(here: Server, after: Server, i: nat)
    requires i < |after.messages|
  {
    var m := after.messages[i];
    && m.delivered && after.down && Given(after.log, m.id, m.to) == 0
    && (i < |here.messages| ==> !here.messages[i].delivered)
  }

  lemma BatchIsLost(here: Server, step: Step, initial: seq<M.Message>, i: nat)
    requires GivenExcept(here, initial, {}) && TablesSound(here) && Enabled(here, step) && step.Login?
    requires i < |here.messages| && IsDirect(here.messages[i]) && here.messages[i].id in Lost(here, step)
    ensures i < |Next(here, step).messages| && IsLost(here, Next(here, step), i)
  {
    var after := Next(here, step);
    LossIsNew(here, step, i);
    LossStops(here, step);
    LoginRows(here, step);
    InLostBatch(here, M.Trim(step.sorted, step.limit), here.messages[i].id);
    NothingQueued(here, step);
    assert RowGivenOnce(here, initial, i);
    GivenPlain(here.log, after.log[|here.log|..], here.messages[i].id, here.messages[i].to);
  }

  lemma LiveIsLost(here: Server, step: Step, initial: seq<M.Message>)
    requires GivenExcept(here, initial, {}) && step.SendPrivate? && Lost(here, step) != {}
    ensures var after := Next(here, step);
            && |after.messages| == |here.messages| + 1 && IsLost(here, after, |here.messages|)
            && Lost(here, step) == {after.messages[|here.messages|].id}
  {
    var m := StoredPrivate(here, step.s, step.to, step.content, step.contentType, step.now);
    var out := ToUser(here.pool, step.to, ReceiveMsg(m)) + Reply(here, step.s, ReceiveMsg(m));
    assert Next(here, step) == DoSendPrivate(here, step.s, step.to, step.content, step.contentType, step.now);
    FittingAlike(here.fits, out, ReceiveMsg(m));
    assert here.log + [] == here.log;
    NextIdIsFresh(here.messages);
  }

  /**
   A message lost with an oversized batch or as an oversized live message: its row says delivered and did not before,
   nobody was given it, the server has stopped, and no run after a restart on the stored rows gives it to anybody.
   */
  lemma LostForGood(st: Server, steps: seq<Step>, here: Server, step: Step, after: Server, i: nat,
                    again: Server, later: seq<Step>)
    requires Booted(st) && TablesSound(st) && CanRun(st, steps) && here == Run(st, steps)
    requires Enabled(here, step) && after == Next(here, step)
    requires i < |after.messages| && IsDirect(after.messages[i]) && after.messages[i].id in Lost(here, step)
    requires Restarted(after, again) && CanRun(again, later)
    ensures IsLost(here, after, i)
    ensures Given(Run(again, later).log, after.messages[i].id, after.messages[i].to) == 0
  {
    MessagesOnlyEvolve(st, steps);
    StepTables(here, step);
    BootedGiven(st);
    var lost := GivenAlways(st, steps, st.messages);
    if step.Login? {
      LoginRows(here, step);
      BatchIsLost(here, step, st.messages, i);
    } else {
      LiveIsLost(here, step, st.messages);
      assert i == |here.messages|;
    }
    NeverGivenAgain(again, later, i);
  }

  /** One pending message whose batch does not fit is enough: its recipient's first login loses it. */
  lemma OneMessageLost(st: Server, m: M.Message)
    requires Booted(st) && st.messages == [m] && IsDirect(m) && !m.delivered && m.to > 0 && Known(st.users, m.to)
    requires st.fits(LoginReply(Bound(st, 0, m.to, 0), m.to, [])) && !st.fits(OfflineMessages([m]))
    ensures var step := Login(0, m.to, true, 0, [m], 100, []);
            Enabled(st, step) && Lost(st, step) == {m.id}
  {
    var step, bound := Login(0, m.to, true, 0, [m], 100, []), Bound(st, 0, m.to, 0);
    assert st.messages[..0] == [] && M.PendingFor(st.messages, m.to) == [] + [m] == [m];
    var reply := LoginReply(bound, m.to, []);
    FittingAlike(st.fits, Reply(bound, 0, reply), reply);
    assert !LoggedIn(st, 0, m.to, 0, []).down && M.Trim([m], 100) == [m];
    InLostBatch(st, [m], m.id);
    assert LostBatch(st, [m]) == {[m][0].id};
  }

  /** A login that loses its batch has queued nothing but its reply. */
  lemma NothingQueued(st: Server, step: Step)
    requires step.Login? && Lost(st, step) != {}
    ensures var after := Next(st, step);
            |st.log| <= |after.log| && after.log == st.log + after.log[|st.log|..] && AllPlain(after.log[|st.log|..])
  {
    var batch := M.Trim(step.sorted, step.limit);
    FittingAlike(st.fits, BatchDelivery(step.s, step.user, batch), OfflineMessages(batch));
    var replied := LoggedIn(st, step.s, step.user, step.now, step.friends);
    assert DeliverOffline(replied, step.s, step.user, batch).log == replied.log + [] == replied.log;
  }

  // ---------------------------------------------------------------- group messages

  function CountTo(out: seq<Delivery>, session: nat): nat {
    if out == [] then 0 else CountTo(out[..|out| - 1], session) + if out[|out| - 1].session == session then 1 else 0
  }

  lemma CountToAppend(out: seq<Delivery>, more: seq<Delivery>, session: nat)
    requires |more| <= 1
    ensures CountTo(out + more, session) == CountTo(out, session) + CountTo(more, session)
  {
    if more == [] {
      assert out + more == out;
    } else {
      assert (out + more)[..|out|] == out && more[..0] == [];
    }
  }

  /** The session is the one recorded for a user in the list. */
  predicate Reaches(p: Pool, users: seq<int>, session: nat) {
    UserOf(p, session) in users && FindByUser(p, UserOf(p, session)) == Some(session)
  }

  lemma {:induction false} FanOutOnce(p: Pool, users: seq<int>, payload: Payload, session: nat)
    requires Forward(p) && C.NoDuplicates(users)
    ensures CountTo(ToUsers(p, users, payload), session) == if Reaches(p, users, session) then 1 else 0
    decreases |users|
  {
    if users != [] {
      var n := |users| - 1;
      var before, last := users[..n], ToUser(p, users[n], payload);
      FanOutOnce(p, before, payload, session);
      CountToAppend(ToUsers(p, before, payload), last, session);
      assert users == before + [users[n]];
      assert users[n] !in before;
      assert CountTo(last, session) == if FindByUser(p, users[n]) == Some(session) then 1 else 0 by {
        if last != [] {
          assert last[..0] == [];
        }
      }
      LookupsAreFresh(p, users[n], UserOf(p, session));
    }
  }

  lemma {:induction false} FanOutPayload(p: Pool, users: seq<int>, payload: Payload)
    ensures forall k :: 0 <= k < |ToUsers(p, users, payload)| ==> ToUsers(p, users, payload)[k].payload == payload
    decreases |users|
  {
    if users != [] {
      FanOutPayload(p, users[..|users| - 1], payload);
    }
  }

  /** The message a group send stores. */
  function StoredGroup(st: Server, s: nat, group: int, content: string, contentType: string, now: int): M.Message {
    M.GroupMessage(st.messages, UserOf(st.pool, s), group, content, contentType, now)
  }

  ghost predicate SomeoneOnline(p: Pool, users: seq<int>) {
    exists u :: u in users && FindByUser(p, u).Some?
  }

  /**
   The step queued the message once on the session of each member who has one and on no other session, if it fits;
   if not, it queued nothing, and it stopped the server exactly if some member has a session.
   */
  ghost predicate FannedOut(st: Server, after: Server, m: M.Message, group: int, session: nat) {
    var members, fits := C.Members(st.channels, group), st.fits(ReceiveGroupMsg(m));
    && st.log <= after.log
    && CountTo(after.log[|st.log|..], session) == (if fits && Reaches(st.pool, members, session) then 1 else 0)
    && (forall k :: |st.log| <= k < |after.log| ==> after.log[k].payload == ReceiveGroupMsg(m))
    && (after.down <==> !fits && SomeoneOnline(st.pool, members))
  }

  lemma {:induction false} FanOutEmpty(p: Pool, users: seq<int>, payload: Payload)
    ensures ToUsers(p, users, payload) == [] <==> !SomeoneOnline(p, users)
    decreases |users|
  {
    if users != [] {
      var n := |users| - 1;
      FanOutEmpty(p, users[..n], payload);
      assert users == users[..n] + [users[n]];
    }
  }

  lemma GroupFanOut(st: Server, s: nat, group: int, content: string, contentType: string, now: int, session: nat)
    requires Forward(st.pool) && C.Sound(st.channels) && !st.down
    requires UserOf(st.pool, s) > 0 && group > 0 && content != ""
    ensures FannedOut(st, DoSendGroup(st, s, group, content, contentType, now),
                      StoredGroup(st, s, group, content, contentType, now), group, session)
  {
    var m := StoredGroup(st, s, group, content, contentType, now);
    var users := C.Members(st.channels, group);
    var out := ToUsers(st.pool, users, ReceiveGroupMsg(m));
    FanOutPayload(st.pool, users, ReceiveGroupMsg(m));
    FanOutEmpty(st.pool, users, ReceiveGroupMsg(m));
    FittingAlike(st.fits, out, ReceiveGroupMsg(m));
    var queued := Fitting(st.fits, out);
    assert (st.log + queued)[|st.log|..] == queued;
    C.MembersAndGroupsAreInverse(st.channels, 0, group);
    FanOutOnce(st.pool, users, ReceiveGroupMsg(m), session);
    var after := DoSendGroup(st, s, group, content, contentType, now);
    assert after.log == st.log + queued && (after.down <==> |queued| < |out|);
    forall k | |st.log| <= k < |after.log|
      ensures after.log[k].payload == ReceiveGroupMsg(m)
    {
      assert after.log[k] == queued[k - |st.log|] == out[k - |st.log|];
    }
  }

  /**
   In every reachable state an accepted group message that fits reaches each online member's session exactly once and
   no other session; one that does not fit reaches nobody.
   */
  lemma GroupMessageReachesMembersOnce(st: Server, steps: seq<Step>, s: nat, group: int, content: string,
                                       contentType: string, now: int, session: nat, here: Server)
    requires Booted(st) && TablesSound(st) && CanRun(st, steps) && here == Run(st, steps) && !here.down
    requires UserOf(here.pool, s) > 0 && group > 0 && content != ""
    ensures FannedOut(here, DoSendGroup(here, s, group, content, contentType, now),
                      StoredGroup(here, s, group, content, contentType, now), group, session)
  {
    ForwardAlways(st, steps);
    MessagesOnlyEvolve(st, steps);
    GroupFanOut(here, s, group, content, contentType, now, session);
  }
}
