/** The server and its connections together: what is queued on a session is what that session's client emits. */
module EndToEnd {
  import opened Basics
  import opened Octets
  import Frames
  import opened Sessions
  import opened Router
  import opened ServerDelivery
  import M = Messages
  import C = Channels
  import Channel

  // ---------------------------------------------------------------- everything in the log fits

  lemma SentFits(st: Server, out: seq<Delivery>)
    requires AllFit(st.fits, st.log)
    ensures AllFit(st.fits, Sent(st, out).log)
  {
    FittingExact(st.fits, out);
  }

  lemma LoginFits(st: Server, step: Step)
    requires AllFit(st.fits, st.log) && step.Login?
    ensures Next(st, step).fits == st.fits && AllFit(st.fits, Next(st, step).log)
  {
    if !LoginAccepted(st, step.user, step.passwordOk) {
      SentFits(st, Reply(st, step.s, Notice("invalid credentials")));
    } else {
      var bound := Bound(st, step.s, step.user, step.now);
      var replied := LoggedIn(st, step.s, step.user, step.now, step.friends);
      SentFits(bound, Reply(bound, step.s, LoginReply(bound, step.user, step.friends)));
      if !replied.down {
        var batch := M.Trim(step.sorted, step.limit);
        SentFits(replied.(messages := M.MarkBatch(replied.messages, batch)), BatchDelivery(step.s, step.user, batch));
        var given := DeliverOffline(replied, step.s, step.user, batch);
        if !given.down {
          SentFits(given, FriendNotice(given, step.user, true, step.friends));
        }
      }
    }
  }

  /** What a change request sends. */
  function ChangeOutput(st: Server, step: Step): seq<Delivery>
    requires IsChange(step)
  {
    if ChangeAccepted(st, step)
    then ToConversation(st, AnswerTo(st, step, true), UserOf(st.pool, step.s), step.to, step.group)
    else Reply(st, step.s, AnswerTo(st, step, false))
  }

  function PrivateOutput(st: Server, s: nat, to: int, content: string, contentType: string, now: int): seq<Delivery> {
    if !PrivateAccepted(st, s, to, content) then Reply(st, s, Notice("fromId, toId and msg required"))
    else
      var payload := ReceiveMsg(StoredPrivate(st, s, to, content, contentType, now));
      ToUser(st.pool, to, payload) + Reply(st, s, payload)
  }

  function GroupOutput(st: Server, s: nat, group: int, content: string, contentType: string, now: int): seq<Delivery> {
    if UserOf(st.pool, s) <= 0 || group <= 0 || content == ""
    then Reply(st, s, Notice("fromId, groupId and msg required"))
    else
      ToUsers(st.pool, C.Members(st.channels, group),
              ReceiveGroupMsg(StoredGroup(st, s, group, content, contentType, now)))
  }

  /** What each step other than a login sends, all at its end. */
  function AllOutput(st: Server, step: Step): seq<Delivery>
    requires !step.Login?
  {
    if IsChange(step) then ChangeOutput(st, step)
    else if step.SendPrivate? then PrivateOutput(st, step.s, step.to, step.content, step.contentType, step.now)
    else if step.SendGroup? then GroupOutput(st, step.s, step.group, step.content, step.contentType, step.now)
    else if step.RequestHistory?
    then Reply(st, step.s, HistoryResponse(M.Trim(step.sorted, if step.limit < 1 then 1 else step.limit)))
    else QuietOutput(st, step)
  }

  /** The step sends this, as far as it fits. */
  ghost predicate JustSends(st: Server, after: Server, out: seq<Delivery>) {
    after.fits == st.fits && after.log == st.log + Fitting(st.fits, out)
  }

  lemma PrivateSends(st: Server, s: nat, to: int, content: string, contentType: string, now: int)
    ensures JustSends(st, DoSendPrivate(st, s, to, content, contentType, now),
                      PrivateOutput(st, s, to, content, contentType, now))
  {
  }

  lemma GroupSends(st: Server, s: nat, group: int, content: string, contentType: string, now: int)
    ensures JustSends(st, DoSendGroup(st, s, group, content, contentType, now),
                      GroupOutput(st, s, group, content, contentType, now))
  {
  }

  lemma ChangeSends(st: Server, step: Step)
    requires IsChange(step)
    ensures JustSends(st, DoChange(st, step), ChangeOutput(st, step))
  {
  }

  lemma StepSends(st: Server, step: Step)
    requires !step.Login?
    ensures JustSends(st, Next(st, step), AllOutput(st, step))
  {
    if step.SendPrivate? {
      PrivateSends(st, step.s, step.to, step.content, step.contentType, step.now);
    } else if step.SendGroup? {
      GroupSends(st, step.s, step.group, step.content, step.contentType, step.now);
    } else if IsChange(step) {
      ChangeSends(st, step);
      assert Next(st, step) == DoChange(st, step);
    } else if !step.RequestHistory? {
      QuietSends(st, step);
    }
  }

  lemma StepFits(st: Server, step: Step)
    requires AllFit(st.fits, st.log)
    ensures Next(st, step).fits == st.fits && AllFit(st.fits, Next(st, step).log)
  {
    if step.Login? {
      LoginFits(st, step);
    } else {
      StepSends(st, step);
      SentFits(st, AllOutput(st, step));
    }
  }

  lemma {:induction false} RunFits(st: Server, steps: seq<Step>)
    requires AllFit(st.fits, st.log)
    ensures Run(st, steps).fits == st.fits && AllFit(st.fits, Run(st, steps).log)
    decreases |steps|
  {
    if steps != [] {
      StepFits(st, steps[0]);
      RunFits(Next(st, steps[0]), steps[1..]);
    }
  }

  // ---------------------------------------------------------------- one connection

  /** Payloads are serialized to text the client accepts, and `fits` says which of them the encoder accepts. */
  ghost predicate Serializes(st: Server, text: Payload -> Bytes, accepts: Bytes -> bool) {
    forall p :: text(p) != [] && accepts(text(p)) && (st.fits(p) <==> Channel.Encodable(text(p)))
  }

  /** The texts of the payloads queued on a session, in order. */
  function TextsFor(log: seq<Delivery>, session: nat, text: Payload -> Bytes): seq<Bytes> {
    if log == [] then []
    else
      var n := |log| - 1;
      TextsFor(log[..n], session, text) + if log[n].session == session then [text(log[n].payload)] else []
  }

  /** What a run of a connection was asked to deliver. */
  function Sends(steps: seq<Channel.Step>): seq<Bytes> {
    if steps == [] then [] else (if steps[0].Send? then [steps[0].json] else []) + Sends(steps[1..])
  }

  ghost predicate AllEncodable(texts: seq<Bytes>) {
    forall i :: 0 <= i < |texts| ==> Channel.Encodable(texts[i])
  }

  lemma {:induction false} TextsEncodable(log: seq<Delivery>, session: nat, text: Payload -> Bytes)
    requires forall i :: 0 <= i < |log| ==> Channel.Encodable(text(log[i].payload))
    ensures AllEncodable(TextsFor(log, session, text))
    decreases |log|
  {
    if log != [] {
      TextsEncodable(log[..|log| - 1], session, text);
    }
  }

  lemma {:induction false} DeliveredIsSends(accepts: Bytes -> bool, l: Channel.Link, steps: seq<Channel.Step>)
    requires Channel.CanRun(accepts, l, steps) && AllEncodable(Sends(steps))
    ensures Channel.Run(accepts, l, steps).delivered == l.delivered + Sends(steps)
    decreases |steps|
  {
    if steps == [] {
      assert l.delivered + [] == l.delivered;
    } else {
      var next, first := Channel.Next(accepts, l, steps[0]), if steps[0].Send? then [steps[0].json] else [];
      assert Sends(steps) == first + Sends(steps[1..]);
      assert steps[0].Send? ==> Sends(steps)[0] == steps[0].json;
      assert forall i :: 0 <= i < |Sends(steps[1..])| ==> Sends(steps[1..])[i] == Sends(steps)[|first| + i];
      assert next.delivered == l.delivered + first;
      DeliveredIsSends(accepts, next, steps[1..]);
      Assoc(l.delivered, first, Sends(steps[1..]));
    }
  }

  /** The connection of a session has been asked to deliver exactly what the server has queued on that session. */
  ghost predicate Connects(st: Server, session: nat, text: Payload -> Bytes, accepts: Bytes -> bool,
                           steps: seq<Channel.Step>)
  {
    Channel.CanRun(accepts, Channel.IDLE, steps) && Sends(steps) == TextsFor(st.log, session, text)
  }

  /**
   Over every run of the server and of a session's connection, until the first write error there the client has emitted
   a prefix of the payloads queued on the session, in order, and all of them once it has read every octet.
   */
  lemma QueuedIsEmitted(st: Server, steps: seq<Step>, session: nat, text: Payload -> Bytes, accepts: Bytes -> bool,
                        chan: seq<Channel.Step>)
    requires Booted(st) && CanRun(st, steps) && Serializes(st, text, accepts)
    requires Connects(Run(st, steps), session, text, accepts, chan)
    ensures var l, queued := Channel.Run(accepts, Channel.IDLE, chan), TextsFor(Run(st, steps).log, session, text);
            && l.delivered == queued
            && (!l.failed ==> l.emitted <= queued)
            && (!l.failed && l.taken == |Frames.Stream(queued)| ==> l.emitted == queued)
  {
    RunFits(st, steps);
    TextsEncodable(Run(st, steps).log, session, text);
    DeliveredIsSends(accepts, Channel.IDLE, chan);
    assert [] + Sends(chan) == Sends(chan);
    Channel.InOrderDelivery(accepts, chan);
  }

  // ---------------------------------------------------------------- a message and its recipient

  /** The delivery that gives a message to a user who was given it once. */
  lemma {:induction false} OnlyDelivery(log: seq<Delivery>, id: int, user: int) returns (k: nat)
    requires Given(log, id, user) == 1
    ensures k < |log| && Weight(log[k], id, user) == 1 && log[k].addressee == user
    ensures forall j :: 0 <= j < |log| && j != k ==> Weight(log[j], id, user) == 0
    decreases |log|
  {
    var n := |log| - 1;
    if Weight(log[n], id, user) == 1 {
      k := n;
      NoDelivery(log[..n], id, user);
      assert forall j :: 0 <= j < n ==> log[..n][j] == log[j];
    } else {
      k := OnlyDelivery(log[..n], id, user);
      assert forall j :: 0 <= j < n ==> log[..n][j] == log[j];
    }
  }

  lemma {:induction false} NoDelivery(log: seq<Delivery>, id: int, user: int)
    requires Given(log, id, user) == 0
    ensures forall j :: 0 <= j < |log| ==> Weight(log[j], id, user) == 0
    decreases |log|
  {
    if log != [] {
      var n := |log| - 1;
      NoDelivery(log[..n], id, user);
      assert forall j :: 0 <= j < n ==> log[..n][j] == log[j];
    }
  }

  /** A delivery is found in its session's texts behind those queued before it. */
  lemma {:induction false} PlaceInTexts(log: seq<Delivery>, k: nat, text: Payload -> Bytes)
    requires k < |log|
    ensures var before, all := TextsFor(log[..k], log[k].session, text), TextsFor(log, log[k].session, text);
            |before| < |all| && before <= all && all[|before|] == text(log[k].payload)
    decreases |log|
  {
    var n := |log| - 1;
    if k < n {
      PlaceInTexts(log[..n], k, text);
      assert log[..n][..k] == log[..k] && log[..n][k] == log[k];
    }
  }

  /**
   A private message between different users that its row says was delivered in this run is queued in exactly one
   delivery to its recipient, and once the client at that session has read everything, without a write error, it has
   emitted that delivery, in its place.
   */
  lemma DeliveredReachesClient(st: Server, steps: seq<Step>, i: nat, text: Payload -> Bytes, accepts: Bytes -> bool)
    returns (k: nat)
    requires Booted(st) && TablesSound(st) && CanRun(st, steps) && !Run(st, steps).down
    requires Serializes(st, text, accepts) && i < |Run(st, steps).messages| && IsDirect(Run(st, steps).messages[i])
    requires Run(st, steps).messages[i].delivered && !GivenBefore(st.messages, i)
    ensures var now, m := Run(st, steps), Run(st, steps).messages[i];
            && k < |now.log| && now.log[k].addressee == m.to && Weight(now.log[k], m.id, m.to) == 1
            && (forall j :: 0 <= j < |now.log| && j != k ==> Weight(now.log[j], m.id, m.to) == 0)
            && forall chan :: Connects(now, now.log[k].session, text, accepts, chan) ==>
                 Emits(now.log, k, text, Channel.Run(accepts, Channel.IDLE, chan))
  {
    var now := Run(st, steps);
    DeliveredExactlyOnce(st, steps, i);
    k := OnlyDelivery(now.log, now.messages[i].id, now.messages[i].to);
    forall chan | Connects(now, now.log[k].session, text, accepts, chan)
      ensures Emits(now.log, k, text, Channel.Run(accepts, Channel.IDLE, chan))
    {
      QueuedIsEmitted(st, steps, now.log[k].session, text, accepts, chan);
      PlaceInTexts(now.log, k, text);
    }
  }

  /** Unless a write failed or octets are still to be read, the client has emitted this delivery, in its place. */
  ghost predicate Emits(log: seq<Delivery>, k: nat, text: Payload -> Bytes, l: Channel.Link)
    requires k < |log|
  {
    var place := |TextsFor(log[..k], log[k].session, text)|;
    !l.failed && l.taken == |Frames.Stream(l.delivered)| ==>
      place < |l.emitted| && l.emitted[place] == text(log[k].payload)
  }
}
