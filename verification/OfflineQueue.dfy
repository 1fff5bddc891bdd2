/** The client's stored queue of unsent messages and the flush that empties it, with arrivals at every await. */
module OfflineQueue {
  import opened Basics

  datatype Kind = Direct | ToGroup

  datatype Queued = Queued(kind: Kind, targetId: int, localId: string, json: string, createdAt: int, attempts: nat)

  // ---------------------------------------------------------------- the stored queue

  function Dequeue(queue: seq<Queued>, id: string): seq<Queued> {
    if queue == [] then [] else (if queue[0].localId == id then [] else [queue[0]]) + Dequeue(queue[1..], id)
  }

  function CountAttempt(queue: seq<Queued>, id: string): seq<Queued> {
    if queue == [] then []
    else
      [if queue[0].localId == id then queue[0].(attempts := queue[0].attempts + 1) else queue[0]]
      + CountAttempt(queue[1..], id)
  }

  predicate HasId(queue: seq<Queued>, id: string) {
    exists i :: 0 <= i < |queue| && queue[i].localId == id
  }

  ghost predicate DistinctIds(queue: seq<Queued>) {
    forall i, j :: 0 <= i < j < |queue| ==> queue[i].localId != queue[j].localId
  }

  lemma {:induction false} DequeueOthers(queue: seq<Queued>, id: string)
    ensures |Dequeue(queue, id)| <= |queue|
    ensures Dequeue(queue, id) == queue <==> !HasId(queue, id)
    decreases |queue|
  {
    if queue != [] {
      DequeueOthers(queue[1..], id);
      assert queue == [queue[0]] + queue[1..];
      if i :| 0 <= i < |queue| && queue[i].localId == id {
        if i > 0 {
          assert queue[1..][i - 1].localId == id;
        } else {
          assert |Dequeue(queue, id)| <= |queue[1..]|;
        }
      }
      if i :| 0 <= i < |queue| - 1 && queue[1..][i].localId == id {
        assert queue[i + 1].localId == id;
      }
    }
  }

  /** Taking a message off the queue by its id takes it alone exactly if no later message has the same id. */
  lemma DequeueTakesHead(queue: seq<Queued>)
    requires queue != []
    ensures Dequeue(queue, queue[0].localId) == queue[1..] <==> !HasId(queue[1..], queue[0].localId)
  {
    DequeueOthers(queue[1..], queue[0].localId);
  }

  lemma {:induction false} CountAttemptOthers(queue: seq<Queued>, id: string)
    requires !HasId(queue, id)
    ensures CountAttempt(queue, id) == queue
    decreases |queue|
  {
    if queue != [] {
      assert queue[0].localId != id;
      forall i | 0 <= i < |queue[1..]|
        ensures queue[1..][i].localId != id
      {
        assert queue[1..][i] == queue[i + 1];
      }
      CountAttemptOthers(queue[1..], id);
      assert queue == [queue[0]] + queue[1..];
    }
  }

  // ---------------------------------------------------------------- flushing

  /**
   `flushes` holds, for each flush begun and not ended, the part of its snapshot not yet sent; `sent` are the messages
   handed to the server.
   */
  datatype Client = Client(stored: seq<Queued>, flushes: seq<seq<Queued>>, sent: seq<Queued>)

  /** The current send of flush `k` succeeds or fails. */
  datatype Step = Begin | Arrive(message: Queued) | SendOk(k: nat) | SendFailed(k: nat)

  /**
   One flush at a time, whose current send succeeds or fails; at any time another message may be queued, under an id
   not in use in the queue.
   */
  predicate Enabled(c: Client, step: Step) {
    match step
    case Begin => c.flushes == []
    case Arrive(m) => !HasId(c.stored, m.localId)
    case SendOk(k) => k < |c.flushes| && c.flushes[k] != []
    case SendFailed(k) => k < |c.flushes| && c.flushes[k] != []
  }

  /** A flush takes a snapshot of the queue; there is none if the queue is empty. The store does not look for others. */
  function Begun(c: Client): Client {
    if c.stored == [] then c else c.(flushes := c.flushes + [c.stored])
  }

  /** Flush `k` goes on with the rest of its snapshot, or ends. */
  function GoesOn(flushes: seq<seq<Queued>>, k: nat, rest: seq<Queued>): seq<seq<Queued>>
    requires k < |flushes|
  {
    if rest == [] then flushes[..k] + flushes[k + 1..] else flushes[k := rest]
  }

  function Next(c: Client, step: Step): Client
    requires Enabled(c, step)
  {
    match step
    case Begin => Begun(c)
    case Arrive(m) => c.(stored := c.stored + [m])
    case SendOk(k) =>
      var item := c.flushes[k][0];
      c.(stored := Dequeue(c.stored, item.localId), flushes := GoesOn(c.flushes, k, c.flushes[k][1..]),
         sent := c.sent + [item])
    case SendFailed(k) =>
      c.(stored := CountAttempt(c.stored, c.flushes[k][0].localId), flushes := GoesOn(c.flushes, k, []))
  }

  predicate CanRun(c: Client, steps: seq<Step>)
    decreases |steps|
  {
    steps == [] || (Enabled(c, steps[0]) && CanRun(Next(c, steps[0]), steps[1..]))
  }

  function Run(c: Client, steps: seq<Step>): Client
    requires CanRun(c, steps)
    decreases |steps|
  {
    if steps == [] then c else Run(Next(c, steps[0]), steps[1..])
  }

  function Arrivals(steps: seq<Step>): seq<Queued> {
    if steps == [] then [] else (if steps[0].Arrive? then [steps[0].message] else []) + Arrivals(steps[1..])
  }

  /** Messages without their attempt counts. */
  function Contents(queue: seq<Queued>): (r: seq<Queued>)
    ensures |r| == |queue|
  {
    seq(|queue|, i requires 0 <= i < |queue| => queue[i].(attempts := 0))
  }

  /** Ids in the queue differ, and what the active flush has yet to send is the front of the queue. */
  ghost predicate Sound(c: Client) {
    && DistinctIds(c.stored) && |c.flushes| <= 1
    && (c.flushes != [] ==> c.flushes[0] <= c.stored && c.flushes[0] != [])
  }

  lemma SentTakesHead(c: Client)
    requires Sound(c) && Enabled(c, SendOk(0))
    ensures Next(c, SendOk(0)).stored == c.stored[1..] && Next(c, SendOk(0)).sent == c.sent + [c.stored[0]]
  {
    DequeueTakesHead(c.stored);
  }

  /** A failed send keeps its message at the head, changes only its attempt count, and ends the flush. */
  lemma FailureKeepsHead(c: Client)
    requires Sound(c) && Enabled(c, SendFailed(0))
    ensures var after := Next(c, SendFailed(0));
            && after.flushes == [] && after.sent == c.sent
            && after.stored == [c.stored[0].(attempts := c.stored[0].attempts + 1)] + c.stored[1..]
  {
    CountAttemptOthers(c.stored[1..], c.stored[0].localId);
  }

  lemma ContentsAppend(a: seq<Queued>, b: seq<Queued>)
    ensures Contents(a + b) == Contents(a) + Contents(b)
  {
  }

  lemma StepSound(c: Client, step: Step)
    requires Sound(c) && Enabled(c, step)
    ensures Sound(Next(c, step))
  {
    match step {
      case Begin =>
      case Arrive(m) =>
      case SendOk(_) => SentTakesHead(c);
      case SendFailed(_) => FailureKeepsHead(c);
    }
  }

  /** What has been sent, followed by what is still stored. */
  function Everything(c: Client): seq<Queued> {
    Contents(c.sent + c.stored)
  }

  lemma StepConserves(c: Client, step: Step)
    requires Sound(c) && Enabled(c, step)
    ensures Everything(Next(c, step)) == Everything(c) + Contents(if step.Arrive? then [step.message] else [])
  {
    assert Everything(c) + [] == Everything(c);
    match step {
      case Begin =>
      case Arrive(m) =>
        ContentsAppend(c.sent + c.stored, [m]);
        assert c.sent + (c.stored + [m]) == (c.sent + c.stored) + [m];
      case SendOk(_) =>
        SentTakesHead(c);
        assert (c.sent + [c.stored[0]]) + c.stored[1..] == c.sent + c.stored;
      case SendFailed(_) =>
        FailureKeepsHead(c);
        ContentsAppend(c.sent, c.stored);
        ContentsAppend(c.sent, Next(c, step).stored);
        assert Contents(Next(c, step).stored) == Contents(c.stored);
    }
  }

  /**
   With messages queued at any await, what has been sent followed by what is still stored is always the initial queue
   followed by the later arrivals, in order, up to attempt counts.
   */
  lemma {:induction false} FlushConserves(c: Client, steps: seq<Step>)
    requires Sound(c) && CanRun(c, steps)
    ensures Sound(Run(c, steps))
    ensures Everything(Run(c, steps)) == Everything(c) + Contents(Arrivals(steps))
    decreases |steps|
  {
    if steps == [] {
      assert Everything(c) + [] == Everything(c);
    } else {
      StepSound(c, steps[0]);
      StepConserves(c, steps[0]);
      FlushConserves(Next(c, steps[0]), steps[1..]);
      var first, more := if steps[0].Arrive? then [steps[0].message] else [], Arrivals(steps[1..]);
      assert Arrivals(steps) == first + more;
      ContentsAppend(first, more);
      Assoc(Everything(c), Contents(first), Contents(more));
    }
  }

  /** Without distinct ids a message is lost: sending the first of two with one id drops both. */
  lemma SharedIdLosesMessage(a: Queued, b: Queued)
    requires a.localId == b.localId
    ensures var c := Begun(Client([a, b], [], []));
            Enabled(c, SendOk(0)) && Next(c, SendOk(0)).sent == [a] && Next(c, SendOk(0)).stored == []
  {
    assert [a, b][1..] == [b] && [b][1..] == [];
    assert Dequeue([b], a.localId) == [];
  }

  // ---------------------------------------------------------------- overlapping flushes

  /** However the run goes on, nothing is lost or sent twice. */
  ghost predicate Conserves(c: Client) {
    forall steps :: CanRun(c, steps) ==> Everything(Run(c, steps)) == Everything(c) + Contents(Arrivals(steps))
  }

  /** A flush begun while another is under way sends the head of the queue a second time. */
  lemma OverlapSendsTwice(c: Client)
    requires Sound(c) && c.flushes != []
    ensures CanRun(Begun(c), [SendOk(1), SendOk(0)])
    ensures var after := Run(Begun(c), [SendOk(1), SendOk(0)]);
            after.sent == c.sent + [c.stored[0], c.stored[0]] && after.stored == c.stored[1..]
  {
    var begun, steps, id := Begun(c), [SendOk(1), SendOk(0)], c.stored[0].localId;
    assert begun.flushes == [c.flushes[0], c.stored];
    DequeueTakesHead(c.stored);
    DequeueOthers(c.stored[1..], id);
    var once := Next(begun, SendOk(1));
    assert once.flushes[0] == c.flushes[0] && once.stored == c.stored[1..];
    var twice := Next(once, SendOk(0));
    assert steps[1..] == [SendOk(0)] && steps[1..][1..] == [];
    assert CanRun(once, steps[1..]) && Run(once, steps[1..]) == Run(twice, []) == twice;
    assert Run(begun, steps) == Run(once, steps[1..]);
  }

  /** A flush may begin, without loss or repetition in any continuation, exactly if no other is under way. */
  lemma BeginConservesExactly(c: Client)
    requires Sound(c)
    ensures Conserves(Begun(c)) <==> c.flushes == []
  {
    if c.flushes == [] {
      StepSound(c, Begin);
      forall steps | CanRun(Begun(c), steps)
        ensures Everything(Run(Begun(c), steps)) == Everything(Begun(c)) + Contents(Arrivals(steps))
      {
        FlushConserves(Begun(c), steps);
      }
    } else {
      OverlapSendsTwice(c);
      var steps := [SendOk(1), SendOk(0)];
      assert steps[1..] == [SendOk(0)] && steps[1..][1..] == [];
      assert Arrivals(steps) == Arrivals(steps[1..]) == Arrivals(steps[1..][1..]) == [];
      assert |Everything(Run(Begun(c), steps))| == |c.sent| + 2 + |c.stored| - 1;
      assert |Everything(Begun(c))| == |c.sent| + |c.stored|;
    }
  }
}

/** The store that holds the queue, and the flush as it runs. */
module OfflineStore {
  import opened Basics
  import opened OfflineQueue

  /** What happens while one send is awaited: messages are queued, then the send succeeds or fails. */
  datatype Await = Await(arrivals: seq<Queued>, ok: bool)

  function ArriveSteps(messages: seq<Queued>): seq<Step> {
    if messages == [] then [] else [Arrive(messages[0])] + ArriveSteps(messages[1..])
  }

  function Outcome(a: Await): Step {
    if a.ok then SendOk(0) else SendFailed(0)
  }

  /** At most one flush is under way, and it has something to send. */
  predicate Single(c: Client) {
    |c.flushes| <= 1 && (c.flushes != [] ==> c.flushes[0] != [])
  }

  /** How many messages the flush has yet to send. */
  function Left(c: Client): nat {
    if c.flushes == [] then 0 else |c.flushes[0]|
  }

  /** The steps of the rest of a flush with `count` messages to send, awaited in turn; a failure is the last. */
  function FlushSteps(awaits: seq<Await>, count: nat): seq<Step>
    decreases count
  {
    if awaits == [] || count == 0 then []
    else
      ArriveSteps(awaits[0].arrivals)
      + ([Outcome(awaits[0])] + if awaits[0].ok then FlushSteps(awaits[1..], count - 1) else [])
  }

  /** What the rest of a flush does. */
  function Flushed(c: Client, awaits: seq<Await>): Client
    requires Single(c)
    decreases |awaits|
  {
    if awaits == [] || c.flushes == [] then c
    else
      var waited := c.(stored := c.stored + awaits[0].arrivals);
      if awaits[0].ok then Flushed(Next(waited, SendOk(0)), awaits[1..]) else Next(waited, SendFailed(0))
  }

  lemma {:induction false} ArrivalsRun(c: Client, messages: seq<Queued>, more: seq<Step>)
    requires CanRun(c, ArriveSteps(messages) + more)
    ensures CanRun(c.(stored := c.stored + messages), more)
    ensures Run(c, ArriveSteps(messages) + more) == Run(c.(stored := c.stored + messages), more)
    decreases |messages|
  {
    if messages == [] {
      assert ArriveSteps(messages) + more == more && c.stored + messages == c.stored;
    } else {
      var steps := ArriveSteps(messages) + more;
      assert steps[0] == Arrive(messages[0]) && steps[1..] == ArriveSteps(messages[1..]) + more;
      ArrivalsRun(Next(c, steps[0]), messages[1..], more);
      assert (c.stored + [messages[0]]) + messages[1..] == c.stored + messages;
    }
  }

  /** A flush is a run of the queue's steps, so everything proved of those holds of it. */
  lemma {:induction false} FlushIsRun(c: Client, awaits: seq<Await>)
    requires Single(c) && CanRun(c, FlushSteps(awaits, Left(c)))
    ensures Run(c, FlushSteps(awaits, Left(c))) == Flushed(c, awaits)
    decreases |awaits|
  {
    if awaits != [] && c.flushes != [] {
      var a := awaits[0];
      var later := if a.ok then FlushSteps(awaits[1..], Left(c) - 1) else [];
      var answer, waited := [Outcome(a)], c.(stored := c.stored + a.arrivals);
      ArrivalsRun(c, a.arrivals, answer + later);
      assert (answer + later)[1..] == later;
      if a.ok {
        assert Left(Next(waited, SendOk(0))) == Left(c) - 1;
        FlushIsRun(Next(waited, SendOk(0)), awaits[1..]);
      }
    }
  }

  method RemoveById(queue: seq<Queued>, id: string) returns (kept: seq<Queued>)
    ensures kept == Dequeue(queue, id)
  {
    kept := [];
    var i := 0;
    while i < |queue|
      invariant 0 <= i <= |queue| && kept + Dequeue(queue[i..], id) == Dequeue(queue, id)
    {
      assert queue[i..][1..] == queue[i + 1..];
      if queue[i].localId != id {
        kept := kept + [queue[i]];
      }
      i := i + 1;
    }
    assert kept + [] == kept;
  }

  method RecordAttempt(queue: seq<Queued>, id: string) returns (counted: seq<Queued>)
    ensures counted == CountAttempt(queue, id)
  {
    counted := [];
    var i := 0;
    while i < |queue|
      invariant 0 <= i <= |queue| && counted + CountAttempt(queue[i..], id) == CountAttempt(queue, id)
    {
      assert queue[i..][1..] == queue[i + 1..];
      var item := if queue[i].localId == id then queue[i].(attempts := queue[i].attempts + 1) else queue[i];
      assert CountAttempt(queue[i..], id) == [item] + CountAttempt(queue[i + 1..], id);
      Assoc(counted, [item], CountAttempt(queue[i + 1..], id));
      counted := counted + [item];
      i := i + 1;
    }
    assert counted + [] == counted;
  }

  class QueueStore {
    var stored: seq<Queued>
    ghost var sent: seq<Queued>

    constructor (stored: seq<Queued>)
      ensures this.stored == stored && sent == []
    {
      this.stored, sent := stored, [];
    }

    method EnqueueMessage(m: Queued)
      modifies this
      ensures stored == old(stored) + [m] && sent == old(sent)
    {
      stored := stored + [m];
    }

    /** Messages queued by other parts of the program while the flush waits. */
    method Interleave(arrivals: seq<Queued>)
      modifies this
      ensures stored == old(stored) + arrivals && sent == old(sent)
    {
      for i := 0 to |arrivals|
        invariant stored == old(stored) + arrivals[..i] && sent == old(sent)
      {
        EnqueueMessage(arrivals[i]);
        assert arrivals[..i + 1] == arrivals[..i] + [arrivals[i]];
      }
      assert arrivals[..|arrivals|] == arrivals;
    }

    /** The flush: a snapshot is sent message by message; each await lets other messages be queued. */
    method FlushOfflineQueue(awaits: seq<Await>)
      requires |awaits| == |stored|
      modifies this
      ensures var after := Flushed(Begun(Client(old(stored), [], old(sent))), awaits);
              stored == after.stored && sent == after.sent
    {
      var queue := stored;
      ghost var after := Flushed(Begun(Client(stored, [], sent)), awaits);
      var i := 0;
      assert [] + [queue] == [queue] && queue[0..] == queue && awaits[0..] == awaits;
      while i < |queue|
        invariant 0 <= i <= |queue| == |awaits|
        invariant after == Flushed(Client(stored, if i < |queue| then [queue[i..]] else [], sent), awaits[i..])
      {
        var item := queue[i];
        assert queue[i..][1..] == queue[i + 1..] && awaits[i..][1..] == awaits[i + 1..];
        assert GoesOn([queue[i..]], 0, queue[i + 1..]) == if i + 1 < |queue| then [queue[i + 1..]] else [];
        Interleave(awaits[i].arrivals);
        if awaits[i].ok {
          stored := RemoveById(stored, item.localId);
          sent := sent + [item];
        } else {
          stored := RecordAttempt(stored, item.localId);
          break;
        }
        i := i + 1;
      }
    }
  }
}
