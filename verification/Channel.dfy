/**
 The server-to-client channel as a step machine: the session's partial-write queue at one end, the Rust
 client's read loop at the other, and a socket that moves any number of octets at a time in between.
 */
module Channel {
  import opened Basics
  import opened Octets
  import opened Frames

  // ---------------------------------------------------------------- the write queue

  /** `inFlight` counts the asynchronous writes that have been started and not completed. */
  datatype Sender = Sender(queue: seq<Bytes>, offset: nat, writing: bool, inFlight: nat)

  function StartWrite(s: Sender): Sender {
    if s.queue == [] then s.(writing := false) else s.(writing := true, inFlight := s.inFlight + 1)
  }

  /** An oversized payload makes the encoder throw before anything is queued. */
  predicate Encodable(json: Bytes) {
    |json| <= SERVER_LIMIT
  }

  function Deliver(s: Sender, json: Bytes): Sender
    requires Encodable(json)
  {
    var queued := s.(queue := s.queue + [Frame(json)]);
    if s.writing then queued else StartWrite(queued)
  }

  predicate CanComplete(s: Sender, n: nat) {
    s.inFlight > 0 && s.queue != [] && s.offset + n <= |s.queue[0]|
  }

  /** The write in flight reports that `n` octets went out. */
  function Written(s: Sender, n: nat): Sender
    requires CanComplete(s, n)
  {
    var done := s.(inFlight := s.inFlight - 1, offset := s.offset + n);
    if done.offset < |done.queue[0]| then StartWrite(done)
    else StartWrite(done.(queue := done.queue[1..], offset := 0))
  }

  function WriteFailed(s: Sender): Sender
    requires s.inFlight > 0
  {
    Sender([], 0, false, s.inFlight - 1)
  }

  /** At most one write is outstanding, exactly while frames are queued, and the offset is inside the front frame. */
  ghost predicate SenderOk(s: Sender) {
    && (s.writing <==> s.queue != [])
    && s.inFlight == (if s.writing then 1 else 0)
    && (forall i :: 0 <= i < |s.queue| ==> |s.queue[i]| >= 4)
    && (if s.queue == [] then s.offset == 0 else s.offset < |s.queue[0]|)
  }

  function Unsent(s: Sender): Bytes
    requires s.queue != [] ==> s.offset <= |s.queue[0]|
  {
    if s.queue == [] then [] else s.queue[0][s.offset..] + Join(s.queue[1..])
  }

  lemma DeliverQueues(s: Sender, json: Bytes)
    requires SenderOk(s) && Encodable(json)
    ensures SenderOk(Deliver(s, json))
    ensures Unsent(Deliver(s, json)) == Unsent(s) + Frame(json)
  {
    var after := Deliver(s, json);
    if s.queue == [] {
      assert after.queue == [Frame(json)];
      assert after.queue[1..] == [];
    } else {
      assert after.queue[1..] == s.queue[1..] + [Frame(json)];
      JoinSnoc(s.queue[1..], Frame(json));
      Assoc(s.queue[0][s.offset..], Join(s.queue[1..]), Frame(json));
    }
  }

  lemma WrittenKeepsSender(s: Sender, n: nat)
    requires SenderOk(s) && CanComplete(s, n)
    ensures SenderOk(Written(s, n))
  {
    if s.offset + n == |s.queue[0]| && |s.queue| > 1 {
      assert |s.queue[1]| >= 4;
    }
  }

  /** Nothing of the queue has been sent yet. */
  lemma UnsentWhole(s: Sender)
    requires s.offset == 0
    ensures Unsent(s) == Join(s.queue)
  {
    if s.queue != [] {
      assert s.queue[0][0..] == s.queue[0];
    }
  }

  lemma WrittenSends(s: Sender, n: nat)
    requires SenderOk(s) && CanComplete(s, n) && SenderOk(Written(s, n))
    ensures Unsent(s) == s.queue[0][s.offset..][..n] + Unsent(Written(s, n))
  {
    var after := Written(s, n);
    var front, others := s.queue[0][s.offset..], Join(s.queue[1..]);
    if n < |front| {
      assert front == front[..n] + front[n..];
      assert after.queue == s.queue && s.queue[0][after.offset..] == front[n..];
      Assoc(front[..n], front[n..], others);
    } else {
      assert front[..n] == front;
      assert after.queue == s.queue[1..] && after.offset == 0;
      UnsentWhole(after);
    }
  }

  // ---------------------------------------------------------------- the two ends joined

  /**
   `delivered` are the payloads accepted by `deliver`, `kept` those of them that no write error dropped from the
   queue, `wire` the octets the socket has taken so far, `taken` how many of them the client has read, `emitted` what
   the client has passed on. `failed` tells that there was a write error, `torn` that one came inside a frame.
   */
  datatype Link = Link(sender: Sender, delivered: seq<Bytes>, kept: seq<Bytes>, wire: Bytes, taken: nat,
                       accumulator: Bytes, emitted: seq<Bytes>, failed: bool, torn: bool)

  const IDLE := Link(Sender([], 0, false, 0), [], [], [], 0, [], [], false, false)

  datatype Step = Send(json: Bytes) | Flushed(n: nat) | Fail | Receive(n: nat)

  /**
   Steps that can happen. Payloads are non-empty text; whether one is too long for a frame is decided by
   the encoder. A completion reports at most what was offered, and a read returns octets that are there.
   */
  ghost predicate Enabled(accepts: Bytes -> bool, l: Link, step: Step) {
    match step
    case Send(json) => json != [] && accepts(json)
    case Flushed(n) => CanComplete(l.sender, n)
    case Fail => l.sender.inFlight > 0
    case Receive(n) => 0 < n && l.taken + n <= |l.wire|
  }

  /** A write error drops the payloads whose frames are in the queue. */
  function Dropped(kept: seq<Bytes>, queue: seq<Bytes>): seq<Bytes> {
    if |queue| <= |kept| then kept[..|kept| - |queue|] else []
  }

  /** The client has read `n` more octets and made `read` of them. */
  function Took(l: Link, n: nat, read: Output): Link {
    l.(taken := l.taken + n, accumulator := read.rest, emitted := l.emitted + read.messages)
  }

  ghost function Next(accepts: Bytes -> bool, l: Link, step: Step): Link
    requires Enabled(accepts, l, step)
  {
    match step
    case Send(json) =>
      if Encodable(json)
      then l.(sender := Deliver(l.sender, json), delivered := l.delivered + [json], kept := l.kept + [json])
      else l
    case Flushed(n) =>
      var front := l.sender.queue[0][l.sender.offset..];
      l.(sender := Written(l.sender, n), wire := l.wire + front[..n])
    case Fail =>
      l.(sender := WriteFailed(l.sender), kept := Dropped(l.kept, l.sender.queue), failed := true,
         torn := l.torn || l.sender.offset > 0)
    case Receive(n) => Took(l, n, Read(Rust(accepts), l.accumulator, l.wire[l.taken..l.taken + n]))
  }

  ghost predicate CanRun(accepts: Bytes -> bool, l: Link, steps: seq<Step>)
    decreases |steps|
  {
    steps == [] || (Enabled(accepts, l, steps[0]) && CanRun(accepts, Next(accepts, l, steps[0]), steps[1..]))
  }

  ghost function Run(accepts: Bytes -> bool, l: Link, steps: seq<Step>): Link
    requires CanRun(accepts, l, steps)
    decreases |steps|
  {
    if steps == [] then l else Run(accepts, Next(accepts, l, steps[0]), steps[1..])
  }

  /** The queue holds the frames of the last of these payloads. */
  ghost predicate Queues(queue: seq<Bytes>, kept: seq<Bytes>) {
    |queue| <= |kept| && forall i :: 0 <= i < |queue| ==> queue[i] == Frame(kept[|kept| - |queue| + i])
  }

  /** Wire and queue together hold the stream of the payloads. */
  ghost predicate Carries(accepts: Bytes -> bool, s: Sender, kept: seq<Bytes>, wire: Bytes)
    requires SenderOk(s)
  {
    AllFit(Rust(accepts), kept) && Queues(s.queue, kept) && wire + Unsent(s) == Stream(kept)
  }

  /** The client has decoded what it has taken from the wire. */
  ghost predicate HasRead(kept: seq<Bytes>, wire: Bytes, taken: nat, out: Output) {
    taken <= |wire| && Decoded(kept, wire[..taken], out)
  }

  ghost predicate Follows(accepts: Bytes -> bool, l: Link)
    requires SenderOk(l.sender)
  {
    Carries(accepts, l.sender, l.kept, l.wire) && HasRead(l.kept, l.wire, l.taken, Output(l.emitted, l.accumulator))
  }

  ghost predicate Sound(accepts: Bytes -> bool, l: Link) {
    SenderOk(l.sender) && (!l.failed ==> l.kept == l.delivered && !l.torn) && (!l.torn ==> Follows(accepts, l))
  }

  /** More bodies to come do not change what has been decoded. */
  lemma DecodedExtends(bodies: seq<Bytes>, body: Bytes, octets: Bytes, out: Output)
    requires Decoded(bodies, octets, out)
    ensures Decoded(bodies + [body], octets, out)
  {
    var left := bodies[|out.messages|..];
    assert (bodies + [body])[|out.messages|..] == left + [body];
    StreamSnoc(left, body);
  }

  lemma QueuesMore(queue: seq<Bytes>, kept: seq<Bytes>, json: Bytes)
    requires Queues(queue, kept)
    ensures Queues(queue + [Frame(json)], kept + [json])
  {
  }

  lemma SendSound(accepts: Bytes -> bool, l: Link, json: Bytes)
    requires Sound(accepts, l) && Enabled(accepts, l, Send(json))
    ensures Sound(accepts, Next(accepts, l, Send(json)))
  {
    if Encodable(json) {
      DeliverQueues(l.sender, json);
      if !l.torn {
        StreamSnoc(l.kept, json);
        Assoc(l.wire, Unsent(l.sender), Frame(json));
        QueuesMore(l.sender.queue, l.kept, json);
        DecodedExtends(l.kept, json, l.wire[..l.taken], Output(l.emitted, l.accumulator));
      }
    }
  }

  lemma QueuesWritten(s: Sender, n: nat, kept: seq<Bytes>)
    requires Queues(s.queue, kept) && CanComplete(s, n)
    ensures Queues(Written(s, n).queue, kept)
  {
    var queue := Written(s, n).queue;
    if queue != s.queue {
      assert queue == s.queue[1..];
      assert forall i :: 0 <= i < |queue| ==> queue[i] == s.queue[i + 1];
    }
  }

  /** A completion moves octets from the queue to the wire. */
  lemma WrittenCarries(accepts: Bytes -> bool, s: Sender, n: nat, kept: seq<Bytes>, wire: Bytes)
    requires SenderOk(s) && CanComplete(s, n) && SenderOk(Written(s, n)) && Carries(accepts, s, kept, wire)
    ensures Carries(accepts, Written(s, n), kept, wire + s.queue[0][s.offset..][..n])
  {
    QueuesWritten(s, n, kept);
    WrittenSends(s, n);
    Assoc(wire, s.queue[0][s.offset..][..n], Unsent(Written(s, n)));
  }

  lemma LongerWire(kept: seq<Bytes>, wire: Bytes, more: Bytes, taken: nat, out: Output)
    requires HasRead(kept, wire, taken, out)
    ensures HasRead(kept, wire + more, taken, out)
  {
    assert (wire + more)[..taken] == wire[..taken];
  }

  lemma CompleteSound(accepts: Bytes -> bool, l: Link, n: nat)
    requires Sound(accepts, l) && Enabled(accepts, l, Flushed(n))
    ensures Sound(accepts, Next(accepts, l, Flushed(n)))
  {
    WrittenKeepsSender(l.sender, n);
    if !l.torn {
      WrittenCarries(accepts, l.sender, n, l.kept, l.wire);
      LongerWire(l.kept, l.wire, l.sender.queue[0][l.sender.offset..][..n], l.taken, Output(l.emitted, l.accumulator));
    }
  }

  // ---------------------------------------------------------------- write errors

  lemma {:induction false} JoinFrames(queue: seq<Bytes>, bodies: seq<Bytes>)
    requires |queue| == |bodies| && forall i :: 0 <= i < |queue| ==> queue[i] == Frame(bodies[i])
    ensures Join(queue) == Stream(bodies)
    decreases |queue|
  {
    if queue != [] {
      JoinFrames(queue[1..], bodies[1..]);
    }
  }

  /** The wire carries the whole frames of what a write error would keep, and the sent part of the front frame. */
  lemma WireHolds(wire: Bytes, s: Sender, kept: seq<Bytes>)
    requires SenderOk(s) && s.queue != [] && Queues(s.queue, kept) && wire + Unsent(s) == Stream(kept)
    ensures wire == Stream(Dropped(kept, s.queue)) + s.queue[0][..s.offset]
  {
    var done, left := Dropped(kept, s.queue), kept[|kept| - |s.queue|..];
    var front, sent, others := s.queue[0], s.queue[0][..s.offset], Join(s.queue[1..]);
    assert kept == done + left;
    StreamAppend(done, left);
    JoinFrames(s.queue, left);
    assert front == sent + front[s.offset..];
    Assoc(sent, front[s.offset..], others);
    Assoc(Stream(done), sent, Unsent(s));
    SameFront(wire, Stream(done) + sent, Unsent(s));
  }

  lemma SameFront(a: Bytes, b: Bytes, tail: Bytes)
    requires a + tail == b + tail
    ensures a == b
  {
    assert |a| == |b|;
    assert a == (a + tail)[..|a|] && b == (b + tail)[..|b|];
  }

  /** The octets are whole frames of the first of these payloads. */
  ghost predicate AtBoundary(wire: Bytes, bodies: seq<Bytes>) {
    exists n :: 0 <= n <= |bodies| && wire == Stream(bodies[..n])
  }

  lemma StreamGrows(bodies: seq<Bytes>, m: nat, n: nat)
    requires m < n <= |bodies|
    ensures |Stream(bodies[..m])| + 4 + |bodies[m]| <= |Stream(bodies[..n])|
  {
    assert bodies[..n] == bodies[..m] + bodies[m..n];
    StreamAppend(bodies[..m], bodies[m..n]);
    assert bodies[m..n][0] == bodies[m];
  }

  /** A write error leaves the wire between two frames exactly if nothing of the front frame had been sent. */
  lemma ErrorKeepsBoundary(accepts: Bytes -> bool, l: Link)
    requires Sound(accepts, l) && !l.torn && Enabled(accepts, l, Fail)
    ensures AtBoundary(Next(accepts, l, Fail).wire, l.kept) <==> l.sender.offset == 0
  {
    var done := Dropped(l.kept, l.sender.queue);
    WireHolds(l.wire, l.sender, l.kept);
    var d := |done|;
    assert done == l.kept[..d];
    if l.sender.offset == 0 {
      assert l.wire == Stream(l.kept[..d]);
    } else if n :| 0 <= n <= |l.kept| && l.wire == Stream(l.kept[..n]) {
      if n < d {
        StreamGrows(l.kept, n, d);
      } else if n > d {
        StreamGrows(l.kept, d, n);
      }
    }
  }

  /** What the client has decoded lies in the part of the stream that was sent. */
  lemma DecodedOfPart(bodies: seq<Bytes>, done: seq<Bytes>, octets: Bytes, out: Output)
    requires Decoded(bodies, octets, out) && done <= bodies && octets <= Stream(done)
    ensures Decoded(done, octets, out)
  {
    var n := |out.messages|;
    if n > |done| {
      assert out.messages == bodies[..n] && done == bodies[..|done|];
      StreamGrows(bodies, |done|, n);
    } else {
      assert out.messages <= done;
      RemainingStream(done, out.messages, out.rest);
      assert n < |done| ==> done[n..][0] == bodies[n..][0];
    }
  }

  lemma FailSound(accepts: Bytes -> bool, l: Link)
    requires Sound(accepts, l) && Enabled(accepts, l, Fail)
    ensures Sound(accepts, Next(accepts, l, Fail))
  {
    var after := Next(accepts, l, Fail);
    if !after.torn {
      WireHolds(l.wire, l.sender, l.kept);
      assert l.wire == Stream(after.kept);
      assert after.kept == l.kept[..|after.kept|];
      assert after.wire + Unsent(after.sender) == Stream(after.kept);
      DecodedOfPart(l.kept, after.kept, l.wire[..l.taken], Output(l.emitted, l.accumulator));
    }
  }

  // ---------------------------------------------------------------- reading

  lemma TakeMore(wire: Bytes, unsent: Bytes, taken: nat, n: nat)
    requires taken + n <= |wire|
    ensures wire[..taken + n] == wire[..taken] + wire[taken..taken + n]
    ensures wire[..taken + n] <= wire + unsent
  {
  }

  /** Reading the next `n` octets on the wire keeps everything read so far decoded. */
  lemma TakeDecodes(codec: Codec, bodies: seq<Bytes>, wire: Bytes, unsent: Bytes, taken: nat, n: nat, out: Output,
                    read: Output)
    requires AllFit(codec, bodies) && wire + unsent == Stream(bodies) && taken + n <= |wire|
    requires HasRead(bodies, wire, taken, out) && read == Read(codec, out.rest, wire[taken..taken + n])
    ensures HasRead(bodies, wire, taken + n, Output(out.messages + read.messages, read.rest))
  {
    TakeMore(wire, unsent, taken, n);
    ReadDecodes(codec, bodies, wire[..taken], out, wire[taken..taken + n]);
  }

  lemma TakeSound(accepts: Bytes -> bool, l: Link, n: nat, read: Output)
    requires Sound(accepts, l) && l.taken + n <= |l.wire|
    requires !l.torn ==> HasRead(l.kept, l.wire, l.taken + n, Output(l.emitted + read.messages, read.rest))
    ensures Sound(accepts, Took(l, n, read))
  {
  }

  lemma ReadSound(accepts: Bytes -> bool, l: Link, n: nat, read: Output, after: Link)
    requires Sound(accepts, l) && l.taken + n <= |l.wire| && after == Took(l, n, read)
    requires read == Read(Rust(accepts), l.accumulator, l.wire[l.taken..l.taken + n])
    ensures Sound(accepts, after)
  {
    if !l.torn {
      TakeDecodes(Rust(accepts), l.kept, l.wire, Unsent(l.sender), l.taken, n, Output(l.emitted, l.accumulator), read);
    }
    TakeSound(accepts, l, n, read);
  }

  lemma ReceiveTakes(accepts: Bytes -> bool, l: Link, n: nat)
    requires Enabled(accepts, l, Receive(n))
    ensures Next(accepts, l, Receive(n)) == Took(l, n, Read(Rust(accepts), l.accumulator, l.wire[l.taken..l.taken + n]))
  {
  }

  lemma ReceiveSound(accepts: Bytes -> bool, l: Link, n: nat)
    requires Sound(accepts, l) && Enabled(accepts, l, Receive(n))
    ensures Sound(accepts, Next(accepts, l, Receive(n)))
  {
    ReceiveTakes(accepts, l, n);
    ReadSound(accepts, l, n, Read(Rust(accepts), l.accumulator, l.wire[l.taken..l.taken + n]),
              Next(accepts, l, Receive(n)));
  }

  lemma {:induction false} RunSound(accepts: Bytes -> bool, l: Link, steps: seq<Step>)
    requires Sound(accepts, l) && CanRun(accepts, l, steps)
    ensures Sound(accepts, Run(accepts, l, steps))
    decreases |steps|
  {
    if steps != [] {
      match steps[0] {
        case Send(json) => SendSound(accepts, l, json);
        case Flushed(n) => CompleteSound(accepts, l, n);
        case Fail => FailSound(accepts, l);
        case Receive(n) => ReceiveSound(accepts, l, n);
      }
      RunSound(accepts, Next(accepts, l, steps[0]), steps[1..]);
    }
  }

  /**
   Every run from an idle connection: never more than one write outstanding, the offset inside the front frame, and,
   until a write error comes inside a frame, the client has emitted a prefix of the payloads that no error dropped
   (until the first error, of all payloads delivered), and all of them once it has read every octet of their frames.
   */
  lemma InOrderDelivery(accepts: Bytes -> bool, steps: seq<Step>)
    requires CanRun(accepts, IDLE, steps)
    ensures var l := Run(accepts, IDLE, steps);
            && l.sender.inFlight <= 1
            && (l.sender.queue != [] ==> l.sender.offset < |l.sender.queue[0]|)
            && (!l.failed ==> !l.torn && l.kept == l.delivered)
            && (!l.torn ==> l.emitted <= l.kept)
            && (!l.torn && l.taken == |Stream(l.kept)| ==> l.emitted == l.kept)
  {
    assert Stream([]) + [] == [] && IDLE.wire[..0] == [];
    RunSound(accepts, IDLE, steps);
    var l := Run(accepts, IDLE, steps);
    if !l.torn && l.taken == |Stream(l.kept)| {
      AllRead(l.kept, l.wire, Unsent(l.sender), l.taken, Output(l.emitted, l.accumulator));
    }
  }

  lemma AllRead(kept: seq<Bytes>, wire: Bytes, unsent: Bytes, taken: nat, out: Output)
    requires wire + unsent == Stream(kept) && taken == |Stream(kept)| && HasRead(kept, wire, taken, out)
    ensures out == Output(kept, [])
  {
    assert unsent == [] && wire[..taken] == wire == wire + unsent;
    DecodedWhole(kept, out);
  }

  // ---------------------------------------------------------------- what a write error can do

  /** One stray zero octet before a short frame makes the client's decoder find a header of length 0. */
  lemma StrayOctet(accepts: Bytes -> bool, q: Bytes)
    requires 1 <= |q| < 256
    ensures Read(Rust(accepts), [], [0] + Frame(q)) == Output([INVALID_FRAME], [])
  {
    var buffer: Bytes := [0] + Frame(q);
    assert [] + buffer == buffer;
    assert Frame(q)[0] == 0 && Frame(q)[1] == 0 && Frame(q)[2] == 0;
    assert buffer[0] == 0 && buffer[1] == 0 && buffer[2] == 0 && buffer[3] == 0;
    assert Inspect(buffer, CLIENT_LIMIT) == Invalid;
    assert Drain(Rust(accepts), []) == Output([], []);
    assert Drain(Rust(accepts), buffer) == Output([INVALID_FRAME] + [], []);
  }

  /** A link with one frame queued and `n` octets of it sent, on a wire that carries these octets. */
  function Sending(p: Bytes, n: nat, delivered: seq<Bytes>, wire: Bytes, failed: bool): Link {
    Link(Sender([Frame(p)], n, true, 1), delivered, [p], wire, 0, [], [], failed, failed)
  }

  /** A link with nothing queued. */
  function Resting(delivered: seq<Bytes>, kept: seq<Bytes>, wire: Bytes): Link {
    Link(Sender([], 0, false, 0), delivered, kept, wire, 0, [], [], true, true)
  }

  lemma Tears(accepts: Bytes -> bool, p: Bytes)
    requires p != [] && Encodable(p) && accepts(p)
    ensures var states := [IDLE, Sending(p, 0, [p], [], false), Sending(p, 1, [p], [0], false), Resting([p], [], [0])];
            var steps := [Send(p), Flushed(1), Fail];
            forall i :: 0 <= i < 3 ==> Enabled(accepts, states[i], steps[i])
                                       && Next(accepts, states[i], steps[i]) == states[i + 1]
  {
    HeaderRoundTrip(|p|);
    assert Frame(p)[0..][..1] == [0] && [] + [0] == [0];
  }

  lemma SendsWhole(accepts: Bytes -> bool, p: Bytes, q: Bytes)
    requires q != [] && Encodable(q) && accepts(q)
    ensures var states := [Resting([p], [], [0]), Sending(q, 0, [p, q], [0], true),
                           Resting([p, q], [q], [0] + Frame(q))];
            var steps := [Send(q), Flushed(4 + |q|)];
            forall i :: 0 <= i < 2 ==> Enabled(accepts, states[i], steps[i])
                                       && Next(accepts, states[i], steps[i]) == states[i + 1]
  {
    assert [p] + [q] == [p, q] && [] + [q] == [q] && [] + [Frame(q)] == [Frame(q)];
    assert Frame(q)[0..][..4 + |q|] == Frame(q) && [Frame(q)][1..] == [];
  }

  lemma Garbles(accepts: Bytes -> bool, delivered: seq<Bytes>, q: Bytes)
    requires 1 <= |q| < 256
    ensures var l := Resting(delivered, [q], [0] + Frame(q));
            Enabled(accepts, l, Receive(5 + |q|))
            && Next(accepts, l, Receive(5 + |q|)) == l.(taken := 5 + |q|, emitted := [INVALID_FRAME])
  {
    var wire: Bytes, l := [0] + Frame(q), Resting(delivered, [q], [0] + Frame(q));
    assert wire[0..5 + |q|] == wire;
    StrayOctet(accepts, q);
    ReceiveTakes(accepts, l, 5 + |q|);
    assert Took(l, 5 + |q|, Output([INVALID_FRAME], [])).emitted == [] + [INVALID_FRAME] == [INVALID_FRAME];
  }

  /**
   One octet of the frame of `p` is sent, then a write fails, then `q` is delivered and sent whole. The error has left
   the wire inside a frame, and the client, which has read everything, emits an error message instead of `q`.
   */
  lemma TornFrameGarbles(accepts: Bytes -> bool, p: Bytes, q: Bytes)
    requires p != [] && Encodable(p) && accepts(p) && 1 <= |q| < 256 && accepts(q) && q != INVALID_FRAME
    ensures var steps := [Send(p), Flushed(1), Fail, Send(q), Flushed(4 + |q|), Receive(5 + |q|)];
            && CanRun(accepts, IDLE, steps)
            && var l := Run(accepts, IDLE, steps);
               && l.taken == |l.wire| && l.sender.queue == [] && l.kept == [q]
               && l.emitted == [INVALID_FRAME] && !(l.emitted <= l.kept)
  {
    Tears(accepts, p);
    SendsWhole(accepts, p, q);
    Garbles(accepts, [p, q], q);
    var last := Resting([p, q], [q], [0] + Frame(q));
    assert [INVALID_FRAME][0] != [q][0];
    RunsThrough(accepts, [Send(p), Flushed(1), Fail, Send(q), Flushed(4 + |q|), Receive(5 + |q|)],
                [IDLE, Sending(p, 0, [p], [], false), Sending(p, 1, [p], [0], false), Resting([p], [], [0]),
                 Sending(q, 0, [p, q], [0], true), last, last.(taken := 5 + |q|, emitted := [INVALID_FRAME])]);
  }

  /** A run follows the states its steps lead through. */
  lemma {:induction false} RunsThrough(accepts: Bytes -> bool, steps: seq<Step>, states: seq<Link>)
    requires |states| == |steps| + 1
    requires forall i :: 0 <= i < |steps| ==> Enabled(accepts, states[i], steps[i])
                                              && Next(accepts, states[i], steps[i]) == states[i + 1]
    ensures CanRun(accepts, states[0], steps) && Run(accepts, states[0], steps) == states[|steps|]
    decreases |steps|
  {
    if steps != [] {
      assert Enabled(accepts, states[0], steps[0]) && Next(accepts, states[0], steps[0]) == states[1];
      forall i | 0 <= i < |steps[1..]|
        ensures Enabled(accepts, states[1..][i], steps[1..][i])
                && Next(accepts, states[1..][i], steps[1..][i]) == states[1..][i + 1]
      {
        assert steps[1..][i] == steps[i + 1] && states[1..][i] == states[i + 1] && states[1..][i + 1] == states[i + 2];
      }
      RunsThrough(accepts, steps[1..], states[1..]);
    }
  }

  /** A write that fails before anything was sent drops the payload: it was delivered, and the wire never carries it. */
  lemma QueuedCanBeDropped(accepts: Bytes -> bool, p: Bytes)
    requires p != [] && Encodable(p) && accepts(p)
    ensures var steps := [Send(p), Fail];
            && CanRun(accepts, IDLE, steps)
            && var l := Run(accepts, IDLE, steps);
               l.delivered == [p] && l.kept == [] && l.wire == [] && l.sender.queue == [] && !l.torn
  {
    var steps := [Send(p), Fail];
    var l1 := Link(Sender([Frame(p)], 0, true, 1), [p], [p], [], 0, [], [], false, false);
    var l2 := l1.(sender := Sender([], 0, false, 0), kept := [], failed := true);
    assert Next(accepts, IDLE, steps[0]) == l1;
    assert Next(accepts, l1, steps[1]) == l2;
    RunsThrough(accepts, steps, [IDLE, l1, l2]);
  }
}
