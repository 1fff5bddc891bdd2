/** The mutable endpoints of the channel: the server's session object and the read loops of the clients. */
module Session {
  import opened Octets
  import opened Frames
  import Channel
  import RateLimit

  datatype Encoded = TooLarge | Encoded(frame: Bytes)

  /** The server's encoder, which refuses bodies above the limit. */
  method Encode(json: Bytes) returns (r: Encoded)
    ensures r == if Channel.Encodable(json) then Encoded(Frame(json)) else TooLarge
  {
    if |json| > SERVER_LIMIT {
      return TooLarge;
    }
    var frame: Bytes := [];
    frame := frame + [|json| / 0x100_0000 % 256];
    frame := frame + [|json| / 0x1_0000 % 256];
    frame := frame + [|json| / 0x100 % 256];
    frame := frame + [|json| % 256];
    assert frame == Header(|json|);
    frame := frame + json;
    return Encoded(frame);
  }

  /** The octets a receiver has not decoded yet, edited in place by the three decoders. */
  class ReadBuffer {
    var data: Bytes

    constructor ()
      ensures data == []
    {
      data := [];
    }

    /** The server's decoder: a rejected header clears the buffer and ends the loop. */
    method TryDecode() returns (ok: bool, json: Bytes)
      modifies this
      ensures match Frames.TryDecode(Server, old(data))
              case Stop(rest) => !ok && data == rest
              case Emit(message, rest) => ok && json == message && data == rest
    {
      ok, json := false, [];
      if |data| < 4 {
        return;
      }
      var len := HeaderValue(data);
      if len == 0 || len > SERVER_LIMIT {
        data := [];
        return;
      }
      if |data| < 4 + len {
        return;
      }
      ok, json := true, data[4..4 + len];
      data := data[4 + len..];
    }

    /** The Rust decoder: a rejected header is reported as a message, and a body that is not text is dropped. */
    method TryDecodeFrame(accepts: Bytes -> bool) returns (ok: bool, json: Bytes)
      modifies this
      ensures match Frames.TryDecode(Rust(accepts), old(data))
              case Stop(rest) => !ok && data == rest
              case Emit(message, rest) => ok && json == message && data == rest
    {
      ok, json := false, [];
      if |data| < 4 {
        return;
      }
      var len := HeaderValue(data);
      if len == 0 || len > CLIENT_LIMIT {
        data := [];
        return true, INVALID_FRAME;
      }
      if |data| < 4 + len {
        return;
      }
      var body := data[4..4 + len];
      data := data[4 + len..];
      if accepts(body) {
        ok, json := true, body;
      }
    }

    /** The legacy decoder: the whole loop over the buffer, with its fallback for bare JSON text. */
    method DecodeFrames() returns (frames: seq<Bytes>)
      modifies this
      ensures Output(frames, data) == Drain(Legacy, old(data))
    {
      frames := [];
      ghost var whole := Drain(Legacy, data);
      while data != []
        invariant whole == Finish(Legacy, frames, data)
        decreases |data|
      {
        FinishStep(Legacy, frames, data);
        ghost var attempt := Frames.TryDecode(Legacy, data);
        if data[0] == BRACE {
          frames := frames + [data];
          data := [];
          break;
        }
        if |data| < 4 {
          assert attempt == Stop(data);
          break;
        }
        var len := HeaderValue(data);
        if len == 0 || len > CLIENT_LIMIT {
          frames := frames + [data];
          data := [];
          break;
        }
        if |data| < 4 + len {
          assert attempt == Stop(data);
          break;
        }
        assert attempt == Emit(data[4..4 + len], data[4 + len..]);
        frames := frames + [data[4..4 + len]];
        data := data[4 + len..];
      }
      FinishStep(Legacy, frames, data);
    }
  }

  /** The reading and writing state of one server session. */
  class AsyncSession {
    const accumulator: ReadBuffer
    var writeQueue: seq<Bytes>
    var writeOffset: nat
    var writing: bool
    var inFlight: nat
    var rateWindowStart: int
    var messagesThisWindow: nat

    constructor (now: int)
      ensures fresh(accumulator) && accumulator.data == []
      ensures Sending() == Channel.IDLE.sender
      ensures Rate() == RateLimit.Window(now, 0)
    {
      accumulator := new ReadBuffer();
      writeQueue, writeOffset, writing, inFlight := [], 0, false, 0;
      rateWindowStart, messagesThisWindow := now, 0;
    }

    ghost function Sending(): Channel.Sender
      reads this
    {
      Channel.Sender(writeQueue, writeOffset, writing, inFlight)
    }

    ghost function Rate(): RateLimit.Window
      reads this
    {
      RateLimit.Window(rateWindowStart, messagesThisWindow)
    }

    method DoWrite()
      modifies this
      ensures Sending() == Channel.StartWrite(old(Sending())) && Rate() == old(Rate())
    {
      if writeQueue == [] {
        writing := false;
        return;
      }
      writing := true;
      inFlight := inFlight + 1;
    }

    method Deliver(json: Bytes) returns (thrown: bool)
      modifies this
      ensures thrown == !Channel.Encodable(json)
      ensures Sending() == if thrown then old(Sending()) else Channel.Deliver(old(Sending()), json)
      ensures Rate() == old(Rate())
    {
      var encoded := Encode(json);
      if encoded.TooLarge? {
        return true;
      }
      writeQueue := writeQueue + [encoded.frame];
      if !writing {
        DoWrite();
      }
      return false;
    }

    /** The completion handler of a write that sent `bytes` octets. */
    method OnWritten(bytes: nat)
      requires Channel.CanComplete(Sending(), bytes)
      modifies this
      ensures Sending() == Channel.Written(old(Sending()), bytes) && Rate() == old(Rate())
    {
      inFlight := inFlight - 1;
      writeOffset := writeOffset + bytes;
      if writeOffset < |writeQueue[0]| {
        DoWrite();
        return;
      }
      writeQueue := writeQueue[1..];
      writeOffset := 0;
      DoWrite();
    }

    method OnWriteError()
      requires inFlight > 0
      modifies this
      ensures Sending() == Channel.WriteFailed(old(Sending())) && Rate() == old(Rate())
    {
      inFlight := inFlight - 1;
      writeQueue := [];
      writeOffset := 0;
      writing := false;
    }

    /** The completion handler of a read: returns the messages it dispatches, in order. */
    method OnRead(chunk: Bytes) returns (messages: seq<Bytes>)
      modifies accumulator
      ensures Output(messages, accumulator.data) == Frames.Read(Server, old(accumulator.data), chunk)
    {
      accumulator.data := accumulator.data + chunk;
      ghost var whole := Drain(Server, accumulator.data);
      messages := [];
      FinishStep(Server, [], accumulator.data);
      var ok, message := accumulator.TryDecode();
      while ok
        invariant whole == if ok then Finish(Server, messages + [message], accumulator.data)
                           else Output(messages, accumulator.data)
        decreases ok, |accumulator.data|
      {
        messages := messages + [message];
        FinishStep(Server, messages, accumulator.data);
        ok, message := accumulator.TryDecode();
      }
      if |accumulator.data| > SERVER_LIMIT {
        accumulator.data := [];
      }
    }

    method ConsumeRateLimitToken(now: int) returns (accepted: bool)
      modifies this
      ensures Rate() == RateLimit.Arrive(old(Rate()), now)
      ensures accepted == RateLimit.Accepts(old(Rate()), now)
      ensures Sending() == old(Sending())
    {
      if now - rateWindowStart >= RateLimit.SECOND {
        rateWindowStart := now;
        messagesThisWindow := 0;
      }
      messagesThisWindow := messagesThisWindow + 1;
      accepted := messagesThisWindow <= RateLimit.QUOTA;
    }
  }

  /** The body of the Rust client's read loop, for one read that returned `chunk`. */
  method ClientRead(accumulator: ReadBuffer, chunk: Bytes, accepts: Bytes -> bool) returns (emitted: seq<Bytes>)
    modifies accumulator
    ensures Output(emitted, accumulator.data) == Frames.Read(Rust(accepts), old(accumulator.data), chunk)
  {
    accumulator.data := accumulator.data + chunk;
    ghost var whole := Drain(Rust(accepts), accumulator.data);
    emitted := [];
    FinishStep(Rust(accepts), [], accumulator.data);
    var ok, json := accumulator.TryDecodeFrame(accepts);
    while ok
      invariant whole == if ok then Finish(Rust(accepts), emitted + [json], accumulator.data)
                         else Output(emitted, accumulator.data)
      decreases ok, |accumulator.data|
    {
      emitted := emitted + [json];
      FinishStep(Rust(accepts), emitted, accumulator.data);
      ok, json := accumulator.TryDecodeFrame(accepts);
    }
    if |accumulator.data| > CLIENT_LIMIT {
      accumulator.data := [];
    }
  }
}
