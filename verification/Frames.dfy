/**
 The length-prefixed frames that carry every chat message, and the three decoders of them:
 the server's (C++), the client's (Rust) and the legacy client's (Qt).
 */
module Frames {
  import opened Basics
  import opened Octets

  /** Largest body the server accepts; also the size above which it drops its read accumulator. */
  const SERVER_LIMIT: nat := 256 * 1024

  /** The corresponding limit of the Rust client and of the legacy codec. */
  const CLIENT_LIMIT: nat := 4 * 1024 * 1024

  /** Size of the buffer the server hands to each socket read. */
  const SERVER_READ: nat := 65536

  const BRACE: byte := 123

  /** The text the Rust decoder emits for a header it rejects. */
  const INVALID_FRAME: Bytes :=
    [123, 34, 116, 121, 112, 101, 34, 58, 51, 51, 44, 34, 115, 116, 97, 116, 117, 115, 34, 58, 34, 101, 114,
     114, 111, 114, 34, 44, 34, 99, 111, 100, 101, 34, 58, 52, 48, 48, 44, 34, 109, 115, 103, 34, 58, 34, 105,
     110, 118, 97, 108, 105, 100, 32, 102, 114, 97, 109, 101, 34, 125]

  // ---------------------------------------------------------------- headers and frames

  /** The four header octets of the 32-bit truncation of `n`, most significant first. */
  function Header(n: nat): (h: Bytes)
    ensures |h| == 4
  {
    [n / 0x100_0000 % 256, n / 0x1_0000 % 256, n / 0x100 % 256, n % 256]
  }

  function HeaderValue(h: Bytes): nat
    requires |h| >= 4
  {
    (h[0] as int) * 0x100_0000 + (h[1] as int) * 0x1_0000 + (h[2] as int) * 0x100 + h[3] as int
  }

  function Frame(body: Bytes): Bytes {
    Header(|body|) + body
  }

  /** The octets of a sequence of frames. */
  function Stream(bodies: seq<Bytes>): Bytes {
    if bodies == [] then [] else Frame(bodies[0]) + Stream(bodies[1..])
  }

  lemma HeaderRoundTrip(n: nat)
    ensures HeaderValue(Header(n)) == n % 0x1_0000_0000
    ensures n < 0x100_0000 ==> Header(n)[0] == 0
  {
    var a, b, c := n / 0x100, n / 0x1_0000, n / 0x100_0000;
    assert b == a / 0x100 && c == b / 0x100;
    assert n == 0x100 * a + n % 256 && a == 0x100 * b + a % 256 && b == 0x100 * c + b % 256;
    assert c == 256 * (c / 256) + c % 256;
    var low := HeaderValue(Header(n));
    assert n == 0x1_0000_0000 * (c / 256) + low;
    assert 0 <= low < 0x1_0000_0000;
  }

  /** The octets are the digits of the length to base 256, the highest first. */
  lemma HeaderIsBigEndian(n: nat, h: Bytes)
    requires |h| == 4
    ensures var value := (((h[0] as int) * 256 + h[1] as int) * 256 + h[2] as int) * 256 + h[3] as int;
            HeaderValue(h) == value && (h == Header(n) <==> value == n % 0x1_0000_0000)
  {
    HeaderRoundTrip(n);
    if HeaderValue(h) == HeaderValue(Header(n)) {
      HeadersDiffer(h, Header(n));
    }
  }

  /** No two headers have one value. */
  lemma HeadersDiffer(h: Bytes, g: Bytes)
    requires |h| == |g| == 4
    requires HeaderValue(h) == HeaderValue(g)
    ensures h == g
  {
    var a, b := (h[0] as int) * 256 + h[1] as int, (g[0] as int) * 256 + g[1] as int;
    var c, d := a * 256 + h[2] as int, b * 256 + g[2] as int;
    assert HeaderValue(h) == c * 256 + h[3] as int && HeaderValue(g) == d * 256 + g[3] as int;
    LastDigit(c, h[3] as int, d, g[3] as int);
    LastDigit(a, h[2] as int, b, g[2] as int);
    LastDigit(h[0] as int, h[1] as int, g[0] as int, g[1] as int);
  }

  lemma LastDigit(a: int, x: int, b: int, y: int)
    requires 0 <= x < 256 && 0 <= y < 256 && a * 256 + x == b * 256 + y
    ensures a == b && x == y
  {
  }

  lemma {:induction false} StreamAppend(left: seq<Bytes>, right: seq<Bytes>)
    ensures Stream(left + right) == Stream(left) + Stream(right)
  {
    if left == [] {
      assert left + right == right;
    } else {
      assert (left + right)[1..] == left[1..] + right;
      StreamAppend(left[1..], right);
    }
  }

  lemma StreamSnoc(bodies: seq<Bytes>, last: Bytes)
    ensures Stream(bodies + [last]) == Stream(bodies) + Frame(last)
  {
    StreamAppend(bodies, [last]);
    assert Stream([last]) == Frame(last) + Stream([]);
  }

  // ---------------------------------------------------------------- one decoding attempt

  datatype Verdict = Wait | Invalid | Complete(body: Bytes, rest: Bytes)

  /** What the header at the front of `buffer` says, under a body limit. */
  function Inspect(buffer: Bytes, limit: nat): Verdict {
    if |buffer| < 4 then Wait
    else
      var len := HeaderValue(buffer);
      if len == 0 || len > limit then Invalid
      else if |buffer| < 4 + len then Wait
      else Complete(buffer[4..4 + len], buffer[4 + len..])
  }

  /**
   The three decoders. `accepts` stands for the UTF-8 check of the Rust standard library, which is not
   part of this model: the theorems hold for whichever octet strings it accepts.
   */
  datatype Codec = Server | Rust(accepts: Bytes -> bool) | Legacy

  function Limit(codec: Codec): nat {
    if codec.Server? then SERVER_LIMIT else CLIENT_LIMIT
  }

  /** A decoding attempt either ends the loop or yields a message; both leave a buffer behind. */
  datatype Attempt = Stop(rest: Bytes) | Emit(message: Bytes, rest: Bytes)

  function TryDecode(codec: Codec, buffer: Bytes): (a: Attempt)
    ensures a.Emit? ==> |a.rest| < |buffer|
  {
    match codec
    case Server => (
      match Inspect(buffer, SERVER_LIMIT)
      case Wait => Stop(buffer)
      case Invalid => Stop([])
      case Complete(body, rest) => Emit(body, rest))
    case Rust(accepts) => (
      match Inspect(buffer, CLIENT_LIMIT)
      case Wait => Stop(buffer)
      case Invalid => Emit(INVALID_FRAME, [])
      case Complete(body, rest) => if accepts(body) then Emit(body, rest) else Stop(rest))
    case Legacy =>
      if buffer == [] then Stop([])
      else if buffer[0] == BRACE then Emit(buffer, [])
      else
        match Inspect(buffer, CLIENT_LIMIT)
        case Wait => Stop(buffer)
        case Invalid => Emit(buffer, [])
        case Complete(body, rest) => Emit(body, rest)
  }

  datatype Output = Output(messages: seq<Bytes>, rest: Bytes)

  /** The decode loop: attempts until one stops. */
  function Drain(codec: Codec, buffer: Bytes): Output
    decreases |buffer|
  {
    match TryDecode(codec, buffer)
    case Stop(rest) => Output([], rest)
    case Emit(message, rest) =>
      var more := Drain(codec, rest);
      Output([message] + more.messages, more.rest)
  }

  /** The output of the loop when `done` has been yielded and `buffer` is left. */
  function Finish(codec: Codec, done: seq<Bytes>, buffer: Bytes): Output {
    var more := Drain(codec, buffer);
    Output(done + more.messages, more.rest)
  }

  /** Each iteration keeps the loop's final output. */
  lemma FinishStep(codec: Codec, done: seq<Bytes>, buffer: Bytes)
    ensures match TryDecode(codec, buffer)
            case Stop(rest) => Finish(codec, done, buffer) == Output(done, rest)
            case Emit(message, rest) => Finish(codec, done, buffer) == Finish(codec, done + [message], rest)
  {
    match TryDecode(codec, buffer) {
      case Stop(_) => assert done + [] == done;
      case Emit(message, rest) =>
        var more := Drain(codec, rest);
        assert done + ([message] + more.messages) == (done + [message]) + more.messages;
    }
  }

  /** One socket read: append, drain, and (except in the legacy codec) drop an oversized accumulator. */
  function Read(codec: Codec, accumulator: Bytes, chunk: Bytes): Output {
    var drained := Drain(codec, accumulator + chunk);
    if !codec.Legacy? && |drained.rest| > Limit(codec) then drained.(rest := []) else drained
  }

  /** A sequence of reads, starting from an accumulator. */
  function ReadAll(codec: Codec, accumulator: Bytes, chunks: seq<Bytes>): Output
    decreases |chunks|
  {
    if chunks == [] then Output([], accumulator)
    else
      var first := Read(codec, accumulator, chunks[0]);
      var later := ReadAll(codec, first.rest, chunks[1..]);
      Output(first.messages + later.messages, later.rest)
  }

  // ---------------------------------------------------------------- reassembly

  /** Bodies that survive every chunking: non-empty, three octets below the limit, accepted as text. */
  ghost predicate Fits(codec: Codec, body: Bytes) {
    && 1 <= |body| <= Limit(codec) - 3
    && (codec.Rust? ==> codec.accepts(body))
  }

  ghost predicate AllFit(codec: Codec, bodies: seq<Bytes>) {
    forall i :: 0 <= i < |bodies| ==> Fits(codec, bodies[i])
  }

  /** `rest` is a part of the first of `bodies`: empty if there is none, otherwise short of its frame. */
  ghost predicate Partial(bodies: seq<Bytes>, rest: Bytes) {
    && rest <= Stream(bodies)
    && (bodies == [] || |rest| < 4 + |bodies[0]|)
  }

  lemma InspectFrame(buffer: Bytes, body: Bytes, limit: nat)
    requires 1 <= |body| <= limit < 0x100_0000
    ensures buffer <= Frame(body) && |buffer| < |Frame(body)| ==> Inspect(buffer, limit) == Wait
    ensures Frame(body) <= buffer ==> Inspect(buffer, limit) == Complete(body, buffer[|Frame(body)|..])
  {
    HeaderRoundTrip(|body|);
    if |buffer| >= 4 && (buffer <= Frame(body) || Frame(body) <= buffer) {
      assert buffer[..4] == Header(|body|);
      assert HeaderValue(buffer) == HeaderValue(buffer[..4]) == |body|;
      if Frame(body) <= buffer {
        assert buffer[4..4 + |body|] == buffer[..|Frame(body)|][4..] == body;
      }
    }
  }

  /** The legacy fallback for bare JSON text looks at the first octet, which is 0 in every frame header. */
  lemma NoBraceAtBoundary(body: Bytes, buffer: Bytes)
    requires |body| <= CLIENT_LIMIT
    requires buffer != []
    requires buffer <= Frame(body) || Frame(body) <= buffer
    ensures buffer[0] != BRACE
  {
    HeaderRoundTrip(|body|);
    assert buffer[0] == Frame(body)[0] == Header(|body|)[0];
  }

  lemma AttemptOnFrame(codec: Codec, buffer: Bytes, body: Bytes)
    requires 1 <= |body| <= Limit(codec)
    requires codec.Rust? ==> codec.accepts(body)
    ensures buffer <= Frame(body) && |buffer| < |Frame(body)| ==> TryDecode(codec, buffer) == Stop(buffer)
    ensures Frame(body) <= buffer ==> TryDecode(codec, buffer) == Emit(body, buffer[|Frame(body)|..])
  {
    InspectFrame(buffer, body, Limit(codec));
    if codec.Legacy? && buffer != [] && (buffer <= Frame(body) || Frame(body) <= buffer) {
      NoBraceAtBoundary(body, buffer);
    }
  }

  /** `out` is what a decoder should have made of `octets`, a prefix of the stream of `bodies`. */
  ghost predicate Decoded(bodies: seq<Bytes>, octets: Bytes, out: Output) {
    && out.messages <= bodies
    && Stream(out.messages) + out.rest == octets
    && Partial(bodies[|out.messages|..], out.rest)
  }

  lemma PrefixThen(bodies: seq<Bytes>, a: seq<Bytes>, b: seq<Bytes>)
    requires a <= bodies && b <= bodies[|a|..]
    ensures a + b <= bodies && bodies[|a + b|..] == bodies[|a|..][|b|..]
  {
    var left := bodies[|a|..];
    assert bodies == a + left && left == b + left[|b|..];
    assert bodies == (a + b) + left[|b|..];
  }

  /** Decoding may stop after some whole frames and go on from there. */
  lemma DecodedThen(bodies: seq<Bytes>, first: Output, tail: Bytes, later: Output)
    requires first.messages <= bodies
    requires Decoded(bodies[|first.messages|..], first.rest + tail, later)
    ensures Decoded(bodies, Stream(first.messages) + first.rest + tail,
                    Output(first.messages + later.messages, later.rest))
  {
    PrefixThen(bodies, first.messages, later.messages);
    StreamAppend(first.messages, later.messages);
    Assoc(Stream(first.messages), first.rest, tail);
    Assoc(Stream(first.messages), Stream(later.messages), later.rest);
  }

  /** What follows the whole frames at the front of a stream prefix is a prefix of the remaining stream. */
  lemma RemainingStream(bodies: seq<Bytes>, done: seq<Bytes>, tail: Bytes)
    requires done <= bodies
    requires Stream(done) + tail <= Stream(bodies)
    ensures tail <= Stream(bodies[|done|..])
  {
    var left := bodies[|done|..];
    assert bodies == done + left;
    StreamAppend(done, left);
    PrefixSplit(Stream(done) + tail, Stream(done), Stream(left));
    assert (Stream(done) + tail)[|Stream(done)|..] == tail;
  }

  /** Draining a prefix of a stream yields exactly the bodies whose frames are complete in it. */
  lemma {:induction false} DrainPrefix(codec: Codec, buffer: Bytes, bodies: seq<Bytes>)
    requires AllFit(codec, bodies)
    requires buffer <= Stream(bodies)
    ensures Decoded(bodies, buffer, Drain(codec, buffer))
    decreases |bodies|
  {
    if bodies == [] {
      assert buffer == [];
      assert TryDecode(codec, buffer) == Stop([]);
    } else {
      var body, frame := bodies[0], Frame(bodies[0]);
      assert Fits(codec, body);
      AttemptOnFrame(codec, buffer, body);
      if |buffer| < |frame| {
        assert buffer == Stream(bodies)[..|buffer|] == frame[..|buffer|];
        assert bodies[0..] == bodies && Stream([]) + buffer == buffer;
      } else {
        PrefixSplit(buffer, frame, Stream(bodies[1..]));
        var tail := buffer[|frame|..];
        DrainPrefix(codec, tail, bodies[1..]);
        assert Stream([body]) == frame + Stream([]) == frame;
        assert [] + tail == tail && frame + [] + tail == buffer;
        DecodedThen(bodies, Output([body], []), tail, Drain(codec, tail));
      }
    }
  }

  /** One read of the next octets of a stream never overflows the accumulator. */
  lemma ReadPrefix(codec: Codec, accumulator: Bytes, chunk: Bytes, bodies: seq<Bytes>)
    requires AllFit(codec, bodies)
    requires accumulator + chunk <= Stream(bodies)
    ensures Decoded(bodies, accumulator + chunk, Read(codec, accumulator, chunk))
  {
    DrainPrefix(codec, accumulator + chunk, bodies);
    var out := Drain(codec, accumulator + chunk);
    if |out.messages| < |bodies| {
      assert Fits(codec, bodies[|out.messages|]);
      assert |out.rest| <= Limit(codec);
    }
  }

  /** A read of the octets that follow those decoded so far decodes them too. */
  lemma ReadDecodes(codec: Codec, bodies: seq<Bytes>, octets: Bytes, out: Output, chunk: Bytes)
    requires AllFit(codec, bodies) && Decoded(bodies, octets, out)
    requires octets + chunk <= Stream(bodies)
    ensures var read := Read(codec, out.rest, chunk);
            Decoded(bodies, octets + chunk, Output(out.messages + read.messages, read.rest))
  {
    Assoc(Stream(out.messages), out.rest, chunk);
    RemainingStream(bodies, out.messages, out.rest + chunk);
    var left := bodies[|out.messages|..];
    assert AllFit(codec, left);
    ReadPrefix(codec, out.rest, chunk, left);
    DecodedThen(bodies, out, chunk, Read(codec, out.rest, chunk));
  }

  /** Reads that together bring a prefix of a stream, whatever their sizes, decode it. */
  lemma {:induction false} Reassembly(codec: Codec, accumulator: Bytes, chunks: seq<Bytes>, bodies: seq<Bytes>)
    requires AllFit(codec, bodies)
    requires Partial(bodies, accumulator)
    requires accumulator + Join(chunks) <= Stream(bodies)
    ensures Decoded(bodies, accumulator + Join(chunks), ReadAll(codec, accumulator, chunks))
    decreases |chunks|
  {
    if chunks == [] {
      assert accumulator + Join(chunks) == accumulator == Stream([]) + accumulator;
      assert bodies[0..] == bodies;
    } else {
      var tail := Join(chunks[1..]);
      var next := accumulator + chunks[0];
      Assoc(accumulator, chunks[0], tail);
      assert next == (next + tail)[..|next|];
      ReadPrefix(codec, accumulator, chunks[0], bodies);
      var first := Read(codec, accumulator, chunks[0]);
      Assoc(Stream(first.messages), first.rest, tail);
      RemainingStream(bodies, first.messages, first.rest + tail);
      var left := bodies[|first.messages|..];
      assert AllFit(codec, left);
      Reassembly(codec, first.rest, chunks[1..], left);
      DecodedThen(bodies, first, tail, ReadAll(codec, first.rest, chunks[1..]));
    }
  }

  /** A decoder that has decoded a whole stream has yielded every body and holds nothing back. */
  lemma DecodedWhole(bodies: seq<Bytes>, out: Output)
    requires Decoded(bodies, Stream(bodies), out)
    ensures out == Output(bodies, [])
  {
    var left := bodies[|out.messages|..];
    assert bodies == out.messages + left;
    StreamAppend(out.messages, left);
    assert Stream(left) == (Stream(out.messages) + Stream(left))[|Stream(out.messages)|..] == out.rest;
    assert left == [];
  }

  /** Once the whole stream has been read, every decoder has yielded exactly the bodies, in order. */
  lemma AllBodiesArrive(codec: Codec, chunks: seq<Bytes>, bodies: seq<Bytes>)
    requires AllFit(codec, bodies)
    requires Join(chunks) == Stream(bodies)
    ensures ReadAll(codec, [], chunks) == Output(bodies, [])
  {
    assert [] + Join(chunks) == Stream(bodies);
    Reassembly(codec, [], chunks, bodies);
    DecodedWhole(bodies, ReadAll(codec, [], chunks));
  }

  // ---------------------------------------------------------------- the tight limit of the server loop

  ghost predicate ServerChunks(chunks: seq<Bytes>, octets: Bytes) {
    && Join(chunks) == octets
    && forall i :: 0 <= i < |chunks| ==> |chunks[i]| <= SERVER_READ
  }

  /** While a frame is incomplete, a read only accumulates; past the limit it forgets everything. */
  lemma ReadIncomplete(body: Bytes, from: nat, to: nat)
    requires 1 <= |body| <= SERVER_LIMIT
    requires from <= to < |Frame(body)|
    ensures Read(Server, Frame(body)[..from], Frame(body)[from..to])
            == Output([], if to > SERVER_LIMIT then [] else Frame(body)[..to])
  {
    var frame := Frame(body);
    assert frame[..from] + frame[from..to] == frame[..to];
    AttemptOnFrame(Server, frame[..to], body);
  }

  /** A chunking, in reads the server can make, that loses any body longer than the limit minus three. */
  function LossyChunks(frame: Bytes): seq<Bytes>
    requires SERVER_LIMIT + 1 < |frame|
  {
    [frame[..65536], frame[65536..131072], frame[131072..196608], frame[196608..262144],
     frame[262144..262145], frame[262145..]]
  }

  lemma LossyChunksJoin(frame: Bytes)
    requires SERVER_LIMIT + 1 < |frame| <= SERVER_LIMIT + 4
    ensures ServerChunks(LossyChunks(frame), frame)
  {
    var c := LossyChunks(frame);
    assert c[5..] == [frame[262145..]];
    assert Join(c[5..]) == frame[262145..];
    assert c[4..][1..] == c[5..] && Join(c[4..]) == frame[262144..262145] + frame[262145..] == frame[262144..];
    assert c[3..][1..] == c[4..] && Join(c[3..]) == frame[196608..262144] + frame[262144..] == frame[196608..];
    assert c[2..][1..] == c[3..] && Join(c[2..]) == frame[131072..196608] + frame[196608..] == frame[131072..];
    assert c[1..][1..] == c[2..] && Join(c[1..]) == frame[65536..131072] + frame[131072..] == frame[65536..];
    assert Join(c) == frame[..65536] + frame[65536..] == frame;
  }

  lemma LongBodyLost(body: Bytes)
    requires SERVER_LIMIT - 3 < |body| <= SERVER_LIMIT
    ensures ReadAll(Server, [], LossyChunks(Frame(body))).messages == []
  {
    var frame := Frame(body);
    var c := LossyChunks(frame);
    assert frame[..0] == [] && frame[..65536] == frame[0..65536];
    ReadIncomplete(body, 0, 65536);
    ReadIncomplete(body, 65536, 131072);
    ReadIncomplete(body, 131072, 196608);
    ReadIncomplete(body, 196608, 262144);
    ReadIncomplete(body, 262144, 262145);
    var last := frame[262145..];
    assert |last| < 4 && [] + last == last;
    assert Read(Server, [], last) == Output([], last);
    assert c[5..] == [last];
    assert ReadAll(Server, last, []) == Output([], last);
    assert ReadAll(Server, [], c[5..]).messages == [];
    assert c[4..][1..] == c[5..] && ReadAll(Server, frame[..262144], c[4..]).messages == [];
    assert c[3..][1..] == c[4..] && ReadAll(Server, frame[..196608], c[3..]).messages == [];
    assert c[2..][1..] == c[3..] && ReadAll(Server, frame[..131072], c[2..]).messages == [];
    assert c[1..][1..] == c[2..] && ReadAll(Server, frame[..65536], c[1..]).messages == [];
    assert ReadAll(Server, [], c).messages == [];
  }

  /** A body the server encodes survives every chunking of its frame exactly if it is at most the limit minus three. */
  lemma ServerLimitIsTight(body: Bytes)
    requires 1 <= |body| <= SERVER_LIMIT
    ensures |body| <= SERVER_LIMIT - 3
            <==> forall chunks :: ServerChunks(chunks, Frame(body)) ==> ReadAll(Server, [], chunks).messages == [body]
  {
    assert Stream([body]) == Frame(body) + Stream([]) == Frame(body);
    if |body| <= SERVER_LIMIT - 3 {
      forall chunks | ServerChunks(chunks, Frame(body))
        ensures ReadAll(Server, [], chunks).messages == [body]
      {
        AllBodiesArrive(Server, chunks, [body]);
      }
    } else {
      LossyChunksJoin(Frame(body));
      LongBodyLost(body);
    }
  }
}
