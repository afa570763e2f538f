/** One connection of the DB connector: the protocol is sniffed from the first bytes,
    however the reads are chunked, then served as one request or as a loop of frames. */
module DbConnector {
  import opened Wrappers

  newtype byte = b: int | 0 <= b < 256

  type Bytes = seq<byte>

  const U32_LIMIT: nat := 0x1_0000_0000

  /** Everything the module sends before it closes, and the sizes in which the
      transport hands it over. Any plan of sizes is possible. */
  class Stream {
    const sent: Bytes
    var pos: nat
    /** The size of each coming read, as far as planned; bounds are enforced by `Read`. */
    var plan: seq<nat>
    var written: Bytes

    ghost predicate Valid()
      reads this
    {
      pos <= |sent|
    }

    constructor (sent: Bytes, plan: seq<nat>)
      ensures Valid() && this.sent == sent && pos == 0 && written == []
    {
      this.sent, this.plan, pos, written := sent, plan, 0, [];
    }

    /** At most `wanted` bytes; none only at the end of the stream. */
    method Read(wanted: nat) returns (chunk: Bytes)
      requires Valid() && wanted > 0
      modifies this`pos, this`plan
      ensures Valid() && pos == old(pos) + |chunk| && |chunk| <= wanted
      ensures chunk == sent[old(pos)..pos]
      ensures chunk == [] <==> old(pos) == |sent|
    {
      var size := if plan == [] || plan[0] == 0 then 1 else plan[0];
      plan := if plan == [] then [] else plan[1..];
      var left := |sent| - pos;
      size := if size > wanted then wanted else size;
      size := if size > left then left else size;
      chunk := sent[pos..pos + size];
      pos := pos + size;
    }

    /** Reads until `wanted` bytes are there or the stream ends. */
    method ReadUpTo(wanted: nat) returns (chunk: Bytes)
      requires Valid()
      modifies this`pos, this`plan
      ensures Valid() && pos == old(pos) + |chunk|
      ensures chunk == sent[old(pos)..pos]
      ensures |chunk| == if |sent| - old(pos) < wanted then |sent| - old(pos) else wanted
    {
      chunk := [];
      while |chunk| < wanted
        invariant Valid() && pos == old(pos) + |chunk| && |chunk| <= wanted
        invariant chunk == sent[old(pos)..pos]
        decreases |sent| - pos
      {
        var more := Read(wanted - |chunk|);
        if more == [] {
          break;
        }
        chunk := chunk + more;
      }
    }

    method WriteAll(bytes: Bytes)
      modifies this`written
      ensures written == old(written) + bytes
    {
      written := written + bytes;
    }
  }

  // ---------------------------------------------------------------- frames

  /** Big-endian length prefix. */
  function Header(n: nat): Bytes
    requires n < U32_LIMIT
  {
    [(n / 0x100_0000) as byte, (n / 0x1_0000 % 0x100) as byte, (n / 0x100 % 0x100) as byte, (n % 0x100) as byte]
  }

  function HeaderValue(h: Bytes): nat
    requires |h| == 4
  {
    h[0] as nat * 0x100_0000 + h[1] as nat * 0x1_0000 + h[2] as nat * 0x100 + h[3] as nat
  }

  lemma HeaderRoundTrip(n: nat)
    requires n < U32_LIMIT
    ensures |Header(n)| == 4 && HeaderValue(Header(n)) == n
  {
    assert n / 0x1_0000 == n / 0x100_0000 * 0x100 + n / 0x1_0000 % 0x100;
    assert n / 0x100 == n / 0x1_0000 * 0x100 + n / 0x100 % 0x100;
  }

  /** A byte string as a number, the first byte weighing most. */
  function BigEndian(h: Bytes): nat {
    if h == [] then 0 else 0x100 * BigEndian(h[..|h| - 1]) + h[|h| - 1] as nat
  }

  /** The prefix is read and written in network byte order. */
  lemma HeaderIsBigEndian(h: Bytes, n: nat)
    requires |h| == 4 && n < U32_LIMIT
    ensures HeaderValue(h) == BigEndian(h)
    ensures BigEndian(Header(n)) == n
    ensures n < 0x100 ==> Header(n) == [0, 0, 0, n as byte]
  {
    BigEndianOfFour(h);
    BigEndianOfFour(Header(n));
    HeaderRoundTrip(n);
    hide BigEndian;
  }

  lemma BigEndianOfFour(h: Bytes)
    requires |h| == 4
    ensures BigEndian(h) == h[0] as nat * 0x100_0000 + h[1] as nat * 0x1_0000 + h[2] as nat * 0x100 + h[3] as nat
  {
    var a, b, c := h[..1], h[..2], h[..3];
    assert h[..3] == c && c[..2] == b && b[..1] == a && a[..0] == [];
    assert BigEndian(a) == h[0] as nat;
    assert BigEndian(b) == 0x100 * BigEndian(a) + h[1] as nat;
    assert BigEndian(c) == 0x100 * BigEndian(b) + h[2] as nat;
  }

  function Frame(body: Bytes): Bytes
    requires |body| < U32_LIMIT
  {
    Header(|body|) + body
  }

  ghost predicate InLimit(bodies: seq<Bytes>, limit: nat) {
    forall i | 0 <= i < |bodies| :: |bodies[i]| <= limit
  }

  /** Frames one after the other. */
  ghost function Frames(bodies: seq<Bytes>): Bytes
    requires InLimit(bodies, U32_LIMIT - 1)
  {
    if bodies == [] then [] else Frame(bodies[0]) + Frames(bodies[1..])
  }

  /** How a framed connection ends: closed between frames, a frame over the limit, a
      frame cut short, or an answer that does not fit its own length prefix. */
  datatype End = Closed | TooLarge | CutShort | AnswerTooLarge

  /** What a framed input holds: the complete bodies within the limit, then why it stops. */
  datatype Parsed = Parsed(bodies: seq<Bytes>, end: End)

  function Parse(input: Bytes, limit: nat): Parsed
    decreases |input|
  {
    if |input| < 4 then Parsed([], Closed)
    else
      var len := HeaderValue(input[..4]);
      if len > limit then Parsed([], TooLarge)
      else if |input| < 4 + len then Parsed([], CutShort)
      else
        var rest := Parse(input[4 + len..], limit);
        Parsed([input[4..4 + len]] + rest.bodies, rest.end)
  }

  /** A short frame on the wire: three zero bytes, its length, its body. */
  lemma ShortFrameParses(body: Bytes, rest: Bytes, limit: nat)
    requires |body| < 0x100 && |body| <= limit
    ensures var parsed := Parse([0, 0, 0, |body| as byte] + body + rest, limit);
            parsed == Parsed([body] + Parse(rest, limit).bodies, Parse(rest, limit).end)
  {
    var header := [0, 0, 0, |body| as byte];
    var input := header + body + rest;
    assert input[..4] == header && input[4..4 + |body|] == body && input[4 + |body|..] == rest;
    assert HeaderValue(header) == |body|;
    hide HeaderValue;
  }

  /** Why a framed connection stops: fewer than four bytes are a close between frames, a
      length over the limit a refusal, and anything shorter than announced is cut short. */
  lemma WhyItStops(rest: Bytes, limit: nat)
    requires Parse(rest, limit).bodies == []
    ensures var end := Parse(rest, limit).end;
            && (end == Closed <==> |rest| < 4)
            && (end == TooLarge <==> |rest| >= 4 && BigEndian(rest[..4]) > limit)
            && (end == CutShort <==> |rest| >= 4 && |rest| - 4 < BigEndian(rest[..4]) <= limit)
  {
    if |rest| >= 4 { HeaderIsBigEndian(rest[..4], 0); }
    hide BigEndian;
    hide HeaderValue;
  }

  lemma FrameHead(body: Bytes, rest: Bytes)
    requires |body| < U32_LIMIT
    ensures var input, len := Frame(body) + rest, |body|;
            && |input| >= 4 + len && HeaderValue(input[..4]) == len
            && input[4..4 + len] == body && input[4 + len..] == rest
  {
    HeaderRoundTrip(|body|);
    hide Header;
    hide HeaderValue;
    assert (Frame(body) + rest)[..4] == Header(|body|);
  }

  lemma ParseOneFrame(body: Bytes, rest: Bytes, limit: nat)
    requires |body| <= limit < U32_LIMIT
    ensures Parse(Frame(body) + rest, limit) == Parsed([body] + Parse(rest, limit).bodies, Parse(rest, limit).end)
  {
    hide Frame;
    hide HeaderValue;
    FrameHead(body, rest);
  }

  /** Any concatenation of in-limit frames parses back to its bodies, in order. */
  lemma {:induction false} ParseRecoversFrames(bodies: seq<Bytes>, tail: Bytes, limit: nat)
    requires limit < U32_LIMIT && InLimit(bodies, limit)
    ensures InLimit(bodies, U32_LIMIT - 1)
    ensures Parse(Frames(bodies) + tail, limit) ==
            Parsed(bodies + Parse(tail, limit).bodies, Parse(tail, limit).end)
    decreases |bodies|
  {
    hide Frame;
    hide HeaderValue;
    if bodies == [] {
      assert Frames(bodies) + tail == tail;
      assert bodies + Parse(tail, limit).bodies == Parse(tail, limit).bodies;
    } else {
      var body, rest := bodies[0], Frames(bodies[1..]) + tail;
      ParseRecoversFrames(bodies[1..], tail, limit);
      var more := Parse(tail, limit).bodies;
      assert Frames(bodies) + tail == Frame(body) + rest;
      assert bodies + more == [body] + (bodies[1..] + more);
      ParseOneFrame(body, rest, limit);
      hide Parse;
    }
  }

  lemma LowByte(high: nat, low: nat)
    requires low < 0x100
    ensures (high * 0x100 + low) / 0x100 == high && (high * 0x100 + low) % 0x100 == low
  {
  }

  lemma ByteByByte(n: nat)
    ensures n / 0x1_0000 == n / 0x100 / 0x100 && n / 0x100_0000 == n / 0x100 / 0x100 / 0x100
  {
  }

  lemma HeaderOfValue(h: Bytes)
    requires |h| == 4
    ensures HeaderValue(h) < U32_LIMIT && Header(HeaderValue(h)) == h
  {
    var a, b, c, d := h[0] as nat, h[1] as nat, h[2] as nat, h[3] as nat;
    var n := HeaderValue(h);
    var ab := a * 0x100 + b;
    var abc := ab * 0x100 + c;
    assert n == abc * 0x100 + d;
    LowByte(a, b);
    LowByte(ab, c);
    LowByte(abc, d);
    ByteByByte(n);
  }

  lemma FirstFrame(input: Bytes, len: nat)
    requires len < U32_LIMIT && |input| >= 4 + len && Header(len) == input[..4]
    ensures input == Frame(input[4..4 + len]) + input[4 + len..]
  {
    hide Header;
  }

  /** Parsing loses nothing: the input is the frames of its bodies and a rest that
      holds no further frame. */
  lemma {:induction false} ParseIsExact(input: Bytes, limit: nat) returns (rest: Bytes)
    requires limit < U32_LIMIT
    ensures InLimit(Parse(input, limit).bodies, limit)
    ensures InLimit(Parse(input, limit).bodies, U32_LIMIT - 1)
    ensures input == Frames(Parse(input, limit).bodies) + rest
    ensures Parse(rest, limit) == Parsed([], Parse(input, limit).end)
    decreases |input|
  {
    hide Header;
    hide HeaderValue;
    var parsed := Parse(input, limit);
    if parsed.bodies == [] {
      rest := input;
    } else {
      var len := HeaderValue(input[..4]);
      rest := ParseIsExact(input[4 + len..], limit);
      HeaderOfValue(input[..4]);
      assert parsed.bodies[1..] == Parse(input[4 + len..], limit).bodies;
      FirstFrame(input, len);
    }
  }

  // ---------------------------------------------------------------- serving

  /** The answers to the first bodies, in order, up to the first that is too large to
      frame. The answer may depend on everything asked so far. */
  datatype Served = Served(output: Bytes, end: End)

  /** `done` bodies are answered; answers go on from there. */
  function Serve(parsed: Parsed, answer: seq<Bytes> -> Bytes, refusal: Bytes, done: nat): Served
    requires done <= |parsed.bodies| && |refusal| < U32_LIMIT
    decreases |parsed.bodies| - done
  {
    if done == |parsed.bodies| then
      Served(if parsed.end.TooLarge? then Frame(refusal) else [], parsed.end)
    else
      var a := answer(parsed.bodies[..done + 1]);
      if |a| >= U32_LIMIT then Served([], AnswerTooLarge)
      else
        var rest := Serve(parsed, answer, refusal, done + 1);
        Served(Frame(a) + rest.output, rest.end)
  }

  ghost function Answers(bodies: seq<Bytes>, answer: seq<Bytes> -> Bytes): (r: seq<Bytes>)
    ensures |r| == |bodies|
  {
    seq(|bodies|, i requires 0 <= i < |bodies| => answer(bodies[..i + 1]))
  }

  /** When every answer can be framed, the output is one answer frame per request, and
      then the refusal if the input goes on with a frame over the limit. */
  lemma {:induction false} OneAnswerEach(parsed: Parsed, answer: seq<Bytes> -> Bytes, refusal: Bytes, done: nat)
    requires done <= |parsed.bodies| && |refusal| < U32_LIMIT
    requires InLimit(Answers(parsed.bodies, answer), U32_LIMIT - 1)
    ensures InLimit(Answers(parsed.bodies, answer)[done..], U32_LIMIT - 1)
    ensures Serve(parsed, answer, refusal, done) ==
            Served(Frames(Answers(parsed.bodies, answer)[done..]) +
                   if parsed.end.TooLarge? then Frame(refusal) else [],
                   parsed.end)
    decreases |parsed.bodies| - done
  {
    hide Frame;
    var answers := Answers(parsed.bodies, answer);
    var last := if parsed.end.TooLarge? then Frame(refusal) else [];
    if done < |parsed.bodies| {
      OneAnswerEach(parsed, answer, refusal, done + 1);
      var a := answers[done];
      assert answers[done..][0] == a == answer(parsed.bodies[..done + 1]);
      assert answers[done..][1..] == answers[done + 1..];
      assert Frame(a) + Frames(answers[done + 1..]) + last == Frame(a) + (Frames(answers[done + 1..]) + last);
    } else {
      assert answers[done..] == [];
      assert Frames([]) + last == last;
    }
  }

  /** A client that sends in-limit requests and closes gets exactly the answers, in
      order, when it takes the frames apart again. */
  lemma ClientReadsItsAnswers(bodies: seq<Bytes>, limit: nat, answer: seq<Bytes> -> Bytes, refusal: Bytes)
    requires limit < U32_LIMIT && InLimit(bodies, limit) && |refusal| < U32_LIMIT
    requires InLimit(Answers(bodies, answer), U32_LIMIT - 1)
    ensures InLimit(bodies, U32_LIMIT - 1)
    ensures Parse(Serve(Parse(Frames(bodies), limit), answer, refusal, 0).output, U32_LIMIT - 1)
         == Parsed(Answers(bodies, answer), Closed)
  {
    ParseRecoversFrames(bodies, [], limit);
    assert Frames(bodies) + [] == Frames(bodies);
    assert bodies + [] == bodies;
    OneAnswerEach(Parsed(bodies, Closed), answer, refusal, 0);
    var answers := Answers(bodies, answer);
    assert answers[0..] == answers;
    ParseRecoversFrames(answers, [], U32_LIMIT - 1);
    assert Frames(answers) + [] == Frames(answers);
    assert answers + [] == answers;
  }

  /** What the client gets to see of a one-shot connection. */
  datatype Mode = Framed(end: End) | Legacy(request: Option<Bytes>)

  class Connector {
    const preamble: Bytes
    const limit: nat
    const answer: seq<Bytes> -> Bytes
    const refusal: Bytes

    ghost predicate Configured() {
      0 < |preamble| <= 64 && |refusal| < U32_LIMIT
    }

    constructor (preamble: Bytes, limit: nat, answer: seq<Bytes> -> Bytes, refusal: Bytes)
      requires 0 < |preamble| <= 64 && |refusal| < U32_LIMIT
      ensures Configured() && this.preamble == preamble && this.limit == limit
      ensures this.answer == answer && this.refusal == refusal
    {
      this.preamble, this.limit, this.answer, this.refusal := preamble, limit, answer, refusal;
    }

    /** However the bytes arrive: framed if and only if they start with the preamble;
        otherwise the request is everything sent, if that is within the limit. */
    method ProcessStream(stream: Stream) returns (mode: Mode)
      requires Configured() && stream.Valid() && stream.pos == 0 && stream.written == []
      modifies stream
      ensures preamble <= stream.sent ==>
                var served := Serve(Parse(stream.sent[|preamble|..], limit), answer, refusal, 0);
                mode == Framed(served.end) && stream.written == served.output
      ensures !(preamble <= stream.sent) && |stream.sent| <= limit ==>
                mode == Legacy(Some(stream.sent)) && stream.written == answer([stream.sent])
      ensures !(preamble <= stream.sent) && |stream.sent| > limit ==>
                mode == Legacy(None) && stream.written == refusal
    {
      var head := Sniff(stream);
      if head == preamble {
        var end := ProcessFramed(stream);
        return Framed(end);
      }
      var request := ProcessLegacy(stream, head);
      return Legacy(request);
    }

    /** Reads no byte past the preamble. */
    method Sniff(stream: Stream) returns (head: Bytes)
      requires Configured() && stream.Valid() && stream.pos == 0
      modifies stream`pos, stream`plan
      ensures stream.Valid() && stream.pos <= |preamble|
      ensures head == stream.sent[..stream.pos]
      ensures head == preamble <==> preamble <= stream.sent
    {
      head := [];
      while |head| < |preamble| && head <= preamble
        invariant stream.Valid() && stream.pos == |head| <= |preamble|
        invariant head == stream.sent[..stream.pos]
        decreases |stream.sent| - stream.pos
      {
        var wanted := |preamble| - |head|;
        var chunk := stream.Read(wanted);
        if chunk == [] {
          break;
        }
        head := head + chunk;
      }
      if preamble <= stream.sent {
        assert head == preamble[..|head|];
      }
    }

    method ProcessLegacy(stream: Stream, head: Bytes) returns (request: Option<Bytes>)
      requires Configured() && stream.Valid() && head == stream.sent[..stream.pos]
      modifies stream
      ensures |stream.sent| <= limit ==>
                request == Some(stream.sent) && stream.written == old(stream.written) + answer([stream.sent])
      ensures |stream.sent| > limit ==> request == None && stream.written == old(stream.written) + refusal
    {
      var rest := stream.ReadUpTo(limit + 1);
      var buf := head + rest;
      assert buf == stream.sent[..stream.pos];
      if |buf| > limit {
        stream.WriteAll(refusal);
        return None;
      }
      assert buf == stream.sent;
      stream.WriteAll(answer([buf]));
      return Some(buf);
    }

    /** One frame, one answer, until the input ends. */
    method ProcessFramed(stream: Stream) returns (end: End)
      requires Configured() && stream.Valid()
      modifies stream
      ensures var served := Serve(Parse(stream.sent[old(stream.pos)..], limit), answer, refusal, 0);
              end == served.end && stream.written == old(stream.written) + served.output
    {
      hide Parse;
      hide Serve;
      hide Frame;
      hide HeaderValue;
      ghost var parsed := Parse(stream.sent[stream.pos..], limit);
      ghost var done: nat := 0;
      var asked: seq<Bytes> := [];
      while true
        invariant stream.Valid() && done <= |parsed.bodies| && asked == parsed.bodies[..done]
        invariant Parse(stream.sent[stream.pos..], limit) == Parsed(parsed.bodies[done..], parsed.end)
        invariant var rest := Serve(parsed, answer, refusal, done);
                  old(stream.written) + Serve(parsed, answer, refusal, 0).output == stream.written + rest.output
                  && Serve(parsed, answer, refusal, 0).end == rest.end
        decreases |parsed.bodies| - done
      {
        ghost var at, input := stream.pos, stream.sent[stream.pos..];
        ParseAhead(input, parsed, done, limit);
        ServeAhead(parsed, answer, refusal, done);
        var header := stream.ReadUpTo(4);
        Behind(stream.sent, at, 0, |header|);
        if |header| < 4 {
          return Closed;
        }
        var len := HeaderValue(header);
        if len > limit {
          stream.WriteAll(Frame(refusal));
          return TooLarge;
        }
        var body := stream.ReadUpTo(len);
        Behind(stream.sent, at, 4, |body|);
        if |body| < len {
          return CutShort;
        }
        assert asked + [body] == parsed.bodies[..done + 1];
        asked := asked + [body];
        var payload := answer(asked);
        Regroup(stream.written, payload, Serve(parsed, answer, refusal, done + 1).output);
        var ok := WriteFrame(stream, payload);
        if !ok {
          return AnswerTooLarge;
        }
        done := done + 1;
      }
    }

    method WriteFrame(stream: Stream, payload: Bytes) returns (ok: bool)
      modifies stream`written
      ensures ok <==> |payload| <= 0xffff_ffff
      ensures stream.written == if ok then old(stream.written) + Frame(payload) else old(stream.written)
    {
      if |payload| >= U32_LIMIT {
        return false;
      }
      stream.WriteAll(Header(|payload|) + payload);
      ok := true;
    }
  }

  /** What was read behind `at` is part of what lay ahead there. */
  lemma Behind(sent: Bytes, at: nat, skip: nat, n: nat)
    requires at + skip + n <= |sent|
    ensures sent[at + skip..at + skip + n] == sent[at..][skip..skip + n]
    ensures sent[at + skip + n..] == sent[at..][skip + n..]
    ensures skip == 0 ==> sent[at..][skip..skip + n] == sent[at..][..n]
  {
  }

  lemma Regroup(written: Bytes, payload: Bytes, rest: Bytes)
    ensures |payload| < U32_LIMIT ==> written + (Frame(payload) + rest) == written + Frame(payload) + rest
  {
  }

  /** The frame loop one frame on. */
  lemma ParseAhead(input: Bytes, parsed: Parsed, done: nat, limit: nat)
    requires done <= |parsed.bodies| && Parse(input, limit) == Parsed(parsed.bodies[done..], parsed.end)
    ensures |input| < 4 ==> done == |parsed.bodies| && parsed.end == Closed
    ensures |input| >= 4 && HeaderValue(input[..4]) > limit ==> done == |parsed.bodies| && parsed.end == TooLarge
    ensures |input| >= 4 && |input| - 4 < HeaderValue(input[..4]) <= limit ==>
              done == |parsed.bodies| && parsed.end == CutShort
    ensures |input| >= 4 && HeaderValue(input[..4]) <= limit && HeaderValue(input[..4]) <= |input| - 4 ==>
              var len := HeaderValue(input[..4]);
              && done < |parsed.bodies| && parsed.bodies[done] == input[4..4 + len]
              && Parse(input[4 + len..], limit) == Parsed(parsed.bodies[done + 1..], parsed.end)
  {
    if |input| >= 4 && HeaderValue(input[..4]) <= limit && HeaderValue(input[..4]) <= |input| - 4 {
      assert parsed.bodies[done..][0] == parsed.bodies[done];
      assert parsed.bodies[done..][1..] == parsed.bodies[done + 1..];
    }
  }

  lemma ServeAhead(parsed: Parsed, answer: seq<Bytes> -> Bytes, refusal: Bytes, done: nat)
    requires done <= |parsed.bodies| && |refusal| < U32_LIMIT
    ensures done == |parsed.bodies| ==>
              Serve(parsed, answer, refusal, done) ==
              Served(if parsed.end.TooLarge? then Frame(refusal) else [], parsed.end)
    ensures done < |parsed.bodies| ==>
              var a := answer(parsed.bodies[..done + 1]);
              Serve(parsed, answer, refusal, done) ==
              if |a| >= U32_LIMIT then Served([], AnswerTooLarge)
              else
                var rest := Serve(parsed, answer, refusal, done + 1);
                Served(Frame(a) + rest.output, rest.end)
  {
  }
}
