/**
 Assembling application messages from WebSocket frames with control frames in between
 (WsConnection::receive_binary_deadline), whatever pieces the bytes arrive in.
 */
module WebSocketStream {
  import opened Bytes
  import opened WebSocket
  import Framing

  /** A frame the client sends in reply: a pong, or the echo of a close. */
  datatype Answer = Answer(opcode: byte, payload: seq<byte>)

  datatype Verdict = Deliver(message: seq<byte>) | Fail(error: Error) | Continue(message: seq<byte>, inMessage: bool)

  /** What one frame does to the message being assembled. */
  function Judge(w: Incoming, message: seq<byte>, inMessage: bool): Verdict {
    if w.opcode == OP_BINARY then
      if inMessage then Fail(Internal)
      else if w.fin then Deliver(w.payload)
      else Continue(w.payload, true)
    else if w.opcode == OP_CONT then
      if !inMessage then Fail(Internal)
      else if |message| + |w.payload| > WS_MAX then Fail(PayloadTooLarge(|message| + |w.payload|))
      else if w.fin then Deliver(message + w.payload)
      else Continue(message + w.payload, true)
    else if w.opcode == OP_TEXT || w.opcode == OP_PING || w.opcode == OP_PONG then Continue(message, inMessage)
    else if w.opcode == OP_CLOSE then Fail(IoError)
    else Fail(Internal)
  }

  /** What the client sends because of one frame. */
  function Answers(w: Incoming): seq<Answer> {
    if w.opcode == OP_PING then [Answer(OP_PONG, w.payload)]
    else if w.opcode == OP_CLOSE then
      [Answer(OP_CLOSE, if |w.payload| < CLOSE_MAX then w.payload else w.payload[..CLOSE_MAX])]
    else []
  }

  /** The cases of section 5 of RFC 6455, by opcode number. */
  lemma JudgeByOpcode(w: Incoming, message: seq<byte>, inMessage: bool)
    ensures var v, all := Judge(w, message, inMessage), message + w.payload;
      && (w.opcode == 2 && inMessage ==> v == Fail(Internal))
      && (w.opcode == 2 && !inMessage ==> v == if w.fin then Deliver(w.payload) else Continue(w.payload, true))
      && (w.opcode == 0 && !inMessage ==> v == Fail(Internal))
      && (w.opcode == 0 && inMessage && |all| > 4194304 ==> v == Fail(PayloadTooLarge(|all|)))
      && (w.opcode == 0 && inMessage && |all| <= 4194304 ==> v == if w.fin then Deliver(all) else Continue(all, true))
      && (w.opcode in {1, 9, 10} ==> v == Continue(message, inMessage))
      && (w.opcode == 8 ==> v == Fail(IoError))
      && (w.opcode !in {0, 1, 2, 8, 9, 10} ==> v == Fail(Internal))
  {}

  /**
   A ping is answered by a pong with its payload, a close by a close with at most 125 bytes of its;
   nothing else is answered.
   */
  lemma AnswersByOpcode(w: Incoming)
    ensures w.opcode == 9 ==> Answers(w) == [Answer(10, w.payload)]
    ensures w.opcode == 8 ==>
      |Answers(w)| == 1 && Answers(w)[0].opcode == 8 && Answers(w)[0].payload <= w.payload
      && |Answers(w)[0].payload| == if |w.payload| < 125 then |w.payload| else 125
    ensures w.opcode != 9 && w.opcode != 8 ==> Answers(w) == []
  {}

  ghost predicate Bounded(answers: seq<Answer>) {
    forall a <- answers :: |a.payload| <= WS_MAX
  }

  datatype Assembled = Assembled(message: Result<seq<byte>>, rest: seq<byte>, answers: seq<Answer>)

  /** One receive, as a function of all the bytes still to come: chunks play no part. */
  function Assemble(stream: seq<byte>, message: seq<byte>, inMessage: bool): (r: Assembled)
    ensures Bounded(r.answers)
    ensures r.message.Ok? ==> |r.rest| < |stream|
    decreases |stream|
  {
    match Decode(stream)
    case Err(e) => Assembled(Err(e), stream, [])
    case Ok(None) => Assembled(Err(IoError), stream, [])
    case Ok(Some(w)) =>
      var rest := stream[w.consumed..];
      match Judge(w, message, inMessage)
      case Deliver(m) => Assembled(Ok(m), rest, Answers(w))
      case Fail(e) => Assembled(Err(e), rest, Answers(w))
      case Continue(m, started) =>
        var later := Assemble(rest, m, started);
        later.(answers := Answers(w) + later.answers)
  }

  /** No frame outgrows the read buffer's limit before it is complete. */
  ghost predicate BufferSuffices(stream: seq<byte>)
    decreases |stream|
  {
    match Decode(stream)
    case Err(_) => true
    case Ok(None) => |stream| <= WS_MAX
    case Ok(Some(w)) => w.consumed <= WS_MAX + 1 && BufferSuffices(stream[w.consumed..])
  }

  // ---------------------------------------------------------------------
  // One receive, chunk by chunk

  /** How many more chunks arrive before the deadline; None when there is no deadline. */
  type Patience = Option<nat>

  function Less(patience: Patience): Patience
    requires patience != Some(0)
  {
    if patience.None? then None else Some(patience.value - 1)
  }

  /** Bytes buffered or still to arrive. */
  function Volume(buf: seq<byte>, source: seq<seq<byte>>): nat { |buf| + |Framing.Concat(source)| }

  datatype Fetch = Fetch(frame: Result<Incoming>, buf: seq<byte>, source: seq<seq<byte>>, patience: Patience)

  /** The inner loop: fill until a frame decodes.  The buffer's size is checked only between decodes. */
  function Fetched(buf: seq<byte>, source: seq<seq<byte>>, patience: Patience): (r: Fetch)
    ensures Volume(r.buf, r.source) + (if r.frame.Ok? then 2 else 0) <= Volume(buf, source)
    ensures r.frame.Ok? ==> |r.frame.value.payload| <= WS_MAX
    decreases |source|
  {
    match Decode(buf)
    case Err(e) => Fetch(Err(e), buf, source, patience)
    case Ok(Some(w)) => Fetch(Ok(w), buf[w.consumed..], source, patience)
    case Ok(None) =>
      if |buf| > WS_MAX then Fetch(Err(PayloadTooLarge(WS_MAX + 1)), buf, source, patience)
      else if patience == Some(0) then Fetch(Err(Timeout), buf, source, patience)
      else if source == [] then Fetch(Err(IoError), buf, source, patience)
      else Fetched(buf + source[0], source[1..], Less(patience))
  }

  datatype Gather = Gather(message: Result<seq<byte>>, buf: seq<byte>, source: seq<seq<byte>>, patience: Patience,
        answers: seq<Answer>)

  /**
   receive_binary_deadline on any buffer, chunks and deadline: a failure drops the message under way
   and keeps the buffer.
   */
  function Gathered(buf: seq<byte>, source: seq<seq<byte>>, patience: Patience, message: seq<byte>,
                    inMessage: bool): (r: Gather)
    ensures Bounded(r.answers) && Volume(r.buf, r.source) <= Volume(buf, source)
    ensures r.message.Ok? ==> Volume(r.buf, r.source) < Volume(buf, source)
    decreases Volume(buf, source)
  {
    var got := Fetched(buf, source, patience);
    if got.frame.Err? then Gather(Err(got.frame.error), got.buf, got.source, got.patience, [])
    else
      var w := got.frame.value;
      match Judge(w, message, inMessage)
      case Deliver(m) => Gather(Ok(m), got.buf, got.source, got.patience, Answers(w))
      case Fail(e) => Gather(Err(e), got.buf, got.source, got.patience, Answers(w))
      case Continue(m, started) =>
        var later := Gathered(got.buf, got.source, got.patience, m, started);
        later.(answers := Answers(w) + later.answers)
  }

  /** The bytes of the answers, each under a fresh mask. */
  function AnswerBytes(answers: seq<Answer>, masks: nat -> Mask, draw: nat): seq<byte>
    requires Bounded(answers)
  {
    if answers == [] then []
    else ClientFrame(answers[0].opcode, answers[0].payload, masks(draw)) + AnswerBytes(answers[1..], masks, draw + 1)
  }

  lemma {:induction false} AnswerBytesConcat(a: seq<Answer>, b: seq<Answer>, masks: nat -> Mask, draw: nat)
    requires Bounded(a) && Bounded(b)
    ensures Bounded(a + b)
    ensures AnswerBytes(a + b, masks, draw) == AnswerBytes(a, masks, draw) + AnswerBytes(b, masks, draw + |a|)
    decreases a
  {
    hide ClientFrame;
    if a == [] {
      assert a + b == b;
    } else {
      AnswerBytesConcat(a[1..], b, masks, draw + 1);
      assert (a + b)[1..] == a[1..] + b && (a + b)[0] == a[0];
    }
  }

  // ---------------------------------------------------------------------
  // The connection

  class WsConnection {
    const masks: nat -> Mask
    var readBuf: seq<byte>
    var source: seq<seq<byte>>
    var written: seq<byte>
    var draws: nat

    constructor (masks: nat -> Mask, source: seq<seq<byte>>)
      ensures this.masks == masks && this.source == source && readBuf == [] && written == [] && draws == 0
    {
      this.masks, this.source := masks, source;
      readBuf, written, draws := [], [], 0;
    }

    /** Every byte not yet consumed, buffered or still to arrive. */
    ghost function Ahead(): seq<byte>
      reads this`readBuf, this`source
    {
      readBuf + Framing.Concat(source)
    }

    /** stream_fill: one more chunk, the end of the connection, or the deadline. */
    method StreamFill(patience: Patience) returns (e: Option<Error>)
      modifies this`readBuf, this`source
      ensures e.None? ==> patience != Some(0) && old(source) != []
      ensures e.None? ==> source == old(source[1..]) && readBuf == old(readBuf + source[0])
      ensures e.Some? ==> readBuf == old(readBuf) && source == old(source)
      ensures e.Some? ==> if patience == Some(0) then e.value == Timeout else e.value == IoError && source == []
    {
      if patience == Some(0) { return Some(Timeout); }
      if source == [] { return Some(IoError); }
      readBuf := readBuf + source[0];
      source := source[1..];
      return None;
    }

    /** The inner loop of receive_binary_deadline: fill until one frame decodes, then consume it. */
    method NextFrame(patience: Patience) returns (r: Result<Incoming>, left: Patience)
      modifies this`readBuf, this`source
      ensures Fetch(r, readBuf, source, left) == Fetched(old(readBuf), old(source), patience)
    {
      hide Decode, Framing.Concat;
      left := patience;
      while true
        invariant Fetched(readBuf, source, left) == Fetched(old(readBuf), old(source), patience)
        decreases |source|
      {
        var answer := TryDecodeServerFrame(readBuf);
        if answer.Err? { return Err(answer.error), left; }
        if answer.value.Some? {
          var w := answer.value.value;
          readBuf := readBuf[w.consumed..];
          return Ok(w), left;
        }
        if |readBuf| > WS_MAX { return Err(PayloadTooLarge(WS_MAX + 1)), left; }
        var e := StreamFill(left);
        if e.Some? { return Err(e.value), left; }
        left := Less(left);
      }
    }

    /** Encodes and writes one answer. */
    method Send(a: Answer)
      requires |a.payload| <= WS_MAX
      modifies this`written, this`draws
      ensures written == old(written) + AnswerBytes([a], masks, old(draws)) && draws == old(draws) + 1
    {
      hide ClientFrame, AnswerBytes;
      var frame := EncodeClientFrame(a.opcode, a.payload, masks(draws));
      OneAnswer(a, masks, draws);
      written := written + frame;
      draws := draws + 1;
    }

    /** The replies one frame calls for. */
    method React(w: Incoming)
      requires |w.payload| <= WS_MAX
      modifies this`written, this`draws
      ensures Bounded(Answers(w)) && draws == old(draws) + |Answers(w)|
      ensures written == old(written) + AnswerBytes(Answers(w), masks, old(draws))
    {
      NoAnswers(masks, draws);
      if w.opcode == OP_PING {
        Send(Answer(OP_PONG, w.payload));
      } else if w.opcode == OP_CLOSE {
        Send(Answer(OP_CLOSE, if |w.payload| < CLOSE_MAX then w.payload else w.payload[..CLOSE_MAX]));
      }
    }

    /**
     receive_binary_deadline: result, buffer, chunks left and answers written, whatever arrives and
     whenever the deadline passes.
     */
    method ReceiveBinary(patience: Patience) returns (r: Result<seq<byte>>, left: Patience)
      modifies this
      ensures var g := Gathered(old(readBuf), old(source), patience, [], false);
        && Gather(r, readBuf, source, left, g.answers) == g
        && written == old(written) + AnswerBytes(g.answers, masks, old(draws)) && draws == old(draws) + |g.answers|
    {
      hide Fetched, Framing.Concat, ClientFrame, AnswerBytes, Judge, Answers;
      ghost var out, drawn := written, draws;
      ghost var spec := Gathered(readBuf, source, patience, [], false);
      ghost var sent: seq<Answer> := [];
      var message, inMessage := [], false;
      left := patience;
      NoAnswers(masks, drawn);
      assert [] + spec.answers == spec.answers;
      while true
        invariant Bounded(sent) && draws == drawn + |sent|
        invariant written == out + AnswerBytes(sent, masks, drawn)
        invariant var now := Gathered(readBuf, source, left, message, inMessage);
          spec == now.(answers := sent + now.answers)
        decreases Volume(readBuf, source)
      {
        var read;
        read, left := NextFrame(left);
        if read.Err? {
          assert sent + [] == sent;
          return Err(read.error), left;
        }
        var w := read.value;
        React(w);
        AnswerBytesConcat(sent, Answers(w), masks, drawn);
        sent := sent + Answers(w);
        var verdict := Judge(w, message, inMessage);
        match verdict {
          case Deliver(m) => return Ok(m), left;
          case Fail(e) => return Err(e), left;
          case Continue(m, started) => message, inMessage := m, started;
        }
      }
    }
  }

  // ---------------------------------------------------------------------
  // Chunks play no part while no frame outgrows the buffer

  /**
   A fetched frame is the one at the head of the stream, and exactly its bytes are gone; without a
   deadline nothing else can happen.
   */
  lemma {:induction false} FetchedIsDecoded(buf: seq<byte>, source: seq<seq<byte>>, patience: Patience)
    ensures var all, got := buf + Framing.Concat(source), Fetched(buf, source, patience);
      && (got.frame.Ok? ==> Decode(all) == Ok(Some(got.frame.value))
                            && got.buf + Framing.Concat(got.source) == all[got.frame.value.consumed..])
      && (BufferSuffices(all) && patience.None? && !got.frame.Ok? ==>
            Decode(all) == if got.frame == Err(IoError) then Ok(None) else Err(got.frame.error))
      && (got.patience.Some? ==> patience.Some?)
    decreases |source|
  {
    hide Decode, Framing.Concat;
    var all := buf + Framing.Concat(source);
    assert buf == all[..|buf|];
    DecodeNeverEnds(all);
    if Decode(buf) != Ok(None) {
      AnswerIsStable(buf, Framing.Concat(source));
    } else {
      UndecidedIsShort(all, |buf|);
      if source == [] {
        Framing.ConcatNone(source);
        assert buf == all;
      } else if |buf| <= WS_MAX && patience != Some(0) {
        Framing.ConcatTail(source);
        assert buf + source[0] + Framing.Concat(source[1..]) == all;
        FetchedIsDecoded(buf + source[0], source[1..], Less(patience));
      }
    }
  }

  /**
   Up to the deadline the chunks that make it are all that matters; after them the wait times out
   instead of ending.
   */
  lemma {:induction false} DeadlineCutsChunks(buf: seq<byte>, source: seq<seq<byte>>, k: nat)
    requires k <= |source|
    ensures var cut, whole := Fetched(buf, source, Some(k)), Fetched(buf, source[..k], None);
      && cut.frame == (if whole.frame == Err(IoError) then Err(Timeout) else whole.frame) && cut.buf == whole.buf
    decreases k
  {
    hide Decode;
    DecodeNeverEnds(buf);
    if k > 0 {
      assert source[..k][0] == source[0] && source[..k][1..] == source[1..][..k - 1];
      DeadlineCutsChunks(buf + source[0], source[1..], k - 1);
    }
  }

  /** The decoder itself never reports the end of the connection. */
  lemma DecodeNeverEnds(buf: seq<byte>)
    ensures Decode(buf).Err? ==> Decode(buf).error != IoError
  {}

  /**
   Without a deadline a delivered message, and any outcome while no frame outgrows the buffer, is a
   function of the bytes alone.
   */
  lemma {:induction false} GatheredIsAssembled(buf: seq<byte>, source: seq<seq<byte>>, message: seq<byte>,
                                               inMessage: bool)
    ensures var all := buf + Framing.Concat(source);
      var g, spec := Gathered(buf, source, None, message, inMessage), Assemble(all, message, inMessage);
      && g.patience == None
      && (g.message.Ok? || BufferSuffices(all) ==> g.message == spec.message && g.answers == spec.answers)
      && (g.message.Ok? ==>
            && g.buf + Framing.Concat(g.source) == spec.rest
            && (BufferSuffices(all) ==> BufferSuffices(spec.rest)))
    decreases Volume(buf, source)
  {
    hide Decode, Fetched, Framing.Concat, Judge, Answers, Assemble;
    var all, got := buf + Framing.Concat(source), Fetched(buf, source, None);
    FetchedIsDecoded(buf, source, None);
    AssembleStops(all, message, inMessage);
    if got.frame.Ok? {
      AssembleTurn(all, message, inMessage, got.frame.value);
      var verdict := Judge(got.frame.value, message, inMessage);
      if verdict.Continue? { GatheredIsAssembled(got.buf, got.source, verdict.message, verdict.inMessage); }
    }
  }

  /** One turn of the receive loop, on the stream. */
  lemma AssembleTurn(stream: seq<byte>, message: seq<byte>, inMessage: bool, w: Incoming)
    requires Decode(stream) == Ok(Some(w))
    ensures var verdict, rest, all := Judge(w, message, inMessage), stream[w.consumed..],
        Assemble(stream, message, inMessage);
      && (verdict.Deliver? ==> all == Assembled(Ok(verdict.message), rest, Answers(w)))
      && (verdict.Fail? ==> all == Assembled(Err(verdict.error), rest, Answers(w)))
      && (verdict.Continue? ==>
            var later := Assemble(rest, verdict.message, verdict.inMessage);
            all == later.(answers := Answers(w) + later.answers))
  {}

  lemma AssembleStops(stream: seq<byte>, message: seq<byte>, inMessage: bool)
    ensures Decode(stream) == Ok(None) ==> Assemble(stream, message, inMessage) == Assembled(Err(IoError), stream, [])
    ensures Decode(stream).Err? ==>
      Assemble(stream, message, inMessage) == Assembled(Err(Decode(stream).error), stream, [])
  {}

  lemma NoAnswers(masks: nat -> Mask, draw: nat)
    ensures AnswerBytes([], masks, draw) == []
  {}

  lemma OneAnswer(a: Answer, masks: nat -> Mask, draw: nat)
    requires |a.payload| <= WS_MAX
    ensures AnswerBytes([a], masks, draw) == ClientFrame(a.opcode, a.payload, masks(draw))
  {}
}
