/**
 A stream socket under short reads, short writes, interrupted calls and failures, and
 the loops of src/framing.cpp and src/client.cpp that move whole frames through it.
 */
module Transport {
  import opened Bytes
  import opened Framing

  /** What one system call does: how many bytes the kernel is willing to move, or a failure. */
  datatype SysResult = Interrupted | Failed | TimedOut | Moved(n: nat)

  /** No failure, no timeout, no zero-byte transfer; interruptions and short transfers are fine. */
  ghost predicate Healthy(script: seq<SysResult>) {
    forall r <- script :: r.Interrupted? || (r.Moved? && r.n > 0)
  }

  /**
   One end of a connected socket.  `script` is what the next system calls will do; once it
   is used up, calls move as many bytes as they can.  Reading with nothing left is end of file.
   */
  class Socket {
    var inbound: seq<byte>
    var outbound: seq<byte>
    var script: seq<SysResult>

    constructor (inbound: seq<byte>, script: seq<SysResult>)
      ensures this.inbound == inbound && this.script == script && outbound == []
    {
      this.inbound, this.script, outbound := inbound, script, [];
    }

    method NextCall(wanted: nat) returns (r: SysResult)
      modifies this`script
      ensures Healthy(old(script)) ==> Healthy(script) && (r.Interrupted? || (r.Moved? && (wanted > 0 ==> r.n > 0)))
      ensures r.Interrupted? || r.TimedOut? ==> |script| < |old(script)|
      ensures |script| <= |old(script)|
    {
      if script == [] {
        r := Moved(wanted);
      } else {
        r := script[0];
        script := script[1..];
      }
    }

    /** read(fd, _, wanted): the bytes moved, or the failure. */
    method Read(wanted: nat) returns (r: SysResult, bytes: seq<byte>)
      modifies this`script, this`inbound
      ensures r.Moved? ==> |bytes| == r.n <= wanted && bytes + inbound == old(inbound)
      ensures !r.Moved? ==> inbound == old(inbound) && bytes == []
      ensures Healthy(old(script)) ==> Healthy(script) && (r.Interrupted? || r.Moved?)
      ensures Healthy(old(script)) && r.Moved? && 0 < wanted && old(inbound) != [] ==> r.n > 0
      ensures r.Interrupted? ==> |script| < |old(script)|
      ensures |script| <= |old(script)|
    {
      r := NextCall(wanted);
      bytes := [];
      if r.Moved? {
        var n := Min(r.n, Min(wanted, |inbound|));
        bytes, inbound := inbound[..n], inbound[n..];
        r := Moved(n);
      }
    }

    /** write(fd, data): how many bytes of `data` were taken. */
    method Write(data: seq<byte>) returns (r: SysResult)
      modifies this`script, this`outbound
      ensures r.Moved? ==> r.n <= |data| && outbound == old(outbound) + data[..r.n]
      ensures !r.Moved? ==> outbound == old(outbound)
      ensures Healthy(old(script)) ==> Healthy(script) && (r.Interrupted? || r.Moved?)
      ensures Healthy(old(script)) && r.Moved? && data != [] ==> r.n > 0
      ensures r.Interrupted? ==> |script| < |old(script)|
      ensures |script| <= |old(script)|
    {
      r := NextCall(|data|);
      if r.Moved? {
        var n := Min(r.n, |data|);
        outbound := outbound + data[..n];
        r := Moved(n);
      }
    }
  }

  function Min(a: nat, b: nat): nat { if a < b then a else b }

  /** VynkorClient::write_all: the whole frame, or a failure after some proper prefix of it. */
  method WriteAll(socket: Socket, frame: seq<byte>) returns (e: Option<Error>)
    modifies socket`script, socket`outbound
    ensures e.None? ==> socket.outbound == old(socket.outbound) + frame
    ensures e.Some? ==> e.value == IoError && old(socket.outbound) <= socket.outbound < old(socket.outbound) + frame
    ensures Healthy(old(socket.script)) ==> e.None? && Healthy(socket.script)
  {
    var sent := 0;
    while sent < |frame|
      invariant sent <= |frame|
      invariant socket.outbound == old(socket.outbound) + frame[..sent]
      invariant Healthy(old(socket.script)) ==> Healthy(socket.script)
      decreases |frame| - sent, |socket.script|
    {
      var r := socket.Write(frame[sent..]);
      if r.Interrupted? { continue; }
      if !r.Moved? || r.n == 0 {
        return Some(IoError);
      }
      assert frame[..sent] + frame[sent..][..r.n] == frame[..sent + r.n];
      sent := sent + r.n;
    }
    assert frame[..sent] == frame;
    return None;
  }

  lemma NextPart(stream: seq<byte>, total: nat, bytes: seq<byte>, rest: seq<byte>)
    requires total <= |stream| && stream[total..] == bytes + rest
    ensures total + |bytes| <= |stream|
    ensures stream[..total + |bytes|] == stream[..total] + bytes && stream[total + |bytes|..] == rest
  {}

  /** Appends `bytes` to the `total` bytes already stored in the window buf[at..at + n]. */
  method PutPart(buf: array<byte>, at: nat, n: nat, total: nat, bytes: seq<byte>)
    requires at + n <= buf.Length && total + |bytes| <= n
    modifies buf
    ensures buf[at..at + (total + |bytes|)] == old(buf[at..at + total]) + bytes
    ensures buf[..at] == old(buf[..at]) && buf[at + n..] == old(buf[at + n..])
  {
    ghost var before := buf[..];
    Put(buf, at + total, bytes);
    assert buf[..] == before[..at + total] + bytes + before[at + total + |bytes|..];
  }

  /** At most `most` bytes were taken, all from the front. */
  ghost predicate Took(before: seq<byte>, after: seq<byte>, most: nat) {
    |after| <= |before| <= |after| + most && after == before[|before| - |after|..]
  }

  lemma TookThen(before: seq<byte>, between: seq<byte>, after: seq<byte>, m: nat, n: nat)
    requires Took(before, between, m) && Took(between, after, n)
    ensures Took(before, after, m + n)
  {}

  lemma TookMore(before: seq<byte>, after: seq<byte>, m: nat, n: nat)
    requires Took(before, after, m) && m <= n
    ensures Took(before, after, n)
  {}

  /** recv_exact and, with `timed`, recv_exact_deadline: fills buf[at..at + n] from the stream. */
  method RecvExact(socket: Socket, buf: array<byte>, at: nat, n: nat, timed: bool) returns (e: Option<Error>)
    requires at + n <= buf.Length
    modifies socket`script, socket`inbound, buf
    ensures e.None? ==> n <= |old(socket.inbound)| && socket.inbound == old(socket.inbound)[n..]
    ensures e.None? ==> buf[at..at + n] == old(socket.inbound)[..n]
    ensures buf[..at] == old(buf[..at]) && buf[at + n..] == old(buf[at + n..])
    ensures e.Some? ==> e.value == IoError || (timed && e.value == FrameReadTimeout)
    ensures Took(old(socket.inbound), socket.inbound, n)
    ensures Healthy(old(socket.script)) ==> Healthy(socket.script)
    ensures Healthy(old(socket.script)) && n <= |old(socket.inbound)| ==> e.None?
    ensures Healthy(old(socket.script)) && e.Some? ==> e.value == IoError
  {
    ghost var stream := socket.inbound;
    var total := 0;
    while total < n
      invariant total <= n && total <= |stream|
      invariant socket.inbound == stream[total..]
      invariant buf[at..at + total] == stream[..total]
      invariant buf[..at] == old(buf[..at]) && buf[at + n..] == old(buf[at + n..])
      invariant Healthy(old(socket.script)) ==> Healthy(socket.script)
      decreases n - total, |socket.script|
    {
      var r, bytes := socket.Read(n - total);
      if r.Interrupted? { continue; }
      if r.TimedOut? && timed { return Some(FrameReadTimeout); }
      if !r.Moved? || r.n == 0 {
        return Some(IoError);
      }
      NextPart(stream, total, bytes, socket.inbound);
      PutPart(buf, at, n, total, bytes);
      total := total + r.n;
    }
    return None;
  }

  /** What the descriptor reader does with the bytes that will arrive. */
  function ReadOutcome(f: Primitives, stream: seq<byte>, key: Option<Key>): Result<Parsed> {
    if |stream| < HEADER_SIZE then Err(IoError)
    else if LengthOf(stream) > MAX_PAYLOAD then Err(PayloadTooLarge(LengthOf(stream)))
    else if |stream| < TotalOf(stream) then Err(IoError)
    else Parse(f, stream[..TotalOf(stream)], key)
  }

  /** The bytes are there: header, a length in bounds, and the rest of the frame. */
  predicate WholeFrame(stream: seq<byte>) {
    |stream| >= HEADER_SIZE && LengthOf(stream) <= MAX_PAYLOAD && |stream| >= TotalOf(stream)
  }

  /** The bytes of a frame the reader may take: the header, and the announced rest if the length is in bounds. */
  function Reach(stream: seq<byte>): nat {
    if |stream| >= HEADER_SIZE && LengthOf(stream) <= MAX_PAYLOAD then TotalOf(stream) else HEADER_SIZE
  }

  /** The errors of a read that did not get its bytes. */
  predicate Broken(e: Error) { e == IoError || e == FrameReadTimeout }

  /** The first byte without a time limit, the other 43 within the frame's. */
  method ReadHeader(socket: Socket) returns (r: Result<seq<byte>>)
    modifies socket`script, socket`inbound
    ensures r.Ok? ==> |old(socket.inbound)| >= HEADER_SIZE && r.value == old(socket.inbound)[..HEADER_SIZE]
                      && socket.inbound == old(socket.inbound)[HEADER_SIZE..]
    ensures r.Err? ==> Broken(r.error)
    ensures Took(old(socket.inbound), socket.inbound, HEADER_SIZE)
    ensures Healthy(old(socket.script)) ==>
      Healthy(socket.script) && (if |old(socket.inbound)| >= HEADER_SIZE then r.Ok? else r == Err(IoError))
  {
    hide Took, Healthy;
    ghost var stream := socket.inbound;
    var head := new byte[HEADER_SIZE];
    var e := RecvExact(socket, head, 0, 1, false);
    ghost var between := socket.inbound;
    TookMore(stream, between, 1, HEADER_SIZE);
    if e.Some? { return Err(e.value); }
    e := RecvExact(socket, head, 1, HEADER_SIZE - 1, true);
    TookThen(stream, between, socket.inbound, 1, HEADER_SIZE - 1);
    if e.Some? { return Err(e.value); }
    assert head[..] == head[..1] + head[1..HEADER_SIZE];
    assert stream[1..][..HEADER_SIZE - 1] == stream[1..HEADER_SIZE];
    return Ok(head[..]);
  }

  /** Exactly `rest` more bytes. */
  method ReadBody(socket: Socket, rest: nat) returns (r: Result<seq<byte>>)
    modifies socket`script, socket`inbound
    ensures r.Ok? ==> |old(socket.inbound)| >= rest && r.value == old(socket.inbound)[..rest]
                      && socket.inbound == old(socket.inbound)[rest..]
    ensures r.Err? ==> Broken(r.error)
    ensures Took(old(socket.inbound), socket.inbound, rest)
    ensures Healthy(old(socket.script)) ==>
      Healthy(socket.script) && (if |old(socket.inbound)| >= rest then r.Ok? else r == Err(IoError))
  {
    if rest == 0 { return Ok([]); }
    var body := new byte[rest];
    var e := RecvExact(socket, body, 0, rest, true);
    if e.Some? { return Err(e.value); }
    assert body[..] == body[0..rest];
    return Ok(body[..]);
  }

  /**
   read_frame_full_with_timeout: the header, then exactly the announced rest; even a failing read
   takes nothing beyond the frame.
   */
  method ReadFrame(f: Primitives, socket: Socket, key: Option<Key>) returns (r: Result<Parsed>)
    modifies socket`script, socket`inbound
    ensures r == ReadOutcome(f, old(socket.inbound), key) || (r.Err? && Broken(r.error))
    ensures r.Ok? ==>
      WholeFrame(old(socket.inbound)) && socket.inbound == old(socket.inbound)[TotalOf(old(socket.inbound))..]
    ensures Took(old(socket.inbound), socket.inbound, Reach(old(socket.inbound)))
    ensures Healthy(old(socket.script)) ==> Healthy(socket.script) && r == ReadOutcome(f, old(socket.inbound), key)
    ensures Healthy(old(socket.script)) && WholeFrame(old(socket.inbound)) ==>
              socket.inbound == old(socket.inbound)[TotalOf(old(socket.inbound))..]
  {
    hide Has, FromBe16, FromBeNat, Parse, Healthy;
    ghost var stream := socket.inbound;
    var head := ReadHeader(socket);
    if head.Err? { return Err(head.error); }
    var header := head.value;
    SameFields(header, stream);
    var flags, length := FromBe16(header[2..4]), FromBeNat(header[4..8]);
    if length > MAX_PAYLOAD { return Err(PayloadTooLarge(length)); }
    var rest := length + if Has(flags, FLAG_MAC) then TAG_LEN else 0;
    var body := ReadBody(socket, rest);
    if body.Err? { return Err(body.error); }
    assert stream[HEADER_SIZE..][..rest] == stream[HEADER_SIZE..HEADER_SIZE + rest];
    assert header + body.value == stream[..TotalOf(stream)];
    r := ParseFrameBytes(f, header + body.value, key);
  }

  /** The poll of read_frame_full_with_deadline: readable, failed, or the deadline has passed. */
  method AwaitReadable(socket: Socket) returns (e: Option<Error>)
    modifies socket`script
    ensures e.Some? ==> e.value == IoError || e.value == Timeout
    ensures Healthy(old(socket.script)) ==> Healthy(socket.script) && e.None?
  {
    while true
      invariant Healthy(old(socket.script)) ==> Healthy(socket.script)
      decreases |socket.script|
    {
      var r := socket.NextCall(1);
      if r.Interrupted? { continue; }
      if r.TimedOut? { return Some(Timeout); }
      return if r.Failed? then Some(IoError) else None;
    }
  }

  /** How far one read may reach, and what it reports when it does not get its bytes. */
  lemma ReadLimits(stream: seq<byte>, e: Error)
    ensures |stream| < 44 || LengthOf(stream) > 1048576 ==> Reach(stream) == 44
    ensures |stream| >= 44 && LengthOf(stream) <= 1048576 ==>
      Reach(stream) == 44 + LengthOf(stream) + if FlagsOf(stream) & 0x0001 != 0 then 32 else 0
    ensures Broken(e) ==> e in {IoError, FrameReadTimeout}
  {
    hide FromBe16, FromBeNat;
  }

  /**
   Before parsing, the reader itself refuses a stream that ends early and a length over 1 MiB - also
   under a wrong magic.
   */
  lemma ReaderRefuses(f: Primitives, stream: seq<byte>, key: Option<Key>)
    ensures |stream| < 44 ==> ReadOutcome(f, stream, key) == Err(IoError)
    ensures |stream| >= 44 && LengthOf(stream) > 1048576 ==>
      ReadOutcome(f, stream, key) == Err(PayloadTooLarge(LengthOf(stream)))
    ensures |stream| >= 44 && LengthOf(stream) <= 1048576 && |stream| < TotalOf(stream) ==>
      ReadOutcome(f, stream, key) == Err(IoError)
    ensures WholeFrame(stream) && FromBe16(stream[0..2]) != 0x5652 ==>
      ReadOutcome(f, stream, key) == Err(FrameMagicMismatch)
  {
    hide Normalized, Header, Has, FromBe16, FromBeNat, FromBe32, Crc32.Crc;
    if WholeFrame(stream) { assert stream[..TotalOf(stream)][0..2] == stream[0..2]; }
  }

  /** The descriptor reader accepts exactly what the buffer parser accepts, with the same result and length. */
  lemma ReaderAgreesWithParser(f: Primitives, stream: seq<byte>, key: Option<Key>)
    ensures ReadOutcome(f, stream, key).Ok? <==> Parse(f, stream, key).Ok?
    ensures Parse(f, stream, key).Ok? ==> ReadOutcome(f, stream, key) == Parse(f, stream, key)
    ensures Parse(f, stream, key).Ok? ==> WholeFrame(stream) && Parse(f, stream, key).value.consumed == TotalOf(stream)
    ensures |stream| >= HEADER_SIZE && FromBe16(stream[0..2]) == FRAME_MAGIC ==>
      ReadOutcome(f, stream, key) == Parse(f, stream, key)
  {
    if WholeFrame(stream) {
      ParseIsSelfDelimiting(f, stream, [], key);
    }
    hide Normalized, Header, Has, FromBe16, FromBeNat, FromBe32, Crc32.Crc;
  }
}
