/**
 The simple reading of reassembly: each open stream is the list of fragments accepted
 since it opened, and everything else - what is buffered, how big it is, whether it is
 complete, what is delivered - is read off that list.  The table of src/client.cpp, with
 its replaced chunks and running byte counts, is proved to behave exactly like this log.
 */
module ReassemblyLog {
  import opened Bytes
  import opened Framing
  import opened Reassembly

  datatype Entry = Entry(sequence: nat, chunk: seq<byte>)

  /** `flags` are those of the fragment that opened the stream, as it carried them. */
  datatype Stream = Stream(total: nat, flags: bv16, since: nat, entries: seq<Entry>)

  type Log = map<nat, Stream>

  /** The most recent chunk written under a sequence number. */
  function Last(entries: seq<Entry>, k: nat): Option<seq<byte>> {
    if entries == [] then None
    else if entries[|entries| - 1].sequence == k then Some(entries[|entries| - 1].chunk)
    else Last(entries[..|entries| - 1], k)
  }

  function SizeOf(entries: seq<Entry>, n: nat): nat {
    if n == 0 then 0
    else SizeOf(entries, n - 1) + if Last(entries, n - 1).Some? then |Last(entries, n - 1).value| else 0
  }

  /** Every sequence number below the total has been written. */
  ghost predicate Complete(entries: seq<Entry>, total: nat) {
    forall k: nat :: k < total ==> Last(entries, k).Some?
  }

  ghost function Contents(entries: seq<Entry>, n: nat): seq<byte>
    requires Complete(entries, n)
  {
    if n == 0 then [] else Contents(entries, n - 1) + Last(entries, n - 1).value
  }

  function Live(log: Log, now: nat): Log {
    map s <- log.Keys | now - log[s].since < 30000 :: log[s]
  }

  ghost function Append(log: Log, frame: Frame, stamp: nat): (Log, Outcome) {
    match ParseFragment(frame.payload)
    case None => (log, Err(Internal))
    case Some(h) =>
      var s := if h.streamId in log then log[h.streamId] else Stream(h.total, frame.flags, stamp, []);
      if h.sequence >= h.total then (log, Err(Internal))
      else if s.total != h.total then (log - {h.streamId}, Err(Internal))
      else if h.streamId !in log && |log| >= 64 then (log, Err(Internal))
      else Conclude(log, h.streamId, s.(entries := s.entries + [Entry(h.sequence, frame.payload[FRAG_HEADER_SIZE..])]))
  }

  /** All flags but FRAGMENTED (bit 2) and MAC (bit 0). */
  function Kept(flags: bv16): bv16 { flags & 0xFFFA }

  /** A reassembled message: those flags of its first fragment, no tag, a blank header. */
  function Reassembled(flags: bv16, payload: seq<byte>): Frame {
    Frame(payload, Kept(flags), None, seq(44, i => 0 as byte))
  }

  /** What becomes of a stream with a new entry, judged by its entries alone. */
  ghost function Conclude(log: Log, id: nat, s: Stream): (Log, Outcome) {
    if SizeOf(s.entries, s.total) > 1048576 then (log - {id}, Err(PayloadTooLarge(1048577)))
    else if Complete(s.entries, s.total) then (log - {id}, Ok(Some(Reassembled(s.flags, Contents(s.entries, s.total)))))
    else (log[id := s], Ok(None))
  }

  ghost function Step(log: Log, a: Arrival): (Log, Outcome) {
    Append(Live(log, a.now), a.frame, a.stamp)
  }

  ghost function RunLog(log: Log, history: seq<Arrival>): (r: (Log, seq<Outcome>))
    ensures |r.1| == |history|
    decreases history
  {
    if history == [] then (log, [])
    else
      var first := Step(log, history[0]);
      var rest := RunLog(first.0, history[1..]);
      (rest.0, [first.1] + rest.1)
  }

  // ---------------------------------------------------------------------
  // The table is the log, with the last write of every sequence number kept

  ghost predicate Holds(m: map<nat, seq<byte>>, entries: seq<Entry>) {
    forall k: nat :: if k in m then Last(entries, k) == Some(m[k]) else Last(entries, k) == None
  }

  ghost predicate Agrees(b: Buf, s: Stream) {
    && b.total == s.total && b.flags == Kept(s.flags) && b.firstSeen == s.since
    && s.entries != [] && Holds(b.fragments, s.entries)
  }

  ghost predicate Simulates(t: Table, log: Log) {
    t.Keys == log.Keys && forall s <- t.Keys :: Agrees(t[s], log[s])
  }

  lemma StrippedIsKept(flags: bv16)
    ensures Stripped(flags) == Kept(flags)
  {}

  lemma DeliveredIsReassembled(flags: bv16, payload: seq<byte>)
    ensures Delivered(Kept(flags), payload) == Reassembled(flags, payload)
  {
    hide Kept;
  }

  /** Bit by bit: FRAGMENTED and MAC are clear, and every other flag is the first fragment's. */
  lemma ReassembledFlags(flags: bv16, payload: seq<byte>)
    ensures var r := Reassembled(flags, payload).flags;
      r & 0x0004 == 0 && r & 0x0001 == 0 && r | 0x0005 == flags | 0x0005
  {
    MaskedFlags(flags);
  }

  lemma MaskedFlags(x: bv16)
    ensures (x & 0xFFFA) & 0x0004 == 0 && (x & 0xFFFA) & 0x0001 == 0 && (x & 0xFFFA) | 0x0005 == x | 0x0005
  {}

  lemma HoldsAppended(m: map<nat, seq<byte>>, entries: seq<Entry>, e: Entry)
    requires Holds(m, entries)
    ensures Holds(m[e.sequence := e.chunk], entries + [e])
  {}

  lemma {:induction false} SameSize(m: map<nat, seq<byte>>, entries: seq<Entry>, n: nat)
    requires Holds(m, entries)
    ensures ChunkBytes(m, n) == SizeOf(entries, n)
  {
    hide Last;
    if n != 0 {
      SameSize(m, entries, n - 1);
      assert if n - 1 in m then Last(entries, n - 1) == Some(m[n - 1]) else Last(entries, n - 1) == None;
    }
  }

  lemma SameCoverage(m: map<nat, seq<byte>>, entries: seq<Entry>, n: nat)
    requires Holds(m, entries)
    ensures Covers(m, n) <==> Complete(entries, n)
  {}

  lemma {:induction false} SameContents(m: map<nat, seq<byte>>, entries: seq<Entry>, n: nat)
    requires Holds(m, entries) && Covers(m, n) && Complete(entries, n)
    ensures Joined(m, n) == Contents(entries, n)
  {
    hide Last;
    if n != 0 {
      SameContents(m, entries, n - 1);
      assert Last(entries, n - 1) == Some(m[n - 1]);
    }
  }

  /** Storing a chunk and logging it agree on size, completeness and contents. */
  lemma StoreIsAppend(b: Buf, entries: seq<Entry>, e: Entry)
    requires FitsBuf(b) && e.sequence < b.total && Holds(b.fragments, entries)
    ensures NewTotal(b, e.sequence, e.chunk) == SizeOf(entries + [e], b.total)
    ensures Holds(b.fragments[e.sequence := e.chunk], entries + [e])
    ensures NewTotal(b, e.sequence, e.chunk) <= MAX_PAYLOAD ==>
      var r := Stored(b, e.sequence, e.chunk);
      && r == b.(fragments := b.fragments[e.sequence := e.chunk], bufferedBytes := NewTotal(b, e.sequence, e.chunk))
      && (|r.fragments| == r.total <==> Complete(entries + [e], b.total))
      && (Complete(entries + [e], b.total) ==> Joined(r.fragments, r.total) == Contents(entries + [e], b.total))
  {
    hide Last;
    var m := b.fragments[e.sequence := e.chunk];
    HoldsAppended(b.fragments, entries, e);
    ChunkBytesUpdate(b.fragments, e.sequence, e.chunk, b.total);
    SameSize(m, entries + [e], b.total);
    SameCoverage(m, entries + [e], b.total);
    if Complete(entries + [e], b.total) { SameContents(m, entries + [e], b.total); }
  }

  lemma PruneSimulates(t: Table, log: Log, now: nat)
    requires Simulates(t, log)
    ensures Simulates(Pruned(t, now), Live(log, now))
  {}

  lemma SameCount(t: Table, log: Log)
    requires t.Keys == log.Keys
    ensures |t| == |log|
  {}

  /** The fragment gets past the header, total and stream-count checks. */
  predicate Admitted(t: Table, frame: Frame) {
    match ParseFragment(frame.payload)
    case None => false
    case Some(h) =>
      && h.sequence < h.total
      && (h.streamId in t ==> t[h.streamId].total == h.total)
      && (h.streamId in t || |t| < MAX_STREAMS)
  }

  lemma RefusedSimulates(t: Table, log: Log, frame: Frame, stamp: nat)
    requires Valid(t) && Simulates(t, log) && !Admitted(t, frame)
    ensures Simulates(Accept(t, frame, stamp).0, Append(log, frame, stamp).0)
    ensures Accept(t, frame, stamp).1 == Append(log, frame, stamp).1
  {
    hide ParseFragment, Stored, Joined, Contents, SizeOf, NewTotal, Complete, Holds, ChunkBytes, Last,
         Stripped, Kept, Delivered, FitsBuf;
    SameCount(t, log);
  }

  lemma ClosedSimulates(t: Table, log: Log, id: nat)
    requires Simulates(t, log)
    ensures Simulates(t - {id}, log - {id})
  {
    hide Agrees;
  }

  lemma OpenSimulates(t: Table, log: Log, id: nat, b: Buf, s: Stream)
    requires Simulates(t, log) && Agrees(b, s)
    ensures Simulates(t[id := b], log[id := s])
  {
    hide Agrees;
  }

  lemma SettleSimulates(t: Table, log: Log, id: nat, b: Buf, s: Stream, e: Entry)
    requires Simulates(t, log) && FitsBuf(b) && e.sequence < b.total
    requires Holds(b.fragments, s.entries)
    requires b.total == s.total && b.flags == Kept(s.flags) && b.firstSeen == s.since
    ensures var (t', o) := Settle(t, id, b, e.sequence, e.chunk);
      var (log', o') := Conclude(log, id, s.(entries := s.entries + [e]));
      o == o' && Simulates(t', log')
  {
    hide Stored, Joined, Contents, SizeOf, NewTotal, Complete, Holds, ChunkBytes, Last, Delivered, Reassembled, Kept,
         FitsBuf, Simulates;
    var s' := s.(entries := s.entries + [e]);
    StoreIsAppend(b, s.entries, e);
    ClosedSimulates(t, log, id);
    if SizeOf(s'.entries, s.total) <= 1048576 {
      if Complete(s'.entries, s.total) {
        DeliveredIsReassembled(s.flags, Contents(s'.entries, s.total));
      } else {
        OpenSimulates(t, log, id, Stored(b, e.sequence, e.chunk), s');
      }
    }
  }

  lemma AdmittedSimulates(t: Table, log: Log, frame: Frame, stamp: nat)
    requires Valid(t) && Simulates(t, log) && Admitted(t, frame)
    ensures Simulates(Accept(t, frame, stamp).0, Append(log, frame, stamp).0)
    ensures Accept(t, frame, stamp).1 == Append(log, frame, stamp).1
  {
    hide ParseFragment, Settle, Conclude, Holds, Stripped, Kept, FitsBuf;
    StrippedIsKept(frame.flags);
    SameCount(t, log);
    var h := ParseFragment(frame.payload).value;
    var b := Opened(t, h, frame.flags, stamp);
    var s := if h.streamId in log then log[h.streamId] else Stream(h.total, frame.flags, stamp, []);
    FreshHolds();
    SettleSimulates(t, log, h.streamId, b, s, Entry(h.sequence, frame.payload[FRAG_HEADER_SIZE..]));
  }

  lemma AcceptSimulates(t: Table, log: Log, frame: Frame, stamp: nat)
    requires Valid(t) && Simulates(t, log)
    ensures Simulates(Accept(t, frame, stamp).0, Append(log, frame, stamp).0)
    ensures Accept(t, frame, stamp).1 == Append(log, frame, stamp).1
  {
    hide Accept, Append, Simulates, Valid, Admitted;
    if Admitted(t, frame) { AdmittedSimulates(t, log, frame, stamp); } else { RefusedSimulates(t, log, frame, stamp); }
  }

  lemma AbsorbSimulates(t: Table, log: Log, a: Arrival)
    requires Valid(t) && Simulates(t, log)
    ensures Simulates(Absorb(t, a.frame, a.now, a.stamp).0, Step(log, a).0)
    ensures Absorb(t, a.frame, a.now, a.stamp).1 == Step(log, a).1
  {
    hide Accept, Append, Simulates, Pruned, Live;
    PrunedIsValid(t, a.now);
    PruneSimulates(t, log, a.now);
    AcceptSimulates(Pruned(t, a.now), Live(log, a.now), a.frame, a.stamp);
  }

  lemma FreshHolds()
    ensures Holds(map[], [])
  {}

  /** Over every history the table and the log answer alike, fragment by fragment. */
  lemma {:induction false} TableRefinesLog(t: Table, log: Log, history: seq<Arrival>)
    requires Valid(t) && Simulates(t, log)
    ensures Run(t, history).1 == RunLog(log, history).1
    ensures Simulates(Run(t, history).0, RunLog(log, history).0)
    decreases history
  {
    hide Absorb, Step, Simulates;
    if history != [] {
      var a := history[0];
      AbsorbSimulates(t, log, a);
      TableRefinesLog(Absorb(t, a.frame, a.now, a.stamp).0, Step(log, a).0, history[1..]);
    }
  }

  // ---------------------------------------------------------------------
  // Any order, any interleaving, any re-sends: a stream that only ever carries the pieces
  // of one message delivers that message

  predicate Carries(a: Arrival, stream: nat) {
    var h := ParseFragment(a.frame.payload);
    h.Some? && h.value.streamId == stream
  }

  /** If `a` belongs to `stream`, it is the piece its header says it is. */
  predicate IsPiece(a: Arrival, stream: nat, pieces: seq<seq<byte>>) {
    Carries(a, stream) ==>
      var h := ParseFragment(a.frame.payload).value;
      && h.total == |pieces|
      && (h.sequence < |pieces| ==> a.frame.payload[FRAG_HEADER_SIZE..] == pieces[h.sequence])
  }

  ghost predicate OnlyPieces(entries: seq<Entry>, pieces: seq<seq<byte>>) {
    forall e <- entries :: e.sequence < |pieces| && e.chunk == pieces[e.sequence]
  }

  ghost predicate LogHoldsPieces(log: Log, stream: nat, pieces: seq<seq<byte>>) {
    stream in log ==> log[stream].total == |pieces| && OnlyPieces(log[stream].entries, pieces)
  }

  lemma {:induction false} LastIsPiece(entries: seq<Entry>, pieces: seq<seq<byte>>, k: nat)
    requires OnlyPieces(entries, pieces) && Last(entries, k).Some?
    ensures k < |pieces| && Last(entries, k).value == pieces[k]
  {
    if entries[|entries| - 1].sequence == k {
      assert entries[|entries| - 1] in entries;
    } else {
      LastIsPiece(entries[..|entries| - 1], pieces, k);
    }
  }

  lemma {:induction false} ContentsArePieces(entries: seq<Entry>, pieces: seq<seq<byte>>, n: nat)
    requires OnlyPieces(entries, pieces) && n <= |pieces| && Complete(entries, n)
    ensures Contents(entries, n) == Concat(pieces[..n])
  {
    if n != 0 {
      ContentsArePieces(entries, pieces, n - 1);
      LastIsPiece(entries, pieces, n - 1);
      ConcatSnoc(pieces, n - 1);
    }
  }

  lemma StepKeepsPieces(log: Log, a: Arrival, stream: nat, pieces: seq<seq<byte>>)
    requires LogHoldsPieces(log, stream, pieces) && IsPiece(a, stream, pieces)
    ensures LogHoldsPieces(Step(log, a).0, stream, pieces)
    ensures Carries(a, stream) && Step(log, a).1.Ok? && Step(log, a).1.value.Some? ==>
      Step(log, a).1.value.value.payload == Concat(pieces)
  {
    hide ParseFragment, Contents, SizeOf, Last, Kept;
    if Carries(a, stream) {
      var h := ParseFragment(a.frame.payload).value;
      var live := Live(log, a.now);
      var s := if stream in live then live[stream] else Stream(h.total, a.frame.flags, a.stamp, []);
      var entries := s.entries + [Entry(h.sequence, a.frame.payload[FRAG_HEADER_SIZE..])];
      assert h.sequence < h.total ==> OnlyPieces(entries, pieces);
      if h.sequence < h.total && Complete(entries, s.total) {
        ContentsArePieces(entries, pieces, |pieces|);
        assert pieces[..|pieces|] == pieces;
      }
    }
  }

  lemma {:induction false} RunDeliversPieces(log: Log, history: seq<Arrival>, stream: nat,
                                             pieces: seq<seq<byte>>, i: nat)
    requires LogHoldsPieces(log, stream, pieces) && i < |history|
    requires forall a <- history :: IsPiece(a, stream, pieces)
    requires Carries(history[i], stream)
    ensures var o := RunLog(log, history).1[i];
      o.Ok? && o.value.Some? ==> o.value.value.payload == Concat(pieces)
    decreases history
  {
    hide Step, IsPiece, Carries, LogHoldsPieces;
    StepKeepsPieces(log, history[0], stream, pieces);
    if i != 0 { RunDeliversPieces(Step(log, history[0]).0, history[1..], stream, pieces, i - 1); }
  }

  /**
   In the table's own terms, from a fresh client: whatever else arrives, such a stream never delivers
   anything else.
   */
  lemma DeliveredIsTheMessage(history: seq<Arrival>, stream: nat, pieces: seq<seq<byte>>, i: nat)
    requires i < |history| && Carries(history[i], stream)
    requires forall a <- history :: IsPiece(a, stream, pieces)
    ensures var o := Run(map[], history).1[i];
      o.Ok? && o.value.Some? ==> o.value.value.payload == Concat(pieces)
  {
    hide Run, RunLog, IsPiece, Carries;
    TableRefinesLog(map[], map[], history);
    RunDeliversPieces(map[], history, stream, pieces, i);
  }
}
