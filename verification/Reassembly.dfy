/**
 Fragment reassembly: VynkorClient::absorb_fragment (src/client.cpp) and ReassemblyBuf
 (include/vynkor/client.hpp) as a function on the table of open streams, and the
 invariant that table keeps in every state.
 */
module Reassembly {
  import opened Bytes
  import opened Framing

  const MAX_STREAMS := 64
  const TIMEOUT_MS := 30000

  datatype Buf = Buf(fragments: map<nat, seq<byte>>, total: nat, flags: bv16, firstSeen: nat, bufferedBytes: nat)

  type Table = map<nat, Buf>

  /** A delivered or pending outcome of one fragment. */
  type Outcome = Result<Option<Frame>>

  /** A default-constructed FrameResult with flags and payload filled in. */
  function Delivered(flags: bv16, payload: seq<byte>): Frame {
    Frame(payload, flags, None, seq(HEADER_SIZE, i => 0 as byte))
  }

  /** `flags & ~(FLAG_FRAGMENTED | FLAG_MAC_PRESENT)`. */
  function Stripped(flags: bv16): bv16 { flags & !(FLAG_FRAGMENTED | FLAG_MAC) }

  // ---------------------------------------------------------------------
  // Sums and concatenations over sequence numbers

  /** Total length of the chunks numbered below `n`. */
  function ChunkBytes(m: map<nat, seq<byte>>, n: nat): nat {
    if n == 0 then 0 else ChunkBytes(m, n - 1) + if n - 1 in m then |m[n - 1]| else 0
  }

  ghost predicate Covers(m: map<nat, seq<byte>>, n: nat) {
    forall k: nat :: k < n ==> k in m
  }

  /** The chunks numbered below `n`, in order. */
  function Joined(m: map<nat, seq<byte>>, n: nat): seq<byte>
    requires Covers(m, n)
  {
    if n == 0 then [] else Joined(m, n - 1) + m[n - 1]
  }

  lemma {:induction false} ChunkBytesUpdate(m: map<nat, seq<byte>>, k: nat, c: seq<byte>, n: nat)
    ensures k >= n ==> ChunkBytes(m[k := c], n) == ChunkBytes(m, n)
    ensures k < n ==> ChunkBytes(m[k := c], n) == ChunkBytes(m, n) - (if k in m then |m[k]| else 0) + |c|
    ensures k < n && k in m ==> |m[k]| <= ChunkBytes(m, n)
  {
    if n != 0 { ChunkBytesUpdate(m, k, c, n - 1); }
  }

  lemma {:induction false} NoChunks(n: nat)
    ensures ChunkBytes(map[], n) == 0
  {
    if n != 0 { NoChunks(n - 1); }
  }

  lemma {:induction false} JoinedLength(m: map<nat, seq<byte>>, n: nat)
    requires Covers(m, n)
    ensures |Joined(m, n)| == ChunkBytes(m, n)
  {
    if n != 0 { JoinedLength(m, n - 1); }
  }

  // Pigeonhole: `total` distinct numbers below `total` are all of them.

  function Below(n: nat): (s: set<nat>)
    ensures forall k: nat :: k in s <==> k < n
    ensures |s| == n
  {
    if n == 0 then {} else Below(n - 1) + {n - 1}
  }

  lemma CountDecidesCoverage(m: map<nat, seq<byte>>, n: nat)
    requires forall k <- m.Keys :: k < n
    ensures |m| <= n
    ensures |m| == n <==> Covers(m, n)
  {
    assert |m.Keys| == |m|;
    SubsetSize(m.Keys, Below(n));
    if Covers(m, n) {
      assert m.Keys == Below(n);
    }
  }

  // ---------------------------------------------------------------------
  // The invariant

  predicate FitsBuf(b: Buf) {
    && (forall k <- b.fragments.Keys :: k < b.total)
    && b.bufferedBytes == ChunkBytes(b.fragments, b.total)
    && b.bufferedBytes <= MAX_PAYLOAD
  }

  /** Open streams are non-empty and incomplete, and their byte counts are exact and bounded. */
  predicate Valid(t: Table) {
    && |t| <= MAX_STREAMS
    && forall s <- t.Keys :: FitsBuf(t[s]) && 0 < |t[s].fragments| < t[s].total
  }

  ghost function TotalBuffered(t: Table): nat {
    if t == map[] then 0 else
      var s :| s in t;
      assert |t.Keys| == |t| && |(t - {s}).Keys| == |t - {s}| && (t - {s}).Keys == t.Keys - {s};
      t[s].bufferedBytes + TotalBuffered(t - {s})
  }

  lemma {:induction false} BufferingIsBounded(t: Table)
    requires forall s <- t.Keys :: t[s].bufferedBytes <= MAX_PAYLOAD
    ensures TotalBuffered(t) <= |t| * MAX_PAYLOAD
    decreases |t|
  {
    if t != map[] {
      var s :| s in t && TotalBuffered(t) == t[s].bufferedBytes + TotalBuffered(t - {s});
      assert |t.Keys| == |t| && |(t - {s}).Keys| == |t - {s}| && (t - {s}).Keys == t.Keys - {s};
      BufferingIsBounded(t - {s});
    }
  }

  /** No peer can make the client hold more than 64 MiB of fragments. */
  lemma ValidBuffersAtMost64MiB(t: Table)
    requires Valid(t)
    ensures TotalBuffered(t) <= 0x400_0000
  {
    BufferingIsBounded(t);
  }

  // ---------------------------------------------------------------------
  // absorb_fragment

  /** `now` is read first; entries at least 30 s old at that moment are dropped. */
  function Pruned(t: Table, now: nat): Table {
    map s <- t.Keys | now - t[s].firstSeen < TIMEOUT_MS :: t[s]
  }

  lemma PrunedIsValid(t: Table, now: nat)
    requires Valid(t)
    ensures Valid(Pruned(t, now))
  {
    assert |t.Keys| == |t| && |Pruned(t, now).Keys| == |Pruned(t, now)|;
    SubsetSize(Pruned(t, now).Keys, t.Keys);
  }

  /** The buffer for `h`'s stream, created when the stream is new. */
  function Opened(t: Table, h: FragmentHeader, flags: bv16, stamp: nat): (b: Buf)
    requires Valid(t) && (h.streamId in t ==> t[h.streamId].total == h.total)
    ensures FitsBuf(b) && b.total == h.total
  {
    NoChunks(h.total);
    if h.streamId in t then t[h.streamId] else Buf(map[], h.total, Stripped(flags), stamp, 0)
  }

  /** Size of the stream after storing `chunk`; the replaced bytes are subtracted first. */
  function NewTotal(b: Buf, sequence: nat, chunk: seq<byte>): nat
    requires FitsBuf(b) && sequence < b.total
  {
    ChunkBytesUpdate(b.fragments, sequence, chunk, b.total);
    b.bufferedBytes - (if sequence in b.fragments then |b.fragments[sequence]| else 0) + |chunk|
  }

  function Stored(b: Buf, sequence: nat, chunk: seq<byte>): (r: Buf)
    requires FitsBuf(b) && sequence < b.total && NewTotal(b, sequence, chunk) <= MAX_PAYLOAD
    ensures FitsBuf(r) && 0 < |r.fragments| <= r.total
    ensures |r.fragments| == r.total <==> Covers(r.fragments, r.total)
  {
    ChunkBytesUpdate(b.fragments, sequence, chunk, b.total);
    CountDecidesCoverage(b.fragments[sequence := chunk], b.total);
    assert sequence in b.fragments[sequence := chunk];
    b.(fragments := b.fragments[sequence := chunk], bufferedBytes := NewTotal(b, sequence, chunk))
  }

  /** Stores one chunk: the stream overflows, is delivered and forgotten, or stays open. */
  function Settle(t: Table, id: nat, b: Buf, sequence: nat, chunk: seq<byte>): (Table, Outcome)
    requires FitsBuf(b) && sequence < b.total
  {
    if NewTotal(b, sequence, chunk) > MAX_PAYLOAD then (t - {id}, Err(PayloadTooLarge(MAX_PAYLOAD + 1)))
    else
      var stored := Stored(b, sequence, chunk);
      if |stored.fragments| == stored.total
      then (t - {id}, Ok(Some(Delivered(stored.flags, Joined(stored.fragments, stored.total)))))
      else (t[id := stored], Ok(None))
  }

  /** One fragment against a pruned table. */
  function Accept(t: Table, frame: Frame, stamp: nat): (Table, Outcome)
    requires Valid(t)
  {
    match ParseFragment(frame.payload)
    case None => (t, Err(Internal))
    case Some(h) =>
      if h.total == 0 || h.sequence >= h.total then (t, Err(Internal))
      else if h.streamId in t && t[h.streamId].total != h.total then (t - {h.streamId}, Err(Internal))
      else if h.streamId !in t && |t| >= MAX_STREAMS then (t, Err(Internal))
      else
        Settle(t, h.streamId, Opened(t, h, frame.flags, stamp), h.sequence, frame.payload[FRAG_HEADER_SIZE..])
  }

  /** Whatever an outcome delivers is no larger than a payload may be. */
  predicate WithinLimit(o: Outcome) {
    o.Ok? && o.value.Some? ==> |o.value.value.payload| <= MAX_PAYLOAD
  }

  lemma RemovalIsValid(t: Table, s: nat)
    requires Valid(t)
    ensures Valid(t - {s})
  {}

  lemma InsertionIsValid(t: Table, s: nat, b: Buf)
    requires Valid(t) && FitsBuf(b) && 0 < |b.fragments| < b.total && (s in t || |t| < MAX_STREAMS)
    ensures Valid(t[s := b])
  {}

  lemma SettleKeepsValid(t: Table, id: nat, b: Buf, sequence: nat, chunk: seq<byte>)
    requires Valid(t) && FitsBuf(b) && sequence < b.total && (id in t || |t| < MAX_STREAMS)
    ensures Valid(Settle(t, id, b, sequence, chunk).0) && WithinLimit(Settle(t, id, b, sequence, chunk).1)
  {
    hide NewTotal, Joined, ChunkBytes, Valid;
    RemovalIsValid(t, id);
    if NewTotal(b, sequence, chunk) <= MAX_PAYLOAD {
      var stored := Stored(b, sequence, chunk);
      if |stored.fragments| == stored.total {
        JoinedLength(stored.fragments, stored.total);
      } else {
        InsertionIsValid(t, id, stored);
      }
    }
  }

  lemma AcceptKeepsValid(t: Table, frame: Frame, stamp: nat)
    requires Valid(t)
    ensures Valid(Accept(t, frame, stamp).0) && WithinLimit(Accept(t, frame, stamp).1)
  {
    hide ParseFragment, Settle, Stripped, FitsBuf;
    match ParseFragment(frame.payload) {
      case None =>
      case Some(h) =>
        if h.streamId in t { RemovalIsValid(t, h.streamId); }
        if 0 < h.total && h.sequence < h.total && (h.streamId in t ==> t[h.streamId].total == h.total)
           && (h.streamId in t || |t| < MAX_STREAMS) {
          SettleKeepsValid(t, h.streamId, Opened(t, h, frame.flags, stamp), h.sequence,
                frame.payload[FRAG_HEADER_SIZE..]);
        }
    }
  }

  /** absorb_fragment: `now` prunes, `stamp` dates a new stream.  The invariant survives every outcome. */
  function Absorb(t: Table, frame: Frame, now: nat, stamp: nat): (r: (Table, Outcome))
    requires Valid(t)
    ensures Valid(r.0) && WithinLimit(r.1)
  {
    PrunedIsValid(t, now);
    AcceptKeepsValid(Pruned(t, now), frame, stamp);
    Accept(Pruned(t, now), frame, stamp)
  }

  /** A fragment delivered by the transport, with the two clock readings it causes. */
  datatype Arrival = Arrival(frame: Frame, now: nat, stamp: nat)

  /** A whole history of good, bad and repeated fragments: every outcome, and a table that is still valid. */
  function Run(t: Table, history: seq<Arrival>): (r: (Table, seq<Outcome>))
    requires Valid(t)
    ensures Valid(r.0) && |r.1| == |history|
    ensures forall o <- r.1 :: WithinLimit(o)
    decreases history
  {
    if history == [] then (t, [])
    else
      var first := Absorb(t, history[0].frame, history[0].now, history[0].stamp);
      var rest := Run(first.0, history[1..]);
      (rest.0, [first.1] + rest.1)
  }
}
