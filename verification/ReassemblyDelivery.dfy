/**
 When reassembly delivers: for any interleaving and re-sending of the fragments of up to
 64 messages on distinct streams, each message comes out at the very step at which its
 last missing piece arrives, and no step fails.
 */
module ReassemblyDelivery {
  import opened Bytes
  import opened Framing
  import opened Reassembly
  import opened ReassemblyLog

  /** The messages under way, each as the pieces of one stream. */
  type Messages = map<nat, seq<seq<byte>>>

  predicate Carriable(ms: Messages) {
    |ms| <= 64 && forall s <- ms.Keys :: |Concat(ms[s])| <= 1048576
  }

  /** A fragment that is the piece of the message its header says it is. */
  predicate Belongs(a: Arrival, ms: Messages) {
    match ParseFragment(a.frame.payload)
    case None => false
    case Some(h) =>
      h.streamId in ms && h.sequence < h.total == |ms[h.streamId]|
      && a.frame.payload[FRAG_HEADER_SIZE..] == ms[h.streamId][h.sequence]
  }

  function StreamOf(a: Arrival, ms: Messages): nat
    requires Belongs(a, ms)
  {
    ParseFragment(a.frame.payload).value.streamId
  }

  function NumberOf(a: Arrival, ms: Messages): nat
    requires Belongs(a, ms)
  {
    ParseFragment(a.frame.payload).value.sequence
  }

  // ---------------------------------------------------------------------
  // What should happen: a stream is the set of piece numbers seen since it opened

  /** `flags` are those of the fragment that opened the stream. */
  datatype Progress = Progress(seen: set<nat>, flags: bv16, since: nat)

  type Open = map<nat, Progress>

  function Advance(ms: Messages, open: Open, a: Arrival): (Open, Outcome)
    requires Belongs(a, ms)
  {
    var s := StreamOf(a, ms);
    var p := if s in open then open[s] else Progress({}, a.frame.flags, a.stamp);
    var seen := p.seen + {NumberOf(a, ms)};
    if seen == Below(|ms[s]|) then (open - {s}, Ok(Some(Reassembled(p.flags, Concat(ms[s])))))
    else (open[s := p.(seen := seen)], Ok(None))
  }

  /** No open stream reaches the age of 30 s before a fragment arrives. */
  predicate Young(open: Open, now: nat) {
    forall s <- open.Keys :: now - open[s].since < 30000
  }

  ghost predicate Punctual(ms: Messages, open: Open, history: seq<Arrival>)
    requires forall a <- history :: Belongs(a, ms)
    decreases history
  {
    history != [] ==> Young(open, history[0].now) && Punctual(ms, Advance(ms, open, history[0]).0, history[1..])
  }

  function Outcomes(ms: Messages, open: Open, history: seq<Arrival>): (os: seq<Outcome>)
    requires forall a <- history :: Belongs(a, ms)
    ensures |os| == |history|
    decreases history
  {
    if history == [] then []
    else
      var step := Advance(ms, open, history[0]);
      [step.1] + Outcomes(ms, step.0, history[1..])
  }

  // ---------------------------------------------------------------------
  // The log does exactly that

  ghost predicate TracksStream(p: Progress, s: Stream, pieces: seq<seq<byte>>) {
    && s.total == |pieces| && s.flags == p.flags && s.since == p.since && OnlyPieces(s.entries, pieces)
    && (forall k: nat :: k in p.seen <==> Last(s.entries, k).Some?)
  }

  ghost predicate Tracks(ms: Messages, open: Open, log: Log) {
    && open.Keys == log.Keys && open.Keys <= ms.Keys
    && forall s <- open.Keys :: TracksStream(open[s], log[s], ms[s])
  }

  lemma {:induction false} PiecesBoundSize(entries: seq<Entry>, pieces: seq<seq<byte>>, n: nat)
    requires OnlyPieces(entries, pieces) && n <= |pieces|
    ensures SizeOf(entries, n) <= |Concat(pieces[..n])|
  {
    hide Last, Concat;
    if n != 0 {
      PiecesBoundSize(entries, pieces, n - 1);
      ConcatSnoc(pieces, n - 1);
      if Last(entries, n - 1).Some? { LastIsPiece(entries, pieces, n - 1); }
    }
  }

  lemma LastAppended(entries: seq<Entry>, e: Entry, k: nat)
    ensures Last(entries + [e], k) == if e.sequence == k then Some(e.chunk) else Last(entries, k)
  {
    assert (entries + [e])[..|entries + [e]| - 1] == entries;
  }

  lemma TracksAppended(p: Progress, s: Stream, pieces: seq<seq<byte>>, k: nat)
    requires TracksStream(p, s, pieces) && k < |pieces|
    ensures TracksStream(p.(seen := p.seen + {k}), s.(entries := s.entries + [Entry(k, pieces[k])]), pieces)
  {
    hide Last;
    var e := Entry(k, pieces[k]);
    forall j: nat ensures j in p.seen + {k} <==> Last(s.entries + [e], j).Some? { LastAppended(s.entries, e, j); }
  }

  lemma SeenIsComplete(p: Progress, s: Stream, pieces: seq<seq<byte>>)
    requires TracksStream(p, s, pieces)
    ensures p.seen == Below(|pieces|) <==> Complete(s.entries, |pieces|)
    ensures Complete(s.entries, |pieces|) ==> Contents(s.entries, |pieces|) == Concat(pieces)
    ensures SizeOf(s.entries, |pieces|) <= |Concat(pieces)|
  {
    hide Last, SizeOf, Concat, Contents;
    forall k <- p.seen ensures k < |pieces| { LastIsPiece(s.entries, pieces, k); }
    assert pieces[..|pieces|] == pieces;
    PiecesBoundSize(s.entries, pieces, |pieces|);
    if Complete(s.entries, |pieces|) { ContentsArePieces(s.entries, pieces, |pieces|); }
  }

  lemma RoomForOneMore(ms: Messages, log: Log, s: nat)
    requires log.Keys <= ms.Keys && s in ms && s !in log
    ensures |log| < |ms|
  {
    SubsetSize(log.Keys, ms.Keys);
    assert |log.Keys| == |log| && |ms.Keys| == |ms|;
  }

  lemma ConcludeTracks(ms: Messages, open: Open, log: Log, id: nat, p: Progress, s: Stream)
    requires Carriable(ms) && Tracks(ms, open, log) && id in ms && TracksStream(p, s, ms[id])
    ensures var all := p.seen == Below(|ms[id]|);
      var (log', o) := Conclude(log, id, s);
      && o == Ok(if all then Some(Reassembled(p.flags, Concat(ms[id]))) else None)
      && Tracks(ms, if all then open - {id} else open[id := p], log')
  {
    hide Last, SizeOf, Contents, Complete, Concat, Below, Reassembled, TracksStream;
    SeenIsComplete(p, s, ms[id]);
    assert s.total == |ms[id]| && s.flags == p.flags by { TotalsAgree(p, s, ms[id]); }
  }

  lemma TotalsAgree(p: Progress, s: Stream, pieces: seq<seq<byte>>)
    requires TracksStream(p, s, pieces)
    ensures s.total == |pieces| && s.flags == p.flags && s.since == p.since
  {}

  lemma AllAreLive(ms: Messages, open: Open, log: Log, now: nat)
    requires Tracks(ms, open, log) && Young(open, now)
    ensures Live(log, now) == log
  {
    hide Last;
  }

  lemma StepTracks(ms: Messages, open: Open, log: Log, a: Arrival)
    requires Carriable(ms) && Belongs(a, ms) && Tracks(ms, open, log) && Young(open, a.now)
    ensures Step(log, a).1 == Advance(ms, open, a).1
    ensures Tracks(ms, Advance(ms, open, a).0, Step(log, a).0)
  {
    AllAreLive(ms, open, log, a.now);
    hide Live, Last, Conclude, Concat, Below, Reassembled, ParseFragment, Young;
    var id, k := StreamOf(a, ms), NumberOf(a, ms);
    var pieces := ms[id];
    if id !in log { RoomForOneMore(ms, log, id); }
    NothingSeen(pieces, a.frame.flags, a.stamp);
    var p := if id in open then open[id] else Progress({}, a.frame.flags, a.stamp);
    var s := if id in log then log[id] else Stream(|pieces|, a.frame.flags, a.stamp, []);
    TotalsAgree(p, s, pieces);
    TracksAppended(p, s, pieces, k);
    ConcludeTracks(ms, open, log, id, p.(seen := p.seen + {k}), s.(entries := s.entries + [Entry(k, pieces[k])]));
  }

  lemma NothingSeen(pieces: seq<seq<byte>>, flags: bv16, since: nat)
    ensures TracksStream(Progress({}, flags, since), Stream(|pieces|, flags, since, []), pieces)
  {}

  lemma {:induction false} LogDelivers(ms: Messages, open: Open, log: Log, history: seq<Arrival>)
    requires Carriable(ms) && (forall a <- history :: Belongs(a, ms)) && Punctual(ms, open, history)
    requires Tracks(ms, open, log)
    ensures RunLog(log, history).1 == Outcomes(ms, open, history)
    decreases history
  {
    hide Step, Advance, Tracks, Young, Belongs, Carriable;
    if history != [] {
      assert history[0] in history;
      StepTracks(ms, open, log, history[0]);
      LogDelivers(ms, Advance(ms, open, history[0]).0, Step(log, history[0]).0, history[1..]);
    }
  }

  /**
   The table of src/client.cpp, from a fresh client: no errors, and each delivery exactly when its
   stream has seen every piece.
   */
  lemma TableDelivers(ms: Messages, history: seq<Arrival>)
    requires Carriable(ms) && (forall a <- history :: Belongs(a, ms)) && Punctual(ms, map[], history)
    ensures Run(map[], history).1 == Outcomes(ms, map[], history)
  {
    hide Run, RunLog, Outcomes, Punctual, Belongs, Carriable;
    TableRefinesLog(map[], map[], history);
    LogDelivers(ms, map[], map[], history);
  }

  // ---------------------------------------------------------------------
  // The same in terms of the history alone, up to a stream's first delivery

  /** The piece numbers of stream `s` among the fragments of a history. */
  function Numbers(ms: Messages, history: seq<Arrival>, s: nat): set<nat>
    requires forall a <- history :: Belongs(a, ms)
    decreases history
  {
    if history == [] then {}
    else (if StreamOf(history[0], ms) == s then {NumberOf(history[0], ms)} else {}) + Numbers(ms, history[1..], s)
  }

  function SeenIn(open: Open, s: nat): set<nat> { if s in open then open[s].seen else {} }

  lemma AdvanceSees(ms: Messages, open: Open, a: Arrival, s: nat)
    requires Belongs(a, ms) && s in ms
    ensures var seen := SeenIn(open, s) + (if StreamOf(a, ms) == s then {NumberOf(a, ms)} else {});
      && (seen != Below(|ms[s]|) ==> SeenIn(Advance(ms, open, a).0, s) == seen)
      && (StreamOf(a, ms) == s ==>
            var o := Advance(ms, open, a).1;
            && o.Ok? && (o.value.Some? <==> seen == Below(|ms[s]|))
            && (o.value.Some? ==> o.value.value.payload == Concat(ms[s])))
  {
    hide Below, Concat, Belongs, Kept;
  }

  lemma {:induction false} NumbersAreBelow(ms: Messages, history: seq<Arrival>, s: nat)
    requires (forall a <- history :: Belongs(a, ms)) && s in ms
    ensures Numbers(ms, history, s) <= Below(|ms[s]|)
    decreases history
  {
    if history != [] {
      assert history[0] in history;
      NumbersAreBelow(ms, history[1..], s);
    }
  }

  lemma {:induction false} OutcomeAt(ms: Messages, open: Open, history: seq<Arrival>, i: nat)
    requires (forall a <- history :: Belongs(a, ms)) && i < |history|
    requires var s := StreamOf(history[i], ms);
      SeenIn(open, s) <= Below(|ms[s]|) && SeenIn(open, s) + Numbers(ms, history[..i], s) != Below(|ms[s]|)
    ensures var s, o := StreamOf(history[i], ms), Outcomes(ms, open, history)[i];
      && o.Ok? && (o.value.Some? <==>
            SeenIn(open, s) + Numbers(ms, history[..i], s) + {NumberOf(history[i], ms)} == Below(|ms[s]|))
      && (o.value.Some? ==> o.value.value.payload == Concat(ms[s]))
    decreases history
  {
    hide Belongs, Advance, Below, Concat, SeenIn;
    var s, a := StreamOf(history[i], ms), history[0];
    assert a in history && history[i] in history;
    StreamIsKnown(history[i], ms);
    AdvanceSees(ms, open, a, s);
    if i == 0 {
      assert history[..0] == [];
      assert SeenIn(open, s) + {} == SeenIn(open, s);
    } else {
      var now := if StreamOf(a, ms) == s then {NumberOf(a, ms)} else {};
      var open' := Advance(ms, open, a).0;
      assert history[..i][0] == a && history[..i][1..] == history[1..][..i - 1];
      assert SeenIn(open, s) + Numbers(ms, history[..i], s)
        == SeenIn(open, s) + now + Numbers(ms, history[1..][..i - 1], s);
      NumbersAreBelow(ms, history[..i], s);
      assert SeenIn(open', s) == SeenIn(open, s) + now;
      OutcomeAt(ms, open', history[1..], i - 1);
    }
  }

  lemma StreamIsKnown(a: Arrival, ms: Messages)
    requires Belongs(a, ms)
    ensures StreamOf(a, ms) in ms && NumberOf(a, ms) in Below(|ms[StreamOf(a, ms)]|)
  {}

  /**
   The last missing piece, whenever and in whatever order it comes, delivers the message; no earlier
   one does, and none fails.
   */
  lemma LastMissingPieceDelivers(ms: Messages, history: seq<Arrival>, i: nat)
    requires Carriable(ms) && (forall a <- history :: Belongs(a, ms)) && Punctual(ms, map[], history) && i < |history|
    requires var s := StreamOf(history[i], ms);
      Numbers(ms, history[..i], s) != Below(|ms[s]|)
    ensures var s, o := StreamOf(history[i], ms), Run(map[], history).1[i];
      && o.Ok? && (o.value.Some? <==> Numbers(ms, history[..i], s) + {NumberOf(history[i], ms)} == Below(|ms[s]|))
      && (o.value.Some? ==> o.value.value.payload == Concat(ms[s]))
  {
    hide Run, Outcomes, Punctual, Belongs, Carriable, Below, Concat, Numbers;
    var s := StreamOf(history[i], ms);
    TableDelivers(ms, history);
    assert SeenIn(map[], s) + Numbers(ms, history[..i], s) == Numbers(ms, history[..i], s);
    OutcomeAt(ms, map[], history, i);
  }
}
