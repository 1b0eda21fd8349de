/**
 Which flags a reassembled message carries: over every history, those of the fragment that
 opened its stream, with FRAGMENTED and MAC cleared.
 */
module ReassemblyFlags {
  import opened Bytes
  import opened Framing
  import opened Reassembly
  import opened ReassemblyLog

  /** The table after the first `n` fragments. */
  function TableAfter(history: seq<Arrival>, n: nat): (t: Table)
    requires n <= |history|
    ensures Valid(t)
  {
    Run(map[], history[..n]).0
  }

  /** The open streams at the moment fragment `k` arrives, stale ones already dropped. */
  function OpenAt(history: seq<Arrival>, k: nat): Table
    requires k < |history|
  {
    Pruned(TableAfter(history, k), history[k].now)
  }

  /** Fragment `j` opened stream `s`, which has been open at every arrival since, up to `i`. */
  ghost predicate OpenedBy(history: seq<Arrival>, s: nat, j: nat, i: nat) {
    && j <= i <= |history| && j < |history|
    && Carries(history[j], s) && s !in OpenAt(history, j)
    && forall k :: j < k <= i && k < |history| ==> s in OpenAt(history, k)
  }

  // ---------------------------------------------------------------------
  // One fragment

  lemma SettleFlags(t: Table, id: nat, b: Buf, sequence: nat, chunk: seq<byte>)
    requires FitsBuf(b) && sequence < b.total
    ensures var (t', o) := Settle(t, id, b, sequence, chunk);
      && (forall s <- t'.Keys :: if s == id then t'[s].flags == b.flags else s in t && t'[s] == t[s])
      && (o.Ok? && o.value.Some? ==> o.value.value.flags == b.flags)
  {
    hide FitsBuf, NewTotal, Joined;
  }

  /** Flags change hands only when a stream opens. */
  lemma AcceptFlags(t: Table, frame: Frame, stamp: nat)
    requires Valid(t)
    ensures var (t', o) := Accept(t, frame, stamp);
      var h := ParseFragment(frame.payload);
      && (forall s <- t'.Keys ::
            if s in t then t'[s].flags == t[s].flags
            else h.Some? && h.value.streamId == s && t'[s].flags == Stripped(frame.flags))
      && (o.Ok? && o.value.Some? ==>
            h.Some? && var s := h.value.streamId;
            o.value.value.flags == if s in t then t[s].flags else Stripped(frame.flags))
  {
    hide ParseFragment, Settle, Stripped, FitsBuf;
    var header := ParseFragment(frame.payload);
    if header.Some? {
      var h := header.value;
      if 0 < h.total && h.sequence < h.total && (h.streamId in t ==> t[h.streamId].total == h.total)
         && (h.streamId in t || |t| < MAX_STREAMS) {
        SettleFlags(t, h.streamId, Opened(t, h, frame.flags, stamp), h.sequence, frame.payload[FRAG_HEADER_SIZE..]);
      }
    }
  }

  // ---------------------------------------------------------------------
  // Whole histories

  lemma {:induction false} RunSnoc(t: Table, history: seq<Arrival>, a: Arrival)
    requires Valid(t)
    ensures var before, after := Run(t, history), Run(t, history + [a]);
      && after.0 == Absorb(before.0, a.frame, a.now, a.stamp).0
      && after.1 == before.1 + [Absorb(before.0, a.frame, a.now, a.stamp).1]
    decreases history
  {
    hide Absorb, Valid;
    if history == [] {
      assert history + [a] == [a] && [a][1..] == [];
    } else {
      assert (history + [a])[1..] == history[1..] + [a] && (history + [a])[0] == history[0];
      RunSnoc(Absorb(t, history[0].frame, history[0].now, history[0].stamp).0, history[1..], a);
    }
  }

  lemma TableSnoc(history: seq<Arrival>, i: nat)
    requires i < |history|
    ensures TableAfter(history, i + 1)
         == Absorb(TableAfter(history, i), history[i].frame, history[i].now, history[i].stamp).0
  {
    hide Run, Absorb, Valid;
    assert history[..i + 1] == history[..i] + [history[i]];
    RunSnoc(map[], history[..i], history[i]) by { EmptyIsValid(); }
  }

  lemma EmptyIsValid()
    ensures Valid(map[])
  {}

  lemma {:induction false} OutcomeIs(t: Table, history: seq<Arrival>, i: nat)
    requires Valid(t) && i < |history|
    ensures Run(t, history).1[i]
         == Absorb(Run(t, history[..i]).0, history[i].frame, history[i].now, history[i].stamp).1
    decreases history
  {
    hide Absorb, Valid;
    if i == 0 {
      assert history[..0] == [];
    } else {
      assert history[..i][0] == history[0] && history[..i][1..] == history[1..][..i - 1];
      OutcomeIs(Absorb(t, history[0].frame, history[0].now, history[0].stamp).0, history[1..], i - 1);
    }
  }

  lemma OutcomeOf(history: seq<Arrival>, i: nat)
    requires i < |history|
    ensures Run(map[], history).1[i]
         == Absorb(TableAfter(history, i), history[i].frame, history[i].now, history[i].stamp).1
  {
    hide Run, Absorb;
    OutcomeIs(map[], history, i);
  }

  lemma AbsorbIsAccept(t: Table, a: Arrival)
    requires Valid(t)
    ensures Valid(Pruned(t, a.now)) && Absorb(t, a.frame, a.now, a.stamp) == Accept(Pruned(t, a.now), a.frame, a.stamp)
  {
    hide Accept, Pruned;
    PrunedIsValid(t, a.now);
  }

  /** The flags of the stream `s`, before and after fragment `i`, and of what is delivered. */
  lemma StepFlags(history: seq<Arrival>, i: nat, s: nat)
    requires i < |history|
    ensures s in OpenAt(history, i) ==>
      s in TableAfter(history, i) && OpenAt(history, i)[s] == TableAfter(history, i)[s]
    ensures s in TableAfter(history, i + 1) ==>
      var flags := TableAfter(history, i + 1)[s].flags;
      if s in OpenAt(history, i) then flags == OpenAt(history, i)[s].flags
      else Carries(history[i], s) && flags == Stripped(history[i].frame.flags)
    ensures var o := Run(map[], history).1[i];
      o.Ok? && o.value.Some? ==>
        var h := ParseFragment(history[i].frame.payload);
        h.Some? && (h.value.streamId == s ==>
          o.value.value.flags == if s in OpenAt(history, i) then OpenAt(history, i)[s].flags
                                 else Stripped(history[i].frame.flags))
  {
    hide Run, Absorb, Accept, Stripped, ParseFragment, TableAfter;
    TableSnoc(history, i);
    OutcomeOf(history, i);
    AbsorbIsAccept(TableAfter(history, i), history[i]);
    AcceptFlags(OpenAt(history, i), history[i].frame, history[i].stamp);
  }

  lemma NothingBefore(history: seq<Arrival>)
    ensures TableAfter(history, 0) == map[]
  {
    assert history[..0] == [];
  }

  lemma OpenedNow(history: seq<Arrival>, s: nat, i: nat)
    requires i < |history| && Carries(history[i], s) && s !in OpenAt(history, i)
    ensures OpenedBy(history, s, i, i)
  {
    hide OpenAt, Carries;
  }

  lemma StillOpen(history: seq<Arrival>, s: nat, j: nat, i: nat)
    requires 0 < i < |history| && OpenedBy(history, s, j, i - 1) && s in OpenAt(history, i)
    ensures OpenedBy(history, s, j, i)
  {
    hide OpenAt, Carries;
  }

  /** After `n` fragments, every open stream has the flags of the fragment that opened it. */
  lemma {:induction false} StreamsKeepFlags(history: seq<Arrival>, n: nat, s: nat) returns (j: nat)
    requires n <= |history| && s in TableAfter(history, n)
    ensures j < n && OpenedBy(history, s, j, n - 1)
    ensures TableAfter(history, n)[s].flags == Stripped(history[j].frame.flags)
    decreases n
  {
    hide TableAfter, OpenAt, Stripped, Carries, OpenedBy, Run, ParseFragment, WithinLimit, Valid;
    NothingBefore(history);
    StepFlags(history, n - 1, s);
    if s in OpenAt(history, n - 1) {
      j := StreamsKeepFlags(history, n - 1, s);
      StillOpen(history, s, j, n - 1);
    } else {
      j := n - 1;
      OpenedNow(history, s, j);
    }
  }

  /**
   Over every history: a delivered frame has FRAGMENTED (bit 2) and MAC (bit 0) clear, and every other
   flag as the fragment had it that opened its stream.
   */
  lemma DeliveredFlags(history: seq<Arrival>, i: nat) returns (s: nat, j: nat)
    requires i < |history| && var o := Run(map[], history).1[i]; o.Ok? && o.value.Some?
    ensures Carries(history[i], s) && j <= i && OpenedBy(history, s, j, i)
    ensures var flags := Run(map[], history).1[i].value.value.flags;
      flags & 0x0004 == 0 && flags & 0x0001 == 0 && flags | 0x0005 == history[j].frame.flags | 0x0005
  {
    hide Run, TableAfter, OpenAt, Stripped, ParseFragment, Kept, OpenedBy;
    StepFlags(history, i, 0);
    s := ParseFragment(history[i].frame.payload).value.streamId;
    StepFlags(history, i, s);
    NothingBefore(history);
    if s in OpenAt(history, i) {
      j := StreamsKeepFlags(history, i, s);
      StillOpen(history, s, j, i);
    } else {
      j := i;
      OpenedNow(history, s, j);
    }
    StrippedIsKept(history[j].frame.flags);
    ReassembledFlags(history[j].frame.flags, []);
  }
}
