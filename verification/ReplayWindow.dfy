/**
  The DTLS anti-replay window of ssl/dtls_record.cc (section 4.1.2.6 of RFC 6347)
  and the read-side epoch change of ssl/dtls_method.cc.

  A record number is the eight-byte header field read as a big-endian integer:
  the epoch in the top 16 bits, the sequence number in the low 48. The 64-bit map
  is modelled as its 64 bits, least significant first. The map and the maximum
  are shown to be an exact finite image of the set of all numbers accepted so far
  in the epoch.
 */
module ReplayWindow {

  const WINDOW_SIZE := 64

  type Word = w: seq<bool> | |w| == 64 witness seq(64, _ => false)

  const ZERO: Word := seq(64, _ => false)

  /** `w << n` on uint64_t, for n < 64. */
  function Shl(w: Word, n: nat): (r: Word)
    requires n < 64
    ensures forall i :: 0 <= i < 64 ==> r[i] == (n <= i && w[i - n])
  {
    seq(n, _ => false) + w[..64 - n]
  }

  type Number = n: nat | n < 0x1_0000_0000_0000_0000

  function EpochOf(n: Number): nat {
    n / 0x1_0000_0000_0000
  }

  /** `bits` and `maxSeq` hold exactly the members of `seen` that lie within 64 of the maximum. */
  ghost predicate Represents(bits: Word, maxSeq: nat, seen: set<nat>) {
    && (forall s :: s in seen ==> s <= maxSeq)
    && (forall i :: 0 <= i < 64 ==> (bits[i] <==> i <= maxSeq && maxSeq - i in seen))
  }

  /** The set-level acceptance rule: newer than everything, or in the window and unseen. */
  ghost predicate Fresh(maxSeq: nat, seen: set<nat>, s: nat) {
    s > maxSeq || (maxSeq - s < WINDOW_SIZE && s !in seen)
  }

  /** DTLS1_BITMAP, with the set of numbers it stands for as a ghost. */
  class Bitmap {
    var bits: Word
    var maxSeq: Number
    ghost var seen: set<nat>

    ghost predicate Valid()
      reads this
    {
      Represents(bits, maxSeq, seen)
    }

    constructor ()
      ensures Valid() && seen == {} && maxSeq == 0
    {
      bits, maxSeq, seen := ZERO, 0, {};
    }

    /** dtls1_bitmap_should_discard: the bit test decides membership in the abstract set. */
    method ShouldDiscard(s: Number) returns (discard: bool)
      requires Valid()
      ensures discard <==> !Fresh(maxSeq, seen, s)
    {
      if s > maxSeq {
        return false;
      }
      var idx := maxSeq - s;
      return idx >= WINDOW_SIZE || bits[idx];
    }

    /** dtls1_bitmap_record; a stale number, which its caller never passes, is left unmarked. */
    method Record(s: Number)
      requires Valid()
      modifies this
      ensures maxSeq == if s > old(maxSeq) then s else old(maxSeq)
      ensures seen == if maxSeq - s < WINDOW_SIZE then old(seen) + {s} else old(seen)
      ensures Valid()
    {
      if s > maxSeq {
        var shift := s - maxSeq;
        if shift >= WINDOW_SIZE {
          bits := ZERO;
        } else {
          bits := Shl(bits, shift);
        }
        maxSeq := s;
      }
      var idx := maxSeq - s;
      if idx < WINDOW_SIZE {
        bits := bits[idx := true];
        seen := seen + {s};
      }
    }
  }

  /** What reaches the record layer: a record (its number, and whether it authenticates), or a cipher change. */
  datatype Event =
    | Arrive(number: Number, authentic: bool)
    | ChangeReadState(leftover: bool)

  // ----- whole runs -----

  /** The number of epochs begun by a run. */
  function EpochChanges(events: seq<Event>): nat {
    if events == [] then 0
    else
      var last := events[|events| - 1];
      EpochChanges(events[..|events| - 1]) + (if last.ChangeReadState? && !last.leftover then 1 else 0)
  }

  lemma {:induction false} EpochChangesOfPrefix(events: seq<Event>, k: nat)
    requires k <= |events|
    ensures EpochChanges(events[..k]) <= EpochChanges(events)
    decreases |events|
  {
    if k == |events| {
      assert events[..k] == events;
    } else {
      var front := events[..|events| - 1];
      EpochChangesOfPrefix(front, k);
      assert front[..k] == events[..k];
    }
  }

  /** The largest number accepted in `epoch`, or 0: what `max_seq_num` must be. */
  function Newest(accepted: seq<Number>, epoch: nat): nat {
    if accepted == [] then 0
    else
      var n := accepted[|accepted| - 1];
      var rest := Newest(accepted[..|accepted| - 1], epoch);
      if EpochOf(n) == epoch && n > rest then n else rest
  }

  ghost predicate NoRepeats(s: seq<nat>) {
    forall i, j :: 0 <= i < j < |s| ==> s[i] != s[j]
  }

  /** The numbers of the events that a list of verdicts accepts, oldest first. */
  function Accepted(events: seq<Event>, verdicts: seq<bool>): seq<Number>
    requires |events| == |verdicts|
  {
    if events == [] then []
    else
      var k := |events| - 1;
      Accepted(events[..k], verdicts[..k]) +
      (if events[k].Arrive? && verdicts[k] then [events[k].number] else [])
  }

  /** An arrival is accepted exactly when RFC 6347 allows it, given what was accepted before it. */
  ghost predicate CorrectVerdict(e: Event, epoch: nat, before: seq<Number>, verdict: bool) {
    verdict <==>
      && e.Arrive? && e.authentic && EpochOf(e.number) == epoch
      && e.number !in before
      && e.number + WINDOW_SIZE > Newest(before, epoch)
  }

  /** Every event of a run got the correct verdict. */
  ghost predicate CorrectRun(events: seq<Event>, verdicts: seq<bool>)
    requires |events| == |verdicts|
  {
    events == [] ||
    (var k := |events| - 1;
     && CorrectRun(events[..k], verdicts[..k])
     && CorrectVerdict(events[k], EpochChanges(events[..k]), Accepted(events[..k], verdicts[..k]), verdicts[k]))
  }

  /** How the read state mirrors the history of a run. */
  ghost predicate Mirrors(accepted: seq<Number>, epoch: nat, seen: set<nat>, maxSeq: nat) {
    && NoRepeats(accepted)
    && (forall s :: s in accepted ==> EpochOf(s) <= epoch)
    && (forall s: Number :: s in seen <==> s in accepted && EpochOf(s) == epoch)
    && (forall s :: s in seen ==> s <= maxSeq)
    && maxSeq == Newest(accepted, epoch)
  }

  lemma ArrivalStep(accepted: seq<Number>, epoch: nat, seen: set<nat>, maxSeq: nat, number: Number)
    requires Mirrors(accepted, epoch, seen, maxSeq) && EpochOf(number) == epoch
    ensures Fresh(maxSeq, seen, number) <==> number !in accepted && number + WINDOW_SIZE > Newest(accepted, epoch)
    ensures Fresh(maxSeq, seen, number) ==>
              Mirrors(accepted + [number], epoch, seen + {number}, if number > maxSeq then number else maxSeq)
  {
    assert number in seen <==> number in accepted;
    assert (accepted + [number])[..|accepted|] == accepted;
  }

  lemma ChangeStep(accepted: seq<Number>, epoch: nat, seen: set<nat>, maxSeq: nat)
    requires Mirrors(accepted, epoch, seen, maxSeq)
    ensures Mirrors(accepted, epoch + 1, {}, 0)
  {
    NothingYet(accepted, epoch + 1);
  }

  lemma ExtendRun(events: seq<Event>, verdicts: seq<bool>, e: Event, verdict: bool)
    requires |events| == |verdicts| && CorrectRun(events, verdicts)
    requires CorrectVerdict(e, EpochChanges(events), Accepted(events, verdicts), verdict)
    ensures CorrectRun(events + [e], verdicts + [verdict])
    ensures Accepted(events + [e], verdicts + [verdict]) == Accepted(events, verdicts) + (if verdict then [e.number] else [])
  {
    assert (events + [e])[..|events|] == events && (verdicts + [verdict])[..|events|] == verdicts;
  }

  lemma ExtendCounts(events: seq<Event>, e: Event)
    ensures EpochChanges(events + [e]) == EpochChanges(events) + (if e.ChangeReadState? && !e.leftover then 1 else 0)
  {
    assert (events + [e])[..|events|] == events;
  }

  /** The read half of the record layer. `r_epoch` is a 16-bit counter; `accepted` is the history. */
  class ReadState {
    var rEpoch: nat
    var bitmap: Bitmap
    ghost var accepted: seq<Number>

    ghost predicate Valid()
      reads this, bitmap
    {
      bitmap.Valid() && Mirrors(accepted, rEpoch, bitmap.seen, bitmap.maxSeq)
    }

    constructor ()
      ensures Valid() && fresh(bitmap) && rEpoch == 0 && accepted == []
    {
      rEpoch, accepted := 0, [];
      bitmap := new Bitmap();
    }

    /** The accept path of dtls_open_record. */
    method OpenRecord(number: Number, authentic: bool) returns (verdict: bool)
      requires Valid()
      modifies this, bitmap
      ensures Valid() && bitmap == old(bitmap) && rEpoch == old(rEpoch)
      ensures CorrectVerdict(Arrive(number, authentic), rEpoch, old(accepted), verdict)
      ensures accepted == old(accepted) + if verdict then [number] else []
    {
      if EpochOf(number) != rEpoch {
        return false;
      }
      ArrivalStep(accepted, rEpoch, bitmap.seen, bitmap.maxSeq, number);
      var discard := bitmap.ShouldDiscard(number);
      if discard || !authentic {
        return false;
      }
      bitmap.Record(number);
      accepted := accepted + [number];
      return true;
    }

    /** dtls1_set_read_state: refused while handshake data of the old epoch is pending. */
    method SetReadState(leftover: bool) returns (ok: bool)
      requires Valid() && (leftover || rEpoch + 1 < 0x1_0000)
      modifies this
      ensures Valid() && ok == !leftover && accepted == old(accepted)
      ensures bitmap == old(bitmap) || fresh(bitmap)
      ensures rEpoch == old(rEpoch) + if ok then 1 else 0
    {
      if leftover {
        return false;
      }
      ChangeStep(accepted, rEpoch, bitmap.seen, bitmap.maxSeq);
      rEpoch := rEpoch + 1;
      bitmap := new Bitmap();
      return true;
    }

    method Handle(e: Event) returns (verdict: bool)
      requires Valid() && (e.ChangeReadState? && !e.leftover ==> rEpoch + 1 < 0x1_0000)
      modifies this, bitmap
      ensures Valid() && (bitmap == old(bitmap) || fresh(bitmap))
      ensures CorrectVerdict(e, old(rEpoch), old(accepted), verdict)
      ensures accepted == old(accepted) + if verdict then [e.number] else []
      ensures rEpoch == old(rEpoch) + if e.ChangeReadState? && !e.leftover then 1 else 0
    {
      match e {
        case Arrive(number, authentic) =>
          verdict := OpenRecord(number, authentic);
        case ChangeReadState(leftover) =>
          var _ := SetReadState(leftover);
          verdict := false;
      }
    }
  }

  /**
    A whole run over any arrivals and cipher changes with fewer than 2^16 epochs.
    No number is accepted twice, across all epochs; and each arrival is accepted
    if and only if it is authentic, of the current epoch, unseen, and no more than
    63 behind the newest number accepted in that epoch.
   */
  method Run(events: seq<Event>) returns (verdicts: seq<bool>)
    requires EpochChanges(events) < 0x1_0000
    ensures |verdicts| == |events|
    ensures NoRepeats(Accepted(events, verdicts))
    ensures CorrectRun(events, verdicts)
  {
    var state := new ReadState();
    verdicts := [];
    for k := 0 to |events|
      invariant fresh(state) && fresh(state.bitmap) && state.Valid()
      invariant |verdicts| == k && state.accepted == Accepted(events[..k], verdicts)
      invariant state.rEpoch == EpochChanges(events[..k])
      invariant CorrectRun(events[..k], verdicts)
    {
      EpochChangesOfPrefix(events, k + 1);
      assert events[..k + 1] == events[..k] + [events[k]];
      verdicts := Turn(state, events[..k], verdicts, events[k]);
    }
    assert events[..|events|] == events;
  }

  /** One more event of a run. */
  method Turn(state: ReadState, ghost past: seq<Event>, verdicts: seq<bool>, e: Event) returns (verdicts': seq<bool>)
    requires state.Valid() && |verdicts| == |past| && state.accepted == Accepted(past, verdicts)
    requires state.rEpoch == EpochChanges(past) && CorrectRun(past, verdicts) && EpochChanges(past + [e]) < 0x1_0000
    modifies state, state.bitmap
    ensures state.Valid() && (state.bitmap == old(state.bitmap) || fresh(state.bitmap))
    ensures |verdicts'| == |past| + 1 && state.accepted == Accepted(past + [e], verdicts')
    ensures state.rEpoch == EpochChanges(past + [e]) && CorrectRun(past + [e], verdicts')
  {
    ExtendCounts(past, e);
    var verdict := state.Handle(e);
    ExtendRun(past, verdicts, e, verdict);
    verdicts' := verdicts + [verdict];
  }

  lemma {:induction false} NothingYet(accepted: seq<Number>, epoch: nat)
    requires forall s :: s in accepted ==> EpochOf(s) < epoch
    ensures Newest(accepted, epoch) == 0
  {
    if accepted != [] {
      NothingYet(accepted[..|accepted| - 1], epoch);
    }
  }
}
