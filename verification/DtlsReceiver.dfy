/**
  The receiving half of ssl/d1_both.cc: the ring of seven partly assembled messages,
  the processing of a handshake record, and the hand-out of messages in order.
 */
module DtlsReceiver {
  import opened Bytes
  import opened DtlsWire
  import opened DtlsReassembly

  const MAX_FLIGHT := 7

  // ----- specification on values -----

  datatype Ring = Ring(readSeq: nat, slots: seq<Slot>)

  /** What the record layer and the configuration contribute: r_epoch and ssl_max_handshake_message_len. */
  datatype Limits = Limits(epoch: nat, maxLen: nat)

  /**
    The ring invariant: an occupied slot holds a message number in
    [readSeq, readSeq + 7), congruent to the slot's index. Numbers are 16-bit, so the
    window is cut off at 2^16.
   */
  ghost predicate RingOk(r: Ring) {
    && |r.slots| == MAX_FLIGHT && r.readSeq < 0x1_0000
    && forall i :: 0 <= i < MAX_FLIGHT && r.slots[i].Held? ==>
         && r.readSeq <= r.slots[i].seqNum < r.readSeq + MAX_FLIGHT && r.slots[i].seqNum < 0x1_0000
         && r.slots[i].seqNum % MAX_FLIGHT == i && r.slots[i].msgLen < 0x100_0000
         && r.slots[i].bytes.Keys <= Interval(0, r.slots[i].msgLen)
  }

  ghost predicate Malformed(f: Fragment, limits: Limits) {
    f.off + |f.body| > f.msgLen || f.msgLen > limits.maxLen
  }

  /** A slot after a fragment for its message: complete messages are left alone. */
  ghost function Fill(s: Slot, f: Fragment): Slot {
    var held := if s.Vacant? then Held(f.ty, f.seqNum, f.msgLen, map[]) else s;
    if Complete(held) then held else held.(bytes := Overlay(held.bytes, f.off, f.body))
  }

  /** One fragment: the new ring, and whether the record was well-formed so far. */
  ghost function Accept(r: Ring, f: Fragment, limits: Limits): (res: (Ring, bool))
    requires |r.slots| == MAX_FLIGHT
  {
    var slot := r.slots[f.seqNum % MAX_FLIGHT];
    if Malformed(f, limits) || (limits.epoch == 1 && f.seqNum != r.readSeq) then
      (r, false)
    else if f.seqNum < r.readSeq || f.seqNum > r.readSeq + MAX_FLIGHT then
      (r, true)
    else if f.seqNum == r.readSeq + MAX_FLIGHT then
      (r, false)
    else if slot.Held? && (slot.ty != f.ty || slot.msgLen != f.msgLen) then
      (r, false)
    else
      (r.(slots := r.slots[f.seqNum % MAX_FLIGHT := Fill(slot, f)]), true)
  }

  /** Whether a fragment is legal where the next message has the number readSeq and its slot is as given. */
  ghost predicate Legal(f: Fragment, readSeq: nat, slot: Slot, limits: Limits) {
    && f.off + |f.body| <= f.msgLen <= limits.maxLen
    && (limits.epoch == 1 ==> f.seqNum == readSeq)
    && f.seqNum != readSeq + 7
    && (readSeq <= f.seqNum < readSeq + 7 && slot.Held? ==> slot.ty == f.ty && slot.msgLen == f.msgLen)
  }

  /** A slot has taken a fragment in: what was held is held, the rest of the fragment is what it carries. */
  ghost predicate TookIn(f: Fragment, before: Slot, after: Slot) {
    if Complete(before) then after == before
    else
      && after.Held? && after.ty == f.ty && after.msgLen == f.msgLen && (before.Held? ==> after.seqNum == before.seqNum)
      && (before.Vacant? ==> after.seqNum == f.seqNum)
      && (forall j: int :: j in after.bytes <==> f.off <= j < f.off + |f.body| || (before.Held? && j in before.bytes))
      && (forall j: int :: f.off <= j < f.off + |f.body| ==> after.bytes[j] == f.body[j - f.off])
      && (forall j: int :: before.Held? && j in before.bytes && !(f.off <= j < f.off + |f.body|) ==> after.bytes[j] == before.bytes[j])
  }

  lemma AcceptMeans(r: Ring, f: Fragment, limits: Limits)
    requires |r.slots| == MAX_FLIGHT
    ensures var (r', ok) := Accept(r, f, limits);
      && (ok <==> Legal(f, r.readSeq, r.slots[f.seqNum % 7], limits))
      && (!ok || f.seqNum < r.readSeq || f.seqNum > r.readSeq + 7 ==> r' == r)
      && (ok && r.readSeq <= f.seqNum < r.readSeq + 7 ==>
           && r'.readSeq == r.readSeq && |r'.slots| == 7 && TookIn(f, r.slots[f.seqNum % 7], r'.slots[f.seqNum % 7])
           && forall i :: 0 <= i < 7 && i != f.seqNum % 7 ==> r'.slots[i] == r.slots[i])
  {
  }

  lemma FillKeepsRing(r: Ring, f: Fragment)
    requires RingOk(r) && f.off + |f.body| <= f.msgLen < 0x100_0000 && f.seqNum < 0x1_0000
    requires r.readSeq <= f.seqNum < r.readSeq + MAX_FLIGHT
    requires var s := r.slots[f.seqNum % MAX_FLIGHT]; s.Held? ==> s.msgLen == f.msgLen
    ensures RingOk(r.(slots := r.slots[f.seqNum % MAX_FLIGHT := Fill(r.slots[f.seqNum % MAX_FLIGHT], f)]))
    // the assertion in dtls1_get_incoming_message never fires
    ensures var s := r.slots[f.seqNum % MAX_FLIGHT]; s.Held? ==> s.seqNum == f.seqNum
  {
  }

  lemma ReserveKeepsRing(r: Ring, f: Fragment)
    requires RingOk(r) && r.slots[f.seqNum % MAX_FLIGHT].Vacant?
    requires r.readSeq <= f.seqNum < r.readSeq + MAX_FLIGHT && f.seqNum < 0x1_0000 && f.msgLen < 0x100_0000
    ensures RingOk(r.(slots := r.slots[f.seqNum % MAX_FLIGHT := Held(f.ty, f.seqNum, f.msgLen, map[])]))
  {
  }

  /** A record: fragments are processed until one is rejected; what was stored before that stays. */
  ghost function AcceptRecord(r: Ring, payload: seq<byte>, limits: Limits): (res: (Ring, bool))
    requires |r.slots| == MAX_FLIGHT
    ensures |res.0.slots| == MAX_FLIGHT
    decreases |payload|
  {
    if payload == [] then (r, true)
    else
      match ParseFragment(payload)
      case None => (r, false)
      case Some((f, rest)) =>
        var (r', ok) := Accept(r, f, limits);
        if ok then AcceptRecord(r', rest, limits) else (r', false)
  }

  ghost predicate Ready(r: Ring)
    requires |r.slots| == MAX_FLIGHT
  {
    Complete(r.slots[r.readSeq % MAX_FLIGHT])
  }

  ghost function Advance(r: Ring): Ring
    requires |r.slots| == MAX_FLIGHT
  {
    Ring((r.readSeq + 1) % 0x1_0000, r.slots[r.readSeq % MAX_FLIGHT := Vacant])
  }

  /** Releasing the current message keeps the ring invariant, even when the 16-bit counter wraps. */
  lemma AdvanceKeepsRing(r: Ring)
    requires RingOk(r) && Ready(r)
    ensures RingOk(Advance(r))
  {
  }

  // ----- the code -----

  class Receiver {
    var readSeq: nat
    const incoming: array<HmFragment?>
    var hasMessage: bool
    var hasCcs: bool
    ghost var slots: seq<Slot>
    ghost var Repr: set<object>

    ghost function View(): Ring
      reads this
    {
      Ring(readSeq, slots)
    }

    /** Slot i owns its fragment and agrees with the abstract slot. */
    ghost predicate SlotOk(i: nat)
      requires i < incoming.Length && i < |slots|
      reads this, incoming, Repr
    {
      if incoming[i] == null then slots[i] == Vacant
      else
        && incoming[i] in Repr && incoming[i].Repr <= Repr
        && this !in incoming[i].Repr && incoming !in incoming[i].Repr
        && incoming[i].data in Repr && (incoming[i].reassembly != null ==> incoming[i].reassembly in Repr)
        && incoming[i].Valid() && slots[i] == incoming[i].View()
    }

    ghost predicate Valid()
      reads this, Repr
    {
      && this in Repr && incoming in Repr && incoming.Length == MAX_FLIGHT
      && RingOk(View())
      && (forall i :: 0 <= i < MAX_FLIGHT ==> SlotOk(i))
      && (forall i, j :: 0 <= i < j < MAX_FLIGHT && incoming[i] != null && incoming[j] != null ==> incoming[i].Repr !! incoming[j].Repr)
      && (hasMessage ==> Ready(View()))
    }

    constructor ()
      ensures Valid() && fresh(Repr) && View() == Ring(0, seq(MAX_FLIGHT, _ => Vacant)) && !hasMessage && !hasCcs
    {
      readSeq, hasMessage, hasCcs := 0, false, false;
      incoming := new HmFragment?[MAX_FLIGHT](_ => null);
      slots := seq(MAX_FLIGHT, _ => Vacant);
      new;
      Repr := {this, incoming};
    }

    /** The first-fragment half of dtls1_get_incoming_message. */
    method Reserve(f: Fragment)
      requires Valid() && f.msgLen < 0x100_0000 && f.seqNum < 0x1_0000
      requires readSeq <= f.seqNum < readSeq + MAX_FLIGHT
      requires slots[f.seqNum % MAX_FLIGHT].Vacant?
      modifies this, incoming
      ensures Valid() && fresh(Repr - old(Repr)) && readSeq == old(readSeq)
      ensures slots == old(slots)[f.seqNum % MAX_FLIGHT := Held(f.ty, f.seqNum, f.msgLen, map[])]
    {
      ReserveKeepsRing(View(), f);
      var idx := f.seqNum % MAX_FLIGHT;
      assert SlotOk(idx);
      var frag := new HmFragment(f.ty, f.seqNum, f.msgLen);
      incoming[idx] := frag;
      slots := slots[idx := frag.View()];
      Repr := Repr + frag.Repr;
      forall i | 0 <= i < MAX_FLIGHT && i != idx
        ensures SlotOk(i) && (incoming[i] != null ==> incoming[i].Repr !! frag.Repr)
      {
        assert old(SlotOk(i));
      }
      assert hasMessage ==> idx != readSeq % MAX_FLIGHT;
    }

    /** The copy into an occupied slot. */
    method StoreInto(f: Fragment)
      requires Valid() && f.off + |f.body| <= f.msgLen < 0x100_0000 && f.seqNum < 0x1_0000
      requires readSeq <= f.seqNum < readSeq + MAX_FLIGHT
      requires var s := slots[f.seqNum % MAX_FLIGHT]; s.Held? && s.msgLen == f.msgLen && s.ty == f.ty
      modifies Repr
      ensures Valid() && Repr == old(Repr) && readSeq == old(readSeq)
      ensures slots == old(slots)[f.seqNum % MAX_FLIGHT := Fill(old(slots)[f.seqNum % MAX_FLIGHT], f)]
    {
      FillKeepsRing(View(), f);
      var idx := f.seqNum % MAX_FLIGHT;
      var frag := incoming[idx];
      assert SlotOk(idx);
      if frag.reassembly == null {
        return;
      }
      frag.Receive(f.off, f.body);
      slots := slots[idx := frag.View()];
      assert SlotOk(idx);
      forall i | 0 <= i < MAX_FLIGHT && i != idx
        ensures SlotOk(i)
      {
        assert old(SlotOk(i));
        if incoming[i] != null {
          assert old(incoming[i].Repr) !! frag.Repr;
          assert incoming[i].Valid() && incoming[i].View() == old(incoming[i].View());
        }
      }
    }

    /** The loop body of dtls1_open_handshake, after dtls1_parse_fragment. */
    method Process(f: Fragment, limits: Limits) returns (ok: bool)
      requires Valid() && Encodable(f)
      modifies Repr
      ensures Valid() && fresh(Repr - old(Repr))
      ensures (View(), ok) == Accept(old(View()), f, limits)
      ensures ok <==> Legal(f, old(readSeq), old(slots[f.seqNum % 7]), limits)
      ensures !ok || f.seqNum < old(readSeq) || f.seqNum > old(readSeq) + 7 ==> View() == old(View())
      ensures ok && old(readSeq) <= f.seqNum < old(readSeq) + 7 ==>
        && readSeq == old(readSeq) && |slots| == 7 && TookIn(f, old(slots[f.seqNum % 7]), slots[f.seqNum % 7])
        && forall i :: 0 <= i < 7 && i != f.seqNum % 7 ==> slots[i] == old(slots)[i]
    {
      AcceptMeans(View(), f, limits);
      if f.off > f.msgLen || f.off + |f.body| > f.msgLen || f.msgLen > limits.maxLen {
        return false;
      }
      if limits.epoch == 1 && f.seqNum != readSeq {
        return false;
      }
      if f.seqNum < readSeq || f.seqNum > readSeq + MAX_FLIGHT {
        return true;
      }
      if f.seqNum - readSeq >= MAX_FLIGHT {
        return false;
      }
      var idx := f.seqNum % MAX_FLIGHT;
      assert SlotOk(idx);
      if incoming[idx] != null {
        if incoming[idx].ty != f.ty || incoming[idx].msgLen != f.msgLen {
          return false;
        }
      } else {
        Reserve(f);
      }
      StoreInto(f);
      assert slots == old(slots)[idx := Fill(old(slots)[idx], f)];
      return true;
    }

    /** The handshake-record loop of dtls1_open_handshake. */
    method OpenHandshake(payload: seq<byte>, limits: Limits) returns (ok: bool)
      requires Valid()
      modifies Repr
      ensures Valid() && fresh(Repr - old(Repr))
      ensures (View(), ok) == AcceptRecord(old(View()), payload, limits)
    {
      var rest := payload;
      while rest != []
        invariant Valid() && fresh(Repr - old(Repr))
        invariant AcceptRecord(View(), rest, limits) == AcceptRecord(old(View()), payload, limits)
        decreases |rest|
      {
        match ParseFragment(rest) {
          case None => return false;
          case Some((f, tail)) =>
            ok := Process(f, limits);
            if !ok {
              return false;
            }
            rest := tail;
        }
      }
      return true;
    }

    /** dtls1_get_message: the current message, once it is complete. */
    method GetMessage() returns (msg: Option<Message>, raw: seq<byte>)
      requires Valid()
      modifies this`hasMessage
      ensures Valid()
      ensures hasMessage == (old(hasMessage) || msg.Some?)
      ensures msg.Some? <==> Ready(View())
      ensures msg.Some? ==>
        var slot := slots[readSeq % MAX_FLIGHT];
        msg.value == Assembled(slot) && raw == Raw(slot)
    {
      var idx := readSeq % MAX_FLIGHT;
      assert SlotOk(idx);
      var frag := incoming[idx];
      if frag == null || frag.reassembly != null {
        return None, [];
      }
      var whole;
      whole, raw := frag.Contents();
      msg := Some(whole);
      hasMessage := true;
      forall i | 0 <= i < MAX_FLIGHT
        ensures SlotOk(i)
      {
        assert old(SlotOk(i));
      }
    }

    /** dtls1_next_message; its assertions are the precondition. */
    method NextMessage()
      requires Valid() && hasMessage
      modifies this, incoming
      ensures Valid() && Repr == old(Repr) && !hasMessage
      ensures View() == Advance(old(View()))
    {
      AdvanceKeepsRing(View());
      var idx := readSeq % MAX_FLIGHT;
      incoming[idx] := null;
      slots := slots[idx := Vacant];
      readSeq := (readSeq + 1) % 0x1_0000;
      hasMessage := false;
      forall i | 0 <= i < MAX_FLIGHT
        ensures SlotOk(i)
      {
        assert old(SlotOk(i));
      }
    }

    /** The ChangeCipherSpec case of dtls1_open_handshake: legal only in the clear, and flagged for later. */
    method FlagChangeCipherSpec(encrypted: bool, payload: seq<byte>) returns (ok: bool)
      modifies this`hasCcs
      ensures ok <==> !encrypted && payload == [1]
      ensures hasCcs == (old(hasCcs) || ok)
    {
      if encrypted || |payload| != 1 || payload[0] != 1 {
        return false;
      }
      hasCcs := true;
      return true;
    }

    /** The end of dtls1_open_change_cipher_spec: the flag is taken once. */
    method TakeChangeCipherSpec() returns (taken: bool)
      modifies this`hasCcs
      ensures taken == old(hasCcs) && !hasCcs
    {
      taken := hasCcs;
      hasCcs := false;
    }

    /** dtls_has_unprocessed_handshake_data. */
    method HasUnprocessed() returns (leftover: bool)
      requires Valid()
      ensures leftover <==>
        hasCcs || exists i :: 0 <= i < MAX_FLIGHT && slots[i].Held? && !(hasMessage && i == readSeq % MAX_FLIGHT)
    {
      if hasCcs {
        return true;
      }
      var current := readSeq % MAX_FLIGHT;
      for i := 0 to MAX_FLIGHT
        invariant forall k :: 0 <= k < i && slots[k].Held? ==> hasMessage && k == current
      {
        assert SlotOk(i);
        if hasMessage && i == current {
          continue;
        }
        if incoming[i] != null {
          return true;
        }
      }
      return false;
    }
  }
}
