/**
  The DTLS handshake transport end to end: a sender, a network that may drop, repeat
  and reorder records, and a receiver. Whatever the network does, the messages handed
  out are an in-order prefix of the messages queued; and if every record of a flight
  gets through at least once, in any order, every message of the flight is assembled.
 */
module DtlsDelivery {
  import opened Bytes
  import opened DtlsWire
  import opened DtlsReassembly
  import opened DtlsReceiver
  import S = DtlsSender

  predicate AllEncodable(fs: seq<Fragment>) {
    forall k :: 0 <= k < |fs| ==> Encodable(fs[k])
  }

  /** The payload of a handshake record: fragments, one behind the other. */
  function Payload(fs: seq<Fragment>): seq<byte>
    requires AllEncodable(fs)
  {
    if fs == [] then [] else Serialize(fs[0]) + Payload(fs[1..])
  }

  /** The fragments of the handshake records at these places of the wire, in this order; other places count for nothing. */
  function Fragments(wire: seq<S.Record>, ks: seq<nat>): seq<Fragment> {
    if ks == [] then []
    else if ks[0] < |wire| && wire[ks[0]].content.Handshake? then [wire[ks[0]].content.f] + Fragments(wire, ks[1..])
    else Fragments(wire, ks[1..])
  }

  /** A fragment of a message that was really queued. */
  ghost predicate Honest(f: Fragment, sent: seq<Message>) {
    && f.seqNum < |sent| && f.ty == sent[f.seqNum].ty && f.msgLen == |sent[f.seqNum].body|
    && f.off + |f.body| <= f.msgLen < 0x100_0000 && f.seqNum < 0x1_0000
    && f.body == sent[f.seqNum].body[f.off..f.off + |f.body|]
  }

  ghost predicate HonestRecord(r: S.Record, sent: seq<Message>) {
    r.content.Handshake? ==> Encodable(r.content.f) && Honest(r.content.f, sent)
  }

  // ----- what the sender puts on the wire -----

  lemma {:induction false} SenderIsHonest(flight: seq<S.Item>, p: S.Position, records: seq<S.Record>, sent: seq<Message>)
    requires S.FlightOk(flight, sent) && S.Reach(flight, p, records).Some?
    ensures forall r :: r in records ==> HonestRecord(r, sent)
  {
    if records != [] {
      var front, last := records[..|records| - 1], records[|records| - 1];
      SenderIsHonest(flight, p, front, sent);
      var q := S.Reach(flight, p, front).value;
      assert records == front + [last];
    }
  }

  lemma StaysHonest(r: S.Record, sent: seq<Message>, sent': seq<Message>)
    requires HonestRecord(r, sent) && sent <= sent'
    ensures HonestRecord(r, sent')
  {
  }

  // ----- what the receiver makes of it -----

  /** Every byte held so far is the byte that was sent. */
  ghost predicate RingAgrees(ring: Ring, sent: seq<Message>) {
    forall i :: 0 <= i < |ring.slots| && ring.slots[i].Held? ==> SlotAgrees(ring.slots[i], sent)
  }

  ghost predicate SlotAgrees(s: Slot, sent: seq<Message>)
    requires s.Held?
  {
    && s.seqNum < |sent| && s.ty == sent[s.seqNum].ty && s.msgLen == |sent[s.seqNum].body|
    && (forall j :: j in s.bytes ==> j < s.msgLen && s.bytes[j] == sent[s.seqNum].body[j])
  }

  lemma FillAgrees(s: Slot, f: Fragment, sent: seq<Message>)
    requires Honest(f, sent)
    requires s.Held? ==> SlotAgrees(s, sent) && s.seqNum == f.seqNum
    ensures SlotAgrees(Fill(s, f), sent)
  {
  }

  lemma AcceptAgrees(ring: Ring, f: Fragment, limits: Limits, sent: seq<Message>)
    requires RingOk(ring) && RingAgrees(ring, sent) && Honest(f, sent)
    ensures RingOk(Accept(ring, f, limits).0) && RingAgrees(Accept(ring, f, limits).0, sent)
    ensures Accept(ring, f, limits).0.readSeq == ring.readSeq
  {
    if ring.readSeq <= f.seqNum < ring.readSeq + MAX_FLIGHT {
      var s := ring.slots[f.seqNum % MAX_FLIGHT];
      if s.Held? {
        assert SlotAgrees(s, sent);
      }
      FillKeepsRing(ring, f);
      FillAgrees(s, f, sent);
    }
  }

  // ----- records of any number of honest fragments -----

  ghost predicate AllHonest(fs: seq<Fragment>, sent: seq<Message>) {
    forall k :: 0 <= k < |fs| ==> Encodable(fs[k]) && Honest(fs[k], sent)
  }

  /** An honest fragment that ends its record: just behind the window, out of turn once encrypted, or of too long a message. */
  predicate Unwelcome(f: Fragment, readSeq: nat, limits: Limits) {
    f.seqNum == readSeq + 7 || (limits.epoch == 1 && f.seqNum != readSeq) || f.msgLen > limits.maxLen
  }

  ghost predicate AllWelcome(fs: seq<Fragment>, readSeq: nat, limits: Limits) {
    forall k :: 0 <= k < |fs| ==> !Unwelcome(fs[k], readSeq, limits)
  }

  /** The message of fragment f is held, and the bytes of f with it. */
  ghost predicate Got(ring: Ring, f: Fragment)
    requires |ring.slots| == MAX_FLIGHT
  {
    var s := ring.slots[f.seqNum % MAX_FLIGHT];
    && s.Held? && s.seqNum == f.seqNum && s.msgLen == f.msgLen
    && (Complete(s) || Interval(f.off, f.off + |f.body|) <= s.bytes.Keys)
  }

  ghost predicate InWindow(ring: Ring, f: Fragment) {
    ring.readSeq <= f.seqNum < ring.readSeq + MAX_FLIGHT
  }

  lemma AcceptVerdict(ring: Ring, f: Fragment, limits: Limits, sent: seq<Message>)
    requires RingOk(ring) && RingAgrees(ring, sent) && Honest(f, sent)
    ensures Accept(ring, f, limits).1 <==> !Unwelcome(f, ring.readSeq, limits)
  {
    AcceptMeans(ring, f, limits);
    var s := ring.slots[f.seqNum % MAX_FLIGHT];
    if s.Held? && InWindow(ring, f) {
      FillKeepsRing(ring, f.(msgLen := s.msgLen, off := 0, body := []));
      assert SlotAgrees(s, sent);
    }
  }

  lemma AcceptGets(ring: Ring, f: Fragment, limits: Limits, sent: seq<Message>)
    requires RingOk(ring) && RingAgrees(ring, sent) && Honest(f, sent) && InWindow(ring, f) && !Unwelcome(f, ring.readSeq, limits)
    ensures Got(Accept(ring, f, limits).0, f)
  {
    AcceptVerdict(ring, f, limits, sent);
    if ring.slots[f.seqNum % MAX_FLIGHT].Held? {
      FillKeepsRing(ring, f);
    }
  }

  lemma AcceptKeeps(ring: Ring, g: Fragment, limits: Limits, sent: seq<Message>, f: Fragment)
    requires RingOk(ring) && RingAgrees(ring, sent) && Honest(g, sent) && Got(ring, f)
    ensures Got(Accept(ring, g, limits).0, f)
  {
    if g.seqNum % MAX_FLIGHT == f.seqNum % MAX_FLIGHT && ring.readSeq <= g.seqNum < ring.readSeq + MAX_FLIGHT {
      FillKeepsRing(ring, g);
    }
  }

  lemma AllHonestRest(fs: seq<Fragment>, sent: seq<Message>)
    requires AllHonest(fs, sent)
    ensures AllEncodable(fs) && (fs != [] ==> AllHonest(fs[1..], sent) && AllEncodable(fs[1..]))
  {
  }

  /** The first fragment of a record is parsed as it was put in, whatever follows. */
  lemma RecordFirst(ring: Ring, fs: seq<Fragment>, tail: seq<byte>, limits: Limits)
    requires |ring.slots| == MAX_FLIGHT && fs != [] && AllEncodable(fs)
    ensures var (ring', ok) := Accept(ring, fs[0], limits);
      AcceptRecord(ring, Payload(fs) + tail, limits) == if ok then AcceptRecord(ring', Payload(fs[1..]) + tail, limits) else (ring', false)
  {
    var rest := Payload(fs[1..]) + tail;
    assert Payload(fs) + tail == Serialize(fs[0]) + rest;
    ParseSerialized(fs[0], rest);
  }

  /** Bytes that are no fragment: none, or fewer than a header and the length it gives. */
  ghost predicate NoFragment(tail: seq<byte>) {
    |tail| < 12 || |tail| < 12 + Three(tail, 9)
  }

  lemma NoFragmentFails(ring: Ring, tail: seq<byte>, limits: Limits)
    requires |ring.slots| == MAX_FLIGHT && NoFragment(tail)
    ensures AcceptRecord(ring, tail, limits) == (ring, tail == [])
  {
    ParseLayout(tail);
  }

  /** A record of honest fragments fails exactly if one of them is unwelcome, or bytes follow that are no fragment. */
  lemma {:induction false} RecordVerdict(ring: Ring, fs: seq<Fragment>, tail: seq<byte>, limits: Limits, sent: seq<Message>)
    requires RingOk(ring) && RingAgrees(ring, sent) && AllHonest(fs, sent) && AllEncodable(fs) && NoFragment(tail)
    ensures var (ring', ok) := AcceptRecord(ring, Payload(fs) + tail, limits);
      && RingOk(ring') && RingAgrees(ring', sent) && ring'.readSeq == ring.readSeq
      && (ok <==> tail == [] && AllWelcome(fs, ring.readSeq, limits))
    decreases |fs|
  {
    if fs == [] {
      assert Payload(fs) + tail == tail;
      NoFragmentFails(ring, tail, limits);
    } else {
      AllHonestRest(fs, sent);
      AcceptVerdict(ring, fs[0], limits, sent);
      AcceptAgrees(ring, fs[0], limits, sent);
      RecordFirst(ring, fs, tail, limits);
      if Accept(ring, fs[0], limits).1 {
        RecordVerdict(Accept(ring, fs[0], limits).0, fs[1..], tail, limits, sent);
        assert AllWelcome(fs[1..], ring.readSeq, limits) <==> AllWelcome(fs, ring.readSeq, limits) by {
          assert forall k :: 1 <= k < |fs| ==> fs[k] == fs[1..][k - 1];
        }
      }
    }
  }

  /** What is held stays held. */
  lemma {:induction false} RecordKeeps(ring: Ring, fs: seq<Fragment>, tail: seq<byte>, limits: Limits, sent: seq<Message>, f: Fragment)
    requires RingOk(ring) && RingAgrees(ring, sent) && AllHonest(fs, sent) && AllEncodable(fs) && NoFragment(tail) && Got(ring, f)
    ensures Got(AcceptRecord(ring, Payload(fs) + tail, limits).0, f)
    decreases |fs|
  {
    if fs == [] {
      assert Payload(fs) + tail == tail;
      NoFragmentFails(ring, tail, limits);
    } else {
      AllHonestRest(fs, sent);
      AcceptKeeps(ring, fs[0], limits, sent, f);
      AcceptAgrees(ring, fs[0], limits, sent);
      RecordFirst(ring, fs, tail, limits);
      if Accept(ring, fs[0], limits).1 {
        RecordKeeps(Accept(ring, fs[0], limits).0, fs[1..], tail, limits, sent, f);
      }
    }
  }

  /** Every fragment of the window is taken in, up to the first that is unwelcome. */
  lemma {:induction false} RecordGets(ring: Ring, fs: seq<Fragment>, tail: seq<byte>, limits: Limits, sent: seq<Message>, j: nat)
    requires RingOk(ring) && RingAgrees(ring, sent) && AllHonest(fs, sent) && AllEncodable(fs) && NoFragment(tail)
    requires j < |fs| && AllWelcome(fs[..j + 1], ring.readSeq, limits) && InWindow(ring, fs[j])
    ensures Got(AcceptRecord(ring, Payload(fs) + tail, limits).0, fs[j])
    decreases |fs|
  {
    AllHonestRest(fs, sent);
    assert fs[..j + 1][0] == fs[0];
    AcceptVerdict(ring, fs[0], limits, sent);
    AcceptAgrees(ring, fs[0], limits, sent);
    RecordFirst(ring, fs, tail, limits);
    var ring' := Accept(ring, fs[0], limits).0;
    if j == 0 {
      AcceptGets(ring, fs[0], limits, sent);
      RecordKeeps(ring', fs[1..], tail, limits, sent, fs[0]);
    } else {
      assert forall k :: 0 <= k < j ==> fs[1..][..j][k] == fs[..j + 1][k + 1];
      RecordGets(ring', fs[1..], tail, limits, sent, j - 1);
    }
  }

  /** The message handed out is the one that was sent with that number. */
  lemma ReadyIsSent(ring: Ring, sent: seq<Message>)
    requires RingOk(ring) && RingAgrees(ring, sent) && Ready(ring)
    ensures ring.readSeq < |sent|
    ensures Assembled(ring.slots[ring.readSeq % MAX_FLIGHT]) == sent[ring.readSeq]
  {
    var s := ring.slots[ring.readSeq % MAX_FLIGHT];
    assert SlotAgrees(s, sent) && s.seqNum == ring.readSeq;
    forall j | 0 <= j < s.msgLen
      ensures Assembled(s).body[j] == sent[ring.readSeq].body[j]
    {
      assert j in Interval(0, s.msgLen);
    }
  }

  lemma AdvanceAgrees(ring: Ring, sent: seq<Message>)
    requires RingOk(ring) && RingAgrees(ring, sent)
    ensures RingAgrees(Advance(ring), sent)
  {
  }

  lemma TakeIsSent(ring: Ring, delivered: seq<Message>, sent: seq<Message>)
    requires RingOk(ring) && RingAgrees(ring, sent) && Ready(ring)
    requires ring.readSeq == |delivered| && delivered <= sent
    ensures RingAgrees(Advance(ring), sent)
    ensures delivered + [Assembled(ring.slots[ring.readSeq % MAX_FLIGHT])] <= sent
  {
    ReadyIsSent(ring, sent);
    AdvanceAgrees(ring, sent);
  }

  // ----- what happens to the receiver -----

  /** A record of fragments passes the record layer in some read state; the current message is taken; or something else. */
  datatype Event = Arrives(fs: seq<Fragment>, limits: Limits) | Takes | Elsewhere

  ghost predicate HonestEvent(e: Event, sent: seq<Message>) {
    e.Arrives? ==> AllHonest(e.fs, sent)
  }

  /** An empty ring that waits for the first message. */
  ghost function Start(): (r: Ring)
    ensures |r.slots| == MAX_FLIGHT
  {
    Ring(0, seq(MAX_FLIGHT, _ => Vacant))
  }

  /** The ring, and the messages taken, after one more event. */
  ghost function Happen(ring: Ring, taken: seq<Message>, e: Event): (r: (Ring, seq<Message>))
    requires |ring.slots| == MAX_FLIGHT
    ensures |r.0.slots| == MAX_FLIGHT
  {
    match e
    case Elsewhere => (ring, taken)
    case Takes =>
      if Ready(ring) then (Advance(ring), taken + [Assembled(ring.slots[ring.readSeq % MAX_FLIGHT])]) else (ring, taken)
    case Arrives(fs, limits) =>
      if AllEncodable(fs) then (Received(ring, fs, limits).0, taken) else (ring, taken)
  }

  /** The ring after a record of fragments, and whether the record is accepted. */
  ghost function Received(ring: Ring, fs: seq<Fragment>, limits: Limits): (r: (Ring, bool))
    requires |ring.slots| == MAX_FLIGHT && AllEncodable(fs)
    ensures |r.0.slots| == MAX_FLIGHT
  {
    AcceptRecord(ring, Payload(fs), limits)
  }

  ghost function After(ring: Ring, events: seq<Event>): (r: (Ring, seq<Message>))
    requires |ring.slots| == MAX_FLIGHT
    ensures |r.0.slots| == MAX_FLIGHT
  {
    if events == [] then (ring, [])
    else
      var (ring', taken) := After(ring, events[..|events| - 1]);
      Happen(ring', taken, events[|events| - 1])
  }

  lemma AfterOneMore(ring: Ring, events: seq<Event>, e: Event)
    requires |ring.slots| == MAX_FLIGHT
    ensures After(ring, events + [e]) == Happen(After(ring, events).0, After(ring, events).1, e)
  {
    assert (events + [e])[..|events|] == events;
  }

  /** The bytes of f are held, or its message has been taken. */
  ghost predicate Safe(ring: Ring, f: Fragment)
    requires |ring.slots| == MAX_FLIGHT
  {
    f.seqNum < ring.readSeq || Got(ring, f)
  }

  ghost predicate Agrees(ring: Ring, ring': Ring, taken: seq<Message>, sent: seq<Message>) {
    && RingOk(ring') && RingAgrees(ring', sent)
    && ring.readSeq <= ring'.readSeq <= |sent| && taken == sent[ring.readSeq..ring'.readSeq]
  }

  /** What a record of honest fragments leaves in the ring: all that was there, and its fragments of the window up to the first unwelcome one. */
  lemma RecordTaken(ring: Ring, fs: seq<Fragment>, limits: Limits, sent: seq<Message>)
    requires RingOk(ring) && RingAgrees(ring, sent) && AllHonest(fs, sent) && AllEncodable(fs)
    ensures var ring' := Received(ring, fs, limits).0;
      && (forall f {:trigger Got(ring', f)} :: Got(ring, f) ==> Got(ring', f))
      && (forall j :: 0 <= j < |fs| && InWindow(ring, fs[j]) && AllWelcome(fs[..j + 1], ring.readSeq, limits) ==> Got(ring', fs[j]))
  {
    assert Payload(fs) + [] == Payload(fs);
    var ring' := Received(ring, fs, limits).0;
    forall f | Got(ring, f)
      ensures Got(ring', f)
    {
      RecordKeeps(ring, fs, [], limits, sent, f);
    }
    forall j | 0 <= j < |fs| && InWindow(ring, fs[j]) && AllWelcome(fs[..j + 1], ring.readSeq, limits)
      ensures Got(ring', fs[j])
    {
      RecordGets(ring, fs, [], limits, sent, j);
    }
  }

  /** A record of honest fragments: the ring goes on agreeing, and the record fails exactly if a fragment is unwelcome. */
  lemma ReceivedAgrees(ring: Ring, fs: seq<Fragment>, limits: Limits, sent: seq<Message>)
    requires RingOk(ring) && RingAgrees(ring, sent) && AllHonest(fs, sent) && AllEncodable(fs)
    ensures var (ring', ok) := Received(ring, fs, limits);
      && RingOk(ring') && RingAgrees(ring', sent) && ring'.readSeq == ring.readSeq
      && (ok <==> AllWelcome(fs, ring.readSeq, limits))
  {
    assert Payload(fs) + [] == Payload(fs);
    RecordVerdict(ring, fs, [], limits, sent);
  }

  lemma HappenAgrees(ring0: Ring, ring: Ring, taken: seq<Message>, e: Event, sent: seq<Message>)
    requires |sent| < 0x1_0000 && Agrees(ring0, ring, taken, sent) && HonestEvent(e, sent)
    ensures Agrees(ring0, Happen(ring, taken, e).0, Happen(ring, taken, e).1, sent)
  {
    if e.Takes? && Ready(ring) {
      ReadyIsSent(ring, sent);
      AdvanceKeepsRing(ring);
      AdvanceAgrees(ring, sent);
    } else if e.Arrives? {
      AllHonestRest(e.fs, sent);
      ReceivedAgrees(ring, e.fs, e.limits, sent);
    }
  }

  lemma HappenKeeps(ring: Ring, taken: seq<Message>, e: Event, sent: seq<Message>, f: Fragment)
    requires |sent| < 0x1_0000 && RingOk(ring) && RingAgrees(ring, sent) && HonestEvent(e, sent) && Safe(ring, f)
    ensures Safe(Happen(ring, taken, e).0, f)
  {
    if e.Takes? && Ready(ring) {
      ReadyIsSent(ring, sent);
    } else if e.Arrives? {
      AllHonestRest(e.fs, sent);
      ReceivedAgrees(ring, e.fs, e.limits, sent);
      if Got(ring, f) {
        assert Payload(e.fs) + [] == Payload(e.fs);
        RecordKeeps(ring, e.fs, [], e.limits, sent, f);
      }
    }
  }

  lemma HappenGets(ring: Ring, taken: seq<Message>, e: Event, sent: seq<Message>, j: nat)
    requires RingOk(ring) && RingAgrees(ring, sent) && HonestEvent(e, sent) && e.Arrives? && j < |e.fs|
    requires InWindow(ring, e.fs[j]) && AllWelcome(e.fs[..j + 1], ring.readSeq, e.limits)
    ensures Safe(Happen(ring, taken, e).0, e.fs[j])
  {
    AllHonestRest(e.fs, sent);
    assert Payload(e.fs) + [] == Payload(e.fs);
    RecordGets(ring, e.fs, [], e.limits, sent, j);
  }

  /** Over any events the messages taken are those sent, in order, from the first number not yet taken. */
  lemma {:induction false} EventsAgree(ring: Ring, events: seq<Event>, sent: seq<Message>)
    requires |sent| < 0x1_0000 && RingOk(ring) && RingAgrees(ring, sent) && ring.readSeq <= |sent|
    requires forall i :: 0 <= i < |events| ==> HonestEvent(events[i], sent)
    ensures Agrees(ring, After(ring, events).0, After(ring, events).1, sent)
    decreases |events|
  {
    if events != [] {
      var front := events[..|events| - 1];
      EventsAgree(ring, front, sent);
      HappenAgrees(ring, After(ring, front).0, After(ring, front).1, events[|events| - 1], sent);
    }
  }

  // ----- safety over every run -----

  /** What the two endpoints, the timer, the adversarial network and the peer's reader may do. */
  datatype Action =
    | Queue(ty: byte, body: seq<byte>)
    | QueueCcs
    | Flush(mtu: nat, net: nat -> bool, flushOk: bool)
    | Resend(mtu: nat, net: nat -> bool, flushOk: bool)
    | NewWriteState(cipher: S.Cipher)
    | Arrive(ks: seq<nat>, limits: Limits)
    | Take

  /** What an action means for the receiver, with these records on the wire. */
  function EventOf(a: Action, wire: seq<S.Record>): Event {
    match a
    case Arrive(ks, limits) => Arrives(Fragments(wire, ks), limits)
    case Take => Takes
    case _ => Elsewhere
  }

  predicate Transmits(a: Action) {
    a.Flush? || a.Resend?
  }

  function Queues(actions: seq<Action>): nat {
    if actions == [] then 0 else Queues(actions[..|actions| - 1]) + if actions[|actions| - 1].Queue? then 1 else 0
  }

  function Epochs(actions: seq<Action>): nat {
    if actions == [] then 0 else Epochs(actions[..|actions| - 1]) + if actions[|actions| - 1].NewWriteState? then 1 else 0
  }

  lemma {:induction false} CountsOfPrefix(actions: seq<Action>, k: nat)
    requires k <= |actions|
    ensures Queues(actions[..k]) <= Queues(actions) && Epochs(actions[..k]) <= Epochs(actions)
    decreases |actions|
  {
    if k == |actions| {
      assert actions[..k] == actions;
    } else {
      var front := actions[..|actions| - 1];
      CountsOfPrefix(front, k);
      assert front[..k] == actions[..k];
    }
  }
  /** The messages that a run queued: those of its Queue actions that were not refused. */
  function Queued(actions: seq<Action>, oks: seq<bool>): seq<Message>
    requires |actions| == |oks|
  {
    if actions == [] then []
    else
      var k := |actions| - 1;
      Queued(actions[..k], oks[..k]) +
      (if actions[k].Queue? && oks[k] then [Message(actions[k].ty, actions[k].body)] else [])
  }

  function NumberOf(r: S.Record): (nat, nat) {
    (r.epoch, r.number)
  }

  /** The record at places[i] of the sealing order is the i-th on the wire. */
  ghost predicate Placed(wire: seq<S.Record>, order: seq<(nat, nat)>, places: seq<nat>) {
    && |places| == |wire|
    && (forall i :: 0 <= i < |wire| ==> places[i] < |order| && order[places[i]] == NumberOf(wire[i]))
    && (forall i, j :: 0 <= i < j < |wire| ==> places[i] < places[j])
  }

  /** A later transmission is placed after all earlier ones; records sealed and never written leave gaps. */
  lemma PlaceMore(wire: seq<S.Record>, order: seq<(nat, nat)>, places: seq<nat>, flight: seq<S.Record>, unsent: seq<S.Record>)
    requires Placed(wire, order, places)
    ensures Placed(wire + flight, S.Sealed(order, flight + unsent), places + seq(|flight|, i requires i >= 0 => |order| + i))
  {
    S.SealedAt(order, flight + unsent);
    var all, places' := S.Sealed(order, flight + unsent), places + seq(|flight|, i requires i >= 0 => |order| + i);
    forall i | 0 <= i < |wire + flight|
      ensures places'[i] < |all| && all[places'[i]] == NumberOf((wire + flight)[i])
    {
      if i >= |wire| {
        assert all[|order| + (i - |wire|)] == NumberOf((flight + unsent)[i - |wire|]);
      }
    }
  }

  /** No two records on the wire share an epoch and a sequence number. */
  ghost predicate NumbersDistinct(wire: seq<S.Record>) {
    forall i, j :: 0 <= i < j < |wire| ==> NumberOf(wire[i]) != NumberOf(wire[j])
  }

  lemma PlacedDistinct(wire: seq<S.Record>, order: seq<(nat, nat)>, used: set<(nat, nat)>, places: seq<nat>)
    requires Placed(wire, order, places) && S.SealedOnce(order, used)
    ensures NumbersDistinct(wire)
  {
  }

  lemma {:induction false} FragmentsHonest(wire: seq<S.Record>, ks: seq<nat>, sent: seq<Message>)
    requires forall r :: r in wire ==> HonestRecord(r, sent)
    ensures AllHonest(Fragments(wire, ks), sent)
  {
    if ks != [] {
      FragmentsHonest(wire, ks[1..], sent);
      if ks[0] < |wire| {
        assert HonestRecord(wire[ks[0]], sent);
      }
    }
  }

  /** Every write of a datagram succeeds. */
  ghost predicate NeverFails(net: nat -> bool) {
    forall k: nat :: net(k)
  }

  lemma NoWriteFailed(net: nat -> bool, k: nat)
    requires !net(k)
    ensures !NeverFails(net)
  {
  }

  /** A sender, a receiver, and every record ever put on the wire between them. */
  class Link {
    const sender: S.Sender
    const receiver: Receiver
    var wire: seq<S.Record>
    var delivered: seq<Message>
    ghost var places: seq<nat>

    /** What is on the wire was queued and sealed. */
    ghost predicate WireOk()
      reads this`wire, this`places, sender`sent, sender`order
    {
      && (forall r :: r in wire ==> HonestRecord(r, sender.sent))
      && Placed(wire, sender.order, places)
    }

    ghost predicate Valid()
      reads this, sender, receiver, receiver.Repr
    {
      && sender.Valid() && receiver.Valid() && (sender as object) !in receiver.Repr && this !in receiver.Repr
      && |sender.sent| < 0x1_0000 && WireOk()
      && RingAgrees(receiver.View(), sender.sent)
      && receiver.readSeq == |delivered| && delivered <= sender.sent
    }

    constructor (cipher: S.Cipher)
      ensures Valid() && fresh(sender) && fresh(receiver.Repr)
      ensures sender.sent == [] && sender.wEpoch == 0 && delivered == [] && wire == [] && !sender.wrapped
      ensures receiver.View() == Start()
    {
      sender := new S.Sender(cipher);
      receiver := new Receiver();
      wire, delivered, places := [], [], [];
    }

    /** The sender's application queues a message. */
    method Enqueue(ty: byte, body: seq<byte>) returns (ok: bool)
      requires Valid() && |sender.sent| + 1 < 0x1_0000
      modifies sender
      ensures Valid() && sender.wEpoch == old(sender.wEpoch) && sender.wrapped == old(sender.wrapped)
      ensures sender.sent == old(sender.sent) + if ok then [Message(ty, body)] else []
    {
      ghost var before := sender.sent;
      ok := sender.AddMessage(ty, body);
      forall r | r in wire
        ensures HonestRecord(r, sender.sent)
      {
        StaysHonest(r, before, sender.sent);
      }
    }

    /**
      The sender transmits, or retransmits, its flight at some MTU. What it writes is the
      flight from where it stood, or from its start; it is on the wire for good, after what
      was there. A sequence number that wraps is reported.
     */
    method Transmit(again: bool, mtu: nat, net: nat -> bool, flushOk: bool) returns (ok: bool)
      requires Valid()
      modifies this`wire, this`places, sender
      ensures Valid() && sender.wEpoch == old(sender.wEpoch) && sender.sent == old(sender.sent)
      ensures sender.wrapped == old(sender.wrapped) || !ok
      ensures old(wire) <= wire
      ensures var start := if again then S.Position(0, 0) else old(sender.Here());
        var reached := S.Reach(sender.outgoing, start, wire[|old(wire)|..]);
        reached.Some? && (ok ==> reached.value == sender.Here())
      ensures !ok ==> sender.Unsealable(mtu) || sender.TooSmall(mtu)
      ensures ok && NeverFails(net) ==> sender.Here() == S.Position(|sender.outgoing|, 0)
    {
      var records;
      ghost var start, before, unsent := if again then S.Position(0, 0) else sender.Here(), sender.order, [];
      ok, records, unsent := Output(again, mtu, net, flushOk);
      Extend(before, start, records, unsent);
    }

    /** The sender's part of a transmission. */
    method Output(again: bool, mtu: nat, net: nat -> bool, flushOk: bool) returns (ok: bool, records: seq<S.Record>, ghost unsent: seq<S.Record>)
      requires sender.Valid()
      modifies sender
      ensures sender.Valid() && sender.wEpoch == old(sender.wEpoch) && sender.sent == old(sender.sent)
      ensures (sender.wrapped == old(sender.wrapped) || !ok) && sender.order == S.Sealed(old(sender.order), records + unsent)
      ensures var start := if again then S.Position(0, 0) else old(sender.Here());
        var reached := S.Reach(sender.outgoing, start, records);
        reached.Some? && (ok ==> reached.value == sender.Here())
      ensures !ok ==> sender.Unsealable(mtu) || sender.TooSmall(mtu)
      ensures ok && NeverFails(net) ==> sender.Here() == S.Position(|sender.outgoing|, 0)
    {
      var result, datagrams;
      if again {
        result, datagrams, unsent := sender.Retransmit(mtu, net, flushOk);
      } else {
        result, datagrams, unsent := sender.FlushFlight(mtu, net, flushOk);
      }
      records, ok := S.Flatten(datagrams), result != S.SealFailed;
      if result == S.WriteFailed {
        NoWriteFailed(net, |datagrams|);
      }
    }

    /** The records of a transmission join those on the wire. */
    method Extend(ghost before: seq<(nat, nat)>, ghost start: S.Position, records: seq<S.Record>, ghost unsent: seq<S.Record>)
      requires forall r :: r in wire ==> HonestRecord(r, sender.sent)
      requires Placed(wire, before, places) && sender.order == S.Sealed(before, records + unsent)
      requires S.FlightOk(sender.outgoing, sender.sent) && S.Reach(sender.outgoing, start, records).Some?
      modifies this`wire, this`places
      ensures WireOk() && old(wire) <= wire && wire[|old(wire)|..] == records
    {
      SenderIsHonest(sender.outgoing, start, records, sender.sent);
      PlaceMore(wire, before, places, records, unsent);
      places := places + seq(|records|, i requires i >= 0 => |before| + i);
      wire := wire + records;
    }

    /** A record made of fragments of records sent at any time in the past arrives and passes the record layer. */
    method Deliver(ks: seq<nat>, limits: Limits) returns (ok: bool)
      requires Valid()
      modifies receiver.Repr
      ensures Valid() && fresh(receiver.Repr - old(receiver.Repr))
      ensures var fs := Fragments(wire, ks);
        && AllHonest(fs, sender.sent) && AllEncodable(fs) && (receiver.View(), ok) == Received(old(receiver.View()), fs, limits)
        && (ok <==> AllWelcome(fs, |delivered|, limits))
        && (forall f :: f in fs && old(Safe(receiver.View(), f)) ==> Safe(receiver.View(), f))
        && (forall j :: 0 <= j < |fs| && |delivered| <= fs[j].seqNum < |delivered| + 7 && AllWelcome(fs[..j + 1], |delivered|, limits) ==>
              Got(receiver.View(), fs[j]))
    {
      var fs := Fragments(wire, ks);
      FragmentsHonest(wire, ks, sender.sent);
      AllHonestRest(fs, sender.sent);
      ghost var ring := receiver.View();
      ReceivedAgrees(ring, fs, limits, sender.sent);
      RecordTaken(ring, fs, limits, sender.sent);
      ok := receiver.OpenHandshake(Payload(fs), limits);
    }

    /** The receiver's handshake takes the current message, if it is complete. */
    method Take()
      requires Valid()
      modifies this`delivered, receiver, receiver.incoming
      ensures Valid() && receiver.Repr == old(receiver.Repr)
      ensures (receiver.View(), delivered) == Happen(old(receiver.View()), old(delivered), Takes)
    {
      var msg, _ := receiver.GetMessage();
      if msg.Some? {
        TakeIsSent(receiver.View(), delivered, sender.sent);
        delivered := delivered + [msg.value];
        receiver.NextMessage();
        assert sender.Valid();
      }
    }

    /** The actions of the sender's side. */
    method Send(a: Action) returns (ok: bool)
      requires Valid() && !a.Arrive? && !a.Take?
      requires a.Queue? ==> |sender.sent| + 1 < 0x1_0000
      requires a.NewWriteState? ==> sender.wEpoch + 1 < 0x1_0000
      modifies this`wire, this`places, sender
      ensures Valid()
      ensures sender.sent == old(sender.sent) + if a.Queue? && ok then [Message(a.ty, a.body)] else []
      ensures sender.wEpoch == old(sender.wEpoch) + if a.NewWriteState? then 1 else 0
      ensures old(wire) <= wire && (wire != old(wire) ==> Transmits(a))
      ensures sender.wrapped == old(sender.wrapped) || (Transmits(a) && !ok)
    {
      ok := true;
      match a {
        case Queue(ty, body) => ok := Enqueue(ty, body);
        case QueueCcs => ok := sender.AddChangeCipherSpec();
        case Flush(mtu, net, flushOk) => ok := Transmit(false, mtu, net, flushOk);
        case Resend(mtu, net, flushOk) => ok := Transmit(true, mtu, net, flushOk);
        case NewWriteState(next) => sender.SetWriteState(next);
      }
    }

    method Apply(a: Action) returns (ok: bool)
      requires Valid()
      requires a.Queue? ==> |sender.sent| + 1 < 0x1_0000
      requires a.NewWriteState? ==> sender.wEpoch + 1 < 0x1_0000
      modifies this, sender, receiver.Repr
      ensures Valid() && fresh(receiver.Repr - old(receiver.Repr))
      ensures sender.sent == old(sender.sent) + if a.Queue? && ok then [Message(a.ty, a.body)] else []
      ensures sender.wEpoch == old(sender.wEpoch) + if a.NewWriteState? then 1 else 0
      ensures old(wire) <= wire && (wire != old(wire) ==> Transmits(a))
      ensures sender.wrapped == old(sender.wrapped) || (Transmits(a) && !ok)
      ensures HonestEvent(EventOf(a, old(wire)), sender.sent)
      ensures (receiver.View(), delivered) == Happen(old(receiver.View()), old(delivered), EventOf(a, old(wire)))
      ensures a.Arrive? ==> (ok <==> AllWelcome(Fragments(old(wire), a.ks), old(|delivered|), a.limits))
    {
      if a.Arrive? {
        ok := Deliver(a.ks, a.limits);
      } else if a.Take? {
        ok := true;
        Take();
      } else {
        ok := Send(a);
      }
    }
  }

  lemma ExtendActions(actions: seq<Action>, oks: seq<bool>, a: Action, ok: bool)
    requires |actions| == |oks|
    ensures Queued(actions + [a], oks + [ok]) == Queued(actions, oks) + if a.Queue? && ok then [Message(a.ty, a.body)] else []
    ensures Queues(actions + [a]) == Queues(actions) + if a.Queue? then 1 else 0
    ensures Epochs(actions + [a]) == Epochs(actions) + if a.NewWriteState? then 1 else 0
  {
    assert (actions + [a])[..|actions|] == actions && (oks + [ok])[..|actions|] == oks;
  }

  /** A log of a run: what was on the wire before each action, and what each action meant for the receiver. */
  datatype Log = Log(oks: seq<bool>, onWire: seq<nat>, events: seq<Event>)

  /**
    Entry k of the log: only transmissions put records on the wire; what arrives are
    fragments of records that were on the wire by then; and a record is accepted exactly if
    none of its fragments is unwelcome after the messages taken by then.
   */
  ghost predicate Tells(log: Log, actions: seq<Action>, wire: seq<S.Record>, sent: seq<Message>, k: nat)
    requires k < |actions| == |log.oks| == |log.events| && |log.onWire| == |actions| + 1
  {
    && log.onWire[k] <= log.onWire[k + 1] <= |wire| && (log.onWire[k] < log.onWire[k + 1] ==> Transmits(actions[k]))
    && log.events[k] == EventOf(actions[k], wire[..log.onWire[k]]) && HonestEvent(log.events[k], sent)
    && (actions[k].Arrive? ==>
         (log.oks[k] <==> AllWelcome(log.events[k].fs, |After(Start(), log.events[..k]).1|, actions[k].limits)))
  }

  ghost predicate Told(log: Log, actions: seq<Action>, wire: seq<S.Record>, sent: seq<Message>) {
    && |actions| == |log.oks| == |log.events| && |log.onWire| == |actions| + 1
    && log.onWire[0] == 0 && log.onWire[|actions|] == |wire|
    && forall k :: 0 <= k < |actions| ==> Tells(log, actions, wire, sent, k)
  }

  lemma StaysHonestEvent(e: Event, sent: seq<Message>, sent': seq<Message>)
    requires HonestEvent(e, sent) && sent <= sent'
    ensures HonestEvent(e, sent')
  {
  }

  function Longer(log: Log, ok: bool, n: nat, e: Event): Log {
    Log(log.oks + [ok], log.onWire + [n], log.events + [e])
  }

  /** One more action. */
  lemma ToldMore(log: Log, actions: seq<Action>, wire: seq<S.Record>, sent: seq<Message>,
                 a: Action, ok: bool, wire': seq<S.Record>, sent': seq<Message>)
    requires Told(log, actions, wire, sent) && wire <= wire' && sent <= sent' && (wire' != wire ==> Transmits(a))
    requires HonestEvent(EventOf(a, wire), sent')
    requires a.Arrive? ==> (ok <==> AllWelcome(Fragments(wire, a.ks), |After(Start(), log.events).1|, a.limits))
    ensures Told(Longer(log, ok, |wire'|, EventOf(a, wire)), actions + [a], wire', sent')
  {
    var n := |actions|;
    var log' := Longer(log, ok, |wire'|, EventOf(a, wire));
    forall k | 0 <= k < n + 1
      ensures Tells(log', actions + [a], wire', sent', k)
    {
      if k < n {
        assert Tells(log, actions, wire, sent, k);
        assert log'.events[..k] == log.events[..k] && wire'[..log.onWire[k]] == wire[..log.onWire[k]];
        StaysHonestEvent(log.events[k], sent, sent');
      } else {
        assert log'.events[..n] == log.events && wire'[..|wire|] == wire;
      }
    }
  }

  /** Some transmission has reported a failure to seal. */
  ghost predicate SomeFailed(actions: seq<Action>, oks: seq<bool>)
    requires |oks| == |actions|
  {
    exists i :: 0 <= i < |actions| && Transmits(actions[i]) && !oks[i]
  }

  /** What a run has come to after these actions. */
  ghost predicate RunOk(link: Link, actions: seq<Action>, oks: seq<bool>, log: Log)
    reads link, link.sender, link.receiver, link.receiver.Repr
  {
    && link.Valid() && |oks| == |actions| && link.sender.sent == Queued(actions, oks)
    && |link.sender.sent| <= Queues(actions) && link.sender.wEpoch == Epochs(actions)
    && (link.sender.wrapped ==> SomeFailed(actions, oks))
    && log.oks == oks && Told(log, actions, link.wire, link.sender.sent)
    && (link.receiver.View(), link.delivered) == After(Start(), log.events)
  }

  /** One action of a run. */
  method Step(link: Link, ghost actions: seq<Action>, oks: seq<bool>, ghost log: Log, a: Action) returns (oks': seq<bool>, ghost log': Log)
    requires RunOk(link, actions, oks, log) && Queues(actions + [a]) < 0x1_0000 && Epochs(actions + [a]) < 0x1_0000
    modifies link, link.sender, link.receiver.Repr
    ensures fresh(link.receiver.Repr - old(link.receiver.Repr))
    ensures RunOk(link, actions + [a], oks', log')
  {
    ExtendActions(actions, oks, a, true);
    ghost var wire, sent, e := link.wire, link.sender.sent, EventOf(a, link.wire);
    var ok := link.Apply(a);
    oks', log' := oks + [ok], Longer(log, ok, |link.wire|, e);
    ExtendActions(actions, oks, a, ok);
    AfterOneMore(Start(), log.events, e);
    ToldMore(log, actions, wire, sent, a, ok, link.wire, link.sender.sent);
    if link.sender.wrapped {
      Failed(actions, oks, a, ok);
    }
  }

  lemma Failed(actions: seq<Action>, oks: seq<bool>, a: Action, ok: bool)
    requires |oks| == |actions|
    requires SomeFailed(actions, oks) || (Transmits(a) && !ok)
    ensures SomeFailed(actions + [a], oks + [ok])
  {
    var actions', oks' := actions + [a], oks + [ok];
    if i :| 0 <= i < |actions| && Transmits(actions[i]) && !oks[i] {
      assert actions'[i] == actions[i] && oks'[i] == oks[i];
    } else {
      assert actions'[|actions|] == a && oks'[|oks|] == ok;
    }
  }

  method RunAll(link: Link, actions: seq<Action>) returns (oks: seq<bool>, ghost log: Log)
    requires RunOk(link, [], [], Log([], [0], [])) && Queues(actions) < 0x1_0000 && Epochs(actions) < 0x1_0000
    modifies link, link.sender, link.receiver.Repr
    ensures RunOk(link, actions, oks, log)
  {
    oks, log := [], Log([], [0], []);
    for k := 0 to |actions|
      invariant fresh(link.receiver.Repr - old(link.receiver.Repr)) && RunOk(link, actions[..k], oks, log)
    {
      CountsOfPrefix(actions, k + 1);
      NextPrefix(actions, k);
      oks, log := Step(link, actions[..k], oks, log, actions[k]);
    }
    assert actions[..|actions|] == actions;
  }

  lemma NextPrefix(actions: seq<Action>, k: nat)
    requires k < |actions|
    ensures actions[..k + 1] == actions[..k] + [actions[k]]
  {
  }

  lemma RunMeans(link: Link, actions: seq<Action>, oks: seq<bool>, log: Log)
    requires RunOk(link, actions, oks, log)
    ensures link.delivered <= Queued(actions, oks) && (forall r :: r in link.wire ==> HonestRecord(r, Queued(actions, oks)))
    ensures (forall k :: 0 <= k < |actions| && Transmits(actions[k]) ==> oks[k]) ==> NumbersDistinct(link.wire)
  {
    if !link.sender.wrapped {
      PlacedDistinct(link.wire, link.sender.order, link.sender.used, link.places);
    }
  }

  /**
    Any run, over any interleaving of queueing, (re)transmission at any MTU with any failed
    writes, epoch changes, arrivals of records made of any fragments sent so far in any order
    and any number of times, and reads, with fewer than 2^16 messages and epochs: the messages
    handed out are an in-order prefix of the messages queued, with identical types and bodies.
    Every record on the wire carries part of a queued message, and each record that arrives is
    accepted or not as its fragments and the messages taken by then decide. And no two records
    share an epoch and a sequence number, unless some transmission reported a failure to seal.
   */
  method Session(actions: seq<Action>, cipher: S.Cipher)
    returns (delivered: seq<Message>, oks: seq<bool>, wire: seq<S.Record>, ghost log: Log)
    requires Queues(actions) < 0x1_0000 && Epochs(actions) < 0x1_0000
    ensures |oks| == |actions| && delivered <= Queued(actions, oks)
    ensures forall r :: r in wire ==> HonestRecord(r, Queued(actions, oks))
    ensures (forall k :: 0 <= k < |actions| && Transmits(actions[k]) ==> oks[k]) ==> NumbersDistinct(wire)
    ensures log.oks == oks && Told(log, actions, wire, Queued(actions, oks)) && delivered == After(Start(), log.events).1
  {
    var link := new Link(cipher);
    oks, log := RunAll(link, actions);
    RunMeans(link, actions, oks, log);
    delivered, wire := link.delivered, link.wire;
  }

  // ----- completeness: nothing is lost once every record has arrived -----

  ghost predicate CarriesByte(r: S.Record, x: S.Item, j: nat)
    requires x.MessageItem?
  {
    r.content.Handshake? && r.content.f.seqNum == x.seqNum && r.content.f.off <= j < r.content.f.off + |r.content.f.body|
  }

  ghost predicate Carries(r: S.Record, x: S.Item)
    requires x.MessageItem?
  {
    r.content.Handshake? && r.content.f.seqNum == x.seqNum
  }

  /** Records that carry a flight from its start to position q carry every byte before q. */
  ghost predicate Covered(flight: seq<S.Item>, q: S.Position, records: seq<S.Record>) {
    forall i: nat, j: nat {:trigger ByteOf(flight, i, j)} :: ByteOf(flight, i, j) && (i < q.written || (i == q.written && j < q.offset)) ==>
      exists r :: r in records && CarriesByte(r, flight[i], j)
  }

  ghost predicate ByteOf(flight: seq<S.Item>, i: nat, j: nat) {
    i < |flight| && flight[i].MessageItem? && j < |flight[i].msg.body|
  }

  ghost predicate Mentioned(flight: seq<S.Item>, q: S.Position, records: seq<S.Record>) {
    forall i :: 0 <= i < |flight| && i < q.written && flight[i].MessageItem? ==> exists r :: r in records && Carries(r, flight[i])
  }

  lemma {:induction false} ReachCovers(flight: seq<S.Item>, records: seq<S.Record>)
    requires S.Reach(flight, S.Position(0, 0), records).Some?
    ensures var q := S.Reach(flight, S.Position(0, 0), records).value;
      Covered(flight, q, records) && Mentioned(flight, q, records)
  {
    if records != [] {
      var front, last := records[..|records| - 1], records[|records| - 1];
      ReachCovers(flight, front);
      var p := S.Reach(flight, S.Position(0, 0), front).value;
      CoverStep(flight, p, front, last);
      assert records == front + [last];
    }
  }

  lemma CoverStep(flight: seq<S.Item>, p: S.Position, front: seq<S.Record>, last: S.Record)
    requires Covered(flight, p, front) && Mentioned(flight, p, front) && S.After(flight, p, last).Some?
    ensures var q := S.After(flight, p, last).value;
      Covered(flight, q, front + [last]) && Mentioned(flight, q, front + [last])
  {
    var q, records := S.After(flight, p, last).value, front + [last];
    var x := flight[p.written];
    assert x.MessageItem? ==> Carries(last, x);
    assert last in records && forall r :: r in front ==> r in records;
    forall i: nat, j: nat | ByteOf(flight, i, j) && (i < q.written || (i == q.written && j < q.offset))
      ensures exists r :: r in records && CarriesByte(r, flight[i], j)
    {
      if i < p.written || (i == p.written && j < p.offset) {
        var r :| r in front && CarriesByte(r, flight[i], j);
        assert r in records;
      } else {
        assert i == p.written && CarriesByte(last, x, j);
      }
    }
    forall i | 0 <= i < |flight| && i < q.written && flight[i].MessageItem?
      ensures exists r :: r in records && Carries(r, flight[i])
    {
      if i < p.written {
        var r :| r in front && Carries(r, flight[i]);
        assert r in records;
      }
    }
  }
  /** Fragment f is part of one of the records, at a time when the receiver takes in its message or is past it. */
  ghost predicate GetsThrough(ring: Ring, events: seq<Event>, f: Fragment)
    requires |ring.slots| == MAX_FLIGHT
  {
    exists k: nat, j: nat :: k < |events| && ThroughAt(ring, events, f, k, j)
  }

  /** It is the j-th fragment of the record that arrives in event k, and no fragment up to it is unwelcome. */
  ghost predicate ThroughAt(ring: Ring, events: seq<Event>, f: Fragment, k: nat, j: nat)
    requires |ring.slots| == MAX_FLIGHT
    requires k < |events|
  {
    var now := After(ring, events[..k]).0;
    && events[k].Arrives? && j < |events[k].fs| && events[k].fs[j] == f
    && (f.seqNum < now.readSeq || (InWindow(now, f) && AllWelcome(events[k].fs[..j + 1], now.readSeq, events[k].limits)))
  }

  lemma {:induction false} ThroughIsSafe(ring: Ring, events: seq<Event>, sent: seq<Message>, f: Fragment, k: nat, j: nat)
    requires |sent| < 0x1_0000 && RingOk(ring) && RingAgrees(ring, sent) && ring.readSeq <= |sent|
    requires forall i :: 0 <= i < |events| ==> HonestEvent(events[i], sent)
    requires k < |events| && ThroughAt(ring, events, f, k, j)
    ensures Safe(After(ring, events).0, f)
    decreases |events|
  {
    var front, last := events[..|events| - 1], events[|events| - 1];
    EventsAgree(ring, front, sent);
    var (now, taken) := After(ring, front);
    if k == |events| - 1 && InWindow(now, f) {
      HappenGets(now, taken, last, sent, j);
    } else if k == |events| - 1 {
      HappenKeeps(now, taken, last, sent, f);
    } else {
      assert front[..k] == events[..k];
      ThroughIsSafe(ring, front, sent, f, k, j);
      HappenKeeps(now, taken, last, sent, f);
    }
  }

  /** Message x has been taken, or is complete in the ring; either way it is as it was sent. */
  ghost predicate HasArrived(ring: Ring, ring': Ring, taken: seq<Message>, x: S.Item)
    requires |ring'.slots| == MAX_FLIGHT && x.MessageItem?
  {
    || x.seqNum < ring.readSeq
    || (x.seqNum < ring.readSeq + |taken| && taken[x.seqNum - ring.readSeq] == x.msg)
    || (var s := ring'.slots[x.seqNum % MAX_FLIGHT]; Complete(s) && s.seqNum == x.seqNum && Assembled(s) == x.msg)
  }

  /**
    Completeness: if every record of one transmission of a flight gets through at least once,
    in any order, mixed with any other records the sender ever made and with messages being
    taken, each in the read state of its own time, then every message of the flight has been
    taken as sent or is assembled as sent.
   */
  lemma FlightArrives(ring: Ring, flight: seq<S.Item>, records: seq<S.Record>, events: seq<Event>, sent: seq<Message>)
    requires |sent| < 0x1_0000 && RingOk(ring) && RingAgrees(ring, sent) && ring.readSeq <= |sent| && S.FlightOk(flight, sent)
    requires S.Reach(flight, S.Position(0, 0), records) == Some(S.Position(|flight|, 0))
    requires forall i :: 0 <= i < |events| ==> HonestEvent(events[i], sent)
    requires forall r :: r in records && r.content.Handshake? ==> GetsThrough(ring, events, r.content.f)
    ensures var (ring', taken) := After(ring, events);
      forall x :: x in flight && x.MessageItem? ==> HasArrived(ring, ring', taken, x)
  {
    ReachCovers(flight, records);
    SenderIsHonest(flight, S.Position(0, 0), records, sent);
    RecordsSafe(ring, records, events, sent);
    EventsAgree(ring, events, sent);
    var (ring', taken) := After(ring, events);
    forall x | x in flight && x.MessageItem?
      ensures HasArrived(ring, ring', taken, x)
    {
      var i :| 0 <= i < |flight| && flight[i] == x;
      if x.seqNum >= ring'.readSeq {
        ItemArrives(ring', flight, i, records, sent);
      } else {
        ItemTaken(ring, ring', taken, x, sent);
      }
    }
  }

  lemma RecordsSafe(ring: Ring, records: seq<S.Record>, events: seq<Event>, sent: seq<Message>)
    requires |sent| < 0x1_0000 && RingOk(ring) && RingAgrees(ring, sent) && ring.readSeq <= |sent|
    requires forall i :: 0 <= i < |events| ==> HonestEvent(events[i], sent)
    requires forall r :: r in records && r.content.Handshake? ==> GetsThrough(ring, events, r.content.f)
    ensures forall r :: r in records && r.content.Handshake? ==> Safe(After(ring, events).0, r.content.f)
  {
    forall r | r in records && r.content.Handshake?
      ensures Safe(After(ring, events).0, r.content.f)
    {
      var k: nat, j: nat :| k < |events| && ThroughAt(ring, events, r.content.f, k, j);
      ThroughIsSafe(ring, events, sent, r.content.f, k, j);
    }
  }

  lemma ItemTaken(ring: Ring, ring': Ring, taken: seq<Message>, x: S.Item, sent: seq<Message>)
    requires Agrees(ring, ring', taken, sent) && x.MessageItem? && x.seqNum < ring'.readSeq && sent[x.seqNum] == x.msg
    ensures HasArrived(ring, ring', taken, x)
  {
    if x.seqNum >= ring.readSeq {
      assert taken[x.seqNum - ring.readSeq] == sent[x.seqNum];
    }
  }

  lemma ItemArrives(ring: Ring, flight: seq<S.Item>, i: nat, records: seq<S.Record>, sent: seq<Message>)
    requires i < |flight| && flight[i].MessageItem? && S.FlightOk(flight, sent)
    requires Covered(flight, S.Position(|flight|, 0), records) && Mentioned(flight, S.Position(|flight|, 0), records)
    requires forall r :: r in records ==> HonestRecord(r, sent)
    requires RingOk(ring) && RingAgrees(ring, sent) && ring.readSeq <= flight[i].seqNum
    requires forall r :: r in records && r.content.Handshake? ==> Safe(ring, r.content.f)
    ensures var s := ring.slots[flight[i].seqNum % MAX_FLIGHT];
      Complete(s) && s.seqNum == flight[i].seqNum && Assembled(s) == flight[i].msg
  {
    var x := flight[i];
    var s := ring.slots[x.seqNum % MAX_FLIGHT];
    var r0 :| r0 in records && Carries(r0, x);
    assert HonestRecord(r0, sent) && Safe(ring, r0.content.f);
    assert SlotAgrees(s, sent);
    forall j | j in Interval(0, s.msgLen)
      ensures Complete(s) || j in s.bytes.Keys
    {
      assert ByteOf(flight, i, j);
      var r :| r in records && CarriesByte(r, x, j);
      assert HonestRecord(r, sent) && Safe(ring, r.content.f);
    }
    assert Complete(s);
    assert Assembled(s).body == x.msg.body by {
      forall j | 0 <= j < s.msgLen
        ensures Assembled(s).body[j] == x.msg.body[j]
      {
        assert j in Interval(0, s.msgLen);
      }
    }
  }
}
