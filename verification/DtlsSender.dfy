/**
  The sending half of ssl/d1_both.cc (the outgoing flight, its fragmentation into
  datagrams, retransmission and roll-back) over the record sealing of
  ssl/dtls_record.cc and the write-side epoch change of ssl/dtls_method.cc.

  Encryption is abstracted to its length contract: a sealed record is 13 bytes of
  header, the explicit nonce, the payload, and a suffix of bounded length. The payload
  of a handshake record is the serialization of the fragment it carries.
 */
module DtlsSender {
  import opened Bytes
  import opened DtlsWire

  const MAX_FLIGHT := 7
  const RT_HEADER_LENGTH := 13
  const SEQUENCE_LIMIT := 0x1_0000_0000_0000

  /** An SSLAEADContext, as far as lengths go. */
  datatype Cipher = Cipher(nonceLen: nat, maxSuffix: nat, suffixLen: nat -> nat)

  function Suffix(c: Cipher, n: nat): (r: nat)
    ensures r <= c.maxSuffix
  {
    if c.suffixLen(n) <= c.maxSuffix then c.suffixLen(n) else c.maxSuffix
  }

  /** What a record carries: a ChangeCipherSpec, or one handshake fragment. */
  datatype Content = ChangeCipherSpec | Handshake(f: Fragment)

  function PayloadLength(c: Content): nat {
    if c.ChangeCipherSpec? then 1 else HM_HEADER_LENGTH + |c.f.body|
  }

  /** A sealed record: its number, its content and its length on the wire. */
  datatype Record = Record(epoch: nat, number: nat, content: Content, len: nat)

  /** outgoing_written and outgoing_offset. */
  datatype Position = Position(written: nat, offset: nat)

  // ----- what a flight is, and what it means to have sent part of it -----

  /** DTLS_OUTGOING_MESSAGE: a ChangeCipherSpec, or a handshake message with its number. */
  datatype Item =
    | CcsItem(epoch: nat)
    | MessageItem(epoch: nat, seqNum: nat, msg: Message)

  predicate ItemOk(x: Item) {
    x.MessageItem? ==> x.seqNum < 0x1_0000 && |x.msg.body| < 0x100_0000
  }

  /** Bytes off .. off + n of a message, as the fragment that carries them. */
  function Piece(x: Item, off: nat, n: nat): (f: Fragment)
    requires x.MessageItem? && ItemOk(x) && off + n <= |x.msg.body|
    ensures Encodable(f)
  {
    Fragment(x.msg.ty, |x.msg.body|, x.seqNum, off, x.msg.body[off..off + n])
  }

  /** The messages of a flight are numbered by their place in the history of all messages queued. */
  ghost predicate FlightOk(flight: seq<Item>, sent: seq<Message>) {
    && |flight| <= MAX_FLIGHT && |sent| <= 0x1_0000
    && forall i :: 0 <= i < |flight| ==>
         && ItemOk(flight[i])
         && (flight[i].MessageItem? ==> flight[i].seqNum < |sent| && sent[flight[i].seqNum] == flight[i].msg)
  }

  lemma ExtendFlight(flight: seq<Item>, sent: seq<Message>, x: Item)
    requires FlightOk(flight, sent) && |flight| < MAX_FLIGHT && ItemOk(x)
    requires x.MessageItem? ==> |sent| < 0x1_0000 && x.seqNum == |sent|
    ensures FlightOk(flight + [x], sent + if x.MessageItem? then [x.msg] else [])
  {
  }

  /** A position is between messages, or strictly inside the body of one. */
  ghost predicate PositionOk(flight: seq<Item>, p: Position) {
    && p.written <= |flight|
    && (p.offset != 0 ==>
          p.written < |flight| && flight[p.written].MessageItem? && p.offset < |flight[p.written].msg.body|)
  }

  /**
    The position reached from p by record r, if r carries exactly what comes next: a
    ChangeCipherSpec in its turn, or the next bytes of the current message under that
    message's own header. A fragment is empty only if its message is.
   */
  ghost function After(flight: seq<Item>, p: Position, r: Record): Option<Position> {
    if p.written >= |flight| || r.epoch != flight[p.written].epoch || !ItemOk(flight[p.written]) then None
    else
      var x := flight[p.written];
      if x.CcsItem? then
        if r.content == ChangeCipherSpec then Some(Position(p.written + 1, 0)) else None
      else if r.content.ChangeCipherSpec? then None
      else
        var n := |r.content.f.body|;
        if p.offset + n <= |x.msg.body| && (n > 0 || x.msg.body == []) && r.content.f == Piece(x, p.offset, n) then
          Some(if p.offset + n == |x.msg.body| then Position(p.written + 1, 0) else Position(p.written, p.offset + n))
        else None
  }

  /** The position reached from p by a run of records that carry the flight in order, without gap or repeat. */
  ghost function Reach(flight: seq<Item>, p: Position, records: seq<Record>): Option<Position> {
    if records == [] then Some(p)
    else
      match Reach(flight, p, records[..|records| - 1])
      case None => None
      case Some(q) => After(flight, q, records[|records| - 1])
  }

  lemma ReachAppend(flight: seq<Item>, p: Position, records: seq<Record>, r: Record)
    ensures Reach(flight, p, records + [r]) ==
            match Reach(flight, p, records) case None => None case Some(q) => After(flight, q, r)
  {
    assert (records + [r])[..|records|] == records;
  }

  lemma {:induction false} ReachConcat(flight: seq<Item>, p: Position, a: seq<Record>, b: seq<Record>)
    requires Reach(flight, p, a).Some?
    ensures Reach(flight, p, a + b) == Reach(flight, Reach(flight, p, a).value, b)
    decreases |b|
  {
    if b == [] {
      assert a + b == a;
    } else {
      var front, r := b[..|b| - 1], b[|b| - 1];
      ReachConcat(flight, p, a, front);
      assert a + b == (a + front) + [r];
      ReachAppend(flight, p, a + front, r);
    }
  }

  /** The records of a list of datagrams, in order. */
  function Flatten(datagrams: seq<seq<Record>>): seq<Record> {
    if datagrams == [] then [] else Flatten(datagrams[..|datagrams| - 1]) + datagrams[|datagrams| - 1]
  }

  lemma FlattenAppend(datagrams: seq<seq<Record>>, packet: seq<Record>)
    ensures Flatten(datagrams + [packet]) == Flatten(datagrams) + packet
  {
    assert (datagrams + [packet])[..|datagrams|] == datagrams;
  }

  function TotalLength(records: seq<Record>): nat {
    if records == [] then 0 else TotalLength(records[..|records| - 1]) + records[|records| - 1].len
  }

  /** Messages left to send, then body bytes left of the current one. */
  ghost function BytesLeft(flight: seq<Item>, p: Position): nat
    requires PositionOk(flight, p)
  {
    if p.written < |flight| && flight[p.written].MessageItem? then |flight[p.written].msg.body| - p.offset else 0
  }

  ghost predicate Progress(flight: seq<Item>, p: Position, q: Position)
    requires PositionOk(flight, p) && PositionOk(flight, q)
  {
    p.written < q.written || (p.written == q.written && BytesLeft(flight, q) < BytesLeft(flight, p))
  }

  lemma AfterIsProgress(flight: seq<Item>, p: Position, r: Record)
    requires PositionOk(flight, p) && After(flight, p, r).Some?
    ensures var q := After(flight, p, r).value; PositionOk(flight, q) && Progress(flight, p, q)
  {
  }

  /** Extending a run of records by the one that comes next. */
  lemma ExtendReach(flight: seq<Item>, p: Position, records: seq<Record>, q: Position, r: Record)
    requires PositionOk(flight, p) && PositionOk(flight, q)
    requires Reach(flight, p, records) == Some(q) && (q == p || Progress(flight, p, q))
    requires After(flight, q, r).Some?
    ensures var q' := After(flight, q, r).value;
      && Reach(flight, p, records + [r]) == Some(q') && PositionOk(flight, q') && Progress(flight, p, q')
    ensures TotalLength(records + [r]) == TotalLength(records) + r.len
  {
    ReachAppend(flight, p, records, r);
    AfterIsProgress(flight, q, r);
    assert (records + [r])[..|records|] == records;
  }

  // ----- record numbers -----

  /** The numbers in sealing order, after a list of records has been sealed. */
  ghost function Sealed(order: seq<(nat, nat)>, records: seq<Record>): seq<(nat, nat)> {
    if records == [] then order
    else
      var last := records[|records| - 1];
      Sealed(order, records[..|records| - 1]) + [(last.epoch, last.number)]
  }

  lemma SealedAppend(order: seq<(nat, nat)>, records: seq<Record>, r: Record)
    ensures Sealed(order, records + [r]) == Sealed(order, records) + [(r.epoch, r.number)]
  {
    assert (records + [r])[..|records|] == records;
  }

  lemma {:induction false} SealedConcat(order: seq<(nat, nat)>, a: seq<Record>, b: seq<Record>)
    ensures Sealed(order, a + b) == Sealed(Sealed(order, a), b)
    decreases |b|
  {
    if b == [] {
      assert a + b == a;
    } else {
      var front, r := b[..|b| - 1], b[|b| - 1];
      SealedConcat(order, a, front);
      assert a + b == (a + front) + [r];
      SealedAppend(order, a + front, r);
    }
  }

  lemma {:induction false} SealedAt(order: seq<(nat, nat)>, records: seq<Record>)
    ensures var all := Sealed(order, records);
      && order <= all && |all| == |order| + |records|
      && forall i :: 0 <= i < |records| ==> all[|order| + i] == (records[i].epoch, records[i].number)
    decreases |records|
  {
    if records != [] {
      SealedAt(order, records[..|records| - 1]);
    }
  }

  /** Every number used so far is below the counter of its epoch, and only the last two epochs have counters. */
  ghost predicate NumbersOk(used: set<(nat, nat)>, epoch: nat, next: nat, lastNext: nat) {
    forall u :: u in used ==>
      && u.0 <= epoch
      && (u.0 == epoch ==> u.1 < next)
      && (u.0 + 1 == epoch ==> u.1 < lastNext)
  }

  /** The numbers in sealing order: exactly those used, each of them once. */
  ghost predicate SealedOnce(order: seq<(nat, nat)>, used: set<(nat, nat)>) {
    && (forall i :: 0 <= i < |order| ==> order[i] in used)
    && (forall i, j :: 0 <= i < j < |order| ==> order[i] != order[j])
  }

  datatype SealResult = SealError | NoProgress | Partial | Success

  datatype FlightResult = Sent | WriteFailed | FlushFailed | SealFailed

  class Sender {
    // the flight
    var outgoing: seq<Item>
    var written: nat
    var offset: nat
    var complete: bool
    var writeSeq: nat
    // the record layer
    var wEpoch: nat
    var recordSeq: nat
    var lastRecordSeq: nat
    var cipher: Cipher
    var lastCipher: Cipher
    // history
    ghost var sent: seq<Message>
    ghost var used: set<(nat, nat)>
    ghost var order: seq<(nat, nat)>
    ghost var wrapped: bool

    ghost function Here(): Position
      reads this`written, this`offset
    {
      Position(written, offset)
    }

    ghost predicate RecordsOk()
      reads this`wEpoch, this`recordSeq, this`lastRecordSeq, this`used, this`order, this`wrapped
    {
      && recordSeq < SEQUENCE_LIMIT && lastRecordSeq < SEQUENCE_LIMIT
      && (!wrapped ==> NumbersOk(used, wEpoch, recordSeq, lastRecordSeq) && SealedOnce(order, used))
    }

    ghost predicate QueueOk()
      reads this`outgoing, this`sent, this`writeSeq
    {
      FlightOk(outgoing, sent) && writeSeq == |sent| % 0x1_0000
    }

    ghost predicate Valid()
      reads this
    {
      QueueOk() && PositionOk(outgoing, Here()) && wEpoch < 0x1_0000 && RecordsOk()
    }

    constructor (cipher: Cipher)
      ensures Valid() && outgoing == [] && sent == [] && used == {} && !wrapped && Here() == Position(0, 0)
      ensures wEpoch == 0 && !complete && this.cipher == cipher
    {
      outgoing, written, offset, complete, writeSeq := [], 0, 0, false, 0;
      wEpoch, recordSeq, lastRecordSeq := 0, 0, 0;
      this.cipher, lastCipher := cipher, cipher;
      sent, used, order, wrapped := [], {}, [], false;
    }

    /**
      dtls_seal_record. No two successful seals share an epoch and sequence number, up to
      the first sequence wraparound, which is reported as an error.
     */
    method SealRecord(content: Content, usePrevious: bool, maxOut: nat) returns (r: Option<Record>)
      requires RecordsOk() && (usePrevious ==> wEpoch >= 1)
      modifies this`recordSeq, this`lastRecordSeq, this`used, this`order, this`wrapped
      ensures RecordsOk()
      ensures wrapped == old(wrapped) || (wrapped && r.None? && old(if usePrevious then lastRecordSeq else recordSeq) == 0xffff_ffff_ffff)
      ensures r.Some? ==>
        && r.value.content == content
        && r.value.epoch == (if usePrevious then wEpoch - 1 else wEpoch)
        && r.value.len <= maxOut && r.value.number < SEQUENCE_LIMIT
        && used == old(used) + {(r.value.epoch, r.value.number)}
        && order == old(order) + [(r.value.epoch, r.value.number)]
        && (!wrapped ==> (r.value.epoch, r.value.number) !in old(used))
      ensures r.None? ==> used == old(used) && order == old(order)
      ensures r.None? ==>
        || wrapped || maxOut >= 0x1_0000
        || maxOut < RT_HEADER_LENGTH + (if usePrevious then lastCipher else cipher).nonceLen + PayloadLength(content) + (if usePrevious then lastCipher else cipher).maxSuffix
    {
      var epoch, aead, number := wEpoch, cipher, recordSeq;
      if usePrevious {
        epoch, aead, number := wEpoch - 1, lastCipher, lastRecordSeq;
      }
      if maxOut < RT_HEADER_LENGTH {
        return None;
      }
      var ciphertextLen := aead.nonceLen + PayloadLength(content) + Suffix(aead, PayloadLength(content));
      if ciphertextLen > maxOut - RT_HEADER_LENGTH {
        return None;
      }
      // ssl_record_sequence_update on the low six bytes
      var next := (number + 1) % SEQUENCE_LIMIT;
      if usePrevious {
        lastRecordSeq := next;
      } else {
        recordSeq := next;
      }
      if next == 0 {
        wrapped := true;
        return None;
      }
      if ciphertextLen >= 0x1_0000 {
        return None;
      }
      used, order := used + {(epoch, number)}, order + [(epoch, number)];
      return Some(Record(epoch, number, content, RT_HEADER_LENGTH + ciphertextLen));
    }

    /** Too small an output for a header and one byte of body, under either cipher. */
    ghost predicate TooSmall(maxOut: nat)
      reads this`cipher, this`lastCipher
    {
      var need := 13 + 12 + 1;
      maxOut < need + cipher.nonceLen + cipher.maxSuffix || maxOut < need + lastCipher.nonceLen + lastCipher.maxSuffix
    }

    /** Why sealing may fail outright: a stale epoch in the flight, a giant packet, or a used-up epoch. */
    ghost predicate Unsealable(maxOut: nat)
      reads this`wrapped, this`outgoing, this`wEpoch
    {
      || wrapped || maxOut >= 0x1_0000
      || exists i :: 0 <= i < |outgoing| && outgoing[i].epoch != wEpoch && outgoing[i].epoch + 1 != wEpoch
    }

    /** The handshake part of seal_next_message: as much of the rest of the body as fits. */
    method SealPiece(msg: Item, usePrevious: bool, aead: Cipher, maxOut: nat) returns (r: Option<Record>, todo: nat)
      requires RecordsOk() && (usePrevious ==> wEpoch >= 1) && aead == (if usePrevious then lastCipher else cipher)
      requires msg.MessageItem? && ItemOk(msg) && (offset < |msg.msg.body| || offset == 0)
      requires maxOut >= HM_HEADER_LENGTH + 1 + RT_HEADER_LENGTH + aead.nonceLen + aead.maxSuffix
      modifies this`recordSeq, this`lastRecordSeq, this`used, this`order, this`wrapped
      ensures RecordsOk() && (wrapped == old(wrapped) || (wrapped && r.None?))
      ensures offset + todo <= |msg.msg.body| && (todo > 0 || msg.msg.body == [])
      ensures var room := maxOut - HM_HEADER_LENGTH - RT_HEADER_LENGTH - aead.nonceLen - aead.maxSuffix;
        todo == if |msg.msg.body| - offset > room then room else |msg.msg.body| - offset
      ensures order == old(order) + if r.Some? then [(r.value.epoch, r.value.number)] else []
      ensures r.None? ==> wrapped || maxOut >= 0x1_0000
      ensures r.Some? ==>
        && r.value.content == Handshake(Piece(msg, offset, todo))
        && r.value.len <= maxOut && r.value.epoch == (if usePrevious then wEpoch - 1 else wEpoch)
    {
      var overhead := RT_HEADER_LENGTH + aead.nonceLen + aead.maxSuffix;
      todo := |msg.msg.body| - offset;
      if todo > maxOut - HM_HEADER_LENGTH - overhead {
        todo := maxOut - HM_HEADER_LENGTH - overhead;
      }
      r := SealRecord(Handshake(Piece(msg, offset, todo)), usePrevious, maxOut);
    }

    /** seal_next_message: seals the next record of the flight, as large as the room allows. */
    method SealNextMessage(maxOut: nat) returns (result: SealResult, r: Option<Record>)
      requires Valid() && written < |outgoing|
      modifies this`offset, this`recordSeq, this`lastRecordSeq, this`used, this`order, this`wrapped
      ensures RecordsOk() && PositionOk(outgoing, Here()) && (wrapped == old(wrapped) || (wrapped && result == SealError))
      ensures order == old(order) + if r.Some? then [(r.value.epoch, r.value.number)] else []
      ensures r.Some? <==> result == Partial || result == Success
      ensures r.Some? ==> r.value.len <= maxOut
      ensures result == Partial ==> offset > 0 && After(outgoing, old(Here()), r.value) == Some(Here())
      ensures result == Success ==> offset == 0 && After(outgoing, old(Here()), r.value) == Some(Position(written + 1, 0))
      ensures r.None? ==> offset == old(offset)
      ensures result == NoProgress ==> TooSmall(maxOut)
      ensures result == SealError ==> Unsealable(maxOut)
    {
      var msg := outgoing[written];
      var usePrevious := false;
      if wEpoch >= 1 && msg.epoch == wEpoch - 1 {
        usePrevious := true;
      } else if msg.epoch != wEpoch {
        return SealError, None;
      }
      var aead := if usePrevious then lastCipher else cipher;
      var overhead := RT_HEADER_LENGTH + aead.nonceLen + aead.maxSuffix;

      if msg.CcsItem? {
        if maxOut < 1 + overhead {
          return NoProgress, None;
        }
        r := SealRecord(ChangeCipherSpec, usePrevious, maxOut);
        return if r.None? then SealError else Success, r;
      }

      if maxOut < HM_HEADER_LENGTH + 1 + overhead || maxOut < RT_HEADER_LENGTH + aead.nonceLen {
        return NoProgress, None;
      }
      var todo;
      r, todo := SealPiece(msg, usePrevious, aead, maxOut);
      if r.None? {
        return SealError, None;
      }
      if todo == |msg.msg.body| - offset {
        offset := 0;
        return Success, r;
      }
      offset := offset + todo;
      return Partial, r;
    }

    /** One turn of the loop of seal_next_packet, in a packet begun at `start`. */
    method SealOne(ghost start: Position, ghost first: seq<(nat, nat)>, packet: seq<Record>, room: nat)
      returns (result: SealResult, packet': seq<Record>, room': nat)
      requires Valid() && written < |outgoing| && PositionOk(outgoing, start)
      requires Reach(outgoing, start, packet) == Some(Here()) && (Here() == start || Progress(outgoing, start, Here()))
      requires order == Sealed(first, packet)
      modifies this`written, this`offset, this`recordSeq, this`lastRecordSeq, this`used, this`order, this`wrapped
      ensures RecordsOk() && PositionOk(outgoing, Here()) && (wrapped == old(wrapped) || (wrapped && result == SealError))
      ensures order == Sealed(first, packet')
      ensures Reach(outgoing, start, packet') == Some(Here())
      ensures TotalLength(packet') + room' == TotalLength(packet) + room
      ensures result == Partial || result == Success ==> packet' != [] && Progress(outgoing, start, Here())
      ensures result == Partial ==> offset > 0
      ensures result == Success ==> written == old(written) + 1
      ensures result == NoProgress ==> packet' == packet && Here() == old(Here()) && TooSmall(room)
      ensures result == SealError ==> Unsealable(room)
    {
      ghost var here := Here();
      var r;
      result, r := SealNextMessage(room);
      if r.None? {
        assert Here() == here;
        return result, packet, room;
      }
      ExtendReach(outgoing, start, packet, here, r.value);
      SealedAppend(first, packet, r.value);
      assert After(outgoing, here, r.value) == Some(if result == Success then Position(written + 1, 0) else Here());
      if result == Success {
        written := written + 1;
      }
      return result, packet + [r.value], room - r.value.len;
    }

    /**
      seal_next_packet: fills one datagram. On success it fits, it is not empty, its records
      carry the flight from the old position exactly to the new one, and that is progress.
     */
    method SealNextPacket(maxOut: nat) returns (ok: bool, packet: seq<Record>)
      requires Valid() && written < |outgoing|
      modifies this`written, this`offset, this`recordSeq, this`lastRecordSeq, this`used, this`order, this`wrapped
      ensures RecordsOk() && PositionOk(outgoing, Here()) && (wrapped == old(wrapped) || (wrapped && !ok))
      ensures order == Sealed(old(order), packet)
      ensures ok ==> packet != [] && TotalLength(packet) <= maxOut
      ensures ok ==> Reach(outgoing, old(Here()), packet) == Some(Here()) && Progress(outgoing, old(Here()), Here())
      ensures !ok ==> Unsealable(maxOut) || TooSmall(maxOut)
      // the packet is full: a message is cut where it ends, or nothing more fits
      ensures ok && written < |outgoing| ==> offset > 0 || TooSmall(maxOut - TotalLength(packet))
    {
      packet := [];
      var room: nat := maxOut;
      while written < |outgoing|
        invariant RecordsOk() && PositionOk(outgoing, Here()) && wrapped == old(wrapped)
        invariant order == Sealed(old(order), packet)
        invariant Reach(outgoing, old(Here()), packet) == Some(Here())
        invariant TotalLength(packet) + room == maxOut
        invariant if packet == [] then Here() == old(Here()) else Progress(outgoing, old(Here()), Here())
        decreases |outgoing| - written
      {
        var result;
        result, packet, room := SealOne(old(Here()), old(order), packet, room);
        if result == SealError {
          return false, packet;
        }
        if result != Success {
          break;
        }
      }
      ok := packet != [];
    }

    /** One turn of the loop of send_flight: the next packet goes out, or is rolled back if its write fails. */
    method SendPacket(ghost start: Position, ghost first: seq<(nat, nat)>, ghost records: seq<Record>, mtu: nat, writeOk: bool)
      returns (result: FlightResult, packet: seq<Record>)
      requires Valid() && written < |outgoing|
      requires Reach(outgoing, start, records) == Some(Here()) && order == Sealed(first, records)
      modifies this`written, this`offset, this`recordSeq, this`lastRecordSeq, this`used, this`order, this`wrapped
      ensures RecordsOk() && PositionOk(outgoing, Here()) && (wrapped == old(wrapped) || (wrapped && result == SealFailed))
      ensures order == Sealed(first, records + packet)
      ensures result == Sent ==>
        && packet != [] && TotalLength(packet) <= mtu
        && Reach(outgoing, start, records + packet) == Some(Here()) && Progress(outgoing, old(Here()), Here())
      ensures result == WriteFailed ==> !writeOk && Here() == old(Here())
      ensures result == SealFailed ==> Unsealable(mtu) || TooSmall(mtu)
      ensures result != FlushFailed
    {
      var oldWritten, oldOffset := written, offset;
      var ok;
      ok, packet := SealNextPacket(mtu);
      SealedConcat(first, records, packet);
      if !ok {
        return SealFailed, packet;
      }
      if !writeOk {
        written, offset := oldWritten, oldOffset;
        return WriteFailed, packet;
      }
      ReachConcat(outgoing, start, records, packet);
      return Sent, packet;
    }

    /**
      send_flight, over a transport whose k-th datagram write succeeds if `net(k)`. The
      datagrams that went out carry the flight, without gap or repeat, from the old position
      to the new one: to the end if all writes succeeded, and otherwise to the start of the
      packet whose write failed, so that the next call resumes with that packet.
     */
    method SendFlight(mtu: nat, net: nat -> bool, flushOk: bool)
      returns (result: FlightResult, datagrams: seq<seq<Record>>, ghost unsent: seq<Record>)
      requires Valid()
      modifies this`written, this`offset, this`recordSeq, this`lastRecordSeq, this`used, this`order, this`wrapped
      ensures RecordsOk() && PositionOk(outgoing, Here()) && (wrapped == old(wrapped) || (wrapped && result == SealFailed))
      ensures order == Sealed(old(order), Flatten(datagrams) + unsent)
      ensures forall d :: d in datagrams ==> d != [] && TotalLength(d) <= mtu
      ensures Reach(outgoing, old(Here()), Flatten(datagrams)).Some?
      ensures result != SealFailed ==> Reach(outgoing, old(Here()), Flatten(datagrams)) == Some(Here())
      ensures result == Sent || result == FlushFailed ==> Here() == Position(|outgoing|, 0)
      ensures result == WriteFailed ==> !net(|datagrams|) && written < |outgoing|
      ensures result == FlushFailed ==> !flushOk
      ensures result == SealFailed ==> Unsealable(mtu) || TooSmall(mtu)
    {
      datagrams, unsent := [], [];
      ghost var records := [];
      while written < |outgoing|
        invariant records == Flatten(datagrams)
        invariant RecordsOk() && PositionOk(outgoing, Here()) && wrapped == old(wrapped)
        invariant order == Sealed(old(order), records)
        invariant forall d :: d in datagrams ==> d != [] && TotalLength(d) <= mtu
        invariant Reach(outgoing, old(Here()), records) == Some(Here())
        decreases |outgoing| - written, BytesLeft(outgoing, Here())
      {
        var packet;
        result, packet := SendPacket(old(Here()), old(order), records, mtu, net(|datagrams|));
        if result != Sent {
          return result, datagrams, packet;
        }
        FlattenAppend(datagrams, packet);
        datagrams, records := datagrams + [packet], records + packet;
      }
      assert records + [] == records;
      return if flushOk then Sent else FlushFailed, datagrams, [];
    }

    /** dtls1_flush_flight. */
    method FlushFlight(mtu: nat, net: nat -> bool, flushOk: bool)
      returns (result: FlightResult, datagrams: seq<seq<Record>>, ghost unsent: seq<Record>)
      requires Valid()
      modifies this`complete, this`written, this`offset, this`recordSeq, this`lastRecordSeq, this`used, this`order, this`wrapped
      ensures RecordsOk() && PositionOk(outgoing, Here()) && (wrapped == old(wrapped) || (wrapped && result == SealFailed)) && complete
      ensures order == Sealed(old(order), Flatten(datagrams) + unsent)
      ensures Reach(outgoing, old(Here()), Flatten(datagrams)).Some?
      ensures result != SealFailed ==> Reach(outgoing, old(Here()), Flatten(datagrams)) == Some(Here())
      ensures result == Sent || result == FlushFailed ==> Here() == Position(|outgoing|, 0)
      ensures result == WriteFailed ==> !net(|datagrams|) && written < |outgoing|
      ensures result == FlushFailed ==> !flushOk
      ensures result == SealFailed ==> Unsealable(mtu) || TooSmall(mtu)
    {
      complete := true;
      result, datagrams, unsent := SendFlight(mtu, net, flushOk);
    }

    /** dtls1_retransmit_outgoing_messages: the whole flight again, from its start. */
    method Retransmit(mtu: nat, net: nat -> bool, flushOk: bool)
      returns (result: FlightResult, datagrams: seq<seq<Record>>, ghost unsent: seq<Record>)
      requires Valid()
      modifies this`written, this`offset, this`recordSeq, this`lastRecordSeq, this`used, this`order, this`wrapped
      ensures RecordsOk() && PositionOk(outgoing, Here()) && (wrapped == old(wrapped) || (wrapped && result == SealFailed))
      ensures order == Sealed(old(order), Flatten(datagrams) + unsent)
      ensures Reach(outgoing, Position(0, 0), Flatten(datagrams)).Some?
      ensures result != SealFailed ==> Reach(outgoing, Position(0, 0), Flatten(datagrams)) == Some(Here())
      ensures result == Sent || result == FlushFailed ==> Here() == Position(|outgoing|, 0)
      ensures result == WriteFailed ==> !net(|datagrams|) && written < |outgoing|
      ensures result == FlushFailed ==> !flushOk
      ensures result == SealFailed ==> Unsealable(mtu) || TooSmall(mtu)
    {
      written, offset := 0, 0;
      result, datagrams, unsent := SendFlight(mtu, net, flushOk);
    }

    /** dtls_clear_outgoing_messages. */
    method ClearFlight()
      requires Valid()
      modifies this`outgoing, this`written, this`offset, this`complete
      ensures QueueOk() && PositionOk(outgoing, Here()) && outgoing == [] && Here() == Position(0, 0) && !complete
    {
      outgoing, written, offset, complete := [], 0, 0, false;
    }

    /** add_outgoing. A new flight begins once the previous one has been flushed. */
    method AddOutgoing(item: Item) returns (ok: bool)
      requires Valid() && ItemOk(item)
      requires item.MessageItem? ==> |sent| < 0x1_0000 && item.seqNum == |sent|
      modifies this`outgoing, this`written, this`offset, this`complete, this`writeSeq, this`sent
      ensures QueueOk() && PositionOk(outgoing, Here()) && !complete
      ensures ok <==> old(complete) || |old(outgoing)| < 7
      ensures sent == old(sent) + if ok && item.MessageItem? then [item.msg] else []
      ensures outgoing == (if old(complete) then [] else old(outgoing)) + (if ok then [item] else [])
      ensures Here() == if old(complete) then Position(0, 0) else old(Here())
    {
      if complete {
        ClearFlight();
      }
      if |outgoing| >= MAX_FLIGHT {
        return false;
      }
      ExtendFlight(outgoing, sent, item);
      if item.MessageItem? {
        writeSeq := (writeSeq + 1) % 0x1_0000;
        sent := sent + [item.msg];
      }
      outgoing := outgoing + [item];
      return true;
    }

    /** dtls1_init_message, dtls1_finish_message and dtls1_add_message. */
    method AddMessage(ty: byte, body: seq<byte>) returns (ok: bool)
      requires Valid() && |sent| < 0x1_0000
      modifies this`outgoing, this`written, this`offset, this`complete, this`writeSeq, this`sent
      ensures QueueOk() && PositionOk(outgoing, Here())
      ensures ok <==> |body| < 0x100_0000 && (old(complete) || |old(outgoing)| < 7)
      ensures sent == old(sent) + if ok then [Message(ty, body)] else []
      ensures ok ==> outgoing == (if old(complete) then [] else old(outgoing)) + [MessageItem(wEpoch, |old(sent)|, Message(ty, body))]
      ensures ok ==> Here() == if old(complete) then Position(0, 0) else old(Here())
    {
      if |body| >= 0x100_0000 {
        return false;
      }
      ok := AddOutgoing(MessageItem(wEpoch, writeSeq, Message(ty, body)));
    }

    /** dtls1_add_change_cipher_spec. */
    method AddChangeCipherSpec() returns (ok: bool)
      requires Valid()
      modifies this`outgoing, this`written, this`offset, this`complete, this`writeSeq, this`sent
      ensures QueueOk() && PositionOk(outgoing, Here()) && sent == old(sent)
      ensures ok <==> old(complete) || |old(outgoing)| < 7
      ensures ok ==> outgoing == (if old(complete) then [] else old(outgoing)) + [CcsItem(wEpoch)]
    {
      ok := AddOutgoing(CcsItem(wEpoch));
    }

    /** dtls1_set_write_state: a new epoch with its own numbers; the previous one stays usable for retransmission. */
    method SetWriteState(next: Cipher)
      requires Valid() && wEpoch + 1 < 0x1_0000
      modifies this`wEpoch, this`recordSeq, this`lastRecordSeq, this`cipher, this`lastCipher
      ensures RecordsOk() && wEpoch == old(wEpoch) + 1
      ensures recordSeq == 0 && lastRecordSeq == old(recordSeq) && cipher == next && lastCipher == old(cipher)
    {
      wEpoch := wEpoch + 1;
      lastRecordSeq, recordSeq := recordSeq, 0;
      lastCipher, cipher := cipher, next;
    }
  }
}
