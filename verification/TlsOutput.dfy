/**
  The TLS output path (s3_both.cc, s3_pkt.cc): records are sealed into a pending flight of
  handshake data or into the write buffer, and leave for a transport that may take any
  part of what it is given. Sealing is an oracle of which only the length is known.
 */
module TlsOutput {
  import opened Bytes
  import opened TlsBuffer

  const CCS := 20
  const ALERT := 21
  const HANDSHAKE := 22
  const APP_DATA := 23
  const MAX_PLAIN := 16384
  const MIN_FRAGMENT := 512
  const INT_MAX := 0x7fff_ffff

  /** A sealed record: what went in and what came out. */
  datatype Record = Record(kind: nat, plain: seq<byte>, cipher: seq<byte>)

  /** All that was ever sealed, in sealing order. */
  function Stream(rs: seq<Record>): seq<byte> {
    if rs == [] then [] else Stream(rs[..|rs| - 1]) + rs[|rs| - 1].cipher
  }

  /** The plaintexts of one kind, in sealing order. */
  function Plain(rs: seq<Record>, kind: nat): seq<byte> {
    if rs == [] then []
    else if rs[|rs| - 1].kind == kind then Plain(rs[..|rs| - 1], kind) + rs[|rs| - 1].plain
    else Plain(rs[..|rs| - 1], kind)
  }

  lemma Sealed(rs: seq<Record>, r: Record, kind: nat)
    ensures Stream(rs + [r]) == Stream(rs) + r.cipher
    ensures Plain(rs + [r], kind) == if r.kind == kind then Plain(rs, kind) + r.plain else Plain(rs, kind)
  {
    assert (rs + [r])[..|rs|] == rs;
  }

  lemma Joined(a: seq<byte>, b: seq<byte>, c: seq<byte>)
    ensures (a + b) + c == a + (b + c)
  {
  }

  /** Opens the definition of Total; the sum of the parts is used in the lemmas below and nowhere else. */
  ghost predicate Open(x: int) {
    true
  }

  /** The three parts one behind the other are the whole. */
  ghost predicate Total(wire: seq<byte>, data: seq<byte>, unsent: seq<byte>, stream: seq<byte>) {
    forall x: int {:trigger Open(x)} :: Open(x) ==> wire + data + unsent == stream
  }

  lemma TotalIs(wire: seq<byte>, data: seq<byte>, unsent: seq<byte>, stream: seq<byte>)
    ensures Total(wire, data, unsent, stream) <==> wire + data + unsent == stream
  {
    assert Open(0);
  }

  lemma StoredInBuffer(wire: seq<byte>, data: seq<byte>, c: seq<byte>, stream: seq<byte>)
    requires Total(wire, data, [], stream)
    ensures Total(wire, data + c, [], stream + c)
  {
    TotalIs(wire, data, [], stream);
    assert wire + (data + c) + [] == (wire + data + []) + c;
  }

  lemma StoredInFlight(wire: seq<byte>, data: seq<byte>, unsent: seq<byte>, c: seq<byte>, stream: seq<byte>)
    requires Total(wire, data, unsent, stream)
    ensures Total(wire, data, unsent + c, stream + c)
  {
    TotalIs(wire, data, unsent, stream);
    assert wire + data + (unsent + c) == (wire + data + unsent) + c;
  }

  lemma TakenOver(wire: seq<byte>, data: seq<byte>, unsent: seq<byte>, stream: seq<byte>)
    requires Total(wire, data, unsent, stream) && data == []
    ensures Total(wire, unsent, [], stream)
  {
    TotalIs(wire, data, unsent, stream);
    assert wire + unsent + [] == wire + data + unsent;
  }

  /** Bytes move from the buffer to the wire. */
  lemma BufferFlushed(wire: seq<byte>, data: seq<byte>, wire': seq<byte>, data': seq<byte>, unsent: seq<byte>, stream: seq<byte>)
    requires Total(wire, data, unsent, stream) && wire' + data' == wire + data
    ensures Total(wire', data', unsent, stream)
  {
    TotalIs(wire, data, unsent, stream);
    TotalIs(wire', data', unsent, stream);
  }

  /** Bytes move from the flight to the wire. */
  lemma FlightFlushed(wire: seq<byte>, data: seq<byte>, unsent: seq<byte>, n: nat, stream: seq<byte>)
    requires Total(wire, data, unsent, stream) && data == [] && n <= |unsent|
    ensures Total(wire + unsent[..n], data, unsent[n..], stream)
  {
    TotalIs(wire, data, unsent, stream);
    assert wire + unsent[..n] + data + unsent[n..] == wire + data + unsent;
  }

  /** The bytes from one place to another, if these are places of the data in order. */
  function Slice(data: seq<byte>, from: nat, to: nat): seq<byte> {
    if from <= to <= |data| then data[from..to] else []
  }

  lemma NextSlice(base: seq<byte>, data: seq<byte>, from: nat, mid: nat, to: nat)
    requires from <= mid <= to <= |data|
    ensures (base + Slice(data, from, mid)) + Slice(data, mid, to) == base + Slice(data, from, to)
  {
    assert data[from..mid] + data[mid..to] == data[from..to];
  }

  /** Opens the definition of LogOk. */
  ghost predicate OpenLog(x: int) {
    true
  }

  /** Opens the definition of DataSealed. */
  ghost predicate OpenData(x: int) {
    true
  }

  /** From one log to a later one, only application data was sealed: the bytes of `data` from one place to another. */
  ghost predicate DataSealed(records: seq<Record>, app: seq<byte>, records': seq<Record>, app': seq<byte>, data: seq<byte>, from: nat, to: nat) {
    forall x: int {:trigger OpenData(x)} :: OpenData(x) ==>
      records <= records' && AllOf(APP_DATA, |records|, records') && app' == app + Slice(data, from, to)
  }

  ghost predicate AllOf(kind: nat, from: nat, records: seq<Record>) {
    forall k :: from <= k < |records| ==> records[k].kind == kind
  }

  lemma DataSealedNone(records: seq<Record>, app: seq<byte>, data: seq<byte>, from: nat, to: nat)
    requires from >= to
    ensures DataSealed(records, app, records, app, data, from, to)
  {
    assert Slice(data, from, to) == [];
    assert app + [] == app;
  }

  lemma DataSealedOne(records: seq<Record>, app: seq<byte>, r: Record, data: seq<byte>, from: nat, to: nat)
    requires r.kind == APP_DATA && r.plain == Slice(data, from, to)
    ensures DataSealed(records, app, records + [r], app + r.plain, data, from, to)
  {
  }

  lemma DataSealedMore(records: seq<Record>, app: seq<byte>, records': seq<Record>, app': seq<byte>, records'': seq<Record>, app'': seq<byte>,
                       data: seq<byte>, from: nat, mid: nat, to: nat)
    requires from <= mid <= to <= |data|
    requires DataSealed(records, app, records', app', data, from, mid) && DataSealed(records', app', records'', app'', data, mid, to)
    ensures DataSealed(records, app, records'', app'', data, from, to)
  {
    assert OpenData(0);
    NextSlice(app, data, from, mid, to);
  }

  // ----- refusals -----

  type Oracle = (nat, nat, seq<byte>) -> Option<seq<byte>>

  /** Sealing turns its n-th record down, or makes it longer than the overhead allows. */
  predicate Refuses(seal: Oracle, overhead: nat, n: nat, kind: nat, plain: seq<byte>) {
    var r := seal(n, kind, plain);
    r.None? || |r.value| > |plain| + overhead
  }

  /** Sealing may turn some record down. */
  ghost predicate Reluctant(seal: Oracle, overhead: nat) {
    exists n: nat, kind: nat, plain: seq<byte> :: Refuses(seal, overhead, n, kind, plain)
  }

  class Writer {
    const transport: Transport
    const buffer: SSLBuffer
    const seal: Oracle
    const maxFragment: nat
    const overhead: nat
    const alignPrefix: nat
    const movingBuffer: bool
    const partialWrite: bool

    var seals: nat
    var flight: Option<seq<byte>>
    var flightOffset: nat
    var shutdown: bool
    var alertDispatch: bool
    var alert: seq<byte>
    var written: nat
    var pending: bool
    var pendingLength: nat
    var pendingAddress: nat
    var pendingKind: nat
    var pendingResult: nat
    ghost var records: seq<Record>
    ghost var stream: seq<byte>
    ghost var appData: seq<byte>
    ghost var handshakeData: seq<byte>
    ghost var gap: bool

    /** The running totals of the records sealed so far. */
    ghost predicate LogOk()
      reads this`records, this`stream, this`appData, this`handshakeData
    {
      forall x: int {:trigger OpenLog(x)} :: OpenLog(x) ==>
        stream == Stream(records) && appData == Plain(records, APP_DATA) && handshakeData == Plain(records, HANDSHAKE)
    }

    /** The part of the flight that the transport has not taken. */
    function Unsent(): (u: seq<byte>)
      requires flight.Some? ==> flightOffset <= |flight.value|
      reads this`flight, this`flightOffset
    {
      if flight.Some? then flight.value[flightOffset..] else []
    }

    /** flight_len of do_ssl3_write. */
    function FlightLength(): (n: nat)
      requires flight.Some? ==> flightOffset <= |flight.value|
      reads this`flight, this`flightOffset
      ensures n == |Unsent()|
    {
      if flight.Some? then |flight.value| - flightOffset else 0
    }

    ghost predicate FlightOk()
      reads this`flight, this`flightOffset
    {
      if flight.Some? then flightOffset <= |flight.value| else flightOffset == 0
    }

    ghost predicate PendingOk()
      reads this`pending, this`pendingLength, this`pendingResult
    {
      pending ==> pendingLength == pendingResult > 0
    }

    ghost predicate ConfigOk() {
      MIN_FRAGMENT <= maxFragment <= MAX_PLAIN && maxFragment + overhead + ALIGN - 1 <= MAX_16
    }

    /**
      Conservation: what is on the wire, in the buffer and in the flight is all that was
      sealed, in order, unless the write buffer was once asked for an unsafe capacity.
     */
    ghost predicate Conserved()
      requires buffer.Valid() && FlightOk()
      reads this`flight, this`flightOffset, this`stream, this`gap, transport, buffer, buffer.buf
    {
      !gap ==> buffer.Exact() && Total(transport.wire, buffer.Data(), Unsent(), stream)
    }

    ghost predicate Valid()
      reads this`flight, this`flightOffset, this`pending, this`pendingLength, this`pendingResult,
            this`records, this`stream, this`appData, this`handshakeData, this`gap, transport, buffer, buffer.buf
    {
      ConfigOk() && buffer.Valid() && FlightOk() && PendingOk() && LogOk() && Conserved()
    }

    constructor (transport: Transport, buffer: SSLBuffer, seal: Oracle,
                 maxFragment: nat, overhead: nat, alignPrefix: nat, movingBuffer: bool, partialWrite: bool)
      requires transport.wire == [] && buffer.Valid() && buffer.Exact() && buffer.Data() == []
      requires MIN_FRAGMENT <= maxFragment <= MAX_PLAIN && maxFragment + overhead + ALIGN - 1 <= MAX_16
      ensures Valid() && records == [] && !pending && written == 0 && !gap
    {
      this.transport, this.buffer, this.seal := transport, buffer, seal;
      this.maxFragment, this.overhead, this.alignPrefix := maxFragment, overhead, alignPrefix;
      this.movingBuffer, this.partialWrite := movingBuffer, partialWrite;
      seals, flight, flightOffset, shutdown, alertDispatch, alert := 0, None, 0, false, false, [];
      written, pending, pendingLength, pendingAddress, pendingKind, pendingResult := 0, false, 0, 0, 0, 0;
      records, stream, appData, handshakeData, gap := [], [], [], [], false;
      new;
      TotalIs(transport.wire, buffer.Data(), Unsent(), stream);
    }

    lemma LogIs()
      requires LogOk()
      ensures stream == Stream(records) && appData == Plain(records, APP_DATA) && handshakeData == Plain(records, HANDSHAKE)
    {
      assert OpenLog(0);
    }

    /** A record has been sealed. */
    ghost method Log(kind: nat, plain: seq<byte>, cipher: seq<byte>)
      requires LogOk()
      modifies this`records, this`stream, this`appData, this`handshakeData
      ensures LogOk() && records == old(records) + [Record(kind, plain, cipher)] && stream == old(stream) + cipher
      ensures appData == if kind == APP_DATA then old(appData) + plain else old(appData)
      ensures handshakeData == if kind == HANDSHAKE then old(handshakeData) + plain else old(handshakeData)
    {
      assert OpenLog(0);
      var r := Record(kind, plain, cipher);
      Sealed(records, r, APP_DATA);
      Sealed(records, r, HANDSHAKE);
      records, stream := records + [r], stream + cipher;
      appData := if kind == APP_DATA then appData + plain else appData;
      handshakeData := if kind == HANDSHAKE then handshakeData + plain else handshakeData;
    }

    /** Exactly one record was sealed, of that kind and contents. */
    twostate predicate SealedOne(kind: nat, plain: seq<byte>)
      reads this`records, this`appData, this`handshakeData
    {
      && |records| == |old(records)| + 1 && records == old(records) + [Record(kind, plain, records[|old(records)|].cipher)]
      && appData == (if kind == APP_DATA then old(appData) + plain else old(appData))
      && handshakeData == (if kind == HANDSHAKE then old(handshakeData) + plain else old(handshakeData))
    }

    /** No record was sealed. */
    twostate predicate SealedNone()
      reads this`records, this`appData, this`handshakeData
    {
      records == old(records) && appData == old(appData) && handshakeData == old(handshakeData)
    }

    /** tls_seal_record: fails, or yields at most maxOut bytes. */
    method SealRecord(kind: nat, plain: seq<byte>, maxOut: nat) returns (r: Option<seq<byte>>)
      modifies this`seals
      ensures r.Some? ==> |r.value| <= maxOut && r == seal(old(seals), kind, plain)
      ensures r.None? && |plain| + overhead <= maxOut ==> Refuses(seal, overhead, old(seals), kind, plain)
      ensures seals == old(seals) + if r.Some? then 1 else 0
    {
      r := seal(seals, kind, plain);
      if r.Some? && |r.value| > maxOut {
        r := None;
      }
      if r.Some? {
        seals := seals + 1;
      }
    }

    // ----- the pending flight -----

    /** add_record_to_flight. */
    method AddRecord(kind: nat, plain: seq<byte>) returns (ok: bool)
      requires Valid() && flightOffset == 0
      modifies this`seals, this`flight, this`records, this`stream, this`appData, this`handshakeData
      ensures FlightOk() && LogOk() && Conserved()
      ensures if ok then SealedOne(kind, plain) else SealedNone() && Refuses(seal, overhead, old(seals), kind, plain)
    {
      if flight.None? {
        flight := Some([]);
      }
      var c := SealRecord(kind, plain, |plain| + overhead);
      if c.None? {
        return false;
      }
      StoreInFlight(kind, plain, c.value);
      ok := true;
    }

    /** A sealed record joins the flight. */
    method StoreInFlight(kind: nat, plain: seq<byte>, cipher: seq<byte>)
      requires Valid() && flight.Some? && flightOffset == 0
      modifies this`flight, this`records, this`stream, this`appData, this`handshakeData
      ensures FlightOk() && LogOk() && Conserved() && SealedOne(kind, plain)
    {
      if !gap {
        StoredInFlight(transport.wire, buffer.Data(), Unsent(), cipher, stream);
      }
      flight := Some(flight.value + cipher);
      Log(kind, plain, cipher);
    }

    /** ssl3_add_message: the message is cut into records of at most maxFragment bytes. */
    method AddMessage(msg: seq<byte>) returns (ok: bool)
      requires Valid() && flightOffset == 0
      modifies this`seals, this`flight, this`records, this`stream, this`appData, this`handshakeData
      ensures Valid() && old(records) <= records && appData == old(appData)
      ensures forall k :: |old(records)| <= k < |records| ==> records[k].kind == HANDSHAKE && |records[k].plain| <= maxFragment
      ensures forall k :: |old(records)| <= k < |records| - 1 ==> |records[k].plain| == maxFragment
      ensures old(handshakeData) <= handshakeData <= old(handshakeData) + msg
      ensures if ok then handshakeData == old(handshakeData) + msg else Reluctant(seal, overhead)
    {
      var rest, more := msg, true;
      while more
        invariant Valid() && flightOffset == 0 && old(records) <= records && appData == old(appData) && (!more ==> rest == [])
        invariant forall k :: |old(records)| <= k < |records| ==> records[k].kind == HANDSHAKE && |records[k].plain| <= maxFragment
        invariant forall k :: |old(records)| <= k < |records| - (if more then 0 else 1) ==> |records[k].plain| == maxFragment
        invariant handshakeData + rest == old(handshakeData) + msg && old(handshakeData) <= handshakeData
        decreases more, |rest|
      {
        var n := if |rest| > maxFragment then maxFragment else |rest|;
        assert rest == rest[..n] + rest[n..];
        Joined(handshakeData, rest[..n], rest[n..]);
        ok := AddRecord(HANDSHAKE, rest[..n]);
        if !ok {
          return false;
        }
        rest := rest[n..];
        more := rest != [];
      }
      ok := true;
    }

    /** ssl3_add_change_cipher_spec. */
    method AddChangeCipherSpec() returns (ok: bool)
      requires Valid() && flightOffset == 0
      modifies this`seals, this`flight, this`records, this`stream, this`appData, this`handshakeData
      ensures Valid() && if ok then SealedOne(CCS, [1]) else SealedNone() && Refuses(seal, overhead, old(seals), CCS, [1])
    {
      ok := AddRecord(CCS, [1]);
    }

    /** ssl3_add_alert. */
    method AddAlert(level: byte, desc: byte) returns (ok: bool)
      requires Valid() && flightOffset == 0
      modifies this`seals, this`flight, this`records, this`stream, this`appData, this`handshakeData
      ensures Valid() && if ok then SealedOne(ALERT, [level, desc]) else SealedNone() && Refuses(seal, overhead, old(seals), ALERT, [level, desc])
    {
      ok := AddRecord(ALERT, [level, desc]);
    }

    /** The state of the buffer's array after an operation: gone, kept or newly allocated. */
    twostate predicate BufferOwned()
      reads buffer`buf
    {
      buffer.buf == null || buffer.buf == old(buffer.buf) || fresh(buffer.buf)
    }

    /** What is on the wire stays there. */
    twostate predicate WireKept()
      reads transport`wire
    {
      old(transport.wire) <= transport.wire
    }

    /** ssl_write_buffer_flush. */
    method FlushWriteBuffer() returns (ret: int)
      requires Valid()
      modifies transport, buffer
      ensures Valid() && BufferOwned() && WireKept() && (ret > 0 ==> buffer.buf == null) && (ret <= 0 ==> transport.Refused())
    {
      ghost var wire, data := transport.wire, buffer.Data();
      ret := FlushBuffer(buffer, transport);
      if !gap {
        BufferFlushed(wire, data, transport.wire, buffer.Data(), Unsent(), stream);
      }
    }

    /** One write of the rest of the flight. */
    method WriteFlightOnce() returns (n: int)
      requires Valid() && flight.Some? && flightOffset < |flight.value| && buffer.size == 0
      modifies transport, this`flightOffset
      ensures Valid() && WireKept() && (n > 0 ==> flightOffset > old(flightOffset))
      ensures n <= 0 ==> flightOffset == old(flightOffset) && transport.Refused()
    {
      ghost var wire, unsent := transport.wire, Unsent();
      n := transport.Write(flight.value[flightOffset..]);
      if n > 0 {
        if !gap {
          FlightFlushed(wire, buffer.Data(), unsent, n, stream);
        }
        flightOffset := flightOffset + n;
        assert Unsent() == unsent[n..];
      }
    }

    /** ssl3_flush_flight: first the write buffer, then the flight, in any number of partial writes. */
    method FlushFlight() returns (ret: int)
      requires Valid()
      modifies transport, buffer, this`flight, this`flightOffset
      ensures Valid() && BufferOwned() && WireKept()
      ensures ret > 0 ==> flight.None? && (old(flight).Some? ==> buffer.size == 0)
      ensures old(buffer.size) == 0 ==> buffer.size == 0
      ensures ret <= 0 ==> old(flight).Some? && (shutdown || |old(flight).value| > INT_MAX || transport.Refused())
    {
      if flight.None? {
        return 1;
      }
      if shutdown || |flight.value| > INT_MAX {
        return -1;
      }
      if buffer.size > 0 {
        ret := FlushWriteBuffer();
        if ret <= 0 {
          return;
        }
      }
      while flightOffset < |flight.value|
        invariant Valid() && flight == old(flight) && buffer.size == 0 && BufferOwned() && WireKept()
        decreases |flight.value| - flightOffset
      {
        ret := WriteFlightOnce();
        if ret <= 0 {
          return;
        }
      }
      var flushed := transport.Flush();
      if flushed <= 0 {
        return -1;
      }
      flight, flightOffset := None, 0;
      ret := 1;
    }

    // ----- the write buffer -----

    /** The flight is as before, or has been taken over by the write buffer. */
    twostate predicate FlightKept()
      reads this`flight, this`flightOffset
    {
      flight.None? || (flight == old(flight) && flightOffset == old(flightOffset))
    }

    /** A retry offers less than is pending, another kind, or another place although the buffer may not move. */
    ghost predicate BadRetry(kind: nat, address: nat, length: nat)
      reads this`pendingLength, this`pendingAddress, this`pendingKind
    {
      length < pendingLength || kind != pendingKind || (address != pendingAddress && !movingBuffer)
    }

    /** ssl3_write_pending: a retry must offer at least as much, of the same kind, from the same place unless the buffer may move. */
    method WritePending(kind: nat, address: nat, length: nat) returns (ret: int)
      requires Valid() && pending
      modifies transport, buffer, this`pending
      ensures Valid() && BufferOwned() && WireKept()
      ensures ret > 0 ==> !pending && ret == pendingResult && kind == pendingKind && pendingLength <= length && buffer.size == 0
      ensures ret <= 0 ==> pending
      ensures ret <= 0 ==> BadRetry(kind, address, length) || transport.Refused()
      ensures BadRetry(kind, address, length) ==> ret < 0 && transport.wire == old(transport.wire) && buffer.Data() == old(buffer.Data())
    {
      if pendingLength > length || (!movingBuffer && pendingAddress != address) || pendingKind != kind {
        return -1;
      }
      ret := FlushWriteBuffer();
      if ret <= 0 {
        return;
      }
      pending := false;
      ret := pendingResult;
    }

    /** The unsent flight becomes the front of the write buffer. */
    method AdoptFlight(maxOut: nat) returns (ok: bool)
      requires Valid() && buffer.size == 0 && FlightLength() <= maxOut
      modifies buffer, buffer.buf, this`flight, this`flightOffset, this`gap
      ensures gap == (old(gap) || !SafeCap(maxOut))
      ensures buffer.Valid() && FlightOk() && Conserved() && BufferOwned() && FlightKept()
      ensures ok ==> flight.None? && buffer.size == old(FlightLength()) && buffer.cap >= maxOut
      ensures !ok ==> buffer.size == 0
      ensures ok == (maxOut <= MAX_16)
    {
      gap := gap || !SafeCap(maxOut);
      if !gap {
        TakenOver(transport.wire, buffer.Data(), Unsent(), stream);
      }
      ok := buffer.Refill(FlightLength() + alignPrefix, maxOut, Unsent());
      if ok {
        flight, flightOffset := None, 0;
      }
    }

    /** Seals one record into the write buffer. */
    method SealIntoBuffer(kind: nat, plain: seq<byte>) returns (ok: bool)
      requires Valid() && flight.None? && buffer.size + |plain| + overhead <= buffer.cap
      modifies buffer, buffer.buf, this`seals, this`records, this`stream, this`appData, this`handshakeData
      ensures buffer.Valid() && LogOk() && Conserved() && buffer.buf == old(buffer.buf)
      ensures if ok then SealedOne(kind, plain) else SealedNone() && Refuses(seal, overhead, old(seals), kind, plain)
    {
      var c := SealRecord(kind, plain, buffer.cap - buffer.size);
      if c.None? {
        return false;
      }
      if !gap {
        StoredInBuffer(transport.wire, buffer.Data(), c.value, stream);
      }
      buffer.Append(c.value);
      Log(kind, plain, c.value);
      ok := true;
    }

    /** The capacity for a record behind that much of the flight is above 16 bits. */
    predicate TooLarge(length: nat, flightLength: nat) {
      length + overhead + flightLength > MAX_16
    }

    /** Seals a new record behind what is left of the flight. */
    method SealBehindFlight(kind: nat, plain: seq<byte>) returns (ok: bool)
      requires Valid() && buffer.size == 0
      modifies buffer, buffer.buf, this`seals, this`records, this`stream, this`appData, this`handshakeData,
               this`gap, this`flight, this`flightOffset
      ensures buffer.Valid() && FlightOk() && LogOk() && Conserved() && BufferOwned() && FlightKept()
      ensures gap == (old(gap) || !SafeCap(|plain| + overhead + old(FlightLength())))
      ensures if ok then SealedOne(kind, plain) && flight.None? else SealedNone()
      ensures !ok ==> Refuses(seal, overhead, old(seals), kind, plain) || TooLarge(|plain|, old(FlightLength()))
      ensures TooLarge(|plain|, old(FlightLength())) ==> !ok && buffer.size == 0
    {
      ok := AdoptFlight(|plain| + overhead + FlightLength());
      if ok {
        ok := SealIntoBuffer(kind, plain);
      }
    }

    /** A new record, which is memorized as pending. */
    method SealNew(kind: nat, address: nat, plain: seq<byte>) returns (ok: bool)
      requires Valid() && !pending && buffer.size == 0 && 0 < |plain|
      modifies buffer, buffer.buf, this`seals, this`records, this`stream, this`appData, this`handshakeData,
               this`gap, this`flight, this`flightOffset, this`pending, this`pendingLength, this`pendingAddress, this`pendingKind, this`pendingResult
      ensures Valid() && BufferOwned() && FlightKept() && pending == ok
      ensures gap == (old(gap) || !SafeCap(|plain| + overhead + old(FlightLength())))
      ensures ok ==> SealedOne(kind, plain) && flight.None?
      ensures ok ==> pendingLength == pendingResult == |plain| && pendingKind == kind && pendingAddress == address
      ensures !ok ==> SealedNone()
      ensures !ok ==> Refuses(seal, overhead, old(seals), kind, plain) || TooLarge(|plain|, old(FlightLength()))
      ensures TooLarge(|plain|, old(FlightLength())) ==> !ok && buffer.size == 0
    {
      ok := SealBehindFlight(kind, plain);
      if ok {
        Memorize(kind, address, |plain|);
      }
    }

    method Memorize(kind: nat, address: nat, length: nat)
      requires length > 0
      modifies this`pending, this`pendingLength, this`pendingAddress, this`pendingKind, this`pendingResult
      ensures PendingOk() && pending && pendingLength == pendingResult == length && pendingKind == kind && pendingAddress == address
    {
      pendingLength, pendingAddress, pendingKind, pendingResult := length, address, kind, length;
      pending := true;
    }

    /** Nothing can be sealed: there are no bytes or too many, the write buffer is in use, or the capacity is above 16 bits. */
    ghost predicate NoRecord(length: nat)
      requires flight.Some? ==> flightOffset <= |flight.value|
      reads buffer`size, this`flight, this`flightOffset
    {
      length == 0 || length > 16384 || buffer.size > 0 || TooLarge(length, FlightLength())
    }

    /**
      do_ssl3_write for a new record: one record is sealed, and it is pending until it is
      flushed, unless there is no place for it or sealing refuses it.
     */
    method WriteNew(kind: nat, address: nat, plain: seq<byte>) returns (ret: int)
      requires Valid() && !pending
      modifies transport, buffer, buffer.buf, this`seals, this`records, this`stream, this`appData, this`handshakeData,
               this`gap, this`flight, this`flightOffset, this`pending, this`pendingLength, this`pendingAddress, this`pendingKind, this`pendingResult
      ensures Valid() && BufferOwned() && FlightKept() && WireKept()
      ensures gap ==> old(gap) || !SafeCap(|plain| + overhead + old(FlightLength()))
      ensures ret > 0 ==> !pending && ret == |plain| && flight.None?
      ensures ret > 0 || pending ==> SealedOne(kind, plain)
      ensures ret <= 0 && !pending ==> SealedNone()
      ensures pending ==> pendingResult == |plain| && pendingKind == kind && transport.Refused()
      ensures ret <= 0 && !pending ==> old(NoRecord(|plain|)) || Refuses(seal, overhead, old(seals), kind, plain)
      ensures old(NoRecord(|plain|)) ==> ret <= 0 && !pending && buffer.size == old(buffer.size)
      ensures ret > 0 ==> buffer.size == 0
    {
      if |plain| > MAX_PLAIN || buffer.size > 0 {
        return -1;
      }
      if |plain| == 0 {
        return 0;
      }
      var ok := SealNew(kind, address, plain);
      if !ok {
        return -1;
      }
      ret := WritePending(kind, address, |plain|);
    }

    /** do_ssl3_write. */
    method DoWrite(kind: nat, address: nat, plain: seq<byte>) returns (ret: int)
      requires Valid()
      modifies transport, buffer, buffer.buf, this`seals, this`records, this`stream, this`appData, this`handshakeData,
               this`gap, this`flight, this`flightOffset, this`pending, this`pendingLength, this`pendingAddress, this`pendingKind, this`pendingResult
      ensures Valid() && BufferOwned() && FlightKept() && WireKept()
      ensures gap ==> old(gap) || (!old(pending) && !SafeCap(|plain| + overhead + old(FlightLength())))
      ensures ret > 0 ==> !pending && (old(pending) || flight.None?)
      ensures old(pending) ==> SealedNone() && pendingResult == old(pendingResult) && pendingKind == old(pendingKind)
      ensures old(pending) && ret > 0 ==> ret == old(pendingResult) <= |plain| && kind == old(pendingKind)
      ensures old(pending) && ret <= 0 ==> pending
      ensures !old(pending) && ret > 0 ==> ret == |plain|
      ensures !old(pending) && (ret > 0 || pending) ==> SealedOne(kind, plain)
      ensures !old(pending) && ret <= 0 && !pending ==> SealedNone()
      ensures !old(pending) && pending ==> pendingResult == |plain| && pendingKind == kind && transport.Refused()
      ensures old(pending) && ret <= 0 ==> old(BadRetry(kind, address, |plain|)) || transport.Refused()
      ensures !old(pending) && ret <= 0 && !pending ==> old(NoRecord(|plain|)) || Refuses(seal, overhead, old(seals), kind, plain)
      ensures !old(pending) && old(NoRecord(|plain|)) ==> ret <= 0 && !pending && buffer.size == old(buffer.size)
      ensures ret > 0 ==> buffer.size == 0
    {
      if pending {
        ret := WritePending(kind, address, |plain|);
      } else {
        ret := WriteNew(kind, address, plain);
      }
    }

    // ----- application data -----

    /** The bytes of a blocked application write that are sealed but not yet reported. */
    function PendingData(): nat
      reads this`pending, this`pendingKind, this`pendingResult
    {
      if pending && pendingKind == APP_DATA then pendingResult else 0
    }

    /** A write of `data` is under way, or not begun: behind `base`, just its first bytes have been sealed. */
    ghost predicate InProgress(base: seq<byte>, data: seq<byte>)
      reads this`written, this`pending, this`pendingKind, this`pendingResult, this`appData
    {
      written + PendingData() <= |data| && appData == base + data[..written + PendingData()]
    }

    /** Only application data was sealed: the bytes of `data` from one place to another. */
    twostate predicate SealedData(data: seq<byte>, from: nat, to: nat)
      reads this`records, this`appData, this`handshakeData
    {
      handshakeData == old(handshakeData) && DataSealed(old(records), old(appData), records, appData, data, from, to)
    }

    /** The bytes of `data` that the next record takes, at most. */
    function ChunkSize(data: seq<byte>, tot: nat): (n: nat)
      requires tot <= |data|
      ensures n <= maxFragment && tot + n <= |data|
    {
      if |data| - tot > maxFragment then maxFragment else |data| - tot
    }

    /** The capacity that a write of `data` asks for while the flight is not yet taken over; later records need less. */
    function DataRequest(data: seq<byte>, at: nat): nat
      requires flight.Some? ==> flightOffset <= |flight.value|
      reads this`flight, this`flightOffset
    {
      if |data| < at then 0 else ChunkSize(data, at) + overhead + FlightLength()
    }

    /** How far a write has come: what is reported, or what is written and what is pending. */
    ghost function Came(tot: nat, ret: int): nat
      reads this`pending, this`pendingKind, this`pendingResult
    {
      if ret > 0 then tot + ret else tot + PendingData()
    }

    /** The transport has turned the pending record down, or sealing may refuse. */
    ghost predicate Hindered()
      reads this`pending, transport`calls
    {
      (pending && transport.Refused()) || Reluctant(seal, overhead)
    }

    /** Nothing comes of a write of `data` from this place: it is no retry of what is pending, or there is nothing to seal or no place for it. */
    ghost predicate Blocked(data: seq<byte>, address: nat, at: nat)
      requires at <= |data| && (flight.Some? ==> flightOffset <= |flight.value|)
      reads buffer`size, this`flight, this`flightOffset, this`pending, this`pendingLength, this`pendingAddress, this`pendingKind
    {
      if pending then BadRetry(APP_DATA, address + at, ChunkSize(data, at)) else NoRecord(ChunkSize(data, at))
    }

    /** The length of the record that a write from this place reports first. */
    ghost function FirstLength(data: seq<byte>, at: nat): nat
      requires at <= |data|
      reads this`pending, this`pendingResult
    {
      if pending then pendingResult else ChunkSize(data, at)
    }

    /** One record of application data: sealed and flushed, or the flush of the one that is pending. */
    method WriteChunk(data: seq<byte>, address: nat, tot: nat) returns (ret: int)
      requires Valid() && tot <= |data|
      modifies transport, buffer, buffer.buf, this`seals, this`records, this`stream, this`appData, this`handshakeData,
               this`gap, this`flight, this`flightOffset, this`pending, this`pendingLength, this`pendingAddress, this`pendingKind, this`pendingResult
      ensures Valid() && BufferOwned() && FlightKept() && WireKept()
      ensures gap ==> old(gap) || !SafeCap(old(DataRequest(data, tot + PendingData())))
      ensures ret > 0 ==> tot + ret <= |data| && !pending && (flight.None? || ret == old(PendingData()))
      ensures SealedData(data, tot + old(PendingData()), Came(tot, ret))
      ensures tot + old(PendingData()) <= |data| ==> tot + old(PendingData()) <= Came(tot, ret) <= |data|
      ensures ret > 0 ==> tot + old(PendingData()) <= |data|
      ensures ret > 0 ==> ret == old(FirstLength(data, tot)) && buffer.size == 0
      ensures ret <= 0 ==> Hindered() || old(Blocked(data, address, tot))
      ensures ret <= 0 && !Hindered() && !old(pending) ==> !pending && buffer.size == old(buffer.size)
    {
      var chunk := data[tot..tot + ChunkSize(data, tot)];
      ret := DoWrite(APP_DATA, address + tot, chunk);
      if !old(pending) && (ret > 0 || pending) {
        assert Came(tot, ret) == tot + |chunk|;
        DataSealedOne(old(records), old(appData), records[|old(records)|], data, tot, tot + |chunk|);
      } else {
        DataSealedNone(records, appData, data, tot + old(PendingData()), tot + old(PendingData()));
      }
    }

    /**
      ssl3_write_app_data. Each call seals just the bytes from where the last call came, in
      records of at most maxFragment bytes, up to where it reports to have come or where it
      is blocked.
     */
    method WriteAppData(data: seq<byte>, address: nat) returns (ret: int)
      requires Valid()
      modifies transport, buffer, buffer.buf, this`written, this`seals, this`records, this`stream, this`appData, this`handshakeData,
               this`gap, this`flight, this`flightOffset, this`pending, this`pendingLength, this`pendingAddress, this`pendingKind, this`pendingResult
      ensures Valid() && BufferOwned() && WireKept()
      ensures gap ==> old(gap) || !SafeCap(old(DataRequest(data, written + PendingData())))
      ensures ret > 0 ==> ret <= |data| && written == 0 && !pending
      ensures SealedData(data, old(written + PendingData()), if ret > 0 then ret else written + PendingData())
      ensures ret <= 0 && old(written + PendingData()) <= |data| ==> old(written + PendingData()) <= written + PendingData() <= |data|
      ensures ret > 0 ==> old(written + PendingData()) <= ret
      ensures ret > 0 ==> !shutdown && old(written) <= |data| && buffer.size == 0
      ensures ret > 0 ==> ret == if partialWrite then old(written + FirstLength(data, written)) else |data|
      ensures ret <= 0 ==>
        || shutdown || |data| < old(written) || Hindered()
        || old(Blocked(data, address, written)) || old(DataRequest(data, written + PendingData())) > MAX_16
      ensures ret <= 0 && !Hindered() && !old(pending) && old(buffer.size) == 0 ==> !pending && buffer.size == 0 && written <= old(written)
    {
      if shutdown || |data| < written {
        ret := RefuseWrite(data);
      } else {
        ret := WriteFrom(data, address, written);
      }
    }

    /** Nothing is written after the end, nor less than was begun; the latter ends the write. */
    method RefuseWrite(data: seq<byte>) returns (ret: int)
      requires shutdown || |data| < written
      modifies this`written
      ensures ret < 0 && written == (if shutdown then old(written) else 0) && written <= old(written)
      ensures DataSealed(records, appData, records, appData, data, old(written) + PendingData(), written + PendingData())
    {
      if !shutdown {
        written := 0;
      }
      DataSealedNone(records, appData, data, old(written) + PendingData(), written + PendingData());
      ret := -1;
    }

    /** The write from its old position on; a blocked write remembers how far it came. */
    method WriteFrom(data: seq<byte>, address: nat, start: nat) returns (ret: int)
      requires Valid() && start <= |data|
      modifies transport, buffer, buffer.buf, this`written, this`seals, this`records, this`stream, this`appData, this`handshakeData,
               this`gap, this`flight, this`flightOffset, this`pending, this`pendingLength, this`pendingAddress, this`pendingKind, this`pendingResult
      ensures Valid() && BufferOwned() && WireKept()
      ensures gap ==> old(gap) || !SafeCap(old(DataRequest(data, start + PendingData())))
      ensures ret > 0 ==> ret <= |data| && written == 0 && !pending
      ensures SealedData(data, start + old(PendingData()), if ret > 0 then ret else written + PendingData())
      ensures ret <= 0 && start + old(PendingData()) <= |data| ==> start + old(PendingData()) <= written + PendingData() <= |data|
      ensures ret > 0 ==> start + old(PendingData()) <= ret
      ensures ret > 0 ==> buffer.size == 0 && ret == if partialWrite then start + old(FirstLength(data, start)) else |data|
      ensures ret <= 0 ==> Hindered() || old(Blocked(data, address, start)) || old(DataRequest(data, start + PendingData())) > MAX_16
      ensures ret <= 0 && !Hindered() && !old(pending) && old(buffer.size) == 0 ==> !pending && buffer.size == 0 && written == start
    {
      var tot;
      ret, tot := WriteChunks(data, address, start);
      written := if ret <= 0 then tot else 0;
      if ret > 0 {
        ret := tot + ret;
      }
    }

    /** The loop: records until all is written, one is blocked, or one is enough. */
    method WriteChunks(data: seq<byte>, address: nat, start: nat) returns (ret: int, tot: nat)
      requires Valid() && start <= |data|
      modifies transport, buffer, buffer.buf, this`seals, this`records, this`stream, this`appData, this`handshakeData,
               this`gap, this`flight, this`flightOffset, this`pending, this`pendingLength, this`pendingAddress, this`pendingKind, this`pendingResult
      ensures Valid() && BufferOwned() && WireKept()
      ensures gap ==> old(gap) || !SafeCap(old(DataRequest(data, start + PendingData())))
      ensures ret > 0 ==> tot + ret <= |data| && !pending
      ensures SealedData(data, start + old(PendingData()), Came(tot, ret))
      ensures start + old(PendingData()) <= |data| ==> start + old(PendingData()) <= Came(tot, ret) <= |data|
      ensures ret > 0 ==> start + old(PendingData()) <= |data|
      ensures ret > 0 ==> buffer.size == 0 && tot + ret == if partialWrite then start + old(FirstLength(data, start)) else |data|
      ensures ret <= 0 ==> Hindered() || old(Blocked(data, address, start)) || old(DataRequest(data, start + PendingData())) > MAX_16
      ensures ret <= 0 && !Hindered() && !old(pending) && old(buffer.size) == 0 ==> !pending && buffer.size == 0 && tot == start
    {
      tot := start;
      ret := WriteChunk(data, address, tot);
      if ret > 0 && ret != |data| - tot && !partialWrite {
        ret, tot := WriteRest(data, address, tot + ret, start + old(PendingData()), old(records), old(appData));
      }
    }

    /** The turns of the loop behind the first, which ended at start; the write has come from `from`. */
    method WriteRest(data: seq<byte>, address: nat, start: nat, ghost from: nat, ghost first: seq<Record>, ghost app: seq<byte>)
      returns (ret: int, tot: nat)
      requires Valid() && from <= start < |data| && !pending && buffer.size == 0 && DataSealed(first, app, records, appData, data, from, start)
      modifies transport, buffer, buffer.buf, this`seals, this`records, this`stream, this`appData, this`handshakeData,
               this`gap, this`flight, this`flightOffset, this`pending, this`pendingLength, this`pendingAddress, this`pendingKind, this`pendingResult
      ensures Valid() && BufferOwned() && FlightKept() && WireKept()
      ensures gap ==> old(gap) || !SafeCap(old(DataRequest(data, start)))
      ensures ret > 0 ==> tot + ret == |data| && !pending && buffer.size == 0
      ensures from <= Came(tot, ret) <= |data|
      ensures handshakeData == old(handshakeData) && DataSealed(first, app, records, appData, data, from, Came(tot, ret))
      ensures ret <= 0 ==> Hindered() || old(DataRequest(data, start)) > MAX_16
    {
      tot := start;
      ret := WriteMore(data, address, tot, from, first, app);
      while ret > 0 && ret != |data| - tot
        invariant Valid() && BufferOwned() && FlightKept() && WireKept() && tot <= |data|
        invariant gap ==> old(gap) || !SafeCap(old(DataRequest(data, start)))
        invariant ret > 0 ==> tot + ret <= |data| && !pending && buffer.size == 0 && flight.None?
        invariant from <= Came(tot, ret) <= |data|
        invariant handshakeData == old(handshakeData) && DataSealed(first, app, records, appData, data, from, Came(tot, ret))
        invariant ret <= 0 ==> Hindered() || old(DataRequest(data, start)) > MAX_16
        decreases |data| - tot, ret
      {
        tot := tot + ret;
        ret := WriteMore(data, address, tot, from, first, app);
      }
    }

    /** Another turn of the loop, when the write has come from `from` to tot. */
    method WriteMore(data: seq<byte>, address: nat, tot: nat, ghost from: nat, ghost first: seq<Record>, ghost app: seq<byte>) returns (ret: int)
      requires Valid() && from <= tot < |data| && !pending && buffer.size == 0 && DataSealed(first, app, records, appData, data, from, tot)
      modifies transport, buffer, buffer.buf, this`seals, this`records, this`stream, this`appData, this`handshakeData,
               this`gap, this`flight, this`flightOffset, this`pending, this`pendingLength, this`pendingAddress, this`pendingKind, this`pendingResult
      ensures Valid() && BufferOwned() && FlightKept() && WireKept()
      ensures gap ==> old(gap) || !SafeCap(old(DataRequest(data, tot)))
      ensures ret > 0 ==> tot + ret <= |data| && !pending && flight.None?
      ensures from <= Came(tot, ret) <= |data|
      ensures handshakeData == old(handshakeData) && DataSealed(first, app, records, appData, data, from, Came(tot, ret))
      ensures ret > 0 ==> buffer.size == 0
      ensures ret <= 0 ==> Hindered() || (old(DataRequest(data, tot)) > MAX_16 && !pending && buffer.size == 0)
    {
      ret := WriteChunk(data, address, tot);
      DataSealedMore(first, app, old(records), old(appData), records, appData, data, from, tot, Came(tot, ret));
    }

    // ----- alerts -----

    /** At most one record was sealed, of that kind and contents. */
    twostate predicate SealedAtMost(kind: nat, plain: seq<byte>)
      reads this`records, this`appData, this`handshakeData
    {
      SealedNone() || SealedOne(kind, plain)
    }

    /** Nothing comes of sending an alert now. */
    ghost predicate AlertBlocked(address: nat)
      requires flight.Some? ==> flightOffset <= |flight.value|
      reads buffer`size, this`flight, this`flightOffset, this`pending, this`pendingLength, this`pendingAddress, this`pendingKind
    {
      if pending then BadRetry(ALERT, address, 2) else NoRecord(2)
    }

    /** ssl_send_alert and ssl3_dispatch_alert: a closing alert goes out at once, or later if the buffer is in use. */
    method SendAlert(level: byte, desc: byte, address: nat) returns (ret: int)
      requires Valid()
      modifies transport, buffer, buffer.buf, this`shutdown, this`alertDispatch, this`alert, this`seals, this`records, this`stream, this`appData, this`handshakeData,
               this`gap, this`flight, this`flightOffset, this`pending, this`pendingLength, this`pendingAddress, this`pendingKind, this`pendingResult
      ensures Valid() && BufferOwned() && WireKept() && shutdown
      ensures gap ==> old(gap) || (!old(pending) && !SafeCap(2 + overhead + old(FlightLength())))
      ensures SealedAtMost(ALERT, [level, desc]) && (ret > 0 && !old(pending) ==> SealedOne(ALERT, [level, desc]))
      ensures ret <= 0 ==> old(shutdown) || Hindered() || old(buffer.size > 0 || AlertBlocked(address))
      ensures ret > 0 ==> ret == 1 && !old(shutdown) && !pending && buffer.size == 0
      ensures ret <= 0 && !Hindered() && !old(pending) && old(buffer.size) == 0 ==> !pending && buffer.size == 0
    {
      if shutdown {
        return -1;
      }
      shutdown, alertDispatch, alert := true, true, [level, desc];
      if buffer.size > 0 {
        return -1;
      }
      ret := DispatchAlert(address);
    }

    method DispatchAlert(address: nat) returns (ret: int)
      requires Valid() && |alert| == 2
      modifies transport, buffer, buffer.buf, this`alertDispatch, this`seals, this`records, this`stream, this`appData, this`handshakeData,
               this`gap, this`flight, this`flightOffset, this`pending, this`pendingLength, this`pendingAddress, this`pendingKind, this`pendingResult
      ensures Valid() && BufferOwned() && WireKept()
      ensures gap ==> old(gap) || (!old(pending) && !SafeCap(2 + overhead + old(FlightLength())))
      ensures SealedAtMost(ALERT, alert) && (ret > 0 && !old(pending) ==> SealedOne(ALERT, alert))
      ensures ret <= 0 ==> Hindered() || old(AlertBlocked(address))
      ensures ret > 0 ==> ret == 1 && !pending && buffer.size == 0
      ensures ret <= 0 && !Hindered() && !old(pending) && old(buffer.size) == 0 ==> !pending && buffer.size == 0
    {
      ret := DoWrite(ALERT, address, alert);
      if ret <= 0 {
        return;
      }
      alertDispatch := false;
      ret := 1;
    }
  }

  // ----- whole runs -----

  lemma LongerData(base: seq<byte>, data: seq<byte>, longer: seq<byte>, from: nat, to: nat)
    requires data <= longer && from <= |data| && from <= to <= |longer|
    ensures (base + data[..from]) + Slice(longer, from, to) == base + longer[..to]
  {
    assert longer[..to] == longer[..from] + longer[from..to] && data[..from] == longer[..from];
  }

  /**
    A caller that repeats a blocked write, each time with the same data or more of it: the
    plaintext sealed is exactly the prefix that the last call reports.
   */
  method WriteWithRetries(w: Writer, attempts: seq<seq<byte>>, addresses: seq<nat>) returns (ret: int, last: nat)
    requires w.Valid() && w.written == 0 && !w.pending
    requires attempts != [] && |addresses| == |attempts|
    requires forall k :: 0 <= k < |attempts| - 1 ==> attempts[k] <= attempts[k + 1]
    modifies w, w.transport, w.buffer, w.buffer.buf
    ensures w.Valid() && last < |attempts|
    ensures ret > 0 ==> ret <= |attempts[last]| && w.appData == old(w.appData) + attempts[last][..ret]
    ensures ret <= 0 ==> w.InProgress(old(w.appData), attempts[last])
  {
    ghost var base := w.appData;
    last := 0;
    ret := RetryWrite(w, attempts[0], attempts[0], addresses[0], base);
    while ret <= 0 && last + 1 < |attempts|
      invariant w.Valid() && w.BufferOwned() && last < |attempts|
      invariant ret <= 0 ==> w.InProgress(base, attempts[last])
      invariant ret > 0 ==> ret <= |attempts[last]| && w.appData == base + attempts[last][..ret]
      decreases |attempts| - last, ret <= 0
    {
      ret := RetryWrite(w, attempts[last], attempts[last + 1], addresses[last + 1], base);
      last := last + 1;
    }
  }

  method RetryWrite(w: Writer, ghost data: seq<byte>, longer: seq<byte>, address: nat, ghost base: seq<byte>) returns (ret: int)
    requires w.Valid() && w.InProgress(base, data) && data <= longer
    modifies w, w.transport, w.buffer, w.buffer.buf
    ensures w.Valid() && w.BufferOwned()
    ensures ret <= 0 ==> w.InProgress(base, longer)
    ensures ret > 0 ==> ret <= |longer| && w.appData == base + longer[..ret]
  {
    ghost var from := w.written + w.PendingData();
    ret := w.WriteAppData(longer, address);
    assert OpenData(0);
    LongerData(base, data, longer, from, if ret > 0 then ret else w.written + w.PendingData());
  }

  /** Any use of the output path. */
  datatype Call =
    | Message(msg: seq<byte>)
    | ChangeCipherSpec
    | FlightAlert(level: byte, desc: byte)
    | Data(data: seq<byte>, address: nat)
    | CloseAlert(level: byte, desc: byte)
    | Flush

  /** What the configuration of a writer settles; reluctant and balky: sealing or the transport may refuse something. */
  datatype Setup = Setup(maxFragment: nat, overhead: nat, movingBuffer: bool, partialWrite: bool, reluctant: bool, balky: bool)

  ghost function SetupOf(w: Writer): Setup {
    Setup(w.maxFragment, w.overhead, w.movingBuffer, w.partialWrite, Reluctant(w.seal, w.overhead), Balky(w.transport))
  }

  /** Neither sealing nor the transport ever refuses. */
  ghost predicate Willing(w: Writer) {
    && (forall n: nat, kind: nat, plain: seq<byte> :: !Refuses(w.seal, w.overhead, n, kind, plain))
    && (forall n: nat :: w.transport.answer(n) > 0)
  }

  ghost predicate Balky(t: Transport) {
    exists n: nat :: t.answer(n) <= 0
  }

  /** The record that is pending, and what the write of it reports. */
  datatype Pending = Pending(length: nat, address: nat, kind: nat, result: nat)

  /** The state of the output between two calls. */
  datatype Snapshot = Snapshot(
    wire: seq<byte>, buffered: seq<byte>, unsent: seq<byte>, records: seq<Record>,
    written: nat, waiting: nat, pending: bool, gap: bool,
    pend: Pending, shutdown: bool, refused: bool, begun: nat)

  ghost function Snap(w: Writer): Snapshot
    requires w.buffer.Valid() && w.FlightOk()
    reads w, w.transport, w.buffer, w.buffer.buf
  {
    Snapshot(w.transport.wire, w.buffer.Data(), w.Unsent(), w.records, w.written, w.PendingData(), w.pending, w.gap,
             Pending(w.pendingLength, w.pendingAddress, w.pendingKind, w.pendingResult), w.shutdown, w.transport.Refused(), w.flightOffset)
  }

  /** The records after a call are those before it and the ones that the call is about, of the type of section 6.2.1 of RFC 5246. */
  ghost predicate Sealing(c: Call, a: Snapshot, b: Snapshot, ret: int) {
    && a.records <= b.records
    && match c
       case Message(msg) => Plain(a.records, 22) <= Plain(b.records, 22) <= Plain(a.records, 22) + msg
         && (ret > 0 ==> Plain(b.records, 22) == Plain(a.records, 22) + msg) && AllOf(22, |a.records|, b.records)
       case ChangeCipherSpec => AtMostOne(a.records, b.records, 20, [1], ret > 0)
       case FlightAlert(level, desc) => AtMostOne(a.records, b.records, 21, [level, desc], ret > 0)
       case CloseAlert(level, desc) => AtMostOne(a.records, b.records, 21, [level, desc], ret > 0 && !a.pending)
       case Data(data, _) =>
         && AllOf(23, |a.records|, b.records)
         && Plain(b.records, 23) == Plain(a.records, 23) + Slice(data, a.written + a.waiting, if ret > 0 then ret else b.written + b.waiting)
       case Flush => b.records == a.records
  }

  ghost predicate AtMostOne(before: seq<Record>, after: seq<Record>, kind: nat, plain: seq<byte>, must: bool) {
    || (after == before && !must)
    || (|after| == |before| + 1 && before <= after && after[|before|].kind == kind && after[|before|].plain == plain)
  }

  /** The capacity that a call first asks the write buffer for. */
  function Request(u: Setup, c: Call, a: Snapshot): nat {
    var at := a.written + a.waiting;
    if c.Data? && at <= |c.data| then Chunk(u, |c.data| - at) + u.overhead + |a.unsent|
    else if c.CloseAlert? && !a.pending then 2 + u.overhead + |a.unsent|
    else 0
  }

  /** The length of the next record of that many bytes. */
  function Chunk(u: Setup, n: nat): nat {
    if n > u.maxFragment then u.maxFragment else n
  }

  /** The pending record was turned down again, or sealing may have refused. */
  predicate Stopped(u: Setup, b: Snapshot) {
    (b.pending && b.refused) || u.reluctant
  }

  /** A record of this kind and length, offered from this place, is no retry of the pending one. */
  predicate NoRetry(u: Setup, a: Snapshot, kind: nat, address: nat, length: nat) {
    a.pending && (length < a.pend.length || kind != a.pend.kind || (address != a.pend.address && !u.movingBuffer))
  }

  /** A write reports all of its data, or one record of it if partial writes are allowed; and it fails for a reason. */
  predicate DataReported(u: Setup, data: seq<byte>, address: nat, a: Snapshot, b: Snapshot, ret: int) {
    if ret > 0 then
      && !a.shutdown && a.written <= |data| && !b.pending && b.buffered == [] && b.written == 0
      && ret == if !u.partialWrite then |data| else a.written + if a.pending then a.pend.result else Chunk(u, |data| - a.written)
    else a.shutdown || |data| < a.written || Stopped(u, b) || NoData(u, data, address, a)
  }

  /** Nothing comes of a write: it is no retry, there is nothing to write, no place for it, or not enough. */
  predicate NoData(u: Setup, data: seq<byte>, address: nat, a: Snapshot)
    requires a.written <= |data|
  {
    || NoRetry(u, a, APP_DATA, address + a.written, Chunk(u, |data| - a.written))
    || (!a.pending && (|data| == a.written || a.buffered != []))
    || Request(u, Data(data, address), a) > MAX_16
  }

  predicate AlertReported(u: Setup, c: Call, a: Snapshot, b: Snapshot, ret: int) {
    if ret > 0 then ret == 1 && !a.shutdown && !b.pending && b.buffered == []
    else a.shutdown || a.buffered != [] || Stopped(u, b) || NoRetry(u, a, ALERT, 0, 2) || Request(u, c, a) > MAX_16
  }

  /** What a call reports, and why one fails. */
  predicate Reported(u: Setup, c: Call, a: Snapshot, b: Snapshot, ret: int) {
    match c
    case Data(data, address) => DataReported(u, data, address, a, b, ret)
    case CloseAlert(_, _) => AlertReported(u, c, a, b, ret)
    case Flush => ret > 0 || a.shutdown || a.begun + |a.unsent| > INT_MAX || b.refused
    case _ => ret > 0 || a.begun > 0 || u.reluctant
  }

  /** A writer with nothing pending or buffered, and no write under way, */
  predicate Calm(a: Snapshot) {
    !a.pending && a.buffered == [] && a.written == 0
  }

  /** stays so, unless something was turned down. */
  predicate StaysCalm(u: Setup, a: Snapshot, b: Snapshot) {
    Calm(a) && !Stopped(u, b) ==> Calm(b)
  }

  /** What one call does: it seals its own records, takes nothing back from the wire, and loses nothing unless its request is unsafe. */
  ghost predicate Did(u: Setup, c: Call, a: Snapshot, b: Snapshot, ret: int) {
    && Sealing(c, a, b, ret) && a.wire <= b.wire && Reported(u, c, a, b, ret) && StaysCalm(u, a, b) && (b.refused ==> u.balky)
    && (b.gap ==> a.gap || !SafeCap(Request(u, c, a)))
    && (!b.gap ==> Total(b.wire, b.buffered, b.unsent, Stream(b.records)))
  }

  method Apply(w: Writer, c: Call) returns (ret: int)
    requires w.Valid()
    modifies w, w.transport, w.buffer, w.buffer.buf
    ensures w.Valid() && w.BufferOwned()
    ensures Did(SetupOf(w), c, old(Snap(w)), Snap(w), ret)
  {
    match c {
      case Data(_, _) => ret := Write(w, c);
      case CloseAlert(_, _) => ret := Close(w, c);
      case Flush =>
        w.LogIs();
        ret := w.FlushFlight();
      case _ =>
        // add_record_to_flight asserts that the flight is not being written out
        w.LogIs();
        ret := -1;
        if w.flightOffset == 0 {
          ret := AddToFlight(w, c);
        }
    }
  }

  /** Before a write: what it asks for, whether it is blocked, and its first record, as the snapshot tells them. */
  lemma Foresee(w: Writer, c: Call, a: Snapshot) returns (blocked: bool, first: nat)
    requires w.Valid() && c.Data? && a == Snap(w)
    ensures w.DataRequest(c.data, w.written + w.PendingData()) == Request(SetupOf(w), c, a)
    ensures w.written <= |c.data| ==>
      && (blocked <==> w.Blocked(c.data, c.address, w.written) || w.DataRequest(c.data, w.written + w.PendingData()) > MAX_16)
      && first == w.FirstLength(c.data, w.written) == if a.pending then a.pend.result else Chunk(SetupOf(w), |c.data| - a.written)
    ensures blocked ==> w.written <= |c.data| && NoData(SetupOf(w), c.data, c.address, a)
  {
    if w.written <= |c.data| {
      blocked := w.Blocked(c.data, c.address, w.written) || w.DataRequest(c.data, w.written + w.PendingData()) > MAX_16;
      first := w.FirstLength(c.data, w.written);
    } else {
      blocked, first := false, 0;
    }
  }

  /** A write, with what it reports and why. */
  method WriteReported(w: Writer, c: Call) returns (ret: int)
    requires w.Valid() && c.Data?
    modifies w, w.transport, w.buffer, w.buffer.buf
    ensures w.Valid() && w.BufferOwned() && w.WireKept()
    ensures w.gap ==> old(w.gap) || !SafeCap(Request(SetupOf(w), c, old(Snap(w))))
    ensures w.SealedData(c.data, old(w.written + w.PendingData()), if ret > 0 then ret else w.written + w.PendingData())
    ensures Reported(SetupOf(w), c, old(Snap(w)), Snap(w), ret) && StaysCalm(SetupOf(w), old(Snap(w)), Snap(w))
  {
    ghost var a := Snap(w);
    ghost var blocked, first := Foresee(w, c, a);
    ret := w.WriteAppData(c.data, c.address);
    DataIsReported(w, c, a, ret, blocked, first);
  }

  /** What a write ensures, in the terms of snapshots. */
  lemma DataIsReported(w: Writer, c: Call, a: Snapshot, ret: int, blocked: bool, first: nat)
    requires w.Valid() && c.Data? && w.shutdown == a.shutdown
    requires blocked ==> a.written <= |c.data| && NoData(SetupOf(w), c.data, c.address, a)
    requires a.written <= |c.data| ==> first == if a.pending then a.pend.result else Chunk(SetupOf(w), |c.data| - a.written)
    requires ret > 0 ==> !w.shutdown && a.written <= |c.data| && !w.pending && w.buffer.size == 0 && w.written == 0
    requires ret > 0 ==> ret == if w.partialWrite then a.written + first else |c.data|
    requires ret <= 0 ==> w.shutdown || |c.data| < a.written || w.Hindered() || blocked
    requires ret <= 0 && !w.Hindered() && !a.pending && |a.buffered| == 0 ==> !w.pending && w.buffer.size == 0 && w.written <= a.written
    ensures Reported(SetupOf(w), c, a, Snap(w), ret) && StaysCalm(SetupOf(w), a, Snap(w))
  {
  }

  method Write(w: Writer, c: Call) returns (ret: int)
    requires w.Valid() && c.Data?
    modifies w, w.transport, w.buffer, w.buffer.buf
    ensures w.Valid() && w.BufferOwned()
    ensures Did(SetupOf(w), c, old(Snap(w)), Snap(w), ret)
  {
    ghost var u, before, app := SetupOf(w), Snap(w), w.appData;
    SnapIs(w);
    ret := WriteReported(w, c);
    SnapIs(w);
    DataDid(u, c, before, Snap(w), ret, app, w.appData);
  }

  lemma SnapIs(w: Writer)
    requires w.Valid()
    ensures var b := Snap(w);
            && w.appData == Plain(b.records, APP_DATA) && w.handshakeData == Plain(b.records, HANDSHAKE)
            && (!b.gap ==> Total(b.wire, b.buffered, b.unsent, Stream(b.records))) && (b.refused ==> SetupOf(w).balky)
  {
    w.LogIs();
  }

  lemma DataDid(u: Setup, c: Call, a: Snapshot, b: Snapshot, ret: int, app: seq<byte>, app': seq<byte>)
    requires c.Data? && app == Plain(a.records, APP_DATA) && app' == Plain(b.records, APP_DATA)
    requires DataSealed(a.records, app, b.records, app', c.data, a.written + a.waiting, if ret > 0 then ret else b.written + b.waiting)
    requires a.wire <= b.wire && (b.gap ==> a.gap || !SafeCap(Request(u, c, a)))
    requires Reported(u, c, a, b, ret) && StaysCalm(u, a, b) && (b.refused ==> u.balky) && (!b.gap ==> Total(b.wire, b.buffered, b.unsent, Stream(b.records)))
    ensures Did(u, c, a, b, ret)
  {
    assert OpenData(0);
  }

  method Close(w: Writer, c: Call) returns (ret: int)
    requires w.Valid() && c.CloseAlert?
    modifies w, w.transport, w.buffer, w.buffer.buf
    ensures w.Valid() && w.BufferOwned()
    ensures Did(SetupOf(w), c, old(Snap(w)), Snap(w), ret)
  {
    SnapIs(w);
    ret := w.SendAlert(c.level, c.desc, 0);
    SnapIs(w);
  }

  method AddToFlight(w: Writer, c: Call) returns (ret: int)
    requires w.Valid() && w.flightOffset == 0 && (c.Message? || c.ChangeCipherSpec? || c.FlightAlert?)
    modifies w`seals, w`flight, w`records, w`stream, w`appData, w`handshakeData
    ensures w.Valid()
    ensures Did(SetupOf(w), c, old(Snap(w)), Snap(w), ret)
  {
    var ok;
    SnapIs(w);
    if c.Message? {
      ok := w.AddMessage(c.msg);
    } else {
      ok := AddOne(w, c);
    }
    SnapIs(w);
    ret := if ok then 1 else -1;
  }

  /** The record of a ChangeCipherSpec, or of an alert in the flight. */
  method AddOne(w: Writer, c: Call) returns (ok: bool)
    requires w.Valid() && w.flightOffset == 0 && (c.ChangeCipherSpec? || c.FlightAlert?)
    modifies w`seals, w`flight, w`records, w`stream, w`appData, w`handshakeData
    ensures w.Valid() && (!ok ==> Reluctant(w.seal, w.overhead))
    ensures AtMostOne(old(w.records), w.records, if c.ChangeCipherSpec? then CCS else ALERT, if c.ChangeCipherSpec? then [1] else [c.level, c.desc], ok)
  {
    if c.ChangeCipherSpec? {
      ok := w.AddChangeCipherSpec();
    } else {
      ok := w.AddAlert(c.level, c.desc);
    }
  }

  /** Over any trace of calls, no sealed byte is lost, repeated or reordered, unless some call asked for an unsafe capacity. */
  lemma {:induction false} TraceConserves(u: Setup, calls: seq<Call>, trace: seq<Snapshot>, rets: seq<int>)
    requires |trace| == |calls| + 1 && |rets| == |calls|
    requires forall k :: 0 <= k < |calls| ==> Did(u, calls[k], trace[k], trace[k + 1], rets[k])
    requires !trace[0].gap && forall k :: 0 <= k < |calls| ==> SafeCap(Request(u, calls[k], trace[k]))
    ensures forall k :: 1 <= k < |trace| ==> Total(trace[k].wire, trace[k].buffered, trace[k].unsent, Stream(trace[k].records))
    ensures !trace[|calls|].gap
    decreases |calls|
  {
    if calls != [] {
      var n := |calls| - 1;
      TraceConserves(u, calls[..n], trace[..n + 1], rets[..n]);
      assert !trace[..n + 1][n].gap;
      assert Did(u, calls[n], trace[n], trace[n + 1], rets[n]);
      forall k | 1 <= k < |trace|
        ensures Total(trace[k].wire, trace[k].buffered, trace[k].unsent, Stream(trace[k].records))
      {
        if k <= n {
          assert trace[..n + 1][k] == trace[k];
        }
      }
    }
  }

  /** All that a write by an open writer with nothing under way reports, if nothing is refused. */
  function Report(u: Setup, data: seq<byte>): nat {
    if u.partialWrite then Chunk(u, |data|) else |data|
  }

  /** Over any trace without refusals, every write of an open writer reports what it should, and so does the closing alert. */
  lemma {:induction false} TraceReports(u: Setup, calls: seq<Call>, trace: seq<Snapshot>, rets: seq<int>)
    requires |trace| == |calls| + 1 && |rets| == |calls| && !u.reluctant && !u.balky && Calm(trace[0])
    requires forall k :: 0 <= k < |calls| ==> Did(u, calls[k], trace[k], trace[k + 1], rets[k])
    requires forall k :: 0 <= k < |calls| ==> Request(u, calls[k], trace[k]) <= MAX_16
    ensures Calm(trace[|calls|])
    ensures forall k :: 0 <= k < |calls| && !trace[k].shutdown && calls[k].Data? && calls[k].data != [] ==>
      rets[k] == Report(u, calls[k].data)
    ensures forall k :: 0 <= k < |calls| && !trace[k].shutdown && calls[k].CloseAlert? ==> rets[k] == 1
    decreases |calls|
  {
    if calls != [] {
      var n := |calls| - 1;
      TraceReports(u, calls[..n], trace[..n + 1], rets[..n]);
      assert trace[..n + 1][n] == trace[n];
      assert Did(u, calls[n], trace[n], trace[n + 1], rets[n]);
      assert forall k :: 0 <= k < n ==> calls[..n][k] == calls[k] && trace[..n + 1][k] == trace[k] && rets[..n][k] == rets[k];
    }
  }

  /** From a writer with nothing under way, with no request above 16 bits: every write of an open writer reports all, and so does the closing alert. */
  ghost predicate AllReported(u: Setup, calls: seq<Call>, trace: seq<Snapshot>, rets: seq<int>)
    requires |trace| == |calls| + 1 && |rets| == |calls|
  {
    Calm(trace[0]) && (forall k :: 0 <= k < |calls| ==> Request(u, calls[k], trace[k]) <= MAX_16) ==>
      && (forall k :: 0 <= k < |calls| && !trace[k].shutdown && calls[k].Data? && calls[k].data != [] ==> rets[k] == Report(u, calls[k].data))
      && (forall k :: 0 <= k < |calls| && !trace[k].shutdown && calls[k].CloseAlert? ==> rets[k] == 1)
  }

  lemma RunReports(w: Writer, calls: seq<Call>, trace: seq<Snapshot>, rets: seq<int>)
    requires |trace| == |calls| + 1 && |rets| == |calls| && Willing(w)
    requires forall k :: 0 <= k < |calls| ==> Did(SetupOf(w), calls[k], trace[k], trace[k + 1], rets[k])
    ensures AllReported(SetupOf(w), calls, trace, rets)
  {
    if Calm(trace[0]) && forall k :: 0 <= k < |calls| ==> Request(SetupOf(w), calls[k], trace[k]) <= MAX_16 {
      TraceReports(SetupOf(w), calls, trace, rets);
    }
  }

  /**
    Over any run of calls and any behaviour of the transport: each call seals its own records
    behind those before it, the wire only grows, and no sealed byte is lost, repeated or
    reordered, unless some call asked for an unsafe capacity.
   */
  method Run(w: Writer, calls: seq<Call>) returns (rets: seq<int>, ghost trace: seq<Snapshot>)
    requires w.Valid()
    modifies w, w.transport, w.buffer, w.buffer.buf
    ensures w.Valid() && |rets| == |calls| && |trace| == |calls| + 1
    ensures trace[0] == old(Snap(w)) && trace[|calls|] == Snap(w)
    ensures forall k :: 0 <= k < |calls| ==> Did(SetupOf(w), calls[k], trace[k], trace[k + 1], rets[k])
    ensures old(w.records) <= w.records && old(w.transport.wire) <= w.transport.wire
    ensures !old(w.gap) && (forall k :: 0 <= k < |calls| ==> SafeCap(Request(SetupOf(w), calls[k], trace[k]))) ==>
      w.transport.wire + w.buffer.Data() + w.Unsent() == Stream(w.records)
    ensures Willing(w) ==> AllReported(SetupOf(w), calls, trace, rets)
  {
    rets, trace := [], [Snap(w)];
    while |rets| < |calls|
      invariant |rets| <= |calls| && w.Valid() && w.BufferOwned() && |trace| == |rets| + 1
      invariant trace[0] == old(Snap(w)) && trace[|rets|] == Snap(w)
      invariant forall k :: 0 <= k < |rets| ==> Did(SetupOf(w), calls[k], trace[k], trace[k + 1], rets[k])
      invariant old(w.records) <= w.records && old(w.transport.wire) <= w.transport.wire
    {
      var ret := Apply(w, calls[|rets|]);
      rets, trace := rets + [ret], trace + [Snap(w)];
    }
    if !old(w.gap) && forall k :: 0 <= k < |calls| ==> SafeCap(Request(SetupOf(w), calls[k], trace[k])) {
      TraceConserves(SetupOf(w), calls, trace, rets);
      w.LogIs();
      TotalIs(w.transport.wire, w.buffer.Data(), w.Unsent(), Stream(w.records));
    }
    if Willing(w) {
      RunReports(w, calls, trace, rets);
    }
  }
}
