/**
  What the client and server handshakes of TLS 1.2 and below share (handshake.cc,
  ssl_transcript.cc): the incoming message queue, the transcript with its buffer and
  rolling hash, and a log of everything a handshake did.
 */
module Handshake {
  import opened Bytes
  import opened CipherList

  const CLIENT_HELLO := 1
  const SERVER_HELLO := 2
  const HELLO_VERIFY_REQUEST := 3
  const NEW_SESSION_TICKET := 4
  const CERTIFICATE := 11
  const SERVER_KEY_EXCHANGE := 12
  const CERTIFICATE_REQUEST := 13
  const SERVER_HELLO_DONE := 14
  const CERTIFICATE_VERIFY := 15
  const CLIENT_KEY_EXCHANGE := 16
  const FINISHED := 20
  const CERTIFICATE_STATUS := 22
  const NEXT_PROTO := 67
  const CHANNEL_ID := 203

  const TLS1_2 := 0x0303
  const M_AEAD := 3

  datatype Msg = Msg(t: nat, body: seq<byte>)

  /** The reasons for which a handshake returns to its caller (ssl_hs_wait_t). */
  datatype Wait =
    | Ok | Error | Flush | ReadMessage | ReadServerHello | ReadChangeCipherSpec | CertificateSelectionPending
    | X509Lookup | ChannelIdLookup | PrivateKeyOperation | PendingSession | CertificateVerify | EarlyReturn | Handoff | LeftToTls13

  /** An operation of the application that may not be finished yet. */
  datatype Async = Success | Failure | Retry

  /** What the peer's hello settles, given the configuration. No cipher means that none is acceptable. */
  datatype Hello = Hello(
    cipher: Option<Cipher>,
    version: nat,
    tls13: bool,
    resumed: bool,
    request: bool,
    status: bool,
    ticket: bool,
    nextProto: bool,
    channelId: bool,
    channelRecorded: bool,
    protocolChosen: bool)

  /**
    The configuration and the cryptography of a connection. Hellos and certificate chains
    are judged by the messages that carry them; a key exchange by the hellos and the
    certificate before it; a CertificateVerify by the certificate and the transcript; a
    Finished by the side and the transcript.
   */
  datatype World = World(
    hello: seq<byte> -> Hello,
    emptyChain: seq<byte> -> bool,
    trusts: seq<byte> -> bool,
    verifyNone: bool,
    needsCertificate: bool,
    keyExchangeOk: (seq<Msg>, seq<byte>) -> bool,
    proofOk: (Msg, seq<Msg>, seq<byte>) -> bool,
    mac: (bool, seq<Msg>) -> seq<byte>,
    falseStart: bool,
    falseStartWithoutAlpn: bool)

  function HelloIn(w: World, m: Msg): Hello {
    w.hello(m.body)
  }

  predicate EmptyChain(w: World, m: Msg) {
    w.emptyChain(m.body)
  }

  predicate KeyExchangeOk(w: World, keys: seq<Msg>, m: Msg) {
    w.keyExchangeOk(keys, m.body)
  }

  predicate ProofOk(w: World, certificate: Msg, over: seq<Msg>, m: Msg) {
    w.proofOk(certificate, over, m.body)
  }

  /** The Finished message of one side. */
  function FinishedOf(w: World, server: bool, over: seq<Msg>): Msg {
    Msg(FINISHED, w.mac(server, over))
  }

  /** ssl_verify_peer_cert on a first handshake: a refusal is overruled if no verification is asked for. */
  predicate Trusted(w: World, certificate: Msg) {
    w.trusts(certificate.body) || w.verifyNone
  }

  /** One thing that a handshake did. */
  datatype Event =
    | Sent(m: Msg)
    | Received(m: Msg)
    | SentCcs
    | ReceivedCcs
    | Rekeyed(arrived: seq<Msg>)
    | Judged(m: Msg)
    | Signature(keys: seq<Msg>, m: Msg)
    | Finish(own: bool, over: seq<Msg>, m: Msg)
    | Proof(own: bool, certificate: Msg, over: seq<Msg>, m: Msg)

  /** What the transcript must be: all messages in order, from the last HelloVerifyRequest on and without it. */
  function Spoken(log: seq<Event>): seq<Msg> {
    if log == [] then [] else Extended(Spoken(log[..|log| - 1]), log[|log| - 1])
  }

  function Extended(spoken: seq<Msg>, e: Event): seq<Msg> {
    match e
    case Sent(m) => spoken + [m]
    case Received(m) => if m.t == HELLO_VERIFY_REQUEST then [] else spoken + [m]
    case _ => spoken
  }

  /** The messages received, in order. */
  function Heard(log: seq<Event>): seq<Msg> {
    if log == [] then []
    else Heard(log[..|log| - 1]) + if log[|log| - 1].Received? then [log[|log| - 1].m] else []
  }

  /** All messages of a log, sent and received, in order. */
  function Messages(log: seq<Event>): seq<Msg> {
    if log == [] then []
    else if log[0].Sent? || log[0].Received? then [log[0].m] + Messages(log[1..])
    else Messages(log[1..])
  }

  /** From position i on the log has no HelloVerifyRequest. */
  predicate NoRestart(log: seq<Event>, i: nat) {
    forall k :: i <= k < |log| && log[k].Received? ==> log[k].m.t != 3
  }

  lemma {:induction false} MessagesSnoc(log: seq<Event>, e: Event)
    ensures Messages(log + [e]) == Messages(log) + if e.Sent? || e.Received? then [e.m] else []
  {
    if log != [] {
      MessagesSnoc(log[1..], e);
      assert (log + [e])[1..] == log[1..] + [e];
    } else {
      assert (log + [e])[1..] == [];
    }
  }

  /** The transcript is every message of the log, or every message behind the last HelloVerifyRequest. */
  lemma {:induction false} SpokenSince(log: seq<Event>, i: nat)
    requires i <= |log| && NoRestart(log, i) && (i > 0 ==> log[i - 1].Received? && log[i - 1].m.t == 3)
    ensures Spoken(log) == Messages(log[i..])
    decreases |log|
  {
    var n := |log| - 1;
    if log != [] && i <= n {
      SpokenSince(log[..n], i);
      assert log[i..] == log[..n][i..] + [log[n]];
      MessagesSnoc(log[..n][i..], log[n]);
    }
  }

  /** The check came out well: the message it is about carries the right value. */
  predicate Genuine(w: World, server: bool, e: Event) {
    match e
    case Judged(m) => Trusted(w, m)
    case Signature(keys, m) => KeyExchangeOk(w, keys, m)
    case Finish(own, over, m) => m == FinishedOf(w, own == server, over)
    case Proof(own, certificate, over, m) => own || ProofOk(w, certificate, over, m)
    case _ => true
  }

  /** A check over the transcript covered exactly what had been spoken; keys changed when all that had arrived was read. */
  predicate Complete(e: Event, spoken: seq<Msg>, heard: seq<Msg>) {
    match e
    case Finish(_, over, _) => over == spoken
    case Proof(_, _, over, _) => over == spoken
    case Rekeyed(arrived) => arrived == heard
    case _ => true
  }

  /** Event i is no check that came out badly, or that did not cover what came before it. */
  ghost predicate CheckedAt(w: World, server: bool, log: seq<Event>, i: nat)
    requires i < |log|
  {
    Genuine(w, server, log[i]) && Complete(log[i], Spoken(log[..i]), Heard(log[..i]))
  }

  /** Every check in the log came out well and was complete. */
  ghost predicate Covered(w: World, server: bool, log: seq<Event>) {
    forall i {:trigger CheckedAt(w, server, log, i)} :: 0 <= i < |log| ==> CheckedAt(w, server, log, i)
  }

  lemma Logged(w: World, server: bool, log: seq<Event>, e: Event)
    ensures Spoken(log + [e]) == Extended(Spoken(log), e)
    ensures Heard(log + [e]) == Heard(log) + if e.Received? then [e.m] else []
    ensures Covered(w, server, log) && Genuine(w, server, e) && Complete(e, Spoken(log), Heard(log)) ==> Covered(w, server, log + [e])
  {
    var longer := log + [e];
    assert longer[..|log|] == log;
    if Covered(w, server, log) && Genuine(w, server, e) && Complete(e, Spoken(log), Heard(log)) {
      forall i | 0 <= i < |longer|
        ensures CheckedAt(w, server, longer, i)
      {
        if i < |log| {
          assert longer[..i] == log[..i] && CheckedAt(w, server, log, i);
        }
      }
    }
  }

  /** Says nothing: predicates below use it to stay folded until a proof asks for them. */
  predicate Unfold(x: int) {
    true
  }

  /** The same, for what a proof of one step asks for. */
  predicate Open(x: int) {
    true
  }

  /**
    The books of a connection: every message that arrived has been received, in order and
    once, or is still waiting, and every check in the log came out well and was complete.
   */
  ghost predicate Accounts(w: World, server: bool, log: seq<Event>, spoken: seq<Msg>, incoming: seq<Msg>, arrived: seq<Msg>) {
    forall x: int {:trigger Unfold(x)} :: Unfold(x) ==>
      spoken == Spoken(log) && arrived == Heard(log) + incoming && Covered(w, server, log)
  }

  lemma NoteAccounts(w: World, server: bool, log: seq<Event>, spoken: seq<Msg>, incoming: seq<Msg>, arrived: seq<Msg>, e: Event)
    requires Accounts(w, server, log, spoken, incoming, arrived) && !e.Received? && Genuine(w, server, e)
    requires if e.Rekeyed? then incoming == [] && e.arrived == arrived else Complete(e, spoken, [])
    ensures Accounts(w, server, log + [e], Extended(spoken, e), incoming, arrived)
  {
    assert Unfold(0);
    Logged(w, server, log, e);
    assert Heard(log) + [] == Heard(log);
  }

  lemma ReleaseAccounts(w: World, server: bool, log: seq<Event>, spoken: seq<Msg>, incoming: seq<Msg>, arrived: seq<Msg>)
    requires Accounts(w, server, log, spoken, incoming, arrived) && incoming != []
    ensures var e := Received(incoming[0]); Accounts(w, server, log + [e], Extended(spoken, e), incoming[1..], arrived)
  {
    assert Unfold(0);
    Logged(w, server, log, Received(incoming[0]));
    assert (Heard(log) + [incoming[0]]) + incoming[1..] == Heard(log) + incoming;
  }

  lemma ArriveAccounts(w: World, server: bool, log: seq<Event>, spoken: seq<Msg>, incoming: seq<Msg>, arrived: seq<Msg>, more: seq<Msg>)
    requires Accounts(w, server, log, spoken, incoming, arrived)
    ensures Accounts(w, server, log, spoken, incoming + more, arrived + more)
  {
    assert Unfold(0);
    assert Heard(log) + (incoming + more) == (Heard(log) + incoming) + more;
  }

  /** What has been spoken, and the first waiting message if it has been hashed. */
  ghost function Transcript(spoken: seq<Msg>, hashed: bool, incoming: seq<Msg>): seq<Msg> {
    if hashed && incoming != [] then spoken + [incoming[0]] else spoken
  }

  /** Whatever of buffer and hash is live holds exactly the transcript, and one of them is. */
  ghost predicate TranscriptOk(buffer: Option<seq<Msg>>, hash: Option<seq<Msg>>, spoken: seq<Msg>, hashed: bool, incoming: seq<Msg>) {
    var transcript := Transcript(spoken, hashed, incoming);
    && (buffer.Some? ==> buffer.value == transcript) && (hash.Some? ==> hash.value == transcript)
    && (buffer.Some? || hash.Some?) && (hashed ==> incoming != [])
  }

  /** The part of a connection that both machines work on. */
  class Session {
    const world: World
    const server: bool
    var incoming: seq<Msg>
    var arrived: seq<Msg>
    var buffer: Option<seq<Msg>>
    var hash: Option<seq<Msg>>
    var log: seq<Event>
    ghost var spoken: seq<Msg>
    ghost var hashed: bool

    ghost predicate Valid()
      reads this
    {
      && Accounts(world, server, log, spoken, incoming, arrived)
      && TranscriptOk(buffer, hash, spoken, hashed, incoming)
    }

    constructor (world: World, server: bool)
      ensures this.world == world && this.server == server
      ensures Valid() && incoming == [] && arrived == [] && buffer.Some? && hash.None? && log == [] && !hashed
    {
      this.world, this.server := world, server;
      incoming, arrived, buffer, hash, log := [], [], Some([]), None, [];
      spoken, hashed := [], false;
    }

    /** The contents of the live hash, or else of the buffer. */
    function Live(): seq<Msg>
      reads this`buffer, this`hash
    {
      if hash.Some? then hash.value else if buffer.Some? then buffer.value else []
    }

    /** One more thing happened that is not the receipt of a message. */
    method Note(e: Event)
      requires Accounts(world, server, log, spoken, incoming, arrived) && !e.Received? && Genuine(world, server, e)
      requires if e.Rekeyed? then incoming == [] && e.arrived == arrived else Complete(e, spoken, [])
      modifies this`log, this`spoken
      ensures Accounts(world, server, log, spoken, incoming, arrived) && log == old(log) + [e] && spoken == Extended(old(spoken), e)
    {
      NoteAccounts(world, server, log, spoken, incoming, arrived, e);
      log := log + [e];
      spoken := Extended(spoken, e);
    }

    /** Messages arrive behind those that wait. */
    method Arrive(messages: seq<Msg>)
      requires Valid()
      modifies this`incoming, this`arrived
      ensures Valid() && incoming == old(incoming) + messages && arrived == old(arrived) + messages
    {
      ArriveAccounts(world, server, log, spoken, incoming, arrived, messages);
      incoming, arrived := incoming + messages, arrived + messages;
    }

    /** The first waiting message is released. */
    method Release()
      requires Accounts(world, server, log, spoken, incoming, arrived) && incoming != []
      modifies this`incoming, this`log, this`spoken
      ensures Accounts(world, server, log, spoken, incoming, arrived) && incoming == old(incoming)[1..] && log == old(log) + [Received(old(incoming)[0])]
      ensures spoken == Extended(old(spoken), Received(old(incoming)[0]))
    {
      ReleaseAccounts(world, server, log, spoken, incoming, arrived);
      var m := incoming[0];
      log := log + [Received(m)];
      spoken := Extended(spoken, Received(m));
      incoming := incoming[1..];
    }

    // ----- the transcript -----

    /** SSLTranscript::Update. */
    method Update(m: Msg)
      modifies this`buffer, this`hash
      ensures buffer == if old(buffer).Some? then Some(old(buffer).value + [m]) else None
      ensures hash == if old(hash).Some? then Some(old(hash).value + [m]) else None
    {
      if buffer.Some? {
        buffer := Some(buffer.value + [m]);
      }
      if hash.Some? {
        hash := Some(hash.value + [m]);
      }
    }

    /** SSLTranscript::InitHash: the hash starts from what the buffer holds. */
    method InitHash()
      requires Valid() && buffer.Some?
      modifies this`hash
      ensures Valid() && hash.Some?
    {
      hash := Some(buffer.value);
    }

    /** SSLTranscript::FreeBuffer. */
    method FreeBuffer()
      requires Valid() && hash.Some?
      modifies this`buffer
      ensures Valid() && buffer.None?
    {
      buffer := None;
    }

    // ----- messages -----

    /** ssl_hash_message, of the first waiting message: once and no more. */
    method HashMessage()
      requires Valid() && incoming != [] && !hashed
      modifies this`buffer, this`hash, this`hashed
      ensures Valid() && hashed && buffer.Some? == old(buffer).Some? && hash.Some? == old(hash).Some?
    {
      Update(incoming[0]);
      hashed := true;
    }

    /** next_message: only a message that has been hashed may be released. */
    method NextMessage()
      requires Valid() && hashed && incoming[0].t != HELLO_VERIFY_REQUEST
      modifies this`incoming, this`log, this`spoken, this`hashed
      ensures Valid() && !hashed && incoming == old(incoming)[1..] && log == old(log) + [Received(old(incoming)[0])]
    {
      Release();
      hashed := false;
    }

    /** What DTLS does on HelloVerifyRequest: it is released without being hashed, and the transcript begins anew. */
    method Restart()
      requires Valid() && !hashed && incoming != [] && incoming[0].t == HELLO_VERIFY_REQUEST
      modifies this`incoming, this`log, this`spoken, this`buffer, this`hash
      ensures Valid() && buffer == Some([]) && hash.None?
      ensures incoming == old(incoming)[1..] && log == old(log) + [Received(old(incoming)[0])]
    {
      Release();
      buffer, hash := Some([]), None;
    }

    /** ssl_add_message_cbb: into the flight and into the transcript. */
    method Send(t: nat, body: seq<byte>)
      requires Valid() && !hashed
      modifies this`buffer, this`hash, this`log, this`spoken
      ensures Valid() && buffer.Some? == old(buffer).Some? && hash.Some? == old(hash).Some?
      ensures log == old(log) + [Sent(Msg(t, body))]
    {
      Update(Msg(t, body));
      Note(Sent(Msg(t, body)));
    }

    /** Something that is not a message. */
    method Mark(e: Event)
      requires Valid() && !e.Sent? && !e.Received? && Genuine(world, server, e)
      requires if e.Rekeyed? then incoming == [] && e.arrived == arrived else Complete(e, spoken, [])
      modifies this`log, this`spoken
      ensures Valid() && spoken == old(spoken) && log == old(log) + [e]
    {
      Note(e);
    }

    /** CertificateVerify: the signature is over the buffer, which is live and holds the whole transcript. */
    method SendProof(certificate: Msg, body: seq<byte>) returns (p: seq<Event>)
      requires Valid() && !hashed && hash.Some? && buffer.Some?
      modifies this`buffer, this`hash, this`log, this`spoken
      ensures Valid() && hash.Some? && buffer.None?
      ensures var m := Msg(CERTIFICATE_VERIFY, body);
        log == old(log) + p && p == [Proof(true, certificate, old(spoken), m), Sent(m)]
    {
      p := [Proof(true, certificate, buffer.value, Msg(CERTIFICATE_VERIFY, body)), Sent(Msg(CERTIFICATE_VERIFY, body))];
      Mark(Proof(true, certificate, buffer.value, Msg(CERTIFICATE_VERIFY, body)));
      Send(CERTIFICATE_VERIFY, body);
      FreeBuffer();
    }

    /** The peer's CertificateVerify: checked over the buffer, which is live and complete, before it is hashed. */
    method AcceptProof(certificate: Msg) returns (ok: bool, p: seq<Event>)
      requires Valid() && !hashed && hash.Some? && buffer.Some? && incoming != [] && incoming[0].t == CERTIFICATE_VERIFY
      modifies this`incoming, this`log, this`spoken, this`hashed, this`buffer, this`hash
      ensures Valid() && hash.Some? && !hashed
      ensures ok == ProofOk(world, certificate, old(spoken), old(incoming)[0])
      ensures var m := old(incoming)[0];
        ok ==> log == old(log) + p && p == [Proof(false, certificate, old(spoken), m), Received(m)]
      ensures !ok ==> log == old(log) && incoming == old(incoming) && spoken == old(spoken)
    {
      if !ProofOk(world, certificate, buffer.value, incoming[0]) {
        return false, [];
      }
      p := [Proof(false, certificate, buffer.value, incoming[0]), Received(incoming[0])];
      Mark(Proof(false, certificate, buffer.value, incoming[0]));
      FreeBuffer();
      HashMessage();
      NextMessage();
      ok := true;
    }

    /** ssl_send_finished: the MAC is taken over the hash before the message enters it. */
    method SendFinished() returns (p: seq<Event>)
      requires Valid() && !hashed && hash.Some?
      modifies this`buffer, this`hash, this`log, this`spoken
      ensures Valid() && buffer.Some? == old(buffer).Some? && hash.Some?
      ensures var m := FinishedOf(world, server, old(spoken));
        log == old(log) + p && p == [Finish(true, old(spoken), m), Sent(m)]
    {
      var finished := FinishedOf(world, server, hash.value);
      p := [Finish(true, hash.value, finished), Sent(finished)];
      Mark(Finish(true, hash.value, finished));
      Send(FINISHED, finished.body);
    }

    /** ssl_get_finished: the MAC is taken over the hash before the message enters it, and compared afterwards. */
    method GetFinished() returns (w: Wait, p: seq<Event>)
      requires Valid() && !hashed && hash.Some?
      modifies this`incoming, this`log, this`spoken, this`hashed, this`buffer, this`hash
      ensures w == Ok || w == Error || w == ReadMessage
      ensures w == ReadMessage <==> old(incoming) == []
      ensures w == Ok <==> old(incoming) != [] && old(incoming)[0] == FinishedOf(world, !server, old(spoken))
      ensures Valid() && buffer.Some? == old(buffer).Some? && hash.Some? && (w != Error ==> !hashed)
      ensures w == Ok ==> var m := old(incoming)[0]; log == old(log) + p && p == [Finish(false, old(spoken), m), Received(m)]
      ensures w != Ok ==> log == old(log) && incoming == old(incoming) && spoken == old(spoken)
    {
      p := [];
      if incoming == [] {
        return ReadMessage, p;
      }
      if incoming[0].t != FINISHED {
        return Error, p;
      }
      var over := hash.value;
      var finished := FinishedOf(world, !server, over);
      HashMessage();
      if incoming[0].body != finished.body {
        return Error, p;
      }
      p := [Finish(false, over, incoming[0]), Received(incoming[0])];
      Mark(Finish(false, over, incoming[0]));
      NextMessage();
      w := Ok;
    }

    /** set_read_state, after a ChangeCipherSpec: refused while a message of the old keys is still waiting. */
    method Rekey() returns (ok: bool)
      requires Valid() && !hashed
      modifies this`log, this`spoken
      ensures Valid() && spoken == old(spoken) && ok == (incoming == [])
      ensures log == old(log) + if ok then [Rekeyed(arrived)] else []
    {
      if incoming != [] {
        return false;
      }
      Mark(Rekeyed(arrived));
      ok := true;
    }
  }

  // ----- the course of a handshake, part by part -----

  /** The parts of a handshake one after the other. */
  function Concat(parts: seq<seq<Event>>): seq<Event> {
    if parts == [] then [] else Concat(parts[..|parts| - 1]) + parts[|parts| - 1]
  }

  lemma ConcatSnoc(parts: seq<seq<Event>>, p: seq<Event>)
    ensures Concat(parts + [p]) == Concat(parts) + p
  {
    assert (parts + [p])[..|parts|] == parts;
  }

  /** Where part k begins. */
  function Start(parts: seq<seq<Event>>, k: nat): nat
    requires k <= |parts|
  {
    |Concat(parts[..k])|
  }

  /** Event j of part k is in the whole, and where. */
  lemma {:induction false} InConcat(parts: seq<seq<Event>>, k: nat, j: nat)
    requires k < |parts| && j < |parts[k]|
    ensures Start(parts, k) + j < |Concat(parts)| && Concat(parts)[Start(parts, k) + j] == parts[k][j]
    decreases |parts|
  {
    var n := |parts| - 1;
    if k < n {
      assert parts[..n][..k] == parts[..k];
      InConcat(parts[..n], k, j);
    }
  }

  /** Every event of the whole is in some part. */
  lemma {:induction false} FromConcat(parts: seq<seq<Event>>, i: nat) returns (k: nat, j: nat)
    requires i < |Concat(parts)|
    ensures k < |parts| && j < |parts[k]| && i == Start(parts, k) + j && Concat(parts)[i] == parts[k][j]
    decreases |parts|
  {
    var n := |parts| - 1;
    if i < |Concat(parts[..n])| {
      k, j := FromConcat(parts[..n], i);
      assert parts[..n][..k] == parts[..k];
    } else {
      k, j := n, i - |Concat(parts[..n])|;
    }
  }

  /** A later part begins where an earlier one has ended, or further on. */
  lemma {:induction false} StartsIncrease(parts: seq<seq<Event>>, k: nat, k': nat)
    requires k < k' <= |parts|
    ensures Start(parts, k) + |parts[k]| <= Start(parts, k')
    decreases k'
  {
    assert parts[..k'][..k' - 1] == parts[..k' - 1];
    if k < k' - 1 {
      StartsIncrease(parts, k, k' - 1);
    }
  }

  /** Events of two parts are in the log in the order of the parts. */
  lemma InOrder(parts: seq<seq<Event>>, k: nat, j: nat, k': nat, j': nat)
    requires k < k' < |parts| && j < |parts[k]| && j' < |parts[k']|
    ensures Start(parts, k) + j < Start(parts, k') + j' < |Concat(parts)|
    ensures Concat(parts)[Start(parts, k) + j] == parts[k][j] && Concat(parts)[Start(parts, k') + j'] == parts[k'][j']
  {
    InConcat(parts, k, j);
    InConcat(parts, k', j');
    StartsIncrease(parts, k, k');
  }

  lemma Appended(log: seq<Event>, p: seq<Event>, q: seq<Event>)
    ensures (log + p) + q == log + (p + q)
  {
  }

  // ----- shapes of parts -----

  /** The message of event i of a part. */
  function MessageOf(p: seq<Event>, i: nat): Msg {
    if i < |p| && (p[i].Sent? || p[i].Received?) then p[i].m else Msg(0, [])
  }

  predicate Sends(p: seq<Event>, t: nat) {
    |p| == 1 && p[0].Sent? && p[0].m.t == t
  }

  predicate Receives(p: seq<Event>, t: nat) {
    |p| == 1 && p[0].Received? && p[0].m.t == t
  }

  /** A message of this type was received, or sent. */
  ghost predicate HasReceived(log: seq<Event>, t: nat) {
    exists i :: 0 <= i < |log| && log[i].Received? && log[i].m.t == t
  }

  ghost predicate HasSent(log: seq<Event>, t: nat) {
    exists i :: 0 <= i < |log| && log[i].Sent? && log[i].m.t == t
  }

  /** The peer's Finished: checked, then received. */
  predicate PeerFinishes(p: seq<Event>) {
    |p| == 2 && p[0].Finish? && !p[0].own && p[0].m.t == FINISHED && p[1] == Received(p[0].m)
  }

  /** The end of a part: a Finished of our own. */
  predicate OwnFinishes(p: seq<Event>, n: nat) {
    |p| == n + 2 && p[n].Finish? && p[n].own && p[n].m.t == FINISHED && p[n + 1] == Sent(p[n].m)
  }

  predicate Rekeys(p: seq<Event>) {
    |p| == 1 && p[0].Rekeyed?
  }

  /** ssl_cipher_uses_certificate_auth. */
  predicate UsesCertificate(c: Cipher) {
    c.auth == A_RSA || c.auth == A_ECDSA
  }

  /** ssl_cipher_requires_server_key_exchange. */
  predicate RequiresKeyExchange(c: Cipher) {
    c.mkey == K_ECDHE
  }

  /** The cipher that a hello settles on. */
  function CipherOf(h: Hello): Cipher {
    if h.cipher.Some? then h.cipher.value else Cipher("", "", 0, 0, 0, 0, 0, true)
  }

  /** A hello that TLS 1.2 and below can go on with. */
  predicate Settles(h: Hello) {
    h.cipher.Some? && !h.tls13
  }

  const NO_HELLO := Hello(None, 0, false, false, false, false, false, false, false, false, false)

  /** Messages that arrived over the first k rounds. */
  function Arrivals(rounds: seq<Round>, k: nat): seq<Msg>
    requires k <= |rounds|
  {
    if k == 0 then [] else Arrivals(rounds, k - 1) + rounds[k - 1].arrived
  }

  /** How the outside answers one pause: messages that arrived, and whether what was waited for is there. */
  datatype Round = Round(arrived: seq<Msg>, resolved: bool)

  /** What was waited for was there in each of the first n rounds. */
  predicate Resolved(rounds: seq<Round>, n: nat) {
    forall k :: 0 <= k < n && k < |rounds| ==> rounds[k].resolved
  }

  /** The ways to stop of a machine that waits for nothing but the network. */
  predicate Paused(w: Wait, incoming: seq<Msg>) {
    w == Ok || w == Error || w == LeftToTls13 || Starved(w, incoming) || w == Flush || w == ReadChangeCipherSpec || w == EarlyReturn
  }

  /** The machine waits for a message, and none is there. */
  predicate Starved(w: Wait, incoming: seq<Msg>) {
    (w == ReadMessage || w == ReadServerHello) && incoming == []
  }
}
