/**
  The client handshake of TLS 1.2 and below (handshake_client.cc): about twenty states,
  whose order changes when a session is resumed, and which may pause and be entered again
  at many points. What messages mean is settled by the world of the connection; whether
  parsing, allocation and callbacks succeed is given to each step by an environment.
 */
module HandshakeClient {
  import opened Bytes
  import opened CipherList
  import opened Handshake

  /** enum ssl_client_hs_state_t. */
  type State = nat

  const START_CONNECT: State := 0
  const ENTER_EARLY_DATA: State := 1
  const READ_HELLO_VERIFY_REQUEST: State := 2
  const READ_HELLO: State := 3
  const STATE_TLS13: State := 4
  const READ_CERTIFICATE: State := 5
  const READ_CERTIFICATE_STATUS: State := 6
  const VERIFY_CERTIFICATE: State := 7
  const READ_KEY_EXCHANGE: State := 8
  const READ_CERTIFICATE_REQUEST: State := 9
  const READ_HELLO_DONE: State := 10
  const SEND_CERTIFICATE: State := 11
  const SEND_KEY_EXCHANGE: State := 12
  const SEND_PROOF: State := 13
  const SEND_FINISHED: State := 14
  const FINISH_FLIGHT: State := 15
  const READ_SESSION_TICKET: State := 16
  const PROCESS_CCS: State := 17
  const READ_FINISHED: State := 18
  const FINISH_HANDSHAKE: State := 19
  const DONE: State := 20

  /** What the outside contributes to one step. */
  datatype Env = Env(
    checks: bool,
    body: seq<byte>,
    verifyLater: bool,
    certCallback: Async,
    sign: Async,
    channelIdKey: bool,
    emptyTicket: bool)

  /** Nothing of the client's own goes wrong or keeps it waiting. */
  predicate Cooperative(e: Env) {
    e.checks && !e.verifyLater && e.certCallback == Success && e.sign == Success && e.channelIdKey
  }

  function Ask(oracle: nat -> Env, tick: nat): Env {
    oracle(tick)
  }

  ghost predicate Smooth(oracle: nat -> Env) {
    forall tick: nat :: Cooperative(Ask(oracle, tick))
  }

  // ----- the message flow of section 7.3 of RFC 5246 -----

  /** What later parts of a handshake refer to: the hellos, the server's certificate, whether one was requested, and our own. */
  datatype Memory = Memory(helloSent: Msg, helloRead: Msg, certificate: Msg, request: bool, own: Msg)

  const NOTHING := Memory(Msg(0, []), Msg(0, []), Msg(0, []), false, Msg(0, []))

  /** The messages that a ServerKeyExchange is signed over, and with whose key. */
  function Keys(mem: Memory): seq<Msg> {
    [mem.helloSent, mem.helloRead, mem.certificate]
  }

  /** What the ServerHello settled, once there is one. */
  function HelloOf(w: World, mem: Memory): Hello {
    if mem.helloRead.t == SERVER_HELLO then HelloIn(w, mem.helloRead) else NO_HELLO
  }

  function Remember(w: World, mem: Memory, k: nat, p: seq<Event>): Memory {
    if k == 0 then mem.(helloSent := MessageOf(p, 0))
    else if k == 1 then (if p == [] then mem else mem.(helloSent := MessageOf(p, 1)))
    else if k == 2 then mem.(helloRead := MessageOf(p, 0))
    else if HelloOf(w, mem).resumed then mem
    else if k == 3 then mem.(certificate := MessageOf(p, 0))
    else if k == 7 then mem.(request := p != [])
    else if k == 9 then mem.(own := MessageOf(p, 0))
    else mem
  }

  predicate VerifiesHello(p: seq<Event>) {
    |p| == 2 && p[0].Received? && p[0].m.t == HELLO_VERIFY_REQUEST && p[1].Sent? && p[1].m.t == CLIENT_HELLO
  }

  /** A ServerKeyExchange, whose signature is checked first if there is a certificate. */
  predicate ExchangesKeys(c: Cipher, mem: Memory, p: seq<Event>) {
    if UsesCertificate(c) then
      |p| == 2 && p[1].Received? && p[1].m.t == SERVER_KEY_EXCHANGE && p[0] == Signature(Keys(mem), p[1].m)
    else Receives(p, SERVER_KEY_EXCHANGE)
  }

  /** Our CertificateVerify. */
  predicate Proves(mem: Memory, p: seq<Event>) {
    && |p| == 2 && p[1].Sent? && p[1].m.t == CERTIFICATE_VERIFY
    && p[0].Proof? && p[0].own && p[0].certificate == mem.own && p[0].m == p[1].m
  }

  /** How many events come before our Finished: the cipher change, and what was negotiated to follow it. */
  function FinishAt(h: Hello): nat {
    1 + (if h.nextProto then 1 else 0) + (if h.channelId then 1 else 0)
  }

  predicate Extends(h: Hello, p: seq<Event>) {
    && |p| == FinishAt(h) && p[0] == SentCcs
    && (h.nextProto ==> p[1].Sent? && p[1].m.t == NEXT_PROTO)
    && (h.channelId ==> p[|p| - 1].Sent? && p[|p| - 1].m.t == CHANNEL_ID)
  }

  predicate ClientFinishes(h: Hello, p: seq<Event>) {
    OwnFinishes(p, FinishAt(h)) && Extends(h, p[..FinishAt(h)])
  }

  lemma FinishesAfter(h: Hello, p: seq<Event>, q: seq<Event>)
    requires Extends(h, p) && OwnFinishes(q, 0)
    ensures ClientFinishes(h, p + q)
  {
    assert (p + q)[..|p|] == p;
  }

  predicate Ticket(h: Hello, p: seq<Event>) {
    if h.ticket then Receives(p, NEW_SESSION_TICKET) else p == []
  }

  /** Part k of a full handshake. */
  predicate FullPart(w: World, k: nat, mem: Memory, p: seq<Event>) {
    var h := HelloOf(w, mem);
    var c := CipherOf(h);
    if k == 3 then (if UsesCertificate(c) then Receives(p, CERTIFICATE) && !EmptyChain(w, p[0].m) else p == [])
    else if k == 4 then p == [] || (h.status && Receives(p, CERTIFICATE_STATUS))
    else if k == 5 then p == if UsesCertificate(c) then [Judged(mem.certificate)] else []
    else if k == 6 then (p == [] && !RequiresKeyExchange(c)) || ((c.mkey == K_ECDHE || c.mkey == K_PSK) && ExchangesKeys(c, mem, p))
    else if k == 7 then p == [] || (UsesCertificate(c) && Receives(p, CERTIFICATE_REQUEST))
    else if k == 8 then p == [Received(Msg(SERVER_HELLO_DONE, []))]
    else if k == 9 then (if mem.request then Sends(p, CERTIFICATE) else p == [])
    else if k == 10 then Sends(p, CLIENT_KEY_EXCHANGE)
    else if k == 11 then (if mem.request && !EmptyChain(w, mem.own) then Proves(mem, p) else p == [])
    else if k == 12 then ClientFinishes(h, p)
    else if k == 13 then Ticket(h, p)
    else if k == 14 then p == [ReceivedCcs]
    else if k == 15 then Rekeys(p)
    else PeerFinishes(p)
  }

  /** Part k of a resumption: the server finishes first. */
  predicate ResumedPart(h: Hello, k: nat, p: seq<Event>) {
    if k == 3 then Ticket(h, p)
    else if k == 4 then p == [ReceivedCcs]
    else if k == 5 then Rekeys(p)
    else if k == 6 then PeerFinishes(p)
    else ClientFinishes(h, p)
  }

  /** What may come as part k, after what is remembered of the parts before it. */
  predicate Part(w: World, dtls: bool, k: nat, mem: Memory, p: seq<Event>) {
    if k == 0 then Sends(p, CLIENT_HELLO)
    else if k == 1 then p == [] || (dtls && VerifiesHello(p))
    else if k == 2 then Receives(p, SERVER_HELLO) && Settles(HelloIn(w, p[0].m))
    else if HelloOf(w, mem).resumed then ResumedPart(HelloOf(w, mem), k, p)
    else FullPart(w, k, mem, p)
  }

  ghost function Recall(w: World, parts: seq<seq<Event>>): Memory {
    if parts == [] then NOTHING
    else Remember(w, Recall(w, parts[..|parts| - 1]), |parts| - 1, parts[|parts| - 1])
  }

  ghost predicate PartAt(w: World, dtls: bool, parts: seq<seq<Event>>, k: nat)
    requires k < |parts|
  {
    Part(w, dtls, k, Recall(w, parts[..k]), parts[k])
  }

  ghost predicate Parts(w: World, dtls: bool, parts: seq<seq<Event>>) {
    forall k {:trigger PartAt(w, dtls, parts, k)} :: 0 <= k < |parts| ==> PartAt(w, dtls, parts, k)
  }

  /** How many parts a whole handshake has. */
  function Length(resumed: bool): nat {
    if resumed then 8 else 17
  }

  /** A whole handshake. */
  ghost predicate Conforms(w: World, dtls: bool, log: seq<Event>) {
    forall x: int {:trigger Unfold(x)} :: Unfold(x) ==>
      exists parts :: Parts(w, dtls, parts) && |parts| == Length(HelloOf(w, Recall(w, parts)).resumed) && log == Concat(parts)
  }

  lemma PartsGrow(w: World, dtls: bool, parts: seq<seq<Event>>, p: seq<Event>)
    requires Parts(w, dtls, parts) && Part(w, dtls, |parts|, Recall(w, parts), p)
    ensures Parts(w, dtls, parts + [p])
    ensures Recall(w, parts + [p]) == Remember(w, Recall(w, parts), |parts|, p)
  {
    var longer := parts + [p];
    assert longer[..|parts|] == parts;
    forall k | 0 <= k < |longer|
      ensures PartAt(w, dtls, longer, k)
    {
      if k < |parts| {
        assert PartAt(w, dtls, parts, k) && longer[..k] == parts[..k];
      }
    }
  }

  // ----- what a whole handshake has seen to -----

  lemma {:induction false} RecallAfter(w: World, parts: seq<seq<Event>>, k: nat)
    requires k <= |parts|
    ensures k > 1 ==> Recall(w, parts[..k]).helloSent == if parts[1] == [] then MessageOf(parts[0], 0) else MessageOf(parts[1], 1)
    ensures k > 2 ==> Recall(w, parts[..k]).helloRead == MessageOf(parts[2], 0)
    ensures k > 3 && !HelloOf(w, Recall(w, parts[..k])).resumed ==> Recall(w, parts[..k]).certificate == MessageOf(parts[3], 0)
  {
    if k > 0 {
      assert parts[..k][..k - 1] == parts[..k - 1];
      RecallAfter(w, parts, k - 1);
    }
  }

  /** A ServerHello comes as the third part, and a server's Certificate as the fourth, and nowhere else. */
  lemma OnlyPlace(w: World, dtls: bool, k: nat, mem: Memory, p: seq<Event>, j: nat)
    requires Part(w, dtls, k, mem, p) && j < |p| && p[j].Received?
    ensures p[j].m.t == SERVER_HELLO ==> k == 2 && j == 0
    ensures p[j].m.t == CERTIFICATE ==> k == 3 && j == 0 && !HelloOf(w, mem).resumed && UsesCertificate(CipherOf(HelloOf(w, mem)))
  {
  }

  /** Both sides have finished: the cipher change, then the new keys, then the server's Finished, checked and received; and our own. */
  predicate Finishes(log: seq<Event>, resumed: bool, h: nat, c: nat, r: nat, f: nat, o: nat) {
    && h < c < r < f < |log| - 1 && o < |log| - 1
    && log[c] == ReceivedCcs && log[r].Rekeyed?
    && log[f].Finish? && !log[f].own && log[f].m.t == FINISHED && log[f + 1] == Received(log[f].m)
    && log[o].Finish? && log[o].own && log[o].m.t == FINISHED && log[o + 1] == Sent(log[o].m)
    && (if resumed then f < o else h < o < c)
  }

  /** A certificate came after the hello, and was accepted before the cipher change. */
  predicate Certifies(w: World, log: seq<Event>, h: nat, a: nat, b: nat, c: nat) {
    && h < a < b < c < |log| && log[a].Received? && log[a].m.t == CERTIFICATE && !EmptyChain(w, log[a].m)
    && log[b] == Judged(log[a].m) && log[c] == ReceivedCcs
  }

  /** A key exchange was received with a good signature, by the key of that certificate and over the hellos. */
  predicate Signs(log: seq<Event>, h: nat, a: nat, b: nat, k: nat) {
    && h < a < b < k < |log| - 1 && log[h].Received? && log[a].Received?
    && log[k].Signature? && |log[k].keys| == 3 && log[k].keys[1] == log[h].m && log[k].keys[2] == log[a].m
    && log[k].keys[0].t == CLIENT_HELLO && (exists i :: 0 <= i < h && log[i] == Sent(log[k].keys[0]))
    && log[k].m.t == SERVER_KEY_EXCHANGE && log[k + 1] == Received(log[k].m)
  }

  lemma PartOf(w: World, dtls: bool, log: seq<Event>, parts: seq<seq<Event>>, i: nat) returns (k: nat, j: nat)
    requires Parts(w, dtls, parts) && log == Concat(parts) && i < |log| && log[i].Received?
    ensures k < |parts| && j < |parts[k]| && i == Start(parts, k) + j && log[i] == parts[k][j] && PartAt(w, dtls, parts, k)
    ensures log[i].m.t == SERVER_HELLO ==> k == 2 && j == 0
    ensures var hello := HelloOf(w, Recall(w, parts[..k]));
      log[i].m.t == CERTIFICATE ==> k == 3 && j == 0 && !hello.resumed && UsesCertificate(CipherOf(hello))
  {
    k, j := FromConcat(parts, i);
    assert PartAt(w, dtls, parts, k);
    OnlyPlace(w, dtls, k, Recall(w, parts[..k]), parts[k], j);
  }

  /** From the fourth part on, what is remembered of the hello is this message. */
  ghost predicate HelloIs(w: World, parts: seq<seq<Event>>, m: Msg) {
    forall x: int {:trigger Unfold(x)} :: Unfold(x) ==> forall k :: 3 <= k <= |parts| ==> Recall(w, parts[..k]).helloRead == m
  }

  /** The hello of the run is the one in its third part. */
  lemma HelloPart(w: World, dtls: bool, log: seq<Event>, h: nat) returns (parts: seq<seq<Event>>)
    requires Conforms(w, dtls, log) && h < |log| && log[h].Received? && log[h].m.t == SERVER_HELLO
    ensures Parts(w, dtls, parts) && log == Concat(parts) && |parts| == Length(HelloIn(w, log[h].m).resumed)
    ensures h == Start(parts, 2) && parts[2] == [log[h]]
    ensures HelloIs(w, parts, log[h].m)
  {
    assert Unfold(0);
    parts :| Parts(w, dtls, parts) && |parts| == Length(HelloOf(w, Recall(w, parts)).resumed) && log == Concat(parts);
    var k, j := PartOf(w, dtls, log, parts, h);
    forall i | 3 <= i <= |parts|
      ensures Recall(w, parts[..i]).helloRead == log[h].m
    {
      RecallAfter(w, parts, i);
    }
    assert parts[..|parts|] == parts;
  }

  /** Every completed handshake has a ServerHello that settles it. */
  lemma ConformingHasHello(w: World, dtls: bool, log: seq<Event>) returns (h: nat)
    requires Conforms(w, dtls, log)
    ensures h < |log| && log[h].Received? && log[h].m.t == SERVER_HELLO && Settles(HelloIn(w, log[h].m))
  {
    assert Unfold(0);
    var parts :| Parts(w, dtls, parts) && |parts| == Length(HelloOf(w, Recall(w, parts)).resumed) && log == Concat(parts);
    h := ThirdPart(w, dtls, parts);
  }

  lemma ThirdPart(w: World, dtls: bool, parts: seq<seq<Event>>) returns (h: nat)
    requires Parts(w, dtls, parts) && |parts| > 2
    ensures var log := Concat(parts);
      h < |log| && log[h].Received? && log[h].m.t == SERVER_HELLO && Settles(HelloIn(w, log[h].m))
  {
    assert PartAt(w, dtls, parts, 2);
    InConcat(parts, 2, 0);
    h := Start(parts, 2);
  }

  /** The place of the cipher change, and that of our own Finished. */
  function CcsPart(resumed: bool): nat {
    if resumed then 4 else 14
  }

  function OwnPart(resumed: bool): nat {
    if resumed then 7 else 12
  }

  /** The parts that finish a handshake. */
  predicate FinishParts(h: Hello, parts: seq<seq<Event>>) {
    var n := CcsPart(h.resumed);
    && |parts| == Length(h.resumed) && |parts[2]| == 1
    && parts[n] == [ReceivedCcs] && Rekeys(parts[n + 1]) && PeerFinishes(parts[n + 2])
    && ClientFinishes(h, parts[OwnPart(h.resumed)])
  }

  lemma FinishPartsAre(w: World, dtls: bool, parts: seq<seq<Event>>, m: Msg)
    requires Parts(w, dtls, parts) && |parts| == Length(HelloIn(w, m).resumed) && m.t == SERVER_HELLO && |parts[2]| == 1
    requires HelloIs(w, parts, m)
    ensures FinishParts(HelloIn(w, m), parts)
  {
    assert Unfold(0);
    var n, own := CcsPart(HelloIn(w, m).resumed), OwnPart(HelloIn(w, m).resumed);
    assert PartAt(w, dtls, parts, n) && PartAt(w, dtls, parts, n + 1) && PartAt(w, dtls, parts, n + 2) && PartAt(w, dtls, parts, own);
  }

  lemma FinishPartsInOrder(h: Hello, parts: seq<seq<Event>>) returns (c: nat, r: nat, f: nat, o: nat)
    requires FinishParts(h, parts)
    ensures Finishes(Concat(parts), h.resumed, Start(parts, 2), c, r, f, o)
  {
    var n, own, at := CcsPart(h.resumed), OwnPart(h.resumed), FinishAt(h);
    c, r, f, o := Start(parts, n), Start(parts, n + 1), Start(parts, n + 2), Start(parts, own) + at;
    InOrder(parts, 2, 0, n, 0);
    InOrder(parts, n, 0, n + 1, 0);
    InOrder(parts, n + 1, 0, n + 2, 0);
    InConcat(parts, n + 2, 1);
    InConcat(parts, own, at);
    InConcat(parts, own, at + 1);
    if h.resumed {
      InOrder(parts, n + 2, 0, own, at);
    } else {
      InOrder(parts, 2, 0, own, at);
      InOrder(parts, own, at, n, 0);
    }
  }

  /** A completed handshake has finished on both sides, in order. */
  lemma ConformingFinishes(w: World, dtls: bool, log: seq<Event>, h: nat) returns (c: nat, r: nat, f: nat, o: nat)
    requires Conforms(w, dtls, log) && h < |log| && log[h].Received? && log[h].m.t == SERVER_HELLO
    ensures Finishes(log, HelloIn(w, log[h].m).resumed, h, c, r, f, o)
  {
    var parts := HelloPart(w, dtls, log, h);
    FinishPartsAre(w, dtls, parts, log[h].m);
    c, r, f, o := FinishPartsInOrder(HelloIn(w, log[h].m), parts);
  }

  /** The parts that authenticate the server. */
  predicate CertificateParts(w: World, m: Msg, parts: seq<seq<Event>>) {
    && |parts| == 17 && |parts[0]| == 1 && parts[0][0].Sent? && (parts[1] == [] || (|parts[1]| == 2 && parts[1][1].Sent?))
    && parts[2] == [Received(m)] && Receives(parts[3], CERTIFICATE) && !EmptyChain(w, parts[3][0].m)
    && parts[5] == [Judged(parts[3][0].m)] && parts[14] == [ReceivedCcs]
    && HelloSent(parts).t == CLIENT_HELLO
    && (RequiresKeyExchange(CipherOf(HelloIn(w, m))) ==>
          ExchangesKeys(CipherOf(HelloIn(w, m)), Memory(HelloSent(parts), m, parts[3][0].m, false, Msg(0, [])), parts[6]))
  }

  /** The last ClientHello: the first part, or the answer to a HelloVerifyRequest. */
  function HelloSent(parts: seq<seq<Event>>): Msg
    requires |parts| > 1
  {
    if parts[1] == [] then MessageOf(parts[0], 0) else MessageOf(parts[1], 1)
  }

  /** It was sent before the ServerHello. */
  lemma HelloWasSent(parts: seq<seq<Event>>)
    requires |parts| > 2 && |parts[2]| == 1 && HelloSent(parts).t == CLIENT_HELLO
    requires |parts[0]| == 1 && parts[0][0].Sent? && (parts[1] == [] || (|parts[1]| == 2 && parts[1][1].Sent?))
    ensures exists i :: 0 <= i < Start(parts, 2) <= |Concat(parts)| && Concat(parts)[i] == Sent(HelloSent(parts))
  {
    if parts[1] == [] {
      InOrder(parts, 0, 0, 2, 0);
    } else {
      InOrder(parts, 1, 1, 2, 0);
    }
  }

  lemma CertificatePartsAre(w: World, dtls: bool, parts: seq<seq<Event>>, m: Msg)
    requires Parts(w, dtls, parts) && |parts| == 17 && m.t == SERVER_HELLO && parts[2] == [Received(m)]
    requires !HelloIn(w, m).resumed && UsesCertificate(CipherOf(HelloIn(w, m)))
    requires HelloIs(w, parts, m)
    ensures CertificateParts(w, m, parts)
  {
    assert Unfold(0);
    assert PartAt(w, dtls, parts, 3) && PartAt(w, dtls, parts, 14);
    RecallAfter(w, parts, 5);
    assert PartAt(w, dtls, parts, 5);
    RecallAfter(w, parts, 6);
    assert PartAt(w, dtls, parts, 6);
    assert PartAt(w, dtls, parts, 0) && PartAt(w, dtls, parts, 1);
  }

  lemma CertificatePartsInOrder(w: World, m: Msg, parts: seq<seq<Event>>) returns (a: nat, b: nat, c: nat, k: nat)
    requires CertificateParts(w, m, parts) && UsesCertificate(CipherOf(HelloIn(w, m)))
    ensures Certifies(w, Concat(parts), Start(parts, 2), a, b, c)
    ensures RequiresKeyExchange(CipherOf(HelloIn(w, m))) ==> Signs(Concat(parts), Start(parts, 2), a, b, k) && k < c
  {
    InOrder(parts, 2, 0, 3, 0);
    InOrder(parts, 3, 0, 5, 0);
    InOrder(parts, 5, 0, 14, 0);
    a, b, c, k := Start(parts, 3), Start(parts, 5), Start(parts, 14), Start(parts, 6);
    if RequiresKeyExchange(CipherOf(HelloIn(w, m))) {
      InOrder(parts, 5, 0, 6, 0);
      InOrder(parts, 6, 1, 14, 0);
      HelloWasSent(parts);
    }
  }

  /** A completed full handshake with a certificate cipher has a certificate that was accepted; and a signed key exchange if the cipher needs one. */
  lemma ConformingCertifies(w: World, dtls: bool, log: seq<Event>, h: nat) returns (a: nat, b: nat, c: nat, k: nat)
    requires Conforms(w, dtls, log) && h < |log| && log[h].Received? && log[h].m.t == SERVER_HELLO
    requires var hello := HelloIn(w, log[h].m); !hello.resumed && UsesCertificate(CipherOf(hello))
    ensures Certifies(w, log, h, a, b, c)
    ensures RequiresKeyExchange(CipherOf(HelloIn(w, log[h].m))) ==> Signs(log, h, a, b, k) && k < c
  {
    var parts := HelloPart(w, dtls, log, h);
    CertificatePartsAre(w, dtls, parts, log[h].m);
    a, b, c, k := CertificatePartsInOrder(w, log[h].m, parts);
  }

  lemma CertificateIn(w: World, dtls: bool, log: seq<Event>, parts: seq<seq<Event>>, a: nat, m: Msg)
    requires Parts(w, dtls, parts) && log == Concat(parts) && HelloIs(w, parts, m) && |parts| > 3 && m.t == SERVER_HELLO
    requires a < |log| && log[a].Received? && log[a].m.t == CERTIFICATE
    ensures a == Start(parts, 3) && |parts[3]| > 0 && parts[3][0] == log[a]
    ensures !HelloIn(w, m).resumed && UsesCertificate(CipherOf(HelloIn(w, m)))
  {
    assert Unfold(0);
    var k, j := PartOf(w, dtls, log, parts, a);
  }

  /** Whatever certificate a completed handshake received, it was accepted afterwards. */
  lemma EveryCertificateJudged(w: World, dtls: bool, log: seq<Event>, a: nat) returns (b: nat)
    requires Conforms(w, dtls, log) && a < |log| && log[a].Received? && log[a].m.t == CERTIFICATE
    ensures a < b < |log| && log[b] == Judged(log[a].m)
  {
    var h := ConformingHasHello(w, dtls, log);
    var parts := HelloPart(w, dtls, log, h);
    b := JudgedIn(w, dtls, log, parts, a, log[h].m);
  }

  lemma JudgedIn(w: World, dtls: bool, log: seq<Event>, parts: seq<seq<Event>>, a: nat, m: Msg) returns (b: nat)
    requires Parts(w, dtls, parts) && log == Concat(parts) && HelloIs(w, parts, m) && |parts| == Length(HelloIn(w, m).resumed)
    requires m.t == SERVER_HELLO && parts[2] == [Received(m)] && a < |log| && log[a].Received? && log[a].m.t == CERTIFICATE
    ensures a < b < |log| && log[b] == Judged(log[a].m)
  {
    CertificateIn(w, dtls, log, parts, a, m);
    CertificatePartsAre(w, dtls, parts, m);
    InOrder(parts, 3, 0, 5, 0);
    b := Start(parts, 5);
  }

  // ----- the machine -----

  /** How many parts are over when a state is entered, in a full handshake and in a resumption. */
  function Index(state: State, resumed: bool): nat {
    if state <= ENTER_EARLY_DATA then state
    else if state <= READ_HELLO then state - 1
    else if state == STATE_TLS13 then 2
    else if resumed then ShortIndex(state)
    else if state <= FINISH_FLIGHT then state - 2
    else if state <= PROCESS_CCS then state - 3
    else if state == READ_FINISHED then 16
    else 17
  }

  function ShortIndex(state: State): nat {
    if state == READ_SESSION_TICKET then 3
    else if state == PROCESS_CCS then 4
    else if state == READ_FINISHED then 6
    else if state == SEND_FINISHED then 7
    else 8
  }

  /** While the cipher change is awaited, its part is not over. */
  function PartsOver(state: State, resumed: bool, awaitCcs: bool): nat {
    Index(state, resumed) + if state == PROCESS_CCS && !awaitCcs then 1 else 0
  }

  /** How far a state is from the end; resumption swaps the two ways of finishing. */
  function Rank(state: State, resumed: bool): nat {
    if state >= DONE then 0
    else if resumed && READ_SESSION_TICKET <= state <= READ_FINISHED then 26 - state
    else if resumed && SEND_FINISHED <= state <= FINISH_FLIGHT then 17 - state
    else 20 - state
  }

  predicate AfterHello(state: State) {
    state > STATE_TLS13
  }

  /** The states of a resumption after the hello. */
  predicate InResumption(state: State) {
    state >= SEND_FINISHED
  }

  /** What a client has before it. */
  datatype View = View(state: State, incoming: seq<Msg>, memory: Memory, spoken: seq<Msg>)

  /** The server gave cause to fail: its certificate is refused, or the next message is not one that may come. */
  predicate Refused(w: World, v: View) {
    if v.state == VERIFY_CERTIFICATE then UsesCertificate(CipherOf(HelloOf(w, v.memory))) && !Trusted(w, v.memory.certificate)
    else v.incoming != [] && Unwelcome(w, v, v.incoming[0])
  }

  predicate Unwelcome(w: World, v: View, m: Msg) {
    var c := CipherOf(HelloOf(w, v.memory));
    if v.state == READ_HELLO then BadHello(w, m)
    else if v.state == READ_CERTIFICATE then UsesCertificate(c) && (m.t != CERTIFICATE || EmptyChain(w, m))
    else if v.state == READ_KEY_EXCHANGE then BadKeyExchange(w, v.memory, m)
    else if v.state == READ_CERTIFICATE_REQUEST then UsesCertificate(c) && m.t != SERVER_HELLO_DONE && m.t != CERTIFICATE_REQUEST
    else if v.state == READ_HELLO_DONE then m != Msg(SERVER_HELLO_DONE, [])
    else if v.state == READ_SESSION_TICKET then HelloOf(w, v.memory).ticket && m.t != NEW_SESSION_TICKET
    else if v.state == PROCESS_CCS then true
    else v.state == READ_FINISHED && m != FinishedOf(w, true, v.spoken)
  }

  predicate BadHello(w: World, m: Msg) {
    m.t != SERVER_HELLO || (!HelloIn(w, m).tls13 && HelloIn(w, m).cipher.None?)
  }

  predicate BadKeyExchange(w: World, mem: Memory, m: Msg) {
    var c := CipherOf(HelloOf(w, mem));
    if m.t != SERVER_KEY_EXCHANGE then RequiresKeyExchange(c)
    else (c.mkey != K_ECDHE && c.mkey != K_PSK) || (UsesCertificate(c) && !KeyExchangeOk(w, Keys(mem), m))
  }

  /** can_false_start. */
  predicate CanFalseStart(w: World, dtls: bool, h: Hello) {
    && !dtls && h.version == TLS1_2 && CipherOf(h).mkey == K_ECDHE && CipherOf(h).mac == M_AEAD
    && (w.falseStartWithoutAlpn || h.protocolChosen)
  }

  /** The first k parts are over: the log consists of them, and this is what they leave to remember. */
  ghost predicate Known(w: World, dtls: bool, k: nat, log: seq<Event>, recalled: Memory) {
    forall x: int {:trigger Unfold(x)} :: Unfold(x) ==>
      exists parts :: |parts| == k && Parts(w, dtls, parts) && log == Concat(parts) && recalled == Recall(w, parts)
  }

  lemma KnownGrows(w: World, dtls: bool, k: nat, log: seq<Event>, recalled: Memory, p: seq<Event>)
    requires Known(w, dtls, k, log, recalled) && Part(w, dtls, k, recalled, p)
    ensures Known(w, dtls, k + 1, log + p, Remember(w, recalled, k, p))
  {
    assert Unfold(0);
    var parts :| |parts| == k && Parts(w, dtls, parts) && log == Concat(parts) && recalled == Recall(w, parts);
    PartsGrow(w, dtls, parts, p);
    ConcatSnoc(parts, p);
    assert |parts + [p]| == k + 1;
  }

  lemma KnownAtFirst(w: World, dtls: bool)
    ensures Known(w, dtls, 0, [], NOTHING)
  {
    var parts: seq<seq<Event>> := [];
    assert |parts| == 0 && Parts(w, dtls, parts) && [] == Concat(parts) && NOTHING == Recall(w, parts);
  }

  /** What the machine may rely on in a state. */
  ghost predicate Agrees(w: World, dtls: bool, st: State, mem: Memory, ticketExpected: bool, hash: bool) {
    var hello := HelloOf(w, mem);
    && (st == READ_HELLO_VERIFY_REQUEST ==> dtls)
    && (if AfterHello(st) then hash && Settles(hello) else !hello.resumed && !mem.request)
    && (hello.resumed ==> InResumption(st) && !mem.request)
    && (st <= READ_CERTIFICATE_REQUEST ==> !mem.request)
    && (mem.request ==> UsesCertificate(CipherOf(hello)))
    && (AfterHello(st) && st <= READ_SESSION_TICKET && (st == READ_SESSION_TICKET || !hello.resumed) ==> ticketExpected == hello.ticket)
  }

  /** We have a certificate and were asked for it. */
  predicate HasOwn(w: World, mem: Memory) {
    mem.request && !EmptyChain(w, mem.own)
  }

  /** The buffer will not have to be signed any more. */
  ghost predicate MayFree(w: World, st: State, mem: Memory) {
    if st <= STATE_TLS13 then false
    else if st <= READ_CERTIFICATE_REQUEST then !UsesCertificate(CipherOf(HelloOf(w, mem)))
    else if st <= SEND_CERTIFICATE then !mem.request
    else st > SEND_PROOF || !HasOwn(w, mem)
  }

  /** With p as part k, the machine may be in the next state. */
  ghost predicate Ready(w: World, dtls: bool, k: nat, mem: Memory, p: seq<Event>, next: State, ticketExpected: bool, hash: bool, buffer: bool) {
    forall x: int {:trigger Open(x)} :: Open(x) ==>
      var after := Remember(w, mem, k, p);
      && Part(w, dtls, k, mem, p) && PartsOver(next, HelloOf(w, after).resumed, false) == k + 1
      && Agrees(w, dtls, next, after, ticketExpected, hash) && (buffer || MayFree(w, next, after))
  }

  class Client {
    const dtls: bool
    const s: Session
    var state: State
    var failed: bool
    var awaitCcs: bool
    var ticketExpected: bool
    var memory: Memory
    ghost var over: nat

    function Agreed(): Hello
      reads this`memory
    {
      HelloOf(s.world, memory)
    }

    /** The log is what must have happened on the way to this state. */
    ghost predicate Valid()
      reads this, s
    {
      && s.Valid() && !s.server
      && (!failed ==>
          && !s.hashed && Known(s.world, dtls, over, s.log, memory)
          && over == PartsOver(state, Agreed().resumed, awaitCcs) && (awaitCcs ==> state == PROCESS_CCS)
          && Agrees(s.world, dtls, state, memory, ticketExpected, s.hash.Some?)
          && (s.buffer.Some? || MayFree(s.world, state, memory)))
    }

    constructor (dtls: bool, s: Session)
      requires s.Valid() && s.log == [] && s.buffer.Some? && !s.hashed && !s.server
      ensures this.dtls == dtls && this.s == s && Valid() && !failed && state == START_CONNECT && !awaitCcs
    {
      this.dtls, this.s := dtls, s;
      state, failed, awaitCcs := START_CONNECT, false, false;
      ticketExpected, memory, over := false, NOTHING, 0;
      KnownAtFirst(s.world, dtls);
    }

    /** The machine moves on with one more part behind it, and remembers what later parts refer to. */
    method Follow(next: State, ghost log: seq<Event>, p: seq<Event>, k: nat)
      requires !failed && !awaitCcs && s.Valid() && !s.server && !s.hashed && next != PROCESS_CCS
      requires Known(s.world, dtls, k, log, memory) && s.log == log + p
      requires Ready(s.world, dtls, k, memory, p, next, ticketExpected, s.hash.Some?, s.buffer.Some?)
      modifies this`state, this`memory, this`over
      ensures Valid() && state == next && (k != 2 ==> Agreed().resumed == old(Agreed().resumed))
      ensures k == 2 ==> memory.helloRead == MessageOf(p, 0)
    {
      assert Open(0);
      KnownGrows(s.world, dtls, k, log, memory, p);
      memory, over := Remember(s.world, memory, k, p), k + 1;
      state := next;
    }

    /**
      What every step guarantees: the invariant; that staying in a state leaves the log
      alone and asks for something; and that moving on never goes back.
     */
    twostate predicate Stepped(w: Wait)
      reads this, s
    {
      && Valid() && failed == (w == Error) && s.arrived == old(s.arrived)
      && (!failed ==> awaitCcs == (w == ReadChangeCipherSpec))
      && (!failed && state == old(state) ==> w != Ok && s.log == old(s.log) && Agreed().resumed == old(Agreed().resumed))
      && (!failed && state != old(state) ==> Rank(state, Agreed().resumed) < old(Rank(state, Agreed().resumed)))
    }

    /**
      If nothing of the client's own goes wrong, a step fails exactly if the server gave
      cause, and then leaves the messages alone; it waits for nothing but the network; and
      it stays only for want of a message.
     */
    twostate predicate Goes(e: Env, w: Wait, cause: bool)
      reads this, s
    {
      Cooperative(e) ==>
        && (failed <==> cause) && (failed ==> Kept()) && Paused(w, s.incoming)
        && (!failed && state == old(state) ==> Starved(w, s.incoming) || w == LeftToTls13)
    }

    twostate predicate Kept()
      reads s
    {
      s.incoming == old(s.incoming) && s.spoken == old(s.spoken) && s.log == old(s.log)
    }

    ghost predicate In(st: State)
      reads this, s
    {
      Valid() && !failed && !awaitCcs && state == st
    }

    method Fail() returns (w: Wait)
      modifies this`failed
      ensures failed && w == Error
    {
      failed := true;
      w := Error;
    }

    /** do_start_connect. */
    method DoStartConnect(e: Env) returns (w: Wait)
      requires In(START_CONNECT)
      modifies this, s
      ensures Stepped(w)
      ensures Goes(e, w, false)
    {
      ghost var log := s.log;
      if !e.checks {
        w := Fail();
        return;
      }
      s.Send(CLIENT_HELLO, e.body);
      Follow(ENTER_EARLY_DATA, log, [Sent(Msg(CLIENT_HELLO, e.body))], 0);
      w := Flush;
    }

    /** do_enter_early_data, when no early data is offered. */
    method DoEnterEarlyData(e: Env) returns (w: Wait)
      requires In(ENTER_EARLY_DATA)
      modifies this, s
      ensures Stepped(w)
      ensures Goes(e, w, false)
    {
      ghost var log := s.log;
      if dtls {
        state := READ_HELLO_VERIFY_REQUEST;
        return Ok;
      }
      Follow(READ_HELLO, log, [], 1);
      w := Ok;
    }

    /** do_read_hello_verify_request. */
    method DoReadHelloVerifyRequest(e: Env) returns (w: Wait)
      requires In(READ_HELLO_VERIFY_REQUEST)
      modifies this, s
      ensures Stepped(w)
      ensures Goes(e, w, false)
    {
      ghost var log := s.log;
      if s.incoming == [] {
        return ReadMessage;
      }
      if s.incoming[0].t != HELLO_VERIFY_REQUEST {
        Follow(READ_HELLO, log, [], 1);
        return Ok;
      }
      if !e.checks {
        w := Fail();
        return;
      }
      SendHelloAgain(e.body);
      w := Flush;
    }

    method SendHelloAgain(body: seq<byte>)
      requires In(READ_HELLO_VERIFY_REQUEST) && s.incoming != [] && s.incoming[0].t == HELLO_VERIFY_REQUEST
      modifies this`state, this`memory, this`over, s`incoming, s`log, s`spoken, s`buffer, s`hash
      ensures Valid() && state == READ_HELLO
    {
      ghost var log := s.log;
      var request := s.incoming[0];
      s.Restart();
      s.Send(CLIENT_HELLO, body);
      Follow(READ_HELLO, log, [Received(request), Sent(Msg(CLIENT_HELLO, body))], 1);
    }

    /** do_read_server_hello. */
    method DoReadHello(e: Env) returns (w: Wait)
      requires In(READ_HELLO)
      modifies this, s
      ensures Stepped(w)
      ensures Goes(e, w, old(s.incoming != [] && BadHello(s.world, s.incoming[0])))
    {
      if s.incoming == [] {
        return ReadServerHello;
      }
      if s.incoming[0].t != SERVER_HELLO {
        w := Fail();
        return;
      }
      var h := HelloIn(s.world, s.incoming[0]);
      if h.tls13 {
        state := STATE_TLS13;
        return LeftToTls13;
      }
      if h.cipher.None? {
        w := Fail();
        return;
      }
      HashHello(h);
      if !e.checks {
        w := Fail();
        return;
      }
      FollowHello();
      w := Ok;
    }

    /** The hash is started with the ServerHello, and the buffer dropped if it will not be signed. */
    method HashHello(h: Hello)
      requires s.Valid() && s.incoming != [] && !s.hashed && s.buffer.Some?
      modifies s`buffer, s`hash, s`hashed
      ensures s.Valid() && s.hashed && s.hash.Some? && s.buffer.Some? == (!h.resumed && UsesCertificate(CipherOf(h)))
    {
      s.InitHash();
      s.HashMessage();
      if h.resumed || !UsesCertificate(CipherOf(h)) {
        s.FreeBuffer();
      }
    }

    /** What the ServerHello settles. */
    method FollowHello()
      requires !failed && !awaitCcs && state == READ_HELLO && s.Valid() && !s.server && Known(s.world, dtls, 2, s.log, memory)
      requires s.hashed && s.hash.Some? && !memory.request && s.incoming[0].t == SERVER_HELLO && Settles(HelloIn(s.world, s.incoming[0]))
      requires var h := HelloIn(s.world, s.incoming[0]); s.buffer.Some? == (!h.resumed && UsesCertificate(CipherOf(h)))
      modifies this`state, this`memory, this`over, this`ticketExpected, s`incoming, s`log, s`spoken, s`hashed
      ensures Valid() && state == if Agreed().resumed then READ_SESSION_TICKET else READ_CERTIFICATE
    {
      ghost var log := s.log;
      var m := s.incoming[0];
      var h := HelloIn(s.world, m);
      ticketExpected := h.ticket;
      s.NextMessage();
      Follow(if h.resumed then READ_SESSION_TICKET else READ_CERTIFICATE, log, [Received(m)], 2);
    }

    /** The first waiting message is hashed; if it is in order, it is released and the machine moves on. */
    method Take(inOrder: bool, next: State, k: nat) returns (w: Wait)
      requires !failed && !awaitCcs && s.Valid() && !s.server && !s.hashed && s.incoming != []
      requires s.incoming[0].t != HELLO_VERIFY_REQUEST && next != PROCESS_CCS && Known(s.world, dtls, k, s.log, memory)
      requires inOrder ==>
        Ready(s.world, dtls, k, memory, [Received(s.incoming[0])], next, ticketExpected, s.hash.Some?, s.buffer.Some?)
      modifies this`state, this`memory, this`over, this`failed, s`incoming, s`log, s`spoken, s`hashed, s`buffer, s`hash
      ensures inOrder ==> w == Ok && Valid() && !failed && state == next && (k != 2 ==> Agreed().resumed == old(Agreed().resumed))
      ensures !inOrder ==> w == Error && Valid() && failed && Kept()
    {
      ghost var log := s.log;
      var m := s.incoming[0];
      s.HashMessage();
      if !inOrder {
        w := Fail();
        return;
      }
      s.NextMessage();
      Follow(next, log, [Received(m)], k);
      w := Ok;
    }

    /** do_read_server_certificate. */
    method DoReadCertificate(e: Env) returns (w: Wait)
      requires In(READ_CERTIFICATE)
      modifies this, s
      ensures Stepped(w)
      ensures Goes(e, w, old(UsesCertificate(CipherOf(Agreed())) && s.incoming != [] && (s.incoming[0].t != CERTIFICATE || EmptyChain(s.world, s.incoming[0]))))
    {
      ghost var log := s.log;
      if !UsesCertificate(CipherOf(Agreed())) {
        Follow(READ_CERTIFICATE_STATUS, log, [], 3);
        return Ok;
      }
      if s.incoming == [] {
        return ReadMessage;
      }
      if s.incoming[0].t != CERTIFICATE {
        w := Fail();
        return;
      }
      w := Take(e.checks && !EmptyChain(s.world, s.incoming[0]), READ_CERTIFICATE_STATUS, 3);
    }

    /** do_read_certificate_status: the server may change its mind about sending one. */
    method DoReadCertificateStatus(e: Env) returns (w: Wait)
      requires In(READ_CERTIFICATE_STATUS)
      modifies this, s
      ensures Stepped(w)
      ensures Goes(e, w, false)
    {
      ghost var log := s.log;
      if !Agreed().status {
        Follow(VERIFY_CERTIFICATE, log, [], 4);
        return Ok;
      }
      if s.incoming == [] {
        return ReadMessage;
      }
      if s.incoming[0].t != CERTIFICATE_STATUS {
        Follow(VERIFY_CERTIFICATE, log, [], 4);
        return Ok;
      }
      w := Take(e.checks, VERIFY_CERTIFICATE, 4);
    }

    /** do_verify_server_certificate. */
    method DoVerifyCertificate(e: Env) returns (w: Wait)
      requires In(VERIFY_CERTIFICATE)
      modifies this, s
      ensures Stepped(w)
      ensures Goes(e, w, old(UsesCertificate(CipherOf(Agreed())) && !Trusted(s.world, memory.certificate)))
    {
      ghost var log := s.log;
      if !UsesCertificate(CipherOf(Agreed())) {
        Follow(READ_KEY_EXCHANGE, log, [], 5);
        return Ok;
      }
      if e.verifyLater {
        return CertificateVerify;
      }
      if !Trusted(s.world, memory.certificate) {
        w := Fail();
        return;
      }
      s.Mark(Judged(memory.certificate));
      Follow(READ_KEY_EXCHANGE, log, [Judged(memory.certificate)], 5);
      w := Ok;
    }

    /** do_read_server_key_exchange: optional for some ciphers; signed if there is a certificate. */
    method DoReadKeyExchange(e: Env) returns (w: Wait)
      requires In(READ_KEY_EXCHANGE)
      modifies this, s
      ensures Stepped(w)
      ensures Goes(e, w, old(s.incoming != [] && BadKeyExchange(s.world, memory, s.incoming[0])))
    {
      ghost var log := s.log;
      if s.incoming == [] {
        return ReadMessage;
      }
      if s.incoming[0].t != SERVER_KEY_EXCHANGE {
        if RequiresKeyExchange(CipherOf(Agreed())) {
          w := Fail();
          return;
        }
        Follow(READ_CERTIFICATE_REQUEST, log, [], 6);
        return Ok;
      }
      w := TakeKeyExchange(e.checks && !BadKeyExchange(s.world, memory, s.incoming[0]));
    }

    /** The signature is checked after the message is hashed, and before it is released. */
    method TakeKeyExchange(inOrder: bool) returns (w: Wait)
      requires In(READ_KEY_EXCHANGE) && s.incoming != [] && s.incoming[0].t == SERVER_KEY_EXCHANGE
      requires inOrder ==> !BadKeyExchange(s.world, memory, s.incoming[0])
      modifies this`state, this`memory, this`over, this`failed, s`incoming, s`log, s`spoken, s`hashed, s`buffer, s`hash
      ensures inOrder ==> w == Ok && Valid() && !failed && state == READ_CERTIFICATE_REQUEST
      ensures !inOrder ==> w == Error && Valid() && failed && Kept()
    {
      ghost var log := s.log;
      var m := s.incoming[0];
      s.HashMessage();
      if !inOrder {
        w := Fail();
        return;
      }
      if UsesCertificate(CipherOf(Agreed())) {
        s.Mark(Signature(Keys(memory), s.incoming[0]));
        s.NextMessage();
        Follow(READ_CERTIFICATE_REQUEST, log, [Signature(Keys(memory), m), Received(m)], 6);
      } else {
        s.NextMessage();
        Follow(READ_CERTIFICATE_REQUEST, log, [Received(m)], 6);
      }
      w := Ok;
    }

    /** do_read_certificate_request. */
    method DoReadCertificateRequest(e: Env) returns (w: Wait)
      requires In(READ_CERTIFICATE_REQUEST)
      modifies this, s
      ensures Stepped(w)
      ensures Goes(e, w, old(UsesCertificate(CipherOf(Agreed())) && s.incoming != [] && s.incoming[0].t != SERVER_HELLO_DONE && s.incoming[0].t != CERTIFICATE_REQUEST))
    {
      if !UsesCertificate(CipherOf(Agreed())) {
        NoRequest(false);
        return Ok;
      }
      if s.incoming == [] {
        return ReadMessage;
      }
      if s.incoming[0].t == SERVER_HELLO_DONE {
        NoRequest(true);
        return Ok;
      }
      if s.incoming[0].t != CERTIFICATE_REQUEST {
        w := Fail();
        return;
      }
      w := Take(e.checks, READ_HELLO_DONE, 7);
    }

    /** No client authentication; a buffer kept for it is released. */
    method NoRequest(free: bool)
      requires In(READ_CERTIFICATE_REQUEST)
      modifies this`state, this`memory, this`over, s`buffer
      ensures Valid() && state == READ_HELLO_DONE
    {
      ghost var log := s.log;
      if free {
        s.FreeBuffer();
      }
      Follow(READ_HELLO_DONE, log, [], 7);
    }

    /** do_read_server_hello_done. */
    method DoReadHelloDone(e: Env) returns (w: Wait)
      requires In(READ_HELLO_DONE)
      modifies this, s
      ensures Stepped(w)
      ensures Goes(e, w, old(s.incoming != [] && s.incoming[0] != Msg(SERVER_HELLO_DONE, [])))
    {
      if s.incoming == [] {
        return ReadMessage;
      }
      if s.incoming[0].t != SERVER_HELLO_DONE {
        w := Fail();
        return;
      }
      w := Take(s.incoming[0].body == [], SEND_CERTIFICATE, 8);
    }

    /** do_send_client_certificate. */
    method DoSendCertificate(e: Env) returns (w: Wait)
      requires In(SEND_CERTIFICATE)
      modifies this, s
      ensures Stepped(w)
      ensures Goes(e, w, false)
    {
      ghost var log := s.log;
      if !memory.request {
        Follow(SEND_KEY_EXCHANGE, log, [], 9);
        return Ok;
      }
      if e.certCallback == Failure {
        w := Fail();
        return;
      }
      if e.certCallback == Retry {
        return X509Lookup;
      }
      if !e.checks {
        w := Fail();
        return;
      }
      OutputCertificate(e.body);
      w := Ok;
    }

    /** Without a certificate an empty list is sent, and the buffer is not needed any more. */
    method OutputCertificate(body: seq<byte>)
      requires In(SEND_CERTIFICATE) && memory.request
      modifies this`state, this`memory, this`over, s`buffer, s`hash, s`log, s`spoken
      ensures Valid() && state == SEND_KEY_EXCHANGE
    {
      ghost var log := s.log;
      if EmptyChain(s.world, Msg(CERTIFICATE, body)) {
        s.FreeBuffer();
      }
      s.Send(CERTIFICATE, body);
      Follow(SEND_KEY_EXCHANGE, log, [Sent(Msg(CERTIFICATE, body))], 9);
    }

    /** do_send_client_key_exchange. */
    method DoSendKeyExchange(e: Env) returns (w: Wait)
      requires In(SEND_KEY_EXCHANGE)
      modifies this, s
      ensures Stepped(w)
      ensures Goes(e, w, false)
    {
      ghost var log := s.log;
      if !e.checks {
        w := Fail();
        return;
      }
      s.Send(CLIENT_KEY_EXCHANGE, e.body);
      Follow(SEND_PROOF, log, [Sent(Msg(CLIENT_KEY_EXCHANGE, e.body))], 10);
      w := Ok;
    }

    /** do_send_client_certificate_verify: the buffer that is signed is live and complete. */
    method DoSendProof(e: Env) returns (w: Wait)
      requires In(SEND_PROOF)
      modifies this, s
      ensures Stepped(w)
      ensures Goes(e, w, false)
    {
      ghost var log := s.log;
      if !HasOwn(s.world, memory) {
        Follow(SEND_FINISHED, log, [], 11);
        return Ok;
      }
      if !e.checks || e.sign == Failure {
        w := Fail();
        return;
      }
      if e.sign == Retry {
        return PrivateKeyOperation;
      }
      FollowProof(e.body);
      w := Ok;
    }

    method FollowProof(body: seq<byte>)
      requires In(SEND_PROOF) && HasOwn(s.world, memory)
      modifies this`state, this`memory, this`over, s`buffer, s`hash, s`log, s`spoken
      ensures Valid() && state == SEND_FINISHED
    {
      ghost var log := s.log;
      var p := s.SendProof(memory.own, body);
      Follow(SEND_FINISHED, log, p, 11);
    }

    /** do_send_client_finished. */
    method DoSendFinished(e: Env) returns (w: Wait)
      requires In(SEND_FINISHED)
      modifies this, s
      ensures Stepped(w)
      ensures Goes(e, w, false)
    {
      if Agreed().channelId && !e.channelIdKey {
        return ChannelIdLookup;
      }
      if !e.checks {
        w := Fail();
        return;
      }
      FollowFinish(e.body);
      w := Flush;
    }

    method FollowFinish(body: seq<byte>)
      requires In(SEND_FINISHED)
      modifies this`state, this`memory, this`over, s`buffer, s`hash, s`log, s`spoken
      ensures Valid() && state == FINISH_FLIGHT && Agreed().resumed == old(Agreed().resumed)
    {
      ghost var log := s.log;
      var p := WriteExtensions(body);
      var q := s.SendFinished();
      Appended(log, p, q);
      FinishesAfter(Agreed(), p, q);
      Follow(FINISH_FLIGHT, log, p + q, Index(SEND_FINISHED, Agreed().resumed));
    }

    /** The cipher change and what was negotiated to follow it. */
    method WriteExtensions(body: seq<byte>) returns (p: seq<Event>)
      requires s.Valid() && !s.hashed && s.hash.Some?
      modifies s`buffer, s`hash, s`log, s`spoken
      ensures s.Valid() && s.hash.Some? && s.buffer.Some? == old(s.buffer).Some?
      ensures s.log == old(s.log) + p && Extends(Agreed(), p)
    {
      s.Mark(SentCcs);
      p := [SentCcs];
      if Agreed().nextProto {
        s.Send(NEXT_PROTO, body);
        Appended(old(s.log), p, [Sent(Msg(NEXT_PROTO, body))]);
        p := p + [Sent(Msg(NEXT_PROTO, body))];
      }
      if Agreed().channelId {
        s.Send(CHANNEL_ID, body);
        Appended(old(s.log), p, [Sent(Msg(CHANNEL_ID, body))]);
        p := p + [Sent(Msg(CHANNEL_ID, body))];
      }
    }

    /** do_finish_flight: an early return only as can_false_start allows. */
    method DoFinishFlight(e: Env) returns (w: Wait)
      requires In(FINISH_FLIGHT)
      modifies this, s
      ensures Stepped(w)
      ensures Goes(e, w, false)
      ensures w == EarlyReturn <==>
        && !Agreed().resumed && e.checks && s.world.falseStart && !dtls && Agreed().version == 0x0303 && Agreed().cipher.Some?
        && Agreed().cipher.value.mkey == 1 && Agreed().cipher.value.mac == 3 && (s.world.falseStartWithoutAlpn || Agreed().protocolChosen)
    {
      if Agreed().resumed {
        state := FINISH_HANDSHAKE;
        return Ok;
      }
      if !e.checks {
        w := Fail();
        return;
      }
      state := READ_SESSION_TICKET;
      w := if s.world.falseStart && CanFalseStart(s.world, dtls, Agreed()) then EarlyReturn else Ok;
    }

    /** do_read_session_ticket. */
    method DoReadSessionTicket(e: Env) returns (w: Wait)
      requires In(READ_SESSION_TICKET)
      modifies this, s
      ensures Stepped(w)
      ensures Goes(e, w, old(ticketExpected && s.incoming != [] && s.incoming[0].t != NEW_SESSION_TICKET))
    {
      if !ticketExpected {
        ExpectCcs(s.log, []);
        return ReadChangeCipherSpec;
      }
      if s.incoming == [] {
        return ReadMessage;
      }
      if s.incoming[0].t != NEW_SESSION_TICKET {
        w := Fail();
        return;
      }
      w := TakeTicket(e.checks, e.emptyTicket);
    }

    method TakeTicket(inOrder: bool, empty: bool) returns (w: Wait)
      requires In(READ_SESSION_TICKET) && ticketExpected && s.incoming != [] && s.incoming[0].t == NEW_SESSION_TICKET
      modifies this`state, this`over, this`failed, this`awaitCcs, this`ticketExpected, s`incoming, s`log, s`spoken, s`hashed, s`buffer, s`hash
      ensures inOrder ==> w == ReadChangeCipherSpec && Valid() && !failed && state == PROCESS_CCS && awaitCcs
      ensures !inOrder ==> w == Error && Valid() && failed && Kept()
    {
      ghost var m, log := s.incoming[0], s.log;
      s.HashMessage();
      if !inOrder {
        w := Fail();
        return;
      }
      if empty {
        ticketExpected := false;
      }
      s.NextMessage();
      ExpectCcs(log, [Received(m)]);
      w := ReadChangeCipherSpec;
    }

    method ExpectCcs(ghost log: seq<Event>, ghost ticket: seq<Event>)
      requires !failed && !awaitCcs && state == READ_SESSION_TICKET && s.Valid() && !s.server && !s.hashed && s.hash.Some?
      requires over == Index(state, Agreed().resumed) && Known(s.world, dtls, over, log, memory) && s.log == log + ticket && Ticket(Agreed(), ticket)
      requires Agrees(s.world, dtls, state, memory, Agreed().ticket, true)
      modifies this`state, this`over, this`awaitCcs
      ensures Valid() && state == PROCESS_CCS && awaitCcs
    {
      KnownGrows(s.world, dtls, over, log, memory, ticket);
      over := over + 1;
      state, awaitCcs := PROCESS_CCS, true;
    }

    /** do_process_change_cipher_spec: the read keys change, unless a message is still waiting. */
    method DoProcessCcs(e: Env) returns (w: Wait)
      requires In(PROCESS_CCS)
      modifies this, s
      ensures Stepped(w)
      ensures Goes(e, w, old(s.incoming != []))
    {
      if !e.checks {
        w := Fail();
        return;
      }
      w := Rekey();
    }

    method Rekey() returns (w: Wait)
      requires In(PROCESS_CCS)
      modifies this`state, this`memory, this`over, this`failed, s`log, s`spoken
      ensures s.incoming == [] ==> w == Ok && Valid() && !failed && state == READ_FINISHED && Agreed().resumed == old(Agreed().resumed)
      ensures s.incoming != [] ==> w == Error && Valid() && failed && Kept()
    {
      ghost var log := s.log;
      var ok := s.Rekey();
      if !ok {
        w := Fail();
        return;
      }
      Follow(READ_FINISHED, log, [Rekeyed(s.arrived)], PartsOver(PROCESS_CCS, Agreed().resumed, false));
      w := Ok;
    }

    /** do_read_server_finished. */
    method DoReadFinished(e: Env) returns (w: Wait)
      requires In(READ_FINISHED)
      modifies this, s
      ensures Stepped(w)
      ensures Goes(e, w, old(s.incoming != [] && s.incoming[0] != FinishedOf(s.world, true, s.spoken)))
    {
      w := TakeFinished();
    }

    method TakeFinished() returns (w: Wait)
      requires In(READ_FINISHED)
      modifies this`state, this`memory, this`over, this`failed, s`incoming, s`log, s`spoken, s`hashed, s`buffer, s`hash
      ensures Valid() && failed == (w == Error) && (w == ReadMessage <==> old(s.incoming) == [])
      ensures w == Ok <==> old(s.incoming) != [] && old(s.incoming)[0] == FinishedOf(s.world, true, old(s.spoken))
      ensures w == Ok ==> state == (if Agreed().resumed then SEND_FINISHED else FINISH_HANDSHAKE) && Agreed().resumed == old(Agreed().resumed)
      ensures (w == Ok || w == ReadMessage || w == Error) && (w == Error ==> Kept())
      ensures w == ReadMessage ==> s.log == old(s.log) && s.incoming == [] && state == old(state) && Agreed().resumed == old(Agreed().resumed)
    {
      ghost var log := s.log;
      var p;
      w, p := s.GetFinished();
      if w == Error {
        w := Fail();
        return;
      }
      if w != Ok {
        return;
      }
      Follow(if Agreed().resumed then SEND_FINISHED else FINISH_HANDSHAKE, log, p, Index(READ_FINISHED, Agreed().resumed));
    }

    /** do_finish_client_handshake. */
    method DoFinishHandshake(e: Env) returns (w: Wait)
      requires In(FINISH_HANDSHAKE)
      modifies this, s
      ensures Stepped(w)
      ensures Goes(e, w, false)
    {
      if !e.checks {
        w := Fail();
        return;
      }
      state := DONE;
      w := Ok;
    }

    // ----- the driver -----

    function Look(): View
      reads this`state, this`memory, s`incoming, s`buffer, s`hash
    {
      View(state, s.incoming, memory, s.Live())
    }

    method Step(e: Env) returns (w: Wait)
      requires Valid() && !failed && !awaitCcs && state < DONE
      modifies this, s
      ensures Stepped(w)
      ensures Goes(e, w, old(Refused(s.world, Look())))
    {
      if state < READ_HELLO {
        w := HelloStep(e);
      } else if state == READ_HELLO {
        w := DoReadHello(e);
      } else if state < READ_KEY_EXCHANGE {
        w := EarlyStep(e);
      } else if state < SEND_FINISHED {
        w := MiddleStep(e);
      } else if state < READ_SESSION_TICKET {
        w := FinishStep(e);
      } else if state == READ_SESSION_TICKET {
        w := DoReadSessionTicket(e);
      } else {
        w := LateStep(e);
      }
    }

    method HelloStep(e: Env) returns (w: Wait)
      requires Valid() && !failed && !awaitCcs && state < READ_HELLO
      modifies this, s
      ensures Stepped(w)
      ensures Goes(e, w, old(Refused(s.world, Look())))
    {
      if state == START_CONNECT {
        w := DoStartConnect(e);
      } else if state == ENTER_EARLY_DATA {
        w := DoEnterEarlyData(e);
      } else {
        w := DoReadHelloVerifyRequest(e);
      }
    }

    method EarlyStep(e: Env) returns (w: Wait)
      requires Valid() && !failed && !awaitCcs && STATE_TLS13 <= state < READ_KEY_EXCHANGE
      modifies this, s
      ensures Stepped(w)
      ensures Goes(e, w, old(Refused(s.world, Look())))
    {
      if state == STATE_TLS13 {
        w := LeftToTls13;
      } else if state == READ_CERTIFICATE {
        w := DoReadCertificate(e);
      } else if state == READ_CERTIFICATE_STATUS {
        w := DoReadCertificateStatus(e);
      } else {
        w := DoVerifyCertificate(e);
      }
    }

    method MiddleStep(e: Env) returns (w: Wait)
      requires Valid() && !failed && !awaitCcs && READ_KEY_EXCHANGE <= state < SEND_FINISHED
      modifies this, s
      ensures Stepped(w)
      ensures Goes(e, w, old(Refused(s.world, Look())))
    {
      if state == READ_KEY_EXCHANGE {
        w := DoReadKeyExchange(e);
      } else if state == READ_CERTIFICATE_REQUEST {
        w := DoReadCertificateRequest(e);
      } else if state == READ_HELLO_DONE {
        w := DoReadHelloDone(e);
      } else if state == SEND_CERTIFICATE {
        w := DoSendCertificate(e);
      } else if state == SEND_KEY_EXCHANGE {
        w := DoSendKeyExchange(e);
      } else {
        w := DoSendProof(e);
      }
    }

    method FinishStep(e: Env) returns (w: Wait)
      requires Valid() && !failed && !awaitCcs && SEND_FINISHED <= state < READ_SESSION_TICKET
      modifies this, s
      ensures Stepped(w)
      ensures Goes(e, w, old(Refused(s.world, Look())))
    {
      if state == SEND_FINISHED {
        w := DoSendFinished(e);
      } else {
        w := DoFinishFlight(e);
      }
    }

    method LateStep(e: Env) returns (w: Wait)
      requires Valid() && !failed && !awaitCcs && PROCESS_CCS <= state < DONE
      modifies this, s
      ensures Stepped(w)
      ensures Goes(e, w, old(Refused(s.world, Look())))
    {
      if state == PROCESS_CCS {
        w := DoProcessCcs(e);
      } else if state == READ_FINISHED {
        w := DoReadFinished(e);
      } else {
        w := DoFinishHandshake(e);
      }
    }

    /** The machine has stopped for a reason: it ended, is starved, was left to TLS 1.3, or came closer to its end. */
    twostate predicate Progressed(w: Wait)
      reads this, s
    {
      && Paused(w, s.incoming)
      && (|| w == Ok || w == Error || w == LeftToTls13 || Starved(w, s.incoming)
          || Rank(state, Agreed().resumed) < old(Rank(state, Agreed().resumed)))
    }

    /**
      ssl_client_handshake: the loop ends, because every step that does not return gets
      closer to the end. `last` is what the client had before it when it stopped; if nothing
      of its own goes wrong, it fails only with cause and pauses only with progress or for
      want of a message.
     */
    method RunMachine(oracle: nat -> Env, tick: nat) returns (w: Wait, tick': nat, last: View)
      requires Valid() && !failed && !awaitCcs
      modifies this, s
      ensures Valid() && failed == (w == Error) && (!failed ==> awaitCcs == (w == ReadChangeCipherSpec)) && s.arrived == old(s.arrived)
      ensures w == Ok ==> state >= DONE
      ensures !failed ==> Rank(state, Agreed().resumed) <= old(Rank(state, Agreed().resumed))
      ensures Smooth(oracle) ==> (failed ==> Failing(s.world, dtls, s.log, s.incoming, last)) && Progressed(w)
    {
      tick', last := tick, Look();
      while state < DONE
        invariant Valid() && !failed && !awaitCcs && s.arrived == old(s.arrived)
        invariant Rank(state, Agreed().resumed) <= old(Rank(state, Agreed().resumed))
        decreases Rank(state, Agreed().resumed)
      {
        last := Look();
        ViewIs(s.world, dtls, s.log, s.incoming, s.spoken, s.arrived, over, last);
        w := Step(Ask(oracle, tick'));
        tick' := tick' + 1;
        if w != Ok {
          return;
        }
      }
      w := Ok;
    }

    /** The record layer has opened the peer's ChangeCipherSpec. */
    method OpenCcs()
      requires Valid() && !failed && awaitCcs
      modifies this`awaitCcs, this`over, s`log, s`spoken
      ensures Valid() && !awaitCcs
    {
      ghost var log := s.log;
      s.Mark(ReceivedCcs);
      KnownCcs(s.world, dtls, log, memory);
      over := over + 1;
      awaitCcs := false;
    }

    /** A machine that is done has been through a whole handshake. */
    lemma DoneConforms()
      requires Valid() && !failed && state >= DONE
      ensures Conforms(s.world, dtls, s.log)
    {
      assert Unfold(0);
    }

    /** What the books say at any time. */
    lemma Books()
      requires Valid()
      ensures Covered(s.world, false, s.log) && Heard(s.log) + s.incoming == s.arrived
      ensures !failed ==> s.spoken == Spoken(s.log) && (s.buffer.Some? || s.hash.Some?)
      ensures !failed ==> (s.buffer.Some? ==> s.buffer.value == s.spoken) && (s.hash.Some? ==> s.hash.value == s.spoken)
    {
      assert Unfold(0);
    }
  }

  /** A client with that log and those messages, where the server has given cause to fail. */
  ghost predicate Failing(w: World, dtls: bool, log: seq<Event>, incoming: seq<Msg>, v: View) {
    ViewOf(w, dtls, log, incoming, v) && Refused(w, v)
  }

  ghost predicate ViewOf(w: World, dtls: bool, log: seq<Event>, incoming: seq<Msg>, v: View) {
    && v.incoming == incoming && v.spoken == Spoken(log)
    && Known(w, dtls, PartsOver(v.state, HelloOf(w, v.memory).resumed, false), log, v.memory)
  }

  lemma ViewIs(w: World, dtls: bool, log: seq<Event>, incoming: seq<Msg>, spoken: seq<Msg>, arrived: seq<Msg>, k: nat, v: View)
    requires Accounts(w, false, log, spoken, incoming, arrived) && Known(w, dtls, k, log, v.memory)
    requires v.incoming == incoming && v.spoken == spoken && k == PartsOver(v.state, HelloOf(w, v.memory).resumed, false)
    ensures ViewOf(w, dtls, log, incoming, v)
  {
    assert Unfold(0);
  }

  /** The awaited cipher change is the next part. */
  lemma KnownCcs(w: World, dtls: bool, log: seq<Event>, mem: Memory)
    requires Known(w, dtls, PartsOver(PROCESS_CCS, HelloOf(w, mem).resumed, true), log, mem)
    ensures Known(w, dtls, PartsOver(PROCESS_CCS, HelloOf(w, mem).resumed, false), log + [ReceivedCcs], mem)
  {
    KnownGrows(w, dtls, PartsOver(PROCESS_CCS, HelloOf(w, mem).resumed, true), log, mem, [ReceivedCcs]);
  }

  // ----- whole runs -----

  /** ssl_run_handshake, once: resolves the wait if it can, and runs the machine. */
  method Resume(c: Client, wait: Wait, round: Round, oracle: nat -> Env, tick: nat) returns (w: Wait, tick': nat, last: View)
    requires c.Valid() && !c.failed && wait != Error && wait != Ok && c.awaitCcs == (wait == ReadChangeCipherSpec)
    modifies c, c.s
    ensures c.Valid() && c.failed == (w == Error) && (!c.failed ==> c.awaitCcs == (w == ReadChangeCipherSpec))
    ensures c.s.arrived == old(c.s.arrived) + round.arrived
    ensures w == Ok ==> c.state >= DONE
    ensures !c.failed ==> Rank(c.state, c.Agreed().resumed) <= old(Rank(c.state, c.Agreed().resumed))
    ensures Smooth(oracle) ==> (c.failed ==> Failing(c.s.world, c.dtls, c.s.log, c.s.incoming, last)) && (round.resolved ==> c.Progressed(w))
  {
    tick', last := tick, c.Look();
    c.s.Arrive(round.arrived);
    if wait == LeftToTls13 || !round.resolved {
      return wait, tick', last;
    }
    if wait == ReadChangeCipherSpec {
      c.OpenCcs();
    }
    w, tick', last := c.RunMachine(oracle, tick);
  }

  /** A client that has stopped, with all that was said of the run so far. */
  ghost predicate Stopped(c: Client, w: Wait, last: View, oracle: nat -> Env)
    reads c, c.s
  {
    && c.Valid() && c.failed == (w == Error) && (!c.failed ==> c.awaitCcs == (w == ReadChangeCipherSpec)) && (w == Ok ==> c.state >= DONE)
    && (Smooth(oracle) && c.failed ==> Failing(c.s.world, c.dtls, c.s.log, c.s.incoming, last))
  }

  /** ssl_run_handshake, until the rounds or the handshake are over. */
  method ResumeAll(c: Client, wait: Wait, rounds: seq<Round>, oracle: nat -> Env, start: nat, first: View)
    returns (w: Wait, last: View, used: nat)
    requires Stopped(c, wait, first, oracle) && c.s.arrived == [] && (Smooth(oracle) ==> Paused(wait, c.s.incoming))
    modifies c, c.s
    ensures Stopped(c, w, last, oracle) && used <= |rounds| && (w != Ok && w != Error ==> used == |rounds|)
    ensures c.s.arrived == Arrivals(rounds, used)
    ensures Smooth(oracle) && Resolved(rounds, |rounds|) ==> Paused(w, c.s.incoming)
  {
    var tick := start;
    w, last, used := wait, first, 0;
    while used < |rounds| && w != Ok && w != Error
      invariant used <= |rounds| && Stopped(c, w, last, oracle) && c.s.arrived == Arrivals(rounds, used)
      invariant Smooth(oracle) && Resolved(rounds, used) ==> Paused(w, c.s.incoming)
    {
      w, tick, last := Resume(c, w, rounds[used], oracle, tick);
      used := used + 1;
    }
  }

  /**
    Any run of a client, with any pauses and re-entries. The messages received, in order and
    once each, and those still waiting are exactly those that arrived. Every check so far
    came out well and covered exactly the messages spoken before it, and without an error
    the transcript is exactly what was spoken. If the run completes, it has followed the
    message flow. If nothing of the client's own goes wrong, it fails only with cause and
    never waits for anything but the network.
   */
  method Connect(world: World, dtls: bool, rounds: seq<Round>, oracle: nat -> Env)
    returns (w: Wait, log: seq<Event>, incoming: seq<Msg>, buffer: Option<seq<Msg>>, hash: Option<seq<Msg>>, last: View, used: nat)
    ensures used <= |rounds| && (w != Ok && w != Error ==> used == |rounds|)
    ensures Heard(log) + incoming == Arrivals(rounds, used)
    ensures Covered(world, false, log)
    ensures w == Ok ==> Conforms(world, dtls, log)
    ensures w != Error ==> (buffer.Some? || hash.Some?) && (buffer.Some? ==> buffer.value == Spoken(log)) && (hash.Some? ==> hash.value == Spoken(log))
    ensures Smooth(oracle) && w == Error ==> Failing(world, dtls, log, incoming, last)
    ensures Smooth(oracle) && Resolved(rounds, |rounds|) ==> Paused(w, incoming)
  {
    var s := new Session(world, false);
    var c := new Client(dtls, s);
    var tick: nat;
    w, tick, last := c.RunMachine(oracle, 0);
    w, last, used := ResumeAll(c, w, rounds, oracle, tick, last);
    log, incoming, buffer, hash := s.log, s.incoming, s.buffer, s.hash;
    c.Books();
    if w == Ok {
      c.DoneConforms();
    }
  }
}
