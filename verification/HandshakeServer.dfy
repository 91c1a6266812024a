/**
  The server handshake of TLS 1.2 and below (handshake_server.cc), in the same terms as
  the client: states, an environment for each step, and a course of parts that every
  completed run must have taken.
 */
module HandshakeServer {
  import opened Bytes
  import opened CipherList
  import opened Handshake

  /** enum ssl_server_hs_state_t. */
  type State = nat

  const START_ACCEPT: State := 0
  const READ_CLIENT_HELLO: State := 1
  const SELECT_CERTIFICATE: State := 2
  const STATE_TLS13: State := 3
  const SELECT_PARAMETERS: State := 4
  const SEND_HELLO: State := 5
  const SEND_CERTIFICATE: State := 6
  const SEND_KEY_EXCHANGE: State := 7
  const SEND_HELLO_DONE: State := 8
  const READ_CERTIFICATE: State := 9
  const VERIFY_CERTIFICATE: State := 10
  const READ_KEY_EXCHANGE: State := 11
  const READ_PROOF: State := 12
  const READ_CCS: State := 13
  const PROCESS_CCS: State := 14
  const READ_NEXT_PROTO: State := 15
  const READ_CHANNEL_ID: State := 16
  const READ_FINISHED: State := 17
  const SEND_FINISHED: State := 18
  const FINISH_HANDSHAKE: State := 19
  const DONE: State := 20

  /** What the outside contributes to one step. */
  datatype Env = Env(
    checks: bool,
    body: seq<byte>,
    handoff: bool,
    earlyCallback: Async,
    certCallback: Async,
    session: Async,
    identityHint: bool,
    sign: Async,
    decrypt: Async,
    verifyLater: bool)

  /** Nothing of the server's own goes wrong or keeps it waiting. */
  predicate Cooperative(e: Env) {
    && e.checks && !e.handoff && !e.verifyLater && e.earlyCallback == Success && e.certCallback == Success
    && e.session == Success && e.sign == Success && e.decrypt == Success
  }

  function Ask(oracle: nat -> Env, tick: nat): Env {
    oracle(tick)
  }

  ghost predicate Smooth(oracle: nat -> Env) {
    forall tick: nat :: Cooperative(Ask(oracle, tick))
  }

  // ----- the message flow of section 7.3 of RFC 5246 -----

  /** What later parts of a handshake refer to: the hello and the client's certificate. */
  datatype Memory = Memory(hello: Msg, certificate: Msg)

  const NOTHING := Memory(Msg(0, []), Msg(0, []))

  /** What the ClientHello settled, once it is read. */
  function HelloOf(w: World, mem: Memory): Hello {
    if mem.hello.t == CLIENT_HELLO then HelloIn(w, mem.hello) else NO_HELLO
  }

  /** A certificate is only requested with certificate-based ciphers, and not on resumption. */
  predicate Requests(h: Hello) {
    h.request && !h.resumed && UsesCertificate(CipherOf(h))
  }

  /** The client sent a certificate, and not an empty list. */
  predicate HasChain(w: World, mem: Memory) {
    mem.certificate.t == CERTIFICATE && !EmptyChain(w, mem.certificate)
  }

  /** Channel IDs are only accepted with ECDHE, and on resumption if the original handshake was recorded. */
  predicate UsesChannelId(h: Hello) {
    h.channelId && CipherOf(h).mkey == K_ECDHE && (h.resumed ==> h.channelRecorded)
  }

  function Remember(w: World, mem: Memory, k: nat, p: seq<Event>): Memory {
    if k == 0 then mem.(hello := MessageOf(p, 0))
    else if k == 5 && !HelloOf(w, mem).resumed then mem.(certificate := MessageOf(p, 0))
    else mem
  }

  /** The ciphers with a ServerKeyExchange: those that need one, and those that may carry an identity hint. */
  predicate MayExchangeKeys(c: Cipher) {
    RequiresKeyExchange(c) || c.auth == A_PSK
  }

  /** Our certificate, and its status if there is one. */
  predicate Certifies(h: Hello, p: seq<Event>) {
    if !UsesCertificate(CipherOf(h)) then p == []
    else if h.status then |p| == 2 && p[0].Sent? && p[0].m.t == CERTIFICATE && p[1].Sent? && p[1].m.t == CERTIFICATE_STATUS
    else Sends(p, CERTIFICATE)
  }

  /** The request for a certificate, if there is one, and the end of our flight. */
  predicate EndsFlight(h: Hello, p: seq<Event>) {
    if Requests(h) then |p| == 2 && p[0].Sent? && p[0].m.t == CERTIFICATE_REQUEST && p[1] == Sent(Msg(SERVER_HELLO_DONE, []))
    else p == [Sent(Msg(SERVER_HELLO_DONE, []))]
  }

  /** The client's CertificateVerify: checked, then received. */
  predicate Proves(mem: Memory, p: seq<Event>) {
    && |p| == 2 && p[0].Proof? && !p[0].own && p[0].certificate == mem.certificate && p[0].m.t == CERTIFICATE_VERIFY
    && p[1] == Received(p[0].m)
  }

  predicate ServerFinishes(h: Hello, p: seq<Event>) {
    if h.ticket then OwnFinishes(p, 2) && p[0].Sent? && p[0].m.t == NEW_SESSION_TICKET && p[1] == SentCcs
    else OwnFinishes(p, 1) && p[0] == SentCcs
  }

  predicate NextProto(h: Hello, p: seq<Event>) {
    if h.nextProto then Receives(p, NEXT_PROTO) else p == []
  }

  predicate ChannelId(h: Hello, p: seq<Event>) {
    if UsesChannelId(h) then Receives(p, CHANNEL_ID) else p == []
  }

  /** Part k of a full handshake. */
  predicate FullPart(w: World, k: nat, mem: Memory, p: seq<Event>) {
    var h := HelloOf(w, mem);
    if k == 2 then Certifies(h, p)
    else if k == 3 then (p == [] && !RequiresKeyExchange(CipherOf(h))) || (MayExchangeKeys(CipherOf(h)) && Sends(p, SERVER_KEY_EXCHANGE))
    else if k == 4 then EndsFlight(h, p)
    else if k == 5 then
      (if Requests(h) then Receives(p, CERTIFICATE) && (w.needsCertificate ==> !EmptyChain(w, p[0].m)) else p == [])
    else if k == 6 then p == if HasChain(w, mem) then [Judged(mem.certificate)] else []
    else if k == 7 then Receives(p, CLIENT_KEY_EXCHANGE)
    else if k == 8 then (if HasChain(w, mem) then Proves(mem, p) else p == [])
    else if k == 9 then p == [ReceivedCcs]
    else if k == 10 then Rekeys(p)
    else if k == 11 then NextProto(h, p)
    else if k == 12 then ChannelId(h, p)
    else if k == 13 then PeerFinishes(p)
    else ServerFinishes(h, p)
  }

  /** Part k of a resumption: the server finishes first. */
  predicate ResumedPart(h: Hello, k: nat, p: seq<Event>) {
    if k == 2 then ServerFinishes(h, p)
    else if k == 3 then p == [ReceivedCcs]
    else if k == 4 then Rekeys(p)
    else if k == 5 then NextProto(h, p)
    else if k == 6 then ChannelId(h, p)
    else PeerFinishes(p)
  }

  /** What may come as part k, after what is remembered of the parts before it. */
  predicate Part(w: World, k: nat, mem: Memory, p: seq<Event>) {
    if k == 0 then Receives(p, CLIENT_HELLO) && Settles(HelloIn(w, p[0].m))
    else if k == 1 then Sends(p, SERVER_HELLO)
    else if HelloOf(w, mem).resumed then ResumedPart(HelloOf(w, mem), k, p)
    else FullPart(w, k, mem, p)
  }

  ghost function Recall(w: World, parts: seq<seq<Event>>): Memory {
    if parts == [] then NOTHING
    else Remember(w, Recall(w, parts[..|parts| - 1]), |parts| - 1, parts[|parts| - 1])
  }

  ghost predicate PartAt(w: World, parts: seq<seq<Event>>, k: nat)
    requires k < |parts|
  {
    Part(w, k, Recall(w, parts[..k]), parts[k])
  }

  ghost predicate Parts(w: World, parts: seq<seq<Event>>) {
    forall k {:trigger PartAt(w, parts, k)} :: 0 <= k < |parts| ==> PartAt(w, parts, k)
  }

  /** How many parts a whole handshake has. */
  function Length(resumed: bool): nat {
    if resumed then 8 else 15
  }

  /** A whole handshake. */
  ghost predicate Conforms(w: World, log: seq<Event>) {
    forall x: int {:trigger Unfold(x)} :: Unfold(x) ==>
      exists parts :: Parts(w, parts) && |parts| == Length(HelloOf(w, Recall(w, parts)).resumed) && log == Concat(parts)
  }

  lemma PartsGrow(w: World, parts: seq<seq<Event>>, p: seq<Event>)
    requires Parts(w, parts) && Part(w, |parts|, Recall(w, parts), p)
    ensures Parts(w, parts + [p])
    ensures Recall(w, parts + [p]) == Remember(w, Recall(w, parts), |parts|, p)
  {
    var longer := parts + [p];
    assert longer[..|parts|] == parts;
    forall k | 0 <= k < |longer|
      ensures PartAt(w, longer, k)
    {
      if k < |parts| {
        assert PartAt(w, parts, k) && longer[..k] == parts[..k];
      }
    }
  }

  // ----- what a whole handshake has seen to -----

  lemma {:induction false} RecallAfter(w: World, parts: seq<seq<Event>>, k: nat)
    requires k <= |parts|
    ensures k > 0 ==> Recall(w, parts[..k]).hello == MessageOf(parts[0], 0)
    ensures k > 5 && !HelloOf(w, Recall(w, parts[..k])).resumed ==> Recall(w, parts[..k]).certificate == MessageOf(parts[5], 0)
  {
    if k > 0 {
      assert parts[..k][..k - 1] == parts[..k - 1];
      RecallAfter(w, parts, k - 1);
    }
  }

  /** A ClientHello comes as the first part, and a client's Certificate as the sixth, and nowhere else. */
  lemma OnlyPlace(w: World, k: nat, mem: Memory, p: seq<Event>, j: nat)
    requires Part(w, k, mem, p) && j < |p| && p[j].Received?
    ensures p[j].m.t == CLIENT_HELLO ==> k == 0 && j == 0
    ensures p[j].m.t == CERTIFICATE ==> k == 5 && j == 0 && !HelloOf(w, mem).resumed
  {
  }

  lemma PartOf(w: World, log: seq<Event>, parts: seq<seq<Event>>, i: nat) returns (k: nat, j: nat)
    requires Parts(w, parts) && log == Concat(parts) && i < |log| && log[i].Received?
    ensures k < |parts| && j < |parts[k]| && i == Start(parts, k) + j && log[i] == parts[k][j] && PartAt(w, parts, k)
    ensures log[i].m.t == CLIENT_HELLO ==> k == 0 && j == 0
    ensures log[i].m.t == CERTIFICATE ==> k == 5 && j == 0 && !HelloOf(w, Recall(w, parts[..k])).resumed
  {
    k, j := FromConcat(parts, i);
    assert PartAt(w, parts, k);
    OnlyPlace(w, k, Recall(w, parts[..k]), parts[k], j);
  }

  /** From the second part on, what is remembered of the hello is this message. */
  ghost predicate HelloIs(w: World, parts: seq<seq<Event>>, m: Msg) {
    forall x: int {:trigger Unfold(x)} :: Unfold(x) ==> forall k :: 1 <= k <= |parts| ==> Recall(w, parts[..k]).hello == m
  }

  /** The hello of the run is the one in its first part. */
  lemma HelloPart(w: World, log: seq<Event>, h: nat) returns (parts: seq<seq<Event>>)
    requires Conforms(w, log) && h < |log| && log[h].Received? && log[h].m.t == CLIENT_HELLO
    ensures Parts(w, parts) && log == Concat(parts) && |parts| == Length(HelloIn(w, log[h].m).resumed)
    ensures h == Start(parts, 0) && parts[0] == [log[h]]
    ensures HelloIs(w, parts, log[h].m)
  {
    assert Unfold(0);
    parts :| Parts(w, parts) && |parts| == Length(HelloOf(w, Recall(w, parts)).resumed) && log == Concat(parts);
    var k, j := PartOf(w, log, parts, h);
    forall i | 1 <= i <= |parts|
      ensures Recall(w, parts[..i]).hello == log[h].m
    {
      RecallAfter(w, parts, i);
    }
    assert parts[..|parts|] == parts;
  }

  /** Every completed handshake has a ClientHello that settles it. */
  lemma ConformingHasHello(w: World, log: seq<Event>) returns (h: nat)
    requires Conforms(w, log)
    ensures h < |log| && log[h].Received? && log[h].m.t == CLIENT_HELLO && Settles(HelloIn(w, log[h].m))
  {
    assert Unfold(0);
    var parts :| Parts(w, parts) && |parts| == Length(HelloOf(w, Recall(w, parts)).resumed) && log == Concat(parts);
    h := FirstPart(w, parts);
  }

  lemma FirstPart(w: World, parts: seq<seq<Event>>) returns (h: nat)
    requires Parts(w, parts) && |parts| > 0
    ensures var log := Concat(parts);
      h < |log| && log[h].Received? && log[h].m.t == CLIENT_HELLO && Settles(HelloIn(w, log[h].m))
  {
    assert PartAt(w, parts, 0);
    InConcat(parts, 0, 0);
    h := Start(parts, 0);
  }

  /** Both sides have finished: the cipher change, then the new keys, then the client's Finished, checked and received; and our own. */
  predicate Finishes(log: seq<Event>, resumed: bool, h: nat, c: nat, r: nat, f: nat, o: nat) {
    && h < c < r < f < |log| - 1 && o < |log| - 1
    && log[c] == ReceivedCcs && log[r].Rekeyed?
    && log[f].Finish? && !log[f].own && log[f].m.t == FINISHED && log[f + 1] == Received(log[f].m)
    && log[o].Finish? && log[o].own && log[o].m.t == FINISHED && log[o + 1] == Sent(log[o].m)
    && (if resumed then h < o < c else f < o)
  }

  /** The places of the cipher change, of the client's Finished and of our own. */
  function CcsPart(resumed: bool): nat {
    if resumed then 3 else 9
  }

  function PeerPart(resumed: bool): nat {
    if resumed then 7 else 13
  }

  function OwnPart(resumed: bool): nat {
    if resumed then 2 else 14
  }

  function FinishAt(h: Hello): nat {
    if h.ticket then 2 else 1
  }

  /** The parts that finish a handshake. */
  predicate FinishParts(h: Hello, parts: seq<seq<Event>>) {
    var n := CcsPart(h.resumed);
    && |parts| == Length(h.resumed) && |parts[0]| == 1
    && parts[n] == [ReceivedCcs] && Rekeys(parts[n + 1]) && PeerFinishes(parts[PeerPart(h.resumed)])
    && ServerFinishes(h, parts[OwnPart(h.resumed)])
  }

  lemma FinishPartsAre(w: World, parts: seq<seq<Event>>, m: Msg)
    requires Parts(w, parts) && |parts| == Length(HelloIn(w, m).resumed) && m.t == CLIENT_HELLO && |parts[0]| == 1
    requires HelloIs(w, parts, m)
    ensures FinishParts(HelloIn(w, m), parts)
  {
    assert Unfold(0);
    var resumed := HelloIn(w, m).resumed;
    assert PartAt(w, parts, CcsPart(resumed)) && PartAt(w, parts, CcsPart(resumed) + 1);
    assert PartAt(w, parts, PeerPart(resumed)) && PartAt(w, parts, OwnPart(resumed));
  }

  lemma FinishPartsInOrder(h: Hello, parts: seq<seq<Event>>) returns (c: nat, r: nat, f: nat, o: nat)
    requires FinishParts(h, parts)
    ensures Finishes(Concat(parts), h.resumed, Start(parts, 0), c, r, f, o)
  {
    var n, peer, own, at := CcsPart(h.resumed), PeerPart(h.resumed), OwnPart(h.resumed), FinishAt(h);
    c, r, f, o := Start(parts, n), Start(parts, n + 1), Start(parts, peer), Start(parts, own) + at;
    InOrder(parts, 0, 0, n, 0);
    InOrder(parts, n, 0, n + 1, 0);
    InOrder(parts, n + 1, 0, peer, 0);
    InConcat(parts, peer, 1);
    InConcat(parts, own, at);
    InConcat(parts, own, at + 1);
    if h.resumed {
      InOrder(parts, 0, 0, own, at);
      InOrder(parts, own, at, n, 0);
    } else {
      InOrder(parts, peer, 0, own, at);
    }
  }

  /** A completed handshake has finished on both sides, in order. */
  lemma ConformingFinishes(w: World, log: seq<Event>, h: nat) returns (c: nat, r: nat, f: nat, o: nat)
    requires Conforms(w, log) && h < |log| && log[h].Received? && log[h].m.t == CLIENT_HELLO
    ensures Finishes(log, HelloIn(w, log[h].m).resumed, h, c, r, f, o)
  {
    var parts := HelloPart(w, log, h);
    FinishPartsAre(w, parts, log[h].m);
    c, r, f, o := FinishPartsInOrder(HelloIn(w, log[h].m), parts);
  }

  /** The client's certificate was accepted, and its possession proved before the cipher change. */
  predicate Authenticates(log: seq<Event>, a: nat, b: nat, v: nat, c: nat) {
    && a < b < v < c < |log| && log[a].Received? && log[b] == Judged(log[a].m)
    && log[v].Proof? && !log[v].own && log[v].certificate == log[a].m && log[v].m.t == CERTIFICATE_VERIFY
    && log[v + 1] == Received(log[v].m) && log[c] == ReceivedCcs
  }

  /** The parts that authenticate a client. */
  predicate ChainParts(w: World, parts: seq<seq<Event>>) {
    && |parts| == 15 && |parts[5]| == 1 && parts[5][0].Received? && parts[5][0].m.t == CERTIFICATE && !EmptyChain(w, parts[5][0].m)
    && parts[6] == [Judged(parts[5][0].m)] && Proves(Memory(Msg(0, []), parts[5][0].m), parts[8]) && parts[9] == [ReceivedCcs]
  }

  lemma ChainPartsAre(w: World, parts: seq<seq<Event>>, m: Msg)
    requires Parts(w, parts) && |parts| == 15 && m.t == CLIENT_HELLO && HelloIs(w, parts, m) && !HelloIn(w, m).resumed
    requires |parts[5]| == 1 && parts[5][0].Received? && parts[5][0].m.t == CERTIFICATE && !EmptyChain(w, parts[5][0].m)
    ensures ChainParts(w, parts)
  {
    assert Unfold(0);
    RecallAfter(w, parts, 6);
    assert PartAt(w, parts, 6);
    RecallAfter(w, parts, 8);
    assert PartAt(w, parts, 8);
    assert PartAt(w, parts, 9);
  }

  lemma ChainPartsInOrder(w: World, parts: seq<seq<Event>>) returns (b: nat, v: nat, c: nat)
    requires ChainParts(w, parts)
    ensures Authenticates(Concat(parts), Start(parts, 5), b, v, c)
  {
    InOrder(parts, 5, 0, 6, 0);
    InOrder(parts, 6, 0, 8, 0);
    InOrder(parts, 8, 0, 9, 0);
    InConcat(parts, 8, 1);
    b, v, c := Start(parts, 6), Start(parts, 8), Start(parts, 9);
  }

  lemma CertificateIn(w: World, log: seq<Event>, parts: seq<seq<Event>>, a: nat, m: Msg)
    requires Parts(w, parts) && log == Concat(parts) && HelloIs(w, parts, m) && |parts| > 5 && m.t == CLIENT_HELLO
    requires a < |log| && log[a].Received? && log[a].m.t == CERTIFICATE
    ensures a == Start(parts, 5) && |parts[5]| == 1 && parts[5][0] == log[a] && !HelloIn(w, m).resumed
  {
    assert Unfold(0);
    var k, j := PartOf(w, log, parts, a);
  }

  /** Whatever certificate with a chain a completed handshake received, it was accepted and then proved to be the client's. */
  lemma EveryChainAuthenticated(w: World, log: seq<Event>, a: nat) returns (b: nat, v: nat, c: nat)
    requires Conforms(w, log) && a < |log| && log[a].Received? && log[a].m.t == CERTIFICATE && !EmptyChain(w, log[a].m)
    ensures Authenticates(log, a, b, v, c)
  {
    var h := ConformingHasHello(w, log);
    var parts := HelloPart(w, log, h);
    b, v, c := AuthenticatedIn(w, log, parts, a, log[h].m);
  }

  lemma AuthenticatedIn(w: World, log: seq<Event>, parts: seq<seq<Event>>, a: nat, m: Msg) returns (b: nat, v: nat, c: nat)
    requires Parts(w, parts) && log == Concat(parts) && HelloIs(w, parts, m) && |parts| == Length(HelloIn(w, m).resumed) && m.t == CLIENT_HELLO
    requires a < |log| && log[a].Received? && log[a].m.t == CERTIFICATE && !EmptyChain(w, log[a].m)
    ensures Authenticates(log, a, b, v, c)
  {
    CertificateIn(w, log, parts, a, m);
    ChainPartsAre(w, parts, m);
    b, v, c := ChainPartsInOrder(w, parts);
  }

  /** If a certificate is asked for and required, a completed full handshake has one with a chain. */
  lemma ConformingHasChain(w: World, log: seq<Event>, h: nat) returns (a: nat)
    requires Conforms(w, log) && h < |log| && log[h].Received? && log[h].m.t == CLIENT_HELLO
    requires w.needsCertificate && Requests(HelloIn(w, log[h].m))
    ensures h < a < |log| && log[a].Received? && log[a].m.t == CERTIFICATE && !EmptyChain(w, log[a].m)
  {
    var parts := HelloPart(w, log, h);
    a := ChainIn(w, parts, log[h].m);
  }

  lemma ChainIn(w: World, parts: seq<seq<Event>>, m: Msg) returns (a: nat)
    requires Parts(w, parts) && |parts| == 15 && parts[0] == [Received(m)] && HelloIs(w, parts, m) && m.t == CLIENT_HELLO
    requires w.needsCertificate && Requests(HelloIn(w, m))
    ensures var log := Concat(parts);
      Start(parts, 0) < a < |log| && log[a].Received? && log[a].m.t == CERTIFICATE && !EmptyChain(w, log[a].m)
  {
    assert Unfold(0);
    assert PartAt(w, parts, 5);
    InOrder(parts, 0, 0, 5, 0);
    a := Start(parts, 5);
  }

  // ----- the machine -----

  /** How many parts are over when a state is entered, in a full handshake and in a resumption. */
  function Index(state: State, resumed: bool): nat {
    if state <= SELECT_PARAMETERS then 0
    else if state == SEND_HELLO then 1
    else if resumed then ShortIndex(state)
    else if state <= READ_CCS then state - 4
    else if state == PROCESS_CCS then 9
    else if state <= SEND_FINISHED then state - 4
    else 15
  }

  function ShortIndex(state: State): nat {
    if state == SEND_FINISHED then 2
    else if state <= PROCESS_CCS then 3
    else if state <= READ_FINISHED then state - 10
    else 8
  }

  /** While the cipher change is awaited, its part is not over. */
  function PartsOver(state: State, resumed: bool, awaitCcs: bool): nat {
    Index(state, resumed) + if state == PROCESS_CCS && !awaitCcs then 1 else 0
  }

  /** How far a state is from the end; resumption moves the server's Finished to the front. */
  function Rank(state: State, resumed: bool): nat {
    if state >= DONE then 0 else if resumed && state == SEND_FINISHED then 10 else 20 - state
  }

  predicate AfterHello(state: State) {
    state > SELECT_PARAMETERS
  }

  predicate InResumption(state: State) {
    state == SEND_HELLO || state >= READ_CCS
  }

  /** What a server has before it. */
  datatype View = View(state: State, incoming: seq<Msg>, memory: Memory, spoken: seq<Msg>)

  /** The client gave cause to fail: its certificate is refused, or the next message is not one that may come. */
  predicate Refused(w: World, v: View) {
    if v.state == VERIFY_CERTIFICATE then HasChain(w, v.memory) && !Trusted(w, v.memory.certificate)
    else v.incoming != [] && Unwelcome(w, v, v.incoming[0])
  }

  predicate Unwelcome(w: World, v: View, m: Msg) {
    var h := HelloOf(w, v.memory);
    if v.state == READ_CLIENT_HELLO then m.t != CLIENT_HELLO
    else if v.state == SELECT_CERTIFICATE then !HelloIn(w, m).tls13 && HelloIn(w, m).cipher.None?
    else if v.state == READ_CERTIFICATE then Requests(h) && BadCertificate(w, m)
    else if v.state == READ_KEY_EXCHANGE then m.t != CLIENT_KEY_EXCHANGE
    else if v.state == READ_PROOF then HasChain(w, v.memory) && BadProof(w, v.memory, v.spoken, m)
    else if v.state == PROCESS_CCS then true
    else if v.state == READ_NEXT_PROTO then h.nextProto && m.t != NEXT_PROTO
    else if v.state == READ_CHANNEL_ID then UsesChannelId(h) && m.t != CHANNEL_ID
    else v.state == READ_FINISHED && m != FinishedOf(w, false, v.spoken)
  }

  predicate BadCertificate(w: World, m: Msg) {
    m.t != CERTIFICATE || (EmptyChain(w, m) && w.needsCertificate)
  }

  predicate BadProof(w: World, mem: Memory, spoken: seq<Msg>, m: Msg) {
    m.t != CERTIFICATE_VERIFY || !ProofOk(w, mem.certificate, spoken, m)
  }

  /** The first k parts are over: the log consists of them, and this is what they leave to remember. */
  ghost predicate Known(w: World, k: nat, log: seq<Event>, recalled: Memory) {
    forall x: int {:trigger Unfold(x)} :: Unfold(x) ==>
      exists parts :: |parts| == k && Parts(w, parts) && log == Concat(parts) && recalled == Recall(w, parts)
  }

  lemma KnownGrows(w: World, k: nat, log: seq<Event>, recalled: Memory, p: seq<Event>)
    requires Known(w, k, log, recalled) && Part(w, k, recalled, p)
    ensures Known(w, k + 1, log + p, Remember(w, recalled, k, p))
  {
    assert Unfold(0);
    var parts :| |parts| == k && Parts(w, parts) && log == Concat(parts) && recalled == Recall(w, parts);
    PartsGrow(w, parts, p);
    ConcatSnoc(parts, p);
    assert |parts + [p]| == k + 1;
  }

  lemma KnownAtFirst(w: World)
    ensures Known(w, 0, [], NOTHING)
  {
    var parts: seq<seq<Event>> := [];
    assert |parts| == 0 && Parts(w, parts) && [] == Concat(parts) && NOTHING == Recall(w, parts);
  }

  /** The awaited cipher change is the next part. */
  lemma KnownCcs(w: World, log: seq<Event>, mem: Memory)
    requires Known(w, PartsOver(PROCESS_CCS, HelloOf(w, mem).resumed, true), log, mem)
    ensures Known(w, PartsOver(PROCESS_CCS, HelloOf(w, mem).resumed, false), log + [ReceivedCcs], mem)
  {
    KnownGrows(w, PartsOver(PROCESS_CCS, HelloOf(w, mem).resumed, true), log, mem, [ReceivedCcs]);
  }

  /** What the machine may rely on in a state. */
  ghost predicate Agrees(w: World, st: State, mem: Memory, serverParams: bool, hash: bool) {
    var hello := HelloOf(w, mem);
    && (if AfterHello(st) then hash && Settles(hello) else !hello.resumed)
    && (hello.resumed ==> InResumption(st))
    && (st <= READ_CERTIFICATE || hello.resumed ==> mem.certificate.t != CERTIFICATE)
    && (st == SEND_KEY_EXCHANGE ==>
          (RequiresKeyExchange(CipherOf(hello)) ==> serverParams) && (serverParams ==> MayExchangeKeys(CipherOf(hello))))
  }

  /** No signature will have to be checked over the buffer any more. */
  ghost predicate MayFree(w: World, st: State, mem: Memory) {
    if st <= SELECT_PARAMETERS then false
    else if st <= READ_CERTIFICATE then !Requests(HelloOf(w, mem))
    else st > READ_PROOF || !HasChain(w, mem)
  }

  /** While parameters are selected, the hello is still the first waiting message. */
  predicate Greeted(w: World, st: State, incoming: seq<Msg>) {
    && (SELECT_CERTIFICATE <= st <= SELECT_PARAMETERS ==> incoming != [] && incoming[0].t == CLIENT_HELLO)
    && (st == SELECT_PARAMETERS ==> Settles(HelloIn(w, incoming[0])))
  }

  /** With p as part k, the machine may be in the next state. */
  ghost predicate Ready(w: World, k: nat, mem: Memory, p: seq<Event>, next: State, serverParams: bool, hash: bool, buffer: bool) {
    forall x: int {:trigger Open(x)} :: Open(x) ==>
      var after := Remember(w, mem, k, p);
      && Part(w, k, mem, p) && PartsOver(next, HelloOf(w, after).resumed, false) == k + 1
      && Agrees(w, next, after, serverParams, hash) && (buffer || MayFree(w, next, after))
  }

  class Server {
    const s: Session
    var state: State
    var failed: bool
    var awaitCcs: bool
    var serverParams: bool
    var memory: Memory
    ghost var over: nat

    function Agreed(): Hello
      reads this`memory
    {
      HelloOf(s.world, memory)
    }

    /** The log is what must have happened on the way to this state. */
    ghost predicate Valid()
      reads this, s
    {
      && s.Valid() && s.server
      && (!failed ==>
          && !s.hashed && Known(s.world, over, s.log, memory) && Greeted(s.world, state, s.incoming)
          && over == PartsOver(state, Agreed().resumed, awaitCcs) && (awaitCcs ==> state == PROCESS_CCS)
          && Agrees(s.world, state, memory, serverParams, s.hash.Some?)
          && (s.buffer.Some? || MayFree(s.world, state, memory)))
    }

    constructor (s: Session)
      requires s.Valid() && s.log == [] && s.buffer.Some? && !s.hashed && s.server
      ensures this.s == s && Valid() && !failed && state == START_ACCEPT && !awaitCcs
    {
      this.s := s;
      state, failed, awaitCcs := START_ACCEPT, false, false;
      serverParams, memory, over := false, NOTHING, 0;
      KnownAtFirst(s.world);
    }

    /** The machine moves on with one more part behind it, and remembers what later parts refer to. */
    method Follow(next: State, ghost log: seq<Event>, p: seq<Event>, k: nat)
      requires !failed && !awaitCcs && s.Valid() && s.server && !s.hashed && next != PROCESS_CCS && next > SELECT_PARAMETERS
      requires Known(s.world, k, log, memory) && s.log == log + p
      requires Ready(s.world, k, memory, p, next, serverParams, s.hash.Some?, s.buffer.Some?)
      modifies this`state, this`memory, this`over
      ensures Valid() && state == next && (k != 0 ==> Agreed().resumed == old(Agreed().resumed))
    {
      assert Open(0);
      KnownGrows(s.world, k, log, memory, p);
      memory, over := Remember(s.world, memory, k, p), k + 1;
      state := next;
    }

    /**
      What every step guarantees: the invariant; that staying in a state leaves the log
      alone and asks for something; and that moving on never goes back.
     */
    twostate predicate Stepped(w: Wait)
      reads this, s
    {
      && Valid() && failed == (w == Error) && s.arrived == old(s.arrived)
      && (!failed ==> awaitCcs == (w == ReadChangeCipherSpec))
      && (!failed && state == old(state) ==> w != Ok && s.log == old(s.log) && Agreed().resumed == old(Agreed().resumed))
      && (!failed && state != old(state) ==> Rank(state, Agreed().resumed) < old(Rank(state, Agreed().resumed)))
    }

    /**
      If nothing of the server's own goes wrong, a step fails exactly if the client gave
      cause, and then leaves the messages alone; it waits for nothing but the network; and
      it stays only for want of a message.
     */
    twostate predicate Goes(e: Env, w: Wait, cause: bool)
      reads this, s
    {
      Cooperative(e) ==>
        && (failed <==> cause) && (failed ==> Kept()) && Paused(w, s.incoming)
        && (!failed && state == old(state) ==> Starved(w, s.incoming) || w == LeftToTls13)
    }

    twostate predicate Kept()
      reads s
    {
      s.incoming == old(s.incoming) && s.spoken == old(s.spoken) && s.log == old(s.log)
    }

    ghost predicate In(st: State)
      reads this, s
    {
      Valid() && !failed && !awaitCcs && state == st
    }

    method Fail() returns (w: Wait)
      modifies this`failed
      ensures failed && w == Error
    {
      failed := true;
      w := Error;
    }

    /** do_start_accept. */
    method DoStartAccept(e: Env) returns (w: Wait)
      requires In(START_ACCEPT)
      modifies this, s
      ensures Stepped(w)
      ensures Goes(e, w, false)
    {
      state := READ_CLIENT_HELLO;
      w := Ok;
    }

    /** do_read_client_hello: the hello is looked at, but neither hashed nor released yet. */
    method DoReadClientHello(e: Env) returns (w: Wait)
      requires In(READ_CLIENT_HELLO)
      modifies this, s
      ensures Stepped(w)
      ensures Goes(e, w, old(s.incoming != [] && s.incoming[0].t != CLIENT_HELLO))
    {
      if s.incoming == [] {
        return ReadMessage;
      }
      if s.incoming[0].t != CLIENT_HELLO {
        w := Fail();
        return;
      }
      if e.handoff {
        return Handoff;
      }
      if e.earlyCallback == Retry {
        return CertificateSelectionPending;
      }
      if e.earlyCallback == Failure || !e.checks {
        w := Fail();
        return;
      }
      state := SELECT_CERTIFICATE;
      w := Ok;
    }

    /** do_select_certificate: the hello must have a cipher in common with us. */
    method DoSelectCertificate(e: Env) returns (w: Wait)
      requires In(SELECT_CERTIFICATE)
      modifies this, s
      ensures Stepped(w)
      ensures Goes(e, w, old(s.incoming != [] && !HelloIn(s.world, s.incoming[0]).tls13 && HelloIn(s.world, s.incoming[0]).cipher.None?))
    {
      // the hello is still there
      if e.certCallback == Retry {
        return X509Lookup;
      }
      if e.certCallback == Failure || !e.checks {
        w := Fail();
        return;
      }
      var h := HelloIn(s.world, s.incoming[0]);
      if h.tls13 {
        state := STATE_TLS13;
        return LeftToTls13;
      }
      if h.cipher.None? {
        w := Fail();
        return;
      }
      state := SELECT_PARAMETERS;
      w := Ok;
    }

    /** do_select_parameters: resumption is settled, and the hello is hashed and released. */
    method DoSelectParameters(e: Env) returns (w: Wait)
      requires In(SELECT_PARAMETERS)
      modifies this, s
      ensures Stepped(w)
      ensures Goes(e, w, false)
    {
      if e.session == Retry {
        return PendingSession;
      }
      if e.session == Failure || !e.checks {
        w := Fail();
        return;
      }
      FollowHello();
      w := Ok;
    }

    /** The hash is started with the hello; the buffer is dropped if no client certificate is asked for. */
    method FollowHello()
      requires In(SELECT_PARAMETERS)
      modifies this`state, this`memory, this`over, s`incoming, s`log, s`spoken, s`hashed, s`buffer, s`hash
      ensures Valid() && state == SEND_HELLO
    {
      ghost var log := s.log;
      var m := s.incoming[0];
      s.InitHash();
      s.HashMessage();
      if !Requests(HelloIn(s.world, m)) {
        s.FreeBuffer();
      }
      s.NextMessage();
      Follow(SEND_HELLO, log, [Received(m)], 0);
    }

    /** do_send_server_hello. */
    method DoSendHello(e: Env) returns (w: Wait)
      requires In(SEND_HELLO)
      modifies this, s
      ensures Stepped(w)
      ensures Goes(e, w, false)
    {
      if !e.checks {
        w := Fail();
        return;
      }
      ghost var log := s.log;
      s.Send(SERVER_HELLO, e.body);
      Follow(if Agreed().resumed then SEND_FINISHED else SEND_CERTIFICATE, log, [Sent(Msg(SERVER_HELLO, e.body))], 1);
      w := Ok;
    }

    /** do_send_server_certificate. */
    method DoSendCertificate(e: Env) returns (w: Wait)
      requires In(SEND_CERTIFICATE)
      modifies this, s
      ensures Stepped(w)
      ensures Goes(e, w, false)
    {
      if !e.checks {
        w := Fail();
        return;
      }
      FollowCertificate(e.identityHint, e.body);
      w := Ok;
    }

    /** Certificate and status go out; the parameters of the key exchange are prepared if the cipher has any. */
    method FollowCertificate(identityHint: bool, body: seq<byte>)
      requires In(SEND_CERTIFICATE)
      modifies this`state, this`memory, this`over, this`serverParams, s`buffer, s`hash, s`log, s`spoken
      ensures Valid() && state == SEND_KEY_EXCHANGE
    {
      ghost var log := s.log;
      var p := OutputCertificate(body);
      var c := CipherOf(Agreed());
      serverParams := RequiresKeyExchange(c) || (c.auth == A_PSK && identityHint);
      Follow(SEND_KEY_EXCHANGE, log, p, 2);
    }

    method OutputCertificate(body: seq<byte>) returns (p: seq<Event>)
      requires s.Valid() && !s.hashed
      modifies s`buffer, s`hash, s`log, s`spoken
      ensures s.Valid() && s.hash.Some? == old(s.hash).Some? && s.buffer.Some? == old(s.buffer).Some?
      ensures s.log == old(s.log) + p && Certifies(Agreed(), p)
    {
      p := [];
      if UsesCertificate(CipherOf(Agreed())) {
        s.Send(CERTIFICATE, body);
        p := [Sent(Msg(CERTIFICATE, body))];
        if Agreed().status {
          s.Send(CERTIFICATE_STATUS, body);
          p := [Sent(Msg(CERTIFICATE, body)), Sent(Msg(CERTIFICATE_STATUS, body))];
        }
      }
    }

    /** do_send_server_key_exchange. */
    method DoSendKeyExchange(e: Env) returns (w: Wait)
      requires In(SEND_KEY_EXCHANGE)
      modifies this, s
      ensures Stepped(w)
      ensures Goes(e, w, false)
    {
      ghost var log := s.log;
      if !serverParams {
        Follow(SEND_HELLO_DONE, log, [], 3);
        return Ok;
      }
      if !e.checks || (UsesCertificate(CipherOf(Agreed())) && e.sign == Failure) {
        w := Fail();
        return;
      }
      if UsesCertificate(CipherOf(Agreed())) && e.sign == Retry {
        return PrivateKeyOperation;
      }
      WriteKeyExchange(e.body);
      w := Ok;
    }

    method WriteKeyExchange(body: seq<byte>)
      requires In(SEND_KEY_EXCHANGE) && serverParams
      modifies this`state, this`memory, this`over, this`serverParams, s`buffer, s`hash, s`log, s`spoken
      ensures Valid() && state == SEND_HELLO_DONE
    {
      ghost var log := s.log;
      s.Send(SERVER_KEY_EXCHANGE, body);
      serverParams := false;
      Follow(SEND_HELLO_DONE, log, [Sent(Msg(SERVER_KEY_EXCHANGE, body))], 3);
    }

    /** do_send_server_hello_done. */
    method DoSendHelloDone(e: Env) returns (w: Wait)
      requires In(SEND_HELLO_DONE)
      modifies this, s
      ensures Stepped(w)
      ensures Goes(e, w, false)
    {
      if !e.checks {
        w := Fail();
        return;
      }
      ghost var log := s.log;
      var p := WriteHelloDone(e.body);
      Follow(READ_CERTIFICATE, log, p, 4);
      w := Flush;
    }

    method WriteHelloDone(body: seq<byte>) returns (p: seq<Event>)
      requires s.Valid() && !s.hashed
      modifies s`buffer, s`hash, s`log, s`spoken
      ensures s.Valid() && s.hash.Some? == old(s.hash).Some? && s.buffer.Some? == old(s.buffer).Some?
      ensures s.log == old(s.log) + p && EndsFlight(Agreed(), p)
    {
      p := [Sent(Msg(SERVER_HELLO_DONE, []))];
      if Requests(Agreed()) {
        s.Send(CERTIFICATE_REQUEST, body);
        p := [Sent(Msg(CERTIFICATE_REQUEST, body)), Sent(Msg(SERVER_HELLO_DONE, []))];
      }
      s.Send(SERVER_HELLO_DONE, []);
    }

    /** The first waiting message is hashed; if it is in order, it is released and the machine moves on. */
    method Take(inOrder: bool, next: State, k: nat) returns (w: Wait)
      requires !failed && !awaitCcs && s.Valid() && s.server && !s.hashed && s.incoming != [] && k != 0
      requires s.incoming[0].t != HELLO_VERIFY_REQUEST && next != PROCESS_CCS && next > SELECT_PARAMETERS && Known(s.world, k, s.log, memory)
      requires inOrder ==> Ready(s.world, k, memory, [Received(s.incoming[0])], next, serverParams, s.hash.Some?, s.buffer.Some?)
      modifies this`state, this`memory, this`over, this`failed, s`incoming, s`log, s`spoken, s`hashed, s`buffer, s`hash
      ensures inOrder ==> w == Ok && Valid() && !failed && state == next && Agreed().resumed == old(Agreed().resumed)
      ensures !inOrder ==> w == Error && Valid() && failed && Kept()
    {
      ghost var log := s.log;
      var m := s.incoming[0];
      s.HashMessage();
      if !inOrder {
        w := Fail();
        return;
      }
      s.NextMessage();
      Follow(next, log, [Received(m)], k);
      w := Ok;
    }

    /** do_read_client_certificate. */
    method DoReadCertificate(e: Env) returns (w: Wait)
      requires In(READ_CERTIFICATE)
      modifies this, s
      ensures Stepped(w)
      ensures Goes(e, w, old(s.incoming != [] && Requests(Agreed()) && BadCertificate(s.world, s.incoming[0])))
    {
      ghost var log := s.log;
      if !Requests(Agreed()) {
        Follow(VERIFY_CERTIFICATE, log, [], 5);
        return Ok;
      }
      if s.incoming == [] {
        return ReadMessage;
      }
      if s.incoming[0].t != CERTIFICATE {
        w := Fail();
        return;
      }
      w := TakeCertificate(e.checks && !BadCertificate(s.world, s.incoming[0]));
    }

    /** Without a client certificate the buffer is not needed any more. */
    method TakeCertificate(inOrder: bool) returns (w: Wait)
      requires In(READ_CERTIFICATE) && Requests(Agreed()) && s.incoming != [] && s.incoming[0].t == CERTIFICATE
      requires inOrder ==> !BadCertificate(s.world, s.incoming[0])
      modifies this`state, this`memory, this`over, this`failed, s`incoming, s`log, s`spoken, s`hashed, s`buffer, s`hash
      ensures inOrder ==> w == Ok && Valid() && !failed && state == VERIFY_CERTIFICATE
      ensures !inOrder ==> w == Error && Valid() && failed && Kept()
    {
      ghost var log := s.log;
      var m := s.incoming[0];
      s.HashMessage();
      if EmptyChain(s.world, m) {
        s.FreeBuffer();
      }
      if !inOrder {
        w := Fail();
        return;
      }
      s.NextMessage();
      Follow(VERIFY_CERTIFICATE, log, [Received(m)], 5);
      w := Ok;
    }

    /** do_verify_client_certificate. */
    method DoVerifyCertificate(e: Env) returns (w: Wait)
      requires In(VERIFY_CERTIFICATE)
      modifies this, s
      ensures Stepped(w)
      ensures Goes(e, w, old(HasChain(s.world, memory) && !Trusted(s.world, memory.certificate)))
    {
      ghost var log := s.log;
      if !HasChain(s.world, memory) {
        Follow(READ_KEY_EXCHANGE, log, [], 6);
        return Ok;
      }
      if e.verifyLater {
        return CertificateVerify;
      }
      if !Trusted(s.world, memory.certificate) {
        w := Fail();
        return;
      }
      s.Mark(Judged(memory.certificate));
      Follow(READ_KEY_EXCHANGE, log, [Judged(memory.certificate)], 6);
      w := Ok;
    }

    /** do_read_client_key_exchange: a decryption may pause before the message is hashed. */
    method DoReadKeyExchange(e: Env) returns (w: Wait)
      requires In(READ_KEY_EXCHANGE)
      modifies this, s
      ensures Stepped(w)
      ensures Goes(e, w, old(s.incoming != [] && s.incoming[0].t != CLIENT_KEY_EXCHANGE))
    {
      if s.incoming == [] {
        return ReadMessage;
      }
      if s.incoming[0].t != CLIENT_KEY_EXCHANGE || (CipherOf(Agreed()).mkey == K_RSA && e.decrypt == Failure) {
        w := Fail();
        return;
      }
      if CipherOf(Agreed()).mkey == K_RSA && e.decrypt == Retry {
        return PrivateKeyOperation;
      }
      w := Take(e.checks, READ_PROOF, 7);
    }

    /** do_read_client_certificate_verify: required if and only if there is a client certificate. */
    method DoReadProof(e: Env) returns (w: Wait)
      requires In(READ_PROOF)
      modifies this, s
      ensures Stepped(w)
      ensures Goes(e, w, old(s.incoming != [] && HasChain(s.world, memory) && BadProof(s.world, memory, s.spoken, s.incoming[0])))
    {
      ghost var log := s.log;
      if !HasChain(s.world, memory) {
        s.FreeBuffer();
        Follow(READ_CCS, log, [], 8);
        return Ok;
      }
      if s.incoming == [] {
        return ReadMessage;
      }
      if s.incoming[0].t != CERTIFICATE_VERIFY || !e.checks {
        w := Fail();
        return;
      }
      w := TakeProof();
    }

    method TakeProof() returns (w: Wait)
      requires In(READ_PROOF) && HasChain(s.world, memory) && s.incoming != [] && s.incoming[0].t == CERTIFICATE_VERIFY
      modifies this`state, this`memory, this`over, this`failed, s`incoming, s`log, s`spoken, s`hashed, s`buffer, s`hash
      ensures ProofOk(s.world, old(memory).certificate, old(s.spoken), old(s.incoming)[0]) ==> w == Ok && Valid() && !failed && state == READ_CCS
      ensures !ProofOk(s.world, old(memory).certificate, old(s.spoken), old(s.incoming)[0]) ==> w == Error && Valid() && failed && Kept()
    {
      ghost var log := s.log;
      var ok, p := s.AcceptProof(memory.certificate);
      if !ok {
        w := Fail();
        return;
      }
      Follow(READ_CCS, log, p, 8);
      w := Ok;
    }

    /** do_read_change_cipher_spec. */
    method DoReadCcs(e: Env) returns (w: Wait)
      requires In(READ_CCS)
      modifies this, s
      ensures Stepped(w)
      ensures Goes(e, w, false)
    {
      state, awaitCcs := PROCESS_CCS, true;
      w := ReadChangeCipherSpec;
    }

    /** do_process_change_cipher_spec: the read keys change, unless a message is still waiting. */
    method DoProcessCcs(e: Env) returns (w: Wait)
      requires In(PROCESS_CCS)
      modifies this, s
      ensures Stepped(w)
      ensures Goes(e, w, old(s.incoming != []))
    {
      if !e.checks {
        w := Fail();
        return;
      }
      w := Rekey();
    }

    method Rekey() returns (w: Wait)
      requires In(PROCESS_CCS)
      modifies this`state, this`memory, this`over, this`failed, s`log, s`spoken
      ensures s.incoming == [] ==> w == Ok && Valid() && !failed && state == READ_NEXT_PROTO && Agreed().resumed == old(Agreed().resumed)
      ensures s.incoming != [] ==> w == Error && Valid() && failed && Kept()
    {
      ghost var log := s.log;
      var ok := s.Rekey();
      if !ok {
        w := Fail();
        return;
      }
      Follow(READ_NEXT_PROTO, log, [Rekeyed(s.arrived)], PartsOver(PROCESS_CCS, Agreed().resumed, false));
      w := Ok;
    }

    /** do_read_next_proto. */
    method DoReadNextProto(e: Env) returns (w: Wait)
      requires In(READ_NEXT_PROTO)
      modifies this, s
      ensures Stepped(w)
      ensures Goes(e, w, old(s.incoming != [] && Agreed().nextProto && s.incoming[0].t != NEXT_PROTO))
    {
      ghost var log := s.log;
      var k := Index(READ_NEXT_PROTO, Agreed().resumed);
      if !Agreed().nextProto {
        Follow(READ_CHANNEL_ID, log, [], k);
        return Ok;
      }
      if s.incoming == [] {
        return ReadMessage;
      }
      if s.incoming[0].t != NEXT_PROTO {
        w := Fail();
        return;
      }
      w := Take(e.checks, READ_CHANNEL_ID, k);
    }

    /** do_read_channel_id. */
    method DoReadChannelId(e: Env) returns (w: Wait)
      requires In(READ_CHANNEL_ID)
      modifies this, s
      ensures Stepped(w)
      ensures Goes(e, w, old(s.incoming != [] && UsesChannelId(Agreed()) && s.incoming[0].t != CHANNEL_ID))
    {
      ghost var log := s.log;
      var k := Index(READ_CHANNEL_ID, Agreed().resumed);
      if !UsesChannelId(Agreed()) {
        Follow(READ_FINISHED, log, [], k);
        return Ok;
      }
      if s.incoming == [] {
        return ReadMessage;
      }
      if s.incoming[0].t != CHANNEL_ID || !e.checks {
        // the signature is checked before the message is hashed
        w := Fail();
        return;
      }
      w := Take(true, READ_FINISHED, k);
    }

    /** do_read_client_finished. */
    method DoReadFinished(e: Env) returns (w: Wait)
      requires In(READ_FINISHED)
      modifies this, s
      ensures Stepped(w)
      ensures Goes(e, w, old(s.incoming != [] && s.incoming[0] != FinishedOf(s.world, false, s.spoken)))
    {
      w := TakeFinished();
      if w == Ok && !e.checks {
        w := Fail();
      }
    }

    method TakeFinished() returns (w: Wait)
      requires In(READ_FINISHED)
      modifies this`state, this`memory, this`over, this`failed, s`incoming, s`log, s`spoken, s`hashed, s`buffer, s`hash
      ensures Valid() && failed == (w == Error) && (w == ReadMessage <==> old(s.incoming) == [])
      ensures w == Ok <==> old(s.incoming) != [] && old(s.incoming)[0] == FinishedOf(s.world, false, old(s.spoken))
      ensures w == Ok ==> state == (if Agreed().resumed then FINISH_HANDSHAKE else SEND_FINISHED) && Agreed().resumed == old(Agreed().resumed)
      ensures (w == Ok || w == ReadMessage || w == Error) && (w == Error ==> Kept())
      ensures w == ReadMessage ==> s.log == old(s.log) && s.incoming == [] && state == old(state) && Agreed().resumed == old(Agreed().resumed)
    {
      ghost var log := s.log;
      var p;
      w, p := s.GetFinished();
      if w == Error {
        w := Fail();
        return;
      }
      if w != Ok {
        return;
      }
      Follow(if Agreed().resumed then FINISH_HANDSHAKE else SEND_FINISHED, log, p, Index(READ_FINISHED, Agreed().resumed));
    }

    /** do_send_server_finished. */
    method DoSendFinished(e: Env) returns (w: Wait)
      requires In(SEND_FINISHED)
      modifies this, s
      ensures Stepped(w)
      ensures Goes(e, w, false)
    {
      if !e.checks {
        w := Fail();
        return;
      }
      FollowFinish(e.body);
      w := Flush;
    }

    method FollowFinish(body: seq<byte>)
      requires In(SEND_FINISHED)
      modifies this`state, this`memory, this`over, s`buffer, s`hash, s`log, s`spoken
      ensures Valid() && state == (if Agreed().resumed then READ_CCS else FINISH_HANDSHAKE) && Agreed().resumed == old(Agreed().resumed)
    {
      ghost var log := s.log;
      var p := WriteTicket(body);
      var q := s.SendFinished();
      Appended(log, p, q);
      FinishesAfter(Agreed(), p, q);
      Follow(if Agreed().resumed then READ_CCS else FINISH_HANDSHAKE, log, p + q, Index(SEND_FINISHED, Agreed().resumed));
    }

    /** A ticket, if one is due, and the cipher change. */
    method WriteTicket(body: seq<byte>) returns (p: seq<Event>)
      requires s.Valid() && !s.hashed && s.hash.Some?
      modifies s`buffer, s`hash, s`log, s`spoken
      ensures s.Valid() && s.hash.Some? && s.buffer.Some? == old(s.buffer).Some?
      ensures s.log == old(s.log) + p && BeforeFinish(Agreed(), p)
    {
      p := [SentCcs];
      if Agreed().ticket {
        s.Send(NEW_SESSION_TICKET, body);
        p := [Sent(Msg(NEW_SESSION_TICKET, body)), SentCcs];
      }
      s.Mark(SentCcs);
    }

    /** do_finish_server_handshake. */
    method DoFinishHandshake(e: Env) returns (w: Wait)
      requires In(FINISH_HANDSHAKE)
      modifies this, s
      ensures Stepped(w)
      ensures Goes(e, w, false)
    {
      state := DONE;
      w := Ok;
    }

    // ----- the driver -----

    function Look(): View
      reads this`state, this`memory, s`incoming, s`buffer, s`hash
    {
      View(state, s.incoming, memory, s.Live())
    }

    method Step(e: Env) returns (w: Wait)
      requires Valid() && !failed && !awaitCcs && state < DONE
      modifies this, s
      ensures Stepped(w)
      ensures Goes(e, w, old(Refused(s.world, Look())))
    {
      if state <= STATE_TLS13 {
        w := HelloStep(e);
      } else if state <= SEND_HELLO {
        w := SelectStep(e);
      } else if state < READ_CERTIFICATE {
        w := SendStep(e);
      } else if state < READ_CCS {
        w := ReadStep(e);
      } else if state < READ_FINISHED {
        w := CcsStep(e);
      } else {
        w := FinishStep(e);
      }
    }

    method HelloStep(e: Env) returns (w: Wait)
      requires Valid() && !failed && !awaitCcs && state <= STATE_TLS13
      modifies this, s
      ensures Stepped(w)
      ensures Goes(e, w, old(Refused(s.world, Look())))
    {
      if state == START_ACCEPT {
        w := DoStartAccept(e);
      } else if state == READ_CLIENT_HELLO {
        w := DoReadClientHello(e);
      } else if state == SELECT_CERTIFICATE {
        w := DoSelectCertificate(e);
      } else {
        w := LeftToTls13;
      }
    }

    method SelectStep(e: Env) returns (w: Wait)
      requires Valid() && !failed && !awaitCcs && SELECT_PARAMETERS <= state <= SEND_HELLO
      modifies this, s
      ensures Stepped(w)
      ensures Goes(e, w, old(Refused(s.world, Look())))
    {
      if state == SELECT_PARAMETERS {
        w := DoSelectParameters(e);
      } else {
        w := DoSendHello(e);
      }
    }

    method SendStep(e: Env) returns (w: Wait)
      requires Valid() && !failed && !awaitCcs && SEND_CERTIFICATE <= state < READ_CERTIFICATE
      modifies this, s
      ensures Stepped(w)
      ensures Goes(e, w, old(Refused(s.world, Look())))
    {
      if state == SEND_CERTIFICATE {
        w := DoSendCertificate(e);
      } else if state == SEND_KEY_EXCHANGE {
        w := DoSendKeyExchange(e);
      } else {
        w := DoSendHelloDone(e);
      }
    }

    method ReadStep(e: Env) returns (w: Wait)
      requires Valid() && !failed && !awaitCcs && READ_CERTIFICATE <= state < READ_CCS
      modifies this, s
      ensures Stepped(w)
      ensures Goes(e, w, old(Refused(s.world, Look())))
    {
      if state == READ_CERTIFICATE {
        w := DoReadCertificate(e);
      } else if state == VERIFY_CERTIFICATE {
        w := DoVerifyCertificate(e);
      } else if state == READ_KEY_EXCHANGE {
        w := DoReadKeyExchange(e);
      } else {
        w := DoReadProof(e);
      }
    }

    method CcsStep(e: Env) returns (w: Wait)
      requires Valid() && !failed && !awaitCcs && READ_CCS <= state < READ_FINISHED
      modifies this, s
      ensures Stepped(w)
      ensures Goes(e, w, old(Refused(s.world, Look())))
    {
      if state == READ_CCS {
        w := DoReadCcs(e);
      } else if state == PROCESS_CCS {
        w := DoProcessCcs(e);
      } else if state == READ_NEXT_PROTO {
        w := DoReadNextProto(e);
      } else {
        w := DoReadChannelId(e);
      }
    }

    method FinishStep(e: Env) returns (w: Wait)
      requires Valid() && !failed && !awaitCcs && READ_FINISHED <= state < DONE
      modifies this, s
      ensures Stepped(w)
      ensures Goes(e, w, old(Refused(s.world, Look())))
    {
      if state == READ_FINISHED {
        w := DoReadFinished(e);
      } else if state == SEND_FINISHED {
        w := DoSendFinished(e);
      } else {
        w := DoFinishHandshake(e);
      }
    }

    /** The machine has stopped for a reason: it ended, is starved, was left to TLS 1.3, or came closer to its end. */
    twostate predicate Progressed(w: Wait)
      reads this, s
    {
      && Paused(w, s.incoming)
      && (|| w == Ok || w == Error || w == LeftToTls13 || Starved(w, s.incoming)
          || Rank(state, Agreed().resumed) < old(Rank(state, Agreed().resumed)))
    }

    /**
      ssl_server_handshake: the loop ends, because every step that does not return gets
      closer to the end. `last` is what the server had before it when it stopped; if nothing
      of its own goes wrong, it fails only with cause and pauses only with progress or for
      want of a message.
     */
    method RunMachine(oracle: nat -> Env, tick: nat) returns (w: Wait, tick': nat, last: View)
      requires Valid() && !failed && !awaitCcs
      modifies this, s
      ensures Valid() && failed == (w == Error) && (!failed ==> awaitCcs == (w == ReadChangeCipherSpec)) && s.arrived == old(s.arrived)
      ensures w == Ok ==> state >= DONE
      ensures !failed ==> Rank(state, Agreed().resumed) <= old(Rank(state, Agreed().resumed))
      ensures Smooth(oracle) ==> (failed ==> Failing(s.world, s.log, s.incoming, last)) && Progressed(w)
    {
      tick', last := tick, Look();
      while state < DONE
        invariant Valid() && !failed && !awaitCcs && s.arrived == old(s.arrived)
        invariant Rank(state, Agreed().resumed) <= old(Rank(state, Agreed().resumed))
        decreases Rank(state, Agreed().resumed)
      {
        last := Look();
        ViewIs(s.world, s.log, s.incoming, s.spoken, s.arrived, over, last);
        w := Step(Ask(oracle, tick'));
        tick' := tick' + 1;
        if w != Ok {
          return;
        }
      }
      w := Ok;
    }

    /** The record layer has opened the peer's ChangeCipherSpec. */
    method OpenCcs()
      requires Valid() && !failed && awaitCcs
      modifies this`awaitCcs, this`over, s`log, s`spoken
      ensures Valid() && !awaitCcs
    {
      ghost var log := s.log;
      s.Mark(ReceivedCcs);
      KnownCcs(s.world, log, memory);
      over := over + 1;
      awaitCcs := false;
    }

    /** A machine that is done has been through a whole handshake. */
    lemma DoneConforms()
      requires Valid() && !failed && state >= DONE
      ensures Conforms(s.world, s.log)
    {
      assert Unfold(0);
    }

    /** What the books say at any time. */
    lemma Books()
      requires Valid()
      ensures Covered(s.world, true, s.log) && Heard(s.log) + s.incoming == s.arrived
      ensures !failed ==> s.spoken == Spoken(s.log) && (s.buffer.Some? || s.hash.Some?)
      ensures !failed ==> (s.buffer.Some? ==> s.buffer.value == s.spoken) && (s.hash.Some? ==> s.hash.value == s.spoken)
    {
      assert Unfold(0);
    }
  }

  predicate BeforeFinish(h: Hello, p: seq<Event>) {
    if h.ticket then |p| == 2 && p[0].Sent? && p[0].m.t == NEW_SESSION_TICKET && p[1] == SentCcs else p == [SentCcs]
  }

  lemma FinishesAfter(h: Hello, p: seq<Event>, q: seq<Event>)
    requires BeforeFinish(h, p) && OwnFinishes(q, 0)
    ensures ServerFinishes(h, p + q)
  {
  }

  /** A server with that log and those messages, where the client has given cause to fail. */
  ghost predicate Failing(w: World, log: seq<Event>, incoming: seq<Msg>, v: View) {
    ViewOf(w, log, incoming, v) && Refused(w, v)
  }

  ghost predicate ViewOf(w: World, log: seq<Event>, incoming: seq<Msg>, v: View) {
    && v.incoming == incoming && v.spoken == Spoken(log)
    && Known(w, PartsOver(v.state, HelloOf(w, v.memory).resumed, false), log, v.memory)
  }

  lemma ViewIs(w: World, log: seq<Event>, incoming: seq<Msg>, spoken: seq<Msg>, arrived: seq<Msg>, k: nat, v: View)
    requires Accounts(w, true, log, spoken, incoming, arrived) && Known(w, k, log, v.memory)
    requires v.incoming == incoming && v.spoken == spoken && k == PartsOver(v.state, HelloOf(w, v.memory).resumed, false)
    ensures ViewOf(w, log, incoming, v)
  {
    assert Unfold(0);
  }

  // ----- whole runs -----

  /** ssl_run_handshake, once: resolves the wait if it can, and runs the machine. */
  method Resume(c: Server, wait: Wait, round: Round, oracle: nat -> Env, tick: nat) returns (w: Wait, tick': nat, last: View)
    requires c.Valid() && !c.failed && wait != Error && wait != Ok && c.awaitCcs == (wait == ReadChangeCipherSpec)
    modifies c, c.s
    ensures c.Valid() && c.failed == (w == Error) && (!c.failed ==> c.awaitCcs == (w == ReadChangeCipherSpec))
    ensures c.s.arrived == old(c.s.arrived) + round.arrived
    ensures w == Ok ==> c.state >= DONE
    ensures !c.failed ==> Rank(c.state, c.Agreed().resumed) <= old(Rank(c.state, c.Agreed().resumed))
    ensures Smooth(oracle) ==> (c.failed ==> Failing(c.s.world, c.s.log, c.s.incoming, last)) && (round.resolved ==> c.Progressed(w))
  {
    tick', last := tick, c.Look();
    c.s.Arrive(round.arrived);
    if wait == LeftToTls13 || !round.resolved {
      return wait, tick', last;
    }
    if wait == ReadChangeCipherSpec {
      c.OpenCcs();
    }
    w, tick', last := c.RunMachine(oracle, tick);
  }

  /** A server that has stopped, with all that was said of the run so far. */
  ghost predicate Stopped(c: Server, w: Wait, last: View, oracle: nat -> Env)
    reads c, c.s
  {
    && c.Valid() && c.failed == (w == Error) && (!c.failed ==> c.awaitCcs == (w == ReadChangeCipherSpec)) && (w == Ok ==> c.state >= DONE)
    && (Smooth(oracle) && c.failed ==> Failing(c.s.world, c.s.log, c.s.incoming, last))
  }

  /** ssl_run_handshake, until the rounds or the handshake are over. */
  method ResumeAll(c: Server, wait: Wait, rounds: seq<Round>, oracle: nat -> Env, start: nat, first: View)
    returns (w: Wait, last: View, used: nat)
    requires Stopped(c, wait, first, oracle) && c.s.arrived == [] && (Smooth(oracle) ==> Paused(wait, c.s.incoming))
    modifies c, c.s
    ensures Stopped(c, w, last, oracle) && used <= |rounds| && (w != Ok && w != Error ==> used == |rounds|)
    ensures c.s.arrived == Arrivals(rounds, used)
    ensures Smooth(oracle) && Resolved(rounds, |rounds|) ==> Paused(w, c.s.incoming)
  {
    var tick := start;
    w, last, used := wait, first, 0;
    while used < |rounds| && w != Ok && w != Error
      invariant used <= |rounds| && Stopped(c, w, last, oracle) && c.s.arrived == Arrivals(rounds, used)
      invariant Smooth(oracle) && Resolved(rounds, used) ==> Paused(w, c.s.incoming)
    {
      w, tick, last := Resume(c, w, rounds[used], oracle, tick);
      used := used + 1;
    }
  }

  /**
    Any run of a server, with any pauses and re-entries. The messages received, in order and
    once each, and those still waiting are exactly those that arrived. Every check so far
    came out well and covered exactly the messages spoken before it, and without an error
    the transcript is exactly what was spoken. If the run completes, it has followed the
    message flow. If nothing of the server's own goes wrong, it fails only with cause and
    never waits for anything but the network.
   */
  method Accept(world: World, rounds: seq<Round>, oracle: nat -> Env)
    returns (w: Wait, log: seq<Event>, incoming: seq<Msg>, buffer: Option<seq<Msg>>, hash: Option<seq<Msg>>, last: View, used: nat)
    ensures used <= |rounds| && (w != Ok && w != Error ==> used == |rounds|)
    ensures Heard(log) + incoming == Arrivals(rounds, used)
    ensures Covered(world, true, log)
    ensures w == Ok ==> Conforms(world, log)
    ensures w != Error ==> (buffer.Some? || hash.Some?) && (buffer.Some? ==> buffer.value == Spoken(log)) && (hash.Some? ==> hash.value == Spoken(log))
    ensures Smooth(oracle) && w == Error ==> Failing(world, log, incoming, last)
    ensures Smooth(oracle) && Resolved(rounds, |rounds|) ==> Paused(w, incoming)
  {
    var s := new Session(world, true);
    var c := new Server(s);
    var tick: nat;
    w, tick, last := c.RunMachine(oracle, 0);
    w, last, used := ResumeAll(c, w, rounds, oracle, tick, last);
    log, incoming, buffer, hash := s.log, s.incoming, s.buffer, s.hash;
    c.Books();
    if w == Ok {
      c.DoneConforms();
    }
  }
}
