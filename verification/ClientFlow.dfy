/**
  What a completed client handshake must have exchanged, told by the fields of the
  ServerHello: which messages come exactly when, what they were checked against, and that
  a server that authenticates by certificate has done so.
 */
module ClientFlow {
  import opened Bytes
  import opened CipherList
  import opened Handshake
  import opened HandshakeClient

  /** A full handshake with a cipher whose authentication is RSA (0) or ECDSA (1). */
  predicate Certified(h: Hello) {
    !h.resumed && h.cipher.Some? && (h.cipher.value.auth == 0 || h.cipher.value.auth == 1)
  }

  /** A full handshake whose key exchange is ECDHE (1), or one of these. */
  predicate Exchanges(h: Hello, mkeys: set<nat>) {
    !h.resumed && h.cipher.Some? && h.cipher.value.mkey in mkeys
  }

  /** The types of messages that a server must have sent, */
  predicate MustReceive(h: Hello, t: nat) {
    || t == 2 || t == 20
    || (t == 4 && h.ticket)
    || (t == 14 && !h.resumed)
    || (t == 11 && Certified(h))
    || (t == 12 && Exchanges(h, {1}))
  }

  /** and those that it may have sent: HelloVerifyRequest, ServerKeyExchange, CertificateRequest and CertificateStatus are optional. */
  predicate MayReceive(dtls: bool, h: Hello, t: nat) {
    || MustReceive(h, t)
    || (t == 3 && dtls)
    || (t == 12 && Exchanges(h, {1, 2}))
    || (t == 13 && Certified(h))
    || (t == 22 && !h.resumed && h.status)
  }

  /** The types of messages that we send whatever the server asks for. */
  predicate Sending(h: Hello, t: nat) {
    t == 1 || t == 20 || (t == 16 && !h.resumed) || (t == 67 && h.nextProto) || (t == 203 && h.channelId)
  }

  // ----- where messages come -----

  lemma MayHear(w: World, dtls: bool, k: nat, mem: Memory, p: seq<Event>, j: nat, h: Hello)
    requires Part(w, dtls, k, mem, p) && j < |p| && p[j].Received? && h.cipher.Some? && (k > 2 ==> HelloOf(w, mem) == h)
    ensures MayReceive(dtls, h, p[j].m.t)
  {
  }

  /** What a part may send: our certificate only if one was requested, and our CertificateVerify only after one with a chain. */
  lemma MaySend(w: World, dtls: bool, k: nat, mem: Memory, p: seq<Event>, j: nat, h: Hello)
    requires Part(w, dtls, k, mem, p) && j < |p| && p[j].Sent? && (k > 2 ==> HelloOf(w, mem) == h)
    ensures p[j].m.t == 11 ==> k == 9 && !h.resumed && mem.request
    ensures p[j].m.t == 15 ==> k == 11 && !h.resumed && mem.request && !w.emptyChain(mem.own.body)
    ensures p[j].m.t == 11 || p[j].m.t == 15 || Sending(h, p[j].m.t)
  {
    if k == 12 || (k == 7 && h.resumed) {
      SentAtEnd(h, p, j);
    }
  }

  lemma SentAtEnd(h: Hello, p: seq<Event>, j: nat)
    requires ClientFinishes(h, p) && j < |p| && p[j].Sent?
    ensures (p[j].m.t == 67 && h.nextProto) || (p[j].m.t == 203 && h.channelId) || p[j].m.t == 20
  {
    var front := p[..FinishAt(h)];
    if j < FinishAt(h) {
      assert front[j] == p[j];
    }
  }

  /** The parts of a run with a ServerHello. */
  ghost predicate Run(w: World, dtls: bool, parts: seq<seq<Event>>, m: Msg) {
    && Parts(w, dtls, parts) && |parts| == Length(HelloIn(w, m).resumed) && HelloIs(w, parts, m)
    && m.t == SERVER_HELLO && parts[2] == [Received(m)] && Settles(HelloIn(w, m))
  }

  lemma RunOf(w: World, dtls: bool, log: seq<Event>, h: nat) returns (parts: seq<seq<Event>>)
    requires Conforms(w, dtls, log) && h < |log| && log[h].Received? && log[h].m.t == SERVER_HELLO
    ensures Run(w, dtls, parts, log[h].m) && log == Concat(parts) && h == Start(parts, 2)
  {
    parts := HelloPart(w, dtls, log, h);
    assert PartAt(w, dtls, parts, 2);
  }

  lemma PartHello(w: World, dtls: bool, parts: seq<seq<Event>>, m: Msg, k: nat)
    requires Run(w, dtls, parts, m) && 2 < k <= |parts|
    ensures HelloOf(w, Recall(w, parts[..k])) == HelloIn(w, m)
  {
    assert Unfold(0);
  }

  lemma HeardIsAllowed(w: World, dtls: bool, parts: seq<seq<Event>>, m: Msg, t: nat)
    requires Run(w, dtls, parts, m) && HasReceived(Concat(parts), t)
    ensures MayReceive(dtls, HelloIn(w, m), t)
  {
    var log := Concat(parts);
    var i :| 0 <= i < |log| && log[i].Received? && log[i].m.t == t;
    var k, j := FromConcat(parts, i);
    assert PartAt(w, dtls, parts, k);
    if k > 2 {
      PartHello(w, dtls, parts, m, k);
    }
    MayHear(w, dtls, k, Recall(w, parts[..k]), parts[k], j, HelloIn(w, m));
  }

  lemma HeardIn(parts: seq<seq<Event>>, k: nat, j: nat)
    requires k < |parts| && j < |parts[k]|
    ensures parts[k][j].Received? ==> HasReceived(Concat(parts), parts[k][j].m.t)
    ensures parts[k][j].Sent? ==> HasSent(Concat(parts), parts[k][j].m.t)
  {
    InConcat(parts, k, j);
  }

  /** The place of a message that a server must send. */
  function PlaceOf(h: Hello, t: nat): nat {
    if t == 2 then 2
    else if t == 20 then (if h.resumed then 6 else 16)
    else if t == 4 then (if h.resumed then 3 else 13)
    else if t == 14 then 8
    else if t == 11 then 3
    else 6
  }

  lemma DutyIsHeard(w: World, dtls: bool, parts: seq<seq<Event>>, m: Msg, t: nat)
    requires Run(w, dtls, parts, m) && MustReceive(HelloIn(w, m), t)
    ensures HasReceived(Concat(parts), t)
  {
    var k := PlaceOf(HelloIn(w, m), t);
    assert PartAt(w, dtls, parts, k);
    if k > 2 {
      PartHello(w, dtls, parts, m, k);
    }
    HeardIn(parts, k, |parts[k]| - 1);
  }

  // ----- what we send -----

  /** What is remembered of a request, and of our own certificate. */
  lemma {:induction false} RecallOwn(w: World, dtls: bool, parts: seq<seq<Event>>, m: Msg, k: nat)
    requires Run(w, dtls, parts, m) && !HelloIn(w, m).resumed && k <= |parts|
    ensures var mem := Recall(w, parts[..k]);
      && (k <= 7 ==> !mem.request) && (k > 7 ==> (mem.request <==> parts[7] != []))
      && (k > 9 ==> mem.own == MessageOf(parts[9], 0))
  {
    if k > 0 {
      assert parts[..k][..k - 1] == parts[..k - 1];
      RecallOwn(w, dtls, parts, m, k - 1);
      if k - 1 > 2 {
        PartHello(w, dtls, parts, m, k - 1);
      }
    }
  }

  /** A request was received exactly if the eighth part of a full handshake is not empty. */
  lemma RequestIsPart(w: World, dtls: bool, parts: seq<seq<Event>>, m: Msg)
    requires Run(w, dtls, parts, m)
    ensures HasReceived(Concat(parts), 13) <==> !HelloIn(w, m).resumed && parts[7] != []
  {
    var log := Concat(parts);
    if HasReceived(log, 13) {
      var i :| 0 <= i < |log| && log[i].Received? && log[i].m.t == 13;
      var k, j := FromConcat(parts, i);
      assert PartAt(w, dtls, parts, k);
      if k > 2 {
        PartHello(w, dtls, parts, m, k);
      }
      RequestPlace(w, dtls, k, Recall(w, parts[..k]), parts[k], j);
    }
    if !HelloIn(w, m).resumed && parts[7] != [] {
      assert PartAt(w, dtls, parts, 7);
      PartHello(w, dtls, parts, m, 7);
      HeardIn(parts, 7, 0);
    }
  }

  lemma RequestPlace(w: World, dtls: bool, k: nat, mem: Memory, p: seq<Event>, j: nat)
    requires Part(w, dtls, k, mem, p) && j < |p| && p[j].Received? && p[j].m.t == CERTIFICATE_REQUEST
    ensures k == 7 && !HelloOf(w, mem).resumed
  {
  }

  /** Whether a certificate with a chain was sent. */
  ghost predicate SentChain(w: World, log: seq<Event>) {
    exists i :: 0 <= i < |log| && log[i].Sent? && log[i].m.t == 11 && !w.emptyChain(log[i].m.body)
  }

  lemma SentIsAllowed(w: World, dtls: bool, parts: seq<seq<Event>>, m: Msg, i: nat) returns (k: nat, j: nat)
    requires Run(w, dtls, parts, m) && i < |Concat(parts)| && Concat(parts)[i].Sent?
    ensures k < |parts| && j < |parts[k]| && parts[k][j] == Concat(parts)[i] && PartAt(w, dtls, parts, k)
    ensures var t, h := Concat(parts)[i].m.t, HelloIn(w, m);
      && (t == 11 ==> k == 9 && !h.resumed && parts[7] != [])
      && (t == 15 ==> k == 11 && !h.resumed && parts[7] != [] && !w.emptyChain(MessageOf(parts[9], 0).body))
      && (t == 11 || t == 15 || Sending(h, t))
  {
    k, j := FromConcat(parts, i);
    assert PartAt(w, dtls, parts, k);
    if k > 2 {
      PartHello(w, dtls, parts, m, k);
    }
    MaySend(w, dtls, k, Recall(w, parts[..k]), parts[k], j, HelloIn(w, m));
    if !HelloIn(w, m).resumed {
      RecallOwn(w, dtls, parts, m, k);
    }
  }

  /** With a request, our Certificate is the tenth part, and our CertificateVerify the twelfth if it has a chain. */
  lemma OwnParts(w: World, dtls: bool, parts: seq<seq<Event>>, m: Msg)
    requires Run(w, dtls, parts, m) && !HelloIn(w, m).resumed && parts[7] != []
    ensures Sends(parts[9], CERTIFICATE)
    ensures !w.emptyChain(parts[9][0].m.body) ==> |parts[11]| == 2 && parts[11][1].Sent? && parts[11][1].m.t == 15
  {
    assert PartAt(w, dtls, parts, 9) && PartAt(w, dtls, parts, 11);
    PartHello(w, dtls, parts, m, 9);
    PartHello(w, dtls, parts, m, 11);
    RecallOwn(w, dtls, parts, m, 9);
    RecallOwn(w, dtls, parts, m, 11);
  }

  lemma OwnCertificate(w: World, dtls: bool, parts: seq<seq<Event>>, m: Msg)
    requires Run(w, dtls, parts, m)
    ensures HasSent(Concat(parts), 11) <==> HasReceived(Concat(parts), 13)
  {
    var log := Concat(parts);
    RequestIsPart(w, dtls, parts, m);
    if HasSent(log, 11) {
      var i :| 0 <= i < |log| && log[i].Sent? && log[i].m.t == 11;
      var _, _ := SentIsAllowed(w, dtls, parts, m, i);
    }
    if HasReceived(log, 13) {
      OwnParts(w, dtls, parts, m);
      HeardIn(parts, 9, 0);
    }
  }

  lemma OwnProof(w: World, dtls: bool, parts: seq<seq<Event>>, m: Msg)
    requires Run(w, dtls, parts, m)
    ensures HasSent(Concat(parts), 15) <==> SentChain(w, Concat(parts))
  {
    var log := Concat(parts);
    if HasSent(log, 15) {
      var i :| 0 <= i < |log| && log[i].Sent? && log[i].m.t == 15;
      var _, _ := SentIsAllowed(w, dtls, parts, m, i);
      OwnParts(w, dtls, parts, m);
      InConcat(parts, 9, 0);
    }
    if SentChain(w, log) {
      var i :| 0 <= i < |log| && log[i].Sent? && log[i].m.t == 11 && !w.emptyChain(log[i].m.body);
      var k, j := SentIsAllowed(w, dtls, parts, m, i);
      OwnParts(w, dtls, parts, m);
      HeardIn(parts, 11, 1);
    }
  }

  lemma DutyIsSent(w: World, dtls: bool, parts: seq<seq<Event>>, m: Msg, t: nat)
    requires Run(w, dtls, parts, m) && Sending(HelloIn(w, m), t)
    ensures HasSent(Concat(parts), t)
  {
    var h := HelloIn(w, m);
    var own := OwnPart(h.resumed);
    if t == 1 {
      assert PartAt(w, dtls, parts, 0);
      HeardIn(parts, 0, 0);
    } else if t == 16 {
      assert PartAt(w, dtls, parts, 10);
      PartHello(w, dtls, parts, m, 10);
      HeardIn(parts, 10, 0);
    } else {
      assert PartAt(w, dtls, parts, own);
      PartHello(w, dtls, parts, m, own);
      EndSends(h, parts[own], t);
      var j :| 0 <= j < |parts[own]| && parts[own][j].Sent? && parts[own][j].m.t == t;
      HeardIn(parts, own, j);
    }
  }

  lemma EndSends(h: Hello, p: seq<Event>, t: nat)
    requires ClientFinishes(h, p) && (t == 20 || (t == 67 && h.nextProto) || (t == 203 && h.channelId))
    ensures exists j :: 0 <= j < |p| && p[j].Sent? && p[j].m.t == t
  {
    var n := FinishAt(h);
    var front := p[..n];
    assert p[n + 1].Sent? && p[n + 1].m.t == 20;
    if t == 67 {
      assert front[1] == p[1];
    } else if t == 203 {
      assert front[n - 1] == p[n - 1];
    }
  }

  // ----- the theorems -----

  /** What the server sent: no message that the hello does not allow, and every message that it demands. */
  lemma ReceivedFlow(w: World, dtls: bool, log: seq<Event>, h: nat, t: nat)
    requires Conforms(w, dtls, log) && h < |log| && log[h].Received? && log[h].m.t == 2
    ensures HasReceived(log, t) ==> MayReceive(dtls, w.hello(log[h].m.body), t)
    ensures MustReceive(w.hello(log[h].m.body), t) ==> HasReceived(log, t)
  {
    var parts := RunOf(w, dtls, log, h);
    if HasReceived(log, t) {
      HeardIsAllowed(w, dtls, parts, log[h].m, t);
    }
    if MustReceive(w.hello(log[h].m.body), t) {
      DutyIsHeard(w, dtls, parts, log[h].m, t);
    }
  }

  /** What we sent: a Certificate exactly on request, a CertificateVerify exactly with a chain, and all else exactly as the hello says. */
  lemma SentFlow(w: World, dtls: bool, log: seq<Event>, h: nat, t: nat)
    requires Conforms(w, dtls, log) && h < |log| && log[h].Received? && log[h].m.t == 2
    ensures t == 11 ==> (HasSent(log, t) <==> HasReceived(log, 13))
    ensures t == 15 ==> (HasSent(log, t) <==> SentChain(w, log))
    ensures t != 11 && t != 15 ==> (HasSent(log, t) <==> Sending(w.hello(log[h].m.body), t))
  {
    var parts := RunOf(w, dtls, log, h);
    if t == 11 {
      OwnCertificate(w, dtls, parts, log[h].m);
    } else if t == 15 {
      OwnProof(w, dtls, parts, log[h].m);
    } else {
      if HasSent(log, t) {
        var i :| 0 <= i < |log| && log[i].Sent? && log[i].m.t == t;
        var _, _ := SentIsAllowed(w, dtls, parts, log[h].m, i);
      }
      if Sending(w.hello(log[h].m.body), t) {
        DutyIsSent(w, dtls, parts, log[h].m, t);
      }
    }
  }

  /**
    A server that authenticates by certificate: its Certificate came with a chain, was
    trusted unless no verification is asked for, and for ECDHE its key signed the exchange.
   */
  ghost predicate Authenticated(w: World, log: seq<Event>, h: nat, mkey: nat, a: nat, k: nat, c: nat) {
    && h < a < c < |log| && log[h].Received? && log[a].Received? && log[a].m.t == 11 && !w.emptyChain(log[a].m.body)
    && (w.trusts(log[a].m.body) || w.verifyNone) && log[c] == ReceivedCcs
    && (mkey == 1 ==> a < k < c && log[k].Received? && log[k].m.t == 12 && SignedOver(w, log, h, log[a].m, log[k].m))
  }

  /** The signature is good over a ClientHello that we sent, and the ServerHello, by the key of the certificate. */
  ghost predicate SignedOver(w: World, log: seq<Event>, h: nat, certificate: Msg, m: Msg)
    requires h < |log| && log[h].Received?
  {
    exists i :: 0 <= i < h && log[i].Sent? && log[i].m.t == 1 && w.keyExchangeOk([log[i].m, log[h].m, certificate], m.body)
  }

  lemma GenuineAt(w: World, log: seq<Event>, i: nat)
    requires Covered(w, false, log) && i < |log|
    ensures Genuine(w, false, log[i]) && Complete(log[i], Spoken(log[..i]), Heard(log[..i]))
  {
    assert CheckedAt(w, false, log, i);
  }

  lemma CertifiedAuthenticates(w: World, dtls: bool, log: seq<Event>, h: nat, hello: Hello) returns (a: nat, k: nat, c: nat)
    requires Conforms(w, dtls, log) && Covered(w, false, log) && h < |log| && log[h].Received? && log[h].m.t == 2
    requires hello == w.hello(log[h].m.body) && Certified(hello)
    ensures Authenticated(w, log, h, hello.cipher.value.mkey, a, k, c)
  {
    var b, s;
    a, b, c, s := CertifiedPlaces(w, dtls, log, h, hello);
    k := s + 1;
    ChecksAuthenticate(w, log, h, hello.cipher.value.mkey, a, b, c, s);
  }

  lemma CertifiedPlaces(w: World, dtls: bool, log: seq<Event>, h: nat, hello: Hello) returns (a: nat, b: nat, c: nat, s: nat)
    requires Conforms(w, dtls, log) && h < |log| && log[h].Received? && log[h].m.t == 2
    requires hello == w.hello(log[h].m.body) && Certified(hello)
    ensures Certifies(w, log, h, a, b, c)
    ensures hello.cipher.value.mkey == 1 ==> Signs(log, h, a, b, s) && s < c
  {
    a, b, c, s := ConformingCertifies(w, dtls, log, h);
  }

  lemma ChecksAuthenticate(w: World, log: seq<Event>, h: nat, mkey: nat, a: nat, b: nat, c: nat, s: nat)
    requires Covered(w, false, log) && Certifies(w, log, h, a, b, c) && log[h].Received?
    requires mkey == 1 ==> Signs(log, h, a, b, s) && s < c
    ensures Authenticated(w, log, h, mkey, a, s + 1, c)
  {
    GenuineAt(w, log, b);
    if mkey == 1 {
      GenuineAt(w, log, s);
    }
    GenuineAuthenticates(w, log, h, mkey, a, b, c, s);
  }

  lemma GenuineAuthenticates(w: World, log: seq<Event>, h: nat, mkey: nat, a: nat, b: nat, c: nat, s: nat)
    requires Certifies(w, log, h, a, b, c) && log[h].Received? && Genuine(w, false, log[b])
    requires mkey == 1 ==> Signs(log, h, a, b, s) && s < c && Genuine(w, false, log[s])
    ensures Authenticated(w, log, h, mkey, a, s + 1, c)
  {
    if mkey == 1 {
      SignsIsOver(w, log, h, a, b, s);
    }
  }

  lemma SignsIsOver(w: World, log: seq<Event>, h: nat, a: nat, b: nat, k: nat)
    requires Signs(log, h, a, b, k) && Genuine(w, false, log[k])
    ensures SignedOver(w, log, h, log[a].m, log[k + 1].m)
  {
    ThreeKeys(log[k].keys);
  }

  lemma ThreeKeys(keys: seq<Msg>)
    requires |keys| == 3
    ensures keys == [keys[0], keys[1], keys[2]]
  {
  }

  /** The server's Finished: its MAC is the one over everything spoken before it, which begins with the hellos. */
  ghost predicate ServerFinished(w: World, log: seq<Event>, f: nat) {
    0 < f < |log| && log[f] == Received(Msg(20, w.mac(true, Spoken(log[..f]))))
  }

  /** Every completed handshake: a ServerHello that settles it, the server's Finished, and the server authenticated if its cipher says so. */
  lemma Completed(w: World, dtls: bool, log: seq<Event>) returns (h: nat, f: nat)
    requires Conforms(w, dtls, log) && Covered(w, false, log)
    ensures h < f < |log| && log[h].Received? && log[h].m.t == 2
    ensures var hello := w.hello(log[h].m.body);
      && hello.cipher.Some? && !hello.tls13 && ServerFinished(w, log, f)
      && (Certified(hello) ==> exists a: nat, k: nat, c: nat :: Authenticated(w, log, h, hello.cipher.value.mkey, a, k, c))
  {
    h := ConformingHasHello(w, dtls, log);
    var c, r, g, o := ConformingFinishes(w, dtls, log, h);
    f := g + 1;
    FinishCovers(w, log, g);
    if Certified(w.hello(log[h].m.body)) {
      var a, k, c' := CertifiedAuthenticates(w, dtls, log, h, w.hello(log[h].m.body));
    }
  }

  lemma FinishCovers(w: World, log: seq<Event>, g: nat)
    requires Covered(w, false, log) && g + 1 < |log| && log[g].Finish? && !log[g].own && log[g + 1] == Received(log[g].m)
    ensures ServerFinished(w, log, g + 1)
  {
    GenuineAt(w, log, g);
    assert log[..g + 1][..g] == log[..g] && log[..g + 1][g] == log[g];
    assert Spoken(log[..g + 1]) == Spoken(log[..g]);
  }

  // ----- the order of the messages -----

  /** The order of the messages from the ServerHello on, in a full handshake and in a resumption. */
  function Rank(resumed: bool, sent: bool, t: nat): nat {
    if t == 2 then 2
    else if resumed then
      (if t == 4 then 3 else if t == 20 && !sent then 4 else if t == 67 then 5 else if t == 203 then 6 else 7)
    else if t == 11 && !sent then 3
    else if t == 22 then 4
    else if t == 12 then 5
    else if t == 13 then 6
    else if t == 14 then 7
    else if t == 11 then 8
    else if t == 16 then 9
    else if t == 15 then 10
    else if t == 67 then 11
    else if t == 203 then 12
    else if t == 20 && sent then 13
    else if t == 4 then 14
    else 15
  }

  predicate IsMessage(e: Event) {
    e.Sent? || e.Received?
  }

  function RankOf(h: Hello, e: Event): nat
    requires IsMessage(e)
  {
    Rank(h.resumed, e.Sent?, e.m.t)
  }

  /** The least rank of a message of part k or later. */
  function Least(resumed: bool, k: nat): nat {
    if k <= 2 then 2
    else if resumed then (if k == 3 then 3 else if k <= 6 then 4 else if k == 7 then 5 else 8)
    else if k <= 4 then k
    else if k <= 6 then 5
    else if k <= 12 then k - 1
    else if k == 13 then 14
    else if k <= 16 then 15
    else 16
  }

  lemma RankInPart(w: World, dtls: bool, k: nat, mem: Memory, p: seq<Event>, j: nat, h: Hello)
    requires Part(w, dtls, k, mem, p) && j < |p| && IsMessage(p[j]) && (k > 2 ==> HelloOf(w, mem) == h) && 2 <= k < Length(h.resumed)
    ensures Least(h.resumed, k) <= RankOf(h, p[j]) < Least(h.resumed, k + 1)
  {
    if (k == 12 || (k == 7 && h.resumed)) && p[j].Sent? {
      SentAtEnd(h, p, j);
    }
  }

  lemma RankInSamePart(w: World, dtls: bool, k: nat, mem: Memory, p: seq<Event>, i: nat, j: nat, h: Hello)
    requires Part(w, dtls, k, mem, p) && i < j < |p| && IsMessage(p[i]) && IsMessage(p[j]) && k > 2 && HelloOf(w, mem) == h
    requires k < Length(h.resumed)
    ensures RankOf(h, p[i]) < RankOf(h, p[j])
  {
    var n := FinishAt(h);
    assert ClientFinishes(h, p);
    var front := p[..n];
    assert front[i] == p[i];
    if j < n {
      assert front[j] == p[j];
    }
  }

  lemma {:induction false} LeastIncreases(resumed: bool, k: nat, k': nat)
    requires k <= k'
    ensures Least(resumed, k) <= Least(resumed, k')
    decreases k'
  {
    if k < k' {
      LeastIncreases(resumed, k, k' - 1);
    }
  }

  /** From the ServerHello on, the messages of a completed handshake come in the order of the flow, each at most once. */
  lemma InFlow(w: World, dtls: bool, log: seq<Event>, h: nat, i: nat, j: nat)
    requires Conforms(w, dtls, log) && h < |log| && log[h].Received? && log[h].m.t == 2
    requires h <= i < j < |log| && IsMessage(log[i]) && IsMessage(log[j])
    ensures RankOf(w.hello(log[h].m.body), log[i]) < RankOf(w.hello(log[h].m.body), log[j])
  {
    var parts := RunOf(w, dtls, log, h);
    PartsInFlow(w, dtls, parts, log[h].m, i, j);
  }

  lemma PartsInFlow(w: World, dtls: bool, parts: seq<seq<Event>>, m: Msg, i: nat, j: nat)
    requires Run(w, dtls, parts, m) && Start(parts, 2) <= i < j < |Concat(parts)|
    requires IsMessage(Concat(parts)[i]) && IsMessage(Concat(parts)[j])
    ensures RankOf(HelloIn(w, m), Concat(parts)[i]) < RankOf(HelloIn(w, m), Concat(parts)[j])
  {
    var hello := HelloIn(w, m);
    var k, a := MessageAt(w, dtls, parts, m, i);
    var l, b := MessageAt(w, dtls, parts, m, j);
    if k < l {
      LeastIncreases(hello.resumed, k + 1, l);
    } else if l < k {
      StartsIncrease(parts, l, k);
    } else {
      PartHello(w, dtls, parts, m, k);
      RankInSamePart(w, dtls, k, Recall(w, parts[..k]), parts[k], a, b, hello);
    }
  }

  lemma MessageAt(w: World, dtls: bool, parts: seq<seq<Event>>, m: Msg, i: nat) returns (k: nat, j: nat)
    requires Run(w, dtls, parts, m) && Start(parts, 2) <= i < |Concat(parts)| && IsMessage(Concat(parts)[i])
    ensures 2 <= k < |parts| && j < |parts[k]| && i == Start(parts, k) + j && parts[k][j] == Concat(parts)[i] && PartAt(w, dtls, parts, k)
    ensures var hello := HelloIn(w, m);
      Least(hello.resumed, k) <= RankOf(hello, Concat(parts)[i]) < Least(hello.resumed, k + 1)
  {
    k, j := FromConcat(parts, i);
    if k < 2 {
      StartsIncrease(parts, k, 2);
    }
    assert PartAt(w, dtls, parts, k);
    if k > 2 {
      PartHello(w, dtls, parts, m, k);
    }
    RankInPart(w, dtls, k, Recall(w, parts[..k]), parts[k], j, HelloIn(w, m));
  }

  // ----- what is refused is against the flow -----

  /** The checks of a part come out well and cover what was spoken before it. */
  ghost predicate Sound(w: World, spoken: seq<Msg>, p: seq<Event>) {
    p != [] ==> Genuine(w, false, p[0]) && Complete(p[0], spoken, [])
  }

  /** The first message of a part, received behind at most one check. */
  predicate Begins(p: seq<Event>, m: Msg) {
    (|p| > 0 && p[0] == Received(m)) || (|p| > 1 && !p[0].Received? && p[1] == Received(m))
  }

  /**
    Wherever the client refuses, the part that is due cannot be lawful: none begins with the
    waiting message and carries sound checks. Nor can it be left out, but where no later part
    takes that message: a ServerKeyExchange comes too late, and ServerHelloDone is next.
   */
  lemma RefusedIsUnlawful(w: World, dtls: bool, v: View, p: seq<Event>)
    requires Refused(w, v) && v.state <= READ_FINISHED && v.state != STATE_TLS13 && (AfterHello(v.state) ==> Settles(HelloOf(w, v.memory)))
    requires HelloOf(w, v.memory).resumed ==> v.state > STATE_TLS13 && InResumption(v.state)
    requires Part(w, dtls, PartsOver(v.state, HelloOf(w, v.memory).resumed, false), v.memory, p) && Sound(w, v.spoken, p)
    ensures v.state != VERIFY_CERTIFICATE && !Begins(p, v.incoming[0])
    ensures p == [] ==> v.incoming[0].t == 12 || (v.state == READ_CERTIFICATE_REQUEST && v.incoming[0].t != 14)
  {
  }
}
