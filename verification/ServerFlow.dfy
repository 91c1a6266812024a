/**
  What a completed server handshake must have exchanged, told by the fields of what the
  ClientHello settled: which messages come exactly when, what they were checked against,
  and that a client from which a certificate is required has shown and proved one.
 */
module ServerFlow {
  import opened Bytes
  import opened CipherList
  import opened Handshake
  import opened HandshakeServer

  /** A full handshake with a cipher whose authentication is RSA (0) or ECDSA (1). */
  predicate Certified(h: Hello) {
    !h.resumed && h.cipher.Some? && (h.cipher.value.auth == 0 || h.cipher.value.auth == 1)
  }

  /** The messages that a client must have sent and may have sent, but for CertificateVerify. */
  predicate Receiving(h: Hello, t: nat) {
    || t == 1 || t == 20
    || (t == 11 && Certified(h) && h.request)
    || (t == 16 && !h.resumed)
    || (t == 67 && h.nextProto)
    || (t == 203 && h.channelId && h.cipher.Some? && h.cipher.value.mkey == 1 && (h.resumed ==> h.channelRecorded))
  }

  /** The messages that we send, but for ServerKeyExchange. */
  predicate Sending(h: Hello, t: nat) {
    || t == 2 || t == 20
    || (t == 4 && h.ticket)
    || (t == 11 && Certified(h))
    || (t == 22 && Certified(h) && h.status)
    || (t == 13 && Certified(h) && h.request)
    || (t == 14 && !h.resumed)
  }

  // ----- where messages come -----

  /** The parts of a run with a ClientHello. */
  ghost predicate Run(w: World, parts: seq<seq<Event>>, m: Msg) {
    && Parts(w, parts) && |parts| == Length(HelloIn(w, m).resumed) && HelloIs(w, parts, m)
    && m.t == CLIENT_HELLO && parts[0] == [Received(m)] && Settles(HelloIn(w, m))
  }

  lemma RunOf(w: World, log: seq<Event>, h: nat) returns (parts: seq<seq<Event>>)
    requires Conforms(w, log) && h < |log| && log[h].Received? && log[h].m.t == CLIENT_HELLO
    ensures Run(w, parts, log[h].m) && log == Concat(parts) && h == Start(parts, 0)
  {
    parts := HelloPart(w, log, h);
    assert PartAt(w, parts, 0);
  }

  lemma PartHello(w: World, parts: seq<seq<Event>>, m: Msg, k: nat)
    requires Run(w, parts, m) && 0 < k <= |parts|
    ensures HelloOf(w, Recall(w, parts[..k])) == HelloIn(w, m)
  {
    assert Unfold(0);
  }

  lemma MayHear(w: World, k: nat, mem: Memory, p: seq<Event>, j: nat, h: Hello)
    requires Part(w, k, mem, p) && j < |p| && p[j].Received? && h.cipher.Some? && (k > 0 ==> HelloOf(w, mem) == h)
    ensures p[j].m.t == 15 || Receiving(h, p[j].m.t)
    ensures p[j].m.t == 15 ==> k == 8 && !h.resumed && mem.certificate.t == 11 && !w.emptyChain(mem.certificate.body)
    ensures p[j].m.t == 11 ==> k == 5 && j == 0
  {
  }

  lemma MaySend(w: World, k: nat, mem: Memory, p: seq<Event>, j: nat, h: Hello)
    requires Part(w, k, mem, p) && j < |p| && p[j].Sent? && h.cipher.Some? && (k > 0 ==> HelloOf(w, mem) == h)
    ensures p[j].m.t == 12 || Sending(h, p[j].m.t)
    ensures p[j].m.t == 12 ==> !h.resumed && (h.cipher.value.mkey == 1 || h.cipher.value.auth == 2)
  {
  }

  lemma HeardIsAllowed(w: World, parts: seq<seq<Event>>, m: Msg, i: nat) returns (k: nat, j: nat)
    requires Run(w, parts, m) && i < |Concat(parts)| && Concat(parts)[i].Received?
    ensures k < |parts| && j < |parts[k]| && parts[k][j] == Concat(parts)[i] && PartAt(w, parts, k)
    ensures var t, h := Concat(parts)[i].m.t, HelloIn(w, m);
      && (t == 15 || Receiving(h, t)) && (t == 11 ==> k == 5 && j == 0)
      && (t == 15 ==> k == 8 && !h.resumed && MessageOf(parts[5], 0).t == 11 && !w.emptyChain(MessageOf(parts[5], 0).body))
  {
    k, j := FromConcat(parts, i);
    assert PartAt(w, parts, k);
    if k > 0 {
      PartHello(w, parts, m, k);
    }
    MayHear(w, k, Recall(w, parts[..k]), parts[k], j, HelloIn(w, m));
    RecallAfter(w, parts, k);
  }

  lemma SentIsAllowed(w: World, parts: seq<seq<Event>>, m: Msg, t: nat)
    requires Run(w, parts, m) && HasSent(Concat(parts), t)
    ensures t == 12 || Sending(HelloIn(w, m), t)
    ensures var h := HelloIn(w, m); t == 12 ==> !h.resumed && (h.cipher.value.mkey == 1 || h.cipher.value.auth == 2)
  {
    var log := Concat(parts);
    var i :| 0 <= i < |log| && log[i].Sent? && log[i].m.t == t;
    var k, j := FromConcat(parts, i);
    assert PartAt(w, parts, k);
    if k > 0 {
      PartHello(w, parts, m, k);
    }
    MaySend(w, k, Recall(w, parts[..k]), parts[k], j, HelloIn(w, m));
  }

  lemma HeardIn(parts: seq<seq<Event>>, k: nat, j: nat)
    requires k < |parts| && j < |parts[k]|
    ensures parts[k][j].Received? ==> HasReceived(Concat(parts), parts[k][j].m.t)
    ensures parts[k][j].Sent? ==> HasSent(Concat(parts), parts[k][j].m.t)
  {
    InConcat(parts, k, j);
  }

  /** The places of the messages. */
  function HeardPlace(h: Hello, t: nat): nat {
    if t == 1 then 0
    else if t == 20 then (if h.resumed then 7 else 13)
    else if t == 11 then 5
    else if t == 16 then 7
    else if t == 67 then (if h.resumed then 5 else 11)
    else (if h.resumed then 6 else 12)
  }

  function SentPlace(h: Hello, t: nat): nat {
    if t == 2 then 1
    else if t == 20 || t == 4 then (if h.resumed then 2 else 14)
    else if t == 11 || t == 22 then 2
    else if t == 12 then 3
    else 4
  }

  lemma DutyIsHeard(w: World, parts: seq<seq<Event>>, m: Msg, t: nat)
    requires Run(w, parts, m) && Receiving(HelloIn(w, m), t)
    ensures HasReceived(Concat(parts), t)
  {
    var k := HeardPlace(HelloIn(w, m), t);
    assert PartAt(w, parts, k);
    if k > 0 {
      PartHello(w, parts, m, k);
    }
    HeardIn(parts, k, |parts[k]| - 1);
  }

  lemma DutyIsSent(w: World, parts: seq<seq<Event>>, m: Msg, t: nat)
    requires Run(w, parts, m)
    requires Sending(HelloIn(w, m), t) || (t == 12 && !HelloIn(w, m).resumed && HelloIn(w, m).cipher.value.mkey == 1)
    ensures HasSent(Concat(parts), t)
  {
    var k := SentPlace(HelloIn(w, m), t);
    assert PartAt(w, parts, k);
    PartHello(w, parts, m, k);
    HeardIn(parts, k, 0);
    HeardIn(parts, k, |parts[k]| - 1);
  }

  /** Whether a certificate with a chain was received. */
  ghost predicate ReceivedChain(w: World, log: seq<Event>) {
    exists i :: 0 <= i < |log| && log[i].Received? && log[i].m.t == 11 && !w.emptyChain(log[i].m.body)
  }

  lemma ProofIsPart(w: World, parts: seq<seq<Event>>, m: Msg)
    requires Run(w, parts, m)
    ensures HasReceived(Concat(parts), 15) <==> ReceivedChain(w, Concat(parts))
  {
    var log := Concat(parts);
    if HasReceived(log, 15) {
      var i :| 0 <= i < |log| && log[i].Received? && log[i].m.t == 15;
      var _, _ := HeardIsAllowed(w, parts, m, i);
      assert PartAt(w, parts, 5);
      PartHello(w, parts, m, 5);
      InConcat(parts, 5, 0);
    }
    if ReceivedChain(w, log) {
      var i :| 0 <= i < |log| && log[i].Received? && log[i].m.t == 11 && !w.emptyChain(log[i].m.body);
      var k, j := HeardIsAllowed(w, parts, m, i);
      ProofFollows(w, parts, m);
      HeardIn(parts, 8, 1);
    }
  }

  lemma ProofFollows(w: World, parts: seq<seq<Event>>, m: Msg)
    requires Run(w, parts, m) && !HelloIn(w, m).resumed && MessageOf(parts[5], 0).t == 11 && !w.emptyChain(MessageOf(parts[5], 0).body)
    ensures |parts[8]| == 2 && parts[8][1].Received? && parts[8][1].m.t == 15
  {
    assert PartAt(w, parts, 8);
    PartHello(w, parts, m, 8);
    RecallAfter(w, parts, 8);
  }

  // ----- the theorems -----

  /** What the client sent: a CertificateVerify exactly behind a certificate with a chain, and all else exactly as the hello says. */
  lemma ReceivedFlow(w: World, log: seq<Event>, h: nat, t: nat)
    requires Conforms(w, log) && h < |log| && log[h].Received? && log[h].m.t == 1
    ensures t == 15 ==> (HasReceived(log, t) <==> ReceivedChain(w, log))
    ensures t != 15 ==> (HasReceived(log, t) <==> Receiving(w.hello(log[h].m.body), t))
  {
    var parts := RunOf(w, log, h);
    if t == 15 {
      ProofIsPart(w, parts, log[h].m);
    } else {
      if HasReceived(log, t) {
        var i :| 0 <= i < |log| && log[i].Received? && log[i].m.t == t;
        var _, _ := HeardIsAllowed(w, parts, log[h].m, i);
      }
      if Receiving(w.hello(log[h].m.body), t) {
        DutyIsHeard(w, parts, log[h].m, t);
      }
    }
  }

  /** What we sent: a ServerKeyExchange always for ECDHE (1), otherwise only with a pre-shared key (2), and all else exactly as the hello says. */
  lemma SentFlow(w: World, log: seq<Event>, h: nat, t: nat)
    requires Conforms(w, log) && h < |log| && log[h].Received? && log[h].m.t == 1
    ensures t != 12 ==> (HasSent(log, t) <==> Sending(w.hello(log[h].m.body), t))
    ensures var hello := w.hello(log[h].m.body); t == 12 && HasSent(log, t) ==>
      !hello.resumed && hello.cipher.Some? && (hello.cipher.value.mkey == 1 || hello.cipher.value.auth == 2)
    ensures var hello := w.hello(log[h].m.body); t == 12 && !hello.resumed && hello.cipher.Some? && hello.cipher.value.mkey == 1 ==>
      HasSent(log, t)
  {
    var parts := RunOf(w, log, h);
    var hello := w.hello(log[h].m.body);
    if HasSent(log, t) {
      SentIsAllowed(w, parts, log[h].m, t);
    }
    if Sending(hello, t) || (t == 12 && !hello.resumed && hello.cipher.value.mkey == 1) {
      DutyIsSent(w, parts, log[h].m, t);
    }
  }

  /** A client with a certificate: it was trusted unless no verification is asked for, and its key signed all that was spoken before. */
  ghost predicate Authenticated(w: World, log: seq<Event>, a: nat, v: nat, c: nat) {
    && a < v < c < |log| && log[a].Received? && (w.trusts(log[a].m.body) || w.verifyNone)
    && log[v].Received? && log[v].m.t == 15 && w.proofOk(log[a].m, Spoken(log[..v]), log[v].m.body) && log[c] == ReceivedCcs
  }

  lemma GenuineAt(w: World, log: seq<Event>, i: nat)
    requires Covered(w, true, log) && i < |log|
    ensures Genuine(w, true, log[i]) && Complete(log[i], Spoken(log[..i]), Heard(log[..i]))
  {
    assert CheckedAt(w, true, log, i);
  }

  /** Every certificate with a chain was trusted and proved before the cipher change. */
  lemma ChainAuthenticates(w: World, log: seq<Event>, a: nat) returns (v: nat, c: nat)
    requires Conforms(w, log) && Covered(w, true, log)
    requires a < |log| && log[a].Received? && log[a].m.t == 11 && !w.emptyChain(log[a].m.body)
    ensures Authenticated(w, log, a, v, c)
  {
    var b, s;
    b, s, c := EveryChainAuthenticated(w, log, a);
    v := s + 1;
    ChecksAuthenticate(w, log, a, b, s, c);
  }

  lemma ChecksAuthenticate(w: World, log: seq<Event>, a: nat, b: nat, s: nat, c: nat)
    requires Covered(w, true, log) && Authenticates(log, a, b, s, c)
    ensures Authenticated(w, log, a, s + 1, c)
  {
    GenuineAt(w, log, b);
    GenuineAt(w, log, s);
    NextSpoken(log, s);
  }

  lemma NextSpoken(log: seq<Event>, i: nat)
    requires i < |log| && !log[i].Sent? && !log[i].Received?
    ensures Spoken(log[..i + 1]) == Spoken(log[..i])
  {
    assert log[..i + 1][..i] == log[..i] && log[..i + 1][i] == log[i];
  }

  /** The client's Finished: its MAC is the one over everything spoken before it. */
  ghost predicate ClientFinished(w: World, log: seq<Event>, f: nat) {
    0 < f < |log| && log[f] == Received(Msg(20, w.mac(false, Spoken(log[..f]))))
  }

  lemma FinishCovers(w: World, log: seq<Event>, g: nat)
    requires Covered(w, true, log) && g + 1 < |log| && log[g].Finish? && !log[g].own && log[g + 1] == Received(log[g].m)
    ensures ClientFinished(w, log, g + 1)
  {
    GenuineAt(w, log, g);
    NextSpoken(log, g);
  }

  /** A certificate that was asked for and is required has been shown and proved. */
  ghost predicate Shown(w: World, log: seq<Event>, h: nat) {
    exists a: nat, v: nat, c: nat :: h < a && Authenticated(w, log, a, v, c) && log[a].m.t == 11 && !w.emptyChain(log[a].m.body)
  }

  /** Every completed handshake: a ClientHello that settles it, the client's Finished, and the client authenticated if that is required. */
  lemma Completed(w: World, log: seq<Event>) returns (h: nat, f: nat)
    requires Conforms(w, log) && Covered(w, true, log)
    ensures h < f < |log| && log[h].Received? && log[h].m.t == 1
    ensures var hello := w.hello(log[h].m.body);
      && hello.cipher.Some? && !hello.tls13 && ClientFinished(w, log, f)
      && (Certified(hello) && hello.request && w.needsCertificate ==> Shown(w, log, h))
  {
    h := ConformingHasHello(w, log);
    var c, r, g, o := ConformingFinishes(w, log, h);
    f := g + 1;
    FinishCovers(w, log, g);
    var hello := w.hello(log[h].m.body);
    if Certified(hello) && hello.request && w.needsCertificate {
      var a := ConformingHasChain(w, log, h);
      var v, c' := ChainAuthenticates(w, log, a);
    }
  }

  // ----- the order of the messages -----

  /** The order of the messages, in a full handshake and in a resumption. */
  function Rank(resumed: bool, sent: bool, t: nat): nat {
    if t == 1 then 0
    else if t == 2 then 1
    else if resumed then
      (if t == 4 then 2 else if t == 20 && sent then 3 else if t == 67 then 4 else if t == 203 then 5 else 6)
    else if t == 11 && sent then 2
    else if t == 22 then 3
    else if t == 12 then 4
    else if t == 13 then 5
    else if t == 14 then 6
    else if t == 11 then 7
    else if t == 16 then 8
    else if t == 15 then 9
    else if t == 67 then 10
    else if t == 203 then 11
    else if t == 20 && !sent then 12
    else if t == 4 then 13
    else 14
  }

  predicate IsMessage(e: Event) {
    e.Sent? || e.Received?
  }

  function RankOf(h: Hello, e: Event): nat
    requires IsMessage(e)
  {
    Rank(h.resumed, e.Sent?, e.m.t)
  }

  /** The least rank of a message of part k or later. */
  function Least(resumed: bool, k: nat): nat {
    if k <= 2 then k
    else if resumed then (if k <= 5 then 4 else if k == 6 then 5 else if k == 7 then 6 else 7)
    else if k == 3 then 4
    else if k == 4 then 5
    else if k == 5 then 7
    else if k <= 7 then 8
    else if k == 8 then 9
    else if k <= 11 then 10
    else if k <= 14 then k - 1
    else 15
  }

  lemma RankInPart(w: World, k: nat, mem: Memory, p: seq<Event>, j: nat, h: Hello)
    requires Part(w, k, mem, p) && j < |p| && IsMessage(p[j]) && (k > 0 ==> HelloOf(w, mem) == h) && k < Length(h.resumed)
    ensures Least(h.resumed, k) <= RankOf(h, p[j]) < Least(h.resumed, k + 1)
  {
  }

  lemma RankInSamePart(w: World, k: nat, mem: Memory, p: seq<Event>, i: nat, j: nat, h: Hello)
    requires Part(w, k, mem, p) && i < j < |p| && IsMessage(p[i]) && IsMessage(p[j]) && k > 0 && HelloOf(w, mem) == h
    requires k < Length(h.resumed)
    ensures RankOf(h, p[i]) < RankOf(h, p[j])
  {
  }

  lemma {:induction false} LeastIncreases(resumed: bool, k: nat, k': nat)
    requires k <= k'
    ensures Least(resumed, k) <= Least(resumed, k')
    decreases k'
  {
    if k < k' {
      LeastIncreases(resumed, k, k' - 1);
    }
  }

  /** The messages of a completed handshake come in the order of the flow, each at most once. */
  lemma InFlow(w: World, log: seq<Event>, h: nat, i: nat, j: nat)
    requires Conforms(w, log) && h < |log| && log[h].Received? && log[h].m.t == 1
    requires i < j < |log| && IsMessage(log[i]) && IsMessage(log[j])
    ensures RankOf(w.hello(log[h].m.body), log[i]) < RankOf(w.hello(log[h].m.body), log[j])
  {
    var parts := RunOf(w, log, h);
    PartsInFlow(w, parts, log[h].m, i, j);
  }

  lemma PartsInFlow(w: World, parts: seq<seq<Event>>, m: Msg, i: nat, j: nat)
    requires Run(w, parts, m) && i < j < |Concat(parts)| && IsMessage(Concat(parts)[i]) && IsMessage(Concat(parts)[j])
    ensures RankOf(HelloIn(w, m), Concat(parts)[i]) < RankOf(HelloIn(w, m), Concat(parts)[j])
  {
    var hello := HelloIn(w, m);
    var k, a := MessageAt(w, parts, m, i);
    var l, b := MessageAt(w, parts, m, j);
    if k < l {
      LeastIncreases(hello.resumed, k + 1, l);
    } else if l < k {
      StartsIncrease(parts, l, k);
    } else {
      PartHello(w, parts, m, k);
      RankInSamePart(w, k, Recall(w, parts[..k]), parts[k], a, b, hello);
    }
  }

  lemma MessageAt(w: World, parts: seq<seq<Event>>, m: Msg, i: nat) returns (k: nat, j: nat)
    requires Run(w, parts, m) && i < |Concat(parts)| && IsMessage(Concat(parts)[i])
    ensures k < |parts| && j < |parts[k]| && i == Start(parts, k) + j && parts[k][j] == Concat(parts)[i] && PartAt(w, parts, k)
    ensures var hello := HelloIn(w, m);
      Least(hello.resumed, k) <= RankOf(hello, Concat(parts)[i]) < Least(hello.resumed, k + 1)
  {
    k, j := FromConcat(parts, i);
    assert PartAt(w, parts, k);
    if k > 0 {
      PartHello(w, parts, m, k);
    }
    RankInPart(w, k, Recall(w, parts[..k]), parts[k], j, HelloIn(w, m));
  }

  // ----- what is refused is against the flow -----

  /** The checks of a part come out well and cover what was spoken before it. */
  ghost predicate Sound(w: World, spoken: seq<Msg>, p: seq<Event>) {
    p != [] ==> Genuine(w, true, p[0]) && Complete(p[0], spoken, [])
  }

  /** The first message of a part, received behind at most one check. */
  predicate Begins(p: seq<Event>, m: Msg) {
    (|p| > 0 && p[0] == Received(m)) || (|p| > 1 && !p[0].Received? && p[1] == Received(m))
  }

  /**
    Wherever the server refuses, the part that is due cannot be lawful: none begins with the
    waiting message and carries sound checks, nor can it be left out.
   */
  lemma RefusedIsUnlawful(w: World, v: View, p: seq<Event>)
    requires Refused(w, v) && v.state <= READ_FINISHED && (AfterHello(v.state) ==> Settles(HelloOf(w, v.memory)))
    requires HelloOf(w, v.memory).resumed ==> v.state > STATE_TLS13 && InResumption(v.state)
    requires v.state == SELECT_CERTIFICATE ==> v.incoming != [] && v.incoming[0].t == CLIENT_HELLO
    requires Part(w, PartsOver(v.state, HelloOf(w, v.memory).resumed, false), v.memory, p) && Sound(w, v.spoken, p)
    ensures v.state != VERIFY_CERTIFICATE && !Begins(p, v.incoming[0]) && p != []
  {
  }
}
