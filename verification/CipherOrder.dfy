/**
  The built-in cipher order of ssl_create_cipher_list. The rules that arrange it are a sort
  by passes; this module says what they sort by: ciphers without forward secrecy come
  last, within that the bulk ciphers in their order, which depends on the hardware, and
  within that ECDHE with ECDSA, then ECDHE, then the rest, each in the order of the table.
 */
module CipherOrder {
  import opened CipherList
  import opened CipherSort
  import opened CipherRules
  import opened CipherEngine

  // ----- what the order is -----

  /** Key exchange by RSA (0) or a pre-shared key (2): no forward secrecy. */
  predicate Late(c: Cipher) {
    c.mkey == 0 || c.mkey == 2
  }

  /** The bulk ciphers in order of preference; the null cipher (5) is the last. */
  function Bulk(c: Cipher, aesHardware: bool): nat {
    if c.enc == 5 then 7
    else if c.enc == 3 then (if aesHardware then 0 else 1)
    else if c.enc == 4 then (if aesHardware then 1 else 2)
    else if c.enc == 6 then (if aesHardware then 2 else 0)
    else if c.enc == 1 then 3
    else if c.enc == 2 then 4
    else if c.enc == 0 then 5
    else 6
  }

  /** ECDHE (1) with ECDSA (1), ECDHE, and the rest. */
  function Exchange(c: Cipher): nat {
    if c.enc == 5 || c.mkey != 1 then 2 else if c.auth == 1 then 0 else 1
  }

  /** A choice of ciphers by these three. */
  datatype Want = Want(lates: set<bool>, bulks: set<nat>, exchanges: set<nat>)

  predicate Fits(c: Cipher, aesHardware: bool, w: Want) {
    Late(c) in w.lates && Bulk(c, aesHardware) in w.bulks && Exchange(c) in w.exchanges
  }

  /** The ciphers that fit, in the order of the list. */
  function Sift(cs: seq<Cipher>, aesHardware: bool, w: Want): seq<Cipher> {
    if cs == [] then []
    else if Fits(cs[0], aesHardware, w) then [cs[0]] + Sift(cs[1..], aesHardware, w)
    else Sift(cs[1..], aesHardware, w)
  }

  /** The ciphers of one kind of bulk encryption, with or without forward secrecy: by key exchange, then as in the table. */
  function InBulk(cs: seq<Cipher>, aesHardware: bool, late: bool, k: nat): seq<Cipher> {
    Sift(cs, aesHardware, Want({late}, {k}, {0})) + Sift(cs, aesHardware, Want({late}, {k}, {1})) + Sift(cs, aesHardware, Want({late}, {k}, {2}))
  }

  /** The ciphers with or without forward secrecy: bulk ciphers k, k + 1, ... that encrypt. */
  function InRow(cs: seq<Cipher>, aesHardware: bool, late: bool, k: nat): seq<Cipher>
    decreases 7 - k
  {
    if k >= 7 then [] else InBulk(cs, aesHardware, late, k) + InRow(cs, aesHardware, late, k + 1)
  }

  /** The whole order; null ciphers come last. */
  function InOrder(cs: seq<Cipher>, aesHardware: bool): seq<Cipher> {
    InRow(cs, aesHardware, false, 0) + InRow(cs, aesHardware, true, 0) + Sift(cs, aesHardware, Want({false, true}, {7}, {0, 1, 2}))
  }

  // ----- sifting -----

  lemma {:induction false} SiftConcat(a: seq<Cipher>, b: seq<Cipher>, aesHardware: bool, w: Want)
    ensures Sift(a + b, aesHardware, w) == Sift(a, aesHardware, w) + Sift(b, aesHardware, w)
  {
    if a == [] {
      assert a + b == b;
    } else {
      assert (a + b)[1..] == a[1..] + b;
      SiftConcat(a[1..], b, aesHardware, w);
    }
  }

  function Both(v: Want, w: Want): Want {
    Want(v.lates * w.lates, v.bulks * w.bulks, v.exchanges * w.exchanges)
  }

  lemma {:induction false} SiftTwice(cs: seq<Cipher>, aesHardware: bool, v: Want, w: Want)
    ensures Sift(Sift(cs, aesHardware, v), aesHardware, w) == Sift(cs, aesHardware, Both(v, w))
  {
    if cs != [] {
      SiftTwice(cs[1..], aesHardware, v, w);
    }
  }

  lemma {:induction false} SiftAll(cs: seq<Cipher>, aesHardware: bool, w: Want)
    requires forall k :: 0 <= k < |cs| ==> Fits(cs[k], aesHardware, w)
    ensures Sift(cs, aesHardware, w) == cs
  {
    if cs != [] {
      SiftAll(cs[1..], aesHardware, w);
    }
  }

  lemma {:induction false} SiftFits(cs: seq<Cipher>, aesHardware: bool, w: Want)
    ensures forall c :: c in Sift(cs, aesHardware, w) ==> c in cs && Fits(c, aesHardware, w)
  {
    if cs != [] {
      SiftFits(cs[1..], aesHardware, w);
    }
  }

  // ----- rules on a list whose active ciphers come last -----

  /** The entries of these ciphers. */
  function Listed(cs: seq<Cipher>, active: bool): (l: seq<Entry>)
    ensures |l| == |cs| && forall k :: 0 <= k < |cs| ==> l[k] == Entry(cs[k], active, false)
  {
    if cs == [] then [] else [Entry(cs[0], active, false)] + Listed(cs[1..], active)
  }

  lemma {:induction false} ListedConcat(a: seq<Cipher>, b: seq<Cipher>, active: bool)
    ensures Listed(a + b, active) == Listed(a, active) + Listed(b, active)
  {
  }

  /** A rule for these ciphers: the selected ones fit `w`, the others `rest`. */
  ghost predicate Divides(sel: Selector, cs: seq<Cipher>, aesHardware: bool, w: Want, rest: Want) {
    forall c :: c in cs ==> (Selects(sel, c) <==> Fits(c, aesHardware, w)) && (Fits(c, aesHardware, rest) <==> !Fits(c, aesHardware, w))
  }

  lemma {:induction false} Parted(r: Rule, sel: Selector, cs: seq<Cipher>, active: bool, aesHardware: bool, w: Want, rest: Want)
    requires Divides(sel, cs, aesHardware, w, rest) && (r == Add(false) || r.ToEnd? || r.Delete?)
    ensures (active == !r.Add?) ==>
      && Others(r, sel, Listed(cs, active)) == Listed(Sift(cs, aesHardware, rest), active)
      && Moved(r, sel, Listed(cs, active)) == Listed(Sift(cs, aesHardware, w), !r.Delete?)
  {
    if cs != [] {
      assert cs[0] in cs;
      Parted(r, sel, cs[1..], active, aesHardware, w, rest);
      assert Listed(cs, active)[1..] == Listed(cs[1..], active);
    }
  }

  /** Adding leaves active ciphers alone, and the other rules inactive ones. */
  lemma {:induction false} AllStay(r: Rule, sel: Selector, cs: seq<Cipher>, active: bool)
    requires active == r.Add? && !r.Kill?
    ensures Others(r, sel, Listed(cs, active)) == Listed(cs, active) && Moved(r, sel, Listed(cs, active)) == []
  {
    if cs != [] {
      AllStay(r, sel, cs[1..], active);
      assert Listed(cs, active)[1..] == Listed(cs[1..], active);
    }
  }

  /** Inactive ciphers, then active ones. */
  ghost predicate Shaped(l: seq<Entry>, idle: seq<Cipher>, active: seq<Cipher>) {
    l == Listed(idle, false) + Listed(active, true)
  }

  lemma Rejoined(a: seq<Entry>, b: seq<Entry>, c: seq<Entry>)
    ensures (a + b) + (c + []) == a + (b + c) && (a + b) + ([] + c) == a + (b + c)
  {
  }

  lemma Added(sel: Selector, l: seq<Entry>, idle: seq<Cipher>, active: seq<Cipher>, aesHardware: bool, w: Want, rest: Want)
    requires Shaped(l, idle, active) && Divides(sel, idle, aesHardware, w, rest)
    ensures Shaped(Apply(Add(false), sel, l), Sift(idle, aesHardware, rest), active + Sift(idle, aesHardware, w))
  {
    Parted(Add(false), sel, idle, false, aesHardware, w, rest);
    AllStay(Add(false), sel, active, true);
    OthersConcat(Add(false), sel, Listed(idle, false), Listed(active, true));
    MovedConcat(Add(false), sel, Listed(idle, false), Listed(active, true));
    ListedConcat(active, Sift(idle, aesHardware, w), true);
    Rejoined(Listed(Sift(idle, aesHardware, rest), false), Listed(active, true), Listed(Sift(idle, aesHardware, w), true));
  }

  lemma MovedToEnd(sel: Selector, l: seq<Entry>, idle: seq<Cipher>, active: seq<Cipher>, aesHardware: bool, w: Want, rest: Want)
    requires Shaped(l, idle, active) && Divides(sel, active, aesHardware, w, rest)
    ensures Shaped(Apply(ToEnd, sel, l), idle, Sift(active, aesHardware, rest) + Sift(active, aesHardware, w))
  {
    AllStay(ToEnd, sel, idle, false);
    Parted(ToEnd, sel, active, true, aesHardware, w, rest);
    OthersConcat(ToEnd, sel, Listed(idle, false), Listed(active, true));
    MovedConcat(ToEnd, sel, Listed(idle, false), Listed(active, true));
    ListedConcat(Sift(active, aesHardware, rest), Sift(active, aesHardware, w), true);
    Rejoined(Listed(idle, false), Listed(Sift(active, aesHardware, rest), true), Listed(Sift(active, aesHardware, w), true));
  }

  /** All active ciphers are disabled: they come before the others. */
  lemma Disabled(sel: Selector, l: seq<Entry>, idle: seq<Cipher>, active: seq<Cipher>, aesHardware: bool, w: Want, rest: Want)
    requires Shaped(l, idle, active) && Divides(sel, active, aesHardware, w, rest) && forall c :: c in active ==> Fits(c, aesHardware, w)
    ensures Shaped(Apply(Delete, sel, l), active + idle, [])
  {
    AllStay(Delete, sel, idle, false);
    Parted(Delete, sel, active, true, aesHardware, w, rest);
    OthersConcat(Delete, sel, Listed(idle, false), Listed(active, true));
    MovedConcat(Delete, sel, Listed(idle, false), Listed(active, true));
    SiftAll(active, aesHardware, w);
    NoneLeft(active, aesHardware, w, rest);
    ListedConcat(active, idle, false);
    assert [] + Listed(active, false) == Listed(active, false) && Listed(idle, false) + [] == Listed(idle, false);
    assert Listed(active + idle, false) + [] == Listed(active + idle, false);
  }

  lemma {:induction false} NoneLeft(cs: seq<Cipher>, aesHardware: bool, w: Want, rest: Want)
    requires forall c :: c in cs ==> Fits(c, aesHardware, w) && !Fits(c, aesHardware, rest)
    ensures Sift(cs, aesHardware, rest) == []
  {
    if cs != [] {
      NoneLeft(cs[1..], aesHardware, w, rest);
    }
  }

  // ----- what the built-in rules select -----

  /** Algorithm numbers are bit numbers of 32-bit masks. */
  ghost predicate InMasks(cs: seq<Cipher>) {
    forall c :: c in cs ==> c.mkey < 32 && c.auth < 32 && c.enc < 32 && c.mac < 32
  }

  function AnyLate(): set<bool> {
    {false, true}
  }

  function AnyBulk(): set<nat> {
    {0, 1, 2, 3, 4, 5, 6, 7}
  }

  function AnyExchange(): set<nat> {
    {0, 1, 2}
  }

  function ByExchange(xs: set<nat>): Want {
    Want(AnyLate(), AnyBulk(), xs)
  }

  function ByBulk(ks: set<nat>): Want {
    Want(AnyLate(), ks, AnyExchange())
  }

  function ByLate(lates: set<bool>): Want {
    Want(lates, AnyBulk(), AnyExchange())
  }

  /** The bulk ciphers from k on. */
  function From(k: nat): set<nat> {
    AnyBulk() - Below(k)
  }

  lemma {:induction false} SiftSame(cs: seq<Cipher>, aesHardware: bool, v: Want, w: Want)
    requires forall c :: c in cs ==> (Fits(c, aesHardware, v) <==> Fits(c, aesHardware, w))
    ensures Sift(cs, aesHardware, v) == Sift(cs, aesHardware, w)
  {
    if cs != [] {
      assert cs[0] in cs;
      SiftSame(cs[1..], aesHardware, v, w);
    }
  }

  /** The encryption algorithm of bulk cipher k. */
  function BulkMask(k: nat, aesHardware: bool): Mask {
    if k == 0 then {if aesHardware then 3 else 6}
    else if k == 1 then {if aesHardware then 4 else 3}
    else if k == 2 then {if aesHardware then 6 else 4}
    else if k == 3 then {1}
    else if k == 4 then {2}
    else if k == 5 then {0}
    else AllBits()
  }

  /** The built-in commands one by one. */
  lemma BuiltInIs(aesHardware: bool)
    ensures var cmds := BuiltIn(aesHardware);
      && |cmds| == 12 && cmds[0] == Do(Add(false), ByMasks({1}, {1}, AllBits())) && cmds[1] == Do(Add(false), ByMasks({1}, AllBits(), AllBits()))
      && cmds[2] == Do(Delete, ByMasks(AllBits(), AllBits(), AllBits()))
      && cmds[10] == Do(ToEnd, ByMasks({0, 2}, AllBits(), AllBits())) && cmds[11] == Do(Delete, ByMasks(AllBits(), AllBits(), AllBits()))
  {
  }

  lemma BulkCommandIs(aesHardware: bool, k: nat)
    requires k < 7
    ensures |BuiltIn(aesHardware)| == 12
    ensures BuiltIn(aesHardware)[3 + k] == Do(Add(false), ByMasks(AllBits(), AllBits(), BulkMask(k, aesHardware)))
  {
  }

  lemma MasksSelect(mkey: Mask, auth: Mask, enc: Mask, c: Cipher)
    requires c.mac < 32
    ensures Selects(ByMasks(mkey, auth, enc), c) <==> c.mkey in mkey && c.auth in auth && c.enc in enc && c.enc != 5
  {
  }

  lemma FitsBulk(c: Cipher, aesHardware: bool, ks: set<nat>)
    ensures Fits(c, aesHardware, ByBulk(ks)) <==> Bulk(c, aesHardware) in ks
  {
  }

  lemma FitsExchange(c: Cipher, aesHardware: bool, xs: set<nat>)
    ensures Fits(c, aesHardware, ByExchange(xs)) <==> Exchange(c) in xs
  {
  }

  lemma FitsLate(c: Cipher, aesHardware: bool, lates: set<bool>)
    ensures Fits(c, aesHardware, ByLate(lates)) <==> Late(c) in lates
  {
  }

  lemma BulkSelects(c: Cipher, aesHardware: bool, k: nat)
    requires k < 7 && Bulk(c, aesHardware) >= k && InMasks([c])
    ensures Selects(ByMasks(AllBits(), AllBits(), BulkMask(k, aesHardware)), c) <==> Bulk(c, aesHardware) == k
  {
    assert c in [c];
    MasksSelect(AllBits(), AllBits(), BulkMask(k, aesHardware), c);
  }

  lemma BulkDivides(c: Cipher, aesHardware: bool, k: nat)
    requires k < 7 && Bulk(c, aesHardware) >= k && InMasks([c])
    ensures Selects(ByMasks(AllBits(), AllBits(), BulkMask(k, aesHardware)), c) <==> Fits(c, aesHardware, ByBulk({k}))
    ensures Fits(c, aesHardware, ByBulk(From(k + 1))) <==> !Fits(c, aesHardware, ByBulk({k}))
  {
    BulkSelects(c, aesHardware, k);
    FitsBulk(c, aesHardware, {k});
    FitsBulk(c, aesHardware, From(k + 1));
  }

  /** The command that adds bulk cipher k, where no earlier one is left. */
  lemma BulkCommand(cs: seq<Cipher>, aesHardware: bool, k: nat)
    requires k < 7 && InMasks(cs) && forall c :: c in cs ==> Bulk(c, aesHardware) >= k
    ensures Divides(ByMasks(AllBits(), AllBits(), BulkMask(k, aesHardware)), cs, aesHardware, ByBulk({k}), ByBulk(From(k + 1)))
  {
    var sel, w, rest := ByMasks(AllBits(), AllBits(), BulkMask(k, aesHardware)), ByBulk({k}), ByBulk(From(k + 1));
    DividesEach(sel, cs, aesHardware, k, w, rest);
  }

  lemma {:induction false} DividesEach(sel: Selector, cs: seq<Cipher>, aesHardware: bool, k: nat, w: Want, rest: Want)
    requires k < 7 && InMasks(cs) && forall c :: c in cs ==> Bulk(c, aesHardware) >= k
    requires sel == ByMasks(AllBits(), AllBits(), BulkMask(k, aesHardware)) && w == ByBulk({k}) && rest == ByBulk(From(k + 1))
    ensures Divides(sel, cs, aesHardware, w, rest)
  {
    if cs != [] {
      assert cs[0] in cs;
      BulkDivides(cs[0], aesHardware, k);
      DividesEach(sel, cs[1..], aesHardware, k, w, rest);
    }
  }

  lemma ExchangeSelects(c: Cipher)
    requires InMasks([c])
    ensures Selects(ByMasks({1}, {1}, AllBits()), c) <==> Exchange(c) == 0
    ensures Selects(ByMasks({1}, AllBits(), AllBits()), c) <==> Exchange(c) <= 1
  {
    assert c in [c];
    MasksSelect({1}, {1}, AllBits(), c);
    MasksSelect({1}, AllBits(), AllBits(), c);
  }

  /** The rules for ECDHE with ECDSA, for ECDHE, */
  lemma ExchangeDivides(cs: seq<Cipher>, aesHardware: bool)
    requires InMasks(cs)
    ensures Divides(ByMasks({1}, {1}, AllBits()), cs, aesHardware, ByExchange({0}), ByExchange({1, 2}))
    ensures Divides(ByMasks({1}, AllBits(), AllBits()), cs, aesHardware, ByExchange({0, 1}), ByExchange({2}))
  {
    forall c | c in cs
      ensures Selects(ByMasks({1}, {1}, AllBits()), c) <==> Fits(c, aesHardware, ByExchange({0}))
      ensures Selects(ByMasks({1}, AllBits(), AllBits()), c) <==> Fits(c, aesHardware, ByExchange({0, 1}))
      ensures Fits(c, aesHardware, ByExchange({1, 2})) <==> !Fits(c, aesHardware, ByExchange({0}))
      ensures Fits(c, aesHardware, ByExchange({2})) <==> !Fits(c, aesHardware, ByExchange({0, 1}))
    {
      ExchangeSelects(c);
      FitsExchange(c, aesHardware, {0});
      FitsExchange(c, aesHardware, {0, 1});
      FitsExchange(c, aesHardware, {1, 2});
      FitsExchange(c, aesHardware, {2});
    }
  }

  /** for everything, */
  lemma AllDivides(cs: seq<Cipher>, aesHardware: bool)
    requires InMasks(cs)
    ensures Divides(ByMasks(AllBits(), AllBits(), AllBits()), cs, aesHardware, ByBulk({0, 1, 2, 3, 4, 5, 6}), ByBulk({7}))
  {
    forall c | c in cs
      ensures Selects(ByMasks(AllBits(), AllBits(), AllBits()), c) <==> Fits(c, aesHardware, ByBulk({0, 1, 2, 3, 4, 5, 6}))
      ensures Fits(c, aesHardware, ByBulk({7})) <==> !Fits(c, aesHardware, ByBulk({0, 1, 2, 3, 4, 5, 6}))
    {
      MasksSelect(AllBits(), AllBits(), AllBits(), c);
      FitsBulk(c, aesHardware, {0, 1, 2, 3, 4, 5, 6});
      FitsBulk(c, aesHardware, {7});
    }
  }

  /** and for what has no forward secrecy. */
  lemma LateDivides(cs: seq<Cipher>, aesHardware: bool)
    requires InMasks(cs) && forall c :: c in cs ==> Bulk(c, aesHardware) < 7
    ensures Divides(ByMasks({0, 2}, AllBits(), AllBits()), cs, aesHardware, ByLate({true}), ByLate({false}))
  {
    forall c | c in cs
      ensures Selects(ByMasks({0, 2}, AllBits(), AllBits()), c) <==> Fits(c, aesHardware, ByLate({true}))
      ensures Fits(c, aesHardware, ByLate({false})) <==> !Fits(c, aesHardware, ByLate({true}))
    {
      MasksSelect({0, 2}, AllBits(), AllBits(), c);
      FitsLate(c, aesHardware, {true});
      FitsLate(c, aesHardware, {false});
    }
  }

  lemma BothExchanges(x: set<nat>, y: set<nat>, both: set<nat>)
    requires both == x * y
    ensures Both(ByExchange(x), ByExchange(y)) == ByExchange(both)
  {
  }

  lemma BothBulks(x: set<nat>, y: set<nat>, both: set<nat>)
    requires both == x * y
    ensures Both(ByBulk(x), ByBulk(y)) == ByBulk(both)
  {
  }

  // ----- the three phases -----

  lemma RunNext(cmds: seq<Command>, k: nat, l: seq<Entry>)
    requires k < |cmds|
    ensures Run(cmds[k..], l) == Run(cmds[k + 1..], Step(cmds[k], l))
  {
    assert cmds[k..][0] == cmds[k] && cmds[k..][1..] == cmds[k + 1..];
  }

  /** The ciphers by key exchange, each part as in the table. */
  function Exchanged(cs: seq<Cipher>, aesHardware: bool): seq<Cipher> {
    Sift(cs, aesHardware, ByExchange({0})) + Sift(cs, aesHardware, ByExchange({1})) + Sift(cs, aesHardware, ByExchange({2}))
  }

  lemma ExchangedHas(cs: seq<Cipher>, aesHardware: bool)
    requires InMasks(cs)
    ensures InMasks(Exchanged(cs, aesHardware))
  {
    SiftFits(cs, aesHardware, ByExchange({0}));
    SiftFits(cs, aesHardware, ByExchange({1}));
    SiftFits(cs, aesHardware, ByExchange({2}));
  }

  lemma FirstPhase(cs: seq<Cipher>, aesHardware: bool) returns (l: seq<Entry>)
    requires InMasks(cs)
    ensures Run(BuiltIn(aesHardware), Listed(cs, false)) == Run(BuiltIn(aesHardware)[3..], l)
    ensures Shaped(l, Exchanged(cs, aesHardware), [])
  {
    var cmds := BuiltIn(aesHardware);
    var l0 := Listed(cs, false);
    var rest, first := Sift(cs, aesHardware, ByExchange({1, 2})), Sift(cs, aesHardware, ByExchange({0}));
    BuiltInIs(aesHardware);
    ExchangeDivides(cs, aesHardware);
    assert cs + [] == cs && l0 + [] == l0 && [] + first == first;
    Added(cmds[0].s, l0, cs, [], aesHardware, ByExchange({0}), ByExchange({1, 2}));
    var l1 := Step(cmds[0], l0);
    SecondStep(cs, aesHardware, l1);
    var l2 := Step(cmds[1], l1);
    ThirdStep(cs, aesHardware, l2);
    l := Step(cmds[2], l2);
    assert cmds[0..] == cmds;
    RunNext(cmds, 0, l0);
    RunNext(cmds, 1, l1);
    RunNext(cmds, 2, l2);
  }

  lemma SecondStep(cs: seq<Cipher>, aesHardware: bool, l: seq<Entry>)
    requires InMasks(cs) && |BuiltIn(aesHardware)| == 12
    requires Shaped(l, Sift(cs, aesHardware, ByExchange({1, 2})), Sift(cs, aesHardware, ByExchange({0})))
    ensures Shaped(Step(BuiltIn(aesHardware)[1], l), Sift(cs, aesHardware, ByExchange({2})),
                   Sift(cs, aesHardware, ByExchange({0})) + Sift(cs, aesHardware, ByExchange({1})))
  {
    var sel := BuiltIn(aesHardware)[1].s;
    var rest, first := Sift(cs, aesHardware, ByExchange({1, 2})), Sift(cs, aesHardware, ByExchange({0}));
    SiftFits(cs, aesHardware, ByExchange({1, 2}));
    SiftFits(cs, aesHardware, ByExchange({0}));
    BuiltInIs(aesHardware);
    ExchangeDivides(rest, aesHardware);
    Added(sel, l, rest, first, aesHardware, ByExchange({0, 1}), ByExchange({2}));
    SiftTwice(cs, aesHardware, ByExchange({1, 2}), ByExchange({0, 1}));
    SiftTwice(cs, aesHardware, ByExchange({1, 2}), ByExchange({2}));
    BothExchanges({1, 2}, {0, 1}, {1});
    BothExchanges({1, 2}, {2}, {2});
  }

  lemma ThirdStep(cs: seq<Cipher>, aesHardware: bool, l: seq<Entry>)
    requires InMasks(cs) && |BuiltIn(aesHardware)| == 12
    requires Shaped(l, Sift(cs, aesHardware, ByExchange({2})), Sift(cs, aesHardware, ByExchange({0})) + Sift(cs, aesHardware, ByExchange({1})))
    ensures Shaped(Step(BuiltIn(aesHardware)[2], l), Exchanged(cs, aesHardware), [])
  {
    var idle, active := Sift(cs, aesHardware, ByExchange({2})), Sift(cs, aesHardware, ByExchange({0})) + Sift(cs, aesHardware, ByExchange({1}));
    SiftFits(cs, aesHardware, ByExchange({0}));
    SiftFits(cs, aesHardware, ByExchange({1}));
    SiftFits(cs, aesHardware, ByExchange({2}));
    BuiltInIs(aesHardware);
    AllDivides(active, aesHardware);
    Disabled(BuiltIn(aesHardware)[2].s, l, idle, active, aesHardware, ByBulk({0, 1, 2, 3, 4, 5, 6}), ByBulk({7}));
  }

  /** Bulk ciphers k, k + 1, ... that encrypt, one after the other. */
  function Bulks(cs: seq<Cipher>, aesHardware: bool, k: nat): seq<Cipher>
    decreases 7 - k
  {
    if k >= 7 then [] else Sift(cs, aesHardware, ByBulk({k})) + Bulks(cs, aesHardware, k + 1)
  }

  lemma {:induction false} SecondPhase(cs: seq<Cipher>, aesHardware: bool, k: nat, l: seq<Entry>, active: seq<Cipher>) returns (l': seq<Entry>)
    requires InMasks(cs) && k <= 7 && |BuiltIn(aesHardware)| == 12
    requires Shaped(l, Sift(cs, aesHardware, ByBulk(From(k))), active)
    ensures Run(BuiltIn(aesHardware)[3 + k..], l) == Run(BuiltIn(aesHardware)[10..], l')
    ensures Shaped(l', Sift(cs, aesHardware, ByBulk(From(7))), active + Bulks(cs, aesHardware, k))
    decreases 7 - k
  {
    if k == 7 {
      assert active + [] == active;
      l' := l;
    } else {
      var next := BulkNext(cs, aesHardware, k, l, active);
      l' := SecondPhase(cs, aesHardware, k + 1, next, active + Sift(cs, aesHardware, ByBulk({k})));
      Regrouped(active, Sift(cs, aesHardware, ByBulk({k})), Bulks(cs, aesHardware, k + 1));
    }
  }

  lemma Regrouped(a: seq<Cipher>, b: seq<Cipher>, c: seq<Cipher>)
    ensures (a + b) + c == a + (b + c)
  {
  }

  lemma BulkNext(cs: seq<Cipher>, aesHardware: bool, k: nat, l: seq<Entry>, active: seq<Cipher>) returns (next: seq<Entry>)
    requires InMasks(cs) && k < 7 && |BuiltIn(aesHardware)| == 12
    requires Shaped(l, Sift(cs, aesHardware, ByBulk(From(k))), active)
    ensures Run(BuiltIn(aesHardware)[3 + k..], l) == Run(BuiltIn(aesHardware)[4 + k..], next)
    ensures Shaped(next, Sift(cs, aesHardware, ByBulk(From(k + 1))), active + Sift(cs, aesHardware, ByBulk({k})))
  {
    next := Step(BuiltIn(aesHardware)[3 + k], l);
    BulkStep(cs, aesHardware, k, l, active);
    RunNext(BuiltIn(aesHardware), 3 + k, l);
  }

  lemma IdleFrom(cs: seq<Cipher>, aesHardware: bool, k: nat)
    requires InMasks(cs)
    ensures var idle := Sift(cs, aesHardware, ByBulk(From(k))); InMasks(idle) && forall c :: c in idle ==> Bulk(c, aesHardware) >= k
  {
    SiftFits(cs, aesHardware, ByBulk(From(k)));
  }

  lemma BothFrom(k: nat)
    requires k < 7
    ensures Both(ByBulk(From(k)), ByBulk({k})) == ByBulk({k})
    ensures Both(ByBulk(From(k)), ByBulk(From(k + 1))) == ByBulk(From(k + 1))
  {
    BothBulks(From(k), {k}, {k});
    BothBulks(From(k), From(k + 1), From(k + 1));
  }

  /** One bulk cipher is added. */
  lemma BulkStep(cs: seq<Cipher>, aesHardware: bool, k: nat, l: seq<Entry>, active: seq<Cipher>)
    requires InMasks(cs) && k < 7 && |BuiltIn(aesHardware)| == 12
    requires Shaped(l, Sift(cs, aesHardware, ByBulk(From(k))), active)
    ensures Shaped(Step(BuiltIn(aesHardware)[3 + k], l), Sift(cs, aesHardware, ByBulk(From(k + 1))), active + Sift(cs, aesHardware, ByBulk({k})))
  {
    var idle := Sift(cs, aesHardware, ByBulk(From(k)));
    IdleFrom(cs, aesHardware, k);
    BulkCommandIs(aesHardware, k);
    BulkCommand(idle, aesHardware, k);
    Added(BuiltIn(aesHardware)[3 + k].s, l, idle, active, aesHardware, ByBulk({k}), ByBulk(From(k + 1)));
    SiftTwice(cs, aesHardware, ByBulk(From(k)), ByBulk({k}));
    SiftTwice(cs, aesHardware, ByBulk(From(k)), ByBulk(From(k + 1)));
    BothFrom(k);
  }

  lemma {:induction false} BulksHas(cs: seq<Cipher>, aesHardware: bool, k: nat)
    ensures forall c :: c in Bulks(cs, aesHardware, k) ==> c in cs && Bulk(c, aesHardware) < 7
    decreases 7 - k
  {
    if k < 7 {
      SiftFits(cs, aesHardware, ByBulk({k}));
      BulksHas(cs, aesHardware, k + 1);
    }
  }

  /** The last two rules: what has no forward secrecy goes behind the rest, and both before what was idle. */
  lemma ThirdPhase(aesHardware: bool, l: seq<Entry>, idle: seq<Cipher>, active: seq<Cipher>)
    requires InMasks(active) && Shaped(l, idle, active) && forall c :: c in active ==> Bulk(c, aesHardware) < 7
    ensures |BuiltIn(aesHardware)| == 12
    ensures Run(BuiltIn(aesHardware)[10..], l) ==
            Listed(Sift(active, aesHardware, ByLate({false})) + Sift(active, aesHardware, ByLate({true})) + idle, false)
  {
    var cmds := BuiltIn(aesHardware);
    var sorted := Sift(active, aesHardware, ByLate({false})) + Sift(active, aesHardware, ByLate({true}));
    BuiltInIs(aesHardware);
    LateDivides(active, aesHardware);
    MovedToEnd(cmds[10].s, l, idle, active, aesHardware, ByLate({true}), ByLate({false}));
    SiftFits(active, aesHardware, ByLate({false}));
    SiftFits(active, aesHardware, ByLate({true}));
    AllDivides(sorted, aesHardware);
    AllBulkFits(sorted, aesHardware);
    Disabled(cmds[11].s, Step(cmds[10], l), idle, sorted, aesHardware, ByBulk({0, 1, 2, 3, 4, 5, 6}), ByBulk({7}));
    RunNext(cmds, 10, l);
    RunNext(cmds, 11, Step(cmds[10], l));
    assert cmds[12..] == [];
    assert Listed(sorted + idle, false) + [] == Listed(sorted + idle, false);
  }

  lemma AllBulkFits(cs: seq<Cipher>, aesHardware: bool)
    requires forall c :: c in cs ==> Bulk(c, aesHardware) < 7
    ensures forall c :: c in cs ==> Fits(c, aesHardware, ByBulk({0, 1, 2, 3, 4, 5, 6}))
  {
    forall c | c in cs
      ensures Fits(c, aesHardware, ByBulk({0, 1, 2, 3, 4, 5, 6}))
    {
      FitsBulk(c, aesHardware, {0, 1, 2, 3, 4, 5, 6});
    }
  }

  // ----- what comes out -----

  lemma ExchangedSift(cs: seq<Cipher>, aesHardware: bool, lates: set<bool>, ks: set<nat>)
    requires lates <= AnyLate() && ks <= AnyBulk()
    ensures Sift(Exchanged(cs, aesHardware), aesHardware, Want(lates, ks, AnyExchange())) ==
            Sift(cs, aesHardware, Want(lates, ks, {0})) + Sift(cs, aesHardware, Want(lates, ks, {1})) + Sift(cs, aesHardware, Want(lates, ks, {2}))
  {
    var w := Want(lates, ks, AnyExchange());
    var a, b, c := Sift(cs, aesHardware, ByExchange({0})), Sift(cs, aesHardware, ByExchange({1})), Sift(cs, aesHardware, ByExchange({2}));
    SiftConcat(a + b, c, aesHardware, w);
    SiftConcat(a, b, aesHardware, w);
    SiftOne(cs, aesHardware, lates, ks, 0);
    SiftOne(cs, aesHardware, lates, ks, 1);
    SiftOne(cs, aesHardware, lates, ks, 2);
  }

  lemma SiftOne(cs: seq<Cipher>, aesHardware: bool, lates: set<bool>, ks: set<nat>, x: nat)
    requires lates <= AnyLate() && ks <= AnyBulk() && x < 3
    ensures Sift(Sift(cs, aesHardware, ByExchange({x})), aesHardware, Want(lates, ks, AnyExchange())) == Sift(cs, aesHardware, Want(lates, ks, {x}))
  {
    SiftTwice(cs, aesHardware, ByExchange({x}), Want(lates, ks, AnyExchange()));
    assert AnyLate() * lates == lates && AnyBulk() * ks == ks && {x} * AnyExchange() == {x};
  }

  lemma OneBulk(cs: seq<Cipher>, aesHardware: bool, late: bool, k: nat)
    requires k < 7
    ensures Sift(Sift(Exchanged(cs, aesHardware), aesHardware, ByBulk({k})), aesHardware, ByLate({late})) == InBulk(cs, aesHardware, late, k)
  {
    SiftTwice(Exchanged(cs, aesHardware), aesHardware, ByBulk({k}), ByLate({late}));
    assert AnyLate() * {late} == {late} && {k} * AnyBulk() == {k} && AnyExchange() * AnyExchange() == AnyExchange();
    ExchangedSift(cs, aesHardware, {late}, {k});
  }

  /** With or without forward secrecy: the bulk ciphers one after the other, each by key exchange. */
  lemma {:induction false} RowOfBulks(cs: seq<Cipher>, all: seq<Cipher>, aesHardware: bool, late: bool, k: nat)
    requires all == Exchanged(cs, aesHardware)
    ensures Sift(Bulks(all, aesHardware, k), aesHardware, ByLate({late})) == InRow(cs, aesHardware, late, k)
    decreases 7 - k
  {
    if k < 7 {
      SiftConcat(Sift(all, aesHardware, ByBulk({k})), Bulks(all, aesHardware, k + 1), aesHardware, ByLate({late}));
      OneBulk(cs, aesHardware, late, k);
      RowOfBulks(cs, all, aesHardware, late, k + 1);
    }
  }

  /** Null ciphers are never sorted. */
  lemma NullsAtEnd(cs: seq<Cipher>, aesHardware: bool)
    ensures Sift(Exchanged(cs, aesHardware), aesHardware, ByBulk(From(7))) == Sift(cs, aesHardware, ByBulk({7}))
  {
    assert From(7) == {7};
    ExchangedSift(cs, aesHardware, AnyLate(), {7});
    NoNullExchange(cs, aesHardware, 0);
    NoNullExchange(cs, aesHardware, 1);
    SiftSame(cs, aesHardware, Want(AnyLate(), {7}, {2}), ByBulk({7}));
  }

  lemma {:induction false} NoNullExchange(cs: seq<Cipher>, aesHardware: bool, x: nat)
    requires x < 2
    ensures Sift(cs, aesHardware, Want(AnyLate(), {7}, {x})) == []
  {
    if cs != [] {
      NoNullExchange(cs[1..], aesHardware, x);
    }
  }

  /** The ciphers of the table below TLS 1.3. */
  function Ordinary(ciphers: seq<Cipher>): seq<Cipher> {
    if ciphers == [] then []
    else
      var n := |ciphers| - 1;
      if ciphers[n].mkey == 3 then Ordinary(ciphers[..n]) else Ordinary(ciphers[..n]) + [ciphers[n]]
  }

  lemma {:induction false} AvailableIsOrdinary(ciphers: seq<Cipher>)
    ensures Available(ciphers) == Listed(Ordinary(ciphers), false)
  {
    if ciphers != [] {
      var n := |ciphers| - 1;
      AvailableIsOrdinary(ciphers[..n]);
      ListedConcat(Ordinary(ciphers[..n]), [ciphers[n]], false);
      assert Listed([ciphers[n]], false) == [Entry(ciphers[n], false, false)];
    }
  }

  lemma {:induction false} OrdinaryHas(ciphers: seq<Cipher>)
    ensures forall c :: c in Ordinary(ciphers) ==> c in ciphers
  {
    if ciphers != [] {
      OrdinaryHas(ciphers[..|ciphers| - 1]);
    }
  }

  /** What the passes leave is the order. */
  lemma PassesSort(cs: seq<Cipher>, all: seq<Cipher>, aesHardware: bool)
    requires all == Exchanged(cs, aesHardware)
    ensures Sift(Bulks(all, aesHardware, 0), aesHardware, ByLate({false})) + Sift(Bulks(all, aesHardware, 0), aesHardware, ByLate({true}))
            + Sift(all, aesHardware, ByBulk(From(7))) == InOrder(cs, aesHardware)
  {
    RowOfBulks(cs, all, aesHardware, false, 0);
    RowOfBulks(cs, all, aesHardware, true, 0);
    NullsAtEnd(cs, aesHardware);
  }

  /** The passes over a table. */
  lemma Passes(cs: seq<Cipher>, all: seq<Cipher>, aesHardware: bool)
    requires InMasks(cs) && all == Exchanged(cs, aesHardware)
    ensures Run(BuiltIn(aesHardware), Listed(cs, false)) ==
            Listed(Sift(Bulks(all, aesHardware, 0), aesHardware, ByLate({false})) + Sift(Bulks(all, aesHardware, 0), aesHardware, ByLate({true}))
                   + Sift(all, aesHardware, ByBulk(From(7))), false)
  {
    ExchangedHas(cs, aesHardware);
    var l := FirstPhase(cs, aesHardware);
    EverythingFrom(all, aesHardware);
    var l' := LaterPasses(all, aesHardware, l);
  }

  lemma LaterPasses(all: seq<Cipher>, aesHardware: bool, l: seq<Entry>) returns (l': seq<Entry>)
    requires InMasks(all) && Shaped(l, Sift(all, aesHardware, ByBulk(From(0))), [])
    ensures |BuiltIn(aesHardware)| == 12
    ensures Run(BuiltIn(aesHardware)[3..], l) ==
            Listed(Sift(Bulks(all, aesHardware, 0), aesHardware, ByLate({false})) + Sift(Bulks(all, aesHardware, 0), aesHardware, ByLate({true}))
                   + Sift(all, aesHardware, ByBulk(From(7))), false)
  {
    BuiltInIs(aesHardware);
    l' := SecondPhase(all, aesHardware, 0, l, []);
    assert [] + Bulks(all, aesHardware, 0) == Bulks(all, aesHardware, 0);
    BulksHas(all, aesHardware, 0);
    ThirdPhase(aesHardware, l', Sift(all, aesHardware, ByBulk(From(7))), Bulks(all, aesHardware, 0));
  }

  /** The list before any rule of the caller: all ciphers below TLS 1.3, disabled, in the built-in order. */
  lemma BuiltInOrder(ciphers: seq<Cipher>, aesHardware: bool)
    requires InMasks(ciphers)
    ensures Base(ciphers, aesHardware) == Listed(InOrder(Ordinary(ciphers), aesHardware), false)
  {
    var cs := Ordinary(ciphers);
    AvailableIsOrdinary(ciphers);
    OrdinaryHas(ciphers);
    Passes(cs, Exchanged(cs, aesHardware), aesHardware);
    PassesSort(cs, Exchanged(cs, aesHardware), aesHardware);
  }

  lemma EverythingFrom(cs: seq<Cipher>, aesHardware: bool)
    ensures Sift(cs, aesHardware, ByBulk(From(0))) == cs
  {
    forall k | 0 <= k < |cs|
      ensures Fits(cs[k], aesHardware, ByBulk(From(0)))
    {
      FitsBulk(cs[k], aesHardware, From(0));
    }
    SiftAll(cs, aesHardware, ByBulk(From(0)));
  }
}
