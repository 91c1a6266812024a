/**
  The server's choice of a cipher (ssl3_choose_cipher of handshake_server.cc): one pass
  over the preferred list, which may be divided into groups of equal preference.
 */
module CipherChoice {
  import opened Bytes
  import opened CipherList
  import opened CipherRules
  import CipherEngine

  /** The negotiated version and the key exchange and authentication masks of ssl_get_compatible_server_ciphers. */
  datatype Config = Config(version: nat, maskK: Mask, maskA: Mask)

  predicate Usable(cfg: Config, c: Cipher) {
    MinVersion(c) <= cfg.version <= MaxVersion(c) && c.mkey in cfg.maskK && c.auth in cfg.maskA
  }

  /** The versions of a cipher by its fields: TLS 1.3 ciphers (generic, 3) with TLS 1.3 only, others below it, and from TLS 1.2 on unless their PRF is the old one. */
  lemma UsableVersions(cfg: Config, c: Cipher)
    ensures Usable(cfg, c) <==>
      && c.mkey in cfg.maskK && c.auth in cfg.maskA
      && if c.mkey == 3 || c.auth == 3 then cfg.version == 0x0304
         else cfg.version <= 0x0303 && cfg.version >= if c.defaultPrf then 0x0300 else 0x0303
  {
  }

  /** The first position of a cipher in a list; the length if it is not there. */
  function Pos(list: seq<Cipher>, c: Cipher): (k: nat)
    ensures k <= |list| && (k < |list| ==> list[k] == c) && (c in list <==> k < |list|)
  {
    if list == [] || list[0] == c then 0 else 1 + Pos(list[1..], c)
  }

  /** The preference order: the list, and whether position i has the same preference as position i + 1. */
  datatype Priority = Priority(prio: seq<Cipher>, flags: Option<seq<bool>>)

  predicate Joined(p: Priority, i: nat)
    requires p.flags.Some? ==> |p.flags.value| == |p.prio|
    requires i < |p.prio|
  {
    p.flags.Some? && p.flags.value[i]
  }

  predicate WellGrouped(p: Priority) {
    p.flags.Some? ==> |p.flags.value| == |p.prio| && GroupsEnd(p.flags.value)
  }

  /** The number of the group of position i: how many groups end before it. */
  function Group(p: Priority, i: nat): (g: nat)
    requires p.flags.Some? ==> |p.flags.value| == |p.prio|
    requires i <= |p.prio|
  {
    if i == 0 then 0 else Group(p, i - 1) + if Joined(p, i - 1) then 0 else 1
  }

  lemma {:induction false} GroupsIncrease(p: Priority, i: nat, j: nat)
    requires WellGrouped(p) && i <= j <= |p.prio|
    ensures Group(p, i) <= Group(p, j)
    decreases j
  {
    if i < j {
      GroupsIncrease(p, i, j - 1);
    }
  }

  /** Position i is a cipher both sides can use. */
  predicate Shared(p: Priority, allow: seq<Cipher>, cfg: Config, i: nat) {
    i < |p.prio| && Usable(cfg, p.prio[i]) && p.prio[i] in allow
  }

  /** Position i is shared, no shared position is in an earlier group, and none in its group is earlier in the other list. */
  ghost predicate Best(p: Priority, allow: seq<Cipher>, cfg: Config, i: nat)
    requires WellGrouped(p)
  {
    Shared(p, allow, cfg, i) && forall j :: 0 <= j < |p.prio| && Shared(p, allow, cfg, j) ==>
      Group(p, i) <= Group(p, j) && (Group(p, i) == Group(p, j) ==> Pos(allow, p.prio[i]) <= Pos(allow, p.prio[j]))
  }

  /** Position k is the best of the shared positions below n, and all of these are in its group. */
  ghost predicate BestBelow(p: Priority, allow: seq<Cipher>, cfg: Config, k: nat, n: nat)
    requires WellGrouped(p)
  {
    && k < n <= |p.prio| && Shared(p, allow, cfg, k)
    && forall j :: 0 <= j < n && Shared(p, allow, cfg, j) ==> Group(p, j) == Group(p, k) && Pos(allow, p.prio[k]) <= Pos(allow, p.prio[j])
  }

  lemma BestAtEndOfGroup(p: Priority, allow: seq<Cipher>, cfg: Config, k: nat, n: nat)
    requires WellGrouped(p) && BestBelow(p, allow, cfg, k, n) && Group(p, k) < Group(p, n)
    ensures Best(p, allow, cfg, k)
  {
    forall j | 0 <= j < |p.prio| && Shared(p, allow, cfg, j)
      ensures Group(p, k) <= Group(p, j) && (Group(p, k) == Group(p, j) ==> Pos(allow, p.prio[k]) <= Pos(allow, p.prio[j]))
    {
      if j >= n {
        GroupsIncrease(p, n, j);
      }
    }
  }

  /** What the loop has found out about the positions below i. */
  ghost predicate Found(p: Priority, allow: seq<Cipher>, cfg: Config, groupMin: Option<nat>, best: nat, i: nat)
    requires WellGrouped(p)
  {
    && i <= |p.prio| && (groupMin.Some? ==> p.flags.Some?)
    && (groupMin.None? ==> forall j :: 0 <= j < i ==> !Shared(p, allow, cfg, j))
    && (groupMin.Some? ==>
          BestBelow(p, allow, cfg, best, i) && groupMin.value == Pos(allow, p.prio[best]) && Group(p, best) == Group(p, i))
  }

  /** One more shared position: the better of it and the best so far. */
  lemma FoundShared(p: Priority, allow: seq<Cipher>, cfg: Config, groupMin: Option<nat>, best: nat, i: nat) returns (better: nat)
    requires WellGrouped(p) && Found(p, allow, cfg, groupMin, best, i) && Shared(p, allow, cfg, i)
    ensures BestBelow(p, allow, cfg, better, i + 1) && Group(p, better) == Group(p, i)
    ensures var index := Pos(allow, p.prio[i]);
            Pos(allow, p.prio[better]) == if groupMin.Some? && groupMin.value <= index then groupMin.value else index
  {
    better := if groupMin.Some? && groupMin.value <= Pos(allow, p.prio[i]) then best else i;
  }

  lemma FoundNothing(p: Priority, allow: seq<Cipher>, cfg: Config, groupMin: Option<nat>, best: nat, i: nat)
    requires WellGrouped(p) && Found(p, allow, cfg, groupMin, best, i) && i < |p.prio| && !Shared(p, allow, cfg, i)
    ensures groupMin.Some? ==> BestBelow(p, allow, cfg, best, i + 1)
    ensures groupMin.None? || Joined(p, i) ==> Found(p, allow, cfg, groupMin, best, i + 1)
  {
  }

  /** The loop of ssl3_choose_cipher: complete and optimal. */
  method Choose(p: Priority, allow: seq<Cipher>, cfg: Config) returns (r: Option<Cipher>)
    requires WellGrouped(p)
    ensures r.None? <==> forall i :: 0 <= i < |p.prio| ==> !Shared(p, allow, cfg, i)
    ensures r.Some? ==> exists i: nat :: Best(p, allow, cfg, i) && r.value == p.prio[i]
  {
    var groupMin: Option<nat> := None;
    ghost var best: nat := 0;
    var i: nat := 0;
    while i < |p.prio|
      invariant Found(p, allow, cfg, groupMin, best, i)
    {
      var c := p.prio[i];
      var index := Pos(allow, c);
      if Usable(cfg, c) && index < |allow| {
        best := FoundShared(p, allow, cfg, groupMin, best, i);
        if Joined(p, i) {
          if groupMin.None? || groupMin.value > index {
            groupMin := Some(index);
          }
        } else {
          if groupMin.Some? && groupMin.value < index {
            index := groupMin.value;
          }
          BestAtEndOfGroup(p, allow, cfg, best, i + 1);
          return Some(allow[index]);
        }
      } else {
        FoundNothing(p, allow, cfg, groupMin, best, i);
      }
      if p.flags.Some? && !p.flags.value[i] && groupMin.Some? {
        BestAtEndOfGroup(p, allow, cfg, best, i + 1);
        return Some(allow[groupMin.value]);
      }
      i := i + 1;
    }
    if groupMin.Some? {
      GroupsIncrease(p, best, |p.prio| - 1);
    }
    return None;
  }

  /** ssl3_choose_cipher: the server's list decides if it may, else the client's. */
  method ChooseCipher(server: Preferences, client: seq<Cipher>, serverPreference: bool, cfg: Config) returns (r: Option<Cipher>)
    requires |server.ciphers| == |server.flags| && GroupsEnd(server.flags)
    ensures r.None? <==> forall c :: c in client && Usable(cfg, c) ==> c !in server.ciphers
    ensures r.Some? ==> r.value in client && r.value in server.ciphers && Usable(cfg, r.value)
    ensures r.Some? && serverPreference ==>
      exists i: nat :: Best(Priority(server.ciphers, Some(server.flags)), client, cfg, i) && r.value == server.ciphers[i]
    ensures r.Some? && !serverPreference ==>
      forall j :: 0 <= j < |client| && Usable(cfg, client[j]) && client[j] in server.ciphers ==> Pos(client, r.value) <= j
  {
    if serverPreference {
      var p := Priority(server.ciphers, Some(server.flags));
      r := Choose(p, client, cfg);
      assert forall i: nat :: i < |server.ciphers| ==> Shared(p, client, cfg, i) == (Usable(cfg, server.ciphers[i]) && server.ciphers[i] in client);
    } else {
      var p := Priority(client, None);
      r := Choose(p, server.ciphers, cfg);
      assert forall i: nat :: i < |client| ==> Shared(p, server.ciphers, cfg, i) == (Usable(cfg, client[i]) && client[i] in server.ciphers);
      if r.Some? {
        FirstShared(p, server.ciphers, cfg, r.value);
      }
    }
  }

  lemma {:induction false} SingletonGroups(p: Priority, i: nat)
    requires p.flags.None? && i <= |p.prio|
    ensures Group(p, i) == i
  {
    if i > 0 {
      SingletonGroups(p, i - 1);
    }
  }

  lemma FirstShared(p: Priority, allow: seq<Cipher>, cfg: Config, c: Cipher)
    requires p.flags.None? && exists i: nat :: Best(p, allow, cfg, i) && c == p.prio[i]
    ensures forall j :: 0 <= j < |p.prio| && Shared(p, allow, cfg, j) ==> Pos(p.prio, c) <= j
  {
    var i: nat :| Best(p, allow, cfg, i) && c == p.prio[i];
    forall j | 0 <= j < |p.prio| && Shared(p, allow, cfg, j)
      ensures Pos(p.prio, c) <= j
    {
      SingletonGroups(p, i);
      SingletonGroups(p, j);
      PosIsFirst(p.prio, i);
    }
  }

  lemma {:induction false} PosIsFirst(list: seq<Cipher>, i: nat)
    requires i < |list|
    ensures Pos(list, list[i]) <= i
  {
    if i > 0 && list[0] != list[i] {
      PosIsFirst(list[1..], i - 1);
    }
  }

  /**
    A server configured by a rule string. If the string is accepted, the list is the one the
    string means, the choice is defined and fails only if nothing is shared, no shared cipher
    is better by the list that decides, and it falls on the null cipher only if a rule adds
    that cipher by name.
   */
  method ConfigureAndChoose(t: Tables, rules: string, strict: bool, aesHardware: bool, client: seq<Cipher>, serverPreference: bool, cfg: Config)
    returns (out: Option<Preferences>, r: Option<Cipher>)
    ensures out == ListOf(CipherEngine.Ordered(t, rules, CipherEngine.DEFAULT_LIST, strict, aesHardware))
    ensures out.None? ==> r.None?
    ensures out.Some? ==> (r.None? <==> forall c :: c in client && Usable(cfg, c) ==> c !in out.value.ciphers)
    ensures out.Some? && r.Some? ==> r.value in client && r.value in out.value.ciphers && Usable(cfg, r.value)
    ensures out.Some? && r.Some? && serverPreference ==>
      && |out.value.ciphers| == |out.value.flags| && GroupsEnd(out.value.flags)
      && exists i: nat :: Best(Priority(out.value.ciphers, Some(out.value.flags)), client, cfg, i) && r.value == out.value.ciphers[i]
    ensures out.Some? && r.Some? && !serverPreference ==>
      forall j :: 0 <= j < |client| && Usable(cfg, client[j]) && client[j] in out.value.ciphers ==> Pos(client, r.value) <= j
    ensures r.Some? && r.value.enc == E_NULL ==>
      || NamedIn(t, rules, CipherEngine.RulesStart(rules), strict, r.value.id)
      || NamedIn(t, CipherEngine.DEFAULT_LIST, 0, strict, r.value.id)
  {
    var ok;
    ok, out := CipherEngine.CreateCipherList(t, rules, strict, aesHardware);
    r := None;
    if out.Some? {
      ghost var l := CipherEngine.Ordered(t, rules, CipherEngine.DEFAULT_LIST, strict, aesHardware).value;
      CipherEngine.CreatedIsSound(t, rules, strict, aesHardware, l);
      r := ChooseCipher(out.value, client, serverPreference, cfg);
      if r.Some? {
        EmittedIsActive(l, Pos(out.value.ciphers, r.value));
      }
    }
  }

  /** The preference list of an ordered list, if there is one. */
  ghost function ListOf(l: Option<seq<Entry>>): Option<Preferences> {
    if l.None? then None else Some(Emitted(l.value))
  }
}
