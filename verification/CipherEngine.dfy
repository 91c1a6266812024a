/**
  The code that runs the cipher rules (ssl_cipher_process_rulestr and
  ssl_create_cipher_list of ssl_cipher.cc), proved to follow module CipherRules.
 */
module CipherEngine {
  import opened Bytes
  import opened CipherList
  import opened CipherSort
  import opened CipherRules

  // ----- lookups -----

  method LookUpId(t: Tables, word: string) returns (id: nat)
    ensures id == FindId(t.ciphers, word)
  {
    var j: nat := 0;
    while j < |t.ciphers|
      invariant j <= |t.ciphers| && FindId(t.ciphers, word) == FindId(t.ciphers[j..], word)
    {
      if t.ciphers[j].name == word || t.ciphers[j].standardName == word {
        return t.ciphers[j].id;
      }
      assert t.ciphers[j..][1..] == t.ciphers[j + 1..];
      j := j + 1;
    }
    return 0;
  }

  method LookUpAlias(t: Tables, word: string) returns (j: nat)
    ensures j == FindAlias(t.aliases, word)
  {
    j := 0;
    while j < |t.aliases|
      invariant j <= |t.aliases| && FindAlias(t.aliases, word) == j + FindAlias(t.aliases[j..], word)
    {
      if t.aliases[j].name == word {
        return;
      }
      assert t.aliases[j..][1..] == t.aliases[j + 1..];
      j := j + 1;
    }
  }

  method ScanWord(s: string, i: nat) returns (e: nat)
    requires i <= |s|
    ensures e == WordEnd(s, i)
  {
    e := i;
    while WordChar(CharAt(s, e))
      invariant i <= e <= |s| && WordEnd(s, i) == WordEnd(s, e)
      decreases |s| - e
    {
      e := e + 1;
    }
  }

  method ScanCommand(s: string, i: nat, strict: bool) returns (e: nat)
    requires i <= |s|
    ensures e == CommandEnd(s, i, strict)
  {
    e := i;
    while CharAt(s, e) != '\0' && !Separator(CharAt(s, e), strict)
      invariant i <= e <= |s| && CommandEnd(s, i, strict) == CommandEnd(s, e, strict)
      decreases |s| - e
    {
      e := e + 1;
    }
  }

  // ----- the words of a rule -----

  /** One turn of the inner loop after the word has been scanned. */
  method UseWord(t: Tables, word: string, single: bool, strict: bool, sel: Selector, skip: bool)
    returns (ok: bool, sel': Selector, skip': bool)
    ensures match TakeWord(t, word, single, strict, sel, skip)
            case None => !ok
            case Some((x, v)) => ok && sel' == x && skip' == v
  {
    ok, sel', skip' := true, sel, skip;
    var id := 0;
    if single {
      id := LookUpId(t, word);
    }
    if id != 0 {
      sel' := sel.(id := id);
      return;
    }
    var j := LookUpAlias(t, word);
    if j == |t.aliases| {
      return !strict, sel, true;
    }
    var a := t.aliases[j];
    sel' := sel.(mkey := sel.mkey * a.mkey, auth := sel.auth * a.auth, enc := sel.enc * a.enc, mac := sel.mac * a.mac);
    if sel.minVersion != 0 && sel.minVersion != a.minVersion {
      skip' := true;
    } else {
      sel' := sel'.(minVersion := a.minVersion);
    }
  }

  /** One turn of the loop over the words of a rule. */
  method ReadWord(t: Tables, s: string, i: nat, strict: bool, multi: bool, sel: Selector, skip: bool)
    returns (ok: bool, sel': Selector, skip': bool, e: nat)
    requires i <= |s|
    ensures e <= |s| && (ok ==> i < e)
    ensures ParseWords(t, s, i, strict, multi, sel, skip) ==
            if !ok then Bad
            else if CharAt(s, e) == '+' then ParseWords(t, s, e + 1, strict, true, sel', skip') else Words(sel', skip', e)
  {
    sel', skip' := sel, skip;
    e := ScanWord(s, i);
    if e == i {
      return false, sel, skip, e;
    }
    ok, sel', skip' := UseWord(t, s[i..e], !multi && CharAt(s, e) != '+', strict, sel, skip);
  }

  /** The inner loop: words joined by plus signs. */
  method ReadWords(t: Tables, s: string, start: nat, strict: bool) returns (ok: bool, sel: Selector, skip: bool, e: nat)
    requires start <= |s|
    ensures match ParseWords(t, s, start, strict, false, Everything(), false)
            case Bad => !ok
            case Words(x, v, n) => ok && sel == x && skip == v && e == n
  {
    var i, multi, more := start, false, true;
    sel, skip, e := Everything(), false, start;
    ghost var words := ParseWords(t, s, start, strict, false, sel, skip);
    while more
      invariant i <= |s|
      invariant words == if more then ParseWords(t, s, i, strict, multi, sel, skip) else Words(sel, skip, e)
      decreases more, |s| - i
    {
      ok, sel, skip, e := ReadWord(t, s, i, strict, multi, sel, skip);
      if !ok {
        return false, sel, skip, e;
      }
      more := CharAt(s, e) == '+';
      if more {
        i, multi := e + 1, true;
      }
    }
    ok := true;
  }

  // ----- rule strings -----

  /** `@STRENGTH`, from behind the at sign. */
  method ProcessSpecial(s: string, j: nat, strict: bool, order: Order) returns (ok: bool, e: nat)
    requires order.Valid() && j <= |s|
    modifies order, order.repr
    ensures order.Valid() && ok == (s[j..WordEnd(s, j)] == "STRENGTH")
    ensures order.Entries() == if ok then SortByStrength(old(order.Entries())) else old(order.Entries())
    ensures ok ==> e == CommandEnd(s, WordEnd(s, j), strict)
  {
    e := ScanWord(s, j);
    if s[j..e] != "STRENGTH" {
      return false, e;
    }
    StrengthSort(order);
    e := ScanCommand(s, e, strict);
    ok := true;
  }

  /** A rule for ciphers, from behind its operator. */
  method ProcessPlain(t: Tables, s: string, j: nat, strict: bool, r: Rule, order: Order) returns (ok: bool, e: nat)
    requires order.Valid() && j <= |s|
    modifies order, order.repr
    ensures order.Valid()
    ensures match ParseWords(t, s, j, strict, false, Everything(), false)
            case Bad => !ok && order.Entries() == old(order.Entries())
            case Words(sel, skip, n) =>
              ok && e == n && order.Entries() == if skip then old(order.Entries()) else Apply(r, sel, old(order.Entries()))
  {
    var sel, skip;
    ok, sel, skip, e := ReadWords(t, s, j, strict);
    if ok && !skip {
      order.ApplyRule(r, sel);
    }
  }

  /** One rule with its operator: from its first character to its end. */
  method ProcessRule(t: Tables, s: string, i: nat, strict: bool, order: Order, inGroup: bool, hasGroup: bool) returns (ok: bool, e: nat)
    requires order.Valid() && i < |s| && s[i] != '\0' && (if inGroup then Alphanumeric(s[i]) else s[i] != '[')
    modifies order, order.repr
    ensures order.Valid() && i <= e <= |s|
    ensures ok ==> i < e && Meaning(t, s, i, strict, inGroup, hasGroup, old(order.Entries())) == Meaning(t, s, e, strict, inGroup, hasGroup, order.Entries())
    ensures !ok ==> Meaning(t, s, i, strict, inGroup, hasGroup, old(order.Entries())) == (order.Entries(), false)
  {
    var (op, _) := TakeOperator(s, i, inGroup);
    if hasGroup && (op.Special? || !op.r.Add?) {
      return false, i;
    }
    if Separator(s[i], strict) {
      return true, i + 1;
    }
    RuleMeaning(t, s, i, strict, inGroup, hasGroup, order.Entries());
    ok, e := ProcessWords(t, s, i, strict, order, inGroup);
  }

  method ProcessWords(t: Tables, s: string, i: nat, strict: bool, order: Order, inGroup: bool) returns (ok: bool, e: nat)
    requires order.Valid() && i < |s|
    modifies order, order.repr
    ensures order.Valid() && i <= e <= |s|
    ensures match RuleOutcome(t, s, i, strict, inGroup, old(order.Entries()))
            case None => !ok && order.Entries() == old(order.Entries())
            case Some((l, n)) => ok && e == n && order.Entries() == l
  {
    var (op, j) := TakeOperator(s, i, inGroup);
    if op.Special? {
      ok, e := ProcessSpecial(s, j, strict, order);
    } else {
      ok, e := ProcessPlain(t, s, j, strict, op.r, order);
    }
    if !ok {
      e := i;
    }
  }

  /** Clears the flag of the last node, if there is one. */
  method EndGroup(order: Order)
    requires order.Valid()
    modifies order.repr
    ensures order.Valid() && order.Entries() == Ungrouped(old(order.Entries()))
  {
    ghost var n := |order.nodes| - 1;
    if order.tail != null {
      Apart(order.nodes, n);
      order.tail.inGroup := false;
      assert order.Entries()[n] == old(order.Entries())[n].(inGroup := false);
    }
  }

  /** ssl_cipher_process_rulestr. */
  method ProcessRules(t: Tables, s: string, start: nat, strict: bool, order: Order) returns (ok: bool)
    requires order.Valid() && start <= |s|
    modifies order, order.repr
    ensures order.Valid() && (order.Entries(), ok) == Meaning(t, s, start, strict, false, false, old(order.Entries()))
  {
    var i, inGroup, hasGroup := start, false, false;
    ghost var goal := Meaning(t, s, i, strict, inGroup, hasGroup, order.Entries());
    while CharAt(s, i) != '\0'
      invariant order.Valid() && i <= |s|
      invariant goal == Meaning(t, s, i, strict, inGroup, hasGroup, order.Entries())
      decreases |s| - i
    {
      var ch := s[i];
      if inGroup && ch == ']' {
        MeaningFirst(CloseGroup, Parse(t, s, i + 1, strict, false, hasGroup), order.Entries());
        EndGroup(order);
        i, inGroup := i + 1, false;
      } else if inGroup && ch == '|' {
        i := i + 1;
      } else if inGroup && !Alphanumeric(ch) {
        return false;
      } else if !inGroup && ch == '[' {
        i, inGroup, hasGroup := i + 1, true, true;
      } else {
        ok, i := ProcessRule(t, s, i, strict, order, inGroup, hasGroup);
        if !ok {
          return false;
        }
      }
    }
    ok := !inGroup;
  }

  // ----- building a preference list -----

  /** The entries of ssl_cipher_collect_ciphers: everything but the TLS 1.3 ciphers. */
  function Available(ciphers: seq<Cipher>): seq<Entry> {
    if ciphers == [] then []
    else
      var n := |ciphers| - 1;
      if ciphers[n].mkey == K_GENERIC then Available(ciphers[..n]) else Available(ciphers[..n]) + [Entry(ciphers[n], false, false)]
  }

  method Collect(ciphers: seq<Cipher>) returns (order: Order)
    ensures fresh(order) && fresh(order.repr) && order.Valid() && order.Entries() == Available(ciphers)
  {
    var nodes: seq<Node> := [];
    var i: nat := 0;
    while i < |ciphers|
      invariant i <= |ciphers| && Distinct(nodes) && fresh(set n | n in nodes)
      invariant Values(nodes) == Available(ciphers[..i])
    {
      assert ciphers[..i + 1][..i] == ciphers[..i];
      if ciphers[i].mkey != K_GENERIC {
        var n := new Node(ciphers[i]);
        DistinctExtended(nodes, n);
        ValuesSnoc(nodes, n);
        nodes := nodes + [n];
      }
      i := i + 1;
    }
    assert ciphers[..i] == ciphers;
    ghost var l := Values(nodes);
    order := new Order(nodes);
    assert order.Entries() == l;
  }

  function ByMasks(mkey: Mask, auth: Mask, enc: Mask): Selector {
    Selector(0, mkey, auth, enc, AllBits(), 0, -1)
  }

  /** The built-in order: key exchange first, then bulk ciphers by hardware, then forward secrecy. */
  function BuiltIn(aesHardware: bool): seq<Command> {
    var all := AllBits();
    var add := Add(false);
    var aes128, aes256 := Do(add, ByMasks(all, all, {E_AES128GCM})), Do(add, ByMasks(all, all, {E_AES256GCM}));
    var chacha := Do(add, ByMasks(all, all, {E_CHACHA20POLY1305}));
    [Do(add, ByMasks({K_ECDHE}, {A_ECDSA}, all)), Do(add, ByMasks({K_ECDHE}, all, all)), Do(Delete, ByMasks(all, all, all))]
    + (if aesHardware then [aes128, aes256, chacha] else [chacha, aes128, aes256])
    + [Do(add, ByMasks(all, all, {E_AES128})), Do(add, ByMasks(all, all, {E_AES256})), Do(add, ByMasks(all, all, {E_3DES})),
       Do(add, ByMasks(all, all, all)), Do(ToEnd, ByMasks({K_RSA, K_PSK}, all, all)), Do(Delete, ByMasks(all, all, all))]
  }

  method RunBuiltIn(order: Order, cmds: seq<Command>)
    requires order.Valid() && forall k :: 0 <= k < |cmds| ==> cmds[k].Do?
    modifies order, order.repr
    ensures order.Valid() && order.Entries() == Run(cmds, old(order.Entries()))
  {
    var k: nat := 0;
    while k < |cmds|
      invariant k <= |cmds| && order.Valid() && Run(cmds[k..], order.Entries()) == Run(cmds, old(order.Entries()))
    {
      assert cmds[k..][1..] == cmds[k + 1..];
      order.ApplyRule(cmds[k].r, cmds[k].s);
      k := k + 1;
    }
  }

  /** SSL_DEFAULT_CIPHER_LIST. */
  const DEFAULT_LIST := "ALL"

  /** Where the rules begin behind an optional DEFAULT. */
  function RulesStart(s: string): (i: nat)
    ensures i <= |s|
  {
    if "DEFAULT" <= s then (if CharAt(s, 7) == ':' then 8 else 7) else 0
  }

  /** The list before any rule of the caller. */
  ghost function Base(ciphers: seq<Cipher>, aesHardware: bool): seq<Entry> {
    Run(BuiltIn(aesHardware), Available(ciphers))
  }

  /** The default rules come first if asked for. */
  ghost function Prepared(t: Tables, useDefault: bool, defaults: string, strict: bool, l: seq<Entry>): (seq<Entry>, bool) {
    if useDefault then Meaning(t, defaults, 0, strict, false, false, l) else (l, true)
  }

  /** The list that a rule string stands for, or none if it is malformed. */
  ghost function Ordered(t: Tables, s: string, defaults: string, strict: bool, aesHardware: bool): Option<seq<Entry>> {
    var (l, ok) := Prepared(t, "DEFAULT" <= s, defaults, strict, Base(t.ciphers, aesHardware));
    if !ok then None
    else
      var (l', ok') := Meaning(t, s, RulesStart(s), strict, false, false, l);
      if ok' then Some(l') else None
  }

  /** The output loop: the active ciphers and their flags, in list order. */
  method Emit(order: Order) returns (p: Preferences)
    requires order.Valid()
    ensures p == Emitted(order.Entries())
  {
    ghost var l, k: nat := order.Entries(), 0;
    p := Preferences([], []);
    var curr := order.head;
    while curr != null
      invariant k <= |l| && curr == At(order.nodes, k) && p == Emitted(l[..k])
      decreases |l| - k
    {
      assert l[..k + 1][..k] == l[..k] && l[k] == order.nodes[k].Value();
      if curr.active {
        p := Preferences(p.ciphers + [curr.cipher], p.flags + [curr.inGroup]);
      }
      curr := curr.next;
      k := k + 1;
    }
    assert l[..k] == l;
  }

  method Prepare(t: Tables, useDefault: bool, defaults: string, strict: bool, aesHardware: bool) returns (ok: bool, order: Order)
    ensures fresh(order) && fresh(order.repr) && order.Valid()
    ensures (order.Entries(), ok) == Prepared(t, useDefault, defaults, strict, Base(t.ciphers, aesHardware))
  {
    order := Collect(t.ciphers);
    ok := true;
    RunBuiltIn(order, BuiltIn(aesHardware));
    if useDefault {
      ok := ProcessRules(t, defaults, 0, strict, order);
    }
  }

  /** ssl_create_cipher_list: an empty result is an error but still replaces the old list. */
  method CreateCipherList(t: Tables, s: string, strict: bool, aesHardware: bool) returns (ok: bool, out: Option<Preferences>)
    ensures match Ordered(t, s, DEFAULT_LIST, strict, aesHardware)
            case None => !ok && out.None?
            case Some(l) => out == Some(Emitted(l)) && ok == (Emitted(l).ciphers != [])
  {
    ok, out := CreateFrom(t, s, DEFAULT_LIST, strict, aesHardware);
  }

  method CreateFrom(t: Tables, s: string, defaults: string, strict: bool, aesHardware: bool) returns (ok: bool, out: Option<Preferences>)
    ensures match Ordered(t, s, defaults, strict, aesHardware)
            case None => !ok && out.None?
            case Some(l) => out == Some(Emitted(l)) && ok == (Emitted(l).ciphers != [])
  {
    var order;
    ok, order := Prepare(t, "DEFAULT" <= s, defaults, strict, aesHardware);
    if !ok {
      return false, None;
    }
    ok := ProcessRules(t, s, RulesStart(s), strict, order);
    if !ok {
      return false, None;
    }
    var p := Emit(order);
    return p.ciphers != [], Some(p);
  }

  // ----- what every accepted rule string guarantees -----

  lemma {:induction false} AvailableIdle(ciphers: seq<Cipher>)
    ensures forall e :: e in Available(ciphers) ==> !e.active && !e.inGroup
    ensures AllActive(Available(ciphers), false)
  {
    if ciphers != [] {
      AvailableIdle(ciphers[..|ciphers| - 1]);
    }
  }

  /** No group mark, active ciphers last, and active null ciphers only by name. */
  ghost predicate Tidy(l: seq<Entry>, ids: set<nat>) {
    ActiveLast(l) && NoGroups(l) && NullOnly(l, ids)
  }

  lemma {:induction false} PlainRunTidy(cmds: seq<Command>, l: seq<Entry>, ids: set<nat>)
    requires Tidy(l, ids) && forall k :: 0 <= k < |cmds| ==> cmds[k].Do? && cmds[k].r != Add(true) && cmds[k].s.id == 0 && cmds[k].s.strength == -1
    ensures Tidy(Run(cmds, l), ids)
    decreases |cmds|
  {
    if cmds != [] {
      var r, sel := cmds[0].r, cmds[0].s;
      ApplyActiveLast(r, sel, l);
      PartsNoGroups(r, sel, l);
      PartsNullOnly(r, sel, l, ids);
      PlainRunTidy(cmds[1..], Apply(r, sel, l), ids);
    }
  }

  lemma BaseTidy(ciphers: seq<Cipher>, aesHardware: bool)
    ensures Tidy(Base(ciphers, aesHardware), {})
  {
    AvailableIdle(ciphers);
    PlainRunTidy(BuiltIn(aesHardware), Available(ciphers), {});
  }

  /** The ids of the ciphers that a string names. */
  ghost predicate NamesAll(t: Tables, s: string, start: nat, strict: bool, ids: set<nat>) {
    forall id :: id in ids ==> NamedIn(t, s, start, strict, id)
  }

  /** Reading a rule string: active ciphers stay last, and null ciphers come in by name. */
  lemma StringKeepsOrder(t: Tables, s: string, i: nat, strict: bool, l: seq<Entry>, ids: set<nat>) returns (ids': set<nat>)
    requires i <= |s| && ActiveLast(l) && NullOnly(l, ids)
    ensures ActiveLast(Meaning(t, s, i, strict, false, false, l).0) && NullOnly(Meaning(t, s, i, strict, false, false, l).0, ids + ids')
    ensures NamesAll(t, s, i, strict, ids')
  {
    var cmds := Parse(t, s, i, strict, false, false).cmds;
    ParsedIsSpelled(t, s, i, i, strict, false, false);
    ExactIdsAreNamed(t, s, i, strict, cmds);
    ids' := ExactIds(cmds);
    RunActiveLast(cmds, l);
    RunNullOnly(cmds, l, ids + ids');
  }

  /** A default list without groups leaves no group marks. */
  lemma PreparedNoGroups(t: Tables, useDefault: bool, defaults: string, strict: bool, l: seq<Entry>)
    requires NoGroups(l) && '[' !in defaults
    ensures NoGroups(Prepared(t, useDefault, defaults, strict, l).0)
  {
    if useDefault {
      StringWithoutGroups(t, defaults, 0, strict, l);
    }
  }

  lemma {:induction false} StringWithoutGroups(t: Tables, s: string, i: nat, strict: bool, l: seq<Entry>)
    requires i <= |s| && '[' !in s && NoGroups(l)
    ensures NoGroups(Meaning(t, s, i, strict, false, false, l).0)
    decreases |s| - i
  {
    if CharAt(s, i) != '\0' {
      if Separator(s[i], strict) {
        StringWithoutGroups(t, s, i + 1, strict, l);
      } else {
        RuleMeaning(t, s, i, strict, false, false, l);
        match RuleOutcome(t, s, i, strict, false, l)
        case None =>
        case Some((l', e)) =>
          var (op, j) := TakeOperator(s, i, false);
          if op.Special? {
            SortNoGroups(l, MaxStrength(l) + 1);
          } else {
            PartsNoGroups(op.r, ParseWords(t, s, j, strict, false, Everything(), false).sel, l);
          }
          StringWithoutGroups(t, s, e, strict, l');
      }
    }
  }

  /** Every list made from a rule string: the last group flag is zero, and a null cipher is on it only if a rule adds it by its exact name. */
  lemma CreatedIsSound(t: Tables, s: string, strict: bool, aesHardware: bool, l: seq<Entry>)
    requires Ordered(t, s, DEFAULT_LIST, strict, aesHardware) == Some(l)
    ensures ActiveLast(l) && GroupsEnd(Emitted(l).flags)
    ensures forall e :: e in l && e.active && e.cipher.enc == E_NULL ==>
      NamedIn(t, s, RulesStart(s), strict, e.cipher.id) || NamedIn(t, DEFAULT_LIST, 0, strict, e.cipher.id)
  {
    SoundFrom(t, s, DEFAULT_LIST, strict, aesHardware, l);
  }

  lemma SoundFrom(t: Tables, s: string, defaults: string, strict: bool, aesHardware: bool, l: seq<Entry>)
    requires Ordered(t, s, defaults, strict, aesHardware) == Some(l) && '[' !in defaults
    ensures ActiveLast(l) && GroupsEnd(Emitted(l).flags)
    ensures forall e :: e in l && e.active && e.cipher.enc == E_NULL ==>
      NamedIn(t, s, RulesStart(s), strict, e.cipher.id) || NamedIn(t, defaults, 0, strict, e.cipher.id)
  {
    var base, useDefault := Base(t.ciphers, aesHardware), "DEFAULT" <= s;
    BaseTidy(t.ciphers, aesHardware);
    PreparedNoGroups(t, useDefault, defaults, strict, base);
    var l0 := Prepared(t, useDefault, defaults, strict, base).0;
    var ids: set<nat> := {};
    if useDefault {
      ids := StringKeepsOrder(t, defaults, 0, strict, base, {});
    }
    FinishSound(t, s, RulesStart(s), strict, l0, ids);
    var ids' := StringKeepsOrder(t, s, RulesStart(s), strict, l0, ids);
  }

  lemma FinishSound(t: Tables, s: string, i: nat, strict: bool, l: seq<Entry>, ids: set<nat>)
    requires i <= |s| && ActiveLast(l) && NoGroups(l) && NullOnly(l, ids) && Meaning(t, s, i, strict, false, false, l).1
    ensures GroupsEnd(Emitted(Meaning(t, s, i, strict, false, false, l).0).flags)
  {
    assert l != [] ==> l[|l| - 1] in l;
    ParsedGroupsClosed(t, s, i, strict, false, false, l);
    var _ := StringKeepsOrder(t, s, i, strict, l, ids);
    EmittedGroupsEnd(Meaning(t, s, i, strict, false, false, l).0);
  }
}
