/**
  The rule language of ssl_cipher.cc: what a rule string means as a list of commands, what
  running commands does to the cipher list, and what every rule string guarantees.
 */
module CipherRules {
  import opened Bytes
  import opened CipherList
  import opened CipherSort

  datatype Alias = Alias(name: string, mkey: Mask, auth: Mask, enc: Mask, mac: Mask, minVersion: nat)

  /** The tables kCiphers and kCipherAliases. */
  datatype Tables = Tables(ciphers: seq<Cipher>, aliases: seq<Alias>)

  // ----- commands -----

  /** A rule with its selection, `@STRENGTH`, or the end of a group. */
  datatype Command = Do(r: Rule, s: Selector) | Sort | CloseGroup

  function Ungrouped(l: seq<Entry>): seq<Entry> {
    if l == [] then [] else l[|l| - 1 := l[|l| - 1].(inGroup := false)]
  }

  function Step(c: Command, l: seq<Entry>): seq<Entry> {
    match c
    case Do(r, s) => Apply(r, s, l)
    case Sort => SortByStrength(l)
    case CloseGroup => Ungrouped(l)
  }

  function Run(cmds: seq<Command>, l: seq<Entry>): seq<Entry> {
    if cmds == [] then l else Run(cmds[1..], Step(cmds[0], l))
  }

  // ----- the syntax -----

  /** The character at position i of a string that ends in NUL. */
  function CharAt(s: string, i: nat): char {
    if i < |s| then s[i] else '\0'
  }

  predicate Alphanumeric(c: char) {
    'A' <= c <= 'Z' || '0' <= c <= '9' || 'a' <= c <= 'z'
  }

  predicate WordChar(c: char) {
    Alphanumeric(c) || c == '-' || c == '.' || c == '_'
  }

  /** is_cipher_list_separator. */
  predicate Separator(c: char, strict: bool) {
    c == ':' || (!strict && (c == ' ' || c == ';' || c == ','))
  }

  function WordEnd(s: string, i: nat): (e: nat)
    requires i <= |s|
    ensures i <= e <= |s| && (e < |s| ==> !WordChar(s[e]))
    decreases |s| - i
  {
    if i < |s| && WordChar(s[i]) then WordEnd(s, i + 1) else i
  }

  /** The rest of an `@` command is thrown away. */
  function CommandEnd(s: string, i: nat, strict: bool): (e: nat)
    requires i <= |s|
    ensures i <= e <= |s| && (e < |s| ==> !WordChar(s[e]))
    decreases |s| - i
  {
    if i < |s| && s[i] != '\0' && !Separator(s[i], strict) then CommandEnd(s, i + 1, strict) else i
  }

  predicate Names(c: Cipher, word: string) {
    c.name == word || c.standardName == word
  }

  /** The id of the first cipher of that name, or zero. */
  function FindId(ciphers: seq<Cipher>, word: string): nat {
    if ciphers == [] then 0 else if Names(ciphers[0], word) then ciphers[0].id else FindId(ciphers[1..], word)
  }

  function FindAlias(aliases: seq<Alias>, word: string): (j: nat)
    ensures j <= |aliases| && (j < |aliases| ==> aliases[j].name == word)
  {
    if aliases == [] || aliases[0].name == word then 0 else 1 + FindAlias(aliases[1..], word)
  }

  /** The selection before any word: everything. */
  function Everything(): Selector {
    Selector(0, AllBits(), AllBits(), AllBits(), AllBits(), 0, -1)
  }

  /** An alias narrows the selection; a second minimum version that differs from the first makes the rule void. */
  function Narrow(sel: Selector, a: Alias): (Selector, bool) {
    var sel' := sel.(mkey := sel.mkey * a.mkey, auth := sel.auth * a.auth, enc := sel.enc * a.enc, mac := sel.mac * a.mac);
    if sel.minVersion != 0 && sel.minVersion != a.minVersion then (sel', true) else (sel'.(minVersion := a.minVersion), false)
  }

  datatype Words = Bad | Words(sel: Selector, skip: bool, end: nat)

  /** One word of a rule: an exact cipher name if the rule has no other word, else an alias. */
  function TakeWord(t: Tables, word: string, single: bool, strict: bool, sel: Selector, skip: bool): Option<(Selector, bool)> {
    var id := if single then FindId(t.ciphers, word) else 0;
    if id != 0 then Some((sel.(id := id), skip))
    else
      var j := FindAlias(t.aliases, word);
      if j == |t.aliases| then (if strict then None else Some((sel, true)))
      else
        var (sel', void) := Narrow(sel, t.aliases[j]);
        Some((sel', skip || void))
  }

  /** The words of a rule, joined by `+`. */
  function ParseWords(t: Tables, s: string, i: nat, strict: bool, multi: bool, sel: Selector, skip: bool): (w: Words)
    requires i <= |s|
    ensures w.Words? ==> i < w.end <= |s| && (w.end < |s| ==> !WordChar(s[w.end]))
    decreases |s| - i
  {
    var e := WordEnd(s, i);
    if e == i then Bad
    else
      match TakeWord(t, s[i..e], !multi && CharAt(s, e) != '+', strict, sel, skip)
      case None => Bad
      case Some((sel', skip')) =>
        if CharAt(s, e) != '+' then Words(sel', skip', e) else ParseWords(t, s, e + 1, strict, true, sel', skip')
  }

  datatype Operator = Plain(r: Rule) | Special

  /** The operator in front of a rule, and where its words begin. */
  function TakeOperator(s: string, i: nat, inGroup: bool): (Operator, nat)
    requires i < |s|
  {
    if inGroup then (Plain(Add(true)), i)
    else if s[i] == '-' then (Plain(Delete), i + 1)
    else if s[i] == '+' then (Plain(ToEnd), i + 1)
    else if s[i] == '!' then (Plain(Kill), i + 1)
    else if s[i] == '@' then (Special, i + 1)
    else (Plain(Add(false)), i)
  }

  /** The commands of a rule string up to its end or its first error. */
  datatype Parsed = Parsed(cmds: seq<Command>, ok: bool)

  function Then(c: Command, p: Parsed): Parsed {
    Parsed([c] + p.cmds, p.ok)
  }

  /** ssl_cipher_process_rulestr as a function of the text: from position i, inside a group or not. */
  function Parse(t: Tables, s: string, i: nat, strict: bool, inGroup: bool, hasGroup: bool): Parsed
    requires i <= |s|
    decreases |s| - i
  {
    if CharAt(s, i) == '\0' then Parsed([], !inGroup)
    else if inGroup && s[i] == ']' then Then(CloseGroup, Parse(t, s, i + 1, strict, false, hasGroup))
    else if inGroup && s[i] == '|' then Parse(t, s, i + 1, strict, inGroup, hasGroup)
    else if inGroup && !Alphanumeric(s[i]) then Parsed([], false)
    else if !inGroup && s[i] == '[' then Parse(t, s, i + 1, strict, true, true)
    else
      var (op, j) := TakeOperator(s, i, inGroup);
      if hasGroup && (op.Special? || !op.r.Add?) then Parsed([], false)
      else if Separator(s[i], strict) then Parse(t, s, i + 1, strict, inGroup, hasGroup)
      else if op.Special? then
        var e := WordEnd(s, j);
        if s[j..e] != "STRENGTH" then Parsed([], false)
        else Then(Sort, Parse(t, s, CommandEnd(s, e, strict), strict, inGroup, hasGroup))
      else
        match ParseWords(t, s, j, strict, false, Everything(), false)
        case Bad => Parsed([], false)
        case Words(sel, skip, e) =>
          if skip then Parse(t, s, e, strict, inGroup, hasGroup)
          else Then(Do(op.r, sel), Parse(t, s, e, strict, inGroup, hasGroup))
  }

  // ----- what a rule string does -----

  lemma RunFirst(c: Command, cmds: seq<Command>, l: seq<Entry>)
    ensures Run([c] + cmds, l) == Run(cmds, Step(c, l))
  {
    assert ([c] + cmds)[1..] == cmds;
  }

  /** Runs what is left of a rule string from a list to a list. */
  ghost function Meaning(t: Tables, s: string, i: nat, strict: bool, inGroup: bool, hasGroup: bool, l: seq<Entry>): (seq<Entry>, bool)
    requires i <= |s|
  {
    var p := Parse(t, s, i, strict, inGroup, hasGroup);
    (Run(p.cmds, l), p.ok)
  }

  lemma MeaningFirst(c: Command, p: Parsed, l: seq<Entry>)
    ensures Run(Then(c, p).cmds, l) == Run(p.cmds, Step(c, l))
  {
    RunFirst(c, p.cmds, l);
  }

  /** What the text of one rule does to the list, and where it ends. */
  ghost function RuleOutcome(t: Tables, s: string, i: nat, strict: bool, inGroup: bool, l: seq<Entry>): (r: Option<(seq<Entry>, nat)>)
    requires i < |s|
    ensures r.Some? ==> i < r.value.1 <= |s|
  {
    var (op, j) := TakeOperator(s, i, inGroup);
    if op.Special? then
      if s[j..WordEnd(s, j)] != "STRENGTH" then None else Some((SortByStrength(l), CommandEnd(s, WordEnd(s, j), strict)))
    else
      match ParseWords(t, s, j, strict, false, Everything(), false)
      case Bad => None
      case Words(sel, skip, e) => Some((if skip then l else Apply(op.r, sel, l), e))
  }

  lemma RuleMeaning(t: Tables, s: string, i: nat, strict: bool, inGroup: bool, hasGroup: bool, l: seq<Entry>)
    requires i < |s| && s[i] != '\0' && !Separator(s[i], strict) && (if inGroup then Alphanumeric(s[i]) else s[i] != '[')
    requires var op := TakeOperator(s, i, inGroup).0; hasGroup ==> op.Plain? && op.r.Add?
    ensures Meaning(t, s, i, strict, inGroup, hasGroup, l) ==
            match RuleOutcome(t, s, i, strict, inGroup, l)
            case None => (l, false)
            case Some((l', e)) => Meaning(t, s, e, strict, inGroup, hasGroup, l')
  {
    var (op, j) := TakeOperator(s, i, inGroup);
    if op.Special? {
      MeaningFirst(Sort, Parse(t, s, CommandEnd(s, WordEnd(s, j), strict), strict, inGroup, hasGroup), l);
    } else {
      match ParseWords(t, s, j, strict, false, Everything(), false)
      case Bad =>
      case Words(sel, skip, e) => MeaningFirst(Do(op.r, sel), Parse(t, s, e, strict, inGroup, hasGroup), l);
    }
  }

  // ----- no cipher is duplicated, and only KILL loses one -----

  /** How often a cipher is in the list. */
  function Count(l: seq<Entry>, c: Cipher): nat {
    if l == [] then 0 else (if l[0].cipher == c then 1 else 0) + Count(l[1..], c)
  }

  lemma {:induction false} CountConcat(a: seq<Entry>, b: seq<Entry>, c: Cipher)
    ensures Count(a + b, c) == Count(a, c) + Count(b, c)
  {
    if a == [] {
      assert a + b == b;
    } else {
      CountConcat(a[1..], b, c);
      assert (a + b)[0] == a[0] && (a + b)[1..] == a[1..] + b;
    }
  }

  lemma {:induction false} CountSplit(r: Rule, s: Selector, l: seq<Entry>, c: Cipher)
    ensures Count(Others(r, s, l), c) + Count(Moved(r, s, l), c) == Count(l, c)
    ensures r.Kill? ==> Count(Others(r, s, l), c) == if Selects(s, c) then 0 else Count(l, c)
  {
    if l != [] {
      CountSplit(r, s, l[1..], c);
    }
  }

  /** A rule loses no cipher and duplicates none; KILL loses exactly the selected ones. */
  lemma ApplyConserves(r: Rule, s: Selector, l: seq<Entry>, c: Cipher)
    ensures Count(Apply(r, s, l), c) == if r.Kill? && Selects(s, c) then 0 else Count(l, c)
  {
    CountSplit(r, s, l, c);
    CountConcat(Others(r, s, l), Moved(r, s, l), c);
    CountConcat(Moved(r, s, l), Others(r, s, l), c);
  }

  lemma {:induction false} SortConserves(l: seq<Entry>, i: nat, c: Cipher)
    ensures Count(SortBelow(l, i), c) == Count(l, c)
    decreases i
  {
    if i > 0 {
      ApplyConserves(ToEnd, OfStrength(i - 1), l, c);
      SortConserves(Apply(ToEnd, OfStrength(i - 1), l), i - 1, c);
    }
  }

  lemma UngroupedConserves(l: seq<Entry>, c: Cipher)
    ensures Count(Ungrouped(l), c) == Count(l, c)
  {
    if l != [] {
      var n := |l| - 1;
      assert l == l[..n] + [l[n]] && Ungrouped(l) == l[..n] + [l[n].(inGroup := false)];
      CountConcat(l[..n], [l[n]], c);
      CountConcat(l[..n], [l[n].(inGroup := false)], c);
    }
  }

  predicate Kills(cmd: Command, c: Cipher) {
    cmd.Do? && cmd.r.Kill? && Selects(cmd.s, c)
  }

  /** Over any run: a cipher is lost for good by the first command that kills it, and kept exactly otherwise. */
  lemma {:induction false} RunConserves(cmds: seq<Command>, l: seq<Entry>, c: Cipher)
    ensures Count(Run(cmds, l), c) == if exists k :: 0 <= k < |cmds| && Kills(cmds[k], c) then 0 else Count(l, c)
    decreases |cmds|
  {
    if cmds != [] {
      match cmds[0] {
        case Do(r, s) => ApplyConserves(r, s, l, c);
        case Sort => SortConserves(l, MaxStrength(l) + 1, c);
        case CloseGroup => UngroupedConserves(l, c);
      }
      var rest := cmds[1..];
      RunConserves(rest, Step(cmds[0], l), c);
      assert forall k :: 0 <= k < |rest| ==> rest[k] == cmds[k + 1];
      assert forall k :: 1 <= k < |cmds| ==> cmds[k] == rest[k - 1];
    }
  }

  // ----- the null cipher -----

  /** The ids that commands add by exact name. */
  function ExactIds(cmds: seq<Command>): set<nat> {
    if cmds == [] then {}
    else (if cmds[0].Do? && cmds[0].r.Add? && cmds[0].s.id != 0 then {cmds[0].s.id} else {}) + ExactIds(cmds[1..])
  }

  /** Every active null cipher has an id in ids. */
  predicate NullOnly(l: seq<Entry>, ids: set<nat>) {
    forall e :: e in l && e.active && e.cipher.enc == E_NULL ==> e.cipher.id in ids
  }

  /** A command that a rule string can give: ciphers are selected by name or by mask. */
  predicate ByNameOrMask(c: Command) {
    c.Do? ==> c.s.strength == -1
  }

  lemma {:induction false} PartsNullOnly(r: Rule, s: Selector, l: seq<Entry>, ids: set<nat>)
    requires NullOnly(l, ids) && (r.Add? ==> s.strength == -1 && (s.id == 0 || s.id in ids))
    ensures NullOnly(Others(r, s, l), ids) && NullOnly(Moved(r, s, l), ids)
  {
    if l != [] {
      assert l[0] in l;
      PartsNullOnly(r, s, l[1..], ids);
    }
  }

  lemma {:induction false} SortNullOnly(l: seq<Entry>, i: nat, ids: set<nat>)
    requires NullOnly(l, ids)
    ensures NullOnly(SortBelow(l, i), ids)
    decreases i
  {
    if i > 0 {
      PartsNullOnly(ToEnd, OfStrength(i - 1), l, ids);
      SortNullOnly(Apply(ToEnd, OfStrength(i - 1), l), i - 1, ids);
    }
  }

  /** A null cipher becomes active only by its exact name. */
  lemma {:induction false} RunNullOnly(cmds: seq<Command>, l: seq<Entry>, ids: set<nat>)
    requires NullOnly(l, ids) && ExactIds(cmds) <= ids && forall c :: c in cmds ==> ByNameOrMask(c)
    ensures NullOnly(Run(cmds, l), ids)
    decreases |cmds|
  {
    if cmds != [] {
      var c := cmds[0];
      assert c in cmds;
      match c {
        case Do(r, s) => PartsNullOnly(r, s, l, ids);
        case Sort => SortNullOnly(l, MaxStrength(l) + 1, ids);
        case CloseGroup => assert forall e :: e in Ungrouped(l) ==> e in l || e.(inGroup := true) in l;
      }
      RunNullOnly(cmds[1..], Step(c, l), ids);
    }
  }

  // ----- groups -----

  predicate NoGroups(l: seq<Entry>) {
    forall e :: e in l ==> !e.inGroup
  }

  /** The last cipher does not claim that its group goes on. */
  predicate Closed(l: seq<Entry>) {
    l == [] || !l[|l| - 1].inGroup
  }

  lemma {:induction false} PartsNoGroups(r: Rule, s: Selector, l: seq<Entry>)
    requires r != Add(true)
    ensures NoGroups(l) ==> NoGroups(Others(r, s, l))
    ensures !r.Kill? ==> NoGroups(Moved(r, s, l))
  {
    if l != [] {
      assert l[0] in l;
      PartsNoGroups(r, s, l[1..]);
    }
  }

  lemma {:induction false} SortNoGroups(l: seq<Entry>, i: nat)
    requires NoGroups(l)
    ensures NoGroups(SortBelow(l, i))
    decreases i
  {
    if i > 0 {
      PartsNoGroups(ToEnd, OfStrength(i - 1), l);
      SortNoGroups(Apply(ToEnd, OfStrength(i - 1), l), i - 1);
    }
  }

  /** What holds of the list while a rule string is read: before the first group no cipher is in one; outside groups the list is closed. */
  predicate GroupsOk(l: seq<Entry>, inGroup: bool, hasGroup: bool) {
    (hasGroup || (NoGroups(l) && !inGroup)) && (inGroup || Closed(l))
  }

  lemma {:induction false} MovedNothing(r: Rule, s: Selector, l: seq<Entry>)
    requires Moved(r, s, l) == []
    ensures Others(r, s, l) == l
  {
    if l != [] {
      MovedNothing(r, s, l[1..]);
    }
  }

  lemma AddKeepsGroups(inGroup: bool, hasGroup: bool, s: Selector, l: seq<Entry>)
    requires GroupsOk(l, inGroup, hasGroup)
    ensures GroupsOk(Apply(Add(inGroup), s, l), inGroup, hasGroup)
  {
    if !inGroup {
      PartsNoGroups(Add(false), s, l);
      var moved := Moved(Add(false), s, l);
      if moved == [] {
        MovedNothing(Add(false), s, l);
      } else {
        assert moved[|moved| - 1] in moved;
      }
    }
  }

  lemma RuleKeepsGroups(r: Rule, s: Selector, l: seq<Entry>)
    requires NoGroups(l) && !r.Add?
    ensures GroupsOk(Apply(r, s, l), false, false)
  {
    PartsNoGroups(r, s, l);
    var l' := Apply(r, s, l);
    assert l' != [] ==> l'[|l'| - 1] in l';
  }

  lemma SortKeepsGroups(l: seq<Entry>)
    requires NoGroups(l)
    ensures GroupsOk(SortByStrength(l), false, false)
  {
    SortNoGroups(l, MaxStrength(l) + 1);
    var l' := SortByStrength(l);
    assert l' != [] ==> l'[|l'| - 1] in l';
  }

  /** One plain rule keeps the list in order. */
  lemma PlainKeepsGroups(r: Rule, s: Selector, l: seq<Entry>, inGroup: bool, hasGroup: bool)
    requires GroupsOk(l, inGroup, hasGroup) && (if r.Add? then r.inGroup == inGroup else !hasGroup)
    ensures GroupsOk(Apply(r, s, l), inGroup, hasGroup)
  {
    if r.Add? {
      AddKeepsGroups(inGroup, hasGroup, s, l);
    } else {
      RuleKeepsGroups(r, s, l);
    }
  }

  /** A rule string that is accepted leaves the list closed. */
  lemma {:induction false} ParsedGroupsClosed(t: Tables, s: string, i: nat, strict: bool, inGroup: bool, hasGroup: bool, l: seq<Entry>)
    requires i <= |s| && GroupsOk(l, inGroup, hasGroup)
    requires Meaning(t, s, i, strict, inGroup, hasGroup, l).1
    ensures Closed(Meaning(t, s, i, strict, inGroup, hasGroup, l).0)
    decreases |s| - i, 1
  {
    if CharAt(s, i) == '\0' {
    } else if inGroup && s[i] == ']' {
      MeaningFirst(CloseGroup, Parse(t, s, i + 1, strict, false, hasGroup), l);
      ParsedGroupsClosed(t, s, i + 1, strict, false, hasGroup, Ungrouped(l));
    } else if inGroup && s[i] == '|' {
      ParsedGroupsClosed(t, s, i + 1, strict, inGroup, hasGroup, l);
    } else if !inGroup && s[i] == '[' {
      ParsedGroupsClosed(t, s, i + 1, strict, true, true, l);
    } else if Separator(s[i], strict) {
      ParsedGroupsClosed(t, s, i + 1, strict, inGroup, hasGroup, l);
    } else {
      ParsedRuleClosed(t, s, i, strict, inGroup, hasGroup, l);
    }
  }

  lemma {:induction false} ParsedRuleClosed(t: Tables, s: string, i: nat, strict: bool, inGroup: bool, hasGroup: bool, l: seq<Entry>)
    requires i < |s| && s[i] != '\0' && !Separator(s[i], strict) && GroupsOk(l, inGroup, hasGroup)
    requires if inGroup then Alphanumeric(s[i]) else s[i] != '['
    requires Meaning(t, s, i, strict, inGroup, hasGroup, l).1
    ensures Closed(Meaning(t, s, i, strict, inGroup, hasGroup, l).0)
    decreases |s| - i, 0
  {
    var (op, j) := TakeOperator(s, i, inGroup);
    assert hasGroup ==> op.Plain? && op.r.Add?;
    RuleMeaning(t, s, i, strict, inGroup, hasGroup, l);
    var (l', e) := RuleOutcome(t, s, i, strict, inGroup, l).value;
    if op.Special? {
      SortKeepsGroups(l);
    } else {
      PlainKeepsGroups(op.r, ParseWords(t, s, j, strict, false, Everything(), false).sel, l, inGroup, hasGroup);
    }
    ParsedGroupsClosed(t, s, e, strict, inGroup, hasGroup, l');
  }

  // ----- what a rule string can say -----

  /** What can stand in front of a rule. */
  predicate Delimiter(c: char, strict: bool) {
    Separator(c, strict) || c == '[' || c == '|' || c == ']'
  }

  /** A rule of a rule string that starts at `start` may begin here. */
  predicate RuleBegins(s: string, start: nat, strict: bool, i: nat)
    requires i <= |s|
  {
    start <= i && (i > start ==> Delimiter(s[i - 1], strict))
  }

  /** The rule at position i has no operator, so it adds, and its one word is the name of cipher k. */
  predicate AddsByName(t: Tables, s: string, start: nat, strict: bool, i: nat, k: nat) {
    && i < |s| && k < |t.ciphers| && RuleBegins(s, start, strict, i)
    && WordEnd(s, i) > i && s[i] != '-'
    && CharAt(s, WordEnd(s, i)) != '+' && Names(t.ciphers[k], s[i..WordEnd(s, i)])
  }

  /** Some rule of the string adds the cipher with this id by its exact name. */
  ghost predicate NamedIn(t: Tables, s: string, start: nat, strict: bool, id: nat) {
    exists i: nat, k: nat :: AddsByName(t, s, start, strict, i, k) && t.ciphers[k].id == id
  }

  lemma {:induction false} FoundIsNamed(ciphers: seq<Cipher>, word: string) returns (k: nat)
    requires FindId(ciphers, word) != 0
    ensures k < |ciphers| && Names(ciphers[k], word) && ciphers[k].id == FindId(ciphers, word)
  {
    if Names(ciphers[0], word) {
      k := 0;
    } else {
      var j := FoundIsNamed(ciphers[1..], word);
      k := j + 1;
    }
  }

  /** The only word of a rule is the name of cipher k. */
  predicate OnlyWord(t: Tables, s: string, i: nat, multi: bool, k: nat, id: nat)
    requires i <= |s|
  {
    !multi && CharAt(s, WordEnd(s, i)) != '+' && k < |t.ciphers| && Names(t.ciphers[k], s[i..WordEnd(s, i)]) && t.ciphers[k].id == id
  }

  /** The words of a rule select by mask, or by the id of the cipher that its only word names. */
  lemma {:induction false} WordsAreNamed(t: Tables, s: string, i: nat, strict: bool, multi: bool, sel: Selector, skip: bool) returns (k: nat)
    requires i <= |s| && sel.strength == -1 && sel.id == 0
    ensures var w := ParseWords(t, s, i, strict, multi, sel, skip);
            w.Words? ==> i < |s| && WordChar(s[i]) && w.sel.strength == -1 && (w.sel.id == 0 || OnlyWord(t, s, i, multi, k, w.sel.id))
    decreases |s| - i
  {
    k := 0;
    var e := WordEnd(s, i);
    if e > i {
      var single := !multi && CharAt(s, e) != '+';
      if single && FindId(t.ciphers, s[i..e]) != 0 {
        k := FoundIsNamed(t.ciphers, s[i..e]);
      } else if CharAt(s, e) == '+' {
        match TakeWord(t, s[i..e], single, strict, sel, skip)
        case None =>
        case Some((sel', skip')) =>
          var _ := WordsAreNamed(t, s, e + 1, strict, true, sel', skip');
      }
    }
  }

  /** Commands that select by mask, or by id; one that adds by id stands in the string with the name of that cipher. */
  ghost predicate Spelled(t: Tables, s: string, start: nat, strict: bool, c: Command) {
    c.Do? ==> c.s.strength == -1 && (c.s.id == 0 || !c.r.Add? || NamedIn(t, s, start, strict, c.s.id))
  }

  /** Where the parser can be: at the start, behind a delimiter, or where no word begins. */
  predicate Between(s: string, start: nat, strict: bool, i: nat)
    requires i <= |s|
  {
    start <= i && (RuleBegins(s, start, strict, i) || (i < |s| ==> !WordChar(s[i])))
  }

  lemma RuleIsSpelled(t: Tables, s: string, start: nat, i: nat, strict: bool, inGroup: bool)
    requires i < |s| && Between(s, start, strict, i) && (inGroup ==> Alphanumeric(s[i]))
    requires TakeOperator(s, i, inGroup).0.Plain?
    ensures var (op, j) := TakeOperator(s, i, inGroup);
            var w := ParseWords(t, s, j, strict, false, Everything(), false);
            w.Words? ==> Spelled(t, s, start, strict, Do(op.r, w.sel)) && Between(s, start, strict, w.end)
  {
    var (op, j) := TakeOperator(s, i, inGroup);
    var w := ParseWords(t, s, j, strict, false, Everything(), false);
    var k := WordsAreNamed(t, s, j, strict, false, Everything(), false);
    if w.Words? && op.r.Add? && w.sel.id != 0 {
      assert AddsByName(t, s, start, strict, i, k);
    }
  }

  lemma {:induction false} ParsedIsSpelled(t: Tables, s: string, start: nat, i: nat, strict: bool, inGroup: bool, hasGroup: bool)
    requires i <= |s| && Between(s, start, strict, i)
    ensures forall c :: c in Parse(t, s, i, strict, inGroup, hasGroup).cmds ==> Spelled(t, s, start, strict, c)
    decreases |s| - i
  {
    if CharAt(s, i) == '\0' || (inGroup && s[i] != ']' && s[i] != '|' && !Alphanumeric(s[i])) {
    } else if inGroup && s[i] == ']' {
      ParsedIsSpelled(t, s, start, i + 1, strict, false, hasGroup);
    } else if inGroup && s[i] == '|' {
      ParsedIsSpelled(t, s, start, i + 1, strict, inGroup, hasGroup);
    } else if !inGroup && s[i] == '[' {
      ParsedIsSpelled(t, s, start, i + 1, strict, true, true);
    } else {
      var (op, j) := TakeOperator(s, i, inGroup);
      if hasGroup && (op.Special? || !op.r.Add?) {
      } else if Separator(s[i], strict) {
        ParsedIsSpelled(t, s, start, i + 1, strict, inGroup, hasGroup);
      } else if op.Special? {
        ParsedIsSpelled(t, s, start, CommandEnd(s, WordEnd(s, j), strict), strict, inGroup, hasGroup);
      } else {
        RuleIsSpelled(t, s, start, i, strict, inGroup);
        match ParseWords(t, s, j, strict, false, Everything(), false)
        case Bad =>
        case Words(sel, skip, e) => ParsedIsSpelled(t, s, start, e, strict, inGroup, hasGroup);
      }
    }
  }

  lemma {:induction false} ExactIdsAreNamed(t: Tables, s: string, start: nat, strict: bool, cmds: seq<Command>)
    requires forall c :: c in cmds ==> Spelled(t, s, start, strict, c)
    ensures forall id :: id in ExactIds(cmds) ==> NamedIn(t, s, start, strict, id)
  {
    if cmds != [] {
      assert cmds[0] in cmds;
      ExactIdsAreNamed(t, s, start, strict, cmds[1..]);
    }
  }

  // ----- active ciphers stay at the back -----

  lemma {:induction false} SortActiveLast(l: seq<Entry>, i: nat)
    requires ActiveLast(l)
    ensures ActiveLast(SortBelow(l, i))
    decreases i
  {
    if i > 0 {
      ApplyActiveLast(ToEnd, OfStrength(i - 1), l);
      SortActiveLast(Apply(ToEnd, OfStrength(i - 1), l), i - 1);
    }
  }

  lemma {:induction false} RunActiveLast(cmds: seq<Command>, l: seq<Entry>)
    requires ActiveLast(l)
    ensures ActiveLast(Run(cmds, l))
    decreases |cmds|
  {
    if cmds != [] {
      match cmds[0] {
        case Do(r, s) => ApplyActiveLast(r, s, l);
        case Sort => SortActiveLast(l, MaxStrength(l) + 1);
        case CloseGroup =>
      }
      RunActiveLast(cmds[1..], Step(cmds[0], l));
    }
  }

  // ----- the preference list -----

  /** ssl_cipher_preference_list_st: ciphers, and for each whether its group goes on with the next. */
  datatype Preferences = Preferences(ciphers: seq<Cipher>, flags: seq<bool>)

  /** The active ciphers with their flags. */
  function Emitted(l: seq<Entry>): (p: Preferences)
    ensures |p.ciphers| == |p.flags|
  {
    if l == [] then Preferences([], [])
    else
      var p := Emitted(l[..|l| - 1]);
      var e := l[|l| - 1];
      if e.active then Preferences(p.ciphers + [e.cipher], p.flags + [e.inGroup]) else p
  }

  /** The last group ends with the list. */
  predicate GroupsEnd(flags: seq<bool>) {
    flags == [] || !flags[|flags| - 1]
  }

  lemma {:induction false} EmittedNothing(l: seq<Entry>)
    requires AllActive(l, false)
    ensures Emitted(l) == Preferences([], [])
  {
    if l != [] {
      EmittedNothing(l[..|l| - 1]);
    }
  }

  /** Of a closed list whose active ciphers come last, the last flag emitted is zero. */
  lemma EmittedGroupsEnd(l: seq<Entry>)
    requires ActiveLast(l) && Closed(l)
    ensures GroupsEnd(Emitted(l).flags)
  {
    if l != [] && !l[|l| - 1].active {
      assert AllActive(l, false);
      EmittedNothing(l);
    }
  }

  lemma {:induction false} EmittedIsActive(l: seq<Entry>, k: nat)
    requires k < |Emitted(l).ciphers|
    ensures exists e :: e in l && e.active && e.cipher == Emitted(l).ciphers[k]
  {
    var n := |l| - 1;
    if l[n].active && k == |Emitted(l[..n]).ciphers| {
      assert l[n] in l;
    } else {
      EmittedIsActive(l[..n], k);
    }
  }
}
