/**
  Rule strings by their characters: what the operator in front of a rule does to the
  ciphers that its words select, and which ciphers words select.
 */
module CipherText {
  import opened Bytes
  import opened CipherList
  import opened CipherSort
  import opened CipherRules

  // ----- lists after a rule -----

  /** The selected entries whose active flag is one of `flags`, in list order, */
  ghost function Chosen(sel: Selector, l: seq<Entry>, flags: set<bool>): seq<Entry> {
    if l == [] then []
    else if Selects(sel, l[0].cipher) && l[0].active in flags then [l[0]] + Chosen(sel, l[1..], flags)
    else Chosen(sel, l[1..], flags)
  }

  /** and all the others. */
  ghost function Rest(sel: Selector, l: seq<Entry>, flags: set<bool>): seq<Entry> {
    if l == [] then []
    else if Selects(sel, l[0].cipher) && l[0].active in flags then Rest(sel, l[1..], flags)
    else [l[0]] + Rest(sel, l[1..], flags)
  }

  /** The same ciphers with these flags. */
  ghost function Flagged(l: seq<Entry>, active: bool, inGroup: bool): (r: seq<Entry>)
    ensures |r| == |l| && forall k :: 0 <= k < |l| ==> r[k] == Entry(l[k].cipher, active, inGroup)
  {
    if l == [] then [] else [Entry(l[0].cipher, active, inGroup)] + Flagged(l[1..], active, inGroup)
  }

  /** No selected cipher has its active flag in `flags`. */
  ghost predicate NoneWith(sel: Selector, l: seq<Entry>, flags: set<bool>) {
    forall k :: 0 <= k < |l| && Selects(sel, l[k].cipher) ==> l[k].active !in flags
  }

  lemma {:induction false} PartsByFlag(r: Rule, sel: Selector, l: seq<Entry>, flags: set<bool>)
    requires flags == match r case Add(_) => {false} case ToEnd => {true} case Delete => {true} case Kill => {false, true}
    ensures Others(r, sel, l) == Rest(sel, l, flags)
    ensures !r.Kill? ==> Moved(r, sel, l) == Flagged(Chosen(sel, l, flags), !r.Delete?, r.Add? && r.inGroup)
  {
    if l != [] {
      PartsByFlag(r, sel, l[1..], flags);
    }
  }

  lemma {:induction false} RestHasNone(sel: Selector, l: seq<Entry>, flags: set<bool>)
    ensures NoneWith(sel, Rest(sel, l, flags), flags)
  {
    if l != [] {
      RestHasNone(sel, l[1..], flags);
    }
  }

  lemma FlaggedHasNone(sel: Selector, l: seq<Entry>, active: bool, inGroup: bool, flags: set<bool>)
    ensures active !in flags ==> NoneWith(sel, Flagged(l, active, inGroup), flags)
  {
  }

  /** What a rule makes of the list, by the flags of the entries it is for. */
  lemma ApplyByFlag(r: Rule, sel: Selector, l: seq<Entry>, flags: set<bool>)
    requires flags == match r case Add(_) => {false} case ToEnd => {true} case Delete => {true} case Kill => {false, true}
    ensures var chosen, rest := Flagged(Chosen(sel, l, flags), !r.Delete?, r.Add? && r.inGroup), Rest(sel, l, flags);
            Apply(r, sel, l) == if r.Kill? then rest else if r.Delete? then chosen + rest else rest + chosen
    ensures NoneWith(sel, Rest(sel, l, flags), flags) && (!r.ToEnd? ==> NoneWith(sel, Apply(r, sel, l), flags))
    ensures forall c :: Count(Apply(r, sel, l), c) == if r.Kill? && Selects(sel, c) then 0 else Count(l, c)
  {
    PartsByFlag(r, sel, l, flags);
    RestHasNone(sel, l, flags);
    FlaggedHasNone(sel, Chosen(sel, l, flags), !r.Delete?, r.Add? && r.inGroup, flags);
    forall c
      ensures Count(Apply(r, sel, l), c) == if r.Kill? && Selects(sel, c) then 0 else Count(l, c)
    {
      ApplyConserves(r, sel, l, c);
    }
  }

  // ----- the operators -----

  /** The rule at position i has words, and they are not void; its words begin at j. */
  predicate Stands(t: Tables, s: string, j: nat, strict: bool) {
    j <= |s| && var w := ParseWords(t, s, j, strict, false, Everything(), false); w.Words? && !w.skip
  }

  /** What the words select, and where they end. */
  function SelectedAt(t: Tables, s: string, j: nat, strict: bool): Selector
    requires Stands(t, s, j, strict)
  {
    ParseWords(t, s, j, strict, false, Everything(), false).sel
  }

  function EndAt(t: Tables, s: string, j: nat, strict: bool): (e: nat)
    requires Stands(t, s, j, strict)
    ensures j < e <= |s|
  {
    ParseWords(t, s, j, strict, false, Everything(), false).end
  }

  /** The string means from position i what it means from position e with another list. */
  ghost predicate Continues(t: Tables, s: string, strict: bool, inGroup: bool, hasGroup: bool, i: nat, l: seq<Entry>, e: nat, l': seq<Entry>)
    requires i <= |s| && e <= |s|
  {
    Meaning(t, s, i, strict, inGroup, hasGroup, l) == Meaning(t, s, e, strict, inGroup, hasGroup, l')
  }

  /** A minus sign makes every selected cipher inactive; the active ones come first in their old order. */
  lemma MinusDisables(t: Tables, s: string, i: nat, strict: bool, l: seq<Entry>) returns (l': seq<Entry>)
    requires i < |s| && s[i] == '-' && Stands(t, s, i + 1, strict)
    ensures Continues(t, s, strict, false, false, i, l, EndAt(t, s, i + 1, strict), l')
    ensures var sel := SelectedAt(t, s, i + 1, strict);
            && l' == Flagged(Chosen(sel, l, {true}), false, false) + Rest(sel, l, {true})
            && NoneWith(sel, l', {true})
            && (forall c :: Count(l', c) == Count(l, c))
  {
    var sel := SelectedAt(t, s, i + 1, strict);
    RuleMeaning(t, s, i, strict, false, false, l);
    l' := Apply(Delete, sel, l);
    ApplyByFlag(Delete, sel, l, {true});
  }

  /** A plus sign moves exactly the selected active ciphers to the end, active and in their old order. */
  lemma PlusMoves(t: Tables, s: string, i: nat, strict: bool, l: seq<Entry>) returns (l': seq<Entry>)
    requires i < |s| && s[i] == '+' && Stands(t, s, i + 1, strict)
    ensures Continues(t, s, strict, false, false, i, l, EndAt(t, s, i + 1, strict), l')
    ensures var sel := SelectedAt(t, s, i + 1, strict);
            && l' == Rest(sel, l, {true}) + Flagged(Chosen(sel, l, {true}), true, false)
            && NoneWith(sel, Rest(sel, l, {true}), {true})
            && (forall c :: Count(l', c) == Count(l, c))
  {
    var sel := SelectedAt(t, s, i + 1, strict);
    RuleMeaning(t, s, i, strict, false, false, l);
    l' := Apply(ToEnd, sel, l);
    ApplyByFlag(ToEnd, sel, l, {true});
  }

  lemma GoneStaysGone(t: Tables, s: string, i: nat, strict: bool, l: seq<Entry>, c: Cipher)
    requires i <= |s| && Count(l, c) == 0
    ensures Count(Meaning(t, s, i, strict, false, false, l).0, c) == 0
  {
    RunConserves(Parse(t, s, i, strict, false, false).cmds, l, c);
  }

  /** An exclamation mark removes the selected ciphers, and they do not come back. */
  lemma MarkKills(t: Tables, s: string, i: nat, strict: bool, l: seq<Entry>) returns (l': seq<Entry>)
    requires i < |s| && s[i] == '!' && Stands(t, s, i + 1, strict)
    ensures Continues(t, s, strict, false, false, i, l, EndAt(t, s, i + 1, strict), l')
    ensures var sel := SelectedAt(t, s, i + 1, strict);
            && l' == Rest(sel, l, {false, true})
            && NoneWith(sel, l', {false, true})
            && (forall c :: Count(l', c) == if Selects(sel, c) then 0 else Count(l, c))
            && (forall c :: Selects(sel, c) ==> Count(Meaning(t, s, i, strict, false, false, l).0, c) == 0)
  {
    var sel := SelectedAt(t, s, i + 1, strict);
    RuleMeaning(t, s, i, strict, false, false, l);
    l' := Apply(Kill, sel, l);
    ApplyByFlag(Kill, sel, l, {false, true});
    forall c | Selects(sel, c)
      ensures Count(Meaning(t, s, i, strict, false, false, l).0, c) == 0
    {
      GoneStaysGone(t, s, EndAt(t, s, i + 1, strict), strict, l', c);
    }
  }

  lemma NoOperator(s: string, i: nat, strict: bool)
    requires i < |s| && WordChar(s[i]) && s[i] != '-'
    ensures TakeOperator(s, i, false) == (Plain(Add(false)), i) && !Separator(s[i], strict) && s[i] != '\0' && s[i] != '['
  {
  }

  lemma AddMeans(t: Tables, s: string, i: nat, strict: bool, hasGroup: bool, l: seq<Entry>)
    requires i < |s| && WordChar(s[i]) && s[i] != '-' && Stands(t, s, i, strict)
    ensures Continues(t, s, strict, false, hasGroup, i, l, EndAt(t, s, i, strict), Apply(Add(false), SelectedAt(t, s, i, strict), l))
  {
    NoOperator(s, i, strict);
    RuleMeaning(t, s, i, strict, false, hasGroup, l);
  }

  /** Without an operator every selected cipher is active; those that were not come last in their old order. */
  lemma WordsEnable(t: Tables, s: string, i: nat, strict: bool, hasGroup: bool, l: seq<Entry>) returns (l': seq<Entry>)
    requires i < |s| && WordChar(s[i]) && s[i] != '-' && Stands(t, s, i, strict)
    ensures Continues(t, s, strict, false, hasGroup, i, l, EndAt(t, s, i, strict), l')
    ensures var sel := SelectedAt(t, s, i, strict);
            && l' == Rest(sel, l, {false}) + Flagged(Chosen(sel, l, {false}), true, false)
            && NoneWith(sel, l', {false})
            && (forall c :: Count(l', c) == Count(l, c))
  {
    var sel := SelectedAt(t, s, i, strict);
    AddMeans(t, s, i, strict, hasGroup, l);
    l' := Apply(Add(false), sel, l);
    ApplyByFlag(Add(false), sel, l, {false});
  }

  /** In a group the selected ciphers are added as members of the group; */
  lemma GroupEnables(t: Tables, s: string, i: nat, strict: bool, l: seq<Entry>) returns (l': seq<Entry>)
    requires i < |s| && Alphanumeric(s[i]) && Stands(t, s, i, strict)
    ensures Continues(t, s, strict, true, true, i, l, EndAt(t, s, i, strict), l')
    ensures var sel := SelectedAt(t, s, i, strict);
            && l' == Rest(sel, l, {false}) + Flagged(Chosen(sel, l, {false}), true, true)
            && NoneWith(sel, l', {false})
            && (forall c :: Count(l', c) == Count(l, c))
  {
    var sel := SelectedAt(t, s, i, strict);
    RuleMeaning(t, s, i, strict, true, true, l);
    l' := Apply(Add(true), sel, l);
    ApplyByFlag(Add(true), sel, l, {false});
  }

  /** brackets open and close it, closing ends it at the last cipher, and an open group is an error. */
  lemma Brackets(t: Tables, s: string, i: nat, strict: bool, hasGroup: bool, l: seq<Entry>)
    requires i < |s|
    ensures s[i] == '[' ==>
      Meaning(t, s, i, strict, false, hasGroup, l) == Meaning(t, s, i + 1, strict, true, true, l)
    ensures s[i] == '|' ==>
      Meaning(t, s, i, strict, true, hasGroup, l) == Meaning(t, s, i + 1, strict, true, hasGroup, l)
    ensures s[i] == ']' && l == [] ==>
      Meaning(t, s, i, strict, true, hasGroup, l) == Meaning(t, s, i + 1, strict, false, hasGroup, l)
    ensures s[i] == ']' && l != [] ==>
      Meaning(t, s, i, strict, true, hasGroup, l) ==
      Meaning(t, s, i + 1, strict, false, hasGroup, l[..|l| - 1] + [l[|l| - 1].(inGroup := false)])
    ensures !Meaning(t, s, |s|, strict, true, hasGroup, l).1 && Meaning(t, s, |s|, strict, false, hasGroup, l) == (l, true)
  {
    if s[i] == ']' {
      MeaningFirst(CloseGroup, Parse(t, s, i + 1, strict, false, hasGroup), l);
      assert l != [] ==> Ungrouped(l) == l[..|l| - 1] + [l[|l| - 1].(inGroup := false)];
    }
  }

  /** Behind the first group every operator is an error, and in a group everything but words, bars and the bracket. */
  lemma GroupsForbidOperators(t: Tables, s: string, i: nat, strict: bool, l: seq<Entry>)
    requires i < |s| && s[i] != '\0'
    ensures s[i] in "-+!@" ==> Meaning(t, s, i, strict, false, true, l) == (l, false)
    ensures !Alphanumeric(s[i]) && s[i] != '|' && s[i] != ']' ==> Meaning(t, s, i, strict, true, true, l) == (l, false)
  {
  }

  /** Separators are passed over outside groups. */
  lemma SeparatorsPass(t: Tables, s: string, i: nat, strict: bool, hasGroup: bool, l: seq<Entry>)
    requires i < |s| && (s[i] == ':' || (!strict && s[i] in " ;,"))
    ensures Meaning(t, s, i, strict, false, hasGroup, l) == Meaning(t, s, i + 1, strict, false, hasGroup, l)
  {
  }

  lemma WordEndsAt(s: string, i: nat, e: nat)
    requires i <= e <= |s| && (forall k :: i <= k < e ==> WordChar(s[k])) && (e < |s| ==> !WordChar(s[e]))
    ensures WordEnd(s, i) == e
    decreases e - i
  {
    if i < e {
      WordEndsAt(s, i + 1, e);
    }
  }

  lemma StrengthWord(s: string, i: nat)
    requires i + 9 <= |s| && s[i..i + 9] == "@STRENGTH" && (i + 9 < |s| ==> !WordChar(s[i + 9]))
    ensures s[i] == '@' && WordEnd(s, i + 1) == i + 9 && s[i + 1..i + 9] == "STRENGTH"
  {
    var word := "@STRENGTH";
    assert word[1..] == "STRENGTH";
    assert s[i + 1..i + 9] == s[i..i + 9][1..];
    assert forall k :: i <= k < i + 9 ==> s[k] == s[i..i + 9][k - i] == word[k - i];
    assert forall k :: 1 <= k < 9 ==> WordChar(word[k]);
    WordEndsAt(s, i + 1, i + 9);
  }

  lemma SpecialMeans(t: Tables, s: string, i: nat, strict: bool, l: seq<Entry>)
    requires i < |s| && s[i] == '@' && s[i + 1..WordEnd(s, i + 1)] == "STRENGTH"
    ensures Continues(t, s, strict, false, false, i, l, CommandEnd(s, WordEnd(s, i + 1), strict), SortByStrength(l))
  {
    RuleMeaning(t, s, i, strict, false, false, l);
  }

  /** The command `@STRENGTH` sorts by strength; */
  lemma StrengthCommand(t: Tables, s: string, i: nat, strict: bool, l: seq<Entry>) returns (e: nat)
    requires i + 9 <= |s| && s[i..i + 9] == "@STRENGTH" && (i + 9 < |s| ==> !WordChar(s[i + 9]))
    ensures i + 9 <= e <= |s| && (e == |s| || s[e] == '\0' || Separator(s[e], strict))
    ensures exists l' :: Continues(t, s, strict, false, false, i, l, e, l') && StrengthSorted(l, l')
  {
    StrengthWord(s, i);
    SpecialMeans(t, s, i, strict, l);
    e := CommandEnd(s, i + 9, strict);
    CommandEndsAt(s, i + 9, strict);
    SortCorrect(l);
    assert Continues(t, s, strict, false, false, i, l, e, SortByStrength(l));
  }

  /** After the sort, active ciphers are last: AES-256 and ChaCha20 (2, 4, 6) before AES-128 (1, 3), these before 3DES (0), and all others behind. */
  lemma StrengthOrder(l: seq<Entry>, l': seq<Entry>, i: nat, j: nat)
    requires StrengthSorted(l, l') && i < j < |l'| && l'[i].active
    ensures var before, after := l'[i].cipher.enc, l'[j].cipher.enc;
      && l'[j].active && (after in {2, 4, 6} ==> before in {2, 4, 6}) && (after in {1, 3} ==> before in {1, 2, 3, 4, 6})
      && (after == 0 ==> before in {0, 1, 2, 3, 4, 6})
  {
    var k: nat :| Banded(l', k, 0);
  }

  lemma StrengthSpelt(s: string, i: nat)
    requires i < |s| && s[i] == '@' && s[i + 1..WordEnd(s, i + 1)] == "STRENGTH"
    ensures i + 9 <= |s| && s[i..i + 9] == "@STRENGTH" && (i + 9 < |s| ==> !WordChar(s[i + 9]))
  {
    var e := WordEnd(s, i + 1);
    assert |s[i + 1..e]| == 8;
    assert s[i..i + 9] == [s[i]] + s[i + 1..e];
  }

  /** any other command is an error. */
  lemma OtherCommand(t: Tables, s: string, i: nat, strict: bool, l: seq<Entry>)
    requires i < |s| && s[i] == '@'
    requires i + 9 > |s| || s[i..i + 9] != "@STRENGTH" || (i + 9 < |s| && WordChar(s[i + 9]))
    ensures Meaning(t, s, i, strict, false, false, l) == (l, false)
  {
    assert s[i + 1..WordEnd(s, i + 1)] != "STRENGTH" by {
      if s[i + 1..WordEnd(s, i + 1)] == "STRENGTH" {
        StrengthSpelt(s, i);
        assert false;
      }
    }
    RuleMeaning(t, s, i, strict, false, false, l);
  }

  lemma {:induction false} CommandEndsAt(s: string, i: nat, strict: bool)
    requires i <= |s|
    ensures var e := CommandEnd(s, i, strict); e == |s| || s[e] == '\0' || Separator(s[e], strict)
    decreases |s| - i
  {
    if i < |s| && s[i] != '\0' && !Separator(s[i], strict) {
      CommandEndsAt(s, i + 1, strict);
    }
  }

  /** An operator without a word behind it, or anything else that begins no rule, is an error. */
  lemma NoWord(t: Tables, s: string, i: nat, strict: bool, hasGroup: bool, l: seq<Entry>)
    requires i < |s| && s[i] != '\0' && s[i] != '[' && !Separator(s[i], strict)
    requires if s[i] in "-+!" then i + 1 == |s| || !WordChar(s[i + 1]) else !WordChar(s[i]) && s[i] != '@'
    ensures Meaning(t, s, i, strict, false, hasGroup, l) == (l, false)
  {
  }

  /** The active entries, in list order. */
  function ActiveOnly(l: seq<Entry>): seq<Entry> {
    if l == [] then [] else if l[0].active then [l[0]] + ActiveOnly(l[1..]) else ActiveOnly(l[1..])
  }

  lemma {:induction false} ActiveSnoc(l: seq<Entry>, e: Entry)
    ensures ActiveOnly(l + [e]) == ActiveOnly(l) + if e.active then [e] else []
  {
    if l != [] {
      ActiveSnoc(l[1..], e);
      assert (l + [e])[1..] == l[1..] + [e];
    } else {
      assert (l + [e])[1..] == [];
    }
  }

  /** The preference list is the active entries, one by one. */
  lemma {:induction false} EmittedIs(l: seq<Entry>)
    ensures |Emitted(l).ciphers| == |Emitted(l).flags| == |ActiveOnly(l)|
    ensures forall k :: 0 <= k < |ActiveOnly(l)| ==>
      Emitted(l).ciphers[k] == ActiveOnly(l)[k].cipher && Emitted(l).flags[k] == ActiveOnly(l)[k].inGroup
  {
    if l != [] {
      var n := |l| - 1;
      EmittedIs(l[..n]);
      ActiveSnoc(l[..n], l[n]);
      assert l == l[..n] + [l[n]];
    }
  }

  // ----- the words -----

  predicate IsWord(w: string) {
    w != [] && forall k :: 0 <= k < |w| ==> WordChar(w[k])
  }

  /** From i to e the string spells these words, joined by plus signs. */
  ghost predicate Spell(s: string, i: nat, ws: seq<string>, e: nat)
    decreases ws
  {
    && ws != [] && IsWord(ws[0]) && i + |ws[0]| <= e <= |s| && s[i..i + |ws[0]|] == ws[0]
    && if |ws| == 1 then e == i + |ws[0]| && (e < |s| ==> !WordChar(s[e]) && s[e] != '+')
       else i + |ws[0]| < e && s[i + |ws[0]|] == '+' && Spell(s, i + |ws[0]| + 1, ws[1..], e)
  }

  /** Every word is an alias, the k-th the alias as[k]. */
  ghost predicate Mean(t: Tables, ws: seq<string>, aliases: seq<Alias>) {
    |aliases| == |ws| && forall k :: 0 <= k < |ws| ==> aliases[k] in t.aliases && aliases[k].name == ws[k]
  }

  ghost predicate DistinctNames(aliases: seq<Alias>) {
    forall j, k :: 0 <= j < k < |aliases| ==> aliases[j].name != aliases[k].name
  }

  /** No cipher has this word as a name. */
  ghost predicate NoCipherName(t: Tables, word: string) {
    forall k :: 0 <= k < |t.ciphers| ==> t.ciphers[k].name != word && t.ciphers[k].standardName != word
  }

  lemma {:induction false} NoSuchCipher(ciphers: seq<Cipher>, word: string)
    requires forall k :: 0 <= k < |ciphers| ==> ciphers[k].name != word && ciphers[k].standardName != word
    ensures FindId(ciphers, word) == 0
  {
    if ciphers != [] {
      NoSuchCipher(ciphers[1..], word);
    }
  }

  lemma {:induction false} FoundAlias(aliases: seq<Alias>, k: nat)
    requires DistinctNames(aliases) && k < |aliases|
    ensures FindAlias(aliases, aliases[k].name) == k
  {
    if k > 0 {
      assert aliases[0].name != aliases[k].name;
      assert forall i :: 0 <= i < |aliases| - 1 ==> aliases[1..][i] == aliases[i + 1];
      FoundAlias(aliases[1..], k - 1);
    }
  }

  /** The masks of an alias hold the algorithms of the cipher. */
  predicate Within(c: Cipher, a: Alias) {
    c.mkey in a.mkey && c.auth in a.auth && c.enc in a.enc && c.mac in a.mac
  }

  /** The minimum version before word k. */
  function VersionBefore(first: nat, aliases: seq<Alias>, k: nat): nat
    requires k <= |aliases|
  {
    if k == 0 then first else aliases[k - 1].minVersion
  }

  /** Once a word asks for a minimum version, every later one has to ask for the same. */
  ghost predicate Clash(first: nat, aliases: seq<Alias>) {
    exists k :: 0 <= k < |aliases| && VersionBefore(first, aliases, k) != 0 && aliases[k].minVersion != VersionBefore(first, aliases, k)
  }

  lemma ClashLater(first: nat, aliases: seq<Alias>)
    requires aliases != []
    ensures Clash(first, aliases) <==> (first != 0 && aliases[0].minVersion != first) || Clash(aliases[0].minVersion, aliases[1..])
  {
    var version, rest := aliases[0].minVersion, aliases[1..];
    if Clash(version, rest) {
      var k :| 0 <= k < |rest| && VersionBefore(version, rest, k) != 0 && rest[k].minVersion != VersionBefore(version, rest, k);
      assert VersionBefore(first, aliases, k + 1) == VersionBefore(version, rest, k) && aliases[k + 1] == rest[k];
    }
    if Clash(first, aliases) {
      var k :| 0 <= k < |aliases| && VersionBefore(first, aliases, k) != 0 && aliases[k].minVersion != VersionBefore(first, aliases, k);
      if k > 0 {
        assert VersionBefore(first, aliases, k) == VersionBefore(version, rest, k - 1) && aliases[k] == rest[k - 1];
      } else {
        assert VersionBefore(first, aliases, 0) == first;
      }
    }
    if first != 0 && version != first {
      assert VersionBefore(first, aliases, 0) == first;
    }
  }

  /** The selection so far and the words to come select this cipher. */
  ghost predicate Selected(sel: Selector, aliases: seq<Alias>, c: Cipher) {
    && c.mkey in sel.mkey && c.auth in sel.auth && c.enc in sel.enc && c.mac in sel.mac && c.enc != 5
    && (forall k :: 0 <= k < |aliases| ==> Within(c, aliases[k]))
    && (VersionBefore(sel.minVersion, aliases, |aliases|) != 0 ==> MinVersion(c) == VersionBefore(sel.minVersion, aliases, |aliases|))
  }

  lemma SelectedLater(sel: Selector, aliases: seq<Alias>, c: Cipher)
    requires aliases != []
    ensures var (sel', void) := Narrow(sel, aliases[0]); !void ==> (Selected(sel, aliases, c) <==> Selected(sel', aliases[1..], c))
  {
    var (sel', void) := Narrow(sel, aliases[0]);
    var rest := aliases[1..];
    assert forall k :: 0 <= k < |rest| ==> rest[k] == aliases[k + 1];
    if !void && Selected(sel', rest, c) {
      forall k | 0 <= k < |aliases| ensures Within(c, aliases[k]) {
        assert k > 0 ==> Within(c, rest[k - 1]);
      }
    }
  }

  /** One alias after another: each narrows the selection. */
  lemma {:induction false} AliasesNarrow(t: Tables, s: string, i: nat, ws: seq<string>, e: nat, aliases: seq<Alias>, strict: bool, multi: bool, sel: Selector, skip: bool)
    requires Spell(s, i, ws, e) && Mean(t, ws, aliases) && DistinctNames(t.aliases) && sel.id == 0 && sel.strength == -1
    requires multi || |ws| > 1 || NoCipherName(t, ws[0])
    ensures NarrowedTo(ParseWords(t, s, i, strict, multi, sel, skip), sel, aliases, skip, e)
    decreases |ws|
  {
    OneWord(t, s, i, ws, e, strict, multi, sel, skip);
    if !multi && |ws| == 1 {
      NoSuchCipher(t.ciphers, ws[0]);
    }
    AliasTaken(t, ws[0], aliases[0], !multi && |ws| == 1, strict, sel, skip);
    var (sel', void) := Narrow(sel, aliases[0]);
    if |ws| > 1 {
      MeanLater(t, ws, aliases);
      AliasesNarrow(t, s, i + |ws[0]| + 1, ws[1..], e, aliases[1..], strict, true, sel', skip || void);
    } else {
      NarrowedByNone(sel', skip || void, e);
      assert aliases[1..] == [];
    }
    NarrowedLater(ParseWords(t, s, i, strict, multi, sel, skip), sel, aliases, skip, e);
  }

  /** What the words have made of the selection. */
  ghost predicate NarrowedTo(w: Words, sel: Selector, aliases: seq<Alias>, skip: bool, e: nat) {
    && w.Words? && w.end == e && (w.skip <==> skip || Clash(sel.minVersion, aliases))
    && (!w.skip ==> forall c :: Selects(w.sel, c) <==> Selected(sel, aliases, c))
  }

  lemma NarrowedByNone(sel: Selector, skip: bool, e: nat)
    requires sel.id == 0 && sel.strength == -1
    ensures NarrowedTo(Words(sel, skip, e), sel, [], skip, e)
  {
  }

  lemma NarrowedLater(w: Words, sel: Selector, aliases: seq<Alias>, skip: bool, e: nat)
    requires aliases != []
    requires var (sel', void) := Narrow(sel, aliases[0]); NarrowedTo(w, sel', aliases[1..], skip || void, e)
    ensures NarrowedTo(w, sel, aliases, skip, e)
  {
    ClashLater(sel.minVersion, aliases);
    forall c | !w.skip ensures Selects(w.sel, c) <==> Selected(sel, aliases, c) { SelectedLater(sel, aliases, c); }
  }

  lemma FirstWord(s: string, i: nat, word: string)
    requires i + |word| <= |s| && s[i..i + |word|] == word && IsWord(word) && (i + |word| < |s| ==> !WordChar(s[i + |word|]))
    ensures WordEnd(s, i) == i + |word|
  {
    assert forall k :: i <= k < i + |word| ==> s[k] == s[i..i + |word|][k - i];
    WordEndsAt(s, i, i + |word|);
  }

  lemma SpellFirst(s: string, i: nat, ws: seq<string>, e: nat)
    requires Spell(s, i, ws, e)
    ensures var n := i + |ws[0]|;
            && i < n <= |s| && WordEnd(s, i) == n && s[i..n] == ws[0] && (CharAt(s, n) == '+' <==> |ws| > 1)
            && (if |ws| > 1 then n < |s| && Spell(s, n + 1, ws[1..], e) else n == e)
  {
    FirstWord(s, i, ws[0]);
  }

  /** One word of a rule that is spelt out. */
  lemma OneWord(t: Tables, s: string, i: nat, ws: seq<string>, e: nat, strict: bool, multi: bool, sel: Selector, skip: bool)
    requires Spell(s, i, ws, e)
    ensures |ws| > 1 ==> Spell(s, i + |ws[0]| + 1, ws[1..], e)
    ensures ParseWords(t, s, i, strict, multi, sel, skip) ==
            match TakeWord(t, ws[0], !multi && |ws| == 1, strict, sel, skip)
            case None => Bad
            case Some((sel', skip')) =>
              if |ws| == 1 then Words(sel', skip', e) else ParseWords(t, s, i + |ws[0]| + 1, strict, true, sel', skip')
  {
    SpellFirst(s, i, ws, e);
  }

  lemma MeanLater(t: Tables, ws: seq<string>, aliases: seq<Alias>)
    requires Mean(t, ws, aliases) && ws != []
    ensures Mean(t, ws[1..], aliases[1..])
  {
  }

  lemma AliasTaken(t: Tables, word: string, a: Alias, single: bool, strict: bool, sel: Selector, skip: bool)
    requires DistinctNames(t.aliases) && a in t.aliases && a.name == word && (single ==> FindId(t.ciphers, word) == 0)
    ensures var (sel', void) := Narrow(sel, a); TakeWord(t, word, single, strict, sel, skip) == Some((sel', skip || void))
  {
    var k :| 0 <= k < |t.aliases| && t.aliases[k] == a;
    FoundAlias(t.aliases, k);
  }

  /**
    A rule of aliases: its words stand unless their minimum versions clash, and select the
    ciphers that are within all of them, of the minimum version of the last if it has one,
    and that encrypt.
   */
  lemma AliasesSelect(t: Tables, s: string, i: nat, ws: seq<string>, e: nat, aliases: seq<Alias>, strict: bool)
    requires Spell(s, i, ws, e) && Mean(t, ws, aliases) && DistinctNames(t.aliases)
    requires |ws| == 1 ==> NoCipherName(t, ws[0])
    ensures Stands(t, s, i, strict) <==>
      !exists k :: 0 < k < |aliases| && aliases[k - 1].minVersion != 0 && aliases[k].minVersion != aliases[k - 1].minVersion
    ensures Stands(t, s, i, strict) ==> EndAt(t, s, i, strict) == e
    ensures Stands(t, s, i, strict) ==> forall c: Cipher :: c.mkey < 32 && c.auth < 32 && c.enc < 32 && c.mac < 32 ==>
      (Selects(SelectedAt(t, s, i, strict), c) <==>
       && c.enc != 5 && (forall k :: 0 <= k < |aliases| ==> Within(c, aliases[k]))
       && (aliases[|aliases| - 1].minVersion != 0 ==> MinVersion(c) == aliases[|aliases| - 1].minVersion))
  {
    AliasesNarrow(t, s, i, ws, e, aliases, strict, false, Everything(), false);
    ClashByIndex(aliases);
  }

  lemma ClashByIndex(aliases: seq<Alias>)
    ensures Clash(0, aliases) <==>
      exists k :: 0 < k < |aliases| && aliases[k - 1].minVersion != 0 && aliases[k].minVersion != aliases[k - 1].minVersion
  {
    if k :| 0 < k < |aliases| && aliases[k - 1].minVersion != 0 && aliases[k].minVersion != aliases[k - 1].minVersion {
      assert VersionBefore(0, aliases, k) == aliases[k - 1].minVersion;
    }
  }

  /** A rule of one word that is the name of a cipher selects the ciphers with the id of the first of that name. */
  lemma NameSelects(t: Tables, s: string, i: nat, word: string, e: nat, n: nat, strict: bool)
    requires Spell(s, i, [word], e) && n < |t.ciphers| && t.ciphers[n].id != 0 && Names(t.ciphers[n], word)
    requires forall k :: 0 <= k < n ==> t.ciphers[k].name != word && t.ciphers[k].standardName != word
    ensures Stands(t, s, i, strict) && EndAt(t, s, i, strict) == e
    ensures forall c :: Selects(SelectedAt(t, s, i, strict), c) <==> c.id == t.ciphers[n].id
  {
    OneWord(t, s, i, [word], e, strict, false, Everything(), false);
    FirstOfName(t.ciphers, word, n);
  }

  lemma {:induction false} FirstOfName(ciphers: seq<Cipher>, word: string, n: nat)
    requires n < |ciphers| && Names(ciphers[n], word)
    requires forall k :: 0 <= k < n ==> !Names(ciphers[k], word)
    ensures FindId(ciphers, word) == ciphers[n].id
  {
    if n > 0 {
      FirstOfName(ciphers[1..], word, n - 1);
    }
  }

  ghost predicate NoAlias(t: Tables, word: string) {
    forall k :: 0 <= k < |t.aliases| ==> t.aliases[k].name != word
  }

  /** What becomes of a rule with an unknown word. */
  ghost predicate Voided(w: Words, strict: bool, e: nat) {
    if strict then w.Bad? else w.Words? && w.end == e && w.skip
  }

  lemma UnknownTaken(t: Tables, word: string, single: bool, strict: bool, sel: Selector, skip: bool)
    requires NoAlias(t, word) && (single ==> NoCipherName(t, word))
    ensures TakeWord(t, word, single, strict, sel, skip) == if strict then None else Some((sel, true))
  {
    if single {
      NoSuchCipher(t.ciphers, word);
    }
    assert FindAlias(t.aliases, word) == |t.aliases|;
  }

  lemma UnknownFirst(t: Tables, s: string, i: nat, ws: seq<string>, e: nat, strict: bool, multi: bool, sel: Selector, skip: bool)
    requires Spell(s, i, ws, e) && NoAlias(t, ws[0])
    requires multi || |ws| > 1 || NoCipherName(t, ws[0])
    ensures Voided(ParseWords(t, s, i, strict, multi, sel, skip), strict, e)
  {
    var single := !multi && |ws| == 1;
    UnknownTaken(t, ws[0], single, strict, sel, skip);
    OneWord(t, s, i, ws, e, strict, multi, sel, skip);
    if strict {
    } else if |ws| == 1 {
      assert ParseWords(t, s, i, strict, multi, sel, skip) == Words(sel, true, e);
    } else {
      VoidStays(t, s, i + |ws[0]| + 1, ws[1..], e, strict, sel);
    }
  }

  /** A word that is no alias and does not stand alone as the name of a cipher: an error if strict, else the rule is void. */
  lemma {:induction false} UnknownWord(t: Tables, s: string, i: nat, ws: seq<string>, e: nat, n: nat, strict: bool, multi: bool, sel: Selector, skip: bool)
    requires Spell(s, i, ws, e) && n < |ws| && NoAlias(t, ws[n])
    requires multi || |ws| > 1 || NoCipherName(t, ws[0])
    ensures Voided(ParseWords(t, s, i, strict, multi, sel, skip), strict, e)
    decreases |ws|
  {
    if n == 0 {
      UnknownFirst(t, s, i, ws, e, strict, multi, sel, skip);
    } else {
      OneWord(t, s, i, ws, e, strict, multi, sel, skip);
      WordsLater(ws, n);
      match TakeWord(t, ws[0], false, strict, sel, skip)
      case None =>
      case Some((sel', skip')) => UnknownWord(t, s, i + |ws[0]| + 1, ws[1..], e, n - 1, strict, true, sel', skip');
    }
  }

  lemma WordsLater(ws: seq<string>, n: nat)
    requires 0 < n < |ws|
    ensures ws[1..][n - 1] == ws[n]
  {
  }

  /** A void rule is read to its end. */
  lemma {:induction false} VoidStays(t: Tables, s: string, i: nat, ws: seq<string>, e: nat, strict: bool, sel: Selector)
    requires Spell(s, i, ws, e) && !strict
    ensures Voided(ParseWords(t, s, i, strict, true, sel, true), strict, e)
    decreases |ws|
  {
    OneWord(t, s, i, ws, e, strict, true, sel, true);
    if |ws| > 1 {
      VoidStays(t, s, i + |ws[0]| + 1, ws[1..], e, strict, TakeWord(t, ws[0], false, strict, sel, true).value.0);
    }
  }

  /** A void rule without an operator changes nothing, */
  lemma VoidWords(t: Tables, s: string, i: nat, strict: bool, inGroup: bool, hasGroup: bool, l: seq<Entry>)
    requires i < |s| && Alphanumeric(s[i])
    requires var w := ParseWords(t, s, i, strict, false, Everything(), false); w.Words? && w.skip
    ensures Continues(t, s, strict, inGroup, hasGroup, i, l, ParseWords(t, s, i, strict, false, Everything(), false).end, l)
  {
    if !inGroup {
      NoOperator(s, i, strict);
    }
    RuleMeaning(t, s, i, strict, inGroup, hasGroup, l);
  }

  /** nor does one with an operator. */
  lemma VoidRule(t: Tables, s: string, i: nat, strict: bool, l: seq<Entry>)
    requires i < |s| && s[i] in "-+!"
    requires var w := ParseWords(t, s, i + 1, strict, false, Everything(), false); w.Words? && w.skip
    ensures Continues(t, s, strict, false, false, i, l, ParseWords(t, s, i + 1, strict, false, Everything(), false).end, l)
  {
    RuleMeaning(t, s, i, strict, false, false, l);
  }
}
