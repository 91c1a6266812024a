/**
  The list that the cipher rules of ssl_cipher.cc rearrange: values first, then the doubly
  linked list of CIPHER_ORDER nodes that the code edits in place.

  A cipher has one key exchange, authentication, encryption and MAC algorithm, each given by
  its bit number; bit masks are sets of bit numbers.
 */
module CipherList {
  type Mask = set<nat>

  const K_RSA := 0
  const K_ECDHE := 1
  const K_PSK := 2
  const K_GENERIC := 3
  const A_RSA := 0
  const A_ECDSA := 1
  const A_PSK := 2
  const A_GENERIC := 3
  const E_3DES := 0
  const E_AES128 := 1
  const E_AES256 := 2
  const E_AES128GCM := 3
  const E_AES256GCM := 4
  const E_NULL := 5
  const E_CHACHA20POLY1305 := 6
  const SSL3_VERSION := 0x300
  const TLS1_2_VERSION := 0x303
  const TLS1_3_VERSION := 0x304

  /** The mask ~0u. */
  function AllBits(): Mask {
    Below(32)
  }

  function Below(n: nat): (m: Mask)
    ensures forall b: nat :: b in m <==> b < n
  {
    if n == 0 then {} else Below(n - 1) + {n - 1}
  }

  datatype Cipher = Cipher(name: string, standardName: string, id: nat, mkey: nat, auth: nat, enc: nat, mac: nat, defaultPrf: bool)

  /** SSL_CIPHER_get_bits. */
  function Strength(c: Cipher): nat {
    if c.enc == E_AES128 || c.enc == E_AES128GCM then 128
    else if c.enc == E_AES256 || c.enc == E_AES256GCM || c.enc == E_CHACHA20POLY1305 then 256
    else if c.enc == E_3DES then 112
    else 0
  }

  predicate Generic(c: Cipher) {
    c.mkey == K_GENERIC || c.auth == A_GENERIC
  }

  /** SSL_CIPHER_get_min_version. */
  function MinVersion(c: Cipher): nat {
    if Generic(c) then TLS1_3_VERSION else if !c.defaultPrf then TLS1_2_VERSION else SSL3_VERSION
  }

  /** SSL_CIPHER_get_max_version. */
  function MaxVersion(c: Cipher): nat {
    if Generic(c) then TLS1_3_VERSION else TLS1_2_VERSION
  }

  datatype Entry = Entry(cipher: Cipher, active: bool, inGroup: bool)

  /** The arguments of ssl_cipher_apply_rule that select ciphers; strength -1 stands for none. */
  datatype Selector = Selector(id: nat, mkey: Mask, auth: Mask, enc: Mask, mac: Mask, minVersion: nat, strength: int)

  predicate Selects(s: Selector, c: Cipher) {
    if s.id != 0 then s.id == c.id
    else if s.strength >= 0 then s.strength == Strength(c)
    else
      && c.mkey in s.mkey && c.auth in s.auth && c.enc in s.enc && c.mac in s.mac
      && (s.minVersion != 0 ==> MinVersion(c) == s.minVersion)
      && c.enc != E_NULL
  }

  datatype Rule = Add(inGroup: bool) | Kill | Delete | ToEnd

  // ----- rules on sequences -----

  /** The entries a rule acts on, */
  predicate Affects(r: Rule, s: Selector, e: Entry) {
    Selects(s, e.cipher) &&
    match r
    case Add(_) => !e.active
    case ToEnd => e.active
    case Delete => e.active
    case Kill => true
  }

  /** and what it makes of them. */
  function Changed(r: Rule, e: Entry): Entry {
    match r
    case Add(g) => Entry(e.cipher, true, g)
    case ToEnd => Entry(e.cipher, e.active, false)
    case Delete => Entry(e.cipher, false, false)
    case Kill => Entry(e.cipher, false, e.inGroup)
  }

  function Others(r: Rule, s: Selector, l: seq<Entry>): seq<Entry> {
    if l == [] then [] else if Affects(r, s, l[0]) then Others(r, s, l[1..]) else [l[0]] + Others(r, s, l[1..])
  }

  function Moved(r: Rule, s: Selector, l: seq<Entry>): seq<Entry> {
    if l == [] then [] else if Affects(r, s, l[0]) then [Changed(r, l[0])] + Moved(r, s, l[1..]) else Moved(r, s, l[1..])
  }

  /** A rule is a stable partition: the affected entries go to the back, to the front, or away. */
  function Apply(r: Rule, s: Selector, l: seq<Entry>): seq<Entry> {
    match r
    case Add(_) => Others(r, s, l) + Moved(r, s, l)
    case ToEnd => Others(r, s, l) + Moved(r, s, l)
    case Delete => Moved(r, s, l) + Others(r, s, l)
    case Kill => Others(r, s, l)
  }

  /** No inactive entry follows an active one. */
  predicate ActiveLast(l: seq<Entry>) {
    forall i, j :: 0 <= i < j < |l| && l[i].active ==> l[j].active
  }

  predicate AllActive(l: seq<Entry>, active: bool) {
    forall i :: 0 <= i < |l| ==> l[i].active == active
  }

  lemma {:induction false} OthersActiveLast(r: Rule, s: Selector, l: seq<Entry>)
    requires ActiveLast(l)
    ensures ActiveLast(Others(r, s, l))
    ensures AllActive(l, true) ==> AllActive(Others(r, s, l), true)
  {
    if l != [] {
      var rest := l[1..];
      assert forall i, j :: 0 <= i < j < |rest| && rest[i].active ==> rest[j].active by {
        assert forall i :: 0 <= i < |rest| ==> rest[i] == l[i + 1];
      }
      OthersActiveLast(r, s, rest);
      if l[0].active {
        assert AllActive(rest, true);
      }
    }
  }

  lemma {:induction false} MovedActive(r: Rule, s: Selector, l: seq<Entry>)
    ensures AllActive(Moved(r, s, l), r.Add? || r.ToEnd?)
  {
    if l != [] {
      MovedActive(r, s, l[1..]);
    }
  }

  /** Every rule keeps the active ciphers at the back of the list. */
  lemma ApplyActiveLast(r: Rule, s: Selector, l: seq<Entry>)
    requires ActiveLast(l)
    ensures ActiveLast(Apply(r, s, l))
  {
    OthersActiveLast(r, s, l);
    MovedActive(r, s, l);
  }

  lemma {:induction false} NothingSelected(r: Rule, s: Selector, l: seq<Entry>)
    requires forall i :: 0 <= i < |l| ==> !Affects(r, s, l[i])
    ensures Apply(r, s, l) == l && Others(r, s, l) == l && Moved(r, s, l) == []
  {
    if l != [] {
      NothingSelected(r, s, l[1..]);
    }
  }

  // ----- the doubly linked list -----

  /** CIPHER_ORDER. */
  class Node {
    const cipher: Cipher
    var active: bool
    var inGroup: bool
    var next: Node?
    var prev: Node?

    constructor (cipher: Cipher)
      ensures this.cipher == cipher && !active && !inGroup && next == null && prev == null
    {
      this.cipher := cipher;
      active, inGroup, next, prev := false, false, null, null;
    }

    function Value(): Entry
      reads this`active, this`inGroup
    {
      Entry(cipher, active, inGroup)
    }
  }

  function Values(nodes: seq<Node>): (v: seq<Entry>)
    reads nodes
    ensures |v| == |nodes| && forall i :: 0 <= i < |nodes| ==> v[i] == nodes[i].Value()
  {
    seq(|nodes|, i requires 0 <= i < |nodes| reads nodes => nodes[i].Value())
  }

  predicate Differ(s: seq<Node>, i: int, j: int)
    requires 0 <= i < j < |s|
  {
    s[i] != s[j]
  }

  /** The trigger keeps the number of compared pairs small: Apart asks for them. */
  predicate Distinct(s: seq<Node>) {
    forall i, j {:trigger Differ(s, i, j)} :: 0 <= i < j < |s| ==> Differ(s, i, j)
  }

  lemma Apart(s: seq<Node>, i: nat)
    requires Distinct(s) && i < |s|
    ensures forall j :: 0 <= j < |s| && j != i ==> s[j] != s[i]
  {
    forall j | 0 <= j < |s| && j != i
      ensures s[j] != s[i]
    {
      assert if j < i then Differ(s, j, i) else Differ(s, i, j);
    }
  }

  function Without(s: seq<Node>, i: nat): (t: seq<Node>)
    requires i < |s|
    ensures |t| == |s| - 1 && forall j :: 0 <= j < |t| ==> t[j] == if j < i then s[j] else s[j + 1]
  {
    s[..i] + s[i + 1..]
  }

  lemma DistinctWithout(s: seq<Node>, i: nat)
    requires Distinct(s) && i < |s|
    ensures Distinct(Without(s, i)) && forall j :: 0 <= j < |s| - 1 ==> Without(s, i)[j] != s[i]
  {
    var t := Without(s, i);
    forall a, b | 0 <= a < b < |t|
      ensures Differ(t, a, b)
    {
      assert Differ(s, if a < i then a else a + 1, if b < i then b else b + 1);
    }
    Apart(s, i);
  }

  lemma DistinctExtended(s: seq<Node>, n: Node)
    requires Distinct(s) && forall j :: 0 <= j < |s| ==> s[j] != n
    ensures Distinct(s + [n]) && Distinct([n] + s)
  {
    forall a, b | 0 <= a < b < |s| + 1
      ensures Differ(s + [n], a, b)
    {
      assert b < |s| ==> Differ(s, a, b);
    }
    forall a, b | 0 <= a < b < |s| + 1
      ensures Differ([n] + s, a, b)
    {
      assert a > 0 ==> Differ(s, a - 1, b - 1);
    }
  }

  function At(nodes: seq<Node>, i: int): Node? {
    if 0 <= i < |nodes| then nodes[i] else null
  }

  /** The links follow the sequence. */
  predicate Chained(nodes: seq<Node>)
    reads nodes
  {
    && (forall i {:trigger nodes[i].next} :: 0 <= i < |nodes| ==> nodes[i].next == At(nodes, i + 1))
    && (forall i {:trigger nodes[i].prev} :: 0 <= i < |nodes| ==> nodes[i].prev == At(nodes, i - 1))
  }

  /** The elements of s whose flag is `want`. */
  ghost function Pick(s: seq<Node>, flags: seq<bool>, want: bool): seq<Node>
    requires |s| == |flags|
  {
    if s == [] then [] else if flags[0] == want then [s[0]] + Pick(s[1..], flags[1..], want) else Pick(s[1..], flags[1..], want)
  }

  /** Nodes hold what a rule makes of their old values. */
  ghost predicate Hold(s: seq<Node>, r: Rule, l: seq<Entry>, flags: seq<bool>)
    requires |s| == |flags| == |l|
    reads s
  {
    forall i :: 0 <= i < |s| ==> s[i].Value() == if flags[i] then Changed(r, l[i]) else l[i]
  }

  /** The same for the first p elements. */
  ghost function PickTo(s: seq<Node>, flags: seq<bool>, want: bool, p: nat): seq<Node>
    requires |s| == |flags| && p <= |s|
  {
    if p == 0 then [] else if flags[p - 1] == want then PickTo(s, flags, want, p - 1) + [s[p - 1]] else PickTo(s, flags, want, p - 1)
  }

  lemma PickNext(s: seq<Node>, flags: seq<bool>, want: bool, p: nat)
    requires |s| == |flags| && p < |s|
    ensures Pick(s[p..], flags[p..], want) ==
            if flags[p] == want then [s[p]] + Pick(s[p + 1..], flags[p + 1..], want) else Pick(s[p + 1..], flags[p + 1..], want)
  {
    assert s[p..][1..] == s[p + 1..] && flags[p..][1..] == flags[p + 1..];
  }

  /** The picked nodes hold what the rule makes of the list. */
  lemma {:induction false} PickedValues(s: seq<Node>, flags: seq<bool>, r: Rule, sel: Selector, l: seq<Entry>)
    requires |s| == |flags| == |l|
    requires forall i :: 0 <= i < |s| ==> flags[i] == Affects(r, sel, l[i])
    requires Hold(s, r, l, flags)
    ensures Values(Pick(s, flags, false)) == Others(r, sel, l)
    ensures Values(Pick(s, flags, true)) == Moved(r, sel, l)
  {
    if s != [] {
      PickedValues(s[1..], flags[1..], r, sel, l[1..]);
      ValuesCons(s[0], Pick(s[1..], flags[1..], flags[0]));
    }
  }

  lemma ValuesCons(n: Node, s: seq<Node>)
    ensures Values([n] + s) == [n.Value()] + Values(s)
  {
  }

  lemma ValuesSnoc(s: seq<Node>, n: Node)
    ensures Values(s + [n]) == Values(s) + [n.Value()]
  {
  }

  lemma ValuesConcat(a: seq<Node>, b: seq<Node>)
    ensures Values(a + b) == Values(a) + Values(b)
  {
  }

  /** The list after a sweep over the first p nodes: those left alone, those not yet visited, those moved. */
  ghost function Layout(r: Rule, all: seq<Node>, flags: seq<bool>, p: nat): seq<Node>
    requires |all| == |flags| && p <= |all|
  {
    PickTo(all, flags, false, p) + all[p..] + if r.Kill? then [] else PickTo(all, flags, true, p)
  }

  /** The trigger keeps the layouts out of the loop that goes through them. */
  ghost predicate Planned(r: Rule, all: seq<Node>, flags: seq<bool>, plan: seq<seq<Node>>)
    requires |all| == |flags|
  {
    |plan| == |all| + 1 && forall q {:trigger Layout(r, all, flags, q)} :: 0 <= q <= |all| ==> plan[q] == Layout(r, all, flags, q)
  }

  ghost function Plan(r: Rule, all: seq<Node>, flags: seq<bool>): (plan: seq<seq<Node>>)
    requires |all| == |flags|
    ensures Planned(r, all, flags, plan) && plan[0] == all
  {
    assert Layout(r, all, flags, 0) == all;
    seq(|all| + 1, q requires 0 <= q <= |all| => Layout(r, all, flags, q))
  }

  ghost function Flags(r: Rule, s: Selector, l: seq<Entry>): (flags: seq<bool>)
    ensures |flags| == |l| && forall i :: 0 <= i < |l| ==> flags[i] == Affects(r, s, l[i])
  {
    seq(|l|, i requires 0 <= i < |l| => Affects(r, s, l[i]))
  }

  lemma {:induction false} OthersSnoc(r: Rule, s: Selector, l: seq<Entry>, e: Entry)
    ensures Others(r, s, l + [e]) == if Affects(r, s, e) then Others(r, s, l) else Others(r, s, l) + [e]
    ensures Moved(r, s, l + [e]) == if Affects(r, s, e) then Moved(r, s, l) + [Changed(r, e)] else Moved(r, s, l)
  {
    if l == [] {
      assert l + [e] == [e] && [e][1..] == [];
    } else {
      OthersSnoc(r, s, l[1..], e);
      assert (l + [e])[1..] == l[1..] + [e];
    }
  }

  /** What the picked nodes hold. */
  lemma {:induction false} PickToValues(r: Rule, sel: Selector, s: seq<Node>, flags: seq<bool>, l: seq<Entry>, p: nat)
    requires |s| == |flags| == |l| && p <= |s| && flags == Flags(r, sel, l) && Hold(s, r, l, flags)
    ensures Values(PickTo(s, flags, false, p)) == Others(r, sel, l[..p])
    ensures Values(PickTo(s, flags, true, p)) == Moved(r, sel, l[..p])
  {
    if p > 0 {
      PickToValues(r, sel, s, flags, l, p - 1);
      assert l[..p] == l[..p - 1] + [l[p - 1]];
      OthersSnoc(r, sel, l[..p - 1], l[p - 1]);
      ValuesSnoc(PickTo(s, flags, flags[p - 1], p - 1), s[p - 1]);
    }
  }

  /** The list after a whole sweep is what the rule makes of the list before it. */
  lemma PlanValues(r: Rule, s: Selector, all: seq<Node>, flags: seq<bool>, plan: seq<seq<Node>>, l: seq<Entry>)
    requires |all| == |flags| == |l| && !r.Delete? && flags == Flags(r, s, l) && Hold(all, r, l, flags) && Planned(r, all, flags, plan)
    ensures Values(plan[|all|]) == Apply(r, s, l)
  {
    assert plan[|all|] == Layout(r, all, flags, |all|);
    PickToValues(r, s, all, flags, l, |all|);
    assert l[..|all|] == l;
    var kept, moved := PickTo(all, flags, false, |all|), PickTo(all, flags, true, |all|);
    assert Layout(r, all, flags, |all|) == if r.Kill? then kept else kept + moved;
    ValuesConcat(kept, moved);
  }

  /** The list after a backward sweep that has come down to position p. */
  ghost function BackLayout(all: seq<Node>, flags: seq<bool>, p: nat): seq<Node>
    requires |all| == |flags| && p <= |all|
  {
    Pick(all[p..], flags[p..], true) + all[..p] + Pick(all[p..], flags[p..], false)
  }

  ghost predicate BackPlanned(all: seq<Node>, flags: seq<bool>, plan: seq<seq<Node>>)
    requires |all| == |flags|
  {
    |plan| == |all| + 1 && forall q {:trigger BackLayout(all, flags, q)} :: 0 <= q <= |all| ==> plan[q] == BackLayout(all, flags, q)
  }

  ghost function BackPlan(all: seq<Node>, flags: seq<bool>): (plan: seq<seq<Node>>)
    requires |all| == |flags|
    ensures BackPlanned(all, flags, plan) && plan[|all|] == all
  {
    assert all[|all|..] == [] && BackLayout(all, flags, |all|) == all;
    seq(|all| + 1, q requires 0 <= q <= |all| => BackLayout(all, flags, q))
  }

  lemma BackPlanValues(s: Selector, all: seq<Node>, flags: seq<bool>, plan: seq<seq<Node>>, l: seq<Entry>)
    requires |all| == |flags| == |l| && flags == Flags(Delete, s, l) && Hold(all, Delete, l, flags) && BackPlanned(all, flags, plan)
    ensures Values(plan[0]) == Apply(Delete, s, l)
  {
    PickedValues(all, flags, Delete, s, l);
    ValuesConcat(Pick(all, flags, true), Pick(all, flags, false));
    assert all[0..] == all && flags[0..] == flags && plan[0] == BackLayout(all, flags, 0);
    assert plan[0] == Pick(all, flags, true) + Pick(all, flags, false);
  }

  lemma BackPlanNext(all: seq<Node>, flags: seq<bool>, plan: seq<seq<Node>>, p: nat) returns (k: nat)
    requires |all| == |flags| && p < |all| && BackPlanned(all, flags, plan)
    ensures k < |plan[p + 1]| && plan[p + 1][k] == all[p] && (p > 0 ==> k > 0 && plan[p + 1][k - 1] == all[p - 1])
    ensures plan[p] == if flags[p] then Placed(Delete, plan[p + 1], k) else plan[p + 1]
  {
    PickNext(all, flags, true, p);
    PickNext(all, flags, false, p);
    assert plan[p] == BackLayout(all, flags, p) && plan[p + 1] == BackLayout(all, flags, p + 1);
    var moved, kept, x := Pick(all[p + 1..], flags[p + 1..], true), Pick(all[p + 1..], flags[p + 1..], false), all[p];
    k := |moved| + p;
    assert all[..p + 1] == all[..p] + [x];
    MoveAhead(moved, all[..p], x, kept);
    if flags[p] {
      assert plan[p] == ([x] + moved) + all[..p] + kept;
    } else {
      assert plan[p] == moved + all[..p] + ([x] + kept);
    }
  }

  lemma TakeOut(a: seq<Node>, x: Node, b: seq<Node>)
    ensures Without(a + ([x] + b), |a|) == a + b
  {
    var t := a + ([x] + b);
    assert t[..|a|] == a && t[|a| + 1..] == b;
  }

  lemma MoveAhead(a: seq<Node>, b: seq<Node>, x: Node, c: seq<Node>)
    ensures var now := a + (b + [x]) + c;
            && now[|a| + |b|] == x && now == a + b + ([x] + c)
            && [x] + Without(now, |a| + |b|) == ([x] + a) + b + c
  {
    var now := a + (b + [x]) + c;
    assert now == (a + b) + ([x] + c);
    TakeOut(a + b, x, c);
    assert [x] + (a + b + c) == ([x] + a) + b + c;
  }

  lemma MoveBehind(a: seq<Node>, x: Node, b: seq<Node>, c: seq<Node>)
    ensures var now := a + ([x] + b) + c;
            && now[|a|] == x && now == (a + [x]) + b + c
            && Without(now, |a|) == a + b + c && Without(now, |a|) + [x] == a + b + (c + [x])
  {
    var now := a + ([x] + b) + c;
    assert now == a + ([x] + (b + c));
    TakeOut(a, x, b + c);
    assert a + (b + c) == a + b + c;
    assert (a + b + c) + [x] == a + b + (c + [x]);
  }

  lemma PlanNext(r: Rule, all: seq<Node>, flags: seq<bool>, plan: seq<seq<Node>>, p: nat) returns (k: nat)
    requires |all| == |flags| && p < |all| && !r.Delete? && Planned(r, all, flags, plan)
    ensures k < |plan[p]| && plan[p][k] == all[p] && (p + 1 < |all| ==> k + 1 < |plan[p]| && plan[p][k + 1] == all[p + 1])
    ensures plan[p + 1] == if flags[p] then Placed(r, plan[p], k) else plan[p]
  {
    assert plan[p] == Layout(r, all, flags, p) && plan[p + 1] == Layout(r, all, flags, p + 1);
    var kept, moved := PickTo(all, flags, false, p), if r.Kill? then [] else PickTo(all, flags, true, p);
    k := |kept|;
    var x := all[p];
    assert all[p..] == [x] + all[p + 1..];
    MoveBehind(kept, x, all[p + 1..], moved);
    if flags[p] {
      assert plan[p + 1] == kept + all[p + 1..] + if r.Kill? then moved else moved + [x];
    } else {
      assert plan[p + 1] == (kept + [x]) + all[p + 1..] + moved;
    }
  }

  /** Where a rule puts the node at position i. */
  ghost function Placed(r: Rule, nodes: seq<Node>, i: nat): seq<Node>
    requires i < |nodes|
  {
    var rest := Without(nodes, i);
    match r
    case Add(_) => rest + [nodes[i]]
    case ToEnd => rest + [nodes[i]]
    case Delete => [nodes[i]] + rest
    case Kill => rest
  }

  class Order {
    var head: Node?
    var tail: Node?
    ghost var nodes: seq<Node>
    ghost const repr: set<Node>

    ghost predicate Valid()
      reads this, repr
    {
      && (forall i :: 0 <= i < |nodes| ==> nodes[i] in repr)
      && Distinct(nodes) && Chained(nodes)
      && head == At(nodes, 0)
      && tail == At(nodes, |nodes| - 1)
    }

    ghost function Entries(): seq<Entry>
      requires Valid()
      reads this, repr
    {
      Values(nodes)
    }

    /** The linking loop of ssl_cipher_collect_ciphers. */
    constructor (all: seq<Node>)
      requires Distinct(all)
      modifies set n | n in all
      ensures Valid() && nodes == all && repr == set n | n in all
      ensures forall i :: 0 <= i < |all| ==> all[i].Value() == old(all[i].Value())
    {
      repr := set n | n in all;
      nodes := all;
      head, tail := At(all, 0), At(all, |all| - 1);
      new;
      var i: nat := 0;
      while i < |all|
        invariant i <= |all| && nodes == all && head == At(all, 0) && tail == At(all, |all| - 1)
        invariant forall j {:trigger all[j].next} :: 0 <= j < i ==> all[j].next == At(all, j + 1)
        invariant forall j {:trigger all[j].prev} :: 0 <= j < i ==> all[j].prev == At(all, j - 1)
        invariant forall j :: 0 <= j < |all| ==> all[j].Value() == old(all[j].Value())
      {
        Apart(all, i);
        all[i].prev, all[i].next := At(all, i - 1), At(all, i + 1);
        i := i + 1;
      }
    }

    /** Takes a node out of the chain. */
    method Detach(curr: Node, ghost i: nat)
      requires Valid() && i < |nodes| && nodes[i] == curr
      modifies this, repr`next, repr`prev
      ensures Valid() && nodes == Without(old(nodes), i) && forall j :: 0 <= j < |nodes| ==> nodes[j] != curr
    {
      DistinctWithout(nodes, i);
      Apart(nodes, i);
      assert (curr == head) == (i == 0) && (curr == tail) == (i + 1 == |nodes|);
      assert curr.next == At(nodes, i + 1) && curr.prev == At(nodes, i - 1);
      if 0 < i {
        Apart(nodes, i - 1);
      }
      if i + 1 < |nodes| {
        Apart(nodes, i + 1);
      }
      if curr == head {
        head := curr.next;
      }
      if curr == tail {
        tail := curr.prev;
      }
      if curr.prev != null {
        curr.prev.next := curr.next;
      }
      if curr.next != null {
        curr.next.prev := curr.prev;
      }
      ghost var was := nodes;
      nodes := Without(nodes, i);
      assert head == At(nodes, 0) && tail == At(nodes, |nodes| - 1);
      assert forall j :: 0 <= j < |nodes| ==> nodes[j] in repr;
      forall j | 0 <= j < |nodes|
        ensures nodes[j].next == At(nodes, j + 1) && nodes[j].prev == At(nodes, j - 1)
      {
        var m := if j < i then j else j + 1;
        assert nodes[j] == was[m] && m != i;
        assert m != i - 1 ==> was[m].next == old(was[m].next);
        assert m != i + 1 ==> was[m].prev == old(was[m].prev);
      }
    }

    /** ll_append_tail. */
    method AppendTail(curr: Node, ghost i: nat)
      requires Valid() && i < |nodes| && nodes[i] == curr
      modifies this, repr`next, repr`prev
      ensures Valid() && nodes == Without(old(nodes), i) + [curr]
    {
      Apart(nodes, i);
      if curr == tail {
        return;
      }
      Detach(curr, i);
      LinkBehind(curr);
    }

    method LinkBehind(curr: Node)
      requires Valid() && nodes != [] && curr in repr && forall j :: 0 <= j < |nodes| ==> nodes[j] != curr
      modifies this, repr`next, repr`prev
      ensures Valid() && nodes == old(nodes) + [curr]
    {
      Apart(nodes, |nodes| - 1);
      DistinctExtended(nodes, curr);
      tail.next := curr;
      curr.prev := tail;
      curr.next := null;
      tail := curr;
      nodes := nodes + [curr];
    }

    /** ll_append_head. */
    method AppendHead(curr: Node, ghost i: nat)
      requires Valid() && i < |nodes| && nodes[i] == curr
      modifies this, repr`next, repr`prev
      ensures Valid() && nodes == [curr] + Without(old(nodes), i)
    {
      Apart(nodes, i);
      if curr == head {
        return;
      }
      Detach(curr, i);
      LinkBefore(curr);
    }

    method LinkBefore(curr: Node)
      requires Valid() && nodes != [] && curr in repr && forall j :: 0 <= j < |nodes| ==> nodes[j] != curr
      modifies this, repr`next, repr`prev
      ensures Valid() && nodes == [curr] + old(nodes)
    {
      Apart(nodes, 0);
      DistinctExtended(nodes, curr);
      head.prev := curr;
      curr.next := head;
      curr.prev := null;
      head := curr;
      nodes := [curr] + nodes;
    }

    /** The steps of CIPHER_KILL. */
    method Remove(curr: Node, ghost i: nat)
      requires Valid() && i < |nodes| && nodes[i] == curr
      modifies this, repr`next, repr`prev, curr`active
      ensures Valid() && nodes == Without(old(nodes), i) && !curr.active
    {
      curr.active := false;
      Detach(curr, i);
      curr.next := null;
      curr.prev := null;
    }

    /** What a rule does to one node of the list. */
    method ApplyTo(curr: Node, r: Rule, s: Selector, ghost i: nat)
      requires Valid() && i < |nodes| && nodes[i] == curr
      modifies this, repr`next, repr`prev, curr`active, curr`inGroup
      ensures Valid()
      ensures if old(Affects(r, s, curr.Value())) then nodes == old(Placed(r, nodes, i)) && curr.Value() == Changed(r, old(curr.Value()))
              else nodes == old(nodes) && curr.Value() == old(curr.Value())
    {
      if !Selects(s, curr.cipher) {
        return;
      }
      match r {
        case Add(group) =>
          if !curr.active {
            AppendTail(curr, i);
            curr.active, curr.inGroup := true, group;
          }
        case ToEnd =>
          if curr.active {
            AppendTail(curr, i);
            curr.inGroup := false;
          }
        case Delete =>
          if curr.active {
            AppendHead(curr, i);
            curr.active, curr.inGroup := false, false;
          }
        case Kill =>
          Remove(curr, i);
      }
    }

    /** One turn of the loop of ssl_cipher_apply_rule; `next` is read before the node is moved. */
    method VisitForward(r: Rule, s: Selector, curr: Node, ghost all: seq<Node>, ghost flags: seq<bool>, ghost plan: seq<seq<Node>>, ghost p: nat)
      returns (next: Node?)
      requires Valid() && !r.Delete? && |flags| == |all| && p < |all| && curr == all[p] && flags[p] == Affects(r, s, curr.Value())
      requires Planned(r, all, flags, plan) && nodes == plan[p]
      modifies this, repr`next, repr`prev, curr`active, curr`inGroup
      ensures Valid() && nodes == plan[p + 1] && (p + 1 < |all| ==> next == all[p + 1])
      ensures curr.Value() == if flags[p] then Changed(r, old(curr.Value())) else old(curr.Value())
    {
      ghost var k := PlanNext(r, all, flags, plan, p);
      next := curr.next;
      ApplyTo(curr, r, s, k);
    }

    /** The loop from head to tail, for all rules but DEL. */
    method SweepForward(r: Rule, s: Selector, ghost l: seq<Entry>, ghost flags: seq<bool>, ghost plan: seq<seq<Node>>)
      requires Valid() && !r.Delete? && |l| == |flags| == |nodes| && Planned(r, nodes, flags, plan) && nodes == plan[0]
      requires l == Entries() && flags == Flags(r, s, l)
      modifies this, repr
      ensures Valid() && nodes == plan[|l|] && Hold(old(nodes), r, l, flags)
    {
      ghost var all, p: nat := nodes, 0;
      var curr: Node?, next, last := null, head, tail;
      while curr != last
        invariant Valid() && Distinct(all) && p <= |all| && curr == At(all, p - 1) && last == At(all, |all| - 1)
        invariant (p < |all| ==> next == all[p]) && nodes == plan[p]
        invariant forall i :: 0 <= i < |all| ==> all[i] in repr && all[i].Value() == if i < p && flags[i] then Changed(r, l[i]) else l[i]
        decreases |all| - p
      {
        var node: Node := next;
        curr := node;
        Apart(all, p);
        next := VisitForward(r, s, node, all, flags, plan, p);
        p := p + 1;
      }
      assert p == |all| by {
        if 0 < p < |all| {
          Apart(all, p - 1);
        }
      }
    }

    method ApplyForward(r: Rule, s: Selector)
      requires Valid() && !r.Delete?
      modifies this, repr
      ensures Valid() && Entries() == Apply(r, s, old(Entries()))
    {
      ghost var all, l := nodes, Entries();
      ghost var flags := Flags(r, s, l);
      ghost var plan := Plan(r, all, flags);
      SweepForward(r, s, l, flags, plan);
      PlanValues(r, s, all, flags, plan, l);
    }

    /** One turn of the loop backward. */
    method VisitBackward(s: Selector, curr: Node, ghost all: seq<Node>, ghost flags: seq<bool>, ghost plan: seq<seq<Node>>, ghost p: nat)
      returns (next: Node?)
      requires Valid() && |flags| == |all| && p < |all| && curr == all[p] && flags[p] == Affects(Delete, s, curr.Value())
      requires BackPlanned(all, flags, plan) && nodes == plan[p + 1]
      modifies this, repr`next, repr`prev, curr`active, curr`inGroup
      ensures Valid() && nodes == plan[p] && (p > 0 ==> next == all[p - 1])
      ensures curr.Value() == if flags[p] then Changed(Delete, old(curr.Value())) else old(curr.Value())
    {
      ghost var k := BackPlanNext(all, flags, plan, p);
      next := curr.prev;
      ApplyTo(curr, Delete, s, k);
    }

    /** The same loop from tail to head, for DEL. */
    method SweepBackward(s: Selector, ghost l: seq<Entry>, ghost flags: seq<bool>, ghost plan: seq<seq<Node>>)
      requires Valid() && |l| == |flags| == |nodes| && BackPlanned(nodes, flags, plan) && nodes == plan[|nodes|]
      requires l == Entries() && flags == Flags(Delete, s, l)
      modifies this, repr
      ensures Valid() && nodes == plan[0] && Hold(old(nodes), Delete, l, flags)
    {
      ghost var all, p: nat := nodes, |nodes|;
      var curr: Node?, next, last := null, tail, head;
      while curr != last
        invariant Valid() && Distinct(all) && p <= |all| && curr == At(all, p) && last == At(all, 0)
        invariant (p > 0 ==> next == all[p - 1]) && nodes == plan[p]
        invariant forall i :: 0 <= i < |all| ==> all[i] in repr && all[i].Value() == if i >= p && flags[i] then Changed(Delete, l[i]) else l[i]
        decreases p
      {
        var node: Node := next;
        curr := node;
        p := p - 1;
        Apart(all, p);
        next := VisitBackward(s, node, all, flags, plan, p);
      }
      assert p == 0 by {
        if 0 < p < |all| {
          Apart(all, p);
        }
      }
    }

    method ApplyBackward(s: Selector)
      requires Valid()
      modifies this, repr
      ensures Valid() && Entries() == Apply(Delete, s, old(Entries()))
    {
      ghost var all, l := nodes, Entries();
      ghost var flags := Flags(Delete, s, l);
      ghost var plan := BackPlan(all, flags);
      SweepBackward(s, l, flags, plan);
      BackPlanValues(s, all, flags, plan, l);
    }

    /** ssl_cipher_apply_rule: a stable partition of the list; a rule that matches nothing is left out. */
    method ApplyRule(r: Rule, s: Selector)
      requires Valid()
      modifies this, repr
      ensures Valid() && Entries() == Apply(r, s, old(Entries()))
    {
      if s.id == 0 && s.strength == -1 && s.minVersion == 0 && (s.mkey == {} || s.auth == {} || s.enc == {} || s.mac == {}) {
        NothingSelected(r, s, Entries());
        return;
      }
      if r.Delete? {
        ApplyBackward(s);
      } else {
        ApplyForward(r, s);
      }
    }
  }
}
