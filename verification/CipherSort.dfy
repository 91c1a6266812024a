/**
  The strength sort of the cipher rules (ssl_cipher_strength_sort): it moves the active
  ciphers of each strength to the back of the list, strongest first, and thereby sorts
  them stably.
 */
module CipherSort {
  import opened CipherList

  function OfStrength(b: int): Selector {
    Selector(0, {}, {}, {}, {}, 0, b)
  }

  /** The active ciphers of one strength, in list order. */
  function Band(l: seq<Entry>, b: nat): seq<Entry> {
    Moved(ToEnd, OfStrength(b), l)
  }

  /** The inactive ciphers, in list order. */
  function Idle(l: seq<Entry>): seq<Entry> {
    if l == [] then [] else if l[0].active then Idle(l[1..]) else [l[0]] + Idle(l[1..])
  }

  function MaxStrength(l: seq<Entry>): (m: nat)
    ensures forall i :: 0 <= i < |l| && l[i].active ==> Strength(l[i].cipher) <= m
  {
    if l == [] then 0
    else
      var m := MaxStrength(l[..|l| - 1]);
      var e := l[|l| - 1];
      if e.active && Strength(e.cipher) > m then Strength(e.cipher) else m
  }

  /** The effect of the moves for strengths i - 1, i - 2, ..., 0. */
  function SortBelow(l: seq<Entry>, i: nat): seq<Entry>
    decreases i
  {
    if i == 0 then l else SortBelow(Apply(ToEnd, OfStrength(i - 1), l), i - 1)
  }

  function SortByStrength(l: seq<Entry>): seq<Entry> {
    SortBelow(l, MaxStrength(l) + 1)
  }

  // ----- it is a stable descending sort of the active part -----

  lemma {:induction false} OthersConcat(r: Rule, s: Selector, a: seq<Entry>, b: seq<Entry>)
    ensures Others(r, s, a + b) == Others(r, s, a) + Others(r, s, b)
  {
    if a == [] {
      assert a + b == b;
    } else {
      OthersConcat(r, s, a[1..], b);
      assert (a + b)[0] == a[0] && (a + b)[1..] == a[1..] + b;
    }
  }

  lemma {:induction false} MovedConcat(r: Rule, s: Selector, a: seq<Entry>, b: seq<Entry>)
    ensures Moved(r, s, a + b) == Moved(r, s, a) + Moved(r, s, b)
  {
    if a == [] {
      assert a + b == b;
    } else {
      MovedConcat(r, s, a[1..], b);
      assert (a + b)[0] == a[0] && (a + b)[1..] == a[1..] + b;
    }
  }

  lemma {:induction false} IdleConcat(a: seq<Entry>, b: seq<Entry>)
    ensures Idle(a + b) == Idle(a) + Idle(b)
  {
    if a == [] {
      assert a + b == b;
    } else {
      IdleConcat(a[1..], b);
      assert (a + b)[0] == a[0] && (a + b)[1..] == a[1..] + b;
    }
  }

  lemma {:induction false} IdleOfMove(s: Selector, l: seq<Entry>)
    ensures Idle(Others(ToEnd, s, l)) == Idle(l) && Idle(Moved(ToEnd, s, l)) == []
  {
    if l != [] {
      IdleOfMove(s, l[1..]);
    }
  }

  lemma {:induction false} BandOfMove(l: seq<Entry>, i: nat, b: nat)
    ensures Band(Others(ToEnd, OfStrength(i), l), b) == if i == b then [] else Band(l, b)
    ensures Band(Moved(ToEnd, OfStrength(i), l), b) == if i == b then Band(l, b) else []
  {
    if l != [] {
      BandOfMove(l[1..], i, b);
    }
  }

  /** One move changes neither the order within a strength nor the inactive ciphers. */
  lemma MoveIsStable(l: seq<Entry>, i: nat, b: nat)
    ensures var after := Apply(ToEnd, OfStrength(i), l); Band(after, b) == Band(l, b) && Idle(after) == Idle(l)
  {
    var others, moved := Others(ToEnd, OfStrength(i), l), Moved(ToEnd, OfStrength(i), l);
    MovedConcat(ToEnd, OfStrength(b), others, moved);
    IdleConcat(others, moved);
    BandOfMove(l, i, b);
    IdleOfMove(OfStrength(i), l);
  }

  /** From position k on: active ciphers of strength at least i, descending; before k: no such cipher. */
  predicate Banded(l: seq<Entry>, k: nat, i: nat) {
    && k <= |l|
    && (forall j :: 0 <= j < k && l[j].active ==> Strength(l[j].cipher) < i)
    && (forall j :: k <= j < |l| ==> l[j].active && Strength(l[j].cipher) >= i)
    && (forall a, b :: k <= a < b < |l| ==> Strength(l[a].cipher) >= Strength(l[b].cipher))
  }

  lemma {:induction false} OthersWeaker(l: seq<Entry>, i: nat)
    requires forall e :: e in l && e.active ==> Strength(e.cipher) <= i
    ensures forall e :: e in Others(ToEnd, OfStrength(i), l) && e.active ==> Strength(e.cipher) < i
    ensures forall e :: e in Band(l, i) ==> e.active && Strength(e.cipher) == i
  {
    if l != [] {
      assert l[0] in l;
      OthersWeaker(l[1..], i);
    }
  }

  /** One move adds its strength to the sorted part. */
  lemma MoveBands(l: seq<Entry>, k: nat, i: nat) returns (k': nat)
    requires Banded(l, k, i + 1)
    ensures Banded(Apply(ToEnd, OfStrength(i), l), k', i)
  {
    var front, back := l[..k], l[k..];
    var sel := OfStrength(i);
    assert l == front + back;
    OthersConcat(ToEnd, sel, front, back);
    MovedConcat(ToEnd, sel, front, back);
    NothingSelected(ToEnd, sel, back);
    OthersWeaker(front, i);
    var o, m := Others(ToEnd, sel, front), Band(front, i);
    assert Apply(ToEnd, sel, l) == o + back + m;
    k' := |o|;
  }

  /** What a stable descending sort of the active ciphers means. */
  ghost predicate StrengthSorted(before: seq<Entry>, after: seq<Entry>) {
    && Idle(after) == Idle(before)
    && (forall b: nat :: Band(after, b) == Band(before, b))
    && (exists k: nat :: Banded(after, k, 0))
  }

  lemma {:induction false} SortBelowCorrect(l: seq<Entry>, k: nat, i: nat)
    requires Banded(l, k, i)
    ensures StrengthSorted(l, SortBelow(l, i))
    decreases i
  {
    if i > 0 {
      var l' := Apply(ToEnd, OfStrength(i - 1), l);
      var k' := MoveBands(l, k, i - 1);
      SortBelowCorrect(l', k', i - 1);
      forall b: nat
        ensures Band(l', b) == Band(l, b)
      {
        MoveIsStable(l, i - 1, b);
      }
      MoveIsStable(l, i - 1, 0);
    }
  }

  /** The sort leaves the inactive ciphers alone, keeps the order within each strength, and orders strengths downwards. */
  lemma SortCorrect(l: seq<Entry>)
    ensures StrengthSorted(l, SortByStrength(l))
  {
    SortBelowCorrect(l, |l|, MaxStrength(l) + 1);
  }

  // ----- the code -----

  /** The first scan: the greatest strength among the active ciphers. */
  method MaxStrengthBits(order: Order) returns (max: nat)
    requires order.Valid()
    ensures max == MaxStrength(order.Entries())
  {
    ghost var l, p: nat := order.Entries(), 0;
    var curr := order.head;
    max := 0;
    while curr != null
      invariant p <= |l| && curr == At(order.nodes, p) && max == MaxStrength(l[..p])
      decreases |l| - p
    {
      assert l[..p + 1][..p] == l[..p] && l[p] == order.nodes[p].Value();
      if curr.active && Strength(curr.cipher) > max {
        max := Strength(curr.cipher);
      }
      curr := curr.next;
      p := p + 1;
    }
    assert l[..p] == l;
  }

  /** The second scan: how many active ciphers have each strength. */
  method CountUses(order: Order, max: nat) returns (uses: array<nat>)
    requires order.Valid() && max == MaxStrength(order.Entries())
    ensures fresh(uses) && uses.Length == max + 1
    ensures forall b :: 0 <= b <= max ==> uses[b] == |Band(order.Entries(), b)|
  {
    ghost var l, p: nat := order.Entries(), 0;
    uses := new nat[max + 1](_ => 0);
    var curr := order.head;
    while curr != null
      invariant p <= |l| && curr == At(order.nodes, p)
      invariant forall b :: 0 <= b <= max ==> uses[b] == |Band(l[..p], b)|
      decreases |l| - p
    {
      ghost var e := l[p];
      assert e == order.nodes[p].Value() && l[..p + 1] == l[..p] + [e];
      forall b: nat
        ensures |Band(l[..p + 1], b)| == |Band(l[..p], b)| + if e.active && Strength(e.cipher) == b then 1 else 0
      {
        OthersSnoc(ToEnd, OfStrength(b), l[..p], e);
      }
      if curr.active {
        uses[Strength(curr.cipher)] := uses[Strength(curr.cipher)] + 1;
      }
      curr := curr.next;
      p := p + 1;
    }
    assert l[..p] == l;
  }

  lemma {:induction false} EmptyBand(l: seq<Entry>, b: nat)
    requires Band(l, b) == []
    ensures Apply(ToEnd, OfStrength(b), l) == l
  {
    EmptyBandAffectsNothing(l, b);
    NothingSelected(ToEnd, OfStrength(b), l);
  }

  lemma {:induction false} EmptyBandAffectsNothing(l: seq<Entry>, b: nat)
    requires Band(l, b) == []
    ensures forall i :: 0 <= i < |l| ==> !Affects(ToEnd, OfStrength(b), l[i])
  {
    if l != [] {
      EmptyBandAffectsNothing(l[1..], b);
      assert forall i :: 1 <= i < |l| ==> l[i] == l[1..][i - 1];
    }
  }

  /** ssl_cipher_strength_sort: strengths that nobody uses are left out, which changes nothing. */
  method StrengthSort(order: Order)
    requires order.Valid()
    modifies order, order.repr
    ensures order.Valid() && order.Entries() == SortByStrength(old(order.Entries()))
  {
    var max := MaxStrengthBits(order);
    var uses := CountUses(order, max);
    ghost var sorted := SortByStrength(order.Entries());
    ghost var counts := uses[..];
    var i: nat := max + 1;
    while i > 0
      invariant order.Valid() && Sorts(order.Entries(), i, sorted) && i <= uses.Length && uses[..] == counts && Counted(order.Entries(), counts)
      decreases i
    {
      i := i - 1;
      SortsNext(order.Entries(), i, sorted);
      MoveCounted(order, i, uses[i], counts);
    }
    SortsDone(order.Entries(), sorted);
  }

  /** The number of active ciphers of each strength. */
  ghost predicate Counted(l: seq<Entry>, uses: seq<nat>) {
    forall x: int {:trigger Open(x)} :: Open(x) ==> forall b: nat :: b < |uses| ==> uses[b] == |Band(l, b)|
  }

  /** A turn of the last loop leaves the counts alone. */
  method MoveCounted(order: Order, i: nat, uses: nat, ghost counts: seq<nat>)
    requires order.Valid() && i < |counts| && uses == counts[i] && Counted(order.Entries(), counts)
    modifies order, order.repr
    ensures order.Valid() && order.Entries() == Apply(ToEnd, OfStrength(i), old(order.Entries()))
    ensures Counted(order.Entries(), counts)
  {
    assert Open(0);
    MoveStrength(order, i, uses);
  }

  /** Opens the definitions of Sorts and Counted. */
  ghost predicate Open(x: int) {
    true
  }

  /** Moving the strengths below i to the end, one after the other, gives this list. */
  ghost predicate Sorts(l: seq<Entry>, i: nat, sorted: seq<Entry>) {
    forall x: int {:trigger Open(x)} :: Open(x) ==> SortBelow(l, i) == sorted
  }

  lemma SortsNext(l: seq<Entry>, i: nat, sorted: seq<Entry>)
    requires Sorts(l, i + 1, sorted)
    ensures Sorts(Apply(ToEnd, OfStrength(i), l), i, sorted)
  {
    assert Open(0);
  }

  lemma SortsDone(l: seq<Entry>, sorted: seq<Entry>)
    requires Sorts(l, 0, sorted)
    ensures l == sorted
  {
    assert Open(0);
  }

  /** One turn of the last loop. */
  method MoveStrength(order: Order, i: nat, uses: nat)
    requires order.Valid() && uses == |Band(order.Entries(), i)|
    modifies order, order.repr
    ensures order.Valid() && order.Entries() == Apply(ToEnd, OfStrength(i), old(order.Entries()))
    ensures forall b: nat :: Band(order.Entries(), b) == Band(old(order.Entries()), b)
  {
    ghost var now := order.Entries();
    if uses > 0 {
      order.ApplyRule(ToEnd, OfStrength(i));
    } else {
      EmptyBand(now, i);
    }
    forall b: nat
      ensures Band(order.Entries(), b) == Band(now, b)
    {
      MoveIsStable(now, i, b);
    }
  }
}
