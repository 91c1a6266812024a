/**
  What merging is: the message that decoding makes of an encoded one on top of another,
  told field by field and without a wire string. Single values of the second message
  win, submessages merge in turn, arrays grow, and one arm of a union takes the place of
  the others. Decoding fails exactly if an array would overflow.
 */
module PbMerge {
  import opened Bytes
  import opened PbWire
  import opened PbMessage
  import opened PbRoundTrip
  import PbSafety

  // ----- merged messages -----

  /** A value on top of another: submessages merge, anything else is replaced. */
  ghost function MergedValue(f: Field, prior: Value, v: Value): Value
    decreases v, 2
  {
    if f.ltype.Submessage? && v.Msg? && prior.Msg? then Msg(Merged(f.sub, prior.cells, v.cells)) else CanonValue(f, v)
  }

  /** A field on top of another that is no arm of a union. */
  ghost function MergedCell(f: Field, c: Cell, d: Cell): Cell
    decreases d, 3
  {
    match d
    case One(v) => if f.htype.Singular? && IsZero(f, v) then c else One(MergedValue(f, Contents(c), v))
    case Opt(has, v) => if has then Opt(true, MergedValue(f, Contents(c), v)) else c
    case Many(items) => Many(ItemsOf(c) + CanonItems(f, items))
    case Arm(_) => c
  }

  /** Some arm of the union of field i, before field n, is chosen. */
  ghost predicate Displaced(fields: seq<Field>, b: seq<Cell>, i: nat, n: nat)
    requires i < |fields| == |b| && n <= |fields|
  {
    exists j :: 0 <= j < n && SameUnion(fields, j, i) && Chosen(b[j])
  }

  /** Field i once the fields before n are merged. */
  ghost function MergedUpTo(fields: seq<Field>, a: seq<Cell>, b: seq<Cell>, i: nat, n: nat): Cell
    requires i < |fields| == |a| == |b| && n <= |fields|
    decreases b, 0, 0
  {
    if fields[i].htype.Oneof? then
      if i < n && Chosen(b[i]) then CanonCell(fields[i], b[i])
      else if Displaced(fields, b, i, n) then Arm(None)
      else a[i]
    else if i < n then MergedCell(fields[i], a[i], b[i])
    else a[i]
  }

  /** The message b on top of the message a. */
  ghost function Merged(fields: seq<Field>, a: seq<Cell>, b: seq<Cell>): (r: seq<Cell>)
    ensures |r| == |a|
    decreases b, 1
  {
    if |fields| == |a| == |b| then MergedBelow(fields, a, b, |fields|) else a
  }

  ghost function MergedBelow(fields: seq<Field>, a: seq<Cell>, b: seq<Cell>, n: nat): (r: seq<Cell>)
    requires n <= |fields| == |a| == |b|
    ensures |r| == |a| && forall i :: 0 <= i < |a| ==> r[i] == MergedUpTo(fields, a, b, i, n)
    decreases b, 0, 1
  {
    seq(|a|, i requires 0 <= i < |a| => MergedUpTo(fields, a, b, i, n))
  }

  // ----- when merging is possible -----

  ghost predicate MergeableValue(f: Field, prior: Value, v: Value)
    decreases v, 1
  {
    f.ltype.Submessage? && v.Msg? && prior.Msg? ==> Mergeable(f.sub, prior.cells, v.cells)
  }

  ghost predicate MergeableCell(f: Field, c: Cell, d: Cell)
    decreases d, 2
  {
    match d
    case One(v) => (f.htype.Singular? && IsZero(f, v)) || MergeableValue(f, Contents(c), v)
    case Opt(has, v) => has ==> MergeableValue(f, Contents(c), v)
    case Many(items) => |ItemsOf(c)| + |items| <= f.arraySize
    case Arm(_) => true
  }

  /** No array overflows, in no submessage either. */
  ghost predicate Mergeable(fields: seq<Field>, a: seq<Cell>, b: seq<Cell>)
    decreases b, 0
  {
    forall k :: 0 <= k < |fields| && k < |a| && k < |b| ==> MergeableCell(fields[k], a[k], b[k])
  }

  // ----- one turn of the decoder -----

  /** A tag and a payload that its field rejects end the decoding. */
  lemma TurnFails(fields: seq<Field>, k: nat, wireType: nat, payload: seq<byte>, tail: seq<byte>, cells: seq<Cell>, seen: set<nat>)
    requires WellFormed(fields) && k < |fields| == |cells| && wireType < 8
    requires DecField(fields, k, wireType, payload + tail, cells).None?
    ensures DecLoop(fields, EncTag(fields[k].tag, wireType) + payload + tail, cells, seen).None?
  {
    assert EncTag(fields[k].tag, wireType) + payload + tail == EncTag(fields[k].tag, wireType) + (payload + tail);
    assert WellFormedField(fields[k]);
    TagRoundTrip(fields[k].tag, wireType, payload + tail);
    LowestIsOnly(fields, k);
  }

  /** What decoding an encoded field ought to do: go on with these cells, or fail. */
  ghost predicate Turned(fields: seq<Field>, encoded: seq<byte>, tail: seq<byte>, cells: seq<Cell>, seen: set<nat>,
                         possible: bool, cells': seq<Cell>, seen': set<nat>) {
    DecLoop(fields, encoded + tail, cells, seen) == if possible then DecLoop(fields, tail, cells', seen') else None
  }

  // ----- arrays -----

  lemma {:induction false} PackedMerges(f: Field, base: seq<Value>, items: seq<Value>, j: nat)
    requires SizeOk(f) && Packable(f.ltype) && j <= |items| && |base| + j <= f.arraySize
    requires forall i :: 0 <= i < |items| ==> FitsValue(f, items[i])
    ensures DecPacked(f, EncItems(f, items, j, false), base + items[..j]) ==
            if |base| + |items| <= f.arraySize then Some(base + items) else None
    decreases |items| - j
  {
    if j == |items| {
      assert items[..j] == items;
    } else {
      var rest := EncItems(f, items, j + 1, false);
      assert EncItems(f, items, j, false) == EncValue(f, items[j]) + rest;
      ScalarRoundTrip(f, items[j], rest);
      assert EncValue(f, items[j]) + rest != [];
      assert (base + items[..j]) + [items[j]] == base + items[..j + 1];
      if |base| + j < f.arraySize {
        PackedMerges(f, base, items, j + 1);
      }
    }
  }

  lemma PackedFieldMerges(fields: seq<Field>, k: nat, cells: seq<Cell>, base: seq<Value>, items: seq<Value>, tail: seq<byte>, seen: set<nat>)
    requires WellFormed(fields) && k < |fields| == |cells| && fields[k].htype.Repeated? && Packable(fields[k].ltype)
    requires SizeOk(fields[k]) && items != [] && cells[k] == Many(base) && |base| <= fields[k].arraySize && FitsCell(fields[k], Many(items))
    requires |EncField(fields[k], Many(items))| < TWO_32
    ensures Turned(fields, EncField(fields[k], Many(items)), tail, cells, seen,
                   |base| + |items| <= fields[k].arraySize, cells[k := Many(base + items)], seen)
  {
    var f := fields[k];
    var block := EncItems(f, items, 0, false);
    BlockRoundTrip(block, tail);
    assert base + items[..0] == base;
    PackedMerges(f, base, items, 0);
    if |base| + |items| <= f.arraySize {
      OneTurn(fields, k, 2, EncBlock(block), tail, cells, cells[k := Many(base + items)], seen);
    } else {
      TurnFails(fields, k, 2, EncBlock(block), tail, cells, seen);
    }
  }

  lemma FourParts(a: seq<byte>, b: seq<byte>, c: seq<byte>, d: seq<byte>)
    ensures a + b + c + d == a + b + (c + d)
  {
  }

  /** An array of which each item has its own tag, packable or not: one turn for every item, until the array is full. */
  lemma {:induction false} ItemsMerge(fields: seq<Field>, k: nat, cells: seq<Cell>, base: seq<Value>, items: seq<Value>, j: nat, tail: seq<byte>, seen: set<nat>)
    requires WellFormed(fields) && k < |fields| == |cells| && fields[k].htype.Repeated?
    requires j <= |items| && |base| + j <= fields[k].arraySize
    requires WellFormedField(fields[k]) && forall i :: 0 <= i < |items| ==> FitsValue(fields[k], items[i])
    requires |EncItems(fields[k], items, j, true)| < TWO_32
    ensures var canon := CanonItems(fields[k], items);
      Turned(fields, EncItems(fields[k], items, j, true), tail, cells[k := Many(base + canon[..j])], seen,
             |base| + |items| <= fields[k].arraySize, cells[k := Many(base + canon)], seen)
    decreases |items| - j
  {
    var f, canon := fields[k], CanonItems(fields[k], items);
    if j == |items| {
      assert canon[..j] == canon;
      assert EncItems(f, items, j, true) + tail == tail;
    } else {
      var later := EncItems(f, items, j + 1, true);
      var rest := later + tail;
      var payload := EncValue(f, items[j]);
      assert EncItems(f, items, j, true) == EncTag(f.tag, WireType(f.ltype)) + payload + later;
      FourParts(EncTag(f.tag, WireType(f.ltype)), payload, later, tail);
      ValueRoundTrip(f, items[j], rest);
      ItemTurned(fields, k, cells, base, canon, j, payload, rest, seen);
      if |base| + j < f.arraySize {
        ItemsMerge(fields, k, cells, base, items, j + 1, tail, seen);
      }
    }
  }

  lemma ItemTurned(fields: seq<Field>, k: nat, cells: seq<Cell>, base: seq<Value>, canon: seq<Value>, j: nat, payload: seq<byte>, rest: seq<byte>, seen: set<nat>)
    requires WellFormed(fields) && k < |fields| == |cells| && fields[k].htype.Repeated?
    requires j < |canon| && |base| + j <= fields[k].arraySize
    requires DecValue(fields[k], payload + rest, DefaultValue(fields[k])) == Some((canon[j], rest))
    ensures Turned(fields, EncTag(fields[k].tag, WireType(fields[k].ltype)) + payload, rest, cells[k := Many(base + canon[..j])], seen,
                   |base| + j < fields[k].arraySize, cells[k := Many(base + canon[..j + 1])], seen)
  {
    var now := cells[k := Many(base + canon[..j])];
    assert (base + canon[..j]) + [canon[j]] == base + canon[..j + 1];
    assert now[k := Many(base + canon[..j + 1])] == cells[k := Many(base + canon[..j + 1])];
    if |base| + j < fields[k].arraySize {
      OneTurn(fields, k, WireType(fields[k].ltype), payload, rest, now, cells[k := Many(base + canon[..j + 1])], seen);
    } else {
      TurnFails(fields, k, WireType(fields[k].ltype), payload, rest, now, seen);
    }
  }

  /** A packable array may come packed or item by item: either form adds the same items, or fails. */
  lemma PackedOrNot(fields: seq<Field>, k: nat, cells: seq<Cell>, base: seq<Value>, items: seq<Value>, tail: seq<byte>, seen: set<nat>)
    requires WellFormed(fields) && k < |fields| == |cells| && fields[k].htype.Repeated? && Packable(fields[k].ltype)
    requires WellFormedField(fields[k]) && items != [] && cells[k] == Many(base) && |base| <= fields[k].arraySize
    requires FitsCell(fields[k], Many(items))
    requires |EncField(fields[k], Many(items))| < TWO_32 && |EncItems(fields[k], items, 0, true)| < TWO_32
    ensures DecLoop(fields, EncItems(fields[k], items, 0, true) + tail, cells, seen) ==
            DecLoop(fields, EncField(fields[k], Many(items)) + tail, cells, seen)
  {
    ScalarsAreCanonical(fields[k], items);
    assert base + items[..0] == base && cells[k := Many(base)] == cells;
    ItemsMerge(fields, k, cells, base, items, 0, tail, seen);
    PackedFieldMerges(fields, k, cells, base, items, tail, seen);
  }

  /** The wire type of a field that holds one value is not looked at. */
  lemma AnyWireType(fields: seq<Field>, k: nat, wireType: nat, other: nat, s: seq<byte>, cells: seq<Cell>)
    requires k < |fields| == |cells| && !fields[k].htype.Repeated?
    ensures DecField(fields, k, wireType, s, cells) == DecField(fields, k, other, s, cells)
  {
  }

  // ----- values, fields and messages together -----

  lemma FitsLength(fields: seq<Field>, cells: seq<Cell>)
    requires Fits(fields, cells)
    ensures |cells| == |fields|
  {
  }

  lemma {:induction false} ValueMerges(f: Field, prior: Value, v: Value, rest: seq<byte>)
    requires WellFormedField(f) && FitsValue(f, v) && FitsValue(f, prior) && |EncValue(f, v)| < TWO_32
    ensures DecValue(f, EncValue(f, v) + rest, prior) ==
            if MergeableValue(f, prior, v) then Some((MergedValue(f, prior, v), rest)) else None
    decreases v, 1
  {
    if Packable(f.ltype) {
      ScalarRoundTrip(f, v, rest);
    } else if !f.ltype.Submessage? {
      BytesRoundTrip(f, v, rest);
    } else {
      assert WellFormed(f.sub) && Fits(f.sub, v.cells) && Fits(f.sub, prior.cells);
      FitsLength(f.sub, prior.cells);
      BlockRoundTrip(EncMessage(f.sub, v.cells), rest);
      MessageMerges(f.sub, prior.cells, v.cells, [], {});
      MergedAlone(f.sub, prior.cells, v.cells, [], {});
    }
  }

  lemma RequiredAreSeen(fields: seq<Field>, seen: set<nat>)
    ensures AllSeen(fields, seen + RequiredBefore(fields, |fields|))
  {
  }

  /** With nothing behind the encoded message, the merged message is the result. */
  lemma MergedAlone(fields: seq<Field>, a: seq<Cell>, b: seq<Cell>, tail: seq<byte>, seen: set<nat>)
    requires |fields| == |a| && tail == []
    requires DecLoop(fields, EncMessage(fields, b) + tail, a, seen) ==
             if Mergeable(fields, a, b) then DecLoop(fields, tail, Merged(fields, a, b), seen + RequiredBefore(fields, |fields|)) else None
    ensures DecLoop(fields, EncMessage(fields, b), a, seen) == if Mergeable(fields, a, b) then Some(Merged(fields, a, b)) else None
  {
    assert EncMessage(fields, b) + tail == EncMessage(fields, b);
    RequiredAreSeen(fields, seen);
  }

  /** Merging an encoded message into another, in front of any bytes: decoding goes on with the merged message, or fails if that overflows. */
  lemma {:induction false} MessageMerges(fields: seq<Field>, a: seq<Cell>, b: seq<Cell>, tail: seq<byte>, seen: set<nat>)
    requires WellFormed(fields) && Fits(fields, a) && Fits(fields, b) && |EncMessage(fields, b)| < TWO_32
    ensures DecLoop(fields, EncMessage(fields, b) + tail, a, seen) ==
            if Mergeable(fields, a, b) then DecLoop(fields, tail, Merged(fields, a, b), seen + RequiredBefore(fields, |fields|)) else None
    decreases b, 2
  {
    assert MergedBelow(fields, a, b, 0) == a;
    assert seen + RequiredBefore(fields, 0) == seen;
    FieldsMerge(fields, a, b, 0, tail, seen);
    assert MergeableFrom(fields, a, b, 0) <==> Mergeable(fields, a, b);
  }

  ghost predicate MergeableFrom(fields: seq<Field>, a: seq<Cell>, b: seq<Cell>, n: nat)
    requires |fields| == |a| == |b|
  {
    forall k :: n <= k < |fields| ==> MergeableCell(fields[k], a[k], b[k])
  }

  lemma {:induction false} FieldsMerge(fields: seq<Field>, a: seq<Cell>, b: seq<Cell>, n: nat, tail: seq<byte>, seen: set<nat>)
    requires WellFormed(fields) && Fits(fields, a) && Fits(fields, b) && n <= |fields| == |a| == |b| && |EncFrom(fields, b, n)| < TWO_32
    ensures Turned(fields, EncFrom(fields, b, n), tail, MergedBelow(fields, a, b, n), seen + RequiredBefore(fields, n),
                   MergeableFrom(fields, a, b, n), MergedBelow(fields, a, b, |fields|), seen + RequiredBefore(fields, |fields|))
    decreases b, 1, |fields| - n
  {
    if n == |fields| {
      assert EncFrom(fields, b, n) + tail == tail;
    } else {
      var rest := EncFrom(fields, b, n + 1) + tail;
      assert EncFrom(fields, b, n) + tail == EncField(fields[n], b[n]) + rest;
      assert WellFormedField(fields[n]) && FitsCell(fields[n], a[n]) && FitsCell(fields[n], b[n]);
      FieldMerges(fields, a, b, n, rest, seen + RequiredBefore(fields, n));
      assert Marked(fields, n, seen + RequiredBefore(fields, n)) == seen + RequiredBefore(fields, n + 1);
      if MergeableCell(fields[n], a[n], b[n]) {
        FieldsMerge(fields, a, b, n + 1, tail, seen);
      }
    }
  }

  lemma {:induction false} FieldMerges(fields: seq<Field>, a: seq<Cell>, b: seq<Cell>, k: nat, tail: seq<byte>, seen: set<nat>)
    requires WellFormed(fields) && Fits(fields, a) && Fits(fields, b) && k < |fields| == |a| == |b|
    requires WellFormedField(fields[k]) && FitsCell(fields[k], a[k]) && FitsCell(fields[k], b[k]) && |EncField(fields[k], b[k])| < TWO_32
    ensures Turned(fields, EncField(fields[k], b[k]), tail, MergedBelow(fields, a, b, k), seen,
                   MergeableCell(fields[k], a[k], b[k]), MergedBelow(fields, a, b, k + 1), Marked(fields, k, seen))
    decreases b, 0
  {
    var f, before, after := fields[k], MergedBelow(fields, a, b, k), MergedBelow(fields, a, b, k + 1);
    if f.htype.Oneof? {
      UnionMerges(fields, a, b, k, tail, seen);
    } else {
      OthersStay(fields, a, b, k);
      if f.htype.Repeated? {
        ArrayMerges(fields, a, b, k, tail, seen);
      } else if Present(f, b[k]) {
        AbsentIsDefault(f, b[k]);
        ContentsMerge(f, a[k], b[k], tail);
        PresentMerges(fields, k, before, b[k], tail, seen);
      } else {
        AbsentIsDefault(f, b[k]);
        assert EncField(f, b[k]) + tail == tail;
        assert after == before;
      }
    }
  }

  lemma {:induction false} ContentsMerge(f: Field, c: Cell, d: Cell, rest: seq<byte>)
    requires WellFormedField(f) && FitsCell(f, c) && FitsCell(f, d) && !f.htype.Repeated? && !f.htype.Oneof?
    requires |EncValue(f, Contents(d))| < TWO_32
    ensures DecValue(f, EncValue(f, Contents(d)) + rest, Contents(c)) ==
            if MergeableValue(f, Contents(c), Contents(d)) then Some((MergedValue(f, Contents(c), Contents(d)), rest)) else None
    decreases d, 2
  {
    ValueMerges(f, Contents(c), Contents(d), rest);
  }

  /** Field k displaces nothing of field i. */
  lemma NotDisplaced(fields: seq<Field>, b: seq<Cell>, i: nat, k: nat)
    requires i < |fields| == |b| && k < |fields| && !(SameUnion(fields, k, i) && Chosen(b[k]))
    ensures Displaced(fields, b, i, k + 1) <==> Displaced(fields, b, i, k)
  {
  }

  /** A field that is no arm changes no other field. */
  lemma OthersStay(fields: seq<Field>, a: seq<Cell>, b: seq<Cell>, k: nat)
    requires k < |fields| == |a| == |b| && !fields[k].htype.Oneof?
    ensures MergedBelow(fields, a, b, k)[k] == a[k]
    ensures MergedBelow(fields, a, b, k + 1) == MergedBelow(fields, a, b, k)[k := MergedCell(fields[k], a[k], b[k])]
  {
    forall i | 0 <= i < |fields| && i != k
      ensures MergedUpTo(fields, a, b, i, k + 1) == MergedUpTo(fields, a, b, i, k)
    {
      NotDisplaced(fields, b, i, k);
    }
  }

  lemma PresentMerges(fields: seq<Field>, k: nat, cells: seq<Cell>, d: Cell, tail: seq<byte>, seen: set<nat>)
    requires WellFormed(fields) && k < |fields| == |cells| && !fields[k].htype.Repeated? && !fields[k].htype.Oneof?
    requires FitsCell(fields[k], cells[k]) && FitsCell(fields[k], d) && Present(fields[k], d)
    requires EncField(fields[k], d) == EncTag(fields[k].tag, WireType(fields[k].ltype)) + EncValue(fields[k], Contents(d))
    requires DecValue(fields[k], EncValue(fields[k], Contents(d)) + tail, Contents(cells[k])) ==
             if MergeableValue(fields[k], Contents(cells[k]), Contents(d))
             then Some((MergedValue(fields[k], Contents(cells[k]), Contents(d)), tail)) else None
    ensures Turned(fields, EncField(fields[k], d), tail, cells, seen,
                   MergeableCell(fields[k], cells[k], d), cells[k := MergedCell(fields[k], cells[k], d)], Marked(fields, k, seen))
  {
    var f := fields[k];
    if MergeableCell(f, cells[k], d) {
      OneTurn(fields, k, WireType(f.ltype), EncValue(f, Contents(d)), tail, cells, cells[k := MergedCell(f, cells[k], d)], seen);
    } else {
      TurnFails(fields, k, WireType(f.ltype), EncValue(f, Contents(d)), tail, cells, seen);
    }
  }

  lemma ArrayMerges(fields: seq<Field>, a: seq<Cell>, b: seq<Cell>, k: nat, tail: seq<byte>, seen: set<nat>)
    requires WellFormed(fields) && k < |fields| == |a| == |b| && fields[k].htype.Repeated?
    requires WellFormedField(fields[k]) && FitsCell(fields[k], a[k]) && FitsCell(fields[k], b[k]) && |EncField(fields[k], b[k])| < TWO_32
    ensures Turned(fields, EncField(fields[k], b[k]), tail, MergedBelow(fields, a, b, k), seen,
                   MergeableCell(fields[k], a[k], b[k]), MergedBelow(fields, a, b, k + 1), Marked(fields, k, seen))
  {
    var f, before := fields[k], MergedBelow(fields, a, b, k);
    var base, items := a[k].items, b[k].items;
    OthersStay(fields, a, b, k);
    if items == [] {
      assert EncField(f, b[k]) + tail == tail;
      assert base + CanonItems(f, items) == base;
      assert MergedBelow(fields, a, b, k + 1) == before;
    } else if Packable(f.ltype) {
      PackedFieldMerges(fields, k, before, base, items, tail, seen);
      ScalarsAreCanonical(f, items);
    } else {
      assert base + CanonItems(f, items)[..0] == base;
      assert before[k := Many(base)] == before;
      ItemsMerge(fields, k, before, base, items, 0, tail, seen);
    }
  }

  /** An arm that is chosen takes the place of the others; one that is not changes nothing. */
  lemma UnionMerges(fields: seq<Field>, a: seq<Cell>, b: seq<Cell>, k: nat, tail: seq<byte>, seen: set<nat>)
    requires WellFormed(fields) && Fits(fields, a) && Fits(fields, b) && k < |fields| == |a| == |b| && fields[k].htype.Oneof?
    requires WellFormedField(fields[k]) && FitsCell(fields[k], b[k]) && |EncField(fields[k], b[k])| < TWO_32
    ensures Turned(fields, EncField(fields[k], b[k]), tail, MergedBelow(fields, a, b, k), seen,
                   true, MergedBelow(fields, a, b, k + 1), seen)
  {
    var f, before, after := fields[k], MergedBelow(fields, a, b, k), MergedBelow(fields, a, b, k + 1);
    if Chosen(b[k]) {
      var v := b[k].arm.value;
      ValueRoundTrip(f, v, tail);
      ArmDisplaces(fields, a, b, k);
      OneTurn(fields, k, WireType(f.ltype), EncValue(f, v), tail, before, after, seen);
    } else {
      assert EncField(f, b[k]) + tail == tail;
      forall i | 0 <= i < |fields|
        ensures MergedUpTo(fields, a, b, i, k + 1) == MergedUpTo(fields, a, b, i, k)
      {
        NotDisplaced(fields, b, i, k);
      }
      assert after == before;
    }
  }

  lemma ArmDisplaces(fields: seq<Field>, a: seq<Cell>, b: seq<Cell>, k: nat)
    requires Fits(fields, b) && k < |fields| == |a| == |b| && fields[k].htype.Oneof? && Chosen(b[k])
    ensures SetArm(fields, k, CanonValue(fields[k], b[k].arm.value), MergedBelow(fields, a, b, k)) == MergedBelow(fields, a, b, k + 1)
  {
    forall i | 0 <= i < |fields|
      ensures MergedUpTo(fields, a, b, i, k + 1) ==
        if i == k then CanonCell(fields[k], b[k]) else if SameUnion(fields, i, k) then Arm(None) else MergedUpTo(fields, a, b, i, k)
    {
      if i != k && SameUnion(fields, i, k) {
        assert !Chosen(b[i]) by {
          assert SameUnion(fields, if i < k then i else k, if i < k then k else i);
        }
        assert SameUnion(fields, k, i);
        assert Displaced(fields, b, i, k + 1);
      } else if i != k {
        NotDisplaced(fields, b, i, k);
      }
    }
  }

  // ----- the theorem -----

  /** Decoding two encoded messages one behind the other gives the second on top of the first, or fails if that overflows. */
  lemma DecodedMerge(fields: seq<Field>, a: seq<Cell>, b: seq<Cell>)
    requires WellFormed(fields) && Fits(fields, a) && Fits(fields, b)
    requires |EncMessage(fields, a)| < TWO_32 && |EncMessage(fields, b)| < TWO_32
    ensures var first := CanonMessage(fields, a);
      DecMessage(fields, EncMessage(fields, a) + EncMessage(fields, b)) ==
      if Mergeable(fields, first, b) then Some(Merged(fields, first, b)) else None
  {
    var first := CanonMessage(fields, a);
    RoundTrip(fields, a);
    PbSafety.DecMessageFits(fields, EncMessage(fields, a));
    EncodingsMerge(fields, a, b);
    MessageMerges(fields, first, b, [], {});
    MergedAlone(fields, first, b, [], {});
  }
}
