/**
  Decoding what was encoded. For every well-formed descriptor tree and every value that
  fits it, pb_decode of the bytes of pb_encode succeeds and yields the canonical form of
  the value, in which absent optional fields are back at their defaults; and decoding
  an encoding followed by anything is decoding the rest into that canonical form.
 */
module PbRoundTrip {
  import opened Bytes
  import opened PbWire
  import opened PbMessage

  // ----- canonical values -----

  /** What a value becomes: strings end at their first NUL. */
  ghost function CanonValue(f: Field, v: Value): Value
    decreases v, 1
  {
    if f.ltype.String? then Raw(StringOf(f, v))
    else if f.ltype.Submessage? && v.Msg? then Msg(CanonMessage(f.sub, v.cells))
    else v
  }

  ghost function CanonItems(f: Field, items: seq<Value>): (r: seq<Value>)
    ensures |r| == |items| && forall j :: 0 <= j < |items| ==> r[j] == CanonValue(f, items[j])
    decreases items, 2
  {
    if items == [] then [] else [CanonValue(f, items[0])] + CanonItems(f, items[1..])
  }

  /** An absent optional field holds its default. */
  ghost function CanonCell(f: Field, c: Cell): Cell
    decreases c, 3
  {
    match c
    case One(v) => One(CanonValue(f, v))
    case Opt(has, v) => if has then Opt(true, CanonValue(f, v)) else Opt(false, DefaultValue(f))
    case Many(items) => Many(CanonItems(f, items))
    case Arm(arm) => if arm.Some? then Arm(Some(CanonValue(f, arm.value))) else Arm(None)
  }

  ghost function CanonMessage(fields: seq<Field>, cells: seq<Cell>): (r: seq<Cell>)
    ensures |r| == |cells|
    ensures |fields| == |cells| ==> forall k :: 0 <= k < |cells| ==> r[k] == CanonCell(fields[k], cells[k])
    decreases cells, 0
  {
    if cells == [] then [] else if fields == [] then cells
    else [CanonCell(fields[0], cells[0])] + CanonMessage(fields[1..], cells[1..])
  }

  // ----- tags and scalars -----

  lemma TagRoundTrip(tag: nat, wireType: nat, rest: seq<byte>)
    requires 1 <= tag < 0x2000_0000 && wireType < 8
    ensures DecTag(EncTag(tag, wireType) + rest) == Tag(tag, wireType, rest)
  {
    VarintRoundTrip32(8 * tag + wireType, rest);
  }

  lemma BlockRoundTrip(b: seq<byte>, rest: seq<byte>)
    requires |b| < TWO_32
    ensures DecBlock(EncBlock(b) + rest) == Some((b, rest))
  {
    assert EncBlock(b) + rest == EncVarint(|b|) + (b + rest);
    VarintRoundTrip32(|b|, b + rest);
    assert (b + rest)[..|b|] == b && (b + rest)[|b|..] == rest;
  }

  /** A negative number of any width is sent sign-extended to 64 bits and cut back on arrival. */
  lemma SignRoundTrip(n: nat, i: int)
    requires IntegerSize(n) && InSigned(n, i)
    ensures (if n == 8 then ToSigned(Word(i)) else ToInt32(Word(i))) == i && ToSigned(Word(i)) == i
  {
    SignedBound(n, i);
    WordOfSigned(i);
  }

  lemma VarintScalar(f: Field, v: Value, rest: seq<byte>)
    requires SizeOk(f) && f.ltype.Varint? && FitsValue(f, v)
    ensures DecScalar(f, EncValue(f, v) + rest) == Some((v, rest))
  {
    SignRoundTrip(f.dataSize, v.i);
    VarintRoundTrip64(Word(v.i), rest);
  }

  lemma UVarintScalar(f: Field, v: Value, rest: seq<byte>)
    requires SizeOk(f) && f.ltype.UVarint? && FitsValue(f, v)
    ensures DecScalar(f, EncValue(f, v) + rest) == Some((v, rest))
  {
    VarintRoundTrip64(v.i, rest);
  }

  lemma SVarintScalar(f: Field, v: Value, rest: seq<byte>)
    requires SizeOk(f) && f.ltype.SVarint? && FitsValue(f, v)
    ensures DecScalar(f, EncValue(f, v) + rest) == Some((v, rest))
  {
    SignRoundTrip(f.dataSize, v.i);
    ZigzagRoundTrip(v.i);
    VarintRoundTrip64(Zigzag(v.i), rest);
  }

  lemma ScalarRoundTrip(f: Field, v: Value, rest: seq<byte>)
    requires SizeOk(f) && Packable(f.ltype) && FitsValue(f, v)
    ensures DecScalar(f, EncValue(f, v) + rest) == Some((v, rest))
  {
    match f.ltype {
      case Fixed32 => FixedScalar(v.i, 4, rest);
      case Fixed64 => FixedScalar(v.i, 8, rest);
      case Varint => VarintScalar(f, v, rest);
      case UVarint => UVarintScalar(f, v, rest);
      case SVarint => SVarintScalar(f, v, rest);
    }
  }

  lemma FixedScalar(v: nat, k: nat, rest: seq<byte>)
    requires (k == 4 && v < TWO_32) || (k == 8 && v < TWO_64)
    ensures var s := LittleEndian(v, k) + rest; ReadLittleEndian(s[..k]) == v && s[k..] == rest
  {
    var s := LittleEndian(v, k) + rest;
    assert s[..k] == LittleEndian(v, k) && s[k..] == rest;
    Pow256Values();
    FixedRoundTrip(v, k);
  }

  lemma BytesRoundTrip(f: Field, v: Value, rest: seq<byte>)
    requires SizeOk(f) && FitsValue(f, v) && (f.ltype.ByteArray? || f.ltype.String? || f.ltype.FixedLengthBytes?)
    ensures DecBytes(f, EncValue(f, v) + rest) == Some((CanonValue(f, v), rest))
  {
    var b := if f.ltype.String? then StringOf(f, v) else v.bytes;
    BlockIsRead(f, b, rest);
  }

  /** A block that fits its field is read as it is. */
  lemma BlockIsRead(f: Field, b: seq<byte>, rest: seq<byte>)
    requires f.dataSize <= SIZE_MAX && (f.ltype.ByteArray? || f.ltype.String? || f.ltype.FixedLengthBytes?)
    requires f.ltype.ByteArray? ==> |b| + BYTES_HEADER <= f.dataSize
    requires f.ltype.String? ==> |b| + 1 <= f.dataSize
    requires f.ltype.FixedLengthBytes? ==> |b| == f.dataSize
    ensures DecBytes(f, EncBlock(b) + rest) == Some((Raw(b), rest))
  {
    assert EncBlock(b) + rest == EncVarint(|b|) + (b + rest);
    VarintRoundTrip32(|b|, b + rest);
    assert (b + rest)[..|b|] == b && (b + rest)[|b|..] == rest;
    assert |b| == 0 ==> b == Zeros(0) && b + rest == rest;
  }

  // ----- one field -----

  /** Cells of the fields before k as decoded, of the others at their defaults. */
  ghost function Partly(fields: seq<Field>, cells: seq<Cell>, k: nat): (r: seq<Cell>)
    requires |fields| == |cells|
    ensures |r| == |fields|
    ensures forall i :: 0 <= i < |fields| ==> r[i] == if i < k then CanonCell(fields[i], cells[i]) else DefaultCell(fields[i])
  {
    seq(|fields|, i requires 0 <= i < |fields| => if i < k then CanonCell(fields[i], cells[i]) else DefaultCell(fields[i]))
  }

  /** The required fields before k. */
  ghost function RequiredBefore(fields: seq<Field>, k: nat): (r: set<nat>)
    requires k <= |fields|
    ensures forall i: nat :: i in r <==> i < k && fields[i].htype.Required?
  {
    if k == 0 then {} else RequiredBefore(fields, k - 1) + if fields[k - 1].htype.Required? then {k - 1} else {}
  }

  lemma {:induction false} LowestIsOnly(fields: seq<Field>, k: nat)
    requires k < |fields| && forall i, j :: 0 <= i < j < |fields| ==> fields[i].tag != fields[j].tag
    ensures LowestField(fields, fields[k].tag) == k
  {
    var j := LowestField(fields, fields[k].tag);
    assert j < |fields| ==> j == k;
  }

  /** A tag and a payload that its field accepts are one turn of the decoding loop. */
  lemma OneTurn(fields: seq<Field>, k: nat, wireType: nat, payload: seq<byte>, tail: seq<byte>, cells: seq<Cell>, cells': seq<Cell>, seen: set<nat>)
    requires WellFormed(fields) && k < |fields| == |cells| && wireType < 8
    requires DecField(fields, k, wireType, payload + tail, cells) == Some((cells', tail))
    ensures DecLoop(fields, EncTag(fields[k].tag, wireType) + payload + tail, cells, seen) ==
            DecLoop(fields, tail, cells', if fields[k].htype.Required? then seen + {k} else seen)
  {
    var s := EncTag(fields[k].tag, wireType) + payload + tail;
    assert s == EncTag(fields[k].tag, wireType) + (payload + tail);
    assert WellFormedField(fields[k]);
    TagRoundTrip(fields[k].tag, wireType, payload + tail);
    LowestIsOnly(fields, k);
  }

  lemma {:induction false} PackedRoundTrip(f: Field, items: seq<Value>, j: nat)
    requires SizeOk(f) && Packable(f.ltype) && j <= |items| <= f.arraySize
    requires forall i :: 0 <= i < |items| ==> FitsValue(f, items[i])
    ensures DecPacked(f, EncItems(f, items, j, false), items[..j]) == Some(items)
    decreases |items| - j
  {
    if j == |items| {
      assert items[..j] == items;
    } else {
      var rest := EncItems(f, items, j + 1, false);
      assert EncItems(f, items, j, false) == EncValue(f, items[j]) + rest;
      ScalarRoundTrip(f, items[j], rest);
      assert EncValue(f, items[j]) + rest != [];
      assert items[..j + 1] == items[..j] + [items[j]];
      PackedRoundTrip(f, items, j + 1);
    }
  }

  lemma {:induction false} ScalarsAreCanonical(f: Field, items: seq<Value>)
    requires SizeOk(f) && Packable(f.ltype) && forall i :: 0 <= i < |items| ==> FitsValue(f, items[i])
    ensures CanonItems(f, items) == items
  {
  }

  /** What the proto3 rule leaves out is what the defaults put back. */
  lemma ZeroIsDefault(f: Field, v: Value)
    requires WellFormedField(f) && f.htype.Singular? && FitsValue(f, v) && IsZero(f, v)
    ensures CanonValue(f, v) == DefaultValue(f)
  {
  }

  // ----- values, arrays, fields and messages together -----

  lemma {:induction false} ValueRoundTrip(f: Field, v: Value, rest: seq<byte>)
    requires WellFormedField(f) && FitsValue(f, v) && |EncValue(f, v)| < TWO_32
    ensures DecValue(f, EncValue(f, v) + rest, DefaultValue(f)) == Some((CanonValue(f, v), rest))
    decreases v, 1
  {
    if Packable(f.ltype) {
      ScalarRoundTrip(f, v, rest);
    } else if !f.ltype.Submessage? {
      BytesRoundTrip(f, v, rest);
    } else {
      assert Fits(f.sub, v.cells) && WellFormed(f.sub);
      var block := EncMessage(f.sub, v.cells);
      BlockRoundTrip(block, rest);
      MessageRoundTrip(f.sub, v.cells, []);
      assert block + [] == block;
    }
  }

  lemma {:induction false} MessageRoundTrip(fields: seq<Field>, cells: seq<Cell>, tail: seq<byte>)
    requires WellFormed(fields) && Fits(fields, cells) && |EncMessage(fields, cells)| < TWO_32
    ensures DecLoop(fields, EncMessage(fields, cells) + tail, Defaults(fields), {}) ==
            DecLoop(fields, tail, CanonMessage(fields, cells), RequiredBefore(fields, |fields|))
    ensures AllSeen(fields, RequiredBefore(fields, |fields|))
    decreases cells, 2
  {
    assert Partly(fields, cells, 0) == Defaults(fields);
    assert Partly(fields, cells, |fields|) == CanonMessage(fields, cells);
    FieldsRoundTrip(fields, cells, 0, tail);
  }

  lemma {:induction false} FieldsRoundTrip(fields: seq<Field>, cells: seq<Cell>, k: nat, tail: seq<byte>)
    requires WellFormed(fields) && Fits(fields, cells) && k <= |fields| == |cells| && |EncFrom(fields, cells, k)| < TWO_32
    ensures DecLoop(fields, EncFrom(fields, cells, k) + tail, Partly(fields, cells, k), RequiredBefore(fields, k)) ==
            DecLoop(fields, tail, Partly(fields, cells, |fields|), RequiredBefore(fields, |fields|))
    decreases cells, 1, |fields| - k
  {
    if k == |fields| {
      assert EncFrom(fields, cells, k) + tail == tail;
    } else {
      var rest := EncFrom(fields, cells, k + 1) + tail;
      assert EncFrom(fields, cells, k) + tail == EncField(fields[k], cells[k]) + rest;
      FieldRoundTrip(fields, cells, k, rest);
      FieldsRoundTrip(fields, cells, k + 1, tail);
    }
  }

  lemma {:induction false} FieldRoundTrip(fields: seq<Field>, cells: seq<Cell>, k: nat, tail: seq<byte>)
    requires WellFormed(fields) && Fits(fields, cells) && k < |fields| == |cells|
    requires WellFormedField(fields[k]) && FitsCell(fields[k], cells[k]) && |EncField(fields[k], cells[k])| < TWO_32
    ensures DecLoop(fields, EncField(fields[k], cells[k]) + tail, Partly(fields, cells, k), RequiredBefore(fields, k)) ==
            DecLoop(fields, tail, Partly(fields, cells, k + 1), RequiredBefore(fields, k + 1))
    decreases cells, 0
  {
    var f, c := fields[k], cells[k];
    var before, after := Partly(fields, cells, k), Partly(fields, cells, k + 1);
    assert f.htype.Repeated? ==> RequiredBefore(fields, k + 1) == RequiredBefore(fields, k);
    if !f.htype.Repeated? {
      SingleRoundTrip(fields, cells, k, tail);
    } else if c.items == [] {
      assert before == after;
      assert EncField(f, c) + tail == tail;
    } else {
      assert after == before[k := Many(CanonItems(f, c.items))];
      if Packable(f.ltype) {
        PackedFieldRoundTrip(fields, k, before, c.items, tail, RequiredBefore(fields, k));
        ScalarsAreCanonical(f, c.items);
      } else {
        ItemsRoundTrip(fields, k, before, c.items, 0, tail, RequiredBefore(fields, k));
        assert before == before[k := Many([])];
      }
    }
  }

  lemma PackedFieldRoundTrip(fields: seq<Field>, k: nat, cells: seq<Cell>, items: seq<Value>, tail: seq<byte>, seen: set<nat>)
    requires WellFormed(fields) && k < |fields| == |cells| && fields[k].htype.Repeated? && Packable(fields[k].ltype)
    requires SizeOk(fields[k]) && items != [] && cells[k] == Many([]) && FitsCell(fields[k], Many(items))
    requires |EncField(fields[k], Many(items))| < TWO_32
    ensures DecLoop(fields, EncField(fields[k], Many(items)) + tail, cells, seen) == DecLoop(fields, tail, cells[k := Many(items)], seen)
  {
    var f := fields[k];
    var block := EncItems(f, items, 0, false);
    BlockRoundTrip(block, tail);
    PackedRoundTrip(f, items, 0);
    assert items[..0] == [];
    OneTurn(fields, k, 2, EncBlock(block), tail, cells, cells[k := Many(items)], seen);
  }

  /** A repeated field that is not packed: one turn for every item. */
  lemma {:induction false} ItemsRoundTrip(fields: seq<Field>, k: nat, cells: seq<Cell>, items: seq<Value>, j: nat, tail: seq<byte>, seen: set<nat>)
    requires WellFormed(fields) && k < |fields| == |cells| && fields[k].htype.Repeated? && !Packable(fields[k].ltype)
    requires j <= |items| <= fields[k].arraySize
    requires WellFormedField(fields[k]) && forall i :: 0 <= i < |items| ==> FitsValue(fields[k], items[i])
    requires |EncItems(fields[k], items, j, true)| < TWO_32
    ensures DecLoop(fields, EncItems(fields[k], items, j, true) + tail, cells[k := Many(CanonItems(fields[k], items)[..j])], seen) ==
            DecLoop(fields, tail, cells[k := Many(CanonItems(fields[k], items))], seen)
    decreases items, 2, |items| - j
  {
    var f, canon := fields[k], CanonItems(fields[k], items);
    if j == |items| {
      assert canon[..j] == canon;
      assert EncItems(f, items, j, true) + tail == tail;
    } else {
      var rest := EncItems(f, items, j + 1, true) + tail;
      var payload := EncValue(f, items[j]);
      assert EncItems(f, items, j, true) == EncTag(f.tag, WireType(f.ltype)) + payload + EncItems(f, items, j + 1, true);
      assert EncItems(f, items, j, true) + tail == EncTag(f.tag, WireType(f.ltype)) + payload + rest;
      ValueRoundTrip(f, items[j], rest);
      ItemTurn(fields, k, cells, canon, j, payload, rest, seen);
      ItemsRoundTrip(fields, k, cells, items, j + 1, tail, seen);
    }
  }

  lemma ItemTurn(fields: seq<Field>, k: nat, cells: seq<Cell>, canon: seq<Value>, j: nat, payload: seq<byte>, rest: seq<byte>, seen: set<nat>)
    requires WellFormed(fields) && k < |fields| == |cells| && fields[k].htype.Repeated? && !Packable(fields[k].ltype)
    requires j < |canon| <= fields[k].arraySize
    requires DecValue(fields[k], payload + rest, DefaultValue(fields[k])) == Some((canon[j], rest))
    ensures DecLoop(fields, EncTag(fields[k].tag, WireType(fields[k].ltype)) + payload + rest, cells[k := Many(canon[..j])], seen) ==
            DecLoop(fields, rest, cells[k := Many(canon[..j + 1])], seen)
  {
    var now := cells[k := Many(canon[..j])];
    assert canon[..j + 1] == canon[..j] + [canon[j]];
    assert now[k := Many(canon[..j + 1])] == cells[k := Many(canon[..j + 1])];
    OneTurn(fields, k, WireType(fields[k].ltype), payload, rest, now, cells[k := Many(canon[..j + 1])], seen);
  }

  /** A field that holds at most one value. */
  lemma {:induction false} SingleRoundTrip(fields: seq<Field>, cells: seq<Cell>, k: nat, tail: seq<byte>)
    requires WellFormed(fields) && Fits(fields, cells) && k < |fields| == |cells|
    requires WellFormedField(fields[k]) && FitsCell(fields[k], cells[k]) && |EncField(fields[k], cells[k])| < TWO_32
    requires !fields[k].htype.Repeated?
    ensures DecLoop(fields, EncField(fields[k], cells[k]) + tail, Partly(fields, cells, k), RequiredBefore(fields, k)) ==
            DecLoop(fields, tail, Partly(fields, cells, k + 1), RequiredBefore(fields, k + 1))
    decreases cells[k], 2
  {
    var f, c := fields[k], cells[k];
    var before, after := Partly(fields, cells, k), Partly(fields, cells, k + 1);
    var seen := RequiredBefore(fields, k);
    assert RequiredBefore(fields, k + 1) == if f.htype.Required? then seen + {k} else seen;
    if !Present(f, c) {
      AbsentIsDefault(f, c);
      assert before == after;
      assert EncField(f, c) + tail == tail;
    } else {
      AbsentIsDefault(f, c);
      ValueRoundTrip(f, Contents(c), tail);
      PresentField(fields, cells, k, tail);
      assert EncField(f, c) + tail == EncTag(f.tag, WireType(f.ltype)) + EncValue(f, Contents(c)) + tail;
      OneTurn(fields, k, WireType(f.ltype), EncValue(f, Contents(c)), tail, before, after, seen);
    }
  }

  lemma AbsentIsDefault(f: Field, c: Cell)
    requires WellFormedField(f) && FitsCell(f, c) && !f.htype.Repeated?
    ensures !Present(f, c) ==> EncField(f, c) == [] && CanonCell(f, c) == DefaultCell(f) && !f.htype.Required?
    ensures Present(f, c) ==> FitsValue(f, Contents(c)) && EncField(f, c) == EncTag(f.tag, WireType(f.ltype)) + EncValue(f, Contents(c))
  {
    if !Present(f, c) && f.htype.Singular? {
      ZeroIsDefault(f, c.v);
    }
  }

  lemma PresentField(fields: seq<Field>, cells: seq<Cell>, k: nat, tail: seq<byte>)
    requires Fits(fields, cells) && k < |fields| == |cells| && FitsCell(fields[k], cells[k]) && !fields[k].htype.Repeated?
    requires Present(fields[k], cells[k]) && FitsValue(fields[k], Contents(cells[k]))
    requires DecValue(fields[k], EncValue(fields[k], Contents(cells[k])) + tail, DefaultValue(fields[k])) ==
             Some((CanonValue(fields[k], Contents(cells[k])), tail))
    ensures DecField(fields, k, WireType(fields[k].ltype), EncValue(fields[k], Contents(cells[k])) + tail, Partly(fields, cells, k)) ==
            Some((Partly(fields, cells, k + 1), tail))
  {
    if fields[k].htype.Oneof? {
      ArmRoundTrip(fields, cells, k);
    } else {
      assert Partly(fields, cells, k + 1) == Partly(fields, cells, k)[k := CanonCell(fields[k], cells[k])];
    }
  }

  /** Choosing the arm that was chosen disturbs no other field. */
  lemma ArmRoundTrip(fields: seq<Field>, cells: seq<Cell>, k: nat)
    requires Fits(fields, cells) && k < |fields| == |cells| && fields[k].htype.Oneof? && Chosen(cells[k])
    ensures SetArm(fields, k, CanonValue(fields[k], cells[k].arm.value), Partly(fields, cells, k)) == Partly(fields, cells, k + 1)
  {
    var before := Partly(fields, cells, k);
    forall i | 0 <= i < |fields| && i != k && SameUnion(fields, i, k)
      ensures before[i] == Arm(None)
    {
      assert FitsCell(fields[i], cells[i]);
      assert i < k ==> SameUnion(fields, i, k) && !Chosen(cells[i]);
    }
  }

  // ----- the theorems -----

  /** pb_decode of pb_encode restores every present field of every valid message. */
  lemma RoundTrip(fields: seq<Field>, cells: seq<Cell>)
    requires WellFormed(fields) && Fits(fields, cells) && |EncMessage(fields, cells)| < TWO_32
    ensures DecMessage(fields, EncMessage(fields, cells)) == Some(CanonMessage(fields, cells))
  {
    MessageRoundTrip(fields, cells, []);
    assert EncMessage(fields, cells) + [] == EncMessage(fields, cells);
  }

  /** Having seen more required fields never turns success into failure, nor changes the result. */
  lemma {:induction false} SeenMonotone(fields: seq<Field>, s: seq<byte>, cells: seq<Cell>, seen: set<nat>, more: set<nat>)
    requires seen <= more && DecLoop(fields, s, cells, seen).Some?
    ensures DecLoop(fields, s, cells, more) == DecLoop(fields, s, cells, seen)
    decreases |s|
  {
    if s != [] && DecTag(s).Tag? {
      var Tag(tag, wireType, rest) := DecTag(s);
      var k := LowestField(fields, tag);
      if k == |fields| {
        SeenMonotone(fields, SkipField(rest, wireType).value, cells, seen, more);
      } else {
        var (cells', rest') := DecField(fields, k, wireType, rest, cells).value;
        if fields[k].htype.Required? {
          SeenMonotone(fields, rest', cells', seen + {k}, more + {k});
        } else {
          SeenMonotone(fields, rest', cells', seen, more);
        }
      }
    }
  }

  /**
    Concatenation merges: decoding an encoded message followed by any bytes that
    pb_decode_noinit accepts on top of that message gives that merge.
   */
  lemma ConcatenationMerges(fields: seq<Field>, cells: seq<Cell>, s: seq<byte>)
    requires WellFormed(fields) && Fits(fields, cells) && |EncMessage(fields, cells)| < TWO_32
    requires DecLoop(fields, s, CanonMessage(fields, cells), {}).Some?
    ensures DecMessage(fields, EncMessage(fields, cells) + s) == DecLoop(fields, s, CanonMessage(fields, cells), {})
  {
    MessageRoundTrip(fields, cells, s);
    SeenMonotone(fields, s, CanonMessage(fields, cells), {}, RequiredBefore(fields, |fields|));
  }

  // ----- merging a second encoded message, accepted or not -----

  /** Whatever is merged into, an encoded item is either rejected or read to its end. */
  lemma ValueEnds(f: Field, v: Value, rest: seq<byte>, prior: Value)
    requires WellFormedField(f) && FitsValue(f, v) && |EncValue(f, v)| < TWO_32
    ensures var r := DecValue(f, EncValue(f, v) + rest, prior); r.Some? ==> r.value.1 == rest
  {
    if Packable(f.ltype) {
      ScalarRoundTrip(f, v, rest);
    } else if !f.ltype.Submessage? {
      BytesRoundTrip(f, v, rest);
    } else {
      BlockRoundTrip(EncMessage(f.sub, v.cells), rest);
    }
  }

  /** The rest of the input gives the same with either set of required fields, whatever one turn makes of the message. */
  ghost predicate Agree(fields: seq<Field>, rest: seq<byte>, seen: set<nat>, seen': set<nat>) {
    forall cells :: DecLoop(fields, rest, cells, seen) == DecLoop(fields, rest, cells, seen')
  }

  ghost function Marked(fields: seq<Field>, k: nat, seen: set<nat>): set<nat>
    requires k < |fields|
  {
    if fields[k].htype.Required? then seen + {k} else seen
  }

  lemma TurnAgrees(fields: seq<Field>, k: nat, wireType: nat, payload: seq<byte>, rest: seq<byte>, cells: seq<Cell>, seen: set<nat>, seen': set<nat>)
    requires WellFormed(fields) && k < |fields| == |cells| && wireType < 8
    requires var r := DecField(fields, k, wireType, payload + rest, cells); r.Some? ==> r.value.1 == rest
    requires Agree(fields, rest, Marked(fields, k, seen), Marked(fields, k, seen'))
    ensures var s := EncTag(fields[k].tag, wireType) + payload + rest; DecLoop(fields, s, cells, seen) == DecLoop(fields, s, cells, seen')
  {
    var s := EncTag(fields[k].tag, wireType) + payload + rest;
    assert s == EncTag(fields[k].tag, wireType) + (payload + rest);
    assert WellFormedField(fields[k]);
    TagRoundTrip(fields[k].tag, wireType, payload + rest);
    LowestIsOnly(fields, k);
  }

  lemma {:induction false} ItemsAgree(fields: seq<Field>, k: nat, items: seq<Value>, j: nat, rest: seq<byte>, seen: set<nat>, seen': set<nat>)
    requires WellFormed(fields) && k < |fields| && fields[k].htype.Repeated? && !Packable(fields[k].ltype) && j <= |items|
    requires WellFormedField(fields[k]) && forall i :: 0 <= i < |items| ==> FitsValue(fields[k], items[i])
    requires |EncItems(fields[k], items, j, true)| < TWO_32 && Agree(fields, rest, seen, seen')
    ensures Agree(fields, EncItems(fields[k], items, j, true) + rest, seen, seen')
    decreases |items| - j
  {
    var f := fields[k];
    if j == |items| {
      assert EncItems(f, items, j, true) + rest == rest;
    } else {
      var tail := EncItems(f, items, j + 1, true) + rest;
      var payload := EncValue(f, items[j]);
      assert EncItems(f, items, j, true) == EncTag(f.tag, WireType(f.ltype)) + payload + EncItems(f, items, j + 1, true);
      var s := EncTag(f.tag, WireType(f.ltype)) + payload + tail;
      assert EncItems(f, items, j, true) + rest == s;
      ItemsAgree(fields, k, items, j + 1, rest, seen, seen');
      forall cells
        ensures DecLoop(fields, s, cells, seen) == DecLoop(fields, s, cells, seen')
      {
        if |cells| == |fields| {
          ValueEnds(f, items[j], tail, DefaultValue(f));
          TurnAgrees(fields, k, WireType(f.ltype), payload, tail, cells, seen, seen');
        }
      }
    }
  }

  /** The field at k, encoded: rejected, or read to its end and marked. */
  lemma FieldAgrees(fields: seq<Field>, k: nat, c: Cell, rest: seq<byte>, seen: set<nat>, seen': set<nat>)
    requires WellFormed(fields) && k < |fields| && WellFormedField(fields[k]) && FitsCell(fields[k], c) && |EncField(fields[k], c)| < TWO_32
    requires Agree(fields, rest, seen, seen') || fields[k].htype.Required?
    requires Agree(fields, rest, Marked(fields, k, seen), Marked(fields, k, seen'))
    ensures Agree(fields, EncField(fields[k], c) + rest, seen, seen')
  {
    var f := fields[k];
    if f.htype.Repeated? && c.items != [] && !Packable(f.ltype) {
      ItemsAgree(fields, k, c.items, 0, rest, seen, seen');
    } else if f.htype.Repeated? && c.items != [] {
      var block := EncItems(f, c.items, 0, false);
      BlockRoundTrip(block, rest);
      forall cells
        ensures DecLoop(fields, EncField(f, c) + rest, cells, seen) == DecLoop(fields, EncField(f, c) + rest, cells, seen')
      {
        if |cells| == |fields| {
          TurnAgrees(fields, k, 2, EncBlock(block), rest, cells, seen, seen');
        }
      }
    } else if !f.htype.Repeated? && Present(f, c) {
      SingleAgrees(fields, k, c, rest, seen, seen');
    } else {
      assert EncField(f, c) + rest == rest;
    }
  }

  lemma SingleAgrees(fields: seq<Field>, k: nat, c: Cell, rest: seq<byte>, seen: set<nat>, seen': set<nat>)
    requires WellFormed(fields) && k < |fields| && WellFormedField(fields[k]) && FitsCell(fields[k], c) && |EncField(fields[k], c)| < TWO_32
    requires !fields[k].htype.Repeated? && Present(fields[k], c)
    requires Agree(fields, rest, Marked(fields, k, seen), Marked(fields, k, seen'))
    ensures Agree(fields, EncField(fields[k], c) + rest, seen, seen')
  {
    var f := fields[k];
    AbsentIsDefault(f, c);
    var payload := EncValue(f, Contents(c));
    assert EncField(f, c) + rest == EncTag(f.tag, WireType(f.ltype)) + payload + rest;
    forall cells
      ensures DecLoop(fields, EncField(f, c) + rest, cells, seen) == DecLoop(fields, EncField(f, c) + rest, cells, seen')
    {
      if |cells| == |fields| {
        ValueEnds(f, Contents(c), rest, Contents(cells[k]));
        ValueEnds(f, Contents(c), rest, DefaultValue(f));
        TurnAgrees(fields, k, WireType(f.ltype), payload, rest, cells, seen, seen');
      }
    }
  }

  /** An encoded message brings all its required fields, so it does not matter which ones were seen before. */
  lemma {:induction false} EncodedAgrees(fields: seq<Field>, cells: seq<Cell>, k: nat, seen: set<nat>, seen': set<nat>)
    requires WellFormed(fields) && Fits(fields, cells) && k <= |fields| == |cells| && |EncFrom(fields, cells, k)| < TWO_32
    requires RequiredBefore(fields, k) <= seen && RequiredBefore(fields, k) <= seen'
    ensures Agree(fields, EncFrom(fields, cells, k), seen, seen')
    decreases |fields| - k
  {
    if k < |fields| {
      assert WellFormedField(fields[k]) && FitsCell(fields[k], cells[k]);
      EncodedAgrees(fields, cells, k + 1, Marked(fields, k, seen), Marked(fields, k, seen'));
      FieldAgrees(fields, k, cells[k], EncFrom(fields, cells, k + 1), seen, seen');
    }
  }

  /**
    Two encoded messages, one behind the other: decoding gives the first with the second
    merged into it, and fails exactly if that merge does (an array overflows, say).
   */
  lemma EncodingsMerge(fields: seq<Field>, a: seq<Cell>, b: seq<Cell>)
    requires WellFormed(fields) && Fits(fields, a) && Fits(fields, b)
    requires |EncMessage(fields, a)| < TWO_32 && |EncMessage(fields, b)| < TWO_32
    ensures DecMessage(fields, EncMessage(fields, a) + EncMessage(fields, b)) ==
            DecLoop(fields, EncMessage(fields, b), CanonMessage(fields, a), {})
  {
    MessageRoundTrip(fields, a, EncMessage(fields, b));
    EncodedAgrees(fields, b, 0, RequiredBefore(fields, |fields|), {});
  }
}
