/**
  Fields that the decoder does not know (pb_skip_field): a message written from a newer
  descriptor is read as if the fields that are missing in the older one were not there.

  The shapes that are skipped are given here by the bytes on the wire, apart from the
  tables of the encoder and of the decoder.
 */
module PbUnknown {
  import opened Bytes
  import opened PbWire
  import opened PbMessage
  import PbRoundTrip

  // ----- one skipped item -----

  /** The payload of a field with the wire types of the protocol buffer encoding: varint, eight bytes, block, four bytes. */
  ghost predicate PayloadShaped(wireType: nat, b: seq<byte>) {
    || (wireType == 0 && VarintShaped(b))
    || (wireType == 1 && |b| == 8)
    || (wireType == 2 && exists n: nat :: n <= |b| && n < TWO_32 && b == EncVarint(n) + b[|b| - n..])
    || (wireType == 5 && |b| == 4)
  }

  lemma {:induction false} SkipShapedVarint(b: seq<byte>, rest: seq<byte>)
    requires VarintShaped(b)
    ensures SkipVarint(b + rest) == Some(rest)
  {
    assert (b + rest)[1..] == b[1..] + rest;
    if |b| > 1 {
      SkipShapedVarint(b[1..], rest);
    }
  }

  /** A payload is skipped exactly, whatever its bytes are; */
  lemma SkipShaped(wireType: nat, b: seq<byte>, rest: seq<byte>)
    requires PayloadShaped(wireType, b)
    ensures SkipField(b + rest, wireType) == Some(rest)
  {
    if wireType == 0 {
      SkipShapedVarint(b, rest);
    } else if wireType == 2 {
      var n: nat :| n <= |b| && n < TWO_32 && b == EncVarint(n) + b[|b| - n..];
      assert b + rest == EncVarint(n) + (b[|b| - n..] + rest);
      VarintRoundTrip32(n, b[|b| - n..] + rest);
    }
  }

  /** nothing is skipped of a payload that is cut short or has no such wire type. */
  lemma SkipRejects(s: seq<byte>, wireType: nat)
    ensures wireType == 0 && (forall i :: 0 <= i < |s| ==> s[i] >= 128) ==> SkipField(s, wireType).None?
    ensures wireType == 1 && |s| < 8 ==> SkipField(s, wireType).None?
    ensures wireType == 5 && |s| < 4 ==> SkipField(s, wireType).None?
    ensures wireType !in {0, 1, 2, 5} ==> SkipField(s, wireType).None?
  {
    if forall i :: 0 <= i < |s| ==> s[i] >= 128 {
      SkipUnended(s);
    }
  }

  lemma {:induction false} SkipUnended(s: seq<byte>)
    requires forall i :: 0 <= i < |s| ==> s[i] >= 128
    ensures SkipVarint(s).None?
  {
    if s != [] {
      SkipUnended(s[1..]);
    }
  }

  lemma BlockIsShaped(b: seq<byte>)
    requires |b| < TWO_32
    ensures PayloadShaped(2, EncBlock(b))
  {
    var s := EncBlock(b);
    assert s[|s| - |b|..] == b;
  }

  /** What the encoder writes for a value has the shape of the wire type that it announces. */
  lemma ValueIsShaped(g: Field, v: Value)
    requires SizeOk(g) && FitsValue(g, v) && |EncValue(g, v)| < TWO_32
    ensures PayloadShaped(WireType(g.ltype), EncValue(g, v))
  {
    match g.ltype {
      case Varint => EncodedGroups(Word(v.i));
      case UVarint => EncodedGroups(Word(v.i));
      case SVarint => EncodedGroups(Zigzag(ToSigned(Word(v.i))));
      case Fixed32 =>
      case Fixed64 =>
      case ByteArray => BlockIsShaped(v.bytes);
      case String => BlockIsShaped(StringOf(g, v));
      case FixedLengthBytes => BlockIsShaped(v.bytes);
      case Submessage => BlockIsShaped(EncMessage(g.sub, v.cells));
    }
  }

  /** Every item of every type is skipped to its end. */
  lemma SkipEncoded(g: Field, v: Value, rest: seq<byte>)
    requires SizeOk(g) && FitsValue(g, v) && |EncValue(g, v)| < TWO_32
    ensures SkipField(EncValue(g, v) + rest, WireType(g.ltype)) == Some(rest)
  {
    ValueIsShaped(g, v);
    SkipShaped(WireType(g.ltype), EncValue(g, v), rest);
  }

  // ----- unknown fields in a message -----

  predicate Unknown(fields: seq<Field>, tag: nat) {
    1 <= tag < 0x2000_0000 && forall k :: 0 <= k < |fields| ==> fields[k].tag != tag
  }

  lemma Regrouped(a: seq<byte>, b: seq<byte>, c: seq<byte>)
    ensures a + b + c == a + (b + c)
  {
  }

  lemma SkipTurn(fields: seq<Field>, tag: nat, wireType: nat, rest: seq<byte>, rest': seq<byte>, cells: seq<Cell>, seen: set<nat>)
    requires Unknown(fields, tag) && wireType < 8 && SkipField(rest, wireType) == Some(rest')
    ensures DecLoop(fields, EncTag(tag, wireType) + rest, cells, seen) == DecLoop(fields, rest', cells, seen)
  {
    PbRoundTrip.TagRoundTrip(tag, wireType, rest);
    assert LowestField(fields, tag) == |fields|;
  }

  /** A tag that no field has, with any payload of its wire type, changes nothing. */
  lemma UnknownPayload(fields: seq<Field>, tag: nat, wireType: nat, b: seq<byte>, s: seq<byte>, cells: seq<Cell>, seen: set<nat>)
    requires Unknown(fields, tag) && PayloadShaped(wireType, b)
    ensures DecLoop(fields, EncVarint(8 * tag + wireType) + b + s, cells, seen) == DecLoop(fields, s, cells, seen)
  {
    SkipShaped(wireType, b, s);
    SkipTurn(fields, tag, wireType, b + s, s, cells, seen);
    Regrouped(EncVarint(8 * tag + wireType), b, s);
  }

  /** A tag that no field has is rejected with a wire type that cannot be skipped. */
  lemma UnknownWireType(fields: seq<Field>, tag: nat, wireType: nat, s: seq<byte>, cells: seq<Cell>, seen: set<nat>)
    requires Unknown(fields, tag) && wireType in {3, 4, 6, 7}
    ensures DecLoop(fields, EncVarint(8 * tag + wireType) + s, cells, seen).None?
  {
    PbRoundTrip.TagRoundTrip(tag, wireType, s);
    assert LowestField(fields, tag) == |fields|;
  }

  lemma FourParts(a: seq<byte>, b: seq<byte>, c: seq<byte>, d: seq<byte>)
    ensures a + b + c + d == a + b + (c + d)
  {
  }

  lemma {:induction false} UnknownItems(fields: seq<Field>, g: Field, items: seq<Value>, j: nat, s: seq<byte>, cells: seq<Cell>, seen: set<nat>)
    requires Unknown(fields, g.tag) && SizeOk(g) && j <= |items|
    requires (forall i :: 0 <= i < |items| ==> FitsValue(g, items[i])) && |EncItems(g, items, j, true)| < TWO_32
    ensures DecLoop(fields, EncItems(g, items, j, true) + s, cells, seen) == DecLoop(fields, s, cells, seen)
    decreases |items| - j
  {
    if j == |items| {
      assert EncItems(g, items, j, true) + s == s;
    } else {
      var tag, item, rest := EncTag(g.tag, WireType(g.ltype)), EncValue(g, items[j]), EncItems(g, items, j + 1, true);
      assert EncItems(g, items, j, true) == tag + item + rest;
      FourParts(tag, item, rest, s);
      ValueIsShaped(g, items[j]);
      UnknownPayload(fields, g.tag, WireType(g.ltype), item, rest + s, cells, seen);
      UnknownItems(fields, g, items, j + 1, s, cells, seen);
    }
  }

  lemma UnknownSingle(fields: seq<Field>, g: Field, c: Cell, s: seq<byte>, cells: seq<Cell>, seen: set<nat>)
    requires Unknown(fields, g.tag) && FitsCell(g, c) && |EncField(g, c)| < TWO_32 && !g.htype.Repeated? && EncField(g, c) != []
    ensures DecLoop(fields, EncField(g, c) + s, cells, seen) == DecLoop(fields, s, cells, seen)
  {
    SingleEncoding(g, c);
    ValueIsShaped(g, Contents(c));
    UnknownPayload(fields, g.tag, WireType(g.ltype), EncValue(g, Contents(c)), s, cells, seen);
  }

  lemma SingleEncoding(g: Field, c: Cell)
    requires FitsCell(g, c) && !g.htype.Repeated? && EncField(g, c) != []
    ensures SizeOk(g) && FitsValue(g, Contents(c)) && EncField(g, c) == EncVarint(8 * g.tag + WireType(g.ltype)) + EncValue(g, Contents(c))
  {
  }

  lemma UnknownBlock(fields: seq<Field>, tag: nat, block: seq<byte>, s: seq<byte>, cells: seq<Cell>, seen: set<nat>)
    requires Unknown(fields, tag) && |block| < TWO_32
    ensures DecLoop(fields, EncTag(tag, 2) + EncBlock(block) + s, cells, seen) == DecLoop(fields, s, cells, seen)
  {
    BlockIsShaped(block);
    UnknownPayload(fields, tag, 2, EncBlock(block), s, cells, seen);
  }

  /** A field that the decoder does not know is passed over, of whatever kind it is and whatever it holds. */
  lemma UnknownField(fields: seq<Field>, g: Field, c: Cell, s: seq<byte>, cells: seq<Cell>, seen: set<nat>)
    requires Unknown(fields, g.tag) && FitsCell(g, c) && |EncField(g, c)| < TWO_32
    ensures DecLoop(fields, EncField(g, c) + s, cells, seen) == DecLoop(fields, s, cells, seen)
  {
    if EncField(g, c) == [] {
      assert EncField(g, c) + s == s;
    } else if !g.htype.Repeated? {
      UnknownSingle(fields, g, c, s, cells, seen);
    } else if Packable(g.ltype) {
      UnknownBlock(fields, g.tag, EncItems(g, c.items, 0, false), s, cells, seen);
    } else {
      UnknownItems(fields, g, c.items, 0, s, cells, seen);
    }
  }

  /** Fields k, k + 1, ... of a message whose fields are all unknown to the decoder. */
  lemma {:induction false} UnknownFields(fields: seq<Field>, others: seq<Field>, values: seq<Cell>, k: nat, s: seq<byte>, cells: seq<Cell>, seen: set<nat>)
    requires FitsCells(others, values) && k <= |others| && |EncFrom(others, values, k)| < TWO_32
    requires forall j :: 0 <= j < |others| ==> Unknown(fields, others[j].tag)
    ensures DecLoop(fields, EncFrom(others, values, k) + s, cells, seen) == DecLoop(fields, s, cells, seen)
    decreases |others| - k
  {
    if k == |others| {
      assert EncFrom(others, values, k) + s == s;
    } else {
      var rest := EncFrom(others, values, k + 1);
      assert EncFrom(others, values, k) + s == EncField(others[k], values[k]) + (rest + s);
      UnknownField(fields, others[k], values[k], rest + s, cells, seen);
      UnknownFields(fields, others, values, k + 1, s, cells, seen);
    }
  }

  // ----- older decoders -----

  /** The fields before k, in descriptor order. */
  function EncTo(fields: seq<Field>, cells: seq<Cell>, k: nat): seq<byte>
    requires k <= |fields| == |cells|
  {
    if k == 0 then [] else EncTo(fields, cells, k - 1) + EncField(fields[k - 1], cells[k - 1])
  }

  lemma {:induction false} SplitEncoding(fields: seq<Field>, cells: seq<Cell>, k: nat)
    requires k <= |fields| == |cells|
    ensures EncMessage(fields, cells) == EncTo(fields, cells, k) + EncFrom(fields, cells, k)
  {
    if k > 0 {
      SplitEncoding(fields, cells, k - 1);
    }
  }

  lemma {:induction false} FieldsBefore(fields: seq<Field>, cells: seq<Cell>, k: nat, s: seq<byte>)
    requires WellFormed(fields) && Fits(fields, cells) && k <= |fields| == |cells| && |EncTo(fields, cells, k)| < TWO_32
    ensures DecLoop(fields, EncTo(fields, cells, k) + s, Defaults(fields), {}) ==
            DecLoop(fields, s, PbRoundTrip.Partly(fields, cells, k), PbRoundTrip.RequiredBefore(fields, k))
  {
    if k == 0 {
      assert PbRoundTrip.Partly(fields, cells, 0) == Defaults(fields);
      assert EncTo(fields, cells, k) + s == s;
    } else {
      var last := EncField(fields[k - 1], cells[k - 1]);
      assert EncTo(fields, cells, k) + s == EncTo(fields, cells, k - 1) + (last + s);
      FieldsBefore(fields, cells, k - 1, last + s);
      assert WellFormedField(fields[k - 1]) && FitsCell(fields[k - 1], cells[k - 1]);
      PbRoundTrip.FieldRoundTrip(fields, cells, k - 1, s);
    }
  }

  /**
    A decoder with an older descriptor restores its own fields of a newer message: with
    fields that it does not know before any of its own, decoding succeeds and gives what
    it would give without them.
   */
  lemma OlderDecoder(fields: seq<Field>, cells: seq<Cell>, k: nat, others: seq<Field>, values: seq<Cell>)
    requires WellFormed(fields) && Fits(fields, cells) && k <= |fields| == |cells| && |EncMessage(fields, cells)| < TWO_32
    requires FitsCells(others, values) && |EncMessage(others, values)| < TWO_32
    requires forall j :: 0 <= j < |others| ==> Unknown(fields, others[j].tag)
    ensures DecMessage(fields, EncTo(fields, cells, k) + EncMessage(others, values) + EncFrom(fields, cells, k)) ==
            Some(PbRoundTrip.CanonMessage(fields, cells))
  {
    WithoutUnknown(fields, cells, k);
    FieldsBefore(fields, cells, k, EncMessage(others, values) + EncFrom(fields, cells, k));
    UnknownFields(fields, others, values, 0, EncFrom(fields, cells, k),
                  PbRoundTrip.Partly(fields, cells, k), PbRoundTrip.RequiredBefore(fields, k));
    Regrouped(EncTo(fields, cells, k), EncMessage(others, values), EncFrom(fields, cells, k));
  }

  lemma WithoutUnknown(fields: seq<Field>, cells: seq<Cell>, k: nat)
    requires WellFormed(fields) && Fits(fields, cells) && k <= |fields| == |cells| && |EncMessage(fields, cells)| < TWO_32
    ensures |EncTo(fields, cells, k)| < TWO_32
    ensures DecLoop(fields, EncFrom(fields, cells, k), PbRoundTrip.Partly(fields, cells, k), PbRoundTrip.RequiredBefore(fields, k)) ==
            Some(PbRoundTrip.CanonMessage(fields, cells))
  {
    SplitEncoding(fields, cells, k);
    FieldsBefore(fields, cells, k, EncFrom(fields, cells, k));
    PbRoundTrip.RoundTrip(fields, cells);
  }
}
