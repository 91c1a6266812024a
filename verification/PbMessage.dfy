/**
  Messages of nanopb: field descriptors (pb_field_t of pb.h), the values they describe,
  and, as functions, the wire format that pb_encode.c writes and the merge of a wire
  string into a message that pb_decode.c performs.

  The build options are those of the repository: PB_FIELD_32BIT, no malloc. Callback,
  pointer and extension fields are not part of this model.
 */
module PbMessage {
  import opened Bytes
  import opened PbWire

  const SIZE_MAX := 0xFFFF_FFFF
  const BYTES_HEADER := 4

  datatype LType = Varint | UVarint | SVarint | Fixed32 | Fixed64 | ByteArray | String | Submessage | FixedLengthBytes

  /** Singular is an optional field without a has_ flag, as in proto3. */
  datatype HType = Required | Optional | Singular | Repeated | Oneof

  datatype Field = Field(tag: nat, ltype: LType, htype: HType, dataOffset: nat, dataSize: nat, arraySize: nat,
                         dflt: Option<Value>, sub: seq<Field>)

  /** The contents of one item of a field. */
  datatype Value = Int(i: int) | Raw(bytes: seq<byte>) | Msg(cells: seq<Cell>)

  /** The contents of one field: a value; a has_ flag and a value; a counted array; or one arm of a union. */
  datatype Cell = One(v: Value) | Opt(has: bool, v: Value) | Many(items: seq<Value>) | Arm(arm: Option<Value>)

  // ----- well-formed descriptors and values -----

  predicate Packable(l: LType) {
    l.Varint? || l.UVarint? || l.SVarint? || l.Fixed32? || l.Fixed64?
  }

  predicate IntegerSize(n: nat) {
    n == 1 || n == 2 || n == 4 || n == 8
  }

  function Half(n: nat): int
    requires IntegerSize(n)
  {
    if n == 1 then 0x80 else if n == 2 then 0x8000 else if n == 4 then 0x8000_0000 else 0x8000_0000_0000_0000
  }

  predicate InSigned(n: nat, i: int)
    requires IntegerSize(n)
  {
    -Half(n) <= i < Half(n)
  }

  predicate InUnsigned(n: nat, i: int)
    requires IntegerSize(n)
  {
    0 <= i < 2 * Half(n)
  }

  predicate SizeOk(f: Field) {
    && f.dataSize <= SIZE_MAX && f.arraySize <= SIZE_MAX
    && match f.ltype
       case Varint => IntegerSize(f.dataSize)
       case UVarint => IntegerSize(f.dataSize)
       case SVarint => IntegerSize(f.dataSize)
       case Fixed32 => f.dataSize == 4
       case Fixed64 => f.dataSize == 8
       case ByteArray => f.dataSize >= BYTES_HEADER
       case String => f.dataSize >= 1
       case _ => true
  }

  ghost predicate WellFormedField(f: Field)
    decreases f, 1
  {
    && 1 <= f.tag < 0x2000_0000 && SizeOk(f)
    && (f.dflt.Some? ==> FitsValue(f, f.dflt.value))
    && (f.htype.Singular? ==> !f.ltype.Submessage? && f.dflt.None?)
    && (f.ltype.Submessage? ==> f.dflt.None? && WellFormed(f.sub))
  }

  ghost predicate WellFormed(fields: seq<Field>)
    decreases fields, 0
  {
    && (forall k :: 0 <= k < |fields| ==> WellFormedField(fields[k]))
    && (forall j, k :: 0 <= j < k < |fields| ==> fields[j].tag != fields[k].tag)
  }

  /** Field k shares its storage with field k - 1. */
  predicate JoinsUnion(fields: seq<Field>, k: nat)
    requires k < |fields|
  {
    k > 0 && fields[k - 1].htype.Oneof? && fields[k].htype.Oneof? && fields[k].dataOffset == SIZE_MAX
  }

  /** The first field of the union that field k belongs to. */
  function UnionStart(fields: seq<Field>, k: nat): (r: nat)
    requires k < |fields|
    ensures r <= k
  {
    if JoinsUnion(fields, k) then UnionStart(fields, k - 1) else k
  }

  predicate SameUnion(fields: seq<Field>, j: nat, k: nat)
    requires j < |fields| && k < |fields|
  {
    fields[j].htype.Oneof? && fields[k].htype.Oneof? && UnionStart(fields, j) == UnionStart(fields, k)
  }

  /** The value fits the storage of one item of the field. */
  ghost predicate FitsValue(f: Field, v: Value)
    requires SizeOk(f)
    decreases v, 1
  {
    match f.ltype
    case Varint => v.Int? && InSigned(f.dataSize, v.i)
    case UVarint => v.Int? && InUnsigned(f.dataSize, v.i)
    case SVarint => v.Int? && InSigned(f.dataSize, v.i)
    case Fixed32 => v.Int? && 0 <= v.i < TWO_32
    case Fixed64 => v.Int? && 0 <= v.i < TWO_64
    case ByteArray => v.Raw? && |v.bytes| + BYTES_HEADER <= f.dataSize
    case String => v.Raw? && |v.bytes| + 1 <= f.dataSize
    case FixedLengthBytes => v.Raw? && |v.bytes| == f.dataSize
    case Submessage => v.Msg? && Fits(f.sub, v.cells)
  }

  ghost predicate FitsCell(f: Field, c: Cell)
    decreases c, 2
  {
    SizeOk(f) &&
    match f.htype
    case Required => c.One? && FitsValue(f, c.v)
    case Singular => c.One? && FitsValue(f, c.v)
    case Optional => c.Opt? && FitsValue(f, c.v)
    case Repeated => c.Many? && |c.items| <= f.arraySize && (forall j :: 0 <= j < |c.items| ==> FitsValue(f, c.items[j]))
    case Oneof => c.Arm? && (c.arm.Some? ==> FitsValue(f, c.arm.value))
  }

  ghost predicate FitsCells(fields: seq<Field>, cells: seq<Cell>)
    decreases cells, 0
  {
    |cells| == |fields| && forall k :: 0 <= k < |fields| ==> FitsCell(fields[k], cells[k])
  }

  /** A message value: every field fits, and at most one arm of each union is set. */
  ghost predicate Fits(fields: seq<Field>, cells: seq<Cell>)
    decreases cells, 1
  {
    && FitsCells(fields, cells)
    && (forall j, k :: 0 <= j < k < |fields| && SameUnion(fields, j, k) ==> !(Chosen(cells[j]) && Chosen(cells[k])))
  }

  predicate Chosen(c: Cell) {
    c.Arm? && c.arm.Some?
  }

  // ----- defaults (pb_message_set_to_defaults) -----

  function Zeros(n: nat): (s: seq<byte>)
    ensures |s| == n
  {
    seq(n, _ => 0)
  }

  function DefaultValue(f: Field): Value
    decreases f, 1
  {
    if f.ltype.Submessage? then Msg(Defaults(f.sub))
    else if f.dflt.Some? then f.dflt.value
    else if f.ltype.FixedLengthBytes? then Raw(Zeros(f.dataSize))
    else if f.ltype.ByteArray? || f.ltype.String? then Raw([])
    else Int(0)
  }

  function DefaultCell(f: Field): Cell
    decreases f, 2
  {
    match f.htype
    case Required => One(DefaultValue(f))
    case Singular => One(DefaultValue(f))
    case Optional => Opt(false, DefaultValue(f))
    case Repeated => Many([])
    case Oneof => Arm(None)
  }

  function Defaults(fields: seq<Field>): (cells: seq<Cell>)
    ensures |cells| == |fields|
    ensures forall k :: 0 <= k < |fields| ==> cells[k] == DefaultCell(fields[k])
    decreases fields, 0
  {
    if fields == [] then [] else [DefaultCell(fields[0])] + Defaults(fields[1..])
  }

  // ----- encoding -----

  function EncTag(tag: nat, wireType: nat): seq<byte> {
    EncVarint(8 * tag + wireType)
  }

  function WireType(l: LType): nat {
    match l
    case Fixed32 => 5
    case Fixed64 => 1
    case ByteArray => 2
    case String => 2
    case Submessage => 2
    case FixedLengthBytes => 2
    case _ => 0
  }

  /** A C string: up to the first NUL. */
  function CString(b: seq<byte>): (r: seq<byte>)
    ensures |r| <= |b| && r <= b && (forall i :: 0 <= i < |r| ==> r[i] != 0) && (|r| < |b| ==> b[|r|] == 0)
  {
    if b == [] || b[0] == 0 then [] else [b[0]] + CString(b[1..])
  }

  function EncBlock(b: seq<byte>): seq<byte> {
    EncVarint(|b|) + b
  }

  function IntOf(v: Value): int {
    if v.Int? then v.i else 0
  }

  function BytesOf(v: Value): seq<byte> {
    if v.Raw? then v.bytes else []
  }

  /** The characters of a string field: at most its storage, up to the first NUL. */
  function StringOf(f: Field, v: Value): seq<byte> {
    var b := BytesOf(v);
    CString(if |b| > f.dataSize then b[..f.dataSize] else b)
  }

  /** Conversion of a stored integer to uint64_t. */
  function Word(i: int): uint64 {
    if 0 <= i < TWO_64 then i else i % TWO_64
  }

  /** A number of at most 64 bits with a sign is recovered from its word. */
  lemma WordOfSigned(i: int)
    requires -TWO_63 <= i < TWO_63
    ensures Word(i) == ToUnsigned(i) && ToSigned(Word(i)) == i
  {
    assert i < 0 ==> i % TWO_64 == i + TWO_64;
  }

  lemma SignedBound(n: nat, i: int)
    requires IntegerSize(n) && InSigned(n, i)
    ensures -TWO_63 <= i < TWO_63
  {
  }

  /** One item, without its tag. */
  function EncValue(f: Field, v: Value): seq<byte>
    decreases v, 1
  {
    match f.ltype
    case Varint => EncVarint(Word(IntOf(v)))
    case UVarint => EncVarint(Word(IntOf(v)))
    case SVarint => EncVarint(Zigzag(ToSigned(Word(IntOf(v)))))
    case Fixed32 => LittleEndian(Word(IntOf(v)), 4)
    case Fixed64 => LittleEndian(Word(IntOf(v)), 8)
    case ByteArray => EncBlock(BytesOf(v))
    case String => EncBlock(StringOf(f, v))
    case FixedLengthBytes => EncBlock(BytesOf(v))
    case Submessage => if v.Msg? then EncBlock(EncMessage(f.sub, v.cells)) else EncBlock([])
  }

  /** Items j, j + 1, ... of an array, back to back (packed) or each behind its own tag. */
  function EncItems(f: Field, items: seq<Value>, j: nat, tagged: bool): seq<byte>
    requires j <= |items|
    decreases items, 2, |items| - j
  {
    if j == |items| then []
    else (if tagged then EncTag(f.tag, WireType(f.ltype)) else []) + EncValue(f, items[j]) + EncItems(f, items, j + 1, tagged)
  }

  /** The proto3 rule: a value that is all zero is not sent. */
  predicate IsZero(f: Field, v: Value) {
    match f.ltype
    case ByteArray => BytesOf(v) == []
    case String => StringOf(f, v) == []
    case FixedLengthBytes => f.dataSize == 0
    case _ => v == Int(0)
  }

  function Contents(c: Cell): Value {
    match c
    case One(v) => v
    case Opt(_, v) => v
    case Arm(Some(v)) => v
    case _ => Int(0)
  }

  function ItemsOf(c: Cell): seq<Value> {
    if c.Many? then c.items else []
  }

  /** A field that holds at most one value and sends it. */
  predicate Present(f: Field, c: Cell) {
    match f.htype
    case Required => true
    case Singular => !IsZero(f, Contents(c))
    case Optional => c.Opt? && c.has
    case Oneof => Chosen(c)
    case Repeated => false
  }

  function EncField(f: Field, c: Cell): seq<byte>
    decreases c, 3
  {
    if f.htype.Repeated? then
      if !c.Many? || c.items == [] then []
      else if Packable(f.ltype) then EncTag(f.tag, 2) + EncBlock(EncItems(f, c.items, 0, false))
      else EncItems(f, c.items, 0, true)
    else if Present(f, c) then EncTag(f.tag, WireType(f.ltype)) + EncContents(f, c)
    else []
  }

  function EncContents(f: Field, c: Cell): seq<byte>
    decreases c, 2
  {
    match c
    case One(v) => EncValue(f, v)
    case Opt(_, v) => EncValue(f, v)
    case Arm(Some(v)) => EncValue(f, v)
    case _ => []
  }

  /** Fields k, k + 1, ... of a message. */
  function EncFrom(fields: seq<Field>, cells: seq<Cell>, k: nat): seq<byte>
    requires k <= |fields|
    decreases cells, 0, |fields| - k
  {
    if k == |fields| || k >= |cells| then [] else EncField(fields[k], cells[k]) + EncFrom(fields, cells, k + 1)
  }

  /** The wire form of a message: its fields in descriptor order. */
  function EncMessage(fields: seq<Field>, cells: seq<Cell>): seq<byte>
    decreases cells, 1
  {
    EncFrom(fields, cells, 0)
  }

  // ----- decoding: tags and skipping -----

  datatype TagResult = EndOfMessage | BadTag | Tag(tag: nat, wireType: nat, rest: seq<byte>)

  /** pb_decode_tag. A truncated tag at the end of the input, like a zero tag, ends the message. */
  function DecTag(s: seq<byte>): (r: TagResult)
    ensures r.Tag? ==> |r.rest| < |s|
  {
    match DecVarint32(s)
    case Bad(left) => if left == 0 then EndOfMessage else BadTag
    case Value(t, rest) => if t == 0 then EndOfMessage else Tag(t / 8, t % 8, rest)
  }

  function SkipVarint(s: seq<byte>): (r: Option<seq<byte>>)
    ensures r.Some? ==> |r.value| < |s|
  {
    if s == [] then None else if s[0] < 128 then Some(s[1..]) else SkipVarint(s[1..])
  }

  function SkipBytes(s: seq<byte>, n: nat): (r: Option<seq<byte>>)
    ensures r.Some? ==> |r.value| <= |s|
  {
    if |s| < n then None else Some(s[n..])
  }

  /** pb_skip_field. */
  function SkipField(s: seq<byte>, wireType: nat): (r: Option<seq<byte>>)
    ensures r.Some? ==> |r.value| <= |s|
  {
    if wireType == 0 then SkipVarint(s)
    else if wireType == 1 then SkipBytes(s, 8)
    else if wireType == 5 then SkipBytes(s, 4)
    else if wireType == 2 then
      match DecVarint32(s)
      case Bad(_) => None
      case Value(n, rest) => SkipBytes(rest, n)
    else None
  }

  // ----- decoding: values -----

  function LowestField(fields: seq<Field>, tag: nat): (k: nat)
    ensures k <= |fields|
    ensures k < |fields| ==> fields[k].tag == tag
    ensures forall j :: 0 <= j < k ==> fields[j].tag != tag
  {
    if fields == [] || fields[0].tag == tag then 0 else 1 + LowestField(fields[1..], tag)
  }

  /** Conversion of the low 32 bits to int32_t. */
  function ToInt32(v: nat): int {
    var low := v % TWO_32;
    if low >= 0x8000_0000 then low - TWO_32 else low
  }

  /** A length prefix and the block it announces, if the stream is long enough. */
  function DecBlock(s: seq<byte>): (r: Option<(seq<byte>, seq<byte>)>)
    ensures r.Some? ==> |r.value.0| + |r.value.1| < |s| && |r.value.0| < TWO_32
  {
    match DecVarint32(s)
    case Bad(_) => None
    case Value(n, rest) => if |rest| < n then None else Some((rest[..n], rest[n..]))
  }

  /** Integer and fixed-width items. */
  function DecScalar(f: Field, s: seq<byte>): (r: Option<(Value, seq<byte>)>)
    ensures r.Some? ==> |r.value.1| < |s|
  {
    if f.ltype.Fixed32? then
      if |s| < 4 then None else Some((Int(ReadLittleEndian(s[..4])), s[4..]))
    else if f.ltype.Fixed64? then
      if |s| < 8 then None else Some((Int(ReadLittleEndian(s[..8])), s[8..]))
    else
      match DecVarint64(s)
      case Bad(_) => None
      case Value(v, rest) =>
        if !IntegerSize(f.dataSize) then None
        else if f.ltype.Varint? then
          var i := if f.dataSize == 8 then ToSigned(v) else ToInt32(v);
          if InSigned(f.dataSize, i) then Some((Int(i), rest)) else None
        else if f.ltype.UVarint? then
          if InUnsigned(f.dataSize, v) then Some((Int(v), rest)) else None
        else
          var i := Unzigzag(v);
          if InSigned(f.dataSize, i) then Some((Int(i), rest)) else None
  }

  /** Length-delimited byte items, checked against the space of the field before any byte is stored. */
  function DecBytes(f: Field, s: seq<byte>): (r: Option<(Value, seq<byte>)>)
    ensures r.Some? ==> |r.value.1| < |s|
  {
    match DecVarint32(s)
    case Bad(_) => None
    case Value(n, rest) =>
      if f.ltype.ByteArray? && n + BYTES_HEADER > f.dataSize then None
      else if f.ltype.String? && n + 1 > f.dataSize then None
      else if f.ltype.FixedLengthBytes? && n == 0 then Some((Raw(Zeros(f.dataSize)), rest))
      else if f.ltype.FixedLengthBytes? && n != f.dataSize then None
      else if |rest| < n then None
      else Some((Raw(rest[..n]), rest[n..]))
  }

  /** One item. A submessage is merged into `prior`, the contents already there. */
  ghost function DecValue(f: Field, s: seq<byte>, prior: Value): (r: Option<(Value, seq<byte>)>)
    ensures r.Some? ==> |r.value.1| < |s|
    decreases |s|, 0
  {
    if Packable(f.ltype) then DecScalar(f, s)
    else if !f.ltype.Submessage? then DecBytes(f, s)
    else
      match DecBlock(s)
      case None => None
      case Some((block, rest)) =>
        match DecLoop(f.sub, block, if prior.Msg? then prior.cells else Defaults(f.sub), {})
        case None => None
        case Some(cells) => Some((Msg(cells), rest))
  }

  /** A packed array: items until the block is used up or the array is full. */
  ghost function DecPacked(f: Field, block: seq<byte>, items: seq<Value>): Option<seq<Value>>
    requires Packable(f.ltype)
    decreases |block|, 0
  {
    if block == [] then Some(items)
    else if |items| >= f.arraySize then None
    else
      match DecScalar(f, block)
      case None => None
      case Some((v, rest)) => DecPacked(f, rest, items + [v])
  }

  /** Choosing arm k of a union gives up the other arms. */
  function SetArm(fields: seq<Field>, k: nat, v: Value, cells: seq<Cell>): (r: seq<Cell>)
    requires k < |fields| == |cells|
    ensures |r| == |cells|
  {
    seq(|cells|, i requires 0 <= i < |cells| =>
      if i == k then Arm(Some(v)) else if SameUnion(fields, i, k) then Arm(None) else cells[i])
  }

  /** decode_static_field. */
  ghost function DecField(fields: seq<Field>, k: nat, wireType: nat, s: seq<byte>, cells: seq<Cell>): (r: Option<(seq<Cell>, seq<byte>)>)
    requires k < |fields| == |cells|
    ensures r.Some? ==> |r.value.0| == |cells| && |r.value.1| <= |s|
    decreases |s|, 1
  {
    var f := fields[k];
    match f.htype
    case Required =>
      (match DecValue(f, s, Contents(cells[k])) case None => None case Some((v, rest)) => Some((cells[k := One(v)], rest)))
    case Singular =>
      (match DecValue(f, s, Contents(cells[k])) case None => None case Some((v, rest)) => Some((cells[k := One(v)], rest)))
    case Optional =>
      (match DecValue(f, s, Contents(cells[k])) case None => None case Some((v, rest)) => Some((cells[k := Opt(true, v)], rest)))
    case Oneof =>
      (match DecValue(f, s, DefaultValue(f)) case None => None case Some((v, rest)) => Some((SetArm(fields, k, v, cells), rest)))
    case Repeated =>
      var items := ItemsOf(cells[k]);
      if wireType == 2 && Packable(f.ltype) then
        match DecBlock(s)
        case None => None
        case Some((block, rest)) =>
          (match DecPacked(f, block, items) case None => None case Some(items') => Some((cells[k := Many(items')], rest)))
      else if |items| >= f.arraySize then None
      else
        match DecValue(f, s, DefaultValue(f)) case None => None case Some((v, rest)) => Some((cells[k := Many(items + [v])], rest))
  }

  // ----- decoding: messages -----

  /** Every required field has been seen. */
  ghost predicate AllSeen(fields: seq<Field>, seen: set<nat>) {
    forall k :: 0 <= k < |fields| && fields[k].htype.Required? ==> k in seen
  }

  /** pb_decode_noinit: merges a wire string into a message; `seen` holds the required fields found so far. */
  ghost function DecLoop(fields: seq<Field>, s: seq<byte>, cells: seq<Cell>, seen: set<nat>): (r: Option<seq<Cell>>)
    ensures r.Some? ==> |r.value| == |cells|
    decreases |s|, 2
  {
    if |cells| != |fields| then None
    else if s == [] then (if AllSeen(fields, seen) then Some(cells) else None)
    else
      match DecTag(s)
      case EndOfMessage => if AllSeen(fields, seen) then Some(cells) else None
      case BadTag => None
      case Tag(tag, wireType, rest) =>
        var k := LowestField(fields, tag);
        if k == |fields| then
          // an empty message type answers tag zero with its terminator, which no decoder accepts
          if fields == [] && tag == 0 then None
          else
            match SkipField(rest, wireType)
            case None => None
            case Some(rest') => DecLoop(fields, rest', cells, seen)
        else
          match DecField(fields, k, wireType, rest, cells)
          case None => None
          case Some((cells', rest')) =>
            DecLoop(fields, rest', cells', if fields[k].htype.Required? then seen + {k} else seen)
  }

  /** pb_decode. */
  ghost function DecMessage(fields: seq<Field>, s: seq<byte>): Option<seq<Cell>> {
    DecLoop(fields, s, Defaults(fields), {})
  }
}
