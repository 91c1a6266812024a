/**
  The message decoder of nanopb (pb_decode.c): the code that walks a stream, the field
  iterator and the required-field bit set, proved to compute the merge of module
  PbMessage. On every input it terminates, reads within the stream, and stores within
  every array and buffer: the message it leaves behind fits its descriptors, whether the
  input is accepted or not.

  A method that decodes returns the destination as the code leaves it, also when it fails.
 */
module PbDecoder {
  import opened Bytes
  import opened PbWire
  import opened PbMessage
  import opened PbIterator
  import opened PbSafety
  import opened PbStream

  const MAX_REQUIRED := 64

  /** The field counts for which the required-field check is defined, at every level. */
  ghost predicate Checkable(fields: seq<Field>) {
    var n := RequiredIndex(fields, |fields|);
    n < MAX_REQUIRED && n != 32 && forall k :: 0 <= k < |fields| && fields[k].ltype.Submessage? ==> Checkable(fields[k].sub)
  }

  // ----- the required-field bit set -----

  /** The low n bits of a 32-bit word. */
  function LowBits(n: nat): (w: seq<bool>)
    ensures |w| == 32 && forall i :: 0 <= i < 32 ==> w[i] == (i < n)
  {
    seq(32, i => i < n)
  }

  /** fields_seen: two words of 32 bits. */
  class SeenBits {
    var words: seq<seq<bool>>

    ghost predicate Valid()
      reads this
    {
      |words| == 2 && |words[0]| == 32 && |words[1]| == 32
    }

    ghost predicate Bit(n: nat)
      requires Valid() && n < MAX_REQUIRED
      reads this
    {
      words[n / 32][n % 32]
    }

    /** Exactly the required fields in `seen` have their bit set. */
    ghost predicate Represents(fields: seq<Field>, seen: set<nat>)
      reads this
    {
      && Valid() && RequiredIndex(fields, |fields|) < MAX_REQUIRED
      && (forall n: nat :: n < MAX_REQUIRED && Bit(n) ==> exists k: nat :: k in seen && RequiredAs(fields, k, n))
      && (forall k: nat, n: nat :: k in seen && n < MAX_REQUIRED && RequiredAs(fields, k, n) ==> Bit(n))
    }

    constructor ()
      ensures Valid() && forall n: nat :: n < MAX_REQUIRED ==> !Bit(n)
    {
      words := [LowBits(0), LowBits(0)];
    }

    /** The bit of one required field is set. */
    method Mark(fields: seq<Field>, k: nat, n: nat, ghost seen: set<nat>)
      requires Represents(fields, seen) && RequiredAs(fields, k, n)
      modifies this
      ensures Represents(fields, seen + {k})
    {
      RequiredIndexIncreases(fields, k, |fields|);
      SetBit(n);
      forall m: nat | m < MAX_REQUIRED && Bit(m)
        ensures exists j: nat :: j in seen + {k} && RequiredAs(fields, j, m)
      {
        if m == n {
          assert k in seen + {k} && RequiredAs(fields, k, m);
        } else {
          assert old(Bit(m));
        }
      }
    }

    method SetBit(n: nat)
      requires Valid() && n < MAX_REQUIRED
      modifies this
      ensures Valid() && forall m: nat :: m < MAX_REQUIRED ==> Bit(m) == (m == n || old(Bit(m)))
    {
      words := words[n / 32 := words[n / 32][n % 32 := true]];
    }

    /** The closing check: whole words against all ones, then the remaining bits exactly. */
    method Check(count: nat) returns (ok: bool)
      requires Valid() && count < MAX_REQUIRED && count != 32
      requires forall n: nat :: n < MAX_REQUIRED && Bit(n) ==> n < count
      ensures ok <==> forall n: nat :: n < count ==> Bit(n)
    {
      if count == 0 {
        return true;
      }
      var i: nat := 0;
      while i < count / 32
        invariant i <= count / 32
        invariant forall n: nat :: n < 32 * i ==> Bit(n)
      {
        if words[i] != LowBits(32) {
          ghost var b := Difference(words[i], LowBits(32));
          assert !Bit(32 * i + b);
          return false;
        }
        assert forall n: nat :: n < 32 * i + 32 ==> Bit(n);
        i := i + 1;
      }
      var w, rest := count / 32, count % 32;
      assert forall b: nat :: b < 32 && words[w][b] ==> Bit(32 * w + b);
      if words[w] != LowBits(rest) {
        ghost var b := Difference(words[w], LowBits(rest));
        assert !Bit(32 * w + b);
        return false;
      }
      return true;
    }
  }

  lemma Difference(a: seq<bool>, b: seq<bool>) returns (i: nat)
    requires |a| == |b| && a != b
    ensures i < |a| && a[i] != b[i]
  {
    i :| i < |a| && a[i] != b[i];
  }

  /** Field k is required, with index n. */
  ghost predicate RequiredAs(fields: seq<Field>, k: nat, n: nat) {
    k < |fields| && fields[k].htype.Required? && RequiredIndex(fields, k) == n
  }

  lemma SameRequired(fields: seq<Field>, j: nat, k: nat, n: nat)
    requires RequiredAs(fields, j, n) && RequiredAs(fields, k, n)
    ensures j == k
  {
    if j < k {
      RequiredIndexIncreases(fields, j, k);
    } else if k < j {
      RequiredIndexIncreases(fields, k, j);
    }
  }

  /** The bit set accepts exactly if every required field was seen. */
  method AllRequiredSeen(bits: SeenBits, iter: FieldIter, ghost seen: set<nat>) returns (ok: bool)
    requires iter.Canonical() && WellFormed(iter.fields) && Checkable(iter.fields) && bits.Represents(iter.fields, seen)
    modifies iter
    ensures ok <==> AllSeen(iter.fields, seen)
  {
    assert forall k :: 0 <= k < |iter.fields| ==> WellFormedField(iter.fields[k]);
    var count: nat, last: nat, more := iter.requiredIndex, iter.pos, true;
    while more
      invariant more ==> iter.Canonical() && last <= iter.pos
      invariant !more ==> iter.Canonical() && (last + 1 == |iter.fields| || (iter.fields == [] && last == 0))
      invariant !more ==> count == RequiredIndex(iter.fields, last)
      invariant bits.Represents(iter.fields, seen)
      decreases more, |iter.fields| - iter.pos
    {
      count, last := iter.requiredIndex, iter.pos;
      more := iter.Next();
    }
    if last < |iter.fields| && iter.fields[last].htype.Required? {
      count := count + 1;
    }
    assert count == RequiredIndex(iter.fields, |iter.fields|);
    forall n: nat | n < MAX_REQUIRED && bits.Bit(n)
      ensures n < count
    {
      var k: nat :| k in seen && RequiredAs(iter.fields, k, n);
      RequiredIndexIncreases(iter.fields, k, |iter.fields|);
    }
    ok := bits.Check(count);
    AllBitsAllSeen(bits, iter.fields, seen);
  }

  lemma AllBitsAllSeen(bits: SeenBits, fields: seq<Field>, seen: set<nat>)
    requires bits.Represents(fields, seen)
    ensures AllSeen(fields, seen) <==> forall n: nat :: n < RequiredIndex(fields, |fields|) ==> bits.Bit(n)
  {
    var count := RequiredIndex(fields, |fields|);
    if AllSeen(fields, seen) {
      forall n: nat | n < count
        ensures bits.Bit(n)
      {
        var k := RequiredIndexTaken(fields, n, |fields|);
        assert k in seen && RequiredAs(fields, k, n);
      }
    }
    if forall n: nat :: n < count ==> bits.Bit(n) {
      forall k | 0 <= k < |fields| && fields[k].htype.Required?
        ensures k in seen
      {
        var n := RequiredIndex(fields, k);
        RequiredIndexIncreases(fields, k, |fields|);
        assert bits.Bit(n);
        var j: nat :| j in seen && RequiredAs(fields, j, n);
        SameRequired(fields, j, k, n);
      }
    }
  }

  // ----- defaults -----

  /** pb_field_set_to_default. */
  method FieldDefault(f: Field) returns (c: Cell)
    requires WellFormedField(f)
    ensures c == DefaultCell(f)
    decreases f, 1
  {
    if f.htype.Repeated? {
      return Many([]);
    }
    if f.htype.Oneof? {
      return Arm(None);
    }
    var v: Value;
    if f.ltype.Submessage? {
      var cells := SetToDefaults(f.sub);
      v := Msg(cells);
    } else if f.dflt.Some? {
      v := f.dflt.value;
    } else {
      v := ZeroValue(f);
    }
    c := if f.htype.Optional? then Opt(false, v) else One(v);
  }

  /** Storage filled with zero bytes. */
  function ZeroValue(f: Field): Value {
    if f.ltype.FixedLengthBytes? then Raw(Zeros(f.dataSize))
    else if f.ltype.ByteArray? || f.ltype.String? then Raw([])
    else Int(0)
  }

  /** pb_message_set_to_defaults. */
  method SetToDefaults(fields: seq<Field>) returns (cells: seq<Cell>)
    requires WellFormed(fields)
    ensures cells == Defaults(fields)
    decreases fields, 0
  {
    assert forall k :: 0 <= k < |fields| ==> WellFormedField(fields[k]);
    var iter := new FieldIter(fields);
    var more := iter.Begin();
    cells := [];
    while more
      invariant iter.fields == fields && iter.Canonical() && more == (|cells| < |fields|) && |cells| <= |fields|
      invariant more ==> iter.pos == |cells|
      invariant forall k :: 0 <= k < |cells| ==> cells[k] == DefaultCell(fields[k])
      decreases |fields| - |cells|
    {
      var c := FieldDefault(fields[iter.pos]);
      cells := cells + [c];
      more := iter.Next();
    }
  }

  // ----- items -----

  /** Conversion to a signed integer type of n bytes. */
  function CastSigned(n: nat, i: int): int
    requires IntegerSize(n)
  {
    (i + Half(n)) % (2 * Half(n)) - Half(n)
  }

  /** Conversion to an unsigned integer type of n bytes. */
  function CastUnsigned(n: nat, i: nat): int
    requires IntegerSize(n)
  {
    i % (2 * Half(n))
  }

  /** A cast always gives a number of its type, and changes nothing exactly if the number is one. */
  lemma CastInRange(n: nat, i: int)
    requires IntegerSize(n)
    ensures InSigned(n, CastSigned(n, i)) && (CastSigned(n, i) == i <==> InSigned(n, i))
    ensures i >= 0 ==> InUnsigned(n, CastUnsigned(n, i)) && (CastUnsigned(n, i) == i <==> InUnsigned(n, i))
  {
  }

  /** The destination of one item keeps fitting its field. */
  ghost predicate StaysFit(f: Field, prior: Value, v: Value) {
    SizeOk(f) && FitsValue(f, prior) ==> FitsValue(f, v)
  }

  /** pb_dec_varint, pb_dec_uvarint and pb_dec_svarint: store with a cast, and reject what the cast changed. */
  method DecodeInteger(stream: IStream, f: Field, prior: Value) returns (ok: bool, v: Value)
    requires stream.Valid() && (f.ltype.Varint? || f.ltype.UVarint? || f.ltype.SVarint?)
    modifies stream
    ensures match DecScalar(f, old(stream.Rest()))
            case None => !ok && stream.Within(old(stream.End()))
            case Some((x, rest)) => ok && v == x && stream.At(old(stream.End()), rest)
    ensures StaysFit(f, prior, v)
  {
    var read, n := stream.DecodeVarint64();
    if !read || !IntegerSize(f.dataSize) {
      return false, prior;
    }
    var value: int, clamped: int := n, 0;
    if f.ltype.UVarint? {
      clamped := CastUnsigned(f.dataSize, n);
    } else {
      if f.ltype.SVarint? {
        value := if n % 2 == 1 then ToSigned(Complement(n / 2)) else ToSigned(n / 2);
      } else {
        value := if f.dataSize == 8 then ToSigned(n) else ToInt32(n);
      }
      clamped := CastSigned(f.dataSize, value);
    }
    CastInRange(f.dataSize, value);
    return clamped == value, Int(clamped);
  }

  /** pb_read into a destination with room for that many bytes. */
  method ReadInto(stream: IStream, count: nat, ghost room: int) returns (ok: bool, bytes: seq<byte>)
    requires stream.Valid() && count <= room
    modifies stream
    ensures ok == (count <= old(stream.left))
    ensures ok ==> bytes == old(stream.Rest())[..count] && stream.At(old(stream.End()), old(stream.Rest())[count..])
    ensures !ok ==> bytes == [] && stream.At(old(stream.End()), old(stream.Rest()))
  {
    ok, bytes := stream.Read(count);
    if !ok {
      bytes := [];
    }
  }

  /** pb_dec_fixed32 and pb_dec_fixed64, through an array of four or eight bytes. */
  method DecodeFixed(stream: IStream, f: Field, prior: Value) returns (ok: bool, v: Value)
    requires stream.Valid() && (f.ltype.Fixed32? || f.ltype.Fixed64?)
    modifies stream
    ensures match DecScalar(f, old(stream.Rest()))
            case None => !ok && stream.Within(old(stream.End()))
            case Some((x, rest)) => ok && v == x && stream.At(old(stream.End()), rest)
    ensures StaysFit(f, prior, v)
  {
    var size := if f.ltype.Fixed32? then 4 else 8;
    var read, bytes := ReadInto(stream, size, size);
    if !read {
      return false, prior;
    }
    Pow256Values();
    ReadLittleEndianBound(bytes);
    return true, Int(ReadLittleEndian(bytes));
  }

  method DecodeScalar(stream: IStream, f: Field, prior: Value) returns (ok: bool, v: Value)
    requires stream.Valid() && Packable(f.ltype)
    modifies stream
    ensures match DecScalar(f, old(stream.Rest()))
            case None => !ok && stream.Within(old(stream.End()))
            case Some((x, rest)) => ok && v == x && stream.At(old(stream.End()), rest)
    ensures StaysFit(f, prior, v)
  {
    if f.ltype.Fixed32? || f.ltype.Fixed64? {
      ok, v := DecodeFixed(stream, f, prior);
    } else {
      ok, v := DecodeInteger(stream, f, prior);
    }
  }

  /** The room for the bytes of an item: behind its size, or before its terminator. */
  function Room(f: Field): int {
    if f.ltype.ByteArray? then f.dataSize - BYTES_HEADER else if f.ltype.String? then f.dataSize - 1 else f.dataSize
  }

  /** What a failed read of n bytes leaves: a byte array with its new size, a string cut off there, fixed-length bytes untouched. */
  function CutOff(f: Field, prior: Value, n: nat): Value {
    var b := BytesOf(prior);
    if f.ltype.FixedLengthBytes? then prior
    else if n <= |b| then Raw(b[..n])
    else if f.ltype.ByteArray? then Raw(b + Zeros(n - |b|))
    else prior
  }

  /** pb_dec_bytes, pb_dec_string and pb_dec_fixed_length_bytes: no byte is read before the size is known to fit. */
  method DecodeBytes(stream: IStream, f: Field, prior: Value) returns (ok: bool, v: Value)
    requires stream.Valid() && (f.ltype.ByteArray? || f.ltype.String? || f.ltype.FixedLengthBytes?)
    modifies stream
    ensures match DecBytes(f, old(stream.Rest()))
            case None => !ok && stream.Within(old(stream.End()))
            case Some((x, rest)) => ok && v == x && stream.At(old(stream.End()), rest)
    ensures StaysFit(f, prior, v)
  {
    var read, n := stream.DecodeVarint32();
    if !read {
      return false, prior;
    }
    if f.ltype.ByteArray? {
      if n + BYTES_HEADER > f.dataSize {
        return false, prior;
      }
    } else if f.ltype.String? {
      if n + 1 > f.dataSize {
        return false, prior;
      }
    } else if n == 0 {
      return true, Raw(Zeros(f.dataSize));
    } else if n != f.dataSize {
      return false, prior;
    }
    var bytes;
    ok, bytes := ReadInto(stream, n, Room(f));
    v := if ok then Raw(bytes) else CutOff(f, prior, n);
  }

  /** pb_dec_submessage and the dispatch over item types. */
  method DecodeValue(stream: IStream, f: Field, prior: Value) returns (ok: bool, v: Value)
    requires stream.Valid() && WellFormedField(f) && FitsValue(f, prior) && (f.ltype.Submessage? ==> Checkable(f.sub))
    modifies stream
    ensures match DecValue(f, old(stream.Rest()), prior)
            case None => !ok && stream.Within(old(stream.End()))
            case Some((x, rest)) => ok && v == x && stream.At(old(stream.End()), rest)
    ensures FitsValue(f, v)
    decreases stream.left, 1
  {
    if Packable(f.ltype) {
      ok, v := DecodeScalar(stream, f, prior);
    } else if !f.ltype.Submessage? {
      ok, v := DecodeBytes(stream, f, prior);
    } else {
      ok, v := DecodeSubmessage(stream, f, prior);
    }
  }

  method DecodeSubmessage(stream: IStream, f: Field, prior: Value) returns (ok: bool, v: Value)
    requires stream.Valid() && WellFormedField(f) && FitsValue(f, prior) && f.ltype.Submessage? && Checkable(f.sub)
    modifies stream
    ensures match DecValue(f, old(stream.Rest()), prior)
            case None => !ok && stream.Within(old(stream.End()))
            case Some((x, rest)) => ok && v == x && stream.At(old(stream.End()), rest)
    ensures FitsValue(f, v)
    decreases stream.left, 0
  {
    var begun, sub := stream.OpenSubstream();
    if !begun {
      return false, prior;
    }
    var decoded, cells := DecodeNoinit(sub, f.sub, prior.cells);
    var closed := stream.CloseSubstream(sub);
    return closed && decoded, Msg(cells);
  }

  /** The items of an array fit it, in number and each by itself. */
  ghost predicate ItemsFit(f: Field, items: seq<Value>)
    requires SizeOk(f)
  {
    |items| <= f.arraySize && forall j :: 0 <= j < |items| ==> FitsValue(f, items[j])
  }

  /** An array after an attempt to add to it: what was there is still there, and it still fits. */
  ghost predicate ArrayStaysFit(f: Field, items: seq<Value>, items': seq<Value>) {
    items <= items' && (SizeOk(f) && ItemsFit(f, items) ==> ItemsFit(f, items'))
  }

  /** A packed array in its own substream. */
  method DecodePacked(stream: IStream, f: Field, items: seq<Value>) returns (ok: bool, items': seq<Value>)
    requires stream.Valid() && Packable(f.ltype)
    modifies stream
    ensures match DecBlock(old(stream.Rest()))
            case None => !ok && stream.Within(old(stream.End()))
            case Some((block, rest)) =>
              match DecPacked(f, block, items)
              case None => !ok && stream.Within(old(stream.End()))
              case Some(x) => ok && items' == x && stream.At(old(stream.End()), rest)
    ensures ArrayStaysFit(f, items, items')
  {
    var begun, sub := stream.OpenSubstream();
    items' := items;
    if !begun {
      return false, items';
    }
    var status;
    status, items' := DecodeItems(sub, f, items, DecPacked(f, sub.Rest(), items));
    if sub.left != 0 {
      return false, items';
    }
    var closed := stream.CloseSubstream(sub);
    ok := closed && status;
  }

  /** Opens the definition of Packs. */
  ghost predicate Open(x: int) {
    true
  }

  /** Decoding the block behind these items gives this result. */
  ghost predicate Packs(f: Field, block: seq<byte>, items: seq<Value>, result: Option<seq<Value>>)
    requires Packable(f.ltype)
  {
    forall x: int {:trigger Open(x)} :: Open(x) ==> result == DecPacked(f, block, items)
  }

  /** The loop over the items: until the substream is used up, the array is full, or an item is bad. */
  method DecodeItems(sub: IStream, f: Field, items: seq<Value>, ghost result: Option<seq<Value>>) returns (status: bool, items': seq<Value>)
    requires sub.Valid() && Packable(f.ltype) && Packs(f, sub.Rest(), items, result)
    modifies sub
    ensures sub.Within(old(sub.End())) && ArrayStaysFit(f, items, items')
    ensures status && sub.left == 0 ==> sub.End() == old(sub.End()) && result == Some(items')
    ensures !status || sub.left != 0 ==> result.None?
  {
    items', status := items, true;
    ghost var end := sub.End();
    while sub.left > 0 && |items'| < f.arraySize && status
      invariant sub.Within(end) && ArrayStaysFit(f, items, items')
      invariant if status then sub.End() == end && Packs(f, sub.Rest(), items', result) else result.None?
      decreases status, sub.left
    {
      status, items' := DecodeItem(sub, f, items', result);
    }
    if status {
      PacksEnd(f, sub.Rest(), items', result);
    }
  }

  lemma PacksEnd(f: Field, block: seq<byte>, items: seq<Value>, result: Option<seq<Value>>)
    requires Packable(f.ltype) && Packs(f, block, items, result)
    ensures block == [] ==> result == Some(items)
    ensures block != [] && |items| >= f.arraySize ==> result.None?
  {
    assert Open(0);
  }

  method DecodeItem(sub: IStream, f: Field, items: seq<Value>, ghost result: Option<seq<Value>>) returns (status: bool, items': seq<Value>)
    requires sub.Valid() && Packable(f.ltype) && sub.left > 0 && |items| < f.arraySize && Packs(f, sub.Rest(), items, result)
    modifies sub
    ensures sub.Within(old(sub.End())) && ArrayStaysFit(f, items, items')
    ensures status ==> sub.End() == old(sub.End()) && sub.left < old(sub.left) && Packs(f, sub.Rest(), items', result)
    ensures !status ==> result.None? && items' == items
  {
    assert Open(0);
    var v;
    status, v := DecodeScalar(sub, f, Int(0));
    items' := if status then items + [v] else items;
  }

  /** Only field k, and the arms that share its union, may have changed. */
  ghost predicate OnlyField(fields: seq<Field>, k: nat, cells: seq<Cell>, cells': seq<Cell>)
    requires k < |fields| == |cells|
  {
    |cells'| == |cells| && forall j :: 0 <= j < |cells| && j != k && !SameUnion(fields, j, k) ==> cells'[j] == cells[j]
  }

  /** decode_static_field, with the item decoder of the field. */
  method DecodeField(stream: IStream, fields: seq<Field>, k: nat, wireType: nat, cells: seq<Cell>) returns (ok: bool, cells': seq<Cell>)
    requires stream.Valid() && WellFormed(fields) && Checkable(fields) && Fits(fields, cells) && k < |fields| == |cells|
    modifies stream
    ensures match DecField(fields, k, wireType, old(stream.Rest()), cells)
            case None => !ok && stream.Within(old(stream.End()))
            case Some((x, rest)) => ok && cells' == x && stream.At(old(stream.End()), rest)
    ensures Fits(fields, cells') && OnlyField(fields, k, cells, cells')
    decreases stream.left, 3
  {
    var f := fields[k];
    assert WellFormedField(f) && FitsCell(f, cells[k]) && (f.ltype.Submessage? ==> Checkable(f.sub));
    var v: Value;
    match f.htype {
      case Repeated => ok, cells' := DecodeRepeated(stream, fields, k, wireType, cells);
      case Oneof =>
        // the tag of the union is set before the value is read
        DefaultValueFits(f);
        ok, v := DecodeValue(stream, f, DefaultValue(f));
        cells' := SetArm(fields, k, v, cells);
        SetArmFits(fields, cells, k, v);
      case _ =>
        // and so is the has_ flag of an optional field
        ok, v := DecodeValue(stream, f, cells[k].v);
        var c := if f.htype.Optional? then Opt(true, v) else One(v);
        cells' := cells[k := c];
        UpdateFits(fields, cells, k, c);
    }
  }

  /** The repeated case: a packed array, or one more item, which is counted before it is read. */
  method DecodeRepeated(stream: IStream, fields: seq<Field>, k: nat, wireType: nat, cells: seq<Cell>) returns (ok: bool, cells': seq<Cell>)
    requires stream.Valid() && WellFormed(fields) && Checkable(fields) && Fits(fields, cells) && k < |fields| == |cells|
    requires fields[k].htype.Repeated?
    modifies stream
    ensures match DecField(fields, k, wireType, old(stream.Rest()), cells)
            case None => !ok && stream.Within(old(stream.End()))
            case Some((x, rest)) => ok && cells' == x && stream.At(old(stream.End()), rest)
    ensures Fits(fields, cells') && OnlyField(fields, k, cells, cells')
    decreases stream.left, 2
  {
    var f := fields[k];
    assert WellFormedField(f) && FitsCell(f, cells[k]) && (f.ltype.Submessage? ==> Checkable(f.sub));
    cells' := cells;
    var items := cells[k].items;
    if wireType == 2 && Packable(f.ltype) {
      var items';
      ok, items' := DecodePacked(stream, f, items);
      cells' := cells[k := Many(items')];
      UpdateFits(fields, cells, k, Many(items'));
    } else if |items| >= f.arraySize {
      ok := false;
    } else {
      DefaultValueFits(f);
      var v;
      ok, v := DecodeValue(stream, f, DefaultValue(f));
      cells' := cells[k := Many(items + [v])];
      UpdateFits(fields, cells, k, Many(items + [v]));
    }
  }

  // ----- messages -----

  datatype Outcome = Fail | Stop | Continue

  /** One turn of the decoder's loop: a tag, and the field or the unknown data behind it. */
  method DecodeNext(stream: IStream, iter: FieldIter, bits: SeenBits, cells: seq<Cell>, ghost seen: set<nat>)
    returns (outcome: Outcome, cells': seq<Cell>, ghost seen': set<nat>)
    requires stream.Valid() && stream.left > 0 && iter.Canonical() && bits.Represents(iter.fields, seen)
    requires WellFormed(iter.fields) && Checkable(iter.fields) && Fits(iter.fields, cells)
    modifies stream, iter, bits
    ensures stream.Within(old(stream.End())) && iter.Canonical() && Fits(iter.fields, cells')
    ensures outcome.Fail? ==> DecLoop(iter.fields, old(stream.Rest()), cells, seen).None?
    ensures !outcome.Fail? ==> stream.End() == old(stream.End()) && bits.Represents(iter.fields, seen')
    ensures outcome.Stop? ==>
      DecLoop(iter.fields, old(stream.Rest()), cells, seen) == if AllSeen(iter.fields, seen') then Some(cells') else None
    ensures outcome.Continue? ==> stream.left < old(stream.left)
    ensures outcome.Continue? ==>
      DecLoop(iter.fields, old(stream.Rest()), cells, seen) == DecLoop(iter.fields, stream.Rest(), cells', seen')
    decreases stream.left, 4
  {
    cells', seen' := cells, seen;
    var fields := iter.fields;
    var read, tag, wireType, eof := stream.DecodeTag();
    if !read {
      return if eof then Stop else Fail, cells', seen';
    }
    var found := iter.Find(tag);
    if !found {
      var skipped := stream.Skip(wireType);
      return if skipped then Continue else Fail, cells', seen';
    }
    if fields == [] {
      // the terminator of an empty message type describes a varint of no size: an error
      return Fail, cells', seen';
    }
    var ok;
    ok, cells', seen' := DecodeFound(stream, iter, bits, wireType, cells, seen);
    outcome := if ok then Continue else Fail;
  }

  /** The field the iterator points at: its bit is set, then its data is decoded. */
  method DecodeFound(stream: IStream, iter: FieldIter, bits: SeenBits, wireType: nat, cells: seq<Cell>, ghost seen: set<nat>)
    returns (ok: bool, cells': seq<Cell>, ghost seen': set<nat>)
    requires stream.Valid() && iter.Canonical() && iter.fields != [] && bits.Represents(iter.fields, seen)
    requires WellFormed(iter.fields) && Checkable(iter.fields) && Fits(iter.fields, cells)
    modifies stream, bits
    ensures |cells| == |iter.fields|
    ensures seen' == if iter.fields[iter.pos].htype.Required? then seen + {iter.pos} else seen
    ensures match DecField(iter.fields, iter.pos, wireType, old(stream.Rest()), cells)
            case None => !ok && stream.Within(old(stream.End()))
            case Some((x, rest)) => ok && cells' == x && stream.At(old(stream.End()), rest)
    ensures Fits(iter.fields, cells') && OnlyField(iter.fields, iter.pos, cells, cells')
    ensures ok ==> bits.Represents(iter.fields, seen')
    decreases stream.left, 4
  {
    var k := iter.pos;
    if iter.fields[k].htype.Required? && iter.requiredIndex < MAX_REQUIRED {
      bits.Mark(iter.fields, k, iter.requiredIndex, seen);
    }
    RequiredIndexIncreases(iter.fields, k, |iter.fields|);
    seen' := if iter.fields[k].htype.Required? then seen + {k} else seen;
    ok, cells' := DecodeField(stream, iter.fields, k, wireType, cells);
  }

  /** pb_decode_noinit: the loop over fields and the closing check. */
  method DecodeNoinit(stream: IStream, fields: seq<Field>, cells: seq<Cell>) returns (ok: bool, cells': seq<Cell>)
    requires stream.Valid() && WellFormed(fields) && Checkable(fields) && Fits(fields, cells)
    modifies stream
    ensures match DecLoop(fields, old(stream.Rest()), cells, {})
            case None => !ok && stream.Within(old(stream.End()))
            case Some(x) => ok && cells' == x && stream.Valid() && stream.End() == old(stream.End())
    ensures Fits(fields, cells')
    decreases stream.left, 5
  {
    var bits := new SeenBits();
    var iter := new FieldIter(fields);
    ghost var seen: set<nat> := {};
    var outcome := Continue;
    cells' := cells;
    while outcome.Continue? && stream.left != 0
      invariant stream.Valid() && (outcome.Continue? ==> stream.left <= old(stream.left)) && iter.fields == fields && iter.Canonical()
      invariant stream.End() == old(stream.End()) && bits.Represents(fields, seen) && Fits(fields, cells')
      invariant outcome.Continue? ==>
        DecLoop(fields, old(stream.Rest()), cells, {}) == DecLoop(fields, stream.Rest(), cells', seen)
      invariant outcome.Stop? ==>
        DecLoop(fields, old(stream.Rest()), cells, {}) == if AllSeen(fields, seen) then Some(cells') else None
      invariant !outcome.Fail?
      decreases outcome.Continue?, stream.left
    {
      outcome, cells', seen := DecodeNext(stream, iter, bits, cells', seen);
      if outcome.Fail? {
        return false, cells';
      }
    }
    ok := AllRequiredSeen(bits, iter, seen);
  }

  /** pb_decode. */
  method Decode(stream: IStream, fields: seq<Field>) returns (ok: bool, cells: seq<Cell>)
    requires stream.Valid() && WellFormed(fields) && Checkable(fields)
    modifies stream
    ensures stream.Within(old(stream.End()))
    ensures match DecMessage(fields, old(stream.Rest()))
            case None => !ok
            case Some(x) => ok && cells == x && stream.End() == old(stream.End())
    ensures Fits(fields, cells)
  {
    cells := SetToDefaults(fields);
    DefaultsFit(fields);
    ok, cells := DecodeNoinit(stream, fields, cells);
  }
}
