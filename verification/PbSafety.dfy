/**
  What decoding makes of a message, as far as size goes: defaults fit their descriptors,
  storing a value that fits keeps the message in shape, and so a message that fits its
  descriptors still fits them after any input that is merged into it. The decoder proves
  the same of inputs that it rejects.
 */
module PbSafety {
  import opened Bytes
  import opened PbWire
  import opened PbMessage

  lemma DecScalarFits(f: Field, s: seq<byte>)
    requires SizeOk(f) && Packable(f.ltype) && DecScalar(f, s).Some?
    ensures FitsValue(f, DecScalar(f, s).value.0)
  {
    Pow256Values();
    if f.ltype.Fixed32? {
      ReadLittleEndianBound(s[..4]);
    } else if f.ltype.Fixed64? {
      ReadLittleEndianBound(s[..8]);
    }
  }

  lemma DecBytesFits(f: Field, s: seq<byte>)
    requires SizeOk(f) && (f.ltype.ByteArray? || f.ltype.String? || f.ltype.FixedLengthBytes?) && DecBytes(f, s).Some?
    ensures FitsValue(f, DecBytes(f, s).value.0)
  {
  }

  lemma {:induction false} DecPackedFits(f: Field, block: seq<byte>, items: seq<Value>)
    requires SizeOk(f) && Packable(f.ltype) && |items| <= f.arraySize && forall j :: 0 <= j < |items| ==> FitsValue(f, items[j])
    requires DecPacked(f, block, items).Some?
    ensures var r := DecPacked(f, block, items).value; |r| <= f.arraySize && forall j :: 0 <= j < |r| ==> FitsValue(f, r[j])
    decreases |block|
  {
    if block != [] {
      var (v, rest) := DecScalar(f, block).value;
      DecScalarFits(f, block);
      DecPackedFits(f, rest, items + [v]);
    }
  }

  lemma {:induction false} DefaultValueFits(f: Field)
    requires WellFormedField(f)
    ensures FitsValue(f, DefaultValue(f))
    decreases f, 1
  {
    if f.ltype.Submessage? {
      DefaultsFit(f.sub);
    }
  }

  lemma {:induction false} DefaultsFit(fields: seq<Field>)
    requires WellFormed(fields)
    ensures Fits(fields, Defaults(fields))
    decreases fields, 0
  {
    var cells := Defaults(fields);
    forall k | 0 <= k < |fields|
      ensures FitsCell(fields[k], cells[k]) && !Chosen(cells[k])
    {
      assert WellFormedField(fields[k]);
      DefaultCellFits(fields[k]);
    }
    assert FitsCells(fields, cells);
  }

  lemma {:induction false} DefaultCellFits(f: Field)
    requires WellFormedField(f)
    ensures FitsCell(f, DefaultCell(f)) && !Chosen(DefaultCell(f))
    decreases f, 2
  {
    DefaultValueFits(f);
  }

  lemma {:induction false} DecValueFits(f: Field, s: seq<byte>, prior: Value)
    requires WellFormedField(f) && FitsValue(f, prior) && DecValue(f, s, prior).Some?
    ensures FitsValue(f, DecValue(f, s, prior).value.0)
    decreases |s|, 0
  {
    if Packable(f.ltype) {
      DecScalarFits(f, s);
    } else if !f.ltype.Submessage? {
      DecBytesFits(f, s);
    } else {
      assert WellFormed(f.sub) && Fits(f.sub, prior.cells);
      DecLoopFits(f.sub, DecBlock(s).value.0, prior.cells, {});
    }
  }

  /** Replacing a cell outside any union, or resetting a union to one arm, keeps the message in shape. */
  lemma UpdateFits(fields: seq<Field>, cells: seq<Cell>, k: nat, c: Cell)
    requires Fits(fields, cells) && k < |fields| == |cells| && !fields[k].htype.Oneof? && FitsCell(fields[k], c)
    ensures Fits(fields, cells[k := c])
  {
    var cells' := cells[k := c];
    assert FitsCells(fields, cells');
    forall i, j | 0 <= i < j < |fields| && SameUnion(fields, i, j)
      ensures !(Chosen(cells'[i]) && Chosen(cells'[j]))
    {
      assert i != k && j != k;
    }
  }

  lemma SetArmFits(fields: seq<Field>, cells: seq<Cell>, k: nat, v: Value)
    requires Fits(fields, cells) && k < |fields| == |cells| && fields[k].htype.Oneof? && SizeOk(fields[k]) && FitsValue(fields[k], v)
    ensures Fits(fields, SetArm(fields, k, v, cells))
  {
    var cells' := SetArm(fields, k, v, cells);
    forall i | 0 <= i < |fields|
      ensures FitsCell(fields[i], cells'[i])
    {
      assert FitsCell(fields[i], cells[i]);
    }
    forall i, j | 0 <= i < j < |fields| && SameUnion(fields, i, j)
      ensures !(Chosen(cells'[i]) && Chosen(cells'[j]))
    {
      assert SameUnion(fields, i, k) <==> SameUnion(fields, j, k);
    }
  }

  lemma {:induction false} DecFieldFits(fields: seq<Field>, k: nat, wireType: nat, s: seq<byte>, cells: seq<Cell>)
    requires WellFormed(fields) && Fits(fields, cells) && k < |fields| == |cells| && DecField(fields, k, wireType, s, cells).Some?
    ensures Fits(fields, DecField(fields, k, wireType, s, cells).value.0)
    decreases |s|, 1
  {
    var f := fields[k];
    assert WellFormedField(f) && FitsCell(f, cells[k]);
    DefaultValueFits(f);
    match f.htype {
      case Oneof =>
        DecValueFits(f, s, DefaultValue(f));
        SetArmFits(fields, cells, k, DecValue(f, s, DefaultValue(f)).value.0);
      case Repeated =>
        var items := cells[k].items;
        if wireType == 2 && Packable(f.ltype) {
          var block := DecBlock(s).value.0;
          DecPackedFits(f, block, items);
          UpdateFits(fields, cells, k, Many(DecPacked(f, block, items).value));
        } else {
          DecValueFits(f, s, DefaultValue(f));
          UpdateFits(fields, cells, k, Many(items + [DecValue(f, s, DefaultValue(f)).value.0]));
        }
      case Optional =>
        DecValueFits(f, s, cells[k].v);
        UpdateFits(fields, cells, k, Opt(true, DecValue(f, s, cells[k].v).value.0));
      case _ =>
        DecValueFits(f, s, cells[k].v);
        UpdateFits(fields, cells, k, One(DecValue(f, s, cells[k].v).value.0));
    }
  }

  lemma {:induction false} DecLoopFits(fields: seq<Field>, s: seq<byte>, cells: seq<Cell>, seen: set<nat>)
    requires WellFormed(fields) && Fits(fields, cells) && DecLoop(fields, s, cells, seen).Some?
    ensures Fits(fields, DecLoop(fields, s, cells, seen).value)
    decreases |s|, 2
  {
    if s != [] && DecTag(s).Tag? {
      var Tag(tag, wireType, rest) := DecTag(s);
      var k := LowestField(fields, tag);
      if k == |fields| {
        DecLoopFits(fields, SkipField(rest, wireType).value, cells, seen);
      } else {
        var (cells', rest') := DecField(fields, k, wireType, rest, cells).value;
        DecFieldFits(fields, k, wireType, rest, cells);
        DecLoopFits(fields, rest', cells', if fields[k].htype.Required? then seen + {k} else seen);
      }
    }
  }

  /** Whatever the input, a message that pb_decode accepts fits its descriptors. */
  lemma DecMessageFits(fields: seq<Field>, s: seq<byte>)
    requires WellFormed(fields) && DecMessage(fields, s).Some?
    ensures Fits(fields, DecMessage(fields, s).value)
  {
    DefaultsFit(fields);
    DecLoopFits(fields, s, Defaults(fields), {});
  }
}
