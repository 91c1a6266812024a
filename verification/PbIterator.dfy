/**
  The cyclic field iterator of nanopb (pb_common.c). The descriptor table is a list
  relative to itself: each field gives its distance from the end of the previous one, and
  the index of a required field is the number of required fields before it. The iterator
  keeps both as running totals, and never points behind the last field.
 */
module PbIterator {
  import opened PbMessage

  /** The storage of field k in the message structure. */
  function Span(f: Field): nat {
    if f.htype.Repeated? then f.dataSize * f.arraySize else f.dataSize
  }

  /** The distance of field k from the start of the structure. */
  function Offset(fields: seq<Field>, k: nat): nat
    requires k <= |fields|
  {
    if k == |fields| then 0
    else if k == 0 then fields[0].dataOffset
    else if JoinsUnion(fields, k) then Offset(fields, k - 1)
    else Offset(fields, k - 1) + Span(fields[k - 1]) + fields[k].dataOffset
  }

  /** The number of required fields before field k. */
  function RequiredIndex(fields: seq<Field>, k: nat): (n: nat)
    requires k <= |fields|
    ensures n <= k
  {
    if k == 0 then 0 else RequiredIndex(fields, k - 1) + (if fields[k - 1].htype.Required? then 1 else 0)
  }

  /** Distinct required fields have distinct indices, all of them below the total. */
  lemma {:induction false} RequiredIndexIncreases(fields: seq<Field>, j: nat, k: nat)
    requires j <= k <= |fields|
    ensures RequiredIndex(fields, j) <= RequiredIndex(fields, k)
    ensures j < k && fields[j].htype.Required? ==> RequiredIndex(fields, j) < RequiredIndex(fields, k)
    decreases k - j
  {
    if j < k {
      RequiredIndexIncreases(fields, j, k - 1);
    }
  }

  /** Every index below the total belongs to a required field. */
  lemma {:induction false} RequiredIndexTaken(fields: seq<Field>, n: nat, k: nat) returns (j: nat)
    requires k <= |fields| && n < RequiredIndex(fields, k)
    ensures j < k && fields[j].htype.Required? && RequiredIndex(fields, j) == n
    decreases k
  {
    if fields[k - 1].htype.Required? && RequiredIndex(fields, k - 1) == n {
      j := k - 1;
    } else {
      j := RequiredIndexTaken(fields, n, k - 1);
    }
  }

  /** The tag at position k; the terminator behind the last field has tag zero. */
  function TagAt(fields: seq<Field>, k: nat): nat {
    if k < |fields| then fields[k].tag else 0
  }

  /** Only the terminator has tag zero. */
  predicate NonZeroTags(fields: seq<Field>) {
    forall k :: 0 <= k < |fields| ==> fields[k].tag != 0
  }

  class FieldIter {
    const fields: seq<Field>
    var pos: nat
    var requiredIndex: nat
    var data: nat

    /** Position, data offset and required index are those of a walk from the start. */
    ghost predicate Canonical()
      reads this
    {
      && (pos < |fields| || (pos == 0 && fields == []))
      && requiredIndex == RequiredIndex(fields, pos)
      && data == Offset(fields, pos)
    }

    constructor (fields: seq<Field>)
      ensures this.fields == fields && Canonical() && pos == 0
    {
      this.fields := fields;
      pos, requiredIndex := 0, 0;
      data := if fields == [] then 0 else fields[0].dataOffset;
    }

    /** pb_field_iter_begin. */
    method Begin() returns (more: bool)
      modifies this
      ensures Canonical() && pos == 0
      ensures more == (fields != [] && fields[0].tag != 0)
    {
      pos, requiredIndex := 0, 0;
      data := if fields == [] then 0 else fields[0].dataOffset;
      more := TagAt(fields, pos) != 0;
    }

    /** pb_field_iter_next: one step around the cycle of fields. */
    method Next() returns (more: bool)
      requires Canonical() && NonZeroTags(fields)
      modifies this
      ensures Canonical()
      ensures more == (old(pos) + 1 < |fields|)
      ensures pos == if more then old(pos) + 1 else 0
    {
      var prev := pos;
      if TagAt(fields, prev) == 0 {
        return false;
      }
      pos := pos + 1;
      if TagAt(fields, pos) == 0 {
        var _ := Begin();
        return false;
      }
      if JoinsUnion(fields, pos) {
        return true;
      }
      if fields[prev].htype.Required? {
        requiredIndex := requiredIndex + 1;
      }
      data := data + Span(fields[prev]) + fields[pos].dataOffset;
      return true;
    }

    /**
      pb_field_iter_find: from any position, succeeds exactly if some position has the
      tag, and lands there in the same state as a walk from the start. The terminator of
      an empty message type counts as a position with tag zero.
     */
    method Find(tag: nat) returns (found: bool)
      requires Canonical() && WellFormed(fields)
      modifies this
      ensures Canonical()
      ensures found <==> LowestField(fields, tag) < |fields| || (fields == [] && tag == 0)
      ensures found && fields != [] ==> pos == LowestField(fields, tag)
      ensures !found ==> pos == old(pos)
    {
      assert forall k :: 0 <= k < |fields| ==> WellFormedField(fields[k]);
      var start, first := pos, true;
      while first || pos != start
        invariant Canonical() && NonZeroTags(fields) && (first ==> pos == start)
        invariant !first ==> TagAt(fields, start) != tag
        invariant !first ==> forall k: nat :: InSweep(start, pos, |fields|, k) ==> fields[k].tag != tag
        decreases first, if pos > start then |fields| - pos + start else start - pos
      {
        if TagAt(fields, pos) == tag {
          return true;
        }
        var _ := Next();
        first := false;
      }
      return false;
    }
  }

  /** Position k lies on the way from start to pos, walking around a cycle of n positions. */
  predicate InSweep(start: nat, pos: nat, n: nat, k: nat) {
    k < n && if start < pos then start <= k < pos else start <= k || k < pos
  }
}
