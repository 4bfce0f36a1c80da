/** How many bytes a value of each type occupies where it is embedded in a tuple or an array
    (size_type, runtime.c:266-288), read from the arena, and the same rule stated on types. */
module Layout {
  import opened Errors
  import opened Arena
  import opened Types

  /** sizeof(int64_t), sizeof(double) and sizeof(void *) on the 64-bit target. */
  const WORD := 8

  /** size_type: 8 for booleans, integers and floats; one word per extent plus the data pointer
      for an array; the sum of the fields for a tuple. The source's switch has no case for
      VOID, which falls into the tuple branch and reads 250 "fields" (see SizeTypeAsWritten);
      here a void node has no size. */
  function SizeType(cells: seq<int>, t: nat): (r: Option<nat>)
    requires ValidNode(cells, t)
    decreases t, 1
  {
    var tag := cells[t];
    if tag == BOOL || tag == INT || tag == FLOAT then Some(WORD)
    else if tag == ARRAY then Some(WORD + WORD)
    else if tag == NDARRAY then Some(cells[t + 1] * WORD + WORD)
    else if tag == VOID then None
    else SumSizes(cells, t, 0)
  }

  /** The tuple branch of size_type: the sizes of fields k.. added up. */
  function SumSizes(cells: seq<int>, t: nat, k: nat): (r: Option<nat>)
    requires ValidNode(cells, t) && 0 <= cells[t] < VOID && k <= cells[t]
    decreases t, 0, cells[t] - k
  {
    if k == cells[t] then Some(0)
    else
      DecodeFieldsAt(cells, t, 0, k);
      match SizeType(cells, cells[t + 1 + k])
      case None => None
      case Some(z) =>
        match SumSizes(cells, t, k + 1)
        case None => None
        case Some(rest) => Some(z + rest)
  }

  /** The embedded size of a type as the layout rule states it; void has none. */
  function LayoutSize(t: Type): Option<nat>
    decreases t, 1
  {
    match t
    case Void => None
    case Bool => Some(WORD)
    case Int => Some(WORD)
    case Float => Some(WORD)
    case Array(_, rank) => Some(rank * WORD + WORD)
    case Tuple(_) => FieldsSize(t, 0)
  }

  function FieldsSize(t: Type, k: nat): Option<nat>
    requires t.Tuple? && k <= |t.fields|
    decreases t, 0, |t.fields| - k
  {
    if k == |t.fields| then Some(0)
    else
      match (LayoutSize(t.fields[k]), FieldsSize(t, k + 1))
      case (Some(z), Some(rest)) => Some(z + rest)
      case _ => None
  }

  /** Where field k of a tuple starts: the sizes of the fields before it, without padding. */
  function Offset(t: Type, k: nat): Option<nat>
    requires t.Tuple? && k <= |t.fields|
    decreases k
  {
    if k == 0 then Some(0)
    else
      match (Offset(t, k - 1), LayoutSize(t.fields[k - 1]))
      case (Some(o), Some(z)) => Some(o + z)
      case _ => None
  }

  /** size_type on the arena agrees with the layout rule on the type the node decodes to. */
  lemma {:induction false} SizeTypeDecodes(cells: seq<int>, t: nat)
    requires ValidNode(cells, t)
    ensures SizeType(cells, t) == LayoutSize(Decode(cells, t).value)
    decreases t, 1
  {
    var tag := cells[t];
    if tag == ARRAY {
      assert Decode(cells, t).value.rank == 1;
    } else if 0 <= tag < VOID {
      SumSizesDecodes(cells, t, 0);
    }
  }

  lemma {:induction false} SumSizesDecodes(cells: seq<int>, t: nat, k: nat)
    requires ValidNode(cells, t) && 0 <= cells[t] < VOID && k <= cells[t]
    ensures Decode(cells, t).value.Tuple? && |Decode(cells, t).value.fields| == cells[t]
    ensures SumSizes(cells, t, k) == FieldsSize(Decode(cells, t).value, k)
    decreases t, 0, cells[t] - k
  {
    var d := Decode(cells, t).value;
    assert d == Tuple(DecodeFields(cells, t, 0).value);
    if k < cells[t] {
      DecodeFieldsAt(cells, t, 0, k);
      SizeTypeDecodes(cells, cells[t + 1 + k]);
      SumSizesDecodes(cells, t, k + 1);
    }
  }

  /** A tuple's size is where a field after its last would start: the offsets add up. */
  lemma {:induction false} OffsetsAddUp(t: Type, k: nat)
    requires t.Tuple? && k <= |t.fields| && Offset(t, k).Some? && FieldsSize(t, k).Some?
    ensures FieldsSize(t, 0).Some? && FieldsSize(t, 0).value == Offset(t, k).value + FieldsSize(t, k).value
    decreases k
  {
    if k > 0 {
      var z := LayoutSize(t.fields[k - 1]).value;
      assert FieldsSize(t, k - 1) == Some(z + FieldsSize(t, k).value);
      OffsetsAddUp(t, k - 1);
    }
  }

  /** Void has no size and taints every tuple that embeds one; all other types have one. */
  lemma {:induction false} SizeDefined(t: Type)
    ensures LayoutSize(t).Some? <==> !HasVoid(t)
    decreases t, 1
  {
    match t
    case Tuple(_) => FieldsSizeDefined(t, 0);
    case _ =>
  }

  lemma {:induction false} FieldsSizeDefined(t: Type, k: nat)
    requires t.Tuple? && k <= |t.fields|
    ensures FieldsSize(t, k).Some? <==> !FieldsHaveVoid(t, k)
    decreases t, 0, |t.fields| - k
  {
    if k < |t.fields| {
      SizeDefined(t.fields[k]);
      FieldsSizeDefined(t, k + 1);
    }
  }

  /** Whether void occurs in `t` outside an array element. */
  predicate HasVoid(t: Type)
    decreases t, 1
  {
    match t
    case Void => true
    case Tuple(_) => FieldsHaveVoid(t, 0)
    case _ => false
  }

  predicate FieldsHaveVoid(t: Type, k: nat)
    requires t.Tuple? && k <= |t.fields|
    decreases t, 0, |t.fields| - k
  {
    k < |t.fields| && (HasVoid(t.fields[k]) || FieldsHaveVoid(t, k + 1))
  }

  /** No embedded size exceeds 2048 bytes per arena cell of the encoding, so for any type the
      arena can hold (fewer than 256 cells) the `int` accumulators of size_type and show_type
      stay below 2^19. */
  lemma {:induction false} SizeBound(t: Type)
    requires WfType(t) && LayoutSize(t).Some?
    ensures LayoutSize(t).value <= 2048 * Footprint(t)
    decreases t, 1
  {
    match t
    case Tuple(_) => FieldsSizeBound(t, 0);
    case _ =>
  }

  lemma {:induction false} FieldsSizeBound(t: Type, k: nat)
    requires t.Tuple? && k <= |t.fields| && WfFields(t, k) && FieldsSize(t, k).Some?
    ensures FieldsSize(t, k).value <= 2048 * FieldsFootprint(t, k)
    decreases t, 0, |t.fields| - k
  {
    if k < |t.fields| {
      SizeBound(t.fields[k]);
      FieldsSizeBound(t, k + 1);
    }
  }
}
