/** size_type exactly as runtime.c:266-288 writes it, over the whole 256-byte arena, with a
    recursion budget: a void node falls into the tuple branch and reads its tag, 250, as a
    field count. The descriptor "(TupleType (VoidType))" makes the recursion endless. */
module SizeAsWritten {
  import opened Errors
  import opened Arena
  import opened Types
  import opened Layout
  import ParseSpec
  import RoundTrip

  /** The source's size_type given `fuel` nested calls; None when the budget runs out or a
      read falls outside the arena. */
  function SizeTypeAsWritten(data: seq<int>, t: nat, fuel: nat): Option<nat>
    requires |data| == MAX
    decreases fuel, 0
  {
    if fuel == 0 || t >= MAX then None
    else
      var tag := data[t];
      if tag == BOOL || tag == INT || tag == FLOAT then Some(WORD)
      else if tag == ARRAY then Some(WORD + WORD)
      else if tag == NDARRAY then
        if t + 1 < MAX && data[t + 1] >= 0 then Some(data[t + 1] * WORD + WORD) else None
      else SumAsWritten(data, t, 0, fuel - 1)
  }

  /** The `default:` loop of size_type from field i on. */
  function SumAsWritten(data: seq<int>, t: nat, i: nat, fuel: nat): Option<nat>
    requires |data| == MAX && t < MAX
    decreases fuel, 1, data[t] - i
  {
    if i >= data[t] then Some(0)
    else if t + 1 + i >= MAX || data[t + 1 + i] < 0 then None
    else
      match SizeTypeAsWritten(data, data[t + 1 + i], fuel)
      case None => None
      case Some(z) =>
        match SumAsWritten(data, t, i + 1, fuel)
        case None => None
        case Some(rest) => Some(z + rest)
  }

  /** On every node without void, the source's size_type returns what SizeType does, within
      one nested call per arena cell below the node. */
  lemma {:induction false} AsWrittenAgrees(data: seq<int>, cells: seq<int>, t: nat, fuel: nat)
    requires |data| == MAX && cells <= data && ValidNode(cells, t) && SizeType(cells, t).Some?
    requires fuel > t
    ensures SizeTypeAsWritten(data, t, fuel) == SizeType(cells, t)
    decreases t, 1
  {
    assert data[t] == cells[t];
    var tag := cells[t];
    if tag == NDARRAY {
      assert data[t + 1] == cells[t + 1];
    } else if 0 <= tag < VOID {
      SumAgrees(data, cells, t, 0, fuel - 1);
    }
  }

  lemma {:induction false} SumAgrees(data: seq<int>, cells: seq<int>, t: nat, k: nat, fuel: nat)
    requires |data| == MAX && cells <= data && ValidNode(cells, t) && 0 <= cells[t] < VOID
    requires k <= cells[t] && SumSizes(cells, t, k).Some? && fuel >= t
    ensures SumAsWritten(data, t, k, fuel) == SumSizes(cells, t, k)
    decreases t, 0, cells[t] - k
  {
    assert data[t] == cells[t];
    if k < cells[t] {
      DecodeFieldsAt(cells, t, 0, k);
      assert data[t + 1 + k] == cells[t + 1 + k];
      AsWrittenAgrees(data, cells, cells[t + 1 + k], fuel);
      SumAgrees(data, cells, t, k + 1, fuel);
    }
  }

  /** The tuple of one void field as the parser encodes it: the void node, then the tuple
      node [1, 0]. */
  lemma {:induction false} VoidTupleArena()
    ensures var r := ParseSpec.ParseType("(TupleType (VoidType))", 0, []);
      r.Ok? && r.value.node == 1 && r.value.cells == [VOID, 1, 0]
  {
    var t := Tuple([Void]);
    var s := "(TupleType (VoidType))";
    assert FieldsText(t, 1) == "";
    assert Descriptor(t) == s;
    RoundTrip.ParseDescriptor(t, s, 0, |s|, []);
  }

  /** size_type on that arena never returns, whatever the budget and whatever the rest of the
      arena holds: size_type(0) reads count 250 and calls size_type(1), which reads count 1
      and calls size_type(0) again. */
  lemma {:induction false} VoidFieldDiverges(data: seq<int>, fuel: nat)
    requires |data| == MAX && data[..3] == [VOID, 1, 0]
    ensures SizeTypeAsWritten(data, 0, fuel) == None
    decreases fuel
  {
    assert data[0] == VOID && data[1] == 1 && data[2] == 0;
    if fuel >= 2 {
      VoidFieldDiverges(data, fuel - 2);
      assert SizeTypeAsWritten(data, 1, fuel - 1) == None by {
        assert SumAsWritten(data, 1, 0, fuel - 2) == None;
      }
      assert SumAsWritten(data, 0, 0, fuel - 1) == None;
    } else if fuel == 1 {
      assert SizeTypeAsWritten(data, 1, 0) == None;
      assert SumAsWritten(data, 0, 0, 0) == None;
    }
  }
}
