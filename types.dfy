/** The type trees a descriptor denotes, their canonical descriptor text, and how the arena
    encodes them (runtime.c:110-119, 137-233). */
module Types {
  import opened Errors
  import opened Arena
  import opened Text

  /** A type node. `Array(elem, 1)` is the compact ARRAY encoding, any other rank NDARRAY. */
  datatype Type = Void | Bool | Int | Float | Tuple(fields: seq<Type>) | Array(elem: Type, rank: nat)

  /** The types a descriptor can denote and the parser accept: ranks 1..255, at most 250 fields. */
  predicate WfType(t: Type)
    decreases t, 1
  {
    match t
    case Array(e, r) => 1 <= r <= 255 && WfType(e)
    case Tuple(fs) => |fs| <= VOID && WfFields(t, 0)
    case _ => true
  }

  predicate WfFields(t: Type, k: nat)
    requires t.Tuple? && k <= |t.fields|
    decreases t, 0, |t.fields| - k
  {
    k == |t.fields| || (WfType(t.fields[k]) && WfFields(t, k + 1))
  }

  /** The keywords of the descriptor language. */
  const VOID_TYPE: string := "VoidType"
  const BOOL_TYPE: string := "BoolType"
  const INT_TYPE: string := "IntType"
  const FLOAT_TYPE: string := "FloatType"
  const TUPLE_TYPE: string := "TupleType"
  const ARRAY_TYPE: string := "ArrayType"

  /** The canonical descriptor text: one space before every field, the element and the rank. */
  function Descriptor(t: Type): (s: string)
    ensures |s| >= 2 && s[0] == '(' && s[|s| - 1] == ')'
    decreases t, 1
  {
    match t
    case Void => "(" + VOID_TYPE + ")"
    case Bool => "(" + BOOL_TYPE + ")"
    case Int => "(" + INT_TYPE + ")"
    case Float => "(" + FLOAT_TYPE + ")"
    case Tuple(_) => "(" + TUPLE_TYPE + FieldsText(t, 0) + ")"
    case Array(e, r) => "(" + ARRAY_TYPE + " " + Descriptor(e) + " " + NatText(r) + ")"
  }

  function FieldsText(t: Type, k: nat): string
    requires t.Tuple? && k <= |t.fields|
    decreases t, 0, |t.fields| - k
  {
    if k == |t.fields| then "" else " " + Descriptor(t.fields[k]) + FieldsText(t, k + 1)
  }

  /** Arena cells the encoding of a type occupies: one per scalar, 2 or 3 per array node,
      1 + n per tuple node, plus its children. */
  function Footprint(t: Type): (n: nat)
    ensures n >= 1
    decreases t, 1
  {
    match t
    case Array(e, r) => (if r == 1 then 2 else 3) + Footprint(e)
    case Tuple(fs) => 1 + |fs| + FieldsFootprint(t, 0)
    case _ => 1
  }

  function FieldsFootprint(t: Type, k: nat): (n: nat)
    requires t.Tuple? && k <= |t.fields|
    ensures n >= |t.fields| - k
    decreases t, 0, |t.fields| - k
  {
    if k == |t.fields| then 0 else Footprint(t.fields[k]) + FieldsFootprint(t, k + 1)
  }

  /** Reads back the node at index `t`. A node decodes only when every child index it holds
      points to an EARLIER cell, so a decodable arena is acyclic. */
  function Decode(cells: seq<int>, t: nat): (r: Option<Type>)
    decreases t, 1
  {
    if t >= |cells| then None
    else if cells[t] == VOID then Some(Void)
    else if cells[t] == BOOL then Some(Bool)
    else if cells[t] == INT then Some(Int)
    else if cells[t] == FLOAT then Some(Float)
    else if cells[t] == ARRAY then
      if t + 1 < |cells| && 0 <= cells[t + 1] < t then
        match Decode(cells, cells[t + 1])
        case Some(e) => Some(Array(e, 1))
        case None => None
      else None
    else if cells[t] == NDARRAY then
      if t + 2 < |cells| && 2 <= cells[t + 1] <= 255 && 0 <= cells[t + 2] < t then
        match Decode(cells, cells[t + 2])
        case Some(e) => Some(Array(e, cells[t + 1]))
        case None => None
      else None
    else if 0 <= cells[t] < VOID && t + cells[t] < |cells| then
      match DecodeFields(cells, t, 0)
      case Some(fs) => Some(Tuple(fs))
      case None => None
    else None
  }

  /** The fields k.. of the tuple node at `t`: the cells after its count, in order. */
  function DecodeFields(cells: seq<int>, t: nat, k: nat): (r: Option<seq<Type>>)
    requires t < |cells| && 0 <= cells[t] < VOID && t + cells[t] < |cells| && k <= cells[t]
    ensures r.Some? ==> |r.value| == cells[t] - k
    decreases t, 0, cells[t] - k
  {
    if k == cells[t] then Some([])
    else
      var c := cells[t + 1 + k];
      if 0 <= c < t then
        match Decode(cells, c)
        case None => None
        case Some(f) =>
          match DecodeFields(cells, t, k + 1)
          case None => None
          case Some(rest) => Some([f] + rest)
      else None
  }

  /** A node is well formed when it decodes. */
  predicate ValidNode(cells: seq<int>, t: nat) {
    Decode(cells, t).Some?
  }

  /** Appending cells (a later allocation) never changes a node already decodable. */
  lemma {:induction false} DecodeExtend(cells: seq<int>, more: seq<int>, t: nat)
    requires Decode(cells, t).Some?
    ensures Decode(cells + more, t) == Decode(cells, t)
    decreases t, 1
  {
    var c2 := cells + more;
    assert c2[t] == cells[t];
    if cells[t] == ARRAY {
      DecodeExtend(cells, more, cells[t + 1]);
    } else if cells[t] == NDARRAY {
      DecodeExtend(cells, more, cells[t + 2]);
    } else if 0 <= cells[t] < VOID {
      DecodeFieldsExtend(cells, more, t, 0);
    }
  }

  lemma {:induction false} DecodeFieldsExtend(cells: seq<int>, more: seq<int>, t: nat, k: nat)
    requires t < |cells| && 0 <= cells[t] < VOID && t + cells[t] < |cells| && k <= cells[t]
    requires DecodeFields(cells, t, k).Some?
    ensures DecodeFields(cells + more, t, k) == DecodeFields(cells, t, k)
    decreases t, 0, cells[t] - k
  {
    var c2 := cells + more;
    assert c2[t] == cells[t];
    if k < cells[t] {
      assert c2[t + 1 + k] == cells[t + 1 + k];
      DecodeExtend(cells, more, cells[t + 1 + k]);
      DecodeFieldsExtend(cells, more, t, k + 1);
    }
  }

  /** A tuple node decodes once every field index points to an earlier, decodable node. */
  lemma {:induction false} DecodeFieldsSome(cells: seq<int>, t: nat, k: nat)
    requires t < |cells| && 0 <= cells[t] < VOID && t + cells[t] < |cells| && k <= cells[t]
    requires forall m :: t + 1 + k <= m < t + 1 + cells[t] ==> 0 <= cells[m] < t && ValidNode(cells, cells[m])
    ensures DecodeFields(cells, t, k).Some?
    decreases cells[t] - k
  {
    if k < cells[t] {
      DecodeFieldsSome(cells, t, k + 1);
    }
  }

  /** Whatever the arena decodes to is a type the parser accepts: ranks 1..255 and fewer
      than 250 fields (a count of 250 would read as the VOID tag). */
  lemma {:induction false} DecodeWf(cells: seq<int>, t: nat)
    requires ValidNode(cells, t)
    ensures WfType(Decode(cells, t).value)
    ensures Decode(cells, t).value.Tuple? ==> |Decode(cells, t).value.fields| < VOID
    decreases t, 1
  {
    if cells[t] == ARRAY {
      DecodeWf(cells, cells[t + 1]);
    } else if cells[t] == NDARRAY {
      DecodeWf(cells, cells[t + 2]);
    } else if 0 <= cells[t] < VOID {
      DecodeFieldsWf(cells, t, 0);
    }
  }

  lemma {:induction false} DecodeFieldsWf(cells: seq<int>, t: nat, k: nat)
    requires t < |cells| && 0 <= cells[t] < VOID && t + cells[t] < |cells| && k <= cells[t]
    requires DecodeFields(cells, t, k).Some? && DecodeFields(cells, t, 0).Some?
    ensures WfFields(Tuple(DecodeFields(cells, t, 0).value), k)
    decreases t, 0, cells[t] - k
  {
    var all := DecodeFields(cells, t, 0).value;
    if k < cells[t] {
      DecodeFieldsAt(cells, t, 0, k);
      DecodeWf(cells, cells[t + 1 + k]);
      DecodeFieldsTail(cells, t, k);
      DecodeFieldsWf(cells, t, k + 1);
    }
  }

  /** A node whose first cell is below VOID decodes to a tuple with that many fields. */
  lemma {:induction false} TupleDecodes(cells: seq<int>, t: nat)
    requires ValidNode(cells, t) && 0 <= cells[t] < VOID
    ensures Decode(cells, t).value.Tuple? && |Decode(cells, t).value.fields| == cells[t]
  {
    assert Decode(cells, t).value == Tuple(DecodeFields(cells, t, 0).value);
  }

  /** Field j of a decoded tuple is the type of the node its j-th field cell points to. */
  lemma {:induction false} FieldDecodes(cells: seq<int>, t: nat, j: nat)
    requires ValidNode(cells, t) && 0 <= cells[t] < VOID && j < cells[t]
    ensures Decode(cells, t).value.Tuple? && j < |Decode(cells, t).value.fields|
    ensures 0 <= cells[t + 1 + j] < t && ValidNode(cells, cells[t + 1 + j])
    ensures Decode(cells, t).value.fields[j] == Decode(cells, cells[t + 1 + j]).value
  {
    assert Decode(cells, t).value == Tuple(DecodeFields(cells, t, 0).value);
    DecodeFieldsAt(cells, t, 0, j);
  }

  /** Field j of the decoded tuple is the node the j-th field cell points to. */
  lemma {:induction false} DecodeFieldsAt(cells: seq<int>, t: nat, k: nat, j: nat)
    requires t < |cells| && 0 <= cells[t] < VOID && t + cells[t] < |cells| && k <= j < cells[t]
    requires DecodeFields(cells, t, k).Some?
    ensures 0 <= cells[t + 1 + j] < t && Decode(cells, cells[t + 1 + j]).Some?
    ensures DecodeFields(cells, t, k).value[j - k] == Decode(cells, cells[t + 1 + j]).value
    decreases j - k
  {
    if k < j {
      DecodeFieldsAt(cells, t, k + 1, j);
    }
  }

  lemma {:induction false} DecodeFieldsTail(cells: seq<int>, t: nat, k: nat)
    requires t < |cells| && 0 <= cells[t] < VOID && t + cells[t] < |cells| && k < cells[t]
    requires DecodeFields(cells, t, 0).Some?
    ensures DecodeFields(cells, t, k + 1).Some?
    decreases k
  {
    if k > 0 {
      DecodeFieldsTail(cells, t, k - 1);
    }
  }
}
