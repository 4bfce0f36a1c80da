/** The exact cells parse_type appends for a type (runtime.c:137-233): children first, in
    descriptor order, then the node itself; and the proof that they decode back to it. */
module Encoding {
  import opened Errors
  import opened Arena
  import opened Types

  /** Cells appended, and the index of the type's own node. */
  datatype Enc = Enc(cells: seq<int>, root: nat)

  /** Cells appended for fields k.. of a tuple, and the indices of their nodes. */
  datatype FieldsEnc = FieldsEnc(cells: seq<int>, ids: seq<int>)

  /** The node parse_array_type allocates for an element at index `e`. */
  function ArrayNode(rank: nat, e: int): seq<int> {
    if rank == 1 then [ARRAY, e] else [NDARRAY, rank, e]
  }

  /** The encoding of `t` when the arena already holds `base` cells. */
  function Encode(t: Type, base: nat): (e: Enc)
    ensures |e.cells| == Footprint(t)
    ensures base <= e.root < base + |e.cells|
    decreases t, 1
  {
    match t
    case Void => Enc([VOID], base)
    case Bool => Enc([BOOL], base)
    case Int => Enc([INT], base)
    case Float => Enc([FLOAT], base)
    case Array(el, r) =>
      var ee := Encode(el, base);
      Enc(ee.cells + ArrayNode(r, ee.root), base + |ee.cells|)
    case Tuple(fs) =>
      var fe := EncodeFields(t, 0, base);
      Enc(fe.cells + [|fs|] + fe.ids, base + |fe.cells|)
  }

  function EncodeFields(t: Type, k: nat, base: nat): (e: FieldsEnc)
    requires t.Tuple? && k <= |t.fields|
    ensures |e.cells| == FieldsFootprint(t, k) && |e.ids| == |t.fields| - k
    decreases t, 0, |t.fields| - k
  {
    if k == |t.fields| then FieldsEnc([], [])
    else
      var e := Encode(t.fields[k], base);
      var rest := EncodeFields(t, k + 1, base + |e.cells|);
      FieldsEnc(e.cells + rest.cells, [e.root] + rest.ids)
  }

  /** Whatever fits in the arena decodes back: the encoding is the inverse of Decode. */
  lemma {:induction false} EncodeDecodes(t: Type, cells: seq<int>)
    requires WfType(t) && |cells| + Footprint(t) < MAX
    ensures Decode(cells + Encode(t, |cells|).cells, Encode(t, |cells|).root) == Some(t)
    decreases t, 1
  {
    match t
    case Array(_, _) => ArrayEncodeDecodes(t, cells);
    case Tuple(_) => TupleEncodeDecodes(t, cells);
    case _ =>
  }

  lemma {:induction false} ArrayEncodeDecodes(t: Type, cells: seq<int>)
    requires t.Array? && WfType(t) && |cells| + Footprint(t) < MAX
    ensures Decode(cells + Encode(t, |cells|).cells, Encode(t, |cells|).root) == Some(t)
    decreases t, 0
  {
    var ee := Encode(t.elem, |cells|);
    var c := cells + ee.cells;
    EncodeDecodes(t.elem, cells);
    ArrayNodeDecodes(c, ee.root, t.elem, t.rank);
    ArrayEncodeSplit(t, cells);
  }

  /** The encoding of an array: the element's, then the array node. */
  lemma {:induction false} ArrayEncodeSplit(t: Type, cells: seq<int>)
    requires t.Array?
    ensures var ee := Encode(t.elem, |cells|);
      cells + Encode(t, |cells|).cells == cells + ee.cells + ArrayNode(t.rank, ee.root) &&
      Encode(t, |cells|).root == |cells + ee.cells|
  {
    var ee := Encode(t.elem, |cells|);
    assert cells + (ee.cells + ArrayNode(t.rank, ee.root)) == cells + ee.cells + ArrayNode(t.rank, ee.root);
  }

  lemma {:induction false} TupleEncodeDecodes(t: Type, cells: seq<int>)
    requires t.Tuple? && WfType(t) && |cells| + Footprint(t) < MAX
    ensures Decode(cells + Encode(t, |cells|).cells, Encode(t, |cells|).root) == Some(t)
    decreases t, 0, |t.fields| + 3
  {
    assert WfFields(t, 0) && |cells| + 1 + |t.fields| + FieldsFootprint(t, 0) < MAX;
    TupleEncodeSplit(t, cells);
    TupleNodeDecodes(t, cells);
  }

  /** The tuple node appended after the fields decodes to the tuple. */
  lemma {:induction false} TupleNodeDecodes(t: Type, cells: seq<int>)
    requires t.Tuple? && WfFields(t, 0) && |cells| + 1 + |t.fields| + FieldsFootprint(t, 0) < MAX
    ensures var fe := EncodeFields(t, 0, |cells|);
      Decode(cells + fe.cells + [|t.fields|] + fe.ids, |cells + fe.cells|) == Some(t)
    decreases t, 0, |t.fields| + 2
  {
    var fe := EncodeFields(t, 0, |cells|);
    var pre := cells + fe.cells;
    var c := pre + [|t.fields|] + fe.ids;
    TupleCells(pre, fe.ids, c, |t.fields|);
    forall i | |pre| < i <= |pre| + |t.fields|
      ensures 0 <= c[i] < |pre| && Decode(c, c[i]) == Some(t.fields[i - |pre| - 1])
    {
      TupleFieldDecodes(t, cells, fe, pre, c, i);
    }
    TupleFromFields(c, |pre|, t.fields);
  }

  /** A tuple node whose field cells point to earlier nodes decoding to `fs`. */
  lemma {:induction false} TupleFromFields(c: seq<int>, m: nat, fs: seq<Type>)
    requires m < |c| && c[m] == |fs| < VOID && m + |fs| < |c|
    requires forall i :: m < i <= m + |fs| ==> 0 <= c[i] < m && Decode(c, c[i]) == Some(fs[i - m - 1])
    ensures Decode(c, m) == Some(Tuple(fs))
  {
    DecodeFieldsFrom(c, m, fs, 0);
    assert fs[0..] == fs;
    TupleDecode(c, m, fs);
  }

  /** The encoding of a tuple: its fields', then the count and the field indices. */
  lemma {:induction false} TupleEncodeSplit(t: Type, cells: seq<int>)
    requires t.Tuple?
    ensures var fe := EncodeFields(t, 0, |cells|);
      cells + Encode(t, |cells|).cells == cells + fe.cells + [|t.fields|] + fe.ids &&
      Encode(t, |cells|).root == |cells + fe.cells|
  {
    var fe := EncodeFields(t, 0, |cells|);
    assert cells + (fe.cells + [|t.fields|] + fe.ids) == cells + fe.cells + [|t.fields|] + fe.ids;
  }

  /** The field cell at `i` of the tuple node points to a node decoding to its field. */
  lemma {:induction false} TupleFieldDecodes(t: Type, cells: seq<int>, fe: FieldsEnc, pre: seq<int>, c: seq<int>, i: nat)
    requires t.Tuple? && WfFields(t, 0) && |cells| + FieldsFootprint(t, 0) < MAX && |pre| < i <= |pre| + |t.fields|
    requires fe == EncodeFields(t, 0, |cells|) && pre == cells + fe.cells && c == pre + [|t.fields|] + fe.ids
    ensures i < |c| && 0 <= c[i] < |pre| && Decode(c, c[i]) == Some(t.fields[i - |pre| - 1])
    decreases t, 0, i - |pre|
  {
    var j := i - |pre| - 1;
    TupleCells(pre, fe.ids, c, |t.fields|);
    TupleCell(pre, fe.ids, c, j);
    EncodeFieldDecodes(t, 0, cells, j);
    DecodeExtend(pre, [|t.fields|] + fe.ids, fe.ids[j]);
  }

  /** The fields k.. of a tuple node whose field cells point to earlier nodes decoding to fs. */
  lemma {:induction false} DecodeFieldsFrom(c: seq<int>, m: nat, fs: seq<Type>, k: nat)
    requires m < |c| && c[m] == |fs| < VOID && m + |fs| < |c| && k <= |fs|
    requires forall i :: m < i <= m + |fs| ==> 0 <= c[i] < m && Decode(c, c[i]) == Some(fs[i - m - 1])
    ensures DecodeFields(c, m, k) == Some(fs[k..])
    decreases |fs| - k
  {
    if k < |fs| {
      DecodeFieldsFrom(c, m, fs, k + 1);
      assert fs[k..] == [fs[k]] + fs[k + 1..];
    } else {
      assert fs[k..] == [];
    }
  }

  /** Where the count and the field indices of a tuple node sit. */
  lemma {:induction false} TupleCells(pre: seq<int>, ids: seq<int>, c: seq<int>, n: nat)
    requires c == pre + [n] + ids && |ids| == n
    ensures c == pre + ([n] + ids) && |pre| < |c| && c[|pre|] == n && |pre| + n < |c|
  {
  }

  lemma {:induction false} TupleCell(pre: seq<int>, ids: seq<int>, c: seq<int>, j: nat)
    requires c == pre + [|ids|] + ids && j < |ids|
    ensures c[|pre| + 1 + j] == ids[j]
  {
  }

  /** Field j's node decodes to field j once the fields k.. are appended. */
  lemma {:induction false} EncodeFieldDecodes(t: Type, k: nat, cells: seq<int>, j: nat)
    requires t.Tuple? && k <= j < |t.fields| && WfFields(t, k) && |cells| + FieldsFootprint(t, k) < MAX
    ensures |cells| <= EncodeFields(t, k, |cells|).ids[j - k] < |cells| + FieldsFootprint(t, k)
    ensures Decode(cells + EncodeFields(t, k, |cells|).cells, EncodeFields(t, k, |cells|).ids[j - k])
      == Some(t.fields[j])
    decreases t, 0, j - k
  {
    var e := Encode(t.fields[k], |cells|);
    var mid := cells + e.cells;
    var rest := EncodeFields(t, k + 1, |mid|);
    EncodeFieldsSplit(t, k, cells);
    if j == k {
      EncodeDecodes(t.fields[k], cells);
      DecodeExtend(mid, rest.cells, e.root);
    } else {
      EncodeFieldDecodes(t, k + 1, mid, j);
      IdsTail(EncodeFields(t, k, |cells|).ids, e.root, rest.ids, j, k);
    }
  }

  lemma {:induction false} IdsTail(ids: seq<int>, a: int, rest: seq<int>, j: nat, k: nat)
    requires ids == [a] + rest && k < j && j - k < |ids|
    ensures ids[j - k] == rest[j - (k + 1)]
  {
  }

  /** The encoding of fields k..: field k's, then the others'. */
  lemma {:induction false} EncodeFieldsSplit(t: Type, k: nat, cells: seq<int>)
    requires t.Tuple? && k < |t.fields|
    ensures var e := Encode(t.fields[k], |cells|);
      var rest := EncodeFields(t, k + 1, |cells + e.cells|);
      && cells + EncodeFields(t, k, |cells|).cells == cells + e.cells + rest.cells
      && EncodeFields(t, k, |cells|).ids == [e.root] + rest.ids
      && FieldsFootprint(t, k) == |e.cells| + FieldsFootprint(t, k + 1)
  {
    var e := Encode(t.fields[k], |cells|);
    assert |cells + e.cells| == |cells| + |e.cells|;
    var rest := EncodeFields(t, k + 1, |cells| + |e.cells|);
    assert EncodeFields(t, k, |cells|) == FieldsEnc(e.cells + rest.cells, [e.root] + rest.ids);
    assert cells + (e.cells + rest.cells) == cells + e.cells + rest.cells;
  }

  /** The array node appended after its element decodes to the array type. */
  lemma {:induction false} ArrayNodeDecodes(cells: seq<int>, e: nat, et: Type, rank: nat)
    requires 1 <= rank <= 255 && e < |cells| && Decode(cells, e) == Some(et)
    ensures Decode(cells + ArrayNode(rank, e), |cells|) == Some(Array(et, rank))
  {
    var c := cells + ArrayNode(rank, e);
    DecodeExtend(cells, ArrayNode(rank, e), e);
    assert c[|cells|] == ArrayNode(rank, e)[0];
    assert c[|cells| + 1] == ArrayNode(rank, e)[1];
    if rank != 1 {
      assert c[|cells| + 2] == e;
    }
  }

  lemma {:induction false} TupleDecode(c: seq<int>, m: nat, fs: seq<Type>)
    requires m < |c| && 0 <= c[m] < VOID && m + c[m] < |c| && DecodeFields(c, m, 0) == Some(fs)
    ensures Decode(c, m) == Some(Tuple(fs))
  {
  }
}
