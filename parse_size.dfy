/** How much of the arena a parse uses: a successful parse appends exactly the cells of the
    type it reads, so the 256-cell arena bounds the size of every type `show` accepts. */
module ParseSize {
  import opened Errors
  import opened Arena
  import opened Types
  import opened ParseSpec
  import opened ParseProps
  import opened Layout

  /** The types the nodes `ids` decode to, in order; None when one of them does not decode. */
  function DecodeAll(cells: seq<int>, ids: seq<int>): (r: Option<seq<Type>>)
    ensures r.Some? ==> |r.value| == |ids|
    decreases |ids|
  {
    if |ids| == 0 then Some([])
    else if ids[0] < 0 then None
    else
      match Decode(cells, ids[0])
      case None => None
      case Some(t) =>
        match DecodeAll(cells, ids[1..])
        case None => None
        case Some(ts) => Some([t] + ts)
  }

  /** Arena cells the encodings of `ts` occupy together. */
  function FootprintSum(ts: seq<Type>): nat
    decreases |ts|
  {
    if |ts| == 0 then 0 else Footprint(ts[0]) + FootprintSum(ts[1..])
  }

  /** The cells of fields k.. of a tuple are the sum of the fields' cells. */
  lemma {:induction false} FieldsFootprintSum(t: Type, k: nat)
    requires t.Tuple? && k <= |t.fields|
    ensures FieldsFootprint(t, k) == FootprintSum(t.fields[k..])
    decreases |t.fields| - k
  {
    if k < |t.fields| {
      assert t.fields[k..][1..] == t.fields[k + 1..];
      FieldsFootprintSum(t, k + 1);
    }
  }

  /** A successful parse appends exactly the cells of the type it decodes to: one per scalar,
      2 or 3 per array node, 1 + n per tuple node, and the same again for every child. */
  lemma {:induction false} ParseFootprint(s: string, p: nat, cells: seq<int>)
    requires p <= |s| && ParseType(s, p, cells).Ok?
    ensures var r := ParseType(s, p, cells).value;
      && Decode(r.cells, r.node).Some?
      && |r.cells| == |cells| + Footprint(Decode(r.cells, r.node).value)
    decreases |s| - p, 0
  {
    var q := SkipWs(s, p) + 1;
    var c := Peek(s, q);
    if c == 'T' {
      TupleFootprint(s, q, cells);
    } else if c == 'A' {
      ArrayFootprint(s, q, cells);
    }
  }

  lemma {:induction false} ArrayFootprint(s: string, p: nat, cells: seq<int>)
    requires p <= |s| && ParseArray(s, p, cells).Ok?
    ensures var r := ParseArray(s, p, cells).value;
      && Decode(r.cells, r.node).Some?
      && |r.cells| == |cells| + Footprint(Decode(r.cells, r.node).value)
    decreases |s| - p, 0
  {
    var p1 := Literal(s, p, ARRAY_TYPE, ArrayKind).value;
    var e := ParseType(s, SkipWs(s, p1), cells).value;
    ParseFootprint(s, SkipWs(s, p1), cells);
    var rk := ScanRank(s, SkipWs(s, e.pos), 0).value;
    ScanRankBound(s, SkipWs(s, e.pos), 0);
    var tail := if rk.rank == 1 then [ARRAY, e.node] else [NDARRAY, rk.rank, e.node];
    var r := ParseArray(s, p, cells).value;
    assert r.cells == e.cells + tail && r.node == |e.cells|;
    DecodeExtend(e.cells, tail, e.node);
    assert Decode(r.cells, r.node) == Some(Array(Decode(e.cells, e.node).value, rk.rank));
  }

  lemma {:induction false} TupleFootprint(s: string, p: nat, cells: seq<int>)
    requires p <= |s| && ParseTuple(s, p, cells).Ok?
    ensures var r := ParseTuple(s, p, cells).value;
      && Decode(r.cells, r.node).Some?
      && |r.cells| == |cells| + Footprint(Decode(r.cells, r.node).value)
    decreases |s| - p, 0
  {
    var p1 := Literal(s, p, TUPLE_TYPE, TupleKind).value;
    var q := SkipWs(s, p1);
    var f := ParseFields(s, q, cells, []).value;
    FieldsParsedFootprint(s, q, cells, []);
    TupleEncoding(s, p, cells);
    var r := ParseTuple(s, p, cells).value;
    var n := |f.ids|;
    assert r.cells == f.cells + [n] + f.ids && r.node == |f.cells|;
    assert f.ids[0..] == f.ids;
    var ts := DecodeAll(f.cells, f.ids).value;
    DecodeFieldsAll(f.cells, f.ids, 0);
    assert Decode(r.cells, r.node) == Some(Tuple(ts));
    FieldsFootprintSum(Tuple(ts), 0);
    assert ts[0..] == ts;
  }

  /** The field loop appends exactly the cells of the fields it reads in this call. */
  lemma {:induction false} FieldsParsedFootprint(s: string, p: nat, cells: seq<int>, acc: seq<int>)
    requires p <= |s| && ParseFields(s, p, cells, acc).Ok?
    ensures var f := ParseFields(s, p, cells, acc).value;
      && DecodeAll(f.cells, f.ids[|acc|..]).Some?
      && |f.cells| == |cells| + FootprintSum(DecodeAll(f.cells, f.ids[|acc|..]).value)
    decreases |s| - p, 2
  {
    if Peek(s, p) == ')' {
      assert ParseFields(s, p, cells, acc).value.ids[|acc|..] == [];
    } else {
      FieldsStep(s, p, cells, acc);
      var c := ParseType(s, p, cells).value;
      ParseFootprint(s, p, cells);
      var acc' := acc + [c.node];
      FieldsParsedFootprint(s, SkipWs(s, c.pos), c.cells, acc');
      var f := ParseFields(s, SkipWs(s, c.pos), c.cells, acc').value;
      var rest := f.ids[|acc'|..];
      assert f.ids[|acc|..] == [c.node] + rest;
      assert f.cells == c.cells + f.cells[|c.cells|..];
      DecodeExtend(c.cells, f.cells[|c.cells|..], c.node);
      DecodeAllCons(f.cells, c.node, rest);
    }
  }

  /** One turn of the field loop: a field, then the loop from after it. */
  lemma {:induction false} FieldsStep(s: string, p: nat, cells: seq<int>, acc: seq<int>)
    requires p <= |s| && ParseFields(s, p, cells, acc).Ok? && Peek(s, p) != ')'
    ensures ParseType(s, p, cells).Ok?
    ensures var c := ParseType(s, p, cells).value;
      ParseFields(s, p, cells, acc) == ParseFields(s, SkipWs(s, c.pos), c.cells, acc + [c.node])
  {
  }

  lemma {:induction false} DecodeAllCons(cells: seq<int>, x: nat, rest: seq<int>)
    requires Decode(cells, x).Some? && DecodeAll(cells, rest).Some?
    ensures DecodeAll(cells, [x] + rest) == Some([Decode(cells, x).value] + DecodeAll(cells, rest).value)
    ensures FootprintSum(DecodeAll(cells, [x] + rest).value) ==
      Footprint(Decode(cells, x).value) + FootprintSum(DecodeAll(cells, rest).value)
  {
    assert ([x] + rest)[1..] == rest;
    var ts := [Decode(cells, x).value] + DecodeAll(cells, rest).value;
    assert ts[1..] == DecodeAll(cells, rest).value;
  }

  /** A tuple node written after its fields reads back exactly the fields' types. */
  lemma {:induction false} DecodeFieldsAll(pre: seq<int>, ids: seq<int>, k: nat)
    requires |ids| < VOID && k <= |ids|
    requires forall j :: 0 <= j < |ids| ==> 0 <= ids[j] < |pre|
    requires DecodeAll(pre, ids[k..]).Some?
    ensures DecodeFields(pre + [|ids|] + ids, |pre|, k) == DecodeAll(pre, ids[k..])
    decreases |ids| - k
  {
    var final := pre + [|ids|] + ids;
    assert final == pre + ([|ids|] + ids);
    if k < |ids| {
      assert final[|pre| + 1 + k] == ids[k];
      assert ids[k..][0] == ids[k] && ids[k..][1..] == ids[k + 1..];
      DecodeExtend(pre, [|ids|] + ids, ids[k]);
      DecodeFieldsAll(pre, ids, k + 1);
    } else {
      assert ids[k..] == [];
    }
  }

  /** A field or an element occupies fewer cells than the type around it, so a bound on the
      cells of a type bounds every type nested in it. */
  lemma {:induction false} NestedFootprint(t: Type)
    ensures t.Array? ==> Footprint(t.elem) < Footprint(t)
    ensures t.Tuple? ==> forall k :: 0 <= k < |t.fields| ==> Footprint(t.fields[k]) < Footprint(t)
  {
    if t.Tuple? {
      forall k | 0 <= k < |t.fields|
        ensures Footprint(t.fields[k]) < Footprint(t)
      {
        FieldsFootprintCovers(t, 0, k);
      }
    }
  }

  lemma {:induction false} FieldsFootprintCovers(t: Type, j: nat, k: nat)
    requires t.Tuple? && j <= k < |t.fields|
    ensures Footprint(t.fields[k]) <= FieldsFootprint(t, j)
    decreases k - j
  {
    if j < k {
      FieldsFootprintCovers(t, j + 1, k);
    }
  }

  /** Every type the parser builds from an empty arena occupies fewer than 256 cells, so its
      size is at most 2048 * 255 < 2^19 bytes whenever it has one. */
  lemma {:induction false} ParsedSizeBound(s: string)
    requires ParseType(s, 0, []).Ok?
    ensures var r := ParseType(s, 0, []).value;
      && Decode(r.cells, r.node).Some?
      && Footprint(Decode(r.cells, r.node).value) < MAX
      && (LayoutSize(Decode(r.cells, r.node).value).Some? ==>
            LayoutSize(Decode(r.cells, r.node).value).value < 0x8_0000)
  {
    var r := ParseType(s, 0, []).value;
    ParseFootprint(s, 0, []);
    var t := Decode(r.cells, r.node).value;
    if LayoutSize(t).Some? {
      DecodeWf(r.cells, r.node);
      SizeBound(t);
    }
  }
}
