/** What the reference parser guarantees: every node it returns decodes (child indices point
    to earlier cells), the tuple and array encodings, the rank rule and the dispatch rule. */
module ParseProps {
  import opened Errors
  import opened Arena
  import opened Text
  import opened Types
  import opened ParseSpec

  /** Every successful parse leaves a decodable node: all child indices point to earlier nodes. */
  lemma {:induction false} ParseTypeDecodes(s: string, p: nat, cells: seq<int>)
    requires p <= |s| && ParseType(s, p, cells).Ok?
    ensures ValidNode(ParseType(s, p, cells).value.cells, ParseType(s, p, cells).value.node)
    decreases |s| - p, 0
  {
    var q := SkipWs(s, p) + 1;
    var c := Peek(s, q);
    if c == 'T' {
      ParseTupleDecodes(s, q, cells);
    } else if c == 'A' {
      ParseArrayDecodes(s, q, cells);
    } else {
      ParseScalarDecodes(s, q, cells, ScalarOf(c).value);
    }
  }

  lemma {:induction false} ParseScalarDecodes(s: string, p: nat, cells: seq<int>, k: Kind)
    requires p <= |s| && IsScalar(k) && ParseScalar(s, p, cells, k).Ok?
    ensures ValidNode(ParseScalar(s, p, cells, k).value.cells, ParseScalar(s, p, cells, k).value.node)
  {
  }

  lemma {:induction false} ParseTupleDecodes(s: string, p: nat, cells: seq<int>)
    requires p <= |s| && ParseTuple(s, p, cells).Ok?
    ensures ValidNode(ParseTuple(s, p, cells).value.cells, ParseTuple(s, p, cells).value.node)
    decreases |s| - p, 0
  {
    var p1 := Literal(s, p, TUPLE_TYPE, TupleKind).value;
    var q := SkipWs(s, p1);
    ParseFieldsDecode(s, q, cells, []);
    ParseFieldsAllocates(s, q, cells, []);
    TupleTailDecodes(s, ParseFields(s, q, cells, []).value);
  }

  /** Closing a tuple whose field indices all point at decodable nodes yields a decodable node. */
  lemma {:induction false} TupleTailDecodes(s: string, f: Fields)
    requires f.pos <= |s| && TupleTail(s, f).Ok? && |f.ids| <= |f.cells|
    requires forall k :: 0 <= k < |f.ids| ==> 0 <= f.ids[k] < |f.cells| && ValidNode(f.cells, f.ids[k])
    ensures ValidNode(TupleTail(s, f).value.cells, TupleTail(s, f).value.node)
  {
    var n := |f.ids|;
    var m := |f.cells|;
    var final := f.cells + [n] + f.ids;
    assert TupleTail(s, f).value == Parsed(m, f.pos + 1, final);
    assert final == f.cells + ([n] + f.ids);
    forall x | m + 1 <= x < m + 1 + n
      ensures 0 <= final[x] < m && ValidNode(final, final[x])
    {
      assert final[x] == f.ids[x - m - 1];
      DecodeExtend(f.cells, [n] + f.ids, f.ids[x - m - 1]);
    }
    DecodeFieldsSome(final, m, 0);
  }

  lemma {:induction false} ParseArrayDecodes(s: string, p: nat, cells: seq<int>)
    requires p <= |s| && ParseArray(s, p, cells).Ok?
    ensures ValidNode(ParseArray(s, p, cells).value.cells, ParseArray(s, p, cells).value.node)
    decreases |s| - p, 0
  {
    var p1 := Literal(s, p, ARRAY_TYPE, ArrayKind).value;
    var e := ParseType(s, SkipWs(s, p1), cells).value;
    ParseTypeDecodes(s, SkipWs(s, p1), cells);
    var rk := ScanRank(s, SkipWs(s, e.pos), 0).value;
    ScanRankBound(s, SkipWs(s, e.pos), 0);
    if rk.rank == 1 {
      DecodeExtend(e.cells, [ARRAY, e.node], e.node);
    } else {
      DecodeExtend(e.cells, [NDARRAY, rk.rank, e.node], e.node);
    }
  }

  /** The field loop keeps every field index (old and new) pointing at a decodable node. */
  lemma {:induction false} ParseFieldsDecode(s: string, p: nat, cells: seq<int>, acc: seq<int>)
    requires p <= |s| && ParseFields(s, p, cells, acc).Ok?
    requires forall k :: 0 <= k < |acc| ==> 0 <= acc[k] < |cells| && ValidNode(cells, acc[k])
    ensures var f := ParseFields(s, p, cells, acc).value;
      forall k :: 0 <= k < |f.ids| ==> 0 <= f.ids[k] < |f.cells| && ValidNode(f.cells, f.ids[k])
    decreases |s| - p, 2
  {
    if Peek(s, p) != ')' {
      var c := ParseType(s, p, cells).value;
      ParseTypeDecodes(s, p, cells);
      var acc' := acc + [c.node];
      assert c.cells == cells + c.cells[|cells|..];
      forall k | 0 <= k < |acc'|
        ensures 0 <= acc'[k] < |c.cells| && ValidNode(c.cells, acc'[k])
      {
        if k < |acc| {
          DecodeExtend(cells, c.cells[|cells|..], acc[k]);
        }
      }
      ParseFieldsDecode(s, SkipWs(s, c.pos), c.cells, acc');
    }
  }

  /** Each field allocates at least one cell, and field indices grow in descriptor order. */
  lemma {:induction false} ParseFieldsAllocates(s: string, p: nat, cells: seq<int>, acc: seq<int>)
    requires p <= |s| && ParseFields(s, p, cells, acc).Ok?
    requires forall k :: 0 <= k < |acc| - 1 ==> acc[k] < acc[k + 1]
    requires |acc| > 0 ==> acc[|acc| - 1] < |cells|
    ensures var f := ParseFields(s, p, cells, acc).value;
      && |f.cells| - |cells| >= |f.ids| - |acc|
      && (forall k :: 0 <= k < |f.ids| - 1 ==> f.ids[k] < f.ids[k + 1])
      && (|f.ids| > 0 ==> f.ids[|f.ids| - 1] < |f.cells|)
    decreases |s| - p
  {
    if Peek(s, p) != ')' {
      var c := ParseType(s, p, cells).value;
      ParseFieldsAllocates(s, SkipWs(s, c.pos), c.cells, acc + [c.node]);
    }
  }

  /** Tuple encoding: a count cell n (< 250, in fact at most 127, so it never collides with a
      tag) followed by exactly n field indices, increasing in descriptor order, each
      allocated during this parse and below the tuple's own index. */
  lemma {:induction false} TupleEncoding(s: string, p: nat, cells: seq<int>)
    requires p <= |s| && ParseTuple(s, p, cells).Ok?
    ensures var r := ParseTuple(s, p, cells).value;
      var n := r.cells[r.node];
      && 0 <= n <= 127 && n < VOID
      && |r.cells| == r.node + 1 + n
      && (forall k :: r.node + 1 <= k < |r.cells| ==> |cells| <= r.cells[k] < r.node)
      && (forall k :: r.node + 1 <= k < |r.cells| - 1 ==> r.cells[k] < r.cells[k + 1])
      && Decode(r.cells, r.node).Some? && Decode(r.cells, r.node).value.Tuple?
      && |Decode(r.cells, r.node).value.fields| == n
  {
    var p1 := Literal(s, p, TUPLE_TYPE, TupleKind).value;
    var q := SkipWs(s, p1);
    var f := ParseFields(s, q, cells, []).value;
    ParseFieldsAllocates(s, q, cells, []);
    ParseTupleDecodes(s, p, cells);
    var r := ParseTuple(s, p, cells).value;
    assert r.cells == f.cells + [|f.ids|] + f.ids;
    forall k | r.node + 1 <= k < |r.cells|
      ensures r.cells[k] == f.ids[k - r.node - 1]
    {
    }
  }

  /** The rank loop reads the maximal digit run and fails as soon as a prefix exceeds 255,
      which happens exactly when the whole run's value does. Generalised over a start `p0`
      with the digits s[p0..p] already read into `acc`. */
  lemma {:induction false} ScanRankValue(s: string, p0: nat, p: nat, q: nat)
    requires p0 <= p <= q <= |s|
    requires forall k :: p0 <= k < q ==> IsDigit(s[k])
    requires !IsDigit(Peek(s, q))
    requires DigitsValue(s[p0..p]) <= 255
    ensures ScanRank(s, p, DigitsValue(s[p0..p])) ==
      if DigitsValue(s[p0..q]) > 255 then Fail(RankTooLarge) else Ok(Rank(DigitsValue(s[p0..q]), q))
    decreases q - p
  {
    var acc := DigitsValue(s[p0..p]);
    if p < q {
      assert p < |s| && IsDigit(s[p]);
      assert s[p0..p + 1][..p - p0] == s[p0..p];
      var acc' := 10 * acc + DigitValue(s[p]);
      assert acc' == DigitsValue(s[p0..p + 1]);
      if acc' > 255 {
        assert s[p0..q][..p + 1 - p0] == s[p0..p + 1];
        DigitsValuePrefix(s[p0..q], p + 1 - p0);
      } else {
        ScanRankValue(s, p0, p + 1, q);
      }
    } else {
      assert !(p < |s| && IsDigit(s[p]));
    }
  }

  /** The rank read never exceeds 255. */
  lemma {:induction false} ScanRankBound(s: string, p: nat, acc: nat)
    requires p <= |s| && acc <= 255 && ScanRank(s, p, acc).Ok?
    ensures ScanRank(s, p, acc).value.rank <= 255
    decreases |s| - p
  {
    if p < |s| && IsDigit(s[p]) {
      ScanRankBound(s, p + 1, 10 * acc + DigitValue(s[p]));
    }
  }
}
