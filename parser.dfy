/** The descriptor parser of runtime.c (lines 121-264) as it runs: methods that move a position
    through the descriptor and write nodes into the arena, each proved to return what the
    reference parser of ParseSpec returns and to leave the arena holding the reference cells. */
module Parser {
  import opened Errors
  import opened Arena
  import opened Text
  import opened Types
  import Spec = ParseSpec

  /** What a parse function hands back: the index of the node it built and the position after
      its text (`*new_type_str`). */
  datatype Step = Step(node: nat, pos: nat)

  /** The reference outcome without the arena contents, which the methods keep in the arena. */
  function View(r: Result<Spec.Parsed>): (v: Result<Step>)
    ensures v.Ok? <==> r.Ok?
    ensures r.Ok? ==> v.value.node == r.value.node && v.value.pos == r.value.pos
    ensures r.Fail? ==> v.error == r.error
  {
    match r
    case Ok(p) => Ok(Step(p.node, p.pos))
    case Fail(e) => Fail(e)
  }

  /** skip_whitespace. */
  method SkipWhitespace(s: string, p: nat) returns (q: nat)
    requires p <= |s|
    ensures q == Spec.SkipWs(s, p)
  {
    q := p;
    while Spec.IsSpace(Spec.Peek(s, q))
      invariant p <= q <= |s| && Spec.SkipWs(s, q) == Spec.SkipWs(s, p)
      decreases |s| - q
    {
      q := q + 1;
    }
  }

  /** ensure_literal: compares character by character; the descriptor's terminator never
      matches, since a C literal holds no NUL. */
  method EnsureLiteral(lit: string, s: string, p: nat, err: Kind) returns (r: Result<nat>)
    requires p <= |s| && '\0' !in lit
    ensures r == Spec.Literal(s, p, lit, err)
  {
    var k := 0;
    while k < |lit|
      invariant k <= |lit| && p + k <= |s|
      invariant forall i :: 0 <= i < k ==> p + i < |s| && s[p + i] == lit[i]
    {
      if Spec.Peek(s, p + k) != lit[k] {
        return Fail(BadLiteral(err));
      }
      k := k + 1;
    }
    return Ok(p + |lit|);
  }

  lemma {:induction false} KeywordsHaveNoNul(k: Kind)
    ensures '\0' !in Spec.Keyword(k) && '\0' !in ")"
  {
  }

  /** parse_void_type, parse_bool_type, parse_int_type and parse_float_type, which differ only
      in keyword, tag and diagnostic. */
  method ParseScalar(a: Arena, s: string, p: nat, k: Kind) returns (r: Result<Step>)
    requires a.Valid() && p <= |s| && Spec.IsScalar(k)
    modifies a, a.data
    ensures a.Valid()
    ensures r == View(Spec.ParseScalar(s, p, old(a.Cells()), k))
    ensures r.Ok? ==> a.Cells() == Spec.ParseScalar(s, p, old(a.Cells()), k).value.cells
  {
    KeywordsHaveNoNul(k);
    var p1 := EnsureLiteral(Spec.Keyword(k), s, p, k);
    if p1.Fail? {
      return Fail(p1.error);
    }
    var q := SkipWhitespace(s, p1.value);
    var p2 := EnsureLiteral(")", s, q, k);
    if p2.Fail? {
      return Fail(p2.error);
    }
    ghost var cells := a.Cells();
    var t := a.GetMem(1);
    if t.Fail? {
      return Fail(t.error);
    }
    a.data[t.value] := Spec.Tag(k);
    assert a.Cells() == cells + [Spec.Tag(k)];
    r := Ok(Step(t.value, p2.value));
  }

  /** parse_tuple_type: the field loop fills the local buffer `tuple_mem`, which is copied into
      the arena after the count cell once the ')' is read. */
  method ParseTuple(a: Arena, s: string, p: nat) returns (r: Result<Step>)
    requires a.Valid() && p <= |s|
    modifies a, a.data
    ensures a.Valid()
    ensures r == View(Spec.ParseTuple(s, p, old(a.Cells())))
    ensures r.Ok? ==> a.Cells() == Spec.ParseTuple(s, p, old(a.Cells())).value.cells
    decreases |s| - p, 0
  {
    KeywordsHaveNoNul(TupleKind);
    var p1 := EnsureLiteral(TUPLE_TYPE, s, p, TupleKind);
    if p1.Fail? {
      return Fail(p1.error);
    }
    var q := SkipWhitespace(s, p1.value);
    ghost var q0, cells0 := q, a.Cells();
    var buf := new int[256];
    var n := 0;
    while Spec.Peek(s, q) != ')'
      invariant a.Valid() && p < q <= |s| && n <= VOID
      invariant Spec.ParseFields(s, q, a.Cells(), buf[..n]) == Spec.ParseFields(s, q0, cells0, [])
      decreases |s| - q
    {
      if n >= VOID {
        return Fail(TooManyFields);
      }
      var c := ParseType(a, s, q);
      if c.Fail? {
        return Fail(c.error);
      }
      buf[n] := c.value.node;
      assert buf[..n + 1] == buf[..n] + [c.value.node];
      n := n + 1;
      q := SkipWhitespace(s, c.value.pos);
    }
    r := CloseTuple(a, s, q, buf, n);
  }

  /** The end of parse_tuple_type once the field loop stopped at `q` with `n` field indices in
      `buf`: ')', then the count cell and the copied indices. */
  method CloseTuple(a: Arena, s: string, q: nat, buf: array<int>, n: nat) returns (r: Result<Step>)
    requires a.Valid() && q <= |s| && n <= buf.Length && buf != a.data
    modifies a, a.data
    ensures a.Valid()
    ensures r == View(Spec.TupleTail(s, Spec.Fields(buf[..n], q, old(a.Cells()))))
    ensures r.Ok? ==> a.Cells() == Spec.TupleTail(s, Spec.Fields(buf[..n], q, old(a.Cells()))).value.cells
  {
    KeywordsHaveNoNul(TupleKind);
    var p2 := EnsureLiteral(")", s, q, TupleKind);
    if p2.Fail? {
      return Fail(p2.error);
    }
    ghost var cells := a.Cells();
    var t := a.GetMem(1 + n);
    if t.Fail? {
      return Fail(t.error);
    }
    a.data[t.value] := n;
    assert a.data[..t.value + 1] == cells + [n];
    var j := 0;
    while j < n
      invariant j <= n && a.Valid() && a.i == t.value + 1 + n
      invariant a.data[..t.value + 1 + j] == cells + [n] + buf[..j]
      modifies a.data
    {
      a.data[t.value + 1 + j] := buf[j];
      assert buf[..j + 1] == buf[..j] + [buf[j]];
      assert a.data[..t.value + 1 + j + 1] == a.data[..t.value + 1 + j] + [buf[j]];
      j := j + 1;
    }
    r := Ok(Step(t.value, p2.value));
  }

  /** parse_array_type: the element, the rank digits, ')', then the 2- or 3-cell node. */
  method ParseArray(a: Arena, s: string, p: nat) returns (r: Result<Step>)
    requires a.Valid() && p <= |s|
    modifies a, a.data
    ensures a.Valid()
    ensures r == View(Spec.ParseArray(s, p, old(a.Cells())))
    ensures r.Ok? ==> a.Cells() == Spec.ParseArray(s, p, old(a.Cells())).value.cells
    decreases |s| - p, 0
  {
    KeywordsHaveNoNul(ArrayKind);
    var p1 := EnsureLiteral(ARRAY_TYPE, s, p, ArrayKind);
    if p1.Fail? {
      return Fail(p1.error);
    }
    var q := SkipWhitespace(s, p1.value);
    var e := ParseType(a, s, q);
    if e.Fail? {
      return Fail(e.error);
    }
    r := CloseArray(a, s, e.value);
  }

  /** The end of parse_array_type once the element is parsed: the rank digits, ')', then
      [ARRAY, elem] for rank 1 or [NDARRAY, rank, elem]. */
  method CloseArray(a: Arena, s: string, e: Step) returns (r: Result<Step>)
    requires a.Valid() && e.pos <= |s|
    modifies a, a.data
    ensures a.Valid()
    ensures r == View(Spec.ArrayTail(s, Spec.Parsed(e.node, e.pos, old(a.Cells()))))
    ensures r.Ok? ==> a.Cells() == Spec.ArrayTail(s, Spec.Parsed(e.node, e.pos, old(a.Cells()))).value.cells
  {
    var q := SkipWhitespace(s, e.pos);
    var rk := ReadRank(s, q);
    if rk.Fail? {
      return Fail(rk.error);
    }
    var rank := rk.value.rank;
    if rank == 0 {
      return Fail(RankTooSmall);
    }
    q := SkipWhitespace(s, rk.value.pos);
    KeywordsHaveNoNul(IntKind);
    var p2 := EnsureLiteral(")", s, q, IntKind);
    if p2.Fail? {
      return Fail(p2.error);
    }
    ghost var cells := a.Cells();
    if rank == 1 {
      var t := a.GetMem(2);
      if t.Fail? {
        return Fail(t.error);
      }
      a.data[t.value] := ARRAY;
      a.data[t.value + 1] := e.node;
      assert a.Cells() == cells + [ARRAY, e.node];
      r := Ok(Step(t.value, p2.value));
    } else {
      var t := a.GetMem(3);
      if t.Fail? {
        return Fail(t.error);
      }
      a.data[t.value] := NDARRAY;
      a.data[t.value + 1] := rank;
      a.data[t.value + 2] := e.node;
      assert a.Cells() == cells + [NDARRAY, rank, e.node];
      r := Ok(Step(t.value, p2.value));
    }
  }

  /** The rank loop of parse_array_type: `rank = 10 * rank + digit` while digits follow, failing
      as soon as the value exceeds 255 (so the 32-bit `rank` of the source never wraps). */
  method ReadRank(s: string, p: nat) returns (r: Result<Spec.Rank>)
    requires p <= |s|
    ensures r == Spec.ScanRank(s, p, 0)
  {
    var q := p;
    var rank: nat := 0;
    while IsDigit(Spec.Peek(s, q))
      invariant p <= q <= |s| && rank <= 255
      invariant Spec.ScanRank(s, q, rank) == Spec.ScanRank(s, p, 0)
      decreases |s| - q
    {
      rank := 10 * rank + DigitValue(s[q]);
      q := q + 1;
      if rank > 255 {
        return Fail(RankTooLarge);
      }
    }
    return Ok(Spec.Rank(rank, q));
  }

  /** parse_type: whitespace, '(', then the switch on the next letter. */
  method ParseType(a: Arena, s: string, p: nat) returns (r: Result<Step>)
    requires a.Valid() && p <= |s|
    modifies a, a.data
    ensures a.Valid()
    ensures r == View(Spec.ParseType(s, p, old(a.Cells())))
    ensures r.Ok? ==> a.Cells() == Spec.ParseType(s, p, old(a.Cells())).value.cells
    decreases |s| - p, 1
  {
    var q := SkipWhitespace(s, p);
    if Spec.Peek(s, q) != '(' {
      return Fail(CouldNotParseType);
    }
    q := q + 1;
    match Spec.Peek(s, q)
    case 'T' => r := ParseTuple(a, s, q);
    case 'I' => r := ParseScalar(a, s, q, IntKind);
    case 'F' => r := ParseScalar(a, s, q, FloatKind);
    case 'B' => r := ParseScalar(a, s, q, BoolKind);
    case 'A' => r := ParseArray(a, s, q);
    case 'V' => r := ParseScalar(a, s, q, VoidKind);
    case _ => r := Fail(CouldNotParseType);
  }
}
