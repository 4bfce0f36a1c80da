/** The parser reads back the canonical descriptor of every type it accepts: it consumes
    exactly that text and appends exactly Encode(t), whose node decodes to `t`; when the
    arena cannot hold Footprint(t) more cells it fails with the capacity error. */
module RoundTrip {
  import opened Errors
  import opened Arena
  import opened Text
  import opened Types
  import opened ParseSpec
  import opened ParseProps
  import opened Encoding

  /** `d` occurs in `s` at `p`. */
  predicate At(s: string, p: nat, d: string) {
    p + |d| <= |s| && s[p..p + |d|] == d
  }

  lemma {:induction false} AtSplit(s: string, p: nat, a: string, b: string)
    requires At(s, p, a + b)
    ensures At(s, p, a) && At(s, p + |a|, b)
  {
    assert s[p..p + |a|] == s[p..p + |a + b|][..|a|];
    assert s[p + |a|..p + |a| + |b|] == s[p..p + |a + b|][|a|..];
  }

  /** The two parts of `a + b` at `p`, with `q` where `b` starts. */
  lemma {:induction false} AtSplitAt(s: string, p: nat, a: string, b: string, q: nat)
    requires At(s, p, a + b) && q == p + |a|
    ensures At(s, p, a) && At(s, q, b)
  {
    AtSplit(s, p, a, b);
  }

  /** The seven parts of `a1 + ... + a7` at `p`, with the positions where the later ones start. */
  lemma {:induction false} AtSplit7(s: string, p: nat, a1: string, a2: string, a3: string, a4: string, a5: string,
                                    a6: string, a7: string, q2: nat, q3: nat, q4: nat, q5: nat, q6: nat, q7: nat)
    requires At(s, p, a1 + a2 + a3 + a4 + a5 + a6 + a7)
    requires q2 == p + |a1| && q3 == q2 + |a2| && q4 == q3 + |a3| && q5 == q4 + |a4| && q6 == q5 + |a5| && q7 == q6 + |a6|
    ensures At(s, p, a1) && At(s, q2, a2) && At(s, q3, a3) && At(s, q4, a4) && At(s, q5, a5) && At(s, q6, a6)
    ensures At(s, q7, a7)
  {
    AtSplitAt(s, p, a1 + a2 + a3 + a4 + a5 + a6, a7, q7);
    AtSplitAt(s, p, a1 + a2 + a3 + a4 + a5, a6, q6);
    AtSplitAt(s, p, a1 + a2 + a3 + a4, a5, q5);
    AtSplitAt(s, p, a1 + a2 + a3, a4, q4);
    AtSplitAt(s, p, a1 + a2, a3, q3);
    AtSplitAt(s, p, a1, a2, q2);
  }

  /** The three parts of `a + b + c` at `p`, with `q` and `r` where `b` and `c` start. */
  lemma {:induction false} AtSplit3(s: string, p: nat, a: string, b: string, c: string, q: nat, r: nat)
    requires At(s, p, a + b + c) && q == p + |a| && r == q + |b|
    ensures At(s, p, a) && At(s, q, b) && At(s, r, c)
  {
    AtSplit(s, p, a + b, c);
    AtSplit(s, p, a, b);
  }

  /** The closing parenthesis sits at `q`. */
  predicate ClosesAt(s: string, q: nat) {
    q < |s| && s[q] == ')'
  }

  lemma {:induction false} AtHead(s: string, p: nat, d: string)
    requires At(s, p, d) && |d| > 0
    ensures p < |s| && s[p] == d[0]
  {
    assert s[p..p + |d|][0] == s[p];
  }

  /** Whitespace skipping stops at once on a non-blank, and after one blank before one. */
  lemma {:induction false} Unskipped(s: string, p: nat)
    requires p < |s| && !IsSpace(s[p])
    ensures SkipWs(s, p) == p
  {
  }

  lemma {:induction false} SkipBlank(s: string, p: nat)
    requires p + 1 < |s| && s[p] == ' ' && !IsSpace(s[p + 1])
    ensures SkipWs(s, p) == p + 1
  {
    Unskipped(s, p + 1);
  }

  lemma {:induction false} LiteralAt(s: string, p: nat, lit: string, err: Kind, e: nat)
    requires At(s, p, lit) && e == p + |lit|
    ensures Literal(s, p, lit, err) == Ok(e)
  {
    forall i | 0 <= i < |lit|
      ensures s[p + i] == lit[i]
    {
      assert s[p..p + |lit|][i] == s[p + i];
    }
  }

  /** The outcome of parsing a descriptor of `t` that ends just before `end` with the arena
      holding `cells`: the encoding of `t` appended, or the capacity error. */
  function Expected(t: Type, end: nat, cells: seq<int>): Result<Parsed> {
    if |cells| + Footprint(t) < MAX then
      Ok(Parsed(Encode(t, |cells|).root, end, cells + Encode(t, |cells|).cells))
    else
      Fail(TypeTooComplex)
  }

  /** Parsing Descriptor(t) consumes it and appends exactly the encoding of `t`, or fails
      with the capacity error. */
  lemma {:induction false} ParseDescriptor(t: Type, s: string, p: nat, end: nat, cells: seq<int>)
    requires WfType(t) && At(s, p, Descriptor(t)) && end == p + |Descriptor(t)|
    ensures ParseType(s, p, cells) == Expected(t, end, cells)
    decreases t, 1
  {
    match t
    case Tuple(fs) =>
      TupleDescriptor(t, s, p, end, cells);
    case Array(e, rank) =>
      ArrayDescriptor(t, s, p, end, cells);
    case _ =>
      ScalarDescriptor(t, s, p, end, cells);
  }

  /** At a '(' the parser dispatches on the letter after it. */
  lemma {:induction false} OpenParen(s: string, p: nat, cells: seq<int>)
    requires p < |s| && s[p] == '('
    ensures ParseType(s, p, cells) == Dispatch(s, p + 1, cells)
  {
    Unskipped(s, p);
  }

  predicate IsScalarType(t: Type) {
    t.Void? || t.Bool? || t.Int? || t.Float?
  }

  /** The parse function of each scalar type. */
  function KindOf(t: Type): (k: Kind)
    requires IsScalarType(t)
    ensures IsScalar(k) && Descriptor(t) == "(" + Keyword(k) + ")"
  {
    match t
    case Void => VoidKind
    case Bool => BoolKind
    case Int => IntKind
    case Float => FloatKind
  }

  /** The switch picks the scalar parse function by the keyword's first letter. */
  lemma {:induction false} DispatchScalar(s: string, p: nat, cells: seq<int>, k: Kind)
    requires IsScalar(k) && p < |s| && s[p] == Keyword(k)[0]
    ensures Dispatch(s, p, cells) == ParseScalar(s, p, cells, k)
  {
    assert ScalarOf(s[p]) == Some(k);
  }

  /** A scalar parse function at its keyword and ')' allocates its one tag cell. */
  lemma {:induction false} ScalarReads(s: string, p: nat, q: nat, end: nat, cells: seq<int>, k: Kind)
    requires IsScalar(k) && At(s, p, Keyword(k)) && q == p + |Keyword(k)| && At(s, q, ")") && end == q + 1
    ensures ParseScalar(s, p, cells, k) ==
      if |cells| + 1 < MAX then Ok(Parsed(|cells|, end, cells + [Tag(k)])) else Fail(TypeTooComplex)
  {
    LiteralAt(s, p, Keyword(k), k, q);
    AtHead(s, q, ")");
    Unskipped(s, q);
    LiteralAt(s, q, ")", k, end);
  }

  lemma {:induction false} ScalarDescriptor(t: Type, s: string, p: nat, end: nat, cells: seq<int>)
    requires IsScalarType(t) && At(s, p, Descriptor(t)) && end == p + |Descriptor(t)|
    ensures ParseType(s, p, cells) == Expected(t, end, cells)
  {
    var k := KindOf(t);
    assert Encode(t, |cells|) == Enc([Tag(k)], |cells|);
    var lit := Keyword(k);
    var q := p + 1 + |lit|;
    AtSplit3(s, p, "(", lit, ")", p + 1, q);
    AtHead(s, p, "(");
    AtHead(s, p + 1, lit);
    OpenParen(s, p, cells);
    DispatchScalar(s, p + 1, cells, k);
    ScalarReads(s, p + 1, q, end, cells, k);
  }

  lemma {:induction false} ArrayDescriptor(t: Type, s: string, p: nat, end: nat, cells: seq<int>)
    requires t.Array? && WfType(t) && At(s, p, Descriptor(t)) && end == p + |Descriptor(t)|
    ensures ParseType(s, p, cells) == Expected(t, end, cells)
    decreases t, 0
  {
    var x := p + 11 + |Descriptor(t.elem)|;
    ArrayElemAt(t, s, p);
    ParseDescriptor(t.elem, s, p + 11, x, cells);
    ArrayParts(t, s, p, x, end, cells);
  }

  /** The element's descriptor starts after "(ArrayType ". */
  lemma {:induction false} ArrayElemAt(t: Type, s: string, p: nat)
    requires t.Array? && At(s, p, Descriptor(t))
    ensures At(s, p + 11, Descriptor(t.elem))
  {
    var x := p + 11 + |Descriptor(t.elem)|;
    ArrayText(t);
    ArrayLayout(s, p, Descriptor(t.elem), NatText(t.rank), x, x + 1 + |NatText(t.rank)|);
  }

  /** An element that reads back makes the array read back. */
  lemma {:induction false} ArrayParts(t: Type, s: string, p: nat, x: nat, end: nat, cells: seq<int>)
    requires t.Array? && WfType(t) && At(s, p, Descriptor(t)) && p + 11 <= |s|
    requires x == p + 11 + |Descriptor(t.elem)| && end == p + |Descriptor(t)|
    requires ParseType(s, p + 11, cells) == Expected(t.elem, x, cells)
    ensures ParseType(s, p, cells) == Expected(t, end, cells)
  {
    ArrayFront(t, s, p, cells);
    ArrayBack(t, s, p, x, end, cells, ParseType(s, p + 11, cells));
  }

  /** parse_array_type after its element was parsed with outcome `r`. */
  function AfterElem(s: string, r: Result<Parsed>): Result<Parsed>
    requires r.Ok? ==> r.value.pos <= |s|
  {
    if r.Fail? then Fail(r.error) else ArrayTail(s, r.value)
  }

  /** At an array descriptor, parse_type is the element parse followed by the closing part. */
  lemma {:induction false} ArrayFront(t: Type, s: string, p: nat, cells: seq<int>)
    requires t.Array? && At(s, p, Descriptor(t))
    ensures At(s, p + 11, Descriptor(t.elem))
    ensures ParseType(s, p, cells) == AfterElem(s, ParseType(s, p + 11, cells))
  {
    var x := p + 11 + |Descriptor(t.elem)|;
    ArrayText(t);
    ArrayLayout(s, p, Descriptor(t.elem), NatText(t.rank), x, x + 1 + |NatText(t.rank)|);
    AtHead(s, p, "(");
    OpenParen(s, p, cells);
    AtHead(s, p + 1, ARRAY_TYPE);
    DispatchArray(s, p + 1, cells);
    AtHead(s, p + 10, " ");
    AtHead(s, p + 11, Descriptor(t.elem));
    ArrayOpen(s, p + 1, cells);
  }

  /** The closing part turns an element that reads back into an array that reads back. */
  lemma {:induction false} ArrayBack(t: Type, s: string, p: nat, x: nat, end: nat, cells: seq<int>, r: Result<Parsed>)
    requires t.Array? && WfType(t) && At(s, p, Descriptor(t))
    requires x == p + 11 + |Descriptor(t.elem)| && end == p + |Descriptor(t)|
    requires r == Expected(t.elem, x, cells)
    requires r.Ok? ==> r.value.pos <= |s|
    ensures AfterElem(s, r) == Expected(t, end, cells)
  {
    var q := x + 1 + |NatText(t.rank)|;
    ArrayRest(t, s, p, x, q);
    ArrayExpected(t, x, end, cells);
    assert r.Ok? ==> r.value.pos == x;
    ArrayCombine(s, r, t.rank, x, q, end, Expected(t, end, cells));
  }

  /** The closing part after an element parse `r` ending at `x`, when the rank text reads back
      up to the ')' at `q`, gives `a`, the outcome the array's arena state calls for. */
  lemma {:induction false} ArrayCombine(s: string, r: Result<Parsed>, rank: nat, x: nat, q: nat, end: nat, a: Result<Parsed>)
    requires 1 <= rank <= 255 && x < |s| && end == q + 1 && ClosesAt(s, q)
    requires SkipWs(s, x) == x + 1 && ScanRank(s, x + 1, 0) == Ok(Rank(rank, q))
    requires r.Ok? ==> r.value.pos == x
    requires if r.Fail? then a == Fail(TypeTooComplex) && r.error == TypeTooComplex
      else if |r.value.cells| + |ArrayNode(rank, r.value.node)| < MAX then
        a == Ok(Parsed(|r.value.cells|, end, r.value.cells + ArrayNode(rank, r.value.node)))
      else a == Fail(TypeTooComplex)
    ensures AfterElem(s, r) == a
  {
    if r.Ok? {
      ArrayTailReads(s, r.value, rank, q, end);
    }
  }

  /** The expected outcome for an array in terms of the one for its element. */
  lemma {:induction false} ArrayExpected(t: Type, x: nat, end: nat, cells: seq<int>)
    requires t.Array?
    ensures var r := Expected(t.elem, x, cells);
      if r.Fail? then Expected(t, end, cells) == Fail(TypeTooComplex) && r.error == TypeTooComplex
      else if |r.value.cells| + |ArrayNode(t.rank, r.value.node)| < MAX then
        Expected(t, end, cells) == Ok(Parsed(|r.value.cells|, end, r.value.cells + ArrayNode(t.rank, r.value.node)))
      else Expected(t, end, cells) == Fail(TypeTooComplex)
  {
    var ee := Encode(t.elem, |cells|);
    ArrayEncodeSplit(t, cells);
    if |cells| + Footprint(t.elem) < MAX {
      assert Expected(t.elem, x, cells) == Ok(Parsed(ee.root, x, cells + ee.cells));
    } else {
      assert Expected(t.elem, x, cells) == Fail(TypeTooComplex);
    }
  }

  lemma {:induction false} DispatchArray(s: string, p: nat, cells: seq<int>)
    requires p < |s| && s[p] == 'A'
    ensures Dispatch(s, p, cells) == ParseArray(s, p, cells)
  {
  }

  /** After "ArrayType " the array parser reads the element type, then its closing part. */
  lemma {:induction false} ArrayOpen(s: string, p: nat, cells: seq<int>)
    requires At(s, p, ARRAY_TYPE) && p + 10 < |s| && s[p + 9] == ' ' && s[p + 10] == '('
    ensures ParseType(s, p + 10, cells).Fail? ==> ParseArray(s, p, cells) == Fail(ParseType(s, p + 10, cells).error)
    ensures ParseType(s, p + 10, cells).Ok? ==> ParseArray(s, p, cells) == ArrayTail(s, ParseType(s, p + 10, cells).value)
  {
    LiteralAt(s, p, ARRAY_TYPE, ArrayKind, p + 9);
    SkipBlank(s, p + 9);
  }

  /** Where the pieces of an array descriptor sit, for element text `de` and rank text `nt`;
      the element ends at `x` and the rank text at `q`. */
  lemma {:induction false} ArrayLayout(s: string, p: nat, de: string, nt: string, x: nat, q: nat)
    requires At(s, p, "(" + ARRAY_TYPE + " " + de + " " + nt + ")")
    requires x == p + 11 + |de| && q == x + 1 + |nt|
    ensures At(s, p, "(") && At(s, p + 1, ARRAY_TYPE) && At(s, p + 10, " ") && At(s, p + 11, de)
    ensures At(s, x, " ") && At(s, x + 1, nt) && At(s, q, ")")
    ensures |"(" + ARRAY_TYPE + " " + de + " " + nt + ")"| == q + 1 - p
  {
    assert |"("| == 1 && |ARRAY_TYPE| == 9 && |" "| == 1;
    AtSplit7(s, p, "(", ARRAY_TYPE, " ", de, " ", nt, ")", p + 1, p + 10, p + 11, x, x + 1, q);
  }

  lemma {:induction false} ArrayText(t: Type)
    requires t.Array?
    ensures Descriptor(t) == "(" + ARRAY_TYPE + " " + Descriptor(t.elem) + " " + NatText(t.rank) + ")"
  {
  }

  /** After the element, at `x`: a blank, the rank digits, ')' at `q`. The rank loop reads
      back the rank. */
  lemma {:induction false} ArrayRest(t: Type, s: string, p: nat, x: nat, q: nat)
    requires t.Array? && WfType(t) && At(s, p, Descriptor(t))
    requires x == p + 11 + |Descriptor(t.elem)| && q == x + 1 + |NatText(t.rank)|
    ensures SkipWs(s, x) == x + 1
    ensures ScanRank(s, x + 1, 0) == Ok(Rank(t.rank, q))
    ensures q < |s| && s[q] == ')'
    ensures p + |Descriptor(t)| == q + 1
  {
    ArrayText(t);
    ArrayLayout(s, p, Descriptor(t.elem), NatText(t.rank), x, q);
    RankPart(s, x, t.rank, q);
  }

  /** A blank, the rank digits and ')'. */
  lemma {:induction false} RankPart(s: string, x: nat, rank: nat, q: nat)
    requires rank <= 255 && q == x + 1 + |NatText(rank)|
    requires At(s, x, " ") && At(s, x + 1, NatText(rank)) && At(s, q, ")")
    ensures SkipWs(s, x) == x + 1
    ensures ScanRank(s, x + 1, 0) == Ok(Rank(rank, q))
    ensures q < |s| && s[q] == ')'
  {
    var nt := NatText(rank);
    NatTextDigits(rank);
    AtHead(s, x, " ");
    AtHead(s, x + 1, nt);
    SkipBlank(s, x);
    AtHead(s, q, ")");
    RankReads(s, x + 1, rank, q);
  }

  /** The rank loop reads the decimal text of a rank back. */
  lemma {:induction false} RankReads(s: string, x: nat, rank: nat, q: nat)
    requires rank <= 255 && q == x + |NatText(rank)| && At(s, x, NatText(rank))
    requires q < |s| && s[q] == ')'
    ensures ScanRank(s, x, 0) == Ok(Rank(rank, q))
  {
    var nt := NatText(rank);
    NatTextDigits(rank);
    assert s[x..q] == nt;
    assert s[x..x] == [];
    forall k | x <= k < q
      ensures IsDigit(s[k])
    {
      assert s[k] == s[x..q][k - x];
    }
    ScanRankValue(s, x, x, q);
  }


  /** The closing part of parse_array_type once the rank is known to read back. */
  lemma {:induction false} ArrayTailReads(s: string, er: Parsed, rank: nat, q: nat, end: nat)
    requires er.pos <= |s| && 1 <= rank <= 255
    requires ScanRank(s, SkipWs(s, er.pos), 0) == Ok(Rank(rank, q))
    requires q < |s| && s[q] == ')' && end == q + 1
    ensures ArrayTail(s, er) ==
      if |er.cells| + |ArrayNode(rank, er.node)| < MAX then Ok(Parsed(|er.cells|, end, er.cells + ArrayNode(rank, er.node)))
      else Fail(TypeTooComplex)
  {
    Unskipped(s, q);
    assert At(s, q, ")") by {
      assert s[q..q + 1] == [s[q]];
    }
    LiteralAt(s, q, ")", IntKind, end);
  }

  lemma {:induction false} TupleDescriptor(t: Type, s: string, p: nat, end: nat, cells: seq<int>)
    requires t.Tuple? && WfType(t) && At(s, p, Descriptor(t)) && end == p + |Descriptor(t)|
    ensures ParseType(s, p, cells) == Expected(t, end, cells)
    decreases t, 0
  {
    var z := p + 10 + |FieldsText(t, 0)|;
    TupleFront(t, s, p, z, cells);
    FieldsDescriptor(t, 0, s, p + 10, z, cells, []);
    TupleBack(t, s, p, z, end, cells, ParseFields(s, SkipWs(s, p + 10), cells, []));
  }

  /** parse_tuple_type after its field loop ended with outcome `r`. */
  function AfterFields(s: string, r: Result<Fields>): Result<Parsed>
    requires r.Ok? ==> r.value.pos <= |s|
  {
    if r.Fail? then Fail(r.error) else TupleTail(s, r.value)
  }

  /** Where the pieces of a tuple descriptor sit, for field text `ft` ending at `z`. */
  lemma {:induction false} TupleLayout(s: string, p: nat, ft: string, z: nat)
    requires At(s, p, "(" + TUPLE_TYPE + ft + ")") && z == p + 10 + |ft|
    ensures At(s, p, "(") && At(s, p + 1, TUPLE_TYPE) && At(s, p + 10, ft) && At(s, z, ")")
    ensures |"(" + TUPLE_TYPE + ft + ")"| == z + 1 - p
  {
    assert |"("| == 1 && |TUPLE_TYPE| == 9;
    AtSplitAt(s, p, "(" + TUPLE_TYPE + ft, ")", z);
    AtSplitAt(s, p, "(" + TUPLE_TYPE, ft, p + 10);
    AtSplitAt(s, p, "(", TUPLE_TYPE, p + 1);
  }

  lemma {:induction false} TupleText(t: Type)
    requires t.Tuple?
    ensures Descriptor(t) == "(" + TUPLE_TYPE + FieldsText(t, 0) + ")"
  {
  }

  /** At a tuple descriptor, parse_type is the field loop followed by the closing part. */
  lemma {:induction false} TupleFront(t: Type, s: string, p: nat, z: nat, cells: seq<int>)
    requires t.Tuple? && At(s, p, Descriptor(t)) && z == p + 10 + |FieldsText(t, 0)|
    ensures At(s, p + 10, FieldsText(t, 0)) && ClosesAt(s, z)
    ensures ParseType(s, p, cells) == AfterFields(s, ParseFields(s, SkipWs(s, p + 10), cells, []))
  {
    TupleText(t);
    TupleLayout(s, p, FieldsText(t, 0), z);
    AtHead(s, z, ")");
    AtHead(s, p, "(");
    OpenParen(s, p, cells);
    AtHead(s, p + 1, TUPLE_TYPE);
    DispatchTuple(s, p + 1, cells);
    TupleOpen(s, p + 1, cells);
  }

  lemma {:induction false} DispatchTuple(s: string, p: nat, cells: seq<int>)
    requires p < |s| && s[p] == 'T'
    ensures Dispatch(s, p, cells) == ParseTuple(s, p, cells)
  {
  }

  lemma {:induction false} TupleOpen(s: string, p: nat, cells: seq<int>)
    requires At(s, p, TUPLE_TYPE)
    ensures ParseTuple(s, p, cells) == AfterFields(s, ParseFields(s, SkipWs(s, p + 9), cells, []))
  {
    LiteralAt(s, p, TUPLE_TYPE, TupleKind, p + 9);
  }

  /** The outcome of the field loop over FieldsText(t, k), ending before `end`, when `acc`
      holds the first k field indices: the remaining fields encoded one after the other, or
      the capacity error. */
  function FieldsExpected(t: Type, k: nat, end: nat, cells: seq<int>, acc: seq<int>): Result<Fields>
    requires t.Tuple? && k <= |t.fields|
  {
    if |cells| + FieldsFootprint(t, k) < MAX || k == |t.fields| then
      Ok(Fields(acc + EncodeFields(t, k, |cells|).ids, end, cells + EncodeFields(t, k, |cells|).cells))
    else
      Fail(TypeTooComplex)
  }

  /** The field loop reads back FieldsText(t, k), which runs from `x` to the ')' at `z`. */
  lemma {:induction false} FieldsDescriptor(t: Type, k: nat, s: string, x: nat, z: nat, cells: seq<int>, acc: seq<int>)
    requires t.Tuple? && k <= |t.fields| <= VOID && WfFields(t, k) && |acc| == k
    requires At(s, x, FieldsText(t, k)) && z == x + |FieldsText(t, k)| && ClosesAt(s, z)
    ensures x <= |s|
    ensures ParseFields(s, SkipWs(s, x), cells, acc) == FieldsExpected(t, k, z, cells, acc)
    decreases t, 0, |t.fields| - k, 1
  {
    if k == |t.fields| {
      FieldsEnd(t, s, x, z, cells, acc);
    } else {
      var c := ParseType(s, x + 1, cells);
      var y := x + 1 + |Descriptor(t.fields[k])|;
      FieldsHead(t, k, s, x, z, cells, acc, c, y);
      if c.Ok? {
        var acc' := acc + [c.value.node];
        var r := ParseFields(s, SkipWs(s, y), c.value.cells, acc');
        assert |acc'| == k + 1;
        FieldsDescriptor(t, k + 1, s, y, z, c.value.cells, acc');
        FieldsBack(t, k, y, z, cells, acc, c, r);
      } else {
        FieldsBack(t, k, y, z, cells, acc, c, Fail(c.error));
      }
    }
  }

  /** The k-th field: the loop parses its descriptor, which reads back as `c`, and goes on
      after it at `y`. */
  lemma {:induction false} FieldsHead(t: Type, k: nat, s: string, x: nat, z: nat, cells: seq<int>, acc: seq<int>, c: Result<Parsed>, y: nat)
    requires t.Tuple? && k < |t.fields| <= VOID && WfFields(t, k) && |acc| == k
    requires At(s, x, FieldsText(t, k)) && z == x + |FieldsText(t, k)| && ClosesAt(s, z)
    requires x + 1 <= |s| && c == ParseType(s, x + 1, cells) && y == x + 1 + |Descriptor(t.fields[k])|
    ensures c == Expected(t.fields[k], y, cells)
    ensures c.Fail? ==> ParseFields(s, SkipWs(s, x), cells, acc) == Fail(c.error)
    ensures c.Ok? ==> c.value.pos == y && ParseFields(s, SkipWs(s, x), cells, acc) == ParseFields(s, SkipWs(s, y), c.value.cells, acc + [c.value.node])
    ensures WfFields(t, k + 1)
    ensures At(s, y, FieldsText(t, k + 1)) && z == y + |FieldsText(t, k + 1)|
    decreases t, 0, |t.fields| - k, 0
  {
    FieldsHeadText(t, k, s, x, z, y);
    FieldsStep(s, x + 1, cells, acc);
    ParseDescriptor(t.fields[k], s, x + 1, y, cells);
  }

  /** The k-th field's text: a blank, its descriptor up to `y`, the other fields up to `z`. */
  lemma {:induction false} FieldsHeadText(t: Type, k: nat, s: string, x: nat, z: nat, y: nat)
    requires t.Tuple? && k < |t.fields|
    requires At(s, x, FieldsText(t, k)) && z == x + |FieldsText(t, k)| && ClosesAt(s, z)
    requires y == x + 1 + |Descriptor(t.fields[k])|
    ensures SkipWs(s, x) == x + 1 && x + 1 < |s| && s[x + 1] == '('
    ensures At(s, x + 1, Descriptor(t.fields[k]))
    ensures At(s, y, FieldsText(t, k + 1)) && z == y + |FieldsText(t, k + 1)|
  {
    FieldsTextCons(t, k);
    FieldsLayout(s, x, Descriptor(t.fields[k]), FieldsText(t, k + 1), y, z);
  }

  /** No field left: the loop stops at the ')'. */
  lemma {:induction false} FieldsEnd(t: Type, s: string, x: nat, z: nat, cells: seq<int>, acc: seq<int>)
    requires t.Tuple? && |acc| == |t.fields|
    requires At(s, x, FieldsText(t, |t.fields|)) && z == x + |FieldsText(t, |t.fields|)| && ClosesAt(s, z)
    ensures x <= |s|
    ensures ParseFields(s, SkipWs(s, x), cells, acc) == FieldsExpected(t, |t.fields|, z, cells, acc)
  {
    assert FieldsText(t, |t.fields|) == "";
    assert acc + [] == acc && cells + [] == cells;
    Unskipped(s, x);
  }

  /** Where the pieces of a field sit: a blank, its descriptor `df` up to `y`, the text `rest`
      of the other fields up to the ')' at `z`. */
  lemma {:induction false} FieldsLayout(s: string, x: nat, df: string, rest: string, y: nat, z: nat)
    requires At(s, x, " " + df + rest) && |df| > 0 && df[0] == '('
    requires y == x + 1 + |df| && z == y + |rest| && ClosesAt(s, z)
    ensures SkipWs(s, x) == x + 1 && x + 1 < |s| && s[x + 1] == '('
    ensures At(s, x + 1, df) && At(s, y, rest)
  {
    AtSplitAt(s, x, " " + df, rest, y);
    AtSplitAt(s, x, " ", df, x + 1);
    AtHead(s, x, " ");
    AtHead(s, x + 1, df);
    SkipBlank(s, x);
  }

  lemma {:induction false} FieldsTextCons(t: Type, k: nat)
    requires t.Tuple? && k < |t.fields|
    ensures FieldsText(t, k) == " " + Descriptor(t.fields[k]) + FieldsText(t, k + 1)
  {
  }

  /** Before a field that starts with '(' the loop parses it and continues after it. */
  lemma {:induction false} FieldsStep(s: string, x: nat, cells: seq<int>, acc: seq<int>)
    requires x < |s| && s[x] == '(' && |acc| < VOID
    ensures ParseType(s, x, cells).Fail? ==> ParseFields(s, x, cells, acc) == Fail(ParseType(s, x, cells).error)
    ensures ParseType(s, x, cells).Ok? ==>
      var c := ParseType(s, x, cells).value;
      ParseFields(s, x, cells, acc) == ParseFields(s, SkipWs(s, c.pos), c.cells, acc + [c.node])
  {
  }

  /** One field that reads back, ending at `y`, then the rest reading back, make the fields
      from k read back. */
  lemma {:induction false} FieldsBack(t: Type, k: nat, y: nat, end: nat, cells: seq<int>, acc: seq<int>, c: Result<Parsed>, r: Result<Fields>)
    requires t.Tuple? && k < |t.fields|
    requires c == Expected(t.fields[k], y, cells)
    requires c.Ok? ==> r == FieldsExpected(t, k + 1, end, c.value.cells, acc + [c.value.node])
    requires c.Fail? ==> r == Fail(c.error)
    ensures r == FieldsExpected(t, k, end, cells, acc)
  {
    var e := Encode(t.fields[k], |cells|);
    var mid := cells + e.cells;
    var rest := EncodeFields(t, k + 1, |mid|);
    FieldsExpectedCons(t, k, end, cells, acc, e, rest);
    if |mid| < MAX {
      assert c == Ok(Parsed(e.root, y, mid));
      assert FieldsFootprint(t, |t.fields|) == 0;
    } else {
      assert c == Fail(TypeTooComplex);
    }
  }

  /** The expected outcome for fields k.. in terms of field k's encoding and the rest's. */
  lemma {:induction false} FieldsExpectedCons(t: Type, k: nat, end: nat, cells: seq<int>, acc: seq<int>, e: Enc, rest: FieldsEnc)
    requires t.Tuple? && k < |t.fields|
    requires e == Encode(t.fields[k], |cells|) && rest == EncodeFields(t, k + 1, |cells| + |e.cells|)
    ensures FieldsExpected(t, k, end, cells, acc) ==
      if |cells| + |e.cells| + FieldsFootprint(t, k + 1) < MAX then
        Ok(Fields(acc + [e.root] + rest.ids, end, cells + e.cells + rest.cells))
      else Fail(TypeTooComplex)
  {
    assert |cells + e.cells| == |cells| + |e.cells|;
    EncodeFieldsSplit(t, k, cells);
    assert acc + [e.root] + rest.ids == acc + ([e.root] + rest.ids);
  }

  /** The closing part turns fields that read back into a tuple that reads back. */
  lemma {:induction false} TupleBack(t: Type, s: string, p: nat, z: nat, end: nat, cells: seq<int>, r: Result<Fields>)
    requires t.Tuple? && At(s, p, Descriptor(t))
    requires z == p + 10 + |FieldsText(t, 0)| && end == p + |Descriptor(t)|
    requires r == FieldsExpected(t, 0, z, cells, [])
    requires r.Ok? ==> r.value.pos <= |s|
    ensures AfterFields(s, r) == Expected(t, end, cells)
  {
    TupleText(t);
    TupleLayout(s, p, FieldsText(t, 0), z);
    AtHead(s, z, ")");
    TupleExpected(t, z, end, cells);
    if r.Ok? {
      TupleTailReads(s, r.value, end);
    }
  }

  /** The closing part of parse_tuple_type at a ')'. */
  lemma {:induction false} TupleTailReads(s: string, f: Fields, end: nat)
    requires f.pos < |s| && s[f.pos] == ')' && end == f.pos + 1
    ensures TupleTail(s, f) ==
      if |f.cells| + 1 + |f.ids| < MAX then Ok(Parsed(|f.cells|, end, f.cells + [|f.ids|] + f.ids))
      else Fail(TypeTooComplex)
  {
    assert At(s, f.pos, ")") by {
      assert s[f.pos + 0] == ")"[0];
    }
    LiteralAt(s, f.pos, ")", TupleKind, end);
  }

  /** The expected outcome for a tuple in terms of the one for its fields ending at `z`. */
  lemma {:induction false} TupleExpected(t: Type, z: nat, end: nat, cells: seq<int>)
    requires t.Tuple? && end == z + 1
    ensures var r := FieldsExpected(t, 0, z, cells, []);
      if r.Fail? then Expected(t, end, cells) == Fail(TypeTooComplex) && r.error == TypeTooComplex
      else if |r.value.cells| + 1 + |r.value.ids| < MAX then
        Expected(t, end, cells) == Ok(Parsed(|r.value.cells|, end, r.value.cells + [|r.value.ids|] + r.value.ids))
      else Expected(t, end, cells) == Fail(TypeTooComplex)
  {
    var fe := EncodeFields(t, 0, |cells|);
    TupleEncodeSplit(t, cells);
    assert [] + fe.ids == fe.ids;
    if |cells| + FieldsFootprint(t, 0) < MAX || |t.fields| == 0 {
      assert FieldsExpected(t, 0, z, cells, []) == Ok(Fields(fe.ids, z, cells + fe.cells));
    } else {
      assert FieldsExpected(t, 0, z, cells, []) == Fail(TypeTooComplex);
    }
  }

  /** The round trip: the descriptor of a type that fits in the arena parses, consuming
      exactly the descriptor, into a node that decodes back to the type. */
  lemma {:induction false} ParseReadsBack(t: Type, s: string, p: nat, cells: seq<int>)
    requires WfType(t) && At(s, p, Descriptor(t)) && |cells| + Footprint(t) < MAX
    ensures var r := ParseType(s, p, cells);
      r.Ok? && r.value.pos == p + |Descriptor(t)| && cells <= r.value.cells &&
      |r.value.cells| == |cells| + Footprint(t) && Decode(r.value.cells, r.value.node) == Some(t)
  {
    ParseDescriptor(t, s, p, p + |Descriptor(t)|, cells);
    EncodeDecodes(t, cells);
  }
}
