/** The descriptor parser of runtime.c (lines 121-264) as functions: the reference the parser
    methods are proved against. State is the position in the descriptor and the arena cells
    allocated so far; allocation appends to them, as getmem bumps the cursor. */
module ParseSpec {
  import opened Errors
  import opened Arena
  import opened Text
  import opened Types

  /** The character at `p` of the C string: past the end it reads the terminator. */
  function Peek(s: string, p: nat): char {
    if p < |s| then s[p] else '\0'
  }

  /** Only blank and newline are whitespace. */
  predicate IsSpace(c: char) {
    c == ' ' || c == '\n'
  }

  /** skip_whitespace: the end of the longest whitespace run starting at `p`. */
  function SkipWs(s: string, p: nat): (q: nat)
    requires p <= |s|
    ensures p <= q <= |s|
    ensures !IsSpace(Peek(s, q))
    decreases |s| - p
  {
    if p < |s| && IsSpace(s[p]) then SkipWs(s, p + 1) else p
  }

  /** Everything skip_whitespace passes over is whitespace. */
  lemma {:induction false} SkipWsSpaces(s: string, p: nat)
    requires p <= |s|
    ensures forall k :: p <= k < SkipWs(s, p) ==> IsSpace(s[k])
    decreases |s| - p
  {
    if p < |s| && IsSpace(s[p]) {
      SkipWsSpaces(s, p + 1);
    }
  }

  /** ensure_literal: the next |lit| characters must be `lit`. */
  function Literal(s: string, p: nat, lit: string, err: Kind): (r: Result<nat>)
    requires p <= |s|
  {
    if p + |lit| <= |s| && forall i :: 0 <= i < |lit| ==> s[p + i] == lit[i] then Ok(p + |lit|)
    else Fail(BadLiteral(err))
  }

  datatype Parsed = Parsed(node: nat, pos: nat, cells: seq<int>)
  datatype Fields = Fields(ids: seq<int>, pos: nat, cells: seq<int>)
  datatype Rank = Rank(rank: nat, pos: nat)

  /** What every successful parse does to the state: it consumes input, only appends to the
      arena, keeps it under capacity, and returns a node it allocated. */
  ghost predicate Advances(s: string, p: nat, cells: seq<int>, r: Parsed) {
    p < r.pos <= |s| && cells <= r.cells && |r.cells| < MAX && |cells| <= r.node < |r.cells|
  }

  /** parse_type: skip whitespace, require '(', dispatch on the next letter. */
  function ParseType(s: string, p: nat, cells: seq<int>): (r: Result<Parsed>)
    requires p <= |s|
    ensures r.Ok? ==> Advances(s, p, cells, r.value)
    decreases |s| - p, 0
  {
    var q := SkipWs(s, p);
    if Peek(s, q) != '(' then Fail(CouldNotParseType) else Dispatch(s, q + 1, cells)
  }

  /** The switch of parse_type, at the letter after '('. */
  function Dispatch(s: string, p: nat, cells: seq<int>): (r: Result<Parsed>)
    requires p <= |s|
    ensures r.Ok? ==> Advances(s, p, cells, r.value)
    decreases |s| - p, 1
  {
    var c := Peek(s, p);
    if c == 'T' then ParseTuple(s, p, cells)
    else if c == 'A' then ParseArray(s, p, cells)
    else
      match ScalarOf(c)
      case Some(k) => ParseScalar(s, p, cells, k)
      case None => Fail(CouldNotParseType)
  }

  /** The scalar cases of the switch: 'I', 'F', 'B' and 'V'. */
  function ScalarOf(c: char): (r: Option<Kind>)
    ensures r.Some? ==> IsScalar(r.value) && Keyword(r.value)[0] == c
    ensures r.None? ==> c !in "IFBV"
  {
    if c == 'I' then Some(IntKind)
    else if c == 'F' then Some(FloatKind)
    else if c == 'B' then Some(BoolKind)
    else if c == 'V' then Some(VoidKind)
    else None
  }

  predicate IsScalar(k: Kind) {
    k.VoidKind? || k.BoolKind? || k.IntKind? || k.FloatKind?
  }

  /** The keyword each parse function expects. */
  function Keyword(k: Kind): (w: string)
    ensures |w| > 0
  {
    match k
    case VoidKind => VOID_TYPE
    case BoolKind => BOOL_TYPE
    case IntKind => INT_TYPE
    case FloatKind => FLOAT_TYPE
    case TupleKind => TUPLE_TYPE
    case ArrayKind => ARRAY_TYPE
  }

  /** The tag cell a scalar parse function allocates. */
  function Tag(k: Kind): int
    requires IsScalar(k)
  {
    match k
    case VoidKind => VOID
    case BoolKind => BOOL
    case IntKind => INT
    case FloatKind => FLOAT
  }

  /** parse_void_type, parse_bool_type, parse_int_type, parse_float_type: the keyword,
      whitespace, ')', then one cell holding the tag. */
  function ParseScalar(s: string, p: nat, cells: seq<int>, k: Kind): (r: Result<Parsed>)
    requires p <= |s| && IsScalar(k)
    ensures r.Ok? ==> Advances(s, p, cells, r.value)
  {
    var p1 :- Literal(s, p, Keyword(k), k);
    var p2 :- Literal(s, SkipWs(s, p1), ")", k);
    if |cells| + 1 < MAX then Ok(Parsed(|cells|, p2, cells + [Tag(k)])) else Fail(TypeTooComplex)
  }

  /** parse_tuple_type: the keyword, the fields up to ')', then the closing part. */
  function ParseTuple(s: string, p: nat, cells: seq<int>): (r: Result<Parsed>)
    requires p <= |s|
    ensures r.Ok? ==> Advances(s, p, cells, r.value)
    decreases |s| - p, 0
  {
    var p1 :- Literal(s, p, TUPLE_TYPE, TupleKind);
    var f :- ParseFields(s, SkipWs(s, p1), cells, []);
    TupleTail(s, f)
  }

  /** The end of parse_tuple_type once the fields are read: ')', then one count cell followed
      by the field indices. */
  function TupleTail(s: string, f: Fields): (r: Result<Parsed>)
    requires f.pos <= |s|
    ensures r.Ok? ==> f.pos < r.value.pos <= |s| && r.value.node == |f.cells| && f.cells <= r.value.cells && |r.value.cells| < MAX
  {
    var p2 :- Literal(s, f.pos, ")", TupleKind);
    var n := |f.ids|;
    if |f.cells| + 1 + n < MAX then Ok(Parsed(|f.cells|, p2, f.cells + [n] + f.ids))
    else Fail(TypeTooComplex)
  }

  /** The field loop of parse_tuple_type, from position `p` (after whitespace) with the
      indices `acc` of the fields parsed so far. */
  function ParseFields(s: string, p: nat, cells: seq<int>, acc: seq<int>): (r: Result<Fields>)
    requires p <= |s|
    ensures r.Ok? ==> p <= r.value.pos <= |s| && Peek(s, r.value.pos) == ')' && cells <= r.value.cells
    ensures r.Ok? ==> |r.value.ids| >= |acc| && r.value.ids[..|acc|] == acc
    ensures r.Ok? ==> forall k :: |acc| <= k < |r.value.ids| ==> |cells| <= r.value.ids[k] < |r.value.cells|
    ensures r.Ok? && r.value.cells != cells ==> |r.value.cells| < MAX
    decreases |s| - p, 2
  {
    if Peek(s, p) == ')' then Ok(Fields(acc, p, cells))
    else if |acc| >= VOID then Fail(TooManyFields)
    else
      var c :- ParseType(s, p, cells);
      ParseFields(s, SkipWs(s, c.pos), c.cells, acc + [c.node])
  }

  /** The rank loop of parse_array_type: decimal digits, failing as soon as the value read
      so far exceeds 255. */
  function ScanRank(s: string, p: nat, acc: nat): (r: Result<Rank>)
    requires p <= |s|
    ensures r.Ok? ==> p <= r.value.pos <= |s| && !IsDigit(Peek(s, r.value.pos))
    decreases |s| - p
  {
    if p < |s| && IsDigit(s[p]) then
      var acc' := 10 * acc + DigitValue(s[p]);
      if acc' > 255 then Fail(RankTooLarge) else ScanRank(s, p + 1, acc')
    else Ok(Rank(acc, p))
  }

  /** parse_array_type: the keyword, the element type, then the closing part. */
  function ParseArray(s: string, p: nat, cells: seq<int>): (r: Result<Parsed>)
    requires p <= |s|
    ensures r.Ok? ==> Advances(s, p, cells, r.value)
    decreases |s| - p, 0
  {
    var p1 :- Literal(s, p, ARRAY_TYPE, ArrayKind);
    var e :- ParseType(s, SkipWs(s, p1), cells);
    ArrayTail(s, e)
  }

  /** The end of parse_array_type once the element is read: the rank, ')', then
      [ARRAY, elem] for rank 1 and [NDARRAY, rank, elem] otherwise. */
  function ArrayTail(s: string, e: Parsed): (r: Result<Parsed>)
    requires e.pos <= |s|
    ensures r.Ok? ==> e.pos < r.value.pos <= |s| && r.value.node == |e.cells| && e.cells <= r.value.cells && |r.value.cells| < MAX
  {
    var rk :- ScanRank(s, SkipWs(s, e.pos), 0);
    if rk.rank == 0 then Fail(RankTooSmall)
    else
      var p2 :- Literal(s, SkipWs(s, rk.pos), ")", IntKind);
      if rk.rank == 1 then
        if |e.cells| + 2 < MAX then Ok(Parsed(|e.cells|, p2, e.cells + [ARRAY, e.node]))
        else Fail(TypeTooComplex)
      else
        if |e.cells| + 3 < MAX then Ok(Parsed(|e.cells|, p2, e.cells + [NDARRAY, rk.rank, e.node]))
        else Fail(TypeTooComplex)
  }
}
