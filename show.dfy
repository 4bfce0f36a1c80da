/** show, show_type and show_array of runtime.c (lines 290-383) as they run: methods that walk
    the arena and the value memory and return the text they print, each proved to print
    exactly the text of the reference in Render and to stop with the same diagnostic. */
module Show {
  import opened Errors
  import opened Text
  import opened Arena
  import opened Types
  import opened Layout
  import opened Memory
  import opened Extents
  import opened Render
  import Spec = ParseSpec
  import Parser
  import ParseProps

  /** show_type: the switch on the node's tag. */
  method ShowType(cells: seq<int>, t: nat, m: Mem, addr: nat, floatText: nat -> string)
    returns (text: string, fault: Option<Error>)
    requires ValidNode(cells, t)
    ensures Out(text, fault) == RenderType(Decode(cells, t).value, m, addr, floatText)
    decreases t, 3
  {
    var tag := cells[t];
    if tag == VOID {
      text, fault := "void", None;
    } else if tag == BOOL {
      if m(addr) != 0 {
        text := "true";
      } else {
        text := "false";
      }
      fault := None;
    } else if tag == INT {
      text, fault := IntText(Signed(Word(m, addr))), None;
    } else if tag == FLOAT {
      text, fault := floatText(Word(m, addr)), None;
    } else if tag == ARRAY {
      text, fault := ShowArray(cells, cells[t + 1], 1, m, addr, floatText);
    } else if tag == NDARRAY {
      text, fault := ShowArray(cells, cells[t + 2], cells[t + 1], m, addr, floatText);
    } else {
      text, fault := ShowTuple(cells, t, m, addr, floatText);
    }
  }

  /** The `default:` case of show_type: "{", the fields, "}". */
  method ShowTuple(cells: seq<int>, t: nat, m: Mem, addr: nat, floatText: nat -> string)
    returns (text: string, fault: Option<Error>)
    requires ValidNode(cells, t) && 0 <= cells[t] < VOID
    ensures Out(text, fault) == RenderType(Decode(cells, t).value, m, addr, floatText)
    decreases t, 2
  {
    TupleDecodes(cells, t);
    var s, f := ShowFields(cells, t, Decode(cells, t).value, m, addr, floatText);
    TupleOut(Decode(cells, t).value, m, addr, floatText);
    if f.Some? {
      return "{" + s, f;
    }
    text, fault := "{" + s + "}", None;
  }

  /** The field loop of show_type: each field at the running offset, then its size added to
      the offset, then ", " unless it is the last. */
  method ShowFields(cells: seq<int>, t: nat, ghost tt: Type, m: Mem, addr: nat, floatText: nat -> string)
    returns (text: string, fault: Option<Error>)
    requires ValidNode(cells, t) && 0 <= cells[t] < VOID
    requires tt == Decode(cells, t).value && tt.Tuple? && |tt.fields| == cells[t]
    ensures Out(text, fault) == RenderFields(tt, 0, m, addr, floatText)
    decreases t, 1
  {
    ghost var whole := RenderFields(tt, 0, m, addr, floatText);
    var fields := cells[t];
    var offset: nat := 0;
    text := "";
    var i := 0;
    while i < fields
      invariant 0 <= i <= fields
      invariant var r := RenderFields(tt, i, m, addr + offset, floatText); whole == Out(text + r.text, r.fault)
    {
      var s, f, z := ShowField(cells, t, tt, i, m, addr + offset, floatText, text, whole);
      if f.Some? {
        return text + s, f;
      }
      if z.None? {
        return text + s, Some(VoidHasNoSize);
      }
      offset := offset + z.value;
      text := text + s;
      i := i + 1;
    }
    assert text + "" == text;
    fault := None;
  }

  /** One pass of the field loop: field i printed from `at`, its size, and ", " unless it is
      the last field, with what that leaves of the text of the whole field list. */
  method ShowField(cells: seq<int>, t: nat, ghost tt: Type, i: nat, m: Mem, at: nat, floatText: nat -> string,
                   ghost acc: string, ghost whole: Out) returns (s: string, f: Option<Error>, z: Option<nat>)
    requires ValidNode(cells, t) && 0 <= cells[t] < VOID && i < cells[t]
    requires tt == Decode(cells, t).value && tt.Tuple? && |tt.fields| == cells[t]
    requires var r := RenderFields(tt, i, m, at, floatText); whole == Out(acc + r.text, r.fault)
    ensures f.Some? ==> whole == Out(acc + s, f)
    ensures f.None? && z.None? ==> whole == Out(acc + s, Some(VoidHasNoSize))
    ensures f.None? && z.Some? ==>
      var r := RenderFields(tt, i + 1, m, at + z.value, floatText); whole == Out(acc + s + r.text, r.fault)
    decreases t, 0
  {
    var child := cells[t + 1 + i];
    FieldDecodes(cells, t, i);
    s, f := ShowType(cells, child, m, at, floatText);
    z := SizeType(cells, child);
    SizeTypeDecodes(cells, child);
    FieldsStep(tt, i, m, at, floatText, acc, whole, Out(s, f), z);
    if f.None? && z.Some? {
      if i + 1 != cells[t] {
        s := s + ", ";
      } else {
        assert s + "" == s;
      }
    }
  }

  /** show_array with the element type at `subtype`: the count loop, the element size, "[",
      the elements, "]". */
  method ShowArray(cells: seq<int>, subtype: nat, rank: nat, m: Mem, addr: nat, floatText: nat -> string)
    returns (text: string, fault: Option<Error>)
    requires ValidNode(cells, subtype)
    ensures Out(text, fault) == RenderArray(Array(Decode(cells, subtype).value, rank), m, addr, floatText)
    decreases subtype, 7
  {
    ArrayStops(Array(Decode(cells, subtype).value, rank), m, addr, floatText);
    var count := CountElems(m, addr, rank);
    if count.None? {
      return "", Some(ArrayTooLarge);
    }
    var step := SizeType(cells, subtype);
    SizeTypeDecodes(cells, subtype);
    if step.None? {
      return "", Some(VoidHasNoSize);
    }
    text, fault := ShowArrayBody(cells, subtype, Decode(cells, subtype).value, rank, m, addr, count.value, step.value, floatText);
  }

  /** show_array once the count and the element size are known: "[", the elements, "]". */
  method ShowArrayBody(cells: seq<int>, subtype: nat, ghost elem: Type, rank: nat, m: Mem, addr: nat, size: nat, step: nat,
                       floatText: nat -> string) returns (text: string, fault: Option<Error>)
    requires ValidNode(cells, subtype) && elem == Decode(cells, subtype).value
    requires ElemCount(ExtentsAt(m, addr, rank)) == Some(size) && LayoutSize(elem) == Some(step)
    ensures Out(text, fault) == RenderArray(Array(elem, rank), m, addr, floatText)
    decreases subtype, 6
  {
    var subdata := Word(m, addr + 8 * rank);
    ElemCountProduct(ExtentsAt(m, addr, rank));
    var s, f := ShowElems(cells, subtype, rank, m, addr, size, subdata, step, floatText);
    ArrayOut(Array(elem, rank), m, addr, floatText, size, step, Out(s, f));
    if f.Some? {
      return "[" + s, f;
    }
    text, fault := "[" + s + "]", None;
  }

  /** The count loop of show_array: the product of the extents, or None as soon as a
      multiplication overflows 64 bits. */
  method CountElems(m: Mem, addr: nat, rank: nat) returns (count: Option<nat>)
    ensures count == ElemCount(ExtentsAt(m, addr, rank))
  {
    ghost var ext := ExtentsAt(m, addr, rank);
    var size: nat := 1;
    var i := 0;
    while i < rank
      invariant i <= rank && CountFrom(ext, i, size) == ElemCount(ext)
    {
      var dim := Word(m, addr + 8 * i);
      ExtentAt(m, addr, rank, i);
      var next := size * dim;
      if next >= TWO64 {
        return None;
      }
      size := next;
      i := i + 1;
    }
    count := Some(size);
  }

  /** The element loop of show_array: element i at data + i * step, then (unless it is the
      last) the separator that rankstep selects. */
  method ShowElems(cells: seq<int>, subtype: nat, rank: nat, m: Mem, addr: nat, size: nat, data: nat, step: nat,
                   floatText: nat -> string) returns (text: string, fault: Option<Error>)
    requires ValidNode(cells, subtype) && size == Product(ExtentsAt(m, addr, rank))
    ensures Out(text, fault) == RenderElems(Array(Decode(cells, subtype).value, rank), ExtentsAt(m, addr, rank),
                                            size, m, data, step, 0, floatText)
    decreases subtype, 5
  {
    ghost var tt := Array(Decode(cells, subtype).value, rank);
    ghost var ext := ExtentsAt(m, addr, rank);
    ghost var whole := RenderElems(tt, ext, size, m, data, step, 0, floatText);
    text := "";
    var i := 0;
    while i < size
      invariant i <= size
      invariant var r := RenderElems(tt, ext, size, m, data, step, i, floatText); whole == Out(text + r.text, r.fault)
    {
      var s, f := ShowElem(cells, subtype, rank, m, addr, size, data, step, i, floatText, text, whole);
      if f.Some? {
        return text + s, f;
      }
      text := text + s;
      var j := i + 1;
      if j == size {
        break;
      }
      var sep := ShowSeparator(m, addr, rank, j);
      if i + 1 < size {
        text := text + sep;
      }
      i := i + 1;
    }
    assert text + "" == text;
    fault := None;
  }

  /** One pass of the element loop: element i printed from data + i * step, with what that
      leaves of the text of the whole element list. */
  method ShowElem(cells: seq<int>, subtype: nat, rank: nat, m: Mem, addr: nat, size: nat, data: nat, step: nat, i: nat,
                  floatText: nat -> string, ghost acc: string, ghost whole: Out) returns (s: string, f: Option<Error>)
    requires ValidNode(cells, subtype) && size == Product(ExtentsAt(m, addr, rank)) && i < size
    requires var r := RenderElems(Array(Decode(cells, subtype).value, rank), ExtentsAt(m, addr, rank),
                                  size, m, data, step, i, floatText);
      whole == Out(acc + r.text, r.fault)
    ensures f.Some? ==> whole == Out(acc + s, f)
    ensures f.None? && i + 1 == size ==> whole == Emit(acc + s)
    ensures f.None? && i + 1 < size ==>
      var r := RenderElems(Array(Decode(cells, subtype).value, rank), ExtentsAt(m, addr, rank),
                           size, m, data, step, i + 1, floatText);
      whole == Out(acc + s + Separator(RankStep(ExtentsAt(m, addr, rank), i + 1)) + r.text, r.fault)
    decreases subtype, 4
  {
    s, f := ShowType(cells, subtype, m, data + i * step, floatText);
    ElemsStep(Array(Decode(cells, subtype).value, rank), ExtentsAt(m, addr, rank), size, m, data, step, i,
              floatText, acc, whole, Out(s, f));
  }

  /** The rankstep loop of show_array for element j: divides out data2[rank - rankstep - 1]
      while it divides j. */
  method RankStepLoop(m: Mem, addr: nat, rank: nat, j0: nat) returns (rankstep: nat)
    requires 0 < j0 < Product(ExtentsAt(m, addr, rank))
    ensures rankstep == RankStep(ExtentsAt(m, addr, rank), j0)
  {
    ghost var ext := ExtentsAt(m, addr, rank);
    assert Suffix(ext, 0) == [];
    var j := j0;
    rankstep := 0;
    StepInBounds(ext, j, rankstep);
    ExtentAt(m, addr, rank, rank - 1);
    var d := Word(m, addr + 8 * (rank - 1));
    while j % d == 0
      invariant rankstep < rank && 0 < j && j * Product(Suffix(ext, rankstep)) == j0
      invariant d == ext[rank - rankstep - 1] > 0
      invariant RankStepFrom(ext, j, rankstep) == RankStep(ext, j0)
      decreases rank - rankstep
    {
      RankStepAdvance(ext, j, rankstep);
      j := j / d;
      rankstep := rankstep + 1;
      ExtentAt(m, addr, rank, rank - rankstep - 1);
      d := Word(m, addr + 8 * (rank - rankstep - 1));
    }
  }

  /** What show_array prints before element j: the rankstep loop, then the separator. */
  method ShowSeparator(m: Mem, addr: nat, rank: nat, j: nat) returns (sep: string)
    requires 0 < j < Product(ExtentsAt(m, addr, rank))
    ensures sep == Separator(RankStep(ExtentsAt(m, addr, rank), j))
  {
    var rankstep := RankStepLoop(m, addr, rank, j);
    sep := PrintSeparator(rankstep);
  }

  /** The separator: ", ", or rankstep semicolons and a blank. */
  method PrintSeparator(rankstep: nat) returns (sep: string)
    ensures sep == Separator(rankstep)
  {
    if rankstep == 0 {
      sep := ", ";
    } else {
      sep := "";
      var j := 0;
      while j < rankstep
        invariant j <= rankstep && sep == Semicolons(j)
      {
        sep := sep + ";";
        j := j + 1;
      }
      sep := sep + " ";
    }
  }

  /** show: the length check, the parse into the emptied arena, the trailing-input check, then
      the value and a newline. */
  method Show(a: Arena, s: string, m: Mem, addr: nat, floatText: nat -> string)
    returns (text: string, fault: Option<Error>)
    requires a.Valid()
    modifies a, a.data
    ensures a.Valid()
    ensures Out(text, fault) == Shown(s, m, addr, floatText)
    ensures StrNLen(s, 256) == 256 ==> a.Cells() == old(a.Cells())
    ensures Accept(s).Ok? ==> a.Cells() == Accept(s).value.cells
  {
    if StrNLen(s, 256) == 256 {
      return "", Some(TypeStringTooLong);
    }
    a.Reset();
    var r := Parser.ParseType(a, s, 0);
    if r.Fail? {
      return "", Some(r.error);
    }
    var q := Parser.SkipWhitespace(s, r.value.pos);
    if Spec.Peek(s, q) != '\0' {
      return "", Some(TrailingInput);
    }
    ParseProps.ParseTypeDecodes(s, 0, []);
    var v, f := ShowType(a.Cells(), r.value.node, m, addr, floatText);
    if f.Some? {
      return v, f;
    }
    text, fault := v + "\n", None;
  }
}
