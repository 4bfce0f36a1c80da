/** What show prints for a value of a type (show_type and show_array, runtime.c:290-364) and
    for a whole call (show, runtime.c:366-383), as functions: the reference the printing
    methods are proved against. */
module Render {
  import opened Errors
  import opened Text
  import opened Types
  import opened Layout
  import opened Memory
  import opened Extents
  import ParseSpec
  import ParseProps
  import RoundTrip

  /** The text printed, and the diagnostic the run stopped with, if it stopped. */
  datatype Out = Out(text: string, fault: Option<Error>)

  function Emit(s: string): Out {
    Out(s, None)
  }

  function Stop(e: Error): Out {
    Out("", Some(e))
  }

  /** `a`, then `b` unless `a` stopped the run. */
  function Then(a: Out, b: Out): Out {
    if a.fault.Some? then a else Out(a.text + b.text, b.fault)
  }

  lemma {:induction false} ThenAssoc(a: Out, b: Out, c: Out)
    ensures Then(Then(a, b), c) == Then(a, Then(b, c))
  {
    if a.fault.None? && b.fault.None? {
      assert (a.text + b.text) + c.text == a.text + (b.text + c.text);
    }
  }

  /** Text already printed, then `o`, then `x`: either `o` stopped the run or its text joins
      the printed text. */
  lemma {:induction false} ThenPrefix(acc: string, o: Out, x: Out)
    ensures o.fault.Some? ==> Then(Emit(acc), Then(o, x)) == Out(acc + o.text, o.fault)
    ensures o.fault.None? ==> Then(Emit(acc), Then(o, x)) == Then(Emit(acc + o.text), x)
  {
    if o.fault.None? {
      assert acc + (o.text + x.text) == (acc + o.text) + x.text;
    }
  }

  /** The value of type `t` stored at `addr`. `floatText` is the text "%f" prints for the
      double with the given bits. */
  function RenderType(t: Type, m: Mem, addr: nat, floatText: nat -> string): Out
    decreases t, 2
  {
    match t
    case Void => Emit("void")
    case Bool => Emit(if BoolAt(m, addr) then "true" else "false")
    case Int => Emit(IntText(Signed(Word(m, addr))))
    case Float => Emit(floatText(Word(m, addr)))
    case Array(_, _) => RenderArray(t, m, addr, floatText)
    case Tuple(_) => Then(Emit("{"), Then(RenderFields(t, 0, m, addr, floatText), Emit("}")))
  }

  /** show_array: the count (or the overflow diagnostic), the element size, then "[", the
      elements at data pointer + i * size with their separators, and "]". */
  function RenderArray(t: Type, m: Mem, addr: nat, floatText: nat -> string): Out
    requires t.Array?
    decreases t, 1
  {
    var ext := ExtentsAt(m, addr, t.rank);
    var data := Word(m, addr + 8 * t.rank);
    match ElemCount(ext)
    case None => Stop(ArrayTooLarge)
    case Some(size) =>
      match LayoutSize(t.elem)
      case None => Stop(VoidHasNoSize)
      case Some(step) =>
        ElemCountProduct(ext);
        Then(Emit("["), Then(RenderElems(t, ext, size, m, data, step, 0, floatText), Emit("]")))
  }

  /** Elements i.. of an array, each followed by its separator unless it is the last. */
  function RenderElems(t: Type, ext: seq<nat>, size: nat, m: Mem, data: nat, step: nat, i: nat,
                       floatText: nat -> string): Out
    requires t.Array? && size == Product(ext) && i <= size
    decreases t, 0, size - i
  {
    if i == size then Emit("")
    else
      Then(RenderType(t.elem, m, data + i * step, floatText),
        if i + 1 == size then Emit("")
        else Then(Emit(Separator(RankStep(ext, i + 1))), RenderElems(t, ext, size, m, data, step, i + 1, floatText)))
  }

  /** One pass of the element loop: `acc` printed, element i next, printing `o`. */
  lemma {:induction false} ElemsStep(t: Type, ext: seq<nat>, size: nat, m: Mem, data: nat, step: nat, i: nat,
                                     floatText: nat -> string, acc: string, whole: Out, o: Out)
    requires t.Array? && size == Product(ext) && i < size
    requires var r := RenderElems(t, ext, size, m, data, step, i, floatText); whole == Out(acc + r.text, r.fault)
    requires o == RenderType(t.elem, m, data + i * step, floatText)
    ensures o.fault.Some? ==> whole == Out(acc + o.text, o.fault)
    ensures o.fault.None? && i + 1 == size ==> whole == Emit(acc + o.text)
    ensures o.fault.None? && i + 1 < size ==>
      var r := RenderElems(t, ext, size, m, data, step, i + 1, floatText);
      whole == Out(acc + o.text + Separator(RankStep(ext, i + 1)) + r.text, r.fault)
  {
    assert Then(Emit(acc), RenderElems(t, ext, size, m, data, step, i, floatText)) == whole;
    var next := RenderElems(t, ext, size, m, data, step, i + 1, floatText);
    var rest := if i + 1 == size then Emit("") else Then(Emit(Separator(RankStep(ext, i + 1))), next);
    ThenPrefix(acc, o, rest);
    if o.fault.None? && i + 1 < size {
      ThenPrefix(acc + o.text, Emit(Separator(RankStep(ext, i + 1))), next);
    } else if o.fault.None? {
      assert acc + o.text + "" == acc + o.text;
    }
  }

  /** The field loop of show_type from field k on, with `addr` where field k begins: each
      field, then its size is added to the offset, then ", " unless it is the last. */
  function RenderFields(t: Type, k: nat, m: Mem, addr: nat, floatText: nat -> string): Out
    requires t.Tuple? && k <= |t.fields|
    decreases t, 0, |t.fields| - k
  {
    if k == |t.fields| then Emit("")
    else
      Then(RenderType(t.fields[k], m, addr, floatText),
        match LayoutSize(t.fields[k])
        case None => Stop(VoidHasNoSize)
        case Some(z) =>
          Then(Emit(if k + 1 != |t.fields| then ", " else ""), RenderFields(t, k + 1, m, addr + z, floatText)))
  }

  /** One step of the field loop: `acc` printed, field k next at `at`, printing `o`, with
      size `z`; then ", " unless the field is the last. */
  lemma {:induction false} FieldsStep(t: Type, k: nat, m: Mem, at: nat, floatText: nat -> string,
                                      acc: string, whole: Out, o: Out, z: Option<nat>)
    requires t.Tuple? && k < |t.fields|
    requires var r := RenderFields(t, k, m, at, floatText); whole == Out(acc + r.text, r.fault)
    requires o == RenderType(t.fields[k], m, at, floatText) && z == LayoutSize(t.fields[k])
    ensures o.fault.Some? ==> whole == Out(acc + o.text, o.fault)
    ensures o.fault.None? && z.None? ==> whole == Out(acc + o.text, Some(VoidHasNoSize))
    ensures o.fault.None? && z.Some? ==>
      var r := RenderFields(t, k + 1, m, at + z.value, floatText);
      whole == Out(acc + o.text + (if k + 1 != |t.fields| then ", " else "") + r.text, r.fault)
  {
    assert Then(Emit(acc), RenderFields(t, k, m, at, floatText)) == whole;
    var sep := if k + 1 != |t.fields| then ", " else "";
    var rest := match z
      case None => Stop(VoidHasNoSize)
      case Some(z) => Then(Emit(sep), RenderFields(t, k + 1, m, at + z, floatText));
    ThenPrefix(acc, o, rest);
    if o.fault.None? && z.Some? {
      ThenPrefix(acc + o.text, Emit(sep), RenderFields(t, k + 1, m, at + z.value, floatText));
    }
  }

  /** A tuple prints "{", its fields and "}", unless a field stops the run. */
  lemma {:induction false} TupleOut(t: Type, m: Mem, addr: nat, floatText: nat -> string)
    requires t.Tuple?
    ensures var o := RenderFields(t, 0, m, addr, floatText);
      RenderType(t, m, addr, floatText)
      == if o.fault.Some? then Out("{" + o.text, o.fault) else Out("{" + o.text + "}", None)
  {
  }

  /** An array stops before "[" when its element count overflows or its element type has no
      size. */
  lemma {:induction false} ArrayStops(t: Type, m: Mem, addr: nat, floatText: nat -> string)
    requires t.Array?
    ensures ElemCount(ExtentsAt(m, addr, t.rank)).None? ==> RenderArray(t, m, addr, floatText) == Stop(ArrayTooLarge)
    ensures ElemCount(ExtentsAt(m, addr, t.rank)).Some? && LayoutSize(t.elem).None? ==>
      RenderArray(t, m, addr, floatText) == Stop(VoidHasNoSize)
  {
  }

  /** An array whose count and element size are known prints "[", its elements and "]",
      unless an element stops the run. */
  lemma {:induction false} ArrayOut(t: Type, m: Mem, addr: nat, floatText: nat -> string, size: nat, step: nat, o: Out)
    requires t.Array? && ElemCount(ExtentsAt(m, addr, t.rank)) == Some(size) && LayoutSize(t.elem) == Some(step)
    requires size == Product(ExtentsAt(m, addr, t.rank))
    requires o == RenderElems(t, ExtentsAt(m, addr, t.rank), size, m, Word(m, addr + 8 * t.rank), step, 0, floatText)
    ensures RenderArray(t, m, addr, floatText)
      == if o.fault.Some? then Out("[" + o.text, o.fault) else Out("[" + o.text + "]", None)
  {
  }

  /** The fields of a void-free tuple, each read at the tuple's address plus its offset,
      joined by ", ". */
  function JoinFields(t: Type, k: nat, m: Mem, base: nat, floatText: nat -> string): Out
    requires t.Tuple? && k <= |t.fields| && !FieldsHaveVoid(t, 0)
    decreases |t.fields| - k
  {
    if k == |t.fields| then Emit("")
    else
      OffsetDefined(t, k);
      Then(RenderType(t.fields[k], m, base + Offset(t, k).value, floatText),
        Then(Emit(if k + 1 != |t.fields| then ", " else ""), JoinFields(t, k + 1, m, base, floatText)))
  }

  lemma {:induction false} NoVoidField(t: Type, j: nat, k: nat)
    requires t.Tuple? && j <= k < |t.fields| && !FieldsHaveVoid(t, j)
    ensures !HasVoid(t.fields[k])
    decreases k - j
  {
    if j < k {
      NoVoidField(t, j + 1, k);
    }
  }

  /** In a void-free tuple every field has an offset. */
  lemma {:induction false} OffsetDefined(t: Type, k: nat)
    requires t.Tuple? && k <= |t.fields| && !FieldsHaveVoid(t, 0)
    ensures Offset(t, k).Some?
    decreases k
  {
    if k > 0 {
      OffsetDefined(t, k - 1);
      NoVoidField(t, 0, k - 1);
      SizeDefined(t.fields[k - 1]);
    }
  }

  /** show_type's running offset puts every field of a void-free tuple at the sum of the sizes
      of the fields before it. */
  lemma {:induction false} FieldsAtOffsets(t: Type, k: nat, m: Mem, base: nat, floatText: nat -> string)
    requires t.Tuple? && k <= |t.fields| && !FieldsHaveVoid(t, 0)
    ensures Offset(t, k).Some? &&
      RenderFields(t, k, m, base + Offset(t, k).value, floatText) == JoinFields(t, k, m, base, floatText)
    decreases |t.fields| - k
  {
    OffsetDefined(t, k);
    if k < |t.fields| {
      var z := FieldSized(t, k);
      var at := base + Offset(t, k).value;
      var next := base + Offset(t, k + 1).value;
      var head := RenderType(t.fields[k], m, at, floatText);
      var sep := Emit(if k + 1 != |t.fields| then ", " else "");
      calc {
        RenderFields(t, k, m, at, floatText);
        == { FieldsUnfold(t, k, m, at, floatText, z); }
        Then(head, Then(sep, RenderFields(t, k + 1, m, next, floatText)));
        == { FieldsAtOffsets(t, k + 1, m, base, floatText); }
        Then(head, Then(sep, JoinFields(t, k + 1, m, base, floatText)));
        == { JoinUnfold(t, k, m, base, floatText); }
        JoinFields(t, k, m, base, floatText);
      }
    }
  }

  lemma {:induction false} JoinUnfold(t: Type, k: nat, m: Mem, base: nat, floatText: nat -> string)
    requires t.Tuple? && k < |t.fields| && !FieldsHaveVoid(t, 0) && Offset(t, k).Some?
    ensures JoinFields(t, k, m, base, floatText)
      == Then(RenderType(t.fields[k], m, base + Offset(t, k).value, floatText),
              Then(Emit(if k + 1 != |t.fields| then ", " else ""), JoinFields(t, k + 1, m, base, floatText)))
  {
  }

  /** In a void-free tuple field k has a size z, and field k + 1 starts z bytes after it. */
  lemma {:induction false} FieldSized(t: Type, k: nat) returns (z: nat)
    requires t.Tuple? && k < |t.fields| && !FieldsHaveVoid(t, 0)
    ensures LayoutSize(t.fields[k]) == Some(z)
    ensures Offset(t, k).Some? && Offset(t, k + 1) == Some(Offset(t, k).value + z)
  {
    NoVoidField(t, 0, k);
    SizeDefined(t.fields[k]);
    OffsetDefined(t, k);
    z := LayoutSize(t.fields[k]).value;
  }

  /** One field of RenderFields, when the field has size z. */
  lemma {:induction false} FieldsUnfold(t: Type, k: nat, m: Mem, at: nat, floatText: nat -> string, z: nat)
    requires t.Tuple? && k < |t.fields| && LayoutSize(t.fields[k]) == Some(z)
    ensures RenderFields(t, k, m, at, floatText)
      == Then(RenderType(t.fields[k], m, at, floatText),
              Then(Emit(if k + 1 != |t.fields| then ", " else ""), RenderFields(t, k + 1, m, at + z, floatText)))
  {
  }

  /** A void inside a tuple, at any depth of tuples, never lets the value print completely:
      the run stops after at most the text before the void's size is needed. */
  lemma {:induction false} VoidStops(t: Type, m: Mem, addr: nat, floatText: nat -> string)
    requires HasVoid(t) && !t.Void?
    ensures RenderType(t, m, addr, floatText).fault.Some?
    decreases t, 1
  {
    FieldsVoidStops(t, 0, m, addr, floatText);
  }

  lemma {:induction false} FieldsVoidStops(t: Type, k: nat, m: Mem, addr: nat, floatText: nat -> string)
    requires t.Tuple? && k <= |t.fields| && FieldsHaveVoid(t, k)
    ensures RenderFields(t, k, m, addr, floatText).fault.Some?
    decreases t, 0, |t.fields| - k
  {
    var f := t.fields[k];
    SizeDefined(f);
    if HasVoid(f) {
      if !f.Void? {
        VoidStops(f, m, addr, floatText);
      }
    } else {
      FieldsVoidStops(t, k + 1, m, addr + LayoutSize(f).value, floatText);
    }
  }

  /** An array with no elements (and an element type with a size) prints as "[]". */
  lemma {:induction false} EmptyArray(t: Type, m: Mem, addr: nat, floatText: nat -> string)
    requires t.Array? && ElemCount(ExtentsAt(m, addr, t.rank)) == Some(0) && LayoutSize(t.elem).Some?
    ensures RenderArray(t, m, addr, floatText) == Emit("[]")
  {
    var ext := ExtentsAt(m, addr, t.rank);
    ElemCountProduct(ext);
    var e := RenderElems(t, ext, 0, m, Word(m, addr + 8 * t.rank), LayoutSize(t.elem).value, 0, floatText);
    assert e == Emit("");
    assert Then(Emit("["), Then(e, Emit("]"))) == Emit("[]");
  }

  /** strnlen(s, n): the characters before the first NUL, at most n. */
  function StrNLen(s: string, n: nat): (r: nat)
    ensures r <= n && r <= |s|
    ensures forall i :: 0 <= i < r ==> s[i] != '\0'
    ensures r < n ==> r == |s| || s[r] == '\0'
  {
    if n == 0 || |s| == 0 || s[0] == '\0' then 0 else 1 + StrNLen(s[1..], n - 1)
  }

  /** The checks show makes before it prints anything: the length, the parse of the whole
      descriptor, and nothing but whitespace after it. */
  function Accept(s: string): (r: Result<ParseSpec.Parsed>)
    ensures r.Ok? ==> ValidNode(r.value.cells, r.value.node)
  {
    if StrNLen(s, 256) == 256 then Fail(TypeStringTooLong)
    else
      var r :- ParseSpec.ParseType(s, 0, []);
      ParseProps.ParseTypeDecodes(s, 0, []);
      if ParseSpec.Peek(s, ParseSpec.SkipWs(s, r.pos)) != '\0' then Fail(TrailingInput) else Ok(r)
  }

  /** show(type_str, data): the value, then a newline; any failed check stops it first. */
  function Shown(s: string, m: Mem, addr: nat, floatText: nat -> string): Out {
    match Accept(s)
    case Fail(e) => Stop(e)
    case Ok(r) => Then(RenderType(Decode(r.cells, r.node).value, m, addr, floatText), Emit("\n"))
  }

  /** show prints nothing unless every check passed, and a complete run ends with a newline. */
  lemma {:induction false} ShownOutcome(s: string, m: Mem, addr: nat, floatText: nat -> string)
    ensures Accept(s).Fail? ==> Shown(s, m, addr, floatText) == Stop(Accept(s).error)
    ensures Shown(s, m, addr, floatText).fault.None? ==>
      Accept(s).Ok? && |Shown(s, m, addr, floatText).text| > 0 &&
      Shown(s, m, addr, floatText).text[|Shown(s, m, addr, floatText).text| - 1] == '\n'
  {
    if Accept(s).Ok? {
      var r := Accept(s).value;
      var o := RenderType(Decode(r.cells, r.node).value, m, addr, floatText);
      if o.fault.None? {
        assert Shown(s, m, addr, floatText).text == o.text + "\n";
      }
    }
  }

  /** The length check: strnlen reaches 256 exactly when the first 256 characters hold no
      terminator, and then show refuses the descriptor before parsing it. */
  lemma {:induction false} TooLong(s: string)
    ensures StrNLen(s, 256) == 256 <==> (|s| >= 256 && '\0' !in s[..256])
    ensures StrNLen(s, 256) == 256 ==> Accept(s) == Fail(TypeStringTooLong)
  {
  }

  /** The descriptor of any type that fits the arena and the length limit is accepted, and
      show prints that type's value followed by a newline; trailing whitespace is allowed,
      any other trailing character is refused. */
  lemma {:induction false} ShowsDescriptor(t: Type, w: string, m: Mem, addr: nat, floatText: nat -> string)
    requires WfType(t) && Footprint(t) < 256 && |Descriptor(t) + w| < 256
    ensures var s := Descriptor(t) + w;
      var q := ParseSpec.SkipWs(w, 0);
      (q == |w| ==> Shown(s, m, addr, floatText) == Then(RenderType(t, m, addr, floatText), Emit("\n"))) &&
      (q < |w| && w[q] != '\0' ==> Shown(s, m, addr, floatText) == Stop(TrailingInput))
  {
    AcceptsDescriptor(t, w);
  }

  /** The checks before printing pass on a descriptor followed by whitespace, and the arena
      decodes back to the type; any other trailing character is refused. */
  lemma {:induction false} AcceptsDescriptor(t: Type, w: string)
    requires WfType(t) && Footprint(t) < 256 && |Descriptor(t) + w| < 256
    ensures var s := Descriptor(t) + w;
      var q := ParseSpec.SkipWs(w, 0);
      (q == |w| ==> Accept(s).Ok? && Decode(Accept(s).value.cells, Accept(s).value.node) == Some(t)) &&
      (q < |w| && w[q] != '\0' ==> Accept(s) == Fail(TrailingInput))
  {
    var s := Descriptor(t) + w;
    ParsesPrefix(t, w);
    var r := ParseSpec.ParseType(s, 0, []).value;
    SkipWsShift(Descriptor(t), w, 0);
    AcceptParsed(s, r);
  }

  /** The parser reads a descriptor back from the start of any text that begins with it. */
  lemma {:induction false} ParsesPrefix(t: Type, w: string)
    requires WfType(t) && Footprint(t) < 256
    ensures var r := ParseSpec.ParseType(Descriptor(t) + w, 0, []);
      r.Ok? && r.value.pos == |Descriptor(t)| && Decode(r.value.cells, r.value.node) == Some(t)
  {
    var s := Descriptor(t) + w;
    assert s[0..|Descriptor(t)|] == Descriptor(t);
    assert RoundTrip.At(s, 0, Descriptor(t));
    RoundTrip.ParseReadsBack(t, s, 0, []);
  }

  /** A descriptor shorter than the limit that parses to `r` is accepted exactly when only
      whitespace follows it. */
  lemma {:induction false} AcceptParsed(s: string, r: ParseSpec.Parsed)
    requires |s| < 256 && ParseSpec.ParseType(s, 0, []) == Ok(r)
    ensures Accept(s) == if ParseSpec.Peek(s, ParseSpec.SkipWs(s, r.pos)) != '\0' then Fail(TrailingInput) else Ok(r)
  {
  }

  /** Whitespace skipping after a prefix happens within the suffix. */
  lemma {:induction false} SkipWsShift(a: string, w: string, k: nat)
    requires k <= |w|
    ensures ParseSpec.SkipWs(a + w, |a| + k) == |a| + ParseSpec.SkipWs(w, k)
    ensures ParseSpec.Peek(a + w, |a| + ParseSpec.SkipWs(w, k)) == ParseSpec.Peek(w, ParseSpec.SkipWs(w, k))
    decreases |w| - k
  {
    if k < |w| {
      assert (a + w)[|a| + k] == w[k];
      SkipWsShift(a, w, k + 1);
    }
  }
}
