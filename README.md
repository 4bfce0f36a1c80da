# The `show` printer of the JPL runtime, in Dafny

`show(type_str, data)` in `runtime.c` prints a value that compiled JPL code hands to the runtime. The value comes with a textual type descriptor such as `(TupleType (IntType) (ArrayType (BoolType) 2))`.

The subsystem has three parts:

- **The descriptor parser.** A recursive descent parser over the C string. It writes a compact type tree into a global 256-cell arena `mem` with a bump cursor.
  - Scalars take one tag cell: VOID 250, BOOL 251, INT 252, FLOAT 253.
  - A rank-1 array is `[254, elem]`; any other rank is `[255, rank, elem]`.
  - A tuple is its field count followed by its field indices. The count is the tag.
- **`size_type`.** The byte size a type occupies when it is embedded in a tuple or an array.
- **The renderer.** `show_type` and `show_array` walk the type tree and the value memory together and print canonical text.
  - Arrays are printed flattened in row-major order.
  - Between two array elements, `", "` means no dimension boundary is crossed, `"; "` means one, `";; "` two, and so on.

The model follows the code's own structure, file by file:

| file | what it holds |
|---|---|
| `arena.dfy` | The arena, as a class with a 256-cell array and a cursor. `GetMem` is the allocator. |
| `errors.dfy` | Every `fail("show", …)` as an `Error` value, with the source's diagnostic. |
| `types.dfy` | The type trees, their canonical descriptor text, and `Decode`, which reads a node back from the arena. A node decodes only if every child index points to an earlier cell. |
| `parse_spec.dfy` | The parser as functions over (position, arena cells so far). This is the reference. |
| `parser.dfy` | The parser as methods. They advance a position through the descriptor and write into the `Arena` object, with `while` loops where the source has them. Each is proved to return the reference's result and to leave the reference's cells in the arena. |
| `parse_props.dfy` | What every successful parse guarantees: the node decodes, the tuple encoding, the rank rule. |
| `parse_size.dfy` | The converse of the round trip: a successful parse appends exactly the cells of the type it decodes to. So every type `show` accepts occupies fewer than 256 cells, and its size, when it has one, is below 2^19. |
| `encoding.dfy`, `roundtrip.dfy` | The exact cells appended for a type. A proof that parsing a type's canonical descriptor consumes exactly that text and appends exactly those cells, which decode back to the type. |
| `layout.dfy` | `size_type` on the arena and the same rule stated on types. They agree. Void has no size. |
| `size_as_written.dfy` | `size_type` exactly as written, with a recursion budget. Used for the finding below. |
| `memory.dfy`, `text.dfy` | Value memory as bytes at addresses, with little-endian 64-bit words, two's complement and bools. Decimal text for `%lld` and for the rank digits. |
| `extents.dfy` | The element count with its 64-bit overflow check, and the `rankstep` arithmetic that selects the separator. |
| `render.dfy` | What `show_type`, `show_array` and `show` print, as functions. |
| `show.dfy` | The printing methods. Each is proved to produce exactly the text and the diagnostic of its `render.dfy` function. |

A fatal `fail` prints a diagnostic and exits the process. Here it is an error value:

- The parser returns `Result`.
- A printing method returns the text printed so far together with the error that stopped it (`Out(text, fault)`). The source has already written that text to stdout when it exits.

`show` makes all of its parse-time checks before it prints anything: the length, the parse and the trailing input. `ShownOutcome` states this. A void field inside a tuple is not caught by those checks. `(TupleType (VoidType))` passes all three, and `show_type` has already printed `{void` when it needs the field's size (`Render.VoidStops`, and the finding below).

The source's element count is the product of the extents, but `__builtin_mul_overflow` checks every running product. So extents `2^33, 2^33, 0` are refused with the overflow diagnostic, even though the array has no elements (`OverflowBeforeZero`). A zero extent gives an empty array only when the products before it fit in 64 bits (`ZeroExtentEmpty`).

## Model

| member | source | states |
|---|---|---|
| Arena.Arena.constructor | runtime.c:89-92 | the global arena starts empty, holding 256 cells |
| Arena.Arena.GetMem | runtime.c:94-99 | succeeds exactly when `i + amt < 256`; then returns the old cursor and advances it by exactly `amt`, otherwise fails with the capacity error and leaves the cursor alone |
| Arena.Arena.Reset | runtime.c:374 | `mem.i = 0`: the arena holds no allocated cells |
| Parser.SkipWhitespace | runtime.c:121-124 | the loop stops at the end of the longest run of blanks and newlines (`ParseSpec.SkipWs`) |
| Parser.EnsureLiteral | runtime.c:126-131 | the literal matches character by character, or the construct's diagnostic is returned; the terminator never matches |
| Parser.ParseScalar | runtime.c:137-179 | the four scalar parsers return the reference's node and position, or its error, and leave exactly the reference's cells in the arena |
| Parser.ParseTuple | runtime.c:181-202 | the field loop and the copy of `tuple_mem` give exactly the reference's result and arena cells |
| Parser.CloseTuple | runtime.c:192-201 | the `)` check, the allocation of `1 + i` cells, the count and the copied field indices match the reference |
| Parser.ParseArray | runtime.c:204-233 | element, rank and node allocation give exactly the reference's result and arena cells |
| Parser.CloseArray | runtime.c:211-232 | the rank checks, the `)` check and the 2- or 3-cell node match the reference |
| Parser.ReadRank | runtime.c:211-215 | the digit loop returns what `ParseSpec.ScanRank` returns, failing as soon as the value exceeds 255 |
| Parser.ParseType | runtime.c:235-264 | whitespace, `(`, dispatch: the reference's result, error and arena cells |
| ParseSpec.SkipWs | runtime.c:121-124 | the position only moves forward and stops at a character that is neither blank nor newline |
| ParseSpec.SkipWsSpaces | runtime.c:122 | everything skipped is a blank or a newline |
| ParseSpec.ParseType | runtime.c:235-264 | a successful parse consumes input, only appends to the arena, stays under capacity and returns a node it allocated |
| ParseSpec.Dispatch | runtime.c:240-261 | every branch of the switch has the same guarantee on success |
| ParseSpec.ScalarOf | runtime.c:244-258 | `I F B V` select the scalar parser whose keyword starts with that letter; no other letter selects one |
| ParseSpec.ParseScalar | runtime.c:137-179 | a scalar parse consumes input, only appends to the arena and stays under capacity |
| ParseSpec.ParseTuple | runtime.c:181-202 | a tuple parse consumes input and only appends to the arena, staying under capacity |
| ParseSpec.TupleTail | runtime.c:192-201 | the tuple node is allocated after all its fields and stays under capacity |
| ParseSpec.ParseFields | runtime.c:185-191 | the field loop stops at `)`; it keeps the earlier indices and records new ones that all point into cells allocated during the loop |
| ParseSpec.ScanRank | runtime.c:211-215 | the rank loop stops at the first non-digit |
| ParseSpec.ParseArray | runtime.c:204-233 | an array parse consumes input and only appends to the arena, staying under capacity |
| ParseSpec.ArrayTail | runtime.c:216-232 | the array node is allocated after its element and stays under capacity |
| ParseProps.ParseTypeDecodes | runtime.c:235-264 | every node a successful parse returns decodes: each child index points to an earlier, decodable node |
| ParseProps.ParseScalarDecodes | runtime.c:137-179 | a scalar node decodes |
| ParseProps.ParseTupleDecodes | runtime.c:181-202 | a tuple node decodes |
| ParseProps.TupleTailDecodes | runtime.c:194-199 | a tuple node whose field indices point at decodable nodes decodes |
| ParseProps.ParseArrayDecodes | runtime.c:204-233 | an array node decodes |
| ParseProps.ParseFieldsDecode | runtime.c:187-191 | the field loop keeps every field index pointing at a decodable node |
| ParseProps.ParseFieldsAllocates | runtime.c:187-191 | each field allocates at least one cell, and field indices increase in descriptor order |
| ParseProps.TupleEncoding | runtime.c:185-201 | a tuple is a count `n < 250` (in fact at most 127) followed by exactly `n` field indices, increasing, each allocated during this parse and below the tuple's own index |
| ParseProps.ScanRankValue | runtime.c:211-215 | the rank read is the decimal value of the maximal digit run, and the rank error happens exactly when that value exceeds 255 |
| ParseProps.ScanRankBound | runtime.c:211-215 | a rank that is read never exceeds 255 |
| Types.Descriptor | runtime.c:235-264 | the canonical descriptor text of a type is parenthesised |
| Types.DecodeExtend | runtime.c:94-99 | later allocations never change a node that already decodes |
| Types.DecodeWf | runtime.c:185-233 | whatever the arena decodes to has ranks 1..255 and fewer than 250 fields per tuple |
| Types.TupleDecodes | runtime.c:348-349 | a node whose first cell is below 250 is a tuple with that many fields |
| Types.FieldDecodes | runtime.c:353-354 | field `j` of that tuple is the node its `j`-th field cell points to, which is earlier |
| Encoding.Encode | runtime.c:137-233 | the encoding of a type occupies `Footprint(t)` cells and its own node lies inside them |
| Encoding.EncodeDecodes | runtime.c:137-233 | the encoding decodes back to the type it encodes, whatever the arena held before |
| Encoding.TupleNodeDecodes | runtime.c:194-199 | the count and index cells appended after the fields decode to the tuple |
| Encoding.ArrayNodeDecodes | runtime.c:221-231 | `[ARRAY, e]` and `[NDARRAY, rank, e]` decode to the array type of the element at `e` |
| RoundTrip.ParseDescriptor | runtime.c:235-264 | parsing the canonical descriptor of any well-formed type consumes exactly that text and appends exactly its encoding, or fails with the capacity error |
| RoundTrip.ParseReadsBack | runtime.c:235-264 | if the arena has room, the parse succeeds, ends right after the descriptor, appends `Footprint(t)` cells and returns a node that decodes to `t` |
| RoundTrip.ScalarReads | runtime.c:137-179 | a scalar keyword and `)` allocate the one tag cell, or the capacity error |
| RoundTrip.DispatchScalar | runtime.c:244-258 | the switch picks the scalar parser by the keyword's first letter |
| Layout.SizeTypeDecodes | runtime.c:266-288 | `size_type` on the arena agrees with the size rule on the type the node decodes to: 8 for bool, int and float, none for void, 16 for rank 1, `8 * rank + 8`, tuples the sum of their fields |
| Layout.SumSizesDecodes | runtime.c:280-286 | the tuple branch adds up the fields' sizes in order, with no padding |
| Layout.OffsetsAddUp | runtime.c:350-355 | a tuple's size is the offset just past its last field |
| Layout.SizeDefined | runtime.c:266-288 | a type has an embedded size exactly when no void occurs in it outside an array element |
| Layout.SizeBound | runtime.c:267-286 | a size is at most 2048 bytes per arena cell of the type (its `Footprint`) |
| ParseSize.ParseFootprint | runtime.c:235-264 | a successful parse appends exactly as many cells as the type its node decodes to occupies |
| ParseSize.TupleFootprint | runtime.c:181-202 | a tuple's parse appends its fields' cells, then `1 + n` for the count and the indices |
| ParseSize.ArrayFootprint | runtime.c:204-233 | an array's parse appends its element's cells, then 2 for rank 1 and 3 otherwise |
| ParseSize.FieldsParsedFootprint | runtime.c:187-191 | the field loop appends exactly the cells of the types its new field indices decode to |
| ParseSize.DecodeFieldsAll | runtime.c:194-199 | the count and the copied indices, written after the fields, read back as exactly the fields' types |
| ParseSize.NestedFootprint | runtime.c:340-355 | a field or an array element occupies fewer cells than the type around it |
| ParseSize.ParsedSizeBound | runtime.c:266-288 | the type parsed into the empty arena occupies fewer than 256 cells, so its size, when it has one, is below 2^19 |
| SizeAsWritten.AsWrittenAgrees | runtime.c:266-288 | on every node without void, `size_type` as written returns the corrected size, given one nested call per cell below the node |
| SizeAsWritten.VoidTupleArena | runtime.c:181-202 | `(TupleType (VoidType))` parses to the arena `[250, 1, 0]` with the tuple at cell 1 |
| SizeAsWritten.VoidFieldDiverges | runtime.c:280-286 | on that arena, `size_type(0)` as written never returns, whatever the budget |
| Text.NatTextDigits | runtime.c:335 | decimal text has at least one digit, no leading zero, and reads back as the number |
| Text.IntTextSign | runtime.c:335 | `%lld` text starts with `-` exactly for negatives and is followed by the digits of the magnitude |
| Text.DigitsValuePrefix | runtime.c:212-214 | reading more digits never lowers the value, so failing on a prefix above 255 is failing on the whole |
| Memory.Word | runtime.c:291-294 | a 64-bit word read from memory is below 2^64 |
| Memory.Signed | runtime.c:335 | `int64_t` reading: two's complement, within range, negative exactly when the top bit is set |
| Memory.WordBytes | runtime.c:328 | the bool byte is the low byte of the word at the same address |
| Extents.ExtentAt | runtime.c:294 | extent `i` is the word `8 * i` bytes after the array value |
| Extents.ElemCountProduct | runtime.c:292-297 | the count loop succeeds exactly when no running product overflows 64 bits, and then it is the product of the extents |
| Extents.CountFromProduct | runtime.c:293-297 | the same, from any point of the loop |
| Extents.ZeroExtentEmpty | runtime.c:292-297 | a zero extent gives zero elements when the products before it fit |
| Extents.OverflowBeforeZero | runtime.c:295-296 | extents `2^33, 2^33, 0` have product 0 but are refused |
| Extents.RankStepBound | runtime.c:305-309 | before every element after the first, the separator loop stops with `rankstep < rank`, so `data2[rank - rankstep - 1]` is in bounds and never zero |
| Extents.RankStepFromBound | runtime.c:305-309 | the same, from any pass of the loop |
| Extents.RankStepAdvance | runtime.c:306-308 | one pass keeps the divided index positive and in range and does not change where the loop stops |
| Extents.RankStepMeaning | runtime.c:305-309 | `rankstep` for element `j` is exactly the number of innermost dimensions whose block starts at `j`: `j` is a multiple of their product and not of the next one's |
| Extents.RankStepFromMeaning | runtime.c:305-309 | the same, from any pass of the loop |
| Extents.StopsHere | runtime.c:306 | when the loop test fails, the scaled index is a multiple of the innermost `c` extents' product and not of `c + 1` |
| Extents.RankStepFromAtLeast | runtime.c:305-309 | the loop never counts fewer dimensions than it started with |
| Extents.SemicolonsShape | runtime.c:314 | the loop prints exactly `rankstep` semicolons |
| Extents.CommaInsideRow | runtime.c:310-317 | the separator is `", "` exactly when the next index is not a multiple of the innermost extent |
| ParseSpec.Literal | runtime.c:126-131 | definition: `ensure_literal` in closed form, the literal at `p` or the construct's diagnostic; `Parser.EnsureLiteral` is proved equal to it |
| Layout.SizeType | runtime.c:266-288 | definition: the corrected `size_type` on the arena; `Layout.SizeTypeDecodes` and `Layout.SizeDefined` state what it returns |
| SizeAsWritten.SizeTypeAsWritten | runtime.c:266-288 | definition: `size_type` exactly as written, with a recursion budget; `SizeAsWritten.AsWrittenAgrees` and `SizeAsWritten.VoidFieldDiverges` state what it returns |
| SizeAsWritten.SumAsWritten | runtime.c:280-286 | definition: the tuple branch of `size_type` as written; covered by the same two lemmas |
| Text.IntText | runtime.c:335 | definition: the `%lld` text of an integer; `Text.IntTextSign` and `Text.NatTextDigits` state its shape |
| Memory.BoolAt | runtime.c:328 | definition: the byte `*(bool *)data` is nonzero; `Memory.WordBytes` places that byte in the word at the same address |
| Extents.CountFrom | runtime.c:292-297 | definition: the count loop from extent `i` with the running product; `Extents.CountFromProduct` states what it returns |
| Extents.ElemCount | runtime.c:292-297 | definition: the count loop from the start; `Extents.ElemCountProduct`, `Extents.ZeroExtentEmpty` and `Extents.OverflowBeforeZero` state what it returns and `Show.CountElems` is proved equal to it |
| Extents.RankStepFrom | runtime.c:305-309 | definition: the `rankstep` loop from any pass; `Extents.RankStepFromBound`, `Extents.RankStepFromMeaning` and `Extents.RankStepFromAtLeast` state what it returns |
| Extents.RankStep | runtime.c:305-309 | definition: `rankstep` for element `j`; `Extents.RankStepBound` and `Extents.RankStepMeaning` state what it is and `Show.RankStepLoop` is proved equal to it |
| Extents.Separator | runtime.c:310-317 | definition: the text printed between two elements; `Extents.SemicolonsShape` and `Extents.CommaInsideRow` state its shape and `Show.PrintSeparator` is proved equal to it |
| Render.RenderType | runtime.c:322-364 | definition: what `show_type` prints for a type; `Show.ShowType` is proved equal to it, and `Render.TupleOut`, `Render.ArrayStops` and `Render.VoidStops` state what it prints |
| Render.RenderArray | runtime.c:290-320 | definition: what `show_array` prints; `Show.ShowArray` is proved equal to it, and `Render.ArrayStops`, `Render.ArrayOut` and `Render.EmptyArray` state what it prints |
| Render.RenderElems | runtime.c:301-318 | definition: the element loop from element `i`; `Show.ShowElems` is proved equal to it and `Render.ElemsStep` states one pass |
| Render.RenderFields | runtime.c:349-359 | definition: the field loop from field `k`; `Show.ShowFields` is proved equal to it, and `Render.FieldsStep` and `Render.FieldsAtOffsets` state what it prints |
| Render.ElemsStep | runtime.c:301-318 | each element is printed from `data + i * step`; every element but the last is followed by the separator its `rankstep` selects, and the last by none |
| Render.FieldsStep | runtime.c:353-359 | each field is printed at the running offset, which then grows by the field's size; `", "` follows every field but the last; a field without size stops the printer |
| Render.TupleOut | runtime.c:348-362 | a tuple prints `{`, its fields, `}`, unless a field stops the printer |
| Render.ArrayStops | runtime.c:290-299 | an overflowing count, or an element type without size, stops the printer before `[` |
| Render.ArrayOut | runtime.c:299-319 | otherwise an array prints `[`, its elements, `]`, unless an element stops the printer |
| Render.FieldsAtOffsets | runtime.c:350-359 | in a void-free tuple each field is read at the tuple's address plus the sizes of the earlier fields, and the fields are joined by `", "` |
| Render.OffsetDefined | runtime.c:350-355 | in a void-free tuple every field has an offset |
| Render.VoidStops | runtime.c:353-355 | a tuple with a void nested in it never prints completely |
| Render.FieldsVoidStops | runtime.c:353-355 | the same for the field loop from any field on |
| Render.EmptyArray | runtime.c:299-319 | an array with no elements whose element type has a size prints exactly `[]` |
| Render.StrNLen | runtime.c:373 | `strnlen` counts the characters before the first NUL, at most `n` |
| Render.Accept | runtime.c:373-378 | what passes the checks of `show` is a decodable node |
| Render.TooLong | runtime.c:373 | the length check fires exactly when the first 256 characters hold no NUL, and then `show` refuses the descriptor before parsing it |
| Render.ShownOutcome | runtime.c:373-381 | a descriptor that fails a check prints nothing but the diagnostic; a complete call ends with `"\n"` |
| Render.ShowsDescriptor | runtime.c:366-383 | for every type that fits, its descriptor followed by whitespace prints the value and `"\n"`, and followed by any other character it is refused |
| Render.AcceptsDescriptor | runtime.c:373-378 | the descriptor followed by whitespace is accepted and the arena decodes to the type; any other trailing character is refused |
| Render.ParsesPrefix | runtime.c:376 | the parser reads a descriptor at the start of any text that begins with it |
| Render.AcceptParsed | runtime.c:376-378 | a parsed descriptor is accepted exactly when only whitespace follows it |
| Render.SkipWsShift | runtime.c:377 | skipping whitespace after the descriptor happens within what follows it |
| Show.ShowType | runtime.c:322-364 | each case of `show_type` prints exactly `RenderType` of the decoded node and stops with its diagnostic |
| Show.ShowTuple | runtime.c:348-362 | the tuple case prints exactly what the reference prints |
| Show.ShowFields | runtime.c:349-359 | the field loop with its running offset prints exactly the reference field list |
| Show.ShowField | runtime.c:354-358 | one field, its size and its separator split off the reference text |
| Show.ShowArray | runtime.c:290-320 | `show_array` prints exactly `RenderArray`, including both ways it stops before `[` |
| Show.ShowArrayBody | runtime.c:299-319 | `[`, the elements, `]` as the reference prints them |
| Show.CountElems | runtime.c:292-297 | the checked count loop gives exactly the element count, or nothing on overflow |
| Show.ShowElems | runtime.c:301-318 | the element loop prints exactly the reference's elements and separators |
| Show.ShowElem | runtime.c:302-304 | one element splits off the reference text |
| Show.RankStepLoop | runtime.c:305-309 | the `while` loop computes exactly `RankStep` and never leaves the extents |
| Show.ShowSeparator | runtime.c:305-317 | the separator printed before element `j` is the one its `rankstep` selects |
| Show.PrintSeparator | runtime.c:311-316 | `", "` for `rankstep` 0, otherwise `rankstep` semicolons and a blank |
| Show.Show | runtime.c:366-383 | `show` resets the arena, parses and checks the descriptor, then prints exactly the value and `"\n"`, or stops with the diagnostic of the first failed check; after an accepted descriptor the arena holds exactly the parsed cells, and after a too-long one it is untouched |

## Left out

- stdout: `tprintf` appends to the process's output. Here every printing method returns the text it prints, so a failed `vprintf` (runtime.c:105-107) is not modelled.
- `%f` (runtime.c:338): the text of a double is a parameter `floatText` from the word's bits to a string.
- Pointers: addresses are unbounded naturals. Pointer arithmetic that wraps around the address space is not modelled.
- `i * step` and the comparison `i < size` use `int64_t` against `uint64_t`. Arrays of more than 2^63 elements are not modelled separately from smaller ones.
- `int offset` in `show_type` is 32 bits. The model does not check for overflow, and proves that none can happen instead. The parsed type occupies fewer than 256 cells (`ParseSize.ParsedSizeBound`). Every type nested in it occupies fewer still (`ParseSize.NestedFootprint`). A size is at most 2048 bytes per cell (`Layout.SizeBound`). So every field size added to `offset` is below 2^19, and so is every offset, which is at most the size of its tuple (`Layout.OffsetsAddUp`).
- The printing methods read the arena contents as a sequence value taken after parsing. `show_type` never writes `mem`; what this leaves out is only that the global buffer and the value are the same storage.
- The `JPLRTDEBUG` debug prints (runtime.c:367-369) and the `full_type_string` global (runtime.c:372, 382): environment-dependent output, and a global used only by the diagnostics of `fail`.
- `fail` prints a diagnostic naming the descriptor and exits. Here it is an `Error` value carrying the source's message.
- The rest of `runtime.c` and all of `builtins.c`: `main` and `strtol`, `jpl_alloc`, `print`, the clock functions, `fail_assertion`, image reading and writing, `to_int`/`to_float`, the math forwards and the image filters. These are process entry, I/O, allocation and floating point, outside the printer. `runtime.h` holds declarations only.
- The error `VoidHasNoSize`: `size_type` as written has no void case and recurses without end (see the finding). The corrected size rule refuses void instead. This error and its message stand in for that endless recursion; the source prints no such diagnostic.
- Render.StrNLen: counts characters, while `strnlen` counts bytes. A descriptor with non-ASCII characters near the 256 limit may be refused as too long by the source, while the model reads its first 256 characters and reports a parse error.
- Render.TooLong: states only that the length check refuses. That a shorter descriptor passes the check is part of the definition of `Render.Accept`, and `Render.AcceptParsed` uses it.

## Findings

| source | as written | input that shows it | evidently intended | confidence | as-written member | corrected member |
|---|---|---|---|---|---|---|
| runtime.c:266-288 | `size_type` has no `VOID` case, so a void node falls into the tuple branch and reads its tag 250 as a field count | `(TupleType (VoidType))`: the arena is `[250, 1, 0]`. `show_type` prints `{void`, then `size_type(0)` calls `size_type(1)`, which calls `size_type(0)` again, without end | void has no embedded size, and a tuple or array that needs one is refused with a diagnostic instead of recursing | not executed | SizeAsWritten.VoidFieldDiverges | Layout.SizeDefined |
