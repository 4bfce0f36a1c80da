/** Fatal conditions of the show subsystem. In runtime.c every one of them is a call to
    `fail("show", msg)`, which prints a diagnostic and exits; here they are values. */
module Errors {

  datatype Error =
    | TypeTooComplex            // getmem: the arena has no room for the node
    | BadLiteral(kind: Kind)    // ensure_literal: a keyword or ')' did not match
    | CouldNotParseType         // parse_type: no '(' or an unknown first letter
    | TooManyFields             // parse_tuple_type: a field after the 250th
    | RankTooLarge              // parse_array_type: the digits exceed 255
    | RankTooSmall              // parse_array_type: rank 0 or no digits
    | TrailingInput             // show: non-whitespace after the top-level type
    | TypeStringTooLong         // show: 256 or more characters before the terminator
    | ArrayTooLarge             // show_array: the element count overflows 64 bits
    | VoidHasNoSize             // size_type has no case for void (no diagnostic in the source)
  {
    /** The diagnostic the source passes to `fail`. */
    function Message(): string {
      match this
      case TypeTooComplex => "Type too complex, cannot parse"
      case BadLiteral(kind) => "Could not parse " + kind.Name() + " type"
      case CouldNotParseType => "Could not parse type"
      case TooManyFields => "Tuple has too many fields"
      case RankTooLarge => "Array rank is too large"
      case RankTooSmall => "Array rank is too small"
      case TrailingInput => "Could not parse type string"
      case TypeStringTooLong => "Type string is too long"
      case ArrayTooLarge => "Overflow when computing total size of array"
      case VoidHasNoSize => "size of void is not defined"
    }
  }

  /** The parse function whose literal failed; each names its construct in its diagnostic. */
  datatype Kind = VoidKind | BoolKind | IntKind | FloatKind | TupleKind | ArrayKind {
    function Name(): string {
      match this
      case VoidKind => "void"
      case BoolKind => "boolean"
      case IntKind => "integer"
      case FloatKind => "floating"
      case TupleKind => "tuple"
      case ArrayKind => "array"
    }
  }

  datatype Option<+T> = None | Some(value: T)

  datatype Result<+T> = Ok(value: T) | Fail(error: Error) {
    predicate IsFailure() {
      Fail?
    }

    function PropagateFailure<U>(): Result<U>
      requires Fail?
    {
      Fail(error)
    }

    function Extract(): T
      requires Ok?
    {
      value
    }
  }
}
