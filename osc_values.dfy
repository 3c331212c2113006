/** The OSC value model as far as the annotation codec uses it: the argument
    variants that an annotation can spell, their type-tag characters, and a
    message (an address pattern plus an ordered list of arguments). */
module OscValues {

  datatype Option<+T> = None | Some(value: T)

  /** Bounds of OSC's 32-bit two's-complement integer argument. */
  const Int32Min: int := -0x8000_0000
  const Int32Max: int := 0x7fff_ffff

  predicate InInt32(n: int) {
    Int32Min <= n <= Int32Max
  }

  /** An OSC argument. A 32-bit float is held as the decimal literal that
      spells it, so that `3.142` is written and read back as itself. */
  datatype Arg =
    | Int32(value: int)
    | Float(literal: string)
    | Str(text: string)
    | True
    | False

  /** The single-character OSC type tag of each variant. */
  function TypeTag(a: Arg): char {
    match a
    case Int32(_) => 'i'
    case Float(_) => 'f'
    case Str(_) => 's'
    case True => 'T'
    case False => 'F'
  }

  /** Variants that carry the same tag are the same variant, and conversely. */
  lemma TypeTagIdentifiesVariant(a: Arg, b: Arg)
    ensures TypeTag(a) == TypeTag(b) <==>
      (a.Int32? && b.Int32?) || (a.Float? && b.Float?) || (a.Str? && b.Str?) ||
      (a.True? && b.True?) || (a.False? && b.False?)
  {
  }

  datatype Message = Message(address: string, arguments: seq<Arg>)
}
