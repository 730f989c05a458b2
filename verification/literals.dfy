/**
  Typed values that a cell of the variables table can be coerced into.

  The literal parser of the host language is a foreign component: it is not
  modelled here beyond its type. `Parser` is any total, deterministic function
  from the raw cell text to `Some(value)` when the text is a literal and `None`
  when parsing it fails for any reason.
 */
module Literals {
  import opened Options

  /** The literal kinds a cell may hold. A floating-point literal is carried
      as its uninterpreted text. */
  datatype Value =
    | Str(text: string)
    | Int(n: int)
    | Bool(b: bool)
    | NoneValue
    | Float(literal: string)
    | List(items: seq<Value>)
    | Dict(entries: seq<(Value, Value)>)

  /** The literal parser: `None` stands for every exception it can raise. */
  type Parser = string -> Option<Value>
}
