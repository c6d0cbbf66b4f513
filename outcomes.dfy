/** Optional arguments, error kinds and results shared by the codec and the
    conversion functions. */
module Outcomes {

  /** An optional keyword argument: `None` is Python's absent `None` default. */
  datatype Option<T> = None | Some(value: T)

  /** The kinds of failure the conversion layer reports (messages are not modelled). */
  datatype Error =
    | NoArgument            // the validator: none of primitive, hexstr, text supplied
    | ConflictingArguments  // the validator: more than one of them supplied
    | StrPrimitive          // to_hex: a str in the primitive slot
    | StrNeedsKeyword       // to_int: a str in the primitive slot
    | UnsupportedType       // to_hex / to_bytes: any other unsupported primitive
    | DecodingError         // decode_hex: odd digit count or a non-hex character
    | ParseError            // int(): not a strict digit string in the requested base

  datatype Result<T> = Ok(value: T) | Err(error: Error)
}
