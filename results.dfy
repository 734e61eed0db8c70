/** How a parse can fail. */
module Results {

  datatype ParseError =
    /** A heading or blockquote handler is called without a parse context, and the
        footnote-reference stage of the inline transform dereferences it. */
    | MissingContext
    /** A footnote was defined with the id `hasOwnProperty`, which shadows the method the
        footnote-reference stage calls on the footnote table; the call then fails. */
    | LookupShadowed
    /** `$insert=` directives nested deeper than the fuel given to the driver. */
    | DepthExceeded

  datatype Result<T> = Ok(value: T) | Err(error: ParseError)

  datatype Option<T> = None | Some(value: T)
}
