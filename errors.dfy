/** Errors the binder and the mouthpiece produce or pass along, with the text
    Go's `Error()` methods render for them. */
module Errors {

  datatype Option<T> = None | Some(value: T)

  /** The two sentinel causes a strconv.NumError carries. */
  datatype NumErrorCause = ErrSyntax | ErrRange

  datatype Error =
    /** strconv.NumError: the parsing function, the text it was given and why it failed */
    | NumError(fnName: string, num: string, cause: NumErrorCause)
    /** populate's rejection of a field kind it does not coerce into */
    | UnsupportedType(typeName: string)
    /** Unpack's report of a coercion failure, prefixed by the form name it
        came from. The Go code formats the message with `%v`, so only the
        text survives: `errors.As` cannot reach the inner error there. */
    | FieldError(name: string, inner: Error)
    /** unpackJSONParams' error for a request without a body */
    | BodyMissing
    /** an error produced by code outside the model (form parsing, reading the
        body, JSON decoding, writing the response), known only by its text */
    | External(text: string)

  datatype Result<T> = Ok(value: T) | Err(error: Error)

  function CauseText(c: NumErrorCause): string {
    match c
    case ErrSyntax => "invalid syntax"
    case ErrRange => "value out of range"
  }

  /** The text `err.Error()` returns for each kind of error. A name-prefixed
      error reads as the name, a colon and a space, then the inner text. */
  function Text(e: Error): (t: string)
    ensures e.FieldError? ==> |t| >= |e.name| + 2 && t[..|e.name| + 2] == e.name + ": " && t[|e.name| + 2..] == Text(e.inner)
    ensures e.NumError? ==> |t| >= 8 && t[..8] == "strconv."
  {
    match e
    case NumError(fnName, num, cause) =>
      "strconv." + fnName + ": parsing \"" + num + "\": " + CauseText(cause)
    case UnsupportedType(typeName) => "unsupported http value type: " + typeName
    case FieldError(name, inner) => name + ": " + Text(inner)
    case BodyMissing => "request body 为空"
    case External(text) => text
  }
}
