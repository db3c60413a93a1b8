/** Values of the JavaScript host that the cookie helpers pass around. */
module Js {

  /** A value that may be missing: `undefined`/`null` in JavaScript, or the
      `null` that a lookup returns when nothing is found. */
  datatype Option<+T> = None | Some(value: T)

  /** The only exception the modelled helpers can raise: `decodeURIComponent`
      throws a URIError on a malformed percent-escape. */
  datatype JsError = URIError

  /** How a call ends: it returns a value or throws. */
  datatype Completion<+T> = Normal(value: T) | Throw(error: JsError)
}
