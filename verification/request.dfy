/**
 * What the route handlers read and answer: the JSON values of request
 * fields with JavaScript truthiness, and a reply as a status code and a
 * body.
 */
module Request {

  /** A request-body field as the handler sees it after JSON parsing. */
  datatype Json =
    | Undefined
    | Null
    | Bool(b: bool)
    | Num(n: real)
    | Str(s: string)
    | Composite  // an array or an object

  /** `!!v` in JavaScript: false for undefined, null, false, 0 and "". */
  predicate Truthy(v: Json) {
    match v
    case Undefined => false
    case Null => false
    case Bool(b) => b
    case Num(n) => n != 0.0
    case Str(s) => s != ""
    case Composite => true
  }

  /** A reply body: the payload the handler sends, or `{ error }`. */
  datatype Body<T> =
    | Payload(value: T)
    | ErrorMessage(error: string)

  datatype Reply<T> = Reply(status: nat, body: Body<T>)

  /** The body every route sends with a 500. */
  const InternalServerError := "Internal Server Error"

  /** What a preHandler guard decides: let the request through, or answer it with an error. */
  datatype Guard<U> = Admit(user: U) | Reject(status: nat, error: string)
}
