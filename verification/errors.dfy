/** The error values of the decoder. The crate's error module is not part of
    this model; these variants mirror the ones the decoder produces. */
module Errors {
  import opened Wrappers

  datatype Error =
    /** A `read_exact`, `read_u8`, `read_u16` or `read_u32` ran past the end of the buffer. */
    | UnexpectedEof
    /** The CBOR decoder rejected its input; the message is the decoder's. */
    | CborError(message: string)
    /** The base64 decoder rejected its input; the message is the decoder's. */
    | Base64Error(message: string)
    /** `Error::Other` with the message the decoder writes. */
    | Other(message: string)
    /** Not an error value of the source: the Rust code panics here (an
        out-of-range slice). A panic unwinds through every caller, which is
        what propagating this variant unchanged models. */
    | Panic(reason: string)

  /** `.map_err(|e| Error::CborError(e))` */
  function CborFailure<T>(r: Result<T, string>): (r': Result<T, Error>)
    ensures r.Ok? <==> r'.Ok?
    ensures r.Ok? ==> r'.value == r.value
    ensures r.Err? ==> r'.error == CborError(r.error)
  {
    match r
    case Ok(v) => Ok(v)
    case Err(e) => Err(CborError(e))
  }

  /** The `From<base64::DecodeError>` conversion behind `base64::decode(string)?`. */
  function Base64Failure<T>(r: Result<T, string>): (r': Result<T, Error>)
    ensures r.Ok? <==> r'.Ok?
    ensures r.Ok? ==> r'.value == r.value
    ensures r.Err? ==> r'.error == Base64Error(r.error)
  {
    match r
    case Ok(v) => Ok(v)
    case Err(e) => Err(Base64Error(e))
  }
}
