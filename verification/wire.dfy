/** The messages exchanged over the socket, after JSON decoding: the request
    a page sends, the response a handler returns, and the out-of-band
    updates a response may carry. */
module Wire {
  import opened Wrappers

  /** A request's `data` object. Values stay opaque JSON text. */
  type Payload = map<string, string>

  /** `WSXRequest`: `swap` is optional on the wire. */
  datatype Request = Request(id: string, handler: string, target: string, trigger: string,
                             data: Payload, swap: Option<string>)

  /** `WSXOOBUpdate`. */
  datatype OobUpdate = OobUpdate(target: string, html: string, swap: Option<string>)

  /** `WSXResponse`. A missing or non-array `oob` is the empty list. */
  datatype Response = Response(id: string, target: string, html: string,
                               swap: Option<string>, oob: seq<OobUpdate>)
}
