/**
 * What the mobile client gets back from an axios request: either the server
 * answered (with a status and a decoded JSON body) or no answer arrived
 * (network error, server down). axios resolves only for 2xx statuses and
 * rejects otherwise, carrying the answer in `error.response`.
 */
module Http {
  import opened Js

  datatype Outcome = Responded(status: int, body: JsonObject) | NoResponse

  /** axios's default `validateStatus`: the request resolves exactly for a 2xx status. */
  predicate Ok(o: Outcome) {
    o.Responded? && 200 <= o.status < 300
  }

  /** A call that either returns a value or throws one. */
  datatype Call<T> = Returned(value: T) | Threw(error: JsVal)
}
