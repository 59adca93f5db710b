/** What a handler does with the Express response object, and the request
    attributes the routes look at. */
module Http {
  import opened Json

  newtype byte = x: int | 0 <= x < 256

  datatype Method = Get | Post | OtherMethod(name: string)

  datatype Payload = Bytes(data: seq<byte>) | Text(text: string) | JsonText(document: JsonObject)

  datatype Reply =
    /** `res.status(status).json(body)`. */
    | JsonReply(status: nat, body: JsonObject)
    /** `res.send(payload)` with the given status and Content-Type. */
    | SendReply(status: nat, contentType: string, payload: Payload)
    /** `res.redirect(location)` (status 302). */
    | Redirect(location: string)
    /** The handler is `async` and its promise rejected before any response
        was written; the reason is the thrown error's string form. */
    | Rejected(reason: string)
    /** No route answered: Express's final handler responds 404. */
    | Unrouted

  /** A query-string parameter as the query parser hands it over: absent, a
      single string, or an array/object (repeated or bracketed keys). */
  datatype QueryValue = Absent | QStr(s: string) | QComposite
}
