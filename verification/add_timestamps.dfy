/** `src/middlewares/addTimestamps.ts`: the wrapper around `res.json` that
    every request gets, adding a `timestamp` one hour ahead of the clock. */
module AddTimestamps {
  import opened Json
  import opened Http

  /** `1 * 60 * 60 * 1000`: the fixed offset, in milliseconds, the comment
      calls Europe/Berlin (UTC+1). It does not follow daylight saving time. */
  const BerlinOffset: int := 3600000

  /** The `timestamp` value written when the clock reads `now`. */
  function TimestampAt(now: int): JsonValue
  {
    JText([IsoTime(now + BerlinOffset)])
  }

  /** `{ ...body, timestamp }`: the spread copies every key, then the
      assignment sets (or overwrites) `timestamp`. */
  function Stamp(body: JsonObject, now: int): (r: JsonObject)
    ensures r.Keys == body.Keys + {"timestamp"}
    ensures r["timestamp"] == JText([IsoTime(now + 3600000)])
    ensures forall k :: k in body && k != "timestamp" ==> r[k] == body[k]
  {
    body["timestamp" := TimestampAt(now)]
  }

  /** Stamping again at the same instant changes nothing. */
  lemma StampIdempotent(body: JsonObject, now: int)
    ensures Stamp(Stamp(body, now), now) == Stamp(body, now)
  {
  }

  /** The body's own `timestamp`, if any, does not survive; the body is
      recovered from the stamped one by removing the stamp, when it had no
      `timestamp` of its own. */
  lemma StampOverwrites(body: JsonObject, now: int, own: JsonValue)
    ensures Stamp(body["timestamp" := own], now) == Stamp(body, now)
    ensures "timestamp" !in body ==> Stamp(body, now) - {"timestamp"} == body
  {
  }

  /** What the wrapped `res.json` sends: JSON replies gain the stamp, every
      other reply (`res.send`, redirects, no reply) is untouched. */
  function StampReply(reply: Reply, now: int): (r: Reply)
    ensures reply.JsonReply? <==> r.JsonReply?
    ensures reply.JsonReply? ==> r.status == reply.status && r.body == Stamp(reply.body, now)
    ensures !reply.JsonReply? ==> r == reply
  {
    match reply
    case JsonReply(status, body) => JsonReply(status, Stamp(body, now))
    case _ => reply
  }
}
