/** `src/middlewares/time.ts`: the `/time` handler. */
module TimeHandler {
  import opened Json
  import opened Http
  import opened AddTimestamps

  /** `Math.floor(ms / 1000)`: seconds since the epoch, rounded down (also
      for instants before 1970). */
  function UnixSeconds(ms: int): (s: int)
    ensures s * 1000 <= ms < s * 1000 + 1000
  {
    ms / 1000
  }

  /** `getTime`: the two clock reads (`new Date()` for the ISO text and
      `Date.now()` for the unix value) are separate parameters. */
  function GetTime(isoRead: int, unixRead: int): (reply: Reply)
    ensures reply.JsonReply? && reply.status == 200
    ensures reply.body.Keys == {"timestamp", "timestamp_unix"}
    ensures reply.body["timestamp"] == JText([IsoTime(isoRead)])
    ensures reply.body["timestamp_unix"].JInt?
    ensures reply.body["timestamp_unix"].n * 1000 <= unixRead < reply.body["timestamp_unix"].n * 1000 + 1000
  {
    JsonReply(200, map["timestamp" := JText([IsoTime(isoRead)]),
                       "timestamp_unix" := JInt(UnixSeconds(unixRead))])
  }

  /** Because `getTime` answers through the wrapped `res.json`, its
      `timestamp` is replaced by the wrapper's clock read plus one hour,
      while `timestamp_unix` keeps the unshifted time: when all reads see the
      same instant the two fields disagree by one hour plus the sub-second
      remainder. */
  lemma StampedTimeDisagrees(isoRead: int, instant: int)
    ensures var body := StampReply(GetTime(isoRead, instant), instant).body;
      && body["timestamp"] == JText([IsoTime(instant + 3600000)])
      && body["timestamp_unix"].JInt?
      && 3600000 <= (instant + 3600000) - body["timestamp_unix"].n * 1000 < 3601000
  {
  }
}
