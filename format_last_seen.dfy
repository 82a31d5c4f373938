/** utils/formatLastSeen.ts: a coarse, human-readable age of a presence
    timestamp. The clock is the parameter `now`; times are milliseconds. */
module LastSeen {
  import opened Strings

  const Second: int := 1000
  const Minute: int := 60 * Second
  const Hour: int := 60 * Minute
  const Day: int := 24 * Hour

  /** `formatLastSeen(timestamp)` evaluated at time `now`. Every division
      is a floor, as `Math.floor` of the quotient is. */
  function FormatLastSeen(timestamp: int, now: int): (r: string)
    ensures || r in {"just now", "recently", "today", "yesterday", "a while ago"}
            || (|r| == 10 && '2' <= r[0] <= '6' && r[1..] == " days ago")
  {
    var diff := now - timestamp;
    var seconds := diff / 1000;
    var minutes := seconds / 60;
    var hours := minutes / 60;
    var days := hours / 24;
    if seconds < 60 then "just now"
    else if minutes < 60 then "recently"
    else if hours < 24 then "today"
    else if days == 1 then "yesterday"
    else if days < 7 then NatToString(days) + " days ago"
    else "a while ago"
  }

  /** Flooring by 1000 and then by 60 is flooring by a minute, and so on
      for the three steps the function takes. */
  lemma FloorSteps(x: int)
    ensures x / 1000 / 60 == x / Minute
    ensures x / Minute / 60 == x / Hour
    ensures x / Hour / 24 == x / Day
  {
  }

  /** The bucket edges, in milliseconds of `now - timestamp`. */
  lemma {:induction false} Buckets(timestamp: int, now: int)
    ensures now - timestamp < Minute ==> FormatLastSeen(timestamp, now) == "just now"
    ensures Minute <= now - timestamp < Hour ==> FormatLastSeen(timestamp, now) == "recently"
    ensures Hour <= now - timestamp < Day ==> FormatLastSeen(timestamp, now) == "today"
    ensures Day <= now - timestamp < 2 * Day ==> FormatLastSeen(timestamp, now) == "yesterday"
    ensures 2 * Day <= now - timestamp < 7 * Day ==>
              FormatLastSeen(timestamp, now) == [DigitChar((now - timestamp) / Day)] + " days ago"
    ensures 7 * Day <= now - timestamp ==> FormatLastSeen(timestamp, now) == "a while ago"
  {
    FloorSteps(now - timestamp);
  }

  /** Only the difference matters: shifting both instants by the same amount
      gives the same text. */
  lemma ShiftInvariant(timestamp: int, now: int, shift: int)
    ensures FormatLastSeen(timestamp + shift, now + shift) == FormatLastSeen(timestamp, now)
  {
    assert (now + shift) - (timestamp + shift) == now - timestamp;
  }

  /** Future timestamps (clock skew) read "just now". */
  lemma FutureIsJustNow(timestamp: int, now: int)
    requires timestamp >= now
    ensures FormatLastSeen(timestamp, now) == "just now"
  {
    Buckets(timestamp, now);
  }
}
