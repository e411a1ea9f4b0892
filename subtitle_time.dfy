/** Subtitle timing: the end time of a cue, and the duration of a subtitle
    track taken as the end time of its last cue (`get_subtitles_duration`). */
module SubtitleTime {
  import opened Wrappers

  const MILLIS_PER_DAY: nat := 86_400_000

  /** A cue time as the subtitle parser reports it. */
  datatype Clock = Clock(hours: nat, minutes: nat, seconds: nat, milliseconds: nat)

  /** One parsed cue; its text plays no part in the matching. */
  datatype Entry = Entry(start: Clock, end: Clock)

  /** Why a track has no duration: no cue to take the end time from
      (`subtitles[-1]` on an empty list), or an end time that is not a time
      of day and so cannot become a `datetime.time`. */
  datatype TrackError = EmptyTrack | ClockOutOfRange

  /** The ranges `datetime.time` accepts. */
  predicate IsTimeOfDay(c: Clock)
  {
    c.hours < 24 && c.minutes < 60 && c.seconds < 60 && c.milliseconds < 1000
  }

  /** Milliseconds since midnight: h*3600 + m*60 + s seconds plus ms. */
  function ClockMillis(c: Clock): (millis: nat)
  {
    ((c.hours * 60 + c.minutes) * 60 + c.seconds) * 1000 + c.milliseconds
  }

  /** The time of day `ms` milliseconds after midnight. */
  function ClockAt(ms: nat): (c: Clock)
    requires ms < MILLIS_PER_DAY
    ensures IsTimeOfDay(c) && ClockMillis(c) == ms
  {
    var totalSeconds := ms / 1000;
    var totalMinutes := totalSeconds / 60;
    Clock(totalMinutes / 60, totalMinutes % 60, totalSeconds % 60, ms % 1000)
  }

  /** Reading a time of day as milliseconds loses nothing. */
  lemma ClockRoundTrip(c: Clock)
    requires IsTimeOfDay(c)
    ensures ClockMillis(c) < MILLIS_PER_DAY && ClockAt(ClockMillis(c)) == c
  {
    var ms := ClockMillis(c);
    var totalSeconds := (c.hours * 60 + c.minutes) * 60 + c.seconds;
    assert ms / 1000 == totalSeconds && ms % 1000 == c.milliseconds;
    assert totalSeconds / 60 == c.hours * 60 + c.minutes && totalSeconds % 60 == c.seconds;
    assert (c.hours * 60 + c.minutes) / 60 == c.hours && (c.hours * 60 + c.minutes) % 60 == c.minutes;
  }

  /** `get_subtitles_duration`: the end time of the final cue, in
      milliseconds since midnight, sub-second part kept. */
  function SubtitlesDuration(entries: seq<Entry>): (r: Result<nat, TrackError>)
    ensures |entries| == 0 ==> r == Failure(EmptyTrack)
    ensures |entries| > 0 ==> (r.Success? <==> IsTimeOfDay(entries[|entries| - 1].end))
    ensures r.Success? ==> r.value < MILLIS_PER_DAY && ClockAt(r.value) == entries[|entries| - 1].end
    ensures r.Failure? ==> r.error == (if |entries| == 0 then EmptyTrack else ClockOutOfRange)
  {
    if |entries| == 0 then Failure(EmptyTrack)
    else
      var end := entries[|entries| - 1].end;
      if !IsTimeOfDay(end) then Failure(ClockOutOfRange)
      else
        ClockRoundTrip(end);
        Success(ClockMillis(end))
  }

  /** Cues before the last one do not affect the duration. */
  lemma {:induction false} DurationIgnoresEarlierCues(earlier: seq<Entry>, last: Entry)
    ensures SubtitlesDuration(earlier + [last]) == SubtitlesDuration([last])
  {
    assert (earlier + [last])[|earlier + [last]| - 1] == last;
  }

  /** A track whose last cue ends at 00:02:01,500 lasts 121.5 s. */
  lemma DurationExample()
    ensures SubtitlesDuration([Entry(Clock(0, 0, 0, 0), Clock(0, 2, 1, 500))]) == Success(121_500)
  {
  }
}
