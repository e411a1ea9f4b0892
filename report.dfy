/** The rows of the printed table: one per video, four text cells. Styling
    and rendering are not modelled. */
module Report {
  import opened Wrappers
  import opened Strings
  import opened OrderedDicts
  import opened Paths
  import opened Formatting
  import opened Matcher

  /** Video file name, subtitle file name, video duration, subtitle duration. */
  datatype Row = Row(video: string, subtitle: string, videoDuration: string, subtitlesDuration: string)

  /** The cells added for one entry of the `videos` dictionary. */
  function RowOf(path: string, rec: VideoRecord): (row: Row)
  {
    Row(
      Basename(path),
      match rec.srt case Some(name) => name case None => "",
      FormatSeconds(rec.seconds * 1000),
      match rec.subtitlesMillis case Some(ms) => FormatSeconds(ms) case None => "-")
  }

  /** What a row says about its video: an unmatched video shows an empty
      subtitle name and `-`; a matched one shows the recorded name and a
      duration that reads back as the recorded milliseconds; the video
      duration reads back as the video's whole seconds. */
  lemma RowMeaning(path: string, rec: VideoRecord)
    requires rec.srt.Some? <==> rec.subtitlesMillis.Some?
    requires rec.srt.Some? ==> rec.srt.value != ""
    ensures var row := RowOf(path, rec);
      && row.video == Basename(path)
      && ParseSeconds(row.videoDuration) == Some(rec.seconds * 1000)
      && (row.subtitle == "" <==> rec.srt.None?)
      && (row.subtitlesDuration == "-" <==> rec.srt.None?)
      && (rec.srt.Some? ==> row.subtitle == rec.srt.value)
      && (rec.subtitlesMillis.Some? ==> ParseSeconds(row.subtitlesDuration) == rec.subtitlesMillis)
  {
    FormatSecondsRoundTrip(rec.seconds * 1000);
    if rec.subtitlesMillis.Some? {
      FormatSecondsRoundTrip(rec.subtitlesMillis.value);
      FormatSecondsIsNotDash(rec.subtitlesMillis.value);
    }
  }

  /** The rows of the table, in dictionary order. */
  function Rows(videos: Dict<string, VideoRecord>): (rows: seq<Row>)
    requires videos.Valid()
  {
    seq(|videos.keys|, i requires 0 <= i < |videos.keys| => RowOf(videos.keys[i], videos.values[videos.keys[i]]))
  }

  /** The loop over `videos.items()` that adds one row per video. */
  method BuildRows(videos: Dict<string, VideoRecord>) returns (rows: seq<Row>)
    requires videos.Valid()
    ensures rows == Rows(videos)
  {
    var items := videos.Items();
    ghost var all := Rows(videos);
    rows := [];
    for i := 0 to |items|
      invariant rows == all[..i]
    {
      rows := rows + [RowOf(items[i].0, items[i].1)];
      TakeStep(all, i);
    }
    assert all[..|items|] == all;
  }
}
