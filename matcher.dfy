/** The matching pass of `matching`: every video is compared with every
    subtitle, and each subtitle within the tolerance overwrites the video's
    match, so the last qualifying subtitle wins. */
module Matcher {
  import opened Wrappers
  import opened Strings
  import opened OrderedDicts
  import opened Paths

  /** `END_TIME_DEVIATION`, in seconds. */
  const END_TIME_DEVIATION: nat := 2

  /** A video's entry in the `videos` dictionary: its duration in whole
      seconds and, once matched, the subtitle file's base name (`srt`) and
      that subtitle's duration in milliseconds (`subtitles_duration`). */
  datatype VideoRecord = VideoRecord(seconds: nat, srt: Option<string>, subtitlesMillis: Option<nat>)

  function Abs(x: int): (a: nat)
  {
    if x < 0 then -x else x
  }

  /** `int(abs(video - subtitle))`: the absolute difference truncated to
      whole seconds. */
  function DifferenceSeconds(videoSeconds: nat, subtitleMillis: nat): (d: nat)
    ensures d * 1000 <= Abs(videoSeconds * 1000 - subtitleMillis) < d * 1000 + 1000
  {
    Abs(videoSeconds * 1000 - subtitleMillis) / 1000
  }

  /** The test on line 55: the truncated difference is below `END_TIME_DEVIATION`. */
  predicate WithinTolerance(videoSeconds: nat, subtitleMillis: nat)
  {
    DifferenceSeconds(videoSeconds, subtitleMillis) < END_TIME_DEVIATION
  }

  /** Truncating before comparing with 2 s is the same as comparing the exact
      difference with 2000 ms: 1.999 s matches, 2 s does not. */
  lemma ToleranceInMillis(videoSeconds: nat, subtitleMillis: nat)
    ensures WithinTolerance(videoSeconds, subtitleMillis)
        <==> Abs(videoSeconds * 1000 - subtitleMillis) < END_TIME_DEVIATION * 1000
  {
    var d := Abs(videoSeconds * 1000 - subtitleMillis);
    assert d == d / 1000 * 1000 + d % 1000;
  }

  /** The boundary cases on either side of a video's duration. */
  lemma ToleranceBoundary(videoSeconds: nat)
    ensures WithinTolerance(videoSeconds, videoSeconds * 1000 + 1999)
    ensures !WithinTolerance(videoSeconds, videoSeconds * 1000 + 2000)
    ensures videoSeconds >= 2 ==> WithinTolerance(videoSeconds, videoSeconds * 1000 - 1999)
    ensures videoSeconds >= 2 ==> !WithinTolerance(videoSeconds, videoSeconds * 1000 - 2000)
  {
    ToleranceInMillis(videoSeconds, videoSeconds * 1000 + 1999);
    ToleranceInMillis(videoSeconds, videoSeconds * 1000 + 2000);
    if videoSeconds >= 2 {
      ToleranceInMillis(videoSeconds, videoSeconds * 1000 - 1999);
      ToleranceInMillis(videoSeconds, videoSeconds * 1000 - 2000);
    }
  }

  /** A 120 s video and a 121.5 s subtitle match; a 100 s video and a 105 s
      subtitle do not. */
  lemma ToleranceExamples()
    ensures WithinTolerance(120, 121_500)
    ensures !WithinTolerance(100, 105_000)
  {
  }

  /** Position of the last subtitle within the tolerance of the video. */
  function LastMatch(videoSeconds: nat, subtitles: seq<(string, nat)>): (r: Option<nat>)
    ensures r.None? <==> forall j :: 0 <= j < |subtitles| ==> !WithinTolerance(videoSeconds, subtitles[j].1)
    ensures r.Some? ==> r.value < |subtitles| && WithinTolerance(videoSeconds, subtitles[r.value].1)
    ensures r.Some? ==> forall j :: r.value < j < |subtitles| ==> !WithinTolerance(videoSeconds, subtitles[j].1)
  {
    if |subtitles| == 0 then None
    else if WithinTolerance(videoSeconds, subtitles[|subtitles| - 1].1) then Some(|subtitles| - 1)
    else LastMatch(videoSeconds, subtitles[..|subtitles| - 1])
  }

  /** A video's record after the pass over `subtitles` (path, duration pairs
      in dictionary order). */
  function RecordFor(videoSeconds: nat, subtitles: seq<(string, nat)>): (rec: VideoRecord)
    ensures rec.seconds == videoSeconds
    ensures rec.srt.Some? <==> rec.subtitlesMillis.Some?
    ensures rec.srt.None? <==> forall j :: 0 <= j < |subtitles| ==> !WithinTolerance(videoSeconds, subtitles[j].1)
    ensures rec.srt.Some? ==> exists k ::
      && 0 <= k < |subtitles|
      && WithinTolerance(videoSeconds, subtitles[k].1)
      && (forall j :: k < j < |subtitles| ==> !WithinTolerance(videoSeconds, subtitles[j].1))
      && rec.srt == Some(Basename(subtitles[k].0))
      && rec.subtitlesMillis == Some(subtitles[k].1)
  {
    match LastMatch(videoSeconds, subtitles)
    case None => VideoRecord(videoSeconds, None, None)
    case Some(k) => VideoRecord(videoSeconds, Some(Basename(subtitles[k].0)), Some(subtitles[k].1))
  }

  /** One more subtitle either becomes the match or leaves the record as it was. */
  lemma RecordStep(videoSeconds: nat, subtitles: seq<(string, nat)>, j: nat)
    requires j < |subtitles|
    ensures RecordFor(videoSeconds, subtitles[..j + 1])
         == if WithinTolerance(videoSeconds, subtitles[j].1)
            then VideoRecord(videoSeconds, Some(Basename(subtitles[j].0)), Some(subtitles[j].1))
            else RecordFor(videoSeconds, subtitles[..j])
  {
    assert subtitles[..j + 1][..j] == subtitles[..j];
  }

  /** The `videos` dictionary after the pass: each video's record, in the
      order the videos were first inserted. */
  function VideoTable(videoFiles: seq<string>, videoSeconds: string -> nat, subtitles: seq<(string, nat)>): (videos: Dict<string, VideoRecord>)
  {
    FromKeys(videoFiles, Records(videoSeconds, subtitles))
  }

  /** Each video path's record after the pass. */
  function Records(videoSeconds: string -> nat, subtitles: seq<(string, nat)>): (records: string -> VideoRecord)
  {
    f => RecordFor(videoSeconds(f), subtitles)
  }

  /** The nested loop: for each video, insert its duration, then let every
      subtitle within the tolerance overwrite `srt` and `subtitles_duration`.
      The subtitles dictionary is a value here and is never written. */
  method MatchVideos(videoFiles: seq<string>, videoSeconds: string -> nat, subtitles: Dict<string, nat>)
    returns (videos: Dict<string, VideoRecord>)
    requires subtitles.Valid()
    ensures videos == VideoTable(videoFiles, videoSeconds, subtitles.Items())
  {
    var items := subtitles.Items();
    videos := Empty();
    for i := 0 to |videoFiles|
      invariant videos == VideoTable(videoFiles[..i], videoSeconds, items)
    {
      var videoFile := videoFiles[i];
      ghost var before := VideoTable(videoFiles[..i], videoSeconds, items);
      assert videoFiles[..i + 1][..i] == videoFiles[..i];
      videos := videos.Put(videoFile, VideoRecord(videoSeconds(videoFile), None, None));
      for j := 0 to |items|
        invariant videos == before.Put(videoFile, RecordFor(videoSeconds(videoFile), items[..j]))
      {
        var (subtitleFile, subtitleMillis) := items[j];
        RecordStep(videoSeconds(videoFile), items, j);
        PutPut(before, videoFile, RecordFor(videoSeconds(videoFile), items[..j]), RecordFor(videoSeconds(videoFile), items[..j + 1]));
        if WithinTolerance(videos.values[videoFile].seconds, subtitleMillis) {
          var rec := videos.values[videoFile];
          videos := videos.Put(videoFile, rec.(srt := Some(Basename(subtitleFile)), subtitlesMillis := Some(subtitleMillis)));
        }
      }
      assert items[..|items|] == items;
    }
    assert videoFiles[..|videoFiles|] == videoFiles;
  }

  /** Each video's record is its own duration plus the match computed from
      the subtitles alone: the pass never changes a duration and one video's
      match does not depend on the other videos. */
  lemma VideoTableEntries(videoFiles: seq<string>, videoSeconds: string -> nat, subtitles: seq<(string, nat)>)
    ensures forall f :: f in VideoTable(videoFiles, videoSeconds, subtitles).values <==> f in videoFiles
    ensures forall f :: f in videoFiles ==> VideoTable(videoFiles, videoSeconds, subtitles).values[f] == RecordFor(videoSeconds(f), subtitles)
  {
    FromKeysEntries(videoFiles, Records(videoSeconds, subtitles));
  }

  /** With distinct video paths the dictionary holds them in the order given. */
  lemma VideoTableOrder(videoFiles: seq<string>, videoSeconds: string -> nat, subtitles: seq<(string, nat)>)
    requires NoDuplicates(videoFiles)
    ensures VideoTable(videoFiles, videoSeconds, subtitles).keys == videoFiles
  {
    FromKeysOrder(videoFiles, Records(videoSeconds, subtitles));
  }

  /** The last qualifying subtitle wins even when an earlier one is closer:
      a 100 s video against subtitles of 100.5 s and 101.9 s gets the second. */
  lemma LastQualifyingWinsOverClosest()
    ensures RecordFor(100, [("a.srt", 100_500), ("b.srt", 101_900)])
         == VideoRecord(100, Some("b.srt"), Some(101_900))
  {
    var subtitles := [("a.srt", 100_500), ("b.srt", 101_900)];
    assert LastMatch(100, subtitles) == Some(1);
    BasenameOfJoin("", "b.srt");
  }
}
