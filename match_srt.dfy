/** `matching`: scan the video directory and the subtitle directory, read
    every subtitle track's duration, match every video against every
    subtitle, and build one report row per video. */
module MatchSrt {
  import opened Wrappers
  import opened Strings
  import opened OrderedDicts
  import opened Paths
  import opened SubtitleTime
  import opened Formatting
  import opened Scanner
  import opened Matcher
  import opened Report

  const VIDEO_EXTENSIONS: seq<string> := [".mp4"]
  const SUBTITLES_EXTENSIONS: seq<string> := [".srt"]

  /** A failure that ends the whole run: the track of this subtitle file has
      no duration. */
  datatype RunError = SubtitleError(path: string, reason: TrackError)

  /** Each file's track duration: parse the file, then take the end of its
      last cue. */
  function Durations(parse: string -> seq<Entry>): (duration: string -> Result<nat, TrackError>)
  {
    path => SubtitlesDuration(parse(path))
  }

  /** The `subtitles` dictionary: each subtitle path with its track's
      duration, or the failure of the first track without one. */
  function SubtitleTable(files: seq<string>, duration: string -> Result<nat, TrackError>): (r: Result<Dict<string, nat>, RunError>)
    ensures r.Success? ==> r.value.Valid()
  {
    if |files| == 0 then Success(Empty())
    else
      match SubtitleTable(files[..|files| - 1], duration)
      case Failure(e) => Failure(e)
      case Success(table) =>
        var f := files[|files| - 1];
        match duration(f)
        case Failure(reason) => Failure(SubtitleError(f, reason))
        case Success(ms) => Success(table.Put(f, ms))
  }

  /** Once a prefix of the files has failed, the whole table fails the same way. */
  lemma {:induction false} FailureStops(files: seq<string>, duration: string -> Result<nat, TrackError>, i: nat)
    requires i <= |files| && SubtitleTable(files[..i], duration).Failure?
    ensures SubtitleTable(files, duration) == SubtitleTable(files[..i], duration)
    decreases |files| - i
  {
    if i < |files| {
      assert files[..i + 1][..i] == files[..i];
      FailureStops(files, duration, i + 1);
    } else {
      assert files[..i] == files;
    }
  }

  /** One step of the table: the last file is read only when the earlier
      files all succeeded. */
  lemma TableStep(files: seq<string>, duration: string -> Result<nat, TrackError>)
    requires |files| > 0
    ensures var init := SubtitleTable(files[..|files| - 1], duration);
      var f := files[|files| - 1];
      var d := duration(f);
      SubtitleTable(files, duration) ==
        if init.Failure? then Failure(init.error)
        else if d.Failure? then Failure(SubtitleError(f, d.error))
        else Success(init.value.Put(f, d.value))
  {
  }

  /** The table succeeds exactly when every track has a duration. */
  lemma {:induction false} SubtitleTableSucceeds(files: seq<string>, duration: string -> Result<nat, TrackError>)
    ensures SubtitleTable(files, duration).Success?
        <==> forall i :: 0 <= i < |files| ==> duration(files[i]).Success?
  {
    if |files| > 0 {
      var init := files[..|files| - 1];
      SubtitleTableSucceeds(init, duration);
      TableStep(files, duration);
      assert forall i :: 0 <= i < |init| ==> files[i] == init[i];
    }
  }

  /** A table that succeeds holds each file with its own track's duration. */
  lemma {:induction false} SubtitleTableContents(files: seq<string>, duration: string -> Result<nat, TrackError>)
    requires SubtitleTable(files, duration).Success?
    ensures forall f :: f in SubtitleTable(files, duration).value.values <==> f in files
    ensures forall f :: f in files ==> Success(SubtitleTable(files, duration).value.values[f]) == duration(f)
  {
    if |files| > 0 {
      var init := files[..|files| - 1];
      var last := files[|files| - 1];
      TableStep(files, duration);
      SubtitleTableContents(init, duration);
      var before := SubtitleTable(init, duration).value.values;
      var after := SubtitleTable(files, duration).value.values;
      assert after == before[last := duration(last).value];
      SplitLast(files);
      forall f
        ensures f in after <==> f in files
        ensures f in files ==> Success(after[f]) == duration(f)
      {
        assert f in files <==> f in init || f == last;
      }
    }
  }

  /** A failed table names the first file whose track has no duration, with
      the reason. */
  lemma {:induction false} SubtitleTableFailure(files: seq<string>, duration: string -> Result<nat, TrackError>)
    requires SubtitleTable(files, duration).Failure?
    ensures exists i ::
      && 0 <= i < |files|
      && duration(files[i]).Failure?
      && SubtitleTable(files, duration).error == SubtitleError(files[i], duration(files[i]).error)
      && forall j :: 0 <= j < i ==> duration(files[j]).Success?
  {
    var init := files[..|files| - 1];
    TableStep(files, duration);
    if SubtitleTable(init, duration).Failure? {
      SubtitleTableFailure(init, duration);
      var i :| 0 <= i < |init| && duration(init[i]).Failure?
        && SubtitleTable(init, duration).error == SubtitleError(init[i], duration(init[i]).error)
        && forall j :: 0 <= j < i ==> duration(init[j]).Success?;
      assert forall j :: 0 <= j <= i ==> files[j] == init[j];
      assert SubtitleTable(files, duration).error == SubtitleError(files[i], duration(files[i]).error);
    } else {
      SubtitleTableSucceeds(init, duration);
      var i := |files| - 1;
      assert forall j :: 0 <= j < i ==> files[j] == init[j];
      assert SubtitleTable(files, duration).error == SubtitleError(files[i], duration(files[i]).error);
    }
  }

  /** With distinct paths the table lists them in the order they were read. */
  lemma {:induction false} SubtitleTableOrder(files: seq<string>, duration: string -> Result<nat, TrackError>)
    requires NoDuplicates(files) && SubtitleTable(files, duration).Success?
    ensures SubtitleTable(files, duration).value.keys == files
  {
    if |files| > 0 {
      var init := files[..|files| - 1];
      var last := files[|files| - 1];
      TableStep(files, duration);
      NoDuplicatesInit(files);
      SubtitleTableOrder(init, duration);
      PutNew(SubtitleTable(init, duration).value, last, duration(last).value);
      SplitLast(files);
    }
  }

  /** The loop that parses every subtitle file and stores its duration; the
      first track without a duration aborts it. */
  method LoadSubtitles(files: seq<string>, parse: string -> seq<Entry>) returns (r: Result<Dict<string, nat>, RunError>)
    ensures r == SubtitleTable(files, Durations(parse))
  {
    var subtitles := Empty();
    for i := 0 to |files|
      invariant SubtitleTable(files[..i], Durations(parse)) == Success(subtitles)
    {
      var subtitleFile := files[i];
      var subs := parse(subtitleFile);
      var duration := SubtitlesDuration(subs);
      assert files[..i + 1][..i] == files[..i];
      if duration.Failure? {
        FailureStops(files, Durations(parse), i + 1);
        return Failure(SubtitleError(subtitleFile, duration.error));
      }
      subtitles := subtitles.Put(subtitleFile, duration.value);
    }
    assert files[..|files|] == files;
    return Success(subtitles);
  }

  /** The whole run as one value: the report rows, or the failure that ends it.
      Subtitle paths are joined onto the video directory, and `duration`
      gives the track duration of the file at a path (`Durations(parse)` in
      the program; the properties below hold for any such function). */
  function Run(videoPath: string, videoListing: seq<string>, subtitleListing: seq<string>,
               videoSeconds: string -> nat, duration: string -> Result<nat, TrackError>): (r: Result<seq<Row>, RunError>)
  {
    var videoFiles := Joined(videoPath, Kept(videoListing, VIDEO_EXTENSIONS));
    var subtitleFiles := Joined(videoPath, Kept(subtitleListing, SUBTITLES_EXTENSIONS));
    match SubtitleTable(subtitleFiles, duration)
    case Failure(e) => Failure(e)
    case Success(subtitles) => Success(Rows(VideoTable(videoFiles, videoSeconds, subtitles.Items())))
  }

  /** `matching`, with the two directory listings, the video durations and
      the subtitle parser given as inputs. */
  method Matching(videoPath: string, videoListing: seq<string>, subtitleListing: seq<string>,
                  videoSeconds: string -> nat, parse: string -> seq<Entry>)
    returns (r: Result<seq<Row>, RunError>)
    ensures r == Run(videoPath, videoListing, subtitleListing, videoSeconds, Durations(parse))
  {
    var videoFiles := Scan(videoPath, videoListing, VIDEO_EXTENSIONS);
    var subtitleFiles := Scan(videoPath, subtitleListing, SUBTITLES_EXTENSIONS);
    var subtitles := LoadSubtitles(subtitleFiles, parse);
    if subtitles.Failure? {
      return Failure(subtitles.error);
    }
    var videos := MatchVideos(videoFiles, videoSeconds, subtitles.value);
    var rows := BuildRows(videos);
    return Success(rows);
  }

  /** Every kept name is an entry name without a `/` and has a non-empty
      extension, so it is not empty. */
  lemma KeptEntryNames(listing: seq<string>, allowed: seq<string>)
    requires forall n :: n in listing ==> '/' !in n
    requires "" !in allowed
    ensures forall k :: 0 <= k < |Kept(listing, allowed)| ==> '/' !in Kept(listing, allowed)[k] && Kept(listing, allowed)[k] != ""
  {
    var kept := Kept(listing, allowed);
    forall k | 0 <= k < |kept|
      ensures '/' !in kept[k] && kept[k] != ""
    {
      KeptExactly(listing, allowed, kept[k]);
      assert Splitext(kept[k]).0 + Splitext(kept[k]).1 == kept[k];
    }
  }

  /** A successfully loaded subtitle dictionary walks the kept subtitle names
      in listing order, each stored under its joined path with its own
      track's duration. */
  lemma LoadedInListingOrder(videoPath: string, subtitleListing: seq<string>, duration: string -> Result<nat, TrackError>,
                             table: Dict<string, nat>)
    requires NoDuplicates(subtitleListing) && forall n :: n in subtitleListing ==> '/' !in n
    requires SubtitleTable(Joined(videoPath, Kept(subtitleListing, SUBTITLES_EXTENSIONS)), duration) == Success(table)
    ensures table.Valid()
    ensures var names := Kept(subtitleListing, SUBTITLES_EXTENSIONS);
      && |table.Items()| == |names|
      && forall j :: 0 <= j < |names| ==>
           && Basename(table.Items()[j].0) == names[j]
           && duration(Join(videoPath, names[j])) == Success(table.Items()[j].1)
  {
    var names := Kept(subtitleListing, SUBTITLES_EXTENSIONS);
    var files := Joined(videoPath, names);
    KeptEntryNames(subtitleListing, SUBTITLES_EXTENSIONS);
    assert table.keys == files by {
      KeptNoDuplicates(subtitleListing, SUBTITLES_EXTENSIONS);
      JoinedNoDuplicates(videoPath, names);
      SubtitleTableOrder(files, duration);
    }
    SubtitleTableContents(files, duration);
    forall j | 0 <= j < |names|
      ensures Basename(table.Items()[j].0) == names[j]
      ensures duration(Join(videoPath, names[j])) == Success(table.Items()[j].1)
    {
      var f := files[j];
      assert table.Items()[j] == (f, table.values[f]);
      assert f in files;
      BasenameOfJoin(videoPath, names[j]);
    }
  }

  /** The i-th row of the report names the i-th kept video, shows its
      duration, and shows either both subtitle cells or neither. */
  lemma ReportRow(videoPath: string, videoListing: seq<string>, subtitleListing: seq<string>,
                  videoSeconds: string -> nat, duration: string -> Result<nat, TrackError>, rows: seq<Row>, i: nat)
    requires NoDuplicates(videoListing) && forall n :: n in videoListing ==> '/' !in n
    requires NoDuplicates(subtitleListing) && forall n :: n in subtitleListing ==> '/' !in n
    requires Run(videoPath, videoListing, subtitleListing, videoSeconds, duration) == Success(rows)
    requires i < |Kept(videoListing, VIDEO_EXTENSIONS)|
    ensures |rows| == |Kept(videoListing, VIDEO_EXTENSIONS)|
    ensures rows[i].video == Kept(videoListing, VIDEO_EXTENSIONS)[i]
    ensures ParseSeconds(rows[i].videoDuration)
         == Some(videoSeconds(Join(videoPath, Kept(videoListing, VIDEO_EXTENSIONS)[i])) * 1000)
    ensures rows[i].subtitle == "" <==> rows[i].subtitlesDuration == "-"
  {
    var subs := Kept(subtitleListing, SUBTITLES_EXTENSIONS);
    var table := SubtitleTable(Joined(videoPath, subs), duration).value;
    var items := table.Items();
    assert forall j :: 0 <= j < |items| ==> Basename(items[j].0) != "" by {
      KeptEntryNames(subtitleListing, SUBTITLES_EXTENSIONS);
      LoadedInListingOrder(videoPath, subtitleListing, duration, table);
    }
    var f := Join(videoPath, Kept(videoListing, VIDEO_EXTENSIONS)[i]);
    var rec := RowRecord(videoPath, videoListing, videoSeconds, items, rows, i);
    RowMeaning(f, rec);
  }

  /** The i-th kept video shows a subtitle exactly when some kept subtitle is
      within the tolerance of it. The one shown is the last such subtitle in
      listing order, and the name and duration shown come from the same file. */
  lemma ReportMatch(videoPath: string, videoListing: seq<string>, subtitleListing: seq<string>,
                    videoSeconds: string -> nat, duration: string -> Result<nat, TrackError>, rows: seq<Row>, i: nat)
    requires NoDuplicates(videoListing) && forall n :: n in videoListing ==> '/' !in n
    requires NoDuplicates(subtitleListing) && forall n :: n in subtitleListing ==> '/' !in n
    requires Run(videoPath, videoListing, subtitleListing, videoSeconds, duration) == Success(rows)
    requires i < |Kept(videoListing, VIDEO_EXTENSIONS)|
    ensures var subs := Kept(subtitleListing, SUBTITLES_EXTENSIONS);
      forall j :: 0 <= j < |subs| ==> duration(Join(videoPath, subs[j])).Success?
    ensures i < |rows|
    ensures var subs := Kept(subtitleListing, SUBTITLES_EXTENSIONS);
      var v := videoSeconds(Join(videoPath, Kept(videoListing, VIDEO_EXTENSIONS)[i]));
      rows[i].subtitle == "" <==>
        forall j :: 0 <= j < |subs| ==> !WithinTolerance(v, duration(Join(videoPath, subs[j])).value)
    ensures var subs := Kept(subtitleListing, SUBTITLES_EXTENSIONS);
      var v := videoSeconds(Join(videoPath, Kept(videoListing, VIDEO_EXTENSIONS)[i]));
      rows[i].subtitle != "" ==> exists k ::
        && 0 <= k < |subs|
        && rows[i].subtitle == subs[k]
        && WithinTolerance(v, duration(Join(videoPath, subs[k])).value)
        && ParseSeconds(rows[i].subtitlesDuration) == Some(duration(Join(videoPath, subs[k])).value)
        && forall j :: k < j < |subs| ==> !WithinTolerance(v, duration(Join(videoPath, subs[j])).value)
  {
    var subs := Kept(subtitleListing, SUBTITLES_EXTENSIONS);
    var table := SubtitleTable(Joined(videoPath, subs), duration).value;
    var items := table.Items();
    LoadedInListingOrder(videoPath, subtitleListing, duration, table);
    KeptEntryNames(subtitleListing, SUBTITLES_EXTENSIONS);
    var f := Join(videoPath, Kept(videoListing, VIDEO_EXTENSIONS)[i]);
    var rec := RowRecord(videoPath, videoListing, videoSeconds, items, rows, i);
    RecordUnmatchedOverNames(n => duration(Join(videoPath, n)), subs, items, videoSeconds(f));
    if rec.srt.Some? {
      RecordMatchedOverNames(n => duration(Join(videoPath, n)), subs, items, videoSeconds(f));
    }
    RowMeaning(f, rec);
  }

  /** The record of a video restated over the kept subtitle names, for a
      subtitle dictionary that walks them in listing order: unmatched exactly
      when no named track is within the tolerance. */
  lemma RecordUnmatchedOverNames(track: string -> Result<nat, TrackError>, subs: seq<string>,
                                 items: seq<(string, nat)>, v: nat)
    requires |items| == |subs|
    requires forall j :: 0 <= j < |subs| ==> track(subs[j]) == Success(items[j].1)
    ensures RecordFor(v, items).srt.None? <==>
      forall j :: 0 <= j < |subs| ==> !WithinTolerance(v, track(subs[j]).value)
  {
    var rec := RecordFor(v, items);
    assert forall j :: 0 <= j < |subs| ==> track(subs[j]).value == items[j].1;
  }

  /** When matched, the record holds the last named track within the
      tolerance: its name and its duration. */
  lemma RecordMatchedOverNames(track: string -> Result<nat, TrackError>, subs: seq<string>,
                               items: seq<(string, nat)>, v: nat)
    requires |items| == |subs|
    requires forall j :: 0 <= j < |subs| ==>
      Basename(items[j].0) == subs[j] && track(subs[j]) == Success(items[j].1)
    requires RecordFor(v, items).srt.Some?
    ensures exists k ::
      && 0 <= k < |subs|
      && RecordFor(v, items).srt == Some(subs[k])
      && RecordFor(v, items).subtitlesMillis == Some(track(subs[k]).value)
      && WithinTolerance(v, track(subs[k]).value)
      && forall j :: k < j < |subs| ==> !WithinTolerance(v, track(subs[j]).value)
  {
    var k := LastMatch(v, items).value;
    assert forall j :: k < j < |subs| ==> track(subs[j]).value == items[j].1;
    assert RecordFor(v, items).srt == Some(subs[k]);
  }

  /** The i-th row of a report built from distinct video names is the row of
      the i-th kept video with the record the matching pass gives it. */
  lemma RowRecord(videoPath: string, videoListing: seq<string>, videoSeconds: string -> nat,
                  items: seq<(string, nat)>, rows: seq<Row>, i: nat) returns (rec: VideoRecord)
    requires NoDuplicates(videoListing) && forall n :: n in videoListing ==> '/' !in n
    requires rows == Rows(VideoTable(Joined(videoPath, Kept(videoListing, VIDEO_EXTENSIONS)), videoSeconds, items))
    requires i < |Kept(videoListing, VIDEO_EXTENSIONS)|
    ensures |rows| == |Kept(videoListing, VIDEO_EXTENSIONS)|
    ensures rec == RecordFor(videoSeconds(Join(videoPath, Kept(videoListing, VIDEO_EXTENSIONS)[i])), items)
    ensures rows[i] == RowOf(Join(videoPath, Kept(videoListing, VIDEO_EXTENSIONS)[i]), rec)
    ensures Basename(Join(videoPath, Kept(videoListing, VIDEO_EXTENSIONS)[i])) == Kept(videoListing, VIDEO_EXTENSIONS)[i]
  {
    var names := Kept(videoListing, VIDEO_EXTENSIONS);
    var videoFiles := Joined(videoPath, names);
    KeptNoDuplicates(videoListing, VIDEO_EXTENSIONS);
    KeptEntryNames(videoListing, VIDEO_EXTENSIONS);
    JoinedNoDuplicates(videoPath, names);
    VideoTableOrder(videoFiles, videoSeconds, items);
    VideoTableEntries(videoFiles, videoSeconds, items);
    var f := videoFiles[i];
    assert f in videoFiles;
    rec := RecordFor(videoSeconds(f), items);
    BasenameOfJoin(videoPath, names[i]);
  }

  /** A name with a stem is kept as a video exactly when what follows its
      last `.` is `mp4` in lower case, so `clip.MP4` is dropped. */
  lemma VideoExtensionExact(stem: string, suffix: string)
    requires '/' !in stem && '/' !in suffix && '.' !in suffix
    requires exists k :: 0 <= k < |stem| && stem[k] != '.'
    ensures Extension(stem + "." + suffix) in VIDEO_EXTENSIONS <==> suffix == "mp4"
  {
    ExtensionOfStem(stem, suffix);
    if "." + suffix == ".mp4" {
      assert suffix == ("." + suffix)[1..];
    }
  }

  /** The hidden file `.mp4` has no extension and is not kept as a video. */
  lemma HiddenVideoNameDropped(listing: seq<string>)
    ensures ".mp4" !in Kept(listing, VIDEO_EXTENSIONS)
  {
    assert ".mp4" == "." + "mp4";
    HiddenNameHasNoExtension("mp4");
    KeptExactly(listing, VIDEO_EXTENSIONS, ".mp4");
  }

  /** With no subtitle files every video is reported unmatched. */
  lemma NoSubtitlesNoMatches(videoPath: string, videoListing: seq<string>, subtitleListing: seq<string>,
                             videoSeconds: string -> nat, duration: string -> Result<nat, TrackError>)
    requires Kept(subtitleListing, SUBTITLES_EXTENSIONS) == []
    ensures Run(videoPath, videoListing, subtitleListing, videoSeconds, duration).Success?
    ensures var rows := Run(videoPath, videoListing, subtitleListing, videoSeconds, duration).value;
      forall i :: 0 <= i < |rows| ==> rows[i].subtitle == "" && rows[i].subtitlesDuration == "-"
  {
    var videoFiles := Joined(videoPath, Kept(videoListing, VIDEO_EXTENSIONS));
    assert Joined(videoPath, []) == [];
    var table: Dict<string, nat> := Empty();
    assert table.Items() == [];
    VideoTableEntries(videoFiles, videoSeconds, []);
  }

  /** The run fails on the first kept subtitle file, in listing order, whose
      track has no duration: the error names that file's path under the
      video directory and its reason, and no report is produced. */
  lemma RunStopsAtFirstFailure(videoPath: string, videoListing: seq<string>, subtitleListing: seq<string>,
                               videoSeconds: string -> nat, duration: string -> Result<nat, TrackError>, k: nat)
    requires k < |Kept(subtitleListing, SUBTITLES_EXTENSIONS)|
    requires duration(Join(videoPath, Kept(subtitleListing, SUBTITLES_EXTENSIONS)[k])).Failure?
    requires forall j :: 0 <= j < k ==> duration(Join(videoPath, Kept(subtitleListing, SUBTITLES_EXTENSIONS)[j])).Success?
    ensures var path := Join(videoPath, Kept(subtitleListing, SUBTITLES_EXTENSIONS)[k]);
      Run(videoPath, videoListing, subtitleListing, videoSeconds, duration)
        == Failure(SubtitleError(path, duration(path).error))
  {
    var names := Kept(subtitleListing, SUBTITLES_EXTENSIONS);
    var files := Joined(videoPath, names);
    var front := files[..k];
    assert forall j :: 0 <= j < |front| ==> front[j] == Join(videoPath, names[j]);
    SubtitleTableSucceeds(front, duration);
    assert files[..k + 1][..k] == front;
    TableStep(files[..k + 1], duration);
    FailureStops(files, duration, k + 1);
  }

  /** A kept subtitle file with no cues, all earlier kept tracks having a
      duration, ends the run with an empty-track error naming the file's path
      under the video directory (line 38 joins onto `video_path`). */
  lemma EmptyTrackAborts(videoPath: string, videoListing: seq<string>, subtitleListing: seq<string>,
                         videoSeconds: string -> nat, parse: string -> seq<Entry>, k: nat)
    requires k < |Kept(subtitleListing, SUBTITLES_EXTENSIONS)|
    requires parse(Join(videoPath, Kept(subtitleListing, SUBTITLES_EXTENSIONS)[k])) == []
    requires forall j :: 0 <= j < k ==>
      SubtitlesDuration(parse(Join(videoPath, Kept(subtitleListing, SUBTITLES_EXTENSIONS)[j]))).Success?
    ensures Run(videoPath, videoListing, subtitleListing, videoSeconds, Durations(parse))
         == Failure(SubtitleError(Join(videoPath, Kept(subtitleListing, SUBTITLES_EXTENSIONS)[k]), EmptyTrack))
  {
    RunStopsAtFirstFailure(videoPath, videoListing, subtitleListing, videoSeconds, Durations(parse), k);
  }
}
