/** The second seminar's video service: the chroma-subsampling endpoint's
    pixel-format table, the choice of the stream whose metadata is reported,
    the stream mapping handed to the MP4 packager, and the per-type track
    tally. */
module Seminar2 {
  import opened Common
  import opened Text

  /** `subsampling_map[subsampling]`, or the 400 the handler raises for a
      ratio it does not know. The pixel format spells the ratio's three
      digits between `yuv` and `p`. */
  function PixelFormat(subsampling: string): (r: Result<string>)
    ensures r.Ok? <==> subsampling in {"4:4:4", "4:2:2", "4:2:0"}
    ensures r.Ok? ==> r.value == "yuv" + [subsampling[0], subsampling[2], subsampling[4]] + "p"
    ensures r.Err? ==> r.failure == Http(400, "Invalid chroma subsampling: " + subsampling)
  {
    var subsamplingMap := map["4:4:4" := "yuv444p", "4:2:2" := "yuv422p", "4:2:0" := "yuv420p"];
    if subsampling !in subsamplingMap then Err(Http(400, "Invalid chroma subsampling: " + subsampling))
    else Ok(subsamplingMap[subsampling])
  }

  /** Different ratios get different pixel formats. */
  lemma PixelFormatInjective(a: string, b: string)
    requires PixelFormat(a).Ok? && PixelFormat(a) == PixelFormat(b)
    ensures a == b
  {
  }

  /** The transcoder call of `vid_modify_chroma_subsampling`. */
  datatype ChromaJob = ChromaJob(input: string, output: string, pixFmt: string,
                                 vcodec: string, acodec: string, format: string)

  /** `vid_modify_chroma_subsampling(input_path, output_path, subsampling)`:
      an unknown ratio is rejected before the transcoder runs; a known one
      re-encodes to H.264/AAC in MP4 with its pixel format. The handler
      answers with `output_path`, which is the job's output. */
  function ModifyChroma(inputPath: string, outputPath: string, subsampling: string): (r: Result<ChromaJob>)
    ensures r.Ok? <==> PixelFormat(subsampling).Ok?
    ensures r.Err? ==> r.failure == PixelFormat(subsampling).failure
    ensures r.Ok? ==> r.value.input == inputPath && r.value.output == outputPath
    ensures r.Ok? ==> r.value.pixFmt == PixelFormat(subsampling).value
    ensures r.Ok? ==> r.value.vcodec == "libx264" && r.value.acodec == "aac" && r.value.format == "mp4"
  {
    match PixelFormat(subsampling)
    case Err(f) => Err(f)
    case Ok(pixFmt) => Ok(ChromaJob(inputPath, outputPath, pixFmt, "libx264", "aac", "mp4"))
  }

  /** A probed stream; `codecType` is None when the stream has no
      `codec_type` key. */
  datatype Stream = Stream(codecType: Option<string>)

  const NoVideoStream: Failure := Http(500, "Error: No video stream found")
  const MissingCodecType: Failure := Http(500, "Error: 'codec_type'")

  /** The first `k` streams all carry a type, and none of them is video. */
  ghost predicate TypedNonVideo(streams: seq<Stream>, k: int)
    requires 0 <= k <= |streams|
  {
    forall p :: 0 <= p < k ==> streams[p].codecType.Some? && streams[p].codecType.value != "video"
  }

  /** `next((s for s in streams if s['codec_type'] == 'video'), None)` as
      `get_video_info` uses it: the position of the first video stream. The
      generator is lazy, so a stream without `codec_type` raises KeyError
      only when it is reached before any video stream; both that and the
      missing video stream end in a 500 carrying the exception's text. */
  function FirstVideo(streams: seq<Stream>): (r: Result<nat>)
    ensures r.Ok? ==> r.value < |streams| && streams[r.value].codecType == Some("video")
    ensures r.Ok? ==> TypedNonVideo(streams, r.value)
    ensures r == Err(NoVideoStream) <==> TypedNonVideo(streams, |streams|)
    ensures r.Err? ==> r.failure == NoVideoStream || r.failure == MissingCodecType
    ensures r == Err(MissingCodecType) ==>
              exists k :: 0 <= k < |streams| && streams[k].codecType.None? && TypedNonVideo(streams, k)
  {
    if streams == [] then Err(NoVideoStream)
    else match streams[0].codecType
      case None => Err(MissingCodecType)
      case Some(t) =>
        if t == "video" then Ok(0)
        else match FirstVideo(streams[1..])
          case Ok(k) => Ok(k + 1)
          case Err(f) => Err(f)
  }

  /** `get_video_info` reads `probe['streams']` without a default: a probe
      with no `streams` entry raises KeyError, which the handler reports as
      a 500 naming the key; otherwise the first video stream is chosen. */
  function VideoStreamOfProbe(streams: Option<seq<Stream>>): (r: Result<nat>)
    ensures streams.None? ==> r == Err(Http(500, "Error: 'streams'"))
    ensures streams.Some? && r.Ok? ==> r.value < |streams.value| && streams.value[r.value].codecType == Some("video")
    ensures streams.Some? ==> r == FirstVideo(streams.value)
  {
    match streams
    case None => Err(Http(500, "Error: 'streams'"))
    case Some(s) => FirstVideo(s)
  }

  /** One `-map` argument: the video of input 0, the audio of any other. */
  function MapEntry(i: nat): (r: string)
    ensures r == NatToString(i) + (if i == 0 then ":v" else ":a")
  {
    if i == 0 then "0:v" else NatToString(i) + ":a"
  }

  /** The keyword arguments `**{'map': ... for i in range(inputs)}` as
      written: a dictionary comprehension whose key is always `map`, so each
      entry overwrites the one before. */
  function MapKwargs(inputs: nat): (r: map<string, string>)
    ensures r.Keys == if inputs == 0 then {} else {"map"}
  {
    if inputs == 0 then map[] else MapKwargs(inputs - 1)["map" := MapEntry(inputs - 1)]
  }

  /** Only the last input survives in the comprehension. */
  lemma {:induction false} MapKwargsLastOnly(inputs: nat)
    requires inputs >= 1
    ensures MapKwargs(inputs) == map["map" := MapEntry(inputs - 1)]
  {
    if inputs > 1 {
      MapKwargsLastOnly(inputs - 1);
    }
  }

  /** How the packager picks the streams of its inputs: the keyword
      dictionary the source hands to the transcoder, or one `-map` argument
      per input. */
  datatype Selection = Kwargs(kwargs: map<string, string>) | PerInput(maps: seq<string>)

  /** The transcoder call of `package_into_mp4`: every input file, the
      output, the stream selection, and stream copy of the video with AAC
      audio in MP4. */
  datatype PackageJob = PackageJob(inputs: seq<string>, output: string, selection: Selection,
                                   vcodec: string, acodec: string, format: string)

  /** `package_into_mp4(video_path, audio_paths, output_path)` as written:
      the keyword dictionary holds a single `map` entry, the one built for
      the last input. */
  function PackageIntoMp4(videoPath: string, audioPaths: seq<string>, outputPath: string): (job: PackageJob)
    ensures job.inputs == [videoPath] + audioPaths && job.output == outputPath
    ensures job.selection == Kwargs(map["map" := MapEntry(|audioPaths|)])
    ensures job.vcodec == "copy" && job.acodec == "aac" && job.format == "mp4"
  {
    MapKwargsLastOnly(1 + |audioPaths|);
    PackageJob([videoPath] + audioPaths, outputPath, Kwargs(MapKwargs(1 + |audioPaths|)), "copy", "aac", "mp4")
  }

  /** With a video and three audio tracks, the keyword dictionary handed to
      the transcoder is `{'map': '3:a'}`: the selections built for inputs 0
      to 2 are overwritten. */
  lemma PackagingMapsOneTrack()
    ensures PackageIntoMp4("v", ["a1", "a2", "a3"], "o").selection == Kwargs(map["map" := "3:a"])
  {
    assert NatToString(3) == ['3'];
    assert MapEntry(3) == "3:a";
  }

  /** The stream selection the packager evidently intends: one `-map` per
      input, the video of input 0 and the audio of each other input. */
  function MapArguments(inputs: nat): (r: seq<string>)
    ensures |r| == inputs
  {
    seq(inputs, i requires 0 <= i < inputs => MapEntry(i))
  }

  /** Every input is mapped, by exactly one argument: the video of input 0
      and the audio of input `i` for each `i >= 1`. */
  lemma MapArgumentsSelectEach(inputs: nat)
    ensures inputs >= 1 ==> MapArguments(inputs)[0] == "0:v"
    ensures forall i :: 1 <= i < inputs ==> MapArguments(inputs)[i] == NatToString(i) + ":a"
    ensures forall i, j :: 0 <= i < j < inputs ==> MapArguments(inputs)[i] != MapArguments(inputs)[j]
  {
    var r := MapArguments(inputs);
    forall i, j | 0 <= i < j < inputs
      ensures r[i] != r[j]
    {
      if i == 0 {
        assert r[i][|r[i]| - 1] == 'v' && r[j][|r[j]| - 1] == 'a';
      } else {
        var si, sj := NatToString(i), NatToString(j);
        if r[i] == r[j] {
          assert si == r[i][..|si|] && sj == r[j][..|sj|];
          assert |si| == |sj|;
          NatToStringValue(i);
          NatToStringValue(j);
        }
      }
    }
  }

  /** `package_into_mp4` with the stream selection as intended: every
      input is selected once, the video of input 0 and the audio of each
      other input. */
  function PackageIntoMp4Corrected(videoPath: string, audioPaths: seq<string>, outputPath: string): (job: PackageJob)
    ensures job.inputs == [videoPath] + audioPaths && job.output == outputPath
    ensures job.selection.PerInput? && |job.selection.maps| == |job.inputs|
    ensures job.selection.maps[0] == "0:v"
    ensures forall i :: 1 <= i < |job.inputs| ==> job.selection.maps[i] == NatToString(i) + ":a"
    ensures forall i, j :: 0 <= i < j < |job.inputs| ==> job.selection.maps[i] != job.selection.maps[j]
    ensures job.vcodec == "copy" && job.acodec == "aac" && job.format == "mp4"
  {
    MapArgumentsSelectEach(1 + |audioPaths|);
    PackageJob([videoPath] + audioPaths, outputPath, PerInput(MapArguments(1 + |audioPaths|)), "copy", "aac", "mp4")
  }

  /** The five tallies `get_tracks` keeps. */
  const Buckets: set<string> := {"video", "audio", "subtitle", "data", "unknown"}

  /** The tally a stream counts towards: its `codec_type` when that is one of
      the tallies, `unknown` otherwise (including a missing `codec_type`). */
  function Bucket(s: Stream): (b: string)
    ensures b in Buckets
  {
    match s.codecType
    case Some(t) => if t in Buckets then t else "unknown"
    case None => "unknown"
  }

  /** How many of `streams` count towards tally `b`. */
  function CountOf(streams: seq<Stream>, b: string): nat
  {
    if streams == [] then 0
    else CountOf(streams[..|streams| - 1], b) + (if Bucket(streams[|streams| - 1]) == b then 1 else 0)
  }

  /** Every stream is counted exactly once: the five tallies add up to the
      number of streams. */
  lemma {:induction false} TalliesSum(streams: seq<Stream>)
    ensures CountOf(streams, "video") + CountOf(streams, "audio") + CountOf(streams, "subtitle")
          + CountOf(streams, "data") + CountOf(streams, "unknown") == |streams|
  {
    if streams != [] {
      TalliesSum(streams[..|streams| - 1]);
      var b := Bucket(streams[|streams| - 1]);
      assert b == "video" || b == "audio" || b == "subtitle" || b == "data" || b == "unknown";
    }
  }

  /** `counts` holds, for each of the five tallies, how many of `streams`
      count towards it. */
  ghost predicate Tallies(counts: map<string, int>, streams: seq<Stream>)
  {
    && counts.Keys == Buckets
    && forall b :: b in counts ==> counts[b] == CountOf(streams, b)
  }

  /** Counting one more stream adds one to its own tally only. */
  lemma TalliesSnoc(counts: map<string, int>, streams: seq<Stream>, s: Stream)
    requires Tallies(counts, streams)
    ensures Tallies(counts[Bucket(s) := counts[Bucket(s)] + 1], streams + [s])
  {
    assert (streams + [s])[..|streams|] == streams;
  }

  /** `get_tracks`: the per-type tally of the probed streams (a probe
      without a `streams` entry gives the empty list) and their number. */
  method GetTracks(streams: seq<Stream>) returns (trackCounts: map<string, int>, totalTracks: int)
    ensures Tallies(trackCounts, streams)
    ensures totalTracks == |streams|
  {
    trackCounts := map["video" := 0, "audio" := 0, "subtitle" := 0, "data" := 0, "unknown" := 0];
    var k := 0;
    while k < |streams|
      invariant 0 <= k <= |streams|
      invariant Tallies(trackCounts, streams[..k])
    {
      var stream := streams[k];
      var codecType := if stream.codecType.Some? then stream.codecType.value else "unknown";
      TalliesSnoc(trackCounts, streams[..k], stream);
      PrefixSnoc(streams, k);
      if codecType in trackCounts {
        trackCounts := trackCounts[codecType := trackCounts[codecType] + 1];
      } else {
        trackCounts := trackCounts["unknown" := trackCounts["unknown"] + 1];
      }
      k := k + 1;
    }
    assert streams[..k] == streams;
    totalTracks := |streams|;
  }
}
