/** The revised second practice: `/convert/` writes every output under
    `/app`, named after the uploaded file's stem, and `/encoding-ladder/`
    produces one rescaled MP4 per resolution/bitrate pair. */
module Practice2Chat {
  import opened Common
  import opened Text
  import opened Paths
  import opened Codecs

  /** The directory every output file is written to. */
  const OutputDirectory: string := "/app"

  /** One call of `Translator.convert_video`: the output path, the encoder
      library passed as `vcodec` and the container passed as `format`
      (the audio is always re-encoded to stereo Opus). */
  datatype Conversion = Conversion(output: string, library: string, container: string)

  /** `os.path.join("/app", stem + suffix)`, the stem being the uploaded
      file name less its extension. */
  function OutputPath(filename: string, codec: string): string
    requires IsSupported(codec)
  {
    PathJoin(OutputDirectory, SplitExt(filename).0 + Suffix(codec))
  }

  /** Every output path ends in its codec's suffix; a relative upload name
      puts it directly under `/app`. */
  lemma OutputPathShape(filename: string, codec: string)
    requires IsSupported(codec)
    ensures var r := OutputPath(filename, codec);
            |r| >= |Suffix(codec)| && r[|r| - |Suffix(codec)|..] == Suffix(codec)
    ensures filename == [] || filename[0] != '/' ==>
              OutputPath(filename, codec) == OutputDirectory + "/" + SplitExt(filename).0 + Suffix(codec)
  {
    StemRelative(filename);
    NameShape(SplitExt(filename).0, Suffix(codec));
  }

  /** Joining `/app` with the upload's stem followed by a dot-led `tail`:
      the result ends in `tail`, and for a relative upload name it is
      `/app/` followed by the name. */
  lemma NameShape(stem: string, tail: string)
    requires tail != [] && tail[0] == '.'
    ensures var r := PathJoin(OutputDirectory, stem + tail);
            |r| >= |tail| && r[|r| - |tail|..] == tail
    ensures stem == [] || stem[0] != '/' ==>
              PathJoin(OutputDirectory, stem + tail) == OutputDirectory + "/" + stem + tail
  {
    var name := stem + tail;
    var r := PathJoin(OutputDirectory, name);
    assert r[|r| - |name|..] == name;
    assert name[|name| - |tail|..] == tail;
    assert r[|r| - |tail|..] == r[|r| - |name|..][|name| - |tail|..];
    if stem == [] || stem[0] != '/' {
      assert name[0] != '/';
      assert OutputDirectory[|OutputDirectory| - 1] == 'p';
      assert r == OutputDirectory + "/" + name;
      assert OutputDirectory + "/" + name == OutputDirectory + "/" + stem + tail;
    }
  }

  /** The stem of a relative upload name is relative too: it is a prefix of
      the name. */
  lemma StemRelative(filename: string)
    ensures filename == [] || filename[0] != '/' ==> SplitExt(filename).0 == [] || SplitExt(filename).0[0] != '/'
  {
    var parts := SplitExt(filename);
    if parts.0 != [] {
      assert filename == parts.0 + parts.1;
      assert filename[0] == parts.0[0];
    }
  }

  function ConversionFor(filename: string, codec: string): Conversion
    requires IsSupported(codec)
  {
    Conversion(OutputPath(filename, codec), EncoderOf(codec).library, EncoderOf(codec).container)
  }

  /** The conversions run for the requested codecs, in request order. */
  function Conversions(filename: string, codecs: seq<string>): (r: seq<Conversion>)
    requires forall k :: 0 <= k < |codecs| ==> IsSupported(codecs[k])
    ensures |r| == |codecs|
  {
    if codecs == [] then []
    else Conversions(filename, codecs[..|codecs| - 1]) + [ConversionFor(filename, codecs[|codecs| - 1])]
  }

  /** The `k`-th conversion is the one for the `k`-th requested codec. */
  lemma {:induction false} ConversionsAt(filename: string, codecs: seq<string>)
    requires forall k :: 0 <= k < |codecs| ==> IsSupported(codecs[k])
    ensures forall k :: 0 <= k < |codecs| ==> Conversions(filename, codecs)[k] == ConversionFor(filename, codecs[k])
  {
    if codecs != [] {
      ConversionsAt(filename, codecs[..|codecs| - 1]);
    }
  }

  /** Joining a directory in front of a name that ends in a codec's suffix
      keeps the suffix's extension. */
  lemma JoinedSuffixExtension(dir: string, stem: string, codec: string)
    requires IsSupported(codec)
    ensures SplitExt(PathJoin(dir, stem + Suffix(codec))).1 == "." + EncoderOf(codec).container
  {
    var name := stem + Suffix(codec);
    var path := PathJoin(dir, name);
    var front := path[..|path| - |name|];
    assert path == front + name;
    assert front + name == (front + stem) + Suffix(codec);
    SuffixExtension(front + stem, codec);
  }

  /** The output file's extension names its container, whatever the
      uploaded file was called. */
  lemma OutputExtension(filename: string, codec: string)
    requires IsSupported(codec)
    ensures SplitExt(OutputPath(filename, codec)).1 == "." + EncoderOf(codec).container
  {
    JoinedSuffixExtension(OutputDirectory, SplitExt(filename).0, codec);
  }

  /** Two spellings of one codec (`VP8`, `vp8`) name the same output file,
      so the second conversion overwrites the first. */
  lemma SameCodecSameOutput(filename: string, a: string, b: string)
    requires IsSupported(a) && Lower(a) == Lower(b)
    ensures IsSupported(b) && OutputPath(filename, a) == OutputPath(filename, b)
  {
  }

  /** `d` reports every codec of `codecs`, as spelt, with its output path,
      and nothing else. */
  ghost predicate ReportsOutputs(d: map<string, string>, filename: string, codecs: seq<string>)
    requires forall k :: 0 <= k < |codecs| ==> IsSupported(codecs[k])
  {
    && d.Keys == (set c | c in codecs)
    && forall c :: c in d ==> d[c] == OutputPath(filename, c)
  }

  lemma ReportsOutputsSnoc(d: map<string, string>, filename: string, codecs: seq<string>, codec: string)
    requires forall k :: 0 <= k < |codecs| ==> IsSupported(codecs[k])
    requires ReportsOutputs(d, filename, codecs) && IsSupported(codec)
    ensures ReportsOutputs(d[codec := OutputPath(filename, codec)], filename, codecs + [codec])
  {
  }

  /** `convert(codecs, file)` with `file.filename == filename`: rejects a
      request naming any unsupported codec and runs no conversion; otherwise
      runs one conversion per requested codec, in order, and reports each
      requested name (as spelt) with its output path. */
  method Convert(codecs: seq<string>, filename: string) returns (r: Result<map<string, string>>, jobs: seq<Conversion>)
    ensures r.Err? <==> InvalidCodecs(codecs) != []
    ensures r.Err? ==> r.failure == Http(400, UnsupportedDetail(InvalidCodecs(codecs))) && jobs == []
    ensures r.Ok? ==> forall k :: 0 <= k < |codecs| ==> IsSupported(codecs[k])
    ensures r.Ok? ==> |jobs| == |codecs| && forall k :: 0 <= k < |codecs| ==> jobs[k] == ConversionFor(filename, codecs[k])
    ensures r.Ok? ==> ReportsOutputs(r.value, filename, codecs)
  {
    var invalid := InvalidCodecs(codecs);
    if invalid != [] {
      return Err(Http(400, UnsupportedDetail(invalid))), [];
    }
    var outputFiles: map<string, string> := map[];
    jobs := [];
    for k := 0 to |codecs|
      invariant |jobs| == k
      invariant jobs == Conversions(filename, codecs[..k])
      invariant ReportsOutputs(outputFiles, filename, codecs[..k])
    {
      var codec := codecs[k];
      assert codec in codecs;
      var encoder := EncoderOf(codec);
      var outputPath := OutputPath(filename, codec);
      jobs := jobs + [Conversion(outputPath, encoder.library, encoder.container)];
      ReportsOutputsSnoc(outputFiles, filename, codecs[..k], codec);
      outputFiles := outputFiles[codec := outputPath];
      PrefixSnoc(codecs, k);
    }
    assert codecs[..|codecs|] == codecs;
    ConversionsAt(filename, codecs);
    r := Ok(outputFiles);
  }

  /** One rung of the ladder: the output path, the width and height handed
      to the `scale` filter, and the video bitrate. */
  datatype Rung = Rung(output: string, width: string, height: string, bitrate: int)

  /** `os.path.join("/app", f"{stem}.{resolution}.mp4")`. */
  function LadderPath(filename: string, resolution: string): string
  {
    PathJoin(OutputDirectory, SplitExt(filename).0 + ("." + resolution + ".mp4"))
  }

  /** Every ladder path ends in `.{resolution}.mp4`; a relative upload name
      puts it directly under `/app`. */
  lemma LadderPathShape(filename: string, resolution: string)
    ensures var r := LadderPath(filename, resolution);
            |r| >= |resolution| + 5 && r[|r| - |resolution| - 5..] == "." + resolution + ".mp4"
    ensures filename == [] || filename[0] != '/' ==>
              LadderPath(filename, resolution) == OutputDirectory + "/" + SplitExt(filename).0 + "." + resolution + ".mp4"
  {
    LadderPathEnds(filename, resolution);
    if filename == [] || filename[0] != '/' {
      LadderPathRelative(filename, resolution);
    }
  }

  /** The ladder path ends in `.{resolution}.mp4`. */
  lemma LadderPathEnds(filename: string, resolution: string)
    ensures var r := LadderPath(filename, resolution);
            |r| >= |resolution| + 5 && r[|r| - |resolution| - 5..] == "." + resolution + ".mp4"
  {
    NameShape(SplitExt(filename).0, "." + resolution + ".mp4");
  }

  /** A relative upload name puts the ladder output directly under `/app`. */
  lemma LadderPathRelative(filename: string, resolution: string)
    requires filename == [] || filename[0] != '/'
    ensures LadderPath(filename, resolution) == OutputDirectory + "/" + SplitExt(filename).0 + "." + resolution + ".mp4"
  {
    var stem := SplitExt(filename).0;
    var tail := "." + resolution + ".mp4";
    StemRelative(filename);
    NameShape(stem, tail);
    assert OutputDirectory + "/" + stem + "." + resolution + ".mp4" == OutputDirectory + "/" + stem + tail;
  }


  /** The rung for one resolution that holds an `x`: width
      `resolution.split('x')[0]`, height `resolution.split('x')[1]`. */
  function RungFor(filename: string, resolution: string, bitrate: int): (g: Rung)
    requires 'x' in resolution
    ensures 'x' !in g.width && 'x' !in g.height
    ensures g.output == LadderPath(filename, resolution) && g.bitrate == bitrate
  {
    var parts := Split(resolution, 'x');
    Rung(LadderPath(filename, resolution), parts[0], parts[1], bitrate)
  }

  /** A rung's width and height are the text before the resolution's first
      `x` and the text from there up to the next `x` (or the end). */
  lemma RungDimensions(filename: string, resolution: string, bitrate: int)
    requires 'x' in resolution
    ensures var g := RungFor(filename, resolution, bitrate);
            && 'x' !in g.width && 'x' !in g.height
            && |g.width| + 1 + |g.height| <= |resolution|
            && resolution[..|g.width| + 1 + |g.height|] == g.width + "x" + g.height
            && (|g.width| + 1 + |g.height| == |resolution| || resolution[|g.width| + 1 + |g.height|] == 'x')
  {
    var parts := Split(resolution, 'x');
    SplitJoin(resolution, 'x');
    var tail := if |parts| == 2 then "" else "x" + Join(parts[2..], "x");
    assert Join(parts, "x") == parts[0] + "x" + Join(parts[1..], "x");
    assert Join(parts[1..], "x") == parts[1] + tail by {
      if |parts| > 2 {
        assert parts[1..][1..] == parts[2..];
      }
    }
    assert resolution == (parts[0] + "x" + parts[1]) + tail;
  }

  /** `d` reports every resolution of `resolutions` with its output path,
      and nothing else. */
  ghost predicate ReportsLadder(d: map<string, string>, filename: string, resolutions: seq<string>)
  {
    && d.Keys == (set s | s in resolutions)
    && forall s :: s in d ==> d[s] == LadderPath(filename, s)
  }

  lemma ReportsLadderSnoc(d: map<string, string>, filename: string, resolutions: seq<string>, resolution: string)
    requires ReportsLadder(d, filename, resolutions)
    ensures ReportsLadder(d[resolution := LadderPath(filename, resolution)], filename, resolutions + [resolution])
  {
  }

  /** The message Python gives an IndexError on a list. */
  const IndexErrorMessage: string := "list index out of range"

  /** `encoding_ladder(file, resolutions, bitrates)` with
      `file.filename == filename`. Mismatched lists are rejected with 400
      before anything runs. Otherwise the pairs are processed in order; a
      resolution without an `x` makes `split('x')[1]` raise IndexError, which
      the handler turns into a 500 after the rungs before it have run. */
  method EncodingLadder(filename: string, resolutions: seq<string>, bitrates: seq<int>)
    returns (r: Result<map<string, string>>, rungs: seq<Rung>)
    ensures |resolutions| != |bitrates| ==> r == Err(Http(400, "Resolutions and bitrates must match.")) && rungs == []
    ensures r.Ok? <==> |resolutions| == |bitrates| && forall k :: 0 <= k < |resolutions| ==> 'x' in resolutions[k]
    ensures |resolutions| == |bitrates| ==>
              && |rungs| <= |resolutions|
              && forall k :: 0 <= k < |rungs| ==> 'x' in resolutions[k] && rungs[k] == RungFor(filename, resolutions[k], bitrates[k])
    ensures |resolutions| == |bitrates| && r.Err? ==>
              && |rungs| < |resolutions| && 'x' !in resolutions[|rungs|]
              && r.failure == Http(500, "Error generating encoding ladder: " + IndexErrorMessage)
    ensures r.Ok? ==> |rungs| == |resolutions|
    ensures r.Ok? ==> ReportsLadder(r.value, filename, resolutions)
  {
    if |resolutions| != |bitrates| {
      return Err(Http(400, "Resolutions and bitrates must match.")), [];
    }
    var outputFiles: map<string, string> := map[];
    rungs := [];
    for k := 0 to |resolutions|
      invariant |rungs| == k
      invariant forall q :: 0 <= q < k ==> 'x' in resolutions[q] && rungs[q] == RungFor(filename, resolutions[q], bitrates[q])
      invariant ReportsLadder(outputFiles, filename, resolutions[..k])
    {
      var resolution, bitrate := resolutions[k], bitrates[k];
      var outputPath := LadderPath(filename, resolution);
      var width := PyIndex(Split(resolution, 'x'), 0);
      var height := PyIndex(Split(resolution, 'x'), 1);
      if height.None? {
        return Err(Http(500, "Error generating encoding ladder: " + IndexErrorMessage)), rungs;
      }
      rungs := rungs + [Rung(outputPath, width.value, height.value, bitrate)];
      ReportsLadderSnoc(outputFiles, filename, resolutions[..k], resolution);
      outputFiles := outputFiles[resolution := outputPath];
      PrefixSnoc(resolutions, k);
    }
    assert resolutions[..|resolutions|] == resolutions;
    r := Ok(outputFiles);
  }
}
