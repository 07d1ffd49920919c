/** The second practice's `/convert/` handler: it rejects a request naming
    any unsupported codec, and otherwise runs one conversion per requested
    codec into a fresh temporary file whose name ends in the codec's
    suffix. */
module Practice2 {
  import opened Common
  import opened Text
  import opened Codecs

  /** One call of `Translator.convert_video`: the output path, the encoder
      library passed as `vcodec` and the container passed as `format`. */
  datatype Conversion = Conversion(output: string, library: string, container: string)

  /** The conversion for the `k`-th requested codec, whose temporary output
      file gets the name `tempName(k)` followed by the codec's suffix. */
  function ConversionFor(codec: string, k: nat, tempName: nat -> string): Conversion
    requires IsSupported(codec)
  {
    Conversion(tempName(k) + Suffix(codec), EncoderOf(codec).library, EncoderOf(codec).container)
  }

  /** The conversions run for the requested codecs, in request order. */
  function Conversions(codecs: seq<string>, tempName: nat -> string): (r: seq<Conversion>)
    requires forall k :: 0 <= k < |codecs| ==> IsSupported(codecs[k])
    ensures |r| == |codecs|
  {
    if codecs == [] then []
    else Conversions(codecs[..|codecs| - 1], tempName) + [ConversionFor(codecs[|codecs| - 1], |codecs| - 1, tempName)]
  }

  /** The `k`-th conversion is the one for the `k`-th requested codec. */
  lemma {:induction false} ConversionsAt(codecs: seq<string>, tempName: nat -> string)
    requires forall k :: 0 <= k < |codecs| ==> IsSupported(codecs[k])
    ensures forall k :: 0 <= k < |codecs| ==> Conversions(codecs, tempName)[k] == ConversionFor(codecs[k], k, tempName)
  {
    if codecs != [] {
      ConversionsAt(codecs[..|codecs| - 1], tempName);
    }
  }

  /** `convert(codecs, file)`. `tempName(k)` stands for the name
      `tempfile.NamedTemporaryFile` picks, less the suffix, for the `k`-th
      output. A rejected request runs no conversion; an accepted one runs
      one per requested codec, in order, and reports for every requested
      name (as spelt in the request) the output of its last occurrence. */
  method Convert(codecs: seq<string>, tempName: nat -> string) returns (r: Result<map<string, string>>, jobs: seq<Conversion>)
    ensures r.Err? <==> InvalidCodecs(codecs) != []
    ensures r.Err? ==> r.failure == Http(400, UnsupportedDetail(InvalidCodecs(codecs))) && jobs == []
    ensures r.Ok? ==> forall k :: 0 <= k < |codecs| ==> IsSupported(codecs[k])
    ensures r.Ok? ==> |jobs| == |codecs|
    ensures r.Ok? ==> forall k :: 0 <= k < |codecs| ==> jobs[k] == ConversionFor(codecs[k], k, tempName)
    ensures r.Ok? ==> Tabulates(r.value, codecs, seq(|jobs|, k requires 0 <= k < |jobs| => jobs[k].output))
  {
    var invalid := InvalidCodecs(codecs);
    if invalid != [] {
      return Err(Http(400, UnsupportedDetail(invalid))), [];
    }
    var outputFiles: map<string, string> := map[];
    jobs := [];
    ghost var outputs: seq<string> := [];
    for k := 0 to |codecs|
      invariant |jobs| == k
      invariant jobs == Conversions(codecs[..k], tempName)
      invariant |outputs| == k && forall q :: 0 <= q < k ==> outputs[q] == jobs[q].output
      invariant Tabulates(outputFiles, codecs[..k], outputs)
    {
      var codec := codecs[k];
      assert codec in codecs;
      var encoder := EncoderOf(codec);
      var outputPath := tempName(k) + Suffix(codec);
      jobs := jobs + [Conversion(outputPath, encoder.library, encoder.container)];
      PrefixSnoc(codecs, k);
      TabulatesSnoc(outputFiles, codecs[..k], outputs, codec, outputPath);
      outputFiles := outputFiles[codec := outputPath];
      outputs := outputs + [outputPath];
    }
    assert codecs[..|codecs|] == codecs;
    ConversionsAt(codecs, tempName);
    assert outputs == seq(|jobs|, k requires 0 <= k < |jobs| => jobs[k].output);
    r := Ok(outputFiles);
  }
}
