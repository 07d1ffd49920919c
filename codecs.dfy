/** The codec whitelist both `/convert/` handlers share: which names are
    accepted (case-insensitively), which are reported back as unsupported,
    and the suffix each output file gets. */
module Codecs {
  import opened Common
  import opened Text
  import opened Paths

  /** The encoder library and container format a codec name selects. */
  datatype Encoder = Encoder(library: string, container: string)

  /** The `supported_codecs` dictionary, entry by entry in the order it is
      written; looking a name up goes through the entries with `Lookup`. */
  const SupportedCodecs: seq<(string, Encoder)> := [
    ("vp8", Encoder("libvpx", "webm")),
    ("vp9", Encoder("libvpx-vp9", "webm")),
    ("h265", Encoder("libx265", "mp4")),
    ("av1", Encoder("libaom-av1", "mp4"))
  ]

  /** Looking `name` up in a table of entries: the first entry with that
      key, if any. */
  function Lookup(table: seq<(string, Encoder)>, name: string): Option<Encoder>
  {
    if table == [] then None
    else if table[0].0 == name then Some(table[0].1)
    else Lookup(table[1..], name)
  }

  /** The dictionary's content: exactly the four lower-case names, each with
      its encoder library and container. */
  lemma SupportedEntries(name: string)
    ensures Lookup(SupportedCodecs, name)
         == if name == "vp8" then Some(Encoder("libvpx", "webm"))
            else if name == "vp9" then Some(Encoder("libvpx-vp9", "webm"))
            else if name == "h265" then Some(Encoder("libx265", "mp4"))
            else if name == "av1" then Some(Encoder("libaom-av1", "mp4"))
            else None
  {
    var t0 := SupportedCodecs;
    var t1, t2, t3 := t0[1..], t0[2..], t0[3..];
    assert t0[1..] == t1 && t1[1..] == t2 && t2[1..] == t3 && t3[1..] == [];
    assert t3[0].0 == "av1" && t2[0].0 == "h265" && t1[0].0 == "vp9" && t0[0].0 == "vp8";
    assert Lookup(t3, name) == if name == "av1" then Some(Encoder("libaom-av1", "mp4")) else None;
    assert Lookup(t2, name) == if name == "h265" then Some(Encoder("libx265", "mp4")) else Lookup(t3, name);
    assert Lookup(t1, name) == if name == "vp9" then Some(Encoder("libvpx-vp9", "webm")) else Lookup(t2, name);
  }

  /** `codec.lower() in supported_codecs`. */
  predicate IsSupported(codec: string)
  {
    Lookup(SupportedCodecs, Lower(codec)).Some?
  }

  /** `supported_codecs[codec.lower()]`. */
  function EncoderOf(codec: string): Encoder
    requires IsSupported(codec)
  {
    Lookup(SupportedCodecs, Lower(codec)).value
  }

  /** The codecs the request names that are not supported, in request order
      and with repeats, as the list comprehension collects them. */
  function InvalidCodecs(codecs: seq<string>): (r: seq<string>)
    ensures |r| <= |codecs|
    ensures forall c :: c in r <==> c in codecs && !IsSupported(c)
  {
    if codecs == [] then []
    else (if IsSupported(codecs[0]) then [] else [codecs[0]]) + InvalidCodecs(codecs[1..])
  }

  /** The filter keeps request order: invalid codecs of a longer request are
      those of its first part followed by those of the rest. */
  lemma {:induction false} InvalidCodecsAppend(a: seq<string>, b: seq<string>)
    ensures InvalidCodecs(a + b) == InvalidCodecs(a) + InvalidCodecs(b)
  {
    if a != [] {
      assert (a + b)[1..] == a[1..] + b;
      InvalidCodecsAppend(a[1..], b);
    } else {
      assert a + b == b;
    }
  }

  /** The 400 response's detail: the unsupported names after a fixed
      prefix, separated by a comma and a space. */
  function UnsupportedDetail(invalid: seq<string>): (r: string)
    ensures |r| >= 20 && r[..20] == "Unsupported codecs: "
    ensures |invalid| == 1 ==> r == "Unsupported codecs: " + invalid[0]
    ensures |invalid| >= 2 ==> r == UnsupportedDetail(invalid[..1]) + ", " + Join(invalid[1..], ", ")
  {
    "Unsupported codecs: " + Join(invalid, ", ")
  }

  /** The output suffix `.{codec.lower()}.{container}`. */
  function Suffix(codec: string): string
    requires IsSupported(codec)
  {
    "." + Lower(codec) + "." + EncoderOf(codec).container
  }

  /** VP8 and VP9 are written to WebM, H.265 and AV1 to MP4, so every output
      file carries one of four suffixes. */
  lemma SuffixChoices(codec: string)
    requires IsSupported(codec)
    ensures Lower(codec) in {"vp8", "vp9"} ==> EncoderOf(codec).container == "webm"
    ensures Lower(codec) in {"h265", "av1"} ==> EncoderOf(codec).container == "mp4"
    ensures Suffix(codec) in {".vp8.webm", ".vp9.webm", ".h265.mp4", ".av1.mp4"}
  {
    var word := Lower(codec);
    SupportedEntries(word);
    if word == "vp8" {
      assert Suffix(codec) == ".vp8.webm";
    } else if word == "vp9" {
      assert Suffix(codec) == ".vp9.webm";
    } else if word == "h265" {
      assert Suffix(codec) == ".h265.mp4";
    } else {
      assert Suffix(codec) == ".av1.mp4";
    }
  }

  /** The extension of an output file is its codec's container format, and
      the root keeps the lower-cased codec name. */
  lemma SuffixExtension(stem: string, codec: string)
    requires IsSupported(codec)
    ensures SplitExt(stem + Suffix(codec)) == (stem + "." + Lower(codec), "." + EncoderOf(codec).container)
  {
    var word, ext := Lower(codec), EncoderOf(codec).container;
    SupportedEntries(word);
    assert word == "vp8" || word == "vp9" || word == "h265" || word == "av1";
    assert ext == "webm" || ext == "mp4";
    assert stem + Suffix(codec) == stem + "." + word + "." + ext;
    SplitExtOfSuffix(stem, word, ext);
  }
}
