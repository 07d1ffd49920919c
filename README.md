# Video coding exercises: a Dafny model

This project models the algorithmic core of a series of video-coding course
exercises. Each exercise is a Python `Translator` class, most of them behind
a FastAPI service. The model covers:

- **Practice 1.** The serpentine (zig-zag) scan of a matrix, the run-length
  encoder, and the `/serpentine/` endpoint that derives the matrix shape.
- **Seminar 1.** An earlier serpentine that prints as it walks and reads a
  second cell at every boundary, and the earlier run-length encoder.
- **Seminar 2.**
  - The chroma-subsampling table.
  - The search for the first video stream in a probe.
  - The `-map` arguments used when packaging audio tracks into MP4.
  - The per-type track tally of `get_tracks`.
- **Practice 2.** The `/convert/` endpoint: a codec whitelist checked on the
  lower-cased name, a 400 that lists the unsupported codecs, one output per
  requested codec with suffix `.<codec>.<container>`, and a result dictionary
  keyed by the codec as the client spelled it.
- **Practice 2 (chat variant).** The same `/convert/` writing to
  `os.path.join("/app", stem + suffix)`, and `/encoding-ladder/`, which zips
  resolutions with bitrates and splits each resolution at `x`.

Python exceptions are data (`Common.Failure`): `IndexError`,
`UnboundLocalError`, and FastAPI's `HTTPException(status, detail)`.
Python's negative list indexing is modelled by `Common.PyIndex`.

Supporting modules:

- **Text.** ASCII lower-casing, `str.split` and `join`, and decimal rendering.
- **Paths.** `os.path.splitext` and `os.path.join` on POSIX.
- **Codecs.** The shared codec table.
- **RunLength.** The decoding that both encoders are proved against, and the
  uniqueness of a maximal run list.
- **ZigZag.** The zig-zag order the serpentine scans are meant to follow,
  proved to visit every cell exactly once.

The serpentine exercise is meant to emit all N×M elements once each, in
zig-zag order. The Practice 1 code does not do that, and the model follows
the code as written (see Findings).

## Model

| member | source | states |
|---|---|---|
| Practice1.Serpentine | P1/practice1/app/main.py:47-75 | The loop returns exactly what reading `ScanPath(N, M)` in order gives. An out-of-range `matrix[i-1][j-1]` becomes IndexError. Only the last-row, last-column and first-row branches can run. |
| Practice1.SerpentineEndpoint | P1/practice1/app/main.py:180-185 | For every matrix, with N = number of rows and M = length of the first row (0 when empty), the result is the scan of `ScanPath(N, M)`. A ragged matrix therefore gets a partial read, or IndexError when a shorter row is reached. An empty matrix, or an empty first row, gives `[]`. A rectangular non-empty matrix gives its first row followed by the last element of every later row. |
| Practice1.ScanOfRectangle | P1/practice1/app/main.py:47-75 | On an N×M rectangle the scan reads N+M-1 cells and never goes out of range. Its output is row 1, then column M from row 2 down. |
| Practice1.ScanMissesCells | P1/practice1/app/main.py:55-63 | On any grid of at least 2×2, the scan never visits cell (2,1), which lies inside the grid. The zig-zag order visits that cell third. |
| Practice1.RunLengthEncoding | P1/practice1/app/main.py:91-110 | Empty input gives `[]`. Otherwise the pairs decode back to the series. The pairs are maximal: every count is ≥ 1 and neighbours differ. The counts sum to the length, and the first pair holds the first value. |
| RunLength.MaximalRunsUnique | P1/practice1/app/main.py:99-108 | Two maximal run lists that decode to the same series are equal. So the encoder's output is the only maximal encoding. |
| RunLength.ExpandLength | P1/practice1/app/main.py:103-108 | The counts of a run list add up to the length of its decoding. |
| RunLength.PendingSame | P1/practice1/app/main.py:100-101 | An element equal to the open run's value extends that run, and the decoding still matches the prefix read so far. |
| RunLength.PendingNew | P1/practice1/app/main.py:102-105 | A different element closes the open run and opens a new one. The list stays maximal and still decodes to the prefix. |
| RunLength.PendingClose | P1/practice1/app/main.py:107-108 | Closing the last run gives a maximal list that decodes to the whole series. |
| Common.PyIndex | S1/first_seminar.py:42 | Python's `s[k]` on a list: negative indices count from the end, anything else out of range is IndexError. |
| Common.PyIndexModulo | S1/first_seminar.py:42 | `s[k]` succeeds iff `-len(s) <= k < len(s)`, and then gives the element at `k` modulo the length. |
| Grid.At | P1/practice1/app/main.py:53 | The read `matrix[i - 1][j - 1]`, through Python's indexing at both levels. |
| Grid.AtRange | P1/practice1/app/main.py:53 | A 1-based position inside the matrix reads its element. A row index past either end, counting from the back too, raises IndexError. |
| Seminar1.Walk | S1/first_seminar.py:41-73 | The positions the loop reads, in order, taking each iteration's branch through `Seminar1.Next` while `i <= N` and `j <= M`. Boundary branches contribute two positions, which may lie outside the matrix. `Seminar1.PrintingReadsWalk` and `Seminar1.Serpentine` tie it to the loop's output, and `Seminar1.WalkFourByThree` gives it for the script's shape. |
| Seminar1.Next | S1/first_seminar.py:43-73 | One loop iteration's branch, as written. It either moves to a later anti-diagonal, or stays on the same one and moves in the current direction (so the walk terminates). |
| Seminar1.Serpentine | S1/first_seminar.py:37-73 | The printed values, and whether an IndexError stopped the loop, are exactly those of reading `Walk(N, M, 1, 1, False)` in order. That walk includes the extra cell read by each boundary branch. |
| Seminar1.PrintingReadsWalk | S1/first_seminar.py:41-73 | The loop's branch-by-branch output equals reading the cells of the walk, from any loop state. |
| Seminar1.BoundaryStep | S1/first_seminar.py:43-66 | A boundary branch prints its current cell and then a second one. If the second read is out of range, the output stops there with an IndexError. |
| Seminar1.DiagonalStep | S1/first_seminar.py:67-73 | The diagonal branch prints one cell and continues from the next position. |
| Seminar1.FirstReadFails | S1/first_seminar.py:42 | An out-of-range first read of an iteration ends the run with an IndexError, after what was already printed. |
| Seminar1.WalkFourByThree | S1/first_seminar.py:37-73 | For N=4, M=3 the walk is (1,1),(1,2),(2,1),(3,1),(2,2),(1,3),(2,3),(3,2),(4,1),(4,2),(3,3),(4,3). |
| Seminar1.WalkIsZigZagFourByThree | S1/first_seminar.py:37-73 | On the 4×3 script matrix the walk is exactly the zig-zag order. |
| Seminar1.SerpentineFourByThree | S1/first_seminar.py:37-73 | On any 4×3 matrix the loop prints all 12 elements once each, in zig-zag order, without an error. |
| Seminar1.SerpentineOneByOne | S1/first_seminar.py:43-45 | On a 1×1 matrix the loop prints the element and then raises IndexError reading `m[0][1]`. |
| Seminar1.SerpentineOneByThree | S1/first_seminar.py:43-60 | On a 1×3 matrix the walk reads row 0, which Python takes as `m[-1]`. It prints a, b, c, c: the last element twice. |
| Seminar1.RunLengthEncoding | S1/first_seminar.py:89-104 | An empty series raises UnboundLocalError on `encoded_serie`. Otherwise the pairs are maximal and decode back to the series. |
| Seminar1.ScriptSeries | S1/first_seminar.py:164-166 | For the script's series `[1,1,1,4,4,2,5,4,5,5]`, the only maximal encoding is `[[1,3],[4,2],[2,1],[5,1],[4,1],[5,2]]`. |
| Seminar1.ScriptRunsDecode | S1/first_seminar.py:164-166 | Those six pairs are maximal and decode to the script's series. |
| ZigZag.ZigZagVisitsEachCellOnce | S1/first_seminar.py:37-73 | The intended, corrected order, which the code as written does not follow in general (see Findings): The zig-zag order stays inside the N×M grid, covers every cell, and repeats none. |
| ZigZag.ZigZagScan | P1/practice1/app/main.py:47-75 | The intended, corrected scan, which the code as written does not perform (see Findings): Reading a rectangular matrix in zig-zag order never fails. It yields the element at each visited cell, in order. |
| ZigZag.DiagonalCells | S1/first_seminar.py:67-73 | In the intended, corrected order (see Findings): One anti-diagonal holds exactly the grid cells whose coordinates sum to `d`, each once. |
| ZigZag.DiagonalsInGrid | S1/first_seminar.py:37-73 | In the intended, corrected order (see Findings): The anti-diagonals from `d` onward stay inside the grid, on coordinate sums ≥ d. |
| ZigZag.DiagonalsCover | S1/first_seminar.py:37-73 | In the intended, corrected order (see Findings): Every grid cell whose coordinate sum is ≥ d appears on the anti-diagonals from `d` onward. |
| ZigZag.DiagonalsDistinct | S1/first_seminar.py:37-73 | In the intended, corrected order (see Findings): The anti-diagonals from `d` onward visit no cell twice. |
| Seminar2.PixelFormat | S2/seminar2/app/main.py:37-46 | A subsampling is accepted iff it is 4:4:4, 4:2:2 or 4:2:0. The result is `yuv` + its three digits + `p`. Anything else gives 400 `Invalid chroma subsampling: <s>`. |
| Seminar2.PixelFormatInjective | S2/seminar2/app/main.py:37-41 | Distinct accepted subsamplings map to distinct pixel formats. |
| Seminar2.ModifyChroma | S2/seminar2/app/main.py:36-59 | It fails exactly when the subsampling is rejected, with that 400. Otherwise the job keeps the input and output paths and uses the mapped pixel format, libx264, aac and mp4. |
| Seminar2.VideoStreamOfProbe | S2/seminar2/app/main.py:64-69 | A probe without a `streams` entry gives 500 `Error: 'streams'` (the KeyError of `probe['streams']`). Otherwise the result is the first video stream's choice. |
| Seminar2.FirstVideo | S2/seminar2/app/main.py:63-69 | Ok gives the first stream whose type is `video`; every stream before it has a type. A 500 `No video stream found` comes iff every stream has a non-video type. The only other outcome is a 500 for a stream without `codec_type` met before any video stream. |
| Seminar2.MapEntry | S2/seminar2/app/main.py:148 | The selector for input `i`, `f'{i}:a' if i else '0:v'`, is the decimal of `i` followed by `:v` for input 0 and by `:a` for every other input. |
| Seminar2.MapKwargsLastOnly | S2/seminar2/app/main.py:147-149 | The comprehension `{'map': ... for i in range(n)}` leaves one entry, holding the value for the last input. |
| Seminar2.MapKwargs | S2/seminar2/app/main.py:147-149 | The comprehension's dictionary is empty for no inputs, and otherwise has the single key `map`. |
| Seminar2.PackageIntoMp4 | S2/seminar2/app/main.py:136-152 | As written: the inputs are the video followed by the audio paths, the output is unchanged, and the video is copied with AAC audio into MP4. The keyword dictionary handed to the transcoder is `{'map': <entry of the last input>}`. |
| Seminar2.PackagingMapsOneTrack | S2/seminar2/app/main.py:138-149 | With a video and three audio inputs, the packager's keyword dictionary is exactly `{'map': '3:a'}`. |
| Seminar2.MapArguments | S2/seminar2/app/main.py:148 | The corrected selection used by Seminar2.PackageIntoMp4Corrected, not line 148 as written (which leaves a single `map` key): one `-map` argument per input. |
| Seminar2.MapArgumentsSelectEach | S2/seminar2/app/main.py:148 | In the corrected selection used by Seminar2.PackageIntoMp4Corrected, the arguments are `0:v` for input 0 and `i:a` for each later input `i`, and they are pairwise distinct. |
| Seminar2.PackageIntoMp4Corrected | S2/seminar2/app/main.py:136-152 | The corrected packager: the same inputs, output and codecs, with one selection per input (`0:v`, then `i:a`), pairwise distinct. |
| Seminar2.Bucket | S2/seminar2/app/main.py:262-266 | Every stream counts towards one of the five tallies. |
| Seminar2.TalliesSum | S2/seminar2/app/main.py:253-268 | The five tallies add up to the number of streams. |
| Seminar2.TalliesSnoc | S2/seminar2/app/main.py:261-266 | Counting one more stream raises its own tally by one. |
| Seminar2.GetTracks | S2/seminar2/app/main.py:249-268 | Exactly the five tallies are keys, and each holds the number of streams that count towards it. `total_tracks` is the number of streams. |
| Text.Lower | P2/practice2/app/main.py:47 | Lower-casing keeps the length. |
| Text.Split | P2/practice2_chat/app/main.py:111 | At least one part comes back, and no part contains the separator. There are two or more parts iff the separator occurs. |
| Text.Join | P2/practice2/app/main.py:49 | `sep.join(parts)`: the parts in order with `sep` between neighbours. `Text.SplitJoin` proves it inverts `Text.Split`, and `Codecs.UnsupportedDetail` states the `', '.join` of the unsupported names. |
| Text.SplitJoin | P2/practice2_chat/app/main.py:111 | Joining the parts with the separator gives back the string. |
| Text.NatToString | S2/seminar2/app/main.py:148 | The decimal rendering is non-empty and all digits. |
| Text.NatToStringValue | S2/seminar2/app/main.py:148 | The rendering reads back as the number. |
| Paths.RFind | P2/practice2_chat/app/main.py:66 | The last position of the character, or -1 when it does not occur. |
| Paths.SplitExt | P2/practice2_chat/app/main.py:66 | Root and extension concatenate to the path. A non-empty extension starts with the single dot it contains and contains no `/`. |
| Paths.PathJoin | P2/practice2_chat/app/main.py:66 | An absolute second part replaces the first. Otherwise the result starts with the first part and ends with the second. |
| Paths.RFindAppend | P2/practice2_chat/app/main.py:66 | The last occurrence in `a + b` is in `b` when `b` has one, and is unchanged otherwise. |
| Paths.SplitExtAt | P2/practice2_chat/app/main.py:66 | A path splits at its last dot when that dot follows the last `/` and a non-dot. |
| Paths.SplitExtOfSuffix | P2/practice2/app/main.py:59-60 | `stem.word.ext` splits into `stem.word` and `.ext`. |
| Codecs.SupportedEntries | P2/practice2/app/main.py:40-45 | The table maps vp8 to libvpx/webm, vp9 to libvpx-vp9/webm, h265 to libx265/mp4 and av1 to libaom-av1/mp4. It maps nothing else. |
| Codecs.IsSupported | P2/practice2/app/main.py:47 | `codec.lower() in supported_codecs`, so a codec is accepted iff its lower-cased name is one of the four keys, whatever its capitalisation. |
| Codecs.EncoderOf | P2/practice2/app/main.py:58 | `supported_codecs[codec.lower()]`: the encoder library and container of an accepted codec. |
| Codecs.UnsupportedDetail | P2/practice2/app/main.py:49 | The 400 detail starts with `Unsupported codecs: `. One invalid name follows it alone, and further names are appended after `, `. |
| Codecs.Suffix | P2/practice2/app/main.py:59 | The output suffix `.{codec.lower()}.{container}`. |
| Codecs.SuffixChoices | P2/practice2/app/main.py:40-45 | vp8 and vp9 go into WebM, h265 and av1 into MP4, so every suffix is one of `.vp8.webm`, `.vp9.webm`, `.h265.mp4`, `.av1.mp4`. |
| Codecs.InvalidCodecs | P2/practice2/app/main.py:47 | A codec is listed iff it was requested and its lower-cased name is not in the table. The list is never longer than the request. |
| Codecs.InvalidCodecsAppend | P2/practice2/app/main.py:47 | The filter keeps request order: the invalid codecs of `a + b` are those of `a` followed by those of `b`. |
| Codecs.SuffixExtension | P2/practice2/app/main.py:58-60 | `stem + ".<lower codec>.<container>"` splits into `stem.<lower codec>` and the container's extension. |
| Practice2.Conversions | P2/practice2/app/main.py:57-66 | One conversion per requested codec. |
| Practice2.ConversionFor | P2/practice2/app/main.py:58-66 | The arguments of one `convert_video` call: the output is the temporary name followed by `.<codec>.<container>`, and the encoder and container are the codec's table entry after lower-casing. `Practice2.ConversionsAt` places it at the codec's position, and `Codecs.SuffixExtension` proves that `os.path.splitext` of such an output, whatever the temporary name, gives the container as the extension. |
| Practice2.ConversionsAt | P2/practice2/app/main.py:57-66 | The k-th conversion is the one for the k-th codec. |
| Practice2.Convert | P2/practice2/app/main.py:40-69 | It fails iff some codec is unsupported, with 400 `Unsupported codecs: ` + the invalid codecs joined by `, `, in request order, and no conversion runs. Otherwise there is one conversion per codec, in order, with the table's library and container. The result maps each codec as spelled to the output of its last occurrence. |
| Practice2Chat.Conversions | P2/practice2_chat/app/main.py:63-74 | One conversion per requested codec. |
| Practice2Chat.ConversionFor | P2/practice2_chat/app/main.py:64-73 | The arguments of one `convert_video` call: the output is `Practice2Chat.OutputPath`, and the encoder and container are the codec's table entry after lower-casing. `Practice2Chat.OutputExtension` proves the output's extension is that container. |
| Practice2Chat.ConversionsAt | P2/practice2_chat/app/main.py:63-74 | The k-th conversion is the one for the k-th codec. |
| Practice2Chat.OutputPath | P2/practice2_chat/app/main.py:65-66 | `os.path.join("/app", stem + suffix)`, the stem being the upload name less its extension. |
| Practice2Chat.OutputPathShape | P2/practice2_chat/app/main.py:65-66 | Every output path ends in its codec's suffix. For a relative upload name it is `/app/` followed by the stem and the suffix. |
| Practice2Chat.JoinedSuffixExtension | P2/practice2_chat/app/main.py:65-66 | Joining a directory with `stem + suffix` keeps the container as the extension. |
| Practice2Chat.OutputExtension | P2/practice2_chat/app/main.py:64-66 | Every output path has the codec's container as its extension. |
| Practice2Chat.SameCodecSameOutput | P2/practice2_chat/app/main.py:65-66 | Two spellings of a codec that lower-case alike get the same output path. |
| Practice2Chat.ReportsOutputsSnoc | P2/practice2_chat/app/main.py:74 | Recording one more codec keeps the result dictionary exact. |
| Practice2Chat.Convert | P2/practice2_chat/app/main.py:44-76 | Same error contract as Practice2.Convert. On success: one conversion per codec, in order, each writing `os.path.join("/app", stem + ".<lower>.<container>")`. The result has exactly the requested spellings as keys, each mapped to its output path. |
| Practice2Chat.LadderPath | P2/practice2_chat/app/main.py:108-109 | `os.path.join("/app", f"{stem}.{resolution}.mp4")`. |
| Practice2Chat.LadderPathShape | P2/practice2_chat/app/main.py:108-109 | Every ladder path ends in `.{resolution}.mp4`. For a relative upload name it is `/app/` followed by the stem and that suffix. |
| Practice2Chat.RungFor | P2/practice2_chat/app/main.py:108-115 | A rung writes to the resolution's ladder path at the given bitrate. Its width and height (`split('x')[0]` and `[1]`) contain no `x`. |
| Practice2Chat.RungDimensions | P2/practice2_chat/app/main.py:111 | For a resolution containing `x`, width and height are the text before the first `x` and between the first and second. Neither contains `x`, `width x height` is a prefix of the resolution, and that prefix is the whole resolution or is followed by another `x`: the height runs to the next `x` or to the end. |
| Practice2Chat.ReportsLadderSnoc | P2/practice2_chat/app/main.py:117 | Recording one more resolution keeps the ladder dictionary exact. |
| Practice2Chat.EncodingLadder | P2/practice2_chat/app/main.py:96-122 | Unequal lengths give 400 `Resolutions and bitrates must match.` and nothing runs. It succeeds iff the lengths match and every resolution contains `x`. Each rung run pairs the k-th resolution with the k-th bitrate. A resolution without `x` stops the loop there with 500 `Error generating encoding ladder: list index out of range`. On success the result maps every resolution to `os.path.join("/app", stem + ".<resolution>.mp4")`, which is `/app/<stem>.<resolution>.mp4` for a relative upload name. |

## Left out

- **File and process I/O.** Uploads, temporary files, `os.remove` and the
  runs of ffmpeg/ffprobe are left out. Conversions and ladder rungs are
  returned as job records instead of being executed. So the `500 File
  processing failed` and `FFmpeg error` paths, which depend on ffmpeg's
  behaviour, are not modelled.
- **Temporary file names.** `tempfile.NamedTemporaryFile(...).name` in
  practice 2's `/convert/` is a parameter: the function `tempName` gives the
  name of the k-th temporary output less its suffix; the output is
  `tempName(k) + Suffix(codec)`.
- **Practice2.Convert and Practice2Chat.Convert:** the upload's own temporary
  input file is not modelled. Only the upload's stem is used, as the chat
  variant's output names need it.
- **Text.Lower:** only ASCII letters are lower-cased. Python's `str.lower`
  also folds non-ASCII letters, which cannot change whether a name matches
  one of the four ASCII codec names.
- **Seminar2.FirstVideo:** only the choice of the video stream and the two
  failures are modelled. The metadata dictionary built from it (`'N/A'`
  defaults, `eval` of the frame rate) is left out.
- **Probe results.** `ffprobe` output is reduced to each stream's optional
  `codec_type`. For `get_tracks`, a probe without `streams` is passed in as
  the empty list, as `probe.get("streams", [])` does. For `get_video_info`,
  `Seminar2.VideoStreamOfProbe` takes the optional list and models the
  KeyError of a missing entry.
- **Seminar2.GetTracks:** the 500 raised when the probe itself fails is not
  modelled.
- **Not modelled at all:**
  - the RGB↔YUV conversions (floating point);
  - the image and video operations (resize, black-and-white, compression,
    trim, audio export, the BBB container, the motion-vector and histogram
    visualisations), which are ffmpeg invocations;
  - the DCT and DWT classes (numeric libraries);
  - the FastAPI routing and request validation;
  - the GUIs.
- **Seminar 1's script:** it is not modelled beyond the lemmas about its
  serpentine input shape and its run-length series.
- **Seminar1.Serpentine:** printing is modelled as the sequence of values
  printed, plus whether an IndexError ended the loop.

## Findings

| source | as written | input that shows it | evidently intended | confidence | as-written member | corrected member |
|---|---|---|---|---|---|---|
| P1/practice1/app/main.py:55-73 | The `j == M` test comes before `i == 1`, and the first step from (1,1) goes right unless M = 1. So at every loop head `i == 1` or `j == M` holds: the scan walks row 1 and then column M down, and the first-column and diagonal branches never run. | The 2×2 matrix `[[1,2],[3,4]]` gives `[1,2,4]`; 3 is never read. | A zig-zag over the anti-diagonals that emits all N×M elements once each (`[1,2,3,4]`). | high; not executed | Practice1.ScanMissesCells | ZigZag.ZigZagScan |
| S1/first_seminar.py:43-60 | Each boundary branch moves and prints a second cell without checking that it is inside the matrix. | A 1×1 matrix prints `m[0][0]` and then raises IndexError on `m[0][1]`. A 1×3 matrix `[[a,b,c]]` prints a, b, c, c, because row 0 is read as `m[-1]`. | Every element printed exactly once, in zig-zag order. | high; not executed | Seminar1.SerpentineOneByThree | ZigZag.ZigZagVisitsEachCellOnce |
| S2/seminar2/app/main.py:147-149 | The `**{'map': ... for i in range(len(inputs))}` comprehension uses the constant key `map`, so every entry overwrites the previous one. | With a video plus three audio paths the keyword dictionary is `{'map': '3:a'}`: the selections built for inputs 0, 1 and 2 are lost before the transcoder is called. What ffmpeg then receives depends on the ffmpeg-python library, which is not part of this model. | One selection per input: `0:v`, `1:a`, …, `n:a`. | high for the dictionary; its effect on the output file unverified; not executed | Seminar2.PackagingMapsOneTrack | Seminar2.PackageIntoMp4Corrected |
