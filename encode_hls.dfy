/** The encode job of `encode-hls`: the film id drawn from four random bytes,
    the output directory named after it, the bitrate looked up for the chosen
    resolution, the ffmpeg argument list that turns one MP4 file into a VOD
    HLS package, and the outcome read from ffmpeg's exit code. */
module EncodeHls {
  import opened Wrappers
  import opened Base16
  import opened Decimal
  import opened Paths

  /** The two choices the prompt offers. */
  datatype Resolution = P720 | P1080

  /** The label the prompt returns for a choice, which keys the bitrate map. */
  function ResolutionName(r: Resolution): string {
    match r
    case P720 => "720p"
    case P1080 => "1080p"
  }

  // ---------------------------------------------------------------------
  // Film id

  const FilmPrefix: string := "film_"

  /** The shape of every film id: "film_" and eight lowercase hex digits. */
  predicate IsFilmId(s: string) {
    |s| == 13 && s[..5] == FilmPrefix && IsHex(s[5..])
  }

  /** `genFilmId()`, with the four bytes of `crypto.randomBytes(4)` passed in. */
  function FilmId(random: seq<byte>): (id: string)
    requires |random| == 4
    ensures IsFilmId(id)
    ensures IsName(id)
  {
    var id := FilmPrefix + Encode(random);
    assert id[..5] == FilmPrefix && id[5..] == Encode(random);
    assert id[0] == 'f';
    id
  }

  /** The bytes a film id was drawn from, or None for a string that is not
      a film id. */
  function FilmIdBytes(s: string): (r: Option<seq<byte>>)
    ensures r.Some? ==> |r.value| == 4
  {
    if |s| != 13 || s[..5] != FilmPrefix then None else Decode(s[5..])
  }

  // ---------------------------------------------------------------------
  // Bitrate table

  /** The object literal `bitrateMap`. */
  const BitrateMap: map<string, string> := map["720p" := "2500k", "1080p" := "4500k"]

  /** `bitrateMap[answers.resolution]`: the value passed after `-b:v` and
      after `-maxrate`. */
  function Bitrate(r: Resolution): (s: string)
    ensures ParseInt(s) == Some(BitrateKbps(r))
  {
    assert ResolutionName(r) in BitrateMap;
    var s := BitrateMap[ResolutionName(r)];
    ParseIntOfDigits(BitrateKbps(r), "k");
    assert Digits(BitrateKbps(r)) + "k" == s by { BitrateDigits(r); }
    s
  }

  /** The video bitrate of each resolution in kb/s. */
  function BitrateKbps(r: Resolution): nat {
    match r
    case P720 => 2500
    case P1080 => 4500
  }

  lemma BitrateDigits(r: Resolution)
    ensures Digits(BitrateKbps(r)) + "k" == BitrateMap[ResolutionName(r)]
  {
    match r
    case P720 =>
      assert Digits(2500) == "2500" by { DigitsOfValue("2500"); }
    case P1080 =>
      assert Digits(4500) == "4500" by { DigitsOfValue("4500"); }
  }

  /** The template literal `${parseInt(s) * 2}k`; NaN times two prints
      as "NaN". */
  function DoubledKilobits(s: string): (t: string)
  {
    match ParseInt(s)
    case None => "NaNk"
    case Some(n) => Digits(2 * n) + "k"
  }

  /** The buffer size is NaN for a bitrate `parseInt` cannot read, and
      otherwise a number `parseInt` reads back as twice the bitrate. */
  lemma DoubledKilobitsParses(s: string)
    ensures ParseInt(s).None? ==> DoubledKilobits(s) == "NaNk"
    ensures ParseInt(s).Some? ==> ParseInt(DoubledKilobits(s)) == Some(2 * ParseInt(s).value)
  {
    if ParseInt(s).Some? {
      ParseIntOfDigits(2 * ParseInt(s).value, "k");
    }
  }

  // ---------------------------------------------------------------------
  // Keyframe cadence

  /** `gop`: frames between forced keyframes. */
  const Gop: nat := 60

  /** The frame rate passed after `-r`. */
  const FrameRate: nat := 30

  /** The segment length in seconds passed after `-hls_time`. */
  const SegmentSeconds: nat := 2

  // ---------------------------------------------------------------------
  // The ffmpeg argument list

  const SegmentPattern: string := "seg_%03d.ts"
  const PlaylistName: string := "index.m3u8"

  /** The input options: regenerate timestamps, shift negative ones to
      zero, read `inputPath`. */
  function InputOptions(inputPath: string): seq<string> {
    ["-y", "-fflags", "+genpts", "-avoid_negative_ts", "make_zero", "-i", inputPath]
  }

  /** The first video stream, H.264 Main profile, 4:2:0 chroma. */
  function VideoCodec(): seq<string> {
    ["-map", "0:v:0", "-c:v", "libx264", "-profile:v", "main", "-pix_fmt", "yuv420p", "-preset", "veryfast"]
  }

  /** Constant frame rate, a keyframe every `gop` frames (given as
      `String(gop)`) and no others from scene cuts, and a keyframe forced
      every two seconds besides. */
  function KeyframeOptions(gop: string): seq<string> {
    ["-r", "30", "-g", gop, "-keyint_min", gop, "-sc_threshold", "0",
     "-force_key_frames", "expr:gte(t,n_forced*2)"]
  }

  /** Bitrate, peak rate and buffer size, all from the bitrate looked up
      for the chosen resolution. */
  function RateOptions(bitrate: string): seq<string> {
    ["-b:v", bitrate, "-maxrate", bitrate, "-bufsize", DoubledKilobits(bitrate)]
  }

  /** The first audio stream as 128 kb/s AAC at 48 kHz. */
  function AudioOptions(): seq<string> {
    ["-map", "0:a:0", "-c:a", "aac", "-b:a", "128k", "-ar", "48000"]
  }

  /** HLS muxer: two-second VOD segments in MPEG-TS, each starting on a
      keyframe. */
  function HlsOptions(): seq<string> {
    ["-f", "hls", "-hls_time", "2", "-hls_playlist_type", "vod",
     "-hls_flags", "independent_segments+split_by_time", "-hls_segment_type", "mpegts"]
  }

  /** The segment file pattern and, last, the playlist. */
  function OutputOptions(outputDir: string): seq<string>
    requires IsResolved(outputDir)
  {
    ["-hls_segment_filename", Join(outputDir, SegmentPattern), Join(outputDir, PlaylistName)]
  }

  /** The array literal `args`, in order: the source's one literal, cut at its
      own section comments (video, audio, HLS) and between option groups. */
  function Args(inputPath: string, outputDir: string, r: Resolution): (args: seq<string>)
    requires IsResolved(outputDir)
    ensures |args| == 54
  {
    InputOptions(inputPath) + VideoCodec() + KeyframeOptions(Digits(Gop)) + RateOptions(Bitrate(r))
    + AudioOptions() + HlsOptions() + OutputOptions(outputDir)
  }

  // ---------------------------------------------------------------------
  // The job

  datatype EncodeJob = EncodeJob(
    filmId: string,
    inputPath: string,
    outputDir: string,
    resolution: Resolution,
    args: seq<string>)

  /** Everything `main` computes between the prompt and `spawn`: the id, the
      output directory `path.join(outputRoot, filmId)` and the argument list. */
  function Build(random: seq<byte>, inputPath: string, outputRoot: string, r: Resolution): (job: EncodeJob)
    requires |random| == 4 && IsAbsolute(inputPath) && IsResolved(outputRoot)
    ensures job.filmId == FilmId(random) && FilmIdBytes(job.filmId) == Some(random)
    ensures job.outputDir == Join(outputRoot, job.filmId)
    ensures Dirname(job.outputDir) == outputRoot && Basename(job.outputDir) == job.filmId
    ensures IsResolved(job.outputDir)
    ensures job.inputPath == inputPath && job.resolution == r
    ensures job.args == Args(inputPath, job.outputDir, r)
  {
    var id := FilmId(random);
    var outputDir := Join(outputRoot, id);
    assert id[5..] == Encode(random);
    DecodeEncode(random);
    JoinSplits(outputRoot, id);
    EncodeJob(id, inputPath, outputDir, r, Args(inputPath, outputDir, r))
  }

  // ---------------------------------------------------------------------
  // The outcome

  /** What the `close` handler reports: success with the URL the web app
      plays the film from, or failure with the exit code, which Node gives
      as null (None here) when ffmpeg was ended by a signal. */
  datatype Outcome = Succeeded(playbackPath: string) | Failed(code: Option<int>)

  /** The URL path of the playlist under the web app's `/films` route. */
  function PlaybackPath(filmId: string): string {
    "/films/" + filmId + "/" + PlaylistName
  }

  /** The URL names the playlist inside the film's folder under `/films`,
      as `path.join` would build it. */
  lemma PlaybackPathLayout(filmId: string)
    requires IsName(filmId)
    ensures PlaybackPath(filmId) == Join(Join("/films", filmId), PlaylistName)
    ensures Basename(PlaybackPath(filmId)) == PlaylistName
    ensures Dirname(PlaybackPath(filmId)) == Join("/films", filmId)
    ensures Basename(Dirname(PlaybackPath(filmId))) == filmId
    ensures Dirname(Dirname(PlaybackPath(filmId))) == "/films"
  {
    var dir := Join("/films", filmId);
    assert dir == "/films/" + filmId;
    JoinSplits("/films", filmId);
    JoinSplits(dir, PlaylistName);
  }

  /** The `close` handler: `code === 0` is success. */
  function OnClose(filmId: string, code: Option<int>): (o: Outcome)
    ensures o.Succeeded? <==> code == Some(0)
    ensures o.Succeeded? ==> o.playbackPath == PlaybackPath(filmId)
    ensures o.Failed? ==> o.code == code
  {
    if code == Some(0) then Succeeded(PlaybackPath(filmId)) else Failed(code)
  }
}
