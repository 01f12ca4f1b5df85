/** What the encode job promises about its argument list: the word after
    each flag's first occurrence, the positions at which a word stands, and
    the positions at which the lists of the two resolutions differ.

    The argument list is the concatenation of seven option groups (see
    `EncodeHls.Args`). Each property is proved group by group: which flags a
    group lacks, which values the flags it holds carry, and then that the
    first occurrence of a flag in the whole list is the one in its group.
    Every flag whose value is stated here also occurs exactly once, so the
    value after its first occurrence is the only value it is given. */
module EncodeHlsProperties {
  import opened Wrappers
  import opened Base16
  import opened Decimal
  import opened Paths
  import opened ArgList
  import opened EncodeHls

  // ---------------------------------------------------------------------
  // What each group lacks

  lemma InputOptionsLack(inputPath: string)
    requires IsAbsolute(inputPath)
    ensures var g := InputOptions(inputPath);
      && "-map" !in g && "-r" !in g && "-g" !in g && "-keyint_min" !in g
      && "-sc_threshold" !in g && "-force_key_frames" !in g
  {
  }

  lemma InputOptionsLackLater(inputPath: string)
    requires IsAbsolute(inputPath)
    ensures var g := InputOptions(inputPath);
      && "-b:v" !in g && "-maxrate" !in g && "-bufsize" !in g
      && "-hls_time" !in g && "-hls_segment_filename" !in g
  {
  }

  lemma VideoCodecLacks()
    ensures var g := VideoCodec();
      && "-map" !in g[1..] && "-r" !in g && "-g" !in g && "-keyint_min" !in g
      && "-sc_threshold" !in g && "-force_key_frames" !in g
  {
  }

  lemma VideoCodecLacksLater()
    ensures var g := VideoCodec();
      && "-b:v" !in g && "-maxrate" !in g && "-bufsize" !in g
      && "-hls_time" !in g && "-hls_segment_filename" !in g
  {
  }

  lemma KeyframeOptionsLack(gop: string)
    requires IsCanonical(gop)
    ensures var g := KeyframeOptions(gop);
      && "-map" !in g && "-b:v" !in g && "-maxrate" !in g && "-bufsize" !in g
      && "-hls_time" !in g && "-hls_segment_filename" !in g
  {
  }

  /** A looked-up bitrate starts with a digit, so it is never taken for a flag. */
  lemma BitrateIsNotFlag(r: Resolution)
    ensures |Bitrate(r)| > 0 && Bitrate(r)[0] != '-'
  {
  }

  lemma RateOptionsLack(bitrate: string)
    requires |bitrate| > 0 && bitrate[0] != '-'
    ensures var g := RateOptions(bitrate);
      && "-map" !in g && "-hls_time" !in g && "-hls_segment_filename" !in g
  {
    var d := DoubledKilobits(bitrate);
    assert d[0] != '-';
  }

  lemma AudioOptionsLack()
    ensures var g := AudioOptions();
      && "-map" !in g[1..] && "-hls_time" !in g && "-hls_segment_filename" !in g
  {
  }

  lemma HlsOptionsLack()
    ensures var g := HlsOptions();
      && "-map" !in g && "-hls_segment_filename" !in g
  {
  }

  lemma OutputOptionsLack(outputDir: string)
    requires IsResolved(outputDir)
    ensures "-map" !in OutputOptions(outputDir)
  {
  }

  // ---------------------------------------------------------------------
  // From a group to the whole list

  lemma LookupInInputOptions(inputPath: string, outputDir: string, r: Resolution, f: string)
    requires IsResolved(outputDir)
    requires ValueAfter(InputOptions(inputPath), f).Some?
    ensures ValueAfter(Args(inputPath, outputDir, r), f) == ValueAfter(InputOptions(inputPath), f)
    ensures IndexOf(Args(inputPath, outputDir, r), f) == IndexOf(InputOptions(inputPath), f)
  {
    var p := InputOptions(inputPath);
    var k := KeyframeOptions(Digits(Gop));
    var q := RateOptions(Bitrate(r));
    ValueAfterExtend(p, VideoCodec(), f);
    ValueAfterExtend(p + VideoCodec(), k, f);
    ValueAfterExtend(p + VideoCodec() + k, q, f);
    ValueAfterExtend(p + VideoCodec() + k + q, AudioOptions(), f);
    ValueAfterExtend(p + VideoCodec() + k + q + AudioOptions(), HlsOptions(), f);
    ValueAfterExtend(p + VideoCodec() + k + q + AudioOptions() + HlsOptions(), OutputOptions(outputDir), f);
  }

  lemma LookupInKeyframeOptions(inputPath: string, outputDir: string, r: Resolution, f: string)
    requires IsResolved(outputDir)
    requires f !in InputOptions(inputPath) && f !in VideoCodec()
    requires ValueAfter(KeyframeOptions(Digits(Gop)), f).Some?
    ensures ValueAfter(Args(inputPath, outputDir, r), f) == ValueAfter(KeyframeOptions(Digits(Gop)), f)
  {
    var p := InputOptions(inputPath) + VideoCodec();
    var g := KeyframeOptions(Digits(Gop));
    var q := RateOptions(Bitrate(r));
    ValueAfterAppend(p, g, f);
    ValueAfterExtend(p + g, q, f);
    ValueAfterExtend(p + g + q, AudioOptions(), f);
    ValueAfterExtend(p + g + q + AudioOptions(), HlsOptions(), f);
    ValueAfterExtend(p + g + q + AudioOptions() + HlsOptions(), OutputOptions(outputDir), f);
  }

  lemma LookupInRateOptions(inputPath: string, outputDir: string, r: Resolution, f: string)
    requires IsResolved(outputDir)
    requires f !in InputOptions(inputPath) && f !in VideoCodec() && f !in KeyframeOptions(Digits(Gop))
    requires ValueAfter(RateOptions(Bitrate(r)), f).Some?
    ensures ValueAfter(Args(inputPath, outputDir, r), f) == ValueAfter(RateOptions(Bitrate(r)), f)
  {
    var p := InputOptions(inputPath) + VideoCodec() + KeyframeOptions(Digits(Gop));
    var g := RateOptions(Bitrate(r));
    ValueAfterAppend(p, g, f);
    ValueAfterExtend(p + g, AudioOptions(), f);
    ValueAfterExtend(p + g + AudioOptions(), HlsOptions(), f);
    ValueAfterExtend(p + g + AudioOptions() + HlsOptions(), OutputOptions(outputDir), f);
  }

  lemma LookupInHlsOptions(inputPath: string, outputDir: string, r: Resolution, f: string)
    requires IsResolved(outputDir)
    requires f !in InputOptions(inputPath) && f !in VideoCodec() && f !in KeyframeOptions(Digits(Gop))
    requires f !in RateOptions(Bitrate(r)) && f !in AudioOptions()
    requires ValueAfter(HlsOptions(), f).Some?
    ensures ValueAfter(Args(inputPath, outputDir, r), f) == ValueAfter(HlsOptions(), f)
  {
    var p := InputOptions(inputPath) + VideoCodec() + KeyframeOptions(Digits(Gop))
      + RateOptions(Bitrate(r)) + AudioOptions();
    ValueAfterAppend(p, HlsOptions(), f);
    ValueAfterExtend(p + HlsOptions(), OutputOptions(outputDir), f);
  }

  lemma LookupInOutputOptions(inputPath: string, outputDir: string, r: Resolution, f: string)
    requires IsResolved(outputDir)
    requires f !in InputOptions(inputPath) && f !in VideoCodec() && f !in KeyframeOptions(Digits(Gop))
    requires f !in RateOptions(Bitrate(r)) && f !in AudioOptions() && f !in HlsOptions()
    ensures ValueAfter(Args(inputPath, outputDir, r), f) == ValueAfter(OutputOptions(outputDir), f)
  {
    var p := InputOptions(inputPath) + VideoCodec() + KeyframeOptions(Digits(Gop))
      + RateOptions(Bitrate(r)) + AudioOptions() + HlsOptions();
    ValueAfterAppend(p, OutputOptions(outputDir), f);
  }

  // ---------------------------------------------------------------------
  // Rate control

  /** The buffer is twice the bitrate, in the same unit. */
  lemma BufsizeDoublesBitrate(r: Resolution)
    ensures DoubledKilobits(Bitrate(r)) == Digits(2 * BitrateKbps(r)) + "k"
    ensures ParseInt(DoubledKilobits(Bitrate(r))) == Some(2 * BitrateKbps(r))
  {
    ParseIntOfDigits(2 * BitrateKbps(r), "k");
  }

  /** The rate table as ffmpeg receives it. */
  lemma RateTable(r: Resolution)
    ensures r == P720 ==> Bitrate(r) == "2500k" && DoubledKilobits(Bitrate(r)) == "5000k"
    ensures r == P1080 ==> Bitrate(r) == "4500k" && DoubledKilobits(Bitrate(r)) == "9000k"
  {
    match r
    case P720 =>
      DoubledRateNumerals();
      RateRow(P720, "2500k", "5000");
    case P1080 =>
      DoubledRateNumerals();
      RateRow(P1080, "4500k", "9000");
  }

  /** The doubled rates as `String` prints them. */
  lemma DoubledRateNumerals()
    ensures Digits(5000) == "5000" && Digits(9000) == "9000"
  {
    assert Digits(5) == "5" && Digits(50) == "50" && Digits(500) == "500";
    assert Digits(9) == "9" && Digits(90) == "90" && Digits(900) == "900";
  }

  /** One row of the rate table, with twice its kilobits spelled out. */
  lemma RateRow(r: Resolution, bitrate: string, doubled: string)
    requires bitrate == BitrateMap[ResolutionName(r)]
    requires Digits(2 * BitrateKbps(r)) == doubled
    ensures Bitrate(r) == bitrate && DoubledKilobits(Bitrate(r)) == doubled + "k"
  {
    BufsizeDoublesBitrate(r);
  }

  lemma RateOptionValues(bitrate: string)
    requires |bitrate| > 0 && bitrate[0] != '-'
    ensures var g := RateOptions(bitrate);
      && ValueAfter(g, "-b:v") == ValueAfter(g, "-maxrate") == Some(bitrate)
      && ValueAfter(g, "-bufsize") == Some(DoubledKilobits(bitrate))
  {
    var g := RateOptions(bitrate);
    ValueAfterAt(g, "-b:v", 0);
    ValueAfterAt(g, "-maxrate", 2);
    ValueAfterAt(g, "-bufsize", 4);
  }

  /** `-b:v` and `-maxrate` both get the looked-up bitrate, and `-bufsize`
      twice its number of kilobits. */
  lemma RateControl(inputPath: string, outputDir: string, r: Resolution)
    requires IsAbsolute(inputPath) && IsResolved(outputDir)
    ensures var a := Args(inputPath, outputDir, r);
      && ValueAfter(a, "-b:v") == ValueAfter(a, "-maxrate") == Some(Bitrate(r))
      && ValueAfter(a, "-bufsize") == Some(Digits(2 * BitrateKbps(r)) + "k")
  {
    InputOptionsLackLater(inputPath);
    VideoCodecLacksLater();
    KeyframeOptionsLack(Digits(Gop));
    BitrateIsNotFlag(r);
    RateOptionValues(Bitrate(r));
    BufsizeDoublesBitrate(r);
    LookupInRateOptions(inputPath, outputDir, r, "-b:v");
    LookupInRateOptions(inputPath, outputDir, r, "-maxrate");
    LookupInRateOptions(inputPath, outputDir, r, "-bufsize");
  }

  // ---------------------------------------------------------------------
  // Keyframe cadence

  /** The number a flag carries, read as `parseInt` reads it. */
  function IntValue(a: seq<string>, flag: string): Option<nat> {
    match ValueAfter(a, flag)
    case None => None
    case Some(v) => ParseInt(v)
  }

  lemma KeyframeIntervalValues(gop: string)
    requires IsCanonical(gop)
    ensures var g := KeyframeOptions(gop);
      && ValueAfter(g, "-r") == Some("30")
      && ValueAfter(g, "-g") == ValueAfter(g, "-keyint_min") == Some(gop)
  {
    var g := KeyframeOptions(gop);
    ValueAfterAt(g, "-r", 0);
    ValueAfterAt(g, "-g", 2);
    ValueAfterAt(g, "-keyint_min", 4);
  }

  lemma KeyframeForcingValues(gop: string)
    requires IsCanonical(gop)
    ensures var g := KeyframeOptions(gop);
      && ValueAfter(g, "-sc_threshold") == Some("0")
      && ValueAfter(g, "-force_key_frames") == Some("expr:gte(t,n_forced*2)")
  {
    var g := KeyframeOptions(gop);
    ValueAfterAt(g, "-sc_threshold", 6);
    ValueAfterAt(g, "-force_key_frames", 8);
  }

  lemma KeyframeIntervalLookups(inputPath: string, outputDir: string, r: Resolution)
    requires IsAbsolute(inputPath) && IsResolved(outputDir)
    ensures var a := Args(inputPath, outputDir, r);
      && ValueAfter(a, "-r") == Some("30")
      && ValueAfter(a, "-g") == ValueAfter(a, "-keyint_min") == Some(Digits(Gop))
  {
    InputOptionsLack(inputPath);
    VideoCodecLacks();
    KeyframeIntervalValues(Digits(Gop));
    LookupInKeyframeOptions(inputPath, outputDir, r, "-r");
    LookupInKeyframeOptions(inputPath, outputDir, r, "-g");
    LookupInKeyframeOptions(inputPath, outputDir, r, "-keyint_min");
  }

  lemma KeyframeForcingLookups(inputPath: string, outputDir: string, r: Resolution)
    requires IsAbsolute(inputPath) && IsResolved(outputDir)
    ensures var a := Args(inputPath, outputDir, r);
      && ValueAfter(a, "-sc_threshold") == Some("0")
      && ValueAfter(a, "-force_key_frames") == Some("expr:gte(t,n_forced*2)")
  {
    InputOptionsLack(inputPath);
    VideoCodecLacks();
    KeyframeForcingValues(Digits(Gop));
    LookupInKeyframeOptions(inputPath, outputDir, r, "-sc_threshold");
    LookupInKeyframeOptions(inputPath, outputDir, r, "-force_key_frames");
  }

  lemma HlsTimeLookup(inputPath: string, outputDir: string, r: Resolution)
    requires IsAbsolute(inputPath) && IsResolved(outputDir)
    ensures ValueAfter(Args(inputPath, outputDir, r), "-hls_time") == Some("2")
  {
    InputOptionsLackLater(inputPath);
    VideoCodecLacksLater();
    KeyframeOptionsLack(Digits(Gop));
    BitrateIsNotFlag(r);
    RateOptionsLack(Bitrate(r));
    AudioOptionsLack();
    ValueAfterAt(HlsOptions(), "-hls_time", 2);
    LookupInHlsOptions(inputPath, outputDir, r, "-hls_time");
  }

  /** The numerals of the keyframe options, as `parseInt` reads them. */
  lemma CadenceNumerals()
    ensures ParseInt("30") == Some(FrameRate)
    ensures ParseInt("2") == Some(SegmentSeconds)
    ensures ParseInt(Digits(Gop)) == Some(Gop)
    ensures "expr:gte(t,n_forced*2)" == "expr:gte(t,n_forced*" + Digits(SegmentSeconds) + ")"
  {
    ParseIntOfDigits(Gop, "");
    ParseIntOfDigits(FrameRate, "");
    ParseIntOfDigits(SegmentSeconds, "");
  }

  /** The keyframe interval pinned by `-g` and `-keyint_min` is the frame
      rate times the segment length, so every two-second segment boundary
      falls on a keyframe; scene cuts add no keyframes, and the
      forced-keyframe expression repeats the segment length. */
  lemma KeyframeCadence(inputPath: string, outputDir: string, r: Resolution)
    requires IsAbsolute(inputPath) && IsResolved(outputDir)
    ensures var a := Args(inputPath, outputDir, r);
      && IntValue(a, "-g") == IntValue(a, "-keyint_min") == Some(Gop)
      && IntValue(a, "-r") == Some(FrameRate)
      && IntValue(a, "-hls_time") == Some(SegmentSeconds)
      && Gop == FrameRate * SegmentSeconds
      && ValueAfter(a, "-sc_threshold") == Some("0")
      && ValueAfter(a, "-force_key_frames") == Some("expr:gte(t,n_forced*" + Digits(SegmentSeconds) + ")")
  {
    KeyframeIntervalLookups(inputPath, outputDir, r);
    KeyframeForcingLookups(inputPath, outputDir, r);
    HlsTimeLookup(inputPath, outputDir, r);
    CadenceNumerals();
  }

  // ---------------------------------------------------------------------
  // Stream selection

  lemma MapPositionsUpToRate(inputPath: string, r: Resolution)
    requires IsAbsolute(inputPath)
    ensures Positions(InputOptions(inputPath) + VideoCodec() + KeyframeOptions(Digits(Gop))
      + RateOptions(Bitrate(r)), "-map") == {7}
  {
    var i, v, k, q := InputOptions(inputPath), VideoCodec(), KeyframeOptions(Digits(Gop)), RateOptions(Bitrate(r));
    InputOptionsLack(inputPath);
    VideoCodecLacks();
    KeyframeOptionsLack(Digits(Gop));
    BitrateIsNotFlag(r);
    RateOptionsLack(Bitrate(r));
    PositionsAbsent(i, "-map");
    PositionsHead(v, "-map");
    PositionsAbsent(k, "-map");
    PositionsAbsent(q, "-map");
    PositionsAppend(i, v, "-map");
    ShiftedSingleton(0, 7);
    PositionsAppend(i + v, k, "-map");
    ShiftedEmpty(17);
    PositionsAppend(i + v + k, q, "-map");
    ShiftedEmpty(27);
  }

  /** `-map` occurs exactly twice: first with the first video stream, then
      with the first audio stream. */
  lemma MapPositions(inputPath: string, outputDir: string, r: Resolution)
    requires IsAbsolute(inputPath) && IsResolved(outputDir)
    ensures Positions(Args(inputPath, outputDir, r), "-map") == {7, 33}
  {
    var p := InputOptions(inputPath) + VideoCodec() + KeyframeOptions(Digits(Gop)) + RateOptions(Bitrate(r));
    var au, h, o := AudioOptions(), HlsOptions(), OutputOptions(outputDir);
    MapPositionsUpToRate(inputPath, r);
    AudioOptionsLack();
    HlsOptionsLack();
    OutputOptionsLack(outputDir);
    PositionsHead(au, "-map");
    PositionsAbsent(h, "-map");
    PositionsAbsent(o, "-map");
    PositionsAppend(p, au, "-map");
    ShiftedSingleton(0, 33);
    PositionsAppend(p + au, h, "-map");
    ShiftedEmpty(41);
    PositionsAppend(p + au + h, o, "-map");
    ShiftedEmpty(51);
  }

  /** Where words of the video and audio groups land in the whole list. */
  lemma GroupOffsets(i: seq<string>, v: seq<string>, k: seq<string>, q: seq<string>,
                     au: seq<string>, h: seq<string>, o: seq<string>)
    requires |i| == 7 && |v| == 10 && |k| == 10 && |q| == 6 && |au| == 8 && |h| == 10 && |o| == 3
    ensures var a := i + v + k + q + au + h + o;
      |a| == 54 && a[8] == v[1] && a[34] == au[1] && a[53] == o[2]
  {
  }

  lemma GroupLengths(inputPath: string, outputDir: string, r: Resolution)
    requires IsResolved(outputDir)
    ensures |InputOptions(inputPath)| == 7 && |VideoCodec()| == 10
    ensures |KeyframeOptions(Digits(Gop))| == 10 && |RateOptions(Bitrate(r))| == 6
    ensures |AudioOptions()| == 8 && |HlsOptions()| == 10 && |OutputOptions(outputDir)| == 3
  {
  }

  lemma MappedStreams(inputPath: string, outputDir: string, r: Resolution)
    requires IsResolved(outputDir)
    ensures var a := Args(inputPath, outputDir, r);
      |a| == 54 && a[8] == "0:v:0" && a[34] == "0:a:0"
  {
    GroupLengths(inputPath, outputDir, r);
    GroupOffsets(InputOptions(inputPath), VideoCodec(), KeyframeOptions(Digits(Gop)), RateOptions(Bitrate(r)),
      AudioOptions(), HlsOptions(), OutputOptions(outputDir));
  }

  lemma LastWord(inputPath: string, outputDir: string, r: Resolution)
    requires IsResolved(outputDir)
    ensures var a := Args(inputPath, outputDir, r);
      |a| == 54 && a[53] == Join(outputDir, PlaylistName)
  {
    GroupLengths(inputPath, outputDir, r);
    GroupOffsets(InputOptions(inputPath), VideoCodec(), KeyframeOptions(Digits(Gop)), RateOptions(Bitrate(r)),
      AudioOptions(), HlsOptions(), OutputOptions(outputDir));
  }

  lemma InputLookup(inputPath: string, outputDir: string, r: Resolution)
    requires IsResolved(outputDir)
    ensures ValueAfter(Args(inputPath, outputDir, r), "-i") == Some(inputPath)
    ensures IndexOf(Args(inputPath, outputDir, r), "-i") == Some(5)
  {
    ValueAfterAt(InputOptions(inputPath), "-i", 5);
    LookupInInputOptions(inputPath, outputDir, r, "-i");
  }

  /** ffmpeg reads the one input file, and exactly two streams are mapped
      from it: its first video stream and its first audio stream. */
  lemma StreamSelection(inputPath: string, outputDir: string, r: Resolution)
    requires IsAbsolute(inputPath) && IsResolved(outputDir)
    ensures var a := Args(inputPath, outputDir, r);
      && Positions(a, "-i") == {5} && ValueAfter(a, "-i") == Some(inputPath)
      && Positions(a, "-map") == {7, 33}
      && PairPositions(a, "-map", "0:v:0") == {7}
      && PairPositions(a, "-map", "0:a:0") == {33}
  {
    var a := Args(inputPath, outputDir, r);
    InputLookup(inputPath, outputDir, r);
    InputFlagOnce(inputPath, outputDir, r);
    MapPositions(inputPath, outputDir, r);
    MappedStreams(inputPath, outputDir, r);
    assert 7 in PairPositions(a, "-map", "0:v:0");
    assert 33 in PairPositions(a, "-map", "0:a:0");
  }

  // ---------------------------------------------------------------------
  // Output layout

  lemma SegmentLookup(inputPath: string, outputDir: string, r: Resolution)
    requires IsAbsolute(inputPath) && IsResolved(outputDir)
    ensures ValueAfter(Args(inputPath, outputDir, r), "-hls_segment_filename")
      == Some(Join(outputDir, SegmentPattern))
  {
    InputOptionsLackLater(inputPath);
    VideoCodecLacksLater();
    KeyframeOptionsLack(Digits(Gop));
    BitrateIsNotFlag(r);
    RateOptionsLack(Bitrate(r));
    AudioOptionsLack();
    HlsOptionsLack();
    ValueAfterAt(OutputOptions(outputDir), "-hls_segment_filename", 0);
    LookupInOutputOptions(inputPath, outputDir, r, "-hls_segment_filename");
  }

  /** Segments and playlist are both written straight into the film's
      output directory, the playlist being the last word, where ffmpeg
      takes its output file. */
  lemma OutputLayout(inputPath: string, outputDir: string, r: Resolution)
    requires IsAbsolute(inputPath) && IsResolved(outputDir)
    ensures var a := Args(inputPath, outputDir, r);
      && |a| == 54
      && ValueAfter(a, "-hls_segment_filename") == Some(Join(outputDir, SegmentPattern))
      && a[|a| - 1] == Join(outputDir, PlaylistName)
      && Dirname(a[|a| - 1]) == outputDir && Basename(a[|a| - 1]) == PlaylistName
      && Dirname(Join(outputDir, SegmentPattern)) == outputDir
      && Basename(Join(outputDir, SegmentPattern)) == SegmentPattern
  {
    SegmentLookup(inputPath, outputDir, r);
    LastWord(inputPath, outputDir, r);
    JoinSplits(outputDir, PlaylistName);
    JoinSplits(outputDir, SegmentPattern);
  }

  // ---------------------------------------------------------------------
  // What the resolution changes

  lemma RateOptionsDiffer(b1: string, b2: string)
    requires b1 != b2 && DoubledKilobits(b1) != DoubledKilobits(b2)
    ensures Differences(RateOptions(b1), RateOptions(b2)) == {1, 3, 5}
  {
    var d := Differences(RateOptions(b1), RateOptions(b2));
    assert 1 in d && 3 in d && 5 in d;
  }

  lemma RateDifferences(r1: Resolution, r2: Resolution)
    requires r1 != r2
    ensures Differences(RateOptions(Bitrate(r1)), RateOptions(Bitrate(r2))) == {1, 3, 5}
  {
    BufsizeDoublesBitrate(r1);
    BufsizeDoublesBitrate(r2);
    RateOptionsDiffer(Bitrate(r1), Bitrate(r2));
  }

  lemma ShiftedRateDifferences()
    ensures Shifted({1, 3, 5}, 27) == {28, 30, 32}
  {
    var s := Shifted({1, 3, 5}, 27);
    assert 1 + 27 in s && 3 + 27 in s && 5 + 27 in s;
  }

  lemma GroupDifferences(p: seq<string>, q1: seq<string>, q2: seq<string>,
                         au: seq<string>, h: seq<string>, o: seq<string>)
    requires |p| == 27 && |q1| == |q2| == 6 && Differences(q1, q2) == {1, 3, 5}
    ensures Differences(p + q1 + au + h + o, p + q2 + au + h + o) == {28, 30, 32}
  {
    DifferencesSame(p);
    DifferencesSame(au);
    DifferencesSame(h);
    DifferencesSame(o);
    DifferencesAppend(p, q1, p, q2);
    ShiftedRateDifferences();
    DifferencesAppend(p + q1, au, p + q2, au);
    ShiftedEmpty(33);
    DifferencesAppend(p + q1 + au, h, p + q2 + au, h);
    ShiftedEmpty(33 + |au|);
    DifferencesAppend(p + q1 + au + h, o, p + q2 + au + h, o);
    ShiftedEmpty(33 + |au| + |h|);
  }

  /** The two resolutions give argument lists that differ in exactly three
      words: the bitrate, the peak rate and the buffer size. */
  lemma ResolutionOnlyChangesRates(inputPath: string, outputDir: string, r1: Resolution, r2: Resolution)
    requires IsResolved(outputDir) && r1 != r2
    ensures |Args(inputPath, outputDir, r1)| == |Args(inputPath, outputDir, r2)|
    ensures Differences(Args(inputPath, outputDir, r1), Args(inputPath, outputDir, r2)) == {28, 30, 32}
  {
    GroupLengths(inputPath, outputDir, r1);
    GroupLengths(inputPath, outputDir, r2);
    RateDifferences(r1, r2);
    GroupDifferences(InputOptions(inputPath) + VideoCodec() + KeyframeOptions(Digits(Gop)),
      RateOptions(Bitrate(r1)), RateOptions(Bitrate(r2)), AudioOptions(), HlsOptions(), OutputOptions(outputDir));
  }

  // ---------------------------------------------------------------------
  // Film ids and directories

  /** Every film id is the id of exactly one draw of four bytes, and a
      string is a film id exactly when the bytes can be read back from it. */
  lemma FilmIdComplete(s: string)
    ensures IsFilmId(s) <==> FilmIdBytes(s).Some?
    ensures IsFilmId(s) ==> FilmId(FilmIdBytes(s).value) == s
  {
    if |s| == 13 && s[..5] == FilmPrefix {
      DecodeDefined(s[5..]);
      if IsHex(s[5..]) {
        EncodeDecode(s[5..]);
        assert s == s[..5] + s[5..];
      }
    }
  }

  /** Different draws give different film ids. */
  lemma FilmIdInjective(a: seq<byte>, b: seq<byte>)
    requires |a| == 4 && |b| == 4
    ensures FilmId(a) == FilmId(b) <==> a == b
  {
    if FilmId(a) == FilmId(b) {
      DecodeEncode(a);
      DecodeEncode(b);
      assert FilmId(a)[5..] == Encode(a) && FilmId(b)[5..] == Encode(b);
    }
  }

  /** Two jobs under one output root drawn from different bytes never share
      an output directory. */
  lemma DistinctDrawsDistinctDirs(a: seq<byte>, b: seq<byte>, inputPath: string, outputRoot: string, r: Resolution)
    requires |a| == 4 && |b| == 4 && a != b
    requires IsAbsolute(inputPath) && IsResolved(outputRoot)
    ensures Build(a, inputPath, outputRoot, r).outputDir != Build(b, inputPath, outputRoot, r).outputDir
  {
    var ja, jb := Build(a, inputPath, outputRoot, r), Build(b, inputPath, outputRoot, r);
    FilmIdInjective(a, b);
    assert Basename(ja.outputDir) != Basename(jb.outputDir);
  }

  // ---------------------------------------------------------------------
  // The playback path

  /** The playlist under `<webRoot>/films/<id>` is the file the web app
      serves at the playback path of `id`. */
  lemma PlaylistUnderWebRoot(webRoot: string, id: string)
    requires IsResolved(webRoot + "/films") && IsName(id)
    ensures Join(Join(webRoot + "/films", id), PlaylistName) == webRoot + PlaybackPath(id)
  {
    var root := webRoot + "/films";
    assert root != "/";
    assert Join(root, id) == root + "/" + id;
  }

  /** The URL printed on success names the playlist ffmpeg was told to
      write, when the output root is the `films` folder of a web root that
      serves its files at the site's root. */
  lemma PlaybackMatchesPlaylist(random: seq<byte>, inputPath: string, webRoot: string, r: Resolution)
    requires |random| == 4 && IsAbsolute(inputPath) && IsResolved(webRoot + "/films")
    ensures var job := Build(random, inputPath, webRoot + "/films", r);
      && |job.args| == 54
      && job.args[|job.args| - 1] == webRoot + OnClose(job.filmId, Some(0)).playbackPath
  {
    var job := Build(random, inputPath, webRoot + "/films", r);
    LastWord(inputPath, job.outputDir, r);
    PlaylistUnderWebRoot(webRoot, job.filmId);
  }

  // ---------------------------------------------------------------------
  // Each flag occurs once

  /** The positions of a word in the whole list, group by group. */
  lemma GroupPositions(i: seq<string>, v: seq<string>, k: seq<string>, q: seq<string>,
                       au: seq<string>, h: seq<string>, o: seq<string>, f: string)
    requires |i| == 7 && |v| == 10 && |k| == 10 && |q| == 6 && |au| == 8 && |h| == 10
    ensures Positions(i + v + k + q + au + h + o, f)
      == Positions(i, f) + Shifted(Positions(v, f), 7) + Shifted(Positions(k, f), 17)
       + Shifted(Positions(q, f), 27) + Shifted(Positions(au, f), 33)
       + Shifted(Positions(h, f), 41) + Shifted(Positions(o, f), 51)
  {
    PositionsAppend(i, v, f);
    PositionsAppend(i + v, k, f);
    PositionsAppend(i + v + k, q, f);
    PositionsAppend(i + v + k + q, au, f);
    PositionsAppend(i + v + k + q + au, h, f);
    PositionsAppend(i + v + k + q + au + h, o, f);
  }

  lemma OtherGroupsLackInput(gop: string, bitrate: string, outputDir: string)
    requires IsCanonical(gop) && |bitrate| > 0 && bitrate[0] != '-' && IsResolved(outputDir)
    ensures "-i" !in VideoCodec() && "-i" !in KeyframeOptions(gop) && "-i" !in RateOptions(bitrate)
    ensures "-i" !in AudioOptions() && "-i" !in HlsOptions() && "-i" !in OutputOptions(outputDir)
  {
    assert DoubledKilobits(bitrate)[0] != '-';
  }

  lemma RateOptionsLackKeyframeFlags(bitrate: string)
    requires |bitrate| > 0 && bitrate[0] != '-'
    ensures var q := RateOptions(bitrate);
      "-r" !in q && "-g" !in q && "-keyint_min" !in q && "-sc_threshold" !in q && "-force_key_frames" !in q
  {
    assert DoubledKilobits(bitrate)[0] != '-';
  }

  lemma AudioOptionsLackKeyframeFlags()
    ensures var au := AudioOptions();
      "-r" !in au && "-g" !in au && "-keyint_min" !in au && "-sc_threshold" !in au && "-force_key_frames" !in au
  {
  }

  lemma HlsAndOutputLackKeyframeFlags(outputDir: string)
    requires IsResolved(outputDir)
    ensures var h, o := HlsOptions(), OutputOptions(outputDir);
      && "-r" !in h && "-g" !in h && "-keyint_min" !in h && "-sc_threshold" !in h && "-force_key_frames" !in h
      && "-r" !in o && "-g" !in o && "-keyint_min" !in o && "-sc_threshold" !in o && "-force_key_frames" !in o
  {
  }

  lemma LaterGroupsLackRateFlags(outputDir: string)
    requires IsResolved(outputDir)
    ensures var au, h, o := AudioOptions(), HlsOptions(), OutputOptions(outputDir);
      && "-b:v" !in au && "-maxrate" !in au && "-bufsize" !in au
      && "-b:v" !in h && "-maxrate" !in h && "-bufsize" !in h
      && "-b:v" !in o && "-maxrate" !in o && "-bufsize" !in o
      && "-hls_time" !in o
  {
  }

  lemma InputFlagInGroup(inputPath: string)
    requires IsAbsolute(inputPath)
    ensures Positions(InputOptions(inputPath), "-i") == {5}
  {
    assert 5 in Positions(InputOptions(inputPath), "-i");
  }

  lemma KeyframeFlagsInGroup(gop: string)
    requires IsCanonical(gop)
    ensures var k := KeyframeOptions(gop);
      && Positions(k, "-r") == {0} && Positions(k, "-g") == {2} && Positions(k, "-keyint_min") == {4}
      && Positions(k, "-sc_threshold") == {6} && Positions(k, "-force_key_frames") == {8}
  {
    var k := KeyframeOptions(gop);
    assert 0 in Positions(k, "-r") && 2 in Positions(k, "-g") && 4 in Positions(k, "-keyint_min");
    assert 6 in Positions(k, "-sc_threshold") && 8 in Positions(k, "-force_key_frames");
  }

  lemma RateFlagsInGroup(bitrate: string)
    requires |bitrate| > 0 && bitrate[0] != '-'
    ensures var q := RateOptions(bitrate);
      Positions(q, "-b:v") == {0} && Positions(q, "-maxrate") == {2} && Positions(q, "-bufsize") == {4}
  {
    var q := RateOptions(bitrate);
    assert DoubledKilobits(bitrate)[0] != '-';
    assert 0 in Positions(q, "-b:v") && 2 in Positions(q, "-maxrate") && 4 in Positions(q, "-bufsize");
  }

  lemma HlsFlagsInGroups(outputDir: string)
    requires IsResolved(outputDir)
    ensures Positions(HlsOptions(), "-hls_time") == {2}
    ensures Positions(OutputOptions(outputDir), "-hls_segment_filename") == {0}
  {
    assert 2 in Positions(HlsOptions(), "-hls_time");
    assert 0 in Positions(OutputOptions(outputDir), "-hls_segment_filename");
  }

  lemma ShiftedGroupsEmpty()
    ensures Shifted({}, 7) == {} && Shifted({}, 17) == {} && Shifted({}, 27) == {}
    ensures Shifted({}, 33) == {} && Shifted({}, 41) == {} && Shifted({}, 51) == {}
  {
    ShiftedEmpty(7);
    ShiftedEmpty(17);
    ShiftedEmpty(27);
    ShiftedEmpty(33);
    ShiftedEmpty(41);
    ShiftedEmpty(51);
  }

  /** `-i` occurs once, so the list names exactly one input. */
  lemma InputFlagOnce(inputPath: string, outputDir: string, r: Resolution)
    requires IsAbsolute(inputPath) && IsResolved(outputDir)
    ensures Positions(Args(inputPath, outputDir, r), "-i") == {5}
  {
    var i, v, k, q := InputOptions(inputPath), VideoCodec(), KeyframeOptions(Digits(Gop)), RateOptions(Bitrate(r));
    var au, h, o := AudioOptions(), HlsOptions(), OutputOptions(outputDir);
    GroupLengths(inputPath, outputDir, r);
    BitrateIsNotFlag(r);
    OtherGroupsLackInput(Digits(Gop), Bitrate(r), outputDir);
    InputFlagInGroup(inputPath);
    PositionsAbsent(v, "-i");
    PositionsAbsent(k, "-i");
    PositionsAbsent(q, "-i");
    PositionsAbsent(au, "-i");
    PositionsAbsent(h, "-i");
    PositionsAbsent(o, "-i");
    ShiftedGroupsEmpty();
    GroupPositions(i, v, k, q, au, h, o, "-i");
  }

  /** A word found in the keyframe group only stands at that group's offset. */
  lemma WordOnlyInKeyframeGroup(i: seq<string>, v: seq<string>, k: seq<string>, q: seq<string>,
      au: seq<string>, h: seq<string>, o: seq<string>, f: string, j: nat)
    requires |i| == 7 && |v| == 10 && |k| == 10 && |q| == 6 && |au| == 8 && |h| == 10
    requires f !in i && f !in v && f !in q && f !in au && f !in h && f !in o && Positions(k, f) == {j}
    ensures Positions(i + v + k + q + au + h + o, f) == {17 + j}
  {
    PositionsAbsent(i, f);
    PositionsAbsent(v, f);
    PositionsAbsent(q, f);
    PositionsAbsent(au, f);
    PositionsAbsent(h, f);
    PositionsAbsent(o, f);
    ShiftedGroupsEmpty();
    ShiftedSingleton(j, 17);
    GroupPositions(i, v, k, q, au, h, o, f);
  }

  /** A flag held only by the keyframe group stands where that group puts it. */
  lemma OnlyInKeyframeGroup(inputPath: string, outputDir: string, r: Resolution, f: string, j: nat, p: nat)
    requires IsResolved(outputDir)
    requires var i, v, k, q := InputOptions(inputPath), VideoCodec(), KeyframeOptions(Digits(Gop)), RateOptions(Bitrate(r));
      var au, h, o := AudioOptions(), HlsOptions(), OutputOptions(outputDir);
      f !in i && f !in v && f !in q && f !in au && f !in h && f !in o && Positions(k, f) == {j}
    requires p == 17 + j
    ensures Positions(Args(inputPath, outputDir, r), f) == {p}
  {
    GroupLengths(inputPath, outputDir, r);
    WordOnlyInKeyframeGroup(InputOptions(inputPath), VideoCodec(), KeyframeOptions(Digits(Gop)), RateOptions(Bitrate(r)),
      AudioOptions(), HlsOptions(), OutputOptions(outputDir), f, j);
  }

  /** A word found in the rate group only stands at that group's offset. */
  lemma WordOnlyInRateGroup(i: seq<string>, v: seq<string>, k: seq<string>, q: seq<string>,
      au: seq<string>, h: seq<string>, o: seq<string>, f: string, j: nat)
    requires |i| == 7 && |v| == 10 && |k| == 10 && |q| == 6 && |au| == 8 && |h| == 10
    requires f !in i && f !in v && f !in k && f !in au && f !in h && f !in o && Positions(q, f) == {j}
    ensures Positions(i + v + k + q + au + h + o, f) == {27 + j}
  {
    PositionsAbsent(i, f);
    PositionsAbsent(v, f);
    PositionsAbsent(k, f);
    PositionsAbsent(au, f);
    PositionsAbsent(h, f);
    PositionsAbsent(o, f);
    ShiftedGroupsEmpty();
    ShiftedSingleton(j, 27);
    GroupPositions(i, v, k, q, au, h, o, f);
  }

  /** A flag held only by the rate group stands where that group puts it. */
  lemma OnlyInRateGroup(inputPath: string, outputDir: string, r: Resolution, f: string, j: nat, p: nat)
    requires IsResolved(outputDir)
    requires var i, v, k, q := InputOptions(inputPath), VideoCodec(), KeyframeOptions(Digits(Gop)), RateOptions(Bitrate(r));
      var au, h, o := AudioOptions(), HlsOptions(), OutputOptions(outputDir);
      f !in i && f !in v && f !in k && f !in au && f !in h && f !in o && Positions(q, f) == {j}
    requires p == 27 + j
    ensures Positions(Args(inputPath, outputDir, r), f) == {p}
  {
    GroupLengths(inputPath, outputDir, r);
    WordOnlyInRateGroup(InputOptions(inputPath), VideoCodec(), KeyframeOptions(Digits(Gop)), RateOptions(Bitrate(r)),
      AudioOptions(), HlsOptions(), OutputOptions(outputDir), f, j);
  }

  /** A word found in the hls group only stands at that group's offset. */
  lemma WordOnlyInHlsGroup(i: seq<string>, v: seq<string>, k: seq<string>, q: seq<string>,
      au: seq<string>, h: seq<string>, o: seq<string>, f: string, j: nat)
    requires |i| == 7 && |v| == 10 && |k| == 10 && |q| == 6 && |au| == 8 && |h| == 10
    requires f !in i && f !in v && f !in k && f !in q && f !in au && f !in o && Positions(h, f) == {j}
    ensures Positions(i + v + k + q + au + h + o, f) == {41 + j}
  {
    PositionsAbsent(i, f);
    PositionsAbsent(v, f);
    PositionsAbsent(k, f);
    PositionsAbsent(q, f);
    PositionsAbsent(au, f);
    PositionsAbsent(o, f);
    ShiftedGroupsEmpty();
    ShiftedSingleton(j, 41);
    GroupPositions(i, v, k, q, au, h, o, f);
  }

  /** A flag held only by the hls group stands where that group puts it. */
  lemma OnlyInHlsGroup(inputPath: string, outputDir: string, r: Resolution, f: string, j: nat, p: nat)
    requires IsResolved(outputDir)
    requires var i, v, k, q := InputOptions(inputPath), VideoCodec(), KeyframeOptions(Digits(Gop)), RateOptions(Bitrate(r));
      var au, h, o := AudioOptions(), HlsOptions(), OutputOptions(outputDir);
      f !in i && f !in v && f !in k && f !in q && f !in au && f !in o && Positions(h, f) == {j}
    requires p == 41 + j
    ensures Positions(Args(inputPath, outputDir, r), f) == {p}
  {
    GroupLengths(inputPath, outputDir, r);
    WordOnlyInHlsGroup(InputOptions(inputPath), VideoCodec(), KeyframeOptions(Digits(Gop)), RateOptions(Bitrate(r)),
      AudioOptions(), HlsOptions(), OutputOptions(outputDir), f, j);
  }

  /** A word found in the output group only stands at that group's offset. */
  lemma WordOnlyInOutputGroup(i: seq<string>, v: seq<string>, k: seq<string>, q: seq<string>,
      au: seq<string>, h: seq<string>, o: seq<string>, f: string, j: nat)
    requires |i| == 7 && |v| == 10 && |k| == 10 && |q| == 6 && |au| == 8 && |h| == 10
    requires f !in i && f !in v && f !in k && f !in q && f !in au && f !in h && Positions(o, f) == {j}
    ensures Positions(i + v + k + q + au + h + o, f) == {51 + j}
  {
    PositionsAbsent(i, f);
    PositionsAbsent(v, f);
    PositionsAbsent(k, f);
    PositionsAbsent(q, f);
    PositionsAbsent(au, f);
    PositionsAbsent(h, f);
    ShiftedGroupsEmpty();
    ShiftedSingleton(j, 51);
    GroupPositions(i, v, k, q, au, h, o, f);
  }

  /** A flag held only by the output group stands where that group puts it. */
  lemma OnlyInOutputGroup(inputPath: string, outputDir: string, r: Resolution, f: string, j: nat, p: nat)
    requires IsResolved(outputDir)
    requires var i, v, k, q := InputOptions(inputPath), VideoCodec(), KeyframeOptions(Digits(Gop)), RateOptions(Bitrate(r));
      var au, h, o := AudioOptions(), HlsOptions(), OutputOptions(outputDir);
      f !in i && f !in v && f !in k && f !in q && f !in au && f !in h && Positions(o, f) == {j}
    requires p == 51 + j
    ensures Positions(Args(inputPath, outputDir, r), f) == {p}
  {
    GroupLengths(inputPath, outputDir, r);
    WordOnlyInOutputGroup(InputOptions(inputPath), VideoCodec(), KeyframeOptions(Digits(Gop)), RateOptions(Bitrate(r)),
      AudioOptions(), HlsOptions(), OutputOptions(outputDir), f, j);
  }

  /** Where each keyframe flag stands in its group, and that no other group holds it. */
  lemma KeyframeFlagPlaced(inputPath: string, outputDir: string, r: Resolution, f: string, j: nat)
    requires IsAbsolute(inputPath) && IsResolved(outputDir)
    requires || (f == "-r" && j == 0) || (f == "-g" && j == 2) || (f == "-keyint_min" && j == 4)
             || (f == "-sc_threshold" && j == 6) || (f == "-force_key_frames" && j == 8)
    ensures var i, v, k, q := InputOptions(inputPath), VideoCodec(), KeyframeOptions(Digits(Gop)), RateOptions(Bitrate(r));
      var au, h, o := AudioOptions(), HlsOptions(), OutputOptions(outputDir);
      f !in i && f !in v && f !in q && f !in au && f !in h && f !in o && Positions(k, f) == {j}
  {
    InputOptionsLack(inputPath);
    VideoCodecLacks();
    BitrateIsNotFlag(r);
    RateOptionsLackKeyframeFlags(Bitrate(r));
    AudioOptionsLackKeyframeFlags();
    HlsAndOutputLackKeyframeFlags(outputDir);
    KeyframeFlagsInGroup(Digits(Gop));
  }

  /** A keyframe flag occurs once in the whole list. */
  lemma KeyframeFlagOnce(inputPath: string, outputDir: string, r: Resolution, f: string, j: nat, p: nat)
    requires IsAbsolute(inputPath) && IsResolved(outputDir)
    requires || (f == "-r" && j == 0) || (f == "-g" && j == 2) || (f == "-keyint_min" && j == 4)
             || (f == "-sc_threshold" && j == 6) || (f == "-force_key_frames" && j == 8)
    requires p == 17 + j
    ensures Positions(Args(inputPath, outputDir, r), f) == {p}
  {
    KeyframeFlagPlaced(inputPath, outputDir, r, f, j);
    OnlyInKeyframeGroup(inputPath, outputDir, r, f, j, p);
  }

  /** The keyframe flags occur once each, so no later word overrides them. */
  lemma KeyframeFlagsOnce(inputPath: string, outputDir: string, r: Resolution)
    requires IsAbsolute(inputPath) && IsResolved(outputDir)
    ensures var a := Args(inputPath, outputDir, r);
      && Positions(a, "-r") == {17} && Positions(a, "-g") == {19} && Positions(a, "-keyint_min") == {21}
      && Positions(a, "-sc_threshold") == {23} && Positions(a, "-force_key_frames") == {25}
  {
    KeyframeFlagOnce(inputPath, outputDir, r, "-r", 0, 17);
    KeyframeFlagOnce(inputPath, outputDir, r, "-g", 2, 19);
    KeyframeFlagOnce(inputPath, outputDir, r, "-keyint_min", 4, 21);
    KeyframeFlagOnce(inputPath, outputDir, r, "-sc_threshold", 6, 23);
    KeyframeFlagOnce(inputPath, outputDir, r, "-force_key_frames", 8, 25);
  }

  /** Where each rate flag stands in its group, and that no other group holds it. */
  lemma RateFlagPlaced(inputPath: string, outputDir: string, r: Resolution, f: string, j: nat)
    requires IsAbsolute(inputPath) && IsResolved(outputDir)
    requires (f == "-b:v" && j == 0) || (f == "-maxrate" && j == 2) || (f == "-bufsize" && j == 4)
    ensures var i, v, k, q := InputOptions(inputPath), VideoCodec(), KeyframeOptions(Digits(Gop)), RateOptions(Bitrate(r));
      var au, h, o := AudioOptions(), HlsOptions(), OutputOptions(outputDir);
      f !in i && f !in v && f !in k && f !in au && f !in h && f !in o && Positions(q, f) == {j}
  {
    InputOptionsLackLater(inputPath);
    VideoCodecLacksLater();
    KeyframeOptionsLack(Digits(Gop));
    LaterGroupsLackRateFlags(outputDir);
    BitrateIsNotFlag(r);
    RateFlagsInGroup(Bitrate(r));
  }

  /** A rate flag occurs once in the whole list. */
  lemma RateFlagOnce(inputPath: string, outputDir: string, r: Resolution, f: string, j: nat, p: nat)
    requires IsAbsolute(inputPath) && IsResolved(outputDir)
    requires (f == "-b:v" && j == 0) || (f == "-maxrate" && j == 2) || (f == "-bufsize" && j == 4)
    requires p == 27 + j
    ensures Positions(Args(inputPath, outputDir, r), f) == {p}
  {
    RateFlagPlaced(inputPath, outputDir, r, f, j);
    OnlyInRateGroup(inputPath, outputDir, r, f, j, p);
  }

  /** The rate flags occur once each. */
  lemma RateFlagsOnce(inputPath: string, outputDir: string, r: Resolution)
    requires IsAbsolute(inputPath) && IsResolved(outputDir)
    ensures var a := Args(inputPath, outputDir, r);
      Positions(a, "-b:v") == {27} && Positions(a, "-maxrate") == {29} && Positions(a, "-bufsize") == {31}
  {
    RateFlagOnce(inputPath, outputDir, r, "-b:v", 0, 27);
    RateFlagOnce(inputPath, outputDir, r, "-maxrate", 2, 29);
    RateFlagOnce(inputPath, outputDir, r, "-bufsize", 4, 31);
  }

  /** No group but the hls group holds `-hls_time`, and none but the output group the segment pattern. */
  lemma HlsFlagsPlaced(inputPath: string, outputDir: string, r: Resolution)
    requires IsAbsolute(inputPath) && IsResolved(outputDir)
    ensures var i, v, k, q := InputOptions(inputPath), VideoCodec(), KeyframeOptions(Digits(Gop)), RateOptions(Bitrate(r));
      var au, h, o := AudioOptions(), HlsOptions(), OutputOptions(outputDir);
      var t, s := "-hls_time", "-hls_segment_filename";
      && t !in i && t !in v && t !in k && t !in q && t !in au && t !in o && Positions(h, t) == {2}
      && s !in i && s !in v && s !in k && s !in q && s !in au && s !in h && Positions(o, s) == {0}
  {
    InputOptionsLackLater(inputPath);
    VideoCodecLacksLater();
    KeyframeOptionsLack(Digits(Gop));
    BitrateIsNotFlag(r);
    RateOptionsLack(Bitrate(r));
    AudioOptionsLack();
    HlsOptionsLack();
    LaterGroupsLackRateFlags(outputDir);
    HlsFlagsInGroups(outputDir);
  }

  /** The segment length and the segment file pattern are given once each. */
  lemma HlsFlagsOnce(inputPath: string, outputDir: string, r: Resolution)
    requires IsAbsolute(inputPath) && IsResolved(outputDir)
    ensures var a := Args(inputPath, outputDir, r);
      Positions(a, "-hls_time") == {43} && Positions(a, "-hls_segment_filename") == {51}
  {
    HlsFlagsPlaced(inputPath, outputDir, r);
    OnlyInHlsGroup(inputPath, outputDir, r, "-hls_time", 2, 43);
    OnlyInOutputGroup(inputPath, outputDir, r, "-hls_segment_filename", 0, 51);
  }
}
