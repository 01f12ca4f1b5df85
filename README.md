# encode-hls: a verified model of the encode-job builder

`encode-hls` is a command-line tool that turns one MP4 file into a video-on-demand
HLS package by running ffmpeg. Once the prompt, the filesystem and the child
process are stripped away, its core is a deterministic function with four inputs:
four random bytes, an absolute input path, an absolute output root and a
resolution (720p or 1080p). It produces:

- a film id: `film_` followed by the lowercase hex encoding of the bytes
  (section 8 of RFC 4648);
- an output directory: the root joined with the id;
- the ffmpeg argument list, a single literal of 54 words in which only the
  input path, the three rate values and the two output paths vary.

There is also one outcome function. It maps ffmpeg's exit code to success,
which carries the playback URL, or to failure, which carries the code.

The project is written in pure functional style, with datatypes, functions and lemmas only.
The source is a single expression-only script with no loops and no mutated state.

| module | file | contents |
|---|---|---|
| `Wrappers` | `wrappers.dfy` | `Option` |
| `Decimal` | `decimal.dfy` | `String(n)` for naturals as `Digits`, and JavaScript `parseInt` on a decimal prefix as `ParseInt` |
| `Base16` | `base16.dfy` | the `byte` type, and `Buffer.toString("hex")` as `Encode` with its inverse `Decode` |
| `Paths` | `paths.dfy` | `path.join` of a resolved directory and one file name, with `dirname` and `basename` as its inverse |
| `ArgList` | `arg_list.dfy` | how a `-flag value` list is read: first index, value after a flag, positions, differing positions |
| `EncodeHls` | `encode_hls.dfy` | resolutions, the film id, the bitrate table, the argument list as seven option groups, `Build` and `OnClose` |
| `EncodeHlsProperties` | `encode_hls_properties.dfy` | what the argument list guarantees: rate control, keyframe cadence, stream selection, output layout, what the resolution changes, film-id uniqueness, and the playback path |

`Args` concatenates the source's array literal in seven groups: input, video codec,
keyframes, rates, audio, HLS and output. This changes neither the order nor any
word; it lets each property be proved about one group and then carried to the
whole list.

## Model

| member | source | states |
|---|---|---|
| Base16.Encode | apps/api/bin/encode-hls.js:9 | The hex text of n bytes has exactly 2n characters, all in `0-9a-f`. |
| Base16.HexCharInAlphabet | apps/api/bin/encode-hls.js:9 | Each nibble is written as its character of the alphabet `0123456789abcdef`. |
| Base16.DecodeEncode | apps/api/bin/encode-hls.js:9 | Decoding the hex text of any bytes gives back exactly those bytes. |
| Base16.EncodeDecode | apps/api/bin/encode-hls.js:9 | Every decodable text is the hex text of the bytes it decodes to, so the lowercase encoding is canonical. |
| Base16.DecodeDefined | apps/api/bin/encode-hls.js:9 | A text decodes if and only if it has even length and consists of lowercase hex digits. |
| Base16.EncodeInjective | apps/api/bin/encode-hls.js:9 | Distinct byte strings have distinct hex texts. |
| EncodeHls.FilmId | apps/api/bin/encode-hls.js:8-10 | `genFilmId` with the four bytes passed in: `film_` plus 8 lowercase hex digits, which is also a single path segment. |
| EncodeHlsProperties.FilmIdComplete | apps/api/bin/encode-hls.js:8-10 | A string is a film id exactly when four bytes can be read back from it, and it is then the id of those bytes. |
| EncodeHlsProperties.FilmIdInjective | apps/api/bin/encode-hls.js:8-10 | Two draws give the same film id if and only if they are the same bytes. |
| Paths.Join | apps/api/bin/encode-hls.js:39 | `path.join` of a resolved directory and a name is resolved, is not the root, and ends in a separator followed by the name. |
| Paths.JoinSplits | apps/api/bin/encode-hls.js:39 | `dirname` and `basename` of the joined path give back the directory and the name. |
| Paths.JoinInjective | apps/api/bin/encode-hls.js:39 | In one directory, distinct names join to distinct paths. |
| EncodeHls.Build | apps/api/bin/encode-hls.js:36-118 | The job's id is the film id of the bytes, and the bytes can be read back from it. The output directory is `path.join(outputRoot, id)`, is resolved, and splits back into root and id. The argument list is built from the input path, that directory and the resolution. |
| EncodeHls.Args | apps/api/bin/encode-hls.js:54-118 | The list has 54 words. What each flag carries, where each word stands and what the resolution changes are stated by the `EncodeHlsProperties` lemmas below. |
| EncodeHlsProperties.DistinctDrawsDistinctDirs | apps/api/bin/encode-hls.js:38-39 | Two jobs under one root whose random bytes differ never share an output directory. |
| EncodeHls.Bitrate | apps/api/bin/encode-hls.js:43-46 | The map lookup is defined for both choices, and `parseInt` of the value is the resolution's kb/s figure (2500 or 4500). |
| EncodeHls.BitrateDigits | apps/api/bin/encode-hls.js:43-46 | Each map value is the decimal numeral of the resolution's kb/s figure followed by `k`. |
| EncodeHlsProperties.RateTable | apps/api/bin/encode-hls.js:43-46 | 720p passes `2500k` and a `5000k` buffer; 1080p passes `4500k` and a `9000k` buffer. |
| EncodeHls.DoubledKilobitsParses | apps/api/bin/encode-hls.js:91 | `DoubledKilobits`, the template `${parseInt(b) * 2}k`, gives `NaNk` when `parseInt` cannot read b, and otherwise a value that `parseInt` reads back as twice the number in b. |
| EncodeHlsProperties.BitrateIsNotFlag | apps/api/bin/encode-hls.js:43-46 | Every bitrate value starts with a digit, so it can never be read as a flag. |
| Decimal.Digits | apps/api/bin/encode-hls.js:78 | `String(n)` is a canonical decimal numeral, with no leading zero unless n is 0. |
| Decimal.DigitsOfValue | apps/api/bin/encode-hls.js:78 | Every canonical numeral is `String` of its value. |
| Decimal.DigitsInjective | apps/api/bin/encode-hls.js:78 | Distinct numbers print as distinct numerals. |
| Decimal.ParseInt | apps/api/bin/encode-hls.js:91 | `parseInt` is NaN (None) exactly when the text is empty or does not start with a digit. |
| Decimal.ParseIntOfDigits | apps/api/bin/encode-hls.js:91 | `parseInt(String(n) + rest)` is n whenever rest does not start with a digit, so `parseInt("2500k")` is 2500. |
| EncodeHlsProperties.BufsizeDoublesBitrate | apps/api/bin/encode-hls.js:90-91 | The buffer size is the numeral of twice the bitrate's kb/s followed by `k`, and it parses back to that doubled figure. |
| EncodeHlsProperties.RateOptionValues | apps/api/bin/encode-hls.js:86-91 | Within the rate group, `-b:v` and `-maxrate` carry the same bitrate and `-bufsize` carries its doubled form. |
| EncodeHlsProperties.RateControl | apps/api/bin/encode-hls.js:86-91 | In the whole list, `-b:v` and `-maxrate` both carry the looked-up bitrate, and `-bufsize` carries twice its kb/s followed by `k`. |
| EncodeHlsProperties.CadenceNumerals | apps/api/bin/encode-hls.js:52 | The numerals in the keyframe options parse to the frame rate, the segment length and the GOP. The forced-keyframe expression contains the segment length. |
| EncodeHlsProperties.KeyframeCadence | apps/api/bin/encode-hls.js:52-84 | In the whole list, `-g` and `-keyint_min` both parse to 60, `-r` to 30 and `-hls_time` to 2, and 60 = 30 × 2. Scene-cut keyframes are off (`-sc_threshold 0`), and keyframes are forced every segment length. |
| EncodeHlsProperties.KeyframeIntervalLookups | apps/api/bin/encode-hls.js:75-80 | In the whole list, `-r` carries `30`, and `-g` and `-keyint_min` carry the same `String(gop)`. |
| EncodeHlsProperties.KeyframeForcingLookups | apps/api/bin/encode-hls.js:81-84 | In the whole list, `-sc_threshold` carries `0` and `-force_key_frames` carries the two-second expression. |
| EncodeHlsProperties.HlsTimeLookup | apps/api/bin/encode-hls.js:106-107 | In the whole list, `-hls_time` carries `2`. |
| EncodeHlsProperties.InputFlagOnce | apps/api/bin/encode-hls.js:54-118 | `-i` occurs exactly once, at index 5, so ffmpeg is given one input. |
| EncodeHlsProperties.KeyframeFlagsOnce | apps/api/bin/encode-hls.js:75-84 | `-r`, `-g`, `-keyint_min`, `-sc_threshold` and `-force_key_frames` each occur exactly once, at 17, 19, 21, 23 and 25, so no later word overrides their values. |
| EncodeHlsProperties.RateFlagsOnce | apps/api/bin/encode-hls.js:86-91 | `-b:v`, `-maxrate` and `-bufsize` each occur exactly once, at 27, 29 and 31. |
| EncodeHlsProperties.HlsFlagsOnce | apps/api/bin/encode-hls.js:106-115 | `-hls_time` occurs exactly once, at 43, and `-hls_segment_filename` exactly once, at 51. |
| EncodeHlsProperties.InputLookup | apps/api/bin/encode-hls.js:60-61 | `-i` first stands at index 5 and carries the input path. |
| EncodeHlsProperties.MapPositions | apps/api/bin/encode-hls.js:64-95 | `-map` occurs exactly twice, at indices 7 and 33. |
| EncodeHlsProperties.MappedStreams | apps/api/bin/encode-hls.js:54-118 | The list has 54 words, the one after the first `-map` is `0:v:0`, and the one after the second is `0:a:0`. |
| EncodeHlsProperties.StreamSelection | apps/api/bin/encode-hls.js:60-95 | `-i` occurs exactly once, at 5, followed by the input path, before any `-map`. Exactly one `-map 0:v:0` pair exists (at 7) and exactly one `-map 0:a:0` pair (at 33), video before audio. |
| EncodeHlsProperties.LastWord | apps/api/bin/encode-hls.js:117 | The list has 54 words, and the last is `path.join(outputDir, "index.m3u8")`. |
| EncodeHlsProperties.SegmentLookup | apps/api/bin/encode-hls.js:114-115 | `-hls_segment_filename` carries `path.join(outputDir, "seg_%03d.ts")`. |
| EncodeHlsProperties.OutputLayout | apps/api/bin/encode-hls.js:114-117 | The segment pattern and the playlist, the last word, both lie directly in the output directory under their own names. |
| EncodeHlsProperties.RateDifferences | apps/api/bin/encode-hls.js:86-91 | The rate groups of the two resolutions differ at exactly positions 1, 3 and 5. |
| EncodeHlsProperties.ResolutionOnlyChangesRates | apps/api/bin/encode-hls.js:54-118 | For the same paths, the argument lists of two different resolutions have the same length and differ exactly at indices 28, 30 and 32, the values of `-b:v`, `-maxrate` and `-bufsize`. |
| EncodeHls.OnClose | apps/api/bin/encode-hls.js:124-131 | The outcome is success if and only if the code is 0. Success carries `/films/<id>/index.m3u8`; failure carries the code unchanged, including a null code. |
| EncodeHls.PlaybackPathLayout | apps/api/bin/encode-hls.js:127 | For a film id that is a single path segment, the printed URL is `path.join` of the film's folder under `/films` and the playlist name; `dirname` and `basename` give back the playlist name, the film's folder, the film id and `/films`. |
| EncodeHlsProperties.PlaylistUnderWebRoot | apps/api/bin/encode-hls.js:117-127 | The playlist inside `<webRoot>/films/<id>` is the web root followed by the playback path of the id. |
| EncodeHlsProperties.PlaybackMatchesPlaylist | apps/api/bin/encode-hls.js:39-127 | When the output root is `<webRoot>/films`, the playlist ffmpeg writes is the web root followed by the URL printed on success. |

## Left out

- The prompt (`inquirer.prompt`, apps/api/bin/encode-hls.js:13-34) and its `fs.existsSync` validator are interactive I/O. The model takes the answers as parameters. Because the resolution question is a list with two choices, the resolution is a datatype with two values.
- `path.resolve` (apps/api/bin/encode-hls.js:36-37) depends on the working directory. The model takes paths already resolved: absolute, and with no trailing separator except the root itself.
- `Paths.Join`: models `path.join` only for a resolved directory and a single name with no separator. It does not model the normalisation of `.` or `..` segments or of repeated separators, because the callers never pass them.
- `crypto.randomBytes(4)` (apps/api/bin/encode-hls.js:9) is an entropy source. The four bytes are a parameter.
- `fs.mkdirSync` (apps/api/bin/encode-hls.js:41) is a filesystem side effect, as is its failure, which would abort before ffmpeg starts.
- `spawn("ffmpeg", args, { stdio: "inherit" })` and the asynchronous `close` event (apps/api/bin/encode-hls.js:122-124) are process plumbing. Only the mapping from exit code to outcome is modelled.
- `console.log` and `console.error` (apps/api/bin/encode-hls.js:48-50, 120, 126-129) only print. The printed success line is modelled as `Outcome.Succeeded`'s playback path.
- Whether ffmpeg honours the flags and writes a valid HLS playlist is the encoder's behaviour. The model states only what the argument list contains.
- `Decimal.ParseInt`: models `parseInt` only on text that starts with a decimal digit, or that gives NaN. It does not model skipping leading white space, a sign, or a `0x` prefix, because the bitrate values never carry them.
- `EncodeHls.DoubledKilobits`: prints NaN as `NaNk` and otherwise prints the exact doubled integer. It does not model the float formatting of numbers beyond 2^53, because the values here are 2500 and 4500.
- A failure to start ffmpeg at all is not modelled. The source has no `error` handler, so such a failure is not mapped to any outcome. The outcome of the `close` event is modelled as the code has it: `Failed(None)` stands for Node's null exit code when ffmpeg is ended by a signal. A spawn failure has no outcome of its own: with no `error` listener, Node throws the error before `close` fires.
