# texture_extract — a Dafny model of the frame metadata engine

texture_extract cuts the frames of a packed sprite sheet out into separate
PNG files. Each frame's geometry comes from a sidecar file next to the
sheet. This project models and proves three pieces of it:

- `Frame` and `Frame::into_rotated_rect` (src/lib.rs), in `frame.dfy`
  (module `FrameModel`). A packer-rotated frame gets its width and height
  exchanged and its flag cleared.
- the line-oriented `.atlas` parser (src/parser/atlas_parser.rs), in
  `atlas_parser.dfy` (module `AtlasParser`).
  - It skips a three-line header and reads lines one by one.
  - A line without a colon names the frames that follow it.
  - A `rotate:` line opens a zeroed frame.
  - `xy:`, `size:` and `offset:` lines overwrite two fields of the last
    frame.
  - `Parse` is an imperative method with a loop over a growing frame
    sequence. It is proved equal to the fold `ParseResult`, and the
    properties are proved about `ParseResult`.
- the pure decisions of `main` (src/main.rs), in `driver.dfy` (module
  `Driver`):
  - which sidecar supplies the frames;
  - what each frame crops and whether and how it is turned;
  - the segments of the path its image is saved under.

Supporting modules:
- `wrappers.dfy`: `Option` and `Result`.
- `numbers.dfy`: `u32` and `str::parse::<u32>`.
- `strings.dfy`: the string slice operations the code calls: `trim`,
  `trim_end_matches`, `split_once`, `split`, `ends_with`.

Modelling choices:
- Integers are `U32` (naturals below 2^32), so out-of-range values cannot
  be built.
- Strings are sequences of Unicode scalar values.
- A file's contents enter as the sequence of its lines.
- File existence checks are booleans.
- The plist reader's outcome is an input.
- A filesystem path is the sequence of segments that `PathBuf::from`,
  `join` and `push` stack up.

The parser indexes `coords[0]` and `coords[1]` (and the same for `sizes`
and `offsets`) without checking the list's length. It therefore panics
when fewer than two tokens of an `xy`, `size` or `offset` value parse as
`u32`. In the model this is the explicit error `TooFewNumbers(key, value)`.
It ends the parse the way the panic ends the run. Nothing is skipped and
no default is filled in.

In three places the model follows what the code does, which is easy to
misread:
- Only empty lines are skipped, because the `trim` before the emptiness
  test is commented out. A line holding only spaces has no colon, so it
  becomes the current name.
- Names are not trimmed.
- `trim_end_matches(':')` is only applied to colon-free lines, so it never
  changes anything (`AtlasParser.StepNameLine`).

## Model

| member | source | states |
|---|---|---|
| FrameModel.IntoRotatedRect | src/lib.rs:13-24 | result never rotated; name, offset and origin kept; a rotated frame gets width and height exchanged; an unrotated frame is returned unchanged |
| FrameModel.IntoRotatedRectIdempotent | src/lib.rs:13-24 | resolving twice equals resolving once |
| FrameModel.IntoRotatedRectFixedPoints | src/lib.rs:15-23 | the transform leaves a frame unchanged exactly when it is not rotated |
| FrameModel.IntoRotatedRectPreservesArea | src/lib.rs:17 | width times height is the same before and after |
| FrameModel.IntoRotatedRectMatchesUnrotatedTwin | src/lib.rs:15-20 | a rotated frame resolves like the unrotated frame with sides exchanged |
| Numbers.ReadDigits | src/parser/atlas_parser.rs:39 | a successful digit read of a non-empty string starts and ends on a digit |
| Numbers.ReadDigitsMeaning | src/parser/atlas_parser.rs:39 | the digit reader succeeds exactly on all-digit strings, giving their positional decimal value |
| Numbers.ParseU32 | src/parser/atlas_parser.rs:39 | `parse::<u32>` of the empty string or a lone `+` fails |
| Numbers.ParseU32Meaning | src/parser/atlas_parser.rs:39 | `parse::<u32>` accepts an optional `+` and one or more digits whose value is below 2^32; every other token fails |
| Numbers.ParseShow | src/parser/atlas_parser.rs:39 | every `u32` reads back from its decimal rendering |
| Numbers.ParsePlusShow | src/parser/atlas_parser.rs:39 | a leading `+` is accepted |
| Numbers.ParseRejectsOverflow | src/parser/atlas_parser.rs:39 | a numeral of 2^32 or more fails instead of wrapping |
| Numbers.ParseRejectsNonDigit | src/parser/atlas_parser.rs:39 | a token with any non-digit other than a leading `+` fails |
| Numbers.DigitsValueOfShow | src/parser/atlas_parser.rs:39 | the positional value of a natural's rendering is that natural |
| Strings.TrimStartShape | src/parser/atlas_parser.rs:24-25 | `trim_start` keeps a suffix, drops only whitespace, and stops at a non-whitespace character |
| Strings.TrimEndShape | src/parser/atlas_parser.rs:24-25 | `trim_end` keeps a prefix, drops only whitespace, and stops at a non-whitespace character |
| Strings.TrimShape | src/parser/atlas_parser.rs:24-25 | a trimmed string neither starts nor ends with whitespace |
| Strings.Trim | src/parser/atlas_parser.rs:24-25 | `trim` never lengthens a string and maps the empty string to itself |
| Strings.TrimOfPadded | src/parser/atlas_parser.rs:39 | trimming whitespace-padded text returns exactly the unpadded core |
| Strings.TrimEndMatches | src/parser/atlas_parser.rs:22 | `trim_end_matches(c)` never lengthens a string and leaves no trailing `c` |
| Strings.TrimEndMatchesShape | src/parser/atlas_parser.rs:22 | `trim_end_matches(c)` keeps a prefix, drops only `c`s, and leaves no trailing `c` |
| Strings.TrimEndMatchesAbsent | src/parser/atlas_parser.rs:20-22 | on a string without `c` it is the identity |
| Strings.IndexOfFirst | src/parser/atlas_parser.rs:23 | no separator precedes the one found |
| Strings.SplitOnce | src/parser/atlas_parser.rs:23 | the two halves and the separator between them account for every character, and the separator sits right after the key |
| Strings.SplitOnceShape | src/parser/atlas_parser.rs:23 | `split_once` halves rebuild the line around its first colon, and the key holds no colon |
| Strings.SplitOnceUnique | src/parser/atlas_parser.rs:23 | every decomposition at a separator with a separator-free left part is the one `split_once` returns |
| Strings.Split | src/parser/atlas_parser.rs:39 | `split(c)` yields one more piece than the string has `c`s (`Occurrences`) |
| Strings.SplitPieces | src/parser/atlas_parser.rs:39 | no piece of `split(c)` contains `c` |
| Strings.SplitThenJoin | src/parser/atlas_parser.rs:39 | joining the pieces with `c` gives the string back |
| Strings.SplitAbsent | src/main.rs:96-106 | a string without `c` splits into itself alone |
| Strings.SplitJoin | src/main.rs:97-99 | `split` inverts joining separator-free pieces |
| Strings.SplitAfterPiece | src/main.rs:97-99 | a separator-free piece followed by the separator becomes the first piece |
| Strings.SplitAtFirst | src/main.rs:96-97 | a string containing `c` splits into at least two pieces, the first ending at the first `c` |
| Strings.SplitLastEndsWith | src/main.rs:92-99 | a separator-free suffix survives at the end of the last piece |
| AtlasParser.Parse | src/parser/atlas_parser.rs:6-76 | the imperative loop returns exactly `ParseResult` of the lines |
| AtlasParser.ApplyKey | src/parser/atlas_parser.rs:27-69 | the `match key` returns the frame list `KeyStep` specifies for every key |
| AtlasParser.ApplyField | src/parser/atlas_parser.rs:37-62 | the `xy`, `size` and `offset` arms match `KeyStep`, whatever the current name |
| AtlasParser.NewFrame | src/parser/atlas_parser.rs:30-35 | the pushed frame carries the current name and the flag, a zero rect and a zero offset |
| AtlasParser.SetField | src/parser/atlas_parser.rs:40-41 | `xy` writes the origin, `size` the width and height (lines 47-48), `offset` the offset (line 60); each leaves the other fields, the name and the flag as they were |
| AtlasParser.Key | src/parser/atlas_parser.rs:23-24 | the trimmed key is shorter than its line |
| AtlasParser.Value | src/parser/atlas_parser.rs:23-25 | the trimmed value is shorter than its line |
| AtlasParser.SkipHeader | src/parser/atlas_parser.rs:8 | `skip(3)`: the lines after the first three, in order, or none for a shorter file |
| AtlasParser.ParseTokens | src/parser/atlas_parser.rs:39 | the `filter_map` never yields more numbers than tokens |
| AtlasParser.TokenNumbers | src/parser/atlas_parser.rs:39 | one token yields at most one number |
| AtlasParser.ParseNumbers | src/parser/atlas_parser.rs:39 | a value yields at most one number per comma-separated token |
| AtlasParser.KeyStep | src/parser/atlas_parser.rs:27-69 | a key line fails only with a frame present, naming its key and value; otherwise it adds at most one frame and removes none |
| AtlasParser.Step | src/parser/atlas_parser.rs:15-70 | an empty line is skipped; a line fails only when it has a colon and a frame exists, with its key and value; otherwise at most one frame is added and none removed |
| AtlasParser.Run | src/parser/atlas_parser.rs:13-71 | no lines leave the state as it is |
| AtlasParser.RunFrameBounds | src/parser/atlas_parser.rs:13-71 | a successful run removes no frame and adds at most one per line |
| AtlasParser.ParseResult | src/parser/atlas_parser.rs:8-75 | a file of at most three lines gives no frames, and a success never has more frames than post-header lines |
| AtlasParser.ClassifyMeaning | src/parser/atlas_parser.rs:27-68 | the four keys and the catch-all are told apart exactly |
| AtlasParser.StepEmptyLine | src/parser/atlas_parser.rs:15-17 | an empty line changes neither the name nor the frames |
| AtlasParser.StepNameLine | src/parser/atlas_parser.rs:20-22 | a colon-free line replaces the name with the whole line and keeps the frames |
| AtlasParser.StepRotateLine | src/parser/atlas_parser.rs:28-36 | a `rotate` line appends a frame with the current name, zero rect and offset, and `rotated` exactly when the value is `true` |
| AtlasParser.StepFieldLineWithoutFrame | src/parser/atlas_parser.rs:37-62 | `xy`, `size` or `offset` before any frame is a no-op |
| AtlasParser.StepUnknownKey | src/parser/atlas_parser.rs:68 | any other key changes nothing |
| AtlasParser.StepFieldLine | src/parser/atlas_parser.rs:37-62 | with a frame present, fewer than two numbers is the error, otherwise the last frame takes the first two numbers |
| AtlasParser.KeyStepField | src/parser/atlas_parser.rs:37-62 | a field key with a frame present fails on fewer than two numbers, otherwise writes the first two into the last frame |
| AtlasParser.XyWritesOrigin | src/parser/atlas_parser.rs:37-43 | `xy` writes only `rect.x` and `rect.y` of the last frame; every other frame is unchanged |
| AtlasParser.SizeWritesExtent | src/parser/atlas_parser.rs:44-50 | `size` writes only `rect.width` and `rect.height` of the last frame |
| AtlasParser.OffsetWritesOffset | src/parser/atlas_parser.rs:57-62 | `offset` writes only the offset of the last frame |
| AtlasParser.StepFails | src/parser/atlas_parser.rs:37-62 | a line fails exactly when it is a field line, a frame exists, and fewer than two numbers parse |
| AtlasParser.KeyStepFails | src/parser/atlas_parser.rs:37-62 | the same condition on the trimmed key and value |
| AtlasParser.ParseTokensAppend | src/parser/atlas_parser.rs:39 | filter-mapping distributes over concatenation |
| AtlasParser.ParseTokensSingle | src/parser/atlas_parser.rs:39 | one token contributes its value if it parses after trimming, and nothing otherwise |
| AtlasParser.ParseTokensSound | src/parser/atlas_parser.rs:39 | every number is the parse of some token |
| AtlasParser.ParseTokensComplete | src/parser/atlas_parser.rs:39 | every token that parses contributes its number |
| AtlasParser.ParseNumbersOfPair | src/parser/atlas_parser.rs:39-41 | `a,b` in decimal reads back as the two numbers `a`, `b` |
| AtlasParser.RunAppend | src/parser/atlas_parser.rs:13-71 | running two blocks in sequence is running their concatenation |
| AtlasParser.HeaderIgnored | src/parser/atlas_parser.rs:8 | any two three-line headers give the same result |
| AtlasParser.HeaderOnlyHasNoFrames | src/parser/atlas_parser.rs:8 | a file of at most three lines parses to no frames |
| AtlasParser.RunDropsInert | src/parser/atlas_parser.rs:13-71 | deleting an inert line from a block leaves the run unchanged |
| AtlasParser.InertLineRemovable | src/parser/atlas_parser.rs:13-71 | deleting an empty line or an ignored-key line leaves the result unchanged |
| AtlasParser.RunSkipsInert | src/parser/atlas_parser.rs:15-17 | an inert line at the front of a block is passed over |
| AtlasParser.OpenedLength | src/parser/atlas_parser.rs:27-36 | the reference list has one entry per `rotate` line |
| AtlasParser.StepHeaders | src/parser/atlas_parser.rs:13-71 | one line adds the name and flag of the frame it opens, if any, and sets the name on a name line |
| AtlasParser.KeyStepHeaders | src/parser/atlas_parser.rs:27-69 | a key line adds only the frame a `rotate` key opens |
| AtlasParser.FieldKeyStepHeaders | src/parser/atlas_parser.rs:37-62 | a field line changes no frame's name or flag |
| AtlasParser.RunHeaders | src/parser/atlas_parser.rs:13-71 | the names and flags of a run are the reference list `Opened` of its lines |
| AtlasParser.FramesFollowRotateLines | src/parser/atlas_parser.rs:27-36 | a successful parse has one frame per post-header `rotate` line, in order, each with the name in force and the flag its value gives |
| AtlasParser.StepKeepsEarlierFrames | src/parser/atlas_parser.rs:30 | a line adds at most one frame and changes none but the last |
| AtlasParser.KeyStepKeepsEarlierFrames | src/parser/atlas_parser.rs:27-69 | the same for one key line |
| AtlasParser.RunKeepsEarlierFrames | src/parser/atlas_parser.rs:13-71 | frames are never removed, and a frame followed by a later one is final |
| AtlasParser.RunFailure | src/parser/atlas_parser.rs:37-62 | a failed run stops at a short field line; the lines before it succeed with at least one frame, and the error names its key and value |
| AtlasParser.ParseFailure | src/parser/atlas_parser.rs:8-62 | a failed parse names the post-header field line with fewer than two numbers; the post-header lines before it parse, with at least one frame |
| Driver.SelectSidecar | src/main.rs:52-61 | plist exactly when it exists; atlas exactly when the plist is absent and the atlas exists; none otherwise |
| Driver.LoadFrames | src/main.rs:52-61 | with a plist the load succeeds exactly when the plist reader does; with only an atlas exactly when its parse does; with neither it gives no frames; a failure blames the plist exactly when one exists |
| Driver.PlistWins | src/main.rs:52-55 | with a plist, the outcome is the plist reader's, whatever the atlas holds |
| Driver.AtlasWhenNoPlist | src/main.rs:56-60 | with no plist and an atlas, the outcome is the atlas parse, whatever the plist reader would give |
| Driver.NoSidecarNoFrames | src/main.rs:53-61 | with neither, the frame list is empty |
| Driver.AtlasFrameCount | src/main.rs:57-59 | frames loaded from an atlas number its post-header `rotate` lines |
| Driver.CropRect | src/main.rs:74-78 | the crop is the resolved rect: origin kept, sides exchanged for a rotated frame, stored rect otherwise |
| Driver.CropDiffersFromStored | src/main.rs:74-78 | the crop differs from the stored rect exactly for rotated non-square frames |
| Driver.AngleRotation | src/main.rs:80-85 | 90, 180 and 270 select their turn, and any other angle selects none |
| Driver.VisualRotation | src/main.rs:79-86 | a turn happens only when the stored flag and the user flag are both set, and then it is the angle's |
| Driver.ResolvedFlagNeverRotates | src/main.rs:73-74 | deciding on the resolved frame's flag instead of the stored one would never turn anything |
| Driver.Turned | src/main.rs:80-85 | quarter turns exchange width and height, which a half turn keeps |
| Driver.SavedExtent | src/main.rs:73-86 | the saved image has the recorded width and height, kept or exchanged |
| Driver.SavedExtentRestoresRecordedSize | src/main.rs:73-86 | a rotated frame turned by a quarter, like any unrotated frame, is saved in the size its sidecar records |
| Driver.SavedExtentStaysSwapped | src/main.rs:73-86 | a rotated frame not turned by a quarter is saved in the exchanged size |
| Strings.EndsWith | src/main.rs:92 | `ends_with(suffix)` holds exactly when the string is something followed by `suffix` |
| Driver.OutputFileName | src/main.rs:91-94 | the file name ends with `.png`, which is appended only when missing |
| Driver.OutputFileNameIdempotent | src/main.rs:91-94 | naming twice is naming once |
| Driver.OutputFileNameMerges | src/main.rs:91-94 | a name without the suffix and that name plus `.png` are written to the same file |
| Driver.OutputFileNameInjective | src/main.rs:91-94 | names that agree on having the suffix get distinct files when distinct |
| Driver.OutputPath | src/main.rs:96-106 | the path starts with the output folder and has at least one segment below it |
| Driver.OutputPathShape | src/main.rs:96-106 | the segments below the folder are separator-free, joined by `/` are the file name, and the last ends with `.png` |
| Driver.OutputPathNests | src/main.rs:96-99 | a name with `/` gives at least two segments below the folder, the first being its text before the first `/` |
| Driver.Location | src/main.rs:96-106 | the location the joined segments name has no empty segment and no more segments than were pushed |
| Driver.OutputPathTail | src/main.rs:96-106 | the segments below the folder depend only on the name |
| Driver.LocationKeepsNonEmpty | src/main.rs:96-99 | joining non-empty segments keeps every one of them |
| Driver.LocationOfPlain | src/main.rs:96-99 | non-empty segments below the folder are all kept in the location |
| Driver.LocationOfPlainName | src/main.rs:96-106 | a name whose pieces are plain (not empty, `.` or `..`, and free of `\` and `:`) is saved at the folder followed by all its pieces |
| Driver.OutputPathInjective | src/main.rs:90-106 | two frames whose name pieces are all plain (not empty, `.` or `..`, and free of `\` and `:`) are saved to the same path string only when their file names coincide |
| Driver.LeadingSlashCollides | src/main.rs:96-99 | the names `/b` and `b` have different file names yet are saved to the same location, because `join("")` adds no segment |
| Driver.BuildOutputPath | src/main.rs:90-106 | the suffix statement and the `join` loop or `push` build exactly `OutputPath` |
| Driver.PlanFrame | src/main.rs:73-106 | the loop body crops `CropRect`, turns by the stored flag, and saves under the frame's own name |
| Driver.ExtractionPlan | src/main.rs:70-109 | one plan per frame, in frame order |
| Driver.NoRotateFlagNoTurns | src/main.rs:79 | without the rotate flag nothing is turned, at any angle |

## Left out

- Reading the sidecar (`fs::read_to_string`) and splitting it with `lines()`: the parser's input is the sequence of lines. Its read error is not modelled.
- `parse_plist_frames` and the plist format: that source is not part of this model, so the reader's outcome is an input of `Driver.LoadFrames`.
- The main.rs call `parse_atlas_file` is taken to be the atlas parser modelled here.
- `with_extension` and the `exists` checks on the sidecar paths: these are file-system effects, replaced by two booleans.
- Command-line parsing with clap, `wait_for_user`, `process::exit` and the `println!` messages: I/O. That includes the `Invalid angle value` message, whose branch the model represents as `NoRotation`.
- Driver.AngleRotation: the angle is a `U32`. The `parse::<u32>().unwrap()` panic on a non-numeric angle argument is not modelled.
- Image decoding, `crop`, `rotate90/180/270` and `save`: foreign library calls on pixel data. The model keeps only which rectangle is cropped, which turn is chosen, and the size the turn gives.
- Driver.SavedExtent: ignores the imaging library's clamping of a crop that reaches past the sheet's edge. It states the requested size.
- `create_dir_all` for the output folder and for nested parents: file-system effects.
- Driver.OutputPath: a path is the list of segments pushed. `Driver.Location` models only how `join` absorbs empty segments. A platform's second separator is not modelled.
- Driver.OutputPathInjective: holds only for names whose `/`-pieces are all non-empty, not `.` or `..`, and free of `\` and `:`. On Windows a piece starting with `\` keeps only the drive of the path built so far, and a piece with a drive prefix replaces it, so `a/\b` and `\b`, or `x/C:b` and `y/C:b`, are saved to the same file. The plain-piece condition excludes these pieces. Names such as `/b` and `b`, or `a//b` and `a/b`, are saved to the same file (`Driver.LeadingSlashCollides` shows the first pair). The operating system's resolution of `.` and `..` is not modelled. Whether distinct path strings name the same file is the file system's business and is not modelled: on a case-insensitive file system (the default on Windows and macOS) `Hero` and `hero` are one file.
- Run-aborting errors from image I/O inside the frame loop: `ExtractionPlan` plans every frame. It does not model stopping at the first failed save.
- AtlasParser.Parse: the frames live in a sequence that the loop reassigns. The in-place `last_mut` update is written as a sequence update of the last element, so aliasing is not modelled.
- The panic on fewer than two numbers is modelled as the `TooFewNumbers` error result, not as a process abort.
