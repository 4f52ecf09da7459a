/**
 * The line-oriented atlas sidecar parser (src/parser/atlas_parser.rs).
 *
 * After a three-line header, each line is one of: empty (skipped), a line
 * without a colon (the name of the frames that follow), or a `key: value`
 * line. A `rotate` line opens a new frame with zeroed geometry; `xy`, `size`
 * and `offset` lines fill in the most recently opened frame; every other
 * key is ignored.
 *
 * The source indexes the parsed coordinate list at 0 and 1 without checking
 * its length, which panics when fewer than two tokens of an `xy`, `size` or
 * `offset` value parse as `u32`. Here that case is the explicit error
 * `TooFewNumbers`, which ends the parse just as the panic ends the run.
 */
module AtlasParser {
  import opened Wrappers
  import opened Numbers
  import opened Strings
  import opened FrameModel

  const HEADER_LINES: nat := 3

  datatype ParseError = TooFewNumbers(key: string, value: string)

  /** What the parser's loop carries from line to line. */
  datatype ParserState = ParserState(currentName: string, frames: seq<Frame>)

  const Start := ParserState("", [])

  /** `lines().skip(3)` on the already split lines. */
  function SkipHeader(contents: seq<string>): (body: seq<string>)
    ensures |body| == if |contents| <= HEADER_LINES then 0 else |contents| - HEADER_LINES
    ensures forall k :: 0 <= k < |body| ==> body[k] == contents[k + HEADER_LINES]
  {
    if |contents| <= HEADER_LINES then [] else contents[HEADER_LINES..]
  }

  /** The trimmed text before the first colon of a key line. */
  function Key(line: string): (key: string)
    requires ':' in line
    ensures |key| < |line|
  {
    Trim(SplitOnce(line, ':').0)
  }

  /** The trimmed text after the first colon of a key line. */
  function Value(line: string): (value: string)
    requires ':' in line
    ensures |value| < |line|
  {
    Trim(SplitOnce(line, ':').1)
  }

  predicate IsFieldKey(key: string) {
    key == "xy" || key == "size" || key == "offset"
  }

  predicate IsRotateLine(line: string) {
    ':' in line && Key(line) == "rotate"
  }

  /** A line that changes nothing: empty, or a key the parser does not consume. */
  predicate IsInert(line: string) {
    line == [] || (':' in line && Key(line) != "rotate" && !IsFieldKey(Key(line)))
  }

  /** A line that names the frames below it: not empty and without a colon. */
  predicate IsNameLine(line: string) {
    line != [] && ':' !in line
  }

  /** `filter_map(|s| s.trim().parse().ok())`: the tokens that parse, in order. */
  function ParseTokens(tokens: seq<string>): (nums: seq<U32>)
    ensures |nums| <= |tokens|
  {
    if tokens == [] then []
    else
      TokenNumbers(tokens[0]) + ParseTokens(tokens[1..])
  }

  /** `s.trim().parse().ok()` for one token, as the zero or one numbers it contributes. */
  function TokenNumbers(token: string): (nums: seq<U32>)
    ensures |nums| <= 1
  {
    match ParseU32(Trim(token)) case Some(n) => [n] case None => []
  }

  /** The numbers of a comma-separated coordinate value. */
  function ParseNumbers(value: string): (nums: seq<U32>)
    ensures |nums| <= Occurrences(value, ',') + 1
  {
    ParseTokens(Split(value, ','))
  }

  /** The frame a `rotate` line opens. */
  function NewFrame(name: string, rotated: bool): (f: Frame)
    ensures f.name == name && f.rotated == rotated
    ensures f.rect == Rect(0, 0, 0, 0) && f.offset == Offset(0, 0)
  {
    Frame(name, Rect(0, 0, 0, 0), Offset(0, 0), rotated)
  }

  /** The fields one coordinate line writes. */
  function SetField(kind: KeyKind, f: Frame, a: U32, b: U32): (r: Frame)
    requires kind.XyKey? || kind.SizeKey? || kind.OffsetKey?
    ensures r.name == f.name && r.rotated == f.rotated
    ensures kind.XyKey? ==> r.rect == Rect(a, b, f.rect.width, f.rect.height) && r.offset == f.offset
    ensures kind.SizeKey? ==> r.rect == Rect(f.rect.x, f.rect.y, a, b) && r.offset == f.offset
    ensures kind.OffsetKey? ==> r.rect == f.rect && r.offset == Offset(a, b)
  {
    match kind
    case XyKey => f.(rect := f.rect.(x := a, y := b))
    case SizeKey => f.(rect := f.rect.(width := a, height := b))
    case OffsetKey => f.(offset := Offset(a, b))
  }

  /** The effect of one post-header line. */
  function Step(s: ParserState, line: string): (r: Result<ParserState, ParseError>)
    ensures line == [] ==> r == Ok(s)
    ensures r.Err? ==> ':' in line && s.frames != [] && r.error == TooFewNumbers(Key(line), Value(line))
    ensures r.Ok? ==> |s.frames| <= |r.value.frames| <= |s.frames| + 1
  {
    if line == [] then Ok(s)
    else if ':' !in line then Ok(s.(currentName := TrimEndMatches(line, ':')))
    else
      match KeyStep(s.currentName, s.frames, Key(line), Value(line))
      case Err(e) => Err(e)
      case Ok(frames) => Ok(s.(frames := frames))
  }

  datatype KeyKind = RotateKey | XyKey | SizeKey | OffsetKey | OtherKey

  function Classify(key: string): KeyKind {
    if key == "rotate" then RotateKey
    else if key == "xy" then XyKey
    else if key == "size" then SizeKey
    else if key == "offset" then OffsetKey
    else OtherKey
  }

  /**
   * The frame list after a `key: value` line, given its trimmed key and
   * value and the current name.
   */
  function KeyStep(name: string, frames: seq<Frame>, key: string, value: string): (r: Result<seq<Frame>, ParseError>)
    ensures r.Err? ==> frames != [] && r.error == TooFewNumbers(key, value)
    ensures r.Ok? ==> |frames| <= |r.value| <= |frames| + 1
  {
    var kind := Classify(key);
    match kind
    case RotateKey => Ok(frames + [NewFrame(name, value == "true")])
    case OtherKey => Ok(frames)
    case _ =>
      if frames == [] then Ok(frames)
      else
        var nums := ParseNumbers(value);
        if |nums| < 2 then Err(TooFewNumbers(key, value))
        else
          var last := |frames| - 1;
          Ok(frames[last := SetField(kind, frames[last], nums[0], nums[1])])
  }

  /** The lines applied in order; the first error ends the run. */
  function Run(lines: seq<string>, s: ParserState): (r: Result<ParserState, ParseError>)
    ensures lines == [] ==> r == Ok(s)
  {
    if lines == [] then Ok(s)
    else
      match Step(s, lines[0])
      case Err(e) => Err(e)
      case Ok(t) => Run(lines[1..], t)
  }

  /** What `parse` returns for a file with the given lines. */
  function ParseResult(contents: seq<string>): (r: Result<seq<Frame>, ParseError>)
    ensures |contents| <= HEADER_LINES ==> r == Ok([])
    ensures r.Ok? ==> |r.value| <= |SkipHeader(contents)|
  {
    match Run(SkipHeader(contents), Start)
    case Err(e) => Err(e)
    case Ok(s) =>
      RunFrameBounds(SkipHeader(contents), Start);
      Ok(s.frames)
  }

  /** `parse`: the header skip and the line loop over a growing frame list. */
  method Parse(contents: seq<string>) returns (result: Result<seq<Frame>, ParseError>)
    ensures result == ParseResult(contents)
  {
    var lines := SkipHeader(contents);
    var frames: seq<Frame> := [];
    var currentName := "";
    for i := 0 to |lines|
      invariant Run(lines, Start) == Run(lines[i..], ParserState(currentName, frames))
    {
      var line := lines[i];
      RunUnfold(lines, i, ParserState(currentName, frames));
      if line == [] {
        continue;
      }
      if ':' !in line {
        currentName := TrimEndMatches(line, ':');
      } else {
        var (rawKey, rawValue) := SplitOnce(line, ':');
        var key, value := Trim(rawKey), Trim(rawValue);
        var next := ApplyKey(currentName, frames, key, value);
        match next
        case Err(e) =>
          return Err(e);
        case Ok(updated) =>
          frames := updated;
      }
    }
    return Ok(frames);
  }

  /**
   * The `match key` of the loop body: `rotate` pushes a new frame, `xy`,
   * `size` and `offset` overwrite two fields of the last frame when there
   * is one, anything else is ignored.
   */
  method ApplyKey(currentName: string, frames: seq<Frame>, key: string, value: string)
    returns (result: Result<seq<Frame>, ParseError>)
    ensures result == KeyStep(currentName, frames, key, value)
  {
    var kind := Classify(key);
    match kind
    case RotateKey =>
      return Ok(frames + [NewFrame(currentName, value == "true")]);
    case OtherKey =>
      return Ok(frames);
    case _ =>
      result := ApplyField(kind, frames, key, value);
  }

  /**
   * The `xy`, `size` and `offset` arms: when there is a last frame, the
   * first two numbers of the value go into the fields `kind` names.
   */
  method ApplyField(kind: KeyKind, frames: seq<Frame>, key: string, value: string)
    returns (result: Result<seq<Frame>, ParseError>)
    requires Classify(key) == kind && (kind.XyKey? || kind.SizeKey? || kind.OffsetKey?)
    ensures forall name :: result == KeyStep(name, frames, key, value)
  {
    if frames == [] {
      return Ok(frames);
    }
    var nums := ParseNumbers(value);
    if |nums| < 2 {
      return Err(TooFewNumbers(key, value));
    }
    var last := |frames| - 1;
    return Ok(frames[last := SetField(kind, frames[last], nums[0], nums[1])]);
  }

  lemma RunUnfold(lines: seq<string>, i: nat, s: ParserState)
    requires i < |lines|
    ensures Run(lines[i..], s) == match Step(s, lines[i])
                                 case Err(e) => Err(e)
                                 case Ok(t) => Run(lines[i + 1..], t)
  {
    assert lines[i..][1..] == lines[i + 1..];
  }

  lemma ClassifyMeaning(key: string)
    ensures Classify(key) == RotateKey <==> key == "rotate"
    ensures (Classify(key) == XyKey || Classify(key) == SizeKey || Classify(key) == OffsetKey) <==> IsFieldKey(key)
    ensures Classify(key) == OtherKey <==> key != "rotate" && !IsFieldKey(key)
  {
  }

  // ---------------------------------------------------------------------
  // One line at a time
  // ---------------------------------------------------------------------

  /** An empty line changes neither the current name nor the frames. */
  lemma StepEmptyLine(s: ParserState)
    ensures Step(s, "") == Ok(s)
  {
  }

  /**
   * A line without a colon replaces the current name by the whole line,
   * untrimmed (`trim_end_matches(':')` has nothing to remove), and leaves
   * the frames alone.
   */
  lemma StepNameLine(s: ParserState, line: string)
    requires IsNameLine(line)
    ensures Step(s, line) == Ok(ParserState(line, s.frames))
  {
    TrimEndMatchesAbsent(line, ':');
  }

  /**
   * A `rotate` line appends one frame carrying the current name, zero
   * geometry, and a flag that holds exactly when the value is `true`.
   */
  lemma StepRotateLine(s: ParserState, line: string)
    requires IsRotateLine(line)
    ensures Step(s, line) ==
            Ok(s.(frames := s.frames + [Frame(s.currentName, Rect(0, 0, 0, 0), Offset(0, 0), Value(line) == "true")]))
  {
    ClassifyMeaning(Key(line));
  }

  /** `xy`, `size` and `offset` lines before the first frame are no-ops. */
  lemma StepFieldLineWithoutFrame(s: ParserState, line: string)
    requires ':' in line && IsFieldKey(Key(line)) && s.frames == []
    ensures Step(s, line) == Ok(s)
  {
    ClassifyMeaning(Key(line));
  }

  /** Any other key changes nothing. */
  lemma StepUnknownKey(s: ParserState, line: string)
    requires ':' in line && Key(line) != "rotate" && !IsFieldKey(Key(line))
    ensures Step(s, line) == Ok(s)
  {
    ClassifyMeaning(Key(line));
  }

  /** The state after a field line that found a frame and two numbers. */
  function FieldUpdated(s: ParserState, kind: KeyKind, nums: seq<U32>): ParserState
    requires s.frames != [] && |nums| >= 2
    requires kind.XyKey? || kind.SizeKey? || kind.OffsetKey?
  {
    var last := |s.frames| - 1;
    s.(frames := s.frames[last := SetField(kind, s.frames[last], nums[0], nums[1])])
  }

  /**
   * A field line with a frame to update: too few numbers is an error;
   * otherwise only the last frame changes, and only in the written fields.
   */
  lemma StepFieldLine(s: ParserState, line: string)
    requires ':' in line && IsFieldKey(Key(line)) && s.frames != []
    ensures var nums := ParseNumbers(Value(line));
            if |nums| < 2 then Step(s, line) == Err(TooFewNumbers(Key(line), Value(line)))
            else Step(s, line) == Ok(FieldUpdated(s, Classify(Key(line)), nums))
  {
    var key, value := Key(line), Value(line);
    ClassifyMeaning(key);
    assert Step(s, line) == match KeyStep(s.currentName, s.frames, key, value)
                            case Err(e) => Err(e)
                            case Ok(frames) => Ok(s.(frames := frames));
    KeyStepField(s.currentName, s.frames, key, value);
  }

  /** `KeyStep` on a field key with a frame to update. */
  lemma KeyStepField(name: string, frames: seq<Frame>, key: string, value: string)
    requires IsFieldKey(key) && frames != []
    ensures var nums := ParseNumbers(value); var last := |frames| - 1;
            if |nums| < 2 then KeyStep(name, frames, key, value) == Err(TooFewNumbers(key, value))
            else KeyStep(name, frames, key, value) ==
                 Ok(frames[last := SetField(Classify(key), frames[last], nums[0], nums[1])])
  {
    ClassifyMeaning(key);
  }

  /** `xy` writes `rect.x` and `rect.y` of the last frame and nothing else. */
  lemma XyWritesOrigin(s: ParserState, nums: seq<U32>)
    requires s.frames != [] && |nums| >= 2
    ensures var t := FieldUpdated(s, XyKey, nums); var n := |s.frames|;
            t.currentName == s.currentName && |t.frames| == n &&
            t.frames[..n - 1] == s.frames[..n - 1] &&
            t.frames[n - 1] == s.frames[n - 1].(rect := s.frames[n - 1].rect.(x := nums[0], y := nums[1]))
  {
  }

  /** `size` writes `rect.width` and `rect.height` of the last frame and nothing else. */
  lemma SizeWritesExtent(s: ParserState, nums: seq<U32>)
    requires s.frames != [] && |nums| >= 2
    ensures var t := FieldUpdated(s, SizeKey, nums); var n := |s.frames|;
            t.currentName == s.currentName && |t.frames| == n &&
            t.frames[..n - 1] == s.frames[..n - 1] &&
            t.frames[n - 1] == s.frames[n - 1].(rect := s.frames[n - 1].rect.(width := nums[0], height := nums[1]))
  {
  }

  /** `offset` writes `offset` of the last frame and nothing else. */
  lemma OffsetWritesOffset(s: ParserState, nums: seq<U32>)
    requires s.frames != [] && |nums| >= 2
    ensures var t := FieldUpdated(s, OffsetKey, nums); var n := |s.frames|;
            t.currentName == s.currentName && |t.frames| == n &&
            t.frames[..n - 1] == s.frames[..n - 1] &&
            t.frames[n - 1] == s.frames[n - 1].(offset := Offset(nums[0], nums[1]))
  {
  }

  /** The only failing line: a field line, a frame to update, fewer than two numbers. */
  lemma StepFails(s: ParserState, line: string)
    ensures Step(s, line).Err? <==>
            line != [] && ':' in line && IsFieldKey(Key(line)) && s.frames != [] &&
            |ParseNumbers(Value(line))| < 2
  {
    if line != [] && ':' in line {
      KeyStepFails(s.currentName, s.frames, Key(line), Value(line));
    }
  }

  lemma KeyStepFails(name: string, frames: seq<Frame>, key: string, value: string)
    ensures KeyStep(name, frames, key, value).Err? <==>
            IsFieldKey(key) && frames != [] && |ParseNumbers(value)| < 2
  {
    ClassifyMeaning(key);
  }

  // ---------------------------------------------------------------------
  // Coordinate values
  // ---------------------------------------------------------------------

  /** Token parsing works token by token, so it distributes over concatenation. */
  lemma {:induction false} ParseTokensAppend(a: seq<string>, b: seq<string>)
    ensures ParseTokens(a + b) == ParseTokens(a) + ParseTokens(b)
  {
    if a == [] {
      assert a + b == b;
    } else {
      var h := TokenNumbers(a[0]);
      assert (a + b)[0] == a[0];
      assert (a + b)[1..] == a[1..] + b;
      assert ParseTokens(a + b) == h + ParseTokens(a[1..] + b);
      ParseTokensAppend(a[1..], b);
      assert h + (ParseTokens(a[1..]) + ParseTokens(b)) == (h + ParseTokens(a[1..])) + ParseTokens(b);
    }
  }

  /** One token contributes its value when it parses after trimming, and nothing otherwise. */
  lemma ParseTokensSingle(token: string)
    ensures ParseTokens([token]) ==
            match ParseU32(Trim(token)) case Some(n) => [n] case None => []
  {
    assert [token][1..] == [];
  }

  /** Every number comes from a token that parses to it. */
  lemma {:induction false} ParseTokensSound(tokens: seq<string>, i: nat)
    requires i < |ParseTokens(tokens)|
    ensures exists k :: 0 <= k < |tokens| && ParseU32(Trim(tokens[k])) == Some(ParseTokens(tokens)[i])
  {
    var head := TokenNumbers(tokens[0]);
    if i < |head| {
      assert ParseTokens(tokens)[i] == head[0];
    } else {
      ParseTokensSound(tokens[1..], i - |head|);
      var k :| 0 <= k < |tokens[1..]| &&
               ParseU32(Trim(tokens[1..][k])) == Some(ParseTokens(tokens[1..])[i - |head|]);
      assert tokens[1..][k] == tokens[k + 1];
    }
  }

  /** Every token that parses contributes its number. */
  lemma {:induction false} ParseTokensComplete(tokens: seq<string>, k: nat)
    requires k < |tokens| && ParseU32(Trim(tokens[k])).Some?
    ensures ParseU32(Trim(tokens[k])).value in ParseTokens(tokens)
  {
    if k > 0 {
      assert tokens[1..][k - 1] == tokens[k];
      ParseTokensComplete(tokens[1..], k - 1);
    }
  }

  /** `"a,b"` written in decimal reads back as the pair `a`, `b`. */
  lemma ParseNumbersOfPair(a: U32, b: U32)
    ensures ParseNumbers(Show(a) + [','] + Show(b)) == [a, b]
  {
    var sa, sb := Show(a), Show(b);
    assert ',' !in sa && ',' !in sb by {
      assert forall i :: 0 <= i < |sa| ==> IsDigit(sa[i]);
      assert forall i :: 0 <= i < |sb| ==> IsDigit(sb[i]);
    }
    SplitAfterPiece(sa, sb, ',');
    SplitAbsent(sb, ',');
    assert Split(sa + [','] + sb, ',') == [sa, sb];
    TrimOfPlain(sa);
    TrimOfPlain(sb);
    ParseShow(a);
    ParseShow(b);
    ParseTokensAppend([sa], [sb]);
    ParseTokensSingle(sa);
    ParseTokensSingle(sb);
    assert [sa, sb] == [sa] + [sb];
  }

  /** A decimal numeral has no whitespace for `trim` to remove. */
  lemma TrimOfPlain(s: string)
    requires s != [] && AllDigits(s)
    ensures Trim(s) == s
  {
    assert "" + s + "" == s;
    TrimOfPadded("", s, "");
  }

  // ---------------------------------------------------------------------
  // Whole files
  // ---------------------------------------------------------------------

  /** Running two blocks of lines is running the first, then the second. */
  lemma {:induction false} RunAppend(a: seq<string>, b: seq<string>, s: ParserState)
    ensures Run(a + b, s) == match Run(a, s)
                             case Err(e) => Err(e)
                             case Ok(t) => Run(b, t)
  {
    if a != [] {
      assert (a + b)[0] == a[0];
      assert (a + b)[1..] == a[1..] + b;
      match Step(s, a[0])
      case Err(e) =>
      case Ok(t) => RunAppend(a[1..], b, t);
    } else {
      assert a + b == b;
    }
  }

  /** The three header lines never influence the result, whatever they hold. */
  lemma HeaderIgnored(header1: seq<string>, header2: seq<string>, body: seq<string>)
    requires |header1| == HEADER_LINES && |header2| == HEADER_LINES
    ensures ParseResult(header1 + body) == ParseResult(header2 + body)
  {
    if body != [] {
      assert (header1 + body)[HEADER_LINES..] == body;
      assert (header2 + body)[HEADER_LINES..] == body;
    }
  }

  /** A file of at most the header has no frames. */
  lemma HeaderOnlyHasNoFrames(contents: seq<string>)
    requires |contents| <= HEADER_LINES
    ensures ParseResult(contents) == Ok([])
  {
  }

  /**
   * An empty line or a line with a key the parser ignores can be deleted
   * from the body without changing the result.
   */
  lemma InertLineRemovable(contents: seq<string>, k: nat)
    requires HEADER_LINES <= k < |contents| && IsInert(contents[k])
    ensures ParseResult(contents) == ParseResult(contents[..k] + contents[k + 1..])
  {
    var before, after := contents[HEADER_LINES..k], contents[k + 1..];
    BodyAroundLine(contents, k);
    RunDropsInert(before, contents[k], after);
    var body, shorter := SkipHeader(contents), SkipHeader(contents[..k] + contents[k + 1..]);
    assert ParseResult(contents) == match Run(body, Start) case Err(e) => Err(e) case Ok(t) => Ok(t.frames);
    assert ParseResult(contents[..k] + contents[k + 1..]) ==
           match Run(shorter, Start) case Err(e) => Err(e) case Ok(t) => Ok(t.frames);
  }

  /** The body of a file, and of the file without its line `k`, around that line. */
  lemma BodyAroundLine(contents: seq<string>, k: nat)
    requires HEADER_LINES <= k < |contents|
    ensures SkipHeader(contents) == contents[HEADER_LINES..k] + ([contents[k]] + contents[k + 1..])
    ensures SkipHeader(contents[..k] + contents[k + 1..]) == contents[HEADER_LINES..k] + contents[k + 1..]
  {
    var before, after := contents[HEADER_LINES..k], contents[k + 1..];
    assert contents[HEADER_LINES..] == before + ([contents[k]] + after);
    var shorter := contents[..k] + contents[k + 1..];
    if k + 1 < |contents| || k > HEADER_LINES {
      assert shorter[HEADER_LINES..] == before + after;
    } else {
      assert before + after == [];
    }
  }

  /** Deleting an inert line from the middle of a block leaves the run's result unchanged. */
  lemma RunDropsInert(before: seq<string>, line: string, after: seq<string>)
    requires IsInert(line)
    ensures Run(before + ([line] + after), Start) == Run(before + after, Start)
  {
    RunAppend(before, [line] + after, Start);
    RunAppend(before, after, Start);
    if Run(before, Start).Ok? {
      RunSkipsInert(line, after, Run(before, Start).value);
    }
  }

  /** An inert line at the front of a block is skipped over. */
  lemma RunSkipsInert(line: string, after: seq<string>, t: ParserState)
    requires IsInert(line)
    ensures Run([line] + after, t) == Run(after, t)
  {
    if line != [] {
      StepUnknownKey(t, line);
    }
    assert ([line] + after)[1..] == after;
  }

  /** The name and flag each frame was opened with. */
  function Headers(frames: seq<Frame>): (hs: seq<(string, bool)>)
    ensures |hs| == |frames|
  {
    seq(|frames|, k requires 0 <= k < |frames| => (frames[k].name, frames[k].rotated))
  }

  /**
   * Reference definition: one entry per `rotate` line, with the name of the
   * last name line above it (`name` before any) and whether its value is
   * `true`.
   */
  function Opened(lines: seq<string>, name: string): seq<(string, bool)> {
    if lines == [] then []
    else OpenedBy(lines[0], name) + Opened(lines[1..], NameAfter(lines[0], name))
  }

  /** The entry a line contributes under the name in force: one for a `rotate` line, none otherwise. */
  function OpenedBy(line: string, name: string): seq<(string, bool)> {
    if IsRotateLine(line) then [(name, Value(line) == "true")] else []
  }

  /** The name in force after a line. */
  function NameAfter(line: string, name: string): string {
    if IsNameLine(line) then line else name
  }

  /** The number of `rotate` lines. */
  function RotateCount(lines: seq<string>): nat {
    if lines == [] then 0
    else (if IsRotateLine(lines[0]) then 1 else 0) + RotateCount(lines[1..])
  }

  lemma {:induction false} OpenedLength(lines: seq<string>, name: string)
    ensures |Opened(lines, name)| == RotateCount(lines)
  {
    if lines != [] {
      OpenedLength(lines[1..], NameAfter(lines[0], name));
    }
  }

  /** One line adds at most the header of the frame it opens, and may set the name. */
  lemma StepHeaders(s: ParserState, line: string)
    requires Step(s, line).Ok?
    ensures var t := Step(s, line).value;
            Headers(t.frames) == Headers(s.frames) + OpenedBy(line, s.currentName) &&
            t.currentName == NameAfter(line, s.currentName)
  {
    if IsNameLine(line) {
      StepNameLine(s, line);
    } else if line != [] {
      ClassifyMeaning(Key(line));
      KeyStepHeaders(s.currentName, s.frames, Key(line), Value(line));
    }
  }

  lemma KeyStepHeaders(name: string, frames: seq<Frame>, key: string, value: string)
    requires KeyStep(name, frames, key, value).Ok?
    ensures Headers(KeyStep(name, frames, key, value).value) ==
            Headers(frames) + (if Classify(key) == RotateKey then [(name, value == "true")] else [])
  {
    match Classify(key)
    case RotateKey =>
      HeadersAppend(frames, NewFrame(name, value == "true"));
    case OtherKey =>
    case _ =>
      FieldKeyStepHeaders(name, frames, key, value);
  }

  /** A field line changes no frame's name or flag. */
  lemma FieldKeyStepHeaders(name: string, frames: seq<Frame>, key: string, value: string)
    requires Classify(key).XyKey? || Classify(key).SizeKey? || Classify(key).OffsetKey?
    requires KeyStep(name, frames, key, value).Ok?
    ensures Headers(KeyStep(name, frames, key, value).value) == Headers(frames)
  {
    if frames != [] {
      var last := |frames| - 1;
      var nums := ParseNumbers(value);
      HeadersUpdate(frames, last, SetField(Classify(key), frames[last], nums[0], nums[1]));
    }
  }

  lemma HeadersAppend(frames: seq<Frame>, f: Frame)
    ensures Headers(frames + [f]) == Headers(frames) + [(f.name, f.rotated)]
  {
    assert forall k :: 0 <= k < |frames| ==> (frames + [f])[k] == frames[k];
  }

  lemma HeadersUpdate(frames: seq<Frame>, k: nat, f: Frame)
    requires k < |frames| && f.name == frames[k].name && f.rotated == frames[k].rotated
    ensures Headers(frames[k := f]) == Headers(frames)
  {
  }

  lemma {:induction false} RunHeaders(lines: seq<string>, s: ParserState)
    requires Run(lines, s).Ok?
    ensures Headers(Run(lines, s).value.frames) == Headers(s.frames) + Opened(lines, s.currentName)
  {
    if lines != [] {
      var line, rest := lines[0], lines[1..];
      var t := Step(s, line).value;
      assert Run(lines, s) == Run(rest, t);
      StepHeaders(s, line);
      RunHeaders(rest, t);
      OpenedAfter(Headers(s.frames), lines, s.currentName);
    }
  }

  /** Appending the entries of the first line and then those of the rest is appending the whole list. */
  lemma OpenedAfter(prefix: seq<(string, bool)>, lines: seq<string>, name: string)
    requires lines != []
    ensures prefix + OpenedBy(lines[0], name) + Opened(lines[1..], NameAfter(lines[0], name)) ==
            prefix + Opened(lines, name)
  {
    var head, tail := OpenedBy(lines[0], name), Opened(lines[1..], NameAfter(lines[0], name));
    assert Opened(lines, name) == head + tail;
    AppendAssociative(prefix, head, tail);
  }

  lemma AppendAssociative<T>(a: seq<T>, b: seq<T>, c: seq<T>)
    ensures a + b + c == a + (b + c)
  {
  }

  /**
   * A successful parse yields one frame per `rotate` line of the body, in
   * the order of those lines, each with the name in effect at its line and
   * the flag its value gives.
   */
  lemma FramesFollowRotateLines(contents: seq<string>)
    requires ParseResult(contents).Ok?
    ensures var frames := ParseResult(contents).value;
            Headers(frames) == Opened(SkipHeader(contents), "") &&
            |frames| == RotateCount(SkipHeader(contents))
  {
    RunHeaders(SkipHeader(contents), Start);
    OpenedLength(SkipHeader(contents), "");
  }

  /** One line never removes a frame, and changes none but the last. */
  lemma StepKeepsEarlierFrames(s: ParserState, line: string)
    requires Step(s, line).Ok?
    ensures var t := Step(s, line).value;
            |s.frames| <= |t.frames| <= |s.frames| + 1 &&
            forall k :: 0 <= k < |s.frames| - 1 ==> t.frames[k] == s.frames[k]
  {
    if line != [] && ':' in line {
      KeyStepKeepsEarlierFrames(s.currentName, s.frames, Key(line), Value(line));
    }
  }

  lemma KeyStepKeepsEarlierFrames(name: string, frames: seq<Frame>, key: string, value: string)
    requires KeyStep(name, frames, key, value).Ok?
    ensures var r := KeyStep(name, frames, key, value).value;
            |frames| <= |r| <= |frames| + 1 &&
            forall k :: 0 <= k < |frames| - 1 ==> r[k] == frames[k]
  {
    match Classify(key)
    case RotateKey =>
    case OtherKey =>
    case _ =>
  }

  /** A run adds at most one frame per line and never removes one. */
  lemma {:induction false} RunFrameBounds(lines: seq<string>, s: ParserState)
    requires Run(lines, s).Ok?
    ensures |s.frames| <= |Run(lines, s).value.frames| <= |s.frames| + |lines|
  {
    if lines != [] {
      var t := Step(s, lines[0]).value;
      assert Run(lines, s) == Run(lines[1..], t);
      RunFrameBounds(lines[1..], t);
    }
  }

  /** Once a later frame exists, an earlier frame is final. */
  lemma {:induction false} RunKeepsEarlierFrames(lines: seq<string>, s: ParserState)
    requires Run(lines, s).Ok?
    ensures var t := Run(lines, s).value;
            |s.frames| <= |t.frames| &&
            forall k :: 0 <= k < |s.frames| - 1 ==> t.frames[k] == s.frames[k]
  {
    if lines != [] {
      var t := Step(s, lines[0]).value;
      StepKeepsEarlierFrames(s, lines[0]);
      RunKeepsEarlierFrames(lines[1..], t);
    }
  }

  /** A field line with a frame to update and fewer than two numbers. */
  predicate ShortFieldLine(line: string) {
    ':' in line && IsFieldKey(Key(line)) && |ParseNumbers(Value(line))| < 2
  }

  /**
   * A failed run stops at a field line with fewer than two numbers: the
   * lines before it run without error and leave a frame to update, and the
   * error names the line's key and value.
   */
  lemma {:induction false} RunFailure(lines: seq<string>, s: ParserState) returns (i: nat)
    requires Run(lines, s).Err?
    ensures i < |lines| && ShortFieldLine(lines[i])
    ensures Run(lines[..i], s).Ok? && Run(lines[..i], s).value.frames != []
    ensures Run(lines, s).error == TooFewNumbers(Key(lines[i]), Value(lines[i]))
  {
    var line := lines[0];
    StepFails(s, line);
    match Step(s, line)
    case Err(e) =>
      i := 0;
      assert lines[..0] == [];
    case Ok(t) =>
      var rest := lines[1..];
      var j := RunFailure(rest, t);
      i := j + 1;
      assert rest[j] == lines[i];
      assert lines[..i][0] == line && lines[..i][1..] == rest[..j];
      assert Run(lines[..i], s) == Run(rest[..j], t);
  }

  /**
   * A failed parse names the post-header line that caused it; the body
   * lines above it parse and leave a frame to update.
   */
  lemma ParseFailure(contents: seq<string>) returns (i: nat)
    requires ParseResult(contents).Err?
    ensures HEADER_LINES <= i < |contents| && ShortFieldLine(contents[i])
    ensures Run(contents[HEADER_LINES..i], Start).Ok? && Run(contents[HEADER_LINES..i], Start).value.frames != []
    ensures ParseResult(contents).error == TooFewNumbers(Key(contents[i]), Value(contents[i]))
  {
    var body := SkipHeader(contents);
    assert ParseResult(contents).error == Run(body, Start).error;
    var j := RunFailure(body, Start);
    i := j + HEADER_LINES;
    assert body[j] == contents[i];
    assert body[..j] == contents[HEADER_LINES..i];
  }
}
