/**
 * The decisions `main` (src/main.rs) takes without touching the file
 * system or the image: which sidecar supplies the frames, what each frame
 * crops and how it is turned, and where its image is written.
 *
 * Existence checks become booleans, the plist reader's outcome and the
 * atlas file's lines become inputs, and an output path is the list of
 * segments that `PathBuf::from`, `join` and `push` stack up.
 */
module Driver {
  import opened Wrappers
  import opened Numbers
  import opened Strings
  import opened FrameModel
  import opened AtlasParser

  // ---------------------------------------------------------------------
  // Sidecar selection
  // ---------------------------------------------------------------------

  datatype Sidecar = PlistSidecar | AtlasSidecar | NoSidecar

  /** The `.plist` next to the image first, then the `.atlas`, then nothing. */
  function SelectSidecar(plistExists: bool, atlasExists: bool): (s: Sidecar)
    ensures s == PlistSidecar <==> plistExists
    ensures s == AtlasSidecar <==> !plistExists && atlasExists
    ensures s == NoSidecar <==> !plistExists && !atlasExists
  {
    if plistExists then PlistSidecar
    else if atlasExists then AtlasSidecar
    else NoSidecar
  }

  /**
   * Why `main` stops before extracting: the `?` on the plist reader, or the
   * atlas parser's panic on a field line with fewer than two numbers.
   */
  datatype LoadError = PlistFailed(message: string) | AtlasFailed(error: ParseError)

  /**
   * The frame list after the selection: the plist reader's outcome, the
   * atlas parse of the given lines, or the empty list.
   */
  function LoadFrames(plistExists: bool, atlasExists: bool, plist: Result<seq<Frame>, string>,
                      atlasLines: seq<string>): (r: Result<seq<Frame>, LoadError>)
    ensures plistExists ==> (r.Ok? <==> plist.Ok?)
    ensures !plistExists && atlasExists ==> (r.Ok? <==> ParseResult(atlasLines).Ok?)
    ensures !plistExists && !atlasExists ==> r == Ok([])
    ensures r.Err? ==> (r.error.PlistFailed? <==> plistExists)
  {
    match SelectSidecar(plistExists, atlasExists)
    case PlistSidecar =>
      (match plist case Ok(frames) => Ok(frames) case Err(m) => Err(PlistFailed(m)))
    case AtlasSidecar =>
      (match ParseResult(atlasLines) case Ok(frames) => Ok(frames) case Err(e) => Err(AtlasFailed(e)))
    case NoSidecar => Ok([])
  }

  /** An existing `.plist` decides the outcome; the `.atlas` is then never consulted. */
  lemma PlistWins(atlas1: bool, atlas2: bool, plist: Result<seq<Frame>, string>,
                  lines1: seq<string>, lines2: seq<string>)
    ensures LoadFrames(true, atlas1, plist, lines1) == LoadFrames(true, atlas2, plist, lines2)
    ensures plist.Ok? ==> LoadFrames(true, atlas1, plist, lines1) == Ok(plist.value)
    ensures plist.Err? ==> LoadFrames(true, atlas1, plist, lines1) == Err(PlistFailed(plist.error))
  {
  }

  /** Without a `.plist`, an existing `.atlas` is parsed and the plist outcome is irrelevant. */
  lemma AtlasWhenNoPlist(plist1: Result<seq<Frame>, string>, plist2: Result<seq<Frame>, string>,
                         lines: seq<string>)
    ensures LoadFrames(false, true, plist1, lines) == LoadFrames(false, true, plist2, lines)
    ensures ParseResult(lines).Ok? <==> LoadFrames(false, true, plist1, lines).Ok?
    ensures ParseResult(lines).Ok? ==> LoadFrames(false, true, plist1, lines).value == ParseResult(lines).value
  {
  }

  /** With neither sidecar there is nothing to extract. */
  lemma NoSidecarNoFrames(plist: Result<seq<Frame>, string>, lines: seq<string>)
    ensures LoadFrames(false, false, plist, lines) == Ok([])
  {
  }

  /**
   * Frames loaded from an atlas are the ones its `rotate` lines open, so
   * their count is the number of those lines.
   */
  lemma AtlasFrameCount(plist: Result<seq<Frame>, string>, lines: seq<string>)
    requires LoadFrames(false, true, plist, lines).Ok?
    ensures |LoadFrames(false, true, plist, lines).value| == RotateCount(SkipHeader(lines))
  {
    FramesFollowRotateLines(lines);
  }

  // ---------------------------------------------------------------------
  // Crop and rotation
  // ---------------------------------------------------------------------

  /** The rectangle cut out of the sheet: the frame's rect after `into_rotated_rect`. */
  function CropRect(f: Frame): (r: Rect)
    ensures r.x == f.rect.x && r.y == f.rect.y
    ensures f.rotated ==> r.width == f.rect.height && r.height == f.rect.width
    ensures !f.rotated ==> r == f.rect
  {
    IntoRotatedRect(f).rect
  }

  /** The crop differs from the stored rect exactly for rotated, non-square frames. */
  lemma CropDiffersFromStored(f: Frame)
    ensures CropRect(f) != f.rect <==> f.rotated && f.rect.width != f.rect.height
  {
  }

  datatype Rotation = NoRotation | Rotate90 | Rotate180 | Rotate270

  /** The `match angle`: 90, 180 and 270 pick their turn, any other angle none. */
  function AngleRotation(angle: U32): (r: Rotation)
    ensures r == Rotate90 <==> angle == 90
    ensures r == Rotate180 <==> angle == 180
    ensures r == Rotate270 <==> angle == 270
    ensures r == NoRotation <==> angle != 90 && angle != 180 && angle != 270
  {
    if angle == 90 then Rotate90
    else if angle == 180 then Rotate180
    else if angle == 270 then Rotate270
    else NoRotation
  }

  /**
   * The turn applied to a cropped frame: only when the frame was stored
   * rotated and the user asked for rotation, and then the one the angle picks.
   */
  function VisualRotation(originallyRotated: bool, rotateOutput: bool, angle: U32): (r: Rotation)
    ensures r != NoRotation ==> originallyRotated && rotateOutput
    ensures !(originallyRotated && rotateOutput) ==> r == NoRotation
    ensures originallyRotated && rotateOutput ==> r == AngleRotation(angle)
  {
    if originallyRotated && rotateOutput then AngleRotation(angle) else NoRotation
  }

  /**
   * The flag must be read before `into_rotated_rect`: the resolved frame's
   * flag is always clear, so deciding on it would never turn anything.
   */
  lemma ResolvedFlagNeverRotates(f: Frame, rotateOutput: bool, angle: U32)
    ensures VisualRotation(IntoRotatedRect(f).rotated, rotateOutput, angle) == NoRotation
  {
  }

  /** Width and height of an image, without its pixels. */
  datatype Extent = Extent(width: nat, height: nat)

  /** A quarter turn swaps width and height; a half turn keeps them. */
  function Turned(e: Extent, r: Rotation): (t: Extent)
    ensures r == NoRotation || r == Rotate180 ==> t == e
    ensures r == Rotate90 || r == Rotate270 ==> t == Extent(e.height, e.width)
  {
    match r
    case Rotate90 => Extent(e.height, e.width)
    case Rotate270 => Extent(e.height, e.width)
    case _ => e
  }

  /** The extent of the saved image for a crop of the requested size. */
  function SavedExtent(f: Frame, rotateOutput: bool, angle: U32): (e: Extent)
    ensures e == Extent(f.rect.width, f.rect.height) || e == Extent(f.rect.height, f.rect.width)
  {
    var crop := CropRect(f);
    Turned(Extent(crop.width, crop.height), VisualRotation(f.rotated, rotateOutput, angle))
  }

  /**
   * A rotated frame whose crop is turned by a quarter comes out in the
   * width and height the atlas records for it; an unrotated frame always
   * keeps its recorded width and height.
   */
  lemma SavedExtentRestoresRecordedSize(f: Frame, rotateOutput: bool, angle: U32)
    requires !f.rotated || (rotateOutput && (angle == 90 || angle == 270))
    ensures SavedExtent(f, rotateOutput, angle) == Extent(f.rect.width, f.rect.height)
  {
  }

  /** A rotated frame left unturned, or turned by a half, keeps the swapped crop. */
  lemma SavedExtentStaysSwapped(f: Frame, rotateOutput: bool, angle: U32)
    requires f.rotated && (!rotateOutput || (angle != 90 && angle != 270))
    ensures SavedExtent(f, rotateOutput, angle) == Extent(f.rect.height, f.rect.width)
  {
  }

  // ---------------------------------------------------------------------
  // Output paths
  // ---------------------------------------------------------------------

  const PNG_SUFFIX := ".png"

  /** The frame name with `.png` appended unless it already ends so. */
  function OutputFileName(name: string): (r: string)
    ensures EndsWith(r, PNG_SUFFIX)
    ensures EndsWith(name, PNG_SUFFIX) ==> r == name
    ensures !EndsWith(name, PNG_SUFFIX) ==> r == name + PNG_SUFFIX
  {
    if EndsWith(name, PNG_SUFFIX) then name
    else
      var r := name + PNG_SUFFIX;
      assert r[|r| - |PNG_SUFFIX|..] == PNG_SUFFIX;
      r
  }

  lemma OutputFileNameIdempotent(name: string)
    ensures OutputFileName(OutputFileName(name)) == OutputFileName(name)
  {
  }

  /** `x` and `x.png` are written to the same file when `x` lacks the suffix. */
  lemma OutputFileNameMerges(name: string)
    requires !EndsWith(name, PNG_SUFFIX)
    ensures OutputFileName(name) == OutputFileName(name + PNG_SUFFIX)
  {
    var r := name + PNG_SUFFIX;
    assert r[|r| - |PNG_SUFFIX|..] == PNG_SUFFIX;
  }

  /** Apart from that, distinct names get distinct files. */
  lemma OutputFileNameInjective(a: string, b: string)
    requires EndsWith(a, PNG_SUFFIX) == EndsWith(b, PNG_SUFFIX)
    requires OutputFileName(a) == OutputFileName(b)
    ensures a == b
  {
    if !EndsWith(a, PNG_SUFFIX) {
      assert a == (a + PNG_SUFFIX)[..|a|];
      assert b == (b + PNG_SUFFIX)[..|b|];
    }
  }

  /**
   * The segments under which a frame's image is saved: the output folder,
   * then each `/`-separated piece of the file name when it holds a `/`,
   * else the file name alone.
   */
  function OutputPath(folder: string, name: string): (p: seq<string>)
    ensures |p| >= 2 && p[0] == folder
  {
    var file := OutputFileName(name);
    if '/' in file then [folder] + Split(file, '/') else [folder, file]
  }

  /**
   * The path is the folder followed by separator-free segments whose
   * `/`-join is the file name, and the last of which is a `.png` name.
   */
  lemma OutputPathShape(folder: string, name: string)
    ensures var p := OutputPath(folder, name);
            Join(p[1..], '/') == OutputFileName(name) &&
            (forall k :: 1 <= k < |p| ==> '/' !in p[k]) &&
            EndsWith(p[|p| - 1], PNG_SUFFIX)
  {
    var file := OutputFileName(name);
    var p := OutputPath(folder, name);
    if '/' in file {
      assert p[1..] == Split(file, '/');
      SplitThenJoin(file, '/');
      SplitPieces(file, '/');
      SplitLastEndsWith(file, PNG_SUFFIX, '/');
    } else {
      assert p[1..] == [file];
    }
  }

  /** A `/` in the name nests the file at least one directory below the folder. */
  lemma OutputPathNests(folder: string, name: string)
    requires '/' in name
    ensures |OutputPath(folder, name)| >= 3
    ensures OutputPath(folder, name)[1] == SplitOnce(name, '/').0
  {
    var file := OutputFileName(name);
    SplitOnceShape(name, '/');
    var before, after := SplitOnce(name, '/').0, SplitOnce(name, '/').1;
    if !EndsWith(name, PNG_SUFFIX) {
      assert file == before + ['/'] + (after + PNG_SUFFIX);
    }
    var rest := if EndsWith(name, PNG_SUFFIX) then after else after + PNG_SUFFIX;
    assert file == before + ['/'] + rest;
    SplitOnceUnique(file, '/', before, rest);
    SplitAtFirst(file, '/');
  }

  /**
   * What the pushed segments amount to as a location: `PathBuf::join("")`
   * only adds a trailing separator, which the next `join` absorbs, so empty
   * segments disappear.
   */
  function Location(path: seq<string>): (loc: seq<string>)
    ensures |loc| <= |path|
    ensures forall k :: 0 <= k < |loc| ==> loc[k] != []
  {
    if path == [] then []
    else if path[0] == [] then Location(path[1..])
    else [path[0]] + Location(path[1..])
  }

  /**
   * A segment that names a directory entry of its own: not empty, not `.`
   * or `..`, and free of the `\` and `:` with which a Windows `join`
   * replaces the path built so far.
   */
  predicate PlainSegment(segment: string) {
    segment != [] && segment != "." && segment != ".." && '\\' !in segment && ':' !in segment
  }

  /** Every `/`-piece of the frame's file name is a plain segment. */
  predicate PlainName(name: string) {
    var p := OutputPath([], name);
    forall k :: 1 <= k < |p| ==> PlainSegment(p[k])
  }

  /**
   * Two frames whose name pieces are all plain are saved to the same
   * location only when their file names coincide.
   */
  lemma OutputPathInjective(folder: string, a: string, b: string)
    requires PlainName(a) && PlainName(b)
    requires Location(OutputPath(folder, a)) == Location(OutputPath(folder, b))
    ensures OutputFileName(a) == OutputFileName(b)
  {
    var ta, tb := OutputPath([], a)[1..], OutputPath([], b)[1..];
    LocationOfPlainName(folder, a);
    LocationOfPlainName(folder, b);
    assert Location([folder]) + ta == Location([folder]) + tb;
    assert ta == (Location([folder]) + ta)[|Location([folder])|..];
    assert tb == (Location([folder]) + tb)[|Location([folder])|..];
    OutputPathShape([], a);
    OutputPathShape([], b);
  }

  /** A plain name's segments all survive below the folder. */
  lemma LocationOfPlainName(folder: string, name: string)
    requires PlainName(name)
    ensures Location(OutputPath(folder, name)) == Location([folder]) + OutputPath([], name)[1..]
  {
    var p, q := OutputPath(folder, name), OutputPath([], name);
    OutputPathTail(folder, name);
    assert forall k :: 0 <= k < |q[1..]| ==> q[1..][k] == q[k + 1];
    assert p == [folder] + q[1..];
    LocationOfPlain(folder, q[1..]);
  }

  /** The segments below the folder do not depend on the folder. */
  lemma OutputPathTail(folder: string, name: string)
    ensures OutputPath(folder, name)[1..] == OutputPath([], name)[1..]
  {
    var file := OutputFileName(name);
    if '/' in file {
      assert ([folder] + Split(file, '/'))[1..] == Split(file, '/');
      assert ([[]] + Split(file, '/'))[1..] == Split(file, '/');
    } else {
      assert [folder, file][1..] == [file] == [[], file][1..];
    }
  }

  /** Below the folder, non-empty segments are all kept. */
  lemma LocationOfPlain(folder: string, rest: seq<string>)
    requires forall k :: 0 <= k < |rest| ==> rest[k] != []
    ensures Location([folder] + rest) == Location([folder]) + rest
  {
    var path := [folder] + rest;
    assert path[0] == folder && path[1..] == rest;
    assert [folder][0] == folder && [folder][1..] == [];
    LocationKeepsNonEmpty(rest);
    if folder == [] {
      assert Location(path) == Location(rest);
      assert Location([folder]) == Location([]);
    } else {
      assert Location(path) == [folder] + Location(rest);
      assert Location([folder]) == [folder] + Location([]);
    }
  }

  lemma {:induction false} LocationKeepsNonEmpty(path: seq<string>)
    requires forall k :: 0 <= k < |path| ==> path[k] != []
    ensures Location(path) == path
  {
    if path != [] {
      LocationKeepsNonEmpty(path[1..]);
    }
  }

  /** Without the plain-piece condition names collide: `/b` and `b` both go to `<folder>/b.png`. */
  lemma LeadingSlashCollides(folder: string)
    ensures Location(OutputPath(folder, "/b")) == Location(OutputPath(folder, "b"))
    ensures OutputFileName("/b") != OutputFileName("b")
  {
    var file := OutputFileName("/b");
    assert file == "/b.png";
    assert file[0] == '/';
    assert "b.png"[1..] == ".png";
    assert '/' !in "b.png";
    assert file == [] + ['/'] + "b.png";
    SplitAfterPiece([], "b.png", '/');
    SplitAbsent("b.png", '/');
    assert OutputPath(folder, "/b") == [folder, [], "b.png"];
    assert OutputFileName("b") == "b.png";
    assert OutputPath(folder, "b") == [folder, "b.png"];
    assert [folder, [], "b.png"][1..] == [[], "b.png"];
    assert [folder, "b.png"][1..] == ["b.png"];
  }

  /** The path-building statements: `.png` suffix, then one `join` per piece or a single `push`. */
  method BuildOutputPath(folder: string, frameName: string) returns (path: seq<string>)
    ensures path == OutputPath(folder, frameName)
  {
    path := [folder];
    var name := frameName;
    if !EndsWith(name, PNG_SUFFIX) {
      name := name + PNG_SUFFIX;
    }
    if '/' in name {
      var parts := Split(name, '/');
      for i := 0 to |parts|
        invariant path == [folder] + parts[..i]
      {
        path := path + [parts[i]];
      }
      assert parts[..|parts|] == parts;
    } else {
      path := path + [name];
    }
  }

  // ---------------------------------------------------------------------
  // One frame of the extraction loop
  // ---------------------------------------------------------------------

  /** What the loop body does with one frame, short of touching pixels or files. */
  datatype FramePlan = FramePlan(crop: Rect, rotation: Rotation, path: seq<string>)

  /**
   * The loop body: remember the stored flag, resolve the frame, crop the
   * resolved rect, turn per the stored flag, save under the resolved name.
   */
  function PlanFrame(frame: Frame, rotateOutput: bool, angle: U32, folder: string): (p: FramePlan)
    ensures p.crop == CropRect(frame)
    ensures p.rotation == VisualRotation(frame.rotated, rotateOutput, angle)
    ensures p.path == OutputPath(folder, frame.name)
  {
    var rotated := frame.rotated;
    var resolved := IntoRotatedRect(frame);
    FramePlan(resolved.rect, VisualRotation(rotated, rotateOutput, angle), OutputPath(folder, resolved.name))
  }

  /** The plans of the whole loop, one per frame and in frame order. */
  function ExtractionPlan(frames: seq<Frame>, rotateOutput: bool, angle: U32, folder: string): (ps: seq<FramePlan>)
    ensures |ps| == |frames|
    ensures forall k :: 0 <= k < |frames| ==> ps[k] == PlanFrame(frames[k], rotateOutput, angle, folder)
  {
    seq(|frames|, k requires 0 <= k < |frames| => PlanFrame(frames[k], rotateOutput, angle, folder))
  }

  /**
   * Without the rotate flag nothing is turned, whatever the angle, and
   * every crop is the resolved rect of its frame.
   */
  lemma NoRotateFlagNoTurns(frames: seq<Frame>, angle: U32, folder: string)
    ensures forall k :: 0 <= k < |frames| ==>
              ExtractionPlan(frames, false, angle, folder)[k].rotation == NoRotation &&
              ExtractionPlan(frames, false, angle, folder)[k].crop == IntoRotatedRect(frames[k]).rect
  {
  }
}
