/** `GifBuilder`: turning a project into an animated GIF. Decoding,
    resizing, palette quantisation and writing the file are the
    uninterpreted functions of an `Env`; what remains is the order of the
    early rejections, which frames survive, how the survivors and their
    durations stay aligned, the save parameters, the transparent index and
    the output-size backstop. */
module GifBuilder {
  import opened Results
  import opened Text
  import opened Projects
  import PurePaths
  import Sessions
  import Config
  import IP = ImageProcessor

  /** A palette image: one palette index per pixel, row by row. */
  type PalImage = seq<seq<nat>>

  /** The file-level collaborators of `build_gif`:
      - `dataDir` and `session` locate the session directory;
      - `present` says which resolved paths name an existing file;
      - `ops` are the Pillow operations `prepare_frame` uses;
      - `quantize(img, colors)` is ADAPTIVE conversion to a palette image;
      - `save(stream)` writes the GIF and reports its size, or the text of
        the exception it raised. */
  datatype Env = Env(
    dataDir: PurePaths.PPath,
    session: string,
    present: PurePaths.PPath -> bool,
    ops: IP.Pillow,
    quantize: (IP.Image, nat) -> PalImage,
    save: GifStream -> Result<nat>)

  /** The arguments of `first_frame.save(output_path, **save_params)`. */
  datatype GifStream = GifStream(
    first: PalImage,
    appended: seq<PalImage>,
    durations: seq<int>,
    loop: int,
    optimize: bool,
    disposal: nat,
    transparency: Option<nat>)
  {
    /** Every frame the file holds, in order. */
    function Frames(): seq<PalImage> {
      [first] + appended
    }
  }

  /** `(success, message, file_size)`, with the GIF left on disk, if any. */
  datatype Build = Build(success: bool, message: string, fileSize: nat, written: Option<GifStream>)

  // ---------------------------------------------------------------------------
  // Preparing the frames
  // ---------------------------------------------------------------------------

  /** What the loop body does with one frame. */
  datatype Outcome = Kept(image: IP.Image) | Skipped(reason: string)

  /** One pass of the frame loop: locate the file inside the session, check it
      exists, prepare it. A refused path, a missing file, a `None` from
      `prepare_frame` and a raised exception all skip the frame. */
  function ProcessFrame(env: Env, s: Settings, f: Frame): (o: Outcome)
    requires env.dataDir.absolute
    ensures o.Kept? <==>
              && Sessions.SafePathContained(env.dataDir, env.session, [f.file]).Ok?
              && env.present(Sessions.SafePathContained(env.dataDir, env.session, [f.file]).value)
              && PrepareOf(env, s, Sessions.SafePathContained(env.dataDir, env.session, [f.file]).value).Ready?
    ensures o.Kept? ==> o.image.WellFormed() && o.image.width == s.width && o.image.height == s.height
    ensures o.Kept? && s.transparent ==> o.image.AlphaBinary()
    ensures o.Kept? && !s.transparent ==> o.image.Opaque()
  {
    match Sessions.SafePathContained(env.dataDir, env.session, [f.file])
    case Err(e) => Skipped("Error processing frame " + f.file + ": " + e)
    case Ok(path) =>
      if !env.present(path) then Skipped("Frame file not found: " + f.file)
      else
        match PrepareOf(env, s, path)
        case Ready(img) => Kept(img)
        case Unusable(_) => Skipped("Failed to prepare frame: " + f.file)
        case Raised(e) => Skipped("Error processing frame " + f.file + ": " + e)
  }

  /** `prepare_frame` on a resolved path with the project's settings. */
  function PrepareOf(env: Env, s: Settings, path: PurePaths.PPath): IP.Prepared {
    IP.PrepareFrame(env.ops, PurePaths.Str(path), s.width, s.height, s.transparent,
                    s.backgroundColor, s.alphaThreshold)
  }

  /** What the loop does with each frame, in project order. */
  function Outcomes(env: Env, s: Settings, frames: seq<Frame>): (outs: seq<Outcome>)
    requires env.dataDir.absolute
    ensures |outs| == |frames|
    ensures forall k :: 0 <= k < |frames| ==> outs[k] == ProcessFrame(env, s, frames[k])
  {
    seq(|frames|, k requires 0 <= k < |frames| => ProcessFrame(env, s, frames[k]))
  }

  /** The positions of the kept outcomes, in increasing order. */
  function KeptPositions(outs: seq<Outcome>): (idx: seq<nat>)
    ensures forall i :: 0 <= i < |idx| ==> idx[i] < |outs| && outs[idx[i]].Kept?
    ensures forall i, j :: 0 <= i < j < |idx| ==> idx[i] < idx[j]
    ensures forall k :: 0 <= k < |outs| && outs[k].Kept? ==> k in idx
    decreases |outs|
  {
    if |outs| == 0 then []
    else
      var pre := KeptPositions(outs[..|outs| - 1]);
      if outs[|outs| - 1].Kept? then pre + [|outs| - 1] else pre
  }

  /** The positions of the frames that survive the loop. */
  function Survivors(env: Env, s: Settings, frames: seq<Frame>): seq<nat>
    requires env.dataDir.absolute
  {
    KeptPositions(Outcomes(env, s, frames))
  }

  /** The frame loop: `prepared_frames` and `durations`, appended together;
      entry `i` of both comes from the frame at the `i`-th kept position. */
  function Collect(outs: seq<Outcome>, frames: seq<Frame>): (r: (seq<IP.Image>, seq<int>))
    requires |outs| == |frames|
    ensures |r.0| == |r.1| == |KeptPositions(outs)|
    ensures forall i :: 0 <= i < |r.0| ==>
              && r.0[i] == outs[KeptPositions(outs)[i]].image
              && r.1[i] == frames[KeptPositions(outs)[i]].duration
    decreases |frames|
  {
    if |frames| == 0 then ([], [])
    else
      var n := |frames| - 1;
      var pre := Collect(outs[..n], frames[..n]);
      match outs[n]
      case Kept(img) => (pre.0 + [img], pre.1 + [frames[n].duration])
      case Skipped(_) => pre
  }

  /** `prepared_frames` and `durations` of `build_gif`'s loop. */
  function Prepared(env: Env, s: Settings, frames: seq<Frame>): (r: (seq<IP.Image>, seq<int>))
    requires env.dataDir.absolute
    ensures |r.0| == |r.1| == |Survivors(env, s, frames)|
    ensures forall i :: 0 <= i < |r.0| ==>
              var k := Survivors(env, s, frames)[i];
              k < |frames| && ProcessFrame(env, s, frames[k]).Kept?
              && r.0[i] == ProcessFrame(env, s, frames[k]).image && r.1[i] == frames[k].duration
  {
    Collect(Outcomes(env, s, frames), frames)
  }

  /** Every frame the loop keeps is among the survivors, so no frame survives
      exactly when every frame is skipped. */
  lemma NoSurvivors(env: Env, s: Settings, frames: seq<Frame>)
    requires env.dataDir.absolute
    ensures |Survivors(env, s, frames)| == 0 <==>
              forall k :: 0 <= k < |frames| ==> ProcessFrame(env, s, frames[k]).Skipped?
  {
    var outs := Outcomes(env, s, frames);
    var idx := Survivors(env, s, frames);
    if |idx| > 0 {
      assert outs[idx[0]].Kept?;
    }
    forall k | 0 <= k < |frames| && ProcessFrame(env, s, frames[k]).Kept?
      ensures k in idx
    {
      assert outs[k].Kept?;
    }
  }

  // ---------------------------------------------------------------------------
  // Palette conversion
  // ---------------------------------------------------------------------------

  /** The index at column `x`, row `y`, or 0 outside the image. */
  function PalAt(pal: PalImage, x: int, y: int): nat {
    if 0 <= y < |pal| && 0 <= x < |pal[y]| then pal[y][x] else 0
  }

  /** `gif_frame.paste(0, mask=...)` with the mask of the alpha-0 pixels. */
  function MaskTransparent(img: IP.Image, pal: PalImage): (r: PalImage)
    ensures |r| == img.height
    ensures forall y :: 0 <= y < |r| ==> |r[y]| == img.width
    ensures forall y, x :: 0 <= y < img.height && 0 <= x < img.width ==>
              r[y][x] == (if img.At(x, y).a == 0 then 0 else PalAt(pal, x, y))
  {
    seq(img.height, y requires 0 <= y => seq(img.width, x requires 0 <= x =>
      if img.At(x, y).a == 0 then 0 else PalAt(pal, x, y)))
  }

  /** One prepared frame in palette form, as written: in transparent mode
      255 colours with index 0 pasted over every clear pixel, otherwise 256
      colours. The 255-colour conversion does not keep index 0 free, so an
      opaque pixel may also be at index 0. */
  function ToPaletteAsWritten(env: Env, img: IP.Image, transparent: bool): (r: PalImage)
    ensures !transparent ==> r == env.quantize(img, 256)
    ensures transparent ==> |r| == img.height && forall y :: 0 <= y < |r| ==> |r[y]| == img.width
    ensures transparent ==> forall y, x :: 0 <= y < img.height && 0 <= x < img.width ==>
              r[y][x] == (if img.At(x, y).a == 0 then 0 else PalAt(env.quantize(img, 255), x, y))
  {
    if transparent then MaskTransparent(img, env.quantize(img, 255))
    else env.quantize(img, 256)
  }

  /** As written, an opaque pixel that the conversion puts at index 0 ends up
      at the index the file declares transparent. */
  lemma OpaquePixelAtTransparentIndex(env: Env, img: IP.Image, x: nat, y: nat)
    requires img.WellFormed() && x < img.width && y < img.height
    requires img.rows[y][x].a != 0 && PalAt(env.quantize(img, 255), x, y) == 0
    ensures y < |ToPaletteAsWritten(env, img, true)| && x < |ToPaletteAsWritten(env, img, true)[y]|
    ensures ToPaletteAsWritten(env, img, true)[y][x] == 0
  {
  }

  /** The palette step with index 0 kept for the clear pixels: the indices
      of the 255-colour conversion move up by one. */
  function ReserveIndexZero(img: IP.Image, pal: PalImage): (r: PalImage)
    ensures |r| == img.height
    ensures forall y :: 0 <= y < |r| ==> |r[y]| == img.width
    ensures forall y, x :: 0 <= y < img.height && 0 <= x < img.width ==>
              (r[y][x] == 0 <==> img.At(x, y).a == 0)
    ensures forall y, x :: 0 <= y < img.height && 0 <= x < img.width && img.At(x, y).a != 0 ==>
              r[y][x] == PalAt(pal, x, y) + 1
  {
    seq(img.height, y requires 0 <= y => seq(img.width, x requires 0 <= x =>
      if img.At(x, y).a == 0 then 0 else PalAt(pal, x, y) + 1))
  }

  /** One prepared frame in palette form, with the transparent index kept
      for the clear pixels: in transparent mode a pixel is at index 0 exactly
      when it is clear; otherwise 256 colours. */
  function ToPalette(env: Env, img: IP.Image, transparent: bool): (r: PalImage)
    ensures !transparent ==> r == env.quantize(img, 256)
    ensures transparent ==> |r| == img.height && forall y :: 0 <= y < |r| ==> |r[y]| == img.width
    ensures transparent ==> forall y, x :: 0 <= y < img.height && 0 <= x < img.width ==>
              (r[y][x] == 0 <==> img.At(x, y).a == 0)
    ensures transparent ==> forall y, x :: 0 <= y < img.height && 0 <= x < img.width && img.At(x, y).a != 0 ==>
              r[y][x] == PalAt(env.quantize(img, 255), x, y) + 1
  {
    if transparent then ReserveIndexZero(img, env.quantize(img, 255))
    else env.quantize(img, 256)
  }

  /** In transparent mode a pixel of a frame is at index 0, the index
      declared transparent, exactly when it is clear. */
  lemma TransparentIndexIffClear(env: Env, img: IP.Image, x: nat, y: nat)
    requires x < img.width && y < img.height && img.WellFormed()
    ensures |ToPalette(env, img, true)| == img.height
    ensures |ToPalette(env, img, true)[y]| == img.width
    ensures ToPalette(env, img, true)[y][x] == 0 <==> img.rows[y][x].a == 0
  {
  }

  /** The save parameters: the first frame, the rest appended in order, one
      duration per frame, no optimisation, disposal 2, and transparency
      index 0 only in transparent mode. */
  function Stream(env: Env, s: Settings, images: seq<IP.Image>, durations: seq<int>): (g: GifStream)
    requires |images| >= 1
    ensures |g.Frames()| == |images|
    ensures forall i :: 0 <= i < |images| ==> g.Frames()[i] == ToPalette(env, images[i], s.transparent)
    ensures g.durations == durations && g.loop == s.loop
    ensures g.disposal == 2 && !g.optimize
    ensures g.transparency == (if s.transparent then Some(0) else None)
  {
    var frames := seq(|images|, i requires 0 <= i < |images| => ToPalette(env, images[i], s.transparent));
    var g := GifStream(frames[0], frames[1..], durations, s.loop, false, 2,
                       if s.transparent then Some(0) else None);
    assert g.Frames() == frames;
    g
  }

  // ---------------------------------------------------------------------------
  // build_gif
  // ---------------------------------------------------------------------------

  const NoFrames := "Project has no frames"
  const NoValidFrames := "No valid frames to create GIF"
  const Created := "GIF created successfully"

  function ErrorMessages(errs: seq<ValidationError>): (ms: seq<string>)
    ensures |ms| == |errs|
    ensures forall i :: 0 <= i < |errs| ==> ms[i] == errs[i].Message()
  {
    seq(|errs|, i requires 0 <= i < |errs| => errs[i].Message())
  }

  /** The stream `build_gif` hands to `save` once some frame survived. */
  function Encoded(env: Env, s: Settings, frames: seq<Frame>): (g: GifStream)
    requires env.dataDir.absolute && |Survivors(env, s, frames)| > 0
    ensures |g.Frames()| == |g.durations| == |Survivors(env, s, frames)|
  {
    var pr := Prepared(env, s, frames);
    Stream(env, s, pr.0, pr.1)
  }

  /** `build_gif`. */
  function BuildGif(env: Env, p: Project): (r: Build)
    requires env.dataDir.absolute
    ensures !r.success ==> r.fileSize == 0 && r.written.None?
    ensures |p.frames| == 0 ==> r == Build(false, NoFrames, 0, None)
    ensures |p.frames| > 0 && !Validate(p).0 ==>
              r == Build(false, "Project validation failed: " + Join(ErrorMessages(Validate(p).1), ", "), 0, None)
    ensures |p.frames| > 0 && Validate(p).0 && |Survivors(env, p.settings, p.frames)| == 0 ==>
              r == Build(false, NoValidFrames, 0, None)
    ensures r.success ==> r.message == Created && r.fileSize <= Config.MaxOutputSize
    ensures r.success ==> |p.frames| > 0 && WithinLimits(p) && |Survivors(env, p.settings, p.frames)| > 0
    ensures r.success ==> r.written.Some? && env.save(r.written.value) == Ok(r.fileSize)
    ensures |p.frames| > 0 && Validate(p).0 && |Survivors(env, p.settings, p.frames)| > 0 ==>
              var g := Encoded(env, p.settings, p.frames);
              && (env.save(g).Ok? && env.save(g).value <= Config.MaxOutputSize ==>
                    r == Build(true, Created, env.save(g).value, Some(g)))
              && (env.save(g).Err? ==> r == Build(false, "GIF creation failed: " + env.save(g).error, 0, None))
  {
    if |p.frames| == 0 then Build(false, NoFrames, 0, None)
    else
      var (ok, errs) := Validate(p);
      if !ok then
        Build(false, "Project validation failed: " + Join(ErrorMessages(errs), ", "), 0, None)
      else Encode(env, p.settings, p.frames)
  }

  /** The part of `build_gif` after validation: the frame loop, the palette
      conversion and the save with its size check. */
  function Encode(env: Env, s: Settings, frames: seq<Frame>): (r: Build)
    requires env.dataDir.absolute
    ensures !r.success ==> r.fileSize == 0 && r.written.None?
    ensures |Survivors(env, s, frames)| == 0 ==> r == Build(false, NoValidFrames, 0, None)
    ensures r.success ==> r.message == Created && r.fileSize <= Config.MaxOutputSize
    ensures r.success ==> |Survivors(env, s, frames)| > 0
    ensures r.success ==> r.written.Some? && env.save(r.written.value) == Ok(r.fileSize)
    ensures |Survivors(env, s, frames)| > 0 ==>
              var g := Encoded(env, s, frames);
              && (env.save(g).Ok? && env.save(g).value <= Config.MaxOutputSize ==>
                    r == Build(true, Created, env.save(g).value, Some(g)))
              && (env.save(g).Err? ==> r == Build(false, "GIF creation failed: " + env.save(g).error, 0, None))
  {
    var (images, durations) := Prepared(env, s, frames);
    if |images| == 0 then Build(false, NoValidFrames, 0, None)
    else
      var g := Stream(env, s, images, durations);
      match env.save(g)
      case Err(e) => Build(false, "GIF creation failed: " + e, 0, None)
      case Ok(size) =>
        if size > Config.MaxOutputSize then
          Build(false, "Generated GIF exceeds size limit (" + NatToString(size) + " bytes)", 0, None)
        else Build(true, Created, size, Some(g))
  }

  /** A successful encoding wrote the stream of the prepared frames. */
  lemma EncodeWritesStream(env: Env, s: Settings, frames: seq<Frame>)
    requires env.dataDir.absolute
    requires Encode(env, s, frames).success
    ensures var pr := Prepared(env, s, frames);
            |pr.0| >= 1 && Encode(env, s, frames).written == Some(Stream(env, s, pr.0, pr.1))
  {
  }

  /** What a successful build wrote: one encoded frame and one duration per
      surviving frame, in project order, each duration that of the frame
      behind the image, with the project's loop count. */
  lemma BuildWritesSurvivors(env: Env, p: Project)
    requires env.dataDir.absolute
    requires BuildGif(env, p).success
    ensures var g := BuildGif(env, p).written.value;
            var idx := Survivors(env, p.settings, p.frames);
            && |g.Frames()| == |g.durations| == |idx|
            && (forall i :: 0 <= i < |idx| ==>
                  && g.durations[i] == p.frames[idx[i]].duration
                  && g.Frames()[i] == ToPalette(env, ProcessFrame(env, p.settings, p.frames[idx[i]]).image,
                                                p.settings.transparent))
            && g.loop == p.settings.loop && g.disposal == 2
            && g.transparency == (if p.settings.transparent then Some(0) else None)
  {
    var pr := Prepared(env, p.settings, p.frames);
    var g := Stream(env, p.settings, pr.0, pr.1);
    assert BuildGif(env, p) == Encode(env, p.settings, p.frames);
    EncodeWritesStream(env, p.settings, p.frames);
    var idx := Survivors(env, p.settings, p.frames);
    forall i | 0 <= i < |idx|
      ensures g.Frames()[i] == ToPalette(env, ProcessFrame(env, p.settings, p.frames[idx[i]]).image,
                                         p.settings.transparent)
    {
      assert g.Frames()[i] == ToPalette(env, pr.0[i], p.settings.transparent);
    }
  }

  /** In transparent mode a pixel of a written frame is at the index the
      file declares transparent exactly when it is clear. */
  lemma WrittenClearPixelsTransparent(env: Env, p: Project, i: nat, x: nat, y: nat)
    requires env.dataDir.absolute
    requires BuildGif(env, p).success && p.settings.transparent
    requires i < |Survivors(env, p.settings, p.frames)|
    requires var img := ProcessFrame(env, p.settings, p.frames[Survivors(env, p.settings, p.frames)[i]]).image;
             x < img.width && y < img.height
    ensures var g := BuildGif(env, p).written.value;
            var img := ProcessFrame(env, p.settings, p.frames[Survivors(env, p.settings, p.frames)[i]]).image;
            && g.transparency == Some(0)
            && i < |g.Frames()| && y < |g.Frames()[i]| && x < |g.Frames()[i][y]|
            && (g.Frames()[i][y][x] == 0 <==> img.rows[y][x].a == 0)
  {
    BuildWritesSurvivors(env, p);
    var g := BuildGif(env, p).written.value;
    var k := Survivors(env, p.settings, p.frames)[i];
    var o := ProcessFrame(env, p.settings, p.frames[k]);
    assert o.Kept? by {
      assert Outcomes(env, p.settings, p.frames)[k] == o;
    }
    assert g.Frames()[i] == ToPalette(env, o.image, true);
    TransparentIndexIffClear(env, o.image, x, y);
  }

  /** An output over the size limit is refused with its size in the message. */
  lemma OversizeRejected(env: Env, p: Project)
    requires env.dataDir.absolute
    requires |p.frames| > 0 && Validate(p).0
    requires |Survivors(env, p.settings, p.frames)| > 0
    requires var (images, durations) := Prepared(env, p.settings, p.frames);
             var g := Stream(env, p.settings, images, durations);
             env.save(g).Ok? && env.save(g).value > Config.MaxOutputSize
    ensures !BuildGif(env, p).success
    ensures BuildGif(env, p).message
         == "Generated GIF exceeds size limit ("
            + NatToString(env.save(Stream(env, p.settings, Prepared(env, p.settings, p.frames).0,
                                           Prepared(env, p.settings, p.frames).1)).value)
            + " bytes)"
  {
  }

  // ---------------------------------------------------------------------------
  // create_preview_gif
  // ---------------------------------------------------------------------------

  /** Python's `s[:m]`: a negative `m` counts from the end. */
  function Prefix<T>(s: seq<T>, m: int): (r: seq<T>)
    ensures m >= 0 ==> r == s[..if m < |s| then m else |s|]
    ensures m < 0 ==> r == s[..if |s| + m > 0 then |s| + m else 0]
  {
    var k := if m >= 0 then (if m < |s| then m else |s|)
             else (if |s| + m > 0 then |s| + m else 0);
    s[..k]
  }

  /** `create_preview_gif`: builds a fresh project holding the same settings
      and the first `maxFrames` frames, and names the truncation on success. */
  function CreatePreviewGif(env: Env, p: Project, maxFrames: int, now: string): (r: (bool, string))
    requires env.dataDir.absolute
    ensures |p.frames| == 0 ==> r == (false, NoFrames)
    ensures |p.frames| > 0 ==> r.0 == BuildGif(env, PreviewProject(p, maxFrames, now)).success
    ensures |p.frames| > 0 && r.0 && |p.frames| > maxFrames ==>
              r.1 == "Preview created with " + IntToString(maxFrames) + " of "
                     + NatToString(|p.frames|) + " frames"
    ensures |p.frames| > 0 && !(r.0 && |p.frames| > maxFrames) ==>
              r.1 == BuildGif(env, PreviewProject(p, maxFrames, now)).message
  {
    if |p.frames| == 0 then (false, NoFrames)
    else
      var b := BuildGif(env, PreviewProject(p, maxFrames, now));
      if b.success && |p.frames| > maxFrames then
        (true, "Preview created with " + IntToString(maxFrames) + " of " + NatToString(|p.frames|) + " frames")
      else (b.success, b.message)
  }

  /** The project the preview is built from. */
  function PreviewProject(p: Project, maxFrames: int, now: string): (q: Project)
    ensures q.settings == p.settings && q.name == p.name
    ensures |q.frames| <= |p.frames|
    ensures maxFrames >= 0 ==> |q.frames| <= maxFrames
    ensures q.frames == p.frames[..|q.frames|]
  {
    NewProject(p.name, p.settings, now).(frames := Prefix(p.frames, maxFrames))
  }

  /** A build reads only a project's settings and frames. */
  lemma BuildReadsSettingsAndFrames(env: Env, p: Project, q: Project)
    requires env.dataDir.absolute
    requires p.settings == q.settings && p.frames == q.frames
    ensures BuildGif(env, p) == BuildGif(env, q)
  {
    ValidateReadsSettingsAndFrames(p, q);
  }

  lemma ValidateReadsSettingsAndFrames(p: Project, q: Project)
    requires p.settings == q.settings && p.frames == q.frames
    ensures Validate(p) == Validate(q)
  {
    assert LimitErrors(p) == LimitErrors(q);
  }

  /** A limit at least the project's length previews the whole project and
      reports exactly what the full build reports. */
  lemma PreviewOfShortProject(env: Env, p: Project, maxFrames: int, now: string)
    requires env.dataDir.absolute
    requires |p.frames| <= maxFrames
    ensures CreatePreviewGif(env, p, maxFrames, now)
         == (BuildGif(env, p).success, BuildGif(env, p).message)
  {
    var q := PreviewProject(p, maxFrames, now);
    assert q.frames == p.frames;
    BuildReadsSettingsAndFrames(env, p, q);
  }

  /** A preview never holds more than `maxFrames` frames, so a project too
      long to build may still preview; success names the truncation. */
  lemma PreviewTruncates(env: Env, p: Project, maxFrames: int, now: string)
    requires env.dataDir.absolute
    requires 0 <= maxFrames < |p.frames|
    requires CreatePreviewGif(env, p, maxFrames, now).0
    ensures |PreviewProject(p, maxFrames, now).frames| == maxFrames
    ensures CreatePreviewGif(env, p, maxFrames, now).1
         == "Preview created with " + NatToString(maxFrames) + " of " + NatToString(|p.frames|) + " frames"
  {
  }
}
