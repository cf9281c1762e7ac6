/** Frame preparation (services/image_processor.py): the upload-name check,
    the decode-time checks, fitting an image into the canvas, parsing the
    background colour and the one-bit alpha rule.

    Pillow itself is not modelled. Decoding, LANCZOS resampling, the
    float aspect-ratio arithmetic of `cover` and partial-alpha blending are
    the function fields of a `Pillow` value, about which nothing is assumed. */
module ImageProcessor {
  import opened Results
  import opened Text
  import PurePaths
  import Config

  // ---------------------------------------------------------------------------
  // File names
  // ---------------------------------------------------------------------------

  /** Index of the last occurrence of `c` (Python's `rfind`, with `None` for -1). */
  function LastIndexOf(s: string, c: char): (r: Option<nat>)
    ensures r.None? <==> c !in s
    ensures r.Some? ==> r.value < |s| && s[r.value] == c && c !in s[r.value + 1..]
    decreases |s|
  {
    if |s| == 0 then None
    else if s[|s| - 1] == c then Some(|s| - 1)
    else
      assert s == s[..|s| - 1] + [s[|s| - 1]];
      LastIndexOf(s[..|s| - 1], c)
  }

  /** `PurePath.suffix` of a final component: from the last dot on, provided
      that dot is neither the first nor the last character. */
  function Suffix(name: string): (r: string)
    ensures r != "" <==> |name| >= 3 && '.' in name[1..|name| - 1] && name[|name| - 1] != '.'
    ensures r != "" ==> 2 <= |r| < |name| && r[0] == '.' && '.' !in r[1..] && r == name[|name| - |r|..]
  {
    match LastIndexOf(name, '.')
    case Some(i) => if 0 < i < |name| - 1 then name[i..] else ""
    case None => ""
  }

  /** The final component of an upload's file name. */
  function FileName(filename: string): (r: string)
    ensures '/' !in r && r != "."
    ensures '/' !in filename && filename != "." ==> r == filename
  {
    PurePaths.ParseSingle(filename);
    PurePaths.Name(PurePaths.Parse(filename))
  }

  lemma LowerKeepsDots(s: string)
    ensures '.' in ToLowerAscii(s) <==> '.' in s
  {
    if '.' in s {
      var i :| 0 <= i < |s| && s[i] == '.';
      assert ToLowerAscii(s)[i] == '.';
    }
  }

  /** `validate_file_extension`: the final component has a suffix whose
      lower-cased text after the dot is an allowed extension. */
  function ValidateFileExtension(filename: string): (ok: bool)
    ensures ok <==> HasAllowedSuffix(FileName(filename))
  {
    var n := FileName(filename);
    var ext := LStrip(ToLowerAscii(Suffix(n)), '.');
    ExtensionOf(n);
    ext in Config.AllowedExtensions
  }

  /** The last dot is the only dot with no dot after it. */
  lemma OnlyLastDot(n: string, i: nat, k: nat)
    requires i < |n| && n[i] == '.' && '.' !in n[i + 1..]
    requires k < |n| && n[k] == '.' && '.' !in n[k + 1..]
    ensures k == i
  {
  }

  /** Lower-casing a suffix and stripping its dot leaves the lower-cased
      text after the dot. */
  lemma SuffixExtension(n: string, i: nat)
    requires 0 < i < |n| - 1 && n[i] == '.' && '.' !in n[i + 1..]
    ensures LStrip(ToLowerAscii(n[i..]), '.') == ToLowerAscii(n[i + 1..])
  {
    var tail := n[i + 1..];
    assert n[i..] == ['.'] + tail;
    var low := ToLowerAscii(n[i..]);
    assert low[1..] == ToLowerAscii(tail);
    LowerKeepsDots(tail);
    assert LStrip(ToLowerAscii(tail), '.') == ToLowerAscii(tail);
  }

  /** The allowed-extension test on a name, in terms of its last dot. */
  ghost predicate HasAllowedSuffix(n: string) {
    exists k :: 0 < k < |n| - 1 && n[k] == '.' && '.' !in n[k + 1..]
                && ToLowerAscii(n[k + 1..]) in Config.AllowedExtensions
  }

  lemma ExtensionOf(n: string)
    ensures (LStrip(ToLowerAscii(Suffix(n)), '.') in Config.AllowedExtensions) <==> HasAllowedSuffix(n)
  {
    assert "" !in Config.AllowedExtensions;
    match LastIndexOf(n, '.')
    case None =>
      assert Suffix(n) == "";
    case Some(i) =>
      if 0 < i < |n| - 1 {
        ExtensionAtLastDot(n, i);
      } else {
        assert Suffix(n) == "";
        NoInteriorLastDot(n, i);
      }
  }

  lemma NoInteriorLastDot(n: string, i: nat)
    requires i < |n| && n[i] == '.' && '.' !in n[i + 1..]
    requires !(0 < i < |n| - 1)
    ensures !HasAllowedSuffix(n)
  {
  }

  lemma LastDotIs(n: string, i: nat)
    requires i < |n| && n[i] == '.' && '.' !in n[i + 1..]
    ensures LastIndexOf(n, '.') == Some(i)
  {
    OnlyLastDot(n, i, LastIndexOf(n, '.').value);
  }

  lemma ExtensionAtLastDot(n: string, i: nat)
    requires 0 < i < |n| - 1 && n[i] == '.' && '.' !in n[i + 1..]
    ensures Suffix(n) == n[i..]
    ensures (LStrip(ToLowerAscii(n[i..]), '.') in Config.AllowedExtensions) <==> HasAllowedSuffix(n)
  {
    LastDotIs(n, i);
    SuffixExtension(n, i);
    var ext := ToLowerAscii(n[i + 1..]);
    if ext in Config.AllowedExtensions {
      assert 0 < i < |n| - 1 && n[i] == '.' && '.' !in n[i + 1..] && ext in Config.AllowedExtensions;
    }
    if HasAllowedSuffix(n) {
      var k :| 0 < k < |n| - 1 && n[k] == '.' && '.' !in n[k + 1..]
               && ToLowerAscii(n[k + 1..]) in Config.AllowedExtensions;
      OnlyLastDot(n, i, k);
    }
  }

  /** A plain name `stem.ext` with a non-empty stem is accepted exactly when
      its extension, lower-cased, is allowed. */
  lemma PlainNameExtension(stem: string, ext: string)
    requires stem != "" && '/' !in stem && '/' !in ext && '.' !in ext && ext != ""
    ensures ValidateFileExtension(stem + "." + ext) <==> ToLowerAscii(ext) in Config.AllowedExtensions
  {
    var n := stem + "." + ext;
    assert FileName(n) == n by {
      assert forall i :: 0 <= i < |n| ==> n[i] in stem || n[i] == '.' || n[i] in ext;
    }
    var k := |stem|;
    assert n[k] == '.' && n[k + 1..] == ext;
    forall k' | 0 < k' < |n| - 1 && n[k'] == '.' && '.' !in n[k' + 1..]
      ensures k' == k
    {
      OnlyLastDot(n, k, k');
    }
  }

  /** A name that is nothing but a dot and an extension (a hidden file) has
      no suffix and is rejected, whatever the extension. */
  lemma DotOnlyNameRejected(ext: string)
    requires '/' !in ext && '.' !in ext
    ensures !ValidateFileExtension("." + ext)
  {
    var n := "." + ext;
    if ext == "" {
      assert Split(n, '/') == ["."] by { PurePaths.SplitNoSeparator(n, '/'); }
      assert FileName(n) == "";
    } else {
      PurePaths.SplitNoSeparator(n, '/');
      assert PurePaths.KeepParts([n]) == [n];
      assert FileName(n) == n;
      assert forall k :: 0 < k < |n| ==> n[k] == ext[k - 1];
    }
  }

  /** A name ending in a dot has no suffix and is rejected. */
  lemma TrailingDotRejected(stem: string)
    requires '/' !in stem && stem != ""
    ensures !ValidateFileExtension(stem + ".")
  {
    var n := stem + ".";
    PurePaths.SplitNoSeparator(n, '/');
    assert PurePaths.KeepParts([n]) == [n];
    assert FileName(n) == n;
  }

  // ---------------------------------------------------------------------------
  // Images
  // ---------------------------------------------------------------------------

  type Channel = x: int | 0 <= x <= 255

  datatype Rgba = Rgba(r: Channel, g: Channel, b: Channel, a: Channel)

  /** The fully transparent pixel `(0, 0, 0, 0)`. */
  const Clear: Rgba := Rgba(0, 0, 0, 0)

  /** An RGBA bitmap stored row by row. */
  datatype Image = Image(width: nat, height: nat, rows: seq<seq<Rgba>>) {

    predicate WellFormed() {
      |rows| == height && forall y :: 0 <= y < |rows| ==> |rows[y]| == width
    }

    /** Every pixel is fully transparent or fully opaque. */
    predicate AlphaBinary() {
      forall y, x :: 0 <= y < |rows| && 0 <= x < |rows[y]| ==> rows[y][x].a == 0 || rows[y][x].a == 255
    }

    /** Every pixel is fully opaque. */
    predicate Opaque() {
      forall y, x :: 0 <= y < |rows| && 0 <= x < |rows[y]| ==> rows[y][x].a == 255
    }

    /** The pixel at column `x`, row `y`; transparent outside the bitmap. */
    function At(x: int, y: int): Rgba {
      if 0 <= y < |rows| && 0 <= x < |rows[y]| then rows[y][x] else Clear
    }
  }

  /** An RGB triple as `hex_to_rgb` returns it; fields may lie outside 0..255. */
  datatype Color = Color(r: int, g: int, b: int)

  /** What opening, verifying and re-opening a file yields. The image is the
      decoded bitmap already converted to RGBA. */
  datatype Decoded = Unreadable(reason: string) | Opened(format: string, image: Image)

  /** The Pillow operations the source calls, as uninterpreted functions.
      `None` stands for a raised exception. */
  datatype Pillow = Pillow(
    decode: string -> Decoded,
    thumbnail: (Image, int, int) -> Option<Image>,
    resample: (Image, int, int) -> Option<Image>,
    coverSize: (Image, int, int) -> Option<(int, int)>,
    blend: (Rgba, Color) -> Color,
    fill: Color -> Color)

  // ---------------------------------------------------------------------------
  // Decode-time checks
  // ---------------------------------------------------------------------------

  /** `check_dimensions`. */
  predicate CheckDimensions(width: int, height: int) {
    width <= Config.MaxDimension && height <= Config.MaxDimension
  }

  const SupportedFormats: set<string> := {"png", "jpeg", "gif", "webp"}

  /** `load_and_validate_image`: the format is checked before the size. */
  function LoadAndValidate(d: Decoded): (r: Result<Image>)
    ensures r.Ok? <==> d.Opened? && ToLowerAscii(d.format) in SupportedFormats
                       && d.image.width <= Config.MaxDimension && d.image.height <= Config.MaxDimension
    ensures r.Ok? ==> r.value == d.image
    ensures d.Opened? && ToLowerAscii(d.format) !in SupportedFormats ==>
              r == Err("Unsupported image format: " + d.format)
    ensures d.Unreadable? ==> r == Err("Invalid image file: " + d.reason)
    ensures d.Opened? && ToLowerAscii(d.format) in SupportedFormats && !CheckDimensions(d.image.width, d.image.height) ==>
              r == Err("Image dimensions " + NatToString(d.image.width) + "x" + NatToString(d.image.height)
                       + " exceed maximum " + NatToString(Config.MaxDimension))
  {
    match d
    case Unreadable(e) => Err("Invalid image file: " + e)
    case Opened(format, img) =>
      if ToLowerAscii(format) !in SupportedFormats then Err("Unsupported image format: " + format)
      else if !CheckDimensions(img.width, img.height) then
        Err("Image dimensions " + NatToString(img.width) + "x" + NatToString(img.height)
            + " exceed maximum " + NatToString(Config.MaxDimension))
      else Ok(img)
  }

  /** An image that loads has a format whose lower-case name is an allowed
      upload extension, so a file named after it passes the extension check. */
  lemma LoadedFormatIsAllowedExtension(d: Decoded)
    requires LoadAndValidate(d).Ok?
    ensures ToLowerAscii(d.format) in Config.AllowedExtensions
    ensures ValidateFileExtension("frame" + "." + ToLowerAscii(d.format))
  {
    SupportedFormatAllowed(ToLowerAscii(d.format));
  }

  lemma SupportedFormatAllowed(ext: string)
    requires ext in SupportedFormats
    ensures ext in Config.AllowedExtensions
    ensures ValidateFileExtension("frame" + "." + ext)
  {
    FormatNames(ext);
    assert ToLowerAscii(ext) == ext by {
      if ext == "png" {
      } else if ext == "jpeg" {
      } else if ext == "gif" {
      } else {
      }
    }
    PlainNameExtension("frame", ext);
  }

  lemma FormatNames(ext: string)
    requires ext in SupportedFormats
    ensures '/' !in ext && '.' !in ext && ext != "" && ext in Config.AllowedExtensions
  {
    if ext == "png" {
    } else if ext == "jpeg" {
    } else if ext == "gif" {
    } else {
      assert ext == "webp";
    }
  }

  // ---------------------------------------------------------------------------
  // Fitting into the canvas
  // ---------------------------------------------------------------------------

  datatype FitMode = Stretch | Contain | Cover | Fill

  /** Offset of a `size`-wide image centred in `room`: `(room - size) // 2`.
      Python floors; for the divisor 2 Dafny's Euclidean division agrees. */
  function CentreOffset(room: int, size: int): int {
    (room - size) / 2
  }

  /** The contain offsets keep a fitting thumbnail inside the canvas, and the
      two margins differ by at most one pixel (the extra pixel on the far side). */
  lemma CentreOffsetCentres(room: int, size: int)
    requires 0 <= size <= room
    ensures 0 <= CentreOffset(room, size) && CentreOffset(room, size) + size <= room
    ensures var x := CentreOffset(room, size);
            var far := room - size - x;
            far == x || far == x + 1
  {
  }

  /** `Image.new('RGBA', (w, h), (0, 0, 0, 0))` with `img` pasted at `(x, y)`;
      the parts of `img` outside the canvas are cut off. */
  function PasteOnClear(img: Image, w: nat, h: nat, x: int, y: int): (r: Image)
    ensures r.WellFormed() && r.width == w && r.height == h
    ensures forall j, i :: 0 <= j < h && 0 <= i < w ==>
              r.rows[j][i] == if x <= i < x + img.width && y <= j < y + img.height
                              then img.At(i - x, j - y) else Clear
  {
    Image(w, h, seq(h, j requires 0 <= j < h =>
      seq(w, i requires 0 <= i < w =>
        if x <= i < x + img.width && y <= j < y + img.height then img.At(i - x, j - y) else Clear)))
  }

  /** The `contain` branch: thumbnail, then centre on a transparent canvas of
      exactly the target size. */
  function ContainResize(ops: Pillow, img: Image, tw: int, th: int): (r: Option<Image>)
    ensures r.Some? ==> 0 <= tw && 0 <= th && r.value.WellFormed() && r.value.width == tw && r.value.height == th
  {
    match ops.thumbnail(img, tw, th)
    case None => None
    case Some(t) =>
      if tw < 0 || th < 0 then None
      else Some(PasteOnClear(t, tw, th, CentreOffset(tw, t.width), CentreOffset(th, t.height)))
  }

  /** Every pixel of `t` shows in `c` shifted by `(x, y)`. */
  predicate Placed(c: Image, t: Image, x: int, y: int)
    requires c.WellFormed() && t.WellFormed()
    requires 0 <= x && x + t.width <= c.width && 0 <= y && y + t.height <= c.height
  {
    forall j, i :: 0 <= j < t.height && 0 <= i < t.width ==> c.rows[y + j][x + i] == t.rows[j][i]
  }

  /** Every pixel of `c` outside the `t`-sized box at `(x, y)` is clear. */
  predicate ClearOutside(c: Image, t: Image, x: int, y: int)
    requires c.WellFormed()
  {
    forall j, i :: 0 <= j < c.height && 0 <= i < c.width && !(x <= i < x + t.width && y <= j < y + t.height)
      ==> c.rows[j][i] == Clear
  }

  /** Every pixel of a fitting thumbnail lands on the canvas, shifted by the
      centring offsets; all other canvas pixels are transparent. */
  lemma ContainKeepsThumbnail(ops: Pillow, img: Image, tw: int, th: int)
    requires tw >= 0 && th >= 0
    requires ops.thumbnail(img, tw, th).Some?
    requires var t := ops.thumbnail(img, tw, th).value;
             t.WellFormed() && t.width <= tw && t.height <= th
    ensures var t := ops.thumbnail(img, tw, th).value;
            var c := ContainResize(ops, img, tw, th).value;
            var x := CentreOffset(tw, t.width);
            var y := CentreOffset(th, t.height);
            && c.width == tw && c.height == th
            && 0 <= x && x + t.width <= tw && 0 <= y && y + t.height <= th
            && Placed(c, t, x, y) && ClearOutside(c, t, x, y)
  {
    var t := ops.thumbnail(img, tw, th).value;
    var x := CentreOffset(tw, t.width);
    var y := CentreOffset(th, t.height);
    assert 0 <= x && x + t.width <= tw by { CentreOffsetCentres(tw, t.width); }
    assert 0 <= y && y + t.height <= th by { CentreOffsetCentres(th, t.height); }
    assert ContainResize(ops, img, tw, th).value == PasteOnClear(t, tw, th, x, y);
    PasteKeepsImage(t, tw, th, x, y);
  }

  /** A well-formed image pasted wholly inside the canvas appears there
      unchanged, and every other canvas pixel is clear. */
  lemma PasteKeepsImage(t: Image, w: nat, h: nat, x: int, y: int)
    requires t.WellFormed()
    requires 0 <= x && x + t.width <= w && 0 <= y && y + t.height <= h
    ensures Placed(PasteOnClear(t, w, h, x, y), t, x, y)
    ensures ClearOutside(PasteOnClear(t, w, h, x, y), t, x, y)
  {
    var c := PasteOnClear(t, w, h, x, y);
    forall j, i | 0 <= j < t.height && 0 <= i < t.width
      ensures c.rows[y + j][x + i] == t.rows[j][i]
    {
      assert t.At(i, j) == t.rows[j][i];
    }
  }

  /** The `cover` crop box `(left, top, right, bottom)` for an image resized
      to `nw` x `nh`. */
  function CoverBox(nw: int, nh: int, tw: int, th: int): (box: (int, int, int, int))
    ensures box.2 - box.0 == tw && box.3 - box.1 == th
  {
    var left := CentreOffset(nw, tw);
    var top := CentreOffset(nh, th);
    (left, top, left + tw, top + th)
  }

  /** When the resized image covers the target, the crop box lies inside it
      and trims the same amount (to within a pixel) from opposite sides. */
  lemma CoverBoxInside(nw: int, nh: int, tw: int, th: int)
    requires 0 <= tw <= nw && 0 <= th <= nh
    ensures var b := CoverBox(nw, nh, tw, th);
            && 0 <= b.0 && b.2 <= nw && 0 <= b.1 && b.3 <= nh
            && (nw - b.2 == b.0 || nw - b.2 == b.0 + 1)
            && (nh - b.3 == b.1 || nh - b.3 == b.1 + 1)
  {
    CentreOffsetCentres(nw, tw);
    CentreOffsetCentres(nh, th);
  }

  /** `img.crop(box)`: pixels outside the source read as transparent; a box
      whose right or bottom lies before its left or top raises. */
  function Crop(img: Image, box: (int, int, int, int)): (r: Option<Image>)
    ensures r.Some? <==> box.0 <= box.2 && box.1 <= box.3
    ensures r.Some? ==> r.value.WellFormed() && r.value.width == box.2 - box.0 && r.value.height == box.3 - box.1
    ensures r.Some? ==> forall j, i :: 0 <= j < r.value.height && 0 <= i < r.value.width ==>
                          r.value.rows[j][i] == img.At(box.0 + i, box.1 + j)
  {
    if box.2 < box.0 || box.3 < box.1 then None
    else
      var w: nat := box.2 - box.0;
      var h: nat := box.3 - box.1;
      Some(Image(w, h, seq(h, j requires 0 <= j < h => seq(w, i requires 0 <= i < w => img.At(box.0 + i, box.1 + j)))))
  }

  /** `resize_image`; a `None` result is the source's `None` after a caught exception. */
  function ResizeImage(ops: Pillow, img: Image, tw: int, th: int, mode: FitMode): (r: Option<Image>)
    ensures mode != Stretch && r.Some? ==> r.value.WellFormed() && r.value.width == tw && r.value.height == th
    ensures mode == Fill ==> r == ContainResize(ops, img, tw, th)
  {
    match mode
    case Stretch => ops.resample(img, tw, th)
    case Contain => ContainResize(ops, img, tw, th)
    case Fill => ContainResize(ops, img, tw, th)
    case Cover =>
      match ops.coverSize(img, tw, th)
      case None => None
      case Some(size) =>
        match ops.resample(img, size.0, size.1)
        case None => None
        case Some(resized) => Crop(resized, CoverBox(size.0, size.1, tw, th))
  }

  // ---------------------------------------------------------------------------
  // Background colour
  // ---------------------------------------------------------------------------

  /** Non-ASCII characters `str.isspace()` accepts; `int()` turns each into ' '. */
  predicate IsUnicodeSpace(c: char) {
    || c == '\U{85}' || c == '\U{a0}' || c == '\U{1680}' || ('\U{2000}' <= c <= '\U{200a}')
    || c == '\U{2028}' || c == '\U{2029}' || c == '\U{202f}' || c == '\U{205f}' || c == '\U{3000}'
  }

  /** The digit zero of the run of non-ASCII decimal digits (general
      category Nd of Unicode 15) holding code point `c`; each run is ten
      consecutive characters for the values 0 to 9, and the runs are listed
      in code point order. */
  function DecimalZero(c: int): (z: Option<int>)
    ensures z.Some? ==> z.value <= c < z.value + 10
  {
    if c < 0x660 then None else if c < 0x660 + 10 then Some(0x660)
    else if c < 0x6F0 then None else if c < 0x6F0 + 10 then Some(0x6F0)
    else if c < 0x7C0 then None else if c < 0x7C0 + 10 then Some(0x7C0)
    else if c < 0x966 then None else if c < 0x966 + 10 then Some(0x966)
    else if c < 0x9E6 then None else if c < 0x9E6 + 10 then Some(0x9E6)
    else if c < 0xA66 then None else if c < 0xA66 + 10 then Some(0xA66)
    else if c < 0xAE6 then None else if c < 0xAE6 + 10 then Some(0xAE6)
    else if c < 0xB66 then None else if c < 0xB66 + 10 then Some(0xB66)
    else if c < 0xBE6 then None else if c < 0xBE6 + 10 then Some(0xBE6)
    else if c < 0xC66 then None else if c < 0xC66 + 10 then Some(0xC66)
    else if c < 0xCE6 then None else if c < 0xCE6 + 10 then Some(0xCE6)
    else if c < 0xD66 then None else if c < 0xD66 + 10 then Some(0xD66)
    else if c < 0xDE6 then None else if c < 0xDE6 + 10 then Some(0xDE6)
    else if c < 0xE50 then None else if c < 0xE50 + 10 then Some(0xE50)
    else if c < 0xED0 then None else if c < 0xED0 + 10 then Some(0xED0)
    else if c < 0xF20 then None else if c < 0xF20 + 10 then Some(0xF20)
    else if c < 0x1040 then None else if c < 0x1040 + 10 then Some(0x1040)
    else if c < 0x1090 then None else if c < 0x1090 + 10 then Some(0x1090)
    else if c < 0x17E0 then None else if c < 0x17E0 + 10 then Some(0x17E0)
    else if c < 0x1810 then None else if c < 0x1810 + 10 then Some(0x1810)
    else if c < 0x1946 then None else if c < 0x1946 + 10 then Some(0x1946)
    else if c < 0x19D0 then None else if c < 0x19D0 + 10 then Some(0x19D0)
    else if c < 0x1A80 then None else if c < 0x1A80 + 10 then Some(0x1A80)
    else if c < 0x1A90 then None else if c < 0x1A90 + 10 then Some(0x1A90)
    else if c < 0x1B50 then None else if c < 0x1B50 + 10 then Some(0x1B50)
    else if c < 0x1BB0 then None else if c < 0x1BB0 + 10 then Some(0x1BB0)
    else if c < 0x1C40 then None else if c < 0x1C40 + 10 then Some(0x1C40)
    else if c < 0x1C50 then None else if c < 0x1C50 + 10 then Some(0x1C50)
    else if c < 0xA620 then None else if c < 0xA620 + 10 then Some(0xA620)
    else if c < 0xA8D0 then None else if c < 0xA8D0 + 10 then Some(0xA8D0)
    else if c < 0xA900 then None else if c < 0xA900 + 10 then Some(0xA900)
    else if c < 0xA9D0 then None else if c < 0xA9D0 + 10 then Some(0xA9D0)
    else if c < 0xA9F0 then None else if c < 0xA9F0 + 10 then Some(0xA9F0)
    else if c < 0xAA50 then None else if c < 0xAA50 + 10 then Some(0xAA50)
    else if c < 0xABF0 then None else if c < 0xABF0 + 10 then Some(0xABF0)
    else if c < 0xFF10 then None else if c < 0xFF10 + 10 then Some(0xFF10)
    else if c < 0x104A0 then None else if c < 0x104A0 + 10 then Some(0x104A0)
    else if c < 0x10D30 then None else if c < 0x10D30 + 10 then Some(0x10D30)
    else if c < 0x11066 then None else if c < 0x11066 + 10 then Some(0x11066)
    else if c < 0x110F0 then None else if c < 0x110F0 + 10 then Some(0x110F0)
    else if c < 0x11136 then None else if c < 0x11136 + 10 then Some(0x11136)
    else if c < 0x111D0 then None else if c < 0x111D0 + 10 then Some(0x111D0)
    else if c < 0x112F0 then None else if c < 0x112F0 + 10 then Some(0x112F0)
    else if c < 0x11450 then None else if c < 0x11450 + 10 then Some(0x11450)
    else if c < 0x114D0 then None else if c < 0x114D0 + 10 then Some(0x114D0)
    else if c < 0x11650 then None else if c < 0x11650 + 10 then Some(0x11650)
    else if c < 0x116C0 then None else if c < 0x116C0 + 10 then Some(0x116C0)
    else if c < 0x11730 then None else if c < 0x11730 + 10 then Some(0x11730)
    else if c < 0x118E0 then None else if c < 0x118E0 + 10 then Some(0x118E0)
    else if c < 0x11950 then None else if c < 0x11950 + 10 then Some(0x11950)
    else if c < 0x11C50 then None else if c < 0x11C50 + 10 then Some(0x11C50)
    else if c < 0x11D50 then None else if c < 0x11D50 + 10 then Some(0x11D50)
    else if c < 0x11DA0 then None else if c < 0x11DA0 + 10 then Some(0x11DA0)
    else if c < 0x11F50 then None else if c < 0x11F50 + 10 then Some(0x11F50)
    else if c < 0x16A60 then None else if c < 0x16A60 + 10 then Some(0x16A60)
    else if c < 0x16AC0 then None else if c < 0x16AC0 + 10 then Some(0x16AC0)
    else if c < 0x16B50 then None else if c < 0x16B50 + 10 then Some(0x16B50)
    else if c < 0x1D7CE then None else if c < 0x1D7CE + 10 then Some(0x1D7CE)
    else if c < 0x1D7D8 then None else if c < 0x1D7D8 + 10 then Some(0x1D7D8)
    else if c < 0x1D7E2 then None else if c < 0x1D7E2 + 10 then Some(0x1D7E2)
    else if c < 0x1D7EC then None else if c < 0x1D7EC + 10 then Some(0x1D7EC)
    else if c < 0x1D7F6 then None else if c < 0x1D7F6 + 10 then Some(0x1D7F6)
    else if c < 0x1E140 then None else if c < 0x1E140 + 10 then Some(0x1E140)
    else if c < 0x1E2F0 then None else if c < 0x1E2F0 + 10 then Some(0x1E2F0)
    else if c < 0x1E4F0 then None else if c < 0x1E4F0 + 10 then Some(0x1E4F0)
    else if c < 0x1E950 then None else if c < 0x1E950 + 10 then Some(0x1E950)
    else if c < 0x1FBF0 then None else if c < 0x1FBF0 + 10 then Some(0x1FBF0)
    else None
  }

  /** The first step of `int()` on a str: a character below U+007F is kept,
      other white space becomes ' ', another decimal digit becomes its ASCII
      digit, and anything else becomes a character no base accepts ('?'; the
      interpreter also cuts the text there, which cannot make it parse). */
  function IntAsciiChar(c: char): (a: char)
    ensures (c as int) < 0x7F ==> a == c
  {
    if (c as int) < 0x7F then c
    else if IsUnicodeSpace(c) then ' '
    else match DecimalZero(c as int)
      case Some(z) => DigitChar(c as int - z)
      case None => '?'
  }

  function IntAscii(s: string): (t: string)
    ensures |t| == |s|
    ensures forall i :: 0 <= i < |s| ==> t[i] == IntAsciiChar(s[i])
  {
    seq(|s|, i requires 0 <= i < |s| => IntAsciiChar(s[i]))
  }

  /** The white space `int()` skips around the digits once the text is ASCII:
      space and tab to carriage return, but not U+001C to U+001F. */
  predicate IsIntSpace(c: char) {
    c == ' ' || ('\t' <= c <= '\r')
  }

  function StripSpace(s: string): (r: string)
    ensures |r| <= |s|
    decreases |s|
  {
    if |s| > 0 && IsIntSpace(s[0]) then StripSpace(s[1..])
    else if |s| > 0 && IsIntSpace(s[|s| - 1]) then StripSpace(s[..|s| - 1])
    else s
  }

  function HexDigitValue(c: char): Option<nat> {
    if '0' <= c <= '9' then Some(c as int - '0' as int)
    else if 'a' <= c <= 'f' then Some(c as int - 'a' as int + 10)
    else if 'A' <= c <= 'F' then Some(c as int - 'A' as int + 10)
    else None
  }

  predicate AllHex(s: string) {
    forall i :: 0 <= i < |s| ==> HexDigitValue(s[i]).Some?
  }

  /** Hexadecimal digits are ASCII, so the rewriting leaves them alone. */
  lemma AsciiHexUnchanged(s: string)
    ensures AllHex(s) ==> IntAscii(s) == s
  {
  }

  /** Value of a string of hexadecimal digits, most significant first. */
  function HexValue(s: string): (v: nat)
    requires AllHex(s)
    ensures |s| <= 2 ==> v <= 255
    ensures |s| <= 1 ==> v <= 15
    decreases |s|
  {
    if |s| == 0 then 0
    else HexValue(s[..|s| - 1]) * 16 + HexDigitValue(s[|s| - 1]).value
  }

  /** `int(s, 16)` for a string of at most two characters (all that the
      slices of `hex_to_rgb` can be): after the ASCII rewriting, optional
      surrounding white space, an optional sign, then at least one
      hexadecimal digit. */
  function ParseHexField(s: string): (r: Option<int>)
    requires |s| <= 2
    ensures r.Some? ==> -15 <= r.value <= 255
    ensures |s| == 2 && AllHex(s) ==> r == Some(HexValue(s))
  {
    AsciiHexUnchanged(s);
    var t := StripSpace(IntAscii(s));
    if |t| == 0 then None
    else if t[0] == '+' || t[0] == '-' then
      if |t| > 1 && AllHex(t[1..]) then
        Some(if t[0] == '-' then -(HexValue(t[1..]) as int) else HexValue(t[1..]))
      else None
    else if AllHex(t) then Some(HexValue(t))
    else None
  }

  /** No white space character is a decimal digit. */
  lemma SpaceIsNotDecimal(c: char)
    requires IsUnicodeSpace(c)
    ensures DecimalZero(c as int).None?
  {
  }

  /** The value of a character as a digit of `int()`: an ASCII digit, or a
      decimal digit of another script. */
  function DecimalValue(c: char): Option<nat> {
    if '0' <= c <= '9' then Some(c as int - '0' as int)
    else if (c as int) < 0x7F then None
    else match DecimalZero(c as int)
      case Some(z) => Some(c as int - z)
      case None => None
  }

  /** Two decimal digits of any script read as the two-digit hexadecimal
      number with those digits. */
  lemma DecimalDigitsParse(a: char, b: char)
    requires DecimalValue(a).Some? && DecimalValue(b).Some?
    ensures ParseHexField([a, b]) == Some(16 * DecimalValue(a).value + DecimalValue(b).value)
  {
    var x := DecimalValue(a).value;
    var y := DecimalValue(b).value;
    AsciiDigitOf(a);
    AsciiDigitOf(b);
    var t := IntAscii([a, b]);
    assert t == [DigitChar(x), DigitChar(y)];
    assert StripSpace(t) == t;
    assert AllHex(t);
    assert t[..1] == [DigitChar(x)];
    assert HexValue(t[..1]) == x by {
      assert t[..1][..0] == [];
    }
  }

  /** `int()` rewrites a decimal digit of any script to the ASCII digit of
      the same value, which is a hexadecimal digit and not white space. */
  lemma AsciiDigitOf(c: char)
    requires DecimalValue(c).Some?
    ensures DecimalValue(c).value < 10
    ensures IntAsciiChar(c) == DigitChar(DecimalValue(c).value)
    ensures HexDigitValue(IntAsciiChar(c)) == DecimalValue(c)
    ensures !IsIntSpace(IntAsciiChar(c)) && IntAsciiChar(c) != '+' && IntAsciiChar(c) != '-'
  {
    if (c as int) >= 0x7F && IsUnicodeSpace(c) {
      SpaceIsNotDecimal(c);
    }
    var d := DecimalValue(c).value;
    assert "0123456789"[d] as int == '0' as int + d;
  }

  /** The full-width digits U+FF10 to U+FF19 are decimal digits. */
  lemma FullWidthDigit(x: nat)
    requires x < 10
    ensures DecimalValue((0xFF10 + x) as char) == Some(x)
  {
  }

  /** U+001C to U+001F count as white space for `str.strip()` but not for
      `int()`, so a field holding one does not parse. */
  lemma FileSeparatorNotSkipped()
    ensures ParseHexField("\U{1c}f").None?
  {
  }

  /** `hex_to_rgb`: leading '#' characters removed, then the two-character
      fields at offsets 0, 2 and 4. `None` is the `ValueError` `int()` raises. */
  function HexToRgb(color: string): (r: Option<Color>)
    ensures r.Some? ==> -15 <= r.value.r <= 255 && -15 <= r.value.g <= 255 && -15 <= r.value.b <= 255
  {
    var h := LStrip(color, '#');
    match (ParseHexField(Slice(h, 0, 2)), ParseHexField(Slice(h, 2, 4)), ParseHexField(Slice(h, 4, 6)))
    case (Some(r), Some(g), Some(b)) => Some(Color(r, g, b))
    case _ => None
  }

  /** Six hexadecimal digits after the leading '#'s are read as three
      two-digit values. */
  lemma HexToRgbDigits(color: string)
    ensures var h := LStrip(color, '#');
            |h| >= 6 && AllHex(h[..6]) ==>
              && AllHex(h[0..2]) && AllHex(h[2..4]) && AllHex(h[4..6])
              && HexToRgb(color) == Some(Color(HexValue(h[0..2]), HexValue(h[2..4]), HexValue(h[4..6])))
  {
    HexFields(LStrip(color, '#'));
  }

  lemma HexFields(h: string)
    ensures |h| >= 6 && AllHex(h[..6]) ==> AllHex(h[0..2]) && AllHex(h[2..4]) && AllHex(h[4..6])
  {
    if |h| >= 6 && AllHex(h[..6]) {
      forall i | 0 <= i < 2
        ensures HexDigitValue(h[0..2][i]).Some? && HexDigitValue(h[2..4][i]).Some? && HexDigitValue(h[4..6][i]).Some?
      {
        assert h[0..2][i] == h[..6][i] && h[2..4][i] == h[..6][i + 2] && h[4..6][i] == h[..6][i + 4];
      }
    }
  }

  /** Extra leading '#' characters make no difference. */
  lemma HexToRgbIgnoresHashes(color: string)
    ensures HexToRgb("#" + color) == HexToRgb(color)
  {
    assert ("#" + color)[1..] == color;
  }

  predicate InChannelRange(c: Color) {
    0 <= c.r <= 255 && 0 <= c.g <= 255 && 0 <= c.b <= 255
  }

  function UpperHexDigit(d: nat): char
    requires d < 16
  {
    "0123456789ABCDEF"[d]
  }

  /** The `#RRGGBB` spelling of a colour. */
  function FormatHex(c: Color): (s: string)
    requires InChannelRange(c)
    ensures |s| == 7 && s[0] == '#'
  {
    "#" + [UpperHexDigit(c.r / 16), UpperHexDigit(c.r % 16),
           UpperHexDigit(c.g / 16), UpperHexDigit(c.g % 16),
           UpperHexDigit(c.b / 16), UpperHexDigit(c.b % 16)]
  }

  lemma UpperHexDigitValue(d: nat)
    requires d < 16
    ensures HexDigitValue(UpperHexDigit(d)) == Some(d)
  {
  }

  lemma TwoDigits(d: nat)
    requires d <= 255
    ensures var s := [UpperHexDigit(d / 16), UpperHexDigit(d % 16)]; AllHex(s) && HexValue(s) == d
  {
    var s := [UpperHexDigit(d / 16), UpperHexDigit(d % 16)];
    UpperHexDigitValue(d / 16);
    UpperHexDigitValue(d % 16);
    assert s[..1] == [s[0]];
    assert HexValue(s[..1]) == d / 16;
  }

  /** Parsing the `#RRGGBB` spelling of an in-range colour gives it back. */
  lemma HexToRgbFormatHex(c: Color)
    requires InChannelRange(c)
    ensures HexToRgb(FormatHex(c)) == Some(c)
  {
    var s := FormatHex(c);
    var h := LStrip(s, '#');
    assert s[1] != '#' by { UpperHexDigitValue(c.r / 16); }
    assert LStrip(s[1..], '#') == s[1..];
    assert h == s[1..];
    assert h == [UpperHexDigit(c.r / 16), UpperHexDigit(c.r % 16),
                 UpperHexDigit(c.g / 16), UpperHexDigit(c.g % 16),
                 UpperHexDigit(c.b / 16), UpperHexDigit(c.b % 16)];
    assert h[0..2] == [UpperHexDigit(c.r / 16), UpperHexDigit(c.r % 16)];
    assert h[2..4] == [UpperHexDigit(c.g / 16), UpperHexDigit(c.g % 16)];
    assert h[4..6] == [UpperHexDigit(c.b / 16), UpperHexDigit(c.b % 16)];
    TwoDigits(c.r);
    TwoDigits(c.g);
    TwoDigits(c.b);
    HexToRgbDigits(s);
    assert AllHex(h[..6]) by {
      forall i | 0 <= i < 6 ensures HexDigitValue(h[..6][i]).Some? {
        if i < 2 { assert h[..6][i] == h[0..2][i]; }
        else if i < 4 { assert h[..6][i] == h[2..4][i - 2]; }
        else { assert h[..6][i] == h[4..6][i - 4]; }
      }
    }
  }

  // ---------------------------------------------------------------------------
  // Alpha policy
  // ---------------------------------------------------------------------------

  /** One pixel of the transparent-mode loop. */
  function BinarizePixel(p: Rgba, threshold: int): Rgba {
    if p.a < threshold then Clear else Rgba(p.r, p.g, p.b, 255)
  }

  /** The transparent-mode loop: below the threshold a pixel becomes fully
      transparent black, otherwise fully opaque with its colour kept. */
  function Binarize(img: Image, threshold: int): (r: Image)
    ensures r.width == img.width && r.height == img.height && |r.rows| == |img.rows|
    ensures forall y :: 0 <= y < |img.rows| ==> |r.rows[y]| == |img.rows[y]|
    ensures img.WellFormed() ==> r.WellFormed()
    ensures forall y, x :: 0 <= y < |img.rows| && 0 <= x < |img.rows[y]| ==>
              && (img.rows[y][x].a < threshold ==> r.rows[y][x] == Clear)
              && (img.rows[y][x].a >= threshold ==> r.rows[y][x] == img.rows[y][x].(a := 255))
              && (r.rows[y][x].a == 0 || r.rows[y][x].a == 255)
  {
    Image(img.width, img.height,
      seq(|img.rows|, y requires 0 <= y < |img.rows| =>
        seq(|img.rows[y]|, x requires 0 <= x < |img.rows[y]| => BinarizePixel(img.rows[y][x], threshold))))
  }

  /** Binarising twice with the same threshold is binarising once, for every threshold. */
  lemma BinarizeIdempotent(img: Image, threshold: int)
    ensures Binarize(Binarize(img, threshold), threshold) == Binarize(img, threshold)
  {
    var once := Binarize(img, threshold);
    var twice := Binarize(once, threshold);
    assert forall y :: 0 <= y < |img.rows| ==> twice.rows[y] == once.rows[y];
  }

  /** The colour Pillow fills a new RGB image with: the triple itself when it
      is in range; out-of-range triples are left to Pillow. */
  function BackgroundPixel(ops: Pillow, c: Color): (p: Rgba)
    ensures p.a == 255
    ensures InChannelRange(c) ==> p == Rgba(c.r, c.g, c.b, 255)
  {
    var f := if InChannelRange(c) then c else ops.fill(c);
    if InChannelRange(f) then Rgba(f.r, f.g, f.b, 255) else Rgba(0, 0, 0, 255)
  }

  /** One pixel of pasting the RGBA image over the background with its own
      alpha as the mask: an opaque pixel is copied, a transparent one shows
      the background, a partial one is Pillow's blend. */
  function FlattenPixel(ops: Pillow, p: Rgba, bg: Color): (q: Rgba)
    ensures q.a == 255
    ensures p.a == 255 ==> q == p
    ensures p.a == 0 ==> q == BackgroundPixel(ops, bg)
  {
    if p.a == 255 then p
    else if p.a == 0 then BackgroundPixel(ops, bg)
    else
      var m := ops.blend(p, bg);
      if InChannelRange(m) then Rgba(m.r, m.g, m.b, 255) else Rgba(0, 0, 0, 255)
  }

  /** The opaque-mode branch: the image flattened onto the background colour. */
  function Flatten(ops: Pillow, img: Image, bg: Color): (r: Image)
    ensures r.width == img.width && r.height == img.height && |r.rows| == |img.rows|
    ensures forall y :: 0 <= y < |img.rows| ==> |r.rows[y]| == |img.rows[y]|
    ensures img.WellFormed() ==> r.WellFormed()
    ensures forall y, x :: 0 <= y < |img.rows| && 0 <= x < |img.rows[y]| ==>
              r.rows[y][x] == FlattenPixel(ops, img.rows[y][x], bg)
  {
    Image(img.width, img.height,
      seq(|img.rows|, y requires 0 <= y < |img.rows| =>
        seq(|img.rows[y]|, x requires 0 <= x < |img.rows[y]| => FlattenPixel(ops, img.rows[y][x], bg))))
  }

  // ---------------------------------------------------------------------------
  // prepare_frame
  // ---------------------------------------------------------------------------

  /** What `prepare_frame` does: return an image, return `None`, or raise. */
  datatype Prepared = Ready(image: Image) | Unusable(reason: string) | Raised(error: string)

  /** `prepare_frame`: load and check, fit into the canvas with `contain`,
      then binarise the alpha (transparent mode) or flatten onto the parsed
      background colour, which raises when the colour does not parse. */
  function PrepareFrame(ops: Pillow, path: string, tw: int, th: int, transparent: bool,
                        background: string, threshold: int): (r: Prepared)
    ensures r.Ready? <==> && LoadAndValidate(ops.decode(path)).Ok?
                          && ResizeImage(ops, ops.decode(path).image, tw, th, Contain).Some?
                          && (transparent || HexToRgb(background).Some?)
    ensures r.Ready? && transparent ==>
              r.image == Binarize(ResizeImage(ops, ops.decode(path).image, tw, th, Contain).value, threshold)
    ensures r.Ready? && !transparent ==>
              r.image == Flatten(ops, ResizeImage(ops, ops.decode(path).image, tw, th, Contain).value,
                                 HexToRgb(background).value)
    ensures r.Ready? ==> r.image.WellFormed() && r.image.width == tw && r.image.height == th
    ensures r.Ready? && transparent ==> r.image.AlphaBinary()
    ensures r.Ready? && !transparent ==> r.image.Opaque()
    ensures r.Raised? <==> !transparent && HexToRgb(background).None?
                           && LoadAndValidate(ops.decode(path)).Ok?
                           && ResizeImage(ops, ops.decode(path).image, tw, th, Contain).Some?
  {
    match LoadAndValidate(ops.decode(path))
    case Err(e) => Unusable(e)
    case Ok(img) =>
      match ResizeImage(ops, img, tw, th, Contain)
      case None => Unusable("resize failed")
      case Some(fitted) =>
        if transparent then Ready(Binarize(fitted, threshold))
        else
          match HexToRgb(background)
          case None => Raised("invalid literal for int() with base 16")
          case Some(bg) => Ready(Flatten(ops, fitted, bg))
  }
}
