/** Model of the decision logic of the toolkit's image handle: how an
    image is located and loaded, how its format is inferred from the file
    extension, which format a save uses, and how the resize arguments are
    interpreted.

    Pixel data is not modelled: a picture is its size and the format PIL
    recorded when it decoded a file. The file system test, PIL's decoders
    and the HTTP fetch are the function-valued fields of `ImageEnv`. */
module Images {
  import opened Wrappers

  type Bytes = seq<bv8>

  /** The extension table: lower-case extension to PIL format name. */
  const FormatMap: map<string, string> := map[
    "jpg" := "JPEG",
    "jpeg" := "JPEG",
    "png" := "PNG",
    "gif" := "GIF",
    "bmp" := "BMP",
    "tif" := "TIFF",
    "tiff" := "TIFF",
    "webp" := "WEBP"
  ]

  /** A PIL image: its size, and the format of the file it was decoded
      from (`None` for an image PIL made itself). */
  datatype Picture = Picture(width: nat, height: nat, format: Option<string>)

  /** `convert('RGB')` makes a new image, so the decoded format is lost. */
  function ConvertRgb(p: Picture): (r: Picture)
    ensures r.width == p.width && r.height == p.height
    ensures r.format.None?
  {
    Picture(p.width, p.height, None)
  }

  /** What the image handle reaches outside itself. */
  datatype ImageEnv = ImageEnv(
    existing: set<string>,               // paths for which os.path.exists holds
    openLocal: string -> Option<Picture>, // Image.open(path)
    fetch: string -> Option<Bytes>,       // requests.get(url).content
    decode: Bytes -> Option<Picture>,     // Image.open(io.BytesIO(bytes))
    b64decode: string -> Option<Bytes>,   // base64.b64decode
    save: (Picture, string, string) -> bool // picture.save(path, format=...) succeeds
  )

  datatype ImageError =
    | InvalidPath(path: string)  // ValueError: neither an existing path nor a URL
    | NoImageProvided            // ValueError from the constructor
    | MissingResizeArgument      // ValueError from resize_img
    | InvalidSize                // ValueError from PIL's resize
    | DecodeError                // PIL could not open the data
    | FetchError                 // the HTTP request raised
    | Base64Error                // b64decode rejected the text
    | AttributeError             // img_format read before it was ever set
    | SaveError(path: string)    // PIL could not write the picture there in that format

  // ------------------------------------------------------------------
  // Extension to format
  // ------------------------------------------------------------------

  predicate NoDot(s: string) {
    forall k :: 0 <= k < |s| ==> s[k] != '.'
  }

  /** `s.split('.')[-1]`. */
  function LastPiece(s: string): (r: string)
    ensures NoDot(r)
    ensures |r| <= |s| && r == s[|s| - |r|..]
    ensures |r| < |s| ==> s[|s| - |r| - 1] == '.'
    decreases |s|
  {
    if s == [] then []
    else if s[|s| - 1] == '.' then []
    else
      var init := s[..|s| - 1];
      var p := LastPiece(init);
      var r := p + [s[|s| - 1]];
      assert s[|s| - |r|..] == init[|init| - |p|..] + [s[|s| - 1]];
      assert |r| < |s| ==> s[|s| - |r| - 1] == init[|init| - |p| - 1];
      r
  }

  function LowerChar(c: char): char {
    if 'A' <= c <= 'Z' then (c as int + 32) as char else c
  }

  /** `str.lower()` on ASCII letters; other characters are left as they are. */
  function AsciiLower(s: string): (r: string)
    ensures |r| == |s|
    ensures forall k :: 0 <= k < |s| ==> r[k] == LowerChar(s[k])
  {
    seq(|s|, k requires 0 <= k < |s| => LowerChar(s[k]))
  }

  /** `IMG_FORMAT_MAP.get(path.split('.')[-1].lower())`. */
  function ExtensionFormat(path: string): Option<string> {
    var ext := AsciiLower(LastPiece(path));
    if ext in FormatMap then Some(FormatMap[ext]) else None
  }

  /** The piece after the last dot is exactly the extension that was
      appended. */
  lemma {:induction false} LastPieceOfExtension(stem: string, ext: string)
    requires NoDot(ext)
    ensures LastPiece(stem + "." + ext) == ext
    decreases |ext|
  {
    var s := stem + "." + ext;
    if ext == [] {
    } else {
      var e' := ext[..|ext| - 1];
      assert s[..|s| - 1] == stem + "." + e';
      LastPieceOfExtension(stem, e');
      assert e' + [ext[|ext| - 1]] == ext;
    }
  }

  /** A name without a dot is its own last piece. */
  lemma {:induction false} LastPieceWithoutDot(s: string)
    requires NoDot(s)
    ensures LastPiece(s) == s
    decreases |s|
  {
    if s != [] {
      LastPieceWithoutDot(s[..|s| - 1]);
      assert s[..|s| - 1] + [s[|s| - 1]] == s;
    }
  }

  /** Any path ending in a dot and a known extension, in any letter case,
      gets that extension's format. */
  lemma ExtensionDecidesFormat(stem: string, ext: string)
    requires NoDot(ext)
    requires AsciiLower(ext) in FormatMap
    ensures ExtensionFormat(stem + "." + ext) == Some(FormatMap[AsciiLower(ext)])
  {
    LastPieceOfExtension(stem, ext);
  }

  lemma UpperCaseJpg(stem: string)
    ensures ExtensionFormat(stem + ".JPG") == Some("JPEG")
  {
    var path := stem + ".JPG";
    assert path == stem + "." + "JPG";
    LastPieceOfExtension(stem, "JPG");
    assert LastPiece(path) == "JPG";
    LowerJpg();
    assert "jpg" in FormatMap && FormatMap["jpg"] == "JPEG";
  }

  lemma LowerJpg()
    ensures AsciiLower("JPG") == "jpg"
  {
    var e := AsciiLower("JPG");
    assert e[0] == 'j' && e[1] == 'p' && e[2] == 'g';
  }

  // ------------------------------------------------------------------
  // Loading
  // ------------------------------------------------------------------

  predicate StartsWith(s: string, prefix: string) {
    |prefix| <= |s| && s[..|prefix|] == prefix
  }

  /** What `load_img(path, only_img=False)` returns. */
  datatype Loaded = Loaded(pic: Picture, bytes: Option<Bytes>, format: Option<string>)

  /** The image found at `path` before the format is inferred: the
      converted picture, the fetched bytes (`None` for a local file), and
      the format PIL decoded. */
  function Locate(env: ImageEnv, path: string): (r: Result<(Picture, Option<Bytes>, Option<string>), ImageError>)
    ensures r == Err(InvalidPath(path)) <==> path !in env.existing && !StartsWith(path, "http")
    ensures r.Ok? ==> r.value.0.format.None?
    ensures r.Ok? && path in env.existing ==> r.value.1.None?
    ensures r.Ok? && path !in env.existing ==> r.value.1 == env.fetch(path)
    ensures path in env.existing ==>
              && (r.Ok? <==> env.openLocal(path).Some?)
              && (r.Err? ==> r.error == DecodeError)
              && (r.Ok? ==> r.value.0 == ConvertRgb(env.openLocal(path).value)
                            && r.value.2 == env.openLocal(path).value.format)
    ensures path !in env.existing && StartsWith(path, "http") ==>
              && (env.fetch(path).None? ==> r == Err(FetchError))
              && (env.fetch(path).Some? ==> (r.Ok? <==> env.decode(env.fetch(path).value).Some?))
              && (env.fetch(path).Some? && r.Err? ==> r.error == DecodeError)
              && (r.Ok? ==> r.value.0 == ConvertRgb(env.decode(env.fetch(path).value).value)
                            && r.value.2 == env.decode(env.fetch(path).value).value.format)
  {
    if path in env.existing then
      match env.openLocal(path)
      case None => Err(DecodeError)
      case Some(p) => Ok((ConvertRgb(p), None, p.format))
    else if StartsWith(path, "http") then
      match env.fetch(path)
      case None => Err(FetchError)
      case Some(b) =>
        (match env.decode(b)
         case None => Err(DecodeError)
         case Some(p) => Ok((ConvertRgb(p), Some(b), p.format)))
    else Err(InvalidPath(path))
  }

  /** `load_img` as written: the fallback reads the format of the image
      after `convert('RGB')`, which never has one. */
  function LoadImgAsWritten(env: ImageEnv, path: string): Result<Loaded, ImageError> {
    match Locate(env, path)
    case Err(e) => Err(e)
    case Ok((pic, bytes, _)) =>
      var fallback := pic.format;
      Ok(Loaded(pic, bytes, if ExtensionFormat(path).Some? then ExtensionFormat(path) else fallback))
  }

  /** `load_img` as intended: a known extension decides the format, and
      otherwise the format PIL decoded does. */
  function LoadImg(env: ImageEnv, path: string): (r: Result<Loaded, ImageError>)
    ensures r.Ok? ==> Locate(env, path).Ok? && r.value.pic == Locate(env, path).value.0
                      && r.value.bytes == Locate(env, path).value.1
    ensures r.Ok? && ExtensionFormat(path).Some? ==> r.value.format == ExtensionFormat(path)
    ensures r.Ok? && ExtensionFormat(path).None? ==> r.value.format == Locate(env, path).value.2
    ensures r.Err? <==> Locate(env, path).Err?
    ensures r.Err? ==> r.error == Locate(env, path).error
  {
    match Locate(env, path)
    case Err(e) => Err(e)
    case Ok((pic, bytes, decoded)) =>
      Ok(Loaded(pic, bytes, if ExtensionFormat(path).Some? then ExtensionFormat(path) else decoded))
  }

  /** `load_img` tells a local file from a URL: an existing path is read
      locally with no bytes, otherwise a string starting with "http" is
      fetched and its bytes kept, and anything else is rejected. */
  lemma LoadImgClassifies(env: ImageEnv, path: string)
    ensures LoadImg(env, path) == Err(InvalidPath(path)) <==> path !in env.existing && !StartsWith(path, "http")
    ensures LoadImg(env, path).Ok? && path in env.existing ==> LoadImg(env, path).value.bytes.None?
    ensures LoadImg(env, path).Ok? && path !in env.existing ==>
              StartsWith(path, "http") && LoadImg(env, path).value.bytes == env.fetch(path)
  {
  }

  /** With a known extension the source and the corrected version agree;
      without one the source always records no format, whatever PIL
      decoded. */
  lemma LoadImgAsWrittenLosesFallback(env: ImageEnv, path: string)
    ensures ExtensionFormat(path).Some? ==> LoadImgAsWritten(env, path) == LoadImg(env, path)
    ensures ExtensionFormat(path).None? && LoadImgAsWritten(env, path).Ok? ==>
              LoadImgAsWritten(env, path).value.format.None?
  {
  }

  /** A concrete case: an existing PNG file saved without an extension
      loads with format `None` as written, and `"PNG"` as intended. */
  lemma FallbackCounterexample(env: ImageEnv)
    requires "photo" in env.existing
    requires env.openLocal("photo") == Some(Picture(640, 480, Some("PNG")))
    ensures LoadImgAsWritten(env, "photo").Ok? && LoadImgAsWritten(env, "photo").value.format == None
    ensures LoadImg(env, "photo").Ok? && LoadImg(env, "photo").value.format == Some("PNG")
  {
    var p := Picture(640, 480, Some("PNG"));
    PhotoHasNoExtension();
    assert Locate(env, "photo") == Ok((ConvertRgb(p), None, Some("PNG")));
  }

  lemma PhotoHasNoExtension()
    ensures ExtensionFormat("photo") == None
  {
    LastPieceWithoutDot("photo");
    var e := AsciiLower("photo");
    assert |e| == 5;
    ExtensionsAreShort();
  }

  /** Every known extension has at most four letters. */
  lemma ExtensionsAreShort()
    ensures forall k :: k in FormatMap ==> |k| <= 4
  {
  }

  // ------------------------------------------------------------------
  // The handle
  // ------------------------------------------------------------------

  /** The `img_format` attribute: only a handle built from a path has one. */
  datatype FormatAttr = Unset | Set(format: Option<string>)

  /** An `ImageTool`: the picture, its bytes, the size recorded at
      construction, and the format attribute. */
  datatype ImageTool = ImageTool(pic: Picture, bytes: Option<Bytes>, width: nat, height: nat, format: FormatAttr)

  /** The constructor's keyword arguments. */
  datatype ImageArgs = ImageArgs(path: Option<string>, bytes: Option<Bytes>, base64: Option<string>, pil: Option<Picture>)

  function Handle(pic: Picture, bytes: Option<Bytes>, format: FormatAttr): (t: ImageTool)
    ensures t.width == pic.width && t.height == pic.height
  {
    ImageTool(pic, bytes, pic.width, pic.height, format)
  }

  /** The size recorded in the handle is its picture's size. */
  predicate SizeRecorded(t: ImageTool) {
    t.width == t.pic.width && t.height == t.pic.height
  }

  /** `ImageTool(...)`: the first source given in the order path, bytes,
      base64, PIL image is used. */
  function NewImageTool(env: ImageEnv, args: ImageArgs): (r: Result<ImageTool, ImageError>)
    ensures r == Err(NoImageProvided) <==>
              args.path.None? && args.bytes.None? && args.base64.None? && args.pil.None?
    ensures r.Ok? ==> SizeRecorded(r.value)
    ensures r.Ok? ==> (r.value.format.Set? <==> args.path.Some?)
    ensures args.path.Some? ==> (r.Ok? <==> LoadImg(env, args.path.value).Ok?)
    ensures args.path.Some? && r.Ok? ==>
              var l := LoadImg(env, args.path.value).value;
              r.value.pic == l.pic && r.value.bytes == l.bytes && r.value.format == Set(l.format)
    ensures args.path.None? && args.bytes.Some? ==>
              var d := env.decode(args.bytes.value);
              && (r.Ok? <==> d.Some?)
              && (r.Err? ==> r.error == DecodeError)
              && (r.Ok? ==> r.value.pic == ConvertRgb(d.value) && r.value.bytes == args.bytes)
    ensures args.path.None? && args.bytes.None? && args.base64.Some? ==>
              var b := env.b64decode(args.base64.value);
              && (b.None? ==> r == Err(Base64Error))
              && (b.Some? ==> (r.Ok? <==> env.decode(b.value).Some?))
              && (b.Some? && r.Err? ==> r.error == DecodeError)
              && (r.Ok? ==> r.value.pic == ConvertRgb(env.decode(b.value).value) && r.value.bytes == b)
    ensures args.path.None? && args.bytes.None? && args.base64.None? && args.pil.Some? ==>
              r.Ok? && r.value.pic == args.pil.value && r.value.bytes.None?
  {
    if args.path.Some? then
      match LoadImg(env, args.path.value)
      case Err(e) => Err(e)
      case Ok(l) => Ok(Handle(l.pic, l.bytes, Set(l.format)))
    else if args.bytes.Some? then
      match env.decode(args.bytes.value)
      case None => Err(DecodeError)
      case Some(p) => Ok(Handle(ConvertRgb(p), args.bytes, Unset))
    else if args.base64.Some? then
      match env.b64decode(args.base64.value)
      case None => Err(Base64Error)
      case Some(b) =>
        (match env.decode(b)
         case None => Err(DecodeError)
         case Some(p) => Ok(Handle(ConvertRgb(p), Some(b), Unset)))
    else if args.pil.Some? then
      Ok(Handle(args.pil.value, None, Unset))
    else
      Err(NoImageProvided)
  }

  /** A path outranks every other source: whatever else is passed, the
      handle is the one built from the path alone. */
  lemma PathTakesPrecedence(env: ImageEnv, args: ImageArgs)
    requires args.path.Some?
    ensures NewImageTool(env, args) == NewImageTool(env, ImageArgs(args.path, None, None, None))
  {
  }

  /** Bytes outrank base64 text and a PIL image. */
  lemma BytesBeforeBase64(env: ImageEnv, args: ImageArgs)
    requires args.path.None? && args.bytes.Some?
    ensures NewImageTool(env, args) == NewImageTool(env, ImageArgs(None, args.bytes, None, None))
  {
  }

  /** Base64 text outranks a PIL image. */
  lemma Base64BeforePil(env: ImageEnv, args: ImageArgs)
    requires args.path.None? && args.bytes.None? && args.base64.Some?
    ensures NewImageTool(env, args) == NewImageTool(env, ImageArgs(None, None, args.base64, None))
  {
  }

  /** `save_img`'s format: the explicit one, else the stored one, else
      `"JPEG"`. Reading the stored format of a handle that never set it
      raises `AttributeError`. */
  function SaveFormat(tool: ImageTool, explicit: Option<string>): (r: Result<string, ImageError>)
    ensures explicit.Some? ==> r == Ok(explicit.value)
    ensures r.Err? <==> explicit.None? && tool.format.Unset?
    ensures explicit.None? && tool.format == Set(None) ==> r == Ok("JPEG")
    ensures explicit.None? && tool.format.Set? && tool.format.format.Some? ==> r == Ok(tool.format.format.value)
  {
    if explicit.Some? then Ok(explicit.value)
    else match tool.format
      case Unset => Err(AttributeError)
      case Set(stored) => Ok(stored.GetOr("JPEG"))
  }

  /** The saved file: where it goes and in which format. The extension of
      `savePath` plays no part in the choice. */
  datatype Saved = Saved(path: string, format: string, pic: Picture)

  function SaveImg(env: ImageEnv, tool: ImageTool, savePath: string, explicit: Option<string>): (r: Result<Saved, ImageError>)
    ensures r.Ok? ==> r.value.path == savePath && r.value.pic == tool.pic
    ensures r.Ok? <==> SaveFormat(tool, explicit).Ok? && env.save(tool.pic, savePath, SaveFormat(tool, explicit).value)
    ensures r.Ok? ==> r.value.format == SaveFormat(tool, explicit).value
    ensures SaveFormat(tool, explicit).Err? ==> r == Err(AttributeError)
    ensures SaveFormat(tool, explicit).Ok? && r.Err? ==> r == Err(SaveError(savePath))
  {
    match SaveFormat(tool, explicit)
    case Err(e) => Err(e)
    case Ok(f) => if env.save(tool.pic, savePath, f) then Ok(Saved(savePath, f, tool.pic)) else Err(SaveError(savePath))
  }

  /** A handle loaded from a path with a known extension saves, by
      default, in that extension's format, wherever it is saved, unless
      PIL cannot write it there in that format. */
  lemma LoadedHandleSavesInItsFormat(env: ImageEnv, stem: string, ext: string, savePath: string)
    requires NoDot(ext) && AsciiLower(ext) in FormatMap
    requires LoadImg(env, stem + "." + ext).Ok?
    ensures var t := NewImageTool(env, ImageArgs(Some(stem + "." + ext), None, None, None));
            && t.Ok?
            && SaveFormat(t.value, None) == Ok(FormatMap[AsciiLower(ext)])
            && (env.save(t.value.pic, savePath, FormatMap[AsciiLower(ext)]) ==>
                  SaveImg(env, t.value, savePath, None) == Ok(Saved(savePath, FormatMap[AsciiLower(ext)], t.value.pic)))
  {
    var path := stem + "." + ext;
    var f := FormatMap[AsciiLower(ext)];
    assert LoadImg(env, path).value.format == Some(f) by {
      ExtensionDecidesFormat(stem, ext);
    }
    PathHandleFormat(env, path);
    var t := NewImageTool(env, ImageArgs(Some(path), None, None, None)).value;
    if env.save(t.pic, savePath, f) {
      SavesStoredFormat(env, t, savePath);
    }
  }

  /** A handle built from a path stores the format `load_img` reported. */
  lemma PathHandleFormat(env: ImageEnv, path: string)
    requires LoadImg(env, path).Ok?
    ensures var t := NewImageTool(env, ImageArgs(Some(path), None, None, None));
            t.Ok? && t.value.format == Set(LoadImg(env, path).value.format)
  {
  }

  /** A handle whose stored format is known saves in it by default, when
      PIL can write it there in that format. */
  lemma SavesStoredFormat(env: ImageEnv, t: ImageTool, savePath: string)
    requires t.format.Set? && t.format.format.Some?
    requires env.save(t.pic, savePath, t.format.format.value)
    ensures SaveImg(env, t, savePath, None) == Ok(Saved(savePath, t.format.format.value, t.pic))
  {
  }

  /** A handle built from bytes, base64 text or a PIL image cannot be
      saved without an explicit format. */
  lemma UnloadedHandleNeedsFormat(env: ImageEnv, args: ImageArgs, savePath: string)
    requires args.path.None?
    requires NewImageTool(env, args).Ok?
    ensures SaveImg(env, NewImageTool(env, args).value, savePath, None) == Err(AttributeError)
    ensures forall f ::
              SaveImg(env, NewImageTool(env, args).value, savePath, Some(f)).Ok? <==>
              env.save(NewImageTool(env, args).value.pic, savePath, f)
  {
  }

  // ------------------------------------------------------------------
  // Resizing
  // ------------------------------------------------------------------

  /** `n` is `x` with its fractional part dropped, for `x >= 0`. */
  predicate RoundsDown(n: int, x: real) {
    n as real <= x < n as real + 1.0
  }

  /** Python's `int()` on a number: truncation toward zero. */
  function Trunc(x: real): (r: int)
    ensures x >= 0.0 ==> RoundsDown(r, x)
    ensures x < 0.0 ==> r as real - 1.0 < x <= r as real
  {
    if x >= 0.0 then x.Floor else -((-x).Floor)
  }

  /** `Image.resize`: a new image of the given size; PIL rejects a side
      shorter than one pixel with `ValueError`. */
  function Resize(p: Picture, width: int, height: int): (r: Result<Picture, ImageError>)
    ensures r.Ok? <==> width >= 1 && height >= 1
    ensures r.Ok? ==> r.value.width == width && r.value.height == height && r.value.format.None?
    ensures r.Err? ==> r.error == InvalidSize
  {
    if width >= 1 && height >= 1 then Ok(Picture(width, height, None)) else Err(InvalidSize)
  }

  /** `resize_img`: `size` whenever it is given, otherwise the recorded
      size scaled and truncated; with neither it raises. The handle is
      not changed. */
  function ResizeImg(tool: ImageTool, size: Option<(int, int)>, scale: Option<real>): (r: Result<Picture, ImageError>)
    ensures r == Err(MissingResizeArgument) <==> size.None? && scale.None?
    ensures size.Some? ==> (r.Ok? <==> size.value.0 >= 1 && size.value.1 >= 1)
    ensures size.Some? && r.Ok? ==> r.value.width == size.value.0 && r.value.height == size.value.1
    ensures size.None? && scale.Some? && scale.value >= 0.0 && r.Ok? ==>
              && RoundsDown(r.value.width, tool.width as real * scale.value)
              && RoundsDown(r.value.height, tool.height as real * scale.value)
    ensures size.None? && scale.Some? && scale.value >= 0.0 ==>
              (r.Ok? <==> tool.width as real * scale.value >= 1.0 && tool.height as real * scale.value >= 1.0)
    ensures size.None? && scale.Some? && scale.value < 0.0 ==> r == Err(InvalidSize)
  {
    if size.Some? then Resize(tool.pic, size.value.0, size.value.1)
    else if scale.Some? then
      Resize(tool.pic, Trunc(tool.width as real * scale.value), Trunc(tool.height as real * scale.value))
    else Err(MissingResizeArgument)
  }

  /** Given both arguments, `scale` is ignored. */
  lemma SizeWinsOverScale(tool: ImageTool, size: (int, int), scale: real)
    ensures ResizeImg(tool, Some(size), Some(scale)) == ResizeImg(tool, Some(size), None)
  {
  }

  /** Scaling by a whole number multiplies the recorded size exactly, so a
      scale of 1 keeps it. */
  lemma WholeScale(tool: ImageTool, n: nat)
    requires tool.width * n >= 1 && tool.height * n >= 1
    ensures ResizeImg(tool, None, Some(n as real)).Ok?
    ensures ResizeImg(tool, None, Some(n as real)).value.width == tool.width * n
    ensures ResizeImg(tool, None, Some(n as real)).value.height == tool.height * n
  {
    assert tool.width as real * n as real == (tool.width * n) as real;
    assert tool.height as real * n as real == (tool.height * n) as real;
  }

  /** Scaling uses the size recorded at construction, which for every
      handle the constructor returns is the size of the picture it holds. */
  lemma ScaleUsesPictureSize(t: ImageTool, scale: real)
    requires SizeRecorded(t) && scale >= 0.0
    ensures var r := ResizeImg(t, None, Some(scale));
            r.Ok? ==> RoundsDown(r.value.width, t.pic.width as real * scale)
                      && RoundsDown(r.value.height, t.pic.height as real * scale)
  {
  }
}
