/** The image-upload helpers (backend/utils.py): the size limit, extension
    extraction, the extension allow-list of `process_image` and the names
    under which it stores the original and the thumbnail. The image
    decoding, EXIF correction, resizing and file writes are Pillow and
    file-system work; the model keeps only whether decoding succeeds. */
module Uploads {
  import opened Common
  import opened Strings

  /** An uploaded file as the handlers see it. `stem` is the text that
      `str(uuid.uuid4())` produces for this upload, and `decodable` says
      whether Pillow can open and re-encode the content. */
  datatype Upload = Upload(filename: Option<string>, size: nat, decodable: bool, stem: string)

  /** The two public paths `process_image` returns. */
  datatype StoredPaths = StoredPaths(original: string, thumbnail: string)

  const BytesPerMb := 1024 * 1024

  /** `validate_image_size`: the size in megabytes is `size / (1024 * 1024)`
      in floating point and is compared with the limit; True otherwise. */
  function ValidateImageSize(size: nat, maxMb: int): (r: Result<bool>)
    ensures r.Ok? <==> size <= maxMb * BytesPerMb
    ensures r.Ok? ==> r.value
    ensures r.Err? ==> r.error == BadRequest(ImageTooLarge)
  {
    if (size as real) / (BytesPerMb as real) > maxMb as real
    then Err(BadRequest(ImageTooLarge))
    else Ok(true)
  }

  /** The lower-cased text after the last `.` holds no `.`. */
  lemma ExtensionHasNoDot(name: string)
    ensures '.' !in Lower(AfterLast(name, '.'))
  {
    LowerKeepsChar(AfterLast(name, '.'), '.');
  }

  /** In a name with a dot, the extension follows the last dot. */
  lemma ExtensionFollowsDot(name: string)
    requires '.' in name
    ensures var r := Lower(AfterLast(name, '.'));
      |r| < |name| && name[|name| - |r| - 1] == '.'
  {
    assert |Lower(AfterLast(name, '.'))| == |AfterLast(name, '.')|;
  }

  /** The extension is the lower-cased suffix of the name. */
  lemma ExtensionIsSuffix(name: string)
    ensures var r := Lower(AfterLast(name, '.'));
      |r| <= |name| && r == Lower(name[|name| - |r|..])
  {
    var after := AfterLast(name, '.');
    assert |Lower(after)| == |after| && after == name[|name| - |after|..];
  }

  /** `get_file_extension`: the lower-cased text after the last `.`, or the
      empty string for a name without one. Lower-casing is ASCII only
      (`Strings.Lower`). */
  function GetFileExtension(name: string): (r: string)
    ensures '.' !in r
    ensures '.' !in name ==> r == ""
    ensures '.' in name ==>
      |r| < |name| && name[|name| - |r| - 1] == '.' && r == Lower(name[|name| - |r|..])
  {
    if '.' in name then
      ExtensionHasNoDot(name);
      ExtensionFollowsDot(name);
      ExtensionIsSuffix(name);
      Lower(AfterLast(name, '.'))
    else ""
  }

  const AllowedExtensions: set<string> := {"jpg", "jpeg", "png", "webp"}

  /** `file.filename or "image"`: a missing or empty name becomes "image". */
  function UploadName(u: Upload): (name: string)
    ensures name != []
  {
    if u.filename.None? || u.filename.value == [] then "image" else u.filename.value
  }

  const OriginalsUrl := "/static/originals/"
  const ThumbnailsUrl := "/static/thumbnails/"
  const ThumbSuffix := "_thumb.jpg"

  /** `process_image`: refuses an extension outside the allow-list with 400,
      answers 500 when Pillow fails, and otherwise names both files after
      the upload's stem. The extension test uses the same expression as
      `get_file_extension`. A file is stored exactly when its extension is
      allowed and Pillow can decode it. */
  function ProcessImage(u: Upload): (r: Result<StoredPaths>)
    ensures r.Ok? <==> GetFileExtension(UploadName(u)) in AllowedExtensions && u.decodable
    ensures GetFileExtension(UploadName(u)) !in AllowedExtensions ==> r == Err(BadRequest(UnsupportedImageFormat))
    ensures r.Err? && GetFileExtension(UploadName(u)) in AllowedExtensions ==> r.error == InternalError
  {
    var ext := GetFileExtension(UploadName(u));
    if ext !in AllowedExtensions then Err(BadRequest(UnsupportedImageFormat))
    else if !u.decodable then Err(InternalError)
    else Ok(StoredPaths(OriginalsUrl + u.stem + "." + ext, ThumbnailsUrl + u.stem + ThumbSuffix))
  }

  /** What one pass of the upload loop in `save_event` does with a file:
      the size check comes first, so an oversized file is refused as too
      large whatever its name; otherwise the outcome is that of
      `process_image`. */
  function StoreUpload(u: Upload, maxMb: int): (r: Result<StoredPaths>)
    ensures u.size > maxMb * BytesPerMb ==> r == Err(BadRequest(ImageTooLarge))
    ensures u.size <= maxMb * BytesPerMb ==> r == ProcessImage(u)
  {
    match ValidateImageSize(u.size, maxMb)
    case Err(e) => Err(e)
    case Ok(_) => ProcessImage(u)
  }

  /** The stem a thumbnail path was named after. */
  function ThumbnailStem(t: string): string {
    if |t| >= |ThumbnailsUrl| + |ThumbSuffix| then t[|ThumbnailsUrl|..|t| - |ThumbSuffix|] else t
  }

  /** The two stored paths share one stem: the thumbnail gives it back, the
      original is that stem with the upload's own extension, and the
      thumbnail is `/static/thumbnails/<stem>_thumb.jpg`, always a JPEG. */
  lemma StoredPathsShareStem(u: Upload)
    requires ProcessImage(u).Ok?
    ensures var p := ProcessImage(u).value;
      ThumbnailStem(p.thumbnail) == u.stem
      && p.original == OriginalsUrl + ThumbnailStem(p.thumbnail) + "." + GetFileExtension(UploadName(u))
      && p.thumbnail == ThumbnailsUrl + ThumbnailStem(p.thumbnail) + ThumbSuffix
      && p.thumbnail[|p.thumbnail| - 4..] == ".jpg"
  {
    var t := ThumbnailsUrl + u.stem + ThumbSuffix;
    assert t[|ThumbnailsUrl|..|t| - |ThumbSuffix|] == u.stem;
    assert t[|t| - 4..] == ThumbSuffix[6..];
  }

  /** A name without a dot has no extension and is refused; a missing name
      becomes "image", which has none. */
  lemma NoDotRejected(u: Upload)
    requires '.' !in UploadName(u)
    ensures ProcessImage(u) == Err(BadRequest(UnsupportedImageFormat))
  {
  }

  lemma MissingFilenameRejected(u: Upload)
    requires u.filename.None?
    ensures ProcessImage(u) == Err(BadRequest(UnsupportedImageFormat))
  {
    assert '.' !in "image" by {
      assert forall i :: 0 <= i < 5 ==> "image"[i] != '.';
    }
  }

  /** Only the text after the last dot is looked at, whatever case it is
      written in. */
  lemma LastDotDecides(base: string, ext: string)
    requires '.' !in ext
    ensures GetFileExtension(base + "." + ext) == Lower(ext)
  {
    var name := base + "." + ext;
    assert name[|name| - |ext| - 1] == '.';
    var r := AfterLast(name, '.');
    assert r == ext;
  }

  lemma UpperCaseExtensionAccepted(base: string, stem: string, size: nat)
    ensures ProcessImage(Upload(Some(base + ".PNG"), size, true, stem)).Ok?
  {
    assert base + ".PNG" == base + "." + "PNG";
    assert '.' !in "PNG" by {
      assert forall i :: 0 <= i < 3 ==> "PNG"[i] != '.';
    }
    LastDotDecides(base, "PNG");
    assert Lower("PNG") == "png";
  }

  lemma InnerDotIgnored(base: string, stem: string, size: nat)
    ensures ProcessImage(Upload(Some(base + ".png.exe"), size, true, stem))
      == Err(BadRequest(UnsupportedImageFormat))
  {
    assert base + ".png.exe" == (base + ".png") + "." + "exe";
    assert '.' !in "exe" by {
      assert forall i :: 0 <= i < 3 ==> "exe"[i] != '.';
    }
    LastDotDecides(base + ".png", "exe");
    assert Lower("exe") == "exe";
  }

  /** The limit is inclusive: a file of exactly MAX_IMAGE_SIZE_MB megabytes
      passes and one byte more does not. */
  lemma SizeLimitBoundary(maxMb: nat)
    ensures ValidateImageSize(maxMb * BytesPerMb, maxMb) == Ok(true)
    ensures ValidateImageSize(maxMb * BytesPerMb + 1, maxMb).Err?
  {
  }
}
