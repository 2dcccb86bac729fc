/**
 * The upload form's validation (gallery/forms.py): the three validators attached to
 * the `files` field, Django's per-file `FileField.clean` around them, and
 * `MultipleFileField.clean`, which applies it to every file of the field.
 */
module Forms {
  import opened Wrappers
  import opened Text

  newtype byte = b: int | 0 <= b < 256

  /** An uploaded file: the client's file name and the bytes it sent. */
  datatype Upload = Upload(name: string, content: seq<byte>) {
    function Size(): nat { |content| }
  }

  /** The reasons a file is refused. */
  datatype FieldError =
    | InvalidFile                                   // FileField: the upload has no name
    | EmptyFile                                     // FileField: the upload has no bytes
    | BadExtension                                  // FileExtensionValidator
    | TooLarge(sizeMb: nat, shownLimitMb: nat)      // validate_file_size
    | InvalidFormat                                 // validate_image_type

  /** A validator's verdict: it returns quietly or raises ValidationError. */
  datatype Check = Pass | Fail(error: FieldError)

  /** The value of the field as the widget hands it to `clean`. */
  datatype FieldData =
    | Files(files: seq<Upload>)   // a list or a tuple of files
    | One(file: Upload)           // a single file object
    | Nothing                     // None, '' or any other falsy non-file value

  // ---------------------------------------------------------------------------
  // validate_file_size (gallery/forms.py:22-27)

  const DefaultLimitMb: nat := 100
  const MiB: nat := 1024 * 1024

  /** The byte ceiling: the `MAX_UPLOAD_SIZE_MB` setting, or 100, times 1 MiB. */
  function LimitBytes(setting: Option<int>): int {
    setting.GetOr(DefaultLimitMb) * MiB
  }

  function ValidateFileSize(size: nat, setting: Option<int>): (r: Check)
    ensures r == Pass <==> size <= LimitBytes(setting)
    ensures r.Fail? ==> r.error == TooLarge(size / MiB, DefaultLimitMb)
    ensures setting == None && size == DefaultLimitMb * MiB ==> r == Pass
  {
    if size > LimitBytes(setting) then Fail(TooLarge(size / 1024 / 1024, DefaultLimitMb)) else Pass
  }

  // ---------------------------------------------------------------------------
  // validate_image_type (gallery/forms.py:29-48)

  const HeaderLength: nat := 12
  const JpegMagic: seq<byte> := [0xFF, 0xD8, 0xFF]
  const PngMagic: seq<byte> := [0x89, 0x50, 0x4E, 0x47, 0x0D, 0x0A, 0x1A, 0x0A]
  const RiffTag: seq<byte> := [0x52, 0x49, 0x46, 0x46]   // "RIFF"
  const WebpTag: seq<byte> := [0x57, 0x45, 0x42, 0x50]   // "WEBP"
  const TrustedExtensions: seq<string> := [".jpg", ".jpeg", ".png", ".webp"]

  predicate StartsWith(s: seq<byte>, prefix: seq<byte>) {
    |prefix| <= |s| && s[..|prefix|] == prefix
  }

  /** The first 12 bytes, or the whole content when it is shorter. */
  function Header(content: seq<byte>): (h: seq<byte>)
    ensures |h| == if |content| < HeaderLength then |content| else HeaderLength
    ensures content == h + content[|h|..]
  {
    if |content| < HeaderLength then content else content[..HeaderLength]
  }

  predicate IsJpeg(header: seq<byte>) { StartsWith(header, JpegMagic) }
  predicate IsPng(header: seq<byte>) { StartsWith(header, PngMagic) }
  /** `header.startswith(b'RIFF') and header[8:12] == b'WEBP'`. */
  predicate IsWebp(header: seq<byte>) {
    StartsWith(header, RiffTag) && |header| >= 12 && header[8..12] == WebpTag
  }

  predicate HasSignature(header: seq<byte>) {
    IsJpeg(header) || IsPng(header) || IsWebp(header)
  }

  /** The extension `os.path.splitext` gives, lowercased. */
  function FallbackExtension(name: string): string {
    Lower(SplitExt(name).1)
  }

  /** The decision of `validate_image_type` for a file name and the header it read. */
  function ImageTypeCheck(name: string, header: seq<byte>): (r: Check)
    ensures IsJpeg(header) ==> r == Pass
    ensures IsPng(header) ==> r == Pass
    ensures IsWebp(header) ==> r == Pass
    ensures |header| < 12 && !IsJpeg(header) && !IsPng(header) ==>
              (r == Pass <==> FallbackExtension(name) in TrustedExtensions)
    ensures !HasSignature(header) ==>
              (r == Pass <==> FallbackExtension(name) in TrustedExtensions)
    ensures r.Fail? ==> r.error == InvalidFormat
  {
    if IsJpeg(header) then Pass
    else if IsPng(header) then Pass
    else if IsWebp(header) then Pass
    else if FallbackExtension(name) in TrustedExtensions then Pass
    else Fail(InvalidFormat)
  }

  /** The uploaded file as the validator sees it: a name and a seekable byte stream. */
  class UploadedFile {
    const name: string
    const content: seq<byte>
    var position: nat

    constructor (name: string, content: seq<byte>)
      ensures this.name == name && this.content == content && position == 0
    {
      this.name := name;
      this.content := content;
      position := 0;
    }

    method Seek(offset: nat)
      modifies this
      ensures position == offset
    {
      position := offset;
    }

    /** `read(n)`: up to `n` bytes from the current position, which moves past them. */
    method Read(n: nat) returns (chunk: seq<byte>)
      modifies this
      ensures var from := if old(position) < |content| then old(position) else |content|;
              var to := if from + n < |content| then from + n else |content|;
              chunk == content[from..to]
      ensures position == old(position) + |chunk|
    {
      var from := if position < |content| then position else |content|;
      var to := if from + n < |content| then from + n else |content|;
      chunk := content[from..to];
      position := position + |chunk|;
    }
  }

  /**
   * `validate_image_type`: whatever the stream position was, the 12-byte read comes
   * from the start, and the position is back at 0 on every outcome.
   */
  method ValidateImageType(f: UploadedFile) returns (r: Check)
    modifies f
    ensures f.position == 0
    ensures r == ImageTypeCheck(f.name, Header(f.content))
  {
    f.Seek(0);
    var header := f.Read(HeaderLength);
    f.Seek(0);
    if IsJpeg(header) {
      return Pass;
    } else if IsPng(header) {
      return Pass;
    } else if IsWebp(header) {
      return Pass;
    }
    var ext := FallbackExtension(f.name);
    if ext in TrustedExtensions {
      return Pass;
    }
    return Fail(InvalidFormat);
  }

  // ---------------------------------------------------------------------------
  // FileExtensionValidator on PhotoUploadForm (gallery/forms.py:50-61)

  const AllowedImageExtensions: seq<string> := ["jpg", "jpeg", "png", "webp"]

  /** Django's validator: the lowercased `Path(name).suffix` without its dot must be listed. */
  function ValidateExtension(name: string): (r: Check)
    ensures r == Pass <==> Suffix(name) != "" && Lower(Suffix(name)[1..]) in AllowedImageExtensions
    ensures r.Fail? ==> r.error == BadExtension
  {
    var suffix := Suffix(name);
    var extension := if suffix == "" then "" else Lower(suffix[1..]);
    if extension in AllowedImageExtensions then Pass else Fail(BadExtension)
  }

  // ---------------------------------------------------------------------------
  // FileField.clean for one file, then MultipleFileField.clean (gallery/forms.py:15-20)

  function ErrorsOf(c: Check): seq<FieldError> {
    if c.Fail? then [c.error] else []
  }

  /**
   * The validators run in the order they are listed and every error is collected
   * (Django's `run_validators`).
   */
  function ValidatorErrors(u: Upload, setting: Option<int>): (es: seq<FieldError>)
    ensures es == [] <==> ValidateExtension(u.name) == Pass
                          && ValidateFileSize(u.Size(), setting) == Pass
                          && ImageTypeCheck(u.name, Header(u.content)) == Pass
    ensures |es| <= 3
    ensures forall e :: e in es <==> ValidateExtension(u.name) == Fail(e)
                                     || ValidateFileSize(u.Size(), setting) == Fail(e)
                                     || ImageTypeCheck(u.name, Header(u.content)) == Fail(e)
    ensures |es| == (if ValidateExtension(u.name).Fail? then 1 else 0)
                    + (if ValidateFileSize(u.Size(), setting).Fail? then 1 else 0)
                    + (if ImageTypeCheck(u.name, Header(u.content)).Fail? then 1 else 0)
    ensures ValidateExtension(u.name).Fail? ==> es[0] == BadExtension
  {
    ErrorsOf(ValidateExtension(u.name))
      + ErrorsOf(ValidateFileSize(u.Size(), setting))
      + ErrorsOf(ImageTypeCheck(u.name, Header(u.content)))
  }

  datatype FileResult = Accepted(file: Upload) | Rejected(errors: seq<FieldError>)

  /**
   * `FileField.clean` of one file: a nameless file is invalid and an empty one is
   * refused before any validator runs; otherwise the validators decide.
   */
  function CleanFile(u: Upload, setting: Option<int>): (r: FileResult)
    ensures r.Accepted? <==> u.name != "" && u.Size() > 0 && ValidatorErrors(u, setting) == []
    ensures r.Accepted? ==> r.file == u
    ensures r.Rejected? ==> |r.errors| >= 1
  {
    if u.name == "" then Rejected([InvalidFile])
    else if u.Size() == 0 then Rejected([EmptyFile])
    else
      var es := ValidatorErrors(u, setting);
      if es == [] then Accepted(u) else Rejected(es)
  }

  datatype CleanResult = Cleaned(files: seq<Upload>) | Invalid(errors: seq<FieldError>)

  /** File `i`'s outcome is the first refusal among `rs`, and it carries `es`. */
  predicate FirstRejectedAt(rs: seq<FileResult>, i: nat, es: seq<FieldError>) {
    && i < |rs|
    && rs[i] == Rejected(es)
    && forall j :: 0 <= j < i ==> rs[j].Accepted?
  }

  /**
   * Evaluating the comprehension left to right over the per-file outcomes: a list
   * of every file when all are accepted, or the first refusal, which aborts it.
   */
  function Collect(rs: seq<FileResult>): (r: CleanResult)
    ensures r.Cleaned? <==> forall i :: 0 <= i < |rs| ==> rs[i].Accepted?
    ensures r.Cleaned? ==> |r.files| == |rs| && forall i :: 0 <= i < |rs| ==> r.files[i] == rs[i].file
    ensures r.Invalid? ==> exists i: nat :: FirstRejectedAt(rs, i, r.errors)
  {
    if rs == [] then Cleaned([])
    else if rs[0].Rejected? then
      assert FirstRejectedAt(rs, 0, rs[0].errors);
      Invalid(rs[0].errors)
    else
      var rest := Collect(rs[1..]);
      if rest.Invalid? then
        ghost var i: nat :| FirstRejectedAt(rs[1..], i, rest.errors);
        assert FirstRejectedAt(rs, i + 1, rest.errors) by {
          forall j | 0 <= j < i + 1 ensures rs[j].Accepted? {
            if j > 0 { assert rs[j] == rs[1..][j - 1]; }
          }
        }
        rest
      else
        Cleaned([rs[0].file] + rest.files)
  }

  /** `single_file_clean` applied to every file, in order. */
  function CleanEach(files: seq<Upload>, setting: Option<int>): (rs: seq<FileResult>)
    ensures |rs| == |files|
    ensures forall i :: 0 <= i < |files| ==> rs[i] == CleanFile(files[i], setting)
  {
    if files == [] then [] else [CleanFile(files[0], setting)] + CleanEach(files[1..], setting)
  }

  /**
   * `[single_file_clean(d, initial) for d in data]`: every file, unchanged, when
   * all are accepted; otherwise the errors of the first refused file.
   */
  function CleanAll(files: seq<Upload>, setting: Option<int>): (r: CleanResult)
    ensures r.Cleaned? <==> forall i :: 0 <= i < |files| ==> CleanFile(files[i], setting).Accepted?
    ensures r.Cleaned? ==> r.files == files
    ensures r.Invalid? ==> exists i: nat :: FirstRejectedAt(CleanEach(files, setting), i, r.errors)
  {
    var rs := CleanEach(files, setting);
    var r := Collect(rs);
    assert r.Cleaned? ==> r.files == files;
    r
  }

  /** `MultipleFileField.clean`. A single file is truthy when it has a name. */
  function Clean(data: FieldData, setting: Option<int>): (r: CleanResult)
    ensures data.Files? ==> r == CleanAll(data.files, setting)
    ensures data.Nothing? ==> r == Cleaned([])
    ensures data.One? && data.file.name == "" ==> r == Cleaned([])
    ensures data.One? && data.file.name != "" ==> r == CleanAll([data.file], setting)
  {
    match data
    case Files(fs) => CleanAll(fs, setting)
    case One(f) => if f.name != "" then CleanAll([f], setting) else Cleaned([])
    case Nothing => Cleaned([])
  }

  // ---------------------------------------------------------------------------
  // How the checks relate

  /** The three signatures exclude each other, so the order they are tried in does not matter. */
  lemma SignaturesExclusive(header: seq<byte>)
    ensures !(IsJpeg(header) && IsPng(header))
    ensures !(IsJpeg(header) && IsWebp(header))
    ensures !(IsPng(header) && IsWebp(header))
  {
    if IsJpeg(header) { assert header[0] == 0xFF; }
    if IsPng(header) { assert header[0] == 0x89; }
    if IsWebp(header) { assert header[..4] == RiffTag; assert header[0] == 0x52; }
  }

  /** Where `splitext` finds an extension of two or more characters, `Path.suffix` finds the same. */
  lemma SplitExtAgreesWithSuffix(p: string)
    requires |SplitExt(p).1| >= 2
    ensures Suffix(p) == SplitExt(p).1
  {
    SuffixStartIsExtStart(p);
  }

  lemma LowerTail(s: string)
    requires |s| >= 1
    ensures Lower(s[1..]) == Lower(s)[1..]
  {
  }

  /**
   * The extension fallback of `validate_image_type` only trusts names that the
   * form's FileExtensionValidator also accepts.
   */
  lemma FallbackImpliesAllowedExtension(name: string)
    requires FallbackExtension(name) in TrustedExtensions
    ensures ValidateExtension(name) == Pass
  {
    var ext := SplitExt(name).1;
    TrustedWithoutDot(Lower(ext));
    SplitExtAgreesWithSuffix(name);
    LowerTail(ext);
  }

  /** Each trusted extension is an allowed one with a dot in front. */
  lemma TrustedWithoutDot(e: string)
    requires e in TrustedExtensions
    ensures |e| >= 2 && e[1..] in AllowedImageExtensions
  {
    if e == ".jpg" { assert e[1..] == "jpg"; }
    else if e == ".jpeg" { assert e[1..] == "jpeg"; }
    else if e == ".png" { assert e[1..] == "png"; }
    else { assert e[1..] == "webp"; }
  }

  /** A name with no slash and no dot before its extension. */
  predicate PlainStem(stem: string) {
    |stem| >= 1 && forall k :: 0 <= k < |stem| ==> stem[k] != '/' && stem[k] != '.'
  }

  /** The verdict for a name whose suffix is `.ext`. */
  lemma ExtensionVerdict(name: string, ext: string)
    requires Suffix(name) == "." + ext
    ensures ValidateExtension(name) == if Lower(ext) in AllowedImageExtensions then Pass else Fail(BadExtension)
  {
    assert Suffix(name)[1..] == ext;
  }

  /** The verdict for `stem.ext`, a plain stem and an extension without dots or slashes. */
  lemma PlainNameVerdict(stem: string, ext: string)
    requires PlainStem(stem)
    requires |ext| >= 1 && forall k :: 0 <= k < |ext| ==> ext[k] != '/' && ext[k] != '.'
    ensures ValidateExtension(stem + "." + ext) == if Lower(ext) in AllowedImageExtensions then Pass else Fail(BadExtension)
  {
    SuffixOfPlainName(stem, ext);
    ExtensionVerdict(stem + "." + ext, ext);
  }

  lemma LowerOfJPG()
    ensures Lower("JPG") == "jpg"
  {
    var low := Lower("JPG");
    assert low[0] == 'j' && low[1] == 'p' && low[2] == 'g';
  }

  lemma HeicNotAllowed()
    ensures Lower("heic") !in AllowedImageExtensions
  {
    var low := Lower("heic");
    assert low[0] == 'h';
    assert "jpg"[0] == 'j' && "jpeg"[0] == 'j' && "png"[0] == 'p' && "webp"[0] == 'w';
  }

  /** The allow-list is checked case-insensitively: a camera's `.JPG` is accepted. */
  lemma UpperCaseExtensionAllowed(stem: string)
    requires PlainStem(stem)
    ensures ValidateExtension(stem + ".JPG") == Pass
  {
    assert stem + ".JPG" == stem + "." + "JPG";
    PlainNameVerdict(stem, "JPG");
    LowerOfJPG();
  }

  /** An extension outside the list is refused (HEIC is not supported). */
  lemma HeicRefused(stem: string)
    requires PlainStem(stem)
    ensures ValidateExtension(stem + ".heic") == Fail(BadExtension)
  {
    assert stem + ".heic" == stem + "." + "heic";
    PlainNameVerdict(stem, "heic");
    HeicNotAllowed();
  }

  /** A name that is only a dot-extension has no suffix, so it is refused. */
  lemma HiddenNameRefused()
    ensures ValidateExtension(".jpg") == Fail(BadExtension)
  {
    assert RFind(".jpg", '/') == -1 by { RFindUnique(".jpg", '/', -1); }
    assert RFind(".jpg", '.') == 0 by { RFindUnique(".jpg", '.', 0); }
  }

  /** A file exactly at the 100 MiB ceiling passes; one byte more is refused. */
  lemma SizeCeilingInclusive()
    ensures ValidateFileSize(100 * 1024 * 1024, None) == Pass
    ensures ValidateFileSize(100 * 1024 * 1024 + 1, None) == Fail(TooLarge(100, 100))
  {
  }
}
