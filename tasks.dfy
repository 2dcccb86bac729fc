/**
 * The backstop thumbnail job (gallery/tasks.py): EXIF orientation correction,
 * `create_thumbnail`, and `create_thumbnail_for_photo` over the store.
 */
module Tasks {
  import opened Wrappers
  import opened Text
  import opened Forms
  import opened Models
  import opened Imaging
  import opened Store

  // ---------------------------------------------------------------------------
  // fix_image_rotation (gallery/tasks.py:8-31)

  /** PIL's tag number for Orientation (0x0112). */
  const OrientationTag: int := 274

  /** `exif.get(ORIENTATION_TAG, 1)`. */
  function OrientationOf(tags: map<int, int>): int {
    if OrientationTag in tags then tags[OrientationTag] else 1
  }

  /**
   * The EXIF standard's reading of the four unmirrored orientation values: how many
   * quarter turns counter-clockwise the stored pixels need to be seen upright.
   */
  function UprightTurns(orientation: int): nat
    requires orientation in {1, 3, 6, 8}
  {
    if orientation == 1 then 0
    else if orientation == 3 then 2
    else if orientation == 6 then 3
    else 1
  }

  /** The orientation the image's EXIF reader reports, if the read succeeds. */
  function ReportedOrientation(img: Img): Option<int> {
    match img.exif
    case ExifTags(tags) => Some(OrientationOf(tags))
    case _ => None
  }

  function FixImageRotation(img: Img): (r: Img)
    ensures ReportedOrientation(img).Some? && ReportedOrientation(img).value in {1, 3, 6, 8} ==>
              r.quarterTurns == (img.quarterTurns + UprightTurns(ReportedOrientation(img).value)) % 4
    ensures ReportedOrientation(img).Some? && ReportedOrientation(img).value in {6, 8} ==>
              r.width == img.height && r.height == img.width
    ensures ReportedOrientation(img) == Some(3) ==> r.width == img.width && r.height == img.height
    ensures !(ReportedOrientation(img).Some? && ReportedOrientation(img).value in {3, 6, 8}) ==> r == img
    ensures r != img ==> r.exif == NoExifReader && r.width * r.height == img.width * img.height
  {
    match img.exif
    case NoExifReader => img
    case ExifRaises => img      // the exception is logged and swallowed
    case ExifNone => img
    case ExifTags(tags) =>
      var orientation := OrientationOf(tags);
      if orientation == 3 then Rotate(img, 180)
      else if orientation == 6 then Rotate(img, 270)
      else if orientation == 8 then Rotate(img, 90)
      else img
  }

  /** Correcting twice is correcting once: a turned image has no EXIF reader left. */
  lemma FixImageRotationIdempotent(img: Img)
    ensures FixImageRotation(FixImageRotation(img)) == FixImageRotation(img)
  {
  }

  /** Orientation 6 on a landscape original gives a portrait image. */
  lemma Orientation6MakesLandscapePortrait(w: nat, h: nat, q: QuarterTurns)
    requires w > h
    ensures var r := FixImageRotation(Img(w, h, q, ExifTags(map[OrientationTag := 6])));
            r.height > r.width
  {
  }

  // ---------------------------------------------------------------------------
  // create_thumbnail (gallery/tasks.py:33-52)

  const DefaultThumbWidth: nat := 600
  const DefaultThumbHeight: nat := 600
  const DefaultThumbQuality: nat := 90
  const DefaultThumbFormat: string := "WEBP"

  /** The keyword arguments of `img.save`: `method=6` only for WEBP. */
  function ThumbnailOptions(width: nat, height: nat, quality: nat, format: string): (o: SaveOptions)
    ensures o.encoderMethod.Some? <==> format == "WEBP"
    ensures o.encoderMethod.Some? ==> o.encoderMethod.value == 6
    ensures o.format == format && o.quality == quality && o.boxWidth == width && o.boxHeight == height
  {
    SaveOptions(format, quality, if format == "WEBP" then Some(6) else None, width, height)
  }

  /**
   * `create_thumbnail`: None, never an exception, when the file is missing or the
   * library fails; otherwise the encoding of the upright RGB copy.
   */
  function CreateThumbnail(files: map<string, seq<byte>>, path: string, codec: Codec, options: SaveOptions): (r: Option<seq<byte>>)
    ensures path !in files ==> r == None
    ensures path in files && codec.open(files[path]).None? ==> r == None
    ensures r.Some? <==> path in files && codec.open(files[path]).Some?
                         && codec.encode(ToRgb(FixImageRotation(codec.open(files[path]).value)), options).Some?
    ensures r.Some? ==> r == codec.encode(ToRgb(FixImageRotation(codec.open(files[path]).value)), options)
  {
    if path !in files then None      // FileNotFoundError
    else match codec.open(files[path])
      case None => None
      case Some(img) => codec.encode(ToRgb(FixImageRotation(img)), options)
  }

  const BackstopOptions: SaveOptions := ThumbnailOptions(DefaultThumbWidth, DefaultThumbHeight, DefaultThumbQuality, DefaultThumbFormat)

  // ---------------------------------------------------------------------------
  // create_thumbnail_for_photo (gallery/tasks.py:54-83)

  datatype TaskOutcome =
    | AlreadyExists      // "thumbnail already exists"
    | OriginalMissing    // "error: original missing"
    | GenerationFailed   // "error generating the thumbnail"
    | Created            // "thumbnail created"
    | PhotoNotFound      // "error: Photo ID not found" (Photo.DoesNotExist)

  /** `basename(image.name)` without its extension, plus `_thumb.webp`. */
  function BackstopThumbName(imageName: string): (n: string)
    ensures '/' !in n
  {
    NoSlashInThumbName(BaseName(imageName));
    SplitExt(BaseName(imageName)).0 + "_thumb.webp"
  }

  /** The root of a slash-free name keeps no slash, and neither does the suffix added to it. */
  lemma NoSlashInThumbName(base: string)
    requires forall k :: 0 <= k < |base| ==> base[k] != '/'
    ensures '/' !in SplitExt(base).0 + "_thumb.webp"
  {
    assert '/' !in base;
    var root := SplitExt(base).0;
    assert root == base || root == base[..ExtStart(base)];
    assert '/' !in root;
    assert '/' !in "_thumb.webp";
  }

  /** The job's outcome and the store it leaves. */
  function ThumbnailTask(db: Db, id: nat, codec: Codec, today: Date): (r: (TaskOutcome, Db))
    requires Consistent(db)
    ensures Consistent(r.1)
    ensures r.0 == PhotoNotFound <==> id !in db.rows
    ensures r.0 == AlreadyExists <==> id in db.rows && db.rows[id].thumbnail != ""
    ensures r.0 == OriginalMissing <==> id in db.rows && db.rows[id].thumbnail == "" && db.rows[id].image == ""
    ensures r.0 == Created <==> id in db.rows && db.rows[id].thumbnail == "" && db.rows[id].image != ""
                                && CreateThumbnail(db.files, db.rows[id].image, codec, BackstopOptions).Some?
    ensures r.0 != Created ==> r.1 == db
    ensures r.0 == Created ==>
              var p := db.rows[id];
              var name := UploadTo(ThumbnailsDir, today, BackstopThumbName(p.image));
              && r.1.rows == db.rows[id := p.(thumbnail := name)]
              && r.1.files == db.files[name := CreateThumbnail(db.files, p.image, codec, BackstopOptions).value]
              && r.1.nextId == db.nextId
  {
    if id !in db.rows then (PhotoNotFound, db)
    else
      var photo := db.rows[id];
      if photo.thumbnail != "" then (AlreadyExists, db)
      else if photo.image == "" then (OriginalMissing, db)
      else match CreateThumbnail(db.files, photo.image, codec, BackstopOptions)
        case None => (GenerationFailed, db)
        case Some(bytes) =>
          var name := UploadTo(ThumbnailsDir, today, BackstopThumbName(photo.image));
          (Created, Written(WithFile(db, name, bytes), id, photo.(thumbnail := name)))
  }

  /** Running the job again changes nothing: a set thumbnail is left as it is. */
  lemma {:induction false} ThumbnailTaskIdempotent(db: Db, id: nat, codec: Codec, today: Date)
    requires Consistent(db)
    ensures var once := ThumbnailTask(db, id, codec, today).1;
            ThumbnailTask(once, id, codec, today).1 == once
    ensures ThumbnailTask(db, id, codec, today).0 == Created ==>
              ThumbnailTask(ThumbnailTask(db, id, codec, today).1, id, codec, today).0 == AlreadyExists
  {
    var (o, once) := ThumbnailTask(db, id, codec, today);
    if o == Created {
      assert once.rows[id].thumbnail != "" by {
        assert once.rows[id].thumbnail == UploadTo(ThumbnailsDir, today, BackstopThumbName(db.rows[id].image));
      }
    }
  }

  /** Only the photo's own row and the thumbnail's file can change. */
  lemma ThumbnailTaskFrame(db: Db, id: nat, codec: Codec, today: Date, other: nat)
    requires Consistent(db) && other != id && other in db.rows
    ensures var after := ThumbnailTask(db, id, codec, today).1;
            other in after.rows && after.rows[other] == db.rows[other] && after.rows.Keys == db.rows.Keys
  {
  }

  /** The job only ever sets a thumbnail, so every row keeps its image. */
  lemma ThumbnailTaskKeepsRowsWellFormed(db: Db, id: nat, codec: Codec, today: Date)
    requires Consistent(db) && RowsWellFormed(db)
    ensures RowsWellFormed(ThumbnailTask(db, id, codec, today).1)
  {
  }

  /**
   * `create_thumbnail_for_photo(photo_id)`, run sequentially (the row lock and the
   * transaction are not modelled).
   */
  method CreateThumbnailForPhoto(store: PhotoStore, id: nat, codec: Codec, today: Date) returns (outcome: TaskOutcome)
    requires store.Valid()
    modifies store
    ensures store.Valid()
    ensures (outcome, store.Snapshot()) == ThumbnailTask(old(store.Snapshot()), id, codec, today)
  {
    if id !in store.rows {
      return PhotoNotFound;
    }
    var photo := store.rows[id];
    if photo.thumbnail != "" {
      return AlreadyExists;
    }
    if photo.image == "" {
      return OriginalMissing;
    }
    var thumb := CreateThumbnail(store.files, photo.image, codec, BackstopOptions);
    if thumb.None? {
      return GenerationFailed;
    }
    var name := UploadTo(ThumbnailsDir, today, BackstopThumbName(photo.image));
    store.StoreFile(name, thumb.value);
    store.Write(id, photo.(thumbnail := name));
    return Created;
  }
}
