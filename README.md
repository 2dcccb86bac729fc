# Photo gallery core, modelled in Dafny

This project models the decision and state logic of a small Django photo gallery,
with the browser script that drives it:

- the upload form's validation: the size ceiling, the magic-byte check with its
  extension fallback, the extension allow-list, and `MultipleFileField.clean`;
- the views: the AJAX test, page choice and feed entries in `index`, the JSON
  listing `all_photos_json`, the upload pipeline `save_optimized_and_thumbnail`,
  and the batch loop and answer of `upload_photo`;
- the backstop thumbnail job (`fix_image_rotation`, `create_thumbnail`,
  `create_thumbnail_for_photo`) and the post-save hook that starts it;
- the `Photo` model: its fields and constraints, its upload directories and `__str__`;
- the script's closure state: the lightbox position, the swipe decision, the
  infinite-scroll pager and the upload form's file selection.

Module layout:

| file | module | models |
|---|---|---|
| wrappers.dfy | `Wrappers` | `Option` |
| text.dfy | `Text` | Python's `str.rfind`, `os.path.splitext`, `os.path.basename`, `PurePath.suffix`, ASCII `lower`, `str(n)`, `int(s)` |
| forms.dfy | `Forms` | gallery/forms.py |
| models.dfy | `Models` | gallery/models.py |
| imaging.dfy | `Imaging` | the parts of PIL the gallery calls, kept abstract |
| store.dfy | `Store` | the Photo table and the file storage, as a class with a value snapshot |
| tasks.dfy | `Tasks` | gallery/tasks.py |
| signals.dfy | `Signals` | gallery/signals.py |
| views.dfy | `Views` | gallery/views.py |
| client.dfy | `Client` | static/js/script.js |

Code that updates state step by step is written as methods on classes:
- `Store.PhotoStore`: the table and the storage;
- `Forms.UploadedFile`: the stream position;
- `Client.Lightbox`, `Client.SwipeTracker`, `Client.InfiniteScroll` and
  `Client.UploadForm`: the script's closures.

Each such method is proved to leave exactly the state that a pure function of the
old state gives. The properties are proved about those functions. Examples:
- `Views.SaveUpload` for one upload;
- `Views.Batch` for the loop;
- `Tasks.ThumbnailTask` for the backstop;
- `Client.BeginLoad`/`Client.EndLoad` for `loadMore`.

Inputs the code reads from outside become parameters:
- the imaging library, as a `Codec` of two functions: decode, and resize-and-encode;
- the clock: one instant `now` and one date `today` per request;
- the `MAX_UPLOAD_SIZE_MB` setting;
- the request's `META`;
- the media URL and the index URL.

Django behaviour that the source relies on but does not contain is modelled from
Django's documented behaviour:
- `FileField.clean`: a nameless file is invalid and an empty one is refused, before
  any validator runs;
- `run_validators`: every validator runs and all errors are collected;
- `FileExtensionValidator`: it reads `pathlib` suffixes;
- `Paginator`: `num_pages = max(1, ceil(count / 12))`; a non-integer page raises
  `PageNotAnInteger`, and a page outside `1..num_pages` raises `EmptyPage`;
- `Model.save`: it writes every field of the in-memory instance.

Behaviour of the code worth knowing:

- **One invalid file rejects the whole batch.** If validation refuses any file,
  the batch saves nothing, so no rows are made (gallery/views.py:90, 120-126). It is
  not the case that the valid files are saved and only the invalid ones reported.
- **A file that fails after validation still leaves a row.** When the bytes cannot
  be decoded or re-encoded, the row holding the original already exists
  (gallery/views.py:59-61). So every file that passes validation adds one row,
  whether it is then saved or reported in `errors`.
- **The upload path's thumbnail comes from the view, not the backstop.**
  - `original.image.save(...)` at gallery/views.py:60 stores the file and saves
    the model, an INSERT. Its post-save hook has `created` set, so the backstop
    stores a thumbnail and records it in the row.
  - The UPDATE `original.save()` at line 61 then writes the in-memory instance
    back. That instance has no thumbnail, so the row no longer points at that file.
  - On success the view then sets its own `_thumb.webp` copy (line 82). On a
    decode or encode failure the row ends with no thumbnail, while the backstop's
    file stays in storage. `Views.RegisteredFiles` and `Views.SaveUploadRow` state this.
  - The backstop's thumbnail has the very name the view gives its own copy
    (`Views.BackstopNameMatchesViewName`).
- **The storage cleans every file name.** Django's `get_valid_filename` strips the
  name, turns spaces into `_` and drops characters other than `-`, `.` and word
  characters. So `my photo.jpg` is stored as `my_photo.jpg`, under the same name as
  an upload of `my_photo.jpg` (`Views.SpacedNamesCollide`).
- **The upload path applies no EXIF rotation** (gallery/views.py:64). Only the
  backstop corrects orientation.

## Model

| member | source | states |
|---|---|---|
| Text.SplitExt | gallery/forms.py:44 | `splitext`: the extension is empty, or starts at a dot and has no further dot and no slash, and then the last component of the root is not all dots |
| Text.SplitExtJoins | gallery/forms.py:44 | the root and the extension concatenate back to the name |
| Text.SplitExtOfJoin | gallery/views.py:70-71 | splitting `root + ext` for a dot-led, dot-free, slash-free `ext` gives back `(root, ext)` |
| Text.Suffix | gallery/forms.py:58-61 | `Path.suffix`: empty, or a dot followed by at least one character with no dot and no slash |
| Text.SuffixOfPlainName | gallery/forms.py:58-61 | the suffix of `stem.ext` (both non-empty, without dots or slashes) is `.ext` |
| Text.RFind | gallery/forms.py:44 | the last index of the character, or -1, and no later occurrence exists |
| Text.BaseName | gallery/tasks.py:69 | `basename`: no slash in the result, and it is no longer than the path |
| Text.BaseNameConcat | gallery/tasks.py:69 | appending slash-free text to a path appends it to the base name |
| Text.ParseDigits | gallery/views.py:28-31 | `int(str(n)) == n`: a page number formatted by the script is parsed back to itself |
| Text.ParseInt | gallery/views.py:28-31 | a run of ASCII digits parses to its decimal value; a parsed number starts with a sign or a digit, and only a leading minus makes it negative |
| Text.Digits | gallery/views.py:104-106 | `str(n)` is a non-empty run of digits, a single digit exactly when `n < 10`, with no leading zero unless `n` is 0 |
| Text.NotANumber | gallery/views.py:32-33 | text starting with neither a sign nor an ASCII digit parses to no number, so the view serves page 1 |
| Text.ZeroPadded | gallery/models.py:5 | zero padding keeps only digits and reaches the width |
| Forms.ValidateFileSize | gallery/forms.py:22-27 | passes iff the size is within the setting (default 100) × 1 MiB; a refusal reports the size in whole MiB and the limit 100 |
| Forms.SizeCeilingInclusive | gallery/forms.py:26 | a file of exactly 100 MiB passes; one byte more is refused |
| Forms.Header | gallery/forms.py:32 | the header is the first 12 bytes, or all the bytes when there are fewer, and is a prefix of the content |
| Forms.ImageTypeCheck | gallery/forms.py:36-48 | a JPEG, PNG or WEBP signature passes whatever the name; a header shorter than 12 bytes can match no WEBP signature; without a signature the lowercased `splitext` extension decides; refusals are the invalid-format error |
| Forms.UploadedFile.Read | gallery/forms.py:32 | `read(n)` returns the bytes from the position, at most `n`, and moves the position past them |
| Forms.ValidateImageType | gallery/forms.py:29-48 | the verdict is `ImageTypeCheck` on the first 12 bytes whatever the earlier position, and the position is 0 afterwards on every outcome |
| Forms.SignaturesExclusive | gallery/forms.py:36-41 | no header matches two signatures |
| Forms.ValidateExtension | gallery/forms.py:52-61 | passes iff the name has a suffix whose lowercased text after the dot is jpg, jpeg, png or webp; otherwise the extension error |
| Forms.FallbackImpliesAllowedExtension | gallery/forms.py:44-46 | every name the signature check's extension fallback trusts also passes the form's extension validator |
| Forms.SplitExtAgreesWithSuffix | gallery/forms.py:44-61 | when `splitext` finds an extension longer than the dot, it is the `pathlib` suffix too |
| Forms.ExtensionVerdict | gallery/forms.py:58-61 | for a name with suffix `.ext`, the verdict depends only on whether `ext`, lowercased, is allowed |
| Forms.PlainNameVerdict | gallery/forms.py:58-61 | a plain name `stem.ext` passes iff `ext`, lowercased, is in the allow-list, and is otherwise refused with the extension error |
| Forms.UpperCaseExtensionAllowed | gallery/forms.py:52-61 | `stem.JPG` is accepted: the allow-list is matched case-insensitively |
| Forms.HeicRefused | gallery/forms.py:51-52 | `stem.heic` is refused with the extension error |
| Forms.HiddenNameRefused | gallery/forms.py:58-61 | a name that is only `.jpg` has no suffix and is refused |
| Forms.ValidatorErrors | gallery/forms.py:57-64 | no errors iff all three validators pass; an error is reported exactly when some validator fails with it; there is one error per failing validator, and the extension error comes first |
| Forms.CleanFile | gallery/forms.py:15-16 | a file is accepted unchanged iff it has a name, is non-empty and no validator objects; a rejection has at least one error |
| Forms.Collect | gallery/forms.py:18 | the comprehension yields every file iff all are accepted, in order and of equal length; otherwise it stops at the first rejected file and carries that file's errors |
| Forms.CleanEach | gallery/forms.py:18 | clean is applied to each file, in order |
| Forms.CleanAll | gallery/forms.py:17-19 | a list gives back exactly the files iff each is accepted; otherwise the errors of the first rejected file |
| Forms.Clean | gallery/forms.py:15-20 | a list is cleaned element by element; a truthy single file becomes a one-element list; a falsy value gives `[]` |
| Models.NewPhoto | gallery/models.py:3-24 | a new photo has its image set, no thumbnail, blank title, and satisfies the schema |
| Models.Str | gallery/models.py:26-27 | the title when non-empty, else the image's stored name |
| Models.StrOfTitledPhoto | gallery/tests.py:10-15 | a photo titled "Test Photo" displays "Test Photo" |
| Models.StrOfUntitledPhotoHasUploadName | gallery/tests.py:17-19 | an untitled photo uploaded as `test2.jpg`, or any name the storage keeps as it is, displays a name containing its stem |
| Models.DatePath | gallery/models.py:5 | the `%Y/%m/%d/` part holds only digits and slashes and ends in a slash |
| Models.ValidFileName | gallery/models.py:4-7 | the name the storage keeps of an upload is no longer than it and holds only `-`, `.` and word characters, so no slash |
| Text.Strip | gallery/models.py:4-7 | the stripped name is no longer than the name, has no whitespace at either end, and a name without surrounding whitespace is kept as it is |
| Text.Lower | gallery/forms.py:44 | the lowered text has the same length, with each character lowered in place |
| Models.ValidFileNameKeeps | gallery/models.py:4-7 | the storage keeps a name unchanged exactly when every character of it is `-`, `.` or a word character |
| Models.ValidFileNameOfSpacedName | gallery/models.py:4-7 | `a b` is stored as `a_b`, the same as an upload named `a_b`, though the two names differ |
| Models.ValidFileNamesApart | gallery/views.py:70-71 | a name extended by a clean tail that does not start with a dot is never cleaned to the same name as one extended by an extension |
| Models.UploadTo | gallery/models.py:4-7 | the stored name is longer than the cleaned upload name: it is that name under `photos/` or `thumbnails/` and the date |
| Models.UploadToEndsWithName | gallery/models.py:4-7 | the stored name ends in the cleaned form of the uploaded name |
| Models.BaseNameOfUploadTo | gallery/models.py:4-7 | `basename` of a stored name gives back the cleaned form of the uploaded name |
| Imaging.Rotate | gallery/tasks.py:24-28 | `rotate(d, expand=True)` adds `d / 90` quarter turns, swaps the sides for an odd number of quarter turns, and drops the EXIF reader |
| Imaging.ToRgb | gallery/tasks.py:38 | `convert('RGB')` keeps size and turn and drops the EXIF reader |
| Tasks.FixImageRotation | gallery/tasks.py:14-31 | orientations 3, 6 and 8 turn the image upright (180, 270, 90 degrees); 3 keeps width and height and 6 and 8 swap them; any other value, a missing or failing EXIF reader, or no EXIF leaves the image as it is; a turned image keeps its area |
| Tasks.FixImageRotationIdempotent | gallery/tasks.py:14-31 | correcting orientation twice is the same as once |
| Tasks.Orientation6MakesLandscapePortrait | gallery/tasks.py:25-26 | orientation 6 on a landscape image gives a portrait one |
| Tasks.ThumbnailOptions | gallery/tasks.py:33-44 | the format, quality and box are as given, and `method=6` is present exactly for WEBP |
| Tasks.CreateThumbnail | gallery/tasks.py:33-52 | None, not an exception, when the file is missing or decoding or encoding fails; otherwise the encoding of the upright RGB image |
| Tasks.BackstopThumbName | gallery/tasks.py:69-70 | the thumbnail's name is slash-free |
| Tasks.ThumbnailTask | gallery/tasks.py:54-83 | each outcome occurs exactly in its case: an unknown id, a thumbnail already set, no image, and otherwise created iff generation succeeds; every outcome but "created" leaves the store as it was; "created" stores the bytes under `thumbnails/<date>/<base>_thumb.webp` and records that name in the row only |
| Tasks.ThumbnailTaskIdempotent | gallery/tasks.py:59-61 | running the job a second time changes nothing, and after a creation it reports "already exists" |
| Tasks.ThumbnailTaskFrame | gallery/tasks.py:54-83 | every other row is unchanged and no row is added or removed |
| Tasks.ThumbnailTaskKeepsRowsWellFormed | gallery/tasks.py:54-83 | the job keeps every row within the schema: it only ever sets a thumbnail |
| Tasks.CreateThumbnailForPhoto | gallery/tasks.py:54-83 | the method, step by step, leaves the outcome and store of `ThumbnailTask` |
| Signals.ShouldGenerate | gallery/signals.py:8 | a save that did not create the row never asks for the job; a save that did asks for it exactly when the instance has no thumbnail |
| Signals.PostSave | gallery/signals.py:6-9 | the job runs, once and for the instance's own id, exactly when the save created the row and the instance has no thumbnail; otherwise nothing changes |
| Signals.UpdateSaveNeverGenerates | gallery/signals.py:8 | a save that did not create the row never starts the job, even without a thumbnail |
| Signals.PostSaveFrame | gallery/signals.py:8-9 | the hook changes no other row and no stored file except the backstop's thumbnail |
| Signals.PostSaveKeepsRowsWellFormed | gallery/signals.py:6-9 | the hook keeps every row within the schema |
| Signals.CreateThumbnailOnSave | gallery/signals.py:6-9 | the receiver has the effect of `PostSave` |
| Store.Inserted | gallery/views.py:60 | an INSERT gives the new row the next primary key, which no row had; the row holds the instance and every other row and every file stay |
| Store.InsertedRows | gallery/views.py:60 | an INSERT keeps the table consistent, adds exactly the new key and keeps every other row |
| Store.Written | gallery/views.py:83 | an UPDATE keeps the table's keys and files, writes every field of the instance into its row, and keeps every other row |
| Store.PhotoStore.Insert | gallery/views.py:60 | the method has the effect of `Inserted` |
| Store.PhotoStore.Write | gallery/tasks.py:74 | the method has the effect of `Written` |
| Store.PhotoStore.StoreFile | gallery/views.py:60 | the method stores the bytes under the name |
| Views.IsAjax | gallery/views.py:18-23 | true iff the `HTTP_X_REQUESTED_WITH` entry exists and equals `XMLHttpRequest` exactly |
| Views.MetaName | gallery/views.py:19 | the WSGI spelling of a header name: same length, upper case, `-` turned into `_` |
| Views.MetaNameConcat | gallery/views.py:19 | that spelling distributes over concatenation |
| Views.MetaNameIgnoresCase | gallery/views.py:19 | a header name sent in lower case has the same `META` spelling |
| Views.NumPages | gallery/views.py:27 | at least one page, and just enough pages of 12 to hold every photo |
| Views.HasNext | gallery/views.py:49 | `has_next()` for page `n >= 1` holds exactly when there are photos beyond the first `12 * n` |
| Views.FileUrl | gallery/views.py:43-44 | a file URL is the media URL followed by the stored name, and nothing else |
| Views.LookupPage | gallery/views.py:28-31 | no parameter means page 1; text that is not an integer is `PageNotAnInteger`; an integer outside `1..num_pages` is `EmptyPage`; otherwise that page |
| Views.ChoosePage | gallery/views.py:30-37 | a non-integer gives page 1; an out-of-range page gives the empty AJAX answer exactly for AJAX callers and the last page for others; a valid page is served as asked |
| Views.PageItems | gallery/views.py:27-41 | page `n` is the `n`-th run of 12 photos, in feed order, full except on the last page |
| Views.PagesFromIsSuffix | gallery/views.py:27 | the pages from `n` onward hold exactly the photos from page `n`'s start |
| Views.PagesPartitionFeed | gallery/views.py:27 | the pages, in order, are the whole feed: each photo is on exactly one page |
| Views.PageKeepsOrder | gallery/views.py:26 | a page of a newest-first feed is newest first |
| Views.FarPageOfSmallGallery | gallery/views.py:34-37 | page 999 of a one-page gallery is the empty AJAX answer, or page 1 for a browser |
| Views.PageZeroGoesToLastPage | gallery/views.py:34-37 | page 0 is out of range, so a browser gets the last page |
| Views.NonNumericPageIsFirst | gallery/views.py:32-33 | `abc` and the empty text both give page 1 |
| Views.FeedItemOf | gallery/views.py:42-46 | `url` is the thumbnail's URL when a thumbnail is set, else the image's; `full_url` is the image's; `title` is `str(photo)` |
| Views.FeedItemsOf | gallery/views.py:41-46 | one entry per row, in order |
| Views.FeedItemsOfConcat | gallery/views.py:41-46 | the entries of consecutive runs are the runs' entries in sequence |
| Views.BuildFeedItems | gallery/views.py:40-46 | the loop builds exactly `FeedItemsOf` of the page |
| Views.Index | gallery/views.py:25-52 | AJAX or not, the response is the chosen page; JSON entries for AJAX callers, the page for others, or the empty JSON answer past the end |
| Views.AllPhotosJson | gallery/views.py:131-142 | every photo in queryset order, with its id and the same `url`, `full_url` and `title` as the feed |
| Views.DerivedNameSplits | gallery/views.py:70-71 | a derived name splits into the upload's root plus the suffix, and `.webp` |
| Views.DerivedName | gallery/views.py:70-71 | `f"{base}{suffix}.webp"`: the upload's splitext root, then the suffix, then `.webp` |
| Views.DerivedNameIsNew | gallery/views.py:70-71 | a derived name never equals the uploaded name, and the storage never cleans the two to the same name |
| Views.UploadToInjective | gallery/models.py:4-7 | two files under one directory and date have the same stored name iff the storage cleans their names alike |
| Views.SpacedNamesCollide | gallery/models.py:4-7 | `a b` and `a_b` are different uploads with the same stored name |
| Views.AcceptedNameStaysNamed | gallery/views.py:60 | a name the form accepts is stored under a non-empty name ending in the same letter, never `""`, `.` or `..`, for which the storage raises |
| Views.DirectoriesApart | gallery/models.py:5-9 | no original's stored name equals a thumbnail's |
| Views.DerivedNamesSpareOriginal | gallery/views.py:76-82 | neither derived copy is stored under the original's name |
| Views.BackstopNameMatchesViewName | gallery/tasks.py:69-70 | the backstop names its thumbnail after the cleaned upload name plus `_thumb.webp`; for a name the storage keeps, that is the stored name of the view's `_thumb.webp` copy |
| Views.BackstopNameOfBase | gallery/tasks.py:69-70 | the backstop's thumbnail name of any path is the `_thumb.webp` name derived from its base name |
| Views.FailureOf | gallery/views.py:64-79 | an upload fails in decoding iff PIL cannot open it; it succeeds iff it opens and both copies encode |
| Views.RegisteredFiles | gallery/views.py:59-61 | after the first save the original's bytes are stored under its name |
| Views.WithBackstopThumbnail | gallery/views.py:60 | when `create_thumbnail` can make the original's thumbnail it is stored under its own name, otherwise nothing changes; every other stored file stays as it was |
| Views.Registered | gallery/views.py:59-61 | lines 59-61 add one row with the next key, pointing at the stored original with no thumbnail, keep every other row, and leave the files of `RegisteredFiles` |
| Views.SaveUpload | gallery/views.py:54-84 | one upload adds exactly one row with the next key and keeps every other row; it is saved iff processing does not fail, and a failure carries its cause |
| Views.SaveUploadKeepsRowsWellFormed | gallery/views.py:54-84 | an upload keeps every row within the schema |
| Views.SaveUploadRow | gallery/views.py:59-83 | on failure the new row points at the original and has no thumbnail; on success it points at the optimized copy and the feed thumbnail |
| Views.SaveUploadFiles | gallery/views.py:60-82 | the original stays stored; after a success the row's two files hold the two encodings of the decoded upload |
| Views.SaveUploadFailureFiles | gallery/views.py:59-79 | when PIL cannot read the upload, or cannot write a copy, the original is still stored with the uploaded bytes |
| Views.SaveUploadCopiesFiles | gallery/views.py:59-83 | after a success the original is still stored, and the row's image and thumbnail names hold the optimized and the feed-thumbnail encodings of the decoded upload |
| Views.SaveOptimizedAndThumbnail | gallery/views.py:54-84 | the method, statement by statement with the post-save hook at each save, ends with the outcome and store of `SaveUpload` |
| Views.RegisterOriginal | gallery/views.py:59-61 | storing, inserting, running the hook and writing back leave the new row as inserted, with the files of `RegisteredFiles` |
| Views.RegisterSteps | gallery/views.py:59-61 | storing the file, the INSERT, its hook and the write-back UPDATE leave exactly the store of `Registered` |
| Views.HookRows | gallery/views.py:60-61 | the write-back at line 61 replaces the row the hook changed with the instance the INSERT made, and no other row changes |
| Views.HookFiles | gallery/views.py:60 | after the hook run by the INSERT the files are those of `RegisteredFiles`: the stored original and the backstop's thumbnail of it |
| Views.StoreCopies | gallery/views.py:81-83 | the two copies' files and names are recorded in the row |
| Views.Save | gallery/views.py:83 | an UPDATE save with its hook writes the row and nothing else |
| Views.Failures | gallery/views.py:95-102 | the failing files, in upload order, with at most one entry per file |
| Views.Batch | gallery/views.py:95-102 | the loop's state over the files keeps the store consistent |
| Views.BatchStep | gallery/views.py:96-101 | one turn of the loop keeps the store consistent |
| Views.StepCounts | gallery/views.py:96-101 | one turn counts its file exactly once, as uploaded or as an error under its own name, adds one row with the next key and leaves the earlier rows unchanged |
| Views.BatchOfPrefix | gallery/views.py:95-102 | the loop over one more file is one more turn after the loop over the files before it |
| Views.BatchAccounting | gallery/views.py:91-102 | `uploaded_count + len(errors)` is the number of files; the errors are exactly the failing files in order, so a failure does not stop later files; each file adds one row with the next key; rows that existed are unchanged |
| Views.BatchKeepsRowsWellFormed | gallery/views.py:95-102 | a batch keeps every row within the schema |
| Views.CleanBatchHasNoErrors | gallery/views.py:95-102 | a batch whose files all decode and encode saves every file and reports no error |
| Views.ProcessBatch | gallery/views.py:91-102 | the loop's counter, error list and store are those of `Batch` |
| Views.MessageMentionsErrorsIff | gallery/views.py:104-106 | the message contains the error note iff there are errors |
| Views.UploadMessage | gallery/views.py:104-106 | the message starts with `Загружено N фото` and is exactly that when there are no errors |
| Views.BatchResponse | gallery/views.py:104-118 | AJAX callers get success, the index URL, the message and the errors; others are redirected, with the session message set iff something was uploaded |
| Views.UploadResult | gallery/views.py:87-129 | a GET renders the form; a POST with an invalid file changes nothing, giving the details for AJAX and the unbound form otherwise; a valid POST runs the batch and answers with `BatchResponse` |
| Views.UploadResultKeepsRowsWellFormed | gallery/views.py:87-129 | the upload view keeps every row within the schema |
| Views.ValidatedFilesNamed | gallery/forms.py:15-18 | every file of a cleaned batch has a name |
| Views.EmptyPostIsAccepted | gallery/views.py:90-118 | a POST with no file passes validation, saves nothing and reports `Загружено 0 фото` without setting a session message |
| Views.OneBadFileRejectsBatch | gallery/views.py:90-126 | one invalid file leaves the store unchanged, and AJAX callers get the validation details |
| Views.UploadPhoto | gallery/views.py:87-129 | the handler's response and store are those of `UploadResult` |
| Client.ShowPhoto | static/js/script.js:75-81 | an index outside the list changes nothing; a valid one becomes the position, opens the lightbox and shows that photo's full URL; coherence is kept |
| Client.CloseLightbox | static/js/script.js:92-96 | the position is -1, the lightbox inactive and the source empty |
| Client.PrevPhoto | static/js/script.js:98-100 | a no-op at position 0 or when closed; otherwise one step back; coherence is kept |
| Client.NextPhoto | static/js/script.js:102-104 | a no-op at the last photo; otherwise one step forward; coherence is kept |
| Client.KeyDown | static/js/script.js:119-124 | keys act only while open: ArrowLeft goes back, ArrowRight forward, Escape closes, other keys do nothing |
| Client.PrevUndoesNext | static/js/script.js:98-104 | back after forward returns to the start, before the last photo |
| Client.NextUndoesPrev | static/js/script.js:98-104 | forward after back returns to the start, after the first photo |
| Client.NextFromClosedOpensFirst | static/js/script.js:102-104 | with the lightbox closed, next opens the first photo |
| Client.KeysStayInList | static/js/script.js:119-124 | after any run of keys the position is -1 or a valid index, the lightbox is open exactly on a photo, and the list is unchanged |
| Client.FindIndex | static/js/script.js:87 | `findIndex`: the first matching index, or -1 when none matches |
| Client.Lightbox.SetPhotos | static/js/script.js:61-73 | the list arrives once, with the lightbox closed |
| Client.Lightbox.Show | static/js/script.js:75-81 | the method has the effect of `ShowPhoto` |
| Client.Lightbox.Close | static/js/script.js:92-96 | the method has the effect of `CloseLightbox` |
| Client.Lightbox.Prev | static/js/script.js:98-100 | the method has the effect of `PrevPhoto` |
| Client.Lightbox.Next | static/js/script.js:102-104 | the method has the effect of `NextPhoto` |
| Client.Lightbox.Key | static/js/script.js:119-124 | the method has the effect of `KeyDown` |
| Client.Lightbox.ClickCard | static/js/script.js:83-90 | the list is unchanged; a click on an unknown image changes nothing; otherwise the first photo with that full URL is shown |
| Client.Lightbox.Swipe | static/js/script.js:346-364 | a swipe's verdict calls prev or next |
| Client.SwipeDecision | static/js/script.js:353-361 | no start means no action; back iff the finger moved right more than 50 pixels, forward iff left more than 50 |
| Client.SwipeSymmetric | static/js/script.js:356-361 | swipes of the same length in mirror directions have opposite verdicts, or both none |
| Client.SwipeTracker.TouchStart | static/js/script.js:349-351 | only a single touch records its start |
| Client.SwipeTracker.TouchEnd | static/js/script.js:353-363 | the verdict is `SwipeDecision`, and the start is cleared afterwards |
| Client.BeginLoad | static/js/script.js:149-151 | a no-op while loading or with nothing more; otherwise it requests the current page and sets `loading` |
| Client.EndLoad | static/js/script.js:160-179 | `loading` is always cleared; a non-empty batch appends its cards, advances the page by one and copies `has_next`; an empty batch ends the scroll; an error changes nothing else |
| Client.InfiniteScroll.constructor | static/js/script.js:145-147 | the pager starts idle at page 2 with more to load |
| Client.InfiniteScroll.StartLoad | static/js/script.js:149-151 | the method has the effect of `BeginLoad` |
| Client.InfiniteScroll.FinishLoad | static/js/script.js:160-179 | the method has the effect of `EndLoad` |
| Client.InFlightIgnoresScroll | static/js/script.js:150 | while a request is in flight, another scroll event does nothing |
| Client.ServerReplyIsIndex | gallery/views.py:28-50 | the reply to the script's `?page=N` is what `index` returns to an AJAX caller: the page's entries and `has_next`, or the empty answer past the end |
| Client.ReplyForPage | gallery/views.py:39-50 | every page from 2 to the last is non-empty and is answered in full |
| Client.RoundAt | static/js/script.js:149-174 | one scroll event at page `p` loads it: the entries of page `p` are appended, the page moves to `p + 1`, and more remain exactly when `p` is not the last page |
| Client.SuffixEntries | gallery/views.py:27 | the entries from page `p` on are page `p`'s, then those from page `p + 1` on |
| Client.ScrollLast | static/js/script.js:162-174 | loading the last page appends its entries and ends the scroll |
| Client.ScrollStep | static/js/script.js:162-171 | below the last page, if scrolling on from page `p + 1` with page `p`'s entries appended ends with every later entry, then scrolling from page `p` ends with every entry from page `p`'s start |
| Client.ScrollFrom | static/js/script.js:149-179 | from page `p`, enough scroll events end with every entry from page `p`'s start appended, in order, and nothing more to load |
| Client.ScrollFromBelowLast | static/js/script.js:149-179 | from a page below the last, enough scroll events end with every entry from that page's start appended, in order, and nothing more to load |
| Client.Quiet | static/js/script.js:150 | with nothing more to load, scroll events change nothing |
| Client.InfiniteScrollShowsEachPhotoOnce | static/js/script.js:144-189 | scrolling to the end shows every photo beyond the first page exactly once, in feed order, and then stops asking; one event per page suffices |
| Client.Fitting | static/js/script.js:234 | the kept files are within 100 MiB, and there are no more of them than were chosen |
| Client.Oversized | static/js/script.js:235 | the reported files are over 100 MiB |
| Client.FittingConcat | static/js/script.js:234-241 | the filter keeps order: it filters each part of a concatenation |
| Client.FittingAndOversizedPartition | static/js/script.js:234-235 | every chosen file is kept or reported, never both and never lost |
| Client.ClientLimitIsServerDefault | static/js/script.js:234 | a file the browser keeps is exactly one that the server's default size check passes |
| Client.Splice | static/js/script.js:268 | `splice(i, 1)` removes element `i` and keeps the others in order; an index past the end changes nothing |
| Client.SpliceRemovesOne | static/js/script.js:267-268 | removing a preview takes exactly that one file out of the selection |
| Client.UploadForm.constructor | static/js/script.js:199-200 | nothing is selected and submit is disabled |
| Client.UploadForm.ProcessFiles | static/js/script.js:233-244 | the files within 100 MiB are appended in input order, the others are reported, and submit is disabled iff the selection is empty |
| Client.UploadForm.RemovePreview | static/js/script.js:267-271 | the selection loses exactly element `i`, and submit is disabled iff it is then empty |
| Client.FetchHeaderIsAjax | static/js/script.js:157 | the script's `X-Requested-With: XMLHttpRequest` header is what `is_ajax` accepts |
| Client.LowerCaseFetchHeaderIsAjax | gallery/views.py:18-23 | a client that sends the header as `x-requested-with` is recognised as AJAX too |

## Left out

- PIL itself: decoding, the RGB conversion, `thumbnail` resizing with LANCZOS and
  the encoders. An image is only its size, its quarter turns and its EXIF reader,
  and decode and encode are supplied functions (they are foreign code with
  floating-point arithmetic).
- The ORM and the file storage beyond what the gallery asks of them: a table of rows
  by key and a map of stored names to bytes.
- UploadTo: the stored name is the name the field asks the storage for. Django's
  storage changes that name in two cases that the model leaves out:
  - a name already taken gets a random suffix of seven characters before its
    extension, and the model overwrites the old file instead, because the suffix
    is random;
  - a name longer than the field's `max_length` of 100 is shortened, or refused
    when it cannot be, and the model puts no bound on the length.
- UploadToEndsWithName: holds for the name asked for; a name the storage renames,
  because it is taken or longer than 100 characters, ends otherwise.
- BaseNameOfUploadTo: holds for the name asked for; a name the storage renames,
  because it is taken or longer than 100 characters, has another base name.
- UploadToInjective: it says when two uploads ask for the same stored name. In
  Django the second of them gets a random suffix instead of replacing the first.
- ValidFileName: the character class `\w` is approximated. ASCII letters, digits
  and `_` are word characters; so is every character from U+0080 on that is not
  whitespace, where Python's `\w` also excludes Unicode punctuation and symbols.
  The `SuspiciousFileOperation` that `get_valid_filename` raises for `""`, `.` and
  `..` is not modelled; `Views.AcceptedNameStaysNamed` shows that a validated name
  never comes to that.
- SaveUploadRow: on success the row names the unsuffixed
  `thumbnails/<date>/<base>_thumb.webp`. Whenever the backstop has made its
  thumbnail, that name is taken (`Views.BackstopNameMatchesViewName`), so Django
  stores the view's copy under a suffixed name and the backstop's 600-pixel file
  stays in storage, referenced by no row. The model overwrites the backstop's file
  instead.
- RegisteredFiles: the backstop's thumbnail it states is overwritten in the model by
  the view's copy on success, where Django keeps both files (see SaveUploadRow).
- FeedItemOf: a row with no image gives the bare media URL, where Django's
  `photo.image.url` raises `ValueError`. The rows the core writes always have an
  image (`Views.UploadResultKeepsRowsWellFormed`, `Tasks.ThumbnailTaskKeepsRowsWellFormed`),
  so only rows written by other code reach that case.
- `transaction.atomic` and the `select_for_update` row lock (gallery/tasks.py:57-58):
  the job is modelled as running alone, since the lock only matters under concurrency.
- `Tasks.ThumbnailTask`: the re-raise of unexpected exceptions
  (gallery/tasks.py:81-83). The model has no other failure
  than those the job handles.
- `Views.SaveUpload`: failures of the storage writes themselves are not modelled.
  Only decoding and encoding fail.
- `Views.Failures`: an entry of `errors` is the file's name and the failure's
  cause, not the formatted exception text.
- `Forms.ValidateFileSize`: the error text is not rendered. Its two numbers, the
  size in MiB and the limit 100, are kept.
- `Text.Lower`: only ASCII letters are lowered. Python lowers every Unicode letter,
  but the extensions compared are ASCII.
- `Text.ParseInt`: Python's `int()` also accepts surrounding whitespace,
  underscores between digits, and every Unicode decimal digit (`?page=٣` and the
  full-width `?page=３` are page 3). From Python 3.11 on, and in the security
  releases of 3.7 to 3.10, it also refuses text of more than 4300 digits. None of
  this is modelled; the page numbers the script sends are plain ASCII digits
  (`Client.ServerReplyIsIndex`).
- LookupPage: for the same reasons `Views.LookupPage` gives `PageNotAnInteger`
  (page 1) for a page written in non-ASCII digits or with surrounding whitespace,
  where Django serves that page. For a page number of more than 4300 digits it
  gives `EmptyPage` (the empty JSON for AJAX, the last page otherwise), where
  Django on a current Python serves page 1.
- NotANumber: `Text.NotANumber` describes the model's parser. Python's `int()`
  still accepts some of that text: a leading non-ASCII digit (`'٣'`) or leading
  whitespace.
- URL quoting in `FieldFile.url`: a URL is the media URL followed by the stored name.
- The clock: one instant and one date for the whole request.
- HTTP, routing and authentication: `staff_member_required`, CSRF, `render`,
  `redirect`, `JsonResponse`, and the session beyond the message that is set iff
  something was uploaded.
- Logging.
- In the browser script:
  - the DOM, `fetch` and JSON decoding: a reply is a value, and a failed fetch is
    `FetchFailed`;
  - the lazy-load observer, the theme switcher, the swipe hint;
  - `setTimeout`, `alert`, and the 600-pixel width test that enables swipes;
  - the tap-to-navigate handler on the lightbox image (script.js:131-141);
  - drag and drop, `updateFileInput`, the canvas previews;
  - `handleFormSubmit`;
  - the floating-point scroll threshold.
- InfiniteScrollShowsEachPhotoOnce: the feed is taken not to change while the user
  scrolls. A photo uploaded in the meantime shifts the newest-first pages by one,
  and the script then appends one card twice. The lemma also starts from the
  script's initial state with no cards, so it assumes the server first rendered
  page 1. The script always fetches from page 2 on (static/js/script.js:146). On
  `/?page=3`, or on `/?page=999` (which renders the last page), the rendered page's
  photos appear a second time and the photos of page 1 never appear.
- SwipeDecision: `clientX` is taken as an integer, where the browser gives a
  double. A movement of more than 50 pixels but less than 51 is not modelled.
- SwipeTracker: its `startX` is an integer for the same reason as in SwipeDecision.
- ProcessFiles: `Client.UploadForm.ProcessFiles` sets the submit button's `disabled`
  at once. In the script `renderPreviews` sets it only after the awaited previews
  (static/js/script.js:276-283), so until then the button keeps its old state.
- RemovePreview: `Client.UploadForm.RemovePreview` also sets `disabled` at once.
  In the script the remove button re-renders through `renderPreviews`
  (static/js/script.js:267-271), which sets it only after the awaited previews
  (static/js/script.js:276-283).
- `Client.Scroll`: each scroll event's request is answered before the next event.
  Other interleavings are covered only by `Client.InFlightIgnoresScroll`, which shows
  that an event during a request does nothing.
- gallery/constants.py is not part of this model: no module of the core imports it.
