/** The Photo model (gallery/models.py): its fields, upload directories and display name. */
module Models {
  import opened Text

  const TitleMaxLength: nat := 200
  const AltTextMaxLength: nat := 255
  const PhotosDir: string := "photos"
  const ThumbnailsDir: string := "thumbnails"

  /**
   * A Photo row. `image` and `thumbnail` are the stored file names of the two
   * ImageFields; a name of "" is an unset (falsy) field. `uploadedAt` is the
   * creation instant.
   */
  datatype Photo = Photo(image: string, thumbnail: string, title: string, altText: string, uploadedAt: int)

  /** What the schema demands of a row: an image, and titles within their lengths. */
  predicate WellFormed(p: Photo) {
    && p.image != ""
    && |p.title| <= TitleMaxLength
    && |p.altText| <= AltTextMaxLength
  }

  /** A fresh Photo with only its original set; the thumbnail may stay unset. */
  function NewPhoto(image: string, uploadedAt: int): (p: Photo)
    requires image != ""
    ensures WellFormed(p) && p.thumbnail == "" && p.title == "" && p.image == image
  {
    Photo(image, "", "", "", uploadedAt)
  }

  /** `Photo.__str__`: `self.title or self.image.name`. */
  function Str(p: Photo): (s: string)
    ensures p.title != "" ==> s == p.title
    ensures p.title == "" ==> s == p.image
  {
    if p.title != "" then p.title else p.image
  }

  /** A calendar date, as `strftime` reads it from the clock. */
  datatype Date = Date(year: nat, month: nat, day: nat)

  /** The `%Y/%m/%d/` part of an `upload_to` pattern. */
  function DatePath(d: Date): (s: string)
    ensures forall k :: 0 <= k < |s| ==> IsDigit(s[k]) || s[k] == '/'
    ensures |s| >= 1 && s[|s| - 1] == '/'
  {
    Padded(d.year, 4) + "/" + Padded(d.month, 2) + "/" + Padded(d.day, 2) + "/"
  }

  /**
   * The characters `get_valid_filename` keeps: `-`, `.` and those of the class
   * `\w`. The letters, digits and `_` of ASCII are word characters; every other
   * character from U+0080 on that is not whitespace is taken as one.
   */
  predicate FileNameChar(c: char) {
    || 'a' <= c <= 'z' || 'A' <= c <= 'Z' || IsDigit(c) || c == '_' || c == '-' || c == '.'
    || (c as int >= 128 && !IsSpace(c))
  }

  lemma FileNameCharIsNoSpace(c: char)
    requires FileNameChar(c)
    ensures !IsSpace(c) && c != ' ' && c != '/'
  {
  }

  /** What one character becomes in `get_valid_filename` after the strip: a space `_`, other characters outside the class nothing. */
  function CleanPiece(c: char): (r: string)
    ensures |r| <= 1 && forall k :: 0 <= k < |r| ==> FileNameChar(r[k])
    ensures FileNameChar(c) ==> r == [c]
  {
    if c == ' ' then "_" else if FileNameChar(c) then [c] else []
  }

  /** The substitutions of `get_valid_filename` after the strip, character by character. */
  function CleanChars(s: string): (r: string)
    ensures |r| <= |s|
    ensures forall k :: 0 <= k < |r| ==> FileNameChar(r[k])
  {
    CleanUpTo(s, |s|)
  }

  /** The cleaned form of the first `j` characters of `s`. */
  function CleanUpTo(s: string, j: nat): (r: string)
    requires j <= |s|
    ensures |r| <= j
    ensures forall k :: 0 <= k < |r| ==> FileNameChar(r[k])
    decreases j
  {
    if j == 0 then [] else CleanUpTo(s, j - 1) + CleanPiece(s[j - 1])
  }

  /** Cleaning looks only at the characters it has reached. */
  lemma {:induction false} CleanUpToAgrees(s: string, t: string, j: nat)
    requires j <= |s| && j <= |t|
    requires forall k :: 0 <= k < j ==> s[k] == t[k]
    ensures CleanUpTo(s, j) == CleanUpTo(t, j)
    decreases j
  {
    if j > 0 {
      CleanUpToAgrees(s, t, j - 1);
    }
  }

  lemma {:induction false} CleanUpToShift(a: string, b: string, j: nat)
    requires j <= |b|
    ensures CleanUpTo(a + b, |a| + j) == CleanChars(a) + CleanUpTo(b, j)
    decreases j
  {
    var x := CleanChars(a);
    if j == 0 {
      CleanUpToAgrees(a + b, a, |a|);
      assert x + [] == x;
    } else {
      var y := CleanUpTo(b, j - 1);
      var piece := CleanPiece(b[j - 1]);
      var front := CleanUpTo(a + b, |a| + j - 1);
      assert front == x + y by { CleanUpToShift(a, b, j - 1); }
      assert (a + b)[|a| + j - 1] == b[j - 1];
      assert CleanUpTo(a + b, |a| + j) == front + piece;
      assert front + piece == x + (y + piece);
    }
  }

  /** Cleaning distributes over concatenation. */
  lemma CleanCharsConcat(a: string, b: string)
    ensures CleanChars(a + b) == CleanChars(a) + CleanChars(b)
  {
    CleanUpToShift(a, b, |b|);
  }

  /** A leading file-name character survives the cleaning, in front. */
  lemma CleanCharsOfHead(s: string)
    requires |s| > 0 && FileNameChar(s[0])
    ensures |CleanChars(s)| > 0 && CleanChars(s)[0] == s[0]
  {
    var head := [s[0]];
    assert CleanChars(head) == head by { assert CleanUpTo(head, 0) == []; }
    CleanCharsConcat(head, s[1..]);
    assert head + s[1..] == s;
  }

  lemma {:induction false} CleanUpToKeeps(s: string, j: nat)
    requires j <= |s|
    requires forall k :: 0 <= k < |s| ==> FileNameChar(s[k])
    ensures CleanUpTo(s, j) == s[..j]
    decreases j
  {
    if j > 0 {
      CleanUpToKeeps(s, j - 1);
      assert s[..j] == s[..j - 1] + [s[j - 1]];
    }
  }

  /** A name of file-name characters only is cleaned to itself. */
  lemma CleanCharsKeeps(s: string)
    requires forall k :: 0 <= k < |s| ==> FileNameChar(s[k])
    ensures CleanChars(s) == s
  {
    CleanUpToKeeps(s, |s|);
    assert s[..|s|] == s;
  }

  /**
   * Django's `get_valid_filename`, which the storage applies to every file name it
   * is given: strip surrounding whitespace, turn spaces into `_`, drop every
   * character other than `-`, `.` and word characters.
   */
  function ValidFileName(name: string): (r: string)
    ensures |r| <= |name|
    ensures forall k :: 0 <= k < |r| ==> FileNameChar(r[k]) && r[k] != '/'
  {
    var r := CleanChars(Strip(name));
    assert forall k :: 0 <= k < |r| ==> r[k] != '/' by {
      forall k | 0 <= k < |r| ensures r[k] != '/' { FileNameCharIsNoSpace(r[k]); }
    }
    r
  }

  /** The storage keeps a name unchanged exactly when it holds only file-name characters. */
  lemma ValidFileNameKeeps(name: string)
    ensures ValidFileName(name) == name <==> forall k :: 0 <= k < |name| ==> FileNameChar(name[k])
  {
    if forall k :: 0 <= k < |name| ==> FileNameChar(name[k]) {
      assert Strip(name) == name by {
        if name != [] {
          FileNameCharIsNoSpace(name[0]);
          FileNameCharIsNoSpace(name[|name| - 1]);
        }
        LStripKeeps(name);
        RStripKeeps(name);
      }
      CleanCharsKeeps(name);
    }
  }

  /**
   * A space inside a name becomes `_`: `my photo.jpg` is stored as `my_photo.jpg`,
   * under the same name as `my_photo.jpg` itself.
   */
  lemma ValidFileNameOfSpacedName(a: string, b: string)
    requires |a| > 0 && forall k :: 0 <= k < |a| ==> FileNameChar(a[k])
    requires |b| > 0 && forall k :: 0 <= k < |b| ==> FileNameChar(b[k])
    ensures ValidFileName(a + " " + b) == a + "_" + b == ValidFileName(a + "_" + b)
    ensures a + " " + b != a + "_" + b
  {
    assert (a + " " + b)[|a|] == ' ' && (a + "_" + b)[|a|] == '_';
    FileNameCharIsNoSpace(a[0]);
    assert (a + " ")[0] == a[0];
    assert LStrip(a + " ") == a + " ";
    ValidFileNameWithTail(a + " ", b);
    CleanCharsConcat(a, " ");
    CleanCharsKeeps(a);
    assert CleanChars(" ") == "_";
    assert ValidFileName(a + " " + b) == a + "_" + b;
    assert FileNameChar('_');
    JoinedFileNameChars(a, '_', b);
    assert a + "_" + b == a + ['_'] + b;
    ValidFileNameKeeps(a + "_" + b);
  }

  lemma JoinedFileNameChars(a: string, c: char, b: string)
    requires forall k :: 0 <= k < |a| ==> FileNameChar(a[k])
    requires FileNameChar(c)
    requires forall k :: 0 <= k < |b| ==> FileNameChar(b[k])
    ensures forall k :: 0 <= k < |a + [c] + b| ==> FileNameChar((a + [c] + b)[k])
  {
    forall k | 0 <= k < |a + [c] + b| ensures FileNameChar((a + [c] + b)[k]) {
      if k < |a| { assert (a + [c] + b)[k] == a[k]; }
      else if k > |a| { assert (a + [c] + b)[k] == b[k - |a| - 1]; }
    }
  }

  /** A tail of file-name characters survives the cleaning, after whatever the cleaned front becomes. */
  lemma ValidFileNameWithTail(front: string, tail: string)
    requires |tail| > 0 && forall k :: 0 <= k < |tail| ==> FileNameChar(tail[k])
    ensures ValidFileName(front + tail) == CleanChars(LStrip(front)) + tail
  {
    FileNameCharIsNoSpace(tail[0]);
    FileNameCharIsNoSpace(tail[|tail| - 1]);
    LStripConcat(front, tail);
    var p := LStrip(front) + tail;
    assert p[|p| - 1] == tail[|tail| - 1];
    assert RStrip(p) == p;
    CleanCharsConcat(LStrip(front), tail);
    CleanCharsKeeps(tail);
  }

  /** Cleaning a name never gives more than cleaning it without its trailing whitespace stripped. */
  lemma ValidFileNameNoLonger(front: string)
    ensures |ValidFileName(front)| <= |CleanChars(LStrip(front))|
  {
    var lead := LStrip(front);
    var kept := RStrip(lead);
    assert lead == kept + lead[|kept|..];
    CleanCharsConcat(kept, lead[|kept|..]);
  }

  /** A name whose extension starts with a dot is cleaned to its cleaned front, then a dot. */
  lemma ValidFileNameOfDotted(front: string, ext: string)
    requires |ext| > 0 && ext[0] == '.'
    ensures var v := ValidFileName(front + ext); var a := CleanChars(LStrip(front));
            |v| > |a| && v[|a|] == '.'
  {
    var lead := LStrip(front);
    var e := RStrip(ext);
    assert |e| > 0 && e[0] == '.' by { RStripDropsSpaces(ext); }
    assert Strip(front + ext) == lead + e by {
      LStripConcat(front, ext);
      RStripConcat(lead, ext);
    }
    CleanCharsConcat(lead, e);
    CleanCharsOfHead(e);
  }

  /**
   * A name `front + tail`, with a clean tail not starting with a dot, and the name
   * `front + ext`, with `ext` empty or starting with one, are cleaned apart.
   */
  lemma ValidFileNamesApart(front: string, ext: string, tail: string)
    requires ext == [] || ext[0] == '.'
    requires |tail| > 0 && tail[0] != '.' && forall k :: 0 <= k < |tail| ==> FileNameChar(tail[k])
    ensures ValidFileName(front + tail) != ValidFileName(front + ext)
  {
    var a := CleanChars(LStrip(front));
    ValidFileNameWithTail(front, tail);
    if ext == [] {
      assert front + ext == front;
      ValidFileNameNoLonger(front);
    } else {
      ValidFileNameOfDotted(front, ext);
      assert (a + tail)[|a|] == tail[0];
    }
  }

  /**
   * The stored name of a file saved into an ImageField whose `upload_to` is
   * `dir/%Y/%m/%d/`: the storage's valid form of the name, under that directory.
   */
  function UploadTo(dir: string, d: Date, name: string): (s: string)
    ensures |s| > |ValidFileName(name)|
  {
    dir + "/" + DatePath(d) + ValidFileName(name)
  }

  /** The stored name ends in the valid form of the upload's own name. */
  lemma UploadToEndsWithName(dir: string, d: Date, name: string)
    ensures var s := UploadTo(dir, d, name); var v := ValidFileName(name); s[|s| - |v|..] == v
  {
    var prefix := dir + "/" + DatePath(d);
    var v := ValidFileName(name);
    assert UploadTo(dir, d, name) == prefix + v;
    assert (prefix + v)[|prefix|..] == v;
  }

  /** Newest first, the model's default ordering `-uploaded_at`. */
  predicate NewestFirst(photos: seq<Photo>) {
    forall i, j :: 0 <= i < j < |photos| ==> photos[i].uploadedAt >= photos[j].uploadedAt
  }

  lemma NoSlashInDatePrefix(dir: string, d: Date)
    requires '/' !in dir
    ensures RFind(dir + "/" + DatePath(d), '/') == |dir + "/" + DatePath(d)| - 1
  {
    var s := dir + "/" + DatePath(d);
    RFindUnique(s, '/', |s| - 1);
  }

  /** `basename` of a stored name recovers the valid form of the upload's name. */
  lemma BaseNameOfUploadTo(dir: string, d: Date, name: string)
    requires '/' !in dir
    ensures BaseName(UploadTo(dir, d, name)) == ValidFileName(name)
  {
    var prefix := dir + "/" + DatePath(d);
    var v := ValidFileName(name);
    NoSlashInDatePrefix(dir, d);
    assert RFind(v, '/') == -1 by { RFindUnique(v, '/', -1); }
    RFindConcat(prefix, v, '/');
    assert UploadTo(dir, d, name) == prefix + v;
    assert (prefix + v)[|prefix|..] == v;
  }

  /** Titled photos display their title. */
  lemma StrOfTitledPhoto()
    ensures Str(Photo("photos/2024/05/01/test.jpg", "", "Test Photo", "", 0)) == "Test Photo"
  {
  }

  lemma ContainsMiddle(prefix: string, sub: string, rest: string)
    ensures Contains(prefix + sub + rest, sub)
  {
    var s := prefix + sub + rest;
    assert s[|prefix|..|prefix| + |sub|] == sub;
    assert OccursAt(s, sub, |prefix|);
  }

  /**
   * An untitled photo displays its stored name, which contains the stem of the
   * uploaded name (`test2` of `test2.jpg`) whenever the storage keeps that name.
   */
  lemma StrOfUntitledPhotoHasUploadName(d: Date, uploadedAt: int, stem: string, ext: string)
    requires forall k :: 0 <= k < |stem + ext| ==> FileNameChar((stem + ext)[k])
    ensures Contains(Str(NewPhoto(UploadTo(PhotosDir, d, stem + ext), uploadedAt)), stem)
  {
    var prefix := PhotosDir + "/" + DatePath(d);
    var name := UploadTo(PhotosDir, d, stem + ext);
    assert name == prefix + stem + ext by {
      ValidFileNameKeeps(stem + ext);
      assert name == prefix + (stem + ext);
    }
    assert Str(NewPhoto(name, uploadedAt)) == name;
    ContainsMiddle(prefix, stem, ext);
  }
}
