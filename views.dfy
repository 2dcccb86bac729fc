/**
 * The request handlers (gallery/views.py): the AJAX test, the paginated feed,
 * the JSON listing, and the upload pipeline with its per-batch accounting.
 */
module Views {
  import opened Wrappers
  import opened Text
  import opened Forms
  import opened Models
  import opened Imaging
  import opened Store
  import opened Tasks
  import opened Signals

  // ---------------------------------------------------------------------------
  // is_ajax (gallery/views.py:18-23)

  const AjaxHeader: string := "HTTP_X_REQUESTED_WITH"
  const AjaxValue: string := "XMLHttpRequest"

  /** `request.META.get(AJAX_HEADER) == AJAX_VALUE`: exact, case-sensitive equality. */
  function IsAjax(meta: map<string, string>): (b: bool)
    ensures b <==> AjaxHeader in meta && meta[AjaxHeader] == AjaxValue
    ensures AjaxHeader !in meta ==> !b
  {
    AjaxHeader in meta && meta[AjaxHeader] == AjaxValue
  }

  /** A header name as `request.META` spells it: upper case, with `-` turned into `_`. */
  function MetaName(header: string): (n: string)
    ensures |n| == |header|
    ensures forall i :: 0 <= i < |header| ==> n[i] == (if header[i] == '-' then '_' else UpperChar(header[i]))
  {
    seq(|header|, i requires 0 <= i < |header| => if header[i] == '-' then '_' else UpperChar(header[i]))
  }

  /** The `request.META` key of an HTTP request header, as Django's WSGI handler forms it. */
  function MetaKey(header: string): string {
    "HTTP_" + MetaName(header)
  }

  /** The spelling is done character by character, so it distributes over concatenation. */
  lemma MetaNameConcat(a: string, b: string)
    ensures MetaName(a + b) == MetaName(a) + MetaName(b)
  {
    var l := MetaName(a + b);
    var r := MetaName(a) + MetaName(b);
    forall i | 0 <= i < |l| ensures l[i] == r[i] {
      if i < |a| {
        assert (a + b)[i] == a[i];
      } else {
        assert (a + b)[i] == b[i - |a|];
      }
    }
  }

  /** The spelling forgets case: a header name sent in lower case reaches the same key. */
  lemma MetaNameIgnoresCase(header: string)
    ensures MetaName(Lower(header)) == MetaName(header)
  {
    var l := MetaName(Lower(header));
    var r := MetaName(header);
    forall i | 0 <= i < |header| ensures l[i] == r[i] {
      assert Lower(header)[i] == LowerChar(header[i]);
    }
  }

  // ---------------------------------------------------------------------------
  // Pagination (gallery/views.py:25-37), Django's Paginator with 12 photos per page,
  // written as the literal 12 as the view does

  /** `num_pages`: at least one page, and just enough pages of 12 for every photo. */
  function NumPages(count: nat): (n: nat)
    ensures n >= 1
    ensures count == 0 ==> n == 1
    ensures count > 0 ==> (n - 1) * 12 < count <= n * 12
  {
    if count == 0 then 1 else (count + 12 - 1) / 12
  }

  /** The `page` query parameter: missing (the default 1) or the text sent. */
  datatype PageParam = Absent | Given(text: string)

  /** What `paginator.page(page_number)` does: a page, or one of its two exceptions. */
  datatype PageLookup = PageOk(number: nat) | NotAnInteger | EmptyPage

  function LookupPage(param: PageParam, count: nat): (r: PageLookup)
    ensures r.PageOk? ==> 1 <= r.number <= NumPages(count)
    ensures param == Absent ==> r == PageOk(1)
    ensures param.Given? ==> (r == NotAnInteger <==> ParseInt(param.text).None?)
    ensures param.Given? && ParseInt(param.text).Some? ==>
              var n := ParseInt(param.text).value;
              (r == EmptyPage <==> n < 1 || n > NumPages(count))
              && (r.PageOk? ==> r.number == n)
  {
    match param
    case Absent => PageOk(1)
    case Given(text) =>
      match ParseInt(text)
      case None => NotAnInteger
      case Some(n) => if n < 1 || n > NumPages(count) then EmptyPage else PageOk(n)
  }

  /** The page `index` serves, or the empty JSON answer for an AJAX caller. */
  datatype PageChoice = Serve(number: nat) | EmptyForAjax

  function ChoosePage(param: PageParam, count: nat, ajax: bool): (c: PageChoice)
    ensures c.Serve? ==> 1 <= c.number <= NumPages(count)
    ensures c == EmptyForAjax <==> ajax && LookupPage(param, count) == EmptyPage
    ensures LookupPage(param, count) == NotAnInteger ==> c == Serve(1)
    ensures LookupPage(param, count).PageOk? ==> c == Serve(LookupPage(param, count).number)
    ensures !ajax && LookupPage(param, count) == EmptyPage ==> c == Serve(NumPages(count))
  {
    match LookupPage(param, count)
    case PageOk(n) => Serve(n)
    case NotAnInteger => Serve(1)
    case EmptyPage => if ajax then EmptyForAjax else Serve(NumPages(count))
  }

  /** The first index of page `n`. */
  function PageStart(n: nat): nat
    requires n >= 1
  {
    (n - 1) * 12
  }

  /** `page.object_list`: the `n`-th run of 12, the last one possibly shorter. */
  function PageItems<T>(items: seq<T>, n: nat): (r: seq<T>)
    requires 1 <= n <= NumPages(|items|)
    ensures |r| <= 12
    ensures n < NumPages(|items|) ==> |r| == 12
    ensures forall k :: 0 <= k < |r| ==> PageStart(n) + k < |items| && r[k] == items[PageStart(n) + k]
  {
    var start := PageStart(n);
    var stop := if start + 12 < |items| then start + 12 else |items|;
    items[start..stop]
  }

  /** `page.has_next()`. */
  function HasNext(n: nat, count: nat): (r: bool)
    ensures n >= 1 ==> (r <==> count > n * 12)
  {
    n < NumPages(count)
  }

  /** Pages `n` to the last, one after the other. */
  function PagesFrom<T>(items: seq<T>, n: nat): seq<T>
    requires 1 <= n <= NumPages(|items|)
    decreases NumPages(|items|) - n
  {
    if n == NumPages(|items|) then PageItems(items, n)
    else PageItems(items, n) + PagesFrom(items, n + 1)
  }

  /** From page `n` on, the pages hold exactly the items from that page's start. */
  lemma {:induction false} PagesFromIsSuffix<T>(items: seq<T>, n: nat)
    requires 1 <= n <= NumPages(|items|)
    ensures PageStart(n) <= |items| || |items| == 0
    ensures PagesFrom(items, n) == if |items| == 0 then [] else items[PageStart(n)..]
    decreases NumPages(|items|) - n
  {
    if |items| == 0 {
    } else if n == NumPages(|items|) {
      assert PageItems(items, n) == items[PageStart(n)..];
    } else {
      PagesFromIsSuffix(items, n + 1);
      assert PageStart(n + 1) == PageStart(n) + 12 < |items|;
      assert PageItems(items, n) == items[PageStart(n)..PageStart(n + 1)];
      SliceSplit(items, PageStart(n), PageStart(n + 1));
    }
  }

  /** A suffix cut at `b` is the slice up to `b`, then the rest. */
  lemma SliceSplit<T>(items: seq<T>, a: nat, b: nat)
    requires a <= b <= |items|
    ensures items[a..] == items[a..b] + items[b..]
  {
  }

  /** Every photo is on exactly one page: the pages, in order, are the whole feed. */
  lemma PagesPartitionFeed<T>(items: seq<T>)
    ensures PagesFrom(items, 1) == items
  {
    PagesFromIsSuffix(items, 1);
  }

  // ---------------------------------------------------------------------------
  // Feed items (gallery/views.py:39-50 and 131-142)

  /** A row as the queryset yields it: its primary key and fields. */
  datatype Record = Record(id: nat, photo: Photo)

  datatype FeedItem = FeedItem(url: string, fullUrl: string, title: string)
  datatype ListedItem = ListedItem(id: nat, url: string, fullUrl: string, title: string)

  /** `FieldFile.url`: the storage's base URL followed by the stored name. */
  function FileUrl(mediaUrl: string, name: string): (r: string)
    ensures |r| == |mediaUrl| + |name|
    ensures r[..|mediaUrl|] == mediaUrl && r[|mediaUrl|..] == name
  {
    mediaUrl + name
  }

  /** One feed entry: the thumbnail's URL when there is a thumbnail, else the original's. */
  function FeedItemOf(p: Photo, mediaUrl: string): (it: FeedItem)
    ensures it.fullUrl == FileUrl(mediaUrl, p.image)
    ensures p.thumbnail != "" ==> it.url == FileUrl(mediaUrl, p.thumbnail)
    ensures p.thumbnail == "" ==> it.url == it.fullUrl
    ensures it.title == Str(p)
  {
    FeedItem(if p.thumbnail != "" then FileUrl(mediaUrl, p.thumbnail) else FileUrl(mediaUrl, p.image),
             FileUrl(mediaUrl, p.image), Str(p))
  }

  /** The feed entries of a run of rows, one per row, in order. */
  function FeedItemsOf(records: seq<Record>, mediaUrl: string): (items: seq<FeedItem>)
    ensures |items| == |records|
    ensures forall i :: 0 <= i < |records| ==> items[i] == FeedItemOf(records[i].photo, mediaUrl)
  {
    if records == [] then [] else [FeedItemOf(records[0].photo, mediaUrl)] + FeedItemsOf(records[1..], mediaUrl)
  }

  /** Entries of consecutive runs are the runs' entries one after the other. */
  lemma FeedItemsOfConcat(a: seq<Record>, b: seq<Record>, mediaUrl: string)
    ensures FeedItemsOf(a + b, mediaUrl) == FeedItemsOf(a, mediaUrl) + FeedItemsOf(b, mediaUrl)
  {
    var l := FeedItemsOf(a + b, mediaUrl);
    var r := FeedItemsOf(a, mediaUrl) + FeedItemsOf(b, mediaUrl);
    forall i | 0 <= i < |l| ensures l[i] == r[i] {
      if i < |a| {
        assert (a + b)[i] == a[i];
      } else {
        assert (a + b)[i] == b[i - |a|];
      }
    }
  }

  /** The `for photo in photos_page: photos_data.append({...})` loop. */
  method BuildFeedItems(records: seq<Record>, mediaUrl: string) returns (items: seq<FeedItem>)
    ensures items == FeedItemsOf(records, mediaUrl)
  {
    items := [];
    for i := 0 to |records|
      invariant |items| == i
      invariant forall k :: 0 <= k < i ==> items[k] == FeedItemOf(records[k].photo, mediaUrl)
    {
      items := items + [FeedItemOf(records[i].photo, mediaUrl)];
    }
  }

  /** What `index` answers. The HTML template itself is not modelled: only the page it gets. */
  datatype IndexResponse =
    | FeedJson(photos: seq<FeedItem>, hasNext: bool)
    | FeedPage(number: nat, records: seq<Record>, hasNext: bool)

  /** `index(request)` over the queryset `Photo.objects.all().order_by('-uploaded_at')`. */
  method Index(queryset: seq<Record>, param: PageParam, meta: map<string, string>, mediaUrl: string)
    returns (resp: IndexResponse)
    ensures var c := ChoosePage(param, |queryset|, IsAjax(meta));
            && (c == EmptyForAjax ==> resp == FeedJson([], false))
            && (c.Serve? && !IsAjax(meta) ==>
                  resp == FeedPage(c.number, PageItems(queryset, c.number), HasNext(c.number, |queryset|)))
            && (c.Serve? && IsAjax(meta) ==>
                  var page := PageItems(queryset, c.number);
                  resp == FeedJson(FeedItemsOf(page, mediaUrl), HasNext(c.number, |queryset|)))
  {
    var choice := ChoosePage(param, |queryset|, IsAjax(meta));
    if choice == EmptyForAjax {
      return FeedJson([], false);
    }
    var page := PageItems(queryset, choice.number);
    if IsAjax(meta) {
      var items := BuildFeedItems(page, mediaUrl);
      return FeedJson(items, HasNext(choice.number, |queryset|));
    }
    return FeedPage(choice.number, page, HasNext(choice.number, |queryset|));
  }

  /** `all_photos_json`: every photo, in queryset order, with its id. */
  method AllPhotosJson(queryset: seq<Record>, mediaUrl: string) returns (items: seq<ListedItem>)
    ensures |items| == |queryset|
    ensures forall i :: 0 <= i < |queryset| ==>
              var it := FeedItemOf(queryset[i].photo, mediaUrl);
              items[i] == ListedItem(queryset[i].id, it.url, it.fullUrl, it.title)
  {
    items := [];
    for i := 0 to |queryset|
      invariant |items| == i
      invariant forall k :: 0 <= k < i ==>
                  var it := FeedItemOf(queryset[k].photo, mediaUrl);
                  items[k] == ListedItem(queryset[k].id, it.url, it.fullUrl, it.title)
    {
      var p := queryset[i].photo;
      items := items + [ListedItem(queryset[i].id,
                                   if p.thumbnail != "" then FileUrl(mediaUrl, p.thumbnail) else FileUrl(mediaUrl, p.image),
                                   FileUrl(mediaUrl, p.image), Str(p))];
    }
  }

  function Photos(records: seq<Record>): (ps: seq<Photo>)
    ensures |ps| == |records| && forall i :: 0 <= i < |records| ==> ps[i] == records[i].photo
  {
    if records == [] then [] else [records[0].photo] + Photos(records[1..])
  }

  /** A page of a newest-first feed is itself newest first. */
  lemma {:induction false} PageKeepsOrder(queryset: seq<Record>, n: nat)
    requires 1 <= n <= NumPages(|queryset|)
    requires NewestFirst(Photos(queryset))
    ensures NewestFirst(Photos(PageItems(queryset, n)))
  {
    var page := PageItems(queryset, n);
    var all := Photos(queryset);
    var mine := Photos(page);
    forall i, j | 0 <= i < j < |mine|
      ensures mine[i].uploadedAt >= mine[j].uploadedAt
    {
      assert mine[i] == all[PageStart(n) + i];
      assert mine[j] == all[PageStart(n) + j];
    }
  }

  /** Page 999 of a one-page gallery: empty JSON for AJAX, the last page otherwise. */
  lemma FarPageOfSmallGallery(count: nat)
    requires count <= 12
    ensures ChoosePage(Given("999"), count, true) == EmptyForAjax
    ensures ChoosePage(Given("999"), count, false) == Serve(1)
  {
    assert Digits(999) == "999" by {
      assert Digits(99) == "99" by { assert Digits(9) == "9"; }
    }
    ParseDigits(999);
  }

  /** Page 0 is out of range, not "not an integer": a browser gets the last page, not the first. */
  lemma PageZeroGoesToLastPage(count: nat)
    ensures ChoosePage(Given("0"), count, false) == Serve(NumPages(count))
  {
    assert Digits(0) == "0";
    ParseDigits(0);
  }

  /** A page parameter that is not a number falls back to page 1, for every caller. */
  lemma NonNumericPageIsFirst(count: nat, ajax: bool)
    ensures ChoosePage(Given("abc"), count, ajax) == Serve(1)
    ensures ChoosePage(Given(""), count, ajax) == Serve(1)
  {
    NotANumber("abc");
  }

  // ---------------------------------------------------------------------------
  // save_optimized_and_thumbnail (gallery/views.py:54-84)

  /** `make_webp`'s encoder arguments for the two derived copies. */
  const OptimizedOptions: SaveOptions := SaveOptions("WEBP", 95, Some(6), 2560, 2560)
  const FeedThumbOptions: SaveOptions := SaveOptions("WEBP", 95, Some(6), 800, 800)

  const OptimizedSuffix: string := "_optimized"
  const ThumbSuffix: string := "_thumb"

  /** `f"{base}{suffix}.webp"` with `base` the upload's name without its extension. */
  function DerivedName(uploadName: string, suffix: string): (r: string)
    ensures var root := SplitExt(uploadName).0;
            && |r| == |root| + |suffix| + 5
            && r[..|root|] == root && r[|root|..] == suffix + ".webp"
  {
    SplitExt(uploadName).0 + suffix + ".webp"
  }

  lemma OptimizedSuffixIsClean()
    ensures forall k :: 0 <= k < |OptimizedSuffix| ==> FileNameChar(OptimizedSuffix[k])
  {
    var s := OptimizedSuffix;
    forall k | 0 <= k < |s| ensures FileNameChar(s[k]) {
      if k == 0 {} else if k == 1 {} else if k == 2 {} else if k == 3 {} else if k == 4 {}
      else if k == 5 {} else if k == 6 {} else if k == 7 {} else if k == 8 {} else {}
    }
  }

  /** A derived name splits back into the upload's root with the suffix, and `.webp`. */
  lemma DerivedNameSplits(uploadName: string, suffix: string)
    requires |suffix| >= 1 && suffix[|suffix| - 1] != '.'
    requires forall k :: 0 <= k < |suffix| ==> suffix[k] != '/'
    ensures SplitExt(DerivedName(uploadName, suffix)) == (SplitExt(uploadName).0 + suffix, ".webp")
  {
    var root := SplitExt(uploadName).0 + suffix;
    BaseNameConcat(SplitExt(uploadName).0, suffix);
    EndsInNonDot(BaseName(SplitExt(uploadName).0), suffix);
    SplitExtOfJoin(root, ".webp");
  }

  /** A text whose last character is not a dot is not all dots. */
  lemma EndsInNonDot(a: string, b: string)
    requires |b| >= 1 && b[|b| - 1] != '.'
    ensures !AllDots(a + b)
  {
    assert (a + b)[|a| + |b| - 1] == b[|b| - 1];
  }

  /**
   * A derived name never equals the upload's own name, nor does it once the
   * storage has cleaned both, so the original file survives.
   */
  lemma DerivedNameIsNew(uploadName: string, suffix: string)
    requires |suffix| >= 1 && suffix[0] != '.'
    requires forall k :: 0 <= k < |suffix| ==> FileNameChar(suffix[k])
    ensures DerivedName(uploadName, suffix) != uploadName
    ensures ValidFileName(DerivedName(uploadName, suffix)) != ValidFileName(uploadName)
  {
    var (root, ext) := SplitExt(uploadName);
    var tail := suffix + ".webp";
    CleanBeforeWebp(suffix);
    assert DerivedName(uploadName, suffix) == root + tail;
    SplitExtJoins(uploadName);
    ValidFileNamesApart(root, ext, tail);
  }

  lemma CleanBeforeWebp(suffix: string)
    requires forall k :: 0 <= k < |suffix| ==> FileNameChar(suffix[k])
    ensures forall k :: 0 <= k < |suffix + ".webp"| ==> FileNameChar((suffix + ".webp")[k])
  {
    var w := ".webp";
    assert forall j :: 0 <= j < |w| ==> FileNameChar(w[j]) by {
      assert w[0] == '.' && w[1] == 'w' && w[2] == 'e' && w[3] == 'b' && w[4] == 'p';
    }
    forall k | 0 <= k < |suffix + w| ensures FileNameChar((suffix + w)[k]) {
      if k < |suffix| {
        assert (suffix + w)[k] == suffix[k];
      } else {
        assert (suffix + w)[k] == w[k - |suffix|];
      }
    }
  }

  /** Names under one directory and date are equal exactly when the storage cleans the file names alike. */
  lemma UploadToInjective(dir: string, d: Date, a: string, b: string)
    ensures UploadTo(dir, d, a) == UploadTo(dir, d, b) <==> ValidFileName(a) == ValidFileName(b)
  {
    var prefix := dir + "/" + DatePath(d);
    var va, vb := ValidFileName(a), ValidFileName(b);
    assert UploadTo(dir, d, a) == prefix + va;
    assert UploadTo(dir, d, b) == prefix + vb;
    assert (prefix + va)[|prefix|..] == va;
    assert (prefix + vb)[|prefix|..] == vb;
  }

  /** Two uploads that differ only in a space and an underscore, `a b.jpg` and `a_b.jpg`, share a stored name. */
  lemma SpacedNamesCollide(dir: string, d: Date, a: string, b: string)
    requires |a| > 0 && forall k :: 0 <= k < |a| ==> FileNameChar(a[k])
    requires |b| > 0 && forall k :: 0 <= k < |b| ==> FileNameChar(b[k])
    ensures a + " " + b != a + "_" + b
    ensures UploadTo(dir, d, a + " " + b) == UploadTo(dir, d, a + "_" + b)
  {
    ValidFileNameOfSpacedName(a, b);
  }

  /**
   * A name the form accepts ends in the letter of its allowed extension, which the
   * storage keeps; so it is never cleaned to "", "." or "..", the names for which
   * `get_valid_filename` raises.
   */
  lemma AcceptedNameStaysNamed(name: string)
    requires ValidateExtension(name) == Pass
    ensures var v := ValidFileName(name); |v| > 0 && v[|v| - 1] == name[|name| - 1]
    ensures ValidFileName(name) != "" && ValidFileName(name) != "." && ValidFileName(name) != ".."
  {
    var suffix := Suffix(name);
    SuffixIsTail(name);
    var last := name[|name| - 1];
    assert last == suffix[|suffix| - 1];
    var ext := Lower(suffix[1..]);
    assert ext[|ext| - 1] == LowerChar(last);
    assert ext[|ext| - 1] == 'g' || ext[|ext| - 1] == 'p';
    assert FileNameChar(last);
    var front := name[..|name| - 1];
    assert name == front + [last];
    ValidFileNameWithTail(front, [last]);
  }

  /** The originals' directory and the thumbnails' directory never share a name. */
  lemma DirectoriesApart(d1: Date, a: string, d2: Date, b: string)
    ensures UploadTo(PhotosDir, d1, a) != UploadTo(ThumbnailsDir, d2, b)
  {
    assert UploadTo(PhotosDir, d1, a)[0] == 'p';
    assert UploadTo(ThumbnailsDir, d2, b)[0] == 't';
  }

  /**
   * The post-save backstop names its thumbnail after the cleaned upload name; for
   * a name the storage keeps as it is, that is exactly the name the view gives
   * its own thumbnail.
   */
  lemma BackstopNameMatchesViewName(uploadName: string, today: Date)
    ensures BackstopThumbName(UploadTo(PhotosDir, today, uploadName)) == DerivedName(ValidFileName(uploadName), ThumbSuffix)
    ensures ValidFileName(uploadName) == uploadName ==>
              UploadTo(ThumbnailsDir, today, BackstopThumbName(UploadTo(PhotosDir, today, uploadName)))
              == UploadTo(ThumbnailsDir, today, DerivedName(uploadName, ThumbSuffix))
  {
    BaseNameOfUploadTo(PhotosDir, today, uploadName);
    BackstopNameOfBase(UploadTo(PhotosDir, today, uploadName), ValidFileName(uploadName));
  }

  lemma BackstopNameOfBase(path: string, baseName: string)
    requires BaseName(path) == baseName
    ensures BackstopThumbName(path) == DerivedName(baseName, ThumbSuffix)
  {
    ThumbSuffixJoin(SplitExt(baseName).0);
  }

  lemma ThumbSuffixJoin(root: string)
    ensures root + ThumbSuffix + ".webp" == root + "_thumb.webp"
  {
    assert ThumbSuffix + ".webp" == "_thumb.webp";
    assert root + ThumbSuffix + ".webp" == root + (ThumbSuffix + ".webp");
  }

  /** Why an upload fails after its row exists: PIL cannot read it, or cannot write a copy. */
  datatype FailureCause = DecodeFailed | EncodeFailed

  /** Whether, and how, processing fails; it depends on the bytes alone, never on the store. */
  function FailureOf(u: Upload, codec: Codec): (f: Option<FailureCause>)
    ensures f == Some(DecodeFailed) <==> codec.open(u.content).None?
    ensures f == None <==> codec.open(u.content).Some?
                           && codec.encode(ToRgb(codec.open(u.content).value), OptimizedOptions).Some?
                           && codec.encode(ToRgb(codec.open(u.content).value), FeedThumbOptions).Some?
  {
    match codec.open(u.content)
    case None => Some(DecodeFailed)
    case Some(img) =>
      if codec.encode(ToRgb(img), OptimizedOptions).None? || codec.encode(ToRgb(img), FeedThumbOptions).None?
      then Some(EncodeFailed)
      else None
  }

  datatype SaveOutcome = Saved(id: nat) | Failed(id: nat, cause: FailureCause)

  /**
   * Storage after lines 59-61: the original's bytes under its name and, when the
   * backstop run by the INSERT can make one, the backstop's thumbnail of it. The
   * write-back at line 61 leaves the row's thumbnail unset, so that file is not
   * referenced by any row.
   */
  function RegisteredFiles(files: map<string, seq<byte>>, uploadName: string, content: seq<byte>,
                           codec: Codec, today: Date): (r: map<string, seq<byte>>)
    ensures UploadTo(PhotosDir, today, uploadName) in r && r[UploadTo(PhotosDir, today, uploadName)] == content
  {
    var original := UploadTo(PhotosDir, today, uploadName);
    var thumbName := UploadTo(ThumbnailsDir, today, BackstopThumbName(original));
    DirectoriesApart(today, uploadName, today, BackstopThumbName(original));
    WithBackstopThumbnail(files[original := content], original, thumbName, codec)
  }

  /** The backstop's thumbnail of `original`, when one can be made, stored beside it under `thumbName`. */
  function WithBackstopThumbnail(stored: map<string, seq<byte>>, original: string, thumbName: string,
                                 codec: Codec): (r: map<string, seq<byte>>)
    requires thumbName != original
    ensures forall name :: name in stored && name != thumbName ==> name in r && r[name] == stored[name]
    ensures CreateThumbnail(stored, original, codec, BackstopOptions).None? ==> r == stored
    ensures CreateThumbnail(stored, original, codec, BackstopOptions).Some? ==>
              thumbName in r && r[thumbName] == CreateThumbnail(stored, original, codec, BackstopOptions).value
  {
    match CreateThumbnail(stored, original, codec, BackstopOptions)
    case None => stored
    case Some(thumb) => stored[thumbName := thumb]
  }

  /** The store after lines 59-61: the new row points at the original, stored with its backstop thumbnail. */
  function Registered(db: Db, u: Upload, codec: Codec, now: int, today: Date): (r: Db)
    requires Consistent(db)
    ensures Consistent(r) && r.nextId == db.nextId + 1 && r.rows.Keys == db.rows.Keys + {db.nextId}
    ensures forall other :: other in db.rows ==> r.rows[other] == db.rows[other]
    ensures r.rows[db.nextId] == NewPhoto(UploadTo(PhotosDir, today, u.name), now)
    ensures r.files == RegisteredFiles(db.files, u.name, u.content, codec, today)
  {
    var instance := NewPhoto(UploadTo(PhotosDir, today, u.name), now);
    var files := RegisteredFiles(db.files, u.name, u.content, codec, today);
    InsertedRows(db, instance, files);
    Db(db.rows[db.nextId := instance], db.nextId + 1, files)
  }

  /**
   * `save_optimized_and_thumbnail` on one upload, by its effect: the upload takes
   * the next primary key; the row keeps pointing at the bare original when the
   * bytes cannot be decoded or a copy cannot be encoded, and otherwise points at
   * the optimized copy and the feed thumbnail, both stored under their derived names.
   */
  function SaveUpload(db: Db, u: Upload, codec: Codec, now: int, today: Date): (r: (SaveOutcome, Db))
    requires Consistent(db) && u.name != ""
    ensures Consistent(r.1) && r.1.nextId == db.nextId + 1
    ensures r.0.id == db.nextId && r.1.rows.Keys == db.rows.Keys + {db.nextId}
    ensures forall other :: other in db.rows ==> r.1.rows[other] == db.rows[other]
    ensures r.0.Saved? <==> FailureOf(u, codec).None?
    ensures r.0.Failed? ==> Some(r.0.cause) == FailureOf(u, codec)
  {
    var id := db.nextId;
    var registered := Registered(db, u, codec, now, today);                         // lines 59-61
    match FailureOf(u, codec)                                                      // lines 64-79
    case Some(cause) => (Failed(id, cause), registered)
    case None =>
      var rgb := ToRgb(codec.open(u.content).value);
      var optName := UploadTo(PhotosDir, today, DerivedName(u.name, OptimizedSuffix));
      var thumbName := UploadTo(ThumbnailsDir, today, DerivedName(u.name, ThumbSuffix));
      (Saved(id), SavedCopies(registered, id, optName, codec.encode(rgb, OptimizedOptions).value,
                              thumbName, codec.encode(rgb, FeedThumbOptions).value))           // lines 81-83
  }

  /** Lines 81-83 on values: both copies stored under their names, and the row pointing at them. */
  function SavedCopies(db: Db, id: nat, optName: string, optimized: seq<byte>, thumbName: string, thumb: seq<byte>): (r: Db)
    requires Consistent(db) && id in db.rows
    ensures Consistent(r) && r.nextId == db.nextId && r.rows.Keys == db.rows.Keys
    ensures r.rows[id] == db.rows[id].(image := optName, thumbnail := thumbName)
    ensures forall other :: other in db.rows && other != id ==> r.rows[other] == db.rows[other]
    ensures r.files == db.files[optName := optimized][thumbName := thumb]
  {
    Db(db.rows[id := db.rows[id].(image := optName, thumbnail := thumbName)], db.nextId,
       db.files[optName := optimized][thumbName := thumb])
  }

  /** An upload's row always has an image and blank titles, so it satisfies the schema. */
  lemma SaveUploadKeepsRowsWellFormed(db: Db, u: Upload, codec: Codec, now: int, today: Date)
    requires Consistent(db) && u.name != "" && RowsWellFormed(db)
    ensures RowsWellFormed(SaveUpload(db, u, codec, now, today).1)
  {
    var after := SaveUpload(db, u, codec, now, today).1;
    SaveUploadRow(db, u, codec, now, today);
    forall id | id in after.rows ensures WellFormed(after.rows[id]) {
      if id != db.nextId {
        assert after.rows[id] == db.rows[id];
      }
    }
  }

  /** The two derived names never replace the original's file. */
  lemma DerivedNamesSpareOriginal(uploadName: string, today: Date)
    ensures UploadTo(PhotosDir, today, DerivedName(uploadName, OptimizedSuffix)) != UploadTo(PhotosDir, today, uploadName)
    ensures UploadTo(ThumbnailsDir, today, DerivedName(uploadName, ThumbSuffix)) != UploadTo(PhotosDir, today, uploadName)
  {
    OptimizedSuffixIsClean();
    DerivedNameIsNew(uploadName, OptimizedSuffix);
    UploadToInjective(PhotosDir, today, DerivedName(uploadName, OptimizedSuffix), uploadName);
    DirectoriesApart(today, uploadName, today, DerivedName(uploadName, ThumbSuffix));
  }

  /**
   * The new row: on failure it still points at the original and has no thumbnail;
   * on success it points at the optimized copy and the feed thumbnail.
   */
  lemma SaveUploadRow(db: Db, u: Upload, codec: Codec, now: int, today: Date)
    requires Consistent(db) && u.name != ""
    ensures var (outcome, after) := SaveUpload(db, u, codec, now, today);
            && (outcome.Failed? ==> after.rows[db.nextId] == NewPhoto(UploadTo(PhotosDir, today, u.name), now))
            && (outcome.Saved? ==>
                  after.rows[db.nextId] == Photo(UploadTo(PhotosDir, today, DerivedName(u.name, OptimizedSuffix)),
                                                 UploadTo(ThumbnailsDir, today, DerivedName(u.name, ThumbSuffix)),
                                                 "", "", now))
  {
  }

  /**
   * The original's bytes stay stored under its name, and after a success the row's
   * two files hold the two encodings of the decoded upload.
   */
  lemma SaveUploadFiles(db: Db, u: Upload, codec: Codec, now: int, today: Date)
    requires Consistent(db) && u.name != ""
    ensures var (outcome, after) := SaveUpload(db, u, codec, now, today);
            var original := UploadTo(PhotosDir, today, u.name);
            && original in after.files && after.files[original] == u.content
            && (outcome.Saved? ==>
                  var rgb := ToRgb(codec.open(u.content).value);
                  var row := after.rows[db.nextId];
                  && row.image in after.files && after.files[row.image] == codec.encode(rgb, OptimizedOptions).value
                  && row.thumbnail in after.files
                  && after.files[row.thumbnail] == codec.encode(rgb, FeedThumbOptions).value)
  {
    if FailureOf(u, codec).Some? {
      SaveUploadFailureFiles(db, u, codec, now, today);
    } else {
      SaveUploadCopiesFiles(db, u, codec, now, today);
    }
  }

  /** After a failure the store is the one lines 59-61 left, with the original stored. */
  lemma SaveUploadFailureFiles(db: Db, u: Upload, codec: Codec, now: int, today: Date)
    requires Consistent(db) && u.name != "" && FailureOf(u, codec).Some?
    ensures var after := SaveUpload(db, u, codec, now, today).1;
            var original := UploadTo(PhotosDir, today, u.name);
            original in after.files && after.files[original] == u.content
  {
    assert SaveUpload(db, u, codec, now, today).1 == Registered(db, u, codec, now, today);
  }

  /** After a success the original and both copies are stored, each under its own name. */
  lemma SaveUploadCopiesFiles(db: Db, u: Upload, codec: Codec, now: int, today: Date)
    requires Consistent(db) && u.name != "" && FailureOf(u, codec).None?
    ensures var after := SaveUpload(db, u, codec, now, today).1;
            var original := UploadTo(PhotosDir, today, u.name);
            var rgb := ToRgb(codec.open(u.content).value);
            var row := after.rows[db.nextId];
            && original in after.files && after.files[original] == u.content
            && row.image in after.files && after.files[row.image] == codec.encode(rgb, OptimizedOptions).value
            && row.thumbnail in after.files
            && after.files[row.thumbnail] == codec.encode(rgb, FeedThumbOptions).value
  {
    var registered := Registered(db, u, codec, now, today);
    var original := UploadTo(PhotosDir, today, u.name);
    var rgb := ToRgb(codec.open(u.content).value);
    var optName := UploadTo(PhotosDir, today, DerivedName(u.name, OptimizedSuffix));
    var thumbName := UploadTo(ThumbnailsDir, today, DerivedName(u.name, ThumbSuffix));
    var optimized := codec.encode(rgb, OptimizedOptions).value;
    var thumb := codec.encode(rgb, FeedThumbOptions).value;
    assert SaveUpload(db, u, codec, now, today).1
           == SavedCopies(registered, db.nextId, optName, optimized, thumbName, thumb);
    DerivedNamesSpareOriginal(u.name, today);
    DirectoriesApart(today, DerivedName(u.name, OptimizedSuffix), today, DerivedName(u.name, ThumbSuffix));
    TwoWritesSpare(registered.files, original, optName, optimized, thumbName, thumb);
  }

  /** Two writes under names other than `original`, and other than each other, keep it and hold their bytes. */
  lemma TwoWritesSpare(files: map<string, seq<byte>>, original: string, a: string, x: seq<byte>, b: string, y: seq<byte>)
    requires original in files && a != original && b != original && a != b
    ensures var f := files[a := x][b := y];
            original in f && f[original] == files[original] && a in f && f[a] == x && b in f && f[b] == y
  {
  }

  /**
   * `save_optimized_and_thumbnail(uploaded_file)`, statement by statement: the
   * INSERT at line 60 runs the post-save hook with `created=True`; every later
   * `save()` is an UPDATE, whose hook does nothing.
   */
  method SaveOptimizedAndThumbnail(store: PhotoStore, u: Upload, codec: Codec, now: int, today: Date)
    returns (outcome: SaveOutcome)
    requires store.Valid() && u.name != ""
    modifies store
    ensures store.Valid()
    ensures (outcome, store.Snapshot()) == SaveUpload(old(store.Snapshot()), u, codec, now, today)
  {
    var original := UploadTo(PhotosDir, today, u.name);
    var id := RegisterOriginal(store, u, codec, now, today);                       // lines 59-61
    ghost var registered := store.Snapshot();
    var decoded := codec.open(u.content);                                          // line 64
    if decoded.None? {
      return Failed(id, DecodeFailed);
    }
    var rgb := ToRgb(decoded.value);
    var optimized := codec.encode(rgb, OptimizedOptions);                          // line 76
    if optimized.None? {
      return Failed(id, EncodeFailed);
    }
    var thumb := codec.encode(rgb, FeedThumbOptions);                              // line 79
    if thumb.None? {
      return Failed(id, EncodeFailed);
    }
    var optName := UploadTo(PhotosDir, today, DerivedName(u.name, OptimizedSuffix));
    var thumbName := UploadTo(ThumbnailsDir, today, DerivedName(u.name, ThumbSuffix));
    StoreCopies(store, id, NewPhoto(original, now), optName, optimized.value, thumbName, thumb.value, codec, today);
    return Saved(id);
  }

  /**
   * Lines 59-61: the original is stored and its row inserted, which runs the
   * backstop; the write-back of the in-memory instance then leaves the row as it
   * was inserted.
   */
  method RegisterOriginal(store: PhotoStore, u: Upload, codec: Codec, now: int, today: Date) returns (id: nat)
    requires store.Valid() && u.name != ""
    modifies store
    ensures store.Valid() && id == old(store.nextId)
    ensures store.Snapshot() == Registered(old(store.Snapshot()), u, codec, now, today)
  {
    ghost var db := store.Snapshot();
    var original := UploadTo(PhotosDir, today, u.name);
    var instance := NewPhoto(original, now);
    store.StoreFile(original, u.content);                                          // line 60
    id := store.Insert(instance);
    var fired := CreateThumbnailOnSave(store, id, instance, true, codec, today);
    Save(store, id, instance, codec, today);                                       // line 61
    RegisterSteps(db, u, codec, now, today);
  }

  /** The four steps of `RegisterOriginal` on values: store, insert, hook, write-back. */
  lemma RegisterSteps(db: Db, u: Upload, codec: Codec, now: int, today: Date)
    requires Consistent(db)
    ensures var original := UploadTo(PhotosDir, today, u.name);
            var instance := NewPhoto(original, now);
            var (id, inserted) := Inserted(WithFile(db, original, u.content), instance);
            Written(PostSave(inserted, id, instance, true, codec, today).1, id, instance)
              == Registered(db, u, codec, now, today)
  {
    var original := UploadTo(PhotosDir, today, u.name);
    var instance := NewPhoto(original, now);
    var (id, inserted) := Inserted(WithFile(db, original, u.content), instance);
    var fired := PostSave(inserted, id, instance, true, codec, today).1;
    var registered := Registered(db, u, codec, now, today);
    var written := Written(fired, id, instance);
    assert written.files == registered.files by {
      HookFiles(db, u, codec, now, today);
    }
    assert written.rows == registered.rows by {
      HookRows(db, u, codec, now, today);
    }
    assert written.nextId == registered.nextId;
  }

  /** Writing the instance back over the hook's row restores the row the INSERT made. */
  lemma HookRows(db: Db, u: Upload, codec: Codec, now: int, today: Date)
    requires Consistent(db)
    ensures var original := UploadTo(PhotosDir, today, u.name);
            var instance := NewPhoto(original, now);
            var (id, inserted) := Inserted(WithFile(db, original, u.content), instance);
            Written(PostSave(inserted, id, instance, true, codec, today).1, id, instance).rows
              == db.rows[db.nextId := instance]
  {
    var original := UploadTo(PhotosDir, today, u.name);
    var instance := NewPhoto(original, now);
    var (id, inserted) := Inserted(WithFile(db, original, u.content), instance);
    var fired := PostSave(inserted, id, instance, true, codec, today).1;
    assert fired.rows.Keys == inserted.rows.Keys;
    var written := Written(fired, id, instance).rows;
    forall other | other in written ensures other in db.rows[db.nextId := instance]
                                        && written[other] == db.rows[db.nextId := instance][other] {
      if other != id {
        assert written[other] == fired.rows[other] == inserted.rows[other];
      }
    }
  }

  /** The hook run by the INSERT stores exactly the backstop's thumbnail, if it can make one. */
  lemma HookFiles(db: Db, u: Upload, codec: Codec, now: int, today: Date)
    requires Consistent(db)
    ensures var original := UploadTo(PhotosDir, today, u.name);
            var instance := NewPhoto(original, now);
            var (id, inserted) := Inserted(WithFile(db, original, u.content), instance);
            PostSave(inserted, id, instance, true, codec, today).1.files
              == RegisteredFiles(db.files, u.name, u.content, codec, today)
  {
    var original := UploadTo(PhotosDir, today, u.name);
    DirectoriesApart(today, u.name, today, BackstopThumbName(original));
  }

  /**
   * Lines 81-83: each copy is stored under its derived name and recorded in the
   * row, which is saved after each step and once more at the end.
   */
  method StoreCopies(store: PhotoStore, id: nat, instance: Photo, optName: string, optimized: seq<byte>,
                     thumbName: string, thumb: seq<byte>, codec: Codec, today: Date)
    requires store.Valid() && id in store.rows
    modifies store
    ensures store.Valid()
    ensures store.Snapshot() == Db(old(store.rows)[id := instance.(image := optName, thumbnail := thumbName)],
                                   old(store.nextId), old(store.files)[optName := optimized][thumbName := thumb])
  {
    var withOpt := instance.(image := optName);
    store.StoreFile(optName, optimized);                                           // line 81
    Save(store, id, withOpt, codec, today);
    var withBoth := withOpt.(thumbnail := thumbName);
    store.StoreFile(thumbName, thumb);                                             // line 82
    Save(store, id, withBoth, codec, today);
    Save(store, id, withBoth, codec, today);                                       // line 83
  }

  /** `instance.save()` of a row that exists, followed by its post-save hook. */
  method Save(store: PhotoStore, id: nat, p: Photo, codec: Codec, today: Date)
    requires store.Valid() && id in store.rows
    modifies store
    ensures store.Valid()
    ensures store.Snapshot() == Written(old(store.Snapshot()), id, p)
  {
    store.Write(id, p);
    var fired := CreateThumbnailOnSave(store, id, p, false, codec, today);
    UpdateSaveNeverGenerates(Written(old(store.Snapshot()), id, p), id, p, codec, today);
  }

  // ---------------------------------------------------------------------------
  // The batch loop of upload_photo (gallery/views.py:91-102)

  /** One entry of `errors`: the file's name and why it failed. */
  datatype UploadError = UploadError(fileName: string, cause: FailureCause)

  /** The files that fail, in upload order; an independent account of `errors`. */
  function Failures(files: seq<Upload>, codec: Codec): (es: seq<UploadError>)
    ensures |es| <= |files|
    decreases |files|
  {
    if files == [] then []
    else
      var last := files[|files| - 1];
      Failures(files[..|files| - 1], codec)
        + (if FailureOf(last, codec).Some? then [UploadError(last.name, FailureOf(last, codec).value)] else [])
  }

  predicate AllNamed(files: seq<Upload>) {
    forall k :: 0 <= k < |files| ==> files[k].name != ""
  }

  datatype BatchState = BatchState(uploaded: nat, errors: seq<UploadError>, db: Db)

  /** `uploaded_count`, `errors` and the store after the loop has seen `files`. */
  function Batch(db: Db, files: seq<Upload>, codec: Codec, now: int, today: Date): (s: BatchState)
    requires Consistent(db) && AllNamed(files)
    ensures Consistent(s.db)
    decreases |files|
  {
    if files == [] then BatchState(0, [], db)
    else BatchStep(Batch(db, files[..|files| - 1], codec, now, today), files[|files| - 1], codec, now, today)
  }

  /** One turn of the loop: save the upload, then count it as uploaded or record its error. */
  function BatchStep(prev: BatchState, u: Upload, codec: Codec, now: int, today: Date): (s: BatchState)
    requires Consistent(prev.db) && u.name != ""
    ensures Consistent(s.db)
  {
    var (outcome, after) := SaveUpload(prev.db, u, codec, now, today);
    if outcome.Saved? then BatchState(prev.uploaded + 1, prev.errors, after)
    else BatchState(prev.uploaded, prev.errors + [UploadError(u.name, outcome.cause)], after)
  }

  /** The batch over the first `i + 1` files is one more turn after the batch over the first `i`. */
  lemma BatchOfPrefix(db: Db, files: seq<Upload>, i: nat, codec: Codec, now: int, today: Date)
    requires Consistent(db) && AllNamed(files) && i < |files|
    ensures AllNamed(files[..i]) && AllNamed(files[..i + 1])
    ensures Batch(db, files[..i + 1], codec, now, today)
            == BatchStep(Batch(db, files[..i], codec, now, today), files[i], codec, now, today)
  {
    assert files[..i + 1][..i] == files[..i];
  }

  /**
   * Every file is counted exactly once: as uploaded, or in `errors` under its own
   * name, in upload order; and every file, failed or not, adds one row.
   */
  lemma {:induction false} BatchAccounting(db: Db, files: seq<Upload>, codec: Codec, now: int, today: Date)
    requires Consistent(db) && AllNamed(files)
    ensures var s := Batch(db, files, codec, now, today);
            && s.uploaded + |s.errors| == |files|
            && s.errors == Failures(files, codec)
            && s.db.nextId == db.nextId + |files|
            && (forall id :: id in s.db.rows <==> id in db.rows || db.nextId <= id < db.nextId + |files|)
            && (forall id :: id in db.rows ==> s.db.rows[id] == db.rows[id])
    decreases |files|
  {
    if files != [] {
      var init := files[..|files| - 1];
      BatchAccounting(db, init, codec, now, today);
      StepCounts(Batch(db, init, codec, now, today), files[|files| - 1], codec, now, today);
    }
  }

  /** One turn counts its file once, adds one row and keeps the rows before it. */
  lemma StepCounts(prev: BatchState, u: Upload, codec: Codec, now: int, today: Date)
    requires Consistent(prev.db) && u.name != ""
    ensures var s := BatchStep(prev, u, codec, now, today);
            && s.uploaded + |s.errors| == prev.uploaded + |prev.errors| + 1
            && s.errors == prev.errors + (if FailureOf(u, codec).Some? then [UploadError(u.name, FailureOf(u, codec).value)] else [])
            && s.db.nextId == prev.db.nextId + 1
            && (forall id :: id in s.db.rows <==> id in prev.db.rows || id == prev.db.nextId)
            && (forall id :: id in prev.db.rows ==> s.db.rows[id] == prev.db.rows[id])
  {
  }

  /** A batch keeps every row within the schema. */
  lemma {:induction false} BatchKeepsRowsWellFormed(db: Db, files: seq<Upload>, codec: Codec, now: int, today: Date)
    requires Consistent(db) && AllNamed(files) && RowsWellFormed(db)
    ensures RowsWellFormed(Batch(db, files, codec, now, today).db)
    decreases |files|
  {
    if files != [] {
      var init := files[..|files| - 1];
      BatchKeepsRowsWellFormed(db, init, codec, now, today);
      SaveUploadKeepsRowsWellFormed(Batch(db, init, codec, now, today).db, files[|files| - 1], codec, now, today);
    }
  }

  /** A batch where every file can be read and re-encoded has no errors. */
  lemma {:induction false} CleanBatchHasNoErrors(db: Db, files: seq<Upload>, codec: Codec, now: int, today: Date)
    requires Consistent(db) && AllNamed(files)
    requires forall k :: 0 <= k < |files| ==> FailureOf(files[k], codec).None?
    ensures Batch(db, files, codec, now, today).uploaded == |files|
    ensures Batch(db, files, codec, now, today).errors == []
    decreases |files|
  {
    BatchAccounting(db, files, codec, now, today);
    NoFailures(files, codec);
  }

  lemma {:induction false} NoFailures(files: seq<Upload>, codec: Codec)
    requires forall k :: 0 <= k < |files| ==> FailureOf(files[k], codec).None?
    ensures Failures(files, codec) == []
    decreases |files|
  {
    if files != [] {
      NoFailures(files[..|files| - 1], codec);
    }
  }

  /** The loop: each file is saved or its failure recorded, and the loop goes on. */
  method ProcessBatch(store: PhotoStore, files: seq<Upload>, codec: Codec, now: int, today: Date)
    returns (uploaded: nat, errors: seq<UploadError>)
    requires store.Valid() && AllNamed(files)
    modifies store
    ensures store.Valid()
    ensures BatchState(uploaded, errors, store.Snapshot()) == Batch(old(store.Snapshot()), files, codec, now, today)
  {
    uploaded, errors := 0, [];
    for i := 0 to |files|
      invariant store.Valid()
      invariant BatchState(uploaded, errors, store.Snapshot()) == Batch(old(store.Snapshot()), files[..i], codec, now, today)
    {
      BatchOfPrefix(old(store.Snapshot()), files, i, codec, now, today);
      var outcome := SaveOptimizedAndThumbnail(store, files[i], codec, now, today);
      if outcome.Saved? {
        uploaded := uploaded + 1;
      } else {
        errors := errors + [UploadError(files[i].name, outcome.cause)];
      }
    }
    assert files[..|files|] == files;
  }

  // ---------------------------------------------------------------------------
  // The answer of upload_photo (gallery/views.py:87-129)

  const ErrorNotePrefix: string := " (с ошибками: "

  /** `msg`: the count of saved photos, and the count of errors when there are any. */
  function UploadMessage(uploaded: nat, errorCount: nat): (m: string)
    ensures var head := "Загружено " + Digits(uploaded) + " фото";
            && |m| >= |head| && m[..|head|] == head
            && (errorCount == 0 <==> |m| == |head|)
  {
    "Загружено " + Digits(uploaded) + " фото"
      + (if errorCount > 0 then ErrorNotePrefix + Digits(errorCount) + ")" else "")
  }

  /** The message speaks of errors exactly when there were some. */
  lemma MessageMentionsErrorsIff(uploaded: nat, errorCount: nat)
    ensures Contains(UploadMessage(uploaded, errorCount), ErrorNotePrefix) <==> errorCount > 0
  {
    var base := "Загружено " + Digits(uploaded) + " фото";
    var m := UploadMessage(uploaded, errorCount);
    if errorCount > 0 {
      assert m == base + ErrorNotePrefix + (Digits(errorCount) + ")");
      assert OccursAt(m, ErrorNotePrefix, |base|);
    } else {
      assert m == base;
      NoParenthesis(uploaded);
      if Contains(m, ErrorNotePrefix) {
        var k: nat :| k <= |m| && OccursAt(m, ErrorNotePrefix, k);
        ParenthesisOfNote(m, k);
        assert false;
      }
    }
  }

  /** An occurrence of the error note brings its opening parenthesis. */
  lemma ParenthesisOfNote(m: string, k: nat)
    requires OccursAt(m, ErrorNotePrefix, k)
    ensures k + 1 < |m| && m[k + 1] == '('
  {
    assert m[k..k + |ErrorNotePrefix|][1] == ErrorNotePrefix[1];
  }

  lemma NoParenthesis(uploaded: nat)
    ensures forall k :: 0 <= k < |"Загружено " + Digits(uploaded) + " фото"| ==>
              ("Загружено " + Digits(uploaded) + " фото")[k] != '('
  {
    var head := "Загружено ";
    var d := Digits(uploaded);
    var tail := " фото";
    var base := head + d + tail;
    forall k | 0 <= k < |base| ensures base[k] != '(' {
      if k < |head| {
        assert base[k] == head[k];
      } else if k < |head| + |d| {
        assert base[k] == d[k - |head|];
        assert IsDigit(d[k - |head|]);
      } else {
        assert base[k] == tail[k - |head| - |d|];
      }
    }
  }

  datatype UploadResponse =
    | UploadPage                                               // the upload form, unbound
    | UploadSucceeded(redirectUrl: string, message: string, errors: seq<UploadError>)
    | ValidationFailed(details: seq<FieldError>)              // `{'files': [...]}`
    | RedirectToIndex(sessionMessage: Option<string>)          // `upload_message` if set

  /** The answer once the batch has run (lines 104-118). */
  function BatchResponse(ajax: bool, uploaded: nat, errors: seq<UploadError>, indexUrl: string): (r: UploadResponse)
    ensures ajax ==> r == UploadSucceeded(indexUrl, UploadMessage(uploaded, |errors|), errors)
    ensures !ajax ==> r.RedirectToIndex?
    ensures !ajax ==> (r.sessionMessage.Some? <==> uploaded > 0)
    ensures !ajax && uploaded > 0 ==> r.sessionMessage.value == UploadMessage(uploaded, |errors|)
  {
    var msg := UploadMessage(uploaded, |errors|);
    if ajax then UploadSucceeded(indexUrl, msg, errors)
    else if uploaded > 0 then RedirectToIndex(Some(msg))
    else RedirectToIndex(None)
  }

  /** The request: a GET, or a POST of `files` with the `MAX_UPLOAD_SIZE_MB` setting. */
  function UploadResult(db: Db, post: bool, files: seq<Upload>, ajax: bool, setting: Option<int>,
                        codec: Codec, now: int, today: Date, indexUrl: string): (r: (UploadResponse, Db))
    requires Consistent(db)
    ensures Consistent(r.1)
    ensures !post ==> r == (UploadPage, db)
    ensures post && CleanAll(files, setting).Invalid? ==>
              r == (if ajax then ValidationFailed(CleanAll(files, setting).errors) else UploadPage, db)
    ensures post && CleanAll(files, setting).Cleaned? ==>
              AllNamed(files)
              && var s := Batch(db, files, codec, now, today);
              r == (BatchResponse(ajax, s.uploaded, s.errors, indexUrl), s.db)
  {
    if !post then (UploadPage, db)
    else match CleanAll(files, setting)
      case Invalid(errors) => (if ajax then ValidationFailed(errors) else UploadPage, db)
      case Cleaned(_) =>
        assert AllNamed(files) by { ValidatedFilesNamed(files, setting); }
        var s := Batch(db, files, codec, now, today);
        (BatchResponse(ajax, s.uploaded, s.errors, indexUrl), s.db)
  }

  lemma ValidatedFilesNamed(files: seq<Upload>, setting: Option<int>)
    requires CleanAll(files, setting).Cleaned?
    ensures AllNamed(files)
  {
    forall k | 0 <= k < |files| ensures files[k].name != "" {
      assert CleanFile(files[k], setting).Accepted?;
    }
  }

  /** The upload view keeps every row within the schema. */
  lemma UploadResultKeepsRowsWellFormed(db: Db, post: bool, files: seq<Upload>, ajax: bool, setting: Option<int>,
                                        codec: Codec, now: int, today: Date, indexUrl: string)
    requires Consistent(db) && RowsWellFormed(db)
    ensures RowsWellFormed(UploadResult(db, post, files, ajax, setting, codec, now, today, indexUrl).1)
  {
    if post && CleanAll(files, setting).Cleaned? {
      ValidatedFilesNamed(files, setting);
      BatchKeepsRowsWellFormed(db, files, codec, now, today);
    }
  }

  /** A POST with no file at all passes validation and reports `Загружено 0 фото`. */
  lemma EmptyPostIsAccepted(db: Db, setting: Option<int>, codec: Codec, now: int, today: Date, indexUrl: string)
    requires Consistent(db)
    ensures UploadResult(db, true, [], true, setting, codec, now, today, indexUrl)
            == (UploadSucceeded(indexUrl, "Загружено 0 фото", []), db)
    ensures UploadResult(db, true, [], false, setting, codec, now, today, indexUrl)
            == (RedirectToIndex(None), db)
  {
    assert Digits(0) == "0";
    assert UploadMessage(0, 0) == "Загружено 0 фото";
  }

  /** A batch with one invalid file saves nothing at all, not even the valid ones. */
  lemma OneBadFileRejectsBatch(db: Db, files: seq<Upload>, bad: nat, ajax: bool, setting: Option<int>,
                               codec: Codec, now: int, today: Date, indexUrl: string)
    requires Consistent(db)
    requires bad < |files| && CleanFile(files[bad], setting).Rejected?
    ensures UploadResult(db, true, files, ajax, setting, codec, now, today, indexUrl).1 == db
    ensures UploadResult(db, true, files, ajax, setting, codec, now, today, indexUrl).0.ValidationFailed? <==> ajax
  {
    assert CleanAll(files, setting).Invalid?;
  }

  /** `upload_photo(request)` for a staff user. */
  method UploadPhoto(store: PhotoStore, post: bool, files: seq<Upload>, meta: map<string, string>,
                     setting: Option<int>, codec: Codec, now: int, today: Date, indexUrl: string)
    returns (resp: UploadResponse)
    requires store.Valid()
    modifies store
    ensures store.Valid()
    ensures (resp, store.Snapshot())
            == UploadResult(old(store.Snapshot()), post, files, IsAjax(meta), setting, codec, now, today, indexUrl)
  {
    if post {
      var cleaned := CleanAll(files, setting);
      if cleaned.Cleaned? {
        ValidatedFilesNamed(files, setting);
        var uploaded, errors := ProcessBatch(store, files, codec, now, today);
        return BatchResponse(IsAjax(meta), uploaded, errors, indexUrl);
      }
      if IsAjax(meta) {
        return ValidationFailed(cleaned.errors);
      }
    }
    return UploadPage;
  }
}
