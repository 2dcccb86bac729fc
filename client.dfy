/**
 * The browser side (static/js/script.js) with the DOM stripped away: the lightbox's
 * position in the photo list, the swipe decision, infinite scroll's paging state
 * and the upload form's file selection.
 */
module Client {
  import opened Wrappers
  import opened Text
  import opened Forms
  import opened Views

  // ---------------------------------------------------------------------------
  // Lightbox (static/js/script.js:51-142)

  /** An entry of `allPhotos`: what the lightbox needs of a photo. */
  datatype PhotoEntry = PhotoEntry(url: string, fullUrl: string, title: string)

  /** The lightbox's closure state: the list, `currentIndex`, the `active` class and the image's `src`. */
  datatype LightboxView = LightboxView(photos: seq<PhotoEntry>, index: int, active: bool, src: string)

  /** The position is -1 (closed) or a photo; open exactly when on a photo, showing it. */
  predicate Coherent(v: LightboxView) {
    && -1 <= v.index < |v.photos|
    && (v.active <==> v.index >= 0)
    && (v.index >= 0 ==> v.src == v.photos[v.index].fullUrl)
    && (v.index == -1 ==> v.src == "")
  }

  /** `showPhoto(index)`: an index outside the list changes nothing. */
  function ShowPhoto(v: LightboxView, index: int): (r: LightboxView)
    ensures r.photos == v.photos
    ensures (index < 0 || index >= |v.photos|) ==> r == v
    ensures 0 <= index < |v.photos| ==> r.index == index && r.active && r.src == v.photos[index].fullUrl
    ensures Coherent(v) ==> Coherent(r)
  {
    if index < 0 || index >= |v.photos| then v
    else v.(index := index, src := v.photos[index].fullUrl, active := true)
  }

  /** `closeLightbox()`. */
  function CloseLightbox(v: LightboxView): (r: LightboxView)
    ensures r.photos == v.photos && r.index == -1 && !r.active && r.src == ""
    ensures Coherent(r)
  {
    v.(active := false, src := "", index := -1)
  }

  /** `prevPhoto()`: one step back, and nothing at the first photo or when closed. */
  function PrevPhoto(v: LightboxView): (r: LightboxView)
    ensures r.photos == v.photos
    ensures v.index <= 0 ==> r == v
    ensures 0 < v.index <= |v.photos| ==> r.index == v.index - 1 && r.active && r.src == v.photos[v.index - 1].fullUrl
    ensures Coherent(v) ==> Coherent(r)
  {
    if v.index > 0 then ShowPhoto(v, v.index - 1) else v
  }

  /** `nextPhoto()`: one step forward, and nothing at the last photo. */
  function NextPhoto(v: LightboxView): (r: LightboxView)
    ensures r.photos == v.photos
    ensures v.index >= |v.photos| - 1 ==> r == v
    ensures -1 <= v.index < |v.photos| - 1 ==>
              r.index == v.index + 1 && r.active && r.src == v.photos[v.index + 1].fullUrl
    ensures Coherent(v) ==> Coherent(r)
  {
    if v.index < |v.photos| - 1 then ShowPhoto(v, v.index + 1) else v
  }

  /** The keydown handler: keys act only while the lightbox is open. */
  function KeyDown(v: LightboxView, key: string): (r: LightboxView)
    ensures !v.active ==> r == v
    ensures v.active && key == "ArrowLeft" ==> r == PrevPhoto(v)
    ensures v.active && key == "ArrowRight" ==> r == NextPhoto(v)
    ensures v.active && key == "Escape" ==> r == CloseLightbox(v)
    ensures key != "ArrowLeft" && key != "ArrowRight" && key != "Escape" ==> r == v
    ensures Coherent(v) ==> Coherent(r)
  {
    if !v.active then v
    else if key == "ArrowLeft" then PrevPhoto(v)
    else if key == "ArrowRight" then NextPhoto(v)
    else if key == "Escape" then CloseLightbox(v)
    else v
  }

  /** Back after forward is where one started, anywhere before the last photo. */
  lemma PrevUndoesNext(v: LightboxView)
    requires Coherent(v) && 0 <= v.index < |v.photos| - 1
    ensures PrevPhoto(NextPhoto(v)) == v
  {
  }

  /** Forward after back is where one started, anywhere after the first photo. */
  lemma NextUndoesPrev(v: LightboxView)
    requires Coherent(v) && 0 < v.index
    ensures NextPhoto(PrevPhoto(v)) == v
  {
  }

  /** With the lightbox closed, `nextPhoto` opens the first photo (the swipe and tap paths can reach it). */
  lemma NextFromClosedOpensFirst(v: LightboxView)
    requires Coherent(v) && v.index == -1 && |v.photos| > 0
    ensures NextPhoto(v).index == 0 && NextPhoto(v).active
  {
  }

  /** Arrow keys never leave the list, however many are pressed. */
  lemma {:induction false} KeysStayInList(v: LightboxView, keys: seq<string>)
    requires Coherent(v)
    ensures Coherent(Keys(v, keys))
    ensures Keys(v, keys).photos == v.photos
    decreases |keys|
  {
    if keys != [] {
      KeysStayInList(KeyDown(v, keys[0]), keys[1..]);
    }
  }

  /** The state after a run of keydown events. */
  function Keys(v: LightboxView, keys: seq<string>): LightboxView
    decreases |keys|
  {
    if keys == [] then v else Keys(KeyDown(v, keys[0]), keys[1..])
  }

  /** `allPhotos.findIndex(photo => photo.full_url === fullUrl)`. */
  method FindIndex(photos: seq<PhotoEntry>, fullUrl: string) returns (i: int)
    ensures -1 <= i < |photos|
    ensures i >= 0 ==> photos[i].fullUrl == fullUrl && forall k :: 0 <= k < i ==> photos[k].fullUrl != fullUrl
    ensures i == -1 ==> forall k :: 0 <= k < |photos| ==> photos[k].fullUrl != fullUrl
  {
    var k := 0;
    while k < |photos|
      invariant 0 <= k <= |photos|
      invariant forall j :: 0 <= j < k ==> photos[j].fullUrl != fullUrl
    {
      if photos[k].fullUrl == fullUrl {
        return k;
      }
      k := k + 1;
    }
    return -1;
  }

  class Lightbox {
    var allPhotos: seq<PhotoEntry>
    var currentIndex: int
    var active: bool
    var imgSrc: string

    function View(): LightboxView
      reads this
    {
      LightboxView(allPhotos, currentIndex, active, imgSrc)
    }

    ghost predicate Valid()
      reads this
    {
      Coherent(View())
    }

    /** `initLightbox`: no photos yet, closed. */
    constructor ()
      ensures Valid() && View() == LightboxView([], -1, false, "")
    {
      allPhotos := [];
      currentIndex := -1;
      active := false;
      imgSrc := "";
    }

    /**
     * The list arrives once, from `/all_photos.json` or, if that fails, from the
     * cards on the page; until then no photo can be shown, so the lightbox is closed.
     */
    method SetPhotos(photos: seq<PhotoEntry>)
      requires Valid() && allPhotos == []
      modifies this
      ensures Valid() && View() == LightboxView(photos, -1, false, "")
    {
      allPhotos := photos;
    }

    method Show(index: int)
      requires Valid()
      modifies this
      ensures Valid() && View() == ShowPhoto(old(View()), index)
    {
      if index < 0 || index >= |allPhotos| {
        return;
      }
      currentIndex := index;
      imgSrc := allPhotos[index].fullUrl;
      active := true;
    }

    method Close()
      requires Valid()
      modifies this
      ensures Valid() && View() == CloseLightbox(old(View()))
    {
      active := false;
      imgSrc := "";
      currentIndex := -1;
    }

    method Prev()
      requires Valid()
      modifies this
      ensures Valid() && View() == PrevPhoto(old(View()))
    {
      if currentIndex > 0 {
        Show(currentIndex - 1);
      }
    }

    method Next()
      requires Valid()
      modifies this
      ensures Valid() && View() == NextPhoto(old(View()))
    {
      if currentIndex < |allPhotos| - 1 {
        Show(currentIndex + 1);
      }
    }

    method Key(key: string)
      requires Valid()
      modifies this
      ensures Valid() && View() == KeyDown(old(View()), key)
    {
      if !active {
        return;
      }
      if key == "ArrowLeft" {
        Prev();
      }
      if key == "ArrowRight" {
        Next();
      }
      if key == "Escape" {
        Close();
      }
    }

    /** A click on a card's image opens the photo whose full URL matches, if any. */
    method ClickCard(fullUrl: string)
      requires Valid()
      modifies this
      ensures Valid() && allPhotos == old(allPhotos)
      ensures (forall k :: 0 <= k < |allPhotos| ==> allPhotos[k].fullUrl != fullUrl) ==> View() == old(View())
      ensures forall k :: 0 <= k < |allPhotos| && allPhotos[k].fullUrl == fullUrl ==>
                currentIndex <= k && active && imgSrc == fullUrl
      ensures forall k :: 0 <= k < |allPhotos| && allPhotos[k].fullUrl == fullUrl
                          && (forall j :: 0 <= j < k ==> allPhotos[j].fullUrl != fullUrl) ==>
                View() == ShowPhoto(old(View()), k)
    {
      var index := FindIndex(allPhotos, fullUrl);
      if index != -1 {
        Show(index);
      }
    }

    /** A swipe's verdict acts through `prevPhoto` and `nextPhoto`. */
    method Swipe(action: SwipeAction)
      requires Valid()
      modifies this
      ensures Valid() && View() == ApplySwipe(old(View()), action)
    {
      match action
      case SwipePrev => Prev();
      case SwipeNext => Next();
      case NoSwipe =>
    }
  }

  // ---------------------------------------------------------------------------
  // Swipe (static/js/script.js:346-364)

  const SwipeThreshold: int := 50

  datatype SwipeAction = NoSwipe | SwipePrev | SwipeNext

  /** The touchend decision: at least 51 pixels of travel; rightwards is back, leftwards forward. */
  function SwipeDecision(startX: Option<int>, endX: int): (a: SwipeAction)
    ensures startX.None? ==> a == NoSwipe
    ensures startX.Some? ==> (a == SwipePrev <==> endX - startX.value > SwipeThreshold)
    ensures startX.Some? ==> (a == SwipeNext <==> endX - startX.value < -SwipeThreshold)
  {
    match startX
    case None => NoSwipe
    case Some(x) =>
      var diff := endX - x;
      if diff > SwipeThreshold || -diff > SwipeThreshold then
        if diff > 0 then SwipePrev else SwipeNext
      else NoSwipe
  }

  function ApplySwipe(v: LightboxView, action: SwipeAction): (r: LightboxView)
    ensures action == NoSwipe ==> r == v
    ensures action == SwipePrev ==> r == PrevPhoto(v)
    ensures action == SwipeNext ==> r == NextPhoto(v)
  {
    match action
    case NoSwipe => v
    case SwipePrev => PrevPhoto(v)
    case SwipeNext => NextPhoto(v)
  }

  /** Mirror-image swipes of the same length decide opposite ways, or both nothing. */
  lemma SwipeSymmetric(x: int, d: int)
    ensures SwipeDecision(Some(x), x + d) == SwipePrev <==> SwipeDecision(Some(x), x - d) == SwipeNext
    ensures SwipeDecision(Some(x), x + d) == NoSwipe <==> SwipeDecision(Some(x), x - d) == NoSwipe
  {
  }

  class SwipeTracker {
    var startX: Option<int>

    constructor ()
      ensures startX == None
    {
      startX := None;
    }

    /** touchstart: only a single finger starts a swipe; other touches leave `startX` as it was. */
    method TouchStart(touches: seq<int>)
      modifies this
      ensures |touches| == 1 ==> startX == Some(touches[0])
      ensures |touches| != 1 ==> startX == old(startX)
    {
      if |touches| == 1 {
        startX := Some(touches[0]);
      }
    }

    /** touchend: decide, and forget the start either way. */
    method TouchEnd(endX: int) returns (action: SwipeAction)
      modifies this
      ensures action == SwipeDecision(old(startX), endX)
      ensures startX == None
    {
      if startX == None {
        return NoSwipe;
      }
      var diff := endX - startX.value;
      action := NoSwipe;
      if diff > SwipeThreshold || -diff > SwipeThreshold {
        action := if diff > 0 then SwipePrev else SwipeNext;
      }
      startX := None;
    }
  }

  // ---------------------------------------------------------------------------
  // Infinite scroll (static/js/script.js:144-189)

  /** `loading`, `page` and `hasMore`, and the cards appended so far. */
  datatype ScrollState = ScrollState(loading: bool, page: nat, hasMore: bool, cards: seq<FeedItem>)

  /** Page 1 is rendered by the server; scrolling starts at page 2. */
  const InitialScroll: ScrollState := ScrollState(false, 2, true, [])

  /** What the `await`s produce: an error (network or JSON), or the decoded answer. */
  datatype FetchResult = FetchFailed | Fetched(photos: seq<FeedItem>, hasNext: bool)

  /** The synchronous start of `loadMore`: the page to request, if any. */
  function BeginLoad(s: ScrollState): (r: (Option<nat>, ScrollState))
    ensures s.loading || !s.hasMore ==> r == (None, s)
    ensures !s.loading && s.hasMore ==> r == (Some(s.page), s.(loading := true))
  {
    if s.loading || !s.hasMore then (None, s) else (Some(s.page), s.(loading := true))
  }

  /** The rest of `loadMore`, once the answer is in; `finally` always clears `loading`. */
  function EndLoad(s: ScrollState, result: FetchResult): (r: ScrollState)
    ensures !r.loading
    ensures result == FetchFailed ==> r == s.(loading := false)
    ensures result.Fetched? && result.photos != [] ==>
              r == ScrollState(false, s.page + 1, result.hasNext, s.cards + result.photos)
    ensures result.Fetched? && result.photos == [] ==> r == s.(loading := false, hasMore := false)
  {
    match result
    case FetchFailed => s.(loading := false)
    case Fetched(photos, hasNext) =>
      if |photos| > 0 then ScrollState(false, s.page + 1, hasNext, s.cards + photos)
      else s.(loading := false, hasMore := false)
  }

  /** `setupInfiniteScroll`'s closure: its three variables and the cards appended to the gallery. */
  class InfiniteScroll {
    var loading: bool
    var page: nat
    var hasMore: bool
    var cards: seq<FeedItem>

    function State(): ScrollState
      reads this
    {
      ScrollState(loading, page, hasMore, cards)
    }

    constructor ()
      ensures State() == InitialScroll
    {
      loading, page, hasMore, cards := false, 2, true, [];
    }

    /** `loadMore` up to its first `await`: the page to fetch, if a fetch starts. */
    method StartLoad() returns (request: Option<nat>)
      modifies this
      ensures (request, State()) == BeginLoad(old(State()))
    {
      if loading || !hasMore {
        return None;
      }
      loading := true;
      return Some(page);
    }

    /** `loadMore` after its `await`s, through the `finally` clause. */
    method FinishLoad(result: FetchResult)
      modifies this
      ensures State() == EndLoad(old(State()), result)
    {
      if result.Fetched? {
        if |result.photos| > 0 {
          cards := cards + result.photos;
          page := page + 1;
          hasMore := result.hasNext;
        } else {
          hasMore := false;
        }
      }
      loading := false;
    }
  }

  /** While a request is in flight, further scroll events do nothing. */
  lemma InFlightIgnoresScroll(s: ScrollState)
    requires !s.loading && s.hasMore
    ensures BeginLoad(BeginLoad(s).1) == (None, BeginLoad(s).1)
  {
  }

  /** The feed entries of page `p`, as the server lists them. */
  function PageEntries(records: seq<Record>, p: nat, mediaUrl: string): (r: seq<FeedItem>)
    requires 1 <= p <= NumPages(|records|)
    ensures |r| == |PageItems(records, p)|
  {
    FeedItemsOf(PageItems(records, p), mediaUrl)
  }

  /**
   * The server's answer to `?page=<page>` with the AJAX header over the
   * newest-first feed `records`: that page's entries and whether another follows,
   * or an empty list when no such page exists.
   */
  function ServerReply(records: seq<Record>, page: nat, mediaUrl: string): FetchResult {
    if 1 <= page <= NumPages(|records|)
    then Fetched(PageEntries(records, page, mediaUrl), page < NumPages(|records|))
    else Fetched([], false)
  }

  /**
   * That answer is the one `index` builds: the number the script sends, written in
   * decimal, is parsed back, and an AJAX request past the last page gets an empty list.
   */
  lemma ServerReplyIsIndex(records: seq<Record>, page: nat, mediaUrl: string)
    ensures ServerReply(records, page, mediaUrl)
            == match ChoosePage(Given(Digits(page)), |records|, true)
               case EmptyForAjax => Fetched([], false)
               case Serve(n) => Fetched(FeedItemsOf(PageItems(records, n), mediaUrl), HasNext(n, |records|))
  {
    ParseDigits(page);
  }

  /** `rounds` scroll events, each answered by the server before the next. */
  function Scroll(records: seq<Record>, s: ScrollState, mediaUrl: string, rounds: nat): ScrollState
    decreases rounds
  {
    if rounds == 0 then s
    else
      var (request, waiting) := BeginLoad(s);
      var next := if request.Some? then EndLoad(waiting, ServerReply(records, request.value, mediaUrl)) else s;
      Scroll(records, next, mediaUrl, rounds - 1)
  }

  /** A page between 2 and the last is non-empty, and the server answers it in full. */
  lemma ReplyForPage(records: seq<Record>, p: nat, mediaUrl: string)
    requires 2 <= p <= NumPages(|records|)
    ensures PageStart(p) < |records|
    ensures PageItems(records, p) != []
    ensures ServerReply(records, p, mediaUrl)
            == Fetched(PageEntries(records, p, mediaUrl), p < NumPages(|records|))
  {
    assert |PageItems(records, p)| > 0 by {
      assert PageItems(records, p)[0] == records[PageStart(p)];
    }
  }

  /** One round from a state that may load page `p`. */
  lemma RoundAt(records: seq<Record>, p: nat, cards: seq<FeedItem>, mediaUrl: string, rounds: nat)
    requires 2 <= p <= NumPages(|records|) && rounds > 0
    ensures Scroll(records, ScrollState(false, p, true, cards), mediaUrl, rounds)
            == Scroll(records, ScrollState(false, p + 1, p < NumPages(|records|),
                                           cards + PageEntries(records, p, mediaUrl)),
                      mediaUrl, rounds - 1)
  {
    var s := ScrollState(false, p, true, cards);
    ReplyForPage(records, p, mediaUrl);
    var reply := ServerReply(records, p, mediaUrl);
    assert reply.photos != [];
    assert BeginLoad(s) == (Some(p), s.(loading := true));
    assert EndLoad(s.(loading := true), reply)
           == ScrollState(false, p + 1, p < NumPages(|records|), cards + PageEntries(records, p, mediaUrl));
  }

  /** The feed entries from the start of page `p` on. */
  function EntriesFrom(records: seq<Record>, p: nat, mediaUrl: string): (r: seq<FeedItem>)
    requires 1 <= p <= NumPages(|records|)
    ensures |r| == |records| - PageStart(p)
  {
    FeedItemsOf(records[PageStart(p)..], mediaUrl)
  }

  /** The entries from page `p` on are page `p`'s, then those from page `p + 1` on. */
  lemma SuffixEntries(records: seq<Record>, p: nat, mediaUrl: string)
    requires 2 <= p < NumPages(|records|)
    ensures EntriesFrom(records, p, mediaUrl)
            == PageEntries(records, p, mediaUrl) + EntriesFrom(records, p + 1, mediaUrl)
  {
    assert PageStart(p + 1) == PageStart(p) + 12;
    assert records[PageStart(p)..] == PageItems(records, p) + records[PageStart(p + 1)..];
    FeedItemsOfConcat(PageItems(records, p), records[PageStart(p + 1)..], mediaUrl);
  }

  /**
   * From page `p`, `rounds` scroll events append every entry from that page's
   * start on to `cards`, and leave nothing more to load.
   */
  predicate ScrollsToEnd(records: seq<Record>, p: nat, cards: seq<FeedItem>, mediaUrl: string, rounds: nat)
    requires 1 <= p <= NumPages(|records|)
  {
    Scroll(records, ScrollState(false, p, true, cards), mediaUrl, rounds)
    == ScrollState(false, NumPages(|records|) + 1, false, cards + EntriesFrom(records, p, mediaUrl))
  }

  /** Loading the last page ends the scroll with that page's entries appended. */
  lemma ScrollLast(records: seq<Record>, p: nat, cards: seq<FeedItem>, mediaUrl: string, rounds: nat)
    requires 2 <= p == NumPages(|records|) && rounds > 0
    ensures ScrollsToEnd(records, p, cards, mediaUrl, rounds)
  {
    LastPageIsRest(records, p);
    RoundAt(records, p, cards, mediaUrl, rounds);
    Quiet(records, ScrollState(false, p + 1, false, cards + PageEntries(records, p, mediaUrl)), mediaUrl, rounds - 1);
  }

  /** The last page holds every entry from its start on. */
  lemma LastPageIsRest<T>(items: seq<T>, p: nat)
    requires 1 <= p == NumPages(|items|)
    ensures PageStart(p) <= |items| && items[PageStart(p)..] == PageItems(items, p)
  {
  }

  /** One round below the last page, given how the scroll goes on from the next page. */
  lemma ScrollStep(records: seq<Record>, p: nat, cards: seq<FeedItem>, mediaUrl: string, rounds: nat)
    requires 2 <= p < NumPages(|records|) && rounds > 0
    requires ScrollsToEnd(records, p + 1, cards + PageEntries(records, p, mediaUrl), mediaUrl, rounds - 1)
    ensures ScrollsToEnd(records, p, cards, mediaUrl, rounds)
  {
    var page := PageEntries(records, p, mediaUrl);
    var rest := EntriesFrom(records, p + 1, mediaUrl);
    RoundAt(records, p, cards, mediaUrl, rounds);
    SuffixEntries(records, p, mediaUrl);
    assert cards + page + rest == cards + (page + rest);
  }

  lemma {:induction false} ScrollFrom(records: seq<Record>, p: nat, cards: seq<FeedItem>, mediaUrl: string, rounds: nat)
    requires 2 <= p <= NumPages(|records|)
    requires rounds >= NumPages(|records|) - p + 1
    ensures ScrollsToEnd(records, p, cards, mediaUrl, rounds)
    decreases rounds, 1
  {
    if p == NumPages(|records|) {
      ScrollLast(records, p, cards, mediaUrl, rounds);
    } else {
      ScrollFromBelowLast(records, p, cards, mediaUrl, rounds);
    }
  }

  /** The inductive step of `ScrollFrom`: a page below the last, then the rest. */
  lemma {:induction false} ScrollFromBelowLast(records: seq<Record>, p: nat, cards: seq<FeedItem>, mediaUrl: string, rounds: nat)
    requires 2 <= p < NumPages(|records|)
    requires rounds >= NumPages(|records|) - p + 1
    ensures ScrollsToEnd(records, p, cards, mediaUrl, rounds)
    decreases rounds, 0
  {
    var next := cards + PageEntries(records, p, mediaUrl);
    ScrollFrom(records, p + 1, next, mediaUrl, rounds - 1);
    ScrollStep(records, p, cards, mediaUrl, rounds);
  }

  /** With nothing more to load, scroll events change nothing. */
  lemma {:induction false} Quiet(records: seq<Record>, s: ScrollState, mediaUrl: string, rounds: nat)
    requires !s.hasMore
    ensures Scroll(records, s, mediaUrl, rounds) == s
    decreases rounds
  {
    if rounds > 0 {
      Quiet(records, s, mediaUrl, rounds - 1);
    }
  }

  /**
   * Scrolling to the end shows every photo beyond the first page exactly once, in
   * feed order, and then stops asking: one round per page suffices.
   */
  lemma InfiniteScrollShowsEachPhotoOnce(records: seq<Record>, mediaUrl: string)
    ensures var done := Scroll(records, InitialScroll, mediaUrl, NumPages(|records|));
            var firstPage := if |records| < 12 then |records| else 12;
            && !done.hasMore && !done.loading
            && done.cards == FeedItemsOf(records[firstPage..], mediaUrl)
  {
    var n := NumPages(|records|);
    if n == 1 {
      var after := EndLoad(InitialScroll.(loading := true), Fetched([], false));
      Quiet(records, after, mediaUrl, n - 1);
      assert records[|records|..] == [];
    } else {
      ScrollFrom(records, 2, [], mediaUrl, n);
    }
  }

  // ---------------------------------------------------------------------------
  // The upload form (static/js/script.js:191-284)

  /** A browser `File`: its name and size in bytes. */
  datatype ClientFile = ClientFile(name: string, size: nat)

  const ClientLimit: nat := 100 * 1024 * 1024

  /** `files.filter(f => f.size <= 100 * 1024 * 1024)`. */
  function Fitting(files: seq<ClientFile>): (r: seq<ClientFile>)
    ensures forall k :: 0 <= k < |r| ==> r[k].size <= ClientLimit
    ensures |r| <= |files|
    decreases |files|
  {
    if files == [] then []
    else Fitting(files[..|files| - 1]) + (if files[|files| - 1].size <= ClientLimit then [files[|files| - 1]] else [])
  }

  /** `files.filter(f => f.size > 100 * 1024 * 1024)`, for the alert. */
  function Oversized(files: seq<ClientFile>): (r: seq<ClientFile>)
    ensures forall k :: 0 <= k < |r| ==> r[k].size > ClientLimit
    decreases |files|
  {
    if files == [] then []
    else Oversized(files[..|files| - 1]) + (if files[|files| - 1].size > ClientLimit then [files[|files| - 1]] else [])
  }

  /** The filter keeps order: filtering a concatenation filters each part. */
  lemma {:induction false} FittingConcat(a: seq<ClientFile>, b: seq<ClientFile>)
    ensures Fitting(a + b) == Fitting(a) + Fitting(b)
    decreases |b|
  {
    if b != [] {
      var b' := b[..|b| - 1];
      assert (a + b)[..|a + b| - 1] == a + b';
      FittingConcat(a, b');
    } else {
      assert a + b == a;
    }
  }

  /** Every chosen file is either kept or reported, never both and never lost. */
  lemma {:induction false} FittingAndOversizedPartition(files: seq<ClientFile>)
    ensures multiset(Fitting(files)) + multiset(Oversized(files)) == multiset(files)
    decreases |files|
  {
    if files != [] {
      var init := files[..|files| - 1];
      FittingAndOversizedPartition(init);
      assert files == init + [files[|files| - 1]];
    }
  }

  /** The browser's limit is the server's default limit: a file it keeps passes `validate_file_size`. */
  lemma ClientLimitIsServerDefault(size: nat)
    ensures size <= ClientLimit <==> ValidateFileSize(size, None) == Pass
  {
  }

  /** `selectedFiles.splice(i, 1)`: element `i` goes, the rest keep their order. */
  function Splice<T>(s: seq<T>, i: nat): (r: seq<T>)
    ensures i >= |s| ==> r == s
    ensures i < |s| ==> |r| == |s| - 1
    ensures i < |s| ==> forall k :: 0 <= k < |r| ==> r[k] == if k < i then s[k] else s[k + 1]
  {
    if i < |s| then s[..i] + s[i + 1..] else s
  }

  /** Removing a preview takes exactly that one file out of the selection. */
  lemma SpliceRemovesOne<T>(s: seq<T>, i: nat)
    requires i < |s|
    ensures multiset(Splice(s, i)) + multiset{s[i]} == multiset(s)
  {
    assert s == s[..i] + [s[i]] + s[i + 1..];
  }

  class UploadForm {
    var selectedFiles: seq<ClientFile>
    var submitDisabled: bool

    /** `initUploadForm`: nothing chosen, submit disabled. */
    constructor ()
      ensures selectedFiles == [] && submitDisabled
    {
      selectedFiles := [];
      submitDisabled := true;
    }

    /** `processFiles`, through the preview rendering that sets the submit button. */
    method ProcessFiles(files: seq<ClientFile>) returns (rejected: seq<ClientFile>)
      modifies this
      ensures selectedFiles == old(selectedFiles) + Fitting(files)
      ensures rejected == Oversized(files)
      ensures submitDisabled <==> selectedFiles == []
    {
      rejected := Oversized(files);
      selectedFiles := selectedFiles + Fitting(files);
      submitDisabled := |selectedFiles| == 0;
    }

    /** The remove button of preview `i`, then the re-render. */
    method RemovePreview(i: nat)
      modifies this
      ensures selectedFiles == Splice(old(selectedFiles), i)
      ensures submitDisabled <==> selectedFiles == []
    {
      if i < |selectedFiles| {
        selectedFiles := selectedFiles[..i] + selectedFiles[i + 1..];
      }
      submitDisabled := |selectedFiles| == 0;
    }
  }

  /** The header the browser sends on its fetches is the one `is_ajax` reads. */
  lemma FetchHeaderIsAjax()
    ensures IsAjax(map[MetaKey("X-Requested-With") := "XMLHttpRequest"])
  {
    MetaNameOfParts();
    assert "HTTP_" + ("X_" + "REQUESTED_" + "WITH") == AjaxHeader;
  }

  /** HTTP header names are case-insensitive: a client sending `x-requested-with` is recognised too. */
  lemma LowerCaseFetchHeaderIsAjax()
    ensures IsAjax(map[MetaKey("x-requested-with") := "XMLHttpRequest"])
  {
    assert MetaKey("x-requested-with") == MetaKey("X-Requested-With") by {
      LowerOfFetchHeader();
      MetaNameIgnoresCase("X-Requested-With");
    }
    FetchHeaderIsAjax();
  }

  lemma LowerOfFetchHeader()
    ensures Lower("X-Requested-With") == "x-requested-with"
  {
    var l := Lower("X-Requested-With");
    assert l[0] == 'x' && l[1] == '-' && l[2] == 'r' && l[3] == 'e' && l[4] == 'q' && l[5] == 'u';
    assert l[6] == 'e' && l[7] == 's' && l[8] == 't' && l[9] == 'e' && l[10] == 'd' && l[11] == '-';
    assert l[12] == 'w' && l[13] == 'i' && l[14] == 't' && l[15] == 'h';
  }

  lemma MetaNameOfParts()
    ensures MetaName("X-Requested-With") == "X_" + "REQUESTED_" + "WITH"
  {
    MetaNameOfX();
    MetaNameOfRequested();
    MetaNameOfWith();
    MetaNameConcat("X-", "Requested-");
    MetaNameConcat("X-Requested-", "With");
    assert "X-" + "Requested-" == "X-Requested-";
    assert "X-Requested-" + "With" == "X-Requested-With";
  }

  lemma MetaNameOfX()
    ensures MetaName("X-") == "X_"
  {
    var n := MetaName("X-");
    assert n[0] == 'X' && n[1] == '_';
  }

  lemma MetaNameOfRequested()
    ensures MetaName("Requested-") == "REQUESTED_"
  {
    var n := MetaName("Requested-");
    assert n[1] == 'E' && n[2] == 'Q' && n[3] == 'U' && n[4] == 'E';
    assert n[5] == 'S' && n[6] == 'T' && n[7] == 'E' && n[8] == 'D' && n[9] == '_';
  }

  lemma MetaNameOfWith()
    ensures MetaName("With") == "WITH"
  {
    var n := MetaName("With");
    assert n[1] == 'I' && n[2] == 'T' && n[3] == 'H';
  }
}
