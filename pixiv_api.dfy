/**
 * The Pixiv API as both collection classes see it, treated as an oracle:
 * what `illust_detail` answers, what each download attempt leaves on disk,
 * and what each bookmark listing request returns. The retry loop of
 * `__get_illust_info` is the same in both classes and is modelled once here.
 */
module PixivApi {
  import opened Wrappers
  import Strings
  import Numerals

  /** `MAX_RETRY`: exceptions tolerated after the first attempt. */
  const MaxRetry: nat := 3

  /** Delay between API calls; `time.sleep` is not modelled. */
  const WaitTime: real := 1.5

  datatype User = User(id: int, name: string, account: string)

  /** A tag as the API returns it (`{name, translated_name}`). */
  datatype Tag = Tag(name: string, translatedName: Option<string>)

  /** The `illust` payload of an `illust_detail` reply. */
  datatype Illust = Illust(
    title: string,
    user: User,
    tags: seq<Tag>,
    createDate: string,
    sanityLevel: int,
    xRestrict: int,
    totalBookmarks: int,
    totalView: int)

  /**
   * One `illust_detail` call: a reply carrying `illust`, a reply carrying
   * `error` (the item is gone or hidden), or an exception (network, timeout).
   */
  datatype Reply = Detail(illust: Illust) | Rejected(message: string) | Raised

  /** The reply to the `call`-th (0-based) `illust_detail(id)` of one lookup. */
  type Details = (int, nat) -> Reply

  /** What a lookup ends with, and how many calls it made in all. */
  datatype Fetch = Fetch(illust: Option<Illust>, calls: nat)

  /**
   * The retry loop of `__get_illust_info` from attempt `retry` on: an
   * `illust` ends it with success, an `error` ends it at once with None, an
   * exception counts one retry; after `MaxRetry` retries the lookup gives
   * None. `calls` counts every call made since the first.
   */
  function Fetching(details: Details, id: int, retry: nat): Fetch
    decreases MaxRetry + 1 - retry
  {
    if retry > MaxRetry then Fetch(None, retry)
    else match details(id, retry)
      case Detail(illust) => Fetch(Some(illust), retry + 1)
      case Rejected(_) => Fetch(None, retry + 1)
      case Raised => Fetching(details, id, retry + 1)
  }

  /** `__cache` holds only what a lookup of its key would give. */
  ghost predicate Cached(details: Details, cache: map<int, Illust>) {
    forall id :: id in cache ==> Fetching(details, id, 0).illust == Some(cache[id])
  }

  /** The loop of `__get_illust_info` (without its cache), call by call. */
  method FetchIllust(details: Details, id: int) returns (illust: Option<Illust>, calls: nat)
    ensures Fetch(illust, calls) == Fetching(details, id, 0)
  {
    var retry := 0;
    var success := false;
    illust := None;
    calls := 0;
    while !success && retry <= MaxRetry
      invariant retry <= MaxRetry + 1
      invariant !success ==> calls == retry && illust == None
      invariant !success ==> Fetching(details, id, 0) == Fetching(details, id, retry)
      invariant success ==> Fetching(details, id, 0) == Fetch(illust, calls)
      decreases MaxRetry + 1 - retry, if success then 0 else 1
    {
      var reply := details(id, calls);
      calls := calls + 1;
      match reply {
        case Rejected(_) =>
          return None, calls;
        case Detail(i) =>
          illust := Some(i);
          success := true;
        case Raised =>
          retry := retry + 1;
      }
    }
  }

  /** A lookup makes at least one call and at most `MaxRetry + 1`. */
  lemma {:induction false} FetchingBounded(details: Details, id: int, retry: nat)
    requires retry <= MaxRetry + 1
    ensures retry <= Fetching(details, id, retry).calls <= MaxRetry + 1
    ensures retry <= MaxRetry ==> Fetching(details, id, retry).calls > retry
    decreases MaxRetry + 1 - retry
  {
    if retry <= MaxRetry && details(id, retry).Raised? {
      FetchingBounded(details, id, retry + 1);
    }
  }

  /** Every call before the last one raised. */
  ghost predicate RaisedBefore(details: Details, id: int, k: nat) {
    forall j :: 0 <= j < k ==> details(id, j) == Raised
  }

  /**
   * A lookup succeeds exactly when some call within the retry budget
   * returns the illustration and every earlier call raised; it then stops.
   */
  lemma {:induction false} FetchingSucceeds(details: Details, id: int, retry: nat, illust: Illust)
    requires retry <= MaxRetry + 1 && RaisedBefore(details, id, retry)
    ensures Fetching(details, id, retry).illust == Some(illust) <==>
      exists k :: retry <= k <= MaxRetry && details(id, k) == Detail(illust) &&
        RaisedBefore(details, id, k) && Fetching(details, id, retry).calls == k + 1
    decreases MaxRetry + 1 - retry
  {
    if retry <= MaxRetry {
      match details(id, retry)
      case Detail(i) =>
        if Fetching(details, id, retry).illust == Some(illust) {
          assert details(id, retry) == Detail(illust);
        }
      case Rejected(_) =>
      case Raised =>
        FetchingSucceeds(details, id, retry + 1, illust);
        assert RaisedBefore(details, id, retry + 1);
    }
  }

  /** An `error` reply ends the lookup with None; nothing is retried after it. */
  lemma {:induction false} RejectedIsFinal(details: Details, id: int, k: nat, retry: nat)
    requires retry <= k <= MaxRetry && details(id, k).Rejected?
    requires forall j :: retry <= j < k ==> details(id, j) == Raised
    ensures Fetching(details, id, retry) == Fetch(None, k + 1)
    decreases k - retry
  {
    if retry < k {
      RejectedIsFinal(details, id, k, retry + 1);
    }
  }

  /** Exceptions on every attempt are absorbed: the lookup gives None after four calls. */
  lemma {:induction false} RetriesExhausted(details: Details, id: int, retry: nat)
    requires retry <= MaxRetry + 1
    requires forall j :: retry <= j <= MaxRetry ==> details(id, j) == Raised
    ensures Fetching(details, id, retry) == Fetch(None, MaxRetry + 1)
    decreases MaxRetry + 1 - retry
  {
    if retry <= MaxRetry {
      RetriesExhausted(details, id, retry + 1);
    }
  }

  /**
   * What one download attempt leaves behind: the file saved and readable as
   * an image, a partial or unreadable file after an exception, or nothing.
   */
  datatype Attempt = Saved | Partial | NoFile

  /** The outcome of the `attempt`-th (0-based) download of a URL. */
  type Downloads = (string, nat) -> Attempt

  /** `download_link.split("/")[-1]`: the name a download is saved under. */
  function FileNameOf(url: string): (name: string)
    ensures '/' !in name
  {
    Strings.LastPiece(url, '/')
  }

  /** A download's success and the number of attempts it took. */
  datatype Download = Download(success: bool, attempts: nat)

  /**
   * The loop of `collection.py`'s `__download_image` from attempt `retry`
   * on: it stops at the first attempt that saves a readable image and gives
   * up once four attempts (`retry <= 3`) have failed.
   */
  function Downloading(downloads: Downloads, url: string, retry: nat): Download
    decreases 4 - retry
  {
    if retry > 3 then Download(false, retry)
    else if downloads(url, retry) == Saved then Download(true, retry + 1)
    else Downloading(downloads, url, retry + 1)
  }

  /** At most four attempts; success exactly when one of them saved the image. */
  lemma {:induction false} DownloadingBounded(downloads: Downloads, url: string, retry: nat)
    requires retry <= 4
    ensures Downloading(downloads, url, retry).attempts <= 4
    ensures Downloading(downloads, url, retry).success <==>
      exists k :: retry <= k <= 3 && downloads(url, k) == Saved
    ensures !Downloading(downloads, url, retry).success ==> Downloading(downloads, url, retry).attempts == 4
    decreases 4 - retry
  {
    if retry <= 3 && downloads(url, retry) != Saved {
      DownloadingBounded(downloads, url, retry + 1);
      if exists k :: retry <= k <= 3 && downloads(url, k) == Saved {
        var k :| retry <= k <= 3 && downloads(url, k) == Saved;
        assert k != retry;
      }
    }
  }

  /** One bookmarked illustration as `user_bookmarks_illust` lists it. */
  datatype Bookmark = Bookmark(
    id: int,
    visible: bool,
    pageCount: int,
    singleUrl: string,
    pageUrls: seq<string>)

  /** One page of bookmarks and the `next_url` of the following page, if any. */
  datatype BookmarkPage = BookmarkPage(illusts: seq<Bookmark>, nextUrl: Option<string>)

  /**
   * The listing request for a user and visibility: None asks for the first
   * page (`user_bookmarks_illust(user_id, restrict=type)`), Some(url) for
   * the page that `parse_qs(url)` names.
   */
  type Bookmarks = (int, string, Option<string>) -> BookmarkPage

  /** How often `while cur_page <= max_page` runs, starting from page 1. */
  function PageBudget(maxPage: int): nat {
    if maxPage < 1 then 0 else maxPage
  }

  /**
   * The pages the listing loop fetches as written: the next request uses the
   * last `next_url`, and once that is None the request falls back to the
   * first page, so up to `remaining` pages are fetched whatever the listing
   * holds.
   */
  function PagesAsWritten(bookmarks: Bookmarks, userId: int, restrict: string, next: Option<string>, remaining: nat): (pages: seq<BookmarkPage>)
    ensures |pages| == remaining
    decreases remaining
  {
    if remaining == 0 then []
    else
      var page := bookmarks(userId, restrict, next);
      [page] + PagesAsWritten(bookmarks, userId, restrict, page.nextUrl, remaining - 1)
  }

  /**
   * The pages the listing loop is meant to fetch: it follows `next_url` and
   * stops at `max_page` pages or at the page that has no `next_url`.
   */
  function Pages(bookmarks: Bookmarks, userId: int, restrict: string, next: Option<string>, remaining: nat): (pages: seq<BookmarkPage>)
    ensures |pages| <= remaining
    ensures remaining > 0 ==> |pages| >= 1 && pages[0] == bookmarks(userId, restrict, next)
    ensures forall i :: 0 <= i < |pages| - 1 ==> pages[i].nextUrl.Some?
    decreases remaining
  {
    if remaining == 0 then []
    else
      var page := bookmarks(userId, restrict, next);
      if page.nextUrl.None? then [page]
      else [page] + Pages(bookmarks, userId, restrict, page.nextUrl, remaining - 1)
  }

  /**
   * A user whose bookmarks fit on one page, asked for two pages: the loop as
   * written fetches the first page twice, the intended one once.
   */
  lemma OnePageListingFetchedTwice(bookmarks: Bookmarks, userId: int, restrict: string)
    requires bookmarks(userId, restrict, None).nextUrl.None?
    ensures PagesAsWritten(bookmarks, userId, restrict, None, 2) ==
      [bookmarks(userId, restrict, None), bookmarks(userId, restrict, None)]
    ensures Pages(bookmarks, userId, restrict, None, 2) == [bookmarks(userId, restrict, None)]
  {
  }

  /** Both loops fetch the same pages for as long as `next_url` is present. */
  lemma {:induction false} PagesArePrefix(bookmarks: Bookmarks, userId: int, restrict: string, next: Option<string>, remaining: nat)
    ensures var intended := Pages(bookmarks, userId, restrict, next, remaining);
      intended == PagesAsWritten(bookmarks, userId, restrict, next, remaining)[..|intended|]
    decreases remaining
  {
    if remaining > 0 {
      var page := bookmarks(userId, restrict, next);
      if page.nextUrl.Some? {
        PagesArePrefix(bookmarks, userId, restrict, page.nextUrl, remaining - 1);
      }
    }
  }

  /** `f"{id}_p{part}.webp"`: the name of a derivative image. */
  function DerivativeName(id: int, part: int): string {
    Numerals.Show(id) + "_p" + Numerals.Show(part) + ".webp"
  }

  /** What is built so far, regrouped after one more step of a loop that appends. */
  lemma AppendRegroup<T>(before: seq<T>, here: seq<T>, rest: seq<T>)
    ensures before + (here + rest) == (before + here) + rest
  {
  }

  /**
   * The display order key `id * 1000 + 999 - part`; sorted descending, it
   * puts ids in descending order and, within an id, parts ascending, for
   * every part below 1000.
   */
  function DisplayKey(id: int, part: int): int {
    id * 1000 + 999 - part
  }

  lemma DisplayKeyOrder(id1: int, part1: int, id2: int, part2: int)
    requires 0 <= part1 < 1000 && 0 <= part2 < 1000
    ensures DisplayKey(id1, part1) >= DisplayKey(id2, part2) <==>
      id1 > id2 || (id1 == id2 && part1 <= part2)
  {
  }
}
