/**
 * What the list-based `PixivCollection` of
 * `pixiv_collection/pixiv_collection.py` does, as functions of values: the
 * image list, the thumbnail and large directories (each name mapped to the
 * bounding box its image was made with), and one function per pass, with
 * the properties of each pass proved about it.
 */
module LegacyModel {
  import opened Wrappers
  import opened Sorting
  import opened PixivApi
  import CM = CollectionModel
  import Strings
  import Numerals

  /** `IMAGE_DELETED`: the placeholder the API returns for a deleted or hidden work. */
  const ImageDeleted: string := "https://s.pximg.net/common/images/limit_unknown_360.png"

  /** `THUMBNAIL_SIZE` and `LARGE_SIZE`: the bounding boxes of the two derivatives. */
  const ThumbnailSize: (int, int) := (500, 1000)
  const LargeSize: (int, int) := (2000, 2000)

  /** One element of `self.images`: one page of one illustration, with everything the list keeps about it. */
  datatype Entry = Entry(
    id: int,
    part: int,
    title: string,
    size: (int, int),
    ext: string,
    author: CM.AuthorData,
    tags: seq<Tag>,
    createdAt: string,
    sanityLevel: int,
    xRestrict: int,
    dominantColor: Option<string>)

  /** A derivative directory: each `{id}_p{part}.webp` there, with the bounding box it was made with. */
  type Derivatives = map<string, (int, int)>

  /** `f'{id}_p{part}.{ext}'`: the entry's original. */
  function FileName(e: Entry): string {
    CM.OriginalName(e.id, e.part, e.ext)
  }

  /** `f'{id}_p{part}.webp'`: the entry's thumbnail and large image. */
  function WebpName(e: Entry): string {
    DerivativeName(e.id, e.part)
  }

  // ---------------------------------------------------------------------
  // __filter_images_sl and save

  /** The entries `keep` accepts, in order: a list comprehension with a condition. */
  function Filter(images: seq<Entry>, keep: Entry -> bool): (r: seq<Entry>)
    ensures |r| <= |images|
    decreases |images|
  {
    if images == [] then []
    else
      var last := images[|images| - 1];
      Filter(images[..|images| - 1], keep) + (if keep(last) then [last] else [])
  }

  /** Exactly the accepted entries are kept. */
  lemma {:induction false} FilterMembers(images: seq<Entry>, keep: Entry -> bool, e: Entry)
    ensures e in Filter(images, keep) <==> e in images && keep(e)
    decreases |images|
  {
    if images != [] {
      var init := images[..|images| - 1];
      FilterMembers(init, keep, e);
      assert images == init + [images[|images| - 1]];
    }
  }

  /** Filtering a concatenation filters each part: the order of the list is kept. */
  lemma {:induction false} FilterConcat(a: seq<Entry>, b: seq<Entry>, keep: Entry -> bool)
    ensures Filter(a + b, keep) == Filter(a, keep) + Filter(b, keep)
    decreases |b|
  {
    if b == [] {
      assert a + b == a;
    } else {
      var init := b[..|b| - 1];
      FilterConcat(a, init, keep);
      assert (a + b)[..|a + b| - 1] == a + init;
      assert (a + b)[|a + b| - 1] == b[|b| - 1];
    }
  }

  /** A list all of whose entries are accepted is kept whole. */
  lemma {:induction false} FilterAll(images: seq<Entry>, keep: Entry -> bool)
    requires forall e :: e in images ==> keep(e)
    ensures Filter(images, keep) == images
    decreases |images|
  {
    if images != [] {
      var init := images[..|images| - 1];
      assert images[|images| - 1] in images;
      assert forall e :: e in init ==> e in images;
      FilterAll(init, keep);
      assert init + [images[|images| - 1]] == images;
    }
  }

  /** The filter over one more entry of a prefix. */
  lemma FilterSnoc(images: seq<Entry>, i: nat, keep: Entry -> bool)
    requires i < |images|
    ensures Filter(images[..i + 1], keep) == Filter(images[..i], keep) + (if keep(images[i]) then [images[i]] else [])
  {
    assert images[..i + 1][..i] == images[..i];
  }

  /** `[image for image in images if image['sanity_level'] <= max_sanity_level]`. */
  function FilterSl(images: seq<Entry>, maxSl: int): seq<Entry> {
    Filter(images, (e: Entry) => e.sanityLevel <= maxSl)
  }

  /** The filter keeps exactly the entries at or below the level, in their order. */
  lemma FilterSlMembers(images: seq<Entry>, maxSl: int, e: Entry)
    ensures e in FilterSl(images, maxSl) <==> e in images && e.sanityLevel <= maxSl
    ensures forall b :: FilterSl(images + b, maxSl) == FilterSl(images, maxSl) + FilterSl(b, maxSl)
  {
    FilterMembers(images, (e: Entry) => e.sanityLevel <= maxSl, e);
    forall b ensures FilterSl(images + b, maxSl) == FilterSl(images, maxSl) + FilterSl(b, maxSl) {
      FilterConcat(images, b, (e: Entry) => e.sanityLevel <= maxSl);
    }
  }

  /** What `save` writes: the whole list for `-1`, otherwise the filtered list. */
  function Saved(images: seq<Entry>, filterMaxSl: int): seq<Entry> {
    if filterMaxSl != -1 then FilterSl(images, filterMaxSl) else images
  }

  /** `-1` writes everything; any other level writes exactly the entries at or below it. */
  lemma SavedContents(images: seq<Entry>, filterMaxSl: int, e: Entry)
    ensures filterMaxSl == -1 ==> Saved(images, filterMaxSl) == images
    ensures filterMaxSl != -1 ==> (e in Saved(images, filterMaxSl) <==> e in images && e.sanityLevel <= filterMaxSl)
  {
    FilterSlMembers(images, filterMaxSl, e);
  }

  // ---------------------------------------------------------------------
  // __sort_images

  /** The sort key `id * 1000 + 999 - part`. */
  function EntryKey(e: Entry): int {
    DisplayKey(e.id, e.part)
  }

  /**
   * `self.images.sort(key=..., reverse=True)`: ids descending and, within an
   * id, parts ascending, as long as every part is below 1000.
   */
  lemma SortedImagesOrder(images: seq<Entry>, i: int, j: int)
    requires forall e :: e in images ==> 0 <= e.part < 1000
    requires 0 <= i < j < |images|
    ensures var r := SortDesc(images, EntryKey);
      |r| == |images| && (r[i].id > r[j].id || (r[i].id == r[j].id && r[i].part <= r[j].part))
  {
    var r := SortDesc(images, EntryKey);
    assert |r| == |multiset(r)| == |multiset(images)| == |images|;
    assert r[i] in multiset(r) && r[j] in multiset(r);
    assert r[i] in images && r[j] in images;
    DisplayKeyOrder(r[i].id, r[i].part, r[j].id, r[j].part);
  }

  // ---------------------------------------------------------------------
  // __download_image and download_bookmark

  /**
   * The original directory after `__download_image` as written: one attempt,
   * whose leftovers are removed when it fails.
   */
  function AfterAttempt(originals: set<string>, url: string, downloads: Downloads): set<string> {
    if downloads(url, 0) == Attempt.Saved then originals + {FileNameOf(url)} else originals - {FileNameOf(url)}
  }

  /** Every queued URL tried once, in order. */
  function AfterAttempts(originals: set<string>, urls: seq<string>, downloads: Downloads): set<string>
    decreases |urls|
  {
    if urls == [] then originals else AfterAttempts(AfterAttempt(originals, urls[0], downloads), urls[1..], downloads)
  }

  /** The queued URLs whose one attempt failed, in order. */
  function FailedAttempts(urls: seq<string>, downloads: Downloads): seq<string>
    decreases |urls|
  {
    if urls == [] then []
    else (if downloads(urls[0], 0) == Attempt.Saved then [] else [urls[0]]) + FailedAttempts(urls[1..], downloads)
  }

  /** Exactly the URLs whose attempt did not save the file are reported. */
  lemma {:induction false} FailedAttemptsMembers(urls: seq<string>, downloads: Downloads, u: string)
    ensures u in FailedAttempts(urls, downloads) <==> u in urls && downloads(u, 0) != Attempt.Saved
    decreases |urls|
  {
    if urls != [] {
      FailedAttemptsMembers(urls[1..], downloads, u);
      assert urls == [urls[0]] + urls[1..];
    }
  }

  /**
   * With distinct file names every URL's file is on disk afterwards exactly
   * when its attempt saved it, and every other file is untouched.
   */
  lemma {:induction false} AfterAttemptsFiles(originals: set<string>, urls: seq<string>, downloads: Downloads)
    requires forall i, j :: 0 <= i < j < |urls| ==> FileNameOf(urls[i]) != FileNameOf(urls[j])
    ensures forall i :: 0 <= i < |urls| ==>
      (FileNameOf(urls[i]) in AfterAttempts(originals, urls, downloads) <==> downloads(urls[i], 0) == Attempt.Saved)
    ensures forall n :: (forall u :: u in urls ==> FileNameOf(u) != n) ==>
      (n in AfterAttempts(originals, urls, downloads) <==> n in originals)
    decreases |urls|
  {
    if urls != [] {
      var next := AfterAttempt(originals, urls[0], downloads);
      AfterAttemptsFiles(next, urls[1..], downloads);
      forall i | 0 <= i < |urls|
        ensures FileNameOf(urls[i]) in AfterAttempts(originals, urls, downloads) <==> downloads(urls[i], 0) == Attempt.Saved
      {
        if i == 0 {
          forall u | u in urls[1..] ensures FileNameOf(u) != FileNameOf(urls[0]) {
            var k :| 0 <= k < |urls[1..]| && urls[1..][k] == u;
            assert urls[k + 1] == u;
          }
        } else {
          assert urls[i] == urls[1..][i - 1];
        }
      }
      forall n | forall u :: u in urls ==> FileNameOf(u) != n
        ensures n in AfterAttempts(originals, urls, downloads) <==> n in originals
      {
        assert urls[0] in urls;
        assert forall u :: u in urls[1..] ==> u in urls;
      }
    }
  }

  /** Some page of a multi-page work is already on disk. */
  predicate AnyOnDisk(urls: seq<string>, originals: set<string>) {
    exists i :: 0 <= i < |urls| && FileNameOf(urls[i]) in originals
  }

  /**
   * What `download_bookmark` queues for one bookmark: a single page unless
   * it is the deleted placeholder or its file exists; all pages of a
   * multi-page work, but only when none of them exists.
   */
  function Wanted(item: Bookmark, originals: set<string>): seq<string> {
    if item.pageCount == 1 then
      if item.singleUrl == ImageDeleted || FileNameOf(item.singleUrl) in originals then []
      else [item.singleUrl]
    else if AnyOnDisk(item.pageUrls, originals) then []
    else item.pageUrls
  }

  function WantedOnPage(items: seq<Bookmark>, originals: set<string>): seq<string>
    decreases |items|
  {
    if items == [] then [] else Wanted(items[0], originals) + WantedOnPage(items[1..], originals)
  }

  /** The whole `download_list`, page after page. */
  function WantedAll(pages: seq<BookmarkPage>, originals: set<string>): seq<string>
    decreases |pages|
  {
    if pages == [] then [] else WantedOnPage(pages[0].illusts, originals) + WantedAll(pages[1..], originals)
  }

  /** One more page of the listing: its queue, then the queue of the pages after it. */
  lemma WantedAllStep(bookmarks: Bookmarks, userId: int, restrict: string, next: Option<string>, remaining: nat, originals: set<string>)
    requires remaining > 0
    ensures var page := bookmarks(userId, restrict, next);
      WantedAll(Pages(bookmarks, userId, restrict, next, remaining), originals) ==
        WantedOnPage(page.illusts, originals) +
        (if page.nextUrl.None? then [] else WantedAll(Pages(bookmarks, userId, restrict, page.nextUrl, remaining - 1), originals))
  {
    var page := bookmarks(userId, restrict, next);
    var pages := Pages(bookmarks, userId, restrict, next, remaining);
    if page.nextUrl.None? {
      assert pages == [page];
      assert pages[1..] == [];
    } else {
      assert pages[1..] == Pages(bookmarks, userId, restrict, page.nextUrl, remaining - 1);
    }
  }

  /** The listing loop after one more page: what is queued so far, and what is still to come. */
  lemma ListingStep(bookmarks: Bookmarks, userId: int, restrict: string, next: Option<string>, remaining: nat,
                    originals: set<string>, before: seq<string>, total: seq<string>)
    requires remaining > 0
    requires total == before + WantedAll(Pages(bookmarks, userId, restrict, next, remaining), originals)
    ensures var page := bookmarks(userId, restrict, next);
      var queued := before + WantedOnPage(page.illusts, originals);
      if page.nextUrl.None? then total == queued
      else total == queued + WantedAll(Pages(bookmarks, userId, restrict, page.nextUrl, remaining - 1), originals)
  {
    var page := bookmarks(userId, restrict, next);
    var here := WantedOnPage(page.illusts, originals);
    var rest := if page.nextUrl.None? then [] else WantedAll(Pages(bookmarks, userId, restrict, page.nextUrl, remaining - 1), originals);
    WantedAllStep(bookmarks, userId, restrict, next, remaining, originals);
    AppendRegroup(before, here, rest);
    if page.nextUrl.None? {
      assert here + [] == here;
    }
  }

  /**
   * A work is queued whole or not at all; nothing queued is on disk; the
   * deleted placeholder is never queued for a single-page work.
   */
  lemma WantedItem(item: Bookmark, originals: set<string>)
    ensures Wanted(item, originals) == [] || Wanted(item, originals) == CM.UrlsOf(item)
    ensures forall u :: u in Wanted(item, originals) ==> FileNameOf(u) !in originals
    ensures item.pageCount == 1 ==> ImageDeleted !in Wanted(item, originals)
  {
    if item.pageCount != 1 && !AnyOnDisk(item.pageUrls, originals) {
      forall u | u in item.pageUrls ensures FileNameOf(u) !in originals {
        var i :| 0 <= i < |item.pageUrls| && item.pageUrls[i] == u;
      }
    }
  }

  lemma {:induction false} WantedOnPageMembers(items: seq<Bookmark>, originals: set<string>, url: string)
    ensures url in WantedOnPage(items, originals) <==> exists i :: 0 <= i < |items| && url in Wanted(items[i], originals)
    decreases |items|
  {
    if items != [] {
      WantedOnPageMembers(items[1..], originals, url);
      if exists i :: 0 <= i < |items| && url in Wanted(items[i], originals) {
        var i :| 0 <= i < |items| && url in Wanted(items[i], originals);
        if i > 0 {
          assert items[1..][i - 1] == items[i];
        }
      }
      if url in WantedOnPage(items[1..], originals) {
        var i :| 0 <= i < |items[1..]| && url in Wanted(items[1..][i], originals);
        assert items[i + 1] == items[1..][i];
      }
    }
  }

  /** A URL is queued exactly when it is wanted for some bookmark of some fetched page. */
  lemma {:induction false} WantedAllMembers(pages: seq<BookmarkPage>, originals: set<string>, url: string)
    ensures url in WantedAll(pages, originals) <==>
      exists k :: 0 <= k < |pages| && url in WantedOnPage(pages[k].illusts, originals)
    decreases |pages|
  {
    if pages != [] {
      WantedAllMembers(pages[1..], originals, url);
      if exists k :: 0 <= k < |pages| && url in WantedOnPage(pages[k].illusts, originals) {
        var k :| 0 <= k < |pages| && url in WantedOnPage(pages[k].illusts, originals);
        if k > 0 {
          assert pages[1..][k - 1] == pages[k];
        }
      }
      if url in WantedAll(pages[1..], originals) {
        var k :| 0 <= k < |pages[1..]| && url in WantedOnPage(pages[1..][k].illusts, originals);
        assert pages[k + 1] == pages[1..][k];
      }
    }
  }

  // ---------------------------------------------------------------------
  // match_images

  /** `f'{id}_{part}'`: how `match_images` names an image it already has. */
  function IdText(id: int, part: int): string {
    Numerals.Show(id) + "_" + Numerals.Show(part)
  }

  /** Different images have different texts, so the text test is a test on `(id, part)`. */
  lemma IdTextInjective(a: int, b: int, c: int, d: int)
    requires IdText(a, b) == IdText(c, d)
    ensures a == c && b == d
  {
    CM.ShowHasNo(a, '_');
    CM.ShowHasNo(b, '_');
    CM.ShowHasNo(c, '_');
    CM.ShowHasNo(d, '_');
    Strings.SplitAfterHead(Numerals.Show(a), '_', Numerals.Show(b));
    Strings.SplitAfterHead(Numerals.Show(c), '_', Numerals.Show(d));
    Strings.SplitNoSep(Numerals.Show(b), '_');
    Strings.SplitNoSep(Numerals.Show(d), '_');
    assert Strings.Split(IdText(a, b), '_') == [Numerals.Show(a), Numerals.Show(b)];
    assert Strings.Split(IdText(c, d), '_') == [Numerals.Show(c), Numerals.Show(d)];
    Numerals.ShowInjective(a, c);
    Numerals.ShowInjective(b, d);
  }

  /** `images_id_list`, computed once before the loop. */
  function KnownTexts(images: seq<Entry>): (r: seq<string>)
    ensures |r| == |images|
    ensures forall i :: 0 <= i < |images| ==> r[i] == IdText(images[i].id, images[i].part)
  {
    seq(|images|, i requires 0 <= i < |images| => IdText(images[i].id, images[i].part))
  }

  /** A listed file is skipped exactly when the list had an entry with its id and part. */
  lemma KnownTextsMembers(images: seq<Entry>, id: int, part: int)
    ensures IdText(id, part) in KnownTexts(images) <==> exists e :: e in images && e.id == id && e.part == part
  {
    var known := KnownTexts(images);
    if IdText(id, part) in known {
      var i :| 0 <= i < |known| && known[i] == IdText(id, part);
      IdTextInjective(images[i].id, images[i].part, id, part);
      assert images[i] in images;
    }
    if exists e :: e in images && e.id == id && e.part == part {
      var e :| e in images && e.id == id && e.part == part;
      var i :| 0 <= i < |images| && images[i] == e;
      assert known[i] == IdText(id, part);
    }
  }

  /** `int(x.split('_')[0])`, the key the listing is sorted by (0 where it raises). */
  function NameKey(file: string): int {
    match Numerals.ParseInt(Strings.FirstPiece(file, '_'))
    case Some(v) => v
    case None => 0
  }

  /** The first listed name whose sort key raises, if any; the sort then raises before anything happens. */
  function BadSortKey(listing: seq<string>): (r: Option<string>)
    ensures r.Some? ==> r.value in listing && Numerals.ParseInt(Strings.FirstPiece(r.value, '_')).None?
    ensures r.None? ==> forall f :: f in listing ==> Numerals.ParseInt(Strings.FirstPiece(f, '_')).Some?
    decreases |listing|
  {
    if listing == [] then None
    else if Numerals.ParseInt(Strings.FirstPiece(listing[0], '_')).None? then Some(listing[0])
    else
      assert listing == [listing[0]] + listing[1..];
      BadSortKey(listing[1..])
  }

  /** `file.split('.')[0]`, the name the duplicate check compares. */
  function Stem(file: string): string {
    Strings.FirstPiece(file, '.')
  }

  /**
   * The duplicate check of `match_images`: a name is reported when an
   * earlier name (or one in `seen`) has the same stem.
   */
  function Duplicates(files: seq<string>, seen: seq<string>): seq<string>
    decreases |files|
  {
    if files == [] then []
    else if Stem(files[0]) in seen then [files[0]] + Duplicates(files[1..], seen)
    else Duplicates(files[1..], seen + [Stem(files[0])])
  }

  /** The stem of an earlier name, or one already seen. */
  predicate SeenBefore(files: seq<string>, seen: seq<string>, j: int)
    requires 0 <= j < |files|
  {
    Stem(files[j]) in seen || exists i :: 0 <= i < j && Stem(files[i]) == Stem(files[j])
  }

  /** Exactly the names whose stem occurred before are reported, in listing order. */
  lemma {:induction false} DuplicatesExact(files: seq<string>, seen: seq<string>)
    ensures |Duplicates(files, seen)| <= |files|
    ensures forall f :: f in Duplicates(files, seen) <==>
      exists j :: 0 <= j < |files| && files[j] == f && SeenBefore(files, seen, j)
    decreases |files|
  {
    if files != [] {
      var head, tail := files[0], files[1..];
      var seen' := if Stem(head) in seen then seen else seen + [Stem(head)];
      DuplicatesExact(tail, seen');
      forall j | 1 <= j < |files|
        ensures SeenBefore(files, seen, j) <==> SeenBefore(tail, seen', j - 1)
      {
        assert files[j] == tail[j - 1];
        if exists i :: 0 <= i < j - 1 && Stem(tail[i]) == Stem(tail[j - 1]) {
          var i :| 0 <= i < j - 1 && Stem(tail[i]) == Stem(tail[j - 1]);
          assert files[i + 1] == tail[i];
        }
        if exists i :: 0 <= i < j && Stem(files[i]) == Stem(files[j]) {
          var i :| 0 <= i < j && Stem(files[i]) == Stem(files[j]);
          if i > 0 {
            assert tail[i - 1] == files[i];
          }
        }
      }
      forall f
        ensures f in Duplicates(files, seen) <==>
          exists j :: 0 <= j < |files| && files[j] == f && SeenBefore(files, seen, j)
      {
        if exists j :: 0 <= j < |files| && files[j] == f && SeenBefore(files, seen, j) {
          var j :| 0 <= j < |files| && files[j] == f && SeenBefore(files, seen, j);
          if j > 0 {
            assert tail[j - 1] == f && SeenBefore(tail, seen', j - 1);
          }
        }
        if f in Duplicates(tail, seen') {
          var j :| 0 <= j < |tail| && tail[j] == f && SeenBefore(tail, seen', j);
          assert files[j + 1] == f && SeenBefore(files, seen, j + 1);
        }
      }
    }
  }

  /** The entry `match_images` appends for a new original. */
  function NewEntry(file: string, id: int, part: int, illust: Illust, pic: CM.Picture): Entry {
    Entry(id, part, illust.title, (pic.width, pic.height), Strings.LastPiece(file, '.'),
      CM.AuthorData(illust.user.id, illust.user.name, illust.user.account), illust.tags,
      illust.createDate, illust.sanityLevel, illust.xRestrict, None)
  }

  /**
   * One name of the sorted listing: a name that does not parse raises, a
   * known image is skipped, a failed lookup is skipped, a picture that does
   * not open raises, and otherwise an entry is appended.
   */
  function MatchStep(images: seq<Entry>, known: seq<string>, file: string, details: Details,
                     pictures: CM.Pictures, originals: set<string>): Result<seq<Entry>, CM.Fault>
  {
    match CM.ParseName(file)
    case None => Err(CM.BadName(file))
    case Some((id, part)) =>
      if IdText(id, part) in known then Ok(images)
      else match Fetching(details, id, 0).illust
        case None => Ok(images)
        case Some(illust) =>
          match CM.OpenIn(pictures, originals, file)
          case None => Err(CM.Unreadable(file))
          case Some(pic) => Ok(images + [NewEntry(file, id, part, illust, pic)])
  }

  /** The list and the exception that ended a pass, if any. */
  datatype Pass = Pass(images: seq<Entry>, fault: Option<CM.Fault>)

  /** The matching loop over the sorted names. */
  function MatchLoop(images: seq<Entry>, known: seq<string>, files: seq<string>, details: Details,
                     pictures: CM.Pictures, originals: set<string>): Pass
    decreases |files|
  {
    if files == [] then Pass(images, None)
    else match MatchStep(images, known, files[0], details, pictures, originals)
      case Err(fault) => Pass(images, Some(fault))
      case Ok(next) => MatchLoop(next, known, files[1..], details, pictures, originals)
  }

  /** What `match_images` leaves behind, with the names it reported as duplicates. */
  datatype Matched = Matched(images: seq<Entry>, duplicates: seq<string>, fault: Option<CM.Fault>)

  /**
   * `match_images`: sort the listing by id (a name without one raises
   * first), report duplicate stems, match every name, and sort the list
   * only when the loop ran to the end.
   */
  function Matching(images: seq<Entry>, listing: seq<string>, details: Details,
                    pictures: CM.Pictures, originals: set<string>): Matched
  {
    match BadSortKey(listing)
    case Some(bad) => Matched(images, [], Some(CM.BadName(bad)))
    case None =>
      var files := SortDesc(listing, NameKey);
      var pass := MatchLoop(images, KnownTexts(images), files, details, pictures, originals);
      if pass.fault.Some? then Matched(pass.images, Duplicates(files, []), pass.fault)
      else Matched(SortDesc(pass.images, EntryKey), Duplicates(files, []), None)
  }

  /** One step appends at most one entry, and never one the list had when the loop started. */
  lemma MatchStepAppends(images: seq<Entry>, known: seq<string>, file: string, details: Details,
                         pictures: CM.Pictures, originals: set<string>)
    requires MatchStep(images, known, file, details, pictures, originals).Ok?
    ensures var v := MatchStep(images, known, file, details, pictures, originals).value;
      v == images || (|v| == |images| + 1 && v[..|images|] == images && IdText(v[|images|].id, v[|images|].part) !in known)
  {
    var v := MatchStep(images, known, file, details, pictures, originals).value;
    if v != images {
      assert v[..|images|] == images;
    }
  }

  /**
   * The loop only appends, and never an image the list had when it
   * started.
   */
  lemma {:induction false} MatchLoopAppends(images: seq<Entry>, known: seq<string>, files: seq<string>, details: Details,
                                          pictures: CM.Pictures, originals: set<string>)
    ensures var r := MatchLoop(images, known, files, details, pictures, originals).images;
      |images| <= |r| && r[..|images|] == images &&
      forall k :: |images| <= k < |r| ==> IdText(r[k].id, r[k].part) !in known
    decreases |files|
  {
    if files != [] {
      var step := MatchStep(images, known, files[0], details, pictures, originals);
      if step.Ok? {
        var next := step.value;
        MatchStepAppends(images, known, files[0], details, pictures, originals);
        MatchLoopAppends(next, known, files[1..], details, pictures, originals);
        var r := MatchLoop(next, known, files[1..], details, pictures, originals).images;
        assert r == MatchLoop(images, known, files, details, pictures, originals).images;
        if next != images {
          assert r[..|images|] == r[..|next|][..|images|];
          forall k | |images| <= k < |r| ensures IdText(r[k].id, r[k].part) !in known {
            if k == |images| {
              assert r[k] == r[..|next|][k] == next[k];
            }
          }
        }
      }
    }
  }

  /** A listed name that parses, is not known, and whose lookup succeeds. */
  predicate Matchable(file: string, known: seq<string>, details: Details) {
    match CM.ParseName(file)
    case None => false
    case Some((id, part)) => IdText(id, part) !in known && Fetching(details, id, 0).illust.Some?
  }

  /**
   * A loop that runs to the end has an entry for every name that parses,
   * was not known and whose lookup succeeded.
   */
  lemma {:induction false} MatchLoopCovers(images: seq<Entry>, known: seq<string>, files: seq<string>, details: Details,
                                         pictures: CM.Pictures, originals: set<string>)
    requires MatchLoop(images, known, files, details, pictures, originals).fault.None?
    ensures var r := MatchLoop(images, known, files, details, pictures, originals).images;
      forall f :: f in files && Matchable(f, known, details) ==>
        exists e :: e in r && e.id == CM.ParseName(f).value.0 && e.part == CM.ParseName(f).value.1
    decreases |files|
  {
    if files != [] {
      var step := MatchStep(images, known, files[0], details, pictures, originals);
      var r := MatchLoop(images, known, files, details, pictures, originals).images;
      MatchLoopCovers(step.value, known, files[1..], details, pictures, originals);
      MatchLoopAppends(step.value, known, files[1..], details, pictures, originals);
      forall f | f in files && Matchable(f, known, details)
        ensures exists e :: e in r && e.id == CM.ParseName(f).value.0 && e.part == CM.ParseName(f).value.1
      {
        if f == files[0] {
          var k := |step.value| - 1;
          assert step.value[k] == r[..|step.value|][k];
          assert r[k] in r;
        } else {
          assert f in files[1..];
        }
      }
    }
  }

  /** A complete `match_images` keeps every entry it had and leaves the list sorted. */
  lemma MatchingComplete(images: seq<Entry>, listing: seq<string>, details: Details,
                         pictures: CM.Pictures, originals: set<string>)
    requires Matching(images, listing, details, pictures, originals).fault.None?
    ensures var r := Matching(images, listing, details, pictures, originals).images;
      multiset(images) <= multiset(r) && SortedDesc(r, EntryKey)
  {
    var files := SortDesc(listing, NameKey);
    var pass := MatchLoop(images, KnownTexts(images), files, details, pictures, originals);
    MatchLoopAppends(images, KnownTexts(images), files, details, pictures, originals);
    assert Matching(images, listing, details, pictures, originals).images == SortDesc(pass.images, EntryKey);
    var added := pass.images[|images|..];
    assert pass.images == images + added;
    assert multiset(pass.images) == multiset(images) + multiset(added);
  }

  // ---------------------------------------------------------------------
  // clean_deleted_images

  predicate Present(e: Entry, originals: set<string>) {
    FileName(e) in originals
  }

  /** `Present` as a function value, for the generic list lemmas. */
  function PresentIn(originals: set<string>): Entry -> bool {
    (e: Entry) => Present(e, originals)
  }

  /** The entries whose original exists, in order. */
  function KeepPresent(images: seq<Entry>, originals: set<string>): seq<Entry> {
    Filter(images, PresentIn(originals))
  }

  /** The names `name` gives the entries `keep` rejects. */
  function Dropped(images: seq<Entry>, keep: Entry -> bool, name: Entry -> string): set<string> {
    set e | e in images && !keep(e) :: name(e)
  }

  /** The rejected names of one more entry of a prefix. */
  lemma DroppedSnoc(images: seq<Entry>, i: nat, keep: Entry -> bool, name: Entry -> string)
    requires i < |images|
    ensures Dropped(images[..i + 1], keep, name) ==
      Dropped(images[..i], keep, name) + (if keep(images[i]) then {} else {name(images[i])})
  {
    assert forall e :: e in images[..i + 1] <==> e in images[..i] || e == images[i];
  }

  /** The derivative names of entries whose original is gone. */
  function GoneNames(images: seq<Entry>, originals: set<string>): set<string> {
    Dropped(images, PresentIn(originals), WebpName)
  }

  /** `list.remove(x)`: the first element equal to `x` is taken out. */
  function RemoveFirst(s: seq<Entry>, x: Entry): (r: seq<Entry>)
    requires x in s
    ensures |r| == |s| - 1
    decreases |s|
  {
    if s[0] == x then s[1..] else [s[0]] + RemoveFirst(s[1..], x)
  }

  /** Removing an element that does not occur in the part before it takes out that one. */
  lemma {:induction false} RemoveFirstAfter(a: seq<Entry>, x: Entry, b: seq<Entry>)
    requires x !in a
    ensures RemoveFirst(a + [x] + b, x) == a + b
    decreases |a|
  {
    if a == [] {
      assert a + [x] + b == [x] + b;
    } else {
      RemoveFirstAfter(a[1..], x, b);
      assert (a + [x] + b)[1..] == a[1..] + [x] + b;
    }
  }

  /** What `clean_deleted_images` leaves: the list, the thumbnails, the large images. */
  datatype Cleaned = Cleaned(images: seq<Entry>, thumbnails: Derivatives, larges: Derivatives)

  function Cleaning(images: seq<Entry>, thumbnails: Derivatives, larges: Derivatives, originals: set<string>): Cleaned {
    var gone := GoneNames(images, originals);
    Cleaned(KeepPresent(images, originals), thumbnails - gone, larges - gone)
  }

  /**
   * After the pass every entry's original exists, every entry whose
   * original exists is kept, and a second pass changes nothing.
   */
  lemma CleaningComplete(images: seq<Entry>, thumbnails: Derivatives, larges: Derivatives, originals: set<string>)
    ensures var c := Cleaning(images, thumbnails, larges, originals);
      (forall e :: e in c.images ==> Present(e, originals)) &&
      (forall e :: e in images && Present(e, originals) ==> e in c.images) &&
      Cleaning(c.images, c.thumbnails, c.larges, originals) == c
  {
    var keep := PresentIn(originals);
    var c := Cleaning(images, thumbnails, larges, originals);
    forall e ensures e in c.images <==> e in images && Present(e, originals) {
      FilterMembers(images, keep, e);
    }
    FilterAll(c.images, keep);
    assert GoneNames(c.images, originals) == {};
    assert c.thumbnails - {} == c.thumbnails;
    assert c.larges - {} == c.larges;
  }

  // ---------------------------------------------------------------------
  // fix_from_download_history

  /** One record of the browser extension's download history. */
  datatype HistoryItem = HistoryItem(
    idNum: int,
    title: string,
    userId: int,
    user: string,
    tags: seq<string>,
    date: string,
    sl: int,
    xRestrict: int)

  /** The first history record with the entry's id, which the inner loop `break`s at. */
  function FirstMatch(history: seq<HistoryItem>, id: int): (r: Option<HistoryItem>)
    ensures r.None? <==> forall h :: h in history ==> h.idNum != id
    ensures r.Some? ==> r.value in history && r.value.idNum == id
    decreases |history|
  {
    if history == [] then None
    else if history[0].idNum == id then Some(history[0])
    else
      assert history == [history[0]] + history[1..];
      FirstMatch(history[1..], id)
  }

  /** `{'name': tag, 'translated_name': None}` for every tag name. */
  function HistoryTags(names: seq<string>): (r: seq<Tag>)
    ensures |r| == |names| && forall i :: 0 <= i < |names| ==> r[i] == Tag(names[i], None)
  {
    seq(|names|, i requires 0 <= i < |names| => Tag(names[i], None))
  }

  /** The fields the history supplies; the author's account is the user name. */
  function Patched(e: Entry, h: HistoryItem): Entry {
    e.(title := h.title, author := CM.AuthorData(h.userId, h.user, h.user), tags := HistoryTags(h.tags),
      createdAt := h.date, sanityLevel := h.sl, xRestrict := h.xRestrict)
  }

  /** An entry whose author id is 0 is patched from its first history record, if there is one. */
  function Fixed(e: Entry, history: seq<HistoryItem>): Entry {
    if e.author.id != 0 then e
    else match FirstMatch(history, e.id)
      case None => e
      case Some(h) => Patched(e, h)
  }

  /**
   * The pass touches only entries with author id 0 that the history has,
   * never the file fields, and a second pass changes nothing.
   */
  lemma FixedEntry(e: Entry, history: seq<HistoryItem>)
    ensures var f := Fixed(e, history);
      f.id == e.id && f.part == e.part && f.size == e.size && f.ext == e.ext && f.dominantColor == e.dominantColor
    ensures (e.author.id != 0 || forall h :: h in history ==> h.idNum != e.id) ==> Fixed(e, history) == e
    ensures Fixed(Fixed(e, history), history) == Fixed(e, history)
  {
  }

  // ---------------------------------------------------------------------
  // generate_thumbnail and generate_large

  /** The directory after a derivative pass, and the exception that ended it, if any. */
  datatype Made = Made(dir: Derivatives, fault: Option<CM.Fault>)

  /**
   * `generate_thumbnail` / `generate_large`: an entry's derivative is made
   * with bounding box `size` when it is missing or `overwrite` is set; an
   * original that does not open raises and ends the pass.
   */
  function Generating(images: seq<Entry>, dir: Derivatives, overwrite: bool, size: (int, int),
                      pictures: CM.Pictures, originals: set<string>): Made
    decreases |images|
  {
    if images == [] then Made(dir, None)
    else
      var name := WebpName(images[0]);
      if name in dir && !overwrite then Generating(images[1..], dir, overwrite, size, pictures, originals)
      else if CM.OpenIn(pictures, originals, FileName(images[0])).None? then
        Made(dir, Some(CM.Unreadable(FileName(images[0]))))
      else Generating(images[1..], dir[name := size], overwrite, size, pictures, originals)
  }

  /**
   * A pass never removes a name, gives a name either what it had or the
   * requested bounding box, and leaves a name no entry has as it was.
   */
  lemma {:induction false} GeneratingKeeps(images: seq<Entry>, dir: Derivatives, overwrite: bool, size: (int, int),
                                         pictures: CM.Pictures, originals: set<string>, n: string)
    ensures var d := Generating(images, dir, overwrite, size, pictures, originals).dir;
      (n in dir ==> n in d) &&
      (n in d ==> (n in dir && d[n] == dir[n]) || d[n] == size) &&
      ((forall e :: e in images ==> WebpName(e) != n) ==> (n in d <==> n in dir) && (n in dir ==> d[n] == dir[n]))
    decreases |images|
  {
    if images != [] {
      var name := WebpName(images[0]);
      if !(name in dir && !overwrite) && CM.OpenIn(pictures, originals, FileName(images[0])).Some? {
        GeneratingKeeps(images[1..], dir[name := size], overwrite, size, pictures, originals, n);
        if forall e :: e in images ==> WebpName(e) != n {
          assert images[0] in images;
          assert forall e :: e in images[1..] ==> e in images;
        }
      } else if name in dir && !overwrite {
        GeneratingKeeps(images[1..], dir, overwrite, size, pictures, originals, n);
        assert forall e :: e in images[1..] ==> e in images;
      }
    }
  }

  /**
   * A pass that runs to the end leaves a derivative for every entry and,
   * with `overwrite`, every entry's derivative has the requested bounding
   * box.
   */
  lemma {:induction false} GeneratingFills(images: seq<Entry>, dir: Derivatives, overwrite: bool, size: (int, int),
                                         pictures: CM.Pictures, originals: set<string>, e: Entry)
    requires Generating(images, dir, overwrite, size, pictures, originals).fault.None?
    requires e in images
    ensures var d := Generating(images, dir, overwrite, size, pictures, originals).dir;
      WebpName(e) in d && (overwrite ==> d[WebpName(e)] == size)
    decreases |images|
  {
    var name := WebpName(images[0]);
    var next := if name in dir && !overwrite then dir else dir[name := size];
    if e == images[0] {
      GeneratingKeeps(images[1..], next, overwrite, size, pictures, originals, name);
    } else {
      assert e in images[1..];
      GeneratingFills(images[1..], next, overwrite, size, pictures, originals, e);
    }
  }

  // ---------------------------------------------------------------------
  // check

  /** What `check` logs. */
  datatype Notice =
    | Duplicate(id: int, part: int)
    | NoTags(id: int, part: int)
    | NoTitle(id: int, part: int)
    | SizeMismatch(id: int, part: int, recorded: (int, int), actual: (int, int))
    | Damaged(id: int, part: int)

  /**
   * The state `check` works on: the entries seen so far (as they are after
   * the check), the `id * 1000 + part` keys seen, both directories and the log.
   */
  datatype Audit = Audit(done: seq<Entry>, seen: set<int>, thumbnails: Derivatives, larges: Derivatives, notices: seq<Notice>)

  /** `id * 1000 + part`, the key of the duplicate check. */
  function AuditKey(e: Entry): int {
    e.id * 1000 + e.part
  }

  /** The notices `check` gives an entry before opening its original: duplicate key, no tags, no title. */
  function RecordNotices(seen: set<int>, e: Entry): seq<Notice> {
    (if AuditKey(e) in seen then [Duplicate(e.id, e.part)] else []) +
    (if |e.tags| == 0 then [NoTags(e.id, e.part)] else []) +
    (if e.title == "" then [NoTitle(e.id, e.part)] else [])
  }

  /**
   * The part of `check` after the original opened: a size that differs
   * is reported and, with `try_fix`, written into the entry, and both
   * derivatives are remade, the large one at `largeBound`; a missing
   * dominant colour is filled in.
   */
  function Inspected(a: Audit, e: Entry, pic: CM.Picture, tryFix: bool, largeBound: (int, int)): Audit {
    var actual := (pic.width, pic.height);
    var mismatch := actual != e.size;
    var fix := mismatch && tryFix;
    var sized := if fix then e.(size := actual) else e;
    var coloured := if sized.dominantColor.None? then sized.(dominantColor := Some(CM.DominantColor(pic))) else sized;
    Audit(a.done + [coloured], a.seen,
      if fix then a.thumbnails[WebpName(e) := ThumbnailSize] else a.thumbnails,
      if fix then a.larges[WebpName(e) := largeBound] else a.larges,
      a.notices + (if mismatch then [SizeMismatch(e.id, e.part, e.size, actual)] else []))
  }

  /**
   * `check` on one entry, with the large image remade at `largeBound`: the
   * record notices, then an original that does not open is reported as
   * damaged and the entry kept as it is.
   */
  function AuditEntryWith(a: Audit, e: Entry, tryFix: bool, largeBound: (int, int),
                          pictures: CM.Pictures, originals: set<string>): Audit
  {
    var b := a.(seen := a.seen + {AuditKey(e)}, notices := a.notices + RecordNotices(a.seen, e));
    match CM.OpenIn(pictures, originals, FileName(e))
    case None => b.(done := b.done + [e], notices := b.notices + [Damaged(e.id, e.part)])
    case Some(pic) => Inspected(b, e, pic, tryFix, largeBound)
  }

  /** As written: `__generate_image_large(image)` takes its default size, `THUMBNAIL_SIZE`. */
  function AuditEntryAsWritten(a: Audit, e: Entry, tryFix: bool, pictures: CM.Pictures, originals: set<string>): Audit {
    AuditEntryWith(a, e, tryFix, ThumbnailSize, pictures, originals)
  }

  /** As intended: the large image is remade at `LARGE_SIZE`, as `generate_large` makes it. */
  function AuditEntry(a: Audit, e: Entry, tryFix: bool, pictures: CM.Pictures, originals: set<string>): Audit {
    AuditEntryWith(a, e, tryFix, LargeSize, pictures, originals)
  }

  /** A size repair as written leaves a large image no bigger than a thumbnail. */
  lemma RepairShrinksLarge(a: Audit, e: Entry, pic: CM.Picture, pictures: CM.Pictures, originals: set<string>)
    requires CM.OpenIn(pictures, originals, FileName(e)) == Some(pic) && (pic.width, pic.height) != e.size
    ensures AuditEntryAsWritten(a, e, true, pictures, originals).larges[WebpName(e)] == ThumbnailSize
    ensures AuditEntry(a, e, true, pictures, originals).larges[WebpName(e)] == LargeSize
    ensures ThumbnailSize != LargeSize
  {
  }

  /** `check` over the list in order. */
  function Auditing(a: Audit, entries: seq<Entry>, tryFix: bool, pictures: CM.Pictures, originals: set<string>): Audit
    decreases |entries|
  {
    if entries == [] then a
    else Auditing(AuditEntry(a, entries[0], tryFix, pictures, originals), entries[1..], tryFix, pictures, originals)
  }

  /** `x` is `e` changed at most in size and colour; without `try_fix` only in colour. */
  predicate Kept(x: Entry, e: Entry, tryFix: bool) {
    x == e.(size := x.size, dominantColor := x.dominantColor) && (!tryFix ==> x.size == e.size)
  }

  /** One entry is appended, and kept; without `try_fix` the directories are untouched. */
  lemma AuditEntryKeeps(a: Audit, e: Entry, tryFix: bool, pictures: CM.Pictures, originals: set<string>)
    ensures var r := AuditEntry(a, e, tryFix, pictures, originals);
      r.done == a.done + [r.done[|a.done|]] && Kept(r.done[|a.done|], e, tryFix) &&
      (!tryFix ==> r.thumbnails == a.thumbnails && r.larges == a.larges)
  {
  }

  /** From `start` on, `done` holds the entries, each kept. */
  predicate KeptFrom(done: seq<Entry>, start: nat, entries: seq<Entry>, tryFix: bool) {
    |done| == start + |entries| && forall k :: 0 <= k < |entries| ==> Kept(done[start + k], entries[k], tryFix)
  }

  /**
   * `check` keeps every entry in place and changes only its size and
   * colour; without `try_fix` it leaves sizes and both directories alone.
   */
  lemma {:induction false} AuditingKeepsEntries(a: Audit, entries: seq<Entry>, tryFix: bool, pictures: CM.Pictures, originals: set<string>)
    ensures var r := Auditing(a, entries, tryFix, pictures, originals);
      |r.done| >= |a.done| && r.done[..|a.done|] == a.done && KeptFrom(r.done, |a.done|, entries, tryFix) &&
      (!tryFix ==> r.thumbnails == a.thumbnails && r.larges == a.larges)
    decreases |entries|
  {
    if entries != [] {
      var next := AuditEntry(a, entries[0], tryFix, pictures, originals);
      AuditEntryKeeps(a, entries[0], tryFix, pictures, originals);
      AuditingKeepsEntries(next, entries[1..], tryFix, pictures, originals);
      var r := Auditing(a, entries, tryFix, pictures, originals);
      assert r == Auditing(next, entries[1..], tryFix, pictures, originals);
      KeptStep(a.done, next.done, r.done, entries, tryFix);
    }
  }

  /** The entries kept by one step of `check`, followed by those kept by the rest. */
  lemma KeptStep(before: seq<Entry>, mid: seq<Entry>, after: seq<Entry>, entries: seq<Entry>, tryFix: bool)
    requires entries != []
    requires |mid| == |before| + 1 && mid == before + [mid[|before|]] && Kept(mid[|before|], entries[0], tryFix)
    requires |after| >= |mid| && after[..|mid|] == mid && KeptFrom(after, |mid|, entries[1..], tryFix)
    ensures after[..|before|] == before && KeptFrom(after, |before|, entries, tryFix)
  {
    assert after[..|before|] == after[..|mid|][..|before|];
    forall k | 0 <= k < |entries|
      ensures Kept(after[|before| + k], entries[k], tryFix)
    {
      if k == 0 {
        assert after[|before|] == after[..|mid|][|before|];
      } else {
        assert entries[k] == entries[1..][k - 1];
        assert |before| + k == |mid| + (k - 1);
      }
    }
  }

  /**
   * With `try_fix`, every derivative `check` remakes has the bounding box
   * of its kind: thumbnails `THUMBNAIL_SIZE`, large images `LARGE_SIZE`;
   * every other name keeps what it had.
   */
  lemma {:induction false} AuditingRemakes(a: Audit, entries: seq<Entry>, pictures: CM.Pictures, originals: set<string>)
    ensures var r := Auditing(a, entries, true, pictures, originals);
      (forall n :: n in r.larges ==> (n in a.larges && r.larges[n] == a.larges[n]) || r.larges[n] == LargeSize) &&
      (forall n :: n in r.thumbnails ==> (n in a.thumbnails && r.thumbnails[n] == a.thumbnails[n]) || r.thumbnails[n] == ThumbnailSize) &&
      (forall n :: n in a.larges ==> n in r.larges) && (forall n :: n in a.thumbnails ==> n in r.thumbnails)
    decreases |entries|
  {
    if entries != [] {
      AuditingRemakes(AuditEntry(a, entries[0], true, pictures, originals), entries[1..], pictures, originals);
    }
  }
}
