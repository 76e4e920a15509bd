/**
 * The list-based `PixivCollection` of `pixiv_collection/pixiv_collection.py`:
 * the image list, the illustration cache and the original, thumbnail and
 * large directories as fields, and each operation as a method that changes
 * them step by step as the source does. Each method is proved to end in the
 * state the matching function of `LegacyModel` describes.
 */
module LegacyCollection {
  import opened Wrappers
  import opened Sorting
  import opened PixivApi
  import opened LegacyModel
  import CM = CollectionModel

  /** The download loop after `i` URLs is the loop from `i` on. */
  lemma AttemptsStep(originals: set<string>, urls: seq<string>, i: nat, downloads: Downloads)
    requires i < |urls|
    ensures AfterAttempts(originals, urls[i..], downloads) ==
      AfterAttempts(AfterAttempt(originals, urls[i], downloads), urls[i + 1..], downloads)
    ensures FailedAttempts(urls[i..], downloads) ==
      (if downloads(urls[i], 0) == Attempt.Saved then [] else [urls[i]]) + FailedAttempts(urls[i + 1..], downloads)
  {
    assert urls[i..][1..] == urls[i + 1..];
  }

  lemma WantedStep(items: seq<Bookmark>, originals: set<string>, i: nat)
    requires i < |items|
    ensures WantedOnPage(items[i..], originals) == Wanted(items[i], originals) + WantedOnPage(items[i + 1..], originals)
  {
    assert items[i..][1..] == items[i + 1..];
  }

  lemma DuplicatesStep(files: seq<string>, seen: seq<string>, i: nat)
    requires i < |files|
    ensures Duplicates(files[i..], seen) ==
      if Stem(files[i]) in seen then [files[i]] + Duplicates(files[i + 1..], seen)
      else Duplicates(files[i + 1..], seen + [Stem(files[i])])
  {
    assert files[i..][1..] == files[i + 1..];
  }

  lemma MatchLoopStep(images: seq<Entry>, known: seq<string>, files: seq<string>, i: nat, details: Details,
                      pictures: CM.Pictures, originals: set<string>)
    requires i < |files|
    ensures MatchLoop(images, known, files[i..], details, pictures, originals) ==
      match MatchStep(images, known, files[i], details, pictures, originals)
      case Err(fault) => Pass(images, Some(fault))
      case Ok(next) => MatchLoop(next, known, files[i + 1..], details, pictures, originals)
  {
    assert files[i..][1..] == files[i + 1..];
  }

  lemma GeneratingStep(images: seq<Entry>, i: nat, dir: Derivatives, overwrite: bool, size: (int, int),
                       pictures: CM.Pictures, originals: set<string>)
    requires i < |images|
    ensures Generating(images[i..], dir, overwrite, size, pictures, originals) ==
      var name := WebpName(images[i]);
      if name in dir && !overwrite then Generating(images[i + 1..], dir, overwrite, size, pictures, originals)
      else if CM.OpenIn(pictures, originals, FileName(images[i])).None? then
        Made(dir, Some(CM.Unreadable(FileName(images[i]))))
      else Generating(images[i + 1..], dir[name := size], overwrite, size, pictures, originals)
  {
    assert images[i..][1..] == images[i + 1..];
  }

  lemma AuditingStep(a: Audit, entries: seq<Entry>, i: nat, tryFix: bool, pictures: CM.Pictures, originals: set<string>)
    requires i < |entries|
    ensures Auditing(a, entries[i..], tryFix, pictures, originals) ==
      Auditing(AuditEntry(a, entries[i], tryFix, pictures, originals), entries[i + 1..], tryFix, pictures, originals)
  {
    assert entries[i..][1..] == entries[i + 1..];
  }

  /** Deleting two sets of names is deleting one after the other. */
  lemma DeleteNames(m: Derivatives, a: set<string>, b: set<string>)
    ensures m - (a + b) == (m - a) - b
  {
  }

  /** Removing an entry that does not occur before it. */
  lemma RemoveAfter(kept: seq<Entry>, image: Entry, rest: seq<Entry>)
    requires image !in kept
    ensures image in kept + [image] + rest
    ensures RemoveFirst(kept + [image] + rest, image) == kept + rest
  {
    assert (kept + [image] + rest)[|kept|] == image;
    RemoveFirstAfter(kept, image, rest);
  }

  /**
   * The state of the loop of `clean_deleted_images` after `i` entries: the
   * entries `keep` accepted, then those still to come; the derivatives of
   * the rejected ones deleted.
   */
  function CleanState(copy: seq<Entry>, i: nat, thumbs0: Derivatives, bigs0: Derivatives,
                      keep: Entry -> bool, name: Entry -> string): Cleaned
    requires i <= |copy|
  {
    var gone := Dropped(copy[..i], keep, name);
    Cleaned(Filter(copy[..i], keep) + copy[i..], thumbs0 - gone, bigs0 - gone)
  }

  /** An iteration on an accepted entry changes nothing. */
  lemma CleanKeeps(copy: seq<Entry>, i: nat, thumbs0: Derivatives, bigs0: Derivatives,
                   keep: Entry -> bool, name: Entry -> string)
    requires i < |copy| && keep(copy[i])
    ensures CleanState(copy, i + 1, thumbs0, bigs0, keep, name) == CleanState(copy, i, thumbs0, bigs0, keep, name)
  {
    var image := copy[i];
    FilterSnoc(copy, i, keep);
    DroppedSnoc(copy, i, keep, name);
    var kept := Filter(copy[..i], keep);
    var gone := Dropped(copy[..i], keep, name);
    assert copy[i..] == [image] + copy[i + 1..];
    assert gone + {} == gone;
    assert kept + copy[i..] == (kept + [image]) + copy[i + 1..];
  }

  /**
   * An iteration on a rejected entry: it is the first of its value in the
   * list, and removing it and its derivatives reaches the next state.
   */
  lemma CleanDrops(copy: seq<Entry>, i: nat, thumbs0: Derivatives, bigs0: Derivatives,
                   keep: Entry -> bool, name: Entry -> string)
    requires i < |copy| && !keep(copy[i])
    ensures var c := CleanState(copy, i, thumbs0, bigs0, keep, name);
      copy[i] in c.images &&
      CleanState(copy, i + 1, thumbs0, bigs0, keep, name) ==
        Cleaned(RemoveFirst(c.images, copy[i]), c.thumbnails - {name(copy[i])}, c.larges - {name(copy[i])})
  {
    var image := copy[i];
    FilterSnoc(copy, i, keep);
    DroppedSnoc(copy, i, keep, name);
    FilterMembers(copy[..i], keep, image);
    var kept := Filter(copy[..i], keep);
    var gone := Dropped(copy[..i], keep, name);
    assert copy[i..] == [image] + copy[i + 1..];
    assert kept + copy[i..] == kept + [image] + copy[i + 1..];
    RemoveAfter(kept, image, copy[i + 1..]);
    DeleteNames(thumbs0, gone, {name(image)});
    DeleteNames(bigs0, gone, {name(image)});
  }

  /** The list is whole. */
  lemma Whole(copy: seq<Entry>)
    ensures copy[..|copy|] == copy && copy[0..] == copy && copy[..0] == [] && copy[|copy|..] == []
  {
  }

  class PixivCollection {
    /** `illust_detail`, `download`, `user_bookmarks_illust` and `Image.open` as oracles. */
    const details: Details
    const downloads: Downloads
    const bookmarks: Bookmarks
    const pictures: CM.Pictures

    /** `_cache`: illustrations looked up so far, by id. */
    var cache: map<int, Illust>

    /** `self.images`. */
    var images: seq<Entry>

    /** The original directory, and the thumbnail and large directories with each image's bounding box. */
    var originals: set<string>
    var thumbnails: Derivatives
    var larges: Derivatives

    /** Every cached illustration is what a lookup would give. */
    ghost predicate Valid()
      reads this
    {
      Cached(details, cache)
    }

    /** An empty list over the given directories. */
    constructor(details: Details, downloads: Downloads, bookmarks: Bookmarks, pictures: CM.Pictures,
                images: seq<Entry>, originals: set<string>, thumbnails: Derivatives, larges: Derivatives)
      ensures Valid()
      ensures this.details == details && this.downloads == downloads
      ensures this.bookmarks == bookmarks && this.pictures == pictures
      ensures this.images == images && cache == map[]
      ensures this.originals == originals && this.thumbnails == thumbnails && this.larges == larges
    {
      this.details := details;
      this.downloads := downloads;
      this.bookmarks := bookmarks;
      this.pictures := pictures;
      cache := map[];
      this.images := images;
      this.originals := originals;
      this.thumbnails := thumbnails;
      this.larges := larges;
    }

    /**
     * `__get_illust_info`: a cached illustration is returned without calling
     * the API; otherwise the retry loop runs and only a success is cached.
     */
    method GetIllustInfo(id: int) returns (illust: Option<Illust>)
      requires Valid()
      modifies this`cache
      ensures Valid()
      ensures illust == Fetching(details, id, 0).illust
      ensures id in old(cache) ==> cache == old(cache)
      ensures id !in old(cache) ==> cache == (if illust.Some? then old(cache)[id := illust.value] else old(cache))
    {
      if id in cache {
        return Some(cache[id]);
      }
      var calls;
      illust, calls := FetchIllust(details, id);
      if illust.Some? {
        cache := cache[id := illust.value];
      }
    }

    /** `__sort_images`. */
    method SortImages()
      modifies this`images
      ensures images == SortDesc(old(images), EntryKey)
    {
      images := SortDesc(images, EntryKey);
    }

    /** `save`: the list written, filtered by sanity level unless the level is `-1`. */
    method Save(filterMaxSl: int) returns (data: seq<Entry>)
      ensures data == LegacyModel.Saved(images, filterMaxSl)
    {
      data := images;
      if filterMaxSl != -1 {
        data := FilterSl(data, filterMaxSl);
      }
    }

    /**
     * `__download_image` as written: its retry test is an `if`, so there is
     * one attempt, whose leftovers are removed when it fails.
     */
    method DownloadImage(url: string) returns (success: bool)
      modifies this`originals
      ensures success <==> downloads(url, 0) == Attempt.Saved
      ensures originals == AfterAttempt(old(originals), url, downloads)
    {
      var name := FileNameOf(url);
      success := false;
      match downloads(url, 0) {
        case Saved =>
          originals := originals + {name};
          success := true;
        case Partial =>
          originals := originals + {name};
          originals := originals - {name};
        case NoFile =>
          originals := originals - {name};
      }
    }

    /** The test of `download_bookmark` on a multi-page work: does any page exist? */
    method AnyPageExists(urls: seq<string>) returns (exist: bool)
      ensures exist == AnyOnDisk(urls, originals)
    {
      exist := false;
      for j := 0 to |urls|
        invariant !exist
        invariant forall k :: 0 <= k < j ==> FileNameOf(urls[k]) !in originals
      {
        if FileNameOf(urls[j]) in originals {
          exist := true;
          return;
        }
      }
    }

    /** What `download_bookmark` queues for one bookmark. */
    method QueueItem(item: Bookmark) returns (urls: seq<string>)
      ensures urls == Wanted(item, originals)
    {
      urls := [];
      if item.pageCount == 1 {
        if item.singleUrl == ImageDeleted {
          return;
        }
        if FileNameOf(item.singleUrl) !in originals {
          urls := [item.singleUrl];
        }
      } else {
        var exist := AnyPageExists(item.pageUrls);
        if !exist {
          for j := 0 to |item.pageUrls|
            invariant urls == item.pageUrls[..j]
          {
            urls := urls + [item.pageUrls[j]];
          }
          assert item.pageUrls[..|item.pageUrls|] == item.pageUrls;
        }
      }
    }

    /** The inner loop of `download_bookmark` over one page of bookmarks. */
    method QueuePage(items: seq<Bookmark>) returns (urls: seq<string>)
      ensures urls == WantedOnPage(items, originals)
    {
      urls := [];
      assert items[0..] == items;
      for i := 0 to |items|
        invariant WantedOnPage(items, originals) == urls + WantedOnPage(items[i..], originals)
      {
        WantedStep(items, originals, i);
        var found := QueueItem(items[i]);
        assert urls + (found + WantedOnPage(items[i + 1..], originals)) ==
          (urls + found) + WantedOnPage(items[i + 1..], originals);
        urls := urls + found;
      }
      assert items[|items|..] == [];
    }

    /**
     * `download_bookmark`: list up to `max_page` pages (stopping at the last
     * page), queue what is missing, then try every queued URL once.
     */
    method DownloadBookmark(userId: int, restrict: string, maxPage: int) returns (queued: seq<string>, failed: seq<string>)
      modifies this`originals
      ensures queued == WantedAll(Pages(bookmarks, userId, restrict, None, PageBudget(maxPage)), old(originals))
      ensures failed == FailedAttempts(queued, downloads)
      ensures originals == AfterAttempts(old(originals), queued, downloads)
    {
      queued := ListBookmarks(userId, restrict, maxPage);
      failed := DownloadAll(queued);
    }

    /** The listing loop of `download_bookmark`. */
    method ListBookmarks(userId: int, restrict: string, maxPage: int) returns (queued: seq<string>)
      ensures queued == WantedAll(Pages(bookmarks, userId, restrict, None, PageBudget(maxPage)), originals)
    {
      ghost var known := originals;
      ghost var total := WantedAll(Pages(bookmarks, userId, restrict, None, PageBudget(maxPage)), known);
      queued := [];
      var curPage := 1;
      var next: Option<string> := None;
      var done := false;
      while curPage <= maxPage && !done
        invariant curPage >= 1
        invariant !done ==> total == queued + WantedAll(Pages(bookmarks, userId, restrict, next, PageBudget(maxPage - curPage + 1)), known)
        invariant done ==> total == queued
        decreases maxPage - curPage + 1, if done then 0 else 1
      {
        ghost var budget := PageBudget(maxPage - curPage + 1);
        ListingStep(bookmarks, userId, restrict, next, budget, known, queued, total);
        curPage := curPage + 1;
        assert PageBudget(maxPage - curPage + 1) == budget - 1;
        var page := bookmarks(userId, restrict, next);
        var urls := QueuePage(page.illusts);
        queued := queued + urls;
        next := page.nextUrl;
        done := next.None?;
      }
      if !done {
        assert PageBudget(maxPage - curPage + 1) == 0;
      }
    }

    /** The download loop of `download_bookmark`: every queued URL is tried once; failures are kept in order. */
    method DownloadAll(urls: seq<string>) returns (failed: seq<string>)
      modifies this`originals
      ensures failed == FailedAttempts(urls, downloads)
      ensures originals == AfterAttempts(old(originals), urls, downloads)
    {
      ghost var disk := AfterAttempts(originals, urls, downloads);
      ghost var lost := FailedAttempts(urls, downloads);
      failed := [];
      assert urls[0..] == urls;
      for i := 0 to |urls|
        invariant disk == AfterAttempts(originals, urls[i..], downloads)
        invariant lost == failed + FailedAttempts(urls[i..], downloads)
      {
        var url := urls[i];
        AttemptsStep(originals, urls, i, downloads);
        ghost var rest := FailedAttempts(urls[i + 1..], downloads);
        var success := DownloadImage(url);
        if !success {
          assert failed + ([url] + rest) == (failed + [url]) + rest;
          failed := failed + [url];
        } else {
          assert [] + rest == rest;
        }
      }
      assert urls[|urls|..] == [];
    }

    /** The duplicate check of `match_images` over the sorted listing. */
    method ReportDuplicates(files: seq<string>) returns (duplicates: seq<string>)
      ensures duplicates == Duplicates(files, [])
    {
      duplicates := [];
      var seen: seq<string> := [];
      assert files[0..] == files;
      for i := 0 to |files|
        invariant Duplicates(files, []) == duplicates + Duplicates(files[i..], seen)
      {
        DuplicatesStep(files, seen, i);
        var stem := Stem(files[i]);
        if stem in seen {
          assert duplicates + ([files[i]] + Duplicates(files[i + 1..], seen)) ==
            (duplicates + [files[i]]) + Duplicates(files[i + 1..], seen);
          duplicates := duplicates + [files[i]];
        } else {
          seen := seen + [stem];
        }
      }
      assert files[|files|..] == [];
    }

    /** One name of the matching loop: `MatchStep`, with the lookup going through the cache. */
    method MatchFile(list: seq<Entry>, known: seq<string>, file: string) returns (r: Result<seq<Entry>, CM.Fault>)
      requires Valid()
      modifies this`cache
      ensures Valid()
      ensures r == MatchStep(list, known, file, details, pictures, originals)
    {
      var parsed := CM.ParseName(file);
      if parsed.None? {
        return Err(CM.BadName(file));
      }
      var (id, part) := parsed.value;
      if IdText(id, part) in known {
        return Ok(list);
      }
      var illust := GetIllustInfo(id);
      if illust.None? {
        return Ok(list);
      }
      var picture := CM.OpenIn(pictures, originals, file);
      if picture.None? {
        return Err(CM.Unreadable(file));
      }
      r := Ok(list + [NewEntry(file, id, part, illust.value, picture.value)]);
    }

    /**
     * `match_images`: sort the listing of the original directory by id,
     * report duplicate stems, add an entry for every original the list does
     * not know and the API describes, and sort the list when done. An
     * exception leaves the entries added so far.
     */
    method MatchImages(listing: seq<string>) returns (duplicates: seq<string>, fault: Option<CM.Fault>)
      requires Valid()
      modifies this`cache, this`images
      ensures Valid()
      ensures Matched(images, duplicates, fault) == Matching(old(images), listing, details, pictures, originals)
    {
      var known := KnownTexts(images);
      var bad := BadSortKey(listing);
      if bad.Some? {
        return [], Some(CM.BadName(bad.value));
      }
      var files := SortDesc(listing, NameKey);
      duplicates := ReportDuplicates(files);
      ghost var pass := MatchLoop(images, known, files, details, pictures, originals);
      var list := images;
      assert files[0..] == files;
      for i := 0 to |files|
        invariant Valid()
        invariant pass == MatchLoop(list, known, files[i..], details, pictures, originals)
      {
        MatchLoopStep(list, known, files, i, details, pictures, originals);
        var step := MatchFile(list, known, files[i]);
        if step.Err? {
          images := list;
          return duplicates, Some(step.error);
        }
        list := step.value;
      }
      assert files[|files|..] == [];
      images := SortDesc(list, EntryKey);
      fault := None;
    }

    /** The loop shared by `generate_thumbnail` and `generate_large`, over one directory. */
    method Derive(dir: Derivatives, overwrite: bool, size: (int, int)) returns (m: Made)
      ensures m == Generating(images, dir, overwrite, size, pictures, originals)
    {
      var current := dir;
      assert images[0..] == images;
      for i := 0 to |images|
        invariant Generating(images, dir, overwrite, size, pictures, originals) ==
          Generating(images[i..], current, overwrite, size, pictures, originals)
      {
        GeneratingStep(images, i, current, overwrite, size, pictures, originals);
        var name := WebpName(images[i]);
        if name !in current || overwrite {
          if CM.OpenIn(pictures, originals, FileName(images[i])).None? {
            return Made(current, Some(CM.Unreadable(FileName(images[i]))));
          }
          current := current[name := size];
        }
      }
      assert images[|images|..] == [];
      return Made(current, None);
    }

    /** `generate_thumbnail`: thumbnails made at `max_size` (by default `THUMBNAIL_SIZE`). */
    method GenerateThumbnail(overwrite: bool, maxSize: (int, int)) returns (fault: Option<CM.Fault>)
      modifies this`thumbnails
      ensures Made(thumbnails, fault) == Generating(images, old(thumbnails), overwrite, maxSize, pictures, originals)
    {
      var m := Derive(thumbnails, overwrite, maxSize);
      thumbnails := m.dir;
      fault := m.fault;
    }

    /** `generate_large`: large images made at `max_size` (by default `LARGE_SIZE`). */
    method GenerateLarge(overwrite: bool, maxSize: (int, int)) returns (fault: Option<CM.Fault>)
      modifies this`larges
      ensures Made(larges, fault) == Generating(images, old(larges), overwrite, maxSize, pictures, originals)
    {
      var m := Derive(larges, overwrite, maxSize);
      larges := m.dir;
      fault := m.fault;
    }

    /** The loop of `clean_deleted_images` over a copy of the list. */
    method CleanLoop(copy: seq<Entry>, thumbs0: Derivatives, bigs0: Derivatives) returns (c: Cleaned)
      ensures c == Cleaning(copy, thumbs0, bigs0, originals)
    {
      var list := copy;
      var thumbs := thumbs0;
      var bigs := bigs0;
      Whole(copy);
      for i := 0 to |copy|
        invariant Cleaned(list, thumbs, bigs) == CleanState(copy, i, thumbs0, bigs0, PresentIn(originals), WebpName)
      {
        var image := copy[i];
        if FileName(image) !in originals {
          CleanDrops(copy, i, thumbs0, bigs0, PresentIn(originals), WebpName);
          list := RemoveFirst(list, image);
          var name := WebpName(image);
          thumbs := thumbs - {name};
          bigs := bigs - {name};
        } else {
          CleanKeeps(copy, i, thumbs0, bigs0, PresentIn(originals), WebpName);
        }
      }
      c := Cleaned(list, thumbs, bigs);
    }

    /**
     * `clean_deleted_images`: over a copy of the list, an entry whose
     * original is gone is removed from the list, and its thumbnail and
     * large image are deleted.
     */
    method CleanDeletedImages()
      modifies this`images, this`thumbnails, this`larges
      ensures Cleaned(images, thumbnails, larges) == Cleaning(old(images), old(thumbnails), old(larges), originals)
    {
      var c := CleanLoop(images, thumbnails, larges);
      images, thumbnails, larges := c.images, c.thumbnails, c.larges;
    }

    /** The inner loop of `fix_from_download_history`: the first record with the id. */
    method Lookup(history: seq<HistoryItem>, id: int) returns (found: Option<HistoryItem>)
      ensures found == FirstMatch(history, id)
    {
      assert history[0..] == history;
      for h := 0 to |history|
        invariant FirstMatch(history, id) == FirstMatch(history[h..], id)
      {
        assert history[h..][1..] == history[h + 1..];
        if history[h].idNum == id {
          return Some(history[h]);
        }
      }
      assert history[|history|..] == [];
      return None;
    }

    /** The patch of `fix_from_download_history`, with its loop building the tag list. */
    method Patch(e: Entry, h: HistoryItem) returns (p: Entry)
      ensures p == Patched(e, h)
    {
      var list: seq<Tag> := [];
      for t := 0 to |h.tags|
        invariant |list| == t && forall k :: 0 <= k < t ==> list[k] == Tag(h.tags[k], None)
      {
        list := list + [Tag(h.tags[t], None)];
      }
      p := e.(title := h.title, author := CM.AuthorData(h.userId, h.user, h.user), tags := list,
        createdAt := h.date, sanityLevel := h.sl, xRestrict := h.xRestrict);
    }

    /**
     * `fix_from_download_history`: every entry whose author id is 0 takes
     * title, author, tags, date and levels from its first history record.
     */
    method FixFromDownloadHistory(history: seq<HistoryItem>)
      modifies this`images
      ensures |images| == |old(images)|
      ensures forall k :: 0 <= k < |images| ==> images[k] == Fixed(old(images)[k], history)
    {
      var orig := images;
      var todo: seq<nat> := [];
      for i := 0 to |orig|
        invariant forall t :: 0 <= t < |todo| ==> todo[t] < i
        invariant forall t, u :: 0 <= t < u < |todo| ==> todo[t] < todo[u]
        invariant forall k :: 0 <= k < i ==> (k in todo <==> orig[k].author.id == 0)
      {
        if orig[i].author.id == 0 {
          todo := todo + [i];
        }
      }
      var list := orig;
      for t := 0 to |todo|
        invariant |list| == |orig|
        invariant forall k :: 0 <= k < |list| ==> list[k] == (if k in todo[..t] then Fixed(orig[k], history) else orig[k])
      {
        var k := todo[t];
        assert todo[..t + 1] == todo[..t] + [k];
        assert k !in todo[..t];
        var found := Lookup(history, list[k].id);
        if found.Some? {
          var p := Patch(list[k], found.value);
          list := list[k := p];
        }
      }
      assert todo[..|todo|] == todo;
      forall k | 0 <= k < |list| && k !in todo
        ensures list[k] == Fixed(orig[k], history)
      {
        FixedEntry(orig[k], history);
      }
      images := list;
    }

    /** The record checks of `check`: duplicate key, no tags, no title. */
    method CheckRecord(seen: set<int>, e: Entry) returns (notices: seq<Notice>)
      ensures notices == RecordNotices(seen, e)
    {
      notices := [];
      if e.id * 1000 + e.part in seen {
        notices := notices + [Duplicate(e.id, e.part)];
      }
      if |e.tags| == 0 {
        notices := notices + [NoTags(e.id, e.part)];
      }
      if e.title == "" {
        notices := notices + [NoTitle(e.id, e.part)];
      }
    }

    /** The size and colour checks of `check`, with the repaired large image made at `LARGE_SIZE`. */
    method Inspect(a: Audit, e: Entry, pic: CM.Picture, tryFix: bool) returns (r: Audit)
      ensures r == Inspected(a, e, pic, tryFix, LargeSize)
    {
      var image := e;
      var thumbs := a.thumbnails;
      var bigs := a.larges;
      var notices := a.notices;
      if (pic.width, pic.height) != e.size {
        notices := notices + [SizeMismatch(e.id, e.part, e.size, (pic.width, pic.height))];
        if tryFix {
          image := image.(size := (pic.width, pic.height));
          thumbs := thumbs[WebpName(e) := ThumbnailSize];
          bigs := bigs[WebpName(e) := LargeSize];
        }
      }
      if image.dominantColor.None? {
        image := image.(dominantColor := Some(CM.DominantColor(pic)));
      }
      r := Audit(a.done + [image], a.seen, thumbs, bigs, notices);
    }

    /** `check` on one entry. */
    method CheckEntry(a: Audit, e: Entry, tryFix: bool) returns (r: Audit)
      ensures r == AuditEntry(a, e, tryFix, pictures, originals)
    {
      var found := CheckRecord(a.seen, e);
      var b := a.(seen := a.seen + {e.id * 1000 + e.part}, notices := a.notices + found);
      var picture := CM.OpenIn(pictures, originals, FileName(e));
      if picture.None? {
        return b.(done := b.done + [e], notices := b.notices + [Damaged(e.id, e.part)]);
      }
      r := Inspect(b, e, picture.value, tryFix);
    }

    /** The loop of `check` over the list. */
    method CheckLoop(a0: Audit, entries: seq<Entry>, tryFix: bool) returns (a: Audit)
      ensures a == Auditing(a0, entries, tryFix, pictures, originals)
    {
      a := a0;
      assert entries[0..] == entries;
      for i := 0 to |entries|
        invariant Auditing(a0, entries, tryFix, pictures, originals) == Auditing(a, entries[i..], tryFix, pictures, originals)
      {
        AuditingStep(a, entries, i, tryFix, pictures, originals);
        a := CheckEntry(a, entries[i], tryFix);
      }
      assert entries[|entries|..] == [];
    }

    /**
     * `check`: every entry is checked in order; with `try_fix`, sizes are
     * repaired and both derivatives remade; missing colours are filled in.
     */
    method Check(tryFix: bool) returns (notices: seq<Notice>)
      modifies this`images, this`thumbnails, this`larges
      ensures var r := Auditing(Audit([], {}, old(thumbnails), old(larges), []), old(images), tryFix, pictures, originals);
        images == r.done && thumbnails == r.thumbnails && larges == r.larges && notices == r.notices
    {
      var a := CheckLoop(Audit([], {}, thumbnails, larges, []), images, tryFix);
      images, thumbnails, larges, notices := a.done, a.thumbnails, a.larges, a.notices;
    }
  }
}
