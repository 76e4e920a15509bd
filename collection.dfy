/**
 * `PixivCollection` of `pixiv_collection/collection.py`: the four record
 * dictionaries, the illustration cache and the three image directories as
 * fields, and each operation as a method that changes them step by step as
 * the source does. Each method is proved to end in the state the matching
 * function of `CollectionModel` describes; the properties of those functions
 * are proved there.
 */
module Collection {
  import opened Wrappers
  import opened Dicts
  import opened Sorting
  import opened PixivApi
  import opened CollectionModel

  /** A result with `acc` in front of the rows of an `Ok`. */
  function Prepend(acc: seq<Exported>, r: Result<seq<Exported>, Fault>): Result<seq<Exported>, Fault> {
    match r
    case Err(fault) => Err(fault)
    case Ok(rows) => Ok(acc + rows)
  }

  /**
   * One step of the file loop of `clean` on a derivative directory: the
   * entry's derivative is deleted exactly when its original is gone.
   */
  lemma UnlinkedStep(dir: set<string>, files: Dict<string, Record<FileData>>, i: nat, originals: set<string>)
    requires i < |files|
    ensures var before := dir - Unlinked(files[..i], originals);
      dir - Unlinked(files[..i + 1], originals) ==
      (if files[i].0 in originals then before else before - {DerivativeName(files[i].1.data.id, files[i].1.data.part)})
  {
    assert files[..i + 1] == files[..i] + [files[i]];
    assert forall x :: x in files[..i + 1] <==> x in files[..i] || x == files[i];
  }

  /** The queue of a page from item `i` on: that item's, then the rest. */
  lemma QueuedStep(items: seq<Bookmark>, known: set<int>, i: nat)
    requires i < |items|
    ensures QueuedOnPage(items[i..], known) == Queued(items[i], known) + QueuedOnPage(items[i + 1..], known)
  {
    assert items[i..][1..] == items[i + 1..];
  }

  /** The whole prefix is the dict. */
  lemma UnlinkedWhole(files: Dict<string, Record<FileData>>, originals: set<string>)
    ensures Unlinked(files[..|files|], originals) == Unlinked(files, originals)
  {
    assert files[..|files|] == files;
  }

  /** The download loop after `i` URLs is the loop from `i` on. */
  lemma DownloadsStep(originals: set<string>, urls: seq<string>, i: nat, downloads: Downloads)
    requires i < |urls|
    ensures AfterDownloads(originals, urls[i..], downloads) ==
      AfterDownloads(AfterDownload(originals, urls[i], downloads), urls[i + 1..], downloads)
    ensures FailedDownloads(urls[i..], downloads) ==
      (if Downloading(downloads, urls[i], 0).success then [] else [urls[i]]) + FailedDownloads(urls[i + 1..], downloads)
  {
    assert urls[i..][1..] == urls[i + 1..];
  }

  /** The loop from the first URL is the whole loop. */
  lemma DownloadsFrom(originals: set<string>, urls: seq<string>, downloads: Downloads)
    ensures AfterDownloads(originals, urls[0..], downloads) == AfterDownloads(originals, urls, downloads)
    ensures FailedDownloads(urls[0..], downloads) == FailedDownloads(urls, downloads)
  {
    assert urls[0..] == urls;
  }

  /** Past the last URL nothing is left to do. */
  lemma DownloadsEnd(originals: set<string>, urls: seq<string>, downloads: Downloads)
    ensures AfterDownloads(originals, urls[|urls|..], downloads) == originals
    ensures FailedDownloads(urls[|urls|..], downloads) == []
  {
    assert urls[|urls|..] == [];
  }

  class PixivCollection {
    /** `illust_detail`, `download`, `user_bookmarks_illust` and `Image.open` as oracles. */
    const details: Details
    const downloads: Downloads
    const bookmarks: Bookmarks
    const pictures: Pictures

    /** `__cache`: illustrations looked up so far, by id. */
    var cache: map<int, Illust>

    var files: Dict<string, Record<FileData>>
    var images: Dict<int, Record<ImageData>>
    var authors: Dict<int, Record<AuthorData>>
    var tags: Dict<string, Record<Tag>>

    /** The names in the original, preview and thumbnail directories. */
    var originals: set<string>
    var previews: set<string>
    var thumbnails: set<string>

    function State(): Store
      reads this
    {
      Store(files, images, authors, tags)
    }

    /** Keys are unique and every cached illustration is what a lookup would give. */
    ghost predicate Valid()
      reads this
    {
      WellFormed(State()) && Cached(details, cache)
    }

    /** A store with no records over the given directories. */
    constructor(details: Details, downloads: Downloads, bookmarks: Bookmarks, pictures: Pictures,
                originals: set<string>, previews: set<string>, thumbnails: set<string>)
      ensures Valid()
      ensures this.details == details && this.downloads == downloads
      ensures this.bookmarks == bookmarks && this.pictures == pictures
      ensures State() == Store([], [], [], []) && cache == map[]
      ensures this.originals == originals && this.previews == previews && this.thumbnails == thumbnails
    {
      this.details := details;
      this.downloads := downloads;
      this.bookmarks := bookmarks;
      this.pictures := pictures;
      cache := map[];
      files, images, authors, tags := [], [], [], [];
      this.originals := originals;
      this.previews := previews;
      this.thumbnails := thumbnails;
    }

    /**
     * `__get_illust_info`: a cached illustration is returned without calling
     * the API; otherwise the retry loop runs and only a success is cached.
     */
    method GetIllustInfo(id: int) returns (illust: Option<Illust>, calls: nat)
      requires Valid()
      modifies this`cache
      ensures Valid()
      ensures illust == Fetching(details, id, 0).illust
      ensures id in old(cache) ==> calls == 0 && cache == old(cache)
      ensures id !in old(cache) ==> calls == Fetching(details, id, 0).calls
      ensures id !in old(cache) ==> cache == (if illust.Some? then old(cache)[id := illust.value] else old(cache))
    {
      if id in cache {
        return Some(cache[id]), 0;
      }
      illust, calls := FetchIllust(details, id);
      if illust.Some? {
        cache := cache[id := illust.value];
      }
    }

    /**
     * `__download_image`: up to four attempts; a failed attempt removes what
     * it left behind, so the file is on disk afterwards exactly on success.
     */
    method DownloadImage(url: string) returns (success: bool)
      modifies this`originals
      ensures success == Downloading(downloads, url, 0).success
      ensures originals == AfterDownload(old(originals), url, downloads)
    {
      var name := FileNameOf(url);
      var retry := 0;
      success := false;
      while !success && retry <= 3
        invariant retry <= 4
        invariant !success ==> Downloading(downloads, url, 0) == Downloading(downloads, url, retry)
        invariant !success ==> originals == (if retry == 0 then old(originals) else old(originals) - {name})
        invariant success ==> Downloading(downloads, url, 0).success && originals == old(originals) + {name}
        decreases 4 - retry, if success then 0 else 1
      {
        match downloads(url, retry) {
          case Saved =>
            originals := originals + {name};
            success := true;
          case Partial =>
            originals := originals + {name};
            originals := originals - {name};
            retry := retry + 1;
          case NoFile =>
            originals := originals - {name};
            retry := retry + 1;
        }
      }
    }

    /** What the inner loop of `download_bookmark` queues for one item. */
    method QueueItem(item: Bookmark, known: set<int>) returns (urls: seq<string>)
      ensures urls == Queued(item, known)
    {
      urls := [];
      if !item.visible || item.id in known {
        return;
      }
      if item.pageCount == 1 {
        urls := [item.singleUrl];
      } else {
        for j := 0 to |item.pageUrls|
          invariant urls == item.pageUrls[..j]
        {
          urls := urls + [item.pageUrls[j]];
        }
        assert item.pageUrls[..|item.pageUrls|] == item.pageUrls;
      }
    }

    /** The inner loop of `download_bookmark` over one page of bookmarks. */
    method QueuePage(items: seq<Bookmark>, known: set<int>) returns (urls: seq<string>)
      ensures urls == QueuedOnPage(items, known)
    {
      urls := [];
      assert items[0..] == items;
      for i := 0 to |items|
        invariant QueuedOnPage(items, known) == urls + QueuedOnPage(items[i..], known)
      {
        QueuedStep(items, known, i);
        var found := QueueItem(items[i], known);
        assert urls + (found + QueuedOnPage(items[i + 1..], known)) ==
          (urls + found) + QueuedOnPage(items[i + 1..], known);
        urls := urls + found;
      }
      assert items[|items|..] == [];
    }

    /**
     * `download_bookmark`: list up to `max_page` pages (stopping at the last
     * page), queue the originals of visible bookmarks that have no image
     * record yet, then try every queued URL.
     */
    method DownloadBookmark(userId: int, restrict: string, maxPage: int) returns (queued: seq<string>, failed: seq<string>)
      modifies this`originals
      ensures queued == QueuedAll(Pages(bookmarks, userId, restrict, None, PageBudget(maxPage)), KeySet(images))
      ensures failed == FailedDownloads(queued, downloads)
      ensures originals == AfterDownloads(old(originals), queued, downloads)
    {
      queued := ListBookmarks(userId, restrict, maxPage);
      failed := DownloadAll(queued);
    }

    /**
     * The listing loop of `download_bookmark`: follow `next_url` for up to
     * `max_page` pages, stopping after the page that has none.
     */
    method ListBookmarks(userId: int, restrict: string, maxPage: int) returns (queued: seq<string>)
      ensures queued == QueuedAll(Pages(bookmarks, userId, restrict, None, PageBudget(maxPage)), KeySet(images))
    {
      var known := KeySet(images);
      ghost var total := QueuedAll(Pages(bookmarks, userId, restrict, None, PageBudget(maxPage)), known);
      queued := [];
      var curPage := 1;
      var next: Option<string> := None;
      var done := false;
      while curPage <= maxPage && !done
        invariant curPage >= 1
        invariant !done ==> total == queued + QueuedAll(Pages(bookmarks, userId, restrict, next, PageBudget(maxPage - curPage + 1)), known)
        invariant done ==> total == queued
        decreases maxPage - curPage + 1, if done then 0 else 1
      {
        ghost var budget := PageBudget(maxPage - curPage + 1);
        ListingStep(bookmarks, userId, restrict, next, budget, known, queued, total);
        curPage := curPage + 1;
        assert PageBudget(maxPage - curPage + 1) == budget - 1;
        var page := bookmarks(userId, restrict, next);
        var urls := QueuePage(page.illusts, known);
        queued := queued + urls;
        next := page.nextUrl;
        done := next.None?;
      }
      if !done {
        assert PageBudget(maxPage - curPage + 1) == 0;
      }
    }

    /** The download loop of `download_bookmark`: every queued URL is tried; failures are kept in order. */
    method DownloadAll(urls: seq<string>) returns (failed: seq<string>)
      modifies this`originals
      ensures failed == FailedDownloads(urls, downloads)
      ensures originals == AfterDownloads(old(originals), urls, downloads)
    {
      ghost var disk := AfterDownloads(originals, urls, downloads);
      ghost var lost := FailedDownloads(urls, downloads);
      failed := [];
      DownloadsFrom(originals, urls, downloads);
      for i := 0 to |urls|
        invariant disk == AfterDownloads(originals, urls[i..], downloads)
        invariant lost == failed + FailedDownloads(urls[i..], downloads)
      {
        var url := urls[i];
        DownloadsStep(originals, urls, i, downloads);
        ghost var rest := FailedDownloads(urls[i + 1..], downloads);
        var success := DownloadImage(url);
        if !success {
          assert failed + ([url] + rest) == (failed + [url]) + rest;
          failed := failed + [url];
        } else {
          assert [] + rest == rest;
        }
      }
      DownloadsEnd(originals, urls, downloads);
    }

    /** The loop shared by `generate_preview` and `generate_thumbnail`, over one directory. */
    method Derive(dir: set<string>, overwrite: bool) returns (g: Generated)
      ensures g == Generating(files, dir, overwrite, pictures, originals)
    {
      var entries := files;
      ghost var total := Generating(entries, dir, overwrite, pictures, originals);
      var current := dir;
      var made: seq<string> := [];
      assert entries[0..] == entries;
      for i := 0 to |entries|
        invariant GeneratingFrom(total, entries, i, current, made, overwrite, pictures, originals)
      {
        var f := entries[i].1.data;
        var name := DerivativeName(f.id, f.part);
        if name !in current || overwrite {
          var source := OriginalName(f.id, f.part, f.ext);
          if OpenIn(pictures, originals, source).None? {
            GeneratingFails(total, entries, i, current, made, overwrite, pictures, originals);
            return Generated(current, made, Some(Unreadable(source)));
          }
          GeneratingMakes(total, entries, i, current, made, overwrite, pictures, originals);
          current := current + {name};
          made := made + [name];
        } else {
          GeneratingSkips(total, entries, i, current, made, overwrite, pictures, originals);
        }
      }
      assert entries[|entries|..] == [];
      assert made + [] == made;
      return Generated(current, made, None);
    }

    /** `generate_preview`: the skip rule over the preview directory. */
    method GeneratePreview(overwrite: bool) returns (made: seq<string>, fault: Option<Fault>)
      modifies this`previews
      ensures Generated(previews, made, fault) == Generating(files, old(previews), overwrite, pictures, originals)
    {
      var g := Derive(previews, overwrite);
      previews := g.dir;
      return g.made, g.fault;
    }

    /** `generate_thumbnail`: the skip rule over the thumbnail directory. */
    method GenerateThumbnail(overwrite: bool) returns (made: seq<string>, fault: Option<Fault>)
      modifies this`thumbnails
      ensures Generated(thumbnails, made, fault) == Generating(files, old(thumbnails), overwrite, pictures, originals)
    {
      var g := Derive(thumbnails, overwrite);
      thumbnails := g.dir;
      return g.made, g.fault;
    }

    /** The file loop of `clean`: records whose original is gone are dropped with their derivatives. */
    method DropMissing()
      requires Unique(files)
      modifies this`files, this`previews, this`thumbnails
      ensures files == Keep(old(files), originals)
      ensures previews == old(previews) - Unlinked(old(files), originals)
      ensures thumbnails == old(thumbnails) - Unlinked(old(files), originals)
    {
      var snapshot, live := files, originals;
      var kept, keptPreviews, keptThumbnails := files, previews, thumbnails;
      KeepAll(snapshot, live + KeySet(snapshot));
      for i := 0 to |snapshot|
        invariant kept == Keep(snapshot, live + KeySet(snapshot[i..]))
        invariant keptPreviews == old(previews) - Unlinked(snapshot[..i], live)
        invariant keptThumbnails == old(thumbnails) - Unlinked(snapshot[..i], live)
      {
        var name := snapshot[i].0;
        var f := snapshot[i].1.data;
        PruneStep(snapshot, live, i);
        UnlinkedStep(old(previews), snapshot, i, live);
        UnlinkedStep(old(thumbnails), snapshot, i, live);
        if name !in live {
          kept := Delete(kept, name);
          var derivative := DerivativeName(f.id, f.part);
          keptPreviews := keptPreviews - {derivative};
          keptThumbnails := keptThumbnails - {derivative};
        }
      }
      assert live + KeySet(snapshot[|snapshot|..]) == live;
      UnlinkedWhole(snapshot, live);
      files, previews, thumbnails := kept, keptPreviews, keptThumbnails;
    }

    /**
     * `clean`: drop file records whose original is gone (with their
     * derivatives), then images, authors and tags nothing refers to.
     */
    method Clean()
      requires Valid()
      modifies this`files, this`images, this`authors, this`tags, this`previews, this`thumbnails
      ensures Valid()
      ensures State() == Cleaned(old(State()), originals)
      ensures previews == old(previews) - Unlinked(old(files), originals)
      ensures thumbnails == old(thumbnails) - Unlinked(old(files), originals)
    {
      DropMissing();
      var keptImages := Prune(images, FileIds(files));
      var keptAuthors := Prune(authors, AuthorIds(keptImages));
      var keptTags := Prune(tags, TagNames(keptImages));
      images, authors, tags := keptImages, keptAuthors, keptTags;
      CleanedWellFormed(old(State()), originals);
    }

    /** The tag loop of `update`: one upsert per tag of the illustration, in order. */
    method UpsertTagList(list: seq<Tag>, now: int)
      modifies this`tags
      ensures tags == UpsertTags(old(tags), list, now)
    {
      for j := 0 to |list|
        invariant tags == UpsertTags(old(tags), list[..j], now)
      {
        assert list[..j + 1][..j] == list[..j];
        tags := UpdateData(tags, list[j].name, list[j], now);
      }
      assert list[..|list|] == list;
    }

    /**
     * One name of the original directory in `update`: skip a recorded file,
     * stop at a name that does not parse or a picture that does not open,
     * skip a file whose lookup fails, and otherwise write its records.
     */
    method UpdateFile(file: string, now: int) returns (fault: Option<Fault>)
      requires Valid()
      modifies this`files, this`images, this`authors, this`tags, this`cache
      ensures Valid()
      ensures UpdateStep(old(State()), file, details, pictures, originals, now) ==
        (if fault.Some? then Err(fault.value) else Ok(State()))
      ensures fault.Some? ==> State() == old(State())
    {
      if file in KeySet(files) {
        return None;
      }
      var parsed := ParseName(file);
      if parsed.None? {
        return Some(BadName(file));
      }
      var (id, part) := parsed.value;
      var info, _ := GetIllustInfo(id);
      if info.None? {
        return None;
      }
      var picture := OpenIn(pictures, originals, file);
      if picture.None? {
        return Some(Unreadable(file));
      }
      WriteRecords(file, id, part, info.value, picture.value, now);
      return None;
    }

    /** The writes of one `update` step: file, image, author, then each tag. */
    method WriteRecords(file: string, id: int, part: int, illust: Illust, pic: Picture, now: int)
      requires WellFormed(State())
      modifies this`files, this`images, this`authors, this`tags
      ensures State() == Ingested(old(State()), file, id, part, illust, pic, now)
      ensures WellFormed(State())
    {
      files := UpdateData(files, file, FileOf(file, id, part, pic), now);
      images := UpdateData(images, id, ImageOf(id, illust), now);
      authors := UpdateData(authors, illust.user.id, AuthorOf(illust.user), now);
      UpsertTagList(illust.tags, now);
    }

    /**
     * `update`: record every new original of the listing, in order. A name
     * that does not parse or a picture that does not open ends the pass; a
     * failed lookup skips the file (the `continue` the source lacks).
     */
    method Update(listing: seq<string>, now: int) returns (fault: Option<Fault>)
      requires Valid()
      modifies this`files, this`images, this`authors, this`tags, this`cache
      ensures Valid()
      ensures Outcome(State(), fault) == Updating(old(State()), listing, details, pictures, originals, now)
    {
      for i := 0 to |listing|
        invariant Valid()
        invariant Updating(old(State()), listing, details, pictures, originals, now) ==
          Updating(State(), listing[i..], details, pictures, originals, now)
      {
        assert listing[i..] == [listing[i]] + listing[i + 1..];
        fault := UpdateFile(listing[i], now);
        if fault.Some? {
          return;
        }
      }
      return None;
    }

    /** The record checks of `check` for one file. */
    method CheckRecord(opts: CheckOptions, f: FileData) returns (found: seq<Warning>, fault: Option<Fault>)
      ensures RecordWarnings(images, opts, f) == (if fault.Some? then Err(fault.value) else Ok(found))
    {
      found := [];
      if !(opts.checkTag || opts.checkTitle || opts.checkBookmark || opts.checkView) {
        return [], None;
      }
      var image := Get(images, f.id);
      if image.None? {
        return [], Some(MissingRecord);
      }
      var data := image.value.data;
      var tagWarning := if opts.checkTag && |data.tags| == 0 then [NoTags(f.id, f.part)] else [];
      var titleWarning := if opts.checkTitle && data.title == "" then [NoTitle(f.id, f.part)] else [];
      var bookmarkWarning := if opts.checkBookmark && data.bookmark <= 0 then [NoBookmarks(f.id, f.part)] else [];
      var viewWarning := if opts.checkView && data.view <= 0 then [NoViews(f.id, f.part)] else [];
      return tagWarning + titleWarning + bookmarkWarning + viewWarning, None;
    }

    /**
     * One file of `check`: its record checks, then the picture; a size that
     * differs is reported and, with `try_fix`, repaired.
     */
    method CheckEntry(name: string, rec: Record<FileData>, opts: CheckOptions, before: seq<Warning>)
      returns (warnings: seq<Warning>, fault: Option<Fault>)
      requires Unique(files)
      modifies this`files, this`previews, this`thumbnails
      ensures Unique(files)
      ensures Checked(files, previews, thumbnails, warnings, fault) ==
        CheckFile(Checked(old(files), old(previews), old(thumbnails), before, None), name, rec, images, opts, pictures, originals)
    {
      var f := rec.data;
      var found, missing := CheckRecord(opts, f);
      if missing.Some? {
        return before, missing;
      }
      warnings := before + found;
      var picture := OpenIn(pictures, originals, name);
      if picture.None? {
        return warnings + [Damaged(f.id, f.part)], None;
      }
      var pic := picture.value;
      var actual := (pic.width, pic.height);
      if actual == f.size {
        return warnings, None;
      }
      warnings := warnings + [SizeMismatch(f.id, f.part, f.size, actual)];
      if !opts.tryFix {
        return warnings, None;
      }
      warnings := Repair(name, rec, pic, warnings);
      fault := None;
    }

    /** The `try_fix` branch of `check` for a file whose size is off. */
    method Repair(name: string, rec: Record<FileData>, pic: Picture, mismatch: seq<Warning>) returns (warnings: seq<Warning>)
      requires Unique(files)
      modifies this`files, this`previews, this`thumbnails
      ensures Unique(files)
      ensures Checked(files, previews, thumbnails, warnings, None) ==
        Repaired(Checked(old(files), old(previews), old(thumbnails), [], None), name, rec, pic, mismatch, pictures, originals)
    {
      ghost var c := Checked(files, previews, thumbnails, [], None);
      var f := rec.data;
      var resized := f.(size := (pic.width, pic.height));
      files := Set(files, name, Record(rec.update, resized));
      var derivative := DerivativeName(f.id, f.part);
      previews := previews - {derivative};
      if OpenIn(pictures, originals, OriginalName(f.id, f.part, f.ext)).None? {
        warnings := mismatch + [Damaged(f.id, f.part)];
        assert Repaired(c, name, rec, pic, mismatch, pictures, originals) ==
          Checked(files, previews, thumbnails, warnings, None);
        return;
      }
      previews := previews + {derivative};
      thumbnails := thumbnails - {derivative};
      thumbnails := thumbnails + {derivative};
      var recoloured := Record(rec.update, resized.(dominantColor := DominantColor(pic)));
      SetSet(old(files), name, Record(rec.update, resized), recoloured);
      files := Set(files, name, recoloured);
      assert previews == old(previews) + {derivative};
      assert thumbnails == old(thumbnails) + {derivative};
      warnings := mismatch;
      assert Repaired(c, name, rec, pic, mismatch, pictures, originals) ==
        Checked(files, previews, thumbnails, warnings, None);
    }

    /**
     * `check`: report records and pictures that look wrong and, with
     * `try_fix`, repair sizes, derivatives and colours of mismatched files.
     */
    method Check(opts: CheckOptions) returns (warnings: seq<Warning>, fault: Option<Fault>)
      requires Valid()
      modifies this`files, this`previews, this`thumbnails
      ensures Valid()
      ensures Checked(files, previews, thumbnails, warnings, fault) ==
        Checking(Checked(old(files), old(previews), old(thumbnails), [], None), old(files), images, opts, pictures, originals)
    {
      var entries := files;
      ghost var start := Checked(files, previews, thumbnails, [], None);
      warnings := [];
      for i := 0 to |entries|
        invariant Valid()
        invariant Checking(start, entries, images, opts, pictures, originals) ==
          Checking(Checked(files, previews, thumbnails, warnings, None), entries[i..], images, opts, pictures, originals)
      {
        assert entries[i..] == [entries[i]] + entries[i + 1..];
        warnings, fault := CheckEntry(entries[i].0, entries[i].1, opts, warnings);
        if fault.Some? {
          return;
        }
      }
      return warnings, None;
    }

    /**
     * `export`: one joined row per file that passes the sanity filter, in
     * file order, then sorted descending by `id * 1000 + 999 - part`.
     */
    method Export(maxSl: int) returns (out: Result<seq<Exported>, Fault>)
      ensures out == Exporting(State(), maxSl)
    {
      var result: seq<Exported> := [];
      assert files[0..] == files;
      match Rows(State(), maxSl, files) {
        case Ok(rows) => assert [] + rows == rows;
        case Err(_) =>
      }
      for i := 0 to |files|
        invariant Rows(State(), maxSl, files) == Prepend(result, Rows(State(), maxSl, files[i..]))
      {
        assert files[i..][1..] == files[i + 1..];
        var f := files[i].1.data;
        var image := Get(images, f.id);
        if image.None? {
          return Err(MissingRecord);
        }
        if !Passes(image.value.data, maxSl) {
          continue;
        }
        var row := Row(State(), f);
        if row.None? {
          return Err(MissingRecord);
        }
        match Rows(State(), maxSl, files[i + 1..]) {
          case Ok(rows) => assert result + ([row.value] + rows) == (result + [row.value]) + rows;
          case Err(_) =>
        }
        result := result + [row.value];
      }
      assert files[|files|..] == [];
      assert result + [] == result;
      out := Ok(SortDesc(result, ExportKey));
    }

    /** `save_data`: sort authors and images by id and files by `id * 1000 + part`, then write. */
    method SaveData() returns (written: Store)
      requires Valid()
      modifies this`files, this`images, this`authors
      ensures Valid()
      ensures State() == CollectionModel.Saved(old(State())) && written == State()
    {
      SavedContents(State());
      authors := SortBy(authors, AuthorOrder);
      images := SortBy(images, ImageOrder);
      files := SortBy(files, FileOrder);
      written := State();
    }

    /** `read_data`: the four dictionaries as loaded. */
    method ReadData(data: Store)
      requires Valid() && WellFormed(data)
      modifies this`files, this`images, this`authors, this`tags
      ensures Valid()
      ensures State() == data
    {
      authors := data.authors;
      images := data.images;
      tags := data.tags;
      files := data.files;
    }
  }
}
