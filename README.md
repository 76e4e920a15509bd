# Pixiv collection store, nginx log splitter and NetEase version check

This project models, in Dafny, the stateful core of four scripts:

- `pixiv_collection/collection.py`. Its `PixivCollection` keeps a local
  collection of Pixiv bookmarks in four ordered dictionaries of
  `{update, data}` records: `files`, `images`, `authors` and `tags`.
  - `update` records every new original found on disk.
  - `clean` prunes records whose original is gone, then cascades to
    images, authors and tags nothing refers to.
  - `save_data` re-sorts the dictionaries before writing them.
  - `export` writes joined, filtered and sorted rows.
  - `check` reports and repairs size mismatches.
  - `download_bookmark` queues and downloads missing originals.
  - `generate_preview` and `generate_thumbnail` make missing derivatives.
- `pixiv_collection/pixiv_collection.py`. An earlier variant of the same
  store, built on one list of image entries. It has its own rules:
  - a sanity-level filter on save;
  - an id-descending sort;
  - duplicate detection;
  - a single download attempt;
  - "download only if no page exists";
  - patching from a download history;
  - a `check` with a duplicate index.
- `nginx_log_split/nginx_log_split.py`. It splits a live nginx log by the
  date of each line into `save_dir/YYYY-MM/<stem>_<date>.log`, then deletes
  archived files older than the retention period.
- `ncm_version_check/ncm_version_check.py`. It reads the version of NetEase
  Cloud Music's latest package from the redirect URL of its download
  endpoint, and records the version in `version.json` when it is newer.

Python's ordered `dict` is a sequence of key/value pairs with distinct keys
(module `Dicts`). Module `Dicts` gives it Python's semantics:

- assignment replaces a present key in place and appends a new one;
- `del` keeps the order of the remaining entries.

The store's keys are modelled as follows:

- `images` and `authors` are keyed by the integer id. The source keys them
  by `str(id)`, and `str` is injective on integers (`Numerals.ShowInjective`).
- `tags` are keyed by the tag name.

External effects are parameters of the model:

- the Pixiv API is a set of oracles:
  - `illust_detail` replies by id and by the attempt within one lookup;
  - `download` replies by URL and attempt;
  - `user_bookmarks_illust` replies by user, restriction and `next_url`;
- `Image.open` together with `ColorThief` is an oracle from file name to
  size and colour;
- each directory is a set of names, or for the archive a map of names to
  contents;
- the clock is a parameter (`now`, `today`);
- the HTTP response is an input.

Each class (`Collection.PixivCollection`, `LegacyCollection.PixivCollection`
and `NcmVersionCheck.VersionFile`) holds the source's mutable state as
fields. Its methods update that state with the loops the source has, and
each method is proved to end in the state a function of the model
describes. The lemmas beside those functions state the properties the
scripts promise.

## Model

| member | source | states |
|---|---|---|
| `Strings.Split` | pixiv_collection/collection.py:330-331 | `s.split(sep)` gives at least one piece and no piece holds the separator |
| `Strings.JoinSplit` | pixiv_collection/collection.py:330-331 | splitting loses nothing: joining the pieces with the separator gives the text back |
| `Strings.SplitJoin` | pixiv_collection/collection.py:330-331 | splitting undoes joining when no piece holds the separator |
| `Strings.SplitNoSep` | pixiv_collection/collection.py:330 | text without the separator splits into itself alone |
| `Strings.SplitAfterHead` | pixiv_collection/collection.py:330 | a separator-free head followed by the separator comes off as the first piece |
| `Strings.Piece` | pixiv_collection/pixiv_collection.py:251 | `s.split(sep)[i]` exists exactly when there are more than `i` pieces, and holds no separator |
| `Strings.FirstPiece` | pixiv_collection/collection.py:330 | `s.split(sep)[0]` holds no separator |
| `Strings.LastPiece` | pixiv_collection/collection.py:349 | `s.split(sep)[-1]` holds no separator |
| `Strings.LastIndex` | nginx_log_split/nginx_log_split.py:58 | the last occurrence of a character: absent exactly when the text lacks it, and no occurrence follows it |
| `Strings.RSplitOnce` | nginx_log_split/nginx_log_split.py:58 | `rsplit(sep, 1)` gives the whole text when it lacks the separator, otherwise two parts that rejoin to the text, with no separator after the cut |
| `Strings.RSplitOnceAt` | ncm_version_check/ncm_version_check.py:40-42 | the cut falls at the separator that has no separator after it |
| `Strings.FirstPieceAt` | nginx_log_split/nginx_log_split.py:75 | `split('.')[0]` of `a.b` is `a` when `a` has no `.` |
| `Numerals.DigitChar` | pixiv_collection/collection.py:159 | a decimal digit character denotes its value |
| `Numerals.ShowNat` | pixiv_collection/collection.py:159 | `str(n)` of a non-negative number is all digits |
| `Numerals.Show` | pixiv_collection/collection.py:159 | `str(i)` is non-empty and made of digits and a minus sign |
| `Numerals.DigitsValueShowNat` | pixiv_collection/collection.py:159 | the digits `str(n)` writes read back as `n` |
| `Numerals.ParseShow` | pixiv_collection/collection.py:304-306 | `int(str(i)) == i`, so `int(image_id)` recovers the id the record was keyed by |
| `Numerals.ShowInjective` | pixiv_collection/collection.py:159 | distinct ids get distinct `str` keys, so keying records by the integer loses nothing |
| `Numerals.HexDigit` | pixiv_collection/collection.py:28 | a hex digit character denotes its value |
| `Numerals.HexNat` | pixiv_collection/collection.py:28 | `hex(n)` without `0x` is a non-empty run of lower-case hex digits |
| `Numerals.HexFixed` | pixiv_collection/collection.py:28 | the padded rendering has exactly the requested number of hex digits |
| `Numerals.HexValueHexNat` | pixiv_collection/collection.py:28 | the digits `hex(n)` writes read back as `n` |
| `Numerals.HexValueHexFixed` | pixiv_collection/collection.py:28 | padded digits of a number that fits read back as the number |
| `Numerals.UnpackPack` | pixiv_collection/collection.py:26-27 | `(r << 16) + (g << 8) + b` of channels below 256 gives back the three channels |
| `Numerals.Rgb2HexAsWrittenDecodes` | pixiv_collection/collection.py:25-28 | `rgb2hex` as written gives `#` followed by hex digits from which the three channels are recovered |
| `Numerals.Rgb2HexAsWrittenIsShort` | pixiv_collection/collection.py:25-28 | as written, `(0, 0, 16)` gives `#10`, not a seven-character `#rrggbb` |
| `Numerals.Rgb2HexDecodes` | pixiv_collection/collection.py:25-28 | the corrected `rgb2hex` always gives seven characters, `#` and six hex digits, that decode to the channels |
| `Numerals.Rgb2HexAgrees` | pixiv_collection/pixiv_collection.py:17-20 | the corrected and the as-written text denote the same number |
| `Sorting.Insert` | pixiv_collection/collection.py:209-211 | inserting adds exactly one element to the multiset |
| `Sorting.InsertSorted` | pixiv_collection/collection.py:209-211 | inserting into a sorted sequence keeps it sorted |
| `Sorting.SortBy` | pixiv_collection/collection.py:209-211 | `sorted(xs, key=f)` is a permutation of `xs` in ascending key order |
| `Sorting.SortDesc` | pixiv_collection/pixiv_collection.py:92 | `xs.sort(key=f, reverse=True)` is a permutation of `xs` in descending key order |
| `Sorting.SortedSameElements` | pixiv_collection/collection.py:209-211 | an element is in the sorted sequence exactly when it is in the input |
| `Dicts.Get` | pixiv_collection/collection.py:55 | `d.get(k)` finds a value exactly when the key is present, and that value is the key's entry |
| `Dicts.GetEntry` | pixiv_collection/collection.py:55 | with unique keys, a lookup gives `v` exactly when `(k, v)` is an entry |
| `Dicts.Set` | pixiv_collection/collection.py:159-162 | `d[k] = v`: the key then maps to `v`, every other key keeps its value, the keys grow by `k`, and keys stay unique |
| `Dicts.SetNew` | pixiv_collection/collection.py:159-162 | a new key is appended after every existing entry |
| `Dicts.SetPresent` | pixiv_collection/collection.py:159-162 | a present key keeps its position, and every key keeps its own |
| `Dicts.SetMembers` | pixiv_collection/collection.py:159-162 | the entries after `d[k] = v` are the new pair and the entries of every other key |
| `Dicts.SetSet` | pixiv_collection/collection.py:407-423 | writing a key twice is writing it once with the last value |
| `Dicts.Keep` | pixiv_collection/collection.py:304-321 | the entries whose key is live, in their order: membership both ways, unique keys kept, never longer |
| `Dicts.KeepKeys` | pixiv_collection/collection.py:318-321 | the keys kept are exactly the dict's keys that are live |
| `Dicts.Delete` | pixiv_collection/collection.py:294 | `del d[k]` removes exactly the entries of `k` and keeps keys unique |
| `Dicts.KeepKeep` | pixiv_collection/collection.py:290-321 | pruning twice by two key sets is pruning once by their intersection |
| `Dicts.PruneStep` | pixiv_collection/collection.py:305-308 | one iteration over `d.copy()` deletes the entry exactly when its key is not live |
| `Dicts.Prune` | pixiv_collection/collection.py:305-308 | `for k in d.copy(): if k not in live: del d[k]` leaves exactly the live entries, in order |
| `Dicts.SortedDict` | pixiv_collection/collection.py:209-211 | `dict(sorted(d.items(), key=f))` has the same keys, each once, with the same values |
| `Dicts.SortedByKey` | pixiv_collection/collection.py:209-210 | a dict with unique integer keys, sorted by its key, runs strictly upwards |
| `Dicts.UniqueDistinct` | pixiv_collection/collection.py:159-162 | with unique keys no two positions hold the same key |
| `PixivApi.FetchIllust` | pixiv_collection/collection.py:57-79 | the retry loop of `__get_illust_info` ends with the illustration and the call count the lookup specification gives |
| `PixivApi.FetchingBounded` | pixiv_collection/collection.py:60-76 | a lookup makes at least one call and at most `MAX_RETRY + 1` |
| `PixivApi.FetchingSucceeds` | pixiv_collection/collection.py:60-79 | a lookup succeeds exactly when some call within the budget returns the illustration after only exceptions, and it then stops |
| `PixivApi.RejectedIsFinal` | pixiv_collection/collection.py:64-66 | an `error` reply ends the lookup with None at once, with no retry |
| `PixivApi.RetriesExhausted` | pixiv_collection/collection.py:69-76 | exceptions on every attempt give None after four calls |
| `PixivApi.FileNameOf` | pixiv_collection/collection.py:110 | the name a download is saved under has no `/` |
| `PixivApi.DownloadingBounded` | pixiv_collection/collection.py:112-127 | at most four attempts; success exactly when one of them saved the image; a failure has used all four |
| `PixivApi.PagesAsWritten` | pixiv_collection/collection.py:231-245 | the listing loop as written fetches exactly `max_page` pages |
| `PixivApi.Pages` | pixiv_collection/collection.py:231-245 | the intended listing fetches at most `max_page` pages, starting with the first, and stops after a page with no `next_url` |
| `PixivApi.OnePageListingFetchedTwice` | pixiv_collection/collection.py:236-245 | a one-page listing asked for two pages is fetched twice as written, once as intended |
| `PixivApi.PagesArePrefix` | pixiv_collection/pixiv_collection.py:184-198 | the intended pages are the first pages the loop as written fetches |
| `PixivApi.DisplayKeyOrder` | pixiv_collection/collection.py:454 | for parts below 1000, the key `id * 1000 + 999 - part` orders ids descending and parts ascending |
| `CollectionModel.UpdateData` | pixiv_collection/collection.py:157-162 | `__update_data` sets the key to `{update: now, data: value}` and leaves every other key as it was |
| `CollectionModel.ParseOriginalName` | pixiv_collection/collection.py:330-331 | the name `{id}_p{part}.{ext}` the downloader writes parses back to its id and part |
| `CollectionModel.OriginalNameExt` | pixiv_collection/collection.py:349 | `file.split('.')[-1]` of such a name is its extension |
| `CollectionModel.TagNameList` | pixiv_collection/collection.py:358 | `[tag["name"] for tag in tags]` keeps length and order |
| `CollectionModel.UpsertTags` | pixiv_collection/collection.py:373-375 | the tag loop adds exactly the listed names to the keys and keeps them unique |
| `CollectionModel.UpsertTagsEffect` | pixiv_collection/collection.py:373-375 | unlisted names keep their record; each listed name holds one of its listed tags, stamped `now` |
| `CollectionModel.UpdateStepAsWrittenStops` | pixiv_collection/collection.py:333-340 | as written, a new file whose illustration is gone ends `update`; with the `continue` it is skipped |
| `CollectionModel.IngestedConsistent` | pixiv_collection/collection.py:344-375 | writing one file's records keeps keys unique and every reference resolvable |
| `CollectionModel.UpdatingConsistent` | pixiv_collection/collection.py:323-375 | an `update` pass keeps keys unique and every reference resolvable |
| `CollectionModel.UpdatingKeepsRecorded` | pixiv_collection/collection.py:327-329 | `update` never rewrites a file it already has |
| `CollectionModel.UpdatingCovers` | pixiv_collection/collection.py:327-375 | a pass that runs to the end has recorded every listed name except those whose lookup failed |
| `CollectionModel.CleanedWellFormed` | pixiv_collection/collection.py:288-321 | `clean` keeps every dictionary's keys unique |
| `CollectionModel.CleanedNoOrphans` | pixiv_collection/collection.py:288-321 | after `clean` every file's original exists, every image has a file, every author an image, every tag an image |
| `CollectionModel.CleanedOnlyDeletes` | pixiv_collection/collection.py:290-321 | `clean` only deletes, never changes a surviving record, and keeps every file whose original exists |
| `CollectionModel.CleanedConsistent` | pixiv_collection/collection.py:304-321 | the cascade goes far enough: a store whose references resolve still has them resolve |
| `CollectionModel.CleanedFilesResolve` | pixiv_collection/collection.py:304-308 | every surviving file's image survives |
| `CollectionModel.CleanedImagesResolve` | pixiv_collection/collection.py:310-314 | every surviving image's author survives |
| `CollectionModel.CleanedTagsResolve` | pixiv_collection/collection.py:316-321 | every tag of a surviving image survives |
| `CollectionModel.CleanedIdempotent` | pixiv_collection/collection.py:290-321 | a second `clean` over the same disk deletes no record and no derivative |
| `CollectionModel.SavedContents` | pixiv_collection/collection.py:209-211 | `save_data` loses nothing: files ascend by `id * 1000 + part`, images and authors strictly by id, and tags keep their order |
| `CollectionModel.SavedImages` | pixiv_collection/collection.py:210 | sorted images keep every record and run strictly upwards by id |
| `CollectionModel.SavedAuthors` | pixiv_collection/collection.py:209 | sorted authors keep every record and run strictly upwards by id |
| `CollectionModel.TagRecords` | pixiv_collection/collection.py:444 | the tag records of an image exist exactly when every name is recorded, and each is that name's record |
| `CollectionModel.RowsSelected` | pixiv_collection/collection.py:431-452 | the rows are exactly those of the files whose image passes the filter, as many as there are such files |
| `CollectionModel.RowsOnePerFile` | pixiv_collection/collection.py:431-452 | one row per file that passes the filter, in the order of `files`: the `i`-th row is built from the `i`-th such file |
| `CollectionModel.PassingBounded` | pixiv_collection/collection.py:433-435 | the filter keeps at most every file |
| `CollectionModel.RowsTotal` | pixiv_collection/collection.py:431-452 | when every reference resolves, the export loop raises no KeyError |
| `CollectionModel.ExportContents` | pixiv_collection/collection.py:428-454 | `export` of a consistent store: no exception, as many rows as files that pass the filter, each row that of such a file and each such file's row present, every row within the sanity limit |
| `CollectionModel.ExportOrder` | pixiv_collection/collection.py:454 | with parts below 1000, export rows run id descending, then part ascending |
| `CollectionModel.CheckingReadOnly` | pixiv_collection/collection.py:378-426 | without `try_fix`, `check` changes no record and no derivative |
| `CollectionModel.CheckingTotal` | pixiv_collection/collection.py:380-398 | with every file's image recorded, `check` does not raise |
| `CollectionModel.CheckFileRepairs` | pixiv_collection/collection.py:400-426 | checking one file keeps the keys and at most repairs that file's record |
| `CollectionModel.SetRepairs` | pixiv_collection/collection.py:407-423 | writing a repair of a record keeps every record a repair of the original |
| `CollectionModel.CheckingRepairs` | pixiv_collection/collection.py:378-426 | `check` keeps the keys and changes a record only to the actual size (and colour) of its opened original |
| `CollectionModel.CheckingUntouched` | pixiv_collection/collection.py:380-426 | `check` leaves the record of every key it does not visit |
| `CollectionModel.CheckingFixesSizes` | pixiv_collection/collection.py:403-407 | a completed `check` with `try_fix` leaves every file whose original opens with its actual size on record |
| `CollectionModel.GeneratingAt` | pixiv_collection/collection.py:274-278 | the derivative pass from one position on: the file there, then the rest |
| `CollectionModel.GeneratingSkips` | pixiv_collection/collection.py:276 | a file whose derivative exists is skipped without `overwrite` |
| `CollectionModel.GeneratingFails` | pixiv_collection/collection.py:131-133 | a file to derive whose original does not open ends the pass with that fault |
| `CollectionModel.GeneratingMakes` | pixiv_collection/collection.py:276-278 | a file to derive whose original opens adds its derivative |
| `CollectionModel.GeneratingFills` | pixiv_collection/collection.py:272-286 | a completed pass leaves a derivative for every file, adds exactly the names it made, and with `overwrite` makes one per file |
| `CollectionModel.GeneratingNothingMissing` | pixiv_collection/collection.py:272-286 | without `overwrite`, files whose derivatives all exist produce nothing |
| `CollectionModel.GeneratingIdempotent` | pixiv_collection/collection.py:272-286 | running a completed pass again without `overwrite` makes nothing |
| `CollectionModel.QueuedAllStep` | pixiv_collection/collection.py:231-260 | the queue of the listing is the first page's queue, then that of the pages after it |
| `CollectionModel.ListingStep` | pixiv_collection/collection.py:231-260 | one more page of the listing loop keeps "queued so far plus still to come" equal to the whole queue |
| `CollectionModel.QueuedOnPageMembers` | pixiv_collection/collection.py:249-260 | a URL is queued from a page exactly when it belongs to a visible bookmark whose id has no image record |
| `CollectionModel.QueuedAllMembers` | pixiv_collection/collection.py:231-260 | a URL is queued exactly when it belongs to a visible, unrecorded bookmark of a fetched page |
| `CollectionModel.AfterDownloadsFiles` | pixiv_collection/collection.py:267-270 | every queued URL is tried: with distinct names its file is on disk afterwards exactly when its download succeeded, and other files are untouched |
| `Collection.PixivCollection.constructor` | pixiv_collection/collection.py:38-51 | a collection starts with four empty dictionaries and an empty cache |
| `Collection.PixivCollection.GetIllustInfo` | pixiv_collection/collection.py:53-79 | a cached illustration comes back with no API call; otherwise the retry loop runs and only a success is cached |
| `Collection.PixivCollection.DownloadImage` | pixiv_collection/collection.py:106-127 | success is the download specification's, and the original is on disk afterwards exactly on success |
| `Collection.PixivCollection.QueueItem` | pixiv_collection/collection.py:250-260 | one bookmark queues nothing when hidden or recorded, otherwise its single URL or every page's URL |
| `Collection.PixivCollection.QueuePage` | pixiv_collection/collection.py:249-260 | the inner loop queues exactly the page's queue |
| `Collection.PixivCollection.ListBookmarks` | pixiv_collection/collection.py:231-260 | the listing loop follows `next_url` for up to `max_page` pages and queues exactly their queue |
| `Collection.PixivCollection.DownloadAll` | pixiv_collection/collection.py:267-270 | every queued URL is tried; the failures are kept in order and the disk is what the downloads leave |
| `Collection.PixivCollection.DownloadBookmark` | pixiv_collection/collection.py:224-270 | the queue, the failures and the disk after `download_bookmark` |
| `Collection.PixivCollection.Derive` | pixiv_collection/collection.py:274-286 | the shared derivative loop ends where the skip rule's specification says |
| `Collection.PixivCollection.GeneratePreview` | pixiv_collection/collection.py:272-278 | `generate_preview` changes only the preview directory, as the skip rule says |
| `Collection.PixivCollection.GenerateThumbnail` | pixiv_collection/collection.py:280-286 | `generate_thumbnail` changes only the thumbnail directory, as the skip rule says |
| `Collection.PixivCollection.DropMissing` | pixiv_collection/collection.py:290-302 | the file loop of `clean` keeps exactly the files whose original exists and deletes the derivatives of the others |
| `Collection.PixivCollection.Clean` | pixiv_collection/collection.py:288-321 | `clean` leaves the cascaded prune of the store and keeps keys unique |
| `Collection.PixivCollection.UpsertTagList` | pixiv_collection/collection.py:373-375 | the tag loop of `update` writes one upsert per tag, in order |
| `Collection.PixivCollection.WriteRecords` | pixiv_collection/collection.py:344-375 | the writes for one new file: file, image, author, then each tag |
| `Collection.PixivCollection.UpdateFile` | pixiv_collection/collection.py:328-375 | one name of `update` ends in the step's specification, and a fault changes no record |
| `Collection.PixivCollection.Update` | pixiv_collection/collection.py:323-375 | `update` ends in the pass's specification and keeps the cache faithful to the API |
| `Collection.PixivCollection.CheckRecord` | pixiv_collection/collection.py:384-398 | the record checks warn as the switches ask, and raise KeyError for a missing image |
| `Collection.PixivCollection.CheckEntry` | pixiv_collection/collection.py:380-426 | one file of `check` ends where its specification says and keeps keys unique |
| `Collection.PixivCollection.Repair` | pixiv_collection/collection.py:406-423 | the `try_fix` branch writes the size, remakes both derivatives and recomputes the colour |
| `Collection.PixivCollection.Check` | pixiv_collection/collection.py:378-426 | `check` over every file ends in the pass's specification |
| `Collection.PixivCollection.Export` | pixiv_collection/collection.py:428-454 | `export` gives the rows of the specification, sorted descending by `id * 1000 + 999 - part` |
| `Collection.PixivCollection.SaveData` | pixiv_collection/collection.py:207-222 | `save_data` leaves and writes the re-sorted store |
| `Collection.PixivCollection.ReadData` | pixiv_collection/collection.py:195-203 | `read_data` replaces the four dictionaries with the loaded ones |
| `LegacyModel.FilterMembers` | pixiv_collection/pixiv_collection.py:84-87 | the comprehension keeps exactly the accepted entries |
| `LegacyModel.FilterConcat` | pixiv_collection/pixiv_collection.py:86 | filtering keeps the order of the list |
| `LegacyModel.FilterAll` | pixiv_collection/pixiv_collection.py:86 | a list whose entries are all accepted is kept whole |
| `LegacyModel.FilterSnoc` | pixiv_collection/pixiv_collection.py:86 | the filter of one more entry of a prefix |
| `LegacyModel.FilterSlMembers` | pixiv_collection/pixiv_collection.py:84-87 | `__filter_images_sl` keeps exactly the entries at or below the level, in order |
| `LegacyModel.SavedContents` | pixiv_collection/pixiv_collection.py:384-391 | `save` writes the whole list for `-1` and otherwise exactly the entries at or below the level |
| `LegacyModel.SortedImagesOrder` | pixiv_collection/pixiv_collection.py:89-92 | `__sort_images` orders ids descending and parts ascending within an id, for parts below 1000 |
| `LegacyModel.FailedAttemptsMembers` | pixiv_collection/pixiv_collection.py:227-230 | exactly the URLs whose one attempt failed are reported |
| `LegacyModel.AfterAttemptsFiles` | pixiv_collection/pixiv_collection.py:122-143 | with distinct names, a queued file is on disk exactly when its single attempt saved it, and other files are untouched |
| `LegacyModel.WantedAllStep` | pixiv_collection/pixiv_collection.py:184-220 | the queue of the listing is the first page's queue, then that of the pages after it |
| `LegacyModel.ListingStep` | pixiv_collection/pixiv_collection.py:184-220 | one more page of the listing loop keeps "queued so far plus still to come" equal to the whole queue |
| `LegacyModel.WantedItem` | pixiv_collection/pixiv_collection.py:202-220 | a work is queued whole or not at all, nothing queued is on disk, and the deleted placeholder is never queued for a single page |
| `LegacyModel.WantedOnPageMembers` | pixiv_collection/pixiv_collection.py:202-220 | a URL is queued from a page exactly when it is wanted for one of its bookmarks |
| `LegacyModel.WantedAllMembers` | pixiv_collection/pixiv_collection.py:184-220 | a URL is queued exactly when it is wanted on some fetched page |
| `LegacyModel.IdTextInjective` | pixiv_collection/pixiv_collection.py:234 | `f'{id}_{part}'` names different images differently |
| `LegacyModel.KnownTexts` | pixiv_collection/pixiv_collection.py:234 | `images_id_list` holds each entry's `id_part` text, in order |
| `LegacyModel.KnownTextsMembers` | pixiv_collection/pixiv_collection.py:253-254 | a file is skipped exactly when the list had an entry with its id and part |
| `LegacyModel.BadSortKey` | pixiv_collection/pixiv_collection.py:238 | the listing's sort raises exactly when some name has no integer before its first `_` |
| `LegacyModel.DuplicatesExact` | pixiv_collection/pixiv_collection.py:241-246 | a name is reported exactly when an earlier name had the same text up to its first `.` |
| `LegacyModel.MatchStepAppends` | pixiv_collection/pixiv_collection.py:249-279 | one name appends at most one entry, never one the list already had |
| `LegacyModel.MatchLoopAppends` | pixiv_collection/pixiv_collection.py:249-279 | the matching loop only appends, never an image the list had |
| `LegacyModel.MatchLoopCovers` | pixiv_collection/pixiv_collection.py:249-279 | a completed loop has an entry for every name that parses, was unknown and was looked up |
| `LegacyModel.MatchingComplete` | pixiv_collection/pixiv_collection.py:232-281 | a completed `match_images` keeps every entry and leaves the list sorted |
| `LegacyModel.RemoveFirst` | pixiv_collection/pixiv_collection.py:305 | `list.remove(x)` shortens the list by one |
| `LegacyModel.RemoveFirstAfter` | pixiv_collection/pixiv_collection.py:305 | removing an element that does not occur earlier takes out that one and keeps the rest in order |
| `LegacyModel.DroppedSnoc` | pixiv_collection/pixiv_collection.py:303-309 | the derivatives deleted after one more entry |
| `LegacyModel.CleaningComplete` | pixiv_collection/pixiv_collection.py:297-310 | `clean_deleted_images` keeps exactly the entries whose original exists, and a second pass changes nothing |
| `LegacyModel.FirstMatch` | pixiv_collection/pixiv_collection.py:323-339 | the inner loop's `break` picks the first history record with the id, or none when no record has it |
| `LegacyModel.HistoryTags` | pixiv_collection/pixiv_collection.py:329-334 | the rebuilt tags are `{name, translated_name: None}` in history order |
| `LegacyModel.FixedEntry` | pixiv_collection/pixiv_collection.py:317-339 | patching touches only entries with author id 0 that the history has, never the file fields, and is idempotent |
| `LegacyModel.GeneratingKeeps` | pixiv_collection/pixiv_collection.py:283-295 | a derivative pass removes no name, gives a name what it had or the requested box, and leaves other names alone |
| `LegacyModel.GeneratingFills` | pixiv_collection/pixiv_collection.py:283-295 | a completed pass leaves a derivative for every entry, at the requested box with `overwrite` |
| `LegacyModel.RepairShrinksLarge` | pixiv_collection/pixiv_collection.py:359-376 | as written, a size repair remakes the large image at the thumbnail box; as intended, at `LARGE_SIZE` |
| `LegacyModel.AuditEntryKeeps` | pixiv_collection/pixiv_collection.py:345-382 | checking one entry appends it, changed at most in size and colour, and without `try_fix` leaves both directories |
| `LegacyModel.AuditingKeepsEntries` | pixiv_collection/pixiv_collection.py:342-382 | `check` keeps every entry in place, changing only size and colour, and without `try_fix` leaves sizes and directories |
| `LegacyModel.AuditingRemakes` | pixiv_collection/pixiv_collection.py:366-376 | with `try_fix`, every remade thumbnail has `THUMBNAIL_SIZE` and every remade large image `LARGE_SIZE` |
| `LegacyCollection.CleanKeeps` | pixiv_collection/pixiv_collection.py:300-303 | an iteration over an entry whose original exists changes nothing |
| `LegacyCollection.CleanDrops` | pixiv_collection/pixiv_collection.py:303-309 | an iteration over a missing original removes the first equal entry and its two derivatives |
| `LegacyCollection.PixivCollection.constructor` | pixiv_collection/pixiv_collection.py:25-45 | a collection starts with the loaded list and an empty cache |
| `LegacyCollection.PixivCollection.GetIllustInfo` | pixiv_collection/pixiv_collection.py:94-120 | a cached illustration comes back with no API call; otherwise the retry loop runs and only a success is cached |
| `LegacyCollection.PixivCollection.SortImages` | pixiv_collection/pixiv_collection.py:89-92 | `__sort_images` leaves the list sorted descending by `id * 1000 + 999 - part` |
| `LegacyCollection.PixivCollection.Save` | pixiv_collection/pixiv_collection.py:384-391 | `save` writes the list, filtered unless the level is `-1` |
| `LegacyCollection.PixivCollection.DownloadImage` | pixiv_collection/pixiv_collection.py:122-143 | one attempt: success exactly when it saved the image, and no leftover file on failure |
| `LegacyCollection.PixivCollection.AnyPageExists` | pixiv_collection/pixiv_collection.py:213-217 | the page loop finds exactly whether some page's file exists |
| `LegacyCollection.PixivCollection.QueueItem` | pixiv_collection/pixiv_collection.py:203-220 | one bookmark queues what the queueing rule wants |
| `LegacyCollection.PixivCollection.QueuePage` | pixiv_collection/pixiv_collection.py:202-220 | the inner loop queues exactly the page's queue |
| `LegacyCollection.PixivCollection.ListBookmarks` | pixiv_collection/pixiv_collection.py:184-220 | the listing loop queues exactly the queue of the pages it follows |
| `LegacyCollection.PixivCollection.DownloadAll` | pixiv_collection/pixiv_collection.py:227-230 | every queued URL is tried once; failures are kept in order |
| `LegacyCollection.PixivCollection.DownloadBookmark` | pixiv_collection/pixiv_collection.py:178-230 | the queue, the failures and the disk after `download_bookmark` |
| `LegacyCollection.PixivCollection.ReportDuplicates` | pixiv_collection/pixiv_collection.py:241-246 | the duplicate loop reports exactly the duplicate specification |
| `LegacyCollection.PixivCollection.MatchFile` | pixiv_collection/pixiv_collection.py:249-279 | one name of the matching loop, with the lookup going through the cache |
| `LegacyCollection.PixivCollection.MatchImages` | pixiv_collection/pixiv_collection.py:232-281 | `match_images` ends in its specification, keeping entries added before an exception |
| `LegacyCollection.PixivCollection.Derive` | pixiv_collection/pixiv_collection.py:285-295 | the shared derivative loop ends where its specification says |
| `LegacyCollection.PixivCollection.GenerateThumbnail` | pixiv_collection/pixiv_collection.py:283-288 | `generate_thumbnail` changes only the thumbnail directory |
| `LegacyCollection.PixivCollection.GenerateLarge` | pixiv_collection/pixiv_collection.py:290-295 | `generate_large` changes only the large directory |
| `LegacyCollection.PixivCollection.CleanLoop` | pixiv_collection/pixiv_collection.py:299-309 | the loop over the copy removes entries and derivatives as `clean_deleted_images` specifies |
| `LegacyCollection.PixivCollection.CleanDeletedImages` | pixiv_collection/pixiv_collection.py:297-310 | the list and both directories after `clean_deleted_images` |
| `LegacyCollection.PixivCollection.Lookup` | pixiv_collection/pixiv_collection.py:323-339 | the inner loop finds the first history record with the id |
| `LegacyCollection.PixivCollection.Patch` | pixiv_collection/pixiv_collection.py:325-337 | the patch takes title, author, tags, date and levels from the record |
| `LegacyCollection.PixivCollection.FixFromDownloadHistory` | pixiv_collection/pixiv_collection.py:312-340 | every entry becomes its patched form, and the length is kept |
| `LegacyCollection.PixivCollection.CheckRecord` | pixiv_collection/pixiv_collection.py:346-357 | duplicate key, missing tags and missing title are reported as specified |
| `LegacyCollection.PixivCollection.Inspect` | pixiv_collection/pixiv_collection.py:360-380 | the size and colour checks, with the large image remade at `LARGE_SIZE` |
| `LegacyCollection.PixivCollection.CheckEntry` | pixiv_collection/pixiv_collection.py:345-382 | one entry of `check` ends where its specification says |
| `LegacyCollection.PixivCollection.CheckLoop` | pixiv_collection/pixiv_collection.py:345-382 | the loop of `check` ends where its specification says |
| `LegacyCollection.PixivCollection.Check` | pixiv_collection/pixiv_collection.py:342-382 | `check` leaves the list, both directories and the notices of the pass's specification |
| `LogDates.MonthStep` | nginx_log_split/nginx_log_split.py:77 | each month adds its own number of days |
| `LogDates.MonthsBefore` | nginx_log_split/nginx_log_split.py:77 | a month ends no later than a later month begins |
| `LogDates.YearStep` | nginx_log_split/nginx_log_split.py:77 | a year has 365 days, 366 in a leap year |
| `LogDates.YearsBefore` | nginx_log_split/nginx_log_split.py:77 | a year ends no later than a later year begins |
| `LogDates.DayNumberOrder` | nginx_log_split/nginx_log_split.py:77 | an earlier date has a smaller day number, so date subtraction follows the calendar |
| `LogDates.Fixed` | nginx_log_split/nginx_log_split.py:51 | zero-padded rendering has exactly the requested number of digits |
| `LogDates.FixedValue` | nginx_log_split/nginx_log_split.py:51 | padded digits of a number that fits read back as the number |
| `LogDates.ParseIso` | nginx_log_split/nginx_log_split.py:76 | `strptime(text, "%Y-%m-%d")` gives only valid dates |
| `LogDates.IsoFields` | nginx_log_split/nginx_log_split.py:58 | `str(date)` splits at `-` into year, month and day fields |
| `LogDates.IsoRoundTrip` | nginx_log_split/nginx_log_split.py:75-76 | reading back what `str(date)` wrote gives the date |
| `LogDates.IsoHasNo` | nginx_log_split/nginx_log_split.py:58 | the text of a date has no `_` and no `.` |
| `NginxLogSplit.CloseFrom` | nginx_log_split/nginx_log_split.py:11-12 | the closing `]` found lies within the line |
| `NginxLogSplit.CloseFromSpec` | nginx_log_split/nginx_log_split.py:11-12 | the `]` found is the first one, and none is found only when no `]` closes on the line |
| `NginxLogSplit.BracketedFromNone` | nginx_log_split/nginx_log_split.py:11-18 | the search finds nothing exactly when no `[` is closed on its line |
| `NginxLogSplit.BracketedFromFirst` | nginx_log_split/nginx_log_split.py:11-15 | a match is the text between the leftmost closed `[` and the first `]` after it |
| `NginxLogSplit.BracketedAt` | nginx_log_split/nginx_log_split.py:11-15 | the first `[` of a line, closed by a `]`, gives the text between them |
| `NginxLogSplit.LogDate` | nginx_log_split/nginx_log_split.py:10-18 | a date `get_log_date` returns is a valid date |
| `NginxLogSplit.LogDateOfLine` | nginx_log_split/nginx_log_split.py:10-18 | a line `pre [text] rest` is dated by `text`, or raises on it |
| `NginxLogSplit.LogStemOfLog` | nginx_log_split/nginx_log_split.py:95-97 | the stem of a `.log` file is its name without `.log` |
| `NginxLogSplit.Append` | nginx_log_split/nginx_log_split.py:49-63 | one dated line raises exactly when a plain file takes its month's name, and otherwise is appended to its day's file and nowhere else |
| `NginxLogSplit.BucketingWritable` | nginx_log_split/nginx_log_split.py:44-63 | bucketing only adds, and raises exactly when some line cannot be parsed or written |
| `NginxLogSplit.WritableStep` | nginx_log_split/nginx_log_split.py:44-63 | after one written line, the rest is writable exactly when the whole was |
| `NginxLogSplit.BucketingRoutes` | nginx_log_split/nginx_log_split.py:44-63 | after bucketing, every file holds its old lines and then the log's lines bound for it, in log order; undated lines go nowhere |
| `NginxLogSplit.Joined` | nginx_log_split/nginx_log_split.py:62-63 | appending in two steps is appending both parts at once |
| `NginxLogSplit.AdvanceContents` | nginx_log_split/nginx_log_split.py:47-63 | one line adds itself to the file it goes to and to no other |
| `NginxLogSplit.BucketingStep` | nginx_log_split/nginx_log_split.py:45-63 | the loop from one line on is that line, then the rest |
| `NginxLogSplit.SplitLines` | nginx_log_split/nginx_log_split.py:44-63 | the line loop ends in the bucketing specification |
| `NginxLogSplit.FileDateAsWrittenReadsOutput` | nginx_log_split/nginx_log_split.py:58-76 | as written, the date is read back from an output name whose stem has no `_` |
| `NginxLogSplit.FileDateAsWrittenMisreads` | nginx_log_split/nginx_log_split.py:58-76 | as written, a stem with a `_` makes line 75 read a word of the stem, and `strptime` raises |
| `NginxLogSplit.FileDateReadsOutput` | nginx_log_split/nginx_log_split.py:58-76 | every output name carries its own date back through `rsplit("_", 1)` |
| `NginxLogSplit.ExpiredOlder` | nginx_log_split/nginx_log_split.py:77 | whatever is older than an expired file is expired too |
| `NginxLogSplit.RetainedDays` | nginx_log_split/nginx_log_split.py:74-79 | a day's file survives exactly when it is at most `remain_days` old, and retention twice deletes nothing more |
| `NginxLogSplit.PruningStep` | nginx_log_split/nginx_log_split.py:74-79 | visiting a dated name deletes it exactly when it has expired |
| `NginxLogSplit.PruningStops` | nginx_log_split/nginx_log_split.py:75-76 | an undated name stops the loop with the folder pruned so far |
| `NginxLogSplit.PruningDone` | nginx_log_split/nginx_log_split.py:74-79 | when every name is visited, the folder is exactly its retained files |
| `NginxLogSplit.PruneFolder` | nginx_log_split/nginx_log_split.py:74-79 | one month folder: retained exactly when every name is dated, otherwise a fault naming an undated file, and only expired files are ever deleted |
| `NginxLogSplit.RetainedArchive` | nginx_log_split/nginx_log_split.py:69-79 | retention keeps every month name of the archive |
| `NginxLogSplit.PrunedArchiveUpdate` | nginx_log_split/nginx_log_split.py:69-79 | replacing one folder by a pruning of it keeps the archive pruned |
| `NginxLogSplit.ArchivePruningFolder` | nginx_log_split/nginx_log_split.py:69-79 | a dated folder, retained, advances the archive loop |
| `NginxLogSplit.ArchivePruningPlain` | nginx_log_split/nginx_log_split.py:71-72 | a plain file under `save_dir` is skipped |
| `NginxLogSplit.ArchivePruningStops` | nginx_log_split/nginx_log_split.py:74-76 | an undated folder stops the loop with the archive pruned so far |
| `NginxLogSplit.ArchivePruningDone` | nginx_log_split/nginx_log_split.py:69-79 | when every month is visited, the archive is retained |
| `NginxLogSplit.PruneArchive` | nginx_log_split/nginx_log_split.py:69-79 | retention over every month: the retained archive exactly when every folder is dated, and only expired files are ever deleted |
| `NginxLogSplit.SplitFile` | nginx_log_split/nginx_log_split.py:21-80 | `split_file` leaves the log folder and archive of its specification: the copy stays when bucketing raises |
| `NginxLogSplit.BucketingNeverBadName` | nginx_log_split/nginx_log_split.py:44-63 | bucketing raises only on a timestamp or a plain file in the way |
| `NginxLogSplit.TmpNotLog` | nginx_log_split/nginx_log_split.py:95-96 | a `.tmp` copy never ends in `.log`, so it is never split |
| `NginxLogSplit.ConsumesAfter` | nginx_log_split/nginx_log_split.py:90-99 | splitting one file changes the selection of no other name |
| `NginxLogSplit.SplitFileLogs` | nginx_log_split/nginx_log_split.py:34-64 | a `split_file` that raises nothing removes the log and its copy, and nothing else |
| `NginxLogSplit.SplitAllLogs` | nginx_log_split/nginx_log_split.py:90-99 | a sweep that raises nothing removes exactly the regular `.log` files listed and their copies |
| `NginxLogSplit.SplitAllStep` | nginx_log_split/nginx_log_split.py:90-99 | the sweep from one name on is that name, then the rest |
| `NginxLogSplit.SplitFolder` | nginx_log_split/nginx_log_split.py:83-99 | `spilt_folder` ends in its specification, each regular `.log` file split into the archive named by its stem |
| `NcmVersionCheck.RunEnd` | ncm_version_check/ncm_version_check.py:15 | the run of digits from a position ends within the URL |
| `NcmVersionCheck.RunEndDigits` | ncm_version_check/ncm_version_check.py:15 | `\d+` takes the whole run of digits, which a non-digit ends |
| `NcmVersionCheck.FieldsEnd` | ncm_version_check/ncm_version_check.py:15-16 | a match of the digit fields ends after its start and within the URL |
| `NcmVersionCheck.RunEndAt` | ncm_version_check/ncm_version_check.py:15 | a digit run followed by a non-digit ends there |
| `NcmVersionCheck.FieldStep` | ncm_version_check/ncm_version_check.py:15-16 | a digit field followed by its separator lets the match go on |
| `NcmVersionCheck.FieldLast` | ncm_version_check/ncm_version_check.py:15-16 | the last digit field ends the match |
| `NcmVersionCheck.RunEndShift` | ncm_version_check/ncm_version_check.py:15 | a digit run does not depend on what comes before it |
| `NcmVersionCheck.FieldsEndShift` | ncm_version_check/ncm_version_check.py:15-16 | a match does not depend on what comes before it |
| `NcmVersionCheck.FirstMatchSkips` | ncm_version_check/ncm_version_check.py:39 | no match starts where there is no `_` |
| `NcmVersionCheck.FirstMatchPasses` | ncm_version_check/ncm_version_check.py:39 | a prefix in which every `_` is followed by a non-digit starts no match |
| `NcmVersionCheck.FirstMatchAt` | ncm_version_check/ncm_version_check.py:39 | a `_` followed by the fields gives them as the match |
| `NcmVersionCheck.FieldsOfVersion` | ncm_version_check/ncm_version_check.py:15-16 | the pattern's fields match exactly `a.b.c.d` (`a.b.c_d` for Mac) when no digit follows |
| `NcmVersionCheck.MatchAfterPrefix` | ncm_version_check/ncm_version_check.py:39 | `re.findall(...)[0]` is the version right after the prefix's `_` |
| `NcmVersionCheck.VersionTextReads` | ncm_version_check/ncm_version_check.py:36-39 | the version text is found in a URL `<prefix>_<version><suffix>` |
| `NcmVersionCheck.CodeAfterSeparator` | ncm_version_check/ncm_version_check.py:40-44 | the text splits at its last `.` (`_` for Mac) into the name and the integer code |
| `NcmVersionCheck.ServerVersionReads` | ncm_version_check/ncm_version_check.py:36-44 | a package URL `<prefix>_a.b.c.d<suffix>` gives the name `a.b.c` and the code `d` |
| `NcmVersionCheck.CheckedOnlyNewer` | ncm_version_check/ncm_version_check.py:20-77 | the file changes only for a known platform whose 302 redirect carries a newer version; the entry is then `{name, code, URL}` and every other platform's entry is kept |
| `NcmVersionCheck.CheckedSettles` | ncm_version_check/ncm_version_check.py:49-62 | after a check that read a version, the stored code is at least the server's, and the same check again changes nothing |
| `NcmVersionCheck.VersionFile.constructor` | ncm_version_check/ncm_version_check.py:47-48 | the state is the content of `version.json`, or its absence |
| `NcmVersionCheck.VersionFile.CheckVersion` | ncm_version_check/ncm_version_check.py:19-77 | `check_version` leaves `version.json` as the check's specification says |

## Left out

- Network and process I/O are left out or turned into inputs:
  - the Pixiv client (authentication, `parse_qs`, the request parameters);
  - `requests.get`;
  - `os.system("kill -USR1 ...")`;
  - `tqdm`, logging and `add_logger`;
  - `time.sleep`.
  The API replies, the HTTP response, the clock and the directory listings
  are parameters.
- PIL and ColorThief are an oracle from a file name to its size and
  dominant colour. Resizing, alpha flattening, colour conversion and WEBP
  encoding are not modelled. A derivative is a name in a set (current
  store), or a name with the bounding box it was made with (earlier store).
- JSON loading and dumping, `open`, `os.path.exists`, `os.remove`,
  `os.makedirs` and `shutil.copyfile` act on sets and maps of names. None of
  the following is represented:
  - malformed JSON;
  - a JSON record missing a field;
  - a `data` key in `version.json` that is not a platform entry;
  - a non-numeric key in a loaded `images` or `authors` dictionary.
- `set_path`, `init`, `__init_logger`, `__init_pixivapi`, `__read_json` and
  `__write_json` configure paths, the client and the log. They hold no logic
  of the store.
- `__get_user_info` (collection.py:81-104) is never called.
- PixivApi.Fetching: a reply with neither `error` nor `illust` is not a case
  of the model. The source loops on it without counting a retry, so it can
  loop forever.
- NginxLogSplit.LogDate: `strptime(text, "%d/%b/%Y:%H:%M:%S %z")` is an
  oracle (`Stamps`) from the bracketed text to a date or an exception. The
  date is taken in the line's own time zone, as `.date()` does.
- LogDates.ParseIso:
  - `%Y` is modelled as exactly four ASCII digits;
  - Unicode digits, which Python also accepts, are not modelled;
  - years below 1000 or above 9999 are not representable.
- NginxLogSplit.SplitLines: lines are the file's lines with their line
  ending. The difference between `\n` and `\r\n` is not modelled.
- NginxLogSplit.SplitFile and NginxLogSplit.SplitFolder: the following
  are not modelled:
  - a file or directory named `<log>.tmp` that already exists;
  - nested directories inside a month folder;
  - a `save_dir` that is a plain file;
  - an `os.remove` that fails.
- NginxLogSplit.PruneArchive: `os.listdir` gives its names in no fixed
  order, so the loops pick any unvisited name. Which fault is reported, and
  how much was pruned before it, is stated for every order, not for one
  particular order.
- Collection.PixivCollection.ListBookmarks: follows the intended listing (`PixivApi.Pages`), which stops after a page with no `next_url`; the loop as written fetches the first page again (see Findings).
- Collection.PixivCollection.DownloadBookmark: specified with the intended listing, as `ListBookmarks` above.
- LegacyCollection.PixivCollection.ListBookmarks: follows the intended listing, which stops after a page with no `next_url`; the loop as written fetches the first page again (see Findings).
- LegacyCollection.PixivCollection.DownloadBookmark: specified with the intended listing, as `ListBookmarks` above.
- Collection.PixivCollection.UpdateFile: skips a file whose lookup fails (the intended `continue`, `CollectionModel.UpdateStep`); as written the pass raises there (see Findings). It also stores the padded colour, as `WriteRecords` below.
- Collection.PixivCollection.Update: specified with the intended `continue` after a failed lookup, as `UpdateFile` above, and stores padded colours.
- The colour every store writes is the corrected `#rrggbb` text (`CollectionModel.DominantColor`, built on `Numerals.Rgb2Hex`). The source writes `rgb2hex` as written, which drops leading zeros, so `(0, 0, 16)` is stored as `#10` there and as `#000010` here (see Findings). Each member below states the padded colour:
- CollectionModel.CheckFileRepairs: a repaired record's `dominant_color` is the padded text, not the unpadded text of collection.py:423.
- CollectionModel.CheckingRepairs: the colour of a repaired record is the padded text, not the unpadded text of collection.py:423.
- Collection.PixivCollection.WriteRecords: the file record's `dominant_color` is the padded text, not the unpadded text of collection.py:350.
- Collection.PixivCollection.CheckEntry: a repair writes the padded colour, not the unpadded text of collection.py:423.
- Collection.PixivCollection.Repair: recomputes the colour as the padded text, not the unpadded text of collection.py:423.
- Collection.PixivCollection.Check: repaired colours are the padded text, not the unpadded text of collection.py:423.
- LegacyCollection.PixivCollection.Inspect: remakes the large image at `LARGE_SIZE`, where pixiv_collection.py:376 uses the default `THUMBNAIL_SIZE` (see Findings); a missing colour is filled with the padded text, not the unpadded text of pixiv_collection.py:378.
- LegacyCollection.PixivCollection.CheckEntry: remakes at `LARGE_SIZE` and fills the padded colour, as `Inspect` above.
- LegacyCollection.PixivCollection.CheckLoop: remakes at `LARGE_SIZE` and fills the padded colour, as `Inspect` above.
- LegacyCollection.PixivCollection.Check: specified with the large image remade at `LARGE_SIZE` (`LegacyModel.AuditEntry`) and the padded colour, as `Inspect` above.
- Retention reads a file's date with the corrected `rsplit("_", 1)` (`NginxLogSplit.FileDate`). Line 75 as written cuts at every `_`: for a log whose stem has a `_` (`my_site.log`) the source's retention raises `ValueError` at line 76, which also ends `spilt_folder` before the next log, where the model prunes normally (see Findings). Each member below rests on the corrected reading:
- NginxLogSplit.RetainedDays: states survival by age through the corrected date reading; with a `_` in the stem the source raises instead.
- NginxLogSplit.PruningStep: "dated" is the corrected reading, not line 75's.
- NginxLogSplit.PruningStops: the loop stops only at names the corrected reading cannot date; line 75 also stops at output names whose stem has a `_`.
- NginxLogSplit.PruningDone: the retained folder is defined with the corrected reading.
- NginxLogSplit.PruneFolder: dates names with the corrected reading, not `rsplit("_")[1]`.
- NginxLogSplit.ArchivePruningFolder: a folder is dated with the corrected reading.
- NginxLogSplit.ArchivePruningStops: the stop condition uses the corrected reading.
- NginxLogSplit.ArchivePruningDone: the retained archive is defined with the corrected reading.
- NginxLogSplit.PruneArchive: the fault is for a name the corrected reading cannot date, not line 75's.
- NginxLogSplit.SplitFile: a log whose stem has a `_` ends without a fault here, where the source raises at line 76.
- NginxLogSplit.SplitFolder: goes on to the next log after one whose stem has a `_`, where the source stops with `ValueError`.
- PixivApi.Details: a reply depends only on the id and on the attempt within one lookup, not on earlier lookups. A second lookup of an id whose first lookup failed (legacy `match_images` asking for `5_p1` after `5_p0`, pixiv_collection.py:257-261) gets the same replies, so a later success after an earlier failure is not representable. The cache invariant of both stores ("every cached illustration is what a lookup gives") relies on this.
- Numerals.ParseInt: accepts an optional sign and ASCII digits only. Python's `int()` also accepts surrounding whitespace, `_` between digits (`int("1_0") == 10`) and Unicode digits, so a name such as `5_p1_0.png` is a bad name here while collection.py:331 records part 10. `CollectionModel.ParseName`, the legacy sort key and the version code inherit this.
- NcmVersionCheck.VersionFile: `version.json`'s `data` is a `map`, so the key order `json.dump` writes is not modelled.
- Sorting.SortBy: the insertion sort is stable like Python's `sorted`, but no lemma states stability; rows whose sort keys tie (one id and part under two extensions) are ordered by the model as by Python, without a proof of it.
- Floating point: `WAIT_TIME` is kept as a constant and is never used in
  arithmetic.

## Findings

| source | as written | input that shows it | evidently intended | confidence | as-written member | corrected member |
|---|---|---|---|---|---|---|
| pixiv_collection/collection.py:335-340 | after a failed lookup, `update` logs the error and carries on with `image_info['illust']`, which raises `TypeError` on `None` and ends the pass | a new original `5_p0.png` whose illustration the API answers with `error` | skip the file (`continue`) and go on with the next name | not executed | `CollectionModel.UpdateStepAsWrittenStops` | `CollectionModel.UpdatingCovers` |
| pixiv_collection/collection.py:25-28 | `rgb2hex` gives `hex(v)` with `0x` replaced by `#`, with no zero padding | the colour `(0, 0, 16)` gives `#10` | `#rrggbb`, seven characters | not executed | `Numerals.Rgb2HexAsWrittenIsShort` | `Numerals.Rgb2HexDecodes` |
| nginx_log_split/nginx_log_split.py:75 | `log_file.rsplit("_")[1]` cuts at every `_`, so it takes the second word of the name | a log `my_site.log` writes `my_site_2024-01-05.log`; line 75 reads `site`, and `strptime` raises | the text after the last `_` (`rsplit("_", 1)[1]`) | not executed | `NginxLogSplit.FileDateAsWrittenMisreads` | `NginxLogSplit.FileDateReadsOutput` |
| pixiv_collection/collection.py:236-245 | once `next_url` is `None`, the next iteration asks for the first page again, so every page up to `max_page` is fetched and its bookmarks are queued again | a user whose bookmarks fit on one page, with `max_page=2`: the first page is fetched twice and its URLs are queued twice | stop after the page that has no `next_url` | not executed | `PixivApi.OnePageListingFetchedTwice` | `PixivApi.PagesArePrefix` |
| pixiv_collection/pixiv_collection.py:359-376 | a size repair in `check` calls `__generate_image_large(image)`, whose default box is `THUMBNAIL_SIZE` (line 159) | an entry whose recorded size differs from its original's, checked with `try_fix=True` | remake the large image at `LARGE_SIZE`, as `generate_large` does | not executed | `LegacyModel.RepairShrinksLarge` | `LegacyModel.AuditingRemakes` |
