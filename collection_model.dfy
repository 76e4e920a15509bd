/**
 * The data of `pixiv_collection/collection.py` and what its passes compute,
 * as functions of values: the four record dictionaries, the file-name
 * convention, `update`'s ingestion of one file, `clean`'s cascading prune,
 * `save_data`'s ordering, `export`'s joined rows, `check`'s repair and the
 * derivative skip rule. The class in module `Collection` runs these passes
 * step by step and is proved to end where these functions say.
 */
module CollectionModel {
  import opened Wrappers
  import opened Dicts
  import opened Sorting
  import Strings
  import Numerals
  import opened PixivApi

  /** `PREVIEW_SIZE` and `THUMBNAIL_SIZE`: the bounding boxes of the derivatives. */
  const PreviewSize: (int, int) := (2000, 2000)
  const ThumbnailSize: (int, int) := (500, 1000)

  type Channel = x: int | 0 <= x < 256

  /**
   * What `Image.open` and `ColorThief(...).get_color` report about an
   * original: its size and its dominant colour.
   */
  datatype Picture = Picture(width: int, height: int, red: Channel, green: Channel, blue: Channel)

  /** The picture a file of the original directory holds, or None where opening it raises. */
  type Pictures = string -> Option<Picture>

  /** `Image.open(original + name)`: a file that is not on disk cannot be opened. */
  function OpenIn(pictures: Pictures, originals: set<string>, name: string): Option<Picture> {
    if name in originals then pictures(name) else None
  }

  /** `get_dominant_color`: the dominant colour as `#rrggbb`, with the corrected, zero-padded `rgb2hex`. */
  function DominantColor(p: Picture): string {
    Numerals.Rgb2Hex(p.red, p.green, p.blue)
  }

  /** `{update, data}`: a record and the time it was last written. */
  datatype Record<T> = Record(update: int, data: T)

  datatype FileData = FileData(id: int, part: int, size: (int, int), ext: string, dominantColor: string)

  datatype ImageData = ImageData(
    id: int,
    authorId: int,
    title: string,
    tags: seq<string>,
    createdAt: string,
    sanityLevel: int,
    xRestrict: int,
    bookmark: int,
    view: int)

  datatype AuthorData = AuthorData(id: int, name: string, account: string)

  /**
   * The four dictionaries: files by file name, images and authors by id
   * (the source keys them by `str(id)`), tags by name (the API's tag as is).
   */
  datatype Store = Store(
    files: Dict<string, Record<FileData>>,
    images: Dict<int, Record<ImageData>>,
    authors: Dict<int, Record<AuthorData>>,
    tags: Dict<string, Record<Tag>>)

  /** Each dictionary has every key once. */
  predicate WellFormed(st: Store) {
    Unique(st.files) && Unique(st.images) && Unique(st.authors) && Unique(st.tags)
  }

  /** Every reference resolves: a file's image, an image's author and tags are recorded. */
  ghost predicate Consistent(st: Store) {
    (forall e :: e in st.files ==> e.1.data.id in KeySet(st.images)) &&
    (forall e :: e in st.images ==> e.1.data.authorId in KeySet(st.authors)) &&
    (forall e, t :: e in st.images && t in e.1.data.tags ==> t in KeySet(st.tags))
  }

  function FileIds(files: Dict<string, Record<FileData>>): set<int> {
    set e | e in files :: e.1.data.id
  }

  function AuthorIds(images: Dict<int, Record<ImageData>>): set<int> {
    set e | e in images :: e.1.data.authorId
  }

  function TagNames(images: Dict<int, Record<ImageData>>): set<string> {
    set e, t | e in images && t in e.1.data.tags :: t
  }

  /** Nothing is left unreferenced: every image has a file, every author an image, every tag an image. */
  ghost predicate NoOrphans(st: Store) {
    KeySet(st.images) <= FileIds(st.files) &&
    KeySet(st.authors) <= AuthorIds(st.images) &&
    KeySet(st.tags) <= TagNames(st.images)
  }

  /** Why a pass stops early: the exception that escapes it. */
  datatype Fault =
    | BadName(name: string)      // `int(...)` or the `split('p')[1]` of `update` raises
    | NoInfo(id: int)            // `update` subscripts a None lookup result
    | Unreadable(name: string)   // `Image.open` raises outside a `try`
    | MissingRecord              // a dictionary lookup raises KeyError

  /**
   * `__update_data`: the key then holds `{update: now, data: value}` and
   * every other key keeps its record.
   */
  function UpdateData<K(==, !new), V(==, !new)>(data: Dict<K, Record<V>>, key: K, value: V, now: int): (r: Dict<K, Record<V>>)
    ensures Get(r, key) == Some(Record(now, value))
    ensures forall k :: k != key ==> Get(r, k) == Get(data, k)
    ensures KeySet(r) == KeySet(data) + {key}
    ensures Unique(data) ==> Unique(r)
  {
    Set(data, key, Record(now, value))
  }

  /** `f"{id}_p{part}.{ext}"`: the name of an original. */
  function OriginalName(id: int, part: int, ext: string): string {
    Numerals.Show(id) + "_p" + Numerals.Show(part) + "." + ext
  }

  /**
   * `int(file.split('_')[0])` and `int(file.split('.')[0].split('p')[1])`:
   * the id and part of a file name, or None where either raises.
   */
  function ParseName(file: string): Option<(int, int)> {
    match Numerals.ParseInt(Strings.FirstPiece(file, '_'))
    case None => None
    case Some(id) =>
      match Strings.Piece(Strings.FirstPiece(file, '.'), 'p', 1)
      case None => None
      case Some(text) =>
        match Numerals.ParseInt(text)
        case None => None
        case Some(part) => Some((id, part))
  }

  lemma ShowHasNo(i: int, c: char)
    requires c != '-' && !Numerals.IsDigit(c)
    ensures c !in Numerals.Show(i)
  {
  }

  /**
   * The names the downloader writes are read back: `{id}_p{part}.{ext}`
   * parses to its id and part.
   */
  lemma ParseOriginalName(id: int, part: int, ext: string)
    ensures ParseName(OriginalName(id, part, ext)) == Some((id, part))
  {
    var sid, spart := Numerals.Show(id), Numerals.Show(part);
    var name := OriginalName(id, part, ext);
    var stem := sid + "_p" + spart;
    assert name == stem + ['.'] + ext;
    assert Strings.FirstPiece(name, '_') == sid by {
      ShowHasNo(id, '_');
      assert name == sid + ['_'] + ("p" + spart + "." + ext);
      Strings.SplitAfterHead(sid, '_', "p" + spart + "." + ext);
    }
    assert Strings.FirstPiece(name, '.') == stem by {
      ShowHasNo(id, '.');
      ShowHasNo(part, '.');
      assert '.' !in stem;
      Strings.SplitAfterHead(stem, '.', ext);
    }
    assert Strings.Piece(stem, 'p', 1) == Some(spart) by {
      ShowHasNo(id, 'p');
      ShowHasNo(part, 'p');
      assert 'p' !in sid + "_";
      assert stem == (sid + "_") + ['p'] + spart;
      Strings.SplitAfterHead(sid + "_", 'p', spart);
      Strings.SplitNoSep(spart, 'p');
    }
    Numerals.ParseShow(id);
    Numerals.ParseShow(part);
  }

  /** The extension is the text after the last `.` when it has no `.` of its own. */
  lemma OriginalNameExt(id: int, part: int, ext: string)
    requires '.' !in ext
    ensures Strings.LastPiece(OriginalName(id, part, ext), '.') == ext
  {
    var stem := Numerals.Show(id) + "_p" + Numerals.Show(part);
    assert OriginalName(id, part, ext) == stem + ['.'] + ext;
    ShowHasNo(id, '.');
    ShowHasNo(part, '.');
    assert '.' !in stem;
    Strings.SplitAfterHead(stem, '.', ext);
    Strings.SplitNoSep(ext, '.');
  }

  /** `[tag["name"] for tag in tags]`. */
  function TagNameList(tags: seq<Tag>): (names: seq<string>)
    ensures |names| == |tags|
    ensures forall i :: 0 <= i < |tags| ==> names[i] == tags[i].name
  {
    seq(|tags|, i requires 0 <= i < |tags| => tags[i].name)
  }

  function FileOf(file: string, id: int, part: int, pic: Picture): FileData {
    FileData(id, part, (pic.width, pic.height), Strings.LastPiece(file, '.'), DominantColor(pic))
  }

  function ImageOf(id: int, illust: Illust): ImageData {
    ImageData(id, illust.user.id, illust.title, TagNameList(illust.tags), illust.createDate,
      illust.sanityLevel, illust.xRestrict, illust.totalBookmarks, illust.totalView)
  }

  function AuthorOf(user: User): AuthorData {
    AuthorData(user.id, user.name, user.account)
  }

  /**
   * The tag loop of `update`: one upsert per tag, in order, so a name that
   * occurs twice keeps its last tag.
   */
  function UpsertTags(tags: Dict<string, Record<Tag>>, list: seq<Tag>, now: int): (r: Dict<string, Record<Tag>>)
    ensures KeySet(r) == KeySet(tags) + set t | t in list :: t.name
    ensures Unique(tags) ==> Unique(r)
    decreases |list|
  {
    if list == [] then tags
    else
      var init, last := list[..|list| - 1], list[|list| - 1];
      assert list == init + [last];
      assert (set t | t in list :: t.name) == (set t | t in init :: t.name) + {last.name};
      UpdateData(UpsertTags(tags, init, now), last.name, last, now)
  }

  /**
   * Names that are not among the tags keep their record; each listed name
   * ends up holding one of the listed tags of that name, stamped `now`.
   */
  lemma {:induction false} UpsertTagsEffect(tags: Dict<string, Record<Tag>>, list: seq<Tag>, now: int)
    ensures forall name :: (forall t :: t in list ==> t.name != name) ==>
      Get(UpsertTags(tags, list, now), name) == Get(tags, name)
    ensures forall t :: t in list ==>
      var got := Get(UpsertTags(tags, list, now), t.name);
      got.Some? && got.value.update == now && got.value.data.name == t.name && got.value.data in list
    decreases |list|
  {
    if list != [] {
      var init, last := list[..|list| - 1], list[|list| - 1];
      assert list == init + [last];
      UpsertTagsEffect(tags, init, now);
      forall t | t in list
        ensures var got := Get(UpsertTags(tags, list, now), t.name);
          got.Some? && got.value.update == now && got.value.data.name == t.name && got.value.data in list
      {
        if t.name != last.name {
          assert t in init;
        }
      }
    }
  }

  /** The records `update` writes for one new file, in the source's order. */
  function Ingested(st: Store, file: string, id: int, part: int, illust: Illust, pic: Picture, now: int): Store {
    Store(
      UpdateData(st.files, file, FileOf(file, id, part, pic), now),
      UpdateData(st.images, id, ImageOf(id, illust), now),
      UpdateData(st.authors, illust.user.id, AuthorOf(illust.user), now),
      UpsertTags(st.tags, illust.tags, now))
  }

  /**
   * One name of the original directory in `update`, with the intended
   * `continue` after a failed lookup: a recorded file is skipped, a name
   * that does not parse or a picture that does not open stops the pass, a
   * failed lookup skips the file, and otherwise its records are written.
   */
  function UpdateStep(st: Store, file: string, details: Details, pictures: Pictures, originals: set<string>, now: int): Result<Store, Fault> {
    if file in KeySet(st.files) then Ok(st)
    else match ParseName(file)
      case None => Err(BadName(file))
      case Some((id, part)) =>
        match Fetching(details, id, 0).illust
        case None => Ok(st)
        case Some(illust) =>
          match OpenIn(pictures, originals, file)
          case None => Err(Unreadable(file))
          case Some(pic) => Ok(Ingested(st, file, id, part, illust, pic, now))
  }

  /**
   * The same step as written: after a failed lookup the error is logged and
   * the next line subscripts None, which raises TypeError and ends the pass.
   */
  function UpdateStepAsWritten(st: Store, file: string, details: Details, pictures: Pictures, originals: set<string>, now: int): Result<Store, Fault> {
    if file in KeySet(st.files) then Ok(st)
    else match ParseName(file)
      case None => Err(BadName(file))
      case Some((id, part)) =>
        match Fetching(details, id, 0).illust
        case None => Err(NoInfo(id))
        case Some(illust) =>
          match OpenIn(pictures, originals, file)
          case None => Err(Unreadable(file))
          case Some(pic) => Ok(Ingested(st, file, id, part, illust, pic, now))
  }

  /**
   * A new original whose illustration is gone (the API answers with an
   * `error`): as written the pass stops there, so no later file is recorded;
   * with the `continue` the file is skipped and the pass goes on.
   */
  lemma UpdateStepAsWrittenStops(st: Store, id: int, part: int, ext: string, details: Details, pictures: Pictures, originals: set<string>, now: int)
    requires OriginalName(id, part, ext) !in KeySet(st.files)
    requires details(id, 0).Rejected?
    ensures UpdateStepAsWritten(st, OriginalName(id, part, ext), details, pictures, originals, now) == Err(NoInfo(id))
    ensures UpdateStep(st, OriginalName(id, part, ext), details, pictures, originals, now) == Ok(st)
  {
    ParseOriginalName(id, part, ext);
  }

  /** What a pass leaves behind, and the exception that ended it early, if any. */
  datatype Outcome = Outcome(store: Store, fault: Option<Fault>)

  /** `update` over the names of the original directory, in listing order. */
  function Updating(st: Store, listing: seq<string>, details: Details, pictures: Pictures, originals: set<string>, now: int): Outcome
    decreases |listing|
  {
    if listing == [] then Outcome(st, None)
    else match UpdateStep(st, listing[0], details, pictures, originals, now)
      case Err(f) => Outcome(st, Some(f))
      case Ok(next) => Updating(next, listing[1..], details, pictures, originals, now)
  }

  /** Writing one new file's records keeps every reference resolvable. */
  lemma IngestedConsistent(st: Store, file: string, id: int, part: int, illust: Illust, pic: Picture, now: int)
    requires WellFormed(st) && Consistent(st)
    ensures WellFormed(Ingested(st, file, id, part, illust, pic, now))
    ensures Consistent(Ingested(st, file, id, part, illust, pic, now))
  {
    var r := Ingested(st, file, id, part, illust, pic, now);
    forall e | e in r.files ensures e.1.data.id in KeySet(r.images) {
      SetMembers(st.files, file, Record(now, FileOf(file, id, part, pic)), e);
    }
    forall e | e in r.images ensures e.1.data.authorId in KeySet(r.authors) {
      SetMembers(st.images, id, Record(now, ImageOf(id, illust)), e);
    }
    forall e, t | e in r.images && t in e.1.data.tags ensures t in KeySet(r.tags) {
      SetMembers(st.images, id, Record(now, ImageOf(id, illust)), e);
      if e.0 == id {
        var names := TagNameList(illust.tags);
        var i :| 0 <= i < |names| && names[i] == t;
        assert illust.tags[i] in illust.tags;
      }
    }
  }

  /** An `update` pass keeps every reference resolvable. */
  lemma {:induction false} UpdatingConsistent(st: Store, listing: seq<string>, details: Details, pictures: Pictures, originals: set<string>, now: int)
    requires WellFormed(st) && Consistent(st)
    ensures WellFormed(Updating(st, listing, details, pictures, originals, now).store)
    ensures Consistent(Updating(st, listing, details, pictures, originals, now).store)
    decreases |listing|
  {
    if listing != [] {
      var step := UpdateStep(st, listing[0], details, pictures, originals, now);
      if step.Ok? {
        if listing[0] !in KeySet(st.files) && ParseName(listing[0]).Some? {
          var (id, part) := ParseName(listing[0]).value;
          var illust := Fetching(details, id, 0).illust;
          if illust.Some? && OpenIn(pictures, originals, listing[0]).Some? {
            IngestedConsistent(st, listing[0], id, part, illust.value, OpenIn(pictures, originals, listing[0]).value, now);
          }
        }
        UpdatingConsistent(step.value, listing[1..], details, pictures, originals, now);
      }
    }
  }

  /** `update` never rewrites a file it already has. */
  lemma {:induction false} UpdatingKeepsRecorded(st: Store, listing: seq<string>, details: Details, pictures: Pictures, originals: set<string>, now: int)
    ensures forall k :: k in KeySet(st.files) ==>
      Get(Updating(st, listing, details, pictures, originals, now).store.files, k) == Get(st.files, k)
    decreases |listing|
  {
    if listing != [] {
      var step := UpdateStep(st, listing[0], details, pictures, originals, now);
      if step.Ok? {
        UpdatingKeepsRecorded(step.value, listing[1..], details, pictures, originals, now);
      }
    }
  }

  /**
   * A pass that runs to the end has recorded every listed name except those
   * whose illustration could not be looked up.
   */
  lemma {:induction false} UpdatingCovers(st: Store, listing: seq<string>, details: Details, pictures: Pictures, originals: set<string>, now: int)
    requires Updating(st, listing, details, pictures, originals, now).fault == None
    ensures forall name :: name in listing ==>
      name in KeySet(Updating(st, listing, details, pictures, originals, now).store.files) ||
      (ParseName(name).Some? && Fetching(details, ParseName(name).value.0, 0).illust == None)
    decreases |listing|
  {
    if listing != [] {
      var step := UpdateStep(st, listing[0], details, pictures, originals, now);
      var result := Updating(st, listing, details, pictures, originals, now);
      UpdatingCovers(step.value, listing[1..], details, pictures, originals, now);
      UpdatingKeepsRecorded(step.value, listing[1..], details, pictures, originals, now);
      forall name | name in listing
        ensures name in KeySet(result.store.files) ||
          (ParseName(name).Some? && Fetching(details, ParseName(name).value.0, 0).illust == None)
      {
        if name != listing[0] {
          assert name in listing[1..];
        } else if name in KeySet(step.value.files) {
          assert Get(result.store.files, name) == Get(step.value.files, name);
        }
      }
    }
  }

  /**
   * `clean`: drop the files whose original is gone, then the images no
   * remaining file shows, then the authors no remaining image names, then
   * the tags no remaining image carries.
   */
  function Cleaned(st: Store, originals: set<string>): Store {
    var files := Keep(st.files, originals);
    var images := Keep(st.images, FileIds(files));
    var authors := Keep(st.authors, AuthorIds(images));
    Store(files, images, authors, Keep(st.tags, TagNames(images)))
  }

  /** `clean` keeps keys unique. */
  lemma CleanedWellFormed(st: Store, originals: set<string>)
    requires WellFormed(st)
    ensures WellFormed(Cleaned(st, originals))
  {
  }

  /** The derivative names `clean` deletes: those of the files it drops. */
  function Unlinked(files: Dict<string, Record<FileData>>, originals: set<string>): set<string> {
    set e | e in files && e.0 !in originals :: DerivativeName(e.1.data.id, e.1.data.part)
  }

  /** After `clean` every file's original exists and nothing is unreferenced. */
  lemma CleanedNoOrphans(st: Store, originals: set<string>)
    ensures KeySet(Cleaned(st, originals).files) <= originals
    ensures NoOrphans(Cleaned(st, originals))
  {
  }

  /**
   * `clean` only deletes: every surviving entry was there before, unchanged,
   * and every file whose original exists survives.
   */
  lemma CleanedOnlyDeletes(st: Store, originals: set<string>)
    ensures var r := Cleaned(st, originals);
      (forall e :: e in r.files ==> e in st.files) &&
      (forall e :: e in r.images ==> e in st.images) &&
      (forall e :: e in r.authors ==> e in st.authors) &&
      (forall e :: e in r.tags ==> e in st.tags) &&
      (forall e :: e in st.files && e.0 in originals ==> e in r.files)
  {
  }

  /** The prune cascades far enough: a consistent store stays consistent. */
  lemma CleanedConsistent(st: Store, originals: set<string>)
    requires Consistent(st)
    ensures Consistent(Cleaned(st, originals))
  {
    CleanedFilesResolve(st, originals);
    CleanedImagesResolve(st, originals);
    CleanedTagsResolve(st, originals);
  }

  lemma CleanedFilesResolve(st: Store, originals: set<string>)
    requires forall e :: e in st.files ==> e.1.data.id in KeySet(st.images)
    ensures var r := Cleaned(st, originals); forall e :: e in r.files ==> e.1.data.id in KeySet(r.images)
  {
    var r := Cleaned(st, originals);
    forall e | e in r.files ensures e.1.data.id in KeySet(r.images) {
      assert e.1.data.id in FileIds(r.files);
    }
  }

  lemma CleanedImagesResolve(st: Store, originals: set<string>)
    requires forall e :: e in st.images ==> e.1.data.authorId in KeySet(st.authors)
    ensures var r := Cleaned(st, originals); forall e :: e in r.images ==> e.1.data.authorId in KeySet(r.authors)
  {
    var r := Cleaned(st, originals);
    forall e | e in r.images ensures e.1.data.authorId in KeySet(r.authors) {
      assert e.1.data.authorId in AuthorIds(r.images);
    }
  }

  lemma CleanedTagsResolve(st: Store, originals: set<string>)
    requires forall e, t :: e in st.images && t in e.1.data.tags ==> t in KeySet(st.tags)
    ensures var r := Cleaned(st, originals); forall e, t :: e in r.images && t in e.1.data.tags ==> t in KeySet(r.tags)
  {
    var r := Cleaned(st, originals);
    KeepKeys(st.tags, TagNames(r.images));
    forall e, t | e in r.images && t in e.1.data.tags ensures t in KeySet(r.tags) {
      assert t in TagNames(r.images);
    }
  }

  /** A second `clean` over the same disk deletes nothing. */
  lemma CleanedIdempotent(st: Store, originals: set<string>)
    ensures Cleaned(Cleaned(st, originals), originals) == Cleaned(st, originals)
    ensures Unlinked(Cleaned(st, originals).files, originals) == {}
  {
    var r := Cleaned(st, originals);
    KeepKeep(st.files, originals, originals);
    assert originals * originals == originals;
    KeepKeep(st.images, FileIds(r.files), FileIds(r.files));
    assert FileIds(r.files) * FileIds(r.files) == FileIds(r.files);
    KeepKeep(st.authors, AuthorIds(r.images), AuthorIds(r.images));
    assert AuthorIds(r.images) * AuthorIds(r.images) == AuthorIds(r.images);
    KeepKeep(st.tags, TagNames(r.images), TagNames(r.images));
    assert TagNames(r.images) * TagNames(r.images) == TagNames(r.images);
  }

  /** `save_data`'s key for files: `id * 1000 + part`. */
  function FileOrder(e: (string, Record<FileData>)): int {
    e.1.data.id * 1000 + e.1.data.part
  }

  /** `save_data`'s key for images: `int(key)`. */
  function ImageOrder(e: (int, Record<ImageData>)): int {
    e.0
  }

  /** `save_data`'s key for authors: `int(key)`. */
  function AuthorOrder(e: (int, Record<AuthorData>)): int {
    e.0
  }

  /** The store `save_data` leaves in memory and writes out; tags keep their order. */
  function Saved(st: Store): Store {
    Store(SortBy(st.files, FileOrder), SortBy(st.images, ImageOrder), SortBy(st.authors, AuthorOrder), st.tags)
  }

  /**
   * Saving reorders and loses nothing: every key still holds its record,
   * files run by ascending `id * 1000 + part`, images and authors by
   * strictly ascending id.
   */
  lemma SavedContents(st: Store)
    requires WellFormed(st)
    ensures WellFormed(Saved(st))
    ensures forall k :: Get(Saved(st).files, k) == Get(st.files, k)
    ensures forall k :: Get(Saved(st).images, k) == Get(st.images, k)
    ensures forall k :: Get(Saved(st).authors, k) == Get(st.authors, k)
    ensures Saved(st).tags == st.tags
    ensures forall i, j :: 0 <= i < j < |Saved(st).files| ==>
      FileOrder(Saved(st).files[i]) <= FileOrder(Saved(st).files[j])
    ensures forall i, j :: 0 <= i < j < |Saved(st).images| ==> Saved(st).images[i].0 < Saved(st).images[j].0
    ensures forall i, j :: 0 <= i < j < |Saved(st).authors| ==> Saved(st).authors[i].0 < Saved(st).authors[j].0
  {
    SortedDict(st.files, FileOrder);
    SavedImages(st.images);
    SavedAuthors(st.authors);
  }

  lemma SavedImages(images: Dict<int, Record<ImageData>>)
    requires Unique(images)
    ensures Unique(SortBy(images, ImageOrder))
    ensures forall k :: Get(SortBy(images, ImageOrder), k) == Get(images, k)
    ensures forall i, j :: 0 <= i < j < |SortBy(images, ImageOrder)| ==>
      SortBy(images, ImageOrder)[i].0 < SortBy(images, ImageOrder)[j].0
  {
    SortedDict(images, ImageOrder);
    SortedByKey(SortBy(images, ImageOrder), ImageOrder);
  }

  lemma SavedAuthors(authors: Dict<int, Record<AuthorData>>)
    requires Unique(authors)
    ensures Unique(SortBy(authors, AuthorOrder))
    ensures forall k :: Get(SortBy(authors, AuthorOrder), k) == Get(authors, k)
    ensures forall i, j :: 0 <= i < j < |SortBy(authors, AuthorOrder)| ==>
      SortBy(authors, AuthorOrder)[i].0 < SortBy(authors, AuthorOrder)[j].0
  {
    SortedDict(authors, AuthorOrder);
    SortedByKey(SortBy(authors, AuthorOrder), AuthorOrder);
  }

  /** One row of `export`: the file joined with its image, author and tags. */
  datatype Exported = Exported(
    id: int,
    part: int,
    title: string,
    size: (int, int),
    ext: string,
    author: AuthorData,
    tags: seq<Tag>,
    createdAt: string,
    sanityLevel: int,
    xRestrict: int,
    bookmark: int,
    view: int,
    dominantColor: string)

  /** `[self.tags[tag]['data'] for tag in names]`, or None where a name is not recorded. */
  function TagRecords(tags: Dict<string, Record<Tag>>, names: seq<string>): (r: Option<seq<Tag>>)
    ensures r.Some? <==> forall i :: 0 <= i < |names| ==> names[i] in KeySet(tags)
    ensures r.Some? ==> |r.value| == |names|
    ensures r.Some? ==>
      forall i :: 0 <= i < |names| ==> Get(tags, names[i]).Some? && Get(tags, names[i]).value.data == r.value[i]
    decreases |names|
  {
    if names == [] then Some([])
    else
      match Get(tags, names[0])
      case None => None
      case Some(rec) =>
        match TagRecords(tags, names[1..])
        case None =>
          assert !(forall i :: 0 <= i < |names[1..]| ==> names[1..][i] in KeySet(tags));
          None
        case Some(rest) =>
          assert forall i :: 1 <= i < |names| ==> names[i] == names[1..][i - 1];
          Some([rec.data] + rest)
  }

  /** `filter_max_sl == -1` keeps everything; otherwise the sanity level must not exceed it. */
  predicate Passes(image: ImageData, maxSl: int) {
    maxSl == -1 || image.sanityLevel <= maxSl
  }

  /** The row `export` builds for a file, or None where a lookup raises KeyError. */
  function Row(st: Store, f: FileData): Option<Exported> {
    match Get(st.images, f.id)
    case None => None
    case Some(image) =>
      match Get(st.authors, image.data.authorId)
      case None => None
      case Some(author) =>
        match TagRecords(st.tags, image.data.tags)
        case None => None
        case Some(tags) =>
          Some(Exported(f.id, f.part, image.data.title, f.size, f.ext, author.data, tags,
            image.data.createdAt, image.data.sanityLevel, image.data.xRestrict,
            image.data.bookmark, image.data.view, f.dominantColor))
  }

  /** A file `export` keeps, with the row it contributes. */
  ghost predicate Selected(st: Store, maxSl: int, f: FileData, x: Exported) {
    Get(st.images, f.id).Some? && Passes(Get(st.images, f.id).value.data, maxSl) && Row(st, f) == Some(x)
  }

  /** The loop of `export` over `files`, in order; a missing record ends it with KeyError. */
  function Rows(st: Store, maxSl: int, files: Dict<string, Record<FileData>>): Result<seq<Exported>, Fault>
    decreases |files|
  {
    if files == [] then Ok([])
    else
      var f := files[0].1.data;
      match Get(st.images, f.id)
      case None => Err(MissingRecord)
      case Some(image) =>
        if !Passes(image.data, maxSl) then Rows(st, maxSl, files[1..])
        else match Row(st, f)
          case None => Err(MissingRecord)
          case Some(row) =>
            match Rows(st, maxSl, files[1..])
            case Err(fault) => Err(fault)
            case Ok(rows) => Ok([row] + rows)
  }

  /** `export`'s sort key `id * 1000 + 999 - part`. */
  function ExportKey(x: Exported): int {
    DisplayKey(x.id, x.part)
  }

  /** What `export` writes: the rows, sorted descending by `ExportKey`. */
  function Exporting(st: Store, maxSl: int): Result<seq<Exported>, Fault> {
    match Rows(st, maxSl, st.files)
    case Err(fault) => Err(fault)
    case Ok(rows) => Ok(SortDesc(rows, ExportKey))
  }

  /** The file records `export` keeps: those whose image passes the sanity filter, in order. */
  function Passing(st: Store, maxSl: int, files: Dict<string, Record<FileData>>): seq<FileData>
    decreases |files|
  {
    if files == [] then []
    else
      var f := files[0].1.data;
      var keep := Get(st.images, f.id).Some? && Passes(Get(st.images, f.id).value.data, maxSl);
      (if keep then [f] else []) + Passing(st, maxSl, files[1..])
  }

  /** One row per kept file, in the order of `files`: the `i`-th row is that of the `i`-th kept file. */
  lemma {:induction false} RowsOnePerFile(st: Store, maxSl: int, files: Dict<string, Record<FileData>>)
    requires Rows(st, maxSl, files).Ok?
    ensures var rows := Rows(st, maxSl, files).value;
      var kept := Passing(st, maxSl, files);
      |rows| == |kept| && forall i :: 0 <= i < |rows| ==> Row(st, kept[i]) == Some(rows[i])
    decreases |files|
  {
    if files != [] {
      RowsOnePerFile(st, maxSl, files[1..]);
    }
  }

  /** The number of kept files is at most the number of files. */
  lemma {:induction false} PassingBounded(st: Store, maxSl: int, files: Dict<string, Record<FileData>>)
    ensures |Passing(st, maxSl, files)| <= |files|
    decreases |files|
  {
    if files != [] {
      PassingBounded(st, maxSl, files[1..]);
    }
  }

  /** The rows are exactly those of the selected files. */
  lemma {:induction false} RowsSelected(st: Store, maxSl: int, files: Dict<string, Record<FileData>>)
    requires Rows(st, maxSl, files).Ok?
    ensures var rows := Rows(st, maxSl, files).value;
      |rows| == |Passing(st, maxSl, files)| && |rows| <= |files| &&
      (forall x :: x in rows ==> exists e :: e in files && Selected(st, maxSl, e.1.data, x)) &&
      (forall e :: e in files && Get(st.images, e.1.data.id).Some? && Passes(Get(st.images, e.1.data.id).value.data, maxSl) ==>
        Row(st, e.1.data).Some? && Row(st, e.1.data).value in rows)
    decreases |files|
  {
    RowsOnePerFile(st, maxSl, files);
    PassingBounded(st, maxSl, files);
    if files != [] {
      RowsSelected(st, maxSl, files[1..]);
      var rows := Rows(st, maxSl, files).value;
      var rest := Rows(st, maxSl, files[1..]).value;
      assert files == [files[0]] + files[1..];
      forall x | x in rows ensures exists e :: e in files && Selected(st, maxSl, e.1.data, x) {
        if x !in rest {
          assert Selected(st, maxSl, files[0].1.data, x);
        }
      }
    }
  }

  /** Every reference resolvable: `export` does not raise. */
  lemma {:induction false} RowsTotal(st: Store, maxSl: int, files: Dict<string, Record<FileData>>)
    requires Consistent(st)
    requires forall e :: e in files ==> e in st.files
    ensures Rows(st, maxSl, files).Ok?
    decreases |files|
  {
    if files != [] {
      var f := files[0].1.data;
      assert files[0] in st.files;
      var image := Get(st.images, f.id).value;
      assert (f.id, image) in st.images;
      forall i | 0 <= i < |image.data.tags| ensures image.data.tags[i] in KeySet(st.tags) {
        assert image.data.tags[i] in image.data.tags;
      }
      assert forall e :: e in files[1..] ==> e in files;
      RowsTotal(st, maxSl, files[1..]);
    }
  }

  /**
   * `export` of a consistent store: it does not raise, and its rows are
   * exactly those of the files that pass the sanity filter.
   */
  lemma ExportContents(st: Store, maxSl: int)
    requires Consistent(st)
    ensures Exporting(st, maxSl).Ok?
    ensures var out := Exporting(st, maxSl).value;
      |out| == |Passing(st, maxSl, st.files)| &&
      (forall x :: x in out ==> exists e :: e in st.files && Selected(st, maxSl, e.1.data, x)) &&
      (forall e :: e in st.files && Passes(Get(st.images, e.1.data.id).value.data, maxSl) ==> Row(st, e.1.data).value in out) &&
      (maxSl != -1 ==> forall x :: x in out ==> x.sanityLevel <= maxSl)
  {
    RowsTotal(st, maxSl, st.files);
    RowsSelected(st, maxSl, st.files);
    var rows := Rows(st, maxSl, st.files).value;
    var out := Exporting(st, maxSl).value;
    assert multiset(out) == multiset(rows);
    assert |out| == |multiset(out)| == |multiset(rows)| == |rows|;
    assert forall x :: x in out <==> x in rows by {
      forall x ensures x in out <==> x in rows {
        assert x in out <==> x in multiset(out);
        assert x in rows <==> x in multiset(rows);
      }
    }
    forall e | e in st.files && Passes(Get(st.images, e.1.data.id).value.data, maxSl)
      ensures Row(st, e.1.data).value in out
    {
      assert Row(st, e.1.data).value in rows;
    }
    if maxSl != -1 {
      forall x | x in out ensures x.sanityLevel <= maxSl {
        assert x in rows;
      }
    }
  }

  /** With parts below 1000, export order is id descending, then part ascending. */
  lemma ExportOrder(st: Store, maxSl: int)
    requires Exporting(st, maxSl).Ok?
    requires forall x :: x in Exporting(st, maxSl).value ==> 0 <= x.part < 1000
    ensures var out := Exporting(st, maxSl).value;
      forall i, j :: 0 <= i < j < |out| ==>
        out[i].id > out[j].id || (out[i].id == out[j].id && out[i].part <= out[j].part)
  {
    var out := Exporting(st, maxSl).value;
    forall i, j | 0 <= i < j < |out|
      ensures out[i].id > out[j].id || (out[i].id == out[j].id && out[i].part <= out[j].part)
    {
      assert out[i] in out && out[j] in out;
      assert ExportKey(out[i]) >= ExportKey(out[j]);
      DisplayKeyOrder(out[i].id, out[i].part, out[j].id, out[j].part);
    }
  }

  /** The switches of `check`. */
  datatype CheckOptions = CheckOptions(tryFix: bool, checkTag: bool, checkTitle: bool, checkBookmark: bool, checkView: bool)

  /** What `check` logs as a warning, per `{id}_{part}`. */
  datatype Warning =
    | NoTags(id: int, part: int)
    | NoTitle(id: int, part: int)
    | NoBookmarks(id: int, part: int)
    | NoViews(id: int, part: int)
    | SizeMismatch(id: int, part: int, recorded: (int, int), actual: (int, int))
    | Damaged(id: int, part: int)

  /**
   * The record checks of `check` for one file: the image is looked up only
   * when some check is on, and a missing image then raises KeyError.
   */
  function RecordWarnings(images: Dict<int, Record<ImageData>>, opts: CheckOptions, f: FileData): Result<seq<Warning>, Fault> {
    if !(opts.checkTag || opts.checkTitle || opts.checkBookmark || opts.checkView) then Ok([])
    else match Get(images, f.id)
      case None => Err(MissingRecord)
      case Some(image) =>
        Ok((if opts.checkTag && |image.data.tags| == 0 then [NoTags(f.id, f.part)] else []) +
          (if opts.checkTitle && image.data.title == "" then [NoTitle(f.id, f.part)] else []) +
          (if opts.checkBookmark && image.data.bookmark <= 0 then [NoBookmarks(f.id, f.part)] else []) +
          (if opts.checkView && image.data.view <= 0 then [NoViews(f.id, f.part)] else []))
  }

  /** The state `check` works on: the file records, both derivative directories, the log. */
  datatype Checked = Checked(
    files: Dict<string, Record<FileData>>,
    previews: set<string>,
    thumbnails: set<string>,
    warnings: seq<Warning>,
    fault: Option<Fault>)

  /**
   * `check` on one file. A picture that does not open is reported as
   * damaged. A size that differs from the record is reported and, with
   * `try_fix`, written into the record; both derivatives are deleted and
   * made again from the original named after the record, and the dominant
   * colour is recomputed. When that original does not open, the new size
   * stays, the preview is gone, and the file is reported as damaged.
   */
  function CheckFile(c: Checked, name: string, rec: Record<FileData>, images: Dict<int, Record<ImageData>>,
                     opts: CheckOptions, pictures: Pictures, originals: set<string>): Checked
  {
    match RecordWarnings(images, opts, rec.data)
    case Err(fault) => c.(fault := Some(fault))
    case Ok(found) =>
      var f := rec.data;
      var warned := c.warnings + found;
      match OpenIn(pictures, originals, name)
      case None => c.(warnings := warned + [Damaged(f.id, f.part)])
      case Some(pic) =>
        var actual := (pic.width, pic.height);
        if actual == f.size then c.(warnings := warned)
        else
          var mismatch := warned + [SizeMismatch(f.id, f.part, f.size, actual)];
          if !opts.tryFix then c.(warnings := mismatch)
          else Repaired(c, name, rec, pic, mismatch, pictures, originals)
  }

  /**
   * The `try_fix` branch of `check`: the actual size goes into the record,
   * both derivatives are deleted and made again from the original, and the
   * dominant colour is recomputed; an original that does not open leaves
   * the new size, no preview, and a damage report.
   */
  function Repaired(c: Checked, name: string, rec: Record<FileData>, pic: Picture, mismatch: seq<Warning>,
                    pictures: Pictures, originals: set<string>): Checked
  {
    var f := rec.data;
    var resized := f.(size := (pic.width, pic.height));
    var derivative := DerivativeName(f.id, f.part);
    match OpenIn(pictures, originals, OriginalName(f.id, f.part, f.ext))
    case None =>
      Checked(Set(c.files, name, Record(rec.update, resized)), c.previews - {derivative},
        c.thumbnails, mismatch + [Damaged(f.id, f.part)], c.fault)
    case Some(_) =>
      Checked(Set(c.files, name, Record(rec.update, resized.(dominantColor := DominantColor(pic)))),
        c.previews + {derivative}, c.thumbnails + {derivative}, mismatch, c.fault)
  }

  /** `check` over the file entries in order; a KeyError ends it. */
  function Checking(c: Checked, entries: Dict<string, Record<FileData>>, images: Dict<int, Record<ImageData>>,
                    opts: CheckOptions, pictures: Pictures, originals: set<string>): Checked
    decreases |entries|
  {
    if entries == [] || c.fault.Some? then c
    else Checking(CheckFile(c, entries[0].0, entries[0].1, images, opts, pictures, originals), entries[1..],
      images, opts, pictures, originals)
  }

  /** Without `try_fix`, `check` only reports. */
  lemma {:induction false} CheckingReadOnly(c: Checked, entries: Dict<string, Record<FileData>>, images: Dict<int, Record<ImageData>>,
                                          opts: CheckOptions, pictures: Pictures, originals: set<string>)
    requires !opts.tryFix
    ensures var r := Checking(c, entries, images, opts, pictures, originals);
      r.files == c.files && r.previews == c.previews && r.thumbnails == c.thumbnails
    decreases |entries|
  {
    if entries != [] && c.fault.None? {
      CheckingReadOnly(CheckFile(c, entries[0].0, entries[0].1, images, opts, pictures, originals), entries[1..],
        images, opts, pictures, originals);
    }
  }

  /** With every file's image recorded, `check` does not raise. */
  lemma {:induction false} CheckingTotal(c: Checked, entries: Dict<string, Record<FileData>>, images: Dict<int, Record<ImageData>>,
                                       opts: CheckOptions, pictures: Pictures, originals: set<string>)
    requires c.fault == None
    requires forall e :: e in entries ==> e.1.data.id in KeySet(images)
    ensures Checking(c, entries, images, opts, pictures, originals).fault == None
    decreases |entries|
  {
    if entries != [] {
      assert entries[0] in entries;
      assert forall e :: e in entries[1..] ==> e in entries;
      CheckingTotal(CheckFile(c, entries[0].0, entries[0].1, images, opts, pictures, originals), entries[1..],
        images, opts, pictures, originals);
    }
  }

  /**
   * How `check` may change a record: not at all, or, when its original
   * opens, to the actual size with stamp, id, part and extension kept.
   */
  ghost predicate RepairOf(before: Record<FileData>, after: Record<FileData>, pic: Option<Picture>) {
    after == before ||
    (pic.Some? && after.update == before.update && after.data.id == before.data.id &&
     after.data.part == before.data.part && after.data.ext == before.data.ext &&
     after.data.size == (pic.value.width, pic.value.height))
  }

  /** The check of one file keeps the keys and at most repairs the record it read. */
  lemma CheckFileRepairs(c: Checked, name: string, rec: Record<FileData>, files0: Dict<string, Record<FileData>>,
                         images: Dict<int, Record<ImageData>>, opts: CheckOptions, pictures: Pictures, originals: set<string>)
    requires Get(files0, name) == Some(rec)
    requires KeySet(c.files) == KeySet(files0)
    requires forall k :: k in KeySet(files0) ==>
      RepairOf(Get(files0, k).value, Get(c.files, k).value, OpenIn(pictures, originals, k))
    ensures var r := CheckFile(c, name, rec, images, opts, pictures, originals);
      KeySet(r.files) == KeySet(files0) &&
      forall k :: k in KeySet(files0) ==> RepairOf(Get(files0, k).value, Get(r.files, k).value, OpenIn(pictures, originals, k))
  {
    match RecordWarnings(images, opts, rec.data)
    case Err(_) =>
    case Ok(_) =>
      var f := rec.data;
      match OpenIn(pictures, originals, name)
      case None =>
      case Some(pic) =>
        if (pic.width, pic.height) != f.size && opts.tryFix {
          var resized := f.(size := (pic.width, pic.height));
          match OpenIn(pictures, originals, OriginalName(f.id, f.part, f.ext))
          case None =>
            SetRepairs(c.files, files0, name, rec, Record(rec.update, resized), pictures, originals);
          case Some(_) =>
            SetRepairs(c.files, files0, name, rec, Record(rec.update, resized.(dominantColor := DominantColor(pic))), pictures, originals);
        }
  }

  /** Writing a repair of the original record keeps every record a repair. */
  lemma SetRepairs(files: Dict<string, Record<FileData>>, files0: Dict<string, Record<FileData>>, name: string,
                   rec: Record<FileData>, after: Record<FileData>, pictures: Pictures, originals: set<string>)
    requires Get(files0, name) == Some(rec)
    requires KeySet(files) == KeySet(files0)
    requires forall k :: k in KeySet(files0) ==>
      RepairOf(Get(files0, k).value, Get(files, k).value, OpenIn(pictures, originals, k))
    requires RepairOf(rec, after, OpenIn(pictures, originals, name))
    ensures KeySet(Set(files, name, after)) == KeySet(files0)
    ensures forall k :: k in KeySet(files0) ==>
      RepairOf(Get(files0, k).value, Get(Set(files, name, after), k).value, OpenIn(pictures, originals, k))
  {
  }

  /** `check` keeps the keys and changes a record only by repairing it. */
  lemma {:induction false} CheckingRepairs(c: Checked, entries: Dict<string, Record<FileData>>, files0: Dict<string, Record<FileData>>,
                                         images: Dict<int, Record<ImageData>>, opts: CheckOptions, pictures: Pictures, originals: set<string>)
    requires Unique(files0)
    requires forall e :: e in entries ==> e in files0
    requires KeySet(c.files) == KeySet(files0)
    requires forall k :: k in KeySet(files0) ==>
      RepairOf(Get(files0, k).value, Get(c.files, k).value, OpenIn(pictures, originals, k))
    ensures var r := Checking(c, entries, images, opts, pictures, originals);
      KeySet(r.files) == KeySet(files0) &&
      forall k :: k in KeySet(files0) ==> RepairOf(Get(files0, k).value, Get(r.files, k).value, OpenIn(pictures, originals, k))
    decreases |entries|
  {
    if entries != [] && c.fault.None? {
      var next := CheckFile(c, entries[0].0, entries[0].1, images, opts, pictures, originals);
      assert entries[0] in files0;
      GetEntry(files0, entries[0].0, entries[0].1);
      CheckFileRepairs(c, entries[0].0, entries[0].1, files0, images, opts, pictures, originals);
      assert forall e :: e in entries[1..] ==> e in entries;
      CheckingRepairs(next, entries[1..], files0, images, opts, pictures, originals);
    }
  }

  /** `check` touches only the keys it visits. */
  lemma {:induction false} CheckingUntouched(c: Checked, entries: Dict<string, Record<FileData>>, images: Dict<int, Record<ImageData>>,
                                           opts: CheckOptions, pictures: Pictures, originals: set<string>, k: string)
    requires k !in KeySet(entries)
    ensures Get(Checking(c, entries, images, opts, pictures, originals).files, k) == Get(c.files, k)
    decreases |entries|
  {
    if entries != [] && c.fault.None? {
      assert entries[0] in entries;
      assert KeySet(entries[1..]) <= KeySet(entries) by {
        forall e | e in entries[1..] ensures e in entries { }
      }
      CheckingUntouched(CheckFile(c, entries[0].0, entries[0].1, images, opts, pictures, originals), entries[1..],
        images, opts, pictures, originals, k);
    }
  }

  /**
   * A `check` with `try_fix` that runs to the end leaves every file whose
   * original opens with its actual size on record.
   */
  lemma {:induction false} CheckingFixesSizes(c: Checked, entries: Dict<string, Record<FileData>>, images: Dict<int, Record<ImageData>>,
                                            opts: CheckOptions, pictures: Pictures, originals: set<string>)
    requires opts.tryFix && Unique(entries)
    requires forall e :: e in entries ==> Get(c.files, e.0) == Some(e.1)
    requires Checking(c, entries, images, opts, pictures, originals).fault == None
    ensures var r := Checking(c, entries, images, opts, pictures, originals);
      forall e :: e in entries && OpenIn(pictures, originals, e.0).Some? ==>
        Get(r.files, e.0).Some? &&
        Get(r.files, e.0).value.data.size == (OpenIn(pictures, originals, e.0).value.width, OpenIn(pictures, originals, e.0).value.height)
    decreases |entries|
  {
    if entries != [] {
      var k := entries[0].0;
      var next := CheckFile(c, k, entries[0].1, images, opts, pictures, originals);
      var r := Checking(c, entries, images, opts, pictures, originals);
      assert entries == [entries[0]] + entries[1..];
      forall e | e in entries[1..] ensures Get(next.files, e.0) == Some(e.1) {
        assert e.0 in KeySet(entries[1..]);
        assert e in entries;
      }
      CheckingFixesSizes(next, entries[1..], images, opts, pictures, originals);
      CheckingUntouched(next, entries[1..], images, opts, pictures, originals, k);
    }
  }

  /** The outcome of a derivative pass: the directory, the names made, the exception that ended it. */
  datatype Generated = Generated(dir: set<string>, made: seq<string>, fault: Option<Fault>)

  /**
   * `generate_preview` / `generate_thumbnail`: a file's derivative is made
   * when it is missing or `overwrite` is set, from the original named after
   * the record; an original that does not open raises and ends the pass.
   */
  function Generating(entries: Dict<string, Record<FileData>>, dir: set<string>, overwrite: bool,
                      pictures: Pictures, originals: set<string>): Generated
    decreases |entries|
  {
    if entries == [] then Generated(dir, [], None)
    else
      var f := entries[0].1.data;
      var name := DerivativeName(f.id, f.part);
      if name in dir && !overwrite then Generating(entries[1..], dir, overwrite, pictures, originals)
      else if OpenIn(pictures, originals, OriginalName(f.id, f.part, f.ext)).None? then
        Generated(dir, [], Some(Unreadable(OriginalName(f.id, f.part, f.ext))))
      else
        var rest := Generating(entries[1..], dir + {name}, overwrite, pictures, originals);
        Generated(rest.dir, [name] + rest.made, rest.fault)
  }

  /** The pass from position `i` on: the file at `i`, then the rest. */
  lemma GeneratingAt(entries: Dict<string, Record<FileData>>, i: nat, dir: set<string>, overwrite: bool,
                     pictures: Pictures, originals: set<string>)
    requires i < |entries|
    ensures var f := entries[i].1.data;
      var name := DerivativeName(f.id, f.part);
      Generating(entries[i..], dir, overwrite, pictures, originals) ==
        if name in dir && !overwrite then Generating(entries[i + 1..], dir, overwrite, pictures, originals)
        else if OpenIn(pictures, originals, OriginalName(f.id, f.part, f.ext)).None? then
          Generated(dir, [], Some(Unreadable(OriginalName(f.id, f.part, f.ext))))
        else
          var rest := Generating(entries[i + 1..], dir + {name}, overwrite, pictures, originals);
          Generated(rest.dir, [name] + rest.made, rest.fault)
  {
    assert entries[i..][0] == entries[i] && entries[i..][1..] == entries[i + 1..];
  }

  /** A pass that has made `made` and reached position `i` with `dir` ends in `total`. */
  ghost predicate GeneratingFrom(total: Generated, entries: Dict<string, Record<FileData>>, i: nat, dir: set<string>,
                                 made: seq<string>, overwrite: bool, pictures: Pictures, originals: set<string>)
    requires i <= |entries|
  {
    var rest := Generating(entries[i..], dir, overwrite, pictures, originals);
    total == Generated(rest.dir, made + rest.made, rest.fault)
  }

  /** A file whose derivative exists, without `overwrite`, is skipped. */
  lemma GeneratingSkips(total: Generated, entries: Dict<string, Record<FileData>>, i: nat, dir: set<string>,
                        made: seq<string>, overwrite: bool, pictures: Pictures, originals: set<string>)
    requires i < |entries| && GeneratingFrom(total, entries, i, dir, made, overwrite, pictures, originals)
    requires DerivativeName(entries[i].1.data.id, entries[i].1.data.part) in dir && !overwrite
    ensures GeneratingFrom(total, entries, i + 1, dir, made, overwrite, pictures, originals)
  {
    GeneratingAt(entries, i, dir, overwrite, pictures, originals);
  }

  /** A file to derive whose original does not open ends the pass with that fault. */
  lemma GeneratingFails(total: Generated, entries: Dict<string, Record<FileData>>, i: nat, dir: set<string>,
                        made: seq<string>, overwrite: bool, pictures: Pictures, originals: set<string>)
    requires i < |entries| && GeneratingFrom(total, entries, i, dir, made, overwrite, pictures, originals)
    requires var f := entries[i].1.data;
      (DerivativeName(f.id, f.part) !in dir || overwrite) && OpenIn(pictures, originals, OriginalName(f.id, f.part, f.ext)).None?
    ensures var f := entries[i].1.data;
      total == Generated(dir, made, Some(Unreadable(OriginalName(f.id, f.part, f.ext))))
  {
    GeneratingAt(entries, i, dir, overwrite, pictures, originals);
    assert made + [] == made;
  }

  /** A file to derive whose original opens adds its derivative. */
  lemma GeneratingMakes(total: Generated, entries: Dict<string, Record<FileData>>, i: nat, dir: set<string>,
                        made: seq<string>, overwrite: bool, pictures: Pictures, originals: set<string>)
    requires i < |entries| && GeneratingFrom(total, entries, i, dir, made, overwrite, pictures, originals)
    requires var f := entries[i].1.data;
      (DerivativeName(f.id, f.part) !in dir || overwrite) && OpenIn(pictures, originals, OriginalName(f.id, f.part, f.ext)).Some?
    ensures var f := entries[i].1.data;
      var name := DerivativeName(f.id, f.part);
      GeneratingFrom(total, entries, i + 1, dir + {name}, made + [name], overwrite, pictures, originals)
  {
    var f := entries[i].1.data;
    var name := DerivativeName(f.id, f.part);
    var rest := Generating(entries[i + 1..], dir + {name}, overwrite, pictures, originals);
    GeneratingAt(entries, i, dir, overwrite, pictures, originals);
    assert Generating(entries[i..], dir, overwrite, pictures, originals) == Generated(rest.dir, [name] + rest.made, rest.fault);
    AppendRegroup(made, [name], rest.made);
  }



  /**
   * A pass that runs to the end leaves a derivative for every file, adds
   * exactly the names it made, and with `overwrite` makes one per file.
   */
  lemma {:induction false} GeneratingFills(entries: Dict<string, Record<FileData>>, dir: set<string>, overwrite: bool,
                                         pictures: Pictures, originals: set<string>)
    requires Generating(entries, dir, overwrite, pictures, originals).fault == None
    ensures var g := Generating(entries, dir, overwrite, pictures, originals);
      g.dir == dir + (set n | n in g.made) &&
      (forall e :: e in entries ==> DerivativeName(e.1.data.id, e.1.data.part) in g.dir) &&
      (overwrite ==> |g.made| == |entries|)
    decreases |entries|
  {
    if entries != [] {
      var f := entries[0].1.data;
      var name := DerivativeName(f.id, f.part);
      var g := Generating(entries, dir, overwrite, pictures, originals);
      assert entries == [entries[0]] + entries[1..];
      if name in dir && !overwrite {
        GeneratingFills(entries[1..], dir, overwrite, pictures, originals);
      } else {
        var rest := Generating(entries[1..], dir + {name}, overwrite, pictures, originals);
        GeneratingFills(entries[1..], dir + {name}, overwrite, pictures, originals);
        assert (set n | n in g.made) == {name} + (set n | n in rest.made);
      }
    }
  }

  /** Without `overwrite`, a pass over files whose derivatives all exist makes nothing. */
  lemma {:induction false} GeneratingNothingMissing(entries: Dict<string, Record<FileData>>, dir: set<string>,
                                                  pictures: Pictures, originals: set<string>)
    requires forall e :: e in entries ==> DerivativeName(e.1.data.id, e.1.data.part) in dir
    ensures Generating(entries, dir, false, pictures, originals) == Generated(dir, [], None)
    decreases |entries|
  {
    if entries != [] {
      assert entries[0] in entries;
      assert forall e :: e in entries[1..] ==> e in entries;
      GeneratingNothingMissing(entries[1..], dir, pictures, originals);
    }
  }

  /** Running a complete pass again without `overwrite` makes nothing. */
  lemma GeneratingIdempotent(entries: Dict<string, Record<FileData>>, dir: set<string>, overwrite: bool,
                             pictures: Pictures, originals: set<string>)
    requires Generating(entries, dir, overwrite, pictures, originals).fault == None
    ensures var once := Generating(entries, dir, overwrite, pictures, originals).dir;
      Generating(entries, once, false, pictures, originals) == Generated(once, [], None)
  {
    GeneratingFills(entries, dir, overwrite, pictures, originals);
    GeneratingNothingMissing(entries, Generating(entries, dir, overwrite, pictures, originals).dir, pictures, originals);
  }

  /** The original URLs of a bookmark: the single page, or every page. */
  function UrlsOf(item: Bookmark): seq<string> {
    if item.pageCount == 1 then [item.singleUrl] else item.pageUrls
  }

  /** What `download_bookmark` queues for one item: nothing for a hidden or known one. */
  function Queued(item: Bookmark, known: set<int>): seq<string> {
    if !item.visible || item.id in known then [] else UrlsOf(item)
  }

  function QueuedOnPage(items: seq<Bookmark>, known: set<int>): seq<string>
    decreases |items|
  {
    if items == [] then [] else Queued(items[0], known) + QueuedOnPage(items[1..], known)
  }

  /** The whole `download_list`, page after page. */
  function QueuedAll(pages: seq<BookmarkPage>, known: set<int>): seq<string>
    decreases |pages|
  {
    if pages == [] then [] else QueuedOnPage(pages[0].illusts, known) + QueuedAll(pages[1..], known)
  }

  /** One more page of the listing: its queue, then the queue of the pages after it. */
  lemma QueuedAllStep(bookmarks: Bookmarks, userId: int, restrict: string, next: Option<string>, remaining: nat, known: set<int>)
    requires remaining > 0
    ensures var page := bookmarks(userId, restrict, next);
      QueuedAll(Pages(bookmarks, userId, restrict, next, remaining), known) ==
        QueuedOnPage(page.illusts, known) +
        (if page.nextUrl.None? then [] else QueuedAll(Pages(bookmarks, userId, restrict, page.nextUrl, remaining - 1), known))
  {
    var page := bookmarks(userId, restrict, next);
    var pages := Pages(bookmarks, userId, restrict, next, remaining);
    if page.nextUrl.None? {
      assert pages == [page];
      assert pages[1..] == [];
    } else {
      assert pages[1..] == Pages(bookmarks, userId, restrict, page.nextUrl, remaining - 1);
    }
  }

  /** The listing loop after one more page: what is queued so far, and what is still to come. */
  lemma ListingStep(bookmarks: Bookmarks, userId: int, restrict: string, next: Option<string>, remaining: nat,
                    known: set<int>, before: seq<string>, total: seq<string>)
    requires remaining > 0
    requires total == before + QueuedAll(Pages(bookmarks, userId, restrict, next, remaining), known)
    ensures var page := bookmarks(userId, restrict, next);
      var queued := before + QueuedOnPage(page.illusts, known);
      if page.nextUrl.None? then total == queued
      else total == queued + QueuedAll(Pages(bookmarks, userId, restrict, page.nextUrl, remaining - 1), known)
  {
    var page := bookmarks(userId, restrict, next);
    var here := QueuedOnPage(page.illusts, known);
    var rest := if page.nextUrl.None? then [] else QueuedAll(Pages(bookmarks, userId, restrict, page.nextUrl, remaining - 1), known);
    QueuedAllStep(bookmarks, userId, restrict, next, remaining, known);
    AppendRegroup(before, here, rest);
    if page.nextUrl.None? {
      assert here + [] == here;
    }
  }

  lemma {:induction false} QueuedOnPageMembers(items: seq<Bookmark>, known: set<int>, url: string)
    ensures url in QueuedOnPage(items, known) <==>
      exists item :: item in items && item.visible && item.id !in known && url in UrlsOf(item)
    decreases |items|
  {
    if items != [] {
      QueuedOnPageMembers(items[1..], known, url);
      assert items == [items[0]] + items[1..];
      if url in QueuedOnPage(items[1..], known) {
        var item :| item in items[1..] && item.visible && item.id !in known && url in UrlsOf(item);
        assert item in items;
      }
    }
  }

  /**
   * A URL is queued exactly when it belongs to a visible bookmark of a
   * fetched page whose id has no image record.
   */
  lemma {:induction false} QueuedAllMembers(pages: seq<BookmarkPage>, known: set<int>, url: string)
    ensures url in QueuedAll(pages, known) <==>
      exists p, item :: p in pages && item in p.illusts && item.visible && item.id !in known && url in UrlsOf(item)
    decreases |pages|
  {
    if pages != [] {
      QueuedOnPageMembers(pages[0].illusts, known, url);
      QueuedAllMembers(pages[1..], known, url);
      assert pages == [pages[0]] + pages[1..];
      if url in QueuedAll(pages[1..], known) {
        var p, item :| p in pages[1..] && item in p.illusts && item.visible && item.id !in known && url in UrlsOf(item);
        assert p in pages;
      }
      if url in QueuedOnPage(pages[0].illusts, known) {
        var item :| item in pages[0].illusts && item.visible && item.id !in known && url in UrlsOf(item);
        assert pages[0] in pages;
      }
    }
  }

  /** The original directory after one `__download_image`: the file is there exactly when it succeeded. */
  function AfterDownload(originals: set<string>, url: string, downloads: Downloads): set<string> {
    if Downloading(downloads, url, 0).success then originals + {FileNameOf(url)}
    else originals - {FileNameOf(url)}
  }

  /** Every queued URL is tried in turn, whatever happened to the ones before. */
  function AfterDownloads(originals: set<string>, urls: seq<string>, downloads: Downloads): set<string>
    decreases |urls|
  {
    if urls == [] then originals else AfterDownloads(AfterDownload(originals, urls[0], downloads), urls[1..], downloads)
  }

  /** The URLs whose download failed after every retry, in order. */
  function FailedDownloads(urls: seq<string>, downloads: Downloads): seq<string>
    decreases |urls|
  {
    if urls == [] then []
    else (if Downloading(downloads, urls[0], 0).success then [] else [urls[0]]) + FailedDownloads(urls[1..], downloads)
  }

  /**
   * With distinct file names, a queued image is on disk afterwards exactly
   * when its download succeeded, and other files are untouched.
   */
  lemma {:induction false} AfterDownloadsFiles(originals: set<string>, urls: seq<string>, downloads: Downloads)
    requires forall i, j :: 0 <= i < j < |urls| ==> FileNameOf(urls[i]) != FileNameOf(urls[j])
    ensures forall i :: 0 <= i < |urls| ==>
      (FileNameOf(urls[i]) in AfterDownloads(originals, urls, downloads) <==> Downloading(downloads, urls[i], 0).success)
    ensures forall name :: (forall u :: u in urls ==> FileNameOf(u) != name) ==>
      (name in AfterDownloads(originals, urls, downloads) <==> name in originals)
    decreases |urls|
  {
    if urls != [] {
      var next := AfterDownload(originals, urls[0], downloads);
      AfterDownloadsFiles(next, urls[1..], downloads);
      forall i | 0 <= i < |urls|
        ensures FileNameOf(urls[i]) in AfterDownloads(originals, urls, downloads) <==> Downloading(downloads, urls[i], 0).success
      {
        if i == 0 {
          forall u | u in urls[1..] ensures FileNameOf(u) != FileNameOf(urls[0]) {
            var j :| 0 <= j < |urls[1..]| && urls[1..][j] == u;
            assert u == urls[j + 1];
          }
        } else {
          assert urls[i] == urls[1..][i - 1];
        }
      }
      forall name | forall u :: u in urls ==> FileNameOf(u) != name
        ensures name in AfterDownloads(originals, urls, downloads) <==> name in originals
      {
        assert urls[0] in urls;
        assert forall u :: u in urls[1..] ==> u in urls;
      }
    }
  }
}
