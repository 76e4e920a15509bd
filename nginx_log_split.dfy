/**
 * `nginx_log_split/nginx_log_split.py`: split a live nginx log by the date
 * of each line into `save_dir/YYYY-MM/<stem>_<YYYY-MM-DD>.log`, then delete
 * archived files older than the retention period.
 *
 * The archive under `save_dir` is a map from sub-directory name to its
 * files (name to lines); the log folder is a map from file name to entry.
 */
module NginxLogSplit {
  import opened Wrappers
  import Strings
  import opened LogDates

  /**
   * `datetime.strptime(text, "%d/%b/%Y:%H:%M:%S %z").date()` for the text
   * between the brackets of a line, or None where it raises.
   */
  type Stamps = string -> Option<Date>

  /** The exceptions that stop a run. */
  datatype Fault =
    | NotALogFile(name: string)
    | BadTimestamp(text: string)
    | NotADirectory(month: string)
    | BadLogName(month: string, name: string)

  // ---------------------------------------------------------------- get_log_date

  /** No `]` and no newline in `line[a..b]`. */
  predicate Clear(line: string, a: nat, b: nat)
    requires a <= b <= |line|
  {
    forall k :: a <= k < b ==> line[k] != ']' && line[k] != '\n'
  }

  /** A `[` at `i` that a `]` later on the same line closes: where `\[(.*?)\]` can match. */
  predicate OpensAt(line: string, i: nat) {
    i < |line| && line[i] == '[' && exists k :: i < k < |line| && line[k] == ']' && Clear(line, i + 1, k)
  }

  /** The first `]` at or after `j`, unless a newline comes first. */
  function CloseFrom(line: string, j: nat): (r: Option<nat>)
    requires j <= |line|
    ensures r.Some? ==> j <= r.value < |line|
    decreases |line| - j
  {
    if j == |line| || line[j] == '\n' then None
    else if line[j] == ']' then Some(j)
    else CloseFrom(line, j + 1)
  }

  /** The `]` found is the first one on the line, and none is found only when the line has none. */
  lemma {:induction false} CloseFromSpec(line: string, j: nat)
    requires j <= |line|
    ensures CloseFrom(line, j).Some? ==> line[CloseFrom(line, j).value] == ']' && Clear(line, j, CloseFrom(line, j).value)
    ensures CloseFrom(line, j).None? ==> forall k :: j <= k < |line| && line[k] == ']' ==> !Clear(line, j, k)
    decreases |line| - j
  {
    if j < |line| && line[j] != '\n' && line[j] != ']' {
      CloseFromSpec(line, j + 1);
    }
  }

  function BracketedFrom(line: string, i: nat): Option<string>
    requires i <= |line|
    decreases |line| - i
  {
    if i == |line| then None
    else if line[i] == '[' && CloseFrom(line, i + 1).Some? then Some(line[i + 1..CloseFrom(line, i + 1).value])
    else BracketedFrom(line, i + 1)
  }

  /** `re.search(r'\[(.*?)\]', line).group(1)`, or None when nothing matches. */
  function Bracketed(line: string): Option<string> {
    BracketedFrom(line, 0)
  }

  /**
   * The search finds a match iff some `[` is closed on its line, and then
   * returns what lies between the leftmost such `[` and the first `]` after it.
   */
  lemma {:induction false} BracketedFromNone(line: string, i: nat)
    requires i <= |line|
    ensures BracketedFrom(line, i).None? <==> forall h :: i <= h < |line| ==> !OpensAt(line, h)
    decreases |line| - i
  {
    if i < |line| {
      CloseFromSpec(line, i + 1);
      if line[i] == '[' && CloseFrom(line, i + 1).Some? {
        assert OpensAt(line, i);
      } else {
        assert !OpensAt(line, i);
        BracketedFromNone(line, i + 1);
      }
    }
  }

  lemma {:induction false} BracketedFromFirst(line: string, i: nat)
    requires i <= |line|
    ensures BracketedFrom(line, i).Some? ==>
              exists h, k :: i <= h < k < |line| && line[h] == '[' && line[k] == ']' && Clear(line, h + 1, k) &&
                BracketedFrom(line, i).value == line[h + 1..k] && (forall g :: i <= g < h ==> !OpensAt(line, g))
    decreases |line| - i
  {
    if i < |line| {
      CloseFromSpec(line, i + 1);
      if line[i] == '[' && CloseFrom(line, i + 1).Some? {
        var k := CloseFrom(line, i + 1).value;
        assert BracketedFrom(line, i) == Some(line[i + 1..k]);
      } else {
        assert !OpensAt(line, i);
        BracketedFromFirst(line, i + 1);
        if BracketedFrom(line, i + 1).Some? {
          var h, k :| i + 1 <= h < k < |line| && line[h] == '[' && line[k] == ']' && Clear(line, h + 1, k) &&
                      BracketedFrom(line, i + 1).value == line[h + 1..k] && (forall g :: i + 1 <= g < h ==> !OpensAt(line, g));
          assert forall g :: i <= g < h ==> !OpensAt(line, g);
        }
      }
    }
  }

  /**
   * `get_log_date(line)`: the date of the first bracketed text, None when
   * the line has none, a fault when `strptime` raises on that text.
   */
  function LogDate(line: string, stamps: Stamps): (r: Result<Option<Date>, Fault>)
    ensures r.Ok? && r.value.Some? ==> Valid(r.value.value)
  {
    match Bracketed(line)
    case None => Ok(None)
    case Some(text) =>
      if stamps(text).Some? && Valid(stamps(text).value) then Ok(stamps(text)) else Err(BadTimestamp(text))
  }

  /** In a line written `pre [text] rest`, the date is read from `text`. */
  lemma LogDateOfLine(pre: string, text: string, rest: string, stamps: Stamps)
    requires '[' !in pre && ']' !in text && '\n' !in text
    ensures Bracketed(pre + "[" + text + "]" + rest) == Some(text)
    ensures LogDate(pre + "[" + text + "]" + rest, stamps) ==
            (if stamps(text).Some? && Valid(stamps(text).value) then Ok(stamps(text)) else Err(BadTimestamp(text)))
  {
    var line := pre + "[" + text + "]" + rest;
    var h0, k0 := |pre|, |pre| + 1 + |text|;
    assert line[h0 + 1..k0] == text;
    assert Clear(line, h0 + 1, k0) by {
      forall k | h0 + 1 <= k < k0 ensures line[k] != ']' && line[k] != '\n' {
        assert line[k] == text[k - h0 - 1];
      }
    }
    assert forall g :: 0 <= g < h0 ==> line[g] != '[' by {
      forall g | 0 <= g < h0 ensures line[g] != '[' {
        assert line[g] == pre[g];
      }
    }
    assert line[h0] == '[' && line[k0] == ']';
    BracketedAt(line, h0, k0);
  }

  /** The first `[` of a line, closed on its line by the `]` at `k0`, gives the text between them. */
  lemma BracketedAt(line: string, h0: nat, k0: nat)
    requires h0 < k0 < |line| && line[h0] == '[' && line[k0] == ']' && Clear(line, h0 + 1, k0)
    requires forall g :: 0 <= g < h0 ==> line[g] != '['
    ensures Bracketed(line) == Some(line[h0 + 1..k0])
  {
    assert OpensAt(line, h0);
    BracketedFromNone(line, 0);
    BracketedFromFirst(line, 0);
    var h, k :| 0 <= h < k < |line| && line[h] == '[' && line[k] == ']' && Clear(line, h + 1, k) &&
                BracketedFrom(line, 0).value == line[h + 1..k] && (forall g :: 0 <= g < h ==> !OpensAt(line, g));
    assert h == h0;
    assert k == k0;
  }


  // ---------------------------------------------------------------- split_file: bucketing

  /** `filename.rsplit('.', maxsplit=1)[0]`: the name without its last extension. */
  function LogStem(filename: string): string {
    Strings.RSplitOnce(filename, '.')[0]
  }

  /** The stem of a `.log` file is its name without `.log`. */
  lemma LogStemOfLog(filename: string)
    requires Strings.EndsWith(filename, ".log")
    ensures LogStem(filename) == filename[..|filename| - 4]
  {
    var a := filename[..|filename| - 4];
    assert filename == a + ['.'] + "log";
    Strings.RSplitOnceAt(a, '.', "log");
  }

  /** `f"{stem}_{log_date}.log"`: the archive file for one day. */
  function OutputName(stem: string, d: Date): string
    requires Valid(d)
  {
    stem + "_" + Iso(d) + ".log"
  }

  /** A month sub-directory of the archive (file name to lines), or a plain file in its place. */
  datatype Node = Plain | Folder(files: map<string, seq<string>>)

  type Archive = map<string, Node>

  predicate PlainAt(archive: Archive, month: string) {
    month in archive && archive[month].Plain?
  }

  /** The lines of `month/name`, empty when the file is not there. */
  function Contents(archive: Archive, month: string, name: string): seq<string> {
    if month in archive && archive[month].Folder? && name in archive[month].files then archive[month].files[name] else []
  }

  /** Only sub-directories and files are added; a plain file is never replaced. */
  predicate Grows(a: Archive, b: Archive) {
    a.Keys <= b.Keys && forall m :: m in b ==> (PlainAt(b, m) <==> PlainAt(a, m))
  }

  /**
   * Writing one dated line: `os.makedirs(save_dir/YYYY-MM, exist_ok=True)`,
   * which raises when a plain file has that name, then an append to the
   * day's file.
   */
  function Append(archive: Archive, stem: string, d: Date, line: string): (r: Result<Archive, Fault>)
    requires Valid(d)
    ensures r.Err? <==> PlainAt(archive, YearMonth(d))
    ensures r.Err? ==> r.error == NotADirectory(YearMonth(d))
    ensures r.Ok? ==> Grows(archive, r.value) && r.value.Keys == archive.Keys + {YearMonth(d)}
    ensures r.Ok? ==> forall m, n :: Contents(r.value, m, n) ==
                                     Contents(archive, m, n) + (if m == YearMonth(d) && n == OutputName(stem, d) then [line] else [])
  {
    var month := YearMonth(d);
    if PlainAt(archive, month) then Err(NotADirectory(month))
    else
      var files := if month in archive then archive[month].files else map[];
      var name := OutputName(stem, d);
      Ok(archive[month := Folder(files[name := Contents(archive, month, name) + [line]])])
  }

  datatype Outcome = Outcome(archive: Archive, fault: Option<Fault>)

  /** One line of the loop: `get_log_date`, then the append when the line is dated. */
  function Advance(archive: Archive, line: string, stem: string, stamps: Stamps): Result<Archive, Fault> {
    match LogDate(line, stamps)
    case Err(f) => Err(f)
    case Ok(None) => Ok(archive)
    case Ok(Some(d)) => Append(archive, stem, d, line)
  }

  /** The loop of lines 44-63: each line in turn, stopping at the first exception. */
  function Bucketing(archive: Archive, lines: seq<string>, stem: string, stamps: Stamps): Outcome
    decreases |lines|
  {
    if lines == [] then Outcome(archive, None)
    else
      match Advance(archive, lines[0], stem, stamps)
      case Err(f) => Outcome(archive, Some(f))
      case Ok(next) => Bucketing(next, lines[1..], stem, stamps)
  }

  /** The line is dated and its date sends it to `month/name`. */
  predicate Goes(line: string, stem: string, stamps: Stamps, month: string, name: string) {
    var r := LogDate(line, stamps);
    r.Ok? && r.value.Some? && YearMonth(r.value.value) == month && OutputName(stem, r.value.value) == name
  }

  /** The lines bound for `month/name`, in their order in the log. */
  function Routed(lines: seq<string>, stem: string, stamps: Stamps, month: string, name: string): seq<string>
    decreases |lines|
  {
    if lines == [] then []
    else (if Goes(lines[0], stem, stamps, month, name) then [lines[0]] else []) + Routed(lines[1..], stem, stamps, month, name)
  }

  /** Every line parses, and no dated line meets a plain file where its month directory goes. */
  predicate Writable(archive: Archive, lines: seq<string>, stamps: Stamps) {
    forall i :: 0 <= i < |lines| ==>
      var r := LogDate(lines[i], stamps);
      r.Ok? && (r.value.Some? ==> !PlainAt(archive, YearMonth(r.value.value)))
  }

  /** Bucketing fails exactly when some line cannot be written, and only ever adds to the archive. */
  lemma {:induction false} BucketingWritable(archive: Archive, lines: seq<string>, stem: string, stamps: Stamps)
    ensures var r := Bucketing(archive, lines, stem, stamps);
            Grows(archive, r.archive) && (r.fault.None? <==> Writable(archive, lines, stamps))
    decreases |lines|
  {
    if lines != [] {
      var rest := lines[1..];
      var step := Advance(archive, lines[0], stem, stamps);
      if step.Ok? {
        var next := step.value;
        BucketingWritable(next, rest, stem, stamps);
        assert forall m :: PlainAt(next, m) == PlainAt(archive, m);
        WritableStep(archive, next, lines, stamps);
      }
    }
  }

  lemma WritableStep(archive: Archive, next: Archive, lines: seq<string>, stamps: Stamps)
    requires |lines| > 0 && forall m :: PlainAt(next, m) == PlainAt(archive, m)
    requires LogDate(lines[0], stamps).Ok?
    requires LogDate(lines[0], stamps).value.Some? ==> !PlainAt(archive, YearMonth(LogDate(lines[0], stamps).value.value))
    ensures Writable(archive, lines, stamps) <==> Writable(next, lines[1..], stamps)
  {
    var rest := lines[1..];
    if Writable(next, rest, stamps) {
      forall i | 0 <= i < |lines|
        ensures LogDate(lines[i], stamps).Ok? &&
                (LogDate(lines[i], stamps).value.Some? ==> !PlainAt(archive, YearMonth(LogDate(lines[i], stamps).value.value)))
      {
        if i > 0 {
          assert lines[i] == rest[i - 1];
        }
      }
    }
    if Writable(archive, lines, stamps) {
      forall i | 0 <= i < |rest|
        ensures LogDate(rest[i], stamps).Ok? &&
                (LogDate(rest[i], stamps).value.Some? ==> !PlainAt(next, YearMonth(LogDate(rest[i], stamps).value.value)))
      {
        assert rest[i] == lines[i + 1];
      }
    }
  }

  /**
   * When bucketing succeeds, every archive file holds its old lines followed
   * by the lines of the log bound for it, in log order, and nothing else:
   * undated lines are written nowhere.
   */
  lemma {:induction false} BucketingRoutes(archive: Archive, lines: seq<string>, stem: string, stamps: Stamps, month: string, name: string)
    ensures var r := Bucketing(archive, lines, stem, stamps);
            r.fault.None? ==> Contents(r.archive, month, name) == Contents(archive, month, name) + Routed(lines, stem, stamps, month, name)
    decreases |lines|
  {
    if lines == [] {
      assert Contents(archive, month, name) + [] == Contents(archive, month, name);
    } else if Advance(archive, lines[0], stem, stamps).Ok? {
      var next := Advance(archive, lines[0], stem, stamps).value;
      var r := Bucketing(next, lines[1..], stem, stamps);
      assert Bucketing(archive, lines, stem, stamps) == r;
      BucketingRoutes(next, lines[1..], stem, stamps, month, name);
      if r.fault.None? {
        var here := if Goes(lines[0], stem, stamps, month, name) then [lines[0]] else [];
        AdvanceContents(archive, lines[0], stem, stamps, month, name);
        Joined(Contents(r.archive, month, name), Contents(next, month, name), Contents(archive, month, name),
               here, Routed(lines[1..], stem, stamps, month, name), Routed(lines, stem, stamps, month, name));
      }
    }
  }

  /** Appending in two steps is appending the two parts at once. */
  lemma Joined<T>(after: seq<T>, mid: seq<T>, before: seq<T>, here: seq<T>, later: seq<T>, all: seq<T>)
    requires after == mid + later && mid == before + here && all == here + later
    ensures after == before + all
  {
    assert (before + here) + later == before + (here + later);
  }

  /** One line adds itself to the file it goes to and to no other. */
  lemma AdvanceContents(archive: Archive, line: string, stem: string, stamps: Stamps, month: string, name: string)
    requires Advance(archive, line, stem, stamps).Ok?
    ensures Contents(Advance(archive, line, stem, stamps).value, month, name) ==
            Contents(archive, month, name) + (if Goes(line, stem, stamps, month, name) then [line] else [])
  {
    match LogDate(line, stamps)
    case Ok(None) =>
      assert Contents(archive, month, name) + [] == Contents(archive, month, name);
    case Ok(Some(d)) =>
  }

  lemma BucketingStep(archive: Archive, lines: seq<string>, i: nat, stem: string, stamps: Stamps)
    requires i < |lines|
    ensures Bucketing(archive, lines[i..], stem, stamps) ==
            match Advance(archive, lines[i], stem, stamps)
            case Err(f) => Outcome(archive, Some(f))
            case Ok(next) => Bucketing(next, lines[i + 1..], stem, stamps)
  {
    assert lines[i..][1..] == lines[i + 1..];
  }

  /** Lines 44-63 of `split_file`: read the copy line by line and append each dated line. */
  method SplitLines(archive: Archive, lines: seq<string>, stem: string, stamps: Stamps) returns (r: Outcome)
    ensures r == Bucketing(archive, lines, stem, stamps)
  {
    var current := archive;
    for i := 0 to |lines|
      invariant Bucketing(archive, lines, stem, stamps) == Bucketing(current, lines[i..], stem, stamps)
    {
      BucketingStep(current, lines, i, stem, stamps);
      var date := LogDate(lines[i], stamps);
      if date.Err? {
        return Outcome(current, Some(date.error));
      }
      if date.value.Some? {
        var next := Append(current, stem, date.value.value, lines[i]);
        if next.Err? {
          return Outcome(current, Some(next.error));
        }
        current := next.value;
      }
    }
    assert lines[|lines|..] == [];
    return Outcome(current, None);
  }

  // ---------------------------------------------------------------- split_file: retention

  /**
   * The date of an archive file as line 75 reads it:
   * `log_file.rsplit("_")[1].split(".")[0]` through `strptime(..., "%Y-%m-%d")`,
   * None where either raises. Without a limit, `rsplit` cuts at every `_`.
   */
  function FileDateAsWritten(name: string): Option<Date> {
    match Strings.Piece(name, '_', 1)
    case None => None
    case Some(text) => ParseIso(Strings.FirstPiece(text, '.'))
  }

  /** The date read from the text after the last `_`: `log_file.rsplit("_", 1)[1]`. */
  function FileDate(name: string): Option<Date> {
    var parts := Strings.RSplitOnce(name, '_');
    if |parts| == 1 then None else ParseIso(Strings.FirstPiece(parts[1], '.'))
  }

  /** Every file the split writes carries its own date back. */
  lemma FileDateReadsOutput(stem: string, d: Date)
    requires Valid(d)
    ensures FileDate(OutputName(stem, d)) == Some(d)
  {
    IsoHasNo(d);
    var tail := Iso(d) + ['.'] + "log";
    assert OutputName(stem, d) == stem + ['_'] + tail;
    Strings.RSplitOnceAt(stem, '_', tail);
    Strings.FirstPieceAt(Iso(d), '.', "log");
    IsoRoundTrip(d);
  }

  /** Line 75 as written reads the date back when the stem holds no `_`. */
  lemma FileDateAsWrittenReadsOutput(stem: string, d: Date)
    requires Valid(d) && '_' !in stem
    ensures FileDateAsWritten(OutputName(stem, d)) == Some(d)
  {
    IsoHasNo(d);
    var tail := Iso(d) + ['.'] + "log";
    assert OutputName(stem, d) == stem + ['_'] + tail;
    Strings.SplitAfterHead(stem, '_', tail);
    Strings.SplitNoSep(tail, '_');
    Strings.FirstPieceAt(Iso(d), '.', "log");
    IsoRoundTrip(d);
  }

  /**
   * With a `_` in the stem (a log named `my_site.log` gives the stem
   * `my_site`), line 75 reads the second word of the stem instead of the
   * date, and `strptime` raises on it.
   */
  lemma FileDateAsWrittenMisreads(a: string, b: string, d: Date)
    requires Valid(d) && '_' !in a && '_' !in b && '.' !in b && '-' !in b
    ensures FileDateAsWritten(OutputName(a + "_" + b, d)) == None
    ensures FileDate(OutputName(a + "_" + b, d)) == Some(d)
  {
    assert OutputName(a + "_" + b, d) == a + ['_'] + (b + ['_'] + (Iso(d) + ".log"));
    Strings.SplitAfterHead(a, '_', b + ['_'] + (Iso(d) + ".log"));
    Strings.SplitAfterHead(b, '_', Iso(d) + ".log");
    Strings.SplitNoSep(b, '.');
    Strings.SplitNoSep(b, '-');
    FileDateReadsOutput(a + "_" + b, d);
  }

  /**
   * `current_date - log_file_date > timedelta(days=remain_days)`: a file
   * exactly `remain_days` old is kept.
   */
  predicate Expired(today: Date, d: Date, remainDays: int)
    requires Valid(today) && Valid(d)
  {
    DayNumber(today) - DayNumber(d) > remainDays
  }

  /** Whatever is older than an expired file is expired too. */
  lemma ExpiredOlder(today: Date, a: Date, b: Date, remainDays: int)
    requires Valid(today) && Valid(a) && Valid(b) && Before(a, b)
    requires Expired(today, b, remainDays)
    ensures Expired(today, a, remainDays)
  {
    DayNumberOrder(a, b);
  }

  /** The file name carries a date and that date has expired. */
  predicate Doomed(name: string, today: Date, remainDays: int)
    requires Valid(today)
  {
    FileDate(name).Some? && Expired(today, FileDate(name).value, remainDays)
  }

  /** Every file name in the folder carries a date. */
  predicate Dated(files: map<string, seq<string>>) {
    forall n :: n in files ==> FileDate(n).Some?
  }

  /** A month folder after retention: the files that have not expired. */
  function Retained(files: map<string, seq<string>>, today: Date, remainDays: int): map<string, seq<string>>
    requires Valid(today)
  {
    map n | n in files && !Doomed(n, today, remainDays) :: files[n]
  }

  /** Deleting changes no file: `kept` is `files` less some expired files. */
  predicate Pruned(files: map<string, seq<string>>, kept: map<string, seq<string>>, today: Date, remainDays: int)
    requires Valid(today)
  {
    (forall n :: n in kept ==> n in files && kept[n] == files[n]) &&
    (forall n :: n in files && n !in kept ==> Doomed(n, today, remainDays))
  }

  /**
   * A day's file survives retention exactly when it is at most
   * `remain_days` old, and retention applied twice deletes nothing more.
   */
  lemma RetainedDays(files: map<string, seq<string>>, stem: string, d: Date, today: Date, remainDays: int)
    requires Valid(today) && Valid(d)
    ensures OutputName(stem, d) in Retained(files, today, remainDays) <==>
            OutputName(stem, d) in files && DayNumber(today) - DayNumber(d) <= remainDays
    ensures Retained(Retained(files, today, remainDays), today, remainDays) == Retained(files, today, remainDays)
  {
    FileDateReadsOutput(stem, d);
  }

  /**
   * The retention loop part-way through a folder: the names still to visit
   * are untouched, and every visited name is dated and kept exactly when it
   * has not expired.
   */
  ghost predicate PruningFrom(files: map<string, seq<string>>, kept: map<string, seq<string>>, todo: set<string>,
                              today: Date, remainDays: int)
    requires Valid(today)
  {
    todo <= files.Keys &&
    (forall n :: n in todo ==> n in kept) &&
    Pruned(files, kept, today, remainDays) &&
    forall n :: n in files && n !in todo ==> FileDate(n).Some? && (n in kept <==> !Doomed(n, today, remainDays))
  }

  /** Visiting a dated name deletes it exactly when it has expired. */
  lemma PruningStep(files: map<string, seq<string>>, kept: map<string, seq<string>>, todo: set<string>, name: string,
                    today: Date, remainDays: int)
    requires Valid(today) && PruningFrom(files, kept, todo, today, remainDays)
    requires name in todo && FileDate(name).Some?
    ensures var kept' := if Expired(today, FileDate(name).value, remainDays) then kept - {name} else kept;
      PruningFrom(files, kept', todo - {name}, today, remainDays)
  {
    if Expired(today, FileDate(name).value, remainDays) {
      assert Doomed(name, today, remainDays);
    } else {
      assert !Doomed(name, today, remainDays);
    }
  }

  /** An undated name stops the loop with the folder pruned so far. */
  lemma PruningStops(files: map<string, seq<string>>, kept: map<string, seq<string>>, todo: set<string>, name: string,
                     today: Date, remainDays: int)
    requires Valid(today) && PruningFrom(files, kept, todo, today, remainDays)
    requires name in todo && FileDate(name).None?
    ensures !Dated(files) && Pruned(files, kept, today, remainDays)
  {
  }

  /** When every name has been visited, the folder is dated and retained. */
  lemma PruningDone(files: map<string, seq<string>>, kept: map<string, seq<string>>, today: Date, remainDays: int)
    requires Valid(today) && PruningFrom(files, kept, {}, today, remainDays)
    ensures Dated(files) && kept == Retained(files, today, remainDays) && Pruned(files, kept, today, remainDays)
  {
  }

  /**
   * Lines 74-79 for one month folder, in `os.listdir` order (any order):
   * stops at the first name without a readable date.
   */
  method PruneFolder(month: string, files: map<string, seq<string>>, today: Date, remainDays: int)
    returns (kept: map<string, seq<string>>, fault: Option<Fault>)
    requires Valid(today)
    ensures fault.None? <==> Dated(files)
    ensures fault.None? ==> kept == Retained(files, today, remainDays)
    ensures Pruned(files, kept, today, remainDays)
    ensures fault.Some? ==> fault.value.BadLogName? && fault.value.month == month &&
                            fault.value.name in files && FileDate(fault.value.name).None?
  {
    kept := files;
    var todo := files.Keys;
    while todo != {}
      invariant PruningFrom(files, kept, todo, today, remainDays)
      decreases |todo|
    {
      var name :| name in todo;
      var date := FileDate(name);
      if date.None? {
        PruningStops(files, kept, todo, name, today, remainDays);
        return kept, Some(BadLogName(month, name));
      }
      PruningStep(files, kept, todo, name, today, remainDays);
      if Expired(today, date.value, remainDays) {
        kept := kept - {name};
      }
      todo := todo - {name};
    }
    PruningDone(files, kept, today, remainDays);
    return kept, None;
  }

  /** Every month folder of the archive holds only dated names. */
  predicate ArchiveDated(archive: Archive) {
    forall m :: m in archive && archive[m].Folder? ==> Dated(archive[m].files)
  }

  /** The archive after retention: plain files untouched, each folder retained. */
  function RetainedArchive(archive: Archive, today: Date, remainDays: int): (r: Archive)
    requires Valid(today)
    ensures r.Keys == archive.Keys
  {
    map m | m in archive :: if archive[m].Plain? then Plain else Folder(Retained(archive[m].files, today, remainDays))
  }

  /** Each folder pruned, nothing else changed. */
  predicate PrunedArchive(archive: Archive, r: Archive, today: Date, remainDays: int)
    requires Valid(today)
  {
    r.Keys == archive.Keys &&
    forall m :: m in archive ==>
      (archive[m].Plain? <==> r[m].Plain?) && (archive[m].Folder? ==> Pruned(archive[m].files, r[m].files, today, remainDays))
  }

  /**
   * The loop of `PruneArchive` part-way: the months still to visit are as
   * they were, the visited ones are retained and their folders were dated.
   */
  ghost predicate ArchivePruningFrom(archive: Archive, r: Archive, todo: set<string>, today: Date, remainDays: int)
    requires Valid(today)
  {
    todo <= archive.Keys && PrunedArchive(archive, r, today, remainDays) &&
    (forall m :: m in todo ==> r[m] == archive[m]) &&
    (forall m :: m in archive && m !in todo ==>
       r[m] == RetainedArchive(archive, today, remainDays)[m] && (archive[m].Folder? ==> Dated(archive[m].files)))
  }

  lemma ArchivePruningFolder(archive: Archive, r: Archive, todo: set<string>, month: string,
                             kept: map<string, seq<string>>, today: Date, remainDays: int)
    requires Valid(today) && ArchivePruningFrom(archive, r, todo, today, remainDays)
    requires month in todo && archive[month].Folder? && Dated(archive[month].files)
    requires kept == Retained(archive[month].files, today, remainDays) && Pruned(archive[month].files, kept, today, remainDays)
    ensures ArchivePruningFrom(archive, r[month := Folder(kept)], todo - {month}, today, remainDays)
  {
    var r' := r[month := Folder(kept)];
    PrunedArchiveUpdate(archive, r, month, kept, today, remainDays);
    assert RetainedArchive(archive, today, remainDays)[month] == Folder(kept);
    forall m | m in archive && m !in todo - {month}
      ensures r'[m] == RetainedArchive(archive, today, remainDays)[m] && (archive[m].Folder? ==> Dated(archive[m].files))
    {
      if m != month {
        assert r'[m] == r[m];
      }
    }
  }

  /** Replacing one folder by a pruning of it keeps the archive pruned. */
  lemma PrunedArchiveUpdate(archive: Archive, r: Archive, month: string, kept: map<string, seq<string>>,
                            today: Date, remainDays: int)
    requires Valid(today) && PrunedArchive(archive, r, today, remainDays)
    requires month in archive && archive[month].Folder? && Pruned(archive[month].files, kept, today, remainDays)
    ensures PrunedArchive(archive, r[month := Folder(kept)], today, remainDays)
  {
    var r' := r[month := Folder(kept)];
    assert r'.Keys == archive.Keys;
    forall m | m in archive
      ensures (archive[m].Plain? <==> r'[m].Plain?) &&
              (archive[m].Folder? ==> Pruned(archive[m].files, r'[m].files, today, remainDays))
    {
      if m != month {
        assert r'[m] == r[m];
      }
    }
  }

  lemma ArchivePruningPlain(archive: Archive, r: Archive, todo: set<string>, month: string, today: Date, remainDays: int)
    requires Valid(today) && ArchivePruningFrom(archive, r, todo, today, remainDays)
    requires month in todo && archive[month].Plain?
    ensures ArchivePruningFrom(archive, r, todo - {month}, today, remainDays)
  {
  }

  lemma ArchivePruningStops(archive: Archive, r: Archive, todo: set<string>, month: string,
                            kept: map<string, seq<string>>, today: Date, remainDays: int)
    requires Valid(today) && ArchivePruningFrom(archive, r, todo, today, remainDays)
    requires month in todo && archive[month].Folder? && !Dated(archive[month].files)
    requires Pruned(archive[month].files, kept, today, remainDays)
    ensures !ArchiveDated(archive) && PrunedArchive(archive, r[month := Folder(kept)], today, remainDays)
  {
    PrunedArchiveUpdate(archive, r, month, kept, today, remainDays);
  }

  lemma ArchivePruningDone(archive: Archive, r: Archive, today: Date, remainDays: int)
    requires Valid(today) && ArchivePruningFrom(archive, r, {}, today, remainDays)
    ensures ArchiveDated(archive) && r == RetainedArchive(archive, today, remainDays)
  {
  }

  /** Lines 69-79: every sub-directory in `os.listdir` order (any order); plain files are skipped. */
  method PruneArchive(archive: Archive, today: Date, remainDays: int) returns (r: Archive, fault: Option<Fault>)
    requires Valid(today)
    ensures fault.None? <==> ArchiveDated(archive)
    ensures fault.None? ==> r == RetainedArchive(archive, today, remainDays)
    ensures PrunedArchive(archive, r, today, remainDays)
    ensures fault.Some? ==> fault.value.BadLogName?
  {
    r := archive;
    var todo := archive.Keys;
    while todo != {}
      invariant ArchivePruningFrom(archive, r, todo, today, remainDays)
      decreases |todo|
    {
      var month :| month in todo;
      if archive[month].Folder? {
        var kept, f := PruneFolder(month, archive[month].files, today, remainDays);
        if f.Some? {
          ArchivePruningStops(archive, r, todo, month, kept, today, remainDays);
          r := r[month := Folder(kept)];
          return r, f;
        }
        ArchivePruningFolder(archive, r, todo, month, kept, today, remainDays);
        r := r[month := Folder(kept)];
      } else {
        ArchivePruningPlain(archive, r, todo, month, today, remainDays);
      }
      todo := todo - {month};
    }
    ArchivePruningDone(archive, r, today, remainDays);
    return r, None;
  }

  // ---------------------------------------------------------------- split_file

  /** What `os.path.isfile` tells apart in the log folder: a regular file with its lines, or anything else. */
  datatype LogEntry = Regular(lines: seq<string>) | Special

  type LogDir = map<string, LogEntry>

  function TmpName(name: string): string {
    name + ".tmp"
  }

  /** The log folder after `shutil.copyfile(log_file, log_file + ".tmp")` and `os.remove(log_file)`. */
  function Copied(logs: LogDir, name: string): LogDir
    requires name in logs
  {
    logs[TmpName(name) := logs[name]] - {name}
  }

  /**
   * The state `split_file` leaves, and whether it raised. Where retention
   * raises, the archive is the one a complete retention would leave; the
   * method below says what it is then.
   */
  datatype Step = Step(logs: LogDir, archive: Archive, failed: bool)

  function SplitFileSpec(logs: LogDir, name: string, archive: Archive, today: Date, remainDays: int, stamps: Stamps): Step
    requires Valid(today)
  {
    if name !in logs || logs[name].Special? then Step(logs, archive, true)
    else
      var b := Bucketing(archive, logs[name].lines, LogStem(name), stamps);
      if b.fault.Some? then Step(Copied(logs, name), b.archive, true)
      else Step(Copied(logs, name) - {TmpName(name)}, RetainedArchive(b.archive, today, remainDays), !ArchiveDated(b.archive))
  }

  /**
   * `split_file(log_file, save_dir, remain_days)`: copy the log aside and
   * remove it, bucket the copy's lines into the archive, remove the copy,
   * then apply retention to the whole archive. The copy stays behind when
   * bucketing raises.
   */
  method SplitFile(logs: LogDir, name: string, archive: Archive, today: Date, remainDays: int, stamps: Stamps)
    returns (logs': LogDir, archive': Archive, fault: Option<Fault>)
    requires Valid(today)
    ensures var s := SplitFileSpec(logs, name, archive, today, remainDays, stamps);
            logs' == s.logs && (fault.Some? <==> s.failed)
    ensures fault.Some? && fault.value.BadLogName? ==>
              name in logs && logs[name].Regular? &&
              PrunedArchive(Bucketing(archive, logs[name].lines, LogStem(name), stamps).archive, archive', today, remainDays)
    ensures !(fault.Some? && fault.value.BadLogName?) ==>
              archive' == SplitFileSpec(logs, name, archive, today, remainDays, stamps).archive
  {
    if name !in logs || logs[name].Special? {
      return logs, archive, Some(NotALogFile(name));
    }
    var lines := logs[name].lines;
    logs' := Copied(logs, name);
    var b := SplitLines(archive, lines, LogStem(name), stamps);
    if b.fault.Some? {
      assert !b.fault.value.BadLogName? by {
        BucketingNeverBadName(archive, lines, LogStem(name), stamps);
      }
      return logs', b.archive, b.fault;
    }
    logs' := logs' - {TmpName(name)};
    archive', fault := PruneArchive(b.archive, today, remainDays);
  }

  /** Bucketing raises only on a timestamp or a plain file in the way. */
  lemma {:induction false} BucketingNeverBadName(archive: Archive, lines: seq<string>, stem: string, stamps: Stamps)
    ensures var r := Bucketing(archive, lines, stem, stamps);
            r.fault.Some? ==> r.fault.value.BadTimestamp? || r.fault.value.NotADirectory?
    decreases |lines|
  {
    if lines != [] {
      if Advance(archive, lines[0], stem, stamps).Ok? {
        BucketingNeverBadName(Advance(archive, lines[0], stem, stamps).value, lines[1..], stem, stamps);
      }
    }
  }

  // ---------------------------------------------------------------- spilt_folder

  /** A regular file whose name ends in `.log`: the files `spilt_folder` splits. */
  predicate Selected(logs: LogDir, name: string) {
    name in logs && logs[name].Regular? && Strings.EndsWith(name, ".log")
  }

  /** The archive kept under `save_dir/<stem>`, empty until the first split creates it. */
  function ArchiveOf(archives: map<string, Archive>, stem: string): Archive {
    if stem in archives then archives[stem] else map[]
  }

  datatype Sweep = Sweep(logs: LogDir, archives: map<string, Archive>, failed: bool)

  /** The loop of `spilt_folder` over the names `os.listdir` gave, stopping at the first exception. */
  function SplitAll(listing: seq<string>, logs: LogDir, archives: map<string, Archive>, today: Date, remainDays: int, stamps: Stamps): Sweep
    requires Valid(today)
    decreases |listing|
  {
    if listing == [] then Sweep(logs, archives, false)
    else if !Selected(logs, listing[0]) then SplitAll(listing[1..], logs, archives, today, remainDays, stamps)
    else
      var stem := LogStem(listing[0]);
      var s := SplitFileSpec(logs, listing[0], ArchiveOf(archives, stem), today, remainDays, stamps);
      if s.failed then Sweep(s.logs, archives[stem := s.archive], true)
      else SplitAll(listing[1..], s.logs, archives[stem := s.archive], today, remainDays, stamps)
  }

  /** The selected names of the listing, judged on the folder as it was, with their copies. */
  function Consumes(listing: seq<string>, logs: LogDir): set<string>
    decreases |listing|
  {
    if listing == [] then {}
    else if Selected(logs, listing[0]) then {listing[0], TmpName(listing[0])} + Consumes(listing[1..], logs)
    else Consumes(listing[1..], logs)
  }

  /** A copy's name does not end in `.log`, so a copy is never split. */
  lemma TmpNotLog(name: string)
    ensures !Strings.EndsWith(TmpName(name), ".log")
  {
    var t := TmpName(name);
    assert t[|t| - 1] == 'p';
  }

  /**
   * Splitting `f` changes the selection of no name but `f` and its copy,
   * so the rest of the listing consumes the same other names.
   */
  lemma {:induction false} ConsumesAfter(listing: seq<string>, logs: LogDir, after: LogDir, f: string)
    requires forall g :: g != f && g != TmpName(f) ==> (Selected(after, g) <==> Selected(logs, g))
    ensures forall n :: n != f && n != TmpName(f) ==> (n in Consumes(listing, after) <==> n in Consumes(listing, logs))
    decreases |listing|
  {
    if listing != [] {
      ConsumesAfter(listing[1..], logs, after, f);
      TmpNotLog(f);
    }
  }

  /** A `split_file` that raises nothing removes the log and its copy, and nothing else. */
  lemma SplitFileLogs(logs: LogDir, name: string, archive: Archive, today: Date, remainDays: int, stamps: Stamps)
    requires Valid(today)
    ensures var s := SplitFileSpec(logs, name, archive, today, remainDays, stamps);
            !s.failed ==> forall g :: (g in s.logs <==> g in logs && g != name && g != TmpName(name)) &&
                                     (g in s.logs ==> s.logs[g] == logs[g])
  {
  }

  /**
   * A sweep that raises nothing removes from the log folder exactly the
   * regular `.log` files of the listing and the copies made of them:
   * directories, other files and names not listed stay as they were.
   */
  lemma {:induction false} SplitAllLogs(listing: seq<string>, logs: LogDir, archives: map<string, Archive>, today: Date, remainDays: int, stamps: Stamps)
    requires Valid(today)
    ensures var r := SplitAll(listing, logs, archives, today, remainDays, stamps);
            !r.failed ==> forall n :: (n in r.logs <==> n in logs && n !in Consumes(listing, logs)) &&
                                     (n in r.logs ==> r.logs[n] == logs[n])
    decreases |listing|
  {
    if listing != [] {
      var rest, f := listing[1..], listing[0];
      if !Selected(logs, f) {
        SplitAllLogs(rest, logs, archives, today, remainDays, stamps);
      } else {
        var stem := LogStem(f);
        var s := SplitFileSpec(logs, f, ArchiveOf(archives, stem), today, remainDays, stamps);
        if !s.failed {
          SplitAllLogs(rest, s.logs, archives[stem := s.archive], today, remainDays, stamps);
          SplitFileLogs(logs, f, ArchiveOf(archives, stem), today, remainDays, stamps);
          ConsumesAfter(rest, logs, s.logs, f);
        }
      }
    }
  }

  lemma SplitAllStep(listing: seq<string>, i: nat, logs: LogDir, archives: map<string, Archive>, today: Date, remainDays: int, stamps: Stamps)
    requires Valid(today) && i < |listing|
    ensures SplitAll(listing[i..], logs, archives, today, remainDays, stamps) ==
            if !Selected(logs, listing[i]) then SplitAll(listing[i + 1..], logs, archives, today, remainDays, stamps)
            else
              var stem := LogStem(listing[i]);
              var s := SplitFileSpec(logs, listing[i], ArchiveOf(archives, stem), today, remainDays, stamps);
              if s.failed then Sweep(s.logs, archives[stem := s.archive], true)
              else SplitAll(listing[i + 1..], s.logs, archives[stem := s.archive], today, remainDays, stamps)
  {
    assert listing[i..][1..] == listing[i + 1..];
  }

  /**
   * `spilt_folder(folder_path, save_dir, remain_days)` over the names in
   * `listing`: each regular `.log` file is split into the archive named by
   * its stem.
   */
  method SplitFolder(listing: seq<string>, logs: LogDir, archives: map<string, Archive>, today: Date, remainDays: int, stamps: Stamps)
    returns (logs': LogDir, archives': map<string, Archive>, fault: Option<Fault>)
    requires Valid(today)
    ensures var s := SplitAll(listing, logs, archives, today, remainDays, stamps);
            logs' == s.logs && (fault.Some? <==> s.failed)
    ensures fault.None? ==> archives' == SplitAll(listing, logs, archives, today, remainDays, stamps).archives
  {
    logs', archives' := logs, archives;
    for i := 0 to |listing|
      invariant SplitAll(listing, logs, archives, today, remainDays, stamps) ==
                SplitAll(listing[i..], logs', archives', today, remainDays, stamps)
    {
      SplitAllStep(listing, i, logs', archives', today, remainDays, stamps);
      var name := listing[i];
      if !(name in logs' && logs'[name].Regular?) {
        continue;
      }
      if !Strings.EndsWith(name, ".log") {
        continue;
      }
      var stem := LogStem(name);
      var archive;
      logs', archive, fault := SplitFile(logs', name, ArchiveOf(archives', stem), today, remainDays, stamps);
      archives' := archives'[stem := archive];
      if fault.Some? {
        return;
      }
    }
    assert listing[|listing|..] == [];
    fault := None;
  }
}
