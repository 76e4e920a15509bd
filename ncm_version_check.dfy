/**
 * `ncm_version_check/ncm_version_check.py`: ask NetEase Cloud Music's
 * download endpoint of one platform for its latest package, read the
 * version from the redirect URL, and record it in `version.json` when it is
 * newer than the one stored there.
 */
module NcmVersionCheck {
  import opened Wrappers
  import Strings
  import Numerals

  /** `NETEASE_API`: the platforms and their download endpoints. */
  const Endpoints: map<string, string> := map[
    "Windows" := "https://music.163.com/api/pc/package/download/latest",
    "Android_32" := "https://music.163.com/api/android/download/latest",
    "Android_3264" := "https://music.163.com/api/android/download/latest2",
    "Mac" := "https://music.163.com/api/osx/download/latest"
  ]

  /** What `requests.get(url=api, allow_redirects=False)` gave: a response, or an exception. */
  datatype Reply = Raised | Response(status: int, location: Option<string>)

  /** One entry of `version.json`. */
  datatype Version = Version(versionName: string, versionCode: int, download: string)

  type Data = map<string, Version>

  /** The end of the run of digits that starts at `i`. */
  function RunEnd(url: string, i: nat): (e: nat)
    requires i <= |url|
    ensures i <= e <= |url|
    decreases |url| - i
  {
    if i == |url| || !Numerals.IsDigit(url[i]) then i else RunEnd(url, i + 1)
  }

  /** The run is all digits, and what ends it is not a digit. */
  lemma {:induction false} RunEndDigits(url: string, i: nat)
    requires i <= |url|
    ensures forall k :: i <= k < RunEnd(url, i) ==> Numerals.IsDigit(url[k])
    ensures RunEnd(url, i) == |url| || !Numerals.IsDigit(url[RunEnd(url, i)])
    decreases |url| - i
  {
    if i < |url| && Numerals.IsDigit(url[i]) {
      RunEndDigits(url, i + 1);
    }
  }

  /**
   * `\d+`, then for each separator the separator and `\d+`, from `i`: where
   * that match ends. No separator is a digit, so each `\d+` takes its whole
   * run of digits.
   */
  function FieldsEnd(url: string, i: nat, seps: seq<char>): (r: Option<nat>)
    requires i <= |url|
    ensures r.Some? ==> i < r.value <= |url|
    decreases |seps|
  {
    var e := RunEnd(url, i);
    if e == i then None
    else if seps == [] then Some(e)
    else if e < |url| && url[e] == seps[0] then FieldsEnd(url, e + 1, seps[1..])
    else None
  }

  /** `VERSION_PATTERN` is `_(\d+\.\d+\.\d+\.\d+)`; Mac's `VERSION_PATTERN_MAC` ends in `_\d+` instead. */
  function Separators(platform: string): seq<char> {
    if platform == "Mac" then ['.', '.', '_'] else ['.', '.', '.']
  }

  /** Where the name ends and the code begins: the last `.`, or the last `_` for Mac. */
  function CodeSeparator(platform: string): char {
    if platform == "Mac" then '_' else '.'
  }

  function FirstMatchFrom(url: string, p: nat, seps: seq<char>): Option<string>
    requires p <= |url|
    decreases |url| - p
  {
    if p == |url| then None
    else if url[p] == '_' && FieldsEnd(url, p + 1, seps).Some? then Some(url[p + 1..FieldsEnd(url, p + 1, seps).value])
    else FirstMatchFrom(url, p + 1, seps)
  }

  /** `re.findall(pattern, url)[0]`, or None where the list is empty and indexing raises. */
  function VersionText(platform: string, url: string): Option<string> {
    FirstMatchFrom(url, 0, Separators(platform))
  }

  /**
   * Lines 36-44: the version name and the integer version code read from the
   * download URL, or None where a step raises.
   */
  function ServerVersion(platform: string, url: string): Option<(string, int)> {
    match VersionText(platform, url)
    case None => None
    case Some(text) =>
      var parts := Strings.RSplitOnce(text, CodeSeparator(platform));
      if |parts| == 1 then None
      else
        match Numerals.ParseInt(parts[1])
        case None => None
        case Some(code) => Some((parts[0], code))
  }

  lemma RunEndAt(url: string, i: nat, digits: string)
    requires Numerals.AllDigits(digits) && i + |digits| <= |url| && url[i..i + |digits|] == digits
    requires i + |digits| == |url| || !Numerals.IsDigit(url[i + |digits|])
    ensures RunEnd(url, i) == i + |digits|
  {
    RunEndDigits(url, i);
  }

  lemma {:induction false} FirstMatchSkips(url: string, p: nat, q: nat, seps: seq<char>)
    requires p <= q <= |url|
    requires forall k :: p <= k < q ==> url[k] != '_'
    ensures FirstMatchFrom(url, p, seps) == FirstMatchFrom(url, q, seps)
    decreases q - p
  {
    if p < q {
      FirstMatchSkips(url, p + 1, q, seps);
    }
  }

  /** A run of digits followed by the expected separator: the match goes on after it. */
  lemma FieldStep(url: string, i: nat, digits: string, seps: seq<char>, j: nat, more: seq<char>)
    requires Numerals.AllDigits(digits) && |seps| > 0 && i + |digits| < |url|
    requires url[i..i + |digits|] == digits && url[i + |digits|] == seps[0] && !Numerals.IsDigit(seps[0])
    requires j == i + |digits| + 1 && more == seps[1..]
    ensures FieldsEnd(url, i, seps) == FieldsEnd(url, j, more)
  {
    RunEndAt(url, i, digits);
  }

  /** The last run of digits ends the match. */
  lemma FieldLast(url: string, i: nat, digits: string)
    requires Numerals.AllDigits(digits) && i + |digits| <= |url| && url[i..i + |digits|] == digits
    requires i + |digits| == |url| || !Numerals.IsDigit(url[i + |digits|])
    ensures FieldsEnd(url, i, []) == Some(i + |digits|)
  {
    RunEndAt(url, i, digits);
  }

  lemma {:induction false} RunEndShift(x: string, y: string, i: nat)
    requires i <= |y|
    ensures RunEnd(x + y, |x| + i) == |x| + RunEnd(y, i)
    decreases |y| - i
  {
    if i < |y| {
      assert (x + y)[|x| + i] == y[i];
      RunEndShift(x, y, i + 1);
    }
  }

  /** A match end found in a suffix, seen from the start of the whole text. */
  function Offset(r: Option<nat>, k: nat): Option<nat> {
    match r
    case Some(e) => Some(k + e)
    case None => None
  }

  /** The match does not depend on what comes before it. */
  lemma {:induction false} FieldsEndShift(x: string, y: string, i: nat, k: nat, seps: seq<char>)
    requires i <= |y| && k == |x| + i
    ensures FieldsEnd(x + y, k, seps) == Offset(FieldsEnd(y, i, seps), |x|)
    decreases |seps|
  {
    RunEndShift(x, y, i);
    var e := RunEnd(y, i);
    if e != i && seps != [] && e < |y| {
      assert (x + y)[|x| + e] == y[e];
      FieldsEndShift(x, y, e + 1, |x| + e + 1, seps[1..]);
    }
  }

  /** Text whose every `_` is followed by a character that is not a digit: no match starts in it. */
  predicate NoVersionStart(prefix: string) {
    forall k :: 0 <= k < |prefix| && prefix[k] == '_' ==> k + 1 < |prefix| && !Numerals.IsDigit(prefix[k + 1])
  }

  lemma {:induction false} FirstMatchPasses(prefix: string, rest: string, p: nat, seps: seq<char>)
    requires p <= |prefix| && NoVersionStart(prefix)
    ensures FirstMatchFrom(prefix + rest, p, seps) == FirstMatchFrom(prefix + rest, |prefix|, seps)
    decreases |prefix| - p
  {
    if p < |prefix| {
      var url := prefix + rest;
      assert url[p] == prefix[p];
      if url[p] == '_' {
        assert url[p + 1] == prefix[p + 1];
      }
      FirstMatchPasses(prefix, rest, p + 1, seps);
    }
  }

  lemma FirstMatchAt(url: string, q: nat, e: nat, seps: seq<char>)
    requires q < |url| && url[q] == '_' && FieldsEnd(url, q + 1, seps) == Some(e)
    ensures FirstMatchFrom(url, q, seps) == Some(url[q + 1..e])
  {
  }

  /** The version text `a.b.c.d`, or `a.b.c_d` for Mac. */
  function VersionString(a: string, b: string, c: string, sep: char, d: string): string {
    a + ['.'] + (b + ['.'] + (c + [sep] + d))
  }

  lemma FieldsOfVersion(a: string, b: string, c: string, sep: char, d: string, suffix: string, seps: seq<char>)
    requires Numerals.AllDigits(a) && Numerals.AllDigits(b) && Numerals.AllDigits(c) && Numerals.AllDigits(d)
    requires seps == ['.', '.', sep] && !Numerals.IsDigit(sep)
    requires suffix == [] || !Numerals.IsDigit(suffix[0])
    ensures FieldsEnd(VersionString(a, b, c, sep, d) + suffix, 0, seps) == Some(|VersionString(a, b, c, sep, d)|)
  {
    var u := VersionString(a, b, c, sep, d) + suffix;
    var i1 := |a| + 1;
    var i2 := i1 + |b| + 1;
    var i3 := i2 + |c| + 1;
    assert u == a + ['.'] + b + ['.'] + c + [sep] + d + suffix;
    assert u[0..|a|] == a && u[|a|] == '.';
    assert u[i1..i1 + |b|] == b && u[i1 + |b|] == '.';
    assert u[i2..i2 + |c|] == c && u[i2 + |c|] == sep;
    assert u[i3..i3 + |d|] == d;
    assert i3 + |d| == |u| || u[i3 + |d|] == suffix[0];
    assert i3 + |d| == |VersionString(a, b, c, sep, d)|;
    calc {
      FieldsEnd(u, 0, seps);
      { FieldStep(u, 0, a, seps, i1, ['.', sep]); }
      FieldsEnd(u, i1, ['.', sep]);
      { FieldStep(u, i1, b, ['.', sep], i2, [sep]); }
      FieldsEnd(u, i2, [sep]);
      { FieldStep(u, i2, c, [sep], i3, []); }
      FieldsEnd(u, i3, []);
      { FieldLast(u, i3, d); }
      Some(i3 + |d|);
    }
  }


  /**
   * `re.findall` finds the version in a URL `<prefix>_<version><suffix>`
   * whose prefix starts no match (every `_` in it is followed by a letter or
   * the like, as in `NeteaseCloudMusic_Music_official_`) and whose version is
   * not followed by a digit.
   */
  lemma VersionTextReads(platform: string, prefix: string, a: string, b: string, c: string, d: string, suffix: string)
    requires Numerals.AllDigits(a) && Numerals.AllDigits(b) && Numerals.AllDigits(c) && Numerals.AllDigits(d)
    requires NoVersionStart(prefix)
    requires suffix == [] || !Numerals.IsDigit(suffix[0])
    ensures var text := VersionString(a, b, c, CodeSeparator(platform), d);
            VersionText(platform, prefix + (['_'] + (text + suffix))) == Some(text)
  {
    var text := VersionString(a, b, c, CodeSeparator(platform), d);
    FieldsOfVersion(a, b, c, CodeSeparator(platform), d, suffix, Separators(platform));
    MatchAfterPrefix(prefix, text, suffix, Separators(platform));
  }

  /** A match found at the start of `text`, after a `_` that ends a prefix starting none. */
  lemma MatchAfterPrefix(prefix: string, text: string, suffix: string, seps: seq<char>)
    requires NoVersionStart(prefix)
    requires FieldsEnd(text + suffix, 0, seps) == Some(|text|)
    ensures FirstMatchFrom(prefix + (['_'] + (text + suffix)), 0, seps) == Some(text)
  {
    var tail := text + suffix;
    var x := prefix + ['_'];
    var url := x + tail;
    assert url == prefix + (['_'] + tail);
    assert FieldsEnd(url, |x|, seps) == Some(|x| + |text|) by {
      FieldsEndShift(x, tail, 0, |x|, seps);
    }
    assert url[|x|..|x| + |text|] == text && url[|prefix|] == '_';
    calc {
      FirstMatchFrom(url, 0, seps);
      { FirstMatchPasses(prefix, ['_'] + tail, 0, seps); }
      FirstMatchFrom(url, |prefix|, seps);
      { FirstMatchAt(url, |prefix|, |x| + |text|, seps); }
      Some(text);
    }
  }

  /**
   * The URL of a package `<prefix>_a.b.c.d<suffix>` (`_a.b.c_d` for Mac),
   * with no match starting in the prefix and no digit after the version,
   * gives the name `a.b.c` and the code `d`.
   */
  lemma ServerVersionReads(platform: string, prefix: string, a: string, b: string, c: string, d: string, suffix: string)
    requires Numerals.AllDigits(a) && Numerals.AllDigits(b) && Numerals.AllDigits(c) && Numerals.AllDigits(d)
    requires NoVersionStart(prefix)
    requires suffix == [] || !Numerals.IsDigit(suffix[0])
    ensures ServerVersion(platform, prefix + (['_'] + (VersionString(a, b, c, CodeSeparator(platform), d) + suffix))) ==
            Some((a + ['.'] + (b + ['.'] + c), Numerals.DigitsValue(d)))
  {
    var sep := CodeSeparator(platform);
    var name := a + ['.'] + (b + ['.'] + c);
    var url := prefix + (['_'] + (VersionString(a, b, c, sep, d) + suffix));
    assert VersionText(platform, url) == Some(name + [sep] + d) by {
      VersionTextReads(platform, prefix, a, b, c, d, suffix);
      assert VersionString(a, b, c, sep, d) == name + [sep] + d;
    }
    CodeAfterSeparator(platform, url, name, d);
  }

  /** Version text ending in the code separator and digits splits into that name and code. */
  lemma CodeAfterSeparator(platform: string, url: string, name: string, d: string)
    requires Numerals.AllDigits(d)
    requires VersionText(platform, url) == Some(name + [CodeSeparator(platform)] + d)
    ensures ServerVersion(platform, url) == Some((name, Numerals.DigitsValue(d)))
  {
    assert CodeSeparator(platform) !in d;
    Strings.RSplitOnceAt(name, CodeSeparator(platform), d);
  }

  /** Lines 49-62: new iff the platform has no entry yet or its stored code is lower. */
  predicate IsNew(data: Data, platform: string, code: int) {
    platform !in data || data[platform].versionCode < code
  }

  /** The data `json.loads` gives: empty when `version.json` does not exist. */
  function Loaded(file: Option<Data>): Data {
    if file.Some? then file.value else map[]
  }

  /**
   * `version.json` after `check_version(platform)` with the server's reply
   * (None: the file does not exist). Every failure, caught or not, leaves
   * the file as it was.
   */
  function Checked(file: Option<Data>, platform: string, reply: Reply): Option<Data> {
    if platform !in Endpoints || !reply.Response? || reply.status != 302 || reply.location.None? then file
    else
      match ServerVersion(platform, reply.location.value)
      case None => file
      case Some((name, code)) =>
        if IsNew(Loaded(file), platform, code) then Some(Loaded(file)[platform := Version(name, code, reply.location.value)])
        else file
  }

  /**
   * The file changes only for a known platform whose endpoint redirected
   * (status 302) to a URL carrying a version newer than the stored one; then
   * the platform's entry is replaced with that version and its URL, and
   * every other platform's entry is kept.
   */
  lemma CheckedOnlyNewer(file: Option<Data>, platform: string, reply: Reply)
    ensures var r := Checked(file, platform, reply);
            r != file ==>
              platform in Endpoints && reply.Response? && reply.status == 302 && reply.location.Some? &&
              ServerVersion(platform, reply.location.value).Some? &&
              var (name, code) := ServerVersion(platform, reply.location.value).value;
              IsNew(Loaded(file), platform, code) && r.Some? &&
              r.value[platform] == Version(name, code, reply.location.value) &&
              forall p :: p != platform ==> (p in r.value <==> p in Loaded(file)) && (p in r.value ==> r.value[p] == Loaded(file)[p])
  {
  }

  /**
   * After a check that read a version, the stored code for the platform is at
   * least the server's, and checking again with the same reply changes nothing.
   */
  lemma CheckedSettles(file: Option<Data>, platform: string, reply: Reply)
    requires platform in Endpoints && reply.Response? && reply.status == 302 && reply.location.Some?
    requires ServerVersion(platform, reply.location.value).Some?
    ensures var r := Checked(file, platform, reply);
            var code := ServerVersion(platform, reply.location.value).value.1;
            platform in Loaded(r) && Loaded(r)[platform].versionCode >= code &&
            !IsNew(Loaded(r), platform, code)
    ensures Checked(Checked(file, platform, reply), platform, reply) == Checked(file, platform, reply)
  {
  }

  /** `version.json`, read at the start of a check and rewritten when a new version is found. */
  class VersionFile {
    var file: Option<Data>

    constructor (file: Option<Data>)
      ensures this.file == file
    {
      this.file := file;
    }

    /**
     * `check_version(platform)`, the server answering with `reply`: the
     * platform lookup, the request, the version read from the `Location`
     * header, the new-version decision and the rewrite of `version.json`.
     */
    method CheckVersion(platform: string, reply: Reply)
      modifies this
      ensures file == Checked(old(file), platform, reply)
    {
      if platform !in Endpoints {
        return;
      }
      var flagNewVersion := false;
      var fileUrl := "";
      var data: Data := map[];
      var name, code := "", 0;
      if reply.Response? && reply.status == 302 && reply.location.Some? {
        fileUrl := reply.location.value;
        var version := ServerVersion(platform, fileUrl);
        if version.Some? {
          name, code := version.value.0, version.value.1;
          if file.Some? {
            data := file.value;
          }
          if platform !in data {
            flagNewVersion := true;
          } else if data[platform].versionCode < code {
            flagNewVersion := true;
          }
        }
      }
      if flagNewVersion {
        data := data[platform := Version(name, code, fileUrl)];
        file := Some(data);
      }
    }
  }
}
