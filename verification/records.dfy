/**
 * The two records of the backend: `MoFileInfo`, one compiled catalog found on
 * disk, and `LanguagePackInfo`, one installed language-pack package, with
 * their derived figures, and `get_mo_file_info`, which builds the first from
 * a path.
 *
 * Times are whole microseconds on the local clock (the resolution of Python's
 * `datetime`); percentages are exact reals.
 */
module Records {
  import opened Wrappers
  import opened Text
  import opened MoFile

  /** Microseconds in one day. */
  const DAY: nat := 86_400_000_000

  /** A catalog older than this many whole days counts as outdated. */
  const OUTDATED_AFTER_DAYS: nat := 180

  /**
   * `part / whole * 100`, with 0 for an empty whole. For the non-negative
   * totals the backend works with, the `== 0` guard of the properties and the
   * `> 0` guard of `get_language_stats` choose the same branch.
   */
  function Percent(part: nat, whole: nat): (r: real)
    ensures whole == 0 ==> r == 0.0
    ensures whole > 0 ==> r * whole as real == 100.0 * part as real
    ensures part <= whole ==> 0.0 <= r <= 100.0
    ensures 0 < whole == part ==> r == 100.0
  {
    if whole == 0 then 0.0 else (part as real / whole as real) * 100.0
  }

  /** A percentage reaches a bound when the counts, scaled, do. */
  lemma PercentReaches(part: nat, whole: nat, bound: real)
    requires whole > 0
    ensures Percent(part, whole) >= bound <==> 100.0 * part as real >= bound * whole as real
    ensures Percent(part, whole) > bound <==> 100.0 * part as real > bound * whole as real
  {
    var pct := Percent(part, whole);
    var w := whole as real;
    assert pct * w == 100.0 * part as real;
    if pct >= bound {
      assert pct * w >= bound * w;
    } else {
      assert pct * w < bound * w;
    }
    if pct > bound {
      assert pct * w > bound * w;
    } else {
      assert pct * w <= bound * w;
    }
  }

  /**
   * `timedelta.days` of `now - mtime`: the whole days elapsed, rounded towards
   * minus infinity, so one microsecond into the future is day -1.
   */
  function ElapsedDays(mtime: int, now: int): (d: int)
    ensures d * DAY <= now - mtime < (d + 1) * DAY
  {
    (now - mtime) / DAY
  }

  datatype MoFileInfo = MoFileInfo(
    path: string,
    domain: string,
    package: string,
    translated: nat,
    untranslated: int,
    total: nat,
    mtime: Option<int>,
    launchpadUrl: string)
  {
    /** Share of the messages that are translated, in percent. */
    function CoveragePct(): (r: real)
      ensures total == 0 ==> r == 0.0
      ensures total > 0 ==> r * total as real == 100.0 * translated as real
      ensures translated <= total ==> 0.0 <= r <= 100.0
    {
      Percent(translated, total)
    }

    /**
     * Outdated when the modification time is known and at least 181 whole
     * days lie between it and `now`.
     */
    function IsOutdated(now: int): (r: bool)
      ensures r <==> mtime.Some? && now - mtime.value >= (OUTDATED_AFTER_DAYS + 1) * DAY
    {
      mtime.Some? && ElapsedDays(mtime.value, now) > OUTDATED_AFTER_DAYS
    }

    /** The counts agree with each other, as every record the backend builds does. */
    predicate Consistent() {
      translated <= total && untranslated == total - translated
    }
  }

  /** A catalog whose modification time is `now` or later is never outdated. */
  lemma FutureNeverOutdated(m: MoFileInfo, now: int)
    requires m.mtime.Some? && m.mtime.value >= now
    ensures !m.IsOutdated(now)
  {
  }

  /** 180 whole days and a bit are not yet outdated; 181 days are. */
  lemma OutdatedBoundary(m: MoFileInfo, t: int)
    requires m.mtime == Some(t)
    ensures !m.IsOutdated(t + 181 * DAY - 1)
    ensures m.IsOutdated(t + 181 * DAY)
  {
  }

  /** Sum of `f` over the records, as Python's `sum(f(m) for m in files)`. */
  function Sum(files: seq<MoFileInfo>, f: MoFileInfo -> nat): nat {
    if files == [] then 0 else f(files[0]) + Sum(files[1..], f)
  }

  /** Sums split over concatenation. */
  lemma {:induction false} SumAppend(a: seq<MoFileInfo>, b: seq<MoFileInfo>, f: MoFileInfo -> nat)
    ensures Sum(a + b, f) == Sum(a, f) + Sum(b, f)
  {
    if a == [] {
      assert a + b == b;
    } else {
      assert (a + b)[0] == a[0];
      assert (a + b)[1..] == a[1..] + b;
      SumAppend(a[1..], b, f);
    }
  }

  /** Taking one record out of a sum. */
  lemma SumRemove(b: seq<MoFileInfo>, j: nat, f: MoFileInfo -> nat)
    requires j < |b|
    ensures Sum(b, f) == f(b[j]) + Sum(b[..j] + b[j + 1..], f)
  {
    assert b == b[..j] + ([b[j]] + b[j + 1..]);
    SumAppend(b[..j], [b[j]] + b[j + 1..], f);
    SumAppend([b[j]], b[j + 1..], f);
    SumAppend(b[..j], b[j + 1..], f);
  }

  lemma MultisetRemove(b: seq<MoFileInfo>, j: nat)
    requires j < |b|
    ensures multiset(b[..j] + b[j + 1..]) == multiset(b) - multiset{b[j]}
  {
    assert b == b[..j] + [b[j]] + b[j + 1..];
  }

  /** Sums do not depend on the order of the records. */
  lemma {:induction false} SumPermutation(a: seq<MoFileInfo>, b: seq<MoFileInfo>, f: MoFileInfo -> nat)
    requires multiset(a) == multiset(b)
    ensures Sum(a, f) == Sum(b, f)
    decreases |a|
  {
    if a == [] {
      assert b == [];
    } else {
      assert a[0] in multiset(b);
      var j :| 0 <= j < |b| && b[j] == a[0];
      MultisetRemove(b, j);
      assert a == [a[0]] + a[1..];
      assert multiset(a[1..]) == multiset(a) - multiset{a[0]};
      SumPermutation(a[1..], b[..j] + b[j + 1..], f);
      SumRemove(b, j, f);
    }
  }

  /** One sum bounds another when it does so record by record. */
  lemma {:induction false} SumMonotone(files: seq<MoFileInfo>, f: MoFileInfo -> nat, g: MoFileInfo -> nat)
    requires forall i :: 0 <= i < |files| ==> f(files[i]) <= g(files[i])
    ensures Sum(files, f) <= Sum(files, g)
  {
    if files != [] {
      SumMonotone(files[1..], f, g);
    }
  }

  function Translated(m: MoFileInfo): nat { m.translated }

  function Total(m: MoFileInfo): nat { m.total }

  /** Every term is at most the sum. */
  lemma {:induction false} SumCoversTerms(files: seq<MoFileInfo>, f: MoFileInfo -> nat)
    ensures forall i :: 0 <= i < |files| ==> f(files[i]) <= Sum(files, f)
  {
    if files != [] {
      SumCoversTerms(files[1..], f);
      forall i | 1 <= i < |files| ensures f(files[i]) <= Sum(files, f) {
        assert files[i] == files[1..][i - 1];
      }
    }
  }

  /** Records whose counts agree give totals that agree. */
  lemma TotalsOrdered(files: seq<MoFileInfo>)
    ensures (forall i :: 0 <= i < |files| ==> files[i].Consistent()) ==>
      0 <= Sum(files, Translated) <= Sum(files, Total)
  {
    if forall i :: 0 <= i < |files| ==> files[i].Consistent() {
      assert forall i :: 0 <= i < |files| ==> Translated(files[i]) <= Total(files[i]);
      SumMonotone(files, Translated, Total);
    }
  }

  datatype LanguagePackInfo = LanguagePackInfo(
    name: string,
    version: string,
    language: string,
    moFiles: seq<MoFileInfo>)
  {
    /** `total_translated`: never more than the pack's strings when its records are consistent. */
    function TotalTranslated(): (r: nat)
      ensures (forall i :: 0 <= i < |moFiles| ==> moFiles[i].Consistent()) ==> r <= TotalStrings()
    {
      TotalsOrdered(moFiles);
      Sum(moFiles, Translated)
    }

    /** `total_strings`: at least the strings of each of the pack's catalogs. */
    function TotalStrings(): (r: nat)
      ensures forall i :: 0 <= i < |moFiles| ==> moFiles[i].total <= r
    {
      SumCoversTerms(moFiles, Total);
      Sum(moFiles, Total)
    }

    /** Share of the pack's messages that are translated, in percent. */
    function CoveragePct(): (r: real)
      ensures TotalStrings() == 0 ==> r == 0.0
      ensures TotalStrings() > 0 ==> r * TotalStrings() as real == 100.0 * TotalTranslated() as real
      ensures (forall i :: 0 <= i < |moFiles| ==> moFiles[i].Consistent()) ==> 0.0 <= r <= 100.0
    {
      var translated, total := TotalTranslated(), TotalStrings();
      Percent(translated, total)
    }
  }

  /** A pack's totals do not depend on the order of its catalogs. */
  lemma PackTotalsIgnoreOrder(p: LanguagePackInfo, q: LanguagePackInfo)
    requires multiset(p.moFiles) == multiset(q.moFiles)
    ensures p.TotalTranslated() == q.TotalTranslated()
    ensures p.TotalStrings() == q.TotalStrings()
    ensures p.CoveragePct() == q.CoveragePct()
  {
    SumPermutation(p.moFiles, q.moFiles, Translated);
    SumPermutation(p.moFiles, q.moFiles, Total);
  }

  /** Index of the last `c` in `s`, as `rfind`. */
  function LastIndexOf(s: string, c: char): (r: Option<nat>)
    ensures r.Some? ==> r.value < |s| && s[r.value] == c && c !in s[r.value + 1..]
    ensures r.None? <==> c !in s
  {
    if s == [] then None
    else if s[|s| - 1] == c then Some(|s| - 1)
    else
      var r := LastIndexOf(s[..|s| - 1], c);
      assert s == s[..|s| - 1] + [s[|s| - 1]];
      r
  }

  /** `PurePath.name`: what follows the last '/'. */
  function FileName(path: string): (r: string)
    ensures '/' !in r
    ensures IsSuffix(r, path)
    ensures '/' !in path ==> r == path
  {
    match LastIndexOf(path, '/')
    case None => path
    case Some(i) => path[i + 1..]
  }

  predicate IsSuffix(t: string, s: string) {
    |t| <= |s| && s[|s| - |t|..] == t
  }

  /**
   * `PurePath.stem`: the file name without its last extension. A leading dot
   * does not start an extension and neither does a trailing one.
   */
  function Stem(path: string): (r: string)
    ensures var name := FileName(path);
      r == name
      || (0 < |r| < |name| - 1 && name[..|r|] == r && name[|r|] == '.' && '.' !in name[|r| + 1..])
  {
    var name := FileName(path);
    match LastIndexOf(name, '.')
    case Some(i) => if 0 < i < |name| - 1 then name[..i] else name
    case None => name
  }

  /** The last occurrence of `c` is at `i` when `s[i]` is `c` and no `c` follows it. */
  lemma LastIndexAt(s: string, c: char, i: nat)
    requires i < |s| && s[i] == c && c !in s[i + 1..]
    ensures LastIndexOf(s, c) == Some(i)
  {
    assert c in s;
  }

  /** The file name of a directory, a slash and a slash-free name is that name. */
  lemma FileNameAfterSlash(dir: string, name: string)
    requires '/' !in name
    ensures FileName(dir + "/" + name) == name
  {
    var path := dir + "/" + name;
    assert path[|dir|] == '/';
    assert path[|dir| + 1..] == name;
    LastIndexAt(path, '/', |dir|);
  }

  /** With the last '.' of the file name at `i`, strictly inside it, the stem is what precedes it. */
  lemma StemAtLastDot(path: string, i: nat)
    requires LastIndexOf(FileName(path), '.') == Some(i) && 0 < i < |FileName(path)| - 1
    ensures Stem(path) == FileName(path)[..i]
  {
  }

  /** The stem of a catalog path is the domain the catalog was installed under. */
  lemma StemOfCatalogPath(dir: string, domain: string)
    requires domain != [] && '/' !in domain
    ensures Stem(dir + "/" + domain + ".mo") == domain
  {
    var path, name := dir + "/" + domain + ".mo", domain + ".mo";
    assert FileName(path) == name by {
      assert path == dir + "/" + name;
      assert '/' !in name;
      FileNameAfterSlash(dir, name);
    }
    assert LastIndexOf(name, '.') == Some(|domain|) by {
      assert name[|domain|] == '.';
      assert name[|domain| + 1..] == "mo";
      LastIndexAt(name, '.', |domain|);
    }
    StemAtLastDot(path, |domain|);
    assert name[..|domain|] == domain;
  }

  /** A hidden file's name is its own stem. */
  lemma HiddenNameIsOwnStem(rest: string)
    requires '.' !in rest && '/' !in rest
    ensures Stem(['.'] + rest) == ['.'] + rest
  {
    var name := ['.'] + rest;
    assert LastIndexOf(name, '.') == Some(0) by {
      assert name[1..] == rest;
    }
  }

  const URL_PREFIX: string := "https://translations.launchpad.net/ubuntu/+source/"

  /** The Launchpad page where the template `domain` is translated into `lang`. */
  function LaunchpadUrl(domain: string, lang: string): (r: string)
    ensures |r| == |URL_PREFIX| + 2 * |domain| + |lang| + 19
    ensures r[..|URL_PREFIX|] == URL_PREFIX
    ensures r[|URL_PREFIX|..|URL_PREFIX| + |domain|] == domain
    ensures r[|URL_PREFIX| + |domain|..|URL_PREFIX| + |domain| + 7] == "/+pots/"
    ensures r[|URL_PREFIX| + |domain| + 7..|URL_PREFIX| + 2 * |domain| + 7] == domain
    ensures r[|URL_PREFIX| + 2 * |domain| + 7] == '/'
    ensures r[|r| - 11 - |lang|..|r| - 11] == lang && r[|r| - 11..] == "/+translate"
  {
    URL_PREFIX + domain + "/+pots/" + domain + "/" + lang + "/+translate"
  }

  /** In a name without slashes followed by a slash, the first slash is that one. */
  lemma FirstSlash(name: string, rest: string)
    requires '/' !in name
    ensures IndexOf(name + "/" + rest, '/') == |name|
  {
    var s := name + "/" + rest;
    assert s[|name|] == '/';
    assert s[..|name|] == name;
  }

  lemma CancelPrefix(p: string, a: string, b: string)
    requires p + a == p + b
    ensures a == b
  {
    assert a == (p + a)[|p|..];
    assert b == (p + b)[|p|..];
  }

  lemma CancelSuffix(a: string, b: string, q: string)
    requires a + q == b + q
    ensures a == b
  {
    assert a == (a + q)[..|a|];
    assert b == (b + q)[..|b|];
  }

  /** The URL is the prefix, the domain, a slash, and the rest. */
  lemma UrlShape(p: string, domain: string, lang: string)
    ensures p + domain + "/+pots/" + domain + "/" + lang + "/+translate"
      == p + (domain + "/" + (("+pots/" + domain + "/") + (lang + "/+translate")))
  {
  }

  /**
   * Different catalogs get different URLs: the URL fixes both the domain and
   * the language, as long as the domain contains no slash.
   */
  lemma LaunchpadUrlInjective(d1: string, l1: string, d2: string, l2: string)
    requires '/' !in d1 && '/' !in d2
    requires LaunchpadUrl(d1, l1) == LaunchpadUrl(d2, l2)
    ensures d1 == d2 && l1 == l2
  {
    var r1 := ("+pots/" + d1 + "/") + (l1 + "/+translate");
    var r2 := ("+pots/" + d2 + "/") + (l2 + "/+translate");
    UrlShape(URL_PREFIX, d1, l1);
    UrlShape(URL_PREFIX, d2, l2);
    CancelPrefix(URL_PREFIX, d1 + "/" + r1, d2 + "/" + r2);
    FirstSlash(d1, r1);
    FirstSlash(d2, r2);
    assert d1 == (d1 + "/" + r1)[..|d1|];
    assert d2 == (d2 + "/" + r2)[..|d2|];
    assert d1 + "/" + r1 == (d1 + "/") + r1;
    assert d2 + "/" + r2 == (d2 + "/") + r2;
    CancelPrefix(d1 + "/", r1, r2);
    CancelPrefix("+pots/" + d1 + "/", l1 + "/+translate", l2 + "/+translate");
    CancelSuffix(l1, l2, "/+translate");
  }

  /**
   * What the backend can see of the disk: the bytes of the files it may open
   * and the modification times of the paths it may stat.
   */
  datatype FileSystem = FileSystem(contents: map<string, seq<byte>>, mtimes: map<string, int>)

  /** The counts `parse_mo_file` reports for a path; a file that cannot be opened gives (0, 0). */
  function CountsAt(fs: FileSystem, path: string): (c: Counts)
    ensures c.translated <= c.total
    ensures path !in fs.contents ==> c == Counts(0, 0)
  {
    if path in fs.contents then Decode(fs.contents[path]) else Counts(0, 0)
  }

  /** `get_mo_file_info`: the record for the catalog at `path`. */
  function GetMoFileInfo(path: string, lang: string, package: string, fs: FileSystem): (m: MoFileInfo)
    ensures m.Consistent() && m.untranslated >= 0
    ensures m.path == path && m.package == package && m.domain == Stem(path)
    ensures path in fs.contents ==> m.translated == Decode(fs.contents[path]).translated
    ensures path in fs.contents ==> m.total == Decode(fs.contents[path]).total
    ensures path !in fs.contents ==> m.total == 0 && m.CoveragePct() == 0.0
    ensures m.mtime.Some? <==> path in fs.mtimes
    ensures m.mtime.Some? ==> m.mtime.value == fs.mtimes[path]
    ensures m.launchpadUrl == LaunchpadUrl(m.domain, lang)
  {
    var domain := Stem(path);
    var c := CountsAt(fs, path);
    var mtime := if path in fs.mtimes then Some(fs.mtimes[path]) else None;
    MoFileInfo(path, domain, package, c.translated, c.total - c.translated, c.total, mtime,
      LaunchpadUrl(domain, lang))
  }

  /** A catalog whose modification time cannot be read is never outdated. */
  lemma UnstattableNeverOutdated(path: string, lang: string, package: string, fs: FileSystem, now: int)
    requires path !in fs.mtimes
    ensures !GetMoFileInfo(path, lang, package, fs).IsOutdated(now)
  {
  }
}
