/**
 * The parts of the backend that read what dpkg prints: the package list of
 * `list_installed_langpacks` (one `name TAB version TAB status` line per
 * package) and the `package: path` owner lines of `dpkg -S` in
 * `scan_language`. The commands themselves are not run: their standard
 * output is a parameter: `None` stands for the `SubprocessError` (a timeout
 * among them) or `FileNotFoundError` the backend catches. The exit status is
 * not looked at: whatever a failing command printed is still read.
 */
module Packages {
  import opened Wrappers
  import opened Text
  import opened Seqs
  import opened Records

  const PACK_PREFIX: string := "language-pack-"
  const GNOME_PREFIX: string := "language-pack-gnome-"
  const KDE_PREFIX: string := "language-pack-kde-"

  /** The language code in a package name: the three prefixes removed wherever they occur, in this order. */
  function LanguageOf(name: string): (lang: string)
    ensures |lang| <= |name|
    ensures !Contains(name, PACK_PREFIX) ==> lang == name
  {
    var code := RemoveAll(RemoveAll(RemoveAll(name, GNOME_PREFIX), KDE_PREFIX), PACK_PREFIX);
    // The branch only brings in the lemma for names without any prefix.
    if Contains(name, PACK_PREFIX) then code else BareCodeUnchanged(name); code
  }

  /** "language-pack-" begins both longer prefixes. */
  lemma PackPrefixBeginsOthers()
    ensures IsPrefix(PACK_PREFIX, GNOME_PREFIX) && IsPrefix(PACK_PREFIX, KDE_PREFIX)
  {
    assert GNOME_PREFIX[..|PACK_PREFIX|] == PACK_PREFIX;
    assert KDE_PREFIX[..|PACK_PREFIX|] == PACK_PREFIX;
  }

  /** A code that does not contain "language-pack-" contains none of the three prefixes, so the removals leave it as it is. */
  lemma BareCodeUnchanged(lang: string)
    requires !Contains(lang, PACK_PREFIX)
    ensures !Contains(lang, GNOME_PREFIX) && !Contains(lang, KDE_PREFIX)
    ensures RemoveAll(lang, GNOME_PREFIX) == lang
    ensures RemoveAll(lang, KDE_PREFIX) == lang
    ensures RemoveAll(lang, PACK_PREFIX) == lang
  {
    PackPrefixBeginsOthers();
    ContainsPrefixOf(lang, PACK_PREFIX, GNOME_PREFIX);
    ContainsPrefixOf(lang, PACK_PREFIX, KDE_PREFIX);
    RemoveAbsent(lang, GNOME_PREFIX);
    RemoveAbsent(lang, KDE_PREFIX);
    RemoveAbsent(lang, PACK_PREFIX);
  }

  /**
   * A pattern that starts with the only 'l' of `prefix` occurs in
   * `prefix + lang` only at the front or inside `lang`.
   */
  lemma NoStraddle(prefix: string, lang: string, pat: string)
    requires prefix != [] && pat != [] && pat[0] == prefix[0] && prefix[0] !in prefix[1..]
    requires !Contains(lang, pat) && !IsPrefix(pat, prefix + lang)
    ensures !Contains(prefix + lang, pat)
  {
    var s := prefix + lang;
    forall j | 0 <= j <= |s|
      ensures !IsPrefix(pat, s[j..])
    {
      if j == 0 {
        assert s[0..] == s;
      } else if j + |pat| <= |s| {
        if j < |prefix| {
          assert s[j..][..|pat|][0] == prefix[1..][j - 1];
        } else {
          var k := j - |prefix|;
          NotContainedAt(lang, pat, k);
          assert s[j..][..|pat|] == lang[k..k + |pat|];
        }
      }
    }
    assert Find(s, pat).None?;
  }

  /**
   * The language of "language-pack-" and a code is the code, unless the code
   * contains "language-pack-" or begins the way a GNOME or KDE pack name
   * goes on ("gnome-", "kde-"): then a longer prefix is removed.
   */
  lemma LanguageOfPackName(lang: string)
    requires !Contains(lang, PACK_PREFIX)
    requires !IsPrefix("gnome-", lang) && !IsPrefix("kde-", lang)
    ensures LanguageOf(PACK_PREFIX + lang) == lang
  {
    var s := PACK_PREFIX + lang;
    BareCodeUnchanged(lang);
    assert !IsPrefix(GNOME_PREFIX, s) by {
      if |s| >= |GNOME_PREFIX| {
        assert s[..|GNOME_PREFIX|][|PACK_PREFIX|..] == lang[..6];
        assert GNOME_PREFIX[|PACK_PREFIX|..] == "gnome-";
      }
    }
    assert !IsPrefix(KDE_PREFIX, s) by {
      if |s| >= |KDE_PREFIX| {
        assert s[..|KDE_PREFIX|][|PACK_PREFIX|..] == lang[..4];
        assert KDE_PREFIX[|PACK_PREFIX|..] == "kde-";
      }
    }
    assert PACK_PREFIX[0] !in PACK_PREFIX[1..];
    NoStraddle(PACK_PREFIX, lang, GNOME_PREFIX);
    NoStraddle(PACK_PREFIX, lang, KDE_PREFIX);
    RemoveAbsent(s, GNOME_PREFIX);
    RemoveAbsent(s, KDE_PREFIX);
    RemoveLeading(PACK_PREFIX, lang);
  }

  /** The language of "language-pack-gnome-" and a code is the code, unless the code contains "language-pack-". */
  lemma LanguageOfGnomeName(lang: string)
    requires !Contains(lang, PACK_PREFIX)
    ensures LanguageOf(GNOME_PREFIX + lang) == lang
  {
    RemoveLeading(GNOME_PREFIX, lang);
    BareCodeUnchanged(lang);
  }

  /** The language of "language-pack-kde-" and a code is the code, unless the code contains "language-pack-". */
  lemma LanguageOfKdeName(lang: string)
    requires !Contains(lang, PACK_PREFIX)
    ensures LanguageOf(KDE_PREFIX + lang) == lang
  {
    var s := KDE_PREFIX + lang;
    BareCodeUnchanged(lang);
    assert !IsPrefix(GNOME_PREFIX, s) by {
      if |s| >= |GNOME_PREFIX| {
        assert s[..|GNOME_PREFIX|][14] == 'k';
      }
    }
    assert KDE_PREFIX[0] !in KDE_PREFIX[1..];
    NoStraddle(KDE_PREFIX, lang, GNOME_PREFIX);
    RemoveAbsent(s, GNOME_PREFIX);
    RemoveLeading(KDE_PREFIX, lang);
  }

  /** One line of the dpkg-query listing; kept when it has a status field that mentions "installed". */
  function PackFromLine(line: string): (p: Option<LanguagePackInfo>)
    ensures p.Some? <==> |Split(line, '\t')| >= 3 && Contains(Split(line, '\t')[2], "installed")
    ensures p.Some? ==> p.value.name == Split(line, '\t')[0] && p.value.version == Split(line, '\t')[1]
    ensures p.Some? ==> p.value.moFiles == [] && p.value.language == LanguageOf(p.value.name)
    ensures p.Some? ==> '\t' !in p.value.name && '\t' !in p.value.version
  {
    var fields := Split(line, '\t');
    if |fields| >= 3 && Contains(fields[2], "installed") then
      Some(LanguagePackInfo(fields[0], fields[1], LanguageOf(fields[0]), []))
    else None
  }

  /**
   * Tab-free fields joined by tabs: the line is kept exactly when there are
   * at least three fields and the third mentions "installed"; the first two
   * are the name and the version, and any further fields are ignored.
   */
  lemma PackFromFields(fields: seq<string>)
    requires |fields| >= 1 && forall k :: 0 <= k < |fields| ==> '\t' !in fields[k]
    ensures PackFromLine(Join(fields, '\t'))
      == if |fields| >= 3 && Contains(fields[2], "installed")
         then Some(LanguagePackInfo(fields[0], fields[1], LanguageOf(fields[0]), []))
         else None
  {
    SplitJoin(fields, '\t');
  }

  /** A line with only two fields is dropped, whatever they hold. */
  lemma TwoFieldLineDropped(name: string, version: string)
    requires '\t' !in name && '\t' !in version
    ensures PackFromLine(name + "\t" + version) == None
  {
    var fields := [name, version];
    assert fields[1..] == [version];
    assert Join(fields, '\t') == name + "\t" + version;
    PackFromFields(fields);
  }

  /** A line as dpkg-query formats it is read back into its name and version. */
  lemma PackFromFormattedLine(name: string, version: string, status: string)
    requires '\t' !in name && '\t' !in version && '\t' !in status
    ensures PackFromLine(name + "\t" + version + "\t" + status)
      == if Contains(status, "installed")
         then Some(LanguagePackInfo(name, version, LanguageOf(name), []))
         else None
  {
    JoinThree(name, version, status, '\t');
    SplitJoin([name, version, status], '\t');
  }

  lemma JoinThree(a: string, b: string, c: string, sep: char)
    ensures Join([a, b, c], sep) == a + [sep] + b + [sep] + c
  {
    assert [a, b, c][1..] == [b, c];
    assert [b, c][1..] == [c];
    assert Join([b, c], sep) == b + [sep] + c;
    assert Join([a, b, c], sep) == a + [sep] + (b + [sep] + c);
  }

  /**
   * Any status that ends in "installed" keeps its line. That includes dpkg's
   * "unknown ok not-installed", which it prints for a package it knows of but
   * that is not installed, and "deinstall ok half-installed".
   */
  lemma NotInstalledStatusIsKept(name: string, version: string, before: string)
    requires '\t' !in name && '\t' !in version && '\t' !in before
    ensures PackFromLine(name + "\t" + version + "\t" + (before + "installed")).Some?
  {
    var status := before + "installed";
    assert status[|before|..|before| + 9] == "installed";
    ContainsAt(status, "installed", |before|);
    assert '\t' !in "installed";
    assert '\t' !in status;
    PackFromFormattedLine(name, version, status);
  }

  /** The packs of the kept lines, in line order. */
  function PacksFromLines(lines: seq<string>): seq<LanguagePackInfo> {
    Collect(lines, PackFromLine)
  }

  /** Every pack comes from a kept line, and every kept line gives its pack. */
  lemma PacksFromLinesExactly(lines: seq<string>, p: LanguagePackInfo)
    ensures p in PacksFromLines(lines) <==> exists k :: 0 <= k < |lines| && PackFromLine(lines[k]) == Some(p)
  {
    if p in PacksFromLines(lines) {
      CollectedFrom(lines, PackFromLine, p);
    }
    if exists k :: 0 <= k < |lines| && PackFromLine(lines[k]) == Some(p) {
      var k :| 0 <= k < |lines| && PackFromLine(lines[k]) == Some(p);
      CollectedAll(lines, PackFromLine, k);
    }
  }

  /** Reading two runs of lines gives the packs of the first, then those of the second. */
  lemma PacksFromLinesAppend(a: seq<string>, b: seq<string>)
    ensures PacksFromLines(a + b) == PacksFromLines(a) + PacksFromLines(b)
  {
    CollectAppend(a, b, PackFromLine);
  }

  /** What the body of `list_installed_langpacks` keeps from the dpkg-query output. */
  function InstalledPacks(stdout: Option<string>): seq<LanguagePackInfo> {
    match stdout
    case None => []
    case Some(out) => PacksFromLines(SplitLines(Strip(out)))
  }

  /** `list_installed_langpacks`: the loop over the output lines. */
  method ListInstalledLangpacks(stdout: Option<string>) returns (packs: seq<LanguagePackInfo>)
    ensures packs == InstalledPacks(stdout)
  {
    match stdout
    case None => packs := [];
    case Some(out) => packs := PacksOfLines(SplitLines(Strip(out)));
  }

  method PacksOfLines(lines: seq<string>) returns (packs: seq<LanguagePackInfo>)
    ensures packs == PacksFromLines(lines)
  {
    packs := [];
    for i := 0 to |lines|
      invariant packs == Collect(lines[..i], PackFromLine)
    {
      CollectStep(lines, PackFromLine, i);
      match PackFromLine(lines[i])
      case Some(pack) => packs := packs + [pack];
      case None =>
    }
    assert lines[..|lines|] == lines;
  }

  /** The (path, package) pair of a line split at `i`: what follows the two-character separator, and what precedes it, both stripped. */
  function SplitAround(line: string, i: nat): (string, string)
    requires i + 2 <= |line|
  {
    (Strip(line[i + 2..]), Strip(line[..i]))
  }

  /** One `dpkg -S` line: the owning package before the first ": ", the path after it, both stripped. */
  function MappingOf(line: string): (m: Option<(string, string)>)
    ensures m.Some? <==> Contains(line, ": ")
  {
    match Find(line, ": ")
    case None => None
    case Some(i) => Some(SplitAround(line, i))
  }

  /** A line with a first ": " at `i` maps what follows it to what precedes it. */
  lemma MappingAt(line: string, i: nat)
    requires Find(line, ": ") == Some(i)
    ensures i + 2 <= |line| && MappingOf(line) == Some(SplitAround(line, i))
  {
  }

  /** A string that does not contain a pattern has it at no position. */
  lemma NotContainedAt(s: string, pat: string, j: nat)
    requires !Contains(s, pat) && j + |pat| <= |s|
    ensures s[j..j + |pat|] != pat
  {
    if s[j..j + |pat|] == pat {
      ContainsAt(s, pat, j);
    }
  }

  /** A slice that ends inside the left operand of a concatenation is a slice of it. */
  lemma SliceOfLeft(a: string, b: string, i: nat, j: nat)
    requires i <= j <= |a|
    ensures (a + b)[i..j] == a[i..j]
  {
  }

  /** In an owner line, the first ": " is the one after the package name. */
  lemma FindSeparator(package: string, path: string)
    requires !Contains(package, ": ")
    ensures Find(package + ": " + path, ": ") == Some(|package|)
  {
    var s := package + ": " + path;
    var n := |package|;
    assert s[n..n + 2] == ": ";
    ContainsAt(s, ": ", n);
    forall j | 0 <= j < n
      ensures !IsPrefix(": ", s[j..])
    {
      if j + 2 <= n {
        assert s == package + (": " + path);
        SliceOfLeft(package, ": " + path, j, j + 2);
        NotContainedAt(package, ": ", j);
      } else {
        assert s[j..][1] == ':';
      }
    }
    assert IsPrefix(": ", s[n..]);
  }

  /** An owner line as dpkg prints it maps the path to the package. */
  lemma MappingOfOwnerLine(package: string, path: string)
    requires !Contains(package, ": ")
    requires package == [] || (!IsSpace(package[0]) && !IsSpace(package[|package| - 1]))
    requires path == [] || (!IsSpace(path[0]) && !IsSpace(path[|path| - 1]))
    ensures MappingOf(package + ": " + path) == Some((path, package))
  {
    FindSeparator(package, path);
    MappingAt(package + ": " + path, |package|);
    SplitAroundSeparator(package, path);
  }

  /** Splitting an owner line after its package name gives back the path and the package. */
  lemma SplitAroundSeparator(package: string, path: string)
    requires package == [] || (!IsSpace(package[0]) && !IsSpace(package[|package| - 1]))
    requires path == [] || (!IsSpace(path[0]) && !IsSpace(path[|path| - 1]))
    ensures SplitAround(package + ": " + path, |package|) == (path, package)
  {
    OuterParts(package, ": ", path);
    StripTrimmed(package);
    StripTrimmed(path);
  }

  lemma OuterParts(a: string, b: string, c: string)
    ensures (a + b + c)[..|a|] == a && (a + b + c)[|a| + |b|..] == c
  {
  }

  /** A `dpkg -S` line read as a (path, package) entry, if it holds one. */
  type Entry = Option<(string, string)>

  /** The entries of the lines, line by line. */
  function EntriesOf(lines: seq<string>): (es: seq<Entry>)
    ensures |es| == |lines|
    ensures forall i :: 0 <= i < |lines| ==> es[i] == MappingOf(lines[i])
  {
    seq(|lines|, i requires 0 <= i < |lines| => MappingOf(lines[i]))
  }

  /** `mo_to_pkg[fpath] = pkg` for an entry. */
  function Enter(owners: map<string, string>, e: Entry): map<string, string> {
    match e
    case None => owners
    case Some(entry) => owners[entry.0 := entry.1]
  }

  /** The owner map built from the entries in order, a later entry for a path replacing an earlier one. */
  function MapOfEntries(es: seq<Entry>): map<string, string> {
    if es == [] then map[] else Enter(MapOfEntries(es[..|es| - 1]), es[|es| - 1])
  }

  lemma MapOfEntriesStep(es: seq<Entry>, i: nat)
    requires i < |es|
    ensures MapOfEntries(es[..i + 1]) == Enter(MapOfEntries(es[..i]), es[i])
  {
    assert es[..i + 1][..i] == es[..i];
  }

  /** The entry names `path`. */
  predicate Names(e: Entry, path: string) {
    e.Some? && e.value.0 == path
  }

  /** A path is in the map iff some entry names it. */
  lemma {:induction false} MapOfEntriesKeys(es: seq<Entry>, path: string)
    ensures path in MapOfEntries(es) <==> exists i :: 0 <= i < |es| && Names(es[i], path)
  {
    if es != [] {
      var n := |es| - 1;
      var init := es[..n];
      MapOfEntriesKeys(init, path);
      assert forall i :: 0 <= i < n ==> init[i] == es[i];
      if Names(es[n], path) {
        assert path in MapOfEntries(es);
        assert Names(es[n], path);
      } else {
        assert path in MapOfEntries(es) <==> path in MapOfEntries(init);
      }
    }
  }

  /** The package recorded for a path is the one in the last entry that names the path. */
  lemma {:induction false} MapOfEntriesLastWins(es: seq<Entry>, i: nat, path: string, package: string)
    requires i < |es| && es[i] == Some((path, package))
    requires forall j :: i < j < |es| ==> !Names(es[j], path)
    ensures path in MapOfEntries(es) && MapOfEntries(es)[path] == package
  {
    if i < |es| - 1 {
      var init := es[..|es| - 1];
      assert init[i] == es[i];
      assert forall j :: i < j < |init| ==> init[j] == es[j];
      MapOfEntriesLastWins(init, i, path, package);
    }
  }

  /** The owner map built from the lines of the `dpkg -S` output. */
  function PackageMapOf(lines: seq<string>): map<string, string> {
    MapOfEntries(EntriesOf(lines))
  }

  /** A path has an owner iff some line maps it. */
  lemma PackageMapKeys(lines: seq<string>, path: string)
    ensures path in PackageMapOf(lines) <==> exists i :: 0 <= i < |lines| && Names(MappingOf(lines[i]), path)
  {
    MapOfEntriesKeys(EntriesOf(lines), path);
  }

  /** A path's owner is the package on the last line that maps the path. */
  lemma PackageMapLastWins(lines: seq<string>, i: nat, path: string, package: string)
    requires i < |lines| && MappingOf(lines[i]) == Some((path, package))
    requires forall j :: i < j < |lines| ==> !Names(MappingOf(lines[j]), path)
    ensures path in PackageMapOf(lines) && PackageMapOf(lines)[path] == package
  {
    MapOfEntriesLastWins(EntriesOf(lines), i, path, package);
  }

  /** The owner map `scan_language` builds from the `dpkg -S` output. */
  function OwnerMap(stdout: Option<string>): map<string, string> {
    match stdout
    case None => map[]
    case Some(out) => PackageMapOf(SplitLines(Strip(out)))
  }

  /** The first loop of `scan_language`: fill the owner map line by line. */
  method MapFilesToPackages(stdout: Option<string>) returns (owners: map<string, string>)
    ensures owners == OwnerMap(stdout)
  {
    match stdout
    case None => owners := map[];
    case Some(out) => owners := MapLines(SplitLines(Strip(out)));
  }

  method MapLines(lines: seq<string>) returns (owners: map<string, string>)
    ensures owners == PackageMapOf(lines)
  {
    owners := map[];
    ghost var es := EntriesOf(lines);
    for i := 0 to |lines|
      invariant owners == MapOfEntries(es[..i])
    {
      MapOfEntriesStep(es, i);
      match MappingOf(lines[i])
      case Some(entry) => owners := owners[entry.0 := entry.1];
      case None =>
    }
    assert es[..|lines|] == es;
  }

  /** `mo_to_pkg.get(path, "")`. */
  function OwnerOf(owners: map<string, string>, path: string): (r: string)
    ensures path in owners ==> r == owners[path]
    ensures path !in owners ==> r == ""
  {
    if path in owners then owners[path] else ""
  }

  /** The record for one catalog path, with the package dpkg named for it. */
  function InfoFor(lang: string, owners: map<string, string>, fs: FileSystem): string -> MoFileInfo {
    (path: string) => GetMoFileInfo(path, lang, OwnerOf(owners, path), fs)
  }

  /** The records `scan_language` returns: one per path, in path order. */
  function ScanResults(lang: string, paths: seq<string>, owners: map<string, string>, fs: FileSystem): seq<MoFileInfo> {
    Map(paths, InfoFor(lang, owners, fs))
  }

  /** Record `k` is the one for path `k`, with the package dpkg named for that path. */
  lemma ScanResultsAt(lang: string, paths: seq<string>, owners: map<string, string>, fs: FileSystem, k: nat)
    requires k < |paths|
    ensures |ScanResults(lang, paths, owners, fs)| == |paths|
    ensures ScanResults(lang, paths, owners, fs)[k] == GetMoFileInfo(paths[k], lang, OwnerOf(owners, paths[k]), fs)
    ensures ScanResults(lang, paths, owners, fs)[k].path == paths[k]
    ensures ScanResults(lang, paths, owners, fs)[k].Consistent()
  {
    MapAt(paths, InfoFor(lang, owners, fs), k);
  }

  /**
   * `scan_language` after the catalog paths have been listed: the owner map,
   * then one record per path.
   */
  method ScanLanguage(lang: string, moPaths: seq<string>, dpkgOutput: Option<string>, fs: FileSystem)
    returns (results: seq<MoFileInfo>)
    ensures results == ScanResults(lang, moPaths, OwnerMap(dpkgOutput), fs)
  {
    var owners := MapFilesToPackages(dpkgOutput);
    results := [];
    for i := 0 to |moPaths|
      invariant results == Map(moPaths[..i], InfoFor(lang, owners, fs))
    {
      MapStep(moPaths, InfoFor(lang, owners, fs), i);
      var info := GetMoFileInfo(moPaths[i], lang, OwnerOf(owners, moPaths[i]), fs);
      results := results + [info];
    }
    assert moPaths[..|moPaths|] == moPaths;
  }
}
