/** `get_language_stats`: the summary line shown above a scanned language. */
module Stats {
  import opened Seqs
  import opened Records

  datatype LanguageStats = LanguageStats(
    totalStrings: nat,
    translated: nat,
    untranslated: int,
    coveragePct: real,
    numMoFiles: nat,
    outdatedFiles: nat)

  /** 1 for an outdated record and 0 otherwise, the term of `sum(1 for m in files if m.is_outdated)`. */
  function OutdatedFlag(now: int): MoFileInfo -> nat {
    (m: MoFileInfo) => if m.IsOutdated(now) then 1 else 0
  }

  /** The records that are outdated at `now`, in their order. */
  function OutdatedFiles(files: seq<MoFileInfo>, now: int): (r: seq<MoFileInfo>)
    ensures forall m :: m in r <==> m in files && m.IsOutdated(now)
  {
    Filter(files, (m: MoFileInfo) => m.IsOutdated(now))
  }

  /** Summing the flags counts the outdated records. */
  lemma {:induction false} OutdatedSumCounts(files: seq<MoFileInfo>, now: int)
    ensures Sum(files, OutdatedFlag(now)) == |OutdatedFiles(files, now)|
  {
    if files != [] {
      OutdatedSumCounts(files[1..], now);
    }
  }

  function GetLanguageStats(files: seq<MoFileInfo>, now: int): (s: LanguageStats)
    ensures s.totalStrings == Sum(files, Total) && s.translated == Sum(files, Translated)
    ensures s.untranslated == s.totalStrings - s.translated
    ensures s.numMoFiles == |files|
    ensures s.outdatedFiles == |OutdatedFiles(files, now)| <= |files|
    ensures s.coveragePct == Percent(s.translated, s.totalStrings)
    ensures (forall i :: 0 <= i < |files| ==> files[i].Consistent()) ==>
      0 <= s.untranslated && 0.0 <= s.coveragePct <= 100.0
  {
    var total := Sum(files, Total);
    var translated := Sum(files, Translated);
    var outdated := Sum(files, OutdatedFlag(now));
    OutdatedSumCounts(files, now);
    TotalsOrdered(files);
    LanguageStats(total, translated, total - translated, Percent(translated, total), |files|, outdated)
  }

  /** No catalogs: all figures are zero, and no division happens. */
  lemma EmptyStats(now: int)
    ensures GetLanguageStats([], now) == LanguageStats(0, 0, 0, 0.0, 0, 0)
  {
  }

  /** The summary does not depend on the order of the catalogs. */
  lemma StatsIgnoreOrder(a: seq<MoFileInfo>, b: seq<MoFileInfo>, now: int)
    requires multiset(a) == multiset(b)
    ensures GetLanguageStats(a, now) == GetLanguageStats(b, now)
  {
    SumPermutation(a, b, Total);
    SumPermutation(a, b, Translated);
    SumPermutation(a, b, OutdatedFlag(now));
    assert |a| == |multiset(a)| == |multiset(b)| == |b|;
  }

  /** The summary of two lists of catalogs adds their counts. */
  lemma StatsAppend(a: seq<MoFileInfo>, b: seq<MoFileInfo>, now: int)
    ensures GetLanguageStats(a + b, now).totalStrings
      == GetLanguageStats(a, now).totalStrings + GetLanguageStats(b, now).totalStrings
    ensures GetLanguageStats(a + b, now).translated
      == GetLanguageStats(a, now).translated + GetLanguageStats(b, now).translated
    ensures GetLanguageStats(a + b, now).outdatedFiles
      == GetLanguageStats(a, now).outdatedFiles + GetLanguageStats(b, now).outdatedFiles
  {
    SumAppend(a, b, Total);
    SumAppend(a, b, Translated);
    SumAppend(a, b, OutdatedFlag(now));
  }

  /** For the catalogs of a pack, the summary agrees with the pack's own figures. */
  lemma StatsAgreeWithPack(p: LanguagePackInfo, now: int)
    ensures GetLanguageStats(p.moFiles, now).totalStrings == p.TotalStrings()
    ensures GetLanguageStats(p.moFiles, now).translated == p.TotalTranslated()
    ensures GetLanguageStats(p.moFiles, now).coveragePct == p.CoveragePct()
  {
  }
}
