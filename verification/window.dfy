/**
 * The display rules of the main window: the colour of a catalog's tile in the
 * heat map, the icon in front of its row, the filter of the search entry and
 * the choice of the language packs listed for the scanned language.
 */
module Window {
  import opened Text
  import opened Seqs
  import opened Records
  import Packages

  /** `_heatmap_css_class`: the first band, from the top, that the percentage reaches. */
  function HeatmapCssClass(pct: real): (c: string)
    ensures c == "heatmap-green" <==> pct >= 90.0
    ensures c == "heatmap-yellow" <==> 70.0 <= pct < 90.0
    ensures c == "heatmap-orange" <==> 50.0 <= pct < 70.0
    ensures c == "heatmap-red" <==> 0.0 < pct < 50.0
    ensures c == "heatmap-gray" <==> pct <= 0.0
  {
    if pct >= 90.0 then "heatmap-green"
    else if pct >= 70.0 then "heatmap-yellow"
    else if pct >= 50.0 then "heatmap-orange"
    else if pct > 0.0 then "heatmap-red"
    else "heatmap-gray"
  }

  /** Position of a heat-map class on the scale from gray to green. */
  function HeatRank(c: string): nat {
    if c == "heatmap-green" then 4
    else if c == "heatmap-yellow" then 3
    else if c == "heatmap-orange" then 2
    else if c == "heatmap-red" then 1
    else 0
  }

  /** More coverage never gives a colder colour. */
  lemma HeatmapMonotone(p: real, q: real)
    requires p <= q
    ensures HeatRank(HeatmapCssClass(p)) <= HeatRank(HeatmapCssClass(q))
  {
  }

  datatype Indicator = Indicator(icon: string, css: string)

  const SUCCESS := Indicator("emblem-ok-symbolic", "success")
  const WARNING := Indicator("dialog-warning-symbolic", "warning")
  const ERROR := Indicator("dialog-error-symbolic", "error")

  /** The icon and style in front of a catalog row in the list. */
  function CoverageIndicator(pct: real): (ind: Indicator)
    ensures ind == SUCCESS <==> pct >= 90.0
    ensures ind == WARNING <==> 50.0 <= pct < 90.0
    ensures ind == ERROR <==> pct < 50.0
  {
    if pct >= 90.0 then SUCCESS
    else if pct >= 50.0 then WARNING
    else ERROR
  }

  /** The row icon and the heat-map tile tell the same story. */
  lemma IndicatorAgreesWithHeatmap(pct: real)
    ensures CoverageIndicator(pct) == SUCCESS <==> HeatmapCssClass(pct) == "heatmap-green"
    ensures CoverageIndicator(pct) == WARNING
      <==> HeatmapCssClass(pct) in {"heatmap-yellow", "heatmap-orange"}
    ensures CoverageIndicator(pct) == ERROR
      <==> HeatmapCssClass(pct) in {"heatmap-red", "heatmap-gray"}
  {
  }

  /** For a record, the bands are ratios of whole counts: 9 in 10 for success, half for a warning. */
  lemma RecordIndicatorBands(m: MoFileInfo)
    ensures CoverageIndicator(m.CoveragePct()) == SUCCESS <==> m.total > 0 && 10 * m.translated >= 9 * m.total
    ensures CoverageIndicator(m.CoveragePct()) == ERROR <==> m.total == 0 || 2 * m.translated < m.total
  {
    if m.total > 0 {
      PercentReaches(m.translated, m.total, 90.0);
      PercentReaches(m.translated, m.total, 50.0);
    }
  }

  /** A record's tile is gray exactly when nothing of it is translated. */
  lemma RecordGrayTile(m: MoFileInfo)
    ensures HeatmapCssClass(m.CoveragePct()) == "heatmap-gray" <==> m.total == 0 || m.translated == 0
  {
    if m.total > 0 {
      PercentReaches(m.translated, m.total, 0.0);
    }
  }

  /** The search entry's rule: a catalog stays when its domain contains the query, letter case ignored. */
  predicate DomainMatches(m: MoFileInfo, query: string) {
    Contains(Lower(m.domain), query)
  }

  /** `_on_filter_changed`: an empty query shows every catalog. */
  function FilterByDomain(files: seq<MoFileInfo>, text: string): (r: seq<MoFileInfo>)
    ensures IsSubsequence(r, files)
    ensures text == [] ==> r == files
    ensures forall m :: m in r <==> m in files && DomainMatches(m, Lower(text))
  {
    var query := Lower(text);
    if query == [] then
      SubsequenceOfItself(files);
      assert forall m: MoFileInfo :: IsPrefix(query, Lower(m.domain));
      files
    else Filter(files, (m: MoFileInfo) => DomainMatches(m, query))
  }

  /** The shortcut for an empty query changes nothing: the empty string is in every domain. */
  lemma EmptyQueryShortcutAgrees(files: seq<MoFileInfo>)
    ensures Filter(files, (m: MoFileInfo) => DomainMatches(m, [])) == files
  {
    assert forall m: MoFileInfo :: IsPrefix([], Lower(m.domain));
  }

  lemma LowerTwice(s: string)
    ensures Lower(Lower(s)) == Lower(s)
  {
    assert forall i :: 0 <= i < |s| ==> LowerChar(LowerChar(s[i])) == LowerChar(s[i]);
  }

  /** The filter ignores the letter case of the query. */
  lemma FilterIgnoresQueryCase(files: seq<MoFileInfo>, text: string)
    ensures FilterByDomain(files, Lower(text)) == FilterByDomain(files, text)
  {
    LowerTwice(text);
  }

  /** `_scan_done`: a pack is listed when its language is the scanned one or its name contains it. */
  predicate PackShown(p: LanguagePackInfo, lang: string)
    ensures p.language == lang ==> PackShown(p, lang)
    ensures lang == [] ==> PackShown(p, lang)
  {
    p.language == lang || Contains(p.name, lang)
  }

  function SelectPacks(packs: seq<LanguagePackInfo>, lang: string): (r: seq<LanguagePackInfo>)
    ensures IsSubsequence(r, packs)
    ensures forall p :: p in r <==> p in packs && PackShown(p, lang)
  {
    Filter(packs, (p: LanguagePackInfo) => PackShown(p, lang))
  }

  /** With no language, every pack is listed: the empty string is in every name. */
  lemma EmptyLanguageSelectsAll(packs: seq<LanguagePackInfo>)
    ensures SelectPacks(packs, []) == packs
  {
    assert forall p: LanguagePackInfo :: IsPrefix([], p.name);
  }

  /** The pack of a language's own "language-pack-" package is listed for that language. */
  lemma OwnPackShown(lang: string, version: string)
    ensures PackShown(LanguagePackInfo(Packages.PACK_PREFIX + lang, version,
      Packages.LanguageOf(Packages.PACK_PREFIX + lang), []), lang)
  {
    var name := Packages.PACK_PREFIX + lang;
    assert name[14..14 + |lang|] == lang;
    ContainsAt(name, lang, 14);
  }
}
