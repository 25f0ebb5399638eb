# langpack-inspector, modelled in Dafny

langpack-inspector is a desktop tool for Debian and Ubuntu. It lists the
installed `language-pack-*` packages. It reads every compiled gettext catalog
(GNU MO file) installed for a language and shows how much of each catalog is
translated, as a list and as a heat map.

This project models the logic behind those screens and proves properties of it:

- **`MoFile`** (`mo_file.dfy`) is the MO decoder `parse_mo_file`. It reads
  the magic number little-endian and picks the byte order from it. It then
  reads the string count and the two table offsets, and walks the descriptor
  tables. It counts the entries with a non-empty original string and, among
  those, the entries with a non-empty translation. Any read past the end of
  the data turns the answer into (0, 0), including the translation-length
  read of the metadata entry, which happens before that entry is skipped.
  The method `ParseMoFile` is the loop as the backend runs it. It is proved
  equal to the function `Decode`, and `Decode` is proved to count exactly
  those entries.
- **`MoImage`** (`mo_image.dfy`) is a reference encoder. It lays out a list
  of messages in a valid MO layout, in list order and with an empty hash
  table, in either byte order. It serves as an
  independent partner for the decoder: decoding an encoded catalog gives the
  tally of its messages (`DecodeEncoded`).
- **`Records`** (`records.dfy`) holds the backend records. `MoFileInfo`
  gives the coverage percentage and the outdated rule. `LanguagePackInfo`
  gives the pack totals and the pack coverage. `GetMoFileInfo` builds the
  record for one catalog path: the stem of the path, the decoded counts, the
  modification time and the Launchpad URL.
- **`Stats`** (`stats.dfy`) is `get_language_stats`, the summary of a
  list of records.
- **`Packages`** (`packages.dfy`) reads what dpkg prints:
  - the `dpkg-query` package list of `list_installed_langpacks`;
  - the `dpkg -S` owner lines of `scan_language`;
  - the loop of `scan_language` that builds one record per catalog path.
- **`Window`** (`window.py`'s display rules) covers the heat-map colour,
  the row indicator, the domain filter of the search entry and the choice of
  the packs listed for a language.
- **`Text`**, **`Seqs`** and **`Wrappers`** are support modules:
  - `Text` holds the Python `str` operations the code relies on (`strip`,
    `splitlines`, `split`, `in`, `find`, `replace`, `lower`);
  - `Seqs` holds list comprehensions and appending loops;
  - `Wrappers` holds `Option`.

The external world is turned into parameters:

- The bytes of the files the backend can open, and the modification times
  of the paths it can stat, form a `FileSystem` value (two maps).
- The standard output of `dpkg-query` and of `dpkg -S` is an
  `Option<string>`. `None` stands for the `SubprocessError` (a timeout
  among them) or `FileNotFoundError` that the backend catches. The exit
  status is not looked at, so a failing command's output is still read.
- The current time `now` is an integer number of microseconds on the local
  clock.
- The list of catalog paths that `scan_language` gets from
  `list_mo_files_for_language` is the `moPaths` parameter.

Two behaviours of the code are modelled as written:

- A catalog is outdated when `age.days > 180`. That is 181 whole days or
  more, not "more than 180 days".
- A package line is kept when the substring `installed` occurs anywhere in
  its status field. So dpkg's `unknown ok not-installed` is kept as well
  (`Packages.NotInstalledStatusIsKept`).

## Model

| member | source | states |
|---|---|---|
| MoFile.ReadU32 | rpm-build/langpack-inspector_0.2.1/usr/lib/python3/dist-packages/langpack_inspector/backend.py:139-141 | an unpack of four bytes at an offset succeeds exactly when four bytes remain there, and gives a value below 2^32 |
| MoFile.DetectByteOrder | rpm-build/langpack-inspector_0.2.1/usr/lib/python3/dist-packages/langpack_inspector/backend.py:130-136 | a byte order is found exactly for data of at least four bytes whose little-endian first word is one of the two magics: little-endian for 0x950412de, big-endian for 0xde120495 |
| MoFile.ParseHeader | rpm-build/langpack-inspector_0.2.1/usr/lib/python3/dist-packages/langpack_inspector/backend.py:130-141 | a header is read exactly from data of at least 20 bytes with a known magic; it carries that magic's byte order, and its count and two table offsets are the words at offsets 8, 12 and 16 read in that order |
| MoFile.OrigLength | rpm-build/langpack-inspector_0.2.1/usr/lib/python3/dist-packages/langpack_inspector/backend.py:148-150 | the msgid length of entry i is read exactly when its descriptor's first word lies inside the data, and fits in 32 bits |
| MoFile.TransLength | rpm-build/langpack-inspector_0.2.1/usr/lib/python3/dist-packages/langpack_inspector/backend.py:151-153 | the msgstr length of entry i is read exactly when its descriptor's first word lies inside the data, and fits in 32 bits |
| MoFile.Walk | rpm-build/langpack-inspector_0.2.1/usr/lib/python3/dist-packages/langpack_inspector/backend.py:146-160 | after k rounds of the walk, translated <= total <= k |
| MoFile.Decode | rpm-build/langpack-inspector_0.2.1/usr/lib/python3/dist-packages/langpack_inspector/backend.py:120-164 | the answer has translated <= total, and total fits in 32 bits |
| MoFile.ParseMoFile | rpm-build/langpack-inspector_0.2.1/usr/lib/python3/dist-packages/langpack_inspector/backend.py:120-164 | the loop that gives up at the first failed read returns exactly Decode's counts, with translated <= total |
| MoFile.WalkStep | rpm-build/langpack-inspector_0.2.1/usr/lib/python3/dist-packages/langpack_inspector/backend.py:148-160 | one round skips an entry with original length 0 and otherwise adds one message, translated iff its translation length is positive |
| MoFile.WalkFailureIsFinal | rpm-build/langpack-inspector_0.2.1/usr/lib/python3/dist-packages/langpack_inspector/backend.py:146-164 | once a read has failed, no later round recovers |
| MoFile.WalkSucceedsIff | rpm-build/langpack-inspector_0.2.1/usr/lib/python3/dist-packages/langpack_inspector/backend.py:148-153 | the walk over k entries succeeds iff the k-th descriptor of each table lies inside the data |
| MoFile.MessageIndicesStep | rpm-build/langpack-inspector_0.2.1/usr/lib/python3/dist-packages/langpack_inspector/backend.py:155-158 | an entry joins the messages exactly when its original length is non-zero |
| MoFile.TranslatedIndicesStep | rpm-build/langpack-inspector_0.2.1/usr/lib/python3/dist-packages/langpack_inspector/backend.py:155-160 | an entry joins the translated messages exactly when both its lengths are non-zero |
| MoFile.WalkCounts | rpm-build/langpack-inspector_0.2.1/usr/lib/python3/dist-packages/langpack_inspector/backend.py:146-162 | a successful walk counts the entries with a non-empty original, and among them those with a non-empty translation |
| MoFile.BadMagicDecodesToZero | rpm-build/langpack-inspector_0.2.1/usr/lib/python3/dist-packages/langpack_inspector/backend.py:130-136 | data shorter than four bytes, or with an unknown magic, decodes to (0, 0) |
| MoFile.TruncatedHeaderDecodesToZero | rpm-build/langpack-inspector_0.2.1/usr/lib/python3/dist-packages/langpack_inspector/backend.py:139-141 | data shorter than the 20-byte header decodes to (0, 0) |
| MoFile.AnyFailedReadDecodesToZero | rpm-build/langpack-inspector_0.2.1/usr/lib/python3/dist-packages/langpack_inspector/backend.py:148-164 | one descriptor read out of range, in either table, discards all counts |
| MoFile.DecodeCountsEntries | rpm-build/langpack-inspector_0.2.1/usr/lib/python3/dist-packages/langpack_inspector/backend.py:120-164 | a catalog whose reads all succeed decodes to the number of messages and of translated messages, the metadata entry in neither, both at most the string count |
| MoImage.U32Bytes | rpm-build/langpack-inspector_0.2.1/usr/lib/python3/dist-packages/langpack_inspector/backend.py:139 | the four bytes written for a word read back as that word in the same byte order |
| MoImage.Tally | rpm-build/langpack-inspector_0.2.1/usr/lib/python3/dist-packages/langpack_inspector/backend.py:155-160 | the counts a message list stands for have translated <= total <= number of entries |
| MoImage.TallyCountsMessages | rpm-build/langpack-inspector_0.2.1/usr/lib/python3/dist-packages/langpack_inspector/backend.py:155-160 | the tally is the number of entries with a non-empty msgid and of those that also have a non-empty msgstr |
| MoImage.LayoutWords | rpm-build/langpack-inspector_0.2.1/usr/lib/python3/dist-packages/langpack_inspector/backend.py:130-153 | the encoded layout has 7 + 4n words, each below 2^32, and its header holds the magic, the count and the two table offsets |
| MoImage.OrigDescriptorAt | rpm-build/langpack-inspector_0.2.1/usr/lib/python3/dist-packages/langpack_inspector/backend.py:148-150 | the length word of descriptor i in the table of originals is the length of msgid i |
| MoImage.TransDescriptorAt | rpm-build/langpack-inspector_0.2.1/usr/lib/python3/dist-packages/langpack_inspector/backend.py:151-153 | the length word of descriptor i in the table of translations is the length of msgstr i |
| MoImage.MagicAnnouncesOrder | rpm-build/langpack-inspector_0.2.1/usr/lib/python3/dist-packages/langpack_inspector/backend.py:130-134 | the decoder detects the byte order an encoded catalog was written in |
| MoImage.HeaderOfEncoded | rpm-build/langpack-inspector_0.2.1/usr/lib/python3/dist-packages/langpack_inspector/backend.py:139-141 | the decoder reads back the count and table offsets the encoder wrote |
| MoImage.OrigLengthOfEncoded | rpm-build/langpack-inspector_0.2.1/usr/lib/python3/dist-packages/langpack_inspector/backend.py:148-150 | the original-length field of entry i is the length of its msgid |
| MoImage.TransLengthOfEncoded | rpm-build/langpack-inspector_0.2.1/usr/lib/python3/dist-packages/langpack_inspector/backend.py:151-153 | the translation-length field of entry i is the length of its msgstr |
| MoImage.TallyStep | rpm-build/langpack-inspector_0.2.1/usr/lib/python3/dist-packages/langpack_inspector/backend.py:155-160 | one more message adds nothing if it is the metadata entry, else one message, translated iff its msgstr is non-empty |
| MoImage.WalkMatchesTally | rpm-build/langpack-inspector_0.2.1/usr/lib/python3/dist-packages/langpack_inspector/backend.py:146-160 | a walk over descriptors holding a message list's lengths counts as the tally of that list |
| MoImage.DecodeEncoded | rpm-build/langpack-inspector_0.2.1/usr/lib/python3/dist-packages/langpack_inspector/backend.py:120-164 | decoding an encoded catalog, in either byte order, gives the tally of its messages |
| MoImage.ByteOrderDoesNotMatter | rpm-build/langpack-inspector_0.2.1/usr/lib/python3/dist-packages/langpack_inspector/backend.py:130-134 | for every catalog the encoder lays out, the big-endian catalog decodes to the same counts as its little-endian twin |
| MoImage.BigEndianMagicBytes | rpm-build/langpack-inspector_0.2.1/usr/lib/python3/dist-packages/langpack_inspector/backend.py:133-134 | a big-endian catalog starts with the bytes 95 04 12 DE, which read little-endian as 0xDE120495 |
| MoImage.TallyMetadataAndOneUntranslated | rpm-build/langpack-inspector_0.2.1/usr/lib/python3/dist-packages/langpack_inspector/backend.py:155-160 | the metadata entry and one untranslated message tally (0, 1) |
| MoImage.TallyOneOfTwoTranslated | rpm-build/langpack-inspector_0.2.1/usr/lib/python3/dist-packages/langpack_inspector/backend.py:155-160 | the metadata entry, one translated and one untranslated message tally (1, 2) |
| MoImage.MetadataAndOneUntranslated | rpm-build/langpack-inspector_0.2.1/usr/lib/python3/dist-packages/langpack_inspector/backend.py:155-160 | such a catalog, encoded, decodes to (0, 1) whatever the metadata's translation, for any catalog small enough to encode |
| MoImage.OneOfTwoTranslated | rpm-build/langpack-inspector_0.2.1/usr/lib/python3/dist-packages/langpack_inspector/backend.py:155-160 | such a catalog, encoded, decodes to (1, 2) |
| MoImage.MetadataTranslationReadIsChecked | rpm-build/langpack-inspector_0.2.1/usr/lib/python3/dist-packages/langpack_inspector/backend.py:148-156 | a 28-byte little-endian catalog with one entry, the metadata entry, whose translation descriptor lies past the end decodes to (0, 0), although the entry would be skipped |
| Records.Percent | rpm-build/langpack-inspector_0.2.1/usr/lib/python3/dist-packages/langpack_inspector/backend.py:37-41 | 0 for an empty whole, otherwise the value p with p * whole = 100 * part; within [0, 100] when part <= whole; 100 when all is translated |
| Records.PercentReaches | rpm-build/langpack-inspector_0.2.1/usr/lib/python3/dist-packages/langpack_inspector/backend.py:37-41 | a percentage reaches (or exceeds) a bound iff 100 * part reaches (or exceeds) bound * whole |
| Records.ElapsedDays | rpm-build/langpack-inspector_0.2.1/usr/lib/python3/dist-packages/langpack_inspector/backend.py:48-49 | the whole days of an age, rounded towards minus infinity as `timedelta.days` |
| Records.MoFileInfo.CoveragePct | rpm-build/langpack-inspector_0.2.1/usr/lib/python3/dist-packages/langpack_inspector/backend.py:37-41 | 0 for a catalog with no messages, otherwise translated/total*100, within [0, 100] when translated <= total |
| Records.MoFileInfo.IsOutdated | rpm-build/langpack-inspector_0.2.1/usr/lib/python3/dist-packages/langpack_inspector/backend.py:43-49 | outdated iff the modification time is known and at least 181 whole days before now |
| Records.FutureNeverOutdated | rpm-build/langpack-inspector_0.2.1/usr/lib/python3/dist-packages/langpack_inspector/backend.py:43-49 | a modification time at or after now is never outdated |
| Records.OutdatedBoundary | rpm-build/langpack-inspector_0.2.1/usr/lib/python3/dist-packages/langpack_inspector/backend.py:48-49 | one microsecond short of 181 days is not outdated, 181 days is |
| Records.SumAppend | rpm-build/langpack-inspector_0.2.1/usr/lib/python3/dist-packages/langpack_inspector/backend.py:60-66 | a sum over two lists of records is the sum of the two sums |
| Records.SumPermutation | rpm-build/langpack-inspector_0.2.1/usr/lib/python3/dist-packages/langpack_inspector/backend.py:60-66 | a sum over records does not depend on their order |
| Records.SumMonotone | rpm-build/langpack-inspector_0.2.1/usr/lib/python3/dist-packages/langpack_inspector/backend.py:60-66 | a term that is smaller record by record gives a smaller sum |
| Records.TotalsOrdered | rpm-build/langpack-inspector_0.2.1/usr/lib/python3/dist-packages/langpack_inspector/backend.py:60-66 | for records whose counts agree, the translated total is at most the total of strings |
| Records.SumCoversTerms | rpm-build/langpack-inspector_0.2.1/usr/lib/python3/dist-packages/langpack_inspector/backend.py:60-66 | each term of a `sum()` is at most the sum |
| Records.LanguagePackInfo.TotalTranslated | rpm-build/langpack-inspector_0.2.1/usr/lib/python3/dist-packages/langpack_inspector/backend.py:60-62 | the pack's translated strings are at most its strings when its records are consistent |
| Records.LanguagePackInfo.TotalStrings | rpm-build/langpack-inspector_0.2.1/usr/lib/python3/dist-packages/langpack_inspector/backend.py:64-66 | the pack's strings are at least those of each of its catalogs |
| Records.LanguagePackInfo.CoveragePct | rpm-build/langpack-inspector_0.2.1/usr/lib/python3/dist-packages/langpack_inspector/backend.py:68-72 | 0 for a pack without messages, otherwise the pack's translated share in percent, within [0, 100] for consistent records |
| Records.PackTotalsIgnoreOrder | rpm-build/langpack-inspector_0.2.1/usr/lib/python3/dist-packages/langpack_inspector/backend.py:60-72 | a pack's totals and coverage do not depend on the order of its catalogs |
| Records.LastIndexOf | rpm-build/langpack-inspector_0.2.1/usr/lib/python3/dist-packages/langpack_inspector/backend.py:169 | the index of the last occurrence of a character, and none iff the character is absent |
| Records.FileName | rpm-build/langpack-inspector_0.2.1/usr/lib/python3/dist-packages/langpack_inspector/backend.py:169 | the file name is a slash-free suffix of the path, the whole path when it has no slash |
| Records.Stem | rpm-build/langpack-inspector_0.2.1/usr/lib/python3/dist-packages/langpack_inspector/backend.py:169 | the stem is the file name, or a non-empty part of it followed by a dot and a non-empty dot-free extension |
| Records.StemOfCatalogPath | rpm-build/langpack-inspector_0.2.1/usr/lib/python3/dist-packages/langpack_inspector/backend.py:169 | the domain of `dir/domain.mo` is `domain` |
| Records.HiddenNameIsOwnStem | rpm-build/langpack-inspector_0.2.1/usr/lib/python3/dist-packages/langpack_inspector/backend.py:169 | a name whose only dot is the leading one is its own stem |
| Records.LaunchpadUrl | rpm-build/langpack-inspector_0.2.1/usr/lib/python3/dist-packages/langpack_inspector/backend.py:179-182 | the URL is the template filled in: the Launchpad source prefix, the domain, `/+pots/`, the domain again, `/`, the language and `/+translate`, each at its position, with nothing else |
| Records.LaunchpadUrlInjective | rpm-build/langpack-inspector_0.2.1/usr/lib/python3/dist-packages/langpack_inspector/backend.py:179-182 | the Launchpad URL determines both the domain and the language |
| Records.CountsAt | rpm-build/langpack-inspector_0.2.1/usr/lib/python3/dist-packages/langpack_inspector/backend.py:170 | a file that cannot be opened counts (0, 0); translated <= total always |
| Records.GetMoFileInfo | rpm-build/langpack-inspector_0.2.1/usr/lib/python3/dist-packages/langpack_inspector/backend.py:167-193 | the record keeps the path and package, takes the stem as domain and the decoded counts, has untranslated = total - translated >= 0, a time iff the path can be stat-ed, and the URL of its domain and language |
| Records.UnstattableNeverOutdated | rpm-build/langpack-inspector_0.2.1/usr/lib/python3/dist-packages/langpack_inspector/backend.py:172-177 | a catalog whose time cannot be read is never outdated |
| Stats.OutdatedFiles | rpm-build/langpack-inspector_0.2.1/usr/lib/python3/dist-packages/langpack_inspector/backend.py:227 | exactly the records outdated at now |
| Stats.OutdatedSumCounts | rpm-build/langpack-inspector_0.2.1/usr/lib/python3/dist-packages/langpack_inspector/backend.py:227 | summing one per outdated record counts the outdated records |
| Stats.GetLanguageStats | rpm-build/langpack-inspector_0.2.1/usr/lib/python3/dist-packages/langpack_inspector/backend.py:223-235 | total and translated strings are the sums over the records, untranslated is their difference, the number of files, the number of outdated files, and the coverage as `Percent` of translated over total strings (0 without strings); for consistent records untranslated >= 0 and coverage in [0, 100] |
| Stats.EmptyStats | rpm-build/langpack-inspector_0.2.1/usr/lib/python3/dist-packages/langpack_inspector/backend.py:223-235 | no catalogs give all-zero statistics |
| Stats.StatsIgnoreOrder | rpm-build/langpack-inspector_0.2.1/usr/lib/python3/dist-packages/langpack_inspector/backend.py:223-235 | the statistics do not depend on the order of the records |
| Stats.StatsAppend | rpm-build/langpack-inspector_0.2.1/usr/lib/python3/dist-packages/langpack_inspector/backend.py:225-227 | the totals and outdated count of two lists add up |
| Stats.StatsAgreeWithPack | rpm-build/langpack-inspector_0.2.1/usr/lib/python3/dist-packages/langpack_inspector/backend.py:225-232 | for a pack's catalogs, the statistics agree with the pack's own totals and coverage |
| Packages.LanguageOf | rpm-build/langpack-inspector_0.2.1/usr/lib/python3/dist-packages/langpack_inspector/backend.py:98-99 | the language code is never longer than the package name, and a name without `language-pack-` is its own code |
| Packages.BareCodeUnchanged | rpm-build/langpack-inspector_0.2.1/usr/lib/python3/dist-packages/langpack_inspector/backend.py:98-99 | a code without `language-pack-` contains neither longer prefix and loses nothing to the three removals |
| Packages.PackPrefixBeginsOthers | rpm-build/langpack-inspector_0.2.1/usr/lib/python3/dist-packages/langpack_inspector/backend.py:98-99 | `language-pack-` begins both longer prefixes |
| Packages.NoStraddle | rpm-build/langpack-inspector_0.2.1/usr/lib/python3/dist-packages/langpack_inspector/backend.py:98-99 | putting a prefix before a code that lacks a pattern does not create one, when the pattern is not at the front and cannot start inside the prefix |
| Packages.LanguageOfPackName | rpm-build/langpack-inspector_0.2.1/usr/lib/python3/dist-packages/langpack_inspector/backend.py:98-99 | `language-pack-` followed by a code that contains no `language-pack-` and does not start with `gnome-` or `kde-` gives that code |
| Packages.LanguageOfGnomeName | rpm-build/langpack-inspector_0.2.1/usr/lib/python3/dist-packages/langpack_inspector/backend.py:98-99 | `language-pack-gnome-` followed by a code that contains no `language-pack-` gives that code |
| Packages.LanguageOfKdeName | rpm-build/langpack-inspector_0.2.1/usr/lib/python3/dist-packages/langpack_inspector/backend.py:98-99 | `language-pack-kde-` followed by a code that contains no `language-pack-` gives that code |
| Packages.PackFromLine | rpm-build/langpack-inspector_0.2.1/usr/lib/python3/dist-packages/langpack_inspector/backend.py:93-102 | a line is kept iff it has at least three tab fields and the third contains "installed"; the pack's name and version are the first two fields, it has no catalogs, and its language is derived from its name |
| Packages.PackFromFields | rpm-build/langpack-inspector_0.2.1/usr/lib/python3/dist-packages/langpack_inspector/backend.py:93-102 | joined tab-free fields give a pack of the first two fields iff there are at least three and the third contains "installed", and nothing otherwise |
| Packages.TwoFieldLineDropped | rpm-build/langpack-inspector_0.2.1/usr/lib/python3/dist-packages/langpack_inspector/backend.py:94 | a `name TAB version` line is dropped |
| Packages.PackFromFormattedLine | rpm-build/langpack-inspector_0.2.1/usr/lib/python3/dist-packages/langpack_inspector/backend.py:88-102 | a `name TAB version TAB status` line is read back into its name and version, and kept iff the status mentions "installed" |
| Packages.NotInstalledStatusIsKept | rpm-build/langpack-inspector_0.2.1/usr/lib/python3/dist-packages/langpack_inspector/backend.py:94 | every status ending in "installed" keeps its line, "not-installed" included |
| Packages.PacksFromLinesExactly | rpm-build/langpack-inspector_0.2.1/usr/lib/python3/dist-packages/langpack_inspector/backend.py:92-102 | a pack is listed iff some line gives it |
| Packages.PacksFromLinesAppend | rpm-build/langpack-inspector_0.2.1/usr/lib/python3/dist-packages/langpack_inspector/backend.py:92-102 | the packs of two runs of lines are those of the first, then those of the second |
| Packages.ListInstalledLangpacks | rpm-build/langpack-inspector_0.2.1/usr/lib/python3/dist-packages/langpack_inspector/backend.py:83-105 | the packs of the kept lines of the stripped output, in order, and none when the command raised a caught error |
| Packages.PacksOfLines | rpm-build/langpack-inspector_0.2.1/usr/lib/python3/dist-packages/langpack_inspector/backend.py:92-102 | the appending loop builds the packs of the kept lines in order |
| Packages.MappingOf | rpm-build/langpack-inspector_0.2.1/usr/lib/python3/dist-packages/langpack_inspector/backend.py:209-211 | a line gives an entry iff it contains ": " |
| Packages.MappingAt | rpm-build/langpack-inspector_0.2.1/usr/lib/python3/dist-packages/langpack_inspector/backend.py:209-211 | for the first ": " at i, the entry maps the stripped text after it to the stripped text before it |
| Packages.FindSeparator | rpm-build/langpack-inspector_0.2.1/usr/lib/python3/dist-packages/langpack_inspector/backend.py:210 | in `package: path`, the first ": " follows the package name |
| Packages.MappingOfOwnerLine | rpm-build/langpack-inspector_0.2.1/usr/lib/python3/dist-packages/langpack_inspector/backend.py:208-211 | an owner line as dpkg prints it maps the path to the package |
| Packages.EntriesOf | rpm-build/langpack-inspector_0.2.1/usr/lib/python3/dist-packages/langpack_inspector/backend.py:208-211 | one entry per line, the line's mapping |
| Packages.MapOfEntriesKeys | rpm-build/langpack-inspector_0.2.1/usr/lib/python3/dist-packages/langpack_inspector/backend.py:208-211 | a path is in the owner map iff some entry names it |
| Packages.MapOfEntriesLastWins | rpm-build/langpack-inspector_0.2.1/usr/lib/python3/dist-packages/langpack_inspector/backend.py:211 | the owner of a path is the package of the last entry naming it |
| Packages.PackageMapKeys | rpm-build/langpack-inspector_0.2.1/usr/lib/python3/dist-packages/langpack_inspector/backend.py:208-211 | a path has an owner iff some line of the output maps it |
| Packages.PackageMapLastWins | rpm-build/langpack-inspector_0.2.1/usr/lib/python3/dist-packages/langpack_inspector/backend.py:208-211 | a path's owner is the package on the last line mapping it |
| Packages.MapFilesToPackages | rpm-build/langpack-inspector_0.2.1/usr/lib/python3/dist-packages/langpack_inspector/backend.py:202-213 | the owner map of the stripped output's lines, and the empty map when the command raised a caught error |
| Packages.MapLines | rpm-build/langpack-inspector_0.2.1/usr/lib/python3/dist-packages/langpack_inspector/backend.py:208-211 | the loop that updates the map line by line builds the owner map of the lines |
| Packages.OwnerOf | rpm-build/langpack-inspector_0.2.1/usr/lib/python3/dist-packages/langpack_inspector/backend.py:216 | the package dpkg named for the path, or "" when it named none |
| Packages.ScanResultsAt | rpm-build/langpack-inspector_0.2.1/usr/lib/python3/dist-packages/langpack_inspector/backend.py:215-218 | one record per path; record k is the record of path k with its owner, or "" when it has none, and is consistent |
| Packages.ScanLanguage | rpm-build/langpack-inspector_0.2.1/usr/lib/python3/dist-packages/langpack_inspector/backend.py:196-220 | the records of the catalog paths, in path order, each with the package dpkg named for it |
| Text.StripStart | rpm-build/langpack-inspector_0.2.1/usr/lib/python3/dist-packages/langpack_inspector/backend.py:92 | never longer than its input |
| Text.StripEnd | rpm-build/langpack-inspector_0.2.1/usr/lib/python3/dist-packages/langpack_inspector/backend.py:92 | never longer than its input |
| Text.Strip | rpm-build/langpack-inspector_0.2.1/usr/lib/python3/dist-packages/langpack_inspector/backend.py:92 | never longer than its input |
| Text.SkipSpaceStops | rpm-build/langpack-inspector_0.2.1/usr/lib/python3/dist-packages/langpack_inspector/backend.py:92 | the scan for the start passes over whitespace only and stops at the end or at a non-space |
| Text.TrimSpaceStops | rpm-build/langpack-inspector_0.2.1/usr/lib/python3/dist-packages/langpack_inspector/backend.py:92 | the scan for the end drops whitespace only and stops at the start or after a non-space |
| Text.StripStartShape | rpm-build/langpack-inspector_0.2.1/usr/lib/python3/dist-packages/langpack_inspector/backend.py:92 | `lstrip` keeps a suffix that does not start with whitespace, and removes only whitespace before it |
| Text.StripEndShape | rpm-build/langpack-inspector_0.2.1/usr/lib/python3/dist-packages/langpack_inspector/backend.py:92 | `rstrip` keeps a prefix that does not end with whitespace, and removes only whitespace after it |
| Text.StripShape | rpm-build/langpack-inspector_0.2.1/usr/lib/python3/dist-packages/langpack_inspector/backend.py:92 | `strip` keeps one run that neither starts nor ends with whitespace, removes only whitespace on either side, and equals `rstrip` after `lstrip` |
| Text.StripTrimmed | rpm-build/langpack-inspector_0.2.1/usr/lib/python3/dist-packages/langpack_inspector/backend.py:211 | a string without whitespace at its ends is unchanged by strip |
| Text.FirstBreak | rpm-build/langpack-inspector_0.2.1/usr/lib/python3/dist-packages/langpack_inspector/backend.py:92 | the first line boundary, and none before it |
| Text.SplitLines | rpm-build/langpack-inspector_0.2.1/usr/lib/python3/dist-packages/langpack_inspector/backend.py:92 | no line contains a line boundary, and only the empty text has no lines |
| Text.SplitLinesCons | rpm-build/langpack-inspector_0.2.1/usr/lib/python3/dist-packages/langpack_inspector/backend.py:92 | a boundary-free line followed by one boundary (`\r\n` counting as one) is the first line, and the rest is split on its own |
| Text.SplitLinesJoin | rpm-build/langpack-inspector_0.2.1/usr/lib/python3/dist-packages/langpack_inspector/backend.py:92 | boundary-free lines whose last one is not empty, joined with `\n`, split back into themselves |
| Text.IndexOf | rpm-build/langpack-inspector_0.2.1/usr/lib/python3/dist-packages/langpack_inspector/backend.py:93 | the first occurrence of a character |
| Text.Split | rpm-build/langpack-inspector_0.2.1/usr/lib/python3/dist-packages/langpack_inspector/backend.py:93 | at least one field, none containing the separator |
| Text.JoinSplit | rpm-build/langpack-inspector_0.2.1/usr/lib/python3/dist-packages/langpack_inspector/backend.py:93 | joining the fields of a split gives back the line |
| Text.SplitJoin | rpm-build/langpack-inspector_0.2.1/usr/lib/python3/dist-packages/langpack_inspector/backend.py:93 | splitting joined separator-free fields gives back the fields |
| Text.ContainsPrefixOf | rpm-build/langpack-inspector_0.2.1/usr/lib/python3/dist-packages/langpack_inspector/backend.py:98-99 | a string containing a pattern contains every prefix of it |
| Text.Contains | rpm-build/langpack-inspector_0.2.1/usr/lib/python3/dist-packages/langpack_inspector/backend.py:94 | the empty pattern is in every string, and a contained pattern is no longer than the string |
| Text.ContainsAt | rpm-build/langpack-inspector_0.2.1/usr/lib/python3/dist-packages/langpack_inspector/backend.py:94 | an occurrence at any position makes the pattern contained |
| Text.Find | rpm-build/langpack-inspector_0.2.1/usr/lib/python3/dist-packages/langpack_inspector/backend.py:209-210 | found iff contained, at an occurrence, and no occurrence earlier |
| Text.MissingCharNotContained | rpm-build/langpack-inspector_0.2.1/usr/lib/python3/dist-packages/langpack_inspector/backend.py:98-99 | a string lacking a character of the pattern does not contain it |
| Text.RemoveAll | rpm-build/langpack-inspector_0.2.1/usr/lib/python3/dist-packages/langpack_inspector/backend.py:98-99 | removal never lengthens the string |
| Text.RemoveKeepsFreePrefix | rpm-build/langpack-inspector_0.2.1/usr/lib/python3/dist-packages/langpack_inspector/backend.py:98-99 | characters before the first occurrence of the pattern are kept as they are |
| Text.RemoveAtFirst | rpm-build/langpack-inspector_0.2.1/usr/lib/python3/dist-packages/langpack_inspector/backend.py:98-99 | at the first occurrence, the pattern is dropped and the rest is processed on its own, so `replace` removes every non-overlapping occurrence from the left |
| Text.RemoveAbsent | rpm-build/langpack-inspector_0.2.1/usr/lib/python3/dist-packages/langpack_inspector/backend.py:98-99 | removing an absent pattern changes nothing |
| Text.RemoveLeading | rpm-build/langpack-inspector_0.2.1/usr/lib/python3/dist-packages/langpack_inspector/backend.py:98-99 | a leading occurrence is removed |
| Text.Lower | src/langpack_inspector/window.py:227 | each character lowered, the length kept |
| Seqs.Filter | src/langpack_inspector/window.py:228 | the kept elements, in order: exactly the elements that pass, all of them when all pass |
| Seqs.SubsequenceOfItself | src/langpack_inspector/window.py:229 | showing every catalog keeps them in order |
| Seqs.FilterAppend | src/langpack_inspector/window.py:228 | one more element extends the selection by it iff it passes |
| Seqs.Map | rpm-build/langpack-inspector_0.2.1/usr/lib/python3/dist-packages/langpack_inspector/backend.py:215-218 | one output per input |
| Seqs.MapAt | rpm-build/langpack-inspector_0.2.1/usr/lib/python3/dist-packages/langpack_inspector/backend.py:215-218 | output k is the function applied to input k |
| Seqs.MapStep | rpm-build/langpack-inspector_0.2.1/usr/lib/python3/dist-packages/langpack_inspector/backend.py:218 | one more input appends its image |
| Seqs.Collect | rpm-build/langpack-inspector_0.2.1/usr/lib/python3/dist-packages/langpack_inspector/backend.py:92-102 | no more outputs than inputs |
| Seqs.CollectStep | rpm-build/langpack-inspector_0.2.1/usr/lib/python3/dist-packages/langpack_inspector/backend.py:100-102 | one more input appends its value when it has one |
| Seqs.CollectedFrom | rpm-build/langpack-inspector_0.2.1/usr/lib/python3/dist-packages/langpack_inspector/backend.py:92-102 | every collected value comes from some input |
| Seqs.CollectedAll | rpm-build/langpack-inspector_0.2.1/usr/lib/python3/dist-packages/langpack_inspector/backend.py:92-102 | every value an input gives is collected |
| Seqs.CollectAppend | rpm-build/langpack-inspector_0.2.1/usr/lib/python3/dist-packages/langpack_inspector/backend.py:92-102 | collecting over two runs collects over each in turn |
| Window.HeatmapCssClass | src/langpack_inspector/window.py:41-46 | green iff pct >= 90, yellow iff 70 <= pct < 90, orange iff 50 <= pct < 70, red iff 0 < pct < 50, gray iff pct <= 0 |
| Window.HeatmapMonotone | src/langpack_inspector/window.py:41-46 | more coverage never gives a colder colour |
| Window.CoverageIndicator | src/langpack_inspector/window.py:336-344 | success iff pct >= 90, warning iff 50 <= pct < 90, error iff pct < 50 |
| Window.IndicatorAgreesWithHeatmap | src/langpack_inspector/window.py:336-344 | success iff the tile is green, warning iff yellow or orange, error iff red or gray |
| Window.RecordIndicatorBands | src/langpack_inspector/window.py:336-344 | a record shows success iff 10 * translated >= 9 * total > 0, and error iff it has no messages or 2 * translated < total |
| Window.RecordGrayTile | src/langpack_inspector/window.py:41-46 | a record's tile is gray iff it has no messages or none is translated |
| Window.FilterByDomain | src/langpack_inspector/window.py:226-229 | the catalogs whose lower-cased domain contains the lower-cased query, in order; all of them for an empty query (the exact list, repeats included, is pinned by `Seqs.FilterAppend`) |
| Window.EmptyQueryShortcutAgrees | src/langpack_inspector/window.py:228-229 | the empty-query shortcut shows what the comprehension would |
| Window.LowerTwice | src/langpack_inspector/window.py:227 | lowering twice is lowering once |
| Window.FilterIgnoresQueryCase | src/langpack_inspector/window.py:227 | the filter gives the same catalogs for a query and its lower-case form |
| Window.PackShown | src/langpack_inspector/window.py:253 | a pack whose language is the scanned one is shown, and an empty language code shows every pack |
| Window.SelectPacks | src/langpack_inspector/window.py:253 | the packs, in order, whose language is the scanned one or whose name contains it (the exact list, repeats included, is pinned by `Seqs.FilterAppend`) |
| Window.EmptyLanguageSelectsAll | src/langpack_inspector/window.py:253 | with an empty language code every pack is listed |
| Window.OwnPackShown | src/langpack_inspector/window.py:253 | a language's own `language-pack-` package is listed for it |

## Left out

- Reading files, `os.stat`, running `dpkg-query` and `dpkg -S`, and their timeouts: their results are parameters (`FileSystem`, `Option<string>` standard output). `None` is a caught `SubprocessError` or `FileNotFoundError`; any exit status gives `Some` of what was printed.
- Packages.ListInstalledLangpacks and Packages.MapFilesToPackages: a `PermissionError` when starting the command, or a `UnicodeDecodeError` on its output, propagates out of the backend. The model has no such outcome.
- The exception handlers of `parse_mo_file` are modelled by their outcome. A file that cannot be opened, and every failed unpack, gives (0, 0).
- `list_mo_files_for_language` (backend.py:108-117) globs the locale directories, then sorts and removes duplicates. The sorted path list is the `moPaths` parameter of `Packages.ScanLanguage`.
- Packages.ScanLanguage: only the first 50 paths are passed to `dpkg -S`. The model takes the command's output as given, so this cap is not visible.
- `fetch_launchpad_templates` (backend.py:238-252) is HTTP and JSON, and `get_system_language` (backend.py:75-80) reads the locale: external I/O.
- The GUI is not modelled: widgets, CSS, the heat-map and list rebuilding, notifications, settings, and the text built from the selected packs. Only the classification rules are modelled.
- The worker thread and the `GLib.idle_add` hand-off are concurrency, and are not modelled.
- Records.Percent: percentages are exact reals. Python's float division and rounding, and the `:.0f` formatting, are not modelled.
- Records.MoFileInfo.IsOutdated: times are whole microseconds on one local clock. The conversion of the float `st_mtime` by `fromtimestamp`, with its rounding and its daylight-saving effects on naive local times, is not modelled.
- Text.Lower: only the ASCII letters are lowered. Python's full Unicode case mapping is not modelled.
- Records.Stem: `PurePath` normalisation, such as collapsing repeated or trailing slashes, is not modelled. The stem is taken from the text after the last `/`.
- Records.GetMoFileInfo: the record's `mtime` is the stat time as given. A failed `os.stat` is a path missing from `FileSystem.mtimes`. The model always returns a record: the `OverflowError` or `ValueError` that `fromtimestamp` raises for an out-of-range time propagates out of the backend (only `OSError` is caught), and is not modelled.
- Stats.GetLanguageStats: all records are judged outdated at one instant `now`. The backend reads the clock again for each record, so a record near the 180-day limit may be judged at a slightly later time than the one before it. `Stats.StatsIgnoreOrder` holds for the model's single instant only.
