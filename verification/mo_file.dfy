/**
 * The reader of compiled gettext catalogs (GNU MO files) in the backend:
 * it detects the byte order from the magic number, reads the header and
 * walks the two descriptor tables, counting the messages (entries with a
 * non-empty original string) and, among them, the translated ones (entries
 * whose translation is non-empty). Any read outside the data makes the
 * whole answer (0, 0).
 *
 * The layout follows the GNU gettext manual, section "The Format of GNU MO
 * Files": a 32-bit magic at offset 0, the number of strings at offset 8,
 * the offset of the table of original strings at offset 12 and that of the
 * table of translations at offset 16; each table entry is 8 bytes, a 32-bit
 * length followed by a 32-bit offset.
 */
module MoFile {
  import opened Wrappers

  newtype byte = x: int | 0 <= x < 256

  /** The magic number, read in the byte order of the file. */
  const MAGIC: nat := 0x950412DE
  /** The magic number of a big-endian file, read little-endian. */
  const MAGIC_SWAPPED: nat := 0xDE120495
  /** One more than the largest unsigned 32-bit value. */
  const WORD_LIMIT: nat := 0x1_0000_0000
  /** Size of one entry of a descriptor table. */
  const DESCRIPTOR_SIZE: nat := 8

  datatype ByteOrder = LittleEndian | BigEndian

  /** The unsigned 32-bit value whose bytes, most significant first, are `b3 b2 b1 b0`. */
  function Word(b3: byte, b2: byte, b1: byte, b0: byte): (w: nat)
    ensures w < WORD_LIMIT
  {
    ((b3 as nat * 256 + b2 as nat) * 256 + b1 as nat) * 256 + b0 as nat
  }

  /**
   * `struct.unpack(fmt + "I", data[off:off + 4])`: the unsigned 32-bit value
   * at `off`, or `None` when fewer than four bytes are left there (the slice
   * comes out short and the unpack fails).
   */
  function ReadU32(data: seq<byte>, off: nat, order: ByteOrder): (r: Option<nat>)
    ensures r.Some? <==> off + 4 <= |data|
    ensures r.Some? ==> r.value < WORD_LIMIT
  {
    if off + 4 > |data| then None
    else if order == LittleEndian then Some(Word(data[off + 3], data[off + 2], data[off + 1], data[off]))
    else Some(Word(data[off], data[off + 1], data[off + 2], data[off + 3]))
  }

  /**
   * The first word is always read little-endian; the magic number picks the
   * byte order used for every later read.
   */
  function DetectByteOrder(data: seq<byte>): (r: Option<ByteOrder>)
    ensures r.Some? <==> |data| >= 4 && ReadU32(data, 0, LittleEndian).value in {MAGIC, MAGIC_SWAPPED}
    ensures r == Some(LittleEndian) <==> |data| >= 4 && ReadU32(data, 0, LittleEndian).value == MAGIC
    ensures r == Some(BigEndian) <==> |data| >= 4 && ReadU32(data, 0, LittleEndian).value == MAGIC_SWAPPED
  {
    match ReadU32(data, 0, LittleEndian)
    case None => None
    case Some(magic) =>
      if magic == MAGIC then Some(LittleEndian)
      else if magic == MAGIC_SWAPPED then Some(BigEndian)
      else None
  }

  /** What the decoder takes from the header. */
  datatype Header = Header(order: ByteOrder, count: nat, origTable: nat, transTable: nat)

  /** The byte order, then the three header fields at offsets 8, 12 and 16, all read in that order. */
  function ParseHeader(data: seq<byte>): (r: Option<Header>)
    ensures r.Some? <==> |data| >= 20 && DetectByteOrder(data).Some?
    ensures r.Some? ==> DetectByteOrder(data) == Some(r.value.order)
    ensures r.Some? ==> ReadU32(data, 8, r.value.order) == Some(r.value.count)
    ensures r.Some? ==> ReadU32(data, 12, r.value.order) == Some(r.value.origTable)
    ensures r.Some? ==> ReadU32(data, 16, r.value.order) == Some(r.value.transTable)
    ensures r.Some? ==> r.value.count < WORD_LIMIT
  {
    match DetectByteOrder(data)
    case None => None
    case Some(order) =>
      match (ReadU32(data, 8, order), ReadU32(data, 12, order), ReadU32(data, 16, order))
      case (Some(count), Some(origTable), Some(transTable)) =>
        Some(Header(order, count, origTable, transTable))
      case _ => None
  }

  /**
   * Length field of entry `i` of the table of original strings; the read
   * fails exactly when the descriptor's first word runs past the end.
   */
  function OrigLength(data: seq<byte>, h: Header, i: nat): (r: Option<nat>)
    ensures r.Some? <==> h.origTable + i * DESCRIPTOR_SIZE + 4 <= |data|
    ensures r.Some? ==> r.value < WORD_LIMIT
  {
    ReadU32(data, h.origTable + i * DESCRIPTOR_SIZE, h.order)
  }

  /**
   * Length field of entry `i` of the table of translations; the read fails
   * exactly when the descriptor's first word runs past the end.
   */
  function TransLength(data: seq<byte>, h: Header, i: nat): (r: Option<nat>)
    ensures r.Some? <==> h.transTable + i * DESCRIPTOR_SIZE + 4 <= |data|
    ensures r.Some? ==> r.value < WORD_LIMIT
  {
    ReadU32(data, h.transTable + i * DESCRIPTOR_SIZE, h.order)
  }

  /** The decoder's answer: translated messages, and all messages. */
  datatype Counts = Counts(translated: nat, total: nat)

  /**
   * The counters after the first `k` rounds of the descriptor walk, or `None`
   * when one of the reads in those rounds fails. Both lengths of an entry
   * are read before the entry is skipped as the metadata entry.
   */
  function Walk(data: seq<byte>, h: Header, k: nat): (r: Option<Counts>)
    ensures r.Some? ==> r.value.translated <= r.value.total <= k
  {
    if k == 0 then Some(Counts(0, 0))
    else
      match (Walk(data, h, k - 1), OrigLength(data, h, k - 1), TransLength(data, h, k - 1))
      case (Some(c), Some(origLen), Some(transLen)) =>
        if origLen == 0 then Some(c)
        else Some(Counts(if transLen > 0 then c.translated + 1 else c.translated, c.total + 1))
      case _ => None
  }

  /** `parse_mo_file` on the bytes of a file: every failure becomes (0, 0). */
  function Decode(data: seq<byte>): (r: Counts)
    ensures r.translated <= r.total < WORD_LIMIT
  {
    match ParseHeader(data)
    case None => Counts(0, 0)
    case Some(h) =>
      match Walk(data, h, h.count)
      case None => Counts(0, 0)
      case Some(c) => c
  }

  /**
   * The decoder as the backend runs it: the header, then a loop over the
   * entries that gives up with (0, 0) at the first failed read.
   */
  method ParseMoFile(data: seq<byte>) returns (translated: nat, total: nat)
    ensures Counts(translated, total) == Decode(data)
    ensures translated <= total
  {
    var header := ParseHeader(data);
    if header.None? {
      return 0, 0;
    }
    var h := header.value;
    translated, total := 0, 0;
    var i := 0;
    while i < h.count
      invariant i <= h.count
      invariant Walk(data, h, i) == Some(Counts(translated, total))
    {
      var origLen := OrigLength(data, h, i);
      var transLen := TransLength(data, h, i);
      if origLen.None? || transLen.None? {
        assert Walk(data, h, i + 1).None?;
        WalkFailureIsFinal(data, h, i + 1, h.count);
        return 0, 0;
      }
      WalkStep(data, h, i, Counts(translated, total), origLen.value, transLen.value);
      if origLen.value != 0 {
        total := total + 1;
        if transLen.value > 0 {
          translated := translated + 1;
        }
      }
      assert Walk(data, h, i + 1) == Some(Counts(translated, total));
      i := i + 1;
    }
  }

  /** One round of the walk: a skipped metadata entry, or one more message, translated or not. */
  lemma WalkStep(data: seq<byte>, h: Header, k: nat, c: Counts, origLen: nat, transLen: nat)
    requires Walk(data, h, k) == Some(c)
    requires OrigLength(data, h, k) == Some(origLen) && TransLength(data, h, k) == Some(transLen)
    ensures Walk(data, h, k + 1) ==
      Some(if origLen == 0 then c
           else Counts(if transLen > 0 then c.translated + 1 else c.translated, c.total + 1))
  {
  }

  /** Once a read has failed, no later round brings the walk back. */
  lemma {:induction false} WalkFailureIsFinal(data: seq<byte>, h: Header, j: nat, k: nat)
    requires j <= k && Walk(data, h, j).None?
    ensures Walk(data, h, k).None?
    decreases k
  {
    if j < k {
      WalkFailureIsFinal(data, h, j, k - 1);
    }
  }

  /**
   * The walk over the first `k` entries succeeds exactly when the last
   * descriptors of both tables lie inside the data (each read is further
   * into its table than the ones before it).
   */
  lemma {:induction false} WalkSucceedsIff(data: seq<byte>, h: Header, k: nat)
    ensures Walk(data, h, k).Some? <==>
      k == 0 || (h.origTable + (k - 1) * DESCRIPTOR_SIZE + 4 <= |data|
                 && h.transTable + (k - 1) * DESCRIPTOR_SIZE + 4 <= |data|)
  {
    if k > 1 {
      WalkSucceedsIff(data, h, k - 1);
    }
  }

  /** Indices below `k` whose original string is non-empty. */
  function MessageIndices(data: seq<byte>, h: Header, k: nat): set<nat> {
    set i: nat | i < k && OrigLength(data, h, i).Some? && OrigLength(data, h, i).value != 0
  }

  /** Messages below `k` whose translation is non-empty. */
  function TranslatedIndices(data: seq<byte>, h: Header, k: nat): set<nat> {
    set i: nat | i in MessageIndices(data, h, k) && TransLength(data, h, i).Some? && TransLength(data, h, i).value > 0
  }

  /** Entry `k` joins the messages exactly when its original length is non-zero. */
  lemma MessageIndicesStep(data: seq<byte>, h: Header, k: nat)
    requires OrigLength(data, h, k).Some?
    ensures MessageIndices(data, h, k + 1) ==
      MessageIndices(data, h, k) + (if OrigLength(data, h, k).value != 0 then {k} else {})
  {
  }

  /** Entry `k` joins the translated messages exactly when both its lengths are non-zero. */
  lemma TranslatedIndicesStep(data: seq<byte>, h: Header, k: nat)
    requires OrigLength(data, h, k).Some? && TransLength(data, h, k).Some?
    ensures TranslatedIndices(data, h, k + 1) ==
      TranslatedIndices(data, h, k)
      + (if OrigLength(data, h, k).value != 0 && TransLength(data, h, k).value > 0 then {k} else {})
  {
    MessageIndicesStep(data, h, k);
  }

  /**
   * What the walk counts: the entries with a non-zero original length, and
   * among them those with a non-zero translated length.
   */
  lemma {:induction false} WalkCounts(data: seq<byte>, h: Header, k: nat)
    requires Walk(data, h, k).Some?
    ensures Walk(data, h, k).value ==
      Counts(|TranslatedIndices(data, h, k)|, |MessageIndices(data, h, k)|)
  {
    if k > 0 {
      var last := k - 1;
      assert Walk(data, h, last).Some?;
      WalkCounts(data, h, last);
      MessageIndicesStep(data, h, last);
      TranslatedIndicesStep(data, h, last);
      assert last !in MessageIndices(data, h, last);
      assert last !in TranslatedIndices(data, h, last);
    }
  }

  /** Data too short to hold the magic, or with an unknown magic, decodes to (0, 0). */
  lemma BadMagicDecodesToZero(data: seq<byte>)
    requires |data| < 4 || ReadU32(data, 0, LittleEndian).value !in {MAGIC, MAGIC_SWAPPED}
    ensures Decode(data) == Counts(0, 0)
  {
  }

  /** A known magic followed by a truncated header still decodes to (0, 0). */
  lemma TruncatedHeaderDecodesToZero(data: seq<byte>)
    requires |data| < 20
    ensures Decode(data) == Counts(0, 0)
  {
  }

  /**
   * A single descriptor read out of range discards every count gathered
   * before it; this holds also for the translation read of the metadata
   * entry, which is made before that entry is skipped.
   */
  lemma AnyFailedReadDecodesToZero(data: seq<byte>, h: Header, i: nat)
    requires ParseHeader(data) == Some(h)
    requires i < h.count
    requires OrigLength(data, h, i).None? || TransLength(data, h, i).None?
    ensures Decode(data) == Counts(0, 0)
  {
    assert Walk(data, h, i + 1).None?;
    WalkFailureIsFinal(data, h, i + 1, h.count);
  }

  /**
   * For a catalog whose reads all succeed, the answer is the number of
   * entries with a non-empty original string and, among them, the number
   * with a non-empty translation; the metadata entry (empty original) is in
   * neither count, whatever its translation.
   */
  lemma DecodeCountsEntries(data: seq<byte>, h: Header)
    requires ParseHeader(data) == Some(h)
    requires Walk(data, h, h.count).Some?
    ensures Decode(data) == Counts(|TranslatedIndices(data, h, h.count)|, |MessageIndices(data, h, h.count)|)
    ensures |TranslatedIndices(data, h, h.count)| <= |MessageIndices(data, h, h.count)| <= h.count
  {
    WalkCounts(data, h, h.count);
  }
}
