/**
 * A valid GNU MO catalog for a list of messages, kept in list order and
 * with an empty hash table: the 28-byte header (magic,
 * revision, number of strings, the offsets of the two descriptor tables,
 * size and offset of the hash table), the table of original strings, the
 * table of translations, then the strings themselves, each followed by a
 * NUL. This is the reference against which the decoder is checked: a list
 * of messages encoded in either byte order decodes to the counts of that
 * list.
 */
module MoImage {
  import opened Wrappers
  import opened MoFile
  import Seqs

  const HEADER_SIZE: nat := 28

  /** The four bytes of `v`, in the given order. */
  function U32Bytes(v: nat, order: ByteOrder): (b: seq<byte>)
    requires v < WORD_LIMIT
    ensures |b| == 4 && ReadU32(b, 0, order) == Some(v)
  {
    var q1 := v / 256;
    var q2 := q1 / 256;
    var q3 := q2 / 256;
    var b0, b1, b2, b3 := (v % 256) as byte, (q1 % 256) as byte, (q2 % 256) as byte, q3 as byte;
    assert Word(b3, b2, b1, b0) == v by {
      assert q2 == q3 * 256 + q2 % 256;
      assert q1 == q2 * 256 + q1 % 256;
      assert v == q1 * 256 + v % 256;
    }
    if order == LittleEndian then [b0, b1, b2, b3] else [b3, b2, b1, b0]
  }

  predicate AllWords(ws: seq<nat>) {
    forall k :: 0 <= k < |ws| ==> ws[k] < WORD_LIMIT
  }

  /** The words one after the other, each in the given order. */
  function Words(ws: seq<nat>, order: ByteOrder): (b: seq<byte>)
    requires AllWords(ws)
    ensures |b| == 4 * |ws|
  {
    if ws == [] then [] else U32Bytes(ws[0], order) + Words(ws[1..], order)
  }

  /** Bytes in front of a word shift it and nothing else. */
  lemma ReadAfterPrefix(pre: seq<byte>, s: seq<byte>, off: nat, order: ByteOrder)
    ensures ReadU32(pre + s, |pre| + off, order) == ReadU32(s, off, order)
  {
    if off + 4 <= |s| {
      var t := pre + s;
      assert t[|pre| + off] == s[off] && t[|pre| + off + 1] == s[off + 1];
      assert t[|pre| + off + 2] == s[off + 2] && t[|pre| + off + 3] == s[off + 3];
    }
  }

  /** Bytes after a word leave it alone. */
  lemma ReadBeforeSuffix(s: seq<byte>, post: seq<byte>, off: nat, order: ByteOrder)
    requires off + 4 <= |s|
    ensures ReadU32(s + post, off, order) == ReadU32(s, off, order)
  {
    var t := s + post;
    assert t[off] == s[off] && t[off + 1] == s[off + 1];
    assert t[off + 2] == s[off + 2] && t[off + 3] == s[off + 3];
  }

  /** Word `i` of an encoded sequence of words reads back as itself. */
  lemma {:induction false} ReadWord(ws: seq<nat>, rest: seq<byte>, i: nat, order: ByteOrder)
    requires AllWords(ws) && i < |ws|
    ensures ReadU32(Words(ws, order) + rest, 4 * i, order) == Some(ws[i])
  {
    var first := U32Bytes(ws[0], order);
    assert Words(ws, order) + rest == first + (Words(ws[1..], order) + rest);
    if i == 0 {
      ReadBeforeSuffix(first, Words(ws[1..], order) + rest, 0, order);
    } else {
      ReadAfterPrefix(first, Words(ws[1..], order) + rest, 4 * (i - 1), order);
      ReadWord(ws[1..], rest, i - 1, order);
    }
  }

  datatype Message = Message(msgid: seq<byte>, msgstr: seq<byte>)

  /** A message proper, as opposed to the metadata entry with the empty original. */
  predicate IsMessage(m: Message) {
    m.msgid != []
  }

  /** A message with a non-empty translation. */
  predicate IsTranslated(m: Message) {
    m.msgid != [] && m.msgstr != []
  }

  /**
   * The counts a catalog of these messages stands for, message by message:
   * the metadata entry is skipped, every other message adds one to the
   * total, and one to the translated count when its translation is
   * non-empty.
   */
  function Tally(msgs: seq<Message>): (c: Counts)
    ensures c.translated <= c.total <= |msgs|
  {
    if msgs == [] then Counts(0, 0)
    else
      var c := Tally(msgs[..|msgs| - 1]);
      var m := msgs[|msgs| - 1];
      if m.msgid == [] then c
      else Counts(if m.msgstr != [] then c.translated + 1 else c.translated, c.total + 1)
  }

  /**
   * The tally, counted over the whole list at once: the messages with a
   * non-empty original, and those that also have a non-empty translation.
   */
  lemma {:induction false} TallyCountsMessages(msgs: seq<Message>)
    ensures Tally(msgs) == Counts(|Seqs.Filter(msgs, IsTranslated)|, |Seqs.Filter(msgs, IsMessage)|)
  {
    if msgs != [] {
      var init, m := msgs[..|msgs| - 1], msgs[|msgs| - 1];
      assert msgs == init + [m];
      TallyCountsMessages(init);
      TallyStep(init, m);
      assert |Seqs.Filter(msgs, IsMessage)| == |Seqs.Filter(init, IsMessage)| + if IsMessage(m) then 1 else 0 by {
        Seqs.FilterAppend(init, m, IsMessage);
      }
      assert |Seqs.Filter(msgs, IsTranslated)| == |Seqs.Filter(init, IsTranslated)| + if IsTranslated(m) then 1 else 0 by {
        Seqs.FilterAppend(init, m, IsTranslated);
      }
    }
  }

  function Originals(msgs: seq<Message>): (ids: seq<seq<byte>>)
    ensures |ids| == |msgs| && forall i :: 0 <= i < |msgs| ==> ids[i] == msgs[i].msgid
  {
    seq(|msgs|, i requires 0 <= i < |msgs| => msgs[i].msgid)
  }

  function Translations(msgs: seq<Message>): (strs: seq<seq<byte>>)
    ensures |strs| == |msgs| && forall i :: 0 <= i < |msgs| ==> strs[i] == msgs[i].msgstr
  {
    seq(|msgs|, i requires 0 <= i < |msgs| => msgs[i].msgstr)
  }

  /** Bytes taken by the strings with their terminating NULs. */
  function BlobSize(strs: seq<seq<byte>>): nat {
    if strs == [] then 0 else |strs[0]| + 1 + BlobSize(strs[1..])
  }

  /** Strings of at most 100 bytes take at most 101 bytes each. */
  lemma {:induction false} BlobSizeOfShortStrings(strs: seq<seq<byte>>)
    requires forall i :: 0 <= i < |strs| ==> |strs[i]| <= 100
    ensures BlobSize(strs) <= 101 * |strs|
  {
    if strs != [] {
      BlobSizeOfShortStrings(strs[1..]);
    }
  }

  /** The strings with their terminating NULs. */
  function Blob(strs: seq<seq<byte>>): (b: seq<byte>)
    ensures |b| == BlobSize(strs)
  {
    if strs == [] then [] else strs[0] + [0] + Blob(strs[1..])
  }

  /** Length and offset of each string, the first string being at `start`. */
  function TableWords(strs: seq<seq<byte>>, start: nat): (ws: seq<nat>)
    ensures |ws| == 2 * |strs|
    ensures forall i :: 0 <= i < |strs| ==> ws[2 * i] == |strs[i]|
    ensures start + BlobSize(strs) <= WORD_LIMIT ==> AllWords(ws)
  {
    if strs == [] then []
    else
      var rest := TableWords(strs[1..], start + |strs[0]| + 1);
      assert forall i :: 1 <= i < |strs| ==> strs[i] == strs[1..][i - 1];
      [|strs[0]|, start] + rest
  }

  /** Every length and offset of the laid-out catalog fits in 32 bits. */
  predicate Encodable(msgs: seq<Message>) {
    HEADER_SIZE + 16 * |msgs| + BlobSize(Originals(msgs)) + BlobSize(Translations(msgs)) < WORD_LIMIT
  }

  /** Three runs of words, one after the other. */
  lemma ConcatWords(a: seq<nat>, b: seq<nat>, c: seq<nat>)
    requires AllWords(a) && AllWords(b) && AllWords(c)
    ensures AllWords(a + b + c)
    ensures forall k :: 0 <= k < |b| ==> (a + b + c)[|a| + k] == b[k]
    ensures forall k :: 0 <= k < |c| ==> (a + b + c)[|a| + |b| + k] == c[k]
  {
  }

  /**
   * The seven header words: magic, revision 0, the number of strings, the
   * offsets of the two tables, and an empty hash table placed after them.
   */
  function HeadWords(msgs: seq<Message>): (ws: seq<nat>)
    requires Encodable(msgs)
    ensures AllWords(ws) && |ws| == 7
    ensures ws[0] == MAGIC && ws[2] == |msgs| && ws[3] == HEADER_SIZE && ws[4] == HEADER_SIZE + 8 * |msgs|
  {
    [MAGIC, 0, |msgs|, HEADER_SIZE, HEADER_SIZE + 8 * |msgs|, 0, HEADER_SIZE + 16 * |msgs|]
  }

  /** The table of original strings, which are stored right after the two tables. */
  function OrigTable(msgs: seq<Message>): (ws: seq<nat>)
    requires Encodable(msgs)
    ensures AllWords(ws) && |ws| == 2 * |msgs|
    ensures forall i :: 0 <= i < |msgs| ==> ws[2 * i] == |msgs[i].msgid|
  {
    TableWords(Originals(msgs), HEADER_SIZE + 16 * |msgs|)
  }

  /** The table of translations, which are stored after the original strings. */
  function TransTable(msgs: seq<Message>): (ws: seq<nat>)
    requires Encodable(msgs)
    ensures AllWords(ws) && |ws| == 2 * |msgs|
    ensures forall i :: 0 <= i < |msgs| ==> ws[2 * i] == |msgs[i].msgstr|
  {
    TableWords(Translations(msgs), HEADER_SIZE + 16 * |msgs| + BlobSize(Originals(msgs)))
  }

  /** The words of the header and of the two descriptor tables. */
  function LayoutWords(msgs: seq<Message>): (ws: seq<nat>)
    requires Encodable(msgs)
    ensures AllWords(ws) && |ws| == 7 + 4 * |msgs|
    ensures ws[0] == MAGIC && ws[2] == |msgs|
    ensures ws[3] == HEADER_SIZE && ws[4] == HEADER_SIZE + 8 * |msgs|
  {
    ConcatWords(HeadWords(msgs), OrigTable(msgs), TransTable(msgs));
    HeadWords(msgs) + OrigTable(msgs) + TransTable(msgs)
  }

  /** Descriptor `i` of the table of originals holds the length of msgid `i`. */
  lemma OrigDescriptorAt(msgs: seq<Message>, i: nat)
    requires Encodable(msgs) && i < |msgs|
    ensures LayoutWords(msgs)[7 + 2 * i] == |msgs[i].msgid|
  {
    ConcatWords(HeadWords(msgs), OrigTable(msgs), TransTable(msgs));
    assert LayoutWords(msgs)[7 + 2 * i] == OrigTable(msgs)[2 * i];
  }

  /** Descriptor `i` of the table of translations holds the length of msgstr `i`. */
  lemma TransDescriptorAt(msgs: seq<Message>, i: nat)
    requires Encodable(msgs) && i < |msgs|
    ensures LayoutWords(msgs)[7 + 2 * |msgs| + 2 * i] == |msgs[i].msgstr|
  {
    ConcatWords(HeadWords(msgs), OrigTable(msgs), TransTable(msgs));
    assert LayoutWords(msgs)[7 + 2 * |msgs| + 2 * i] == TransTable(msgs)[2 * i];
  }

  /** The strings after the tables: the originals, then the translations. */
  function StringData(msgs: seq<Message>): seq<byte> {
    Blob(Originals(msgs)) + Blob(Translations(msgs))
  }

  /** The catalog file for `msgs`, every word written in `order`. */
  function Encode(msgs: seq<Message>, order: ByteOrder): seq<byte>
    requires Encodable(msgs)
  {
    Words(LayoutWords(msgs), order) + StringData(msgs)
  }

  /** Word `i` of the layout, read back from the encoded file. */
  lemma ReadLayoutWord(msgs: seq<Message>, order: ByteOrder, i: nat)
    requires Encodable(msgs) && i < 7 + 4 * |msgs|
    ensures ReadU32(Encode(msgs, order), 4 * i, order) == Some(LayoutWords(msgs)[i])
  {
    var rest := StringData(msgs);
    ReadWord(LayoutWords(msgs), rest, i, order);
  }

  /** The magic in big-endian order is the byte string 95 04 12 DE. */
  lemma MagicBigEndianBytes()
    ensures U32Bytes(MAGIC, BigEndian) == [0x95, 0x04, 0x12, 0xDE]
  {
    assert MAGIC == 0x950412 * 256 + 0xDE;
    assert 0x950412 == 0x9504 * 256 + 0x12;
    assert 0x9504 == 0x95 * 256 + 0x04;
  }

  /** The first four bytes of encoded words are those of the first word. */
  lemma WordsStart(ws: seq<nat>, rest: seq<byte>, order: ByteOrder)
    requires AllWords(ws) && ws != []
    ensures (Words(ws, order) + rest)[..4] == U32Bytes(ws[0], order)
  {
    var first, w := U32Bytes(ws[0], order), Words(ws, order);
    assert w == first + Words(ws[1..], order);
    assert w[..4] == first;
    assert (w + rest)[..4] == w[..4];
  }

  /** An encoded file opens with the magic, in the order it was written in. */
  lemma EncodeStartsWithMagic(msgs: seq<Message>, order: ByteOrder)
    requires Encodable(msgs)
    ensures Encode(msgs, order)[..4] == U32Bytes(MAGIC, order)
  {
    var rest := StringData(msgs);
    WordsStart(LayoutWords(msgs), rest, order);
  }

  /** The byte order the magic of an encoded file announces is the one it was written in. */
  lemma MagicAnnouncesOrder(msgs: seq<Message>, order: ByteOrder)
    requires Encodable(msgs)
    ensures DetectByteOrder(Encode(msgs, order)) == Some(order)
  {
    var data := Encode(msgs, order);
    EncodeStartsWithMagic(msgs, order);
    ReadBeforeSuffix(data[..4], data[4..], 0, LittleEndian);
    assert data == data[..4] + data[4..];
    if order == BigEndian {
      MagicBigEndianBytes();
      assert ReadU32(data[..4], 0, LittleEndian) == Some(MAGIC_SWAPPED);
    }
  }

  /** The header the decoder sees in an encoded file. */
  function EncodedHeader(msgs: seq<Message>, order: ByteOrder): Header {
    Header(order, |msgs|, HEADER_SIZE, HEADER_SIZE + 8 * |msgs|)
  }

  lemma HeaderOfEncoded(msgs: seq<Message>, order: ByteOrder)
    requires Encodable(msgs)
    ensures ParseHeader(Encode(msgs, order)) == Some(EncodedHeader(msgs, order))
  {
    MagicAnnouncesOrder(msgs, order);
    ReadLayoutWord(msgs, order, 2);
    ReadLayoutWord(msgs, order, 3);
    ReadLayoutWord(msgs, order, 4);
  }

  /** A length field is the word at the offset of its descriptor. */
  lemma LengthFieldsAt(data: seq<byte>, h: Header, i: nat, k: nat, v: nat)
    requires ReadU32(data, 4 * k, h.order) == Some(v)
    ensures h.origTable + 8 * i == 4 * k ==> OrigLength(data, h, i) == Some(v)
    ensures h.transTable + 8 * i == 4 * k ==> TransLength(data, h, i) == Some(v)
  {
  }

  /** The original-length field of entry `i` of an encoded file is the length of its msgid. */
  lemma OrigLengthOfEncoded(msgs: seq<Message>, order: ByteOrder, i: nat)
    requires Encodable(msgs) && i < |msgs|
    ensures OrigLength(Encode(msgs, order), EncodedHeader(msgs, order), i) == Some(|msgs[i].msgid|)
  {
    var k := 7 + 2 * i;
    ReadLayoutWord(msgs, order, k);
    OrigDescriptorAt(msgs, i);
    LengthFieldsAt(Encode(msgs, order), EncodedHeader(msgs, order), i, k, |msgs[i].msgid|);
  }

  /** The translated-length field of entry `i` of an encoded file is the length of its msgstr. */
  lemma TransLengthOfEncoded(msgs: seq<Message>, order: ByteOrder, i: nat)
    requires Encodable(msgs) && i < |msgs|
    ensures TransLength(Encode(msgs, order), EncodedHeader(msgs, order), i) == Some(|msgs[i].msgstr|)
  {
    var k := 7 + 2 * |msgs| + 2 * i;
    ReadLayoutWord(msgs, order, k);
    TransDescriptorAt(msgs, i);
    LengthFieldsAt(Encode(msgs, order), EncodedHeader(msgs, order), i, k, |msgs[i].msgstr|);
  }

  /** The tally of a list with one more message. */
  lemma TallyStep(msgs: seq<Message>, m: Message)
    ensures Tally(msgs + [m]) ==
      if m.msgid == [] then Tally(msgs)
      else Counts(if m.msgstr != [] then Tally(msgs).translated + 1 else Tally(msgs).translated,
                  Tally(msgs).total + 1)
  {
    assert (msgs + [m])[..|msgs|] == msgs;
  }

  /**
   * Whatever the bytes, a walk whose length fields are those of `msgs`
   * counts the first `k` of them as `Tally` does.
   */
  lemma {:induction false} WalkMatchesTally(data: seq<byte>, h: Header, msgs: seq<Message>, k: nat)
    requires k <= |msgs|
    requires forall i :: 0 <= i < |msgs| ==>
      OrigLength(data, h, i) == Some(|msgs[i].msgid|) && TransLength(data, h, i) == Some(|msgs[i].msgstr|)
    ensures Walk(data, h, k) == Some(Tally(msgs[..k]))
  {
    if k > 0 {
      var i := k - 1;
      var c, m := Tally(msgs[..i]), msgs[i];
      var next := if m.msgid == [] then c
                  else Counts(if m.msgstr != [] then c.translated + 1 else c.translated, c.total + 1);
      WalkMatchesTally(data, h, msgs, i);
      WalkStep(data, h, i, c, |m.msgid|, |m.msgstr|);
      assert Walk(data, h, k) == Some(next);
      Seqs.PrefixStep(msgs, k);
      TallyStep(msgs[..i], m);
      assert Tally(msgs[..k]) == next;
    }
  }

  /**
   * Decoding an encoded catalog gives the number of messages with a
   * non-empty original and, among them, of those with a non-empty
   * translation.
   */
  lemma DecodeEncoded(msgs: seq<Message>, order: ByteOrder)
    requires Encodable(msgs)
    ensures Decode(Encode(msgs, order)) == Tally(msgs)
  {
    var data, h := Encode(msgs, order), EncodedHeader(msgs, order);
    HeaderOfEncoded(msgs, order);
    forall i | 0 <= i < |msgs|
      ensures OrigLength(data, h, i) == Some(|msgs[i].msgid|) && TransLength(data, h, i) == Some(|msgs[i].msgstr|)
    {
      OrigLengthOfEncoded(msgs, order, i);
      TransLengthOfEncoded(msgs, order, i);
    }
    WalkMatchesTally(data, h, msgs, |msgs|);
    assert msgs[..|msgs|] == msgs;
  }

  /** A big-endian catalog decodes to the same counts as its little-endian twin. */
  lemma ByteOrderDoesNotMatter(msgs: seq<Message>)
    requires Encodable(msgs)
    ensures Decode(Encode(msgs, BigEndian)) == Decode(Encode(msgs, LittleEndian))
  {
    DecodeEncoded(msgs, BigEndian);
    DecodeEncoded(msgs, LittleEndian);
  }

  /** A big-endian catalog starts with the bytes 95 04 12 DE. */
  lemma BigEndianMagicBytes(msgs: seq<Message>)
    requires Encodable(msgs)
    ensures Encode(msgs, BigEndian)[..4] == [0x95, 0x04, 0x12, 0xDE]
  {
    EncodeStartsWithMagic(msgs, BigEndian);
    MagicBigEndianBytes();
  }

  /** The metadata entry followed by one untranslated message. */
  lemma TallyMetadataAndOneUntranslated(msgs: seq<Message>)
    requires |msgs| == 2 && msgs[0].msgid == [] && msgs[1].msgid != [] && msgs[1].msgstr == []
    ensures Tally(msgs) == Counts(0, 1)
  {
    TallyStep([], msgs[0]);
    assert [] + [msgs[0]] == msgs[..1];
    TallyStep(msgs[..1], msgs[1]);
    assert msgs[..1] + [msgs[1]] == msgs;
  }

  /** The metadata entry, a translated message and an untranslated one. */
  lemma TallyOneOfTwoTranslated(msgs: seq<Message>)
    requires |msgs| == 3 && msgs[0].msgid == []
    requires msgs[1].msgid != [] && msgs[1].msgstr != [] && msgs[2].msgid != [] && msgs[2].msgstr == []
    ensures Tally(msgs) == Counts(1, 2)
  {
    TallyStep([], msgs[0]);
    assert [] + [msgs[0]] == msgs[..1];
    TallyStep(msgs[..1], msgs[1]);
    assert msgs[..1] + [msgs[1]] == msgs[..2];
    TallyStep(msgs[..2], msgs[2]);
    assert msgs[..2] + [msgs[2]] == msgs;
  }

  /**
   * Two entries: the metadata entry (original length 0, whatever its
   * translation) and a message of length 5 with an empty translation. One
   * message, none translated.
   */
  lemma MetadataAndOneUntranslated(msgs: seq<Message>)
    requires |msgs| == 2 && Encodable(msgs)
    requires |msgs[0].msgid| == 0
    requires |msgs[1].msgid| == 5 && |msgs[1].msgstr| == 0
    ensures Decode(Encode(msgs, LittleEndian)) == Counts(0, 1)
  {
    TallyMetadataAndOneUntranslated(msgs);
    DecodeEncoded(msgs, LittleEndian);
  }

  /**
   * Three entries with original lengths 0, 4, 6 and translated lengths 0,
   * 4, 0: two messages, one of them translated.
   */
  lemma OneOfTwoTranslated(msgs: seq<Message>)
    requires |msgs| == 3
    requires |msgs[0].msgid| == 0 && |msgs[1].msgid| == 4 && |msgs[2].msgid| == 6
    requires |msgs[0].msgstr| == 0 && |msgs[1].msgstr| == 4 && |msgs[2].msgstr| == 0
    ensures Encodable(msgs)
    ensures Decode(Encode(msgs, LittleEndian)) == Counts(1, 2)
  {
    BlobSizeOfShortStrings(Originals(msgs));
    BlobSizeOfShortStrings(Translations(msgs));
    TallyOneOfTwoTranslated(msgs);
    DecodeEncoded(msgs, LittleEndian);
  }

  /**
   * A little-endian file that is only the 28-byte header: one entry, the
   * table of originals at 20 and the table of translations at 28. Entry 0
   * has original length 0, the metadata entry, but its translation length is
   * read before it is skipped, that read falls past the end, and the whole
   * file decodes to (0, 0).
   */
  lemma MetadataTranslationReadIsChecked()
    ensures var data := Words([MAGIC, 0, 1, 20, 28, 0, 0], LittleEndian);
            var h := Header(LittleEndian, 1, 20, 28);
            |data| == 28 && ParseHeader(data) == Some(h) && OrigLength(data, h, 0) == Some(0)
            && TransLength(data, h, 0).None? && Decode(data) == Counts(0, 0)
  {
    var ws := [MAGIC, 0, 1, 20, 28, 0, 0];
    var data := Words(ws, LittleEndian);
    var h := Header(LittleEndian, 1, 20, 28);
    assert data + [] == data;
    assert ParseHeader(data) == Some(h) by {
      ReadWord(ws, [], 0, LittleEndian);
      ReadWord(ws, [], 2, LittleEndian);
      ReadWord(ws, [], 3, LittleEndian);
      ReadWord(ws, [], 4, LittleEndian);
    }
    assert OrigLength(data, h, 0) == Some(0) by {
      ReadWord(ws, [], 5, LittleEndian);
    }
    AnyFailedReadDecodesToZero(data, h, 0);
  }
}
