/** The on-disk format of the jbd2 log, as sequences of 32-bit big-endian words: descriptor blocks
    with their tags, escaped data blocks, revoke blocks and commit blocks, each with the parser
    recovery uses on it. Journal checksum features are off. */
module JournalFormat {

  type Block = seq<nat>

  const MAGIC: nat := 0xc03b3998
  const DESCRIPTOR_BLOCK: nat := 1
  const COMMIT_BLOCK: nat := 2
  const REVOKE_BLOCK: nat := 5

  const HEADER_WORDS: nat := 3
  const UUID_WORDS: nat := 4

  /** Block size in 32-bit words, and whether the 64-bit feature is on. */
  datatype Geometry = Geometry(blockWords: nat, wide: bool) {
    predicate Valid() { blockWords >= 256 }

    function TagWords(): nat { if wide then 3 else 2 }

    function RecordWords(): nat { if wide then 2 else 1 }

    /** The words of `n` tags, and of `n` revoke records. */
    function TagSpan(n: nat): nat { if wide then 3 * n else 2 * n }

    function RecordSpan(n: nat): nat { if wide then 2 * n else n }

    /** Block numbers the tags of this journal can name. */
    function MaxBlockNr(): nat { if wide then 0x1_0000_0000_0000_0000 else 0x1_0000_0000 }
  }

  datatype Write = Write(blocknr: nat, data: Block)

  datatype Tag = Tag(blocknr: nat, flags: nat)

  function Flags(escape: bool, sameUuid: bool, last: bool): nat {
    (if escape then 1 else 0) + (if sameUuid then 2 else 0) + (if last then 8 else 0)
  }

  predicate IsEscaped(flags: nat) { flags % 2 == 1 }

  predicate IsSameUuid(flags: nat) { flags / 2 % 2 == 1 }

  predicate IsLast(flags: nat) { flags / 8 % 2 == 1 }

  lemma FlagsRoundTrip(escape: bool, sameUuid: bool, last: bool)
    ensures var f := Flags(escape, sameUuid, last);
            IsEscaped(f) == escape && IsSameUuid(f) == sameUuid && IsLast(f) == last && f < 0x1_0000
  {
  }

  // ---------- blocks ----------

  function Header(blocktype: nat, tid: nat): Block { [MAGIC, blocktype, tid] }

  function Zeros(n: nat): Block { seq(n, i => 0) }

  function Pad(g: Geometry, words: Block): (b: Block)
    requires |words| <= g.blockWords
    ensures |b| == g.blockWords && words <= b
  {
    words + Zeros(g.blockWords - |words|)
  }

  predicate HasHeader(b: Block, blocktype: nat, tid: nat) {
    |b| >= HEADER_WORDS && b[..HEADER_WORDS] == Header(blocktype, tid)
  }

  /** What makes a recovery pass stop at a block while it expects transaction `tid`. */
  predicate EndsScan(b: Block, tid: nat) {
    || |b| < HEADER_WORDS
    || b[0] != MAGIC
    || b[2] != tid
    || b[1] !in {DESCRIPTOR_BLOCK, COMMIT_BLOCK, REVOKE_BLOCK}
  }

  // ---------- escaping ----------

  /** A data block that starts with the magic number goes to the log with its first word zeroed. */
  function Escape(data: Block): Block {
    if NeedsEscape(data) then data[0 := 0] else data
  }

  predicate NeedsEscape(data: Block) { |data| > 0 && data[0] == MAGIC }

  function Unescape(b: Block, flags: nat): Block {
    if IsEscaped(flags) && |b| > 0 then b[0 := MAGIC] else b
  }

  // ---------- tags ----------

  function TagWords(g: Geometry, t: Tag): (w: Block)
    ensures |w| == g.TagWords()
  {
    [t.blocknr % 0x1_0000_0000, t.flags] + (if g.wide then [t.blocknr / 0x1_0000_0000] else [])
  }

  function ReadTag(g: Geometry, b: Block, off: nat): Tag
    requires off + g.TagWords() <= |b|
  {
    Tag(b[off] + (if g.wide then b[off + 2] * 0x1_0000_0000 else 0), b[off + 1] % 0x1_0000)
  }

  /** The tag area as commit lays it out: the UUID follows the tag that does not reuse it. */
  function EncodeTags(g: Geometry, uuid: Block, tags: seq<Tag>): Block {
    if tags == [] then []
    else TagWords(g, tags[0]) + (if IsSameUuid(tags[0].flags) then [] else uuid) + EncodeTags(g, uuid, tags[1..])
  }

  /** The tag area as recovery walks it. */
  function ParseTags(g: Geometry, b: Block, off: nat): seq<Tag>
    decreases |b| - off
  {
    if off + g.TagWords() > |b| then []
    else
      var t := ReadTag(g, b, off);
      var next := off + g.TagWords() + (if IsSameUuid(t.flags) then 0 else UUID_WORDS);
      if IsLast(t.flags) then [t] else [t] + ParseTags(g, b, next)
  }

  predicate ValidTag(g: Geometry, t: Tag) {
    t.blocknr < g.MaxBlockNr() && t.flags < 0x1_0000
  }

  /** The last tag, and only it, says so. */
  predicate EndsOnce(tags: seq<Tag>) {
    tags != [] && forall i :: 0 <= i < |tags| ==> (IsLast(tags[i].flags) <==> i == |tags| - 1)
  }

  lemma ReadTagWords(g: Geometry, t: Tag, b: Block, off: nat)
    requires ValidTag(g, t) && off + g.TagWords() <= |b|
    requires b[off..off + g.TagWords()] == TagWords(g, t)
    ensures ReadTag(g, b, off) == t
  {
    var w := b[off..off + g.TagWords()];
    assert w[0] == b[off] && w[1] == b[off + 1];
    if g.wide { assert w[2] == b[off + 2]; }
  }

  /** Parsing an encoded tag area gives the tags back, whatever follows it in the block. */
  lemma {:induction false} ParseEncodedTags(g: Geometry, uuid: Block, tags: seq<Tag>, b: Block, off: nat)
    requires |uuid| == UUID_WORDS && EndsOnce(tags)
    requires forall i :: 0 <= i < |tags| ==> ValidTag(g, tags[i])
    requires off <= |b| && EncodeTags(g, uuid, tags) <= b[off..]
    ensures ParseTags(g, b, off) == tags
  {
    var t := tags[0];
    var head := TagWords(g, t);
    var id := if IsSameUuid(t.flags) then [] else uuid;
    var rest := EncodeTags(g, uuid, tags[1..]);
    assert EncodeTags(g, uuid, tags) == head + id + rest;
    var next := off + |head| + |id|;
    assert b[off..off + |head|] == head by { assert (head + id + rest)[..|head|] == head; }
    ReadTagWords(g, t, b, off);
    if |tags| > 1 {
      assert b[next..] == b[off..][|head| + |id|..];
      assert rest == (head + id + rest)[|head| + |id|..];
      ParseEncodedTags(g, uuid, tags[1..], b, next);
    }
  }

  // ---------- descriptor blocks ----------

  function TagFor(w: Write, first: bool, last: bool): Tag {
    Tag(w.blocknr, Flags(NeedsEscape(w.data), !first, last))
  }

  function TagsFor(ws: seq<Write>): (tags: seq<Tag>)
    ensures |tags| == |ws|
  {
    seq(|ws|, i requires 0 <= i < |ws| => TagFor(ws[i], i == 0, i == |ws| - 1))
  }

  predicate ValidWrite(g: Geometry, w: Write) {
    w.blocknr < g.MaxBlockNr() && |w.data| == g.blockWords
  }

  predicate ValidBatch(g: Geometry, ws: seq<Write>) {
    && ws != []
    && HEADER_WORDS + UUID_WORDS + g.TagSpan(|ws|) <= g.blockWords
    && forall i :: 0 <= i < |ws| ==> ValidWrite(g, ws[i])
  }

  lemma {:induction false} EncodedLength(g: Geometry, uuid: Block, tags: seq<Tag>)
    requires |uuid| == UUID_WORDS
    requires forall i :: 1 <= i < |tags| ==> IsSameUuid(tags[i].flags)
    ensures |EncodeTags(g, uuid, tags)| <= g.TagSpan(|tags|) + UUID_WORDS
    ensures tags != [] && IsSameUuid(tags[0].flags) ==> |EncodeTags(g, uuid, tags)| == g.TagSpan(|tags|)
  {
    if tags != [] {
      EncodedLength(g, uuid, tags[1..]);
    }
  }

  function Descriptor(g: Geometry, uuid: Block, tid: nat, ws: seq<Write>): (b: Block)
    requires g.Valid() && |uuid| == UUID_WORDS && ValidBatch(g, ws)
    ensures |b| == g.blockWords && HasHeader(b, DESCRIPTOR_BLOCK, tid)
  {
    EncodedLength(g, uuid, TagsFor(ws));
    Pad(g, Header(DESCRIPTOR_BLOCK, tid) + EncodeTags(g, uuid, TagsFor(ws)))
  }

  /** Recovery reads from a descriptor exactly the tags commit put there. */
  lemma DescriptorRoundTrip(g: Geometry, uuid: Block, tid: nat, ws: seq<Write>)
    requires g.Valid() && |uuid| == UUID_WORDS && ValidBatch(g, ws)
    ensures ParseTags(g, Descriptor(g, uuid, tid, ws), HEADER_WORDS) == TagsFor(ws)
  {
    var tags := TagsFor(ws);
    var b := Descriptor(g, uuid, tid, ws);
    forall i | 0 <= i < |tags| ensures ValidTag(g, tags[i]) && (IsLast(tags[i].flags) <==> i == |tags| - 1) {
      assert ValidWrite(g, ws[i]);
      FlagsRoundTrip(NeedsEscape(ws[i].data), i != 0, i == |ws| - 1);
    }
    EncodedLength(g, uuid, tags);
    var e := EncodeTags(g, uuid, tags);
    assert b[HEADER_WORDS..] == e + Zeros(g.blockWords - HEADER_WORDS - |e|);
    ParseEncodedTags(g, uuid, tags, b, HEADER_WORDS);
  }

  /** A logged block comes back unchanged, and its log copy never looks like a journal block. */
  lemma EscapeRoundTrip(w: Write, first: bool, last: bool)
    ensures Unescape(Escape(w.data), TagFor(w, first, last).flags) == w.data
    ensures forall tid: nat :: EndsScan(Escape(w.data), tid)
  {
    FlagsRoundTrip(NeedsEscape(w.data), !first, last);
  }

  // ---------- revoke blocks ----------

  function EncodeRecords(g: Geometry, blocks: seq<nat>): (w: Block)
    ensures |w| == g.RecordSpan(|blocks|)
  {
    if blocks == [] then []
    else
      (if g.wide then [blocks[0] / 0x1_0000_0000, blocks[0] % 0x1_0000_0000] else [blocks[0]])
      + EncodeRecords(g, blocks[1..])
  }

  /** The records between byte offsets `offset` and `max`. */
  function ParseRecords(g: Geometry, b: Block, offset: nat, max: nat): seq<nat>
    requires offset % 4 == 0 && max <= 4 * |b|
    decreases max - offset
  {
    if offset + 4 * g.RecordWords() > max then []
    else [ReadRecord(g, b, offset / 4)] + ParseRecords(g, b, offset + 4 * g.RecordWords(), max)
  }

  function ReadRecord(g: Geometry, b: Block, word: nat): nat
    requires word + g.RecordWords() <= |b|
  {
    if g.wide then b[word] * 0x1_0000_0000 + b[word + 1] else b[word]
  }

  predicate ValidRevokes(g: Geometry, blocks: seq<nat>) {
    && HEADER_WORDS + 1 + g.RecordSpan(|blocks|) <= g.blockWords
    && forall i :: 0 <= i < |blocks| ==> blocks[i] < g.MaxBlockNr()
  }

  /** Byte count stored in the revoke header: the offset just past the last record. */
  function RevokeBytes(g: Geometry, count: nat): nat {
    4 * (HEADER_WORDS + 1 + g.RecordSpan(count))
  }

  function RevokeBlock(g: Geometry, tid: nat, blocks: seq<nat>): (b: Block)
    requires g.Valid() && ValidRevokes(g, blocks)
    ensures |b| == g.blockWords && HasHeader(b, REVOKE_BLOCK, tid)
  {
    Pad(g, Header(REVOKE_BLOCK, tid) + [RevokeBytes(g, |blocks|)] + EncodeRecords(g, blocks))
  }

  lemma {:induction false} ParseEncodedRecords(g: Geometry, blocks: seq<nat>, b: Block, word: nat, max: nat)
    requires forall i :: 0 <= i < |blocks| ==> blocks[i] < g.MaxBlockNr()
    requires max == 4 * (word + g.RecordSpan(|blocks|)) <= 4 * |b|
    requires EncodeRecords(g, blocks) <= b[word..]
    ensures ParseRecords(g, b, 4 * word, max) == blocks
  {
    if blocks != [] {
      RecordAt(g, blocks, b, word);
      ParseEncodedRecords(g, blocks[1..], b, word + g.RecordWords(), max);
      ParseStep(g, b, word, max);
    }
  }

  lemma ParseStep(g: Geometry, b: Block, word: nat, max: nat)
    requires 4 * (word + g.RecordWords()) <= max <= 4 * |b|
    ensures ParseRecords(g, b, 4 * word, max) == [ReadRecord(g, b, word)] + ParseRecords(g, b, 4 * (word + g.RecordWords()), max)
  {
  }

  /** The first record, and the others behind it. */
  lemma RecordAt(g: Geometry, blocks: seq<nat>, b: Block, word: nat)
    requires blocks != [] && blocks[0] < g.MaxBlockNr()
    requires word + g.RecordSpan(|blocks|) <= |b| && EncodeRecords(g, blocks) <= b[word..]
    ensures ReadRecord(g, b, word) == blocks[0] && EncodeRecords(g, blocks[1..]) <= b[word + g.RecordWords()..]
  {
    var e, rw := EncodeRecords(g, blocks), g.RecordWords();
    assert EncodeRecords(g, blocks[1..]) == e[rw..];
    assert b[word + rw..] == b[word..][rw..];
    assert b[word] == b[word..][0] == e[0];
    if g.wide { assert b[word + 1] == b[word..][1] == e[1]; }
  }

  lemma RevokeRoundTrip(g: Geometry, tid: nat, blocks: seq<nat>)
    requires g.Valid() && ValidRevokes(g, blocks)
    ensures var b := RevokeBlock(g, tid, blocks);
            b[3] <= 4 * g.blockWords && ParseRecords(g, b, 4 * (HEADER_WORDS + 1), b[3]) == blocks
  {
    var b := RevokeBlock(g, tid, blocks);
    var e := EncodeRecords(g, blocks);
    assert b[HEADER_WORDS + 1..] == e + Zeros(g.blockWords - HEADER_WORDS - 1 - |e|);
    ParseEncodedRecords(g, blocks, b, HEADER_WORDS + 1, b[3]);
  }

  // ---------- commit blocks ----------

  /** Nothing but the header matters to recovery; the commit time is carried along. */
  function CommitBlock(g: Geometry, tid: nat, seconds: nat, nanoseconds: nat): (b: Block)
    requires g.Valid()
    ensures |b| == g.blockWords && HasHeader(b, COMMIT_BLOCK, tid)
  {
    Pad(g, Header(COMMIT_BLOCK, tid) + Zeros(9)
           + [seconds / 0x1_0000_0000, seconds % 0x1_0000_0000, nanoseconds])
  }

  // ---------- the units a transaction is made of ----------

  datatype LogUnit =
    | Revokes(blocks: seq<nat>)
    | Writes(writes: seq<Write>)
    | Commit(seconds: nat, nanoseconds: nat)

  predicate ValidUnit(g: Geometry, u: LogUnit) {
    match u
    case Revokes(blocks) => ValidRevokes(g, blocks)
    case Writes(ws) => ValidBatch(g, ws)
    case Commit(_, _) => true
  }

  /** The first block of a unit. */
  function UnitHead(g: Geometry, uuid: Block, tid: nat, u: LogUnit): (b: Block)
    requires g.Valid() && |uuid| == UUID_WORDS && ValidUnit(g, u)
    ensures |b| == g.blockWords
  {
    match u
    case Revokes(blocks) => RevokeBlock(g, tid, blocks)
    case Writes(ws) => Descriptor(g, uuid, tid, ws)
    case Commit(s, ns) => CommitBlock(g, tid, s, ns)
  }

  function UnitSize(u: LogUnit): nat {
    1 + if u.Writes? then |u.writes| else 0
  }

  /** All blocks of a unit, in log order. */
  function EncodeUnit(g: Geometry, uuid: Block, tid: nat, u: LogUnit): (bs: seq<Block>)
    requires g.Valid() && |uuid| == UUID_WORDS && ValidUnit(g, u)
    ensures |bs| == UnitSize(u)
  {
    [UnitHead(g, uuid, tid, u)]
    + (if u.Writes? then seq(|u.writes|, i requires 0 <= i < |u.writes| => Escape(u.writes[i].data)) else [])
  }

  /** Whatever one transaction leaves in the log stops a pass that expects another transaction there. */
  lemma StaleBlocksEndScan(g: Geometry, uuid: Block, tid: nat, u: LogUnit, i: nat, expected: nat)
    requires g.Valid() && |uuid| == UUID_WORDS && ValidUnit(g, u)
    requires i < UnitSize(u) && tid != expected
    ensures EndsScan(EncodeUnit(g, uuid, tid, u)[i], expected)
  {
    if i == 0 {
      var b := UnitHead(g, uuid, tid, u);
      assert b[2] == b[..HEADER_WORDS][2] == tid;
    } else {
      EscapeRoundTrip(u.writes[i - 1], true, true);
    }
  }
}
