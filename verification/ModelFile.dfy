/** A model from vocabulary to file and back: `Writer.call` of format/writer.rb packs hash table, tries and
    tables and writes the container; `validate` of se_format.c reads the settings from the header and
    the three structures from their sections.

    The list of tokens is handed to the loader only so that its checks can be stated; it reads no token
    from it.
  */
module ModelFile {
  import opened Utf8
  import opened Words
  import opened Tokenizer
  import opened Container
  import Payloads
  import NormTables
  import VocabHash
  import ByteTrie
  import WordPiece
  import TokenState
  import Opening
  import Reference

  // ----- what a model is meant to do -----

  datatype UnkPolicy = IncludeUnk | DropUnk
  datatype LimitPolicy = LimitUsable | LimitRaw
  datatype EmptyPolicy = ZeroVector | RaiseEmpty
  datatype Normalization = Unnormalized | L2

  datatype Description = Description(
    dim: int, normalization: Normalization, maxTokens: int, limit: LimitPolicy, unk: UnkPolicy, empty: EmptyPolicy,
    cleanText: bool, chinese: bool, stripAccents: bool, lowerCase: bool, addSpecialTokens: bool, maxInputChars: int,
    added: set<AddedKind>, padId: int, unkId: int, clsId: int, sepId: int, maskId: int)

  /** The model described, by its meaning: no number of the file format occurs here. */
  function Described(d: Description, tokens: seq<seq<byte>>, tables: NormTables.Tables): Model {
    Model(d.cleanText, d.chinese, d.stripAccents, d.lowerCase, tables, tokens,
          WordPiece.Limits(
            Natural(d.maxInputChars), WordPiece.Window(tokens, Natural(d.maxInputChars)), Natural(d.unkId)),
          d.added,
          map[PAD := Natural(d.padId), CLS := Natural(d.clsId), SEP := Natural(d.sepId), MASK := Natural(d.maskId)],
          d.limit.LimitRaw?, d.unk.DropUnk?, d.empty.RaiseEmpty?)
  }

  function Natural(v: int): nat { if v < 0 then 0 else v }

  // ----- the converter's numbers -----

  /** The values of format/constants.rb. */
  function NormalizationNumber(n: Normalization): int { match n case Unnormalized => 0 case L2 => 1 }
  function LimitNumber(l: LimitPolicy): int { match l case LimitUsable => 2 case LimitRaw => 3 }
  function UnkNumber(u: UnkPolicy): int { match u case IncludeUnk => 0 case DropUnk => 1 }
  function EmptyNumber(e: EmptyPolicy): int { match e case ZeroVector => 0 case RaiseEmpty => 1 }

  /** STANDARD_SPECIAL_TOKENS, or-ed together. */
  function MaskOf(added: set<AddedKind>): nat {
    (if PAD in added then 1 else 0) + (if UNK in added then 2 else 0) + (if CLS in added then 4 else 0)
    + (if SEP in added then 8 else 0) + (if MASK in added then 16 else 0)
  }

  /** `format_meta` with `runtime_meta`. */
  function MetaOf(d: Description, tokens: seq<seq<byte>>): Meta {
    Meta(d.dim, NormalizationNumber(d.normalization), d.maxTokens, LimitNumber(d.limit), UnkNumber(d.unk),
         EmptyNumber(d.empty), d.maxInputChars, d.padId, d.unkId, d.clsId, d.sepId, d.maskId,
         d.addSpecialTokens, d.lowerCase, d.stripAccents, d.chinese, d.cleanText,
         WordPiece.MaxTokenChars(tokens), MaskOf(d.added), WordPiece.PREFIX)
  }

  // ----- the loader's numbers -----

  const SE_TRUNCATE_RAW_IDS_BEFORE_UNK_DROP: nat := 3
  const SE_UNK_DROP: nat := 1
  const SE_EMPTY_RAISE: nat := 1
  const SE_ADDED_PAD: nat := 1
  const SE_ADDED_UNK: nat := 2
  const SE_ADDED_CLS: nat := 4
  const SE_ADDED_SEP: nat := 8
  const SE_ADDED_MASK: nat := 16

  function AddedBit(k: AddedKind): (r: nat)
    ensures r > 0
  {
    match k
    case PAD => SE_ADDED_PAD
    case UNK => SE_ADDED_UNK
    case CLS => SE_ADDED_CLS
    case SEP => SE_ADDED_SEP
    case MASK => SE_ADDED_MASK
  }

  function EnabledBy(mask: nat): set<AddedKind> { set k: AddedKind | mask / AddedBit(k) % 2 == 1 }

  /** The loader's defaults for the two lengths. */
  function LimitsOf(maxInputChars: nat, maxTokenChars: nat, unkId: nat): WordPiece.Limits {
    var input := if maxInputChars == 0 then 100 else maxInputChars;
    WordPiece.Limits(input, if maxTokenChars == 0 || maxTokenChars > input then input else maxTokenChars, unkId)
  }

  /** The model the loader takes from the header. */
  function Loaded(file: seq<byte>, tokens: seq<seq<byte>>, tables: NormTables.Tables): Model
    requires |file| >= HEADER_SIZE
  {
    Model(ReadU32(file, 76) != 0, ReadU32(file, 72) != 0, ReadU32(file, 68) != 0, ReadU32(file, 64) != 0,
          tables, tokens, LimitsOf(ReadU32(file, 80), ReadU32(file, 124), ReadU32(file, 88)),
          EnabledBy(ReadU32(file, 308)),
          map[PAD := ReadU32(file, 84), CLS := ReadU32(file, 92), SEP := ReadU32(file, 96), MASK := ReadU32(file, 100)],
          ReadU32(file, 48) == SE_TRUNCATE_RAW_IDS_BEFORE_UNK_DROP, ReadU32(file, 56) == SE_UNK_DROP,
          ReadU32(file, 60) == SE_EMPTY_RAISE)
  }

  lemma FiveBits(a: nat, b: nat, c: nat, d: nat, e: nat)
    requires a < 2 && b < 2 && c < 2 && d < 2 && e < 2
    ensures var mask := a + 2 * b + 4 * c + 8 * d + 16 * e;
            mask % 2 == a && mask / 2 % 2 == b && mask / 4 % 2 == c && mask / 8 % 2 == d && mask / 16 % 2 == e
  {
    var mask := a + 2 * b + 4 * c + 8 * d + 16 * e;
    assert mask / 2 == b + 2 * c + 4 * d + 8 * e;
    assert mask / 4 == c + 2 * d + 4 * e;
    assert mask / 8 == d + 2 * e;
    assert mask / 16 == e;
  }

  function BitIf(b: bool): nat { if b then 1 else 0 }

  lemma MaskRoundTrip(added: set<AddedKind>)
    ensures MaskOf(added) < 32 && EnabledBy(MaskOf(added)) == added
  {
    FiveBits(BitIf(PAD in added), BitIf(UNK in added), BitIf(CLS in added), BitIf(SEP in added), BitIf(MASK in added));
    forall k: AddedKind ensures k in EnabledBy(MaskOf(added)) <==> k in added {
      match k case PAD => case UNK => case CLS => case SEP => case MASK =>
    }
  }

  /** The lengths come back as they were, and the window is that of the vocabulary. */
  lemma LimitsRoundTrip(d: Description, tokens: seq<seq<byte>>)
    requires d.maxInputChars > 0 && d.unkId >= 0
    ensures LimitsOf(d.maxInputChars, WordPiece.MaxTokenChars(tokens), d.unkId) ==
              WordPiece.Limits(d.maxInputChars, WordPiece.Window(tokens, d.maxInputChars), d.unkId)
  {
    hide WordPiece.MaxTokenChars;
  }

  lemma MetaIsNatural(meta: Meta)
    requires PutsFit(MetaU32(meta))
    ensures 0 <= meta.maxInputChars && 0 <= meta.unkId && 0 <= meta.padId && 0 <= meta.clsId && 0 <= meta.sepId
    ensures 0 <= meta.maskId && 0 <= meta.dim
  {
    var puts := MetaU32(meta);
    assert puts[0] in puts && puts[6] in puts && puts[7] in puts && puts[8] in puts && puts[9] in puts;
    assert puts[10] in puts && puts[11] in puts;
  }

  /** What was described is what is loaded. */
  lemma SettingsRoundTrip(d: Description, im: Image, file: seq<byte>, tokens: seq<seq<byte>>,
                          tables: NormTables.Tables)
    requires im.meta == MetaOf(d, tokens) && d.maxInputChars > 0
    requires Fits(im) && |file| >= HEADER_SIZE && StartsWith(im, file)
    ensures Loaded(file, tokens, tables) == Described(d, tokens, tables)
  {
    MetaIsNatural(im.meta);
    MetaRead(im, file);
    LimitsRead(im, file);
    OtherRead(im, file);
    hide StartsWith, ReadU32, EnabledBy, LimitsOf, PutsFit, MaskOf, Fits, WordPiece.MaxTokenChars, WordPiece.Window;
    MaskRoundTrip(d.added);
    LimitsRoundTrip(d, tokens);
  }

  // ----- the words of the table section fit 32 bits -----

  lemma {:induction false} KeysAtLeast(entries: seq<NormTables.Entry>, k: nat)
    requires NormTables.SortedEntries(entries) && k < |entries|
    ensures entries[k].cp >= k
  {
    if k > 0 { KeysAtLeast(entries, k - 1); }
  }

  lemma {:induction false} RangesAtLeast(ranges: seq<NormTables.Range>, k: nat)
    requires NormTables.SortedRanges(ranges) && k < |ranges|
    ensures ranges[k].hi >= k
  {
    if k > 0 { RangesAtLeast(ranges, k - 1); }
  }

  lemma {:induction false} EntryWordsFit(entries: seq<NormTables.Entry>)
    requires forall k | 0 <= k < |entries| :: IsScalar(entries[k].cp) && |entries[k].out| <= 4
    ensures Fit32(NormTables.EntryWords(entries))
  {
    if entries != [] { EntryWordsFit(entries[..|entries| - 1]); }
  }

  lemma {:induction false} RangeWordsFit(ranges: seq<NormTables.Range>)
    requires forall k | 0 <= k < |ranges| :: ranges[k].lo <= ranges[k].hi < 0x11_0000
    ensures Fit32(NormTables.RangeWords(ranges))
  {
    if ranges != [] { RangeWordsFit(ranges[..|ranges| - 1]); }
  }

  lemma EntriesFit(entries: seq<NormTables.Entry>)
    requires NormTables.EntriesValid(entries)
    ensures |entries| <= 0x11_0000 && Fit32(NormTables.EntryWords(entries))
  {
    EntryWordsFit(entries);
    if entries != [] { KeysAtLeast(entries, |entries| - 1); }
  }

  lemma RangesFit(ranges: seq<NormTables.Range>)
    requires NormTables.RangesValid(ranges)
    ensures |ranges| <= 0x11_0000 && Fit32(NormTables.RangeWords(ranges))
  {
    RangeWordsFit(ranges);
    if ranges != [] { RangesAtLeast(ranges, |ranges| - 1); }
  }

  lemma TablesFit(t: NormTables.Tables)
    requires NormTables.TablesValid(t)
    ensures Fit32(NormTables.SectionWords(t))
  {
    hide NormTables.EntriesValid, NormTables.RangesValid, NormTables.EntryWords, NormTables.RangeWords;
    EntriesFit(t.lower);
    EntriesFit(t.nfd);
    RangesFit(t.mn);
    RangesFit(t.punct);
    RangesFit(t.control);
    RangesFit(t.whitespace);
  }

  // ----- sections -----

  function SectionBytes(file: seq<byte>, i: nat): seq<byte>
    requires |file| >= HEADER_SIZE && i < 7
  {
    var s := SectionAt(file, i);
    if s.End() <= |file| then file[s.off..s.End()] else []
  }

  /** Everything a section is packed from fits 32-bit words. */
  ghost predicate Packable(ix: WordPiece.Index, tables: NormTables.Tables) {
    && Fit32(VocabHash.SlotWords(ix.table.slots)) && NormTables.TablesValid(tables)
    && Fit32(NormTables.SectionWords(tables))
    && Fit32(ByteTrie.SectionWords(ix.root)) && Fit32(ByteTrie.SectionWords(ix.continuation))
  }

  /** What the sections of a written file hold. */
  ghost predicate Stores(file: seq<byte>, ix: WordPiece.Index, tables: NormTables.Tables)
    requires |file| >= HEADER_SIZE
  {
    && Packable(ix, tables)
    && SectionBytes(file, 0) == ix.table.strings
    && SectionBytes(file, 1) == WordsBytes(VocabHash.SlotWords(ix.table.slots))
    && SectionBytes(file, 3) == WordsBytes(NormTables.SectionWords(tables))
    && SectionBytes(file, 5) == WordsBytes(ByteTrie.SectionWords(ix.root))
    && SectionBytes(file, 6) == WordsBytes(ByteTrie.SectionWords(ix.continuation))
  }

  /** The header of a written file. */
  ghost predicate Heads(file: seq<byte>, im: Image, ix: WordPiece.Index, tokens: seq<seq<byte>>)
    requires |file| >= HEADER_SIZE
  {
    && Fits(im) && StartsWith(im, file)
    && im.vocabSize == |tokens| && im.hashSize == |ix.table.slots| && im.maxProbe == ix.table.maxProbe
  }

  lemma {:induction false} JoinedBytes(tokens: seq<seq<byte>>)
    ensures |VocabHash.Joined(tokens)| == ByteTrie.TotalBytes(tokens)
  {
    if tokens != [] { JoinedBytes(tokens[..|tokens| - 1]); }
  }

  /** Hash slots, tables and tries of every vocabulary that fits the format are 32-bit words. */
  lemma WordsFit(ix: WordPiece.Index, tokens: seq<seq<byte>>, tables: NormTables.Tables,
                 rootKeys: map<seq<byte>, nat>, bodyKeys: map<seq<byte>, nat>)
    requires WordPiece.Loaded(ix, tokens, rootKeys, bodyKeys) && NormTables.TablesValid(tables)
    requires ByteTrie.Sized(ix.root, tokens) && ByteTrie.Sized(ix.continuation, tokens)
    requires |VocabHash.Joined(tokens)| < SLOT_EMPTY
    ensures Packable(ix, tables)
  {
    Opening.FewerThanEmpty(tokens);
    hide VocabHash.FitsFormat, VocabHash.Indexes, ByteTrie.Represents, ByteTrie.RootKeys, ByteTrie.BodyKeys,
        ByteTrie.Sized, ByteTrie.WellFormed, ByteTrie.SectionWords, ByteTrie.TotalBytes, VocabHash.Joined, Fit32,
        NormTables.TablesValid, NormTables.SectionWords;
    VocabHash.IndexedFits(ix.table, tokens);
    TablesFit(tables);
    JoinedBytes(tokens);
    ByteTrie.BuiltTriesAreAccepted(ix.root, ix.continuation, rootKeys, bodyKeys, tokens, WordPiece.PREFIX);
    ByteTrie.SectionFits(ix.root, tokens);
    ByteTrie.SectionFits(ix.continuation, tokens);
  }

  function Blob(bytes: seq<byte>): Payload { Payload(|bytes|, [bytes]) }

  lemma BlobIsHonest(bytes: seq<byte>)
    ensures Honest(Blob(bytes)) && Payloads.Concat(Blob(bytes).chunks) == bytes
  {
    assert [bytes][..0] == [];
    assert Payloads.Concat([]) == [];
  }

  // ----- writing -----

  /** `payloads`: the seven sections in order. */
  function Parts(ix: WordPiece.Index, tables: NormTables.Tables, matrix: Payload, provenance: seq<byte>): seq<Payload>
    requires Packable(ix, tables)
  {
    [Blob(ix.table.strings), Blob(WordsBytes(VocabHash.SlotWords(ix.table.slots))), matrix,
     Blob(WordsBytes(NormTables.SectionWords(tables))), Blob(provenance),
     Blob(WordsBytes(ByteTrie.SectionWords(ix.root))), Blob(WordsBytes(ByteTrie.SectionWords(ix.continuation)))]
  }

  lemma PartsAreHonest(ix: WordPiece.Index, tables: NormTables.Tables, matrix: Payload, provenance: seq<byte>)
    requires Packable(ix, tables) && Honest(matrix)
    ensures forall p | p in Parts(ix, tables, matrix, provenance) :: Honest(p)
  {
    hide Honest, WordsBytes, VocabHash.SlotWords, NormTables.SectionWords, ByteTrie.SectionWords;
    forall bytes: seq<byte> ensures Honest(Blob(bytes)) { BlobIsHonest(bytes); }
    hide Blob;
  }

  lemma PartsAreStored(file: seq<byte>, ix: WordPiece.Index, tables: NormTables.Tables, matrix: Payload,
                       provenance: seq<byte>)
    requires |file| >= HEADER_SIZE && Packable(ix, tables)
    requires var parts := Parts(ix, tables, matrix, provenance);
             forall i: nat | i < 7 ::
               var s := SectionAt(file, i);
               s.End() <= |file| && file[s.off..s.End()] == Payloads.Concat(parts[i].chunks)
    ensures Stores(file, ix, tables)
  {
    hide WordsBytes, VocabHash.SlotWords, NormTables.SectionWords, ByteTrie.SectionWords, SectionAt, Payloads.Concat;
    forall bytes: seq<byte> ensures Payloads.Concat(Blob(bytes).chunks) == bytes { BlobIsHonest(bytes); }
    var parts := Parts(ix, tables, matrix, provenance);
    hide Blob;
    forall i: nat | i < 7 ensures SectionBytes(file, i) == Payloads.Concat(parts[i].chunks) { }
  }

  lemma SlotBytes(ix: WordPiece.Index, tables: NormTables.Tables, matrix: Payload, provenance: seq<byte>)
    requires Packable(ix, tables)
    ensures |Parts(ix, tables, matrix, provenance)| == 7
    ensures Parts(ix, tables, matrix, provenance)[1].bytesize == |ix.table.slots| * 16
    ensures Parts(ix, tables, matrix, provenance)[2] == matrix
  {
    hide NormTables.SectionWords, ByteTrie.SectionWords;
  }

  datatype WriteResult = File(bytes: seq<byte>) | Refused

  /** `Writer.call`. A repeated token or a header value that does not fit is refused; otherwise every section
      holds the words of what was built, and the header and section checks of the loader pass exactly when
      the settings are allowed and the matrix has its size. */
  method WriteModel(digest: seq<byte> -> seq<byte>, d: Description, tokens: seq<seq<byte>>, tables: NormTables.Tables,
                    matrix: Payload, provenance: seq<byte>, quotient: real)
    returns (r: WriteResult, ghost im: Image, ghost ix: WordPiece.Index,
             ghost rootKeys: map<seq<byte>, nat>, ghost bodyKeys: map<seq<byte>, nat>)
    requires IsDigest(digest) && Honest(matrix) && NormTables.TablesValid(tables)
    requires VocabHash.FitsFormat(tokens) && |VocabHash.Joined(tokens)| < SLOT_EMPTY
    requires VocabHash.RoundedQuotient(|tokens|, quotient)
    ensures r.File? ==> VocabHash.Distinct(tokens) && im.meta == MetaOf(d, tokens)
    ensures VocabHash.Distinct(tokens) ==> (r.File? <==> Fits(im))
    ensures r.File? ==> |r.bytes| >= HEADER_SIZE && WordPiece.Loaded(ix, tokens, rootKeys, bodyKeys)
                        && Heads(r.bytes, im, ix, tokens) && Stores(r.bytes, ix, tables)
    ensures r.File? && |r.bytes| < 0x1_0000_0000_0000_0000 ==>
              (Validate(r.bytes) == Accepted <==> Allowed(im) && matrix.bytesize == |tokens| * d.dim * 4)
  {
    hide VocabHash.FitsFormat, VocabHash.RoundedQuotient, VocabHash.Distinct, VocabHash.Joined, WordPiece.Loaded,
        NormTables.TablesValid, Packable, Parts, ByteTrie.Sized, Stores, Fits, Validate, Allowed, IsDigest, Honest,
        StartsWith, SectionAt, Payloads.Concat;
    var built;
    built, rootKeys, bodyKeys := WordPiece.BuildIndex(tokens, quotient);
    if built.None? {
      r, im, ix := Refused, *, *;
      return;
    }
    var index := built.value;
    ix := index;
    WordsFit(index, tokens, tables, rootKeys, bodyKeys);
    PartsAreHonest(index, tables, matrix, provenance);
    SlotBytes(index, tables, matrix, provenance);
    var parts := Parts(index, tables, matrix, provenance);
    var ok, file;
    ok, file, im := Write(digest, MetaOf(d, tokens), |tokens|, |index.table.slots|, index.table.maxProbe, parts);
    if !ok {
      r := Refused;
      return;
    }
    PartsAreStored(file, index, tables, matrix, provenance);
    r := File(file);
  }

  // ----- opening -----

  datatype OpenedModel = OpenedModel(m: Model, ix: WordPiece.Index)

  lemma ReadBack(bytes: seq<byte>, words: seq<nat>)
    requires Fit32(words) && bytes == WordsBytes(words)
    ensures |bytes| % 4 == 0 && ReadWords(bytes) == words
  {
    WordsRoundTrip(words);
    hide WordsBytes, ReadWords;
  }

  function ReadSlots(bytes: seq<byte>): seq<VocabHash.Slot>
    requires |bytes| % 4 == 0 && |bytes| / 4 % 4 == 0
  {
    VocabHash.SlotsOf(ReadWords(bytes))
  }

  lemma SlotsReadBack(bytes: seq<byte>, slots: seq<VocabHash.Slot>)
    requires Fit32(VocabHash.SlotWords(slots)) && bytes == WordsBytes(VocabHash.SlotWords(slots))
    ensures |bytes| % 4 == 0 && |bytes| / 4 % 4 == 0 && ReadSlots(bytes) == slots
  {
    hide VocabHash.SlotWords, WordsBytes, ReadWords, VocabHash.SlotsOf, Fit32;
    ReadBack(bytes, VocabHash.SlotWords(slots));
    VocabHash.SlotsRoundTrip(slots);
  }

  predicate Wordwise(file: seq<byte>)
    requires |file| >= HEADER_SIZE
  {
    && |SectionBytes(file, 1)| % 4 == 0 && |SectionBytes(file, 1)| / 4 % 4 == 0 && |SectionBytes(file, 3)| % 4 == 0
    && |SectionBytes(file, 5)| % 4 == 0 && |SectionBytes(file, 6)| % 4 == 0
  }

  /** Reading the sections back gives the structures that were packed. */
  lemma StoredIsRead(file: seq<byte>, ix: WordPiece.Index, tables: NormTables.Tables)
    requires |file| >= HEADER_SIZE && Stores(file, ix, tables)
    ensures Wordwise(file)
    ensures ReadSlots(SectionBytes(file, 1)) == ix.table.slots
    ensures ReadWords(SectionBytes(file, 3)) == NormTables.SectionWords(tables)
    ensures ReadWords(SectionBytes(file, 5)) == ByteTrie.SectionWords(ix.root)
    ensures ReadWords(SectionBytes(file, 6)) == ByteTrie.SectionWords(ix.continuation)
  {
    hide WordsBytes, ReadWords, ReadSlots, VocabHash.SlotWords, NormTables.SectionWords, ByteTrie.SectionWords,
        SectionBytes, Fit32, NormTables.TablesValid;
    SlotsReadBack(SectionBytes(file, 1), ix.table.slots);
    ReadBack(SectionBytes(file, 3), NormTables.SectionWords(tables));
    ReadBack(SectionBytes(file, 5), ByteTrie.SectionWords(ix.root));
    ReadBack(SectionBytes(file, 6), ByteTrie.SectionWords(ix.continuation));
  }

  lemma AcceptedHasTokens(file: seq<byte>)
    requires |file| >= HEADER_SIZE && Validate(file) == Accepted
    ensures ReadU32(file, 24) > 0
  {
    hide CheckSections, ReadU32, And;
  }

  /** `validate`, from the header to the tables. A written file is refused only by the header and section
      checks or for a misplaced special token; otherwise settings, tables and index are those written. */
  method OpenModel(file: seq<byte>, tokens: seq<seq<byte>>, ghost d: Description, ghost im: Image,
                   ghost ix: WordPiece.Index, ghost tables: NormTables.Tables,
                   ghost rootKeys: map<seq<byte>, nat>, ghost bodyKeys: map<seq<byte>, nat>)
    returns (r: Option<OpenedModel>)
    requires |file| >= HEADER_SIZE && WordPiece.Loaded(ix, tokens, rootKeys, bodyKeys)
    requires im.meta == MetaOf(d, tokens) && d.maxInputChars > 0
    requires Heads(file, im, ix, tokens) && Stores(file, ix, tables)
    ensures var m := Described(d, tokens, tables);
            r == if Validate(file) == Accepted && TokenState.UnkIsItself(m) && TokenState.AddedAreThemselves(m)
                 then Some(OpenedModel(m, ix)) else None
  {
    hide WordPiece.Loaded, Validate, VocabHash.SlotWords, ReadSlots, NormTables.SectionWords,
        ByteTrie.SectionWords, ReadWords, ReadU32, StartsWith, SectionBytes, TokenState.UnkIsItself,
        TokenState.AddedAreThemselves, EnabledBy, LimitsOf, NormTables.TablesValid, MetaOf, Described;
    if Validate(file) != Accepted {
      return None;
    }
    StoredIsRead(file, ix, tables);
    OtherRead(im, file);
    AcceptedHasTokens(file);
    SettingsRoundTrip(d, im, file, tokens, tables);
    var table := VocabHash.Table(
      ReadSlots(SectionBytes(file, 1)), SectionBytes(file, 0), ReadU32(file, 304));
    var norm := NormTables.ParseTables(ReadWords(SectionBytes(file, 3)));
    var m := Loaded(file, tokens, norm.value);
    var index := Opening.CheckIndex(m, table, ReadWords(SectionBytes(file, 5)), ReadWords(SectionBytes(file, 6)),
                                    ix, rootKeys, bodyKeys);
    r := if index.None? then None else Some(OpenedModel(m, index.value));
  }

  // ----- from the vocabulary to the opened model -----

  /** What the loader asks of a description: everything else a header of the converter says is allowed. */
  predicate Acceptable(d: Description, vocabSize: nat) {
    d.cleanText && !d.addSpecialTokens && 0 < d.dim <= 0x10_0000 && 0 <= d.unkId < vocabSize
  }

  predicate StandsAt(tokens: seq<seq<byte>>, id: int, k: AddedKind) {
    0 <= id < |tokens| && tokens[id] == Reference.SpelledBytes(k)
  }

  /** "[UNK]" and every added token stand in the vocabulary at the ids described. */
  predicate SpecialsStand(d: Description, tokens: seq<seq<byte>>) {
    && StandsAt(tokens, d.unkId, UNK)
    && (PAD in d.added ==> StandsAt(tokens, d.padId, PAD)) && (CLS in d.added ==> StandsAt(tokens, d.clsId, CLS))
    && (SEP in d.added ==> StandsAt(tokens, d.sepId, SEP)) && (MASK in d.added ==> StandsAt(tokens, d.maskId, MASK))
  }

  lemma SpecialsMean(d: Description, tokens: seq<seq<byte>>, tables: NormTables.Tables)
    requires 0 <= d.unkId && 0 <= d.padId && 0 <= d.clsId && 0 <= d.sepId && 0 <= d.maskId
    ensures var m := Described(d, tokens, tables);
            SpecialsStand(d, tokens) <==> TokenState.UnkIsItself(m) && TokenState.AddedAreThemselves(m)
  {
    forall k ensures Reference.SpelledBytes(k) == Literal(k) { Reference.SpelledIsLiteral(k); }
    var m := Described(d, tokens, tables);
    assert m.AddedId(UNK) == d.unkId && m.AddedId(PAD) == d.padId && m.AddedId(CLS) == d.clsId;
    assert m.AddedId(SEP) == d.sepId && m.AddedId(MASK) == d.maskId && m.tokens == tokens && m.enabled == d.added;
    hide Literal, Reference.SpelledBytes, Described;
    if SpecialsStand(d, tokens) {
      forall k | k in m.enabled ensures TokenState.IsItself(m, k) {
        match k case PAD => case UNK => case CLS => case SEP => case MASK =>
      }
    }
    if TokenState.UnkIsItself(m) && TokenState.AddedAreThemselves(m) {
      assert PAD in m.enabled ==> TokenState.IsItself(m, PAD);
      assert CLS in m.enabled ==> TokenState.IsItself(m, CLS);
      assert SEP in m.enabled ==> TokenState.IsItself(m, SEP);
      assert MASK in m.enabled ==> TokenState.IsItself(m, MASK);
    }
  }

  lemma AllowedMeans(d: Description, im: Image, ix: WordPiece.Index, tokens: seq<seq<byte>>,
                     rootKeys: map<seq<byte>, nat>, bodyKeys: map<seq<byte>, nat>)
    requires WordPiece.Loaded(ix, tokens, rootKeys, bodyKeys) && im.meta == MetaOf(d, tokens)
    requires im.vocabSize == |tokens| && im.hashSize == |ix.table.slots| && im.maxProbe == ix.table.maxProbe
    ensures Allowed(im) <==> Acceptable(d, |tokens|)
  {
    MaskRoundTrip(d.added);
    hide ByteTrie.Represents, ByteTrie.RootKeys, ByteTrie.BodyKeys, VocabHash.FitsFormat, VocabHash.SlotsWellFormed,
        VocabHash.WithinProbeLimit, MaskOf, EnabledBy;
    VocabHash.BuiltTableIsAccepted(ix.table, tokens);
    hide VocabHash.Stored, VocabHash.Packed, VocabHash.Distinct, VocabHash.Joined;
  }

  /** The whole way. For every description, vocabulary and tables: a file is written unless a token repeats or
      a value does not fit, and it is opened if and only if the description is acceptable, the matrix has its
      size and the special tokens stand at their ids. Then the loader holds the model that was described,
      and an index on which the tokenizer may rely. */
  method ConvertAndOpenFile(digest: seq<byte> -> seq<byte>, d: Description, tokens: seq<seq<byte>>,
                            tables: NormTables.Tables, matrix: Payload, provenance: seq<byte>, quotient: real)
    returns (w: WriteResult, r: Option<OpenedModel>, ghost im: Image,
             ghost rootKeys: map<seq<byte>, nat>, ghost bodyKeys: map<seq<byte>, nat>)
    requires IsDigest(digest) && Honest(matrix) && NormTables.TablesValid(tables)
    requires VocabHash.FitsFormat(tokens) && |VocabHash.Joined(tokens)| < SLOT_EMPTY && WordPiece.AllValid(tokens)
    requires VocabHash.RoundedQuotient(|tokens|, quotient) && d.maxInputChars > 0
    ensures w.File? ==> VocabHash.Distinct(tokens) && Fits(im) && im.meta == MetaOf(d, tokens)
    ensures VocabHash.Distinct(tokens) ==> (w.File? <==> Fits(im))
    ensures w.File? && |w.bytes| < 0x1_0000_0000_0000_0000 ==>
              (r.Some? <==> Acceptable(d, |tokens|) && matrix.bytesize == |tokens| * d.dim * 4
                            && SpecialsStand(d, tokens))
    ensures w.File? && r.Some? ==>
              && r.value.m == Described(d, tokens, tables)
              && TokenState.Opened(r.value.m, r.value.ix, rootKeys, bodyKeys)
  {
    hide VocabHash.FitsFormat, VocabHash.RoundedQuotient, VocabHash.Distinct, VocabHash.Joined, WordPiece.Loaded,
        WordPiece.AllValid, NormTables.TablesValid, Stores, Fits, Validate, Allowed, IsDigest, Honest, StartsWith,
        Acceptable, SpecialsStand, TokenState.UnkIsItself, TokenState.AddedAreThemselves, Described, MetaOf;
    ghost var ix;
    w, im, ix, rootKeys, bodyKeys := WriteModel(digest, d, tokens, tables, matrix, provenance, quotient);
    r := None;
    if w.File? {
      r := OpenModel(w.bytes, tokens, d, im, ix, tables, rootKeys, bodyKeys);
      AllowedMeans(d, im, ix, tokens, rootKeys, bodyKeys);
      IdsAreNatural(d, im, tokens);
      SpecialsMean(d, tokens, tables);
      if r.Some? { MayBeOpened(w.bytes, d, im, ix, tokens, tables, rootKeys, bodyKeys); }
    }
  }

  lemma IdsAreNatural(d: Description, im: Image, tokens: seq<seq<byte>>)
    requires Fits(im) && im.meta == MetaOf(d, tokens)
    ensures 0 <= d.unkId && 0 <= d.padId && 0 <= d.clsId && 0 <= d.sepId && 0 <= d.maskId
  {
    MetaIsNatural(im.meta);
  }

  lemma MayBeOpened(file: seq<byte>, d: Description, im: Image, ix: WordPiece.Index, tokens: seq<seq<byte>>,
                    tables: NormTables.Tables, rootKeys: map<seq<byte>, nat>, bodyKeys: map<seq<byte>, nat>)
    requires |file| >= HEADER_SIZE && Heads(file, im, ix, tokens) && Validate(file) == Accepted
    requires WordPiece.Loaded(ix, tokens, rootKeys, bodyKeys) && WordPiece.AllValid(tokens)
    requires im.meta == MetaOf(d, tokens)
    requires var m := Described(d, tokens, tables); TokenState.UnkIsItself(m) && TokenState.AddedAreThemselves(m)
    ensures TokenState.Opened(Described(d, tokens, tables), ix, rootKeys, bodyKeys)
  {
    AcceptedIsCleaned(im, file);
    hide WordPiece.Loaded, WordPiece.AllValid, WordPiece.MaxTokenChars, WordPiece.Window, TokenState.UnkIsItself,
        TokenState.AddedAreThemselves, Validate, StartsWith, Heads;
  }

  lemma AcceptedIsCleaned(im: Image, file: seq<byte>)
    requires Fits(im) && |file| >= HEADER_SIZE && StartsWith(im, file) && Validate(file) == Accepted
    ensures im.meta.cleanText
  {
    MetaRead(im, file);
    hide CheckSections, ReadU32, And, StartsWith, Fits;
  }
}
