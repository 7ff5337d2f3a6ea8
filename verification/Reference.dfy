/** The multi-pass reference tokenizer of reference.rb, and the theorem that the one-pass
    tokenizer computes it.
  */
module Reference {
  import opened Utf8
  import opened NormTables
  import opened Tokenizer
  import Truncation
  import TokenState
  import VocabHash

  // ----- the reference's own character classes -----

  /** What Ruby's regular expressions and Unicode methods know of a character: `downcase`,
      `unicode_normalize(:nfd)`, RE_MN, RE_PUNCT, RE_CONTROL and RE_WHITESPACE. */
  datatype Unicode = Unicode(
    downcase: Scalar -> seq<Scalar>, decompose: Scalar -> seq<Scalar>, mark: Scalar -> bool,
    punctuation: Scalar -> bool, control: Scalar -> bool, space: Scalar -> bool)

  const CJK_RANGES: seq<Range> := [
    Range(0x4E00, 0x9FFF), Range(0x3400, 0x4DBF), Range(0x20000, 0x2A6DF), Range(0x2A700, 0x2B73F),
    Range(0x2B740, 0x2B81F), Range(0x2B920, 0x2CEAF), Range(0xF900, 0xFAFF), Range(0x2F800, 0x2FA1F)]

  const ASCII_PUNCT: seq<Range> := [Range(33, 47), Range(58, 64), Range(91, 96), Range(123, 126)]
  const ASCII_SPACES: string := " \t\n\r"

  predicate Cjk(c: Scalar) { Covers(CJK_RANGES, c) }

  predicate AsciiSpace(c: Scalar) { exists k | 0 <= k < |ASCII_SPACES| :: ASCII_SPACES[k] as int == c }

  predicate Punctuation(u: Unicode, c: Scalar) { Covers(ASCII_PUNCT, c) || u.punctuation(c) }

  predicate Control(u: Unicode, c: Scalar) { !AsciiSpace(c) && u.control(c) }

  predicate Whitespace(u: Unicode, c: Scalar) { AsciiSpace(c) || u.space(c) }

  // ----- normalisation, one pass over all characters at a time -----

  function FlatMap(f: Scalar -> seq<Scalar>, cs: seq<Scalar>): seq<Scalar> {
    if cs == [] then [] else f(cs[0]) + FlatMap(f, cs[1..])
  }

  function CleanChar(u: Unicode): Scalar -> seq<Scalar> {
    c => if c == 0 || c == 0xFFFD || Control(u, c) then [] else if Whitespace(u, c) then [0x20] else [c]
  }

  function SpaceChinese(): Scalar -> seq<Scalar> {
    c => if Cjk(c) then [0x20, c, 0x20] else [c]
  }

  function RejectMarks(u: Unicode): Scalar -> seq<Scalar> {
    c => if u.mark(c) then [] else [c]
  }

  function Cleaned(m: Model, u: Unicode, cs: seq<Scalar>): seq<Scalar> {
    if m.cleanText then FlatMap(CleanChar(u), cs) else cs
  }

  function ChineseSplit(m: Model, cs: seq<Scalar>): seq<Scalar> {
    if m.chinese then FlatMap(SpaceChinese(), cs) else cs
  }

  function AccentsStripped(m: Model, u: Unicode, cs: seq<Scalar>): seq<Scalar> {
    if m.stripAccents then FlatMap(RejectMarks(u), FlatMap(u.decompose, cs)) else cs
  }

  function Lowercased(m: Model, u: Unicode, cs: seq<Scalar>): seq<Scalar> {
    if m.lowerCase then FlatMap(u.downcase, cs) else cs
  }

  /** `normalize_text` */
  function NormalizeText(m: Model, u: Unicode, cs: seq<Scalar>): seq<Scalar> {
    Lowercased(m, u, AccentsStripped(m, u, ChineseSplit(m, Cleaned(m, u, cs))))
  }

  // ----- splitting -----

  /** What `String#split(" ")` treats as a separator. */
  predicate RubySpace(c: Scalar) { c == 0x20 || 0x09 <= c <= 0x0D }

  function SplitSpaces(cs: seq<Scalar>, current: seq<Scalar>): seq<seq<Scalar>>
    decreases |cs|
  {
    if cs == [] then (if current == [] then [] else [current])
    else if RubySpace(cs[0]) then (if current == [] then [] else [current]) + SplitSpaces(cs[1..], [])
    else SplitSpaces(cs[1..], current + [cs[0]])
  }

  /** `split_punctuation`, with the run collected so far. */
  function SplitPunctuation(u: Unicode, word: seq<Scalar>, current: seq<Scalar>): seq<Word>
    decreases |word|
  {
    if word == [] then (if current == [] then [] else [Plain(current)])
    else if Punctuation(u, word[0]) then
      (if current == [] then [] else [Plain(current)]) + [Plain([word[0]])] + SplitPunctuation(u, word[1..], [])
    else SplitPunctuation(u, word[1..], current + [word[0]])
  }

  function SplitAll(u: Unicode, words: seq<seq<Scalar>>): seq<Word> {
    if words == [] then [] else SplitPunctuation(u, words[0], []) + SplitAll(u, words[1..])
  }

  /** `pre_tokenize(normalize_text(text))` for a stretch of text without added tokens. */
  function PlainWords(m: Model, u: Unicode, bytes: seq<byte>): seq<Word> {
    match DecodeAll(bytes)
    case None => []
    case Some(cs) => SplitAll(u, SplitSpaces(NormalizeText(m, u, cs), []))
  }

  // ----- added tokens -----

  /** The keys of STANDARD_SPECIAL_TOKENS. */
  function Spelled(k: AddedKind): string {
    match k
    case PAD => "[PAD]"
    case UNK => "[UNK]"
    case CLS => "[CLS]"
    case SEP => "[SEP]"
    case MASK => "[MASK]"
  }

  /** `literal.b` */
  function SpelledBytes(k: AddedKind): (r: seq<byte>)
    ensures |r| == |Spelled(k)| > 0
  {
    var s := Spelled(k);
    seq(|s|, i requires 0 <= i < |s| => s[i] as int % 0x80)
  }

  /** The tokenizer knows the five literals by the same bytes. */
  lemma SpelledIsLiteral(k: AddedKind)
    ensures SpelledBytes(k) == Literal(k)
  {
  }

  predicate SpelledAt(text: seq<byte>, i: nat, k: AddedKind) {
    i + |SpelledBytes(k)| <= |text| && text[i..i + |SpelledBytes(k)|] == SpelledBytes(k)
  }

  /** `model.tokens.index(content)` */
  function VocabularyId(m: Model, k: AddedKind): nat {
    match VocabHash.Find(m.tokens, SpelledBytes(k)) case None => 0 case Some(id) => id
  }

  /** What the loader establishes: no token repeats, and the added tokens stand at their ids. */
  ghost predicate SpecialsInPlace(m: Model) { VocabHash.Distinct(m.tokens) && TokenState.AddedAreThemselves(m) }

  lemma IdsAgree(m: Model, k: AddedKind)
    requires SpecialsInPlace(m) && k in m.enabled
    ensures VocabularyId(m, k) == m.AddedId(k)
  {
    SpelledIsLiteral(k);
    assert TokenState.IsItself(m, k);
    var f := VocabHash.Find(m.tokens, Literal(k));
    assert m.tokens[m.AddedId(k)] in m.tokens;
    assert f.Some? && m.tokens[f.value] == m.tokens[m.AddedId(k)];
  }

  /** `binary.index(literal, cursor)` */
  function IndexOf(text: seq<byte>, k: AddedKind, cursor: nat): Option<nat>
    decreases if cursor < |text| then |text| - cursor else 0
  {
    if cursor >= |text| then None
    else if SpelledAt(text, cursor, k) then Some(cursor)
    else IndexOf(text, k, cursor + 1)
  }

  datatype Hit = Hit(index: nat, kind: AddedKind)

  function Better(a: Option<Hit>, b: Option<Hit>): Option<Hit> {
    if a.None? then b else if b.None? || a.value.index <= b.value.index then a else b
  }

  function HitOf(m: Model, text: seq<byte>, k: AddedKind, cursor: nat): Option<Hit> {
    if k !in m.enabled then None
    else match IndexOf(text, k, cursor) case None => None case Some(i) => Some(Hit(i, k))
  }

  /** The first of all added-token literals from the cursor on. */
  function Earliest(m: Model, text: seq<byte>, cursor: nat): Option<Hit> {
    Better(HitOf(m, text, MASK, cursor), Better(HitOf(m, text, PAD, cursor), Better(HitOf(m, text, UNK, cursor),
      Better(HitOf(m, text, CLS, cursor), HitOf(m, text, SEP, cursor)))))
  }

  /** `tokenize_with_added_tokens`, as words. */
  function ReferenceWords(m: Model, u: Unicode, text: seq<byte>, cursor: nat): seq<Word>
    decreases if cursor < |text| then |text| - cursor else 0
  {
    if cursor >= |text| then []
    else match Earliest(m, text, cursor)
      case None => PlainWords(m, u, text[cursor..])
      case Some(hit) =>
        if hit.index < cursor || hit.index > |text| then []
        else PlainWords(m, u, text[cursor..hit.index]) + [Special(VocabularyId(m, hit.kind))]
             + ReferenceWords(m, u, text, hit.index + |SpelledBytes(hit.kind)|)
  }

  /** `Reference#tokenize` without a limit. */
  function ReferenceIds(m: Model, u: Unicode, text: seq<byte>): seq<nat> { IdsOf(m, ReferenceWords(m, u, text, 0)) }

  // ----- what the converter's tables guarantee -----

  function Mapped(entries: seq<Entry>, c: Scalar): seq<Scalar> {
    match Lookup(entries, c) case None => [c] case Some(out) => out
  }

  /** What Unicode says of ASCII: A-Z lower to a-z, nothing decomposes, nothing is a mark. */
  ghost predicate OnAscii(u: Unicode) {
    forall c: Scalar | c < 0x80 ::
      && u.downcase(c) == [if 0x41 <= c <= 0x5A then c + 32 else c] && u.decompose(c) == [c] && !u.mark(c)
      && (u.punctuation(c) ==> Covers(ASCII_PUNCT, c))
      && (u.control(c) <==> c < 0x20 || c == 0x7F) && (u.space(c) <==> c == 0x20)
  }

  /** The loaded tables hold the same Unicode data. */
  ghost predicate TablesHold(m: Model, u: Unicode) {
    forall c: Scalar ::
      && Mapped(m.tables.lower, c) == u.downcase(c) && Mapped(m.tables.nfd, c) == u.decompose(c)
      && (Covers(m.tables.mn, c) <==> u.mark(c)) && (Covers(m.tables.punct, c) <==> u.punctuation(c))
      && (Covers(m.tables.control, c) <==> u.control(c)) && (Covers(m.tables.whitespace, c) <==> u.space(c))
  }

  /** Only whitespace maps to whitespace. */
  ghost predicate SpacesStay(u: Unicode) {
    forall c: Scalar | !Whitespace(u, c) && !RubySpace(c) ::
      Spaceless(u, u.downcase(c)) && Spaceless(u, u.decompose(c))
  }

  predicate Spaceless(u: Unicode, cs: seq<Scalar>) {
    forall k | 0 <= k < |cs| :: !Whitespace(u, cs[k]) && !RubySpace(cs[k])
  }

  /** What the converter guarantees of a model it writes. */
  ghost predicate TablesFaithful(m: Model, u: Unicode) {
    m.cleanText && OnAscii(u) && TablesHold(m, u) && SpacesStay(u)
  }

  predicate NoSpaces(m: Model, cs: seq<Scalar>) {
    forall k | 0 <= k < |cs| :: !IsWhitespace(m, cs[k]) && !RubySpace(cs[k])
  }

  // ----- the two sides mean the same classes -----

  /** The reference's ranges are the tokenizer's comparisons. */
  lemma CjkAgrees(c: Scalar)
    ensures Cjk(c) <==> IsCjk(c)
  {
    if IsCjk(c) {
      var k := if 0x4E00 <= c <= 0x9FFF then 0 else if 0x3400 <= c <= 0x4DBF then 1
        else if 0x20000 <= c <= 0x2A6DF then 2 else if 0x2A700 <= c <= 0x2B73F then 3
        else if 0x2B740 <= c <= 0x2B81F then 4
        else if 0x2B920 <= c <= 0x2CEAF then 5 else if 0xF900 <= c <= 0xFAFF then 6 else 7;
      assert InRange(CJK_RANGES[k], c);
    }
  }

  lemma AsciiPunctAgrees(c: Scalar)
    ensures Covers(ASCII_PUNCT, c) <==> IsAsciiPunct(c)
  {
    if IsAsciiPunct(c) {
      var k := if 33 <= c <= 47 then 0 else if 58 <= c <= 64 then 1 else if 91 <= c <= 96 then 2 else 3;
      assert InRange(ASCII_PUNCT[k], c);
    }
  }

  lemma AsciiSpaceAgrees(c: Scalar)
    ensures AsciiSpace(c) <==> IsAsciiWhitespace(c)
  {
    assert |ASCII_SPACES| == 4;
    assert ASCII_SPACES[0] == ' ' && ASCII_SPACES[1] == '\t' && ASCII_SPACES[2] == '\n' && ASCII_SPACES[3] == '\r';
    if IsAsciiWhitespace(c) {
      var k := if c == 0x20 then 0 else if c == 0x09 then 1 else if c == 0x0A then 2 else 3;
      assert ASCII_SPACES[k] as int == c;
    }
  }

  /** Every class of the tokenizer is the reference's. */
  lemma ClassesAgree(m: Model, u: Unicode, c: Scalar)
    requires TablesFaithful(m, u)
    ensures Cjk(c) <==> IsCjk(c)
    ensures Punctuation(u, c) <==> IsPunct(m, c)
    ensures Control(u, c) <==> IsControl(m, c)
    ensures Whitespace(u, c) <==> IsWhitespace(m, c)
    ensures u.mark(c) <==> IsMn(m, c)
  {
    CjkAgrees(c);
    AsciiPunctAgrees(c);
    AsciiSpaceAgrees(c);
    assert Mapped(m.tables.lower, c) == u.downcase(c);
    hide IsCjk, Cjk, Covers, AsciiSpace, SpacesStay, Mapped;
  }

  lemma DowncaseAgrees(m: Model, u: Unicode, c: Scalar)
    requires TablesFaithful(m, u)
    ensures m.lowerCase ==> u.downcase(c) == Lowered(m, c)
    ensures Mapped(m.tables.nfd, c) == u.decompose(c) && (c < 0x80 ==> u.decompose(c) == [c] && !IsMn(m, c))
  {
    assert Mapped(m.tables.lower, c) == u.downcase(c);
    hide Covers, SpacesStay;
  }

  /** No mapping makes whitespace. */
  lemma NoSpacesMade(m: Model, u: Unicode, c: Scalar)
    requires TablesFaithful(m, u) && !IsWhitespace(m, c) && !RubySpace(c)
    ensures NoSpaces(m, Mapped(m.tables.lower, c)) && NoSpaces(m, Mapped(m.tables.nfd, c))
  {
    ClassesAgree(m, u, c);
    var low, parts := Mapped(m.tables.lower, c), Mapped(m.tables.nfd, c);
    assert low == u.downcase(c) && parts == u.decompose(c);
    forall k | 0 <= k < |low| ensures !IsWhitespace(m, low[k]) && !RubySpace(low[k]) { ClassesAgree(m, u, low[k]); }
    forall k | 0 <= k < |parts| ensures !IsWhitespace(m, parts[k]) && !RubySpace(parts[k]) {
      ClassesAgree(m, u, parts[k]);
    }
  }

  // ----- the passes compose into the per-codepoint normalisation -----

  lemma {:induction false} FlatMapConcat(f: Scalar -> seq<Scalar>, a: seq<Scalar>, b: seq<Scalar>)
    ensures FlatMap(f, a + b) == FlatMap(f, a) + FlatMap(f, b)
  {
    if a == [] {
      assert a + b == b;
    } else {
      assert (a + b)[1..] == a[1..] + b;
      FlatMapConcat(f, a[1..], b);
    }
  }

  lemma FlatMapOne(f: Scalar -> seq<Scalar>, c: Scalar)
    ensures FlatMap(f, [c]) == f(c)
  {
    assert [c][1..] == [];
  }

  lemma NormalizeConcat(m: Model, u: Unicode, a: seq<Scalar>, b: seq<Scalar>)
    ensures NormalizeText(m, u, a + b) == NormalizeText(m, u, a) + NormalizeText(m, u, b)
  {
    hide FlatMap;
    FlatMapConcat(CleanChar(u), a, b);
    var a1, b1 := Cleaned(m, u, a), Cleaned(m, u, b);
    FlatMapConcat(SpaceChinese(), a1, b1);
    var a2, b2 := ChineseSplit(m, a1), ChineseSplit(m, b1);
    FlatMapConcat(u.decompose, a2, b2);
    FlatMapConcat(RejectMarks(u), FlatMap(u.decompose, a2), FlatMap(u.decompose, b2));
    var a3, b3 := AccentsStripped(m, u, a2), AccentsStripped(m, u, b2);
    FlatMapConcat(u.downcase, a3, b3);
  }

  lemma LowerOne(m: Model, u: Unicode, c: Scalar)
    requires TablesFaithful(m, u)
    ensures Lowercased(m, u, [c]) == Lowered(m, c)
  {
    FlatMapOne(u.downcase, c);
    DowncaseAgrees(m, u, c);
    hide TablesFaithful, Lowered;
  }

  lemma {:induction false} LowerUnmarked(m: Model, u: Unicode, out: seq<Scalar>)
    requires TablesFaithful(m, u)
    ensures Lowercased(m, u, FlatMap(RejectMarks(u), out)) == LoweredUnlessMark(m, out)
  {
    if out != [] {
      var head, tail := RejectMarks(u)(out[0]), FlatMap(RejectMarks(u), out[1..]);
      LowerUnmarked(m, u, out[1..]);
      LowerOne(m, u, out[0]);
      ClassesAgree(m, u, out[0]);
      hide TablesFaithful, Lowered, IsMn;
      FlatMapConcat(u.downcase, head, tail);
      assert Lowercased(m, u, head + tail) == Lowercased(m, u, head) + Lowercased(m, u, tail);
    }
  }

  /** Stripping and lowering one character in two passes. */
  lemma StripOne(m: Model, u: Unicode, c: Scalar)
    requires TablesFaithful(m, u)
    ensures Lowercased(m, u, AccentsStripped(m, u, [c])) == Stripped(m, c)
  {
    LowerOne(m, u, c);
    FlatMapOne(u.decompose, c);
    DowncaseAgrees(m, u, c);
    if m.stripAccents {
      LowerUnmarked(m, u, u.decompose(c));
      if Lookup(m.tables.nfd, c).None? || c < 0x80 { OneUnlessMark(m, c); }
    }
    hide TablesFaithful, Lowered, Lowercased;
  }

  lemma OneUnlessMark(m: Model, c: Scalar)
    ensures LoweredUnlessMark(m, [c]) == if IsMn(m, c) then [] else Lowered(m, c)
  {
    assert [c][1..] == [];
    assert LoweredUnlessMark(m, []) == [];
  }

  lemma StripConcat(m: Model, u: Unicode, a: seq<Scalar>, b: seq<Scalar>)
    ensures Lowercased(m, u, AccentsStripped(m, u, a + b)) ==
        Lowercased(m, u, AccentsStripped(m, u, a)) + Lowercased(m, u, AccentsStripped(m, u, b))
  {
    hide FlatMap;
    FlatMapConcat(u.decompose, a, b);
    FlatMapConcat(RejectMarks(u), FlatMap(u.decompose, a), FlatMap(u.decompose, b));
    FlatMapConcat(u.downcase, AccentsStripped(m, u, a), AccentsStripped(m, u, b));
  }

  lemma NormalizeOne(m: Model, u: Unicode, c: Scalar)
    requires TablesFaithful(m, u)
    ensures NormalizeText(m, u, [c]) == Normal(m, c)
  {
    assert m.cleanText;
    hide FlatMap, TablesFaithful, Stripped, AccentsStripped, Lowercased, Cleaned, ChineseSplit, IsDropped, IsWhitespace;
    CleanOne(m, u, c);
    NothingLeft(m, u);
    if !IsDropped(m, c) {
      var d: Scalar := if IsWhitespace(m, c) then 0x20 else c;
      hide Spaced;
      SpacedOne(m, u, d);
    }
  }

  lemma SpacedOne(m: Model, u: Unicode, d: Scalar)
    requires TablesFaithful(m, u)
    ensures Lowercased(m, u, AccentsStripped(m, u, ChineseSplit(m, [d]))) == Spaced(m, d)
  {
    hide FlatMap, TablesFaithful, Stripped, AccentsStripped, Lowercased, ChineseSplit;
    SpaceOne(m, d);
    StripOne(m, u, d);
    StripOne(m, u, 0x20);
    StripConcat(m, u, [0x20, d], [0x20]);
    StripConcat(m, u, [0x20], [d]);
    assert [0x20] + [d] == [0x20, d] && [0x20, d] + [0x20] == [0x20, d, 0x20];
  }

  lemma CleanOne(m: Model, u: Unicode, c: Scalar)
    requires TablesFaithful(m, u)
    ensures Cleaned(m, u, [c]) == if IsDropped(m, c) then [] else [if IsWhitespace(m, c) then 0x20 else c]
  {
    FlatMapOne(CleanChar(u), c);
    ClassesAgree(m, u, c);
    hide FlatMap, IsControl, IsWhitespace, Control, Whitespace, OnAscii, TablesHold, SpacesStay;
  }

  lemma SpaceOne(m: Model, d: Scalar)
    ensures ChineseSplit(m, [d]) == if m.chinese && IsCjk(d) then [0x20, d, 0x20] else [d]
  {
    FlatMapOne(SpaceChinese(), d);
    CjkAgrees(d);
    hide FlatMap, IsCjk, Cjk;
  }

  lemma NothingLeft(m: Model, u: Unicode)
    ensures Lowercased(m, u, AccentsStripped(m, u, ChineseSplit(m, []))) == []
  {
  }

  const EN_QUAD: Scalar := 0x2000
  const EN_SPACE: Scalar := 0x2002

  /** Why whitespace is left out of `SpacesStay`: the canonical decomposition of U+2000 is the whitespace
      codepoint U+2002. Both tokenizers replace it by a space before anything is decomposed. */
  lemma EnQuadIsCleanedFirst(m: Model, u: Unicode)
    requires TablesFaithful(m, u) && !IsDropped(m, EN_QUAD) && u.space(EN_QUAD)
    requires u.decompose(EN_QUAD) == [EN_SPACE] && u.space(EN_SPACE)
    ensures !Spaceless(u, u.decompose(EN_QUAD))
    ensures Normal(m, EN_QUAD) == [0x20] && NormalizeText(m, u, [EN_QUAD]) == [0x20]
  {
    assert Whitespace(u, u.decompose(EN_QUAD)[0]);
    NormalizeOne(m, u, EN_QUAD);
    ClassesAgree(m, u, EN_QUAD);
    assert Lowered(m, 0x20) == [0x20] && Stripped(m, 0x20) == [0x20] && !IsCjk(0x20);
    hide TablesFaithful, NormalizeText, IsWhitespace;
  }

  /** All characters normalised one at a time. */
  function NormalAll(m: Model, cs: seq<Scalar>): seq<Scalar> {
    if cs == [] then [] else Normal(m, cs[0]) + NormalAll(m, cs[1..])
  }

  /** The reference's passes over the whole text are the streaming normalisation of each codepoint. */
  lemma {:induction false} PassesCompose(m: Model, u: Unicode, cs: seq<Scalar>)
    requires TablesFaithful(m, u)
    ensures NormalizeText(m, u, cs) == NormalAll(m, cs)
  {
    if cs != [] {
      NormalizeConcat(m, u, [cs[0]], cs[1..]);
      assert [cs[0]] + cs[1..] == cs;
      NormalizeOne(m, u, cs[0]);
      PassesCompose(m, u, cs[1..]);
    }
  }

  // ----- whitespace after normalisation -----

  predicate SpacesAgree(m: Model, cs: seq<Scalar>) {
    forall k | 0 <= k < |cs| :: IsWhitespace(m, cs[k]) <==> RubySpace(cs[k])
  }

  lemma LoweredSpaces(m: Model, u: Unicode, c: Scalar)
    requires TablesFaithful(m, u) && !IsWhitespace(m, c) && !RubySpace(c)
    ensures NoSpaces(m, Lowered(m, c))
  {
    NoSpacesMade(m, u, c);
    hide TablesFaithful, IsWhitespace;
  }

  lemma {:induction false} DecomposedSpaces(m: Model, u: Unicode, out: seq<Scalar>)
    requires TablesFaithful(m, u) && NoSpaces(m, out)
    ensures NoSpaces(m, LoweredUnlessMark(m, out))
  {
    if out != [] {
      LoweredSpaces(m, u, out[0]);
      DecomposedSpaces(m, u, out[1..]);
      hide Lowered, TablesFaithful;
    }
  }

  lemma StrippedSpaces(m: Model, u: Unicode, c: Scalar)
    requires TablesFaithful(m, u) && !IsWhitespace(m, c) && !RubySpace(c)
    ensures NoSpaces(m, Stripped(m, c))
  {
    LoweredSpaces(m, u, c);
    NoSpacesMade(m, u, c);
    if Lookup(m.tables.nfd, c).Some? { DecomposedSpaces(m, u, Lookup(m.tables.nfd, c).value); }
  }

  lemma NormalSpaces(m: Model, u: Unicode, c: Scalar)
    requires TablesFaithful(m, u)
    ensures SpacesAgree(m, Normal(m, c))
  {
    assert m.cleanText;
    assert Lowered(m, 0x20) == [0x20];
    assert Stripped(m, 0x20) == [0x20];
    if !IsDropped(m, c) && !IsWhitespace(m, c) {
      assert !RubySpace(c);
      StrippedSpaces(m, u, c);
    }
    hide TablesFaithful, Lowered;
  }

  lemma {:induction false} NormalAllSpaces(m: Model, u: Unicode, cs: seq<Scalar>)
    requires TablesFaithful(m, u)
    ensures SpacesAgree(m, NormalAll(m, cs))
  {
    if cs != [] {
      NormalSpaces(m, u, cs[0]);
      NormalAllSpaces(m, u, cs[1..]);
      hide Normal, TablesFaithful, IsWhitespace;
    }
  }

  // ----- splitting in two passes is folding the events -----

  lemma {:induction false} PunctuationFold(m: Model, u: Unicode, word: seq<Scalar>, words: seq<Word>,
                                           current: seq<Scalar>)
    requires TablesFaithful(m, u) && forall k | 0 <= k < |word| :: !IsWhitespace(m, word[k])
    ensures Run(State(words, current), EventsOf(m, word)).Flushed().words == words + SplitPunctuation(u, word, current)
    decreases |word|
  {
    hide IsWhitespace, IsPunct, Punctuation, TablesFaithful;
    if word != [] {
      var st := State(words, current);
      var evs := EventsOf(m, word);
      assert evs[1..] == EventsOf(m, word[1..]);
      var next := Feed(st, evs[0]);
      PunctuationFold(m, u, word[1..], next.words, next.seg);
      ClassesAgree(m, u, word[0]);
    }
  }

  lemma {:induction false} SplitFold(m: Model, u: Unicode, cs: seq<Scalar>, words: seq<Word>, current: seq<Scalar>)
    requires TablesFaithful(m, u) && SpacesAgree(m, cs) && forall k | 0 <= k < |current| :: !IsWhitespace(m, current[k])
    ensures Run(Run(State(words, []), EventsOf(m, current)), EventsOf(m, cs)).Flushed().words
         == words + SplitAll(u, SplitSpaces(cs, current))
    decreases |cs|
  {
    hide IsWhitespace, IsPunct, Punctuation, TablesFaithful;
    var st := Run(State(words, []), EventsOf(m, current));
    PunctuationFold(m, u, current, words, []);
    SplitOne(m, u, current);
    hide SplitPunctuation, Run, SplitAll;
    if cs == [] {
      RunNone(st);
      assert EventsOf(m, cs) == [];
    } else {
      var evs := EventsOf(m, cs);
      assert evs[1..] == EventsOf(m, cs[1..]);
      RunHead(st, evs);
      if RubySpace(cs[0]) {
        SplitFold(m, u, cs[1..], st.Flushed().words, []);
        assert EventsOf(m, []) == [];
        RunNone(State(st.Flushed().words, []));
        SplitRest(m, u, current, SplitSpaces(cs[1..], []));
        assert evs[0] == Break && Feed(st, Break) == State(st.Flushed().words, []);
      } else {
        SplitFold(m, u, cs[1..], words, current + [cs[0]]);
        EventsConcat(m, current, [cs[0]]);
        RunConcat(State(words, []), EventsOf(m, current), EventsOf(m, [cs[0]]));
        assert EventsOf(m, [cs[0]]) == [evs[0]];
        RunHead(st, [evs[0]]);
        RunNone(Feed(st, evs[0]));
      }
    }
  }

  lemma RunNone(st: State)
    ensures Run(st, []) == st
  {
  }

  lemma RunHead(st: State, evs: seq<Event>)
    requires evs != []
    ensures Run(st, evs) == Run(Feed(st, evs[0]), evs[1..])
  {
  }

  lemma SplitRest(m: Model, u: Unicode, current: seq<Scalar>, rest: seq<seq<Scalar>>)
    ensures SplitAll(u, (if current == [] then [] else [current]) + rest) ==
        SplitPunctuation(u, current, []) + SplitAll(u, rest)
  {
    if current == [] { assert [] + rest == rest; } else { assert ([current] + rest)[1..] == rest; }
  }

  lemma SplitOne(m: Model, u: Unicode, current: seq<Scalar>)
    ensures SplitAll(u, if current == [] then [] else [current]) == SplitPunctuation(u, current, [])
  {
    assert [current][1..] == [];
  }

  lemma SplittingIsFolding(m: Model, u: Unicode, bytes: seq<byte>, words: seq<Word>, cs: seq<Scalar>)
    requires TablesFaithful(m, u) && DecodeAll(bytes) == Some(cs)
    ensures Run(State(words, []), EventsOf(m, NormalAll(m, cs))).Flushed().words == words + PlainWords(m, u, bytes)
  {
    PassesCompose(m, u, cs);
    NormalAllSpaces(m, u, cs);
    SplitFold(m, u, NormalAll(m, cs), words, []);
    assert EventsOf(m, []) == [];
  }

  // ----- scanning a stretch without added tokens -----

  predicate NoneBetween(m: Model, text: seq<byte>, i: nat, j: nat) {
    forall k | i <= k < j :: AddedAt(m, text, k).None?
  }

  /** A stretch ends at a byte that starts a codepoint, or at the end of the text. */
  predicate Cut(text: seq<byte>, j: nat) { j <= |text| && (j < |text| ==> !IsContinuation(text[j])) }

  /** An encoding that starts before a cut ends at or before it. */
  lemma StaysBefore(text: seq<byte>, i: nat, j: nat)
    requires i < j && Cut(text, j)
    ensures DecodeAt(text, i).Some? ==> DecodeAt(text, i).value.next <= j
  {
    if DecodeAt(text, i).Some? {
      DecodeSound(text, i);
      var d := DecodeAt(text, i).value;
      forall k | i < k < d.next
        ensures IsContinuation(text[k])
      {
        assert text[k] == text[i..d.next][k - i];
      }
    }
  }

  lemma SliceDecode(text: seq<byte>, i: nat, j: nat)
    requires i < j <= |text| && DecodeAt(text, i).Some? && DecodeAt(text, i).value.next <= j
    ensures var d := DecodeAt(text, i).value; i < d.next && DecodeAt(text[i..j], 0) == Some(Decoded(d.cp, d.next - i))
  {
    DecodeSound(text, i);
    var d := DecodeAt(text, i).value;
    assert text[i..j][0..0 + |Encode(d.cp)|] == text[i..d.next];
    DecodeComplete(text[i..j], 0, d.cp);
  }

  /** Scanning valid text without added tokens yields the normalised codepoints of the stretch. */
  lemma {:induction false} PlainScan(m: Model, text: seq<byte>, i: nat, j: nat) returns (cs: seq<Scalar>)
    requires i <= j && Cut(text, j) && DecodeAll(text[i..]).Some? && NoneBetween(m, text, i, j)
    ensures DecodeAll(text[i..j]) == Some(cs) && DecodeAll(text[j..]).Some?
    ensures ScanFrom(m, text, i) ==
        Scan(EventsOf(m, NormalAll(m, cs)) + ScanFrom(m, text, j).evs, ScanFrom(m, text, j).ok)
    decreases j - i
  {
    hide Normal, EventsOf, DecodeAt;
    if i == j {
      cs := [];
      assert text[i..j] == [];
      assert EventsOf(m, []) == [] by { NoEventsHere(m); }
      assert [] + ScanFrom(m, text, j).evs == ScanFrom(m, text, j).evs;
    } else {
      var d := PlainStep(m, text, i, j);
      var rest := PlainScan(m, text, d.next, j);
      cs := [d.cp] + rest;
      hide ScanFrom, NoneBetween, DecodeAll, NormalAll;
      PlainJoin(m, d.cp, rest, ScanFrom(m, text, j).evs);
    }
  }

  /** One codepoint of such a stretch. */
  lemma PlainStep(m: Model, text: seq<byte>, i: nat, j: nat) returns (d: Decoded)
    requires i < j && Cut(text, j) && DecodeAll(text[i..]).Some? && NoneBetween(m, text, i, j)
    ensures i < d.next <= j && DecodeAll(text[d.next..]).Some? && NoneBetween(m, text, d.next, j)
    ensures DecodeAll(text[i..j]) ==
        match DecodeAll(text[d.next..j]) case None => None case Some(rest) => Some([d.cp] + rest)
    ensures var tail := ScanFrom(m, text, d.next);
            ScanFrom(m, text, i) == Scan(EventsOf(m, Normal(m, d.cp)) + tail.evs, tail.ok)
  {
    hide Normal, EventsOf, DecodeAt;
    ResumeStep(text, [], i);
    StaysBefore(text, i, j);
    SliceDecode(text, i, j);
    d := DecodeAt(text, i).value;
    ItemIsCodepoint(m, text, i);
    assert text[i..j][d.next - i..] == text[d.next..j];
    hide ItemAt;
  }

  lemma PlainJoin(m: Model, c: Scalar, rest: seq<Scalar>, more: seq<Event>)
    ensures EventsOf(m, Normal(m, c)) + (EventsOf(m, NormalAll(m, rest)) + more) ==
        EventsOf(m, NormalAll(m, [c] + rest)) + more
  {
    hide Normal;
    assert ([c] + rest)[1..] == rest;
    EventsConcat(m, Normal(m, c), NormalAll(m, rest));
  }

  lemma NoEventsHere(m: Model)
    ensures EventsOf(m, []) == []
  {
  }

  lemma ItemIsCodepoint(m: Model, text: seq<byte>, i: nat)
    requires i < |text| && AddedAt(m, text, i).None? && DecodeAt(text, i).Some?
    ensures var d := DecodeAt(text, i).value; ItemAt(m, text, i) == Item(EventsOf(m, Normal(m, d.cp)), d.next)
  {
  }

  // ----- the first added token -----

  /** hit is the first enabled literal among these kinds from the cursor on. */
  ghost predicate FirstOf(m: Model, text: seq<byte>, cursor: nat, kinds: set<AddedKind>, hit: Option<Hit>) {
    && (hit.Some? ==> cursor <= hit.value.index < |text| && hit.value.kind in kinds && hit.value.kind in m.enabled
                      && LiteralAt(text, hit.value.index, hit.value.kind))
    && (forall j, k | cursor <= j < (if hit.Some? then hit.value.index else |text|) && k in kinds && k in m.enabled ::
          !LiteralAt(text, j, k))
  }

  lemma SpelledMeans(text: seq<byte>, i: nat, k: AddedKind)
    ensures SpelledAt(text, i, k) <==> LiteralAt(text, i, k)
  {
    SpelledIsLiteral(k);
    hide SpelledBytes, Literal;
  }

  lemma {:induction false} IndexOfIsFirst(text: seq<byte>, k: AddedKind, cursor: nat)
    requires cursor <= |text|
    ensures match IndexOf(text, k, cursor)
            case None => forall j | cursor <= j < |text| :: !LiteralAt(text, j, k)
            case Some(i) => cursor <= i < |text| && LiteralAt(text, i, k) && forall j | cursor <= j < i ::
                !LiteralAt(text, j, k)
    decreases |text| - cursor
  {
    SpelledIsLiteral(k);
    hide LiteralAt, SpelledBytes, Literal;
    SpelledMeans(text, cursor, k);
    hide SpelledAt;
    if cursor < |text| { IndexOfIsFirst(text, k, cursor + 1); }
  }

  lemma HitIsFirst(m: Model, text: seq<byte>, k: AddedKind, cursor: nat)
    requires cursor <= |text|
    ensures FirstOf(m, text, cursor, {k}, HitOf(m, text, k, cursor))
  {
    IndexOfIsFirst(text, k, cursor);
    hide LiteralAt, IndexOf;
  }

  lemma BetterIsFirst(m: Model, text: seq<byte>, cursor: nat, some: set<AddedKind>, a: Option<Hit>,
                      others: set<AddedKind>,
                      b: Option<Hit>)
    requires FirstOf(m, text, cursor, some, a) && FirstOf(m, text, cursor, others, b)
    ensures FirstOf(m, text, cursor, some + others, Better(a, b))
  {
    hide LiteralAt;
  }

  lemma OneLiteralOnly(text: seq<byte>, i: nat, k: AddedKind, l: AddedKind)
    requires LiteralAt(text, i, k) && LiteralAt(text, i, l)
    ensures k == l
  {
    assert text[i + 1] == text[i..i + |Literal(k)|][1] == text[i..i + |Literal(l)|][1];
    SecondByteDecides(k, l);
  }

  /** Taking the minimum over all literals finds where the streaming scan would see the next one. */
  lemma EarliestIsNext(m: Model, text: seq<byte>, cursor: nat)
    requires cursor <= |text|
    ensures match Earliest(m, text, cursor)
            case None => NoneBetween(m, text, cursor, |text|)
            case Some(hit) => cursor <= hit.index < |text| && AddedAt(m, text, hit.index) == Some(hit.kind)
                              && NoneBetween(m, text, cursor, hit.index)
  {
    var mask, pad, unk := HitOf(m, text, MASK, cursor), HitOf(m, text, PAD, cursor), HitOf(m, text, UNK, cursor);
    var cls, sep := HitOf(m, text, CLS, cursor), HitOf(m, text, SEP, cursor);
    HitIsFirst(m, text, MASK, cursor);
    HitIsFirst(m, text, PAD, cursor);
    HitIsFirst(m, text, UNK, cursor);
    HitIsFirst(m, text, CLS, cursor);
    HitIsFirst(m, text, SEP, cursor);
    hide FirstOf, HitOf, Better, LiteralAt;
    BetterIsFirst(m, text, cursor, {CLS}, cls, {SEP}, sep);
    BetterIsFirst(m, text, cursor, {UNK}, unk, {CLS} + {SEP}, Better(cls, sep));
    BetterIsFirst(m, text, cursor, {PAD}, pad, {UNK} + ({CLS} + {SEP}), Better(unk, Better(cls, sep)));
    BetterIsFirst(m, text, cursor, {MASK}, mask, {PAD} + ({UNK} + ({CLS} + {SEP})),
            Better(pad, Better(unk, Better(cls, sep))));
    forall k: AddedKind
      ensures k in {MASK} + ({PAD} + ({UNK} + ({CLS} + {SEP})))
    {
      match k case MASK => case PAD => case UNK => case CLS => case SEP =>
    }
    FirstIsNext(m, text, cursor, {MASK} + ({PAD} + ({UNK} + ({CLS} + {SEP}))), Earliest(m, text, cursor));
  }

  lemma FirstIsNext(m: Model, text: seq<byte>, cursor: nat, kinds: set<AddedKind>, e: Option<Hit>)
    requires FirstOf(m, text, cursor, kinds, e) && forall k: AddedKind :: k in kinds
    ensures NoneBetween(m, text, cursor, if e.Some? then e.value.index else |text|)
    ensures e.Some? ==> cursor <= e.value.index < |text| && AddedAt(m, text, e.value.index) == Some(e.value.kind)
  {
    hide LiteralAt, AddedAt;
    forall j | cursor <= j < (if e.Some? then e.value.index else |text|)
      ensures AddedAt(m, text, j).None?
    {
      var a := AddedAt(m, text, j);
    }
    if e.Some? {
      var a := AddedAt(m, text, e.value.index);
      OneLiteralOnly(text, e.value.index, a.value, e.value.kind);
    }
  }

  // ----- the theorem -----

  lemma {:induction false} ScanIsReference(m: Model, u: Unicode, text: seq<byte>, i: nat, words: seq<Word>)
    requires TablesFaithful(m, u) && SpecialsInPlace(m) && i <= |text| && DecodeAll(text[i..]).Some?
    ensures ScanFrom(m, text, i).ok
    ensures Run(State(words, []), ScanFrom(m, text, i).evs).Flushed().words == words + ReferenceWords(m, u, text, i)
    decreases |text| - i
  {
    hide Earliest, PlainWords, DecodeAll, TablesFaithful, SpecialsInPlace, SpelledBytes, Literal, VocabularyId, ItemAt;
    if i == |text| {
      assert Run(State(words, []), []) == State(words, []);
    } else {
      EarliestIsNext(m, text, i);
      match Earliest(m, text, i)
      case None =>
        LastStretch(m, u, text, i, words);
      case Some(hit) =>
        var done := words + PlainWords(m, u, text[i..hit.index]) + [Special(m.AddedId(hit.kind))];
        StretchAndToken(m, u, text, i, hit, words);
        HitAgrees(m, text, hit);
        ScanIsReference(m, u, text, hit.index + |Literal(hit.kind)|, done);
        hide ScanFrom, Run, AddedAt, NoneBetween;
    }
  }

  lemma HitAgrees(m: Model, text: seq<byte>, hit: Hit)
    requires SpecialsInPlace(m) && hit.index < |text| && AddedAt(m, text, hit.index) == Some(hit.kind)
    ensures VocabularyId(m, hit.kind) == m.AddedId(hit.kind) && |SpelledBytes(hit.kind)| == |Literal(hit.kind)|
  {
    IdsAgree(m, hit.kind);
    SpelledIsLiteral(hit.kind);
  }

  lemma LastStretch(m: Model, u: Unicode, text: seq<byte>, i: nat, words: seq<Word>)
    requires TablesFaithful(m, u) && i <= |text| && DecodeAll(text[i..]).Some? && NoneBetween(m, text, i, |text|)
    ensures ScanFrom(m, text, i).ok
    ensures Run(State(words, []), ScanFrom(m, text, i).evs).Flushed().words == words + PlainWords(m, u, text[i..])
  {
    hide PlainWords, DecodeAll, EventsOf, TablesFaithful, ItemAt, Run, NormalAll;
    var cs := PlainScan(m, text, i, |text|);
    assert text[i..|text|] == text[i..];
    SplittingIsFolding(m, u, text[i..], words, cs);
    var evs := EventsOf(m, NormalAll(m, cs));
    assert ScanFrom(m, text, |text|) == Scan([], true);
    assert evs + [] == evs;
  }

  lemma StretchAndToken(m: Model, u: Unicode, text: seq<byte>, i: nat, hit: Hit, words: seq<Word>)
    requires TablesFaithful(m, u) && i <= hit.index < |text| && DecodeAll(text[i..]).Some?
        && NoneBetween(m, text, i, hit.index)
    requires AddedAt(m, text, hit.index) == Some(hit.kind)
    ensures var next := hit.index + |Literal(hit.kind)|;
            var done := words + PlainWords(m, u, text[i..hit.index]) + [Special(m.AddedId(hit.kind))];
            && next <= |text| && DecodeAll(text[next..]).Some? && ScanFrom(m, text, i).ok == ScanFrom(m, text, next).ok
            && Run(State(words, []), ScanFrom(m, text, i).evs) == Run(State(done, []), ScanFrom(m, text, next).evs)
  {
    hide PlainWords, DecodeAll, EventsOf, TablesFaithful, ItemAt, Run, NormalAll, ScanFrom, AddedAt, NoneBetween;
    LiteralIsAscii(m, text, hit.index);
    var cs := PlainScan(m, text, i, hit.index);
    SplittingIsFolding(m, u, text[i..hit.index], words, cs);
    var next := hit.index + |Literal(hit.kind)|;
    AfterAscii(text, hit.index, next);
    var done := words + PlainWords(m, u, text[i..hit.index]) + [Special(m.AddedId(hit.kind))];
    RunThrough(m, u, text, i, hit, words, cs, done);
  }

  lemma LiteralIsAscii(m: Model, text: seq<byte>, i: nat)
    requires i < |text| && AddedAt(m, text, i).Some?
    ensures var k := AddedAt(m, text, i).value;
            i + |Literal(k)| <= |text| && Cut(text, i) && (forall j | i <= j < i + |Literal(k)| :: text[j] < 0x80)
            && ItemAt(m, text, i) == Item([Direct(m.AddedId(k))], i + |Literal(k)|)
  {
    var k := AddedAt(m, text, i).value;
    assert forall j | i <= j < i + |Literal(k)| :: text[j] == text[i..i + |Literal(k)|][j - i];
  }

  /** Folding a plain stretch and the added token behind it. */
  lemma RunThrough(m: Model, u: Unicode, text: seq<byte>, i: nat, hit: Hit, words: seq<Word>, cs: seq<Scalar>,
                   done: seq<Word>)
    requires i <= hit.index < |text|
    requires ItemAt(m, text, hit.index) == Item([Direct(m.AddedId(hit.kind))], hit.index + |Literal(hit.kind)|)
    requires hit.index + |Literal(hit.kind)| <= |text|
    requires ScanFrom(m, text, i) ==
        Scan(EventsOf(m, NormalAll(m, cs)) + ScanFrom(m, text, hit.index).evs, ScanFrom(m, text, hit.index).ok)
    requires Run(State(words, []), EventsOf(m, NormalAll(m, cs))).Flushed().words + [Special(m.AddedId(hit.kind))] ==
        done
    ensures var rest := ScanFrom(m, text, hit.index + |Literal(hit.kind)|);
            ScanFrom(m, text, i).ok == rest.ok
            && Run(State(words, []), ScanFrom(m, text, i).evs) == Run(State(done, []), rest.evs)
  {
    hide ItemAt, EventsOf, NormalAll;
    var evs := EventsOf(m, NormalAll(m, cs));
    var ev := Direct(m.AddedId(hit.kind));
    var rest := ScanFrom(m, text, hit.index + |Literal(hit.kind)|);
    RunConcat(State(words, []), evs, [ev] + rest.evs);
    assert ([ev] + rest.evs)[1..] == rest.evs;
  }

  /** The one-pass tokenizer computes the multi-pass reference on every valid text: the same words,
      hence without a limit the same ids. */
  lemma StreamingIsReference(m: Model, u: Unicode, text: seq<byte>)
    requires TablesFaithful(m, u) && SpecialsInPlace(m) && Valid(text)
    ensures Words(m, text) == ReferenceWords(m, u, text, 0)
    ensures forall rawLimit :: Tokenize(m, text, 0, rawLimit) == Ids(ReferenceIds(m, u, text), false)
  {
    ValidIffDecodes(text);
    assert text[0..] == text;
    ScanIsReference(m, u, text, 0, []);
    hide TablesFaithful, SpecialsInPlace, ScanFrom, ReferenceWords, IdsOf;
  }

  /** Under any limit the streaming tokenizer pools the ids the reference pools. */
  lemma PooledLikeReference(m: Model, u: Unicode, text: seq<byte>, max: nat)
    requires TablesFaithful(m, u) && SpecialsInPlace(m) && Valid(text)
    ensures var outcome := Tokenize(m, text, max, m.rawLimit);
            var p := Truncation.Policy(m.rawLimit, m.dropUnk, m.limits.unkId);
            outcome.Ids? && Truncation.Usable(p, outcome.ids) ==
                Truncation.ReferencePooled(p, max, ReferenceIds(m, u, text))
  {
    StreamingIsReference(m, u, text);
    ValidIffDecodes(text);
    assert text[0..] == text;
    ScanIsReference(m, u, text, 0, []);
    var p := m.Policy(m.rawLimit);
    var st := Run(START, ScanFrom(m, text, 0).evs);
    var ids, all := IdsOf(m, st.words), IdsOf(m, st.Flushed().words);
    IdsOfPrefix(m, st.words, st.Flushed().words);
    hide TablesFaithful, SpecialsInPlace, ScanFrom, ReferenceWords, IdsOf, Truncation.Cap, Truncation.Usable,
        Truncation.ReferencePooled;
    if Truncation.Cap(p, max, ids).truncated { Truncation.CapOfPrefix(p, max, ids, all); }
    Truncation.CapPoolsLikeReference(p, max, all);
    assert all == ReferenceIds(m, u, text);
  }
}
