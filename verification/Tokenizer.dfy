/** What the streaming tokenizer of se_tokenizer.c computes, as functions on bytes and words.

    The text is scanned into events (a break, a letter, a punctuation mark, an added token); the
    events are folded into words; the words are turned into ids; the ids are capped.
  */
module Tokenizer {
  import opened Utf8
  import opened NormTables
  import WordPiece
  import Truncation

  datatype AddedKind = MASK | PAD | UNK | CLS | SEP

  const ORDER: seq<AddedKind> := [MASK, PAD, UNK, CLS, SEP]
  const BRACKET: byte := 0x5B

  function Literal(k: AddedKind): (r: seq<byte>)
    ensures 5 <= |r| <= 6 && r[0] == BRACKET && r[|r| - 1] == 0x5D
    ensures forall i | 0 <= i < |r| :: r[i] < 0x80 && (i > 0 ==> r[i] != BRACKET)
  {
    match k
    case MASK => [0x5B, 0x4D, 0x41, 0x53, 0x4B, 0x5D]
    case PAD => [0x5B, 0x50, 0x41, 0x44, 0x5D]
    case UNK => [0x5B, 0x55, 0x4E, 0x4B, 0x5D]
    case CLS => [0x5B, 0x43, 0x4C, 0x53, 0x5D]
    case SEP => [0x5B, 0x53, 0x45, 0x50, 0x5D]
  }

  lemma OrderHolds(k: AddedKind) returns (j: nat)
    ensures j < |ORDER| && ORDER[j] == k
  {
    match k
    case MASK => j := 0;
    case PAD => j := 1;
    case UNK => j := 2;
    case CLS => j := 3;
    case SEP => j := 4;
  }

  /** The second byte tells the five literals apart. */
  lemma SecondByteDecides(k: AddedKind, l: AddedKind)
    ensures Literal(k)[1] == Literal(l)[1] <==> k == l
  {
  }

  /** The part of the loaded model the tokenizer and the pooling read. */
  datatype Model = Model(
    cleanText: bool, chinese: bool, stripAccents: bool, lowerCase: bool, tables: Tables,
    tokens: seq<seq<byte>>, limits: WordPiece.Limits,
    enabled: set<AddedKind>, addedIds: map<AddedKind, nat>,
    rawLimit: bool, dropUnk: bool, raiseEmpty: bool)
  {
    function AddedId(k: AddedKind): nat {
      if k == UNK then limits.unkId else if k in addedIds then addedIds[k] else 0
    }

    function Policy(rawLimit: bool): Truncation.Policy { Truncation.Policy(rawLimit, dropUnk, limits.unkId) }
  }

  // ----- character classes -----

  predicate IsAsciiWhitespace(cp: nat) { cp == 0x20 || cp == 0x09 || cp == 0x0A || cp == 0x0D }

  predicate IsAsciiPunct(cp: nat) { 33 <= cp <= 47 || 58 <= cp <= 64 || 91 <= cp <= 96 || 123 <= cp <= 126 }

  predicate IsWhitespace(m: Model, cp: Scalar) {
    if cp < 0x80 then IsAsciiWhitespace(cp) else Covers(m.tables.whitespace, cp)
  }

  predicate IsControl(m: Model, cp: Scalar) {
    if cp < 0x80 then (cp < 0x20 || cp == 0x7F) && !IsAsciiWhitespace(cp) else Covers(m.tables.control, cp)
  }

  predicate IsPunct(m: Model, cp: Scalar) {
    if cp < 0x80 then IsAsciiPunct(cp) else Covers(m.tables.punct, cp)
  }

  predicate IsMn(m: Model, cp: Scalar) { Covers(m.tables.mn, cp) }

  predicate IsCjk(cp: nat) {
    || 0x4E00 <= cp <= 0x9FFF || 0x3400 <= cp <= 0x4DBF || 0x20000 <= cp <= 0x2A6DF || 0x2A700 <= cp <= 0x2B73F
    || 0x2B740 <= cp <= 0x2B81F || 0x2B920 <= cp <= 0x2CEAF || 0xF900 <= cp <= 0xFAFF || 0x2F800 <= cp <= 0x2FA1F
  }

  /** cp == 0, U+FFFD and control codepoints are removed when the text is cleaned. */
  predicate IsDropped(m: Model, cp: Scalar) { cp == 0 || cp == 0xFFFD || IsControl(m, cp) }

  // ----- the normalisation of one codepoint -----

  function Lowered(m: Model, cp: Scalar): seq<Scalar> {
    if !m.lowerCase then [cp]
    else if 0x41 <= cp <= 0x5A then [cp + 32]
    else if cp < 0x80 then [cp]
    else match Lookup(m.tables.lower, cp) case None => [cp] case Some(out) => out
  }

  function LoweredUnlessMark(m: Model, out: seq<Scalar>): seq<Scalar> {
    if out == [] then []
    else (if IsMn(m, out[0]) then [] else Lowered(m, out[0])) + LoweredUnlessMark(m, out[1..])
  }

  function Stripped(m: Model, cp: Scalar): seq<Scalar> {
    if !m.stripAccents || cp < 0x80 then Lowered(m, cp)
    else match Lookup(m.tables.nfd, cp)
      case None => if IsMn(m, cp) then [] else Lowered(m, cp)
      case Some(out) => LoweredUnlessMark(m, out)
  }

  function Spaced(m: Model, cp: Scalar): seq<Scalar> {
    if m.chinese && cp >= 0x3400 && IsCjk(cp)
    then Stripped(m, 0x20) + Stripped(m, cp) + Stripped(m, 0x20)
    else Stripped(m, cp)
  }

  /** Everything `emit_cleaned` feeds to the segmenter for one codepoint. */
  function Normal(m: Model, cp: Scalar): seq<Scalar> {
    if !m.cleanText then Spaced(m, cp)
    else if IsDropped(m, cp) then []
    else Spaced(m, if IsWhitespace(m, cp) then 0x20 else cp)
  }

  // ----- events -----

  datatype Event = Break | Letter(cp: Scalar) | Mark(cp: Scalar) | Direct(id: nat)

  function EventOf(m: Model, cp: Scalar): Event {
    if IsWhitespace(m, cp) then Break else if IsPunct(m, cp) then Mark(cp) else Letter(cp)
  }

  function EventsOf(m: Model, cps: seq<Scalar>): (r: seq<Event>)
    ensures |r| == |cps| && forall i | 0 <= i < |r| :: r[i] == EventOf(m, cps[i])
  {
    seq(|cps|, i requires 0 <= i < |cps| => EventOf(m, cps[i]))
  }

  lemma EventsConcat(m: Model, a: seq<Scalar>, b: seq<Scalar>)
    ensures EventsOf(m, a + b) == EventsOf(m, a) + EventsOf(m, b)
  {
  }

  // ----- scanning the bytes -----

  predicate LiteralAt(text: seq<byte>, i: nat, k: AddedKind) {
    i + |Literal(k)| <= |text| && text[i..i + |Literal(k)|] == Literal(k)
  }

  lemma BracketFirst(text: seq<byte>, s: nat, k: AddedKind)
    ensures LiteralAt(text, s, k) ==> s < |text| && text[s] == BRACKET
  {
    hide Literal;
    if LiteralAt(text, s, k) { assert text[s] == text[s..s + |Literal(k)|][0]; }
  }

  predicate EnabledAt(m: Model, text: seq<byte>, i: nat, k: AddedKind) { k in m.enabled && LiteralAt(text, i, k) }

  function FirstEnabled(m: Model, text: seq<byte>, i: nat): (r: Option<AddedKind>)
    ensures r.Some? ==> EnabledAt(m, text, i, r.value)
    ensures r.None? ==> forall k :: !EnabledAt(m, text, i, k)
  {
    hide EnabledAt;
    if EnabledAt(m, text, i, MASK) then Some(MASK)
    else if EnabledAt(m, text, i, PAD) then Some(PAD)
    else if EnabledAt(m, text, i, UNK) then Some(UNK)
    else if EnabledAt(m, text, i, CLS) then Some(CLS)
    else if EnabledAt(m, text, i, SEP) then Some(SEP)
    else None
  }

  /** The added token whose literal starts at i, if its flag is set. */
  function AddedAt(m: Model, text: seq<byte>, i: nat): (r: Option<AddedKind>)
    ensures r.Some? ==> r.value in m.enabled && LiteralAt(text, i, r.value)
    ensures r.None? ==> forall k | k in m.enabled :: !LiteralAt(text, i, k)
  {
    hide LiteralAt, FirstEnabled;
    assert forall k | k in m.enabled && LiteralAt(text, i, k) :: EnabledAt(m, text, i, k);
    FirstEnabled(m, text, i)
  }

  datatype Item = Item(evs: seq<Event>, next: nat) | Bad

  function ItemAt(m: Model, text: seq<byte>, i: nat): (r: Item)
    requires i < |text|
    ensures r.Item? ==> i < r.next <= |text|
  {
    match AddedAt(m, text, i)
    case Some(k) => Item([Direct(m.AddedId(k))], i + |Literal(k)|)
    case None =>
      match DecodeAt(text, i)
      case None => Bad
      case Some(d) => DecodeSound(text, i); Item(EventsOf(m, Normal(m, d.cp)), d.next)
  }

  datatype Scan = Scan(evs: seq<Event>, ok: bool)

  /** The events from byte i on, up to the end or to the first byte that does not decode. */
  function ScanFrom(m: Model, text: seq<byte>, i: nat): Scan
    requires i <= |text|
    decreases |text| - i
  {
    if i == |text| then Scan([], true)
    else match ItemAt(m, text, i)
      case Bad => Scan([], false)
      case Item(evs, next) =>
        var rest := ScanFrom(m, text, next);
        Scan(evs + rest.evs, rest.ok)
  }

  /** The bytes from i0 up to i give these events, and the scan goes on at i. */
  ghost predicate ScannedTo(m: Model, text: seq<byte>, i0: nat, evs: seq<Event>, i: nat) {
    && i0 <= i <= |text|
    && ScanFrom(m, text, i0) == Scan(evs + ScanFrom(m, text, i).evs, ScanFrom(m, text, i).ok)
  }

  lemma ScanStarts(m: Model, text: seq<byte>, i: nat)
    requires i <= |text|
    ensures ScannedTo(m, text, i, [], i)
  {
  }

  lemma ScanStep(m: Model, text: seq<byte>, i0: nat, evs: seq<Event>, i: nat)
    requires ScannedTo(m, text, i0, evs, i) && i < |text| && ItemAt(m, text, i).Item?
    ensures var item := ItemAt(m, text, i); ScannedTo(m, text, i0, evs + item.evs, item.next)
    ensures evs + ItemAt(m, text, i).evs <= ScanFrom(m, text, i0).evs
  {
    hide ItemAt;
    var item := ItemAt(m, text, i);
    var rest := ScanFrom(m, text, item.next);
    assert evs + (item.evs + rest.evs) == evs + item.evs + rest.evs;
  }

  // ----- words -----

  datatype Word = Plain(chars: seq<Scalar>) | Special(id: nat)

  /** The words finished so far and the word being built. */
  datatype State = State(words: seq<Word>, seg: seq<Scalar>) {
    function Flushed(): State {
      if seg == [] then this else State(words + [Plain(seg)], [])
    }
  }

  function Feed(st: State, ev: Event): State {
    match ev
    case Break => st.Flushed()
    case Letter(cp) => State(st.words, st.seg + [cp])
    case Mark(cp) => State(st.Flushed().words + [Plain([cp])], [])
    case Direct(id) => State(st.Flushed().words + [Special(id)], [])
  }

  function Run(st: State, evs: seq<Event>): State
    decreases |evs|
  {
    if evs == [] then st else Run(Feed(st, evs[0]), evs[1..])
  }

  const START: State := State([], [])

  /** The words of a text: what the tokenizer has cut it into when it reaches the end. */
  function Words(m: Model, text: seq<byte>): seq<Word> {
    Run(START, ScanFrom(m, text, 0).evs).Flushed().words
  }

  // ----- ids -----

  function IdsOfWord(m: Model, w: Word): seq<nat> {
    match w
    case Plain(chars) => WordPiece.WordIds(m.tokens, m.limits, chars)
    case Special(id) => [id]
  }

  function IdsOf(m: Model, words: seq<Word>): seq<nat> {
    if words == [] then [] else IdsOf(m, words[..|words| - 1]) + IdsOfWord(m, words[|words| - 1])
  }

  datatype Outcome = Ids(ids: seq<nat>, truncated: bool) | InvalidUtf8

  /** `se_tokenize`: stops at the first append that exceeds the cap; a byte that does not decode is
      an error only when it is reached before that. */
  function Tokenize(m: Model, text: seq<byte>, max: nat, rawLimit: bool): Outcome {
    var scan := ScanFrom(m, text, 0);
    var st := Run(START, scan.evs);
    var p := m.Policy(rawLimit);
    var before := Truncation.Cap(p, max, IdsOf(m, st.words));
    if before.truncated then Ids(before.ids, true)
    else if !scan.ok then InvalidUtf8
    else
      var after := Truncation.Cap(p, max, IdsOf(m, st.Flushed().words));
      Ids(after.ids, after.truncated)
  }

  // ----- the fold -----

  lemma {:induction false} RunConcat(st: State, a: seq<Event>, b: seq<Event>)
    ensures Run(st, a + b) == Run(Run(st, a), b)
    decreases |a|
  {
    if a == [] {
      assert a + b == b;
    } else {
      assert (a + b)[1..] == a[1..] + b;
      RunConcat(Feed(st, a[0]), a[1..], b);
    }
  }

  /** Words once finished stay. */
  lemma {:induction false} RunKeepsWords(st: State, evs: seq<Event>)
    ensures st.words <= Run(st, evs).words
    decreases |evs|
  {
    if evs != [] { RunKeepsWords(Feed(st, evs[0]), evs[1..]); }
  }

  lemma {:induction false} IdsConcat(m: Model, a: seq<Word>, b: seq<Word>)
    ensures IdsOf(m, a + b) == IdsOf(m, a) + IdsOf(m, b)
    decreases |b|
  {
    hide IdsOfWord;
    if b == [] {
      assert a + b == a;
    } else {
      assert (a + b)[..|a + b| - 1] == a + b[..|b| - 1];
      IdsConcat(m, a, b[..|b| - 1]);
    }
  }

  lemma IdsOfPrefix(m: Model, a: seq<Word>, b: seq<Word>)
    requires a <= b
    ensures IdsOf(m, a) <= IdsOf(m, b)
  {
    IdsConcat(m, a, b[|a|..]);
    assert b == a + b[|a|..];
  }
}
