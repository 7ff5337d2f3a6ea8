/** The other way a batch differs from embedding its texts one by one: a codepoint that ends a word in the
    eyes of the prefix window, but that cleaning removes, as U+0085 in the shipped tables.
  */
module GluedBatch {
  import opened Utf8
  import opened Tokenizer
  import opened PrefixWindow
  import opened Batch
  import opened BlankBatch
  import NormTables
  import WordPiece
  import VocabHash
  import Truncation
  import TokenState
  import Opening

  predicate Simple(text: seq<byte>) { forall i | 0 <= i < |text| :: text[i] < 0x80 && text[i] != BRACKET }

  /** A simple byte is scanned without regard to what follows it. */
  lemma SimpleItem(m: Model, text: seq<byte>, a: seq<byte>, b: seq<byte>, i: nat)
    requires i < |text| && Simple(text)
    ensures ItemAt(m, text + a, i) == ItemAt(m, text + b, i) && ItemAt(m, text + a, i).Item?
    ensures ItemAt(m, text + a, i).next == i + 1
  {
    forall k ensures !LiteralAt(text + a, i, k) && !LiteralAt(text + b, i, k) {
      BracketFirst(text + a, i, k);
      BracketFirst(text + b, i, k);
    }
    hide Normal, EventsOf, LiteralAt;
    assert DecodeAt(text + a, i) == Some(Decoded(text[i], i + 1)) == DecodeAt(text + b, i);
  }

  lemma DroppedItem(m: Model, text: seq<byte>, i: nat, cp: Scalar)
    requires m.cleanText && IsDropped(m, cp) && cp >= 0x80 && i + |Encode(cp)| <= |text|
    requires text[i..i + |Encode(cp)|] == Encode(cp)
    ensures ItemAt(m, text, i) == Item([], i + |Encode(cp)|)
  {
    DecodeComplete(text, i, cp);
    assert text[i] == text[i..i + |Encode(cp)|][0] >= 0x80;
    forall k ensures !LiteralAt(text, i, k) { BracketFirst(text, i, k); }
    hide Encode, LiteralAt, DecodeAt;
  }

  /** A removed codepoint leaves no trace in the events. */
  lemma {:induction false} DroppedVanishes(m: Model, front: seq<byte>, cp: Scalar, back: seq<byte>, i: nat)
    requires m.cleanText && IsDropped(m, cp) && cp >= 0x80 && Simple(front) && i <= |front|
    ensures ScanFrom(m, front + Encode(cp) + back, i) == ScanFrom(m, front + back, i)
    decreases |front| - i
  {
    var with, without := front + Encode(cp) + back, front + back;
    hide ItemAt, Encode;
    if i < |front| {
      assert with == front + (Encode(cp) + back);
      SimpleItem(m, front, Encode(cp) + back, back, i);
      DroppedVanishes(m, front, cp, back, i + 1);
    } else {
      DroppedAtFront(m, front, cp, back);
      ScanShift(m, without, i, i);
      assert without[i..] == back;
    }
  }

  lemma DroppedAtFront(m: Model, front: seq<byte>, cp: Scalar, back: seq<byte>)
    requires m.cleanText && IsDropped(m, cp) && cp >= 0x80
    ensures ScanFrom(m, front + Encode(cp) + back, |front|) == ScanFrom(m, back, 0)
  {
    hide ItemAt, Encode, IsDropped, ScanFrom;
    var text, c := front + Encode(cp) + back, |front| + |Encode(cp)|;
    assert text[|front|..c] == Encode(cp);
    DroppedItem(m, text, |front|, cp);
    ScanShift(m, text, c, c);
    SkipItem(m, text, |front|, c);
    assert text[c..] == back;
  }

  lemma SkipItem(m: Model, text: seq<byte>, i: nat, next: nat)
    requires i < next <= |text| && ItemAt(m, text, i) == Item([], next)
    ensures ScanFrom(m, text, i) == ScanFrom(m, text, next)
  {
    hide ItemAt;
    assert [] + ScanFrom(m, text, next).evs == ScanFrom(m, text, next).evs;
  }

  lemma SameEvents(m: Model, a: seq<byte>, b: seq<byte>, max: nat)
    requires ScanFrom(m, a, 0) == ScanFrom(m, b, 0)
    ensures EmbedOne(m, a, max) == EmbedOne(m, b, max)
  {
    hide ScanFrom;
  }

  /** Spaces up to the initial budget, a word, the removed codepoint at the very end of the budget, and the
      rest of the word. */
  function GluedText(n: nat, word: seq<byte>, cp: Scalar, rest: seq<byte>): seq<byte> {
    Spaces(n) + word + Encode(cp) + rest
  }

  lemma {:induction false} BackToLead(m: Model, text: seq<byte>, target: nat, floor: nat, p: nat, pos: nat)
    requires floor <= p < pos <= target <= |text| && !IsContinuation(text[p]) && DecodeAt(text, p).Some?
    requires TakenAt(m, text, p, target) != 0 && forall k | p < k < pos :: IsContinuation(text[k])
    ensures ScanBack(m, text, target, floor, pos) == TakenAt(m, text, p, target)
  {
    hide TakenAt, DecodeAt;
    if p < pos - 1 { BackToLead(m, text, target, floor, p, pos - 1); }
  }

  /** The scan takes the cut behind the removed codepoint. */
  lemma GluedCut(m: Model, front: seq<byte>, cp: Scalar, rest: seq<byte>)
    requires m.cleanText && DroppedBoundary(m, cp) && Simple(front) && Simple(rest) && rest != []
    ensures var c := |front| + |Encode(cp)|; Boundary(m, front + Encode(cp) + rest, c, BACKSCAN) == c
  {
    var text, p, c := front + Encode(cp) + rest, |front|, |front| + |Encode(cp)|;
    DroppedIsWide(m, cp);
    NoBracketAcross(m, front, cp, rest, c);
    assert text[p..c] == Encode(cp);
    DecodeComplete(text, p, cp);
    InsideIsContinuation(text, p);
    hide SplitsLiteral, DecodeAt, Encode, Stable, IsDropped, IsWhitespace, IsPunct;
    assert TakenAt(m, text, p, c) == c;
    BackToLead(m, text, c, Floor(c, BACKSCAN), p, c);
  }

  lemma NoBracketAcross(m: Model, front: seq<byte>, cp: Scalar, rest: seq<byte>, c: nat)
    requires cp >= 0x80 && Simple(front) && Simple(rest)
    ensures !SplitsLiteral(m, front + Encode(cp) + rest, c) && |Encode(cp)| <= 4
  {
    var text := front + Encode(cp) + rest;
    forall s: nat, k | s < |text| ensures !LiteralAt(text, s, k) { BracketFirst(text, s, k); }
    hide Literal;
  }

  /** The batch sees the word before the removed codepoint, cut off where the word goes on: it returns the
      embedding of `word` alone, while the text embeds like `word + rest` in one piece. */
  lemma GluedRow(m: Model, word: seq<byte>, cp: Scalar, rest: seq<byte>, max: nat)
    requires m.cleanText && DroppedBoundary(m, cp) && Simple(word) && Simple(rest) && rest != []
    requires max != 0 && |word| + |Encode(cp)| <= InitialTarget(max)
    requires var e := EmbedOne(m, word, max); e.Embedded? && e.row.stats.truncated
    ensures var text := GluedText(InitialTarget(max) - |word| - |Encode(cp)|, word, cp, rest);
            && RowOf(m, text, max) == EmbedOne(m, word, max)
            && EmbedOne(m, text, max) == EmbedOne(m, word + rest, max)
  {
    hide EmbedOne, Boundary, Encode, DroppedBoundary;
    var n: nat := InitialTarget(max) - |word| - |Encode(cp)|;
    var front, c := Spaces(n) + word, InitialTarget(max);
    var text := front + Encode(cp) + rest;
    GluedCut(m, front, cp, rest);
    GluedEmbeds(m, n, word, cp, rest, max);
    GluedEmbeds(m, n, word, cp, [], max);
    assert front + Encode(cp) + [] == text[..c] && word + [] == word;
    assert Slice(m, text, c) == text[..c];
  }

  lemma DroppedSimple(m: Model, cp: Scalar, n: nat, word: seq<byte>)
    requires DroppedBoundary(m, cp) && Simple(word)
    ensures IsDropped(m, cp) && Simple(Spaces(n) + word)
  {
  }

  /** At once, the removed codepoint is not there. */
  lemma GluedEmbeds(m: Model, n: nat, word: seq<byte>, cp: Scalar, rest: seq<byte>, max: nat)
    requires m.cleanText && DroppedBoundary(m, cp) && Simple(word)
    ensures EmbedOne(m, GluedText(n, word, cp, rest), max) == EmbedOne(m, word + rest, max)
  {
    hide EmbedOne, Encode, IsDropped, ScanFrom, Simple;
    assert IsDropped(m, cp) && Simple(Spaces(n) + word) by { DroppedSimple(m, cp, n, word); }
    DroppedIsWide(m, cp);
    DroppedVanishes(m, Spaces(n) + word, cp, rest, 0);
    SameEvents(m, GluedText(n, word, cp, rest), Spaces(n) + word + rest, max);
    assert Spaces(n) + word + rest == Spaces(n) + (word + rest);
    LeadingSpaces(m, n, word + rest, max);
  }

  // ----- one model and one text -----

  const X: Scalar := 0x78
  const Y: Scalar := 0x79
  const Z: Scalar := 0x7A

  /** "[UNK]", "x", "##y", "xyz" */
  const GLUE_TOKENS: seq<seq<byte>> := [Literal(UNK), [X], [0x23, 0x23, Y], [X, Y, Z]]

  /** Tables that know nothing but U+0085, which they list as the shipped ones do. */
  const GLUE: Model := Model(
    true, false, false, false,
    NormTables.Tables([], [], [], [], [NormTables.Range(NEXT_LINE, NEXT_LINE)],
            [NormTables.Range(NEXT_LINE, NEXT_LINE)]),
    GLUE_TOKENS, WordPiece.Limits(100, WordPiece.Window(GLUE_TOKENS, 100), 0), {}, map[], true, false, false)

  lemma GlueLists()
    ensures ListsNextLineTwice(GLUE)
  {
    assert NormTables.InRange(GLUE.tables.control[0], NEXT_LINE);
  }

  lemma GlueFind()
    ensures VocabHash.Find(GLUE_TOKENS, [X, Y, Z]) == Some(3) && VocabHash.Find(GLUE_TOKENS, [X, Y]) == None
    ensures VocabHash.Find(GLUE_TOKENS, [X]) == Some(1) && VocabHash.Find(GLUE_TOKENS, [0x23, 0x23, Y]) == Some(2)
  {
  }

  lemma GlueBytes()
    ensures WordPiece.Piece([X, Y], 0, 2) == [X, Y] && WordPiece.Piece([X, Y], 0, 1) == [X]
    ensures WordPiece.Piece([X, Y], 1, 2) == [0x23, 0x23, Y] && WordPiece.Piece([X, Y, Z], 0, 3) == [X, Y, Z]
  {
    var xy: seq<Scalar>, xyz: seq<Scalar>, yz: seq<Scalar> := [X, Y], [X, Y, Z], [Y, Z];
    assert xy[0..2] == xy && xy[0..1] == [X] && xy[1..2] == [Y] && xyz[0..3] == xyz;
    assert xy[1..] == [Y] && xyz[1..] == yz && yz[1..] == [Z];
    assert EncodeAll([]) == [];
    assert EncodeAll([X]) == [X] && EncodeAll([Y]) == [Y] && EncodeAll([Z]) == [Z];
    assert EncodeAll(xy) == [X] + [Y] && EncodeAll(yz) == [Y] + [Z];
    assert EncodeAll(xyz) == [X] + ([Y] + [Z]);
  }

  lemma GluePieces()
    ensures WordPiece.WordIds(GLUE_TOKENS, GLUE.limits, [X, Y]) == [1, 2]
    ensures WordPiece.WordIds(GLUE_TOKENS, GLUE.limits, [X, Y, Z]) == [3]
  {
    GlueFind();
    GlueBytes();
    hide VocabHash.Find, WordPiece.Piece;
    var xy: seq<Scalar>, xyz: seq<Scalar> := [X, Y], [X, Y, Z];
    assert WordPiece.LongestPiece(GLUE_TOKENS, xy, 0, 1) == Some(WordPiece.Found(1, 1));
    assert WordPiece.LongestPiece(GLUE_TOKENS, xy, 0, 2) == Some(WordPiece.Found(1, 1));
    assert WordPiece.LongestPiece(GLUE_TOKENS, xy, 1, 2) == Some(WordPiece.Found(2, 2));
    assert WordPiece.LongestPiece(GLUE_TOKENS, xyz, 0, 3) == Some(WordPiece.Found(3, 3));
    hide WordPiece.LongestPiece;
    assert WordPiece.Pieces(GLUE_TOKENS, xy, 2) == Some([]) && WordPiece.Pieces(GLUE_TOKENS, xyz, 3) == Some([]);
    WordPiece.PiecesStep(GLUE_TOKENS, xy, 1);
    WordPiece.PiecesStep(GLUE_TOKENS, xy, 0);
    WordPiece.PiecesStep(GLUE_TOKENS, xyz, 0);
  }

  /** Lower-case letters alone are one word. */
  lemma {:induction false} LettersScan(m: Model, text: seq<byte>, i: nat, st: State)
    requires m.cleanText && m.enabled == {} && i <= |text| && forall k | 0 <= k < |text| :: 0x61 <= text[k] <= 0x7A
    ensures ScanFrom(m, text, i).ok
    ensures Run(st, ScanFrom(m, text, i).evs) == State(st.words, st.seg + text[i..])
    decreases |text| - i
  {
    hide ItemAt;
    if i < |text| {
      LetterItem(m, text, i);
      LettersScan(m, text, i + 1, State(st.words, st.seg + [text[i]]));
      var rest := ScanFrom(m, text, i + 1).evs;
      assert ([Letter(text[i])] + rest)[1..] == rest;
      assert st.seg + [text[i]] + text[i + 1..] == st.seg + text[i..];
    } else {
      assert st.seg + text[i..] == st.seg;
    }
  }

  lemma LetterItem(m: Model, text: seq<byte>, i: nat)
    requires m.cleanText && m.enabled == {} && i < |text| && 0x61 <= text[i] <= 0x7A
    ensures ItemAt(m, text, i) == Item([Letter(text[i])], i + 1)
  {
    assert DecodeAt(text, i) == Some(Decoded(text[i], i + 1));
    assert Normal(m, text[i]) == [text[i]];
    assert EventsOf(m, [text[i]]) == [Letter(text[i])];
    hide Normal, EventsOf, DecodeAt;
  }

  lemma OneWord(m: Model, text: seq<byte>, max: nat)
    requires m.cleanText && m.enabled == {} && Letters(text)
    ensures Words(m, text) == [Plain(text)] && Tokenize(m, text, max, m.rawLimit).Ids?
  {
    LettersScan(m, text, 0, START);
    assert [] + text[0..] == text;
    hide ScanFrom, Run, IdsOf, Truncation.Cap;
  }

  /** What such a word embeds to, given its ids. */
  lemma OneWordEmbeds(m: Model, text: seq<byte>, max: nat, kept: seq<nat>, truncated: bool)
    requires m.cleanText && m.enabled == {} && Letters(text)
    requires m.rawLimit && !m.dropUnk && !m.raiseEmpty
    requires Truncation.Cap(m.Policy(true), max, WordPiece.WordIds(m.tokens, m.limits, text)) ==
        Truncation.Capped(kept, truncated)
    ensures EmbedOne(m, text, max).Embedded?
    ensures var row := EmbedOne(m, text, max).row; row.pooled == kept && row.stats.truncated == truncated
  {
    OneWord(m, text, max);
    TokenizeIsCap(m, text, max, true);
    assert IdsOf(m, []) == [];
    assert IdsOf(m, [Plain(text)]) == WordPiece.WordIds(m.tokens, m.limits, text);
    AllUsable(m.Policy(true), kept);
    hide Words, Tokenize, IdsOf, Truncation.Cap, WordPiece.WordIds;
  }

  lemma {:induction false} AllUsable(p: Truncation.Policy, ids: seq<nat>)
    requires !p.dropUnk
    ensures Truncation.Usable(p, ids) == ids
  {
    if ids != [] { AllUsable(p, ids[..|ids| - 1]); }
  }

  predicate Letters(text: seq<byte>) { text != [] && forall k | 0 <= k < |text| :: 0x61 <= text[k] <= 0x7A }

  /** A word that the cap cuts although the text's word fits it, or is cut elsewhere. */
  lemma LettersGlued(m: Model, word: seq<byte>, cp: Scalar, rest: seq<byte>, max: nat, a: seq<nat>, b: seq<nat>,
                     truncated: bool)
    requires m.cleanText && m.enabled == {} && m.rawLimit && !m.dropUnk && !m.raiseEmpty && DroppedBoundary(m, cp)
    requires Letters(word) && Letters(rest) && max != 0 && |word| + |Encode(cp)| <= InitialTarget(max)
    requires var p := m.Policy(true);
             && Truncation.Cap(p, max, WordPiece.WordIds(m.tokens, m.limits, word)) == Truncation.Capped(a, true)
             && Truncation.Cap(p, max, WordPiece.WordIds(m.tokens, m.limits, word + rest)) ==
                 Truncation.Capped(b, truncated)
    ensures var text := GluedText(InitialTarget(max) - |word| - |Encode(cp)|, word, cp, rest);
            && RowOf(m, text, max).Embedded? && RowOf(m, text, max).row.pooled == a
            && EmbedOne(m, text, max).Embedded? && EmbedOne(m, text, max).row.pooled == b
  {
    hide WordPiece.WordIds, Truncation.Cap, EmbedOne, RowOf, GluedText, DroppedBoundary, Encode;
    OneWordEmbeds(m, word, max, a, true);
    OneWordEmbeds(m, word + rest, max, b, truncated);
    GluedRow(m, word, cp, rest, max);
  }

  /** Raw limit, nothing dropped or refused, and "xy" is cut by a cap of one to another id than "xyz". */
  predicate CutsXy(n: Model) {
    && n.cleanText && n.enabled == {} && n.rawLimit && !n.dropUnk && !n.raiseEmpty
    && Truncation.Cap(n.Policy(true), 1, WordPiece.WordIds(n.tokens, n.limits, [X, Y])) == Truncation.Capped([1], true)
    && Truncation.Cap(n.Policy(true), 1, WordPiece.WordIds(n.tokens, n.limits, [X, Y, Z])) ==
         Truncation.Capped([3], false)
  }

  /** "xy", the codepoint, "z", so that the first budget of a cap of one ends behind the codepoint. */
  function XyText(cp: Scalar): seq<byte> { GluedText(InitialTarget(1) - 2 - |Encode(cp)|, [X, Y], cp, [Z]) }

  lemma XyGlued(n: Model, cp: Scalar)
    requires CutsXy(n) && DroppedBoundary(n, cp)
    ensures RowOf(n, XyText(cp), 1).Embedded? && RowOf(n, XyText(cp), 1).row.pooled == [1]
    ensures EmbedOne(n, XyText(cp), 1).Embedded? && EmbedOne(n, XyText(cp), 1).row.pooled == [3]
  {
    hide WordPiece.WordIds, Truncation.Cap, EmbedOne, RowOf, GluedText, DroppedBoundary, Encode;
    assert [X, Y] + [Z] == [X, Y, Z];
    LettersGlued(n, [X, Y], cp, [Z], 1, [1], [3], false);
  }

  lemma CapsTo(p: Truncation.Policy)
    requires p.rawLimit
    ensures Truncation.Cap(p, 1, [1, 2]) == Truncation.Capped([1], true)
    ensures Truncation.Cap(p, 1, [3]) == Truncation.Capped([3], false)
  {
    Truncation.CountedRaw(p, [1, 2]);
    Truncation.CountedRaw(p, [3]);
    Truncation.CountedRaw(p, [1]);
    var ids: seq<nat> := [1, 2];
    Truncation.CutForIsCut(p, ids, 1);
    Truncation.CountedRaw(p, ids[..Truncation.CutFor(p, ids, 1)]);
    assert ids[..1] == [1];
  }

  lemma GlueCaps()
    ensures CutsXy(GLUE) && DroppedBoundary(GLUE, NEXT_LINE)
  {
    hide WordPiece.WordIds, WordPiece.Window, Truncation.Cap, ListsNextLineTwice, DroppedBoundary, Literal;
    CapsTo(GLUE.Policy(true));
    GluePieces();
    GlueLists();
    NextLineIsADroppedBoundary(GLUE);
  }

  lemma GlueFits()
    ensures VocabHash.FitsFormat(GLUE_TOKENS) && WordPiece.AllValid(GLUE_TOKENS) && VocabHash.Distinct(GLUE_TOKENS)
    ensures TokenState.UnkIsItself(GLUE) && TokenState.AddedAreThemselves(GLUE)
  {
    assert GLUE_TOKENS[0] == Literal(UNK) && |Literal(UNK)| >= 5;
    hide Literal, Valid;
    forall i | 0 <= i < |GLUE_TOKENS| ensures Valid(GLUE_TOKENS[i]) { AsciiIsValid(GLUE_TOKENS[i]); }
    JoinedLength(GLUE_TOKENS, 6);
  }

  lemma {:induction false} JoinedLength(tokens: seq<seq<byte>>, n: nat)
    requires forall i | 0 <= i < |tokens| :: |tokens[i]| <= n
    ensures |VocabHash.Joined(tokens)| <= |tokens| * n
  {
    if tokens != [] { JoinedLength(tokens[..|tokens| - 1], n); }
  }

  method OpenGlue()
    returns (ix: WordPiece.Index, ghost rootKeys: map<seq<byte>, nat>, ghost bodyKeys: map<seq<byte>, nat>)
    ensures TokenState.Opened(GLUE, ix, rootKeys, bodyKeys)
  {
    GlueFits();
    hide VocabHash.FitsFormat, WordPiece.AllValid, WordPiece.Window, VocabHash.Distinct, TokenState.Opened,
        TokenState.UnkIsItself, TokenState.AddedAreThemselves;
    var r;
    r, rootKeys, bodyKeys := Opening.ConvertAndOpen(GLUE, 4.0 / 0.70);
    ix := r.value;
  }

  /** The loader opens that model, and the batch returns the row of "x" for a text that embeds to "xyz". */
  method GlueIsReturned() returns (r: BatchResult)
    ensures r.Rows? && |r.rows| == 1 && r.rows[0].pooled == [1]
    ensures var e := EmbedOne(GLUE, XyText(NEXT_LINE), 1); e.Embedded? && e.row.pooled == [3]
  {
    hide GLUE, EmbedOne, RowOf, XyText, TokenState.Opened, CutsXy, DroppedBoundary;
    GlueCaps();
    XyGlued(GLUE, NEXT_LINE);
    var ix, rootKeys, bodyKeys := OpenGlue();
    r := EmbedAlone(GLUE, ix, rootKeys, bodyKeys, XyText(NEXT_LINE), 1);
  }

  // ----- which tables are exact for every vocabulary -----

  /** The same flags and tables; vocabulary, limits and policies are free. */
  predicate SameNormalizer(m: Model, n: Model) {
    && n.cleanText == m.cleanText && n.chinese == m.chinese && n.stripAccents == m.stripAccents
    && n.lowerCase == m.lowerCase && n.tables == m.tables
  }

  /** What `Opening.ConvertAndOpen` needs to open the model. */
  ghost predicate Openable(m: Model) {
    && m.cleanText && VocabHash.FitsFormat(m.tokens) && WordPiece.AllValid(m.tokens) && VocabHash.Distinct(m.tokens)
    && m.limits.maxTokenChars == WordPiece.Window(m.tokens, m.limits.maxInputChars)
    && TokenState.UnkIsItself(m) && TokenState.AddedAreThemselves(m)
  }

  ghost predicate RowsAreEmbeddings(m: Model) {
    forall text: seq<byte>, max: nat | Valid(text) :: RowOf(m, text, max) == EmbedOne(m, text, max)
  }

  /** m's flags and tables with the vocabulary of "x", "##y" and "xyz". */
  function WithGlue(m: Model): Model {
    m.(tokens := GLUE_TOKENS, limits := GLUE.limits, enabled := {}, addedIds := map[],
       rawLimit := true, dropUnk := false, raiseEmpty := false)
  }

  lemma GlueOpens(m: Model)
    requires m.cleanText
    ensures SameNormalizer(m, WithGlue(m)) && Openable(WithGlue(m)) && !WithGlue(m).raiseEmpty
  {
    GlueFits();
    hide VocabHash.FitsFormat, WordPiece.AllValid, VocabHash.Distinct, WordPiece.Window, Literal;
  }

  lemma SameBoundaries(m: Model, n: Model, cp: Scalar)
    requires SameNormalizer(m, n)
    ensures DroppedBoundary(m, cp) <==> DroppedBoundary(n, cp)
  {
  }

  lemma ValidConcat(a: seq<byte>, b: seq<byte>)
    requires Valid(a) && Valid(b)
    ensures Valid(a + b)
  {
    hide EncodeAll;
    var x: seq<Scalar> :| EncodeAll(x) == a;
    var y: seq<Scalar> :| EncodeAll(y) == b;
    EncodeAllConcat(x, y);
    assert EncodeAll(x + y) == a + b;
  }

  lemma OneIsValid(cp: Scalar)
    ensures Valid(Encode(cp))
  {
    hide Encode;
    assert EncodeAll([]) == [];
    assert EncodeAll([cp]) == Encode(cp) + [] == Encode(cp);
  }

  lemma GluedTextIsValid(n: nat, word: seq<byte>, cp: Scalar, rest: seq<byte>)
    requires Simple(word) && Simple(rest)
    ensures Valid(GluedText(n, word, cp, rest))
  {
    AsciiIsValid(Spaces(n) + word);
    AsciiIsValid(rest);
    hide Encode, Valid, Spaces;
    OneIsValid(cp);
    ValidConcat(Spaces(n) + word, Encode(cp));
    ValidConcat(Spaces(n) + word + Encode(cp), rest);
  }

  lemma GlueCutsXy(m: Model)
    requires m.cleanText
    ensures CutsXy(WithGlue(m))
  {
    hide WordPiece.WordIds, WordPiece.Window, Truncation.Cap, Literal;
    CapsTo(WithGlue(m).Policy(true));
    GluePieces();
  }

  lemma CutsXyBreaks(n: Model, cp: Scalar)
    requires CutsXy(n) && DroppedBoundary(n, cp)
    ensures !RowsAreEmbeddings(n)
  {
    hide EmbedOne, RowOf, GluedText, DroppedBoundary, CutsXy, Encode, Valid;
    XyGlued(n, cp);
    GluedTextIsValid(InitialTarget(1) - 2 - |Encode(cp)|, [X, Y], cp, [Z]);
    assert Valid(XyText(cp)) && RowOf(n, XyText(cp), 1) != EmbedOne(n, XyText(cp), 1);
  }

  /** One removed boundary codepoint is enough for a vocabulary and a valid text that go wrong. */
  lemma GlueBreaks(m: Model, cp: Scalar)
    requires m.cleanText && DroppedBoundary(m, cp)
    ensures !RowsAreEmbeddings(WithGlue(m))
  {
    hide WithGlue, Openable, CutsXy, DroppedBoundary, RowsAreEmbeddings;
    GlueOpens(m);
    GlueCutsXy(m);
    SameBoundaries(m, WithGlue(m), cp);
    CutsXyBreaks(WithGlue(m), cp);
  }

  lemma RowIsExact(m: Model, text: seq<byte>, max: nat)
    requires m.cleanText && !m.raiseEmpty && NoDroppedIn(m, text)
    ensures RowOf(m, text, max) == EmbedOne(m, text, max)
  {
    CleanCutsEndWords(m, text);
    EndedCutsAreTaken(m, text, max, InitialTarget(max));
    RowIsEmbedding(m, text, max);
    BlankStartNeedsRaise(m, text, max);
  }

  /** The exact condition on the tables: a batch without EMPTY_RAISE is the map of embedding one text, for
      every vocabulary, every valid text and every cap, if and only if the tables know no boundary
      codepoint that cleaning removes. */
  lemma ExactForEveryVocabulary(m: Model)
    requires m.cleanText
    ensures NoDroppedBoundary(m) <==>
              forall n: Model | SameNormalizer(m, n) && Openable(n) && !n.raiseEmpty :: RowsAreEmbeddings(n)
  {
    hide DroppedBoundary, RowOf, EmbedOne, Openable, NoDroppedIn, Valid;
    if NoDroppedBoundary(m) {
      forall n: Model, text: seq<byte>, max: nat | SameNormalizer(m, n) && !n.raiseEmpty
        ensures RowOf(n, text, max) == EmbedOne(n, text, max)
      {
        NothingDropped(m, n, text);
        RowIsExact(n, text, max);
      }
    } else {
      var cp: Scalar :| DroppedBoundary(m, cp);
      GlueOpens(m);
      GlueBreaks(m, cp);
      hide SameNormalizer, RowsAreEmbeddings, WithGlue;
    }
  }

  lemma NothingDropped(m: Model, n: Model, text: seq<byte>)
    requires NoDroppedBoundary(m) && SameNormalizer(m, n)
    ensures NoDroppedIn(n, text)
  {
    hide DroppedBoundary, DecodeAt;
    forall cp: Scalar ensures !DroppedBoundary(n, cp) { SameBoundaries(m, n, cp); }
  }
}
