/** One way a batch differs from embedding its texts one by one: the retry loop of
    static_embeddings.c:904-909 enlarges a slice that is invalid, not one that is empty.
  */
module BlankBatch {
  import opened Utf8
  import opened Tokenizer
  import opened PrefixWindow
  import opened Batch
  import NormTables
  import WordPiece
  import Truncation
  import TokenState
  import VocabHash
  import Opening

  function Spaces(n: nat): seq<byte> { seq(n, _ => 0x20) }

  lemma NoLiteralAtSpace(text: seq<byte>, i: nat, k: AddedKind)
    requires i < |text| && text[i] == 0x20
    ensures !LiteralAt(text, i, k)
  {
    BracketFirst(text, i, k);
  }

  lemma SpaceItem(m: Model, text: seq<byte>, i: nat)
    requires i < |text| && text[i] == 0x20
    ensures ItemAt(m, text, i) == Item([Break], i + 1)
  {
    forall k ensures !LiteralAt(text, i, k) { NoLiteralAtSpace(text, i, k); }
    assert Normal(m, 0x20) == [0x20];
  }

  lemma ItemShift(m: Model, text: seq<byte>, c: nat, i: nat)
    requires c <= i < |text|
    ensures ItemAt(m, text, i) ==
            match ItemAt(m, text[c..], i - c) case Bad => Bad case Item(evs, next) => Item(evs, c + next)
  {
    hide DecodeAt, Normal, AddedAt, Literal;
    AddedShift(m, text, c, i);
    ShiftDecode(text, i);
    ShiftDecode(text[c..], i - c);
    assert text[c..][i - c..] == text[i..];
  }

  lemma AddedShift(m: Model, text: seq<byte>, c: nat, i: nat)
    requires c <= i < |text|
    ensures AddedAt(m, text, i) == AddedAt(m, text[c..], i - c)
  {
    hide Literal;
    forall k ensures EnabledAt(m, text, i, k) == EnabledAt(m, text[c..], i - c, k) {
      if i + |Literal(k)| <= |text| { assert text[c..][i - c..i - c + |Literal(k)|] == text[i..i + |Literal(k)|]; }
    }
    hide EnabledAt, LiteralAt;
  }

  lemma {:induction false} ScanShift(m: Model, text: seq<byte>, c: nat, i: nat)
    requires c <= i <= |text|
    ensures ScanFrom(m, text, i) == ScanFrom(m, text[c..], i - c)
    decreases |text| - i
  {
    hide ItemAt;
    if i < |text| {
      ItemShift(m, text, c, i);
      if ItemAt(m, text, i).Item? { ScanShift(m, text, c, ItemAt(m, text, i).next); }
    }
  }

  lemma {:induction false} SkipSpaces(m: Model, n: nat, rest: seq<byte>, i: nat)
    requires i <= n
    ensures var a, b := ScanFrom(m, Spaces(n) + rest, i), ScanFrom(m, rest, 0);
            a.ok == b.ok && Run(START, a.evs) == Run(START, b.evs)
    decreases n - i
  {
    hide ItemAt;
    var text := Spaces(n) + rest;
    if i == n {
      assert text[n..] == rest;
      ScanShift(m, text, n, n);
    } else {
      SpaceItem(m, text, i);
      SkipSpaces(m, n, rest, i + 1);
      var evs := ScanFrom(m, text, i + 1).evs;
      assert ([Break] + evs)[0] == Break && ([Break] + evs)[1..] == evs;
      assert Feed(START, Break) == START;
    }
  }

  /** Leading spaces change nothing. */
  lemma LeadingSpaces(m: Model, n: nat, rest: seq<byte>, max: nat)
    ensures EmbedOne(m, Spaces(n) + rest, max) == EmbedOne(m, rest, max)
  {
    SkipSpaces(m, n, rest, 0);
    hide ScanFrom, IdsOf, Truncation.Cap, Run;
  }

  lemma SpacesAreEmpty(m: Model, n: nat, max: nat)
    requires m.raiseEmpty
    ensures EmbedOne(m, Spaces(n), max) == Failed(EmptyInput)
  {
    LeadingSpaces(m, n, [], max);
    assert Spaces(n) + [] == Spaces(n);
    assert ScanFrom(m, [], 0) == Scan([], true);
  }

  /** The backward scan from inside the spaces stops at once. */
  lemma CutInsideSpaces(m: Model, n: nat, rest: seq<byte>, target: nat)
    requires 0 < target <= n && rest != []
    ensures Boundary(m, Spaces(n) + rest, target, BACKSCAN) == target
  {
    var text := Spaces(n) + rest;
    assert !SplitsLiteral(m, text, target) by {
      forall s: nat, k | s < target ensures !LiteralAt(text, s, k) { NoLiteralAtSpace(text, s, k); }
    }
    assert text[target - 1] == 0x20;
    assert TakenAt(m, text, target - 1, target) == target;
  }

  /** Under EMPTY_RAISE a capped batch refuses every text behind 65536 spaces, whatever it embeds to. */
  lemma LeadingSpacesRaise(m: Model, rest: seq<byte>, max: nat)
    requires m.raiseEmpty && max != 0 && rest != []
    ensures var text := Spaces(PREFIX_MAX_BYTES) + rest;
            && EmbedOne(m, text, max) == EmbedOne(m, rest, max) && BlankStart(m, text, max)
            && RowOf(m, text, max) == Failed(EmptyInput)
  {
    var text, target := Spaces(PREFIX_MAX_BYTES) + rest, InitialTarget(max);
    LeadingSpaces(m, PREFIX_MAX_BYTES, rest, max);
    CutInsideSpaces(m, PREFIX_MAX_BYTES, rest, target);
    hide Boundary, EmbedOne;
    assert Slice(m, text, FirstTarget(m, text, max)) == Spaces(target);
    SpacesAreEmpty(m, target, max);
  }

  /** Otherwise no start is blank. */
  lemma BlankStartNeedsRaise(m: Model, text: seq<byte>, max: nat)
    ensures BlankStart(m, text, max) ==> m.raiseEmpty
    ensures BlankStart(m, text, max) && EmbedOne(m, text, max).Embedded? ==>
        max != 0 && FirstTarget(m, text, max) < |text|
  {
    Resolved(m, text, InitialTarget(max), max);
    assert text[..|text|] == text;
    hide Tokenize, Boundary, Truncation.Usable;
  }

  // ----- one model and one text -----

  const SEPARATOR_TOKENS: seq<seq<byte>> := [Literal(UNK), Literal(SEP)]

  /** A vocabulary of two added tokens, empty tables, and every option on. */
  const SEPARATORS: Model := Model(
    true, true, true, true, NormTables.Tables([], [], [], [], [], []),
    SEPARATOR_TOKENS, WordPiece.Limits(100, WordPiece.Window(SEPARATOR_TOKENS, 100), 0),
    {SEP}, map[SEP := 1], true, true, true)

  lemma {:induction false} AsciiIsValid(bytes: seq<byte>)
    requires forall i | 0 <= i < |bytes| :: bytes[i] < 0x80
    ensures Valid(bytes)
  {
    ValidIffDecodes(bytes);
    if bytes != [] {
      AsciiIsValid(bytes[1..]);
      ValidIffDecodes(bytes[1..]);
      assert DecodeAt(bytes, 0) == Some(Decoded(bytes[0], 1));
    }
  }

  lemma SeparatorsFit()
    ensures VocabHash.FitsFormat(SEPARATOR_TOKENS) && WordPiece.AllValid(SEPARATOR_TOKENS)
    ensures VocabHash.Distinct(SEPARATOR_TOKENS)
    ensures TokenState.UnkIsItself(SEPARATORS) && TokenState.AddedAreThemselves(SEPARATORS)
  {
    AsciiIsValid(Literal(UNK));
    AsciiIsValid(Literal(SEP));
    SecondByteDecides(UNK, SEP);
    assert SEPARATOR_TOKENS[..1] == [Literal(UNK)] && [Literal(UNK)][..0] == [];
    assert |VocabHash.Joined(SEPARATOR_TOKENS)| <= 12;
  }

  lemma SeparatorBlank(max: nat)
    requires max != 0
    ensures var text := Spaces(PREFIX_MAX_BYTES) + Literal(SEP);
            && EmbedOne(SEPARATORS, text, max) == Embedded(Row([1], Stats(1, 0, false)))
            && RowOf(SEPARATORS, text, max) == Failed(EmptyInput)
  {
    hide EmbedOne, RowOf, Literal, BlankStart;
    SeparatorEmbeds(max);
    LeadingSpacesRaise(SEPARATORS, Literal(SEP), max);
  }

  method OpenSeparators()
    returns (ix: WordPiece.Index, ghost rootKeys: map<seq<byte>, nat>,
                        ghost bodyKeys: map<seq<byte>, nat>)
    ensures TokenState.Opened(SEPARATORS, ix, rootKeys, bodyKeys)
  {
    SeparatorsFit();
    hide VocabHash.FitsFormat, WordPiece.AllValid, WordPiece.Window, VocabHash.Distinct, TokenState.Opened,
        TokenState.UnkIsItself, TokenState.AddedAreThemselves;
    var r;
    r, rootKeys, bodyKeys := Opening.ConvertAndOpen(SEPARATORS, 2.0 / 0.70);
    ix := r.value;
  }

  /** The loader opens the model, the text embeds to one row, and the batch of that text raises. */
  method SeparatorIsRejected(max: nat) returns (r: BatchResult)
    requires max != 0
    ensures EmbedOne(SEPARATORS, Spaces(PREFIX_MAX_BYTES) + Literal(SEP), max) == Embedded(Row([1], Stats(1, 0, false)))
    ensures r == Raised(EmptyInput, 0)
  {
    SeparatorBlank(max);
    hide EmbedOne, RowOf, Literal, Spaces, TokenState.Opened;
    var ix, rootKeys, bodyKeys := OpenSeparators();
    r := EmbedAlone(SEPARATORS, ix, rootKeys, bodyKeys, Spaces(PREFIX_MAX_BYTES) + Literal(SEP), max);
  }

  lemma SeparatorWords()
    ensures ScanFrom(SEPARATORS, Literal(SEP), 0) == Scan([Direct(1)], true)
    ensures Run(START, [Direct(1)]) == State([Special(1)], [])
  {
    var m, rest := SEPARATORS, Literal(SEP);
    assert LiteralAt(rest, 0, SEP);
    assert ItemAt(m, rest, 0) == Item([Direct(1)], 5);
    assert ScanFrom(m, rest, 5) == Scan([], true);
  }

  lemma SeparatorEmbeds(max: nat)
    requires max != 0
    ensures EmbedOne(SEPARATORS, Literal(SEP), max) == Embedded(Row([1], Stats(1, 0, false)))
  {
    hide ScanFrom, Run, Literal, Words, WordPiece.Window;
    SeparatorWords();
    assert IdsOf(SEPARATORS, []) == [] && IdsOf(SEPARATORS, [Special(1)]) == [1];
  }
}
