/** Embedding a batch: `embed_texts_internal` of static_embeddings.c with `resolve_copy_len`,
    `grow_target` and `batch_worker_run`, on top of `se_embed_one` of se_embed.c.

    A row is the ids that are pooled plus the statistics; the pooled vector is a function of them.
  */
module Batch {
  import opened Utf8
  import opened Tokenizer
  import opened PrefixWindow
  import TokenState
  import WordPiece
  import Truncation
  import Bits = Words

  const PREFIX_BYTES_PER_TOKEN: nat := 16
  const PREFIX_MIN_BYTES: nat := 4096
  const PREFIX_MAX_BYTES: nat := 65536
  const BACKSCAN: nat := 8192

  datatype Stats = Stats(tokenCount: nat, unkCount: nat, truncated: bool)
  datatype Row = Row(pooled: seq<nat>, stats: Stats)
  datatype Failure = InvalidEncoding | EmptyInput
  datatype Embedding = Embedded(row: Row) | Failed(why: Failure)

  // ----- one text -----

  /** `se_embed_one`: tokenize, cap, drop unknowns, refuse an empty selection if so configured. */
  function EmbedOne(m: Model, text: seq<byte>, max: nat): Embedding {
    match Tokenize(m, text, max, m.rawLimit)
    case InvalidUtf8 => Failed(InvalidEncoding)
    case Ids(ids, truncated) =>
      var p := m.Policy(m.rawLimit);
      var pooled := Truncation.Usable(p, ids);
      if pooled == [] && m.raiseEmpty then Failed(EmptyInput)
      else Embedded(Row(pooled, Stats(|ids|, Truncation.UnkCount(p, ids), truncated)))
  }

  /** The id loop of `embed_ids_core`: no rows when an id is out of range. */
  method SelectRows(p: Truncation.Policy, vocabSize: nat, ids: seq<nat>) returns (ok: bool, pooled: seq<nat>)
    ensures ok <==> InRange(vocabSize, ids)
    ensures ok ==> pooled == Truncation.Usable(p, ids)
  {
    pooled := [];
    var i := 0;
    while i < |ids|
      invariant 0 <= i <= |ids| && pooled == Truncation.Usable(p, ids[..i]) && InRange(vocabSize, ids[..i])
    {
      assert ids[..i + 1][..i] == ids[..i];
      if ids[i] >= vocabSize {
        return false, [];
      }
      if !(p.dropUnk && ids[i] == p.unkId) {
        pooled := pooled + [ids[i]];
      }
      i := i + 1;
    }
    assert ids[..i] == ids;
    ok := true;
  }

  predicate InRange(vocabSize: nat, ids: seq<nat>) { forall i | 0 <= i < |ids| :: ids[i] < vocabSize }

  lemma {:induction false} PiecesInRange(m: Model, chars: seq<Scalar>, start: nat)
    requires start <= |chars|
    ensures var r := WordPiece.Pieces(m.tokens, chars, start); r.Some? ==> InRange(|m.tokens|, r.value)
    decreases |chars| - start
  {
    hide WordPiece.LongestPiece, WordPiece.Piece;
    if start < |chars| {
      WordPiece.PiecesStep(m.tokens, chars, start);
      var f := WordPiece.LongestPiece(m.tokens, chars, start, |chars|);
      if f.Some? {
        PiecesInRange(m, chars, f.value.finish);
      }
    }
  }

  /** One event adds only ids of the vocabulary. */
  lemma FeedInRange(m: Model, ev: Event, st: State)
    requires TokenState.UnkIsItself(m) && TokenState.AddedAreThemselves(m)
    requires (ev.Direct? ==> ev.id < |m.tokens|) && InRange(|m.tokens|, IdsOf(m, st.words))
    ensures InRange(|m.tokens|, IdsOf(m, Feed(st, ev).words)) && InRange(|m.tokens|, IdsOf(m, st.Flushed().words))
  {
    if st.seg != [] { WordInRange(m, st, Plain(st.seg)); }
    match ev
    case Break =>
    case Letter(_) =>
    case Mark(cp) => WordInRange(m, st.Flushed(), Plain([cp]));
    case Direct(id) => WordInRange(m, st.Flushed(), Special(id));
  }

  /** The ids of words are ids of the vocabulary, so the range check of `embed_ids_core` never fires. */
  lemma {:induction false} IdsInRange(m: Model, evs: seq<Event>, st: State)
    requires TokenState.UnkIsItself(m) && TokenState.AddedAreThemselves(m)
    requires forall i | 0 <= i < |evs| && evs[i].Direct? :: evs[i].id < |m.tokens|
    requires InRange(|m.tokens|, IdsOf(m, st.words))
    ensures InRange(|m.tokens|, IdsOf(m, Run(st, evs).words))
    ensures InRange(|m.tokens|, IdsOf(m, Run(st, evs).Flushed().words))
    decreases |evs|
  {
    hide IdsOf, Feed, InRange, TokenState.UnkIsItself, TokenState.AddedAreThemselves;
    FeedInRange(m, Break, st);
    if evs != [] {
      FeedInRange(m, evs[0], st);
      IdsInRange(m, evs[1..], Feed(st, evs[0]));
    }
  }

  lemma WordInRange(m: Model, st: State, w: Word)
    requires TokenState.UnkIsItself(m) && InRange(|m.tokens|, IdsOf(m, st.words)) && (w.Special? ==> w.id < |m.tokens|)
    ensures InRange(|m.tokens|, IdsOf(m, st.words + [w]))
  {
    assert (st.words + [w])[..|st.words|] == st.words;
    if w.Plain? { PiecesInRange(m, w.chars, 0); }
  }

  lemma TokenizedInRange(m: Model, text: seq<byte>, max: nat, rawLimit: bool)
    requires TokenState.UnkIsItself(m) && TokenState.AddedAreThemselves(m)
    ensures var o := Tokenize(m, text, max, rawLimit); o.Ids? ==> InRange(|m.tokens|, o.ids)
  {
    DirectInRange(m, text, 0);
    hide ScanFrom, TokenState.UnkIsItself, TokenState.AddedAreThemselves;
    var st := Run(START, ScanFrom(m, text, 0).evs);
    IdsInRange(m, ScanFrom(m, text, 0).evs, START);
    hide IdsOf, Run, Truncation.Cap, InRange;
    CapInRange(|m.tokens|, m.Policy(rawLimit), max, IdsOf(m, st.words));
    CapInRange(|m.tokens|, m.Policy(rawLimit), max, IdsOf(m, st.Flushed().words));
  }

  lemma CapInRange(vocabSize: nat, p: Truncation.Policy, max: nat, ids: seq<nat>)
    requires InRange(vocabSize, ids)
    ensures InRange(vocabSize, Truncation.Cap(p, max, ids).ids)
  {
    hide Truncation.Counted, Truncation.CutFor;
  }

  lemma {:induction false} DirectInRange(m: Model, text: seq<byte>, i: nat)
    requires i <= |text| && TokenState.AddedAreThemselves(m)
    ensures forall j | 0 <= j < |ScanFrom(m, text, i).evs| && ScanFrom(m, text, i).evs[j].Direct? ::
        ScanFrom(m, text, i).evs[j].id < |m.tokens|
    decreases |text| - i
  {
    hide AddedAt, DecodeAt, Normal;
    if i < |text| && ItemAt(m, text, i).Item? { DirectInRange(m, text, ItemAt(m, text, i).next); }
  }

  method EmbedText(m: Model, ix: WordPiece.Index, ghost rootKeys: map<seq<byte>, nat>,
                   ghost bodyKeys: map<seq<byte>, nat>,
                   text: seq<byte>, max: nat)
    returns (r: Embedding)
    requires TokenState.Opened(m, ix, rootKeys, bodyKeys)
    ensures r == EmbedOne(m, text, max)
  {
    TokenizedInRange(m, text, max, m.rawLimit);
    hide TokenState.Opened, Tokenize, Truncation.Usable, Truncation.UnkCount;
    var outcome, nUnk := TokenState.TokenizeText(m, ix, rootKeys, bodyKeys, text, max, m.rawLimit);
    if outcome.InvalidUtf8? {
      return Failed(InvalidEncoding);
    }
    var ok, pooled := SelectRows(m.Policy(m.rawLimit), |m.tokens|, outcome.ids);
    assert ok;
    if |pooled| == 0 && m.raiseEmpty {
      return Failed(EmptyInput);
    }
    r := Embedded(Row(pooled, Stats(|outcome.ids|, nUnk, outcome.truncated)));
  }

  /** The counts of a row agree with what was pooled: the pooled ids are all of them, or all but the unknown. */
  lemma PooledCount(m: Model, text: seq<byte>, max: nat)
    ensures var e := EmbedOne(m, text, max);
            e.Embedded? ==>
              && e.row.stats.unkCount <= e.row.stats.tokenCount
              && |e.row.pooled| == e.row.stats.tokenCount - (if m.dropUnk then e.row.stats.unkCount else 0)
              && (m.raiseEmpty ==> e.row.pooled != [])
  {
    var o := Tokenize(m, text, max, m.rawLimit);
    if o.Ids? { Truncation.UsableLength(m.Policy(m.rawLimit), o.ids); }
    hide Tokenize, Truncation.Usable, Truncation.UnkCount;
  }

  // ----- the prefix budget -----

  /** `prefix_initial_target` */
  function InitialTarget(max: nat): (r: nat)
    ensures r == 0 <==> max == 0
    ensures max != 0 ==> PREFIX_MIN_BYTES <= r <= PREFIX_MAX_BYTES
    ensures PREFIX_MIN_BYTES <= max * PREFIX_BYTES_PER_TOKEN <= PREFIX_MAX_BYTES ==> r == max * PREFIX_BYTES_PER_TOKEN
  {
    if max == 0 then 0
    else if max > PREFIX_MAX_BYTES / PREFIX_BYTES_PER_TOKEN then PREFIX_MAX_BYTES
    else if max * PREFIX_BYTES_PER_TOKEN < PREFIX_MIN_BYTES then PREFIX_MIN_BYTES
    else max * PREFIX_BYTES_PER_TOKEN
  }

  /** `grow_target` */
  function Grow(target: nat, fullLen: nat): (r: nat)
    ensures target < fullLen ==> target < r <= fullLen
  {
    if target == 0 || target > fullLen / 2 then fullLen else target * 2
  }

  /** The target `resolve_copy_len` settles on. */
  ghost function ResolveTarget(m: Model, text: seq<byte>, target: nat, max: nat): (r: nat)
    ensures r <= |text| && (if target < |text| then target <= r else r == |text|)
    decreases if target < |text| then |text| - target else 0
  {
    if max == 0 || target == 0 || target >= |text| then |text|
    else if Boundary(m, text, target, BACKSCAN) != 0 then target
    else ResolveTarget(m, text, Grow(target, |text|), max)
  }

  ghost function CopyLen(m: Model, text: seq<byte>, target: nat): (r: nat)
    ensures r <= |text|
  {
    BoundaryIsLegal(m, text, target, BACKSCAN);
    Boundary(m, text, target, BACKSCAN)
  }

  method ResolveCopyLen(m: Model, text: seq<byte>, start: nat, max: nat) returns (copyLen: nat, target: nat)
    ensures target == ResolveTarget(m, text, start, max) && copyLen == CopyLen(m, text, target)
    ensures copyLen == |text| <==> target == |text|
  {
    hide Boundary;
    FullBoundary(m, text);
    target := start;
    if max == 0 || target == 0 || target >= |text| {
      return |text|, |text|;
    }
    while true
      invariant 0 < target <= |text| && ResolveTarget(m, text, start, max) == ResolveTarget(m, text, target, max)
      decreases |text| - target
    {
      BoundaryIsLegal(m, text, target, BACKSCAN);
      copyLen := PrefixBoundaryLen(m, text, target, BACKSCAN);
      if copyLen != 0 {
        return;
      }
      if target >= |text| {
        return |text|, |text|;
      }
      target := Grow(target, |text|);
    }
  }

  lemma FullBoundary(m: Model, text: seq<byte>)
    ensures Boundary(m, text, |text|, BACKSCAN) == |text|
  {
  }

  /** What a resolved target promises: the whole text, or a legal cut in front of its end. */
  lemma {:induction false} Resolved(m: Model, text: seq<byte>, target: nat, max: nat)
    ensures var t := ResolveTarget(m, text, target, max);
            && ResolveTarget(m, text, t, max) == t
            && (t == |text| <==> CopyLen(m, text, t) == |text|)
            && (t < |text| ==> max != 0 && 0 < t && CopyLen(m, text, t) != 0 && LegalCut(m, text, CopyLen(m, text, t)))
    decreases if target < |text| then |text| - target else 0
  {
    hide Boundary, LegalCut;
    FullBoundary(m, text);
    if !(max == 0 || target == 0 || target >= |text|) {
      BoundaryIsLegal(m, text, target, BACKSCAN);
      if Boundary(m, text, target, BACKSCAN) == 0 { Resolved(m, text, Grow(target, |text|), max); }
    }
  }

  // ----- one row -----

  ghost function Slice(m: Model, text: seq<byte>, target: nat): seq<byte> { text[..CopyLen(m, text, target)] }

  /** A slice that is invalid, or that embeds without reaching the cap, tells nothing about what follows it. */
  predicate Inconclusive(e: Embedding) {
    e == Failed(InvalidEncoding) || (e.Embedded? && !e.row.stats.truncated)
  }

  function Remaining(text: seq<byte>, target: nat): (r: nat)
    ensures r >= 1
  {
    1 + |text| - if target < |text| then target else |text|
  }

  /** What the retries make of one text, from a target on and without regard to any other row. */
  ghost function RowFrom(m: Model, text: seq<byte>, max: nat, target: nat): Embedding
    decreases Remaining(text, target)
  {
    var t := ResolveTarget(m, text, target, max);
    var e := EmbedOne(m, Slice(m, text, t), max);
    if t < |text| && Inconclusive(e) then RowFrom(m, text, max, Grow(t, |text|)) else e
  }

  ghost function RowOf(m: Model, text: seq<byte>, max: nat): Embedding { RowFrom(m, text, max, InitialTarget(max)) }

  /** How many slices embed without settling the text before one settles it or fails. */
  ghost function RoundsFrom(m: Model, text: seq<byte>, max: nat, target: nat): nat
    decreases Remaining(text, target)
  {
    var t := ResolveTarget(m, text, target, max);
    var e := EmbedOne(m, Slice(m, text, t), max);
    if t < |text| && e.Embedded? && !e.row.stats.truncated then 1 + RoundsFrom(m, text, max, Grow(t, |text|)) else 0
  }

  ghost function RoundsOf(m: Model, text: seq<byte>, max: nat): nat { RoundsFrom(m, text, max, InitialTarget(max)) }

  /** Without a cap the first slice is the whole text. */
  lemma NoRoundsUncapped(m: Model, text: seq<byte>)
    ensures RoundsOf(m, text, 0) == 0 && RowOf(m, text, 0) == EmbedOne(m, text, 0)
  {
    FullBoundary(m, text);
    assert text[..|text|] == text;
    hide Boundary, EmbedOne;
  }

  /** One round more means a target twice as large, unless that is the whole text. */
  lemma RoundStep(m: Model, text: seq<byte>, max: nat, target: nat)
    requires target > 0 && RoundsFrom(m, text, max, target) > 0
    ensures var t := ResolveTarget(m, text, target, max);
            var n := RoundsFrom(m, text, max, Grow(t, |text|));
            && target <= t < |text| && RoundsFrom(m, text, max, target) == n + 1
            && (n > 0 ==> Grow(t, |text|) == 2 * t)
  {
    FullNeedsNoRound(m, text, max);
    hide EmbedOne, ResolveTarget, CopyLen;
  }

  /** Targets double: the rounds of a text are at most the logarithm of its length over the first budget. */
  lemma {:induction false} RoundsAreFew(m: Model, text: seq<byte>, max: nat, target: nat)
    requires target > 0 && RoundsFrom(m, text, max, target) > 0
    ensures target * Bits.Pow2(RoundsFrom(m, text, max, target) - 1) < |text|
    decreases Remaining(text, target)
  {
    RoundStep(m, text, max, target);
    assert Remaining(text, Grow(ResolveTarget(m, text, target, max), |text|)) < Remaining(text, target);
    hide RoundsFrom, ResolveTarget, Grow, Remaining;
    var t := ResolveTarget(m, text, target, max);
    var n := RoundsFrom(m, text, max, Grow(t, |text|));
    if n > 0 { RoundsAreFew(m, text, max, Grow(t, |text|)); }
    Doubles(target, t, n, |text|);
  }

  lemma Doubles(target: nat, t: nat, n: nat, size: nat)
    requires target <= t < size && (n > 0 ==> 2 * t * Bits.Pow2(n - 1) < size)
    ensures target * Bits.Pow2(n) < size
  {
    if n > 0 {
      var p := Bits.Pow2(n - 1);
      assert target * (2 * p) <= t * (2 * p) == 2 * t * p;
    }
  }

  lemma FullNeedsNoRound(m: Model, text: seq<byte>, max: nat)
    ensures RoundsFrom(m, text, max, |text|) == 0
  {
    hide EmbedOne, CopyLen;
  }

  // ----- what a slice tells about the text -----

  /** The slice is the whole text, reports truncation, or is invalid: then its result is the text's. */
  lemma SliceDecides(m: Model, text: seq<byte>, max: nat, target: nat)
    requires ResolveTarget(m, text, target, max) == target
    requires target < |text| ==> WordEnds(m, text, CopyLen(m, text, target))
    ensures var e := EmbedOne(m, Slice(m, text, target), max);
            target == |text| || e == Failed(InvalidEncoding) || (e.Embedded? && e.row.stats.truncated) ==>
              EmbedOne(m, text, max) == e
  {
    Resolved(m, text, target, max);
    hide ResolveTarget, Boundary, LegalCut, WordEnds, Tokenize;
    if target == |text| {
      assert text[..|text|] == text;
    } else {
      PrefixIsExact(m, text, CopyLen(m, text, target), max, m.rawLimit);
    }
  }

  /** An invalid slice means an invalid text, so retrying with more of it never helps. */
  lemma RetryNeverHelps(m: Model, text: seq<byte>, c: nat, max: nat)
    requires LegalCut(m, text, c) && EmbedOne(m, text[..c], max) == Failed(InvalidEncoding)
    ensures EmbedOne(m, text, max) == Failed(InvalidEncoding)
  {
    ScanSplits(m, text, c, 0);
    hide ScanFrom, LegalCut, Run, IdsOf, Truncation.Cap;
  }

  lemma CutsGrow(m: Model, text: seq<byte>, max: nat, target: nat, next: nat)
    requires ResolveTarget(m, text, target, max) == target < |text| && target <= next < |text|
    requires ResolveTarget(m, text, next, max) == next
    ensures LegalCut(m, text, CopyLen(m, text, target)) && LegalCut(m, text, CopyLen(m, text, next))
    ensures CopyLen(m, text, target) <= CopyLen(m, text, next)
  {
    Resolved(m, text, target, max);
    Resolved(m, text, next, max);
    hide ResolveTarget, LegalCut;
    BoundaryGrows(m, text, target, next, BACKSCAN);
  }

  lemma LongerIsInvalid(m: Model, text: seq<byte>, max: nat, c: nat, longer: nat)
    requires LegalCut(m, text, c) && c <= longer <= |text| && (longer < |text| ==> LegalCut(m, text, longer))
    requires EmbedOne(m, text[..c], max) == Failed(InvalidEncoding)
    ensures EmbedOne(m, text[..longer], max) == Failed(InvalidEncoding)
  {
    hide EmbedOne;
    if c < longer {
      CutOfSlice(m, text, c, longer);
      assert text[..longer][..c] == text[..c];
      RetryNeverHelps(m, text[..longer], c, max);
    }
  }

  /** An invalid slice stays invalid when its target grows. */
  lemma InvalidStays(m: Model, text: seq<byte>, max: nat, target: nat)
    requires ResolveTarget(m, text, target, max) == target < |text|
    requires EmbedOne(m, Slice(m, text, target), max) == Failed(InvalidEncoding)
    ensures RoundsFrom(m, text, max, Grow(target, |text|)) == 0
  {
    hide EmbedOne, ResolveTarget, CopyLen, LegalCut;
    var next := ResolveTarget(m, text, Grow(target, |text|), max);
    Resolved(m, text, Grow(target, |text|), max);
    if next < |text| {
      CutsGrow(m, text, max, target, next);
      LongerIsInvalid(m, text, max, CopyLen(m, text, target), CopyLen(m, text, next));
    }
  }

  /** Tokenizing is capping the ids of the words. */
  lemma TokenizeIsCap(m: Model, text: seq<byte>, max: nat, rawLimit: bool)
    ensures var o := Tokenize(m, text, max, rawLimit);
            o.Ids? ==>
              Truncation.Cap(m.Policy(rawLimit), max, IdsOf(m, Words(m, text))) == Truncation.Capped(o.ids, o.truncated)
  {
    var st := Run(START, ScanFrom(m, text, 0).evs);
    var p := m.Policy(rawLimit);
    IdsOfPrefix(m, st.words, st.Flushed().words);
    hide ScanFrom, IdsOf, Truncation.Cap, Run;
    if Truncation.Cap(p, max, IdsOf(m, st.words)).truncated {
      Truncation.CapOfPrefix(p, max, IdsOf(m, st.words), IdsOf(m, st.Flushed().words));
    }
  }

  /** Ids that were not cut and leave something to pool still do so when more ids follow. */
  lemma StillUsable(p: Truncation.Policy, max: nat, ids: seq<nat>, more: seq<nat>)
    requires ids <= more && !Truncation.Cap(p, max, ids).truncated && Truncation.Usable(p, ids) != []
    ensures Truncation.Usable(p, Truncation.Cap(p, max, more).ids) != []
  {
    var kept := Truncation.Cap(p, max, more).ids;
    Truncation.UsableOfPrefix(p, more, |ids|);
    assert more[..|ids|] == ids;
    if Truncation.Cap(p, max, more).truncated {
      Truncation.CutForIsCut(p, more, max);
      Truncation.UsableLength(p, kept);
      Truncation.CountedRaw(p, kept);
      Truncation.CountedRaw(p, ids);
      if p.rawLimit {
        assert kept[..|ids|] == ids;
        Truncation.UsableOfPrefix(p, kept, |ids|);
      }
    }
  }

  lemma LiteralOfSlice(text: seq<byte>, n: nat, s: nat, k: AddedKind)
    requires n <= |text|
    ensures LiteralAt(text[..n], s, k) ==> LiteralAt(text, s, k)
  {
    if LiteralAt(text[..n], s, k) { assert text[s..s + |Literal(k)|] == text[..n][s..s + |Literal(k)|]; }
  }

  /** A cut of the text is also a cut of every longer slice. */
  lemma CutOfSlice(m: Model, text: seq<byte>, c: nat, longer: nat)
    requires LegalCut(m, text, c) && c < longer <= |text| && (longer < |text| ==> LegalCut(m, text, longer))
    ensures LegalCut(m, text[..longer], c)
  {
    var slice := text[..longer];
    if longer == |text| {
      assert slice == text;
    } else {
      assert !SplitsLiteral(m, slice, c) by {
        forall s: nat, k | k in m.enabled && s < c < s + |Literal(k)|
          ensures !LiteralAt(slice, s, k)
        {
          LiteralOfSlice(text, longer, s, k);
        }
      }
      if CutBefore(m, text, c) {
        NothingAcross(m, text, longer, c);
        DecodeInSlice(text, longer, c);
      } else {
        var pos :| 0 <= pos < c && CutAfter(m, text, pos, c);
        DecodeInSlice(text, longer, pos);
        assert CutAfter(m, slice, pos, c);
      }
    }
  }

  /** A word that ends at a cut ends there in every longer slice. */
  lemma WordEndsInSlice(m: Model, text: seq<byte>, c: nat, longer: nat)
    requires LegalCut(m, text, c) && c < longer <= |text| && (longer < |text| ==> LegalCut(m, text, longer))
    requires WordEnds(m, text, c)
    ensures WordEnds(m, text[..longer], c)
  {
    assert text[..longer][..c] == text[..c];
    if longer == |text| {
      assert text[..longer] == text;
    } else {
      ScanSplits(m, text, longer, c);
    }
    hide ScanFrom, LegalCut, Run;
  }

  /** Once a slice was inconclusive, no longer slice leaves nothing to pool. */
  lemma LongerSliceIsNotEmpty(m: Model, text: seq<byte>, max: nat, c: nat, longer: nat)
    requires LegalCut(m, text, c) && c <= longer <= |text| && (longer < |text| ==> LegalCut(m, text, longer))
    requires WordEnds(m, text, c)
    requires Inconclusive(EmbedOne(m, text[..c], max))
    ensures EmbedOne(m, text[..longer], max) != Failed(EmptyInput)
  {
    if c < longer && m.raiseEmpty {
      CutOfSlice(m, text, c, longer);
      WordEndsInSlice(m, text, c, longer);
      assert text[..longer][..c] == text[..c];
      PrefixIsExact(m, text[..longer], c, max, m.rawLimit);
      TokenizeIsCap(m, text[..c], max, m.rawLimit);
      TokenizeIsCap(m, text[..longer], max, m.rawLimit);
      hide Words, Tokenize, LegalCut, WordEnds, IdsOf;
      if !Tokenize(m, text[..c], max, m.rawLimit).InvalidUtf8? {
        var a, b := IdsOf(m, Words(m, text[..c])), IdsOf(m, Words(m, text[..longer]));
        Uncut(m.Policy(m.rawLimit), max, a);
        StillUsable(m.Policy(m.rawLimit), max, a, b);
      }
    }
  }

  lemma Uncut(p: Truncation.Policy, max: nat, ids: seq<nat>)
    ensures !Truncation.Cap(p, max, ids).truncated ==> Truncation.Cap(p, max, ids).ids == ids
  {
  }

  // ----- when the batch raises although the text would embed -----

  ghost function FirstTarget(m: Model, text: seq<byte>, max: nat): nat {
    ResolveTarget(m, text, InitialTarget(max), max)
  }

  /** The first slice of the text, the one its initial budget selects, leaves nothing to pool. */
  ghost predicate BlankStart(m: Model, text: seq<byte>, max: nat) {
    EmbedOne(m, Slice(m, text, FirstTarget(m, text, max)), max) == Failed(EmptyInput)
  }

  /** Every cut the retries take, from a target on, ends a word. */
  ghost predicate TakenCutsEndWords(m: Model, text: seq<byte>, max: nat, target: nat)
    decreases Remaining(text, target)
  {
    var t := ResolveTarget(m, text, target, max);
    t < |text| ==>
      && WordEnds(m, text, CopyLen(m, text, t))
      && (Inconclusive(EmbedOne(m, Slice(m, text, t), max)) ==> TakenCutsEndWords(m, text, max, Grow(t, |text|)))
  }

  /** That is so, whatever is taken, when every legal cut ends a word. */
  lemma {:induction false} EndedCutsAreTaken(m: Model, text: seq<byte>, max: nat, target: nat)
    requires EveryCutEndsWord(m, text)
    ensures TakenCutsEndWords(m, text, max, target)
    decreases Remaining(text, target)
  {
    var t := ResolveTarget(m, text, target, max);
    Resolved(m, text, target, max);
    if t < |text| {
      assert WordEnds(m, text, CopyLen(m, text, t));
      EndedCutsAreTaken(m, text, max, Grow(t, |text|));
    }
    hide EmbedOne, ResolveTarget, CopyLen, EveryCutEndsWord, WordEnds;
  }

  /** Where the retries of a text stand: its first slice is still to be tried, or it was inconclusive. */
  ghost predicate OnTrack(m: Model, text: seq<byte>, max: nat, target: nat) {
    var first := FirstTarget(m, text, max);
    || ResolveTarget(m, text, target, max) == first
    || (&& first <= target <= |text| && first < |text| && WordEnds(m, text, CopyLen(m, text, first))
        && Inconclusive(EmbedOne(m, Slice(m, text, first), max)))
  }

  /** An empty slice of a text on track is its first slice. */
  lemma EmptySliceIsFirst(m: Model, text: seq<byte>, max: nat, target: nat)
    requires OnTrack(m, text, max, target)
    requires EmbedOne(m, Slice(m, text, ResolveTarget(m, text, target, max)), max) == Failed(EmptyInput)
    ensures BlankStart(m, text, max)
  {
    var first := FirstTarget(m, text, max);
    var t := ResolveTarget(m, text, target, max);
    Resolved(m, text, InitialTarget(max), max);
    Resolved(m, text, target, max);
    if t != first {
      hide EmbedOne, ResolveTarget, Boundary, LegalCut, WordEnds;
      if t < |text| { BoundaryGrows(m, text, first, t, BACKSCAN); }
      LongerSliceIsNotEmpty(m, text, max, CopyLen(m, text, first), CopyLen(m, text, t));
    }
  }

  lemma {:induction false} RowOnTrack(m: Model, text: seq<byte>, max: nat, target: nat)
    requires TakenCutsEndWords(m, text, max, target) && OnTrack(m, text, max, target) && !BlankStart(m, text, max)
    ensures RowFrom(m, text, max, target) == EmbedOne(m, text, max)
    decreases Remaining(text, target)
  {
    var t := ResolveTarget(m, text, target, max);
    var e := EmbedOne(m, Slice(m, text, t), max);
    Resolved(m, text, target, max);
    SliceDecides(m, text, max, t);
    if t < |text| && Inconclusive(e) {
      FirstResolved(m, text, max);
      RowOnTrack(m, text, max, Grow(t, |text|));
    } else if e == Failed(EmptyInput) {
      EmptySliceIsFirst(m, text, max, target);
    }
    hide EmbedOne, ResolveTarget, CopyLen, BlankStart, WordEnds;
  }

  lemma FirstResolved(m: Model, text: seq<byte>, max: nat)
    ensures FirstTarget(m, text, max) <= |text|
  {
  }

  /** The retries give what embedding the whole text at once gives, except that a text whose first slice
      leaves nothing to pool is refused. */
  lemma RowIsEmbedding(m: Model, text: seq<byte>, max: nat)
    requires TakenCutsEndWords(m, text, max, InitialTarget(max))
    ensures RowOf(m, text, max) == if BlankStart(m, text, max) then Failed(EmptyInput) else EmbedOne(m, text, max)
    ensures RowOf(m, text, max) == EmbedOne(m, text, max) <==>
              (BlankStart(m, text, max) ==> EmbedOne(m, text, max) == Failed(EmptyInput))
  {
    if !BlankStart(m, text, max) { RowOnTrack(m, text, max, InitialTarget(max)); }
    hide EmbedOne, ResolveTarget, CopyLen, TakenCutsEndWords;
  }

  predicate AllUnknown(m: Model, ids: seq<nat>) { forall i | 0 <= i < |ids| :: ids[i] == m.limits.unkId }

  lemma {:induction false} NothingUsable(p: Truncation.Policy, ids: seq<nat>)
    ensures Truncation.Usable(p, ids) == [] <==>
              ids == [] || (p.dropUnk && forall i | 0 <= i < |ids| :: ids[i] == p.unkId)
  {
    if ids != [] { NothingUsable(p, ids[..|ids| - 1]); }
  }

  /** A start is blank exactly when empty rows are refused and the first slice tokenizes to no ids at all, or
      to unknown ids only and unknown ids are dropped. */
  lemma BlankStartMeans(m: Model, text: seq<byte>, max: nat)
    ensures var o := Tokenize(m, Slice(m, text, FirstTarget(m, text, max)), max, m.rawLimit);
            BlankStart(m, text, max) <==>
              m.raiseEmpty && o.Ids? && (o.ids == [] || (m.dropUnk && AllUnknown(m, o.ids)))
  {
    var o := Tokenize(m, Slice(m, text, FirstTarget(m, text, max)), max, m.rawLimit);
    hide Tokenize, Slice, FirstTarget, Truncation.Usable, Truncation.UnkCount;
    if o.Ids? { NothingUsable(m.Policy(m.rawLimit), o.ids); }
  }

  // ----- the run over all rows -----

  datatype BatchResult = Rows(rows: seq<Row>) | Raised(why: Failure, index: nat)
  datatype JobResult = Done | JobFailed(why: Failure, sub: nat)

  predicate Ascending(pend: seq<nat>, n: nat) {
    && (forall j | 0 <= j < |pend| :: pend[j] < n)
    && (forall j, k | 0 <= j < k < |pend| :: pend[j] < pend[k])
  }

  /** What is left to read: every pending row counts one more than the bytes beyond its target. */
  function Work(texts: seq<seq<byte>>, targets: seq<nat>, pend: seq<nat>): nat
    requires |targets| == |texts| && forall j | 0 <= j < |pend| :: pend[j] < |texts|
  {
    if pend == [] then 0
    else
      var i := pend[|pend| - 1];
      Work(texts, targets, pend[..|pend| - 1]) + Remaining(texts[i], targets[i])
  }

  lemma {:induction false} WorkShrinks(texts: seq<seq<byte>>, before: seq<nat>, after: seq<nat>, pend: seq<nat>)
    requires |before| == |after| == |texts| && forall j | 0 <= j < |pend| :: pend[j] < |texts|
    requires forall j | 0 <= j < |pend| ::
        Remaining(texts[pend[j]], after[pend[j]]) <= Remaining(texts[pend[j]], before[pend[j]])
    ensures Work(texts, after, pend) <= Work(texts, before, pend)
    ensures (exists j :: 0 <= j < |pend| &&
               Remaining(texts[pend[j]], after[pend[j]]) < Remaining(texts[pend[j]], before[pend[j]]))
            ==> Work(texts, after, pend) < Work(texts, before, pend)
  {
    hide Remaining;
    if pend != [] { WorkShrinks(texts, before, after, pend[..|pend| - 1]); }
  }

  /** The rows that stay pending. */
  function Survivors(pend: seq<nat>, keep: seq<bool>): seq<nat>
    requires |keep| == |pend|
  {
    if pend == [] then []
    else Survivors(pend[..|pend| - 1], keep[..|pend| - 1]) + if keep[|pend| - 1] then [pend[|pend| - 1]] else []
  }

  ghost predicate Stays(pend: seq<nat>, keep: seq<bool>, i: nat)
    requires |keep| == |pend|
  {
    exists j :: 0 <= j < |pend| && pend[j] == i && keep[j]
  }

  lemma StaysNext(pend: seq<nat>, keep: seq<bool>, i: nat)
    requires |keep| == |pend| > 0
    ensures var last := |pend| - 1; Stays(pend, keep, i) <==>
        Stays(pend[..last], keep[..last], i) || (pend[last] == i && keep[last])
  {
    var last := |pend| - 1;
    if Stays(pend[..last], keep[..last], i) {
      var j :| 0 <= j < last && pend[..last][j] == i && keep[..last][j];
      assert pend[j] == i && keep[j];
    }
    if Stays(pend, keep, i) && !(pend[last] == i && keep[last]) {
      var j :| 0 <= j < |pend| && pend[j] == i && keep[j];
      assert pend[..last][j] == i && keep[..last][j];
    }
  }

  lemma {:induction false} SurvivorsAre(pend: seq<nat>, keep: seq<bool>, i: nat)
    requires |keep| == |pend|
    ensures i in Survivors(pend, keep) <==> Stays(pend, keep, i)
  {
    if pend != [] {
      SurvivorsAre(pend[..|pend| - 1], keep[..|pend| - 1], i);
      StaysNext(pend, keep, i);
    }
  }

  lemma {:induction false} SurvivorsAscend(pend: seq<nat>, keep: seq<bool>, n: nat)
    requires |keep| == |pend| && Ascending(pend, n)
    ensures |Survivors(pend, keep)| <= |pend| && Ascending(Survivors(pend, keep), n)
    ensures pend != [] && Survivors(pend, keep) != [] ==>
        Survivors(pend, keep)[|Survivors(pend, keep)| - 1] <= pend[|pend| - 1]
  {
    if pend != [] {
      var last := |pend| - 1;
      SurvivorsAscend(pend[..last], keep[..last], n);
      var s := Survivors(pend[..last], keep[..last]);
      if last == 0 { assert s == []; }
      assert forall k | 0 <= k < |s| :: s[k] <= s[|s| - 1];
    }
  }

  lemma {:induction false} WorkOfSurvivors(texts: seq<seq<byte>>, before: seq<nat>, after: seq<nat>, pend: seq<nat>,
                                           keep: seq<bool>)
    requires |before| == |after| == |texts| && |keep| == |pend| && Ascending(pend, |texts|)
    requires forall j | 0 <= j < |pend| && keep[j] ::
               Remaining(texts[pend[j]], after[pend[j]]) < Remaining(texts[pend[j]], before[pend[j]])
    ensures forall j | 0 <= j < |Survivors(pend, keep)| :: Survivors(pend, keep)[j] < |texts|
    ensures Work(texts, after, Survivors(pend, keep)) + |pend| <= Work(texts, before, pend)
  {
    hide Remaining, Ascending;
    SurvivorsInside(pend, keep, |texts|);
    if pend != [] {
      var last := |pend| - 1;
      SurvivorsInside(pend[..last], keep[..last], |texts|);
      WorkOfSurvivors(texts, before, after, pend[..last], keep[..last]);
      WorkOfLast(texts, after, pend, keep);
    }
  }

  lemma SurvivorsInside(pend: seq<nat>, keep: seq<bool>, n: nat)
    requires |keep| == |pend| && Ascending(pend, n)
    ensures forall j | 0 <= j < |pend| :: pend[j] < n
    ensures forall j | 0 <= j < |Survivors(pend, keep)| :: Survivors(pend, keep)[j] < n
    ensures pend != [] ==> Ascending(pend[..|pend| - 1], n)
  {
    SurvivorsAscend(pend, keep, n);
  }

  lemma WorkOfLast(texts: seq<seq<byte>>, targets: seq<nat>, pend: seq<nat>, keep: seq<bool>)
    requires |targets| == |texts| && |keep| == |pend| > 0 && Ascending(pend, |texts|)
    ensures var last := |pend| - 1;
            && (forall j | 0 <= j < |Survivors(pend, keep)| :: Survivors(pend, keep)[j] < |texts|)
            && (forall j | 0 <= j < |Survivors(pend[..last], keep[..last])| ::
                  Survivors(pend[..last], keep[..last])[j] < |texts|)
            && Work(texts, targets, Survivors(pend, keep)) ==
                 Work(texts, targets, Survivors(pend[..last], keep[..last]))
                 + if keep[last] then Remaining(texts[pend[last]], targets[pend[last]]) else 0
  {
    hide Remaining, Ascending;
    var last := |pend| - 1;
    SurvivorsInside(pend, keep, |texts|);
    SurvivorsInside(pend[..last], keep[..last], |texts|);
    var s := Survivors(pend[..last], keep[..last]);
    if keep[last] { WorkNext(texts, targets, s, pend[last]); } else { assert s + [] == s; }
  }

  lemma WorkNext(texts: seq<seq<byte>>, targets: seq<nat>, pend: seq<nat>, i: nat)
    requires |targets| == |texts| && i < |texts| && forall j | 0 <= j < |pend| :: pend[j] < |texts|
    ensures forall j | 0 <= j < |pend + [i]| :: (pend + [i])[j] < |texts|
    ensures Work(texts, targets, pend + [i]) == Work(texts, targets, pend) + Remaining(texts[i], targets[i])
  {
    hide Remaining;
    assert (pend + [i])[..|pend|] == pend;
  }

  // ----- embed_texts_internal -----

  /** The buffers of one call; rows leave `pending` once their result is final. */
  class EmbedRun {
    const m: Model
    const texts: seq<seq<byte>>
    const max: nat
    var out: seq<Row>
    var targets: seq<nat>
    var pending: seq<nat>
    var copyLens: seq<nat>
    var npending: nat

    ghost predicate Valid()
      reads this
    {
      && |out| == |targets| == |pending| == |copyLens| == |texts|
      && npending <= |texts| && Ascending(pending[..npending], |texts|)
    }

    constructor (m: Model, texts: seq<seq<byte>>, max: nat)
      ensures Valid() && this.m == m && this.texts == texts && this.max == max && npending == |texts|
      ensures forall i | 0 <= i < |texts| :: targets[i] == InitialTarget(max) && pending[i] == i
    {
      this.m, this.texts, this.max := m, texts, max;
      out := seq(|texts|, _ => Row([], Stats(0, 0, false)));
      targets := seq(|texts|, _ => InitialTarget(max));
      pending := seq(|texts|, i => i);
      copyLens := seq(|texts|, _ => 0);
      npending := |texts|;
    }

    /** Every pending row gets its slice length; its target grows until there is a legal cut. */
    method ResolveAll()
      requires Valid()
      modifies this`targets, this`copyLens
      ensures Valid()
      ensures Resolution(m, texts, max, pending[..npending], old(targets), targets, copyLens)
    {
      ghost var before := targets;
      ghost var pend := pending[..npending];
      hide ResolveTarget, CopyLen;
      var j: nat := 0;
      while j < npending
        invariant j <= npending && |targets| == |copyLens| == |texts|
        invariant Resolution(m, texts, max, pend[..j], before, targets, copyLens)
      {
        var i := pending[j];
        var copyLen, target := ResolveCopyLen(m, texts[i], targets[i], max);
        ResolutionNext(m, texts, max, pend, j, before, targets, copyLens);
        copyLens := copyLens[j := copyLen];
        targets := targets[i := target];
        j := j + 1;
      }
      assert pend[..j] == pend;
    }

    /** `batch_worker_run`: embeds the slices in order and stops at the first that fails. */
    method RunJob(ix: WordPiece.Index, ghost rootKeys: map<seq<byte>, nat>, ghost bodyKeys: map<seq<byte>, nat>)
        returns (r: JobResult)
      requires Valid() && Fits(texts, pending[..npending], copyLens)
      requires TokenState.Opened(m, ix, rootKeys, bodyKeys)
      modifies this`out
      ensures Valid() && JobOutcome(m, texts, max, pending[..npending], copyLens, old(out), out, r)
    {
      hide TokenState.Opened, EmbedOne, Placed, Untouched, Ascending;
      ghost var before, pend := out, pending[..npending];
      PlacedNone(m, texts, max, pend, copyLens, before);
      var j: nat := 0;
      while j < npending
        invariant j <= npending && |out| == |texts|
        invariant Fits(texts, pend[..j], copyLens) && Placed(m, texts, max, pend[..j], copyLens, out)
            && Untouched(pend, before, out)
      {
        var i := pending[j];
        FitsAt(texts, pend, copyLens, j);
        var e := EmbedText(m, ix, rootKeys, bodyKeys, texts[i][..copyLens[j]], max);
        if e.Failed? {
          PlacedEmbeds(m, texts, max, pend, j, copyLens, out);
          return JobFailed(e.why, j);
        }
        PlacedNext(m, texts, max, pend, j, copyLens, before, out, e.row);
        out := out[i := e.row];
        j := j + 1;
      }
      assert pend[..j] == pend;
      r := Done;
    }

    /** The loop that compacts `pending` in place and grows the targets of the rows it keeps: those
        whose slice was neither the whole text nor truncated. */
    method Settle(ghost keep: seq<bool>)
      requires Valid() && Kept(max, texts, pending[..npending], copyLens, out, keep)
      modifies this`npending, this`pending, this`targets
      ensures Valid() && Settled(texts, old(pending[..npending]), keep, old(targets), pending[..npending], targets)
    {
      ghost var pend, before := pending[..npending], targets;
      hide Grow, Settled, Kept, Settling, Ascending;
      SettlingFirst(max, texts, pend, copyLens, out, keep, pending, targets);
      var next: nat := 0;
      var j: nat := 0;
      while j < npending
        invariant j <= npending == |pend| <= |pending| && Settling(texts, pend, keep, before, pending, targets, next, j)
      {
        var i := pending[j];
        SettlingNext(max, texts, pend, copyLens, out, keep, before, pending, targets, next, j);
        if max != 0 && copyLens[j] < |texts[i]| && !out[i].stats.truncated {
          targets := targets[i := Grow(targets[i], |texts[i]|)];
          pending := pending[next := i];
          next := next + 1;
        }
        j := j + 1;
      }
      SettlingAll(texts, pend, keep, before, pending, targets, next);
      npending := next;
    }
  }

  /** Targets and slice lengths after resolving the rows of `pend`; the other targets are untouched. */
  ghost predicate Resolution(m: Model, texts: seq<seq<byte>>, max: nat, pend: seq<nat>,
                             before: seq<nat>, targets: seq<nat>, copyLens: seq<nat>)
    requires Ascending(pend, |texts|) && |before| == |targets| == |copyLens| == |texts| >= |pend|
  {
    && (forall i | 0 <= i < |texts| && i !in pend :: targets[i] == before[i])
    && (forall j | 0 <= j < |pend| :: targets[pend[j]] == ResolveTarget(m, texts[pend[j]], before[pend[j]], max))
    && (forall j | 0 <= j < |pend| :: copyLens[j] == CopyLen(m, texts[pend[j]], targets[pend[j]]))
  }

  lemma ResolutionNext(m: Model, texts: seq<seq<byte>>, max: nat, pend: seq<nat>, j: nat,
                       before: seq<nat>, targets: seq<nat>, copyLens: seq<nat>)
    requires Ascending(pend, |texts|) && |before| == |targets| == |copyLens| == |texts| >= |pend| > j
    requires Resolution(m, texts, max, pend[..j], before, targets, copyLens)
    ensures var i := pend[j];
            var target := ResolveTarget(m, texts[i], targets[i], max);
            Resolution(m, texts, max, pend[..j + 1], before, targets[i := target],
                    copyLens[j := CopyLen(m, texts[i], target)])
  {
    hide ResolveTarget, CopyLen;
    assert pend[..j + 1] == pend[..j] + [pend[j]];
    assert pend[j] !in pend[..j];
  }

  /** Every pending row has a slice of its text to embed. */
  predicate Fits(texts: seq<seq<byte>>, pend: seq<nat>, copyLens: seq<nat>) {
    && Ascending(pend, |texts|) && |pend| <= |copyLens| == |texts|
    && forall j | 0 <= j < |pend| :: copyLens[j] <= |texts[pend[j]]|
  }

  lemma FitsAt(texts: seq<seq<byte>>, pend: seq<nat>, copyLens: seq<nat>, j: nat)
    requires Fits(texts, pend, copyLens) && j < |pend|
    ensures pend[j] < |texts| && copyLens[j] <= |texts[pend[j]]|
  {
  }

  function CutText(texts: seq<seq<byte>>, pend: seq<nat>, copyLens: seq<nat>, j: nat): seq<byte>
    requires Fits(texts, pend, copyLens) && j < |pend|
  {
    texts[pend[j]][..copyLens[j]]
  }

  /** What a job leaves: untouched rows outside it, and either all its slices embedded or the first failure. */
  ghost predicate JobOutcome(m: Model, texts: seq<seq<byte>>, max: nat, pend: seq<nat>, copyLens: seq<nat>,
                             before: seq<Row>, out: seq<Row>, r: JobResult)
  {
    && Fits(texts, pend, copyLens) && |out| == |texts| && Untouched(pend, before, out)
    && match r
       case Done => Placed(m, texts, max, pend, copyLens, out)
       case JobFailed(why, sub) =>
         && sub < |pend| && EmbedOne(m, CutText(texts, pend, copyLens, sub), max) == Failed(why)
         && forall j: nat | j < sub :: EmbedOne(m, CutText(texts, pend, copyLens, j), max).Embedded?
  }

  predicate Untouched<T(==)>(pend: seq<nat>, before: seq<T>, after: seq<T>) {
    |before| == |after| && forall i: nat | i < |after| :: after[i] == before[i] || i in pend
  }

  /** The rows of `pend` hold the embeddings of their slices. */
  ghost predicate Placed(m: Model, texts: seq<seq<byte>>, max: nat, pend: seq<nat>, copyLens: seq<nat>, out: seq<Row>)
    requires Fits(texts, pend, copyLens) && |out| == |texts|
  {
    forall j: nat | j < |pend| :: EmbedOne(m, CutText(texts, pend, copyLens, j), max) == Embedded(out[pend[j]])
  }

  lemma PlacedNone(m: Model, texts: seq<seq<byte>>, max: nat, pend: seq<nat>, copyLens: seq<nat>, out: seq<Row>)
    requires Fits(texts, pend, copyLens) && |out| == |texts|
    ensures Fits(texts, pend[..0], copyLens) && Placed(m, texts, max, pend[..0], copyLens, out)
        && Untouched(pend, out, out)
  {
  }

  lemma PlacedEmbeds(m: Model, texts: seq<seq<byte>>, max: nat, pend: seq<nat>, j: nat, copyLens: seq<nat>,
                     out: seq<Row>)
    requires Fits(texts, pend, copyLens) && |out| == |texts| && j <= |pend|
    requires Fits(texts, pend[..j], copyLens) && Placed(m, texts, max, pend[..j], copyLens, out)
    ensures forall k: nat | k < j :: EmbedOne(m, CutText(texts, pend, copyLens, k), max).Embedded?
  {
    hide EmbedOne;
    forall k: nat | k < j ensures EmbedOne(m, CutText(texts, pend, copyLens, k), max).Embedded? {
      assert CutText(texts, pend[..j], copyLens, k) == CutText(texts, pend, copyLens, k);
    }
  }

  lemma PlacedNext(m: Model, texts: seq<seq<byte>>, max: nat, pend: seq<nat>, j: nat, copyLens: seq<nat>,
                   before: seq<Row>, out: seq<Row>, row: Row)
    requires Fits(texts, pend, copyLens) && |out| == |texts| && j < |pend|
    requires Fits(texts, pend[..j], copyLens) && Placed(m, texts, max, pend[..j], copyLens, out)
        && Untouched(pend, before, out)
    requires EmbedOne(m, CutText(texts, pend, copyLens, j), max) == Embedded(row)
    ensures Fits(texts, pend[..j + 1], copyLens) && Placed(m, texts, max, pend[..j + 1], copyLens, out[pend[j] := row])
    ensures Untouched(pend, before, out[pend[j] := row])
  {
    hide EmbedOne;
    var after, front := out[pend[j] := row], pend[..j + 1];
    forall k: nat | k <= j
      ensures EmbedOne(m, CutText(texts, front, copyLens, k), max) == Embedded(after[front[k]])
    {
      if k < j {
        assert pend[k] < pend[j];
        assert CutText(texts, front, copyLens, k) == CutText(texts, pend[..j], copyLens, k);
      }
    }
  }

  predicate Undecided(max: nat, text: seq<byte>, copyLen: nat, row: Row) {
    max != 0 && copyLen < |text| && !row.stats.truncated
  }

  /** `keep` marks the rows whose slice decided nothing. */
  predicate Kept(max: nat, texts: seq<seq<byte>>, pend: seq<nat>, copyLens: seq<nat>, out: seq<Row>, keep: seq<bool>) {
    && Ascending(pend, |texts|) && |keep| == |pend| <= |copyLens| == |out| == |texts|
    && forall j | 0 <= j < |pend| :: keep[j] == Undecided(max, texts[pend[j]], copyLens[j], out[pend[j]])
  }

  predicate Grown(texts: seq<seq<byte>>, pend: seq<nat>, keep: seq<bool>, before: seq<nat>, targets: seq<nat>)
    requires Ascending(pend, |texts|) && |keep| == |pend| && |before| == |targets| == |texts|
  {
    && (forall i | 0 <= i < |texts| && i !in pend :: targets[i] == before[i])
    && (forall j | 0 <= j < |pend| ::
          targets[pend[j]] == if keep[j] then Grow(before[pend[j]], |texts[pend[j]]|) else before[pend[j]])
  }

  lemma GrownNext(texts: seq<seq<byte>>, pend: seq<nat>, keep: seq<bool>, j: nat, before: seq<nat>, targets: seq<nat>)
    requires Ascending(pend, |texts|) && |keep| == |pend| > j && |before| == |targets| == |texts|
    requires Grown(texts, pend[..j], keep[..j], before, targets)
    ensures var i := pend[j];
            Grown(texts, pend[..j + 1], keep[..j + 1], before,
                    if keep[j] then targets[i := Grow(targets[i], |texts[i]|)] else targets)
  {
    hide Grow;
    assert pend[..j + 1] == pend[..j] + [pend[j]];
    assert pend[j] !in pend[..j];
  }

  /** After the compaction: the survivors are pending, their targets have grown, the others are as before. */
  predicate Settled(texts: seq<seq<byte>>, pend: seq<nat>, keep: seq<bool>, before: seq<nat>, after: seq<nat>,
                    targets: seq<nat>) {
    && Ascending(pend, |texts|) && |keep| == |pend| && |before| == |targets| == |texts|
    && after == Survivors(pend, keep) && Grown(texts, pend, keep, before, targets)
  }

  /** The compaction after j rows: the front of `pending` holds the survivors among them, the rows
      from j on are unread, and the targets of the first j rows are settled. */
  predicate Settling(texts: seq<seq<byte>>, pend: seq<nat>, keep: seq<bool>, before: seq<nat>,
                     pending: seq<nat>, targets: seq<nat>, next: nat, j: nat)
  {
    && j <= |pend| == |keep| && |before| == |targets| == |texts|
    && next <= j && |pend| <= |pending| == |texts|
    && pending[..next] == Survivors(pend[..j], keep[..j])
    && (forall k | j <= k < |pend| :: pending[k] == pend[k])
    && Ascending(pend[..j], |texts|) && Grown(texts, pend[..j], keep[..j], before, targets)
  }

  lemma SettlingFirst(max: nat, texts: seq<seq<byte>>, pend: seq<nat>, copyLens: seq<nat>, out: seq<Row>,
                      keep: seq<bool>,
                      pending: seq<nat>, targets: seq<nat>)
    requires Kept(max, texts, pend, copyLens, out, keep) && |targets| == |texts| == |pending| && pend <= pending
    ensures Settling(texts, pend, keep, targets, pending, targets, 0, 0)
  {
  }

  lemma SettlingNext(max: nat, texts: seq<seq<byte>>, pend: seq<nat>, copyLens: seq<nat>, out: seq<Row>,
                     keep: seq<bool>,
                     before: seq<nat>, pending: seq<nat>, targets: seq<nat>, next: nat, j: nat)
    requires Kept(max, texts, pend, copyLens, out, keep) && j < |pend|
    requires Settling(texts, pend, keep, before, pending, targets, next, j)
    ensures var i := pending[j];
            && i < |texts| && j < |copyLens| && next < |pending| == |texts| == |out| == |targets|
            && if max != 0 && copyLens[j] < |texts[i]| && !out[i].stats.truncated
               then Settling(texts, pend, keep, before, pending[next := i], targets[i := Grow(targets[i], |texts[i]|)],
                       next + 1, j + 1)
               else Settling(texts, pend, keep, before, pending, targets, next, j + 1)
  {
    hide Grow, Grown;
    GrownNext(texts, pend, keep, j, before, targets);
    assert pend[..j + 1][..j] == pend[..j] && keep[..j + 1][..j] == keep[..j];
    assert pending[next := pend[j]][..next + 1] == pending[..next] + [pend[j]];
  }

  lemma SettlingAll(texts: seq<seq<byte>>, pend: seq<nat>, keep: seq<bool>, before: seq<nat>,
                    pending: seq<nat>, targets: seq<nat>, next: nat)
    requires Settling(texts, pend, keep, before, pending, targets, next, |pend|)
    ensures next <= |pending| == |targets| == |texts| && Ascending(pending[..next], |texts|)
    ensures Settled(texts, pend, keep, before, pending[..next], targets)
  {
    hide Grown;
    assert pend[..|pend|] == pend && keep[..|pend|] == keep;
    SurvivorsAscend(pend, keep, |texts|);
  }

  // ----- one row of the run -----

  ghost predicate Final(m: Model, text: seq<byte>, max: nat, row: Row) { RowOf(m, text, max) == Embedded(row) }

  /** After k passes that settled rows, going on from the target still leads to the row's result, in the
      rounds that are left. */
  ghost predicate Waiting(m: Model, text: seq<byte>, max: nat, target: nat, k: nat) {
    && RowFrom(m, text, max, target) == RowOf(m, text, max)
    && k + RoundsFrom(m, text, max, target) == RoundsOf(m, text, max)
  }

  lemma ResolveKeepsWaiting(m: Model, text: seq<byte>, max: nat, target: nat, k: nat)
    requires Waiting(m, text, max, target, k)
    ensures Waiting(m, text, max, ResolveTarget(m, text, target, max), k)
    ensures Remaining(text, ResolveTarget(m, text, target, max)) <= Remaining(text, target)
  {
    Resolved(m, text, target, max);
    hide ResolveTarget, EmbedOne, CopyLen;
  }

  lemma RetryKeepsWaiting(m: Model, text: seq<byte>, max: nat, target: nat, k: nat)
    requires Waiting(m, text, max, target, k)
    requires ResolveTarget(m, text, target, max) == target && CopyLen(m, text, target) < |text|
    requires EmbedOne(m, Slice(m, text, target), max) == Failed(InvalidEncoding)
    ensures Waiting(m, text, max, Grow(target, |text|), k)
    ensures Remaining(text, Grow(target, |text|)) < Remaining(text, target)
  {
    Resolved(m, text, target, max);
    InvalidStays(m, text, max, target);
    hide EmbedOne, ResolveTarget, CopyLen;
  }

  lemma SettlesRow(m: Model, text: seq<byte>, max: nat, target: nat, row: Row, k: nat)
    requires Waiting(m, text, max, target, k) && ResolveTarget(m, text, target, max) == target
    requires EmbedOne(m, Slice(m, text, target), max) == Embedded(row)
    ensures if Undecided(max, text, CopyLen(m, text, target), row)
            then Waiting(m, text, max, Grow(target, |text|), k + 1)
                && Remaining(text, Grow(target, |text|)) < Remaining(text, target)
            else Final(m, text, max, row)
  {
    Resolved(m, text, target, max);
    hide EmbedOne, ResolveTarget, CopyLen;
  }

  lemma RaisesRow(m: Model, text: seq<byte>, max: nat, target: nat, why: Failure, k: nat)
    requires Waiting(m, text, max, target, k) && ResolveTarget(m, text, target, max) == target
    requires EmbedOne(m, Slice(m, text, target), max) == Failed(why)
    requires why == InvalidEncoding ==> CopyLen(m, text, target) == |text|
    ensures RowOf(m, text, max) == Failed(why) && RoundsOf(m, text, max) == k
  {
    Resolved(m, text, target, max);
    hide EmbedOne, ResolveTarget, CopyLen;
  }

  /** A row whose slice embeds fails in a later round, if at all. */
  lemma FailsLater(m: Model, text: seq<byte>, max: nat, target: nat, k: nat)
    requires Waiting(m, text, max, target, k) && ResolveTarget(m, text, target, max) == target
    requires EmbedOne(m, Slice(m, text, target), max).Embedded? && RowOf(m, text, max).Failed?
    ensures RoundsOf(m, text, max) > k
  {
    hide EmbedOne, ResolveTarget, CopyLen;
  }

  // ----- all rows of the run -----

  ghost predicate Sound(m: Model, texts: seq<seq<byte>>, max: nat, pend: seq<nat>, targets: seq<nat>, out: seq<Row>,
                        k: nat) {
    && |targets| == |out| == |texts| && Ascending(pend, |texts|)
    && forall i: nat | i < |texts| ::
         if i in pend then Waiting(m, texts[i], max, targets[i], k) else Final(m, texts[i], max, out[i])
  }

  /** Every pending target is resolved and its slice length is the cut in front of it. */
  ghost predicate Ready(m: Model, texts: seq<seq<byte>>, max: nat, pend: seq<nat>, targets: seq<nat>,
                        copyLens: seq<nat>) {
    && |targets| == |texts| && Fits(texts, pend, copyLens)
    && forall j | 0 <= j < |pend| ::
         && ResolveTarget(m, texts[pend[j]], targets[pend[j]], max) == targets[pend[j]]
         && copyLens[j] == CopyLen(m, texts[pend[j]], targets[pend[j]])
  }

  lemma SoundAtStart(m: Model, texts: seq<seq<byte>>, max: nat, pend: seq<nat>, targets: seq<nat>, out: seq<Row>)
    requires |pend| == |targets| == |out| == |texts|
    requires forall i | 0 <= i < |texts| :: targets[i] == InitialTarget(max) && pend[i] == i
    ensures Sound(m, texts, max, pend, targets, out, 0)
  {
    hide EmbedOne, ResolveTarget, InitialTarget, RowFrom, RoundsFrom, Final;
    forall i: nat | i < |texts|
      ensures i in pend && Waiting(m, texts[i], max, targets[i], 0)
    {
      assert pend[i] == i;
    }
  }

  lemma SoundResolved(m: Model, texts: seq<seq<byte>>, max: nat, pend: seq<nat>, out: seq<Row>,
                      before: seq<nat>, targets: seq<nat>, copyLens: seq<nat>, k: nat)
    requires Sound(m, texts, max, pend, before, out, k)
    requires |targets| == |copyLens| == |texts| >= |pend| && Resolution(m, texts, max, pend, before, targets, copyLens)
    ensures Sound(m, texts, max, pend, targets, out, k) && Ready(m, texts, max, pend, targets, copyLens)
        && Fits(texts, pend, copyLens)
    ensures Work(texts, targets, pend) <= Work(texts, before, pend)
  {
    hide ResolveTarget, CopyLen, Waiting, Final, Remaining, Work;
    forall j: nat | j < |pend|
      ensures var i := pend[j];
              && Waiting(m, texts[i], max, targets[i], k)
                  && Remaining(texts[i], targets[i]) <= Remaining(texts[i], before[i])
              && ResolveTarget(m, texts[i], targets[i], max) == targets[i]
    {
      var i := pend[j];
      assert i in pend;
      ResolveKeepsWaiting(m, texts[i], max, before[i], k);
      Resolved(m, texts[i], before[i], max);
    }
    WorkShrinks(texts, before, targets, pend);
  }

  lemma SoundUntouched(m: Model, texts: seq<seq<byte>>, max: nat, pend: seq<nat>, targets: seq<nat>, before: seq<Row>,
                       out: seq<Row>, k: nat)
    requires Sound(m, texts, max, pend, targets, before, k) && Untouched(pend, before, out)
    ensures Sound(m, texts, max, pend, targets, out, k)
  {
    hide Waiting, Final;
  }

  lemma SoundRetry(m: Model, texts: seq<seq<byte>>, max: nat, pend: seq<nat>, targets: seq<nat>, copyLens: seq<nat>,
                   out: seq<Row>, j: nat, k: nat)
    requires Sound(m, texts, max, pend, targets, out, k)
    requires Ready(m, texts, max, pend, targets, copyLens) && j < |pend| && copyLens[j] < |texts[pend[j]]|
    requires EmbedOne(m, CutText(texts, pend, copyLens, j), max) == Failed(InvalidEncoding)
    ensures var i := pend[j];
            var after := targets[i := Grow(targets[i], |texts[i]|)];
            Sound(m, texts, max, pend, after, out, k) && Work(texts, after, pend) < Work(texts, targets, pend)
  {
    hide ResolveTarget, CopyLen, Waiting, Final, Remaining, Work, Grow, EmbedOne;
    var i := pend[j];
    assert i in pend;
    RetryKeepsWaiting(m, texts[i], max, targets[i], k);
    var after := targets[i := Grow(targets[i], |texts[i]|)];
    assert Remaining(texts[pend[j]], after[pend[j]]) < Remaining(texts[pend[j]], targets[pend[j]]);
    WorkShrinks(texts, targets, after, pend);
  }

  lemma SoundSettled(m: Model, texts: seq<seq<byte>>, max: nat, pend: seq<nat>, copyLens: seq<nat>, out: seq<Row>,
                     keep: seq<bool>,
                     before: seq<nat>, after: seq<nat>, targets: seq<nat>, k: nat)
    requires Sound(m, texts, max, pend, before, out, k) && pend != []
    requires Ready(m, texts, max, pend, before, copyLens) && Placed(m, texts, max, pend, copyLens, out)
    requires Kept(max, texts, pend, copyLens, out, keep) && Settled(texts, pend, keep, before, after, targets)
    ensures Sound(m, texts, max, after, targets, out, k + 1)
    ensures Work(texts, targets, after) < Work(texts, before, pend)
  {
    hide ResolveTarget, CopyLen, Waiting, Final, Remaining, Work, Grow, EmbedOne, Survivors, Undecided;
    forall j: nat | j < |pend|
      ensures var i := pend[j];
              if keep[j] then Waiting(m, texts[i], max, targets[i], k + 1)
                  && Remaining(texts[i], targets[i]) < Remaining(texts[i], before[i])
              else Final(m, texts[i], max, out[i])
    {
      var i := pend[j];
      assert i in pend;
      assert EmbedOne(m, CutText(texts, pend, copyLens, j), max) == Embedded(out[i]);
      SettlesRow(m, texts[i], max, before[i], out[i], k);
    }
    SurvivorsAscend(pend, keep, |texts|);
    forall i: nat | i < |texts|
      ensures if i in Survivors(pend, keep) then Waiting(m, texts[i], max, targets[i], k + 1)
          else Final(m, texts[i], max, out[i])
    {
      SurvivorsAre(pend, keep, i);
      if i in pend {
        var j :| 0 <= j < |pend| && pend[j] == i;
      }
    }
    WorkOfSurvivors(texts, before, targets, pend, keep);
  }

  function KeepFlags(max: nat, texts: seq<seq<byte>>, pend: seq<nat>, copyLens: seq<nat>,
                     out: seq<Row>): (keep: seq<bool>)
    requires Ascending(pend, |texts|) && |pend| <= |copyLens| == |out| == |texts|
    ensures Kept(max, texts, pend, copyLens, out, keep)
  {
    seq(|pend|, j requires 0 <= j < |pend| => Undecided(max, texts[pend[j]], copyLens[j], out[pend[j]]))
  }

  lemma AllFinal(m: Model, texts: seq<seq<byte>>, max: nat, pend: seq<nat>, targets: seq<nat>, out: seq<Row>, k: nat)
    requires Sound(m, texts, max, pend, targets, out, k) && pend == []
    ensures |out| == |texts|
    ensures forall i | 0 <= i < |texts| :: RowOf(m, texts[i], max) == Embedded(out[i])
  {
    hide RowOf;
    forall i: nat | i < |texts|
      ensures RowOf(m, texts[i], max) == Embedded(out[i])
    {
      assert Final(m, texts[i], max, out[i]);
    }
  }

  /** Row i fails no earlier than row `index`: in a later round, or in the same one and not in front of it. */
  ghost predicate FailsFirst(m: Model, texts: seq<seq<byte>>, max: nat, index: nat, i: nat)
    requires index < |texts| && i < |texts|
  {
    var first, other := RoundsOf(m, texts[index], max), RoundsOf(m, texts[i], max);
    first < other || (first == other && index <= i)
  }

  /** The first failure of a pass is the row to blame. */
  lemma RaisedFor(m: Model, texts: seq<seq<byte>>, max: nat, pend: seq<nat>, targets: seq<nat>, copyLens: seq<nat>,
                  out: seq<Row>, j: nat, why: Failure, k: nat)
    requires Sound(m, texts, max, pend, targets, out, k)
    requires Ready(m, texts, max, pend, targets, copyLens) && j < |pend|
    requires EmbedOne(m, CutText(texts, pend, copyLens, j), max) == Failed(why)
    requires forall l: nat | l < j :: EmbedOne(m, CutText(texts, pend, copyLens, l), max).Embedded?
    requires why == InvalidEncoding ==> copyLens[j] >= |texts[pend[j]]|
    ensures RowOf(m, texts[pend[j]], max) == Failed(why)
    ensures forall i: nat | i < |texts| && RowOf(m, texts[i], max).Failed? :: FailsFirst(m, texts, max, pend[j], i)
  {
    hide ResolveTarget, CopyLen, Waiting, EmbedOne, RowOf, RoundsOf;
    assert pend[j] in pend;
    RaisesRow(m, texts[pend[j]], max, targets[pend[j]], why, k);
    forall i: nat | i < |texts| && RowOf(m, texts[i], max).Failed?
      ensures FailsFirst(m, texts, max, pend[j], i)
    {
      assert i in pend;
      AtLeast(m, texts[i], max, targets[i], k);
      if i < pend[j] {
        var l: nat :| l < |pend| && pend[l] == i;
        assert l < j && EmbedOne(m, CutText(texts, pend, copyLens, l), max).Embedded?;
        FailsLater(m, texts[i], max, targets[i], k);
      }
    }
  }

  /** Without a cap there is one round, so the blame falls on the first row that fails. */
  lemma FirstUncapped(m: Model, texts: seq<seq<byte>>)
    ensures forall index: nat, i: nat | index < |texts| && i < index :: !FailsFirst(m, texts, 0, index, i)
  {
    hide RoundsOf, RowOf, EmbedOne;
    forall i | 0 <= i < |texts| ensures RoundsOf(m, texts[i], 0) == 0 { NoRoundsUncapped(m, texts[i]); }
  }

  lemma AtLeast(m: Model, text: seq<byte>, max: nat, target: nat, k: nat)
    requires Waiting(m, text, max, target, k)
    ensures RoundsOf(m, text, max) >= k
  {
  }

  /** `embed_texts_internal`. Rows do not influence each other: each comes out as if its text were the only
      one, and the batch raises exactly when one of them does. It names the row that fails in the earliest
      round, and of those the first. */
  method EmbedTexts(m: Model, ix: WordPiece.Index, ghost rootKeys: map<seq<byte>, nat>,
                    ghost bodyKeys: map<seq<byte>, nat>,
                    texts: seq<seq<byte>>, max: nat)
    returns (r: BatchResult)
    requires TokenState.Opened(m, ix, rootKeys, bodyKeys)
    ensures r.Rows? <==> forall i | 0 <= i < |texts| :: RowOf(m, texts[i], max).Embedded?
    ensures r.Rows? ==> |r.rows| == |texts| && forall i | 0 <= i < |texts| ::
        RowOf(m, texts[i], max) == Embedded(r.rows[i])
    ensures r.Raised? ==> r.index < |texts| && RowOf(m, texts[r.index], max) == Failed(r.why)
    ensures r.Raised? ==> forall i: nat | i < |texts| && RowOf(m, texts[i], max).Failed? ::
        FailsFirst(m, texts, max, r.index, i)
    ensures r.Raised? && max == 0 ==> forall i | 0 <= i < r.index :: RowOf(m, texts[i], max).Embedded?
  {
    if max == 0 { FirstUncapped(m, texts); }
    var run := new EmbedRun(m, texts, max);
    hide TokenState.Opened, Sound, Ready, Work, EmbedOne, Settled, Resolution, Placed,
        RowOf, FailsFirst, Kept, Fits, Untouched, Undecided;
    ghost var k: nat := 0;
    SoundAtStart(m, texts, max, run.pending[..run.npending], run.targets, run.out);
    while run.npending != 0
      invariant fresh(run) && run.Valid() && run.m == m && run.texts == texts && run.max == max
      invariant Sound(m, texts, max, run.pending[..run.npending], run.targets, run.out, k)
      decreases Work(texts, run.targets, run.pending[..run.npending])
    {
      ghost var pend, before, old1 := run.pending[..run.npending], run.targets, run.out;
      run.ResolveAll();
      SoundResolved(m, texts, max, pend, run.out, before, run.targets, run.copyLens, k);
      var job := run.RunJob(ix, rootKeys, bodyKeys);
      SoundUntouched(m, texts, max, pend, run.targets, old1, run.out, k);
      if job.JobFailed? {
        var original := run.pending[job.sub];
        if job.why == InvalidEncoding && run.copyLens[job.sub] < |texts[original]| {
          SoundRetry(m, texts, max, pend, run.targets, run.copyLens, run.out, job.sub, k);
          run.targets := run.targets[original := Grow(run.targets[original], |texts[original]|)];
          continue;
        }
        RaisedFor(m, texts, max, pend, run.targets, run.copyLens, run.out, job.sub, job.why, k);
        return Raised(job.why, original);
      }
      ghost var keep := KeepFlags(max, texts, pend, run.copyLens, run.out);
      ghost var targets := run.targets;
      run.Settle(keep);
      SoundSettled(m, texts, max, pend, run.copyLens, run.out, keep, targets,
                   run.pending[..run.npending], run.targets, k);
      k := k + 1;
    }
    AllFinal(m, texts, max, run.pending[..run.npending], run.targets, run.out, k);
    r := Rows(run.out);
  }

  /** `embed_one_via_batch`: a batch of one text. */
  method EmbedAlone(m: Model, ix: WordPiece.Index, ghost rootKeys: map<seq<byte>, nat>,
                    ghost bodyKeys: map<seq<byte>, nat>,
                    text: seq<byte>, max: nat)
    returns (r: BatchResult)
    requires TokenState.Opened(m, ix, rootKeys, bodyKeys)
    ensures r == match RowOf(m, text, max)
                 case Embedded(row) => Rows([row])
                 case Failed(why) => Raised(why, 0)
  {
    hide TokenState.Opened, RowOf;
    r := EmbedTexts(m, ix, rootKeys, bodyKeys, [text], max);
    assert [text][0] == text;
    if r.Rows? { assert r.rows == [r.rows[0]]; }
  }
}
