/** The one-pass tokenizer of se_tokenizer.c: `token_state_t` and the functions that update it.

    Every method is proved against the functions of Tokenizer: the ghost field `st` is the state
    the uncapped fold would be in, and the ids held are those of its words, capped.
  */
module TokenState {
  import opened Utf8
  import opened NormTables
  import opened Tokenizer
  import WordPiece
  import Truncation

  /** What opening a model file establishes. */
  ghost predicate Opened(m: Model, ix: WordPiece.Index, rootKeys: map<seq<byte>, nat>, bodyKeys: map<seq<byte>, nat>) {
    && m.cleanText
    && WordPiece.Loaded(ix, m.tokens, rootKeys, bodyKeys) && WordPiece.AllValid(m.tokens)
    && m.limits.maxTokenChars == WordPiece.Window(m.tokens, m.limits.maxInputChars)
    && UnkIsItself(m) && AddedAreThemselves(m)
  }

  predicate IsItself(m: Model, k: AddedKind) { m.AddedId(k) < |m.tokens| && m.tokens[m.AddedId(k)] == Literal(k) }

  /** The loader checks that every enabled added token is found at its recorded id. */
  predicate AddedAreThemselves(m: Model) { forall k | k in m.enabled :: IsItself(m, k) }

  /** The loader checks that "[UNK]" is found at the recorded id. */
  predicate UnkIsItself(m: Model) { IsItself(m, UNK) }

  // ----- unknown ids -----

  /** No ordinary word can produce the entry "[UNK]": '[' is punctuation, so it only ever stands alone. */
  predicate Ordinary(chars: seq<Scalar>) {
    |chars| <= 1 || forall k | 0 <= k < |chars| :: chars[k] != 0x5B && chars[k] != 0x23
  }

  lemma PieceIsNotUnk(chars: seq<Scalar>, start: nat, finish: nat)
    requires Ordinary(chars) && start < finish <= |chars|
    ensures WordPiece.Piece(chars, start, finish) != Literal(UNK)
  {
    var text := EncodeAll(chars[start..finish]);
    if start == 0 {
      assert chars[0..finish][0] == chars[0];
      assert text == Encode(chars[0]) + EncodeAll(chars[0..finish][1..]);
      if |chars| == 1 {
        assert chars[0..finish][1..] == [];
        assert |text| <= 4;
      } else {
        assert text[0] != 0x5B;
      }
    } else {
      assert (WordPiece.PREFIX + text)[0] == 0x23;
    }
  }

  lemma {:induction false} PiecesHoldNoUnk(m: Model, chars: seq<Scalar>, start: nat, p: Truncation.Policy)
    requires UnkIsItself(m) && Ordinary(chars) && start <= |chars| && p.unkId == m.limits.unkId
    ensures var r := WordPiece.Pieces(m.tokens, chars, start); r.Some? ==> Truncation.UnkCount(p, r.value) == 0
    decreases |chars| - start
  {
    hide WordPiece.LongestPiece, WordPiece.Piece;
    if start < |chars| {
      WordPiece.PiecesStep(m.tokens, chars, start);
      var f := WordPiece.LongestPiece(m.tokens, chars, start, |chars|);
      if f.Some? {
        LongestIsNotUnk(m, chars, start, |chars|);
        PiecesHoldNoUnk(m, chars, f.value.finish, p);
        var rest := WordPiece.Pieces(m.tokens, chars, f.value.finish);
        if rest.Some? {
          Truncation.UnkCountConcat(p, [f.value.id], rest.value);
          UnkCountOne(p, f.value.id);
        }
      }
    }
  }

  lemma UnkCountOne(p: Truncation.Policy, id: nat)
    ensures Truncation.UnkCount(p, [id]) == if id == p.unkId then 1 else 0
  {
    assert [id][..0] == [];
  }

  lemma {:induction false} LongestIsNotUnk(m: Model, chars: seq<Scalar>, start: nat, finish: nat)
    requires UnkIsItself(m) && Ordinary(chars) && start <= finish <= |chars|
    ensures var r := WordPiece.LongestPiece(m.tokens, chars, start, finish); r.Some? ==> r.value.id != m.limits.unkId
    decreases finish
  {
    if start < finish {
      PieceIsNotUnk(chars, start, finish);
      LongestIsNotUnk(m, chars, start, finish - 1);
    }
  }

  /** The unknown ids of a word: one when it is unknown, none otherwise. */
  lemma UnkOfWord(m: Model, chars: seq<Scalar>, p: Truncation.Policy)
    requires UnkIsItself(m) && Ordinary(chars) && p.unkId == m.limits.unkId
    ensures Truncation.UnkCount(p, WordPiece.WordIds(m.tokens, m.limits, chars))
         == if WordPiece.IsUnknown(m.tokens, m.limits, chars) then 1 else 0
  {
    PiecesHoldNoUnk(m, chars, 0, p);
    UnkCountOne(p, m.limits.unkId);
  }

  // ----- ASCII -----

  datatype AsciiClass = DROP | SPACE | PUNCT | WORD

  // The 128-entry table, 16 entries a row.
  const ROW0: seq<nat> := [0, 0, 0, 0, 0, 0, 0, 0, 0, 1, 1, 0, 0, 1, 0, 0]
  const ROW1: seq<nat> := [0, 0, 0, 0, 0, 0, 0, 0, 0, 0, 0, 0, 0, 0, 0, 0]
  const ROW2: seq<nat> := [1, 2, 2, 2, 2, 2, 2, 2, 2, 2, 2, 2, 2, 2, 2, 2]
  const ROW3: seq<nat> := [3, 3, 3, 3, 3, 3, 3, 3, 3, 3, 2, 2, 2, 2, 2, 2]
  const ROW4: seq<nat> := [2, 3, 3, 3, 3, 3, 3, 3, 3, 3, 3, 3, 3, 3, 3, 3]
  const ROW5: seq<nat> := [3, 3, 3, 3, 3, 3, 3, 3, 3, 3, 3, 2, 2, 2, 2, 2]
  const ROW7: seq<nat> := [3, 3, 3, 3, 3, 3, 3, 3, 3, 3, 3, 2, 2, 2, 2, 0]
  function Row(r: nat): (s: seq<nat>)
    requires r < 8
    ensures |s| == 16
  {
    if r == 0 then ROW0 else if r == 1 then ROW1 else if r == 2 then ROW2 else if r == 3 then ROW3
    else if r == 4 then ROW4 else if r == 5 then ROW5 else if r == 6 then ROW4 else ROW7
  }

  function Expected(b: nat): nat {
    if IsAsciiWhitespace(b) then 1 else if IsAsciiPunct(b) then 2 else if b < 0x20 || b == 0x7F then 0 else 3
  }

  lemma UpperRows(r: nat, j: nat)
    requires r < 4 && j < 16
    ensures Row(r)[j] == Expected(16 * r + j)
  {
    if r == 0 {
      assert ROW0[j] == Expected(j);
    } else if r == 1 {
      assert ROW1[j] == Expected(16 + j);
    } else if r == 2 {
      assert ROW2[j] == Expected(32 + j);
    } else {
      assert ROW3[j] == Expected(48 + j);
    }
  }

  lemma LowerRows(r: nat, j: nat)
    requires 4 <= r < 8 && j < 16
    ensures Row(r)[j] == Expected(16 * r + j)
  {
    if r == 4 || r == 6 {
      assert ROW4[j] == Expected(64 + j) == Expected(96 + j);
    } else if r == 5 {
      assert ROW5[j] == Expected(80 + j);
    } else {
      assert ROW7[j] == Expected(112 + j);
    }
  }

  function ClassCode(b: byte): nat
    requires b < 0x80
  {
    Row(b / 16)[b % 16]
  }

  /** The 128-entry table says what the predicates say. */
  lemma ClassTable(b: byte)
    requires b < 0x80
    ensures ClassCode(b) == Expected(b)
  {
    if b / 16 < 4 { UpperRows(b / 16, b % 16); } else { LowerRows(b / 16, b % 16); }
    assert b == 16 * (b / 16) + b % 16;
    hide Row, Expected;
  }

  function ClassOf(b: byte): AsciiClass
    requires b < 0x80
  {
    match ClassCode(b) case 0 => DROP case 1 => SPACE case 2 => PUNCT case _ => WORD
  }

  /** What the fast path does with one byte, as events. */
  function FastEvents(m: Model, b: byte): seq<Event>
    requires b < 0x80
  {
    match ClassOf(b)
    case DROP => []
    case SPACE => [Break]
    case PUNCT => [Mark(b)]
    case WORD => [Letter(if m.lowerCase && 0x41 <= b <= 0x5A then b + 32 else b)]
  }

  /** Byte for byte, the fast path does what cleaning, stripping, lowering and feeding do,
      exactly when the text is cleaned or the byte is not one that cleaning removes. */
  lemma FastPathIsSlowPath(m: Model, b: byte)
    requires b < 0x80
    ensures FastEvents(m, b) == EventsOf(m, Normal(m, b)) <==> m.cleanText || ClassOf(b) != DROP
  {
    ClassTable(b);
    hide ClassCode;
    if m.cleanText && ClassOf(b) == DROP {
      assert Normal(m, b) == [];
    } else {
      var out: Scalar := if m.cleanText && IsAsciiWhitespace(b) then 0x20 else b;
      assert Spaced(m, out) == Lowered(m, out);
      var low := Lowered(m, out)[0];
      assert Normal(m, b) == [low];
      assert EventsOf(m, [low]) == [EventOf(m, low)];
    }
  }

  // ----- the state machine -----

  class TokenState {
    const m: Model
    const ix: WordPiece.Index
    ghost const rootKeys: map<seq<byte>, nat>
    ghost const bodyKeys: map<seq<byte>, nat>
    const max: nat
    const rawLimit: bool

    var ids: seq<nat>
    var nUnk: nat
    var segment: seq<Scalar>
    var segmentAscii: bool
    var truncated: bool
    ghost var st: State

    constructor (m: Model, ix: WordPiece.Index, ghost rootKeys: map<seq<byte>, nat>,
                 ghost bodyKeys: map<seq<byte>, nat>,
                 max: nat, rawLimit: bool)
      requires Opened(m, ix, rootKeys, bodyKeys)
      ensures this.m == m && this.max == max && this.rawLimit == rawLimit
      ensures Running() && st == START
    {
      hide Opened;
      this.m, this.ix, this.rootKeys, this.bodyKeys := m, ix, rootKeys, bodyKeys;
      this.max, this.rawLimit := max, rawLimit;
      ids, nUnk, segment, segmentAscii, truncated, st := [], 0, [], true, false, START;
      new;
      NothingYet(m, max, rawLimit);
      hide Truncation.Cap, IdsOf, Truncation.UnkCount, IsPunct;
    }

    function Limit(): Truncation.Policy { m.Policy(rawLimit) }

    /** The ids held and the unknowns among them are those of the words finished so far. */
    ghost predicate Agrees()
      reads this
    {
      && Opened(m, ix, rootKeys, bodyKeys)
      && Truncation.Cap(Limit(), max, IdsOf(m, st.words)) == Truncation.Capped(ids, truncated)
      && nUnk == Truncation.UnkCount(Limit(), ids)
    }

    /** Still below the cap: nothing has been cut and the segment is the word being built. */
    ghost predicate Running()
      reads this
    {
      && Agrees() && !truncated && segment == st.seg && NoPunct(m, segment)
      && (segmentAscii ==> AllAscii(segment))
    }

    /** The cap was reached: later words cannot change the ids. */
    ghost predicate Stopped()
      reads this
    {
      Agrees() && truncated
    }

    ghost predicate After(stop: bool)
      reads this
    {
      if stop then Stopped() else Running()
    }

    lemma StaysStopped(more: seq<Word>)
      requires Stopped() && st.words <= more
      ensures Truncation.Cap(Limit(), max, IdsOf(m, more)) == Truncation.Capped(ids, truncated)
    {
      IdsOfPrefix(m, st.words, more);
      Truncation.CapOfPrefix(Limit(), max, IdsOf(m, st.words), IdsOf(m, more));
    }

    /** The shared end of `append_wordpiece` and `append_direct_id`: the ids with one more word's, capped. */
    method Append(newIds: seq<nat>, newUnk: nat, ghost w: Word) returns (stop: bool)
      requires Agrees() && !truncated
      requires newIds == ids + IdsOfWord(m, w) && newUnk == Truncation.UnkCount(Limit(), newIds)
      modifies this`ids, this`nUnk, this`truncated, this`st
      ensures Agrees() && truncated == stop
      ensures st == State(old(st).words + [w], old(st).seg)
    {
      hide Opened, Truncation.Cap, Truncation.UnkCount, IdsOf, IdsOfWord;
      UncutIds(Limit(), max, IdsOf(m, st.words), ids);
      IdsOfNext(m, st.words, w);
      ids, nUnk, stop := Truncation.CapAfterAppend(Limit(), max, newIds, newUnk);
      truncated := stop;
      st := State(st.words + [w], st.seg);
    }

    /** `append_direct_id` */
    method AppendDirectId(id: nat) returns (stop: bool)
      requires Agrees() && !truncated
      modifies this`ids, this`nUnk, this`truncated, this`st
      ensures Agrees() && truncated == stop
      ensures st == State(old(st).words + [Special(id)], old(st).seg)
    {
      hide Opened, Truncation.Cap, Truncation.UnkCount, IdsOf;
      Truncation.UnkCountConcat(Limit(), ids, [id]);
      UnkCountOne(Limit(), id);
      stop := Append(ids + [id], if id == m.limits.unkId then nUnk + 1 else nUnk, Special(id));
    }

    /** `append_wordpiece` */
    method AppendWordpiece(word: seq<Scalar>) returns (stop: bool)
      requires Agrees() && !truncated && (NoPunct(m, word) || |word| == 1)
      requires |word| != 1 && segmentAscii ==> AllAscii(word)
      modifies this`ids, this`nUnk, this`truncated, this`st
      ensures Agrees() && truncated == stop
      ensures st == State(old(st).words + [Plain(word)], old(st).seg)
    {
      hide Truncation.Cap, Truncation.UnkCount, IdsOf, WordPiece.IsUnknown, WordPiece.WordIds, WordPiece.Loaded,
        WordPiece.AllValid, WordPiece.Window, NoPunct, Ordinary, WordPiece.Hashed, UnkIsItself, IsPunct;
      NoPunctIsOrdinary(m, word);
      UnkOfWord(m, word, Limit());
      var knownAscii := if |word| == 1 then word[0] < 0x80 else segmentAscii;
      var outIds, outUnk, status := WordPiece.Wordpiece(ix, m.tokens, rootKeys, bodyKeys, m.limits, word, ids, nUnk,
              knownAscii);
      Truncation.UnkCountConcat(Limit(), ids, WordPiece.WordIds(m.tokens, m.limits, word));
      stop := Append(outIds, outUnk, Plain(word));
    }

    /** `flush_segment` */
    method FlushSegment() returns (stop: bool)
      requires Running()
      modifies this
      ensures After(stop) && st == old(st).Flushed() && (!stop ==> segment == [])
    {
      hide Opened, Truncation.Cap, Truncation.UnkCount, IdsOf;
      if |segment| == 0 {
        return false;
      }
      stop := AppendWordpiece(segment);
      segment := [];
      segmentAscii := true;
      st := State(st.words, []);
    }

    /** `feed_token_cp` */
    method FeedTokenCp(cp: Scalar) returns (stop: bool)
      requires Running()
      modifies this
      ensures After(stop) && st == Feed(old(st), EventOf(m, cp))
    {
      hide Opened, Truncation.Cap, Truncation.UnkCount, IdsOf;
      if IsWhitespace(m, cp) {
        stop := FlushSegment();
        return;
      }
      if IsPunct(m, cp) {
        stop := FeedMark(cp);
        return;
      }
      PushSegment(cp, cp < 0x80 && segmentAscii);
      stop := false;
    }

    /** Punctuation ends the pending word and is a word of its own. */
    method FeedMark(cp: Scalar) returns (stop: bool)
      requires Running()
      modifies this
      ensures After(stop) && st == Feed(old(st), Mark(cp))
    {
      hide Opened, Truncation.Cap, Truncation.UnkCount, IdsOf, IsPunct;
      stop := FlushSegment();
      if stop {
        StaysStopped(st.words + [Plain([cp])]);
        st := State(st.words + [Plain([cp])], []);
        return;
      }
      stop := AppendWordpiece([cp]);
    }

    /** `append_segment_cp` */
    method PushSegment(cp: Scalar, ascii: bool)
      requires Running() && !IsPunct(m, cp) && (ascii ==> segmentAscii && cp < 0x80)
      modifies this
      ensures Running() && st == Feed(old(st), Letter(cp))
    {
      hide Opened, Truncation.Cap, Truncation.UnkCount, IdsOf, IsPunct;
      segmentAscii := ascii;
      segment := segment + [cp];
      st := State(st.words, st.seg + [cp]);
    }

    /** Feeding a stretch of normalised codepoints, stopping as soon as the cap is reached. */
    method FeedAll(cps: seq<Scalar>) returns (stop: bool)
      requires Running()
      modifies this
      ensures After(stop) && st == Run(old(st), EventsOf(m, cps))
    {
      hide Opened, Truncation.Cap, Truncation.UnkCount, IdsOf;
      stop := false;
      var k := 0;
      while k < |cps|
        invariant 0 <= k <= |cps| && Running() && !stop
        invariant Run(old(st), EventsOf(m, cps)) == Run(st, EventsOf(m, cps[k..]))
      {
        assert EventsOf(m, cps[k..])[0] == EventOf(m, cps[k]);
        assert EventsOf(m, cps[k..])[1..] == EventsOf(m, cps[k + 1..]);
        stop := FeedTokenCp(cps[k]);
        k := k + 1;
        if stop {
          SkipRest(EventsOf(m, cps[k..]));
          return;
        }
      }
    }

    /** Once stopped, whatever else would have been fed changes nothing. */
    ghost method SkipRest(rest: seq<Event>)
      requires Stopped()
      modifies this`st
      ensures Stopped() && st == Run(old(st), rest)
    {
      hide Opened, Truncation.Cap, Truncation.UnkCount, IdsOf, Run, IsPunct;
      RunKeepsWords(st, rest);
      StaysStopped(Run(st, rest).words);
      st := Run(st, rest);
    }

    /** `emit_lowered` */
    method EmitLowered(cp: Scalar) returns (stop: bool)
      requires Running()
      modifies this
      ensures After(stop) && st == Run(old(st), EventsOf(m, Lowered(m, cp)))
    {
      hide Opened, Truncation.Cap, Truncation.UnkCount, IdsOf, IsPunct, EventOf;
      var low := cp;
      if m.lowerCase {
        if 0x41 <= cp <= 0x5A {
          low := cp + 32;
        } else if cp >= 0x80 {
          var e := Lookup(m.tables.lower, cp);
          if e.Some? {
            stop := FeedAll(e.value);
            return;
          }
        }
      }
      assert EventsOf(m, [low]) == [EventOf(m, low)];
      RunOne(st, EventOf(m, low));
      stop := FeedTokenCp(low);
    }

    /** `emit_stripped` */
    method EmitStripped(cp: Scalar) returns (stop: bool)
      requires Running()
      modifies this
      ensures After(stop) && st == Run(old(st), EventsOf(m, Stripped(m, cp)))
    {
      hide Opened, Truncation.Cap, Truncation.UnkCount, IdsOf, IsPunct, EventOf, Lowered, IsMn;
      if !m.stripAccents || cp < 0x80 {
        stop := EmitLowered(cp);
        return;
      }
      var e := Lookup(m.tables.nfd, cp);
      if e.None? {
        if IsMn(m, cp) {
          return false;
        }
        stop := EmitLowered(cp);
        return;
      }
      stop := EmitDecomposed(e.value);
    }

    /** The loop of `emit_stripped` over a decomposition. */
    method EmitDecomposed(out: seq<Scalar>) returns (stop: bool)
      requires Running()
      modifies this
      ensures After(stop) && st == Run(old(st), EventsOf(m, LoweredUnlessMark(m, out)))
    {
      hide Opened, Truncation.Cap, Truncation.UnkCount, IdsOf, IsPunct, EventOf, Lowered, IsMn, EventsOf;
      stop := false;
      var k := 0;
      assert out[0..] == out;
      while k < |out|
        invariant 0 <= k <= |out| && Running() && !stop
        invariant Run(old(st), EventsOf(m, LoweredUnlessMark(m, out))) ==
            Run(st, EventsOf(m, LoweredUnlessMark(m, out[k..])))
      {
        var d := out[k];
        assert out[k..][1..] == out[k + 1..];
        ghost var rest := LoweredUnlessMark(m, out[k + 1..]);
        k := k + 1;
        if IsMn(m, d) {
          assert [] + rest == rest;
          continue;
        }
        EventsConcat(m, Lowered(m, d), rest);
        RunConcat(st, EventsOf(m, Lowered(m, d)), EventsOf(m, rest));
        stop := EmitLowered(d);
        if stop {
          SkipRest(EventsOf(m, rest));
          return;
        }
      }
      assert EventsOf(m, LoweredUnlessMark(m, out[k..])) == [] by { NoEvents(m); }
    }

    /** `emit_cleaned` */
    method EmitCleaned(cp: Scalar) returns (stop: bool)
      requires Running()
      modifies this
      ensures After(stop) && st == Run(old(st), EventsOf(m, Normal(m, cp)))
    {
      hide Opened, Truncation.Cap, Truncation.UnkCount, IdsOf, IsPunct, EventOf, Stripped, IsControl, IsWhitespace;
      var c := cp;
      if m.cleanText {
        if cp == 0 || cp == 0xFFFD || IsControl(m, cp) {
          return false;
        }
        if IsWhitespace(m, cp) {
          c := 0x20;
        }
      }
      if m.chinese && c >= 0x3400 && IsCjk(c) {
        ghost var space, own := Stripped(m, 0x20), Stripped(m, c);
        ghost var rest2 := EventsOf(m, space);
        ghost var rest1 := EventsOf(m, own) + rest2;
        EventsConcat(m, space + own, space);
        EventsConcat(m, space, own);
        assert EventsOf(m, space + own + space) == EventsOf(m, space) + rest1;
        RunConcat(st, EventsOf(m, space), rest1);
        stop := EmitStripped(0x20);
        if stop {
          SkipRest(rest1);
          return;
        }
        RunConcat(st, EventsOf(m, own), rest2);
        stop := EmitStripped(c);
        if stop {
          SkipRest(rest2);
          return;
        }
        stop := EmitStripped(0x20);
        return;
      }
      stop := EmitStripped(c);
    }

    /** One byte of the ASCII fast path, the added tokens aside. */
    method FeedAscii(b: byte) returns (stop: bool)
      requires Running() && b < 0x80
      modifies this
      ensures After(stop) && st == Run(old(st), FastEvents(m, b))
    {
      WordByte(m, b);
      hide Opened, Truncation.Cap, Truncation.UnkCount, IdsOf, ClassCode, IsPunct;
      match ClassOf(b)
      case DROP =>
        stop := false;
      case SPACE =>
        RunOne(st, Break);
        stop := FlushSegment();
      case PUNCT =>
        RunOne(st, Mark(b));
        stop := FeedMark(b);
      case WORD =>
        var low: Scalar := if m.lowerCase && 0x41 <= b <= 0x5A then b + 32 else b;
        RunOne(st, Letter(low));
        PushSegment(low, segmentAscii);
        stop := false;
    }

    /** An added token: the pending word is finished, then its id is appended as it is. */
    method FeedAdded(k: AddedKind) returns (stop: bool)
      requires Running()
      modifies this
      ensures After(stop) && st == Run(old(st), [Direct(m.AddedId(k))])
    {
      hide Opened, Truncation.Cap, Truncation.UnkCount, IdsOf;
      var id := m.AddedId(k);
      RunOne(st, Direct(id));
      stop := FlushSegment();
      if stop {
        StaysStopped(st.words + [Special(id)]);
        st := State(st.words + [Special(id)], []);
        return;
      }
      stop := AppendDirectId(id);
    }

    /** `tokenize_ascii_run`: consumes bytes below 0x80 and added tokens from i0 on. */
    method TokenizeAsciiRun(text: seq<byte>, i0: nat) returns (i: nat, stop: bool, ghost evs: seq<Event>)
      requires Running() && i0 <= |text|
      modifies this
      ensures After(stop) && st == Run(old(st), evs) && evs <= ScanFrom(m, text, i0).evs
      ensures !stop ==> ScannedTo(m, text, i0, evs, i) && (i == |text| || text[i] >= 0x80)
    {
      assert m.cleanText;
      hide Opened, Truncation.Cap, Truncation.UnkCount, IdsOf, ItemAt, ScanFrom, FastEvents, LiteralAt, IsPunct;
      i, stop, evs := i0, false, [];
      ScanStarts(m, text, i0);
      while i < |text|
        invariant Running() && !stop && st == Run(old(st), evs) && ScannedTo(m, text, i0, evs, i)
        decreases |text| - i
      {
        AsciiIsItem(m, text, i);
        if text[i] >= 0x80 {
          break;
        }
        ScanStep(m, text, i0, evs, i);
        RunConcat(old(st), evs, ItemAt(m, text, i).evs);
        evs := evs + ItemAt(m, text, i).evs;
        i, stop := AsciiStep(text, i);
        if stop {
          return;
        }
      }
    }

    /** One round of the fast path. */
    method AsciiStep(text: seq<byte>, i: nat) returns (next: nat, stop: bool)
      requires Running() && i < |text| && text[i] < 0x80
      modifies this
      ensures ItemAt(m, text, i).Item? && After(stop)
      ensures next == ItemAt(m, text, i).next && st == Run(old(st), ItemAt(m, text, i).evs)
    {
      assert m.cleanText;
      hide Opened, Truncation.Cap, Truncation.UnkCount, IdsOf, ItemAt, FastEvents, LiteralAt, IsPunct;
      AsciiItem(m, text, i);
      var added := AddedAt(m, text, i);
      if added.Some? {
        stop := FeedAdded(added.value);
        next := i + |Literal(added.value)|;
      } else {
        stop := FeedAscii(text[i]);
        next := i + 1;
      }
    }
  }

  /** The scan never fails on an ASCII byte. */
  lemma AsciiIsItem(m: Model, text: seq<byte>, i: nat)
    requires m.cleanText && i < |text|
    ensures text[i] < 0x80 ==> ItemAt(m, text, i).Item?
  {
    hide FastEvents;
    if text[i] < 0x80 { AsciiItem(m, text, i); }
  }

  /** Letters and digits stay ordinary when lowered. */
  lemma WordByte(m: Model, b: byte)
    requires b < 0x80
    ensures ClassOf(b) == WORD ==> !IsPunct(m, b) && (0x41 <= b <= 0x5A ==> !IsPunct(m, b + 32))
    ensures ClassOf(b) == PUNCT ==> IsPunct(m, b)
  {
    ClassTable(b);
    hide ClassCode;
  }

  lemma RunOne(st: State, ev: Event)
    ensures Run(st, [ev]) == Feed(st, ev)
  {
    assert [ev][1..] == [];
  }

  lemma NoEvents(m: Model)
    ensures EventsOf(m, []) == []
  {
  }

  /** At an ASCII byte the scan finds an added token or the fast path's events for that byte. */
  lemma AsciiItem(m: Model, text: seq<byte>, i: nat)
    requires m.cleanText && i < |text| && text[i] < 0x80
    ensures ItemAt(m, text, i) == match AddedAt(m, text, i)
                                  case Some(k) => Item([Direct(m.AddedId(k))], i + |Literal(k)|)
                                  case None => Item(FastEvents(m, text[i]), i + 1)
  {
    FastPathIsSlowPath(m, text[i]);
    hide LiteralAt, FastEvents, Normal, EventsOf;
    assert DecodeAt(text, i) == Some(Decoded(text[i], i + 1));
  }

  lemma NothingYet(m: Model, max: nat, rawLimit: bool)
    ensures Truncation.Cap(m.Policy(rawLimit), max, IdsOf(m, START.words)) == Truncation.Capped([], false)
    ensures Truncation.UnkCount(m.Policy(rawLimit), []) == 0
  {
  }

  /** One more word's ids behind those of the others. */
  lemma IdsOfNext(m: Model, words: seq<Word>, w: Word)
    ensures IdsOf(m, words + [w]) == IdsOf(m, words) + IdsOfWord(m, w)
  {
    hide IdsOfWord;
    assert (words + [w])[..|words|] == words;
  }

  /** Below the cap nothing has been cut away yet. */
  lemma UncutIds(p: Truncation.Policy, max: nat, all: seq<nat>, ids: seq<nat>)
    requires Truncation.Cap(p, max, all) == Truncation.Capped(ids, false)
    ensures ids == all
  {
  }

  predicate NoPunct(m: Model, chars: seq<Scalar>) {
    forall k | 0 <= k < |chars| :: !IsPunct(m, chars[k])
  }

  predicate AllAscii(chars: seq<Scalar>) {
    forall k | 0 <= k < |chars| :: chars[k] < 0x80
  }

  lemma NoPunctIsOrdinary(m: Model, chars: seq<Scalar>)
    requires NoPunct(m, chars) || |chars| == 1
    ensures Ordinary(chars) && !WordPiece.Hashed(chars)
  {
    if NoPunct(m, chars) {
      forall k | 0 <= k < |chars|
        ensures chars[k] != 0x5B && chars[k] != 0x23
      {
        assert !IsPunct(m, chars[k]);
      }
    }
  }

  // ----- the whole text -----

  /** A byte at or above 0x80 is never the start of an added token. */
  lemma WideItem(m: Model, text: seq<byte>, i: nat)
    requires i < |text| && text[i] >= 0x80
    ensures ItemAt(m, text, i) == match DecodeAt(text, i)
                                  case None => Bad
                                  case Some(d) => Item(EventsOf(m, Normal(m, d.cp)), d.next)
  {
    hide LiteralAt, Literal;
    forall k ensures !LiteralAt(text, i, k) { BracketFirst(text, i, k); }
  }

  /** What the result of a finished scan is, given how the state machine ended. */
  lemma StoppedOutcome(m: Model, text: seq<byte>, max: nat, rawLimit: bool, evs: seq<Event>, ids: seq<nat>)
    requires evs <= ScanFrom(m, text, 0).evs
    requires Truncation.Cap(m.Policy(rawLimit), max, IdsOf(m, Run(START, evs).words)) == Truncation.Capped(ids, true)
    ensures Tokenize(m, text, max, rawLimit) == Ids(ids, true)
  {
    var all := ScanFrom(m, text, 0).evs;
    var st := Run(START, evs);
    hide ScanFrom, IdsOf, Truncation.Cap;
    assert all == evs + all[|evs|..];
    RunConcat(START, evs, all[|evs|..]);
    RunKeepsWords(st, all[|evs|..]);
    IdsOfPrefix(m, st.words, Run(START, all).words);
    Truncation.CapOfPrefix(m.Policy(rawLimit), max, IdsOf(m, st.words), IdsOf(m, Run(START, all).words));
  }

  /** `se_tokenize`: one pass, no lookahead beyond an added token, and exactly the capped ids of the
      text's words, with an exact count of the unknown ones. */
  method TokenizeText(m: Model, ix: WordPiece.Index, ghost rootKeys: map<seq<byte>, nat>,
                      ghost bodyKeys: map<seq<byte>, nat>,
                      text: seq<byte>, max: nat, rawLimit: bool)
    returns (outcome: Outcome, nUnk: nat)
    requires Opened(m, ix, rootKeys, bodyKeys)
    ensures outcome == Tokenize(m, text, max, rawLimit)
    ensures outcome.Ids? ==> nUnk == Truncation.UnkCount(m.Policy(rawLimit), outcome.ids)
  {
    hide Opened, Truncation.Cap, Truncation.UnkCount, IdsOf, ItemAt, ScanFrom, IsPunct, EventsOf, Normal, Run;
    var t := new TokenState(m, ix, rootKeys, bodyKeys, max, rawLimit);
    ghost var evs: seq<Event> := [];
    assert Run(START, []) == START by { RunNothing(START); }
    ScanStarts(m, text, 0);
    var i: nat := 0;
    while i < |text|
      invariant i <= |text| && t.m == m && t.max == max && t.rawLimit == rawLimit && fresh(t)
      invariant t.Running() && t.st == Run(START, evs) && ScannedTo(m, text, 0, evs, i)
      decreases |text| - i
    {
      if text[i] < 0x80 {
        ghost var more;
        ghost var i0 := i;
        var stop: bool;
        i, stop, more := t.TokenizeAsciiRun(text, i);
        RunConcat(START, evs, more);
        ScanMore(m, text, evs, i0, more, i, stop);
        evs := evs + more;
        if stop {
          StoppedOutcome(m, text, max, rawLimit, evs, t.ids);
          return Ids(t.ids, true), t.nUnk;
        }
        if i >= |text| {
          break;
        }
      }
      WideItem(m, text, i);
      var d := DecodeOne(text, i);
      if d.None? {
        BadOutcome(m, text, max, rawLimit, evs, i, t.ids);
        return InvalidUtf8, 0;
      }
      ScanStep(m, text, 0, evs, i);
      var stop := t.EmitCleaned(d.value.cp);
      RunConcat(START, evs, EventsOf(m, Normal(m, d.value.cp)));
      evs := evs + EventsOf(m, Normal(m, d.value.cp));
      i := d.value.next;
      if stop {
        StoppedOutcome(m, text, max, rawLimit, evs, t.ids);
        return Ids(t.ids, true), t.nUnk;
      }
    }
    EndOutcome(m, text, max, rawLimit, evs, t.ids);
    var stop := t.FlushSegment();
    outcome, nUnk := Ids(t.ids, stop), t.nUnk;
  }

  lemma RunNothing(st: State)
    ensures Run(st, []) == st
  {
  }

  lemma ScanMore(m: Model, text: seq<byte>, evs: seq<Event>, i0: nat, more: seq<Event>, i: nat, stop: bool)
    requires ScannedTo(m, text, 0, evs, i0) && more <= ScanFrom(m, text, i0).evs
    requires !stop ==> ScannedTo(m, text, i0, more, i)
    ensures evs + more <= ScanFrom(m, text, 0).evs
    ensures !stop ==> ScannedTo(m, text, 0, evs + more, i)
  {
    hide ScanFrom;
    if !stop {
      var rest := ScanFrom(m, text, i).evs;
      assert evs + (more + rest) == evs + more + rest;
    }
  }

  lemma BadOutcome(m: Model, text: seq<byte>, max: nat, rawLimit: bool, evs: seq<Event>, i: nat, ids: seq<nat>)
    requires ScannedTo(m, text, 0, evs, i) && i < |text| && ItemAt(m, text, i) == Bad
    requires Truncation.Cap(m.Policy(rawLimit), max, IdsOf(m, Run(START, evs).words)) == Truncation.Capped(ids, false)
    ensures Tokenize(m, text, max, rawLimit) == InvalidUtf8
  {
    hide ItemAt, IdsOf, Truncation.Cap, Run;
    assert ScanFrom(m, text, i) == Scan([], false);
    assert evs + [] == evs;
  }

  lemma EndOutcome(m: Model, text: seq<byte>, max: nat, rawLimit: bool, evs: seq<Event>, ids: seq<nat>)
    requires ScannedTo(m, text, 0, evs, |text|)
    requires Truncation.Cap(m.Policy(rawLimit), max, IdsOf(m, Run(START, evs).words)) == Truncation.Capped(ids, false)
    ensures var after := Truncation.Cap(m.Policy(rawLimit), max, IdsOf(m, Run(START, evs).Flushed().words));
            Tokenize(m, text, max, rawLimit) == Ids(after.ids, after.truncated)
  {
    hide ItemAt, IdsOf, Truncation.Cap, Run;
    assert ScanFrom(m, text, |text|) == Scan([], true);
    assert evs + [] == evs;
  }
}
