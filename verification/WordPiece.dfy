/** WordPiece: the greedy dictionary search of reference.rb, and the hash pre-check plus
    byte-trie walk of se_tokenizer.c that must give the same ids.
  */
module WordPiece {
  import opened Utf8
  import VocabHash
  import ByteTrie

  const HASH: Scalar := 0x23
  const PREFIX: seq<byte> := [0x23, 0x23]

  // ----- the reference: longest piece first, over codepoints -----

  /** chars[start...finish], with "##" in front unless it starts the word. */
  function Piece(chars: seq<Scalar>, start: nat, finish: nat): seq<byte>
    requires start <= finish <= |chars|
  {
    (if start > 0 then PREFIX else []) + EncodeAll(chars[start..finish])
  }

  datatype Found = Found(id: nat, finish: nat)

  /** `longest_piece`, searching downwards from `finish`. */
  function LongestPiece(tokens: seq<seq<byte>>, chars: seq<Scalar>, start: nat, finish: nat): (r: Option<Found>)
    requires start <= finish <= |chars|
    ensures r.Some? ==> start < r.value.finish <= finish && r.value.id < |tokens|
    decreases finish - start
  {
    if finish == start then None
    else match VocabHash.Find(tokens, Piece(chars, start, finish))
      case Some(id) => Some(Found(id, finish))
      case None => LongestPiece(tokens, chars, start, finish - 1)
  }

  /** The pieces from `start` on; None when the greedy search gets stuck. */
  function Pieces(tokens: seq<seq<byte>>, chars: seq<Scalar>, start: nat): Option<seq<nat>>
    requires start <= |chars|
    decreases |chars| - start
  {
    if start == |chars| then Some([])
    else match LongestPiece(tokens, chars, start, |chars|)
      case None => None
      case Some(f) =>
        match Pieces(tokens, chars, f.finish) case None => None case Some(rest) => Some([f.id] + rest)
  }

  datatype Limits = Limits(maxInputChars: nat, maxTokenChars: nat, unkId: nat)

  predicate IsUnknown(tokens: seq<seq<byte>>, l: Limits, word: seq<Scalar>) {
    |word| > l.maxInputChars || Pieces(tokens, word, 0).None?
  }

  /** `wordpiece` of the reference. */
  function WordIds(tokens: seq<seq<byte>>, l: Limits, word: seq<Scalar>): seq<nat> {
    if IsUnknown(tokens, l, word) then [l.unkId] else Pieces(tokens, word, 0).value
  }

  // ----- what that comes to -----

  /** What the vocabulary must hold for word[start..end]: the characters, with "##" in front behind the start. */
  function PieceText(word: seq<Scalar>, start: nat, end: nat): seq<byte>
    requires start <= end <= |word|
  {
    if start == 0 then EncodeAll(word[..end]) else [0x23, 0x23] + EncodeAll(word[start..end])
  }

  /** From one cut to the next stands a token, and no longer one starts there. */
  predicate GreedyStep(tokens: seq<seq<byte>>, word: seq<Scalar>, start: nat, end: nat) {
    && start < end <= |word| && PieceText(word, start, end) in tokens
    && forall longer | end < longer <= |word| :: PieceText(word, start, longer) !in tokens
  }

  /** The cuts from `start` to the end of the word. */
  predicate GreedySplit(tokens: seq<seq<byte>>, word: seq<Scalar>, start: nat, cuts: seq<nat>) {
    && cuts != [] && cuts[0] == start && cuts[|cuts| - 1] == |word|
    && forall i | 0 <= i < |cuts| - 1 :: GreedyStep(tokens, word, cuts[i], cuts[i + 1])
  }

  predicate Names(tokens: seq<seq<byte>>, word: seq<Scalar>, start: nat, end: nat, id: nat) {
    start <= end <= |word| && id < |tokens| && tokens[id] == PieceText(word, start, end)
  }

  /** The ids are those of the pieces between the cuts. */
  predicate NamedBy(tokens: seq<seq<byte>>, word: seq<Scalar>, cuts: seq<nat>, ids: seq<nat>) {
    |ids| + 1 == |cuts| && forall i | 0 <= i < |ids| :: Names(tokens, word, cuts[i], cuts[i + 1], ids[i])
  }

  lemma {:induction false} LongestIs(tokens: seq<seq<byte>>, word: seq<Scalar>, start: nat, finish: nat)
    requires start <= finish <= |word|
    ensures match LongestPiece(tokens, word, start, finish)
            case None => forall e | start < e <= finish :: PieceText(word, start, e) !in tokens
            case Some(f) =>
              && tokens[f.id] == PieceText(word, start, f.finish)
              && forall e | f.finish < e <= finish :: PieceText(word, start, e) !in tokens
    decreases finish - start
  {
    if finish > start {
      PieceIsText(word, start, finish);
      hide Piece, PieceText;
      if VocabHash.Find(tokens, Piece(word, start, finish)).None? { LongestIs(tokens, word, start, finish - 1); }
    }
  }

  lemma PieceIsText(word: seq<Scalar>, start: nat, finish: nat)
    requires start <= finish <= |word|
    ensures Piece(word, start, finish) == PieceText(word, start, finish)
  {
    hide EncodeAll;
    assert start == 0 ==> word[start..finish] == word[..finish];
    assert [] + EncodeAll(word[..finish]) == EncodeAll(word[..finish]);
  }

  /** Where there is a greedy split, the search follows it. */
  lemma {:induction false} FollowsSplit(tokens: seq<seq<byte>>, word: seq<Scalar>, start: nat, cuts: seq<nat>)
    requires start <= |word| && GreedySplit(tokens, word, start, cuts)
    ensures Pieces(tokens, word, start).Some? && NamedBy(tokens, word, cuts, Pieces(tokens, word, start).value)
    decreases |cuts|
  {
    hide PieceText, LongestPiece, Pieces;
    if |cuts| > 1 {
      assert GreedyStep(tokens, word, cuts[0], cuts[0 + 1]);
      FirstStep(tokens, word, start, cuts[1]);
      var tail := cuts[1..];
      forall i | 0 <= i < |tail| - 1 ensures GreedyStep(tokens, word, tail[i], tail[i + 1]) {
        assert GreedyStep(tokens, word, cuts[i + 1], cuts[i + 1 + 1]);
      }
      FollowsSplit(tokens, word, cuts[1], tail);
      var rest := Pieces(tokens, word, cuts[1]).value;
      var ids := Pieces(tokens, word, start).value;
      forall i | 0 <= i < |ids| ensures Names(tokens, word, cuts[i], cuts[i + 1], ids[i]) {
        if i > 0 { assert Names(tokens, word, tail[i - 1], tail[i - 1 + 1], rest[i - 1]); }
      }
    } else {
      NoPieces(tokens, word);
    }
  }

  lemma NoPieces(tokens: seq<seq<byte>>, word: seq<Scalar>)
    ensures Pieces(tokens, word, |word|) == Some([])
  {
  }

  lemma FirstStep(tokens: seq<seq<byte>>, word: seq<Scalar>, start: nat, end: nat)
    requires GreedyStep(tokens, word, start, end)
    ensures var rest := Pieces(tokens, word, end);
            if rest.None? then Pieces(tokens, word, start).None?
            else exists id ::
              Names(tokens, word, start, end, id) && Pieces(tokens, word, start) == Some([id] + rest.value)
  {
    hide PieceText, LongestPiece, Pieces;
    LongestIs(tokens, word, start, |word|);
    PiecesStep(tokens, word, start);
    var f := LongestPiece(tokens, word, start, |word|).value;
    assert Names(tokens, word, start, end, f.id);
  }

  /** Where the search succeeds, there is one. */
  lemma {:induction false} SplitFound(tokens: seq<seq<byte>>, word: seq<Scalar>, start: nat) returns (cuts: seq<nat>)
    requires start <= |word| && Pieces(tokens, word, start).Some?
    ensures GreedySplit(tokens, word, start, cuts)
    decreases |word| - start
  {
    hide PieceText, LongestPiece;
    if start == |word| {
      cuts := [start];
    } else {
      LongestIs(tokens, word, start, |word|);
      PiecesStep(tokens, word, start);
      var f := LongestPiece(tokens, word, start, |word|).value;
      var rest := SplitFound(tokens, word, f.finish);
      assert GreedyStep(tokens, word, start, f.finish);
      cuts := [start] + rest;
      forall i | 0 <= i < |cuts| - 1 ensures GreedyStep(tokens, word, cuts[i], cuts[i + 1]) {
        assert i > 0 ==> cuts[i] == rest[i - 1] && cuts[i + 1] == rest[i];
      }
    }
  }

  /** When a word is unknown and what its ids are otherwise: too long, or without a greedy split, it is the
      unknown id alone; else every greedy split names the ids. */
  lemma WordIdsAre(tokens: seq<seq<byte>>, l: Limits, word: seq<Scalar>)
    ensures |word| > l.maxInputChars ==> WordIds(tokens, l, word) == [l.unkId]
    ensures |word| <= l.maxInputChars && (forall cuts :: !GreedySplit(tokens, word, 0, cuts)) ==>
              WordIds(tokens, l, word) == [l.unkId]
    ensures |word| <= l.maxInputChars ==>
              forall cuts | GreedySplit(tokens, word, 0, cuts) :: NamedBy(tokens, word, cuts, WordIds(tokens, l, word))
    ensures IsUnknown(tokens, l, word) <==>
              |word| > l.maxInputChars || forall cuts :: !GreedySplit(tokens, word, 0, cuts)
  {
    hide GreedySplit, NamedBy, Pieces;
    forall cuts | GreedySplit(tokens, word, 0, cuts)
      ensures Pieces(tokens, word, 0).Some? && NamedBy(tokens, word, cuts, Pieces(tokens, word, 0).value)
    {
      FollowsSplit(tokens, word, 0, cuts);
    }
    if Pieces(tokens, word, 0).Some? { var cuts := SplitFound(tokens, word, 0); }
  }

  // ----- what the loaded model promises about its vocabulary -----

  function CharCount(bytes: seq<byte>): nat {
    match DecodeAll(bytes) case None => 0 case Some(cs) => |cs|
  }

  /** `max_token_chars`: the longest token, its "##" not counted. */
  function MaxTokenChars(tokens: seq<seq<byte>>): (r: nat)
    ensures r >= 1
    ensures forall i | 0 <= i < |tokens| :: r >= CharCount(BodyOf(tokens[i]))
  {
    if tokens == [] then 1
    else
      var n := |tokens| - 1;
      var m := MaxTokenChars(tokens[..n]);
      var c := CharCount(BodyOf(tokens[n]));
      if c > m then c else m
  }

  function BodyOf(token: seq<byte>): seq<byte> {
    if PREFIX <= token then token[|PREFIX|..] else token
  }

  /** The window the loader settles on. */
  function Window(tokens: seq<seq<byte>>, maxInputChars: nat): nat {
    var m := MaxTokenChars(tokens);
    if m == 0 || m > maxInputChars then maxInputChars else m
  }

  datatype Index = Index(table: VocabHash.Table, root: ByteTrie.Packed, continuation: ByteTrie.Packed)

  ghost predicate Loaded(ix: Index, tokens: seq<seq<byte>>, rootKeys: map<seq<byte>, nat>,
                         bodyKeys: map<seq<byte>, nat>) {
    && VocabHash.Indexes(ix.table, tokens) && VocabHash.FitsFormat(tokens)
    && ByteTrie.Represents(ix.root, rootKeys) && ByteTrie.RootKeys(rootKeys, tokens, PREFIX)
    && ByteTrie.Represents(ix.continuation, bodyKeys) && ByteTrie.BodyKeys(bodyKeys, tokens, PREFIX)
  }

  ghost predicate AllValid(tokens: seq<seq<byte>>) {
    forall i | 0 <= i < |tokens| :: Valid(tokens[i])
  }

  /** The converter's own build step establishes what the runtime relies on. */
  method BuildIndex(tokens: seq<seq<byte>>, quotient: real)
    returns (ix: Option<Index>, ghost rootKeys: map<seq<byte>, nat>, ghost bodyKeys: map<seq<byte>, nat>)
    requires VocabHash.FitsFormat(tokens) && VocabHash.RoundedQuotient(|tokens|, quotient)
    ensures ix.Some? <==> VocabHash.Distinct(tokens)
    ensures ix.Some? ==> Loaded(ix.value, tokens, rootKeys, bodyKeys)
    ensures ix.Some? ==> ByteTrie.Sized(ix.value.root, tokens) && ByteTrie.Sized(ix.value.continuation, tokens)
  {
    hide VocabHash.Indexes, ByteTrie.Represents, ByteTrie.RootKeys, ByteTrie.BodyKeys;
    rootKeys, bodyKeys := map[], map[];
    var table := VocabHash.Build(tokens, quotient);
    if table.None? {
      return None, rootKeys, bodyKeys;
    }
    var root, continuation;
    root, continuation, rootKeys, bodyKeys := ByteTrie.BuildTries(tokens, PREFIX);
    ix := Some(Index(table.value, root, continuation));
  }

  // ----- byte prefixes and codepoint prefixes -----

  function Off(word: seq<Scalar>, k: nat): nat
    requires k <= |word|
  {
    |EncodeAll(word[..k])|
  }

  lemma SliceBytes(word: seq<Scalar>, a: nat, b: nat)
    requires a <= b <= |word|
    ensures Off(word, a) <= Off(word, b) <= |EncodeAll(word)|
    ensures EncodeAll(word)[Off(word, a)..Off(word, b)] == EncodeAll(word[a..b])
    ensures |EncodeAll(word[a..b])| == Off(word, b) - Off(word, a)
  {
    hide EncodeAll;
    assert word[..b] == word[..a] + word[a..b];
    assert word == word[..b] + word[b..];
    EncodeAllConcat(word[..a], word[a..b]);
    EncodeAllConcat(word[..b], word[b..]);
  }

  lemma OffStep(word: seq<Scalar>, k: nat)
    requires k < |word|
    ensures Off(word, k + 1) == Off(word, k) + |Encode(word[k])|
    ensures EncodeAll(word[..k + 1]) == EncodeAll(word[..k]) + Encode(word[k])
  {
    assert word[..k + 1] == word[..k] + [word[k]];
    EncodeAllConcat(word[..k], [word[k]]);
    assert EncodeAll([word[k]]) == Encode(word[k]) + EncodeAll([]);
  }

  lemma {:induction false} OffMonotone(word: seq<Scalar>, a: nat, b: nat)
    requires a < b <= |word|
    ensures Off(word, a) < Off(word, b)
  {
    OffStep(word, b - 1);
    if a < b - 1 { OffMonotone(word, a, b - 1); }
  }

  /** A valid byte string that starts the encoding of a word is the encoding of one of its prefixes. */
  lemma KeyEndsOnBoundary(word: seq<Scalar>, key: seq<byte>) returns (k: nat)
    requires Valid(key) && key <= EncodeAll(word)
    ensures k <= |word| && EncodeAll(word[..k]) == key
  {
    var t: seq<Scalar> :| EncodeAll(t) == key;
    PrefixOfEncoding(t, word);
    k := |t|;
    assert word[..k] == t;
  }

  lemma BodyIsValid(token: seq<byte>)
    requires Valid(token)
    ensures Valid(BodyOf(token))
  {
    if PREFIX <= token {
      var cs: seq<Scalar> :| EncodeAll(cs) == token;
      var two: seq<Scalar> := [HASH, HASH];
      assert EncodeAll(two) == PREFIX by {
        assert EncodeAll([HASH]) == [0x23] + EncodeAll([]);
        assert two[1..] == [HASH];
      }
      PrefixOfEncoding(two, cs);
      assert cs == two + cs[2..];
      EncodeAllConcat(two, cs[2..]);
      assert EncodeAll(cs[2..]) == BodyOf(token);
    }
  }

  // ----- the dictionary, seen through one trie -----

  predicate Hashed(word: seq<Scalar>) { |word| >= 2 && word[0] == HASH && word[1] == HASH }

  /** The keys a search at `start` walks. */
  function KeysAt(start: nat, rootKeys: map<seq<byte>, nat>, bodyKeys: map<seq<byte>, nat>): map<seq<byte>, nat> {
    if start > 0 then bodyKeys else rootKeys
  }

  lemma HashedBytes(word: seq<Scalar>)
    requires PREFIX <= EncodeAll(word)
    ensures Hashed(word)
  {
    assert EncodeAll([HASH, HASH]) == PREFIX by {
      assert EncodeAll([HASH]) == [0x23] + EncodeAll([]);
      assert [HASH, HASH][1..] == [HASH];
    }
    PrefixOfEncoding([HASH, HASH], word);
  }

  /** Looking a piece up in the dictionary is looking its bytes up in the right trie's keys. */
  lemma PieceInKeys(tokens: seq<seq<byte>>, rootKeys: map<seq<byte>, nat>, bodyKeys: map<seq<byte>, nat>,
                    word: seq<Scalar>,
                    start: nat, finish: nat)
    requires VocabHash.Distinct(tokens) && ByteTrie.RootKeys(rootKeys, tokens, PREFIX)
        && ByteTrie.BodyKeys(bodyKeys, tokens, PREFIX)
    requires !Hashed(word) && start < finish <= |word|
    ensures var text := EncodeAll(word[start..finish]);
            var keys := KeysAt(start, rootKeys, bodyKeys);
            VocabHash.Find(tokens, Piece(word, start, finish)) == if text in keys then Some(keys[text]) else None
  {
    var text := EncodeAll(word[start..finish]);
    var piece := Piece(word, start, finish);
    assert text != [];
    hide EncodeAll, VocabHash.Find;
    if start > 0 {
      assert ByteTrie.IsContinuationToken(piece, PREFIX) && piece[|PREFIX|..] == text;
      if text in bodyKeys {
        VocabHash.FindUnique(tokens, piece, bodyKeys[text]);
      } else {
        assert piece !in tokens;
        FindMisses(tokens, piece);
      }
    } else {
      assert piece == text;
      if PREFIX <= text { HashedBytes(word[0..finish]); }
      assert !ByteTrie.IsContinuationToken(text, PREFIX);
      if text in rootKeys {
        VocabHash.FindUnique(tokens, piece, rootKeys[text]);
      } else {
        assert piece !in tokens;
        FindMisses(tokens, piece);
      }
    }
  }

  lemma FindMisses(tokens: seq<seq<byte>>, key: seq<byte>)
    requires key !in tokens
    ensures VocabHash.Find(tokens, key) == None
  {
  }

  /** No token is longer than the window lets the walk see. */
  lemma WindowLosesNothing(tokens: seq<seq<byte>>, l: Limits, word: seq<Scalar>, start: nat, finish: nat)
    requires !Hashed(word) && start < finish <= |word| <= l.maxInputChars
    requires l.maxTokenChars == Window(tokens, l.maxInputChars)
    requires finish - start > l.maxTokenChars
    ensures VocabHash.Find(tokens, Piece(word, start, finish)) == None
  {
    var piece := Piece(word, start, finish);
    var text := EncodeAll(word[start..finish]);
    DecodeAllExact(text, word[start..finish]);
    hide EncodeAll, DecodeAll;
    if start > 0 {
      assert PREFIX <= piece && piece[|PREFIX|..] == text;
    } else {
      assert piece == text;
      assert !(PREFIX <= text) by {
        if PREFIX <= text { HashedBytes(word[0..finish]); }
      }
    }
    assert BodyOf(piece) == text && CharCount(text) == finish - start;
    hide BodyOf, CharCount, Piece;
    assert forall i | 0 <= i < |tokens| :: tokens[i] != piece;
    FindMisses(tokens, piece);
  }

  /** Where the downward search stops: the longest finish that names a token. */
  lemma {:induction false} LongestPieceIs(tokens: seq<seq<byte>>, chars: seq<Scalar>, start: nat, best: nat,
                                          finish: nat)
    requires start <= best <= finish <= |chars|
    requires forall f | best < f <= finish :: VocabHash.Find(tokens, Piece(chars, start, f)) == None
    ensures LongestPiece(tokens, chars, start, finish) == LongestPiece(tokens, chars, start, best)
    decreases finish
  {
    if best < finish {
      LongestPieceIs(tokens, chars, start, best, finish - 1);
    }
  }

  /** A key that starts the window ends on a codepoint boundary and names the piece ending there. */
  lemma MatchEnd(tokens: seq<seq<byte>>, rootKeys: map<seq<byte>, nat>, bodyKeys: map<seq<byte>, nat>,
                 word: seq<Scalar>, start: nat, maxEnd: nat, len: nat)
    returns (e: nat)
    requires VocabHash.Distinct(tokens) && AllValid(tokens)
    requires ByteTrie.RootKeys(rootKeys, tokens, PREFIX) && ByteTrie.BodyKeys(bodyKeys, tokens, PREFIX)
    requires !Hashed(word) && start < maxEnd <= |word|
    requires 1 <= len <= |EncodeAll(word[start..maxEnd])|
    requires EncodeAll(word[start..maxEnd])[..len] in KeysAt(start, rootKeys, bodyKeys)
    ensures start < e <= maxEnd && Off(word, e) == Off(word, start) + len && |EncodeAll(word[start..e])| == len
    ensures VocabHash.Find(tokens, Piece(word, start, e))
         == Some(KeysAt(start, rootKeys, bodyKeys)[EncodeAll(word[start..maxEnd])[..len]])
  {
    var part := word[start..maxEnd];
    var key := EncodeAll(part)[..len];
    KeyIsValid(tokens, rootKeys, bodyKeys, start, key);
    hide ByteTrie.RootKeys, ByteTrie.BodyKeys, AllValid, VocabHash.Distinct, Piece;
    var k := KeyEndsOnBoundary(part, key);
    assert k > 0;
    hide EncodeAll;
    e := start + k;
    assert part[..k] == word[start..e];
    SliceBytes(word, start, e);
    PieceInKeys(tokens, rootKeys, bodyKeys, word, start, e);
  }

  /** Beyond the longest match there is no piece. */
  lemma NoLongerPiece(tokens: seq<seq<byte>>, l: Limits, rootKeys: map<seq<byte>, nat>, bodyKeys: map<seq<byte>, nat>,
                      word: seq<Scalar>, start: nat, maxEnd: nat, best: nat, f: nat)
    requires VocabHash.Distinct(tokens)
    requires ByteTrie.RootKeys(rootKeys, tokens, PREFIX) && ByteTrie.BodyKeys(bodyKeys, tokens, PREFIX)
    requires !Hashed(word) && start < |word| <= l.maxInputChars && l.maxTokenChars == Window(tokens, l.maxInputChars)
    requires maxEnd == if start + l.maxTokenChars > |word| then |word| else start + l.maxTokenChars
    requires start <= best <= maxEnd && best < f <= |word|
    requires var window := EncodeAll(word[start..maxEnd]);
             forall n | |EncodeAll(word[start..best])| < n <= |window| ::
                 window[..n] !in KeysAt(start, rootKeys, bodyKeys)
    ensures VocabHash.Find(tokens, Piece(word, start, f)) == None
  {
    hide ByteTrie.RootKeys, ByteTrie.BodyKeys, VocabHash.Distinct, Piece, EncodeAll, Window;
    if f <= maxEnd {
      PieceInKeys(tokens, rootKeys, bodyKeys, word, start, f);
      LongerPrefix(word, start, best, f, maxEnd);
    } else {
      WindowLosesNothing(tokens, l, word, start, f);
    }
  }

  /** The trie's longest match in the window is the dictionary's longest piece, and it ends on a
      codepoint boundary. */
  lemma MatchIsLongestPiece(tokens: seq<seq<byte>>, l: Limits, rootKeys: map<seq<byte>, nat>,
                            bodyKeys: map<seq<byte>, nat>,
                            word: seq<Scalar>, start: nat, maxEnd: nat, m: Option<ByteTrie.Match>)
    returns (e: nat)
    requires VocabHash.Distinct(tokens) && AllValid(tokens)
    requires ByteTrie.RootKeys(rootKeys, tokens, PREFIX) && ByteTrie.BodyKeys(bodyKeys, tokens, PREFIX)
    requires !Hashed(word) && start < |word| <= l.maxInputChars && l.maxTokenChars == Window(tokens, l.maxInputChars)
    requires maxEnd == if start + l.maxTokenChars > |word| then |word| else start + l.maxTokenChars
    requires ByteTrie.IsLongest(KeysAt(start, rootKeys, bodyKeys), EncodeAll(word[start..maxEnd]), m)
    ensures m.None? ==> LongestPiece(tokens, word, start, |word|) == None
    ensures m.Some? ==> start < e <= maxEnd && Off(word, e) == Off(word, start) + m.value.len
                        && LongestPiece(tokens, word, start, |word|) == Some(Found(m.value.id, e))
  {
    WindowIsPositive(tokens, l.maxInputChars);
    assert |EncodeAll(word[start..start])| == 0 by { assert word[start..start] == []; NothingEncoded(); }
    hide ByteTrie.RootKeys, ByteTrie.BodyKeys, VocabHash.Distinct, Piece, EncodeAll, Window, KeysAt, AllValid;
    e := start;
    if m.Some? {
      e := MatchEnd(tokens, rootKeys, bodyKeys, word, start, maxEnd, m.value.len);
    }
    forall f | e < f <= |word|
      ensures VocabHash.Find(tokens, Piece(word, start, f)) == None
    {
      NoLongerPiece(tokens, l, rootKeys, bodyKeys, word, start, maxEnd, e, f);
    }
    LongestPieceIs(tokens, word, start, e, |word|);
  }

  lemma WindowIsPositive(tokens: seq<seq<byte>>, maxInputChars: nat)
    ensures maxInputChars > 0 ==> Window(tokens, maxInputChars) > 0
  {
  }

  lemma KeyIsValid(tokens: seq<seq<byte>>, rootKeys: map<seq<byte>, nat>, bodyKeys: map<seq<byte>, nat>, start: nat,
                   key: seq<byte>)
    requires AllValid(tokens) && ByteTrie.RootKeys(rootKeys, tokens, PREFIX)
        && ByteTrie.BodyKeys(bodyKeys, tokens, PREFIX)
    requires key in KeysAt(start, rootKeys, bodyKeys)
    ensures Valid(key)
  {
    if start > 0 {
      var token := tokens[bodyKeys[key]];
      BodyIsValid(token);
      assert BodyOf(token) == key;
    } else {
      assert tokens[rootKeys[key]] == key;
    }
  }

  /** Pieces inside the window are prefixes of it, longer ones for later ends. */
  lemma LongerPrefix(word: seq<Scalar>, start: nat, best: nat, f: nat, maxEnd: nat)
    requires start <= best < f <= maxEnd <= |word|
    ensures var window := EncodeAll(word[start..maxEnd]);
            var n := |EncodeAll(word[start..f])|;
            |EncodeAll(word[start..best])| < n <= |window| && window[..n] == EncodeAll(word[start..f])
  {
    var part := word[start..maxEnd];
    assert part[..f - start] == word[start..f] && part[..best - start] == word[start..best];
    SliceBytes(part, 0, f - start);
    assert part[0..f - start] == word[start..f] && part[..0] == [];
    OffMonotone(part, best - start, f - start);
  }

  // ----- the C code -----

  datatype Status = Ok | Invalid

  /** The bytes of the word and the byte offset of each codepoint; known-ASCII words are copied. */
  method EncodeWord(word: seq<Scalar>, knownAscii: bool) returns (bytes: seq<byte>, offs: seq<nat>)
    requires knownAscii ==> forall k | 0 <= k < |word| :: word[k] < 0x80
    ensures bytes == EncodeAll(word) && |offs| == |word| + 1
    ensures forall k | 0 <= k <= |word| :: offs[k] == Off(word, k)
  {
    var ascii := knownAscii;
    if !ascii {
      ascii := true;
      var k := 0;
      while k < |word|
        invariant 0 <= k <= |word|
        invariant ascii && forall j | 0 <= j < k :: word[j] < 0x80
      {
        if word[k] >= 0x80 {
          ascii := false;
          break;
        }
        k := k + 1;
      }
    }
    bytes, offs := [], [];
    hide EncodeAll;
    assert word[..0] == [] && EncodeAll([]) == [] by { NothingEncoded(); }
    var k := 0;
    while k < |word|
      invariant 0 <= k <= |word| == |word[..]| && |offs| == k && bytes == EncodeAll(word[..k])
      invariant forall j | 0 <= j < k :: offs[j] == Off(word, j)
    {
      OffStep(word, k);
      offs := offs + [|bytes|];
      if ascii {
        bytes := bytes + [word[k]];
      } else {
        bytes := bytes + Encode(word[k]);
      }
      k := k + 1;
    }
    offs := offs + [|bytes|];
    assert word[..k] == word;
  }

  lemma NothingEncoded()
    ensures EncodeAll([]) == []
  {
  }

  /** A whole word that is a token is its own only piece. */
  lemma WholeWord(tokens: seq<seq<byte>>, word: seq<Scalar>)
    requires |word| > 0
    ensures var exact := VocabHash.Find(tokens, [] + EncodeAll(word));
            exact.Some? ==> Pieces(tokens, word, 0) == Some([exact.value])
  {
    hide EncodeAll, VocabHash.Find;
    assert word[0..|word|] == word;
    assert Piece(word, 0, |word|) == [] + EncodeAll(word);
    var exact := VocabHash.Find(tokens, [] + EncodeAll(word));
    if exact.Some? {
      assert Pieces(tokens, word, |word|) == Some([]);
      assert [exact.value] + [] == [exact.value];
    }
  }

  lemma LoadedIsDistinct(ix: Index, tokens: seq<seq<byte>>, rootKeys: map<seq<byte>, nat>,
                         bodyKeys: map<seq<byte>, nat>)
    requires Loaded(ix, tokens, rootKeys, bodyKeys)
    ensures VocabHash.Distinct(tokens)
  {
  }

  /** One round of the walk: the next piece of the reference and where it ends. */
  method NextPiece(ix: Index, tokens: seq<seq<byte>>, ghost rootKeys: map<seq<byte>, nat>,
                   ghost bodyKeys: map<seq<byte>, nat>,
                   l: Limits, word: seq<Scalar>, bytes: seq<byte>, offs: seq<nat>, start: nat)
    returns (id: Option<nat>, end: nat, status: Status)
    requires Loaded(ix, tokens, rootKeys, bodyKeys) && AllValid(tokens)
        && l.maxTokenChars == Window(tokens, l.maxInputChars)
    requires !Hashed(word) && start < |word| <= l.maxInputChars
    requires bytes == EncodeAll(word) && |offs| == |word| + 1 && forall k | 0 <= k <= |word| :: offs[k] == Off(word, k)
    ensures status == Ok
    ensures LongestPiece(tokens, word, start, |word|) == if id.Some? then Some(Found(id.value, end)) else None
  {
    hide VocabHash.Indexes, VocabHash.FitsFormat, ByteTrie.Represents, ByteTrie.RootKeys, ByteTrie.BodyKeys,
      AllValid, ByteTrie.IsLongest, LongestPiece, Window, VocabHash.Distinct, Hashed, EncodeAll, Piece;
    LoadedIsDistinct(ix, tokens, rootKeys, bodyKeys);
    var maxEnd := start + l.maxTokenChars;
    if maxEnd > |word| {
      maxEnd := |word|;
    }
    var off, maxOff := offs[start], offs[maxEnd];
    SliceBytes(word, start, maxEnd);
    var trie := if start > 0 then ix.continuation else ix.root;
    var m := ByteTrie.LongestMatch(trie, KeysAt(start, rootKeys, bodyKeys), bytes[off..maxOff]);
    ghost var e := MatchIsLongestPiece(tokens, l, rootKeys, bodyKeys, word, start, maxEnd, m);
    if m.None? {
      return None, 0, Ok;
    }
    end := FindEnd(word, offs, start, maxEnd, off + m.value.len, e);
    if end > maxEnd || offs[end] != off + m.value.len {
      return None, end, Invalid;
    }
    id, status := Some(m.value.id), Ok;
  }

  /** `wordpiece`: appends to the ids held so far exactly the ids the reference gives the word, counts
      one more unknown exactly when it is unknown, and never reports an invalid boundary. */
  method Wordpiece(ix: Index, tokens: seq<seq<byte>>, ghost rootKeys: map<seq<byte>, nat>,
                   ghost bodyKeys: map<seq<byte>, nat>,
                   l: Limits, word: seq<Scalar>, ids: seq<nat>, nUnk: nat, knownAscii: bool)
    returns (outIds: seq<nat>, outUnk: nat, status: Status)
    requires Loaded(ix, tokens, rootKeys, bodyKeys) && AllValid(tokens)
        && l.maxTokenChars == Window(tokens, l.maxInputChars)
    requires !Hashed(word) && (knownAscii ==> forall k | 0 <= k < |word| :: word[k] < 0x80)
    ensures status == Ok
    ensures outIds == ids + WordIds(tokens, l, word)
    ensures outUnk == nUnk + if IsUnknown(tokens, l, word) then 1 else 0
  {
    if |word| == 0 {
      return ids, nUnk, Ok;
    }
    if |word| > l.maxInputChars {
      return ids + [l.unkId], nUnk + 1, Ok;
    }
    var bytes, offs := EncodeWord(word, knownAscii);
    WholeWord(tokens, word);
    assert Pieces(tokens, word, 0) == Resume([], Pieces(tokens, word, 0)) by { ResumeNothing(Pieces(tokens, word, 0)); }
    assert Pieces(tokens, word, |word|) == Some([]);
    hide EncodeAll, VocabHash.Indexes, ByteTrie.Represents, ByteTrie.RootKeys, ByteTrie.BodyKeys, AllValid,
      VocabHash.FitsFormat, Pieces, LongestPiece, Window, Hashed;
    if |word| <= l.maxTokenChars {
      var exact := VocabHash.LookupPiece(ix.table, tokens, [], bytes);
      if exact.Some? {
        return ids + [exact.value], nUnk, Ok;
      }
    }
    var start: nat := 0;
    var emitted: seq<nat> := [];
    while start < |word|
      invariant start <= |word|
      invariant Pieces(tokens, word, 0) == Resume(emitted, Pieces(tokens, word, start))
      decreases |word| - start
    {
      PiecesStep(tokens, word, start);
      var id, end, st := NextPiece(ix, tokens, rootKeys, bodyKeys, l, word, bytes, offs, start);
      if st == Invalid {
        return ids, nUnk, Invalid;
      }
      if id.None? {
        return ids + [l.unkId], nUnk + 1, Ok;
      }
      ResumeAppend(emitted, id.value, Pieces(tokens, word, end));
      emitted := emitted + [id.value];
      start := end;
    }
    outIds, outUnk, status := ids + emitted, nUnk, Ok;
    assert emitted + [] == emitted;
  }

  lemma ResumeNothing(rest: Option<seq<nat>>)
    ensures rest == Resume([], rest)
  {
    if rest.Some? { assert [] + rest.value == rest.value; }
  }

  function Resume(done: seq<nat>, rest: Option<seq<nat>>): Option<seq<nat>> {
    match rest case None => None case Some(ids) => Some(done + ids)
  }

  lemma ResumeAppend(done: seq<nat>, id: nat, rest: Option<seq<nat>>)
    ensures Resume(done, match rest case None => None case Some(ids) => Some([id] + ids)) == Resume(done + [id], rest)
  {
    if rest.Some? { assert done + ([id] + rest.value) == done + [id] + rest.value; }
  }

  lemma PiecesStep(tokens: seq<seq<byte>>, chars: seq<Scalar>, start: nat)
    requires start < |chars|
    ensures var f := LongestPiece(tokens, chars, start, |chars|); f.Some? ==> start < f.value.finish <= |chars|
    ensures Pieces(tokens, chars, start) ==
            match LongestPiece(tokens, chars, start, |chars|)
            case None => None
            case Some(f) =>
              match Pieces(tokens, chars, f.finish) case None => None case Some(rest) => Some([f.id] + rest)
  {
  }

  /** The search for the codepoint whose offset is the end of the match. */
  method FindEnd(word: seq<Scalar>, offs: seq<nat>, start: nat, maxEnd: nat, target: nat, ghost e: nat)
      returns (end: nat)
    requires start < e <= maxEnd <= |word| && |offs| == |word| + 1
    requires forall k | 0 <= k <= |word| :: offs[k] == Off(word, k)
    requires offs[e] == target
    ensures end == e
  {
    end := start + 1;
    while end <= maxEnd && offs[end] < target
      invariant start + 1 <= end <= e
    {
      end := end + 1;
    }
    if end < e { OffMonotone(word, end, e); }
  }
}
