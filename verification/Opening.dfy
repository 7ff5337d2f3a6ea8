/** From the converter's vocabulary to an opened model: format/hash_table.rb and format/trie.rb write
    the indexes, `validate_vocab_hash`, `validate_hash_probe_limits` and `parse_trie` of se_format.c
    check them.
  */
module Opening {
  import opened Utf8
  import opened Tokenizer
  import TokenState
  import WordPiece
  import VocabHash
  import ByteTrie
  import Words

  /** A literal is looked up at its recorded id exactly when the vocabulary has it there. */
  lemma FoundAt(tokens: seq<seq<byte>>, key: seq<byte>, id: nat)
    requires VocabHash.Distinct(tokens)
    ensures VocabHash.Find(tokens, key) == Some(id) <==> id < |tokens| && tokens[id] == key
  {
    var f := VocabHash.Find(tokens, key);
    if id < |tokens| && tokens[id] == key {
      assert key in tokens;
      assert f.Some? && tokens[f.value] == tokens[id];
    }
  }

  /** One lookup of the loader: the literal is found at the recorded id. */
  method CheckOne(m: Model, t: VocabHash.Table, k: AddedKind) returns (ok: bool)
    requires VocabHash.Indexes(t, m.tokens) && VocabHash.FitsFormat(m.tokens)
    ensures ok <==> TokenState.IsItself(m, k)
  {
    hide VocabHash.FitsFormat, VocabHash.Indexes, VocabHash.Distinct, VocabHash.Find, Literal;
    VocabHash.IndexedIsDistinct(t, m.tokens);
    FoundAt(m.tokens, Literal(k), m.AddedId(k));
    if m.AddedId(k) >= |m.tokens| {
      return false;
    }
    var got := VocabHash.LookupPiece(t, m.tokens, [], Literal(k));
    assert [] + Literal(k) == Literal(k);
    ok := got == Some(m.AddedId(k));
  }

  /** The end of `validate_vocab_hash`: "[UNK]" and every enabled added token must be reachable at the
      recorded id. */
  method CheckSpecials(m: Model, t: VocabHash.Table) returns (ok: bool)
    requires VocabHash.Indexes(t, m.tokens) && VocabHash.FitsFormat(m.tokens)
    ensures ok <==> TokenState.UnkIsItself(m) && TokenState.AddedAreThemselves(m)
  {
    hide VocabHash.FitsFormat, VocabHash.Indexes, Literal, TokenState.IsItself;
    ok := CheckOne(m, t, UNK);
    if !ok {
      return;
    }
    var i: nat := 0;
    while i < |ORDER|
      invariant i <= |ORDER|
      invariant forall j | 0 <= j < i && ORDER[j] in m.enabled :: TokenState.IsItself(m, ORDER[j])
    {
      if ORDER[i] in m.enabled {
        ok := CheckOne(m, t, ORDER[i]);
        if !ok {
          return;
        }
      }
      i := i + 1;
    }
    forall k | k in m.enabled ensures TokenState.IsItself(m, k) {
      var j := OrderHolds(k);
      assert TokenState.IsItself(m, ORDER[j]);
    }
    ok := true;
  }

  /** The loader's checks on the table and on the words of the two trie sections. What the builder made
      passes, up to repeated or misplaced special tokens, and is taken as it is. */
  method CheckIndex(m: Model, table: VocabHash.Table, rootWords: seq<nat>, continuationWords: seq<nat>,
                    ghost ix: WordPiece.Index, ghost rootKeys: map<seq<byte>, nat>, ghost bodyKeys: map<seq<byte>, nat>)
    returns (r: Option<WordPiece.Index>)
    requires WordPiece.Loaded(ix, m.tokens, rootKeys, bodyKeys) && m.tokens != [] && table == ix.table
    requires rootWords == ByteTrie.SectionWords(ix.root)
    requires continuationWords == ByteTrie.SectionWords(ix.continuation)
    ensures r == if TokenState.UnkIsItself(m) && TokenState.AddedAreThemselves(m) then Some(ix) else None
  {
    hide VocabHash.FitsFormat, VocabHash.Distinct, ByteTrie.WellFormed, ByteTrie.SectionWords, ByteTrie.Represents,
        ByteTrie.RootKeys, ByteTrie.BodyKeys, VocabHash.SlotsWellFormed, VocabHash.WithinProbeLimit,
        VocabHash.Indexes, TokenState.UnkIsItself, TokenState.AddedAreThemselves;
    VocabHash.BuiltTableIsAccepted(ix.table, m.tokens);
    ByteTrie.BuiltTriesAreAccepted(ix.root, ix.continuation, rootKeys, bodyKeys, m.tokens, WordPiece.PREFIX);
    FewerThanEmpty(m.tokens);
    var slots := VocabHash.ValidateSlots(table, |m.tokens|);
    var specials := CheckSpecials(m, table);
    var probes := VocabHash.ValidateProbeLimits(table);
    var root := ByteTrie.ParseTrie(rootWords, |m.tokens|);
    var continuation := ByteTrie.ParseTrie(continuationWords, |m.tokens|);
    if !slots || !specials || !probes || root.None? || continuation.None? {
      assert !specials;
      return None;
    }
    r := Some(WordPiece.Index(table, root.value, continuation.value));
  }

  /** Built by the converter and opened by the loader. Whatever the vocabulary, it is refused only for a
      repeated token or a misplaced special one; otherwise the tokenizer may rely on all it needs. */
  method ConvertAndOpen(m: Model, quotient: real)
    returns (r: Option<WordPiece.Index>, ghost rootKeys: map<seq<byte>, nat>, ghost bodyKeys: map<seq<byte>, nat>)
    requires VocabHash.FitsFormat(m.tokens) && WordPiece.AllValid(m.tokens) && m.cleanText
    requires m.limits.maxTokenChars == WordPiece.Window(m.tokens, m.limits.maxInputChars)
    requires VocabHash.RoundedQuotient(|m.tokens|, quotient)
    ensures r.Some? <==> VocabHash.Distinct(m.tokens) && TokenState.UnkIsItself(m) && TokenState.AddedAreThemselves(m)
    ensures r.Some? ==> TokenState.Opened(m, r.value, rootKeys, bodyKeys)
  {
    hide VocabHash.FitsFormat, WordPiece.AllValid, WordPiece.Window, WordPiece.Loaded, VocabHash.Distinct,
        ByteTrie.SectionWords, ByteTrie.Sized;
    var built;
    built, rootKeys, bodyKeys := WordPiece.BuildIndex(m.tokens, quotient);
    if built.None? || |m.tokens| == 0 {
      return None, rootKeys, bodyKeys;
    }
    var ix := built.value;
    r := CheckIndex(m, ix.table, ByteTrie.SectionWords(ix.root), ByteTrie.SectionWords(ix.continuation),
                    ix, rootKeys, bodyKeys);
  }

  lemma FewerThanEmpty(tokens: seq<seq<byte>>)
    requires VocabHash.FitsFormat(tokens)
    ensures |tokens| < Words.SLOT_EMPTY
  {
  }
}
