/** The vocabulary a converter reads: `vocabulary` and `assign_vocab` of bert_wordpiece.rb turn a hash
    from tokens to ids into the list of tokens.
  */
module Vocabulary {
  import opened Utf8
  import VocabHash

  datatype Entry = Entry(token: seq<byte>, id: int)

  /** A Ruby hash: every key once. */
  predicate IsHash(vocab: seq<Entry>) {
    forall i, j | 0 <= i < j < |vocab| :: vocab[i].token != vocab[j].token
  }

  /** The ids of the first n entries are places of the list, each taken once. */
  predicate OneToOne(vocab: seq<Entry>, n: nat)
    requires n <= |vocab|
  {
    && (forall i | 0 <= i < n :: 0 <= vocab[i].id < |vocab|)
    && (forall i, j | 0 <= i < j < n :: vocab[i].id != vocab[j].id)
  }

  /** The first n entries stand at their ids, the other places are empty. */
  ghost predicate Assigned(vocab: seq<Entry>, n: nat, tokens: seq<Option<seq<byte>>>) {
    && n <= |vocab| == |tokens| && OneToOne(vocab, n)
    && (forall i | 0 <= i < n :: tokens[vocab[i].id] == Some(vocab[i].token))
    && (forall p | 0 <= p < |tokens| && tokens[p].Some? :: Taken(vocab, n, p))
  }

  ghost predicate Taken(vocab: seq<Entry>, n: nat, p: int)
    requires n <= |vocab|
  {
    exists i :: 0 <= i < n && vocab[i].id == p
  }

  lemma AssignedNone(vocab: seq<Entry>, tokens: seq<Option<seq<byte>>>)
    requires |tokens| == |vocab| && forall p | 0 <= p < |tokens| :: tokens[p] == None
    ensures Assigned(vocab, 0, tokens)
  {
  }

  lemma AssignedNext(vocab: seq<Entry>, n: nat, tokens: seq<Option<seq<byte>>>)
    requires n < |vocab| && Assigned(vocab, n, tokens)
    ensures var e := vocab[n];
            if 0 <= e.id < |tokens| && tokens[e.id].None? then Assigned(vocab, n + 1, tokens[e.id := Some(e.token)])
            else !OneToOne(vocab, |vocab|)
  {
    var e := vocab[n];
    if 0 <= e.id < |tokens| {
      if tokens[e.id].None? {
        var after := tokens[e.id := Some(e.token)];
        forall p | 0 <= p < |tokens| && after[p].Some?
          ensures Taken(vocab, n + 1, p)
        {
          if p != e.id {
            assert Taken(vocab, n, p);
            var i :| 0 <= i < n && vocab[i].id == p;
          }
        }
      } else {
        assert Taken(vocab, n, e.id);
      }
    }
  }

  ghost function Places(vocab: seq<Entry>, n: nat): set<nat>
    requires n <= |vocab| && OneToOne(vocab, n)
  {
    if n == 0 then {} else Places(vocab, n - 1) + {vocab[n - 1].id as nat}
  }

  lemma {:induction false} PlacesAre(vocab: seq<Entry>, n: nat)
    requires n <= |vocab| && OneToOne(vocab, n)
    ensures |Places(vocab, n)| == n
    ensures forall p | p in Places(vocab, n) :: p < |vocab| && Taken(vocab, n, p)
  {
    if n > 0 {
      PlacesAre(vocab, n - 1);
      forall p | p in Places(vocab, n)
        ensures p < |vocab| && Taken(vocab, n, p)
      {
        if p == vocab[n - 1].id {
        } else {
          assert Taken(vocab, n - 1, p);
          var i :| 0 <= i < n - 1 && vocab[i].id == p;
        }
      }
      assert vocab[n - 1].id as nat !in Places(vocab, n - 1) by {
        if vocab[n - 1].id as nat in Places(vocab, n - 1) { assert Taken(vocab, n - 1, vocab[n - 1].id); }
      }
    }
  }

  /** As many distinct ids as places leave no hole: the search for one never finds any. */
  lemma NoHole(vocab: seq<Entry>, tokens: seq<Option<seq<byte>>>)
    requires Assigned(vocab, |vocab|, tokens)
    ensures forall p | 0 <= p < |tokens| :: tokens[p].Some? && Taken(vocab, |vocab|, p)
  {
    PlacesAre(vocab, |vocab|);
    VocabHash.SubsetOfFullSize(Places(vocab, |vocab|), VocabHash.UpTo(|vocab|));
    forall p: nat | p < |tokens|
      ensures tokens[p].Some? && Taken(vocab, |vocab|, p)
    {
      assert p in Places(vocab, |vocab|);
    }
  }

  /** `assign_vocab`: false where it raises. */
  method AssignVocab(tokens: array<Option<seq<byte>>>, e: Entry) returns (ok: bool)
    modifies tokens
    ensures ok <==> 0 <= e.id < tokens.Length && old(tokens[..])[e.id].None?
    ensures tokens[..] == if ok then old(tokens[..])[e.id := Some(e.token)] else old(tokens[..])
  {
    if !(0 <= e.id <= tokens.Length - 1) {
      return false;
    }
    if tokens[e.id] != None {
      return false;
    }
    tokens[e.id] := Some(e.token);
    ok := true;
  }

  /** `vocabulary`: a list exactly when the ids are 0 to n - 1, each once; then token and id correspond. */
  method Read(vocab: seq<Entry>) returns (r: Option<seq<seq<byte>>>)
    requires IsHash(vocab)
    ensures r.Some? <==> OneToOne(vocab, |vocab|)
    ensures r.Some? ==> |r.value| == |vocab| && VocabHash.Distinct(r.value)
    ensures r.Some? ==> forall i | 0 <= i < |vocab| :: r.value[vocab[i].id] == vocab[i].token
  {
    hide OneToOne, Assigned;
    var tokens := new Option<seq<byte>>[|vocab|](_ => None);
    AssignedNone(vocab, tokens[..]);
    var n: nat := 0;
    while n < |vocab|
      invariant n <= |vocab| == tokens.Length && Assigned(vocab, n, tokens[..])
    {
      AssignedNext(vocab, n, tokens[..]);
      var ok := AssignVocab(tokens, vocab[n]);
      if !ok {
        return None;
      }
      n := n + 1;
    }
    NoHole(vocab, tokens[..]);
    ListIs(vocab, tokens[..]);
    var list: seq<seq<byte>> := [];
    var p: nat := 0;
    while p < tokens.Length
      invariant p <= tokens.Length && |list| == p && forall q | 0 <= q < p :: tokens[..][q] == Some(list[q])
    {
      assert tokens[..][p] == tokens[p];
      list := list + [tokens[p].value];
      p := p + 1;
    }
    r := Some(list);
  }

  /** Whatever list the filled places spell, it corresponds to the hash. */
  lemma ListIs(vocab: seq<Entry>, tokens: seq<Option<seq<byte>>>)
    requires IsHash(vocab) && Assigned(vocab, |vocab|, tokens)
    ensures OneToOne(vocab, |vocab|)
    ensures forall list: seq<seq<byte>> | |list| == |tokens|
        && (forall q | 0 <= q < |tokens| :: tokens[q] == Some(list[q])) ::
              VocabHash.Distinct(list) && forall i | 0 <= i < |vocab| ::
                  0 <= vocab[i].id < |list| && list[vocab[i].id] == vocab[i].token
  {
    NoHole(vocab, tokens);
    forall list: seq<seq<byte>> | |list| == |tokens| && (forall q | 0 <= q < |tokens| :: tokens[q] == Some(list[q]))
      ensures VocabHash.Distinct(list)
      ensures forall i | 0 <= i < |vocab| :: 0 <= vocab[i].id < |list| && list[vocab[i].id] == vocab[i].token
    {
      forall a, b | 0 <= a < b < |list| ensures list[a] != list[b] {
        assert Taken(vocab, |vocab|, a) && Taken(vocab, |vocab|, b);
        var i :| 0 <= i < |vocab| && vocab[i].id == a;
        var j :| 0 <= j < |vocab| && vocab[j].id == b;
        assert tokens[vocab[i].id] == Some(vocab[i].token) && tokens[vocab[j].id] == Some(vocab[j].token);
        assert i < j || j < i;
      }
    }
  }
}
