/** Embedding a stored id list: `embed_token_ids_value` and its body in static_embeddings.c, with
    `se_embed_ids` of se_embed.c. The ids are unsigned 64-bit values.
  */
module StoredIds {
  import opened Utf8
  import opened Tokenizer
  import opened Truncation
  import Batch
  import Reference

  // ----- the cap, with its range check -----

  predicate FirstBad(vocabSize: nat, ids: seq<nat>, i: nat) {
    i < |ids| && ids[i] >= vocabSize && forall j | 0 <= j < i :: ids[j] < vocabSize
  }

  /** The id at i is looked at: it lies in front of the cut, or the usable scan has not yet passed it. */
  predicate Reached(p: Policy, max: nat, ids: seq<nat>, i: nat)
    requires i < |ids|
  {
    max == 0 || if p.SkipsUnk() then Counted(p, ids[..i]) <= max else i < max
  }

  datatype StoredScan = Kept(n: nat, truncated: bool) | BadId(index: nat)

  /** The prologue of `embed_token_ids_value`: where the list is cut. Only the usable limit reads ids here. */
  method CapStored(p: Policy, max: nat, vocabSize: nat, ids: seq<nat>) returns (r: StoredScan)
    requires p.unkId < vocabSize
    ensures r.Kept? ==> r.n <= |ids| && Capped(ids[..r.n], r.truncated) == Cap(p, max, ids)
    ensures r.Kept? && p.SkipsUnk() && max != 0 ==>
        forall i: nat | FirstBad(vocabSize, ids, i) :: !Reached(p, max, ids, i)
    ensures r.BadId? ==> FirstBad(vocabSize, ids, r.index) && Reached(p, max, ids, r.index)
  {
    hide FirstBad, Reached, CutFor;
    CountedRaw(p, ids);
    if max != 0 && p.dropUnk && !p.rawLimit {
      var usable: nat, cutoff: nat := 0, |ids|;
      var i: nat := 0;
      while i < |ids|
        invariant 0 <= i <= |ids| && usable == Counted(p, ids[..i]) && usable <= max
        invariant if usable < max then cutoff == |ids| else IsCut(p, ids, max, cutoff)
        invariant forall j | 0 <= j < i :: ids[j] < vocabSize
      {
        assert ids[..i + 1][..i] == ids[..i];
        if ids[i] >= vocabSize {
          BadHere(p, max, vocabSize, ids, i);
          return BadId(i);
        }
        if ids[i] != p.unkId {
          usable := usable + 1;
          if usable == max {
            cutoff := i + 1;
          } else if usable > max {
            CutPassed(p, max, vocabSize, ids, i, cutoff);
            return Kept(cutoff, true);
          }
        }
        i := i + 1;
      }
      assert ids[..i] == ids;
      NoneBad(p, max, vocabSize, ids);
      r := Kept(|ids|, false);
    } else if max != 0 && |ids| > max {
      RawCut(p, ids, max);
      r := Kept(max, true);
    } else {
      assert ids[..|ids|] == ids;
      r := Kept(|ids|, false);
    }
  }

  lemma BadHere(p: Policy, max: nat, vocabSize: nat, ids: seq<nat>, i: nat)
    requires i < |ids| && ids[i] >= vocabSize && p.SkipsUnk() && Counted(p, ids[..i]) <= max
        && forall j | 0 <= j < i :: ids[j] < vocabSize
    ensures FirstBad(vocabSize, ids, i) && Reached(p, max, ids, i)
  {
  }

  lemma NoneBad(p: Policy, max: nat, vocabSize: nat, ids: seq<nat>)
    requires forall j | 0 <= j < |ids| :: ids[j] < vocabSize
    ensures forall i: nat | FirstBad(vocabSize, ids, i) :: !Reached(p, max, ids, i)
  {
  }

  lemma CutPassed(p: Policy, max: nat, vocabSize: nat, ids: seq<nat>, i: nat, cutoff: nat)
    requires i < |ids| && p.SkipsUnk() && max != 0 && Counted(p, ids[..i + 1]) > max && IsCut(p, ids, max, cutoff)
    requires forall j | 0 <= j <= i :: ids[j] < vocabSize
    ensures Cap(p, max, ids) == Capped(ids[..cutoff], true)
    ensures forall k: nat | FirstBad(vocabSize, ids, k) :: !Reached(p, max, ids, k)
  {
    CountedPrefix(p, ids, i + 1);
    CutForIsCut(p, ids, max);
    CutIsUnique(p, ids, max, cutoff, CutFor(p, ids, max));
    PassedAll(p, max, vocabSize, ids, i);
  }

  /** Once the scan has stopped, no id behind it counts as looked at. */
  lemma PassedAll(p: Policy, max: nat, vocabSize: nat, ids: seq<nat>, i: nat)
    requires i < |ids| && p.SkipsUnk() && max != 0 && Counted(p, ids[..i + 1]) > max && forall j | 0 <= j <= i ::
        ids[j] < vocabSize
    ensures forall k: nat | FirstBad(vocabSize, ids, k) :: !Reached(p, max, ids, k)
  {
    forall k: nat | FirstBad(vocabSize, ids, k)
      ensures !Reached(p, max, ids, k)
    {
      CountedPrefix(p, ids[..k], i + 1);
      assert ids[..k][..i + 1] == ids[..i + 1];
    }
  }

  // ----- embedding the list -----

  datatype Result = Stored(embedding: Batch.Embedding) | OutOfRange(index: nat)

  function EmbedStored(m: Model, ids: seq<nat>, max: nat): Batch.Embedding {
    var p := m.Policy(m.rawLimit);
    var kept := Cap(p, max, ids);
    var pooled := Usable(p, kept.ids);
    if pooled == [] && m.raiseEmpty then Batch.Failed(Batch.EmptyInput)
    else Batch.Embedded(Batch.Row(pooled, Batch.Stats(|kept.ids|, UnkCount(p, kept.ids), kept.truncated)))
  }

  /** `embed_token_ids_value`: an id out of range is an error exactly when it is reached. */
  method EmbedTokenIds(m: Model, ids: seq<nat>, max: nat) returns (r: Result)
    requires m.limits.unkId < |m.tokens|
    ensures r.OutOfRange? ==> FirstBad(|m.tokens|, ids, r.index) && Reached(m.Policy(m.rawLimit), max, ids, r.index)
    ensures r.Stored? ==> r.embedding == EmbedStored(m, ids, max)
    ensures r.Stored? ==> forall i: nat | FirstBad(|m.tokens|, ids, i) :: !Reached(m.Policy(m.rawLimit), max, ids, i)
  {
    var p, vocabSize := m.Policy(m.rawLimit), |m.tokens|;
    var scan := CapStored(p, max, vocabSize, ids);
    if scan.BadId? {
      return OutOfRange(scan.index);
    }
    var n := scan.n;
    var i: nat := 0;
    while i < n
      invariant i <= n && forall j | 0 <= j < i :: ids[j] < vocabSize
    {
      if ids[i] >= vocabSize {
        BadIsReached(p, max, vocabSize, ids, n, i);
        return OutOfRange(i);
      }
      i := i + 1;
    }
    NoneReached(p, max, vocabSize, ids, n);
    var kept := ids[..n];
    var nUnk := CountUnk(p, kept);
    var ok, pooled := Batch.SelectRows(p, vocabSize, kept);
    assert ok;
    if |pooled| == 0 && m.raiseEmpty {
      return Stored(Batch.Failed(Batch.EmptyInput));
    }
    r := Stored(Batch.Embedded(Batch.Row(pooled, Batch.Stats(|kept|, nUnk, scan.truncated))));
  }

  /** The count of `se_embed_ids`. */
  method CountUnk(p: Policy, ids: seq<nat>) returns (n: nat)
    ensures n == UnkCount(p, ids)
  {
    n := 0;
    var i: nat := 0;
    while i < |ids|
      invariant i <= |ids| && n == UnkCount(p, ids[..i])
    {
      assert ids[..i + 1][..i] == ids[..i];
      if ids[i] == p.unkId {
        n := n + 1;
      }
      i := i + 1;
    }
    assert ids[..i] == ids;
  }

  lemma BadIsReached(p: Policy, max: nat, vocabSize: nat, ids: seq<nat>, n: nat, i: nat)
    requires i < n <= |ids| && Cap(p, max, ids).ids == ids[..n] && FirstBad(vocabSize, ids, i)
    ensures Reached(p, max, ids, i)
  {
    CountedPrefix(p, ids[..n], i);
    assert ids[..n][..i] == ids[..i];
    CountedRaw(p, ids);
    CountedRaw(p, ids[..n]);
    if max != 0 && Counted(p, ids) > max { CutForIsCut(p, ids, max); }
  }

  lemma NoneReached(p: Policy, max: nat, vocabSize: nat, ids: seq<nat>, n: nat)
    requires n <= |ids| && Cap(p, max, ids).ids == ids[..n] && forall j | 0 <= j < n :: ids[j] < vocabSize
    ensures !(p.SkipsUnk() && max != 0) ==> forall i: nat | FirstBad(vocabSize, ids, i) :: !Reached(p, max, ids, i)
  {
    CountedRaw(p, ids);
    if max != 0 && Counted(p, ids) > max {
      CutForIsCut(p, ids, max);
      CountedRaw(p, ids[..n]);
    }
  }

  // ----- the two paths agree -----

  /** Storing the uncapped ids of a text and embedding them later, under any limit, gives exactly what
      embedding the text under that limit gives: the pooled ids, the three counts, the error. */
  lemma StoredMatchesStreamed(m: Model, text: seq<byte>, max: nat, ids: seq<nat>, rawLimit: bool)
    requires Tokenize(m, text, 0, rawLimit) == Ids(ids, false)
    ensures EmbedStored(m, ids, max) == Batch.EmbedOne(m, text, max)
  {
    Batch.TokenizeIsCap(m, text, 0, rawLimit);
    Batch.TokenizeIsCap(m, text, max, m.rawLimit);
    hide ScanFrom, IdsOf, Run, Usable, UnkCount, Counted, CutFor;
  }

  /** And both pool what the reference pools. */
  lemma EmbeddingIsReference(m: Model, u: Reference.Unicode, text: seq<byte>, max: nat)
    requires Reference.TablesFaithful(m, u) && Reference.SpecialsInPlace(m) && Valid(text)
    ensures var e := Batch.EmbedOne(m, text, max);
            var p := Policy(m.rawLimit, m.dropUnk, m.limits.unkId);
            var pooled := ReferencePooled(p, max, Reference.ReferenceIds(m, u, text));
            && e == EmbedStored(m, Reference.ReferenceIds(m, u, text), max)
            && (if pooled == [] && m.raiseEmpty then e == Batch.Failed(Batch.EmptyInput)
                else e.Embedded? && e.row.pooled == pooled)
  {
    Reference.StreamingIsReference(m, u, text);
    Reference.PooledLikeReference(m, u, text, max);
    StoredMatchesStreamed(m, text, max, Reference.ReferenceIds(m, u, text), m.rawLimit);
    hide Tokenize, Usable, UnkCount, ReferencePooled, Reference.ReferenceIds, Reference.TablesFaithful,
        Reference.SpecialsInPlace;
  }
}
