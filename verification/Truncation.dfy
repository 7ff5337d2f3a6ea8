/** The token cap: which ids survive `max_tokens`.  Three pieces of code decide it, the streaming
    cap of se_tokenizer.c, the cap on a stored id list in static_embeddings.c and the policy of
    reference.rb; all three are compared with `Cap`.
  */
module Truncation {

  /** How ids are counted: the unknown id is skipped when unknowns are dropped and the limit is on
      usable ids. */
  datatype Policy = Policy(rawLimit: bool, dropUnk: bool, unkId: nat) {
    predicate SkipsUnk() { !rawLimit && dropUnk }
    predicate Counts(id: nat) { !(SkipsUnk() && id == unkId) }
  }

  function Counted(p: Policy, ids: seq<nat>): nat {
    if ids == [] then 0 else Counted(p, ids[..|ids| - 1]) + if p.Counts(ids[|ids| - 1]) then 1 else 0
  }

  function UnkCount(p: Policy, ids: seq<nat>): nat {
    if ids == [] then 0 else UnkCount(p, ids[..|ids| - 1]) + if ids[|ids| - 1] == p.unkId then 1 else 0
  }

  datatype Capped = Capped(ids: seq<nat>, truncated: bool)

  /** k is the length of the shortest prefix holding n counted ids. */
  predicate IsCut(p: Policy, ids: seq<nat>, n: nat, k: nat) {
    k <= |ids| && Counted(p, ids[..k]) == n && (k > 0 ==> p.Counts(ids[k - 1]))
  }

  function CutFor(p: Policy, ids: seq<nat>, n: nat): (k: nat)
    ensures k <= |ids|
  {
    if ids == [] || Counted(p, ids) < n then |ids|
    else if Counted(p, ids) == n && p.Counts(ids[|ids| - 1]) then |ids|
    else CutFor(p, ids[..|ids| - 1], n)
  }

  /** At most max counted ids (0 means no limit); a cut keeps exactly max of them and ends on one. */
  function Cap(p: Policy, max: nat, ids: seq<nat>): Capped {
    if max == 0 || Counted(p, ids) <= max then Capped(ids, false)
    else Capped(ids[..CutFor(p, ids, max)], true)
  }

  lemma {:induction false} CutForIsCut(p: Policy, ids: seq<nat>, n: nat)
    requires 1 <= n <= Counted(p, ids)
    ensures IsCut(p, ids, n, CutFor(p, ids, n))
  {
    var k := CutFor(p, ids, n);
    assert ids[..|ids|] == ids;
    if k < |ids| || !(Counted(p, ids) == n && p.Counts(ids[|ids| - 1])) {
      var front := ids[..|ids| - 1];
      CutForIsCut(p, front, n);
      assert front[..CutFor(p, front, n)] == ids[..CutFor(p, front, n)];
    }
  }

  lemma {:induction false} CountedPrefix(p: Policy, ids: seq<nat>, k: nat)
    requires k <= |ids|
    ensures Counted(p, ids[..k]) <= Counted(p, ids)
    ensures k < |ids| && p.Counts(ids[|ids| - 1]) ==> Counted(p, ids[..k]) < Counted(p, ids)
  {
    assert ids[..|ids|] == ids;
    if k < |ids| {
      var front := ids[..|ids| - 1];
      CountedPrefix(p, front, k);
      assert front[..k] == ids[..k];
    }
  }

  /** There is only one cut. */
  lemma CutIsUnique(p: Policy, ids: seq<nat>, n: nat, j: nat, k: nat)
    requires n > 0 && IsCut(p, ids, n, j) && IsCut(p, ids, n, k)
    ensures j == k
  {
    var lo, hi := if j < k then j else k, if j < k then k else j;
    if lo < hi {
      CountedPrefix(p, ids[..hi], lo);
      assert ids[..hi][..lo] == ids[..lo] && ids[..hi][hi - 1] == ids[hi - 1];
    }
  }

  /** Capping looks only at what it keeps: once a prefix is cut, more ids change nothing. */
  lemma CapOfPrefix(p: Policy, max: nat, front: seq<nat>, ids: seq<nat>)
    requires front <= ids && Cap(p, max, front).truncated
    ensures Cap(p, max, ids) == Cap(p, max, front)
  {
    CountedPrefix(p, ids, |front|);
    assert ids[..|front|] == front;
    CutForIsCut(p, front, max);
    CutForIsCut(p, ids, max);
    var k := CutFor(p, front, max);
    assert front[..k] == ids[..k];
    CutIsUnique(p, ids, max, k, CutFor(p, ids, max));
  }

  lemma {:induction false} CountedRaw(p: Policy, ids: seq<nat>)
    ensures Counted(p, ids) == if p.SkipsUnk() then |ids| - UnkCount(p, ids) else |ids|
    ensures UnkCount(p, ids) <= |ids|
  {
    if ids != [] { CountedRaw(p, ids[..|ids| - 1]); }
  }

  lemma {:induction false} UnkCountConcat(p: Policy, a: seq<nat>, b: seq<nat>)
    ensures UnkCount(p, a + b) == UnkCount(p, a) + UnkCount(p, b)
  {
    if b == [] {
      assert a + b == a;
    } else {
      assert (a + b)[..|a + b| - 1] == a + b[..|b| - 1];
      UnkCountConcat(p, a, b[..|b| - 1]);
    }
  }

  /** What is counted as unknown: the occurrences of the unknown id. */
  lemma {:induction false} UnkCountIs(p: Policy, ids: seq<nat>)
    ensures UnkCount(p, ids) == multiset(ids)[p.unkId]
  {
    if ids != [] {
      UnkCountIs(p, ids[..|ids| - 1]);
      assert ids == ids[..|ids| - 1] + [ids[|ids| - 1]];
    }
  }

  /** What a cap keeps: a prefix, the whole list while the limit holds, and otherwise the shortest prefix with
      `max` ids that count. Under a limit on usable ids only ids other than the dropped unknown one count. */
  lemma CapMeans(p: Policy, max: nat, ids: seq<nat>)
    ensures var kept := Cap(p, max, ids);
            var size := if !p.rawLimit && p.dropUnk then |ids| - multiset(ids)[p.unkId] else |ids|;
            && kept.ids <= ids && (kept.truncated <==> max != 0 && size > max)
            && (if kept.truncated then
                  && kept.ids != []
                  && (if !p.rawLimit && p.dropUnk
                      then |kept.ids| - multiset(kept.ids)[p.unkId] == max && kept.ids[|kept.ids| - 1] != p.unkId
                      else |kept.ids| == max)
                else kept.ids == ids)
  {
    CountedRaw(p, ids);
    UnkCountIs(p, ids);
    var kept := Cap(p, max, ids).ids;
    CountedRaw(p, kept);
    UnkCountIs(p, kept);
    if max != 0 && Counted(p, ids) > max { CutForIsCut(p, ids, max); }
    hide CutFor, Counted, UnkCount;
  }

  // ----- the streaming cap -----

  /** `cap_after_append`: given the ids held and how many of them are unknown, cut as soon as the
      counted ids exceed the limit. */
  method CapAfterAppend(p: Policy, max: nat, ids: seq<nat>, nUnk: nat) returns (outIds: seq<nat>, outUnk: nat,
                        stop: bool)
    requires nUnk == UnkCount(p, ids)
    ensures Capped(outIds, stop) == Cap(p, max, ids)
    ensures outUnk == UnkCount(p, outIds)
  {
    CountedRaw(p, ids);
    var limited := if p.SkipsUnk() then |ids| - nUnk else |ids|;
    if max == 0 || limited <= max {
      return ids, nUnk, false;
    }
    CutForIsCut(p, ids, max);
    hide Counted, CutFor;
    if p.rawLimit || !p.dropUnk {
      var dropped := 0;
      var k := max;
      while k < |ids|
        invariant max <= k <= |ids|
        invariant dropped == UnkCount(p, ids[max..k])
      {
        assert ids[max..k + 1][..k - max] == ids[max..k];
        if ids[k] == p.unkId {
          dropped := dropped + 1;
        }
        k := k + 1;
      }
      assert ids == ids[..max] + ids[max..k];
      UnkCountConcat(p, ids[..max], ids[max..k]);
      RawCut(p, ids, max);
      outIds, outUnk, stop := ids[..max], nUnk - dropped, true;
    } else {
      var keep, keptUnk := UsableCut(p, max, ids);
      outIds, outUnk, stop := ids[..keep], keptUnk, true;
    }
  }

  lemma RawCut(p: Policy, ids: seq<nat>, max: nat)
    requires !p.SkipsUnk() && 0 < max < |ids|
    ensures CutFor(p, ids, max) == max
  {
    CountedRaw(p, ids);
    CountedRaw(p, ids[..max]);
    CutForIsCut(p, ids, max);
    CutIsUnique(p, ids, max, max, CutFor(p, ids, max));
  }

  /** The scan for the last id to keep when unknown ids do not count. */
  method UsableCut(p: Policy, max: nat, ids: seq<nat>) returns (keep: nat, keptUnk: nat)
    requires p.SkipsUnk() && 0 < max < Counted(p, ids)
    ensures keep == CutFor(p, ids, max) && keptUnk == UnkCount(p, ids[..keep])
  {
    CutForIsCut(p, ids, max);
    var usable: nat;
    usable, keptUnk, keep := 0, 0, 0;
    var k: nat := 0;
    assert ids[..|ids|] == ids;
    while k < |ids|
      invariant k <= |ids| && usable == Counted(p, ids[..k]) && keptUnk == UnkCount(p, ids[..k]) && usable < max
    {
      assert ids[..k + 1][..k] == ids[..k];
      if ids[k] == p.unkId {
        keptUnk := keptUnk + 1;
      } else {
        usable := usable + 1;
        if usable == max {
          keep := k + 1;
          CutIsUnique(p, ids, max, keep, CutFor(p, ids, max));
          break;
        }
      }
      k := k + 1;
    }
  }

  // ----- the reference's policy -----

  /** The ids `embed_ids_core` adds rows for. */
  function Usable(p: Policy, ids: seq<nat>): seq<nat> {
    if ids == [] then []
    else Usable(p, ids[..|ids| - 1]) + if p.dropUnk && ids[|ids| - 1] == p.unkId then [] else [ids[|ids| - 1]]
  }

  lemma {:induction false} UsableConcat(p: Policy, a: seq<nat>, b: seq<nat>)
    ensures Usable(p, a + b) == Usable(p, a) + Usable(p, b)
  {
    if b == [] {
      assert a + b == a;
    } else {
      assert (a + b)[..|a + b| - 1] == a + b[..|b| - 1];
      UsableConcat(p, a, b[..|b| - 1]);
    }
  }

  /** Which ids are pooled: without the drop all of them; with it the unknown one never, and a list without it
      as it is. Together with `UsableConcat` this leaves no choice. */
  lemma {:induction false} UsableAre(p: Policy, ids: seq<nat>)
    ensures !p.dropUnk ==> Usable(p, ids) == ids
    ensures p.dropUnk ==> p.unkId !in Usable(p, ids)
    ensures p.unkId !in ids ==> Usable(p, ids) == ids
  {
    if ids != [] {
      var front, last := ids[..|ids| - 1], ids[|ids| - 1];
      UsableAre(p, front);
      assert ids == front + [last];
      assert Usable(p, ids) == Usable(p, front) + if p.dropUnk && last == p.unkId then [] else [last];
      hide Usable;
    }
  }

  /** And every other id as often as it occurs. */
  lemma {:induction false} UsableKeepsOthers(p: Policy, ids: seq<nat>, id: nat)
    requires id != p.unkId
    ensures multiset(Usable(p, ids))[id] == multiset(ids)[id]
  {
    if ids != [] {
      UsableKeepsOthers(p, ids[..|ids| - 1], id);
      assert ids == ids[..|ids| - 1] + [ids[|ids| - 1]];
    }
  }

  /** `ids.reject { |id| id == unk_id }` */
  function Rejected(ids: seq<nat>, unkId: nat): seq<nat> {
    if ids == [] then []
    else if ids[0] == unkId then Rejected(ids[1..], unkId)
    else [ids[0]] + Rejected(ids[1..], unkId)
  }

  /** `apply_unk_policy` of the reference. */
  function ApplyUnkPolicy(p: Policy, ids: seq<nat>): seq<nat> { if p.dropUnk then Rejected(ids, p.unkId) else ids }

  /** The row selection of the runtime is the reference's policy. */
  lemma {:induction false} UsableIsPolicy(p: Policy, ids: seq<nat>)
    ensures Usable(p, ids) == ApplyUnkPolicy(p, ids)
  {
    UsableAre(p, ids);
    if ids != [] {
      UsableIsPolicy(p, ids[1..]);
      UsableConcat(p, [ids[0]], ids[1..]);
      assert ids == [ids[0]] + ids[1..] && [ids[0]][..0] == [];
    }
  }

  function First(ids: seq<nat>, max: nat): seq<nat> {
    if max > 0 && |ids| > max then ids[..max] else ids
  }

  /** The ids `Reference#embed` pools, from the ids of the whole text. */
  function ReferencePooled(p: Policy, max: nat, ids: seq<nat>): seq<nat> {
    if p.rawLimit then ApplyUnkPolicy(p, First(ids, max)) else First(ApplyUnkPolicy(p, ids), max)
  }

  lemma {:induction false} UsableLength(p: Policy, ids: seq<nat>)
    ensures |Usable(p, ids)| == if p.dropUnk then |ids| - UnkCount(p, ids) else |ids|
    ensures UnkCount(p, ids) <= |ids|
    ensures !p.rawLimit ==> |Usable(p, ids)| == Counted(p, ids)
    ensures !p.dropUnk ==> Usable(p, ids) == ids
  {
    if ids != [] { UsableLength(p, ids[..|ids| - 1]); }
  }

  lemma {:induction false} UsableOfPrefix(p: Policy, ids: seq<nat>, k: nat)
    requires k <= |ids|
    ensures Usable(p, ids[..k]) <= Usable(p, ids)
  {
    assert ids[..|ids|] == ids;
    if k < |ids| {
      UsableOfPrefix(p, ids[..|ids| - 1], k);
      assert ids[..|ids| - 1][..k] == ids[..k];
    }
  }

  /** All three agree on what is pooled: capping the raw ids and dropping unknowns afterwards gives
      what the reference pools, under both limits and both unknown policies. */
  lemma CapPoolsLikeReference(p: Policy, max: nat, ids: seq<nat>)
    ensures Usable(p, Cap(p, max, ids).ids) == ReferencePooled(p, max, ids)
  {
    CountedRaw(p, ids);
    UsableLength(p, ids);
    UsableIsPolicy(p, ids);
    UsableIsPolicy(p, First(ids, max));
    if max != 0 && Counted(p, ids) > max {
      CutForIsCut(p, ids, max);
      var k := CutFor(p, ids, max);
      CountedRaw(p, ids[..k]);
      UsableLength(p, ids[..k]);
      UsableOfPrefix(p, ids, k);
    }
  }
}
