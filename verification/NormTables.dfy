/** The normaliser tables: how unicode_tables.rb accumulates them, what se_format.c
    accepts of them, and that both lookup paths (256-entry tables and binary search)
    agree with plain membership.
  */
module NormTables {
  import opened Utf8

  datatype Range = Range(lo: nat, hi: nat)
  datatype Entry = Entry(cp: nat, out: seq<Scalar>)

  datatype Tables = Tables(
    lower: seq<Entry>, nfd: seq<Entry>,
    mn: seq<Range>, punct: seq<Range>, control: seq<Range>, whitespace: seq<Range>)

  // ----- plain membership -----

  predicate InRange(r: Range, cp: nat) { r.lo <= cp <= r.hi }

  predicate Covers(ranges: seq<Range>, cp: nat) {
    exists k | 0 <= k < |ranges| :: InRange(ranges[k], cp)
  }

  /** The mapping of cp: the output of the first entry for it. */
  function Lookup(entries: seq<Entry>, cp: nat): Option<seq<Scalar>> {
    if entries == [] then None
    else if entries[0].cp == cp then Some(entries[0].out)
    else Lookup(entries[1..], cp)
  }

  predicate SortedRanges(ranges: seq<Range>) {
    && (forall k | 0 <= k < |ranges| :: ranges[k].lo <= ranges[k].hi)
    && (forall j, k | 0 <= j < k < |ranges| :: ranges[j].hi < ranges[k].lo)
  }

  predicate SortedEntries(entries: seq<Entry>) {
    forall j, k | 0 <= j < k < |entries| :: entries[j].cp < entries[k].cp
  }

  lemma {:induction false} LookupAt(entries: seq<Entry>, cp: nat)
    requires SortedEntries(entries)
    ensures forall k | 0 <= k < |entries| && entries[k].cp == cp :: Lookup(entries, cp) == Some(entries[k].out)
    ensures (forall k | 0 <= k < |entries| :: entries[k].cp != cp) ==> Lookup(entries, cp) == None
  {
    if entries != [] {
      var rest := entries[1..];
      LookupAt(rest, cp);
      assert forall k | 0 < k < |entries| :: entries[k] == rest[k - 1];
    }
  }

  // ----- the validator's loops -----

  method ValidateRanges(ranges: seq<Range>) returns (ok: bool)
    ensures ok <==> SortedRanges(ranges) && forall k | 0 <= k < |ranges| :: IsScalar(ranges[k].hi)
  {
    var prevHi := 0;
    var i := 0;
    while i < |ranges|
      invariant 0 <= i <= |ranges|
      invariant SortedRanges(ranges[..i]) && forall k | 0 <= k < i :: IsScalar(ranges[k].hi)
      invariant i > 0 ==> prevHi == ranges[i - 1].hi
    {
      var r := ranges[i];
      if !IsScalar(r.hi) || r.lo > r.hi || (i > 0 && r.lo <= prevHi) {
        assert i > 0 && r.lo <= prevHi ==> !(ranges[i - 1].hi < ranges[i].lo);
        return false;
      }
      assert forall j | 0 <= j < i :: ranges[..i][j].hi <= prevHi;
      prevHi := r.hi;
      i := i + 1;
    }
    assert ranges[..i] == ranges;
    ok := true;
  }

  /** An entry as the file holds it: the output is padded to four words. */
  datatype RawEntry = RawEntry(cp: nat, len: nat, out: seq<nat>)

  predicate EntryOk(e: RawEntry) {
    && e.len <= 4 <= |e.out| && IsScalar(e.cp)
    && forall k | 0 <= k < e.len :: IsScalar(e.out[k])
  }

  predicate AscendingKeys(entries: seq<RawEntry>) {
    forall j, k | 0 <= j < k < |entries| :: entries[j].cp < entries[k].cp
  }

  method ValidateEntries(entries: seq<RawEntry>) returns (ok: bool)
    requires forall k | 0 <= k < |entries| :: |entries[k].out| == 4
    ensures ok <==> AscendingKeys(entries) && forall k | 0 <= k < |entries| :: EntryOk(entries[k])
  {
    var prev := 0;
    var i := 0;
    while i < |entries|
      invariant 0 <= i <= |entries|
      invariant AscendingKeys(entries[..i]) && forall k | 0 <= k < i :: EntryOk(entries[k])
      invariant i > 0 ==> prev == entries[i - 1].cp
    {
      var e := entries[i];
      if e.len > 4 || !IsScalar(e.cp) {
        return false;
      }
      var k := 0;
      while k < e.len
        invariant 0 <= k <= e.len && forall l | 0 <= l < k :: IsScalar(e.out[l])
      {
        if !IsScalar(e.out[k]) {
          return false;
        }
        k := k + 1;
      }
      if i > 0 && e.cp <= prev {
        assert !(entries[i - 1].cp < entries[i].cp);
        return false;
      }
      assert forall j | 0 <= j < i :: entries[..i][j].cp <= prev;
      prev := e.cp;
      i := i + 1;
    }
    assert entries[..i] == entries;
    ok := true;
  }

  // ----- the section -----

  function Unpacked(e: RawEntry): Entry
    requires EntryOk(e)
  {
    Entry(e.cp, seq(e.len, k requires 0 <= k < e.len => e.out[k]))
  }

  /** `[cp, out.length] + padded` */
  function Packed(e: Entry): (r: RawEntry)
    requires |e.out| <= 4
    ensures |r.out| == 4
  {
    RawEntry(e.cp, |e.out|, e.out + seq(4 - |e.out|, _ => 0))
  }

  function EntryWords(entries: seq<Entry>): (r: seq<nat>)
    requires forall k | 0 <= k < |entries| :: |entries[k].out| <= 4
    ensures |r| == 6 * |entries|
  {
    if entries == [] then []
    else
      var n := |entries| - 1;
      var e := Packed(entries[n]);
      EntryWords(entries[..n]) + ([e.cp, e.len] + e.out)
  }

  function RangeWords(ranges: seq<Range>): (r: seq<nat>)
    ensures |r| == 2 * |ranges|
    ensures forall k | 0 <= k < |ranges| :: r[2 * k] == ranges[k].lo && r[2 * k + 1] == ranges[k].hi
  {
    if ranges == [] then []
    else
      var n := |ranges| - 1;
      RangeWords(ranges[..n]) + [ranges[n].lo, ranges[n].hi]
  }

  predicate EntriesValid(entries: seq<Entry>) {
    SortedEntries(entries) && forall k | 0 <= k < |entries| :: IsScalar(entries[k].cp) && |entries[k].out| <= 4
  }

  predicate RangesValid(ranges: seq<Range>) {
    SortedRanges(ranges) && forall k | 0 <= k < |ranges| :: IsScalar(ranges[k].hi)
  }

  predicate TablesValid(t: Tables) {
    && EntriesValid(t.lower) && EntriesValid(t.nfd)
    && RangesValid(t.mn) && RangesValid(t.punct) && RangesValid(t.control) && RangesValid(t.whitespace)
  }

  /** `UnicodeTables.pack`, as words. */
  function SectionWords(t: Tables): seq<nat>
    requires TablesValid(t)
  {
    [|t.lower|, |t.nfd|, |t.mn|, |t.punct|, |t.control|, |t.whitespace|, 0, 0]
    + EntryWords(t.lower) + EntryWords(t.nfd)
    + RangeWords(t.mn) + RangeWords(t.punct) + RangeWords(t.control) + RangeWords(t.whitespace)
  }

  function RawAt(words: seq<nat>, i: nat): RawEntry
    requires 6 * i + 6 <= |words|
  {
    RawEntry(words[6 * i], words[6 * i + 1], words[6 * i + 2..6 * i + 6])
  }

  lemma {:induction false} EntryWritten(entries: seq<Entry>, i: nat)
    requires i < |entries| && forall k | 0 <= k < |entries| :: |entries[k].out| <= 4
    ensures RawAt(EntryWords(entries), i) == Packed(entries[i])
  {
    hide Packed;
    var n := |entries| - 1;
    var e := Packed(entries[n]);
    var front, last := EntryWords(entries[..n]), [e.cp, e.len] + e.out;
    if i < n {
      EntryWritten(entries[..n], i);
      assert (front + last)[6 * i..6 * i + 6] == front[6 * i..6 * i + 6];
      assert (front + last)[6 * i + 2..6 * i + 6] == front[6 * i + 2..6 * i + 6];
    } else {
      assert (front + last)[6 * n..6 * n + 6] == last;
      assert (front + last)[6 * n + 2..6 * n + 6] == e.out;
    }
  }

  lemma UnpackedPacked(e: Entry)
    requires |e.out| <= 4 && IsScalar(e.cp)
    ensures EntryOk(Packed(e)) && Unpacked(Packed(e)) == e
  {
    assert Unpacked(Packed(e)).out == e.out;
  }

  /** One map of the section: validated, then taken as it is. */
  method ParseEntries(words: seq<nat>) returns (r: Option<seq<Entry>>)
    requires |words| % 6 == 0
    ensures r.Some? ==> EntriesValid(r.value)
    ensures forall entries: seq<Entry> | EntriesValid(entries) && words == EntryWords(entries) :: r == Some(entries)
  {
    var n := |words| / 6;
    var raws := seq(n, i requires 0 <= i < n => RawAt(words, i));
    var ok := ValidateEntries(raws);
    forall entries: seq<Entry> | EntriesValid(entries) && words == EntryWords(entries)
      ensures ok && AllUnpacked(raws) == entries
    {
      RawsAre(words, entries, raws);
    }
    if !ok {
      return None;
    }
    UnpackedValid(raws);
    r := Some(AllUnpacked(raws));
  }

  function AllUnpacked(raws: seq<RawEntry>): (r: seq<Entry>)
    ensures |r| == |raws|
  {
    seq(|raws|, i requires 0 <= i < |raws| => if EntryOk(raws[i]) then Unpacked(raws[i]) else Entry(0, []))
  }

  lemma UnpackedValid(raws: seq<RawEntry>)
    requires AscendingKeys(raws) && forall k | 0 <= k < |raws| :: EntryOk(raws[k])
    ensures EntriesValid(AllUnpacked(raws))
  {
  }

  lemma RawsAre(words: seq<nat>, entries: seq<Entry>, raws: seq<RawEntry>)
    requires EntriesValid(entries) && words == EntryWords(entries) && |raws| == |words| / 6
    requires forall i | 0 <= i < |raws| :: raws[i] == RawAt(words, i)
    ensures |entries| == |raws| && AscendingKeys(raws)
    ensures (forall i | 0 <= i < |raws| :: EntryOk(raws[i])) && AllUnpacked(raws) == entries
  {
    hide EntryOk, Unpacked, EntryWords;
    forall i: nat | i < |raws|
      ensures raws[i].cp == entries[i].cp && EntryOk(raws[i]) && Unpacked(raws[i]) == entries[i]
    {
      EntryWritten(entries, i);
      UnpackedPacked(entries[i]);
    }
  }

  method ParseRanges(words: seq<nat>) returns (r: Option<seq<Range>>)
    requires |words| % 2 == 0
    ensures r.Some? ==> RangesValid(r.value)
    ensures forall ranges: seq<Range> | RangesValid(ranges) && words == RangeWords(ranges) :: r == Some(ranges)
  {
    var n := |words| / 2;
    var ranges := seq(n, i requires 0 <= i < n => Range(words[2 * i], words[2 * i + 1]));
    var ok := ValidateRanges(ranges);
    forall other: seq<Range> | words == RangeWords(other) ensures other == ranges { }
    r := if ok then Some(ranges) else None;
  }

  /** The six arrays of the section. */
  datatype Blocks = Blocks(
    lower: seq<nat>, nfd: seq<nat>, mn: seq<nat>, punct: seq<nat>, control: seq<nat>, whitespace: seq<nat>)

  predicate Whole(b: Blocks) {
    && |b.lower| % 6 == 0 && |b.nfd| % 6 == 0
    && |b.mn| % 2 == 0 && |b.punct| % 2 == 0 && |b.control| % 2 == 0 && |b.whitespace| % 2 == 0
  }

  function BlocksOf(t: Tables): Blocks
    requires TablesValid(t)
  {
    Blocks(EntryWords(t.lower), EntryWords(t.nfd),
           RangeWords(t.mn), RangeWords(t.punct), RangeWords(t.control), RangeWords(t.whitespace))
  }

  /** The counts in front must account for the whole section. */
  function SplitSection(words: seq<nat>): (r: Option<Blocks>)
    ensures r.Some? ==> Whole(r.value)
  {
    if |words| < 8 || |words| != 8 + 6 * (words[0] + words[1]) + 2 * (words[2] + words[3] + words[4] + words[5])
    then None
    else
      var p1: nat := 8 + 6 * words[0];
      var p2: nat := p1 + 6 * words[1];
      var p3: nat := p2 + 2 * words[2];
      var p4: nat := p3 + 2 * words[3];
      var p5: nat := p4 + 2 * words[4];
      Some(Blocks(words[8..p1], words[p1..p2], words[p2..p3], words[p3..p4], words[p4..p5], words[p5..]))
  }

  /** `parse_norm_tables` on the words of the section; an absent section means empty tables. */
  method ParseTables(words: seq<nat>) returns (r: Option<Tables>)
    ensures r.Some? ==> TablesValid(r.value)
    ensures words == [] ==> r == Some(Tables([], [], [], [], [], []))
    ensures forall t: Tables | TablesValid(t) && words == SectionWords(t) :: r == Some(t)
  {
    hide SectionWords, EntryWords, RangeWords, EntriesValid, RangesValid;
    if |words| == 0 {
      SectionNotEmpty();
      return Some(Tables([], [], [], [], [], []));
    }
    forall t: Tables | TablesValid(t) && words == SectionWords(t)
      ensures SplitSection(words) == Some(BlocksOf(t))
    {
      SectionBlocks(t);
    }
    hide SplitSection;
    var blocks := SplitSection(words);
    if blocks.None? {
      return None;
    }
    var lower := ParseEntries(blocks.value.lower);
    var nfd := ParseEntries(blocks.value.nfd);
    var mn := ParseRanges(blocks.value.mn);
    var punct := ParseRanges(blocks.value.punct);
    var control := ParseRanges(blocks.value.control);
    var whitespace := ParseRanges(blocks.value.whitespace);
    if lower.None? || nfd.None? || mn.None? || punct.None? || control.None? || whitespace.None? {
      return None;
    }
    r := Some(Tables(lower.value, nfd.value, mn.value, punct.value, control.value, whitespace.value));
  }

  lemma SectionNotEmpty()
    ensures forall t: Tables | TablesValid(t) :: SectionWords(t) != []
    ensures TablesValid(Tables([], [], [], [], [], []))
  {
    forall t: Tables | TablesValid(t) ensures SectionWords(t) != [] { assert |SectionWords(t)| >= 8; }
  }

  lemma SectionBlocks(t: Tables)
    requires TablesValid(t)
    ensures SplitSection(SectionWords(t)) == Some(BlocksOf(t))
  {
    hide EntryWords, RangeWords, RangesValid, SortedEntries, SplitSection;
    SplitsInto([|t.lower|, |t.nfd|, |t.mn|, |t.punct|, |t.control|, |t.whitespace|, 0, 0], BlocksOf(t));
  }

  lemma SplitsInto(head: seq<nat>, b: Blocks)
    requires |head| == 8 && |b.lower| == 6 * head[0] && |b.nfd| == 6 * head[1] && |b.mn| == 2 * head[2]
    requires |b.punct| == 2 * head[3] && |b.control| == 2 * head[4] && |b.whitespace| == 2 * head[5]
    ensures SplitSection(head + b.lower + b.nfd + b.mn + b.punct + b.control + b.whitespace) == Some(b)
  {
    var words := head + b.lower + b.nfd + b.mn + b.punct + b.control + b.whitespace;
    assert forall k | 0 <= k < 6 :: words[k] == head[k];
    SevenSlices(head, b.lower, b.nfd, b.mn, b.punct, b.control, b.whitespace);
  }

  lemma SevenSlices(h: seq<nat>, a: seq<nat>, b: seq<nat>, c: seq<nat>, d: seq<nat>, e: seq<nat>, f: seq<nat>)
    ensures var words := h + a + b + c + d + e + f;
            var p1: nat := |h| + |a|;
            var p2: nat := p1 + |b|;
            var p3: nat := p2 + |c|;
            var p4: nat := p3 + |d|;
            var p5: nat := p4 + |e|;
            && |words| == p5 + |f| && words[|h|..p1] == a && words[p1..p2] == b && words[p2..p3] == c
            && words[p3..p4] == d && words[p4..p5] == e && words[p5..] == f
  {
  }

  // ----- binary search -----

  method RangeContains(ranges: seq<Range>, cp: nat) returns (found: bool)
    requires SortedRanges(ranges)
    ensures found <==> Covers(ranges, cp)
  {
    var lo, hi := 0, |ranges|;
    while lo < hi
      invariant 0 <= lo <= hi <= |ranges|
      invariant forall k | 0 <= k < lo :: ranges[k].hi < cp
      invariant forall k | hi <= k < |ranges| :: cp < ranges[k].lo
    {
      var mid := lo + (hi - lo) / 2;
      if cp < ranges[mid].lo {
        hi := mid;
      } else if cp > ranges[mid].hi {
        lo := mid + 1;
      } else {
        assert InRange(ranges[mid], cp);
        return true;
      }
    }
    found := false;
  }

  method MapLookup(entries: seq<Entry>, cp: nat) returns (r: Option<seq<Scalar>>)
    requires SortedEntries(entries)
    ensures r == Lookup(entries, cp)
  {
    LookupAt(entries, cp);
    var lo, hi := 0, |entries|;
    while lo < hi
      invariant 0 <= lo <= hi <= |entries|
      invariant forall k | 0 <= k < lo :: entries[k].cp < cp
      invariant forall k | hi <= k < |entries| :: cp < entries[k].cp
    {
      var mid := lo + (hi - lo) / 2;
      if cp < entries[mid].cp {
        hi := mid;
      } else if cp > entries[mid].cp {
        lo := mid + 1;
      } else {
        return Some(entries[mid].out);
      }
    }
    r := None;
  }

  // ----- the 256-entry tables -----

  method FillRange256(out: array<bool>, ranges: seq<Range>)
    requires out.Length == 256
    modifies out
    ensures forall cp | 0 <= cp < 256 :: out[cp] <==> Covers(ranges, cp)
  {
    var z := 0;
    while z < 256
      invariant 0 <= z <= 256
      invariant forall cp | 0 <= cp < z :: !out[cp]
    {
      out[z] := false;
      z := z + 1;
    }
    var i := 0;
    while i < |ranges|
      invariant 0 <= i <= |ranges|
      invariant forall cp | 0 <= cp < 256 :: out[cp] <==> Covers(ranges[..i], cp)
    {
      ghost var before := out[..];
      var lo, hi := ranges[i].lo, ranges[i].hi;
      if lo <= 255 {
        hi := if hi > 255 then 255 else hi;
        var cp := lo;
        while cp <= hi
          invariant lo <= cp && (cp <= hi + 1 || cp == lo)
          invariant forall c | 0 <= c < 256 :: out[c] == (before[c] || lo <= c < cp)
        {
          out[cp] := true;
          cp := cp + 1;
        }
      }
      CoversNext(ranges, i);
      i := i + 1;
    }
    assert ranges[..i] == ranges;
  }

  lemma CoversNext(ranges: seq<Range>, i: nat)
    requires i < |ranges|
    ensures forall cp: nat :: Covers(ranges[..i + 1], cp) <==> Covers(ranges[..i], cp) || InRange(ranges[i], cp)
  {
    var prefix, longer := ranges[..i], ranges[..i + 1];
    forall cp: nat
      ensures Covers(longer, cp) <==> Covers(prefix, cp) || InRange(ranges[i], cp)
    {
      if Covers(prefix, cp) {
        var k :| 0 <= k < |prefix| && InRange(prefix[k], cp);
        assert InRange(longer[k], cp);
      }
      if InRange(ranges[i], cp) { assert InRange(longer[i], cp); }
      if Covers(longer, cp) && !InRange(ranges[i], cp) {
        var k :| 0 <= k < |longer| && InRange(longer[k], cp);
        assert InRange(prefix[k], cp);
      }
    }
  }

  method FillMap256(out: array<Option<seq<Scalar>>>, entries: seq<Entry>)
    requires out.Length == 256 && SortedEntries(entries)
    modifies out
    ensures forall cp | 0 <= cp < 256 :: out[cp] == Lookup(entries, cp)
  {
    var z := 0;
    while z < 256
      invariant 0 <= z <= 256
      invariant forall cp | 0 <= cp < z :: out[cp] == None
    {
      out[z] := None;
      z := z + 1;
    }
    var i := 0;
    while i < |entries|
      invariant 0 <= i <= |entries|
      invariant forall cp | 0 <= cp < 256 && (forall k | 0 <= k < i :: entries[k].cp != cp) :: out[cp] == None
      invariant forall k | 0 <= k < i && entries[k].cp < 256 :: out[entries[k].cp] == Some(entries[k].out)
    {
      if entries[i].cp < 256 {
        out[entries[i].cp] := Some(entries[i].out);
      }
      i := i + 1;
    }
    forall cp | 0 <= cp < 256
      ensures out[cp] == Lookup(entries, cp)
    {
      LookupAt(entries, cp);
    }
  }

  lemma ExtendLast(ranges: seq<Range>, cp: nat)
    requires ranges != [] && ranges[|ranges| - 1].lo <= cp == ranges[|ranges| - 1].hi + 1
    ensures var longer := ranges[|ranges| - 1 := Range(ranges[|ranges| - 1].lo, cp)];
            forall c: nat :: Covers(longer, c) <==> Covers(ranges, c) || c == cp
  {
    var n := |ranges| - 1;
    var longer := ranges[n := Range(ranges[n].lo, cp)];
    assert longer[..n] == ranges[..n] && longer[..n + 1] == longer && ranges[..n + 1] == ranges;
    CoversNext(ranges, n);
    CoversNext(longer, n);
    forall c: nat
      ensures Covers(longer, c) <==> Covers(ranges, c) || c == cp
    {
      assert Covers(longer[..n + 1], c) <==> Covers(longer[..n], c) || InRange(longer[n], c);
      assert Covers(ranges[..n + 1], c) <==> Covers(ranges[..n], c) || InRange(ranges[n], c);
    }
  }

  lemma AppendPoint(ranges: seq<Range>, cp: nat)
    ensures var longer := ranges + [Range(cp, cp)];
            forall c: nat :: Covers(longer, c) <==> Covers(ranges, c) || c == cp
  {
    var n := |ranges|;
    var longer := ranges + [Range(cp, cp)];
    assert longer[..n] == ranges && longer[..n + 1] == longer;
    CoversNext(longer, n);
    forall c: nat
      ensures Covers(longer, c) <==> Covers(ranges, c) || c == cp
    {
      assert Covers(longer[..n + 1], c) <==> Covers(longer[..n], c) || InRange(longer[n], c);
    }
  }

  // ----- how the converter builds the ranges -----

  class RangeAccumulator {
    var ranges: seq<Range>

    ghost predicate Valid(next: nat)
      reads this
    {
      && SortedRanges(ranges)
      && forall k | 0 <= k < |ranges| :: ranges[k].hi < next
    }

    constructor ()
      ensures Valid(0) && ranges == []
    {
      ranges := [];
    }

    /** Scanning upwards, adding a codepoint extends the covered set by exactly that codepoint,
        and neighbours share a range: no two ranges touch. */
    method Add(cp: nat)
      requires Valid(cp)
      modifies this
      ensures Valid(cp + 1)
      ensures forall c: nat :: Covers(ranges, c) <==> old(Covers(ranges, c)) || c == cp
      ensures old(Maximal(ranges)) ==> Maximal(ranges)
    {
      ghost var before := ranges;
      var n := |ranges|;
      if n > 0 && ranges[n - 1].hi + 1 == cp {
        ranges := ranges[n - 1 := Range(ranges[n - 1].lo, cp)];
        ExtendLast(before, cp);
      } else {
        ranges := ranges + [Range(cp, cp)];
        AppendPoint(before, cp);
      }
    }
  }

  predicate Maximal(ranges: seq<Range>) {
    forall k | 0 <= k < |ranges| - 1 :: ranges[k].hi + 1 < ranges[k + 1].lo
  }
}
