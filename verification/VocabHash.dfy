/** The open-addressing vocabulary table: built by format/hash_table.rb, checked and
    probed by se_format.c.

    The builder's size is a power of two, so `hash & (size - 1)` is written `hash % size`.
  */
module VocabHash {
  import opened Utf8
  import opened Words

  const U32: nat := 0x1_0000_0000

  /** A packed 16-byte slot record. */
  datatype Slot = Slot(hash: nat, off: nat, len: nat, id: nat)

  datatype Table = Table(slots: seq<Slot>, strings: seq<byte>, maxProbe: nat)

  predicate Distinct(tokens: seq<seq<byte>>) {
    forall i, j | 0 <= i < j < |tokens| :: tokens[i] != tokens[j]
  }

  /** The plain map the table must agree with: the id of a token is its position. */
  function Find(tokens: seq<seq<byte>>, key: seq<byte>): (r: Option<nat>)
    ensures r.Some? ==> r.value < |tokens| && tokens[r.value] == key
    ensures r.None? ==> key !in tokens
  {
    if tokens == [] then None
    else if tokens[0] == key then Some(0)
    else match Find(tokens[1..], key) case None => None case Some(i) => Some(i + 1)
  }

  // ----- hashing -----

  function Xor(x: nat, y: nat, bits: nat): nat {
    if bits == 0 then 0 else (x + y) % 2 + 2 * Xor(x / 2, y / 2, bits - 1)
  }

  /** hash = ((hash ^ byte) * 16777619) & 0xffffffff; a byte only reaches the low eight bits. */
  function HashStep(h: nat, b: byte): nat {
    (h - h % 256 + Xor(h % 256, b, 8)) * 16_777_619 % U32
  }

  lemma XorStep(x: nat, y: nat, bits: nat)
    requires bits > 0
    ensures Xor(x, y, bits) / 2 == Xor(x / 2, y / 2, bits - 1)
    ensures Xor(x, y, bits) % 2 == (if x % 2 == y % 2 then 0 else 1)
  {
    var z := Xor(x / 2, y / 2, bits - 1);
    assert Xor(x, y, bits) == (x + y) % 2 + 2 * z;
    hide Xor;
    Parity(x, y, z);
  }

  lemma Parity(x: nat, y: nat, z: nat)
    ensures ((x + y) % 2 + 2 * z) / 2 == z
    ensures ((x + y) % 2 + 2 * z) % 2 == (if x % 2 == y % 2 then 0 else 1)
  {
    var a, b := x % 2, y % 2;
    assert x + y == 2 * (x / 2 + y / 2) + (a + b);
    assert (x + y) % 2 == (a + b) % 2;
  }

  /** `^` on numbers below 2^bits: a bit is set where the two differ, so taking it twice undoes it. */
  lemma {:induction false} XorUndone(x: nat, y: nat, bits: nat)
    requires x < Pow2(bits)
    ensures Xor(Xor(x, y, bits), y, bits) == x
  {
    if bits > 0 {
      XorStep(x, y, bits);
      XorUndone(x / 2, y / 2, bits - 1);
      var z := Xor(x, y, bits);
      XorStep(z, y, bits);
      hide Xor;
      assert Xor(z, y, bits) / 2 == x / 2 && Xor(z, y, bits) % 2 == x % 2;
    }
  }

  /** `hash_bytes` */
  function HashFrom(h: nat, bytes: seq<byte>): nat
    decreases |bytes|
  {
    if bytes == [] then h else HashFrom(HashStep(h, bytes[0]), bytes[1..])
  }

  lemma {:induction false} HashConcat(h: nat, a: seq<byte>, b: seq<byte>)
    ensures HashFrom(h, a + b) == HashFrom(HashFrom(h, a), b)
    decreases |a|
  {
    hide HashStep;
    if a == [] {
      assert a + b == b;
    } else {
      assert (a + b)[1..] == a[1..] + b;
      HashConcat(HashStep(h, a[0]), a[1..], b);
    }
  }

  lemma StepBound(h: nat, b: byte)
    ensures HashStep(h, b) < U32
  {
  }

  lemma {:induction false} HashBound(h: nat, bytes: seq<byte>)
    requires h < U32
    ensures HashFrom(h, bytes) < U32
    decreases |bytes|
  {
    StepBound(h, if bytes == [] then 0 else bytes[0]);
    hide HashStep;
    if bytes != [] { HashBound(HashStep(h, bytes[0]), bytes[1..]); }
  }

  const SE_HASH_PRIME: nat := 16_777_619

  lemma SeStep(h: nat, b: byte)
    ensures HashStep(h, b) == (h - h % 256 + Xor(h % 256, b, 8)) * SE_HASH_PRIME % U32
  {
  }

  /** `hash_bytes_continue`: one pass over the bytes, starting from a running hash. */
  method HashContinue(start: nat, data: seq<byte>) returns (h: nat)
    ensures h == HashFrom(start, data)
  {
    hide HashStep, Xor;
    h := start;
    var i := 0;
    assert data[0..] == data;
    while i < |data|
      invariant 0 <= i <= |data|
      invariant HashFrom(start, data) == HashFrom(h, data[i..])
    {
      assert data[i..][1..] == data[i + 1..];
      SeStep(h, data[i]);
      h := h - h % 256 + Xor(h % 256, data[i], 8);
      h := h * SE_HASH_PRIME % U32;
      i := i + 1;
    }
  }

  // ----- the table size -----

  function BitLength(n: nat): nat { if n == 0 then 0 else 1 + BitLength(n / 2) }

  function NextPowerOfTwo(value: nat): nat
    requires value >= 1
  {
    Pow2(BitLength(value - 1))
  }

  lemma {:induction false} BitLengthBounds(n: nat)
    ensures n < Pow2(BitLength(n)) && (n > 0 ==> Pow2(BitLength(n)) <= 2 * n)
  {
    if n > 0 { BitLengthBounds(n / 2); }
  }

  function Ceiling(x: real): int {
    if x.Floor as real == x then x.Floor else x.Floor + 1
  }

  /** A quotient of n by the load factor 0.70 as a floating-point division may round it: off by at most one. */
  predicate RoundedQuotient(n: nat, quotient: real) {
    quotient >= 0.0 && n as real / 0.70 - 1.0 <= quotient <= n as real / 0.70 + 1.0
  }

  function TableSize(quotient: real): nat
    requires quotient >= 0.0
  {
    NextPowerOfTwo(Ceiling(quotient) + 1)
  }

  /** However the quotient was rounded: a power of two, strictly larger than the vocabulary, within the
      load factor the loader insists on, and never more than doubled to get there. */
  lemma TableSizeFits(n: nat, quotient: real)
    requires RoundedQuotient(n, quotient)
    ensures FitsTokens(TableSize(quotient), n)
    ensures n > 0 ==> TableSize(quotient) <= 2 * Ceiling(quotient)
  {
    var filled := Ceiling(quotient) + 1;
    assert n as real / 0.70 * 0.70 == n as real;
    assert filled as real >= n as real / 0.70;
    BitLengthBounds(filled - 1);
    assert TableSize(quotient) == Pow2(BitLength(filled - 1));
  }

  ghost predicate FitsTokens(size: nat, n: nat) { n < size && n * 100 <= size * 70 && IsPowerOfTwo(size) }

  // ----- probing -----

  /** (position + 1) & (size - 1) */
  function Succ(position: nat, size: nat): nat {
    if position + 1 == size then 0 else position + 1
  }

  /** The position `d` steps after `home`. */
  function Probe(home: nat, d: nat, size: nat): nat {
    if d == 0 then home else Succ(Probe(home, d - 1, size), size)
  }

  lemma {:induction false} ProbeInside(home: nat, d: nat, size: nat)
    requires home < size
    ensures Probe(home, d, size) < size
  {
    if d > 0 { ProbeInside(home, d - 1, size); }
  }

  lemma {:induction false} ProbeAhead(home: nat, d: nat, size: nat)
    requires home < size && d < size
    ensures Probe(home, d, size) == if home + d < size then home + d else home + d - size
  {
    if d > 0 { ProbeAhead(home, d - 1, size); }
  }

  /** Walking on from any home reaches every position within one lap. */
  lemma Reaches(home: nat, target: nat, size: nat) returns (d: nat)
    requires target < size && home < size
    ensures d < size && Probe(home, d, size) == target
  {
    d := if target >= home then target - home else target + size - home;
    ProbeAhead(home, d, size);
  }

  // ----- the state the builder keeps -----

  function Joined(tokens: seq<seq<byte>>): seq<byte> {
    if tokens == [] then [] else Joined(tokens[..|tokens| - 1]) + tokens[|tokens| - 1]
  }

  function HomeOf(token: seq<byte>, size: nat): nat
    requires size > 0
  {
    HashFrom(HASH_SEED, token) % size
  }

  /** What slot a token occupies: everything but its position. */
  function RecordOf(tokens: seq<seq<byte>>, i: nat): Slot
    requires i < |tokens|
  {
    Slot(HashFrom(HASH_SEED, tokens[i]), |Joined(tokens[..i])|, |tokens[i]|, i)
  }

  /** Token i is recorded at position at(i), and nothing else is recorded. */
  ghost predicate Recorded(slots: seq<Option<Slot>>, tokens: seq<seq<byte>>, at: seq<nat>) {
    && |at| <= |tokens|
    && (forall i | 0 <= i < |at| :: at[i] < |slots| && slots[at[i]] == Some(RecordOf(tokens, i)))
    && (forall p | 0 <= p < |slots| && slots[p].Some? :: slots[p].value.id < |at| && at[slots[p].value.id] == p)
  }

  /** Token i sits dist(i) probes past its home, with no gap on the way. */
  ghost predicate Chained(slots: seq<Option<Slot>>, tokens: seq<seq<byte>>, at: seq<nat>, dist: seq<nat>,
                          maxProbe: nat) {
    && |slots| > 0 && |at| == |dist| <= |tokens|
    && (forall i | 0 <= i < |at| :: dist[i] < maxProbe && Probe(HomeOf(tokens[i], |slots|), dist[i], |slots|) == at[i])
    && (forall i, d | 0 <= i < |at| && 0 <= d < dist[i] ::
          FilledAt(slots, Probe(HomeOf(tokens[i], |slots|), d, |slots|)))
  }

  ghost predicate Stored(slots: seq<Option<Slot>>, tokens: seq<seq<byte>>, at: seq<nat>, dist: seq<nat>,
                         maxProbe: nat) {
    Recorded(slots, tokens, at) && Chained(slots, tokens, at, dist, maxProbe)
  }

  predicate FilledAt(slots: seq<Option<Slot>>, p: nat) { p < |slots| && slots[p].Some? }

  lemma EmptySlotExists(slots: seq<Option<Slot>>, tokens: seq<seq<byte>>, at: seq<nat>, dist: seq<nat>, maxProbe: nat)
    returns (p: nat)
    requires Stored(slots, tokens, at, dist, maxProbe) && |at| < |slots|
    ensures p < |slots| && slots[p].None?
  {
    var filled := set i | 0 <= i < |at| :: at[i];
    var all := UpTo(|slots|);
    CardinalityOfImage(at, |at|);
    assert filled < all by {
      assert filled <= all;
      assert filled != all;
    }
    forall q | 0 <= q < |slots| && slots[q].Some?
      ensures q in filled
    {
      assert at[slots[q].value.id] == q;
    }
    p :| p in all && p !in filled;
  }

  /** {0, 1, ..., n - 1} */
  function UpTo(n: nat): (r: set<nat>)
    ensures forall i :: i in r <==> 0 <= i < n
    ensures |r| == n
  {
    if n == 0 then {} else UpTo(n - 1) + {n - 1}
  }

  lemma {:induction false} CardinalityOfImage(at: seq<nat>, n: nat)
    requires n <= |at|
    ensures |set i | 0 <= i < n :: at[i]| <= n
  {
    if n > 0 {
      CardinalityOfImage(at, n - 1);
      assert (set i | 0 <= i < n :: at[i]) == (set i | 0 <= i < n - 1 :: at[i]) + {at[n - 1]};
    }
  }

  lemma {:induction false} JoinedSlice(tokens: seq<seq<byte>>, i: nat)
    requires i < |tokens|
    ensures |Joined(tokens[..i])| + |tokens[i]| <= |Joined(tokens)|
    ensures Joined(tokens)[|Joined(tokens[..i])|..|Joined(tokens[..i])| + |tokens[i]|] == tokens[i]
  {
    var n := |tokens| - 1;
    var front := tokens[..n];
    if i == n {
      assert Joined(tokens)[|Joined(front)|..] == tokens[n];
    } else {
      JoinedSlice(front, i);
      assert front[..i] == tokens[..i];
      var off := |Joined(tokens[..i])|;
      assert Joined(tokens)[off..off + |tokens[i]|] == Joined(front)[off..off + |tokens[i]|];
    }
  }

  /** A filled slot is the record of the token it names. */
  lemma AtPosition(slots: seq<Option<Slot>>, tokens: seq<seq<byte>>, at: seq<nat>, dist: seq<nat>, maxProbe: nat,
                   p: nat)
    requires Stored(slots, tokens, at, dist, maxProbe) && p < |slots| && slots[p].Some?
    ensures slots[p].value.id < |at| && at[slots[p].value.id] == p
    ensures slots[p] == Some(RecordOf(tokens, slots[p].value.id))
  {
    hide HashFrom, Joined, Probe, Chained;
    assert at[slots[p].value.id] == p;
  }

  /** Probing for `key`: a gap d steps out rules out every copy of it stored at d or beyond, and a
      filled slot with another key rules out a copy stored at exactly d. */
  lemma OnTheWay(slots: seq<Option<Slot>>, tokens: seq<seq<byte>>, at: seq<nat>, dist: seq<nat>, maxProbe: nat,
                 key: seq<byte>, d: nat)
    requires Stored(slots, tokens, at, dist, maxProbe)
    requires Probe(HomeOf(key, |slots|), d, |slots|) < |slots|
    ensures var p := Probe(HomeOf(key, |slots|), d, |slots|);
            && (slots[p].None? ==> forall i | 0 <= i < |at| && tokens[i] == key :: dist[i] < d)
            && (slots[p].Some? && (slots[p].value.id < |tokens| ==> tokens[slots[p].value.id] != key) ==>
                  forall i | 0 <= i < |at| && tokens[i] == key :: dist[i] != d)
  {
    hide HashFrom, Joined, Probe;
    var home := HomeOf(key, |slots|);
    var p := Probe(home, d, |slots|);
    forall i | 0 <= i < |at| && tokens[i] == key
      ensures slots[p].None? ==> dist[i] < d
      ensures slots[p].Some? && (slots[p].value.id < |tokens| ==> tokens[slots[p].value.id] != key) ==> dist[i] != d
    {
      assert Probe(HomeOf(tokens[i], |slots|), dist[i], |slots|) == at[i] && slots[at[i]] == Some(RecordOf(tokens, i));
      if d < dist[i] { assert FilledAt(slots, Probe(HomeOf(tokens[i], |slots|), d, |slots|)); }
    }
  }

  /** `insert`: probes for a free slot; None when an equal token is met on the way. */
  method Insert(slots: array<Option<Slot>>, tokens: seq<seq<byte>>, offset: nat, id: nat,
                ghost at: seq<nat>, ghost dist: seq<nat>, ghost maxProbe: nat)
    returns (probe: Option<nat>)
    requires id < |tokens| && id == |at| < slots.Length
    requires offset == |Joined(tokens[..id])|
    requires Stored(slots[..], tokens, at, dist, maxProbe)
    modifies slots
    ensures probe.None? ==> exists i | 0 <= i < id :: tokens[i] == tokens[id]
    ensures probe.Some? ==> (forall i | 0 <= i < id :: tokens[i] != tokens[id])
    ensures probe.Some? ==> 1 <= probe.value <= slots.Length
    ensures probe.Some? ==>
        Stored(slots[..], tokens, at + [Probe(HomeOf(tokens[id], slots.Length), probe.value - 1, slots.Length)],
               dist + [probe.value - 1], if probe.value > maxProbe then probe.value else maxProbe)
  {
    hide HashFrom, Joined, Stored;
    var size := slots.Length;
    var bytes := tokens[id];
    var hash := HashContinue(HASH_SEED, bytes);
    var position := hash % size;
    ghost var home := position;
    ghost var before := slots[..];
    assert |at| == |dist| by { StoredLengths(before, tokens, at, dist, maxProbe); }
    ghost var free := EmptySlotExists(before, tokens, at, dist, maxProbe);
    ghost var limit := Reaches(home, free, size);
    var count := 1;
    while true
      invariant 1 <= count <= limit + 1 && position < size
      invariant position == Probe(home, count - 1, size)
      invariant slots[..] == before
      invariant forall d | 0 <= d < count - 1 :: FilledAt(before, Probe(home, d, size))
      invariant forall i | 0 <= i < id && tokens[i] == bytes :: dist[i] >= count - 1
      decreases limit + 1 - count
    {
      var slot := slots[position];
      assert before[position] == slot;
      OnTheWay(before, tokens, at, dist, maxProbe, bytes, count - 1);
      if slot.None? {
        slots[position] := Some(Slot(hash, offset, |bytes|, id));
        assert slots[..] == before[position := Some(RecordOf(tokens, id))];
        StoredAfterInsert(before, tokens, at, dist, maxProbe, position, count - 1);
        return Some(count);
      }
      AtPosition(before, tokens, at, dist, maxProbe, position);
      if slot.value.hash == hash && slot.value.len == |bytes| && tokens[slot.value.id] == bytes {
        return None;
      }
      position := Succ(position, size);
      count := count + 1;
    }
  }

  lemma StoredLengths(slots: seq<Option<Slot>>, tokens: seq<seq<byte>>, at: seq<nat>, dist: seq<nat>, maxProbe: nat)
    requires Stored(slots, tokens, at, dist, maxProbe)
    ensures |at| == |dist| <= |tokens| && |slots| > 0
    ensures forall i | 0 <= i < |at| :: dist[i] < maxProbe
  {
  }

  lemma StoredAfterInsert(slots: seq<Option<Slot>>, tokens: seq<seq<byte>>, at: seq<nat>, dist: seq<nat>, maxProbe: nat,
                          position: nat, d: nat)
    requires Stored(slots, tokens, at, dist, maxProbe)
    requires |at| < |tokens| && position < |slots| && slots[position].None?
    requires position == Probe(HomeOf(tokens[|at|], |slots|), d, |slots|)
    requires forall e | 0 <= e < d :: FilledAt(slots, Probe(HomeOf(tokens[|at|], |slots|), e, |slots|))
    ensures Stored(slots[position := Some(RecordOf(tokens, |at|))], tokens, at + [position], dist + [d],
                   if d + 1 > maxProbe then d + 1 else maxProbe)
  {
    hide HashFrom, Joined, Probe, HomeOf, RecordOf, Recorded;
    RecordedAfterInsert(slots, tokens, at, position);
    ChainedAfterInsert(slots, tokens, at, dist, maxProbe, position, d);
  }

  lemma ChainedAfterInsert(slots: seq<Option<Slot>>, tokens: seq<seq<byte>>, at: seq<nat>, dist: seq<nat>,
                           maxProbe: nat, position: nat, d: nat)
    requires Chained(slots, tokens, at, dist, maxProbe)
    requires |at| < |tokens| && position < |slots| && slots[position].None?
    requires position == Probe(HomeOf(tokens[|at|], |slots|), d, |slots|)
    requires forall e | 0 <= e < d :: FilledAt(slots, Probe(HomeOf(tokens[|at|], |slots|), e, |slots|))
    ensures Chained(slots[position := Some(RecordOf(tokens, |at|))], tokens, at + [position], dist + [d],
                    if d + 1 > maxProbe then d + 1 else maxProbe)
  {
    hide Probe, HomeOf, RecordOf;
  }

  lemma RecordedAfterInsert(slots: seq<Option<Slot>>, tokens: seq<seq<byte>>, at: seq<nat>, position: nat)
    requires Recorded(slots, tokens, at) && |at| < |tokens| && position < |slots| && slots[position].None?
    ensures Recorded(slots[position := Some(RecordOf(tokens, |at|))], tokens, at + [position])
  {
    hide HashFrom, Joined;
    var slots', at' := slots[position := Some(RecordOf(tokens, |at|))], at + [position];
    forall i | 0 <= i < |at'|
      ensures at'[i] < |slots'| && slots'[at'[i]] == Some(RecordOf(tokens, i))
    {
      assert i < |at| ==> slots[at[i]] == Some(RecordOf(tokens, i));
    }
  }

  // ----- building -----

  /** What a finished table promises about the tokens it was built from. */
  ghost predicate Indexes(t: Table, tokens: seq<seq<byte>>) {
    && t.strings == Joined(tokens) && FitsTokens(|t.slots|, |tokens|) && t.maxProbe <= |t.slots|
    && Distinct(tokens)
    && exists slots: seq<Option<Slot>>, at: seq<nat>, dist: seq<nat> ::
         && |at| == |tokens| && Stored(slots, tokens, at, dist, t.maxProbe)
         && |slots| == |t.slots| && (forall p | 0 <= p < |slots| :: t.slots[p] == Packed(slots[p]))
  }

  /** A slot as the file holds it: four little-endian 32-bit words. */
  function Packed(slot: Option<Slot>): Slot {
    match slot
    case None => Slot(0, 0, 0, SLOT_EMPTY)
    case Some(s) => Slot(s.hash % U32, s.off % U32, s.len % U32, s.id % U32)
  }

  /** `build`: None exactly when the vocabulary repeats a token; otherwise an index of it. */
  method Build(tokens: seq<seq<byte>>, quotient: real) returns (r: Option<Table>)
    requires RoundedQuotient(|tokens|, quotient)
    ensures r.Some? <==> Distinct(tokens)
    ensures r.Some? ==> Indexes(r.value, tokens)
  {
    TableSizeFits(|tokens|, quotient);
    var size := TableSize(quotient);
    assert |tokens| < size;
    hide TableSize, FitsTokens, RoundedQuotient, HomeOf, Probe, Stored, Packed, Indexes, Joined;
    var slots := new Option<Slot>[size](_ => None);
    NothingStored(slots[..], tokens);
    var strings: seq<byte> := [];
    assert strings == Joined(tokens[..0]) by { JoinedNothing(tokens); }
    var maxProbe := 0;
    ghost var at: seq<nat> := [];
    ghost var dist: seq<nat> := [];
    var id := 0;
    while id < |tokens|
      invariant 0 <= id <= |tokens| && |at| == id
      invariant Stored(slots[..], tokens, at, dist, maxProbe) && maxProbe <= size
      invariant strings == Joined(tokens[..id])
      invariant forall i, j | 0 <= i < j < id :: tokens[i] != tokens[j]
    {
      var offset := |strings|;
      strings := strings + tokens[id];
      JoinedNext(tokens, id);
      var probe := Insert(slots, tokens, offset, id, at, dist, maxProbe);
      if probe.None? {
        return None;
      }
      at := at + [Probe(HomeOf(tokens[id], size), probe.value - 1, size)];
      dist := dist + [probe.value - 1];
      if probe.value > maxProbe {
        maxProbe := probe.value;
      }
      id := id + 1;
    }
    assert tokens[..id] == tokens && strings == Joined(tokens);
    var packed := Pack(slots);
    r := Some(Table(packed, strings, maxProbe));
    BuiltIndexes(r.value, tokens, slots[..], at, dist);
  }

  lemma JoinedNothing(tokens: seq<seq<byte>>)
    ensures Joined(tokens[..0]) == []
  {
  }

  lemma JoinedNext(tokens: seq<seq<byte>>, id: nat)
    requires id < |tokens|
    ensures Joined(tokens[..id + 1]) == Joined(tokens[..id]) + tokens[id]
  {
    assert tokens[..id + 1][..id] == tokens[..id];
  }

  lemma BuiltIndexes(t: Table, tokens: seq<seq<byte>>, slots: seq<Option<Slot>>, at: seq<nat>, dist: seq<nat>)
    requires t.strings == Joined(tokens) && FitsTokens(|t.slots|, |tokens|) && t.maxProbe <= |t.slots|
    requires Distinct(tokens) && |at| == |tokens| && Stored(slots, tokens, at, dist, t.maxProbe)
    requires |slots| == |t.slots| && forall p | 0 <= p < |slots| :: t.slots[p] == Packed(slots[p])
    ensures Indexes(t, tokens)
  {
    hide Stored, Packed, Joined, FitsTokens;
  }

  lemma IndexedIsDistinct(t: Table, tokens: seq<seq<byte>>)
    requires Indexes(t, tokens)
    ensures Distinct(tokens)
  {
    hide Stored, Packed, Joined, FitsTokens;
  }

  lemma NothingStored(slots: seq<Option<Slot>>, tokens: seq<seq<byte>>)
    requires |slots| > 0 && forall p | 0 <= p < |slots| :: slots[p] == None
    ensures Stored(slots, tokens, [], [], 0)
  {
  }

  /** The section as 32-bit words, four a slot. */
  function SlotWords(slots: seq<Slot>): (r: seq<nat>)
    ensures |r| == 4 * |slots|
    ensures forall p | 0 <= p < |slots| ::
              && r[4 * p] == slots[p].hash && r[4 * p + 1] == slots[p].off
              && r[4 * p + 2] == slots[p].len && r[4 * p + 3] == slots[p].id
  {
    if slots == [] then []
    else
      var n := |slots| - 1;
      SlotWords(slots[..n]) + [slots[n].hash, slots[n].off, slots[n].len, slots[n].id]
  }

  /** The loader's view of the section. */
  function SlotsOf(words: seq<nat>): (r: seq<Slot>)
    requires |words| % 4 == 0
    ensures |r| == |words| / 4
  {
    seq(|words| / 4, p requires 0 <= p < |words| / 4 =>
      Slot(words[4 * p], words[4 * p + 1], words[4 * p + 2], words[4 * p + 3]))
  }

  lemma SlotsRoundTrip(slots: seq<Slot>)
    ensures SlotsOf(SlotWords(slots)) == slots
  {
    hide SlotWords;
  }

  predicate SlotFits(s: Slot) { s.hash < U32 && s.off < U32 && s.len < U32 && s.id < U32 }

  lemma {:induction false} SlotWordsFit(slots: seq<Slot>)
    requires forall p | 0 <= p < |slots| :: SlotFits(slots[p])
    ensures Fit32(SlotWords(slots))
  {
    if slots != [] { SlotWordsFit(slots[..|slots| - 1]); }
  }

  /** Every field of a built slot is a 32-bit word. */
  lemma IndexedFits(t: Table, tokens: seq<seq<byte>>)
    requires Indexes(t, tokens)
    ensures Fit32(SlotWords(t.slots))
  {
    forall p | 0 <= p < |t.slots| ensures SlotFits(t.slots[p]) { }
    SlotWordsFit(t.slots);
  }

  method Pack(slots: array<Option<Slot>>) returns (packed: seq<Slot>)
    ensures |packed| == slots.Length
    ensures forall p | 0 <= p < slots.Length :: packed[p] == Packed(slots[p])
  {
    packed := [];
    var p := 0;
    while p < slots.Length
      invariant 0 <= p <= slots.Length && |packed| == p
      invariant forall q | 0 <= q < p :: packed[q] == Packed(slots[q])
    {
      packed := packed + [Packed(slots[p])];
      p := p + 1;
    }
  }

  /** The writer's u32 fields hold: ids and string offsets fit 32 bits. */
  predicate FitsFormat(tokens: seq<seq<byte>>) {
    |tokens| < SLOT_EMPTY && |Joined(tokens)| < U32
  }

  // ----- the runtime lookup -----

  lemma SlotIsRecord(slots: seq<Option<Slot>>, tokens: seq<seq<byte>>, at: seq<nat>, dist: seq<nat>, maxProbe: nat,
                     p: nat)
    requires Stored(slots, tokens, at, dist, maxProbe) && |at| == |tokens| && p < |slots|
    ensures slots[p].Some? ==> var i := slots[p].value.id; i < |tokens| && slots[p].value == RecordOf(tokens, i)
  {
    hide HashFrom, Joined, Chained;
  }

  lemma PackedFits(slots: seq<Option<Slot>>, tokens: seq<seq<byte>>, at: seq<nat>, dist: seq<nat>, maxProbe: nat,
                   p: nat)
    requires Stored(slots, tokens, at, dist, maxProbe) && |at| == |tokens| && FitsFormat(tokens) && p < |slots|
    ensures slots[p].Some? ==> Packed(slots[p]) == slots[p].value && slots[p].value.id != SLOT_EMPTY
    ensures slots[p].Some? ==> var s := slots[p].value;
                               s.off + s.len <= |Joined(tokens)| && Joined(tokens)[s.off..s.off + s.len] == tokens[s.id]
                               && s.len == |tokens[s.id]| && s.hash == HashFrom(HASH_SEED, tokens[s.id])
    ensures slots[p].None? ==> Packed(slots[p]).id == SLOT_EMPTY
  {
    hide HashFrom, Joined, Stored;
    SlotIsRecord(slots, tokens, at, dist, maxProbe, p);
    if slots[p].Some? {
      var i := slots[p].value.id;
      JoinedSlice(tokens, i);
      HashBound(HASH_SEED, tokens[i]);
    }
  }

  /** The two byte comparisons of a probe: the token's head with the prefix, its rest with the body. */
  predicate TextMatches(t: Table, s: Slot, prefix: seq<byte>, body: seq<byte>)
    requires s.len == |prefix| + |body| && s.off + s.len <= |t.strings|
  {
    && t.strings[s.off..s.off + |prefix|] == prefix
    && t.strings[s.off + |prefix|..s.off + s.len] == body
  }

  lemma TextMatchesMeans(t: Table, s: Slot, prefix: seq<byte>, body: seq<byte>)
    requires s.len == |prefix| + |body| && s.off + s.len <= |t.strings|
    ensures TextMatches(t, s, prefix, body) <==> t.strings[s.off..s.off + s.len] == prefix + body
  {
    var token := t.strings[s.off..s.off + s.len];
    assert token[..|prefix|] == t.strings[s.off..s.off + |prefix|];
    assert token[|prefix|..] == t.strings[s.off + |prefix|..s.off + s.len];
    assert token == token[..|prefix|] + token[|prefix|..];
    assert (prefix + body)[..|prefix|] == prefix && (prefix + body)[|prefix|..] == body;
  }

  lemma TooLong(tokens: seq<seq<byte>>, key: seq<byte>)
    requires |Joined(tokens)| < |key|
    ensures key !in tokens
  {
    if key in tokens {
      var i :| 0 <= i < |tokens| && tokens[i] == key;
      JoinedSlice(tokens, i);
    }
  }

  /** `se_vocab_lookup_piece`: the id of prefix + body, or a miss for anything that is no token. */
  method LookupPiece(t: Table, tokens: seq<seq<byte>>, prefix: seq<byte>, body: seq<byte>) returns (r: Option<nat>)
    requires Indexes(t, tokens) && FitsFormat(tokens)
    ensures r == Find(tokens, prefix + body)
  {
    if |prefix| >= U32 || |body| >= U32 || |prefix| > U32 - 1 - |body| {
      TooLong(tokens, prefix + body);
      return None;
    }
    var h := HashContinue(HASH_SEED, prefix);
    h := HashContinue(h, body);
    HashConcat(HASH_SEED, prefix, body);
    r := ProbeFor(t, tokens, prefix, body, h);
  }

  /** The probe loop of the lookup, for a key whose hash is h. */
  method ProbeFor(t: Table, tokens: seq<seq<byte>>, prefix: seq<byte>, body: seq<byte>, h: nat) returns (r: Option<nat>)
    requires Indexes(t, tokens) && FitsFormat(tokens) && h == HashFrom(HASH_SEED, prefix + body)
    ensures r == Find(tokens, prefix + body)
  {
    hide HashFrom, Joined, Stored, Find, TextMatches;
    ghost var key := prefix + body;
    ghost var slots: seq<Option<Slot>>, at: seq<nat>, dist: seq<nat> :|
      |at| == |tokens| && Stored(slots, tokens, at, dist, t.maxProbe)
      && |slots| == |t.slots| && (forall p | 0 <= p < |slots| :: t.slots[p] == Packed(slots[p]));
    StoredLengths(slots, tokens, at, dist, t.maxProbe);
    hide FitsFormat, Packed;
    var size := |t.slots|;
    var pos := h % size;
    ghost var home := pos;
    var probe := 0;
    while probe < t.maxProbe
      invariant 0 <= probe <= t.maxProbe && pos < size && pos == Probe(home, probe, size)
      invariant forall i | 0 <= i < |tokens| && tokens[i] == key :: dist[i] >= probe
    {
      var slot := t.slots[pos];
      PackedFits(slots, tokens, at, dist, t.maxProbe, pos);
      OnTheWay(slots, tokens, at, dist, t.maxProbe, key, probe);
      if slot.id == SLOT_EMPTY {
        return None;
      }
      AtPosition(slots, tokens, at, dist, t.maxProbe, pos);
      if slot.hash == h && slot.len == |prefix| + |body| {
        TextMatchesMeans(t, slot, prefix, body);
        if TextMatches(t, slot, prefix, body) {
          FindUnique(tokens, key, slot.id);
          return Some(slot.id);
        }
      }
      pos := Succ(pos, size);
      probe := probe + 1;
    }
    r := None;
  }

  lemma {:induction false} FindUnique(tokens: seq<seq<byte>>, key: seq<byte>, i: nat)
    requires Distinct(tokens) && i < |tokens| && tokens[i] == key
    ensures Find(tokens, key) == Some(i)
  {
    if i > 0 {
      assert tokens[1..][i - 1] == key;
      FindUnique(tokens[1..], key, i - 1);
    }
  }

  // ----- the loader's two validation passes -----

  /** Every id below vocabSize sits in exactly one slot, and every slot's string is in bounds. */
  ghost predicate SlotsWellFormed(t: Table, vocabSize: nat) {
    && (forall p | 0 <= p < |t.slots| && t.slots[p].id != SLOT_EMPTY ::
          t.slots[p].id < vocabSize && t.slots[p].off + t.slots[p].len <= |t.strings|)
    && (forall p, q | 0 <= p < q < |t.slots| && t.slots[p].id != SLOT_EMPTY :: t.slots[p].id != t.slots[q].id)
    && (forall id | 0 <= id < vocabSize :: HasSlot(t, id))
  }

  ghost predicate HasSlot(t: Table, id: nat) { exists p :: 0 <= p < |t.slots| && t.slots[p].id == id }

  /** What the pass knows after the first i slots; `ids` are the ids marked as seen. */
  ghost predicate SlotsSoFar(t: Table, vocabSize: nat, i: nat, ids: set<nat>)
    requires i <= |t.slots|
  {
    && (forall p | 0 <= p < i && t.slots[p].id != SLOT_EMPTY ::
          t.slots[p].id in ids && t.slots[p].off + t.slots[p].len <= |t.strings|)
    && (forall p, q | 0 <= p < q < i && t.slots[p].id != SLOT_EMPTY :: t.slots[p].id != t.slots[q].id)
    && (forall id | id in ids :: id < vocabSize && exists p :: 0 <= p < i && t.slots[p].id == id)
  }

  lemma SlotsNext(t: Table, vocabSize: nat, i: nat, ids: set<nat>)
    requires vocabSize < SLOT_EMPTY && i < |t.slots| && SlotsSoFar(t, vocabSize, i, ids)
    ensures t.slots[i].id == SLOT_EMPTY ==> SlotsSoFar(t, vocabSize, i + 1, ids)
    ensures var s := t.slots[i];
            s.id < vocabSize && s.off + s.len <= |t.strings| && s.id !in ids ==>
                SlotsSoFar(t, vocabSize, i + 1, ids + {s.id})
  {
    var s := t.slots[i];
    if s.id == SLOT_EMPTY || (s.id < vocabSize && s.off + s.len <= |t.strings| && s.id !in ids) {
      var more := if s.id == SLOT_EMPTY then ids else ids + {s.id};
      forall id | id in more
        ensures exists p :: 0 <= p < i + 1 && t.slots[p].id == id
      {
        if id in ids {
          var p :| 0 <= p < i && t.slots[p].id == id;
        } else {
          assert t.slots[i].id == id;
        }
      }
    }
  }

  lemma SlotRejected(t: Table, vocabSize: nat, i: nat, ids: set<nat>)
    requires i < |t.slots| && SlotsSoFar(t, vocabSize, i, ids) && t.slots[i].id != SLOT_EMPTY
    requires t.slots[i].id >= vocabSize || t.slots[i].off + t.slots[i].len > |t.strings| || t.slots[i].id in ids
    ensures !SlotsWellFormed(t, vocabSize)
  {
    if t.slots[i].id in ids {
      var p :| 0 <= p < i && t.slots[p].id == t.slots[i].id;
    }
  }

  method ValidateSlots(t: Table, vocabSize: nat) returns (ok: bool)
    requires vocabSize < SLOT_EMPTY
    ensures ok <==> SlotsWellFormed(t, vocabSize)
  {
    hide UpTo, SlotsSoFar, SlotsWellFormed;
    var seen := new bool[vocabSize](_ => false);
    var filled := 0;
    ghost var ids: set<nat> := {};
    assert SlotsSoFar(t, vocabSize, 0, ids) by { NothingSeen(t, vocabSize); }
    var i := 0;
    while i < |t.slots|
      invariant 0 <= i <= |t.slots| && filled == |ids|
      invariant SlotsSoFar(t, vocabSize, i, ids)
      invariant forall id | 0 <= id < vocabSize :: seen[id] <==> id in ids
    {
      var slot := t.slots[i];
      SlotsNext(t, vocabSize, i, ids);
      if slot.id != SLOT_EMPTY {
        if slot.id >= vocabSize || slot.off + slot.len > |t.strings| || seen[slot.id] {
          SlotRejected(t, vocabSize, i, ids);
          return false;
        }
        seen[slot.id] := true;
        ids := ids + {slot.id};
        filled := filled + 1;
      }
      i := i + 1;
    }
    AllSeen(t, vocabSize, ids);
    ok := filled == vocabSize;
  }

  lemma NothingSeen(t: Table, vocabSize: nat)
    ensures SlotsSoFar(t, vocabSize, 0, {})
  {
  }

  /** At the end the table is well formed exactly when as many ids were seen as there are tokens. */
  lemma AllSeen(t: Table, vocabSize: nat, ids: set<nat>)
    requires vocabSize < SLOT_EMPTY && SlotsSoFar(t, vocabSize, |t.slots|, ids)
    ensures |ids| == vocabSize <==> SlotsWellFormed(t, vocabSize)
  {
    hide SlotsSoFar, SlotsWellFormed, HasSlot;
    SeenHaveSlots(t, vocabSize, ids);
    if |ids| == vocabSize {
      SubsetOfFullSize(ids, UpTo(vocabSize));
    } else {
      assert ids != UpTo(vocabSize);
      var id :| id in UpTo(vocabSize) && id !in ids;
      assert !HasSlot(t, id);
    }
  }

  lemma SeenHaveSlots(t: Table, vocabSize: nat, ids: set<nat>)
    requires vocabSize < SLOT_EMPTY && SlotsSoFar(t, vocabSize, |t.slots|, ids)
    ensures ids <= UpTo(vocabSize) && forall id | 0 <= id < vocabSize :: HasSlot(t, id) <==> id in ids
    ensures SlotsWellFormed(t, vocabSize) <==> forall id | 0 <= id < vocabSize :: HasSlot(t, id)
  {
    forall id | 0 <= id < vocabSize
      ensures HasSlot(t, id) <==> id in ids
    {
      if HasSlot(t, id) { var p :| 0 <= p < |t.slots| && t.slots[p].id == id; }
    }
    hide HasSlot;
  }

  lemma SubsetOfFullSize(a: set<nat>, b: set<nat>)
    requires a <= b && |a| == |b|
    ensures a == b
  {
    if a != b {
      var x :| x in b && x !in a;
      assert a <= b - {x};
      SubsetCardinality(a, b - {x});
    }
  }

  lemma {:induction false} SubsetCardinality(a: set<nat>, b: set<nat>)
    requires a <= b
    ensures |a| <= |b|
  {
    if a != {} {
      var x :| x in a;
      SubsetCardinality(a - {x}, b - {x});
    }
  }

  ghost predicate WithinProbeLimit(t: Table) {
    forall p | 0 <= p < |t.slots| && t.slots[p].id != SLOT_EMPTY ::
      exists d :: 0 <= d < t.maxProbe && Probe(t.slots[p].hash % |t.slots|, d, |t.slots|) == p
  }

  method ValidateProbeLimits(t: Table) returns (ok: bool)
    requires t.maxProbe > 0
    ensures ok <==> WithinProbeLimit(t)
  {
    var i := 0;
    while i < |t.slots|
      invariant 0 <= i <= |t.slots|
      invariant forall p | 0 <= p < i && t.slots[p].id != SLOT_EMPTY ::
                  exists d :: 0 <= d < t.maxProbe && Probe(t.slots[p].hash % |t.slots|, d, |t.slots|) == p
    {
      var size := |t.slots|;
      if t.slots[i].id != SLOT_EMPTY {
        var pos := t.slots[i].hash % size;
        ghost var home := pos;
        var probes := 1;
        while pos != i
          invariant 1 <= probes <= t.maxProbe
          invariant pos == Probe(home, probes - 1, size)
          invariant forall d | 0 <= d < probes - 1 :: Probe(home, d, size) != i
          decreases t.maxProbe - probes
        {
          probes := probes + 1;
          pos := Succ(pos, size);
          if probes > t.maxProbe {
            return false;
          }
        }
        assert Probe(home, probes - 1, size) == i;
      }
      i := i + 1;
    }
    ok := true;
  }

  /** Both passes accept every table the builder makes. */
  lemma BuiltTableIsAccepted(t: Table, tokens: seq<seq<byte>>)
    requires Indexes(t, tokens) && FitsFormat(tokens)
    ensures SlotsWellFormed(t, |tokens|) && WithinProbeLimit(t)
    ensures tokens != [] ==> 0 < t.maxProbe <= |t.slots|
  {
    var slots: seq<Option<Slot>>, at: seq<nat>, dist: seq<nat> :| |at| == |tokens|
        && Stored(slots, tokens, at, dist, t.maxProbe)
                           && |slots| == |t.slots| && (forall p | 0 <= p < |slots| :: t.slots[p] == Packed(slots[p]));
    forall p | 0 <= p < |t.slots|
      ensures t.slots[p].id != SLOT_EMPTY ==> slots[p].Some? && t.slots[p] == slots[p].value
      ensures t.slots[p].id != SLOT_EMPTY ==> t.slots[p].off + t.slots[p].len <= |t.strings|
    {
      PackedFits(slots, tokens, at, dist, t.maxProbe, p);
    }
    forall id | 0 <= id < |tokens|
      ensures HasSlot(t, id)
    {
      PackedFits(slots, tokens, at, dist, t.maxProbe, at[id]);
      assert t.slots[at[id]].id == id;
    }
    forall p | 0 <= p < |t.slots| && t.slots[p].id != SLOT_EMPTY
      ensures exists d :: 0 <= d < t.maxProbe && Probe(t.slots[p].hash % |t.slots|, d, |t.slots|) == p
    {
      var i := slots[p].value.id;
      assert Probe(HomeOf(tokens[i], |slots|), dist[i], |slots|) == p;
    }
    if tokens != [] { assert dist[0] < t.maxProbe; }
  }
}
