/** Fixed-width little-endian words in byte strings, and the constants the sections of the file share. */
module Words {
  import opened Utf8

  const SLOT_EMPTY: nat := 0xFFFF_FFFF
  const HASH_SEED: nat := 2_166_136_261

  type Half = x: nat | x < 0x1_0000
  type Word32 = x: nat | x < 0x1_0000_0000
  type Word64 = x: nat | x < 0x1_0000_0000_0000_0000

  function Pow2(n: nat): (r: nat)
    ensures r > 0
  {
    if n == 0 then 1 else 2 * Pow2(n - 1)
  }

  function Le16(a: nat, b: nat): (r: Half)
    requires a < 0x100 && b < 0x100
  {
    a + 0x100 * b
  }

  function Le32(a: nat, b: nat, c: nat, d: nat): (r: Word32)
    requires a < 0x100 && b < 0x100 && c < 0x100 && d < 0x100
  {
    a + 0x100 * b + 0x1_0000 * c + 0x100_0000 * d
  }

  /** `read_u16le` of the i-th half. */
  function HalfAt(s: seq<byte>, i: nat): (r: Half)
    requires 2 * i + 2 <= |s|
  {
    Le16(s[2 * i], s[2 * i + 1])
  }

  /** `read_u32` */
  function ReadU32(base: seq<byte>, off: nat): (r: Word32)
    requires off + 4 <= |base|
  {
    Le32(base[off], base[off + 1], base[off + 2], base[off + 3])
  }

  /** `read_u64` */
  function ReadU64(base: seq<byte>, off: nat): (r: Word64)
    requires off + 8 <= |base|
  {
    ReadU32(base, off) + 0x1_0000_0000 * ReadU32(base, off + 4)
  }

  lemma Le16Splits(a: nat, b: nat)
    requires a < 0x100 && b < 0x100
    ensures Le16(a, b) % 0x100 == a && Le16(a, b) / 0x100 == b
  {
  }

  /** The four bytes of a word. */
  function Bytes32(x: Word32): (r: seq<byte>)
    ensures |r| == 4 && Le32(r[0], r[1], r[2], r[3]) == x
  {
    var y := x / 0x100;
    var z := y / 0x100;
    [x % 0x100, y % 0x100, z % 0x100, z / 0x100]
  }

  /** The eight bytes of a word: the lower half first. */
  function Bytes64(x: Word64): (r: seq<byte>)
    ensures |r| == 8 && ReadU32(r, 0) == x % 0x1_0000_0000 && ReadU32(r, 4) == x / 0x1_0000_0000
  {
    hide Bytes32;
    Bytes32(x % 0x1_0000_0000) + Bytes32(x / 0x1_0000_0000)
  }

  /** `pack("V*")`, for words that fit. */
  function WordsBytes(words: seq<Word32>): (r: seq<byte>)
    ensures |r| == 4 * |words|
  {
    if words == [] then [] else WordsBytes(words[..|words| - 1]) + Bytes32(words[|words| - 1])
  }

  /** The section as an array of words. */
  function ReadWords(bytes: seq<byte>): (r: seq<Word32>)
    requires |bytes| % 4 == 0
    ensures |r| == |bytes| / 4
  {
    seq(|bytes| / 4, i requires 0 <= i < |bytes| / 4 => ReadU32(bytes, 4 * i))
  }

  lemma {:induction false} WordWritten(words: seq<Word32>, i: nat)
    requires i < |words|
    ensures ReadU32(WordsBytes(words), 4 * i) == words[i]
  {
    hide Bytes32;
    var n := |words| - 1;
    var front, last := WordsBytes(words[..n]), Bytes32(words[n]);
    if i < n {
      WordWritten(words[..n], i);
      assert forall k | 4 * i <= k < 4 * i + 4 :: (front + last)[k] == front[k];
    } else {
      assert forall k | 0 <= k < 4 :: (front + last)[4 * n + k] == last[k];
    }
  }

  /** Words written are read back. */
  lemma WordsRoundTrip(words: seq<Word32>)
    ensures ReadWords(WordsBytes(words)) == words
  {
    hide WordsBytes;
    forall i: nat | i < |words| ensures ReadWords(WordsBytes(words))[i] == words[i] { WordWritten(words, i); }
  }

  predicate Fit32(words: seq<nat>) { forall i | 0 <= i < |words| :: words[i] < 0x1_0000_0000 }

  /** Bitwise and. */
  function And(a: nat, b: nat): nat {
    if a == 0 || b == 0 then 0 else (if a % 2 == 1 && b % 2 == 1 then 1 else 0) + 2 * And(a / 2, b / 2)
  }

  ghost predicate IsPowerOfTwo(n: nat) { exists k: nat :: n == Pow2(k) }

  /** n & (n - 1) is zero for the powers of two and for nothing else. */
  lemma {:induction false} PowersOfTwo(n: nat)
    requires n > 0
    ensures And(n, n - 1) == 0 <==> IsPowerOfTwo(n)
  {
    if n == 1 {
      assert n == Pow2(0);
    } else if n % 2 == 1 {
      forall k: nat ensures n != Pow2(k) { assert k == 0 || Pow2(k) == 2 * Pow2(k - 1); }
      if n / 2 > 0 { AndSelf(n / 2); }
    } else {
      PowersOfTwo(n / 2);
      assert (n - 1) / 2 == n / 2 - 1;
      assert And(n, n - 1) == 2 * And(n / 2, n / 2 - 1);
      if And(n, n - 1) == 0 {
        var k: nat :| n / 2 == Pow2(k);
        assert n == Pow2(k + 1) && IsPowerOfTwo(n);
      } else {
        forall k: nat ensures n != Pow2(k) { PowHalves(k); }
      }
    }
  }

  lemma PowHalves(k: nat)
    ensures k > 0 ==> Pow2(k) / 2 == Pow2(k - 1)
  {
  }

  lemma {:induction false} AndSelf(n: nat)
    ensures And(n, n) == n
  {
    if n > 0 { AndSelf(n / 2); }
  }
}
