/** The streamed matrix payloads: safetensors.rb converts the element type, weighted_payload.rb scales
    the rows, row_prefix_payload.rb cuts their dimension. Each passes chunks on as they come.

    The conversion of one half and the scaling of one row are parameters; IO is a byte string.
  */
module Payloads {
  import opened Utf8
  import opened Words
  import HalfFloat

  const IO_CHUNK_BYTES: nat := 0x10_0000
  const CONVERT_CHUNK_BYTES: nat := 0x2_0000
  const ROWS_PER_CHUNK: nat := 1024
  const FLOAT_BYTES: nat := 4

  function Concat(chunks: seq<seq<byte>>): seq<byte> {
    if chunks == [] then [] else Concat(chunks[..|chunks| - 1]) + chunks[|chunks| - 1]
  }

  lemma ConcatNext(chunks: seq<seq<byte>>, chunk: seq<byte>)
    ensures Concat(chunks + [chunk]) == Concat(chunks) + chunk
  {
    assert (chunks + [chunk])[..|chunks|] == chunks;
  }

  /** Chunks of a stream, or the error it raises. */
  datatype Stream = Chunks(chunks: seq<seq<byte>>) | Raised

  // ----- element conversion -----

  datatype Dtype = F32 | F16 | BF16

  function FromBf16(h: Half): Word32 { h * 0x1_0000 }

  /** A bfloat16 has the sign and the exponent of the binary32 it becomes, and the upper seven bits of its
      fraction. */
  lemma Bf16IsExact(h: Half)
    ensures HalfFloat.Sign32(FromBf16(h)) == h / 0x8000 && HalfFloat.Exp32(FromBf16(h)) == h / 0x80 % 0x100
    ensures HalfFloat.Mant32(FromBf16(h)) == h % 0x80 * 0x1_0000
  {
    var sign, exp, mant := h / 0x8000, h / 0x80 % 0x100, h % 0x80;
    assert h == sign * 0x8000 + exp * 0x80 + mant;
    assert FromBf16(h) == sign * 0x8000_0000 + exp * 0x80_0000 + mant * 0x1_0000;
  }

  /** Every half converted, little-endian; a trailing odd byte is no half. */
  function Widened(f: Half -> Word32, bytes: seq<byte>): seq<byte>
    decreases |bytes|
  {
    hide Bytes32;
    if |bytes| < 2 then [] else Bytes32(f(Le16(bytes[0], bytes[1]))) + Widened(f, bytes[2..])
  }

  lemma {:induction false} WidenedConcat(f: Half -> Word32, a: seq<byte>, b: seq<byte>)
    requires |a| % 2 == 0
    ensures Widened(f, a + b) == Widened(f, a) + Widened(f, b)
    decreases |a|
  {
    hide Bytes32;
    if a == [] {
      assert a + b == b;
    } else {
      assert (a + b)[2..] == a[2..] + b;
      WidenedConcat(f, a[2..], b);
    }
  }

  /** `convert_f16_to_f32` and `convert_bf16_to_f32`; `strict` is the decoder that rejects an odd byte. */
  method Widen(f: Half -> Word32, strict: bool, bytes: seq<byte>) returns (ok: bool, out: seq<byte>)
    ensures ok <==> !(strict && |bytes| % 2 == 1)
    ensures ok ==> out == Widened(f, bytes)
  {
    hide Widened;
    out := [];
    var offset: nat := 0;
    assert Widened(f, bytes[..0]) == [] by { WidenedNothing(f); }
    while offset < |bytes|
      invariant offset <= |bytes| && (offset < |bytes| ==> offset % 2 == 0) && out == Widened(f, bytes[..offset])
      invariant strict ==> offset % 2 == 0
    {
      var size: nat := if CONVERT_CHUNK_BYTES < |bytes| - offset then CONVERT_CHUNK_BYTES else |bytes| - offset;
      var chunk := bytes[offset..offset + size];
      if strict && |chunk| % 2 != 0 {
        return false, [];
      }
      var words := WidenChunk(f, chunk);
      WidenedConcat(f, bytes[..offset], chunk);
      assert bytes[..offset] + chunk == bytes[..offset + size];
      out := out + words;
      offset := offset + size;
    }
    assert bytes[..offset] == bytes;
    ok := true;
  }

  lemma WidenedNothing(f: Half -> Word32)
    ensures Widened(f, []) == []
  {
  }

  /** `unpack("v*")`, map, `pack("V*")` */
  method WidenChunk(f: Half -> Word32, chunk: seq<byte>) returns (out: seq<byte>)
    ensures out == Widened(f, chunk)
  {
    hide Bytes32;
    out := [];
    var i: nat := 0;
    while i + 1 < |chunk|
      invariant i <= |chunk| && i % 2 == 0 && out == Widened(f, chunk[..i])
    {
      WidenedConcat(f, chunk[..i], chunk[i..i + 2]);
      assert chunk[..i] + chunk[i..i + 2] == chunk[..i + 2] && chunk[i..i + 2][2..] == [];
      out := out + Bytes32(f(Le16(chunk[i], chunk[i + 1])));
      i := i + 2;
    }
    WidenedConcat(f, chunk[..i], chunk[i..]);
    assert chunk[..i] + chunk[i..] == chunk && Widened(f, chunk[i..]) == [] && out + [] == out;
  }

  function Converted(dtype: Dtype, half: Half -> Word32, bytes: seq<byte>): seq<byte> {
    match dtype
    case F32 => bytes
    case F16 => Widened(half, bytes)
    case BF16 => Widened(FromBf16, bytes)
  }

  lemma {:induction false} WidenedSize(f: Half -> Word32, bytes: seq<byte>)
    ensures |Widened(f, bytes)| == |bytes| / 2 * 4
    decreases |bytes|
  {
    if |bytes| >= 2 { WidenedSize(f, bytes[2..]); }
  }

  lemma WordBehind(first: seq<byte>, rest: seq<byte>, at: nat)
    requires |first| == 4 && at + 4 <= |rest|
    ensures ReadU32(first + rest, at + 4) == ReadU32(rest, at)
  {
    hide Le32;
  }

  lemma HalfBehind(bytes: seq<byte>, i: nat)
    requires i > 0 && 2 * i + 2 <= |bytes|
    ensures HalfAt(bytes, i) == HalfAt(bytes[2..], i - 1)
  {
    hide Le16;
  }

  /** Word i of the output is the i-th little-endian half, converted. */
  lemma {:induction false} WidenedAt(f: Half -> Word32, bytes: seq<byte>, i: nat)
    requires 2 * i + 2 <= |bytes|
    ensures 4 * i + 4 <= |Widened(f, bytes)| && ReadU32(Widened(f, bytes), 4 * i) == f(HalfAt(bytes, i))
    decreases i
  {
    var first, rest := Bytes32(f(HalfAt(bytes, 0))), Widened(f, bytes[2..]);
    assert Widened(f, bytes) == first + rest;
    hide Bytes32, Widened, Le16, HalfAt;
    if i > 0 {
      WidenedAt(f, bytes[2..], i - 1);
      HalfBehind(bytes, i);
      WordBehind(first, rest, 4 * (i - 1));
    } else {
      FirstWord(first, rest);
    }
  }

  lemma FirstWord(first: seq<byte>, rest: seq<byte>)
    requires |first| == 4
    ensures ReadU32(first + rest, 0) == ReadU32(first, 0)
  {
    hide Le32;
  }

  function ElementBytes(dtype: Dtype): nat { if dtype == F32 then 4 else 2 }

  /** The size of a converted tensor that takes `sourceBytes` in the file. */
  function ConvertedBytes(dtype: Dtype, sourceBytes: nat): nat {
    if dtype == F32 then sourceBytes else sourceBytes / 2 * 4
  }

  /** What becomes of an element: a float stays, a binary16 is decoded by the given decoder, and a bfloat16 is the
      upper half of its word. */
  lemma ConvertedAt(dtype: Dtype, half: Half -> Word32, bytes: seq<byte>, i: nat)
    requires (i + 1) * ElementBytes(dtype) <= |bytes|
    ensures var out := Converted(dtype, half, bytes);
            && 4 * i + 4 <= |out|
            && ReadU32(out, 4 * i) == match dtype
                                      case F32 => ReadU32(bytes, 4 * i)
                                      case F16 => half(HalfAt(bytes, i))
                                      case BF16 => HalfAt(bytes, i) * 0x1_0000
  {
    if dtype != F32 {
      WidenedAt(half, bytes, i);
      WidenedAt(FromBf16, bytes, i);
    }
    hide Widened;
  }

  lemma ConvertedSize(dtype: Dtype, half: Half -> Word32, bytes: seq<byte>)
    ensures |Converted(dtype, half, bytes)| == ConvertedBytes(dtype, |bytes|)
  {
    WidenedSize(half, bytes);
    WidenedSize(FromBf16, bytes);
  }

  /** The announced size: four bytes for each of `count` elements. */
  lemma AnnouncedSize(dtype: Dtype, half: Half -> Word32, bytes: seq<byte>, count: nat)
    requires |bytes| == count * ElementBytes(dtype)
    ensures |Converted(dtype, half, bytes)| == count * 4
  {
    hide Converted;
    ConvertedSize(dtype, half, bytes);
  }

  lemma ConvertedConcat(dtype: Dtype, half: Half -> Word32, a: seq<byte>, b: seq<byte>)
    requires dtype != F32 ==> |a| % 2 == 0
    ensures Converted(dtype, half, a + b) == Converted(dtype, half, a) + Converted(dtype, half, b)
  {
    match dtype
    case F32 =>
    case F16 => WidenedConcat(half, a, b);
    case BF16 => WidenedConcat(FromBf16, a, b);
  }

  /** `F32Payload#each_chunk`; `body` is the file from the tensor on, perhaps cut short. The chunks
      together are the whole tensor converted at once. */
  method EachConverted(body: seq<byte>, sourceBytes: nat, dtype: Dtype, half: Half -> Word32) returns (r: Stream)
    ensures r.Raised? <==> |body| < sourceBytes || (dtype == F16 && sourceBytes % 2 == 1)
    ensures r.Chunks? ==> Concat(r.chunks) == Converted(dtype, half, body[..sourceBytes])
    ensures r.Chunks? ==> |Concat(r.chunks)| == ConvertedBytes(dtype, sourceBytes)
  {
    hide Converted, Concat, ConvertedBytes;
    var chunks: seq<seq<byte>> := [];
    var remaining: nat := sourceBytes;
    var at: nat := 0;
    assert Concat(chunks) == Converted(dtype, half, body[..0]) by { NothingConverted(dtype, half); }
    while remaining > 0
      invariant at + remaining == sourceBytes && at <= |body| && (dtype != F32 && remaining > 0 ==> at % 2 == 0)
      invariant dtype == F16 ==> at % 2 == 0
      invariant Concat(chunks) == Converted(dtype, half, body[..at])
    {
      var readSize: nat := if remaining < IO_CHUNK_BYTES then remaining else IO_CHUNK_BYTES;
      if dtype != F32 && readSize % 2 == 1 {
        readSize := readSize - 1;
      }
      if readSize == 0 {
        readSize := remaining;
      }
      if |body| - at < readSize {
        return Raised;
      }
      var chunk := body[at..at + readSize];
      var ok, out := ConvertChunk(dtype, half, chunk);
      if !ok {
        return Raised;
      }
      ConvertedConcat(dtype, half, body[..at], chunk);
      assert body[..at] + chunk == body[..at + readSize];
      ConcatNext(chunks, out);
      chunks := chunks + [out];
      at, remaining := at + readSize, remaining - readSize;
    }
    ConvertedSize(dtype, half, body[..sourceBytes]);
    r := Chunks(chunks);
  }

  lemma NothingConverted(dtype: Dtype, half: Half -> Word32)
    ensures Concat([]) == Converted(dtype, half, [])
  {
    match dtype
    case F32 =>
    case F16 => WidenedNothing(half);
    case BF16 => WidenedNothing(FromBf16);
  }

  method ConvertChunk(dtype: Dtype, half: Half -> Word32, chunk: seq<byte>) returns (ok: bool, out: seq<byte>)
    ensures ok <==> !(dtype == F16 && |chunk| % 2 == 1)
    ensures ok ==> out == Converted(dtype, half, chunk)
  {
    match dtype
    case F32 => ok, out := true, chunk;
    case F16 => ok, out := Widen(half, true, chunk);
    case BF16 => ok, out := Widen(FromBf16, false, chunk);
  }

  // ----- rows -----

  /** Row i mapped by f(i, _), for every whole row, the first being row `start`. */
  function Rows(f: (nat, seq<byte>) -> seq<byte>, rowBytes: nat, start: nat, data: seq<byte>): seq<byte>
    requires rowBytes > 0
    decreases |data|
  {
    if |data| < rowBytes then [] else f(start, data[..rowBytes]) + Rows(f, rowBytes, start + 1, data[rowBytes..])
  }

  lemma {:induction false} RowsConcat(f: (nat, seq<byte>) -> seq<byte>, rowBytes: nat, start: nat, n: nat,
                                      a: seq<byte>, b: seq<byte>)
    requires rowBytes > 0 && |a| == n * rowBytes
    ensures Rows(f, rowBytes, start, a + b) == Rows(f, rowBytes, start, a) + Rows(f, rowBytes, start + n, b)
    decreases n
  {
    if n == 0 {
      assert a + b == b;
    } else {
      assert n * rowBytes == (n - 1) * rowBytes + rowBytes;
      assert (a + b)[rowBytes..] == a[rowBytes..] + b && (a + b)[..rowBytes] == a[..rowBytes];
      RowsConcat(f, rowBytes, start + 1, n - 1, a[rowBytes..], b);
    }
  }

  /** Rows of equal size give output of the announced size. */
  lemma {:induction false} RowsSize(f: (nat, seq<byte>) -> seq<byte>, rowBytes: nat, start: nat, n: nat,
                                    data: seq<byte>, size: nat)
    requires rowBytes > 0 && |data| == n * rowBytes
    requires forall i: nat, row: seq<byte> | |row| == rowBytes :: |f(i, row)| == size
    ensures |Rows(f, rowBytes, start, data)| == n * size
    decreases n
  {
    if n > 0 {
      assert n * rowBytes == (n - 1) * rowBytes + rowBytes && n * size == (n - 1) * size + size;
      RowsSize(f, rowBytes, start + 1, n - 1, data[rowBytes..], size);
    }
  }

  /** A streamed payload between two chunks: the rows of the first `index * rowBytes` bytes are out,
      the rest is held back. */
  ghost predicate Held(f: (nat, seq<byte>) -> seq<byte>, rowBytes: nat, seen: seq<byte>, index: nat,
                       remainder: seq<byte>, out: seq<byte>)
    requires rowBytes > 0
  {
    && |remainder| < rowBytes && |seen| == index * rowBytes + |remainder|
    && remainder == seen[index * rowBytes..]
    && out == Rows(f, rowBytes, 0, seen[..index * rowBytes])
  }

  /** Taking in a chunk: n more whole rows go out. */
  lemma HeldNext(f: (nat, seq<byte>) -> seq<byte>, rowBytes: nat, seen: seq<byte>, index: nat,
                 remainder: seq<byte>, out: seq<byte>, chunk: seq<byte>, n: nat)
    requires rowBytes > 0 && Held(f, rowBytes, seen, index, remainder, out)
    requires n == |remainder + chunk| / rowBytes
    ensures n * rowBytes <= |remainder + chunk| < n * rowBytes + rowBytes
    ensures var data := remainder + chunk;
            Held(f, rowBytes, seen + chunk, index + n, data[n * rowBytes..],
                    out + Rows(f, rowBytes, index, data[..n * rowBytes]))
  {
    var data := remainder + chunk;
    Division(|data|, rowBytes);
    var done, more := seen[..index * rowBytes], data[..n * rowBytes];
    assert (index + n) * rowBytes == index * rowBytes + n * rowBytes;
    assert seen + chunk == done + data;
    assert (seen + chunk)[..(index + n) * rowBytes] == done + more;
    RowsConcat(f, rowBytes, 0, index, done, more);
    hide Rows;
  }

  lemma Division(a: nat, b: nat)
    requires b > 0
    ensures a / b * b <= a < a / b * b + b
  {
  }

  /** At the end all rows are out exactly when nothing is held back. */
  lemma HeldAll(f: (nat, seq<byte>) -> seq<byte>, rowBytes: nat, seen: seq<byte>, index: nat,
                remainder: seq<byte>, out: seq<byte>)
    requires rowBytes > 0 && Held(f, rowBytes, seen, index, remainder, out)
    ensures remainder == [] <==> |seen| % rowBytes == 0
    ensures remainder == [] ==> out == Rows(f, rowBytes, 0, seen) && |seen| == index * rowBytes
  {
    hide Rows;
    Remainder(index, rowBytes, |remainder|);
    if remainder == [] { assert seen[..index * rowBytes] == seen; }
  }

  lemma Remainder(n: nat, b: nat, r: nat)
    requires r < b
    ensures (n * b + r) % b == r && (n * b + r) / b == n
  {
    var d, m := (n * b + r) / b, (n * b + r) % b;
    assert d * b + m == n * b + r;
    var k: int := (d as int) - n;
    assert k * b == (r as int) - m;
    Multiple(k, b);
  }

  lemma Multiple(k: int, b: nat)
    ensures k >= 1 ==> k * b >= b
    ensures k <= -1 ==> k * b + b <= 0
  {
  }

  datatype Result = Emitted(chunks: seq<seq<byte>>) | Truncated | NoWeight

  /** A row scaled by its weight. */
  function Scaled<W(!new)>(scale: (seq<byte>, W) -> seq<byte>, weights: seq<W>): (nat, seq<byte>) -> seq<byte> {
    (i: nat, row: seq<byte>) => if i < |weights| then scale(row, weights[i]) else row
  }

  lemma HeldNone(f: (nat, seq<byte>) -> seq<byte>, rowBytes: nat)
    requires rowBytes > 0
    ensures Held(f, rowBytes, Concat([]), 0, [], Concat([]))
  {
  }

  lemma RowsNone(f: (nat, seq<byte>) -> seq<byte>, rowBytes: nat, start: nat)
    requires rowBytes > 0
    ensures Rows(f, rowBytes, start, []) == []
  {
  }

  lemma ConcatStep(chunks: seq<seq<byte>>, c: nat)
    requires c < |chunks|
    ensures Concat(chunks[..c + 1]) == Concat(chunks[..c]) + chunks[c]
  {
    assert chunks[..c + 1][..c] == chunks[..c];
  }

  lemma {:induction false} ConcatGrows(chunks: seq<seq<byte>>, c: nat)
    requires c <= |chunks|
    ensures |Concat(chunks[..c])| <= |Concat(chunks)|
    decreases |chunks|
  {
    if c < |chunks| {
      ConcatGrows(chunks[..|chunks| - 1], c);
      assert chunks[..|chunks| - 1][..c] == chunks[..c];
    } else {
      assert chunks[..c] == chunks;
    }
  }

  /** The row count so far is the whole number of rows seen, and no more than the whole stream has. */
  lemma HeldCount(f: (nat, seq<byte>) -> seq<byte>, rowBytes: nat, chunks: seq<seq<byte>>, c: nat, index: nat,
                  remainder: seq<byte>, out: seq<byte>)
    requires rowBytes > 0 && c <= |chunks| && Held(f, rowBytes, Concat(chunks[..c]), index, remainder, out)
    ensures index == |Concat(chunks[..c])| / rowBytes <= |Concat(chunks)| / rowBytes
  {
    hide Rows;
    ConcatGrows(chunks, c);
    Remainder(index, rowBytes, |remainder|);
    QuotientGrows(|Concat(chunks[..c])|, |Concat(chunks)|, rowBytes);
  }

  lemma QuotientGrows(a: nat, b: nat, d: nat)
    requires d > 0 && a <= b
    ensures a / d <= b / d
  {
    Division(a, d);
    Division(b, d);
    Multiple((b / d) as int - a / d, d);
    var k: int := (b / d) as int - a / d;
    assert k * d == b / d * d - a / d * d;
  }

  /** `WeightedPayload#each_streamed_chunk`: however the matrix is cut into chunks, row i is scaled by
      weight i; the stream ends in an error exactly when it holds a partial row, or more rows than weights. */
  method EachWeighted<W(!new)>(inner: seq<seq<byte>>, rowBytes: nat, weights: seq<W>,
                        scale: (seq<byte>, W) -> seq<byte>)
    returns (r: Result)
    requires rowBytes > 0
    ensures r == NoWeight <==> |Concat(inner)| / rowBytes > |weights|
    ensures r == Truncated <==> |Concat(inner)| / rowBytes <= |weights| && |Concat(inner)| % rowBytes != 0
    ensures r.Emitted? ==> Concat(r.chunks) == Rows(Scaled(scale, weights), rowBytes, 0, Concat(inner))
  {
    ghost var f := Scaled(scale, weights);
    hide Rows, Concat, Held, Scaled;
    var chunks: seq<seq<byte>> := [];
    var remainder: seq<byte> := [];
    var index: nat := 0;
    var c: nat := 0;
    HeldNone(f, rowBytes);
    while c < |inner|
      invariant c <= |inner| && index <= |weights|
          && Held(f, rowBytes, Concat(inner[..c]), index, remainder, Concat(chunks))
    {
      var data := remainder + inner[c];
      var n: nat := |data| / rowBytes;
      ConcatStep(inner, c);
      HeldNext(f, rowBytes, Concat(inner[..c]), index, remainder, Concat(chunks), inner[c], n);
      HeldCount(f, rowBytes, inner, c + 1, index + n, data[n * rowBytes..],
              Concat(chunks) + Rows(f, rowBytes, index, data[..n * rowBytes]));
      remainder := data[n * rowBytes..];
      if index + n > |weights| {
        return NoWeight;
      }
      if n != 0 {
        var out := WeighRows(data[..n * rowBytes], rowBytes, n, index, weights, scale);
        ConcatNext(chunks, out);
        chunks := chunks + [out];
      } else {
        RowsNone(f, rowBytes, index);
        assert data[..n * rowBytes] == [] && Concat(chunks) + [] == Concat(chunks);
      }
      index := index + n;
      c := c + 1;
    }
    assert inner[..c] == inner;
    HeldCount(f, rowBytes, inner, c, index, remainder, Concat(chunks));
    HeldAll(f, rowBytes, Concat(inner), index, remainder, Concat(chunks));
    r := if |remainder| == 0 then Emitted(chunks) else Truncated;
  }

  /** The row loop of one chunk. */
  method WeighRows<W(!new)>(data: seq<byte>, rowBytes: nat, n: nat, start: nat, weights: seq<W>,
                     scale: (seq<byte>, W) -> seq<byte>)
    returns (out: seq<byte>)
    requires rowBytes > 0 && |data| == n * rowBytes && start + n <= |weights|
    ensures out == Rows(Scaled(scale, weights), rowBytes, start, data)
  {
    ghost var f := Scaled(scale, weights);
    out := [];
    var k: nat := 0;
    while k < n
      invariant k <= n && k * rowBytes <= |data| && out == Rows(f, rowBytes, start, data[..k * rowBytes])
    {
      RowStep(f, rowBytes, start, n, data, k);
      out := out + scale(data[k * rowBytes..(k + 1) * rowBytes], weights[start + k]);
      k := k + 1;
    }
    assert data[..k * rowBytes] == data;
  }

  lemma RowStep(f: (nat, seq<byte>) -> seq<byte>, rowBytes: nat, start: nat, n: nat, data: seq<byte>, k: nat)
    requires rowBytes > 0 && |data| == n * rowBytes && k < n
    ensures k * rowBytes <= (k + 1) * rowBytes <= |data|
    ensures Rows(f, rowBytes, start, data[..(k + 1) * rowBytes]) ==
            Rows(f, rowBytes, start, data[..k * rowBytes]) + f(start + k, data[k * rowBytes..(k + 1) * rowBytes])
  {
    assert (k + 1) * rowBytes == k * rowBytes + rowBytes;
    Multiple(n - k - 1, rowBytes);
    assert |data| == (k + 1) * rowBytes + (n - k - 1) * rowBytes;
    var row := data[k * rowBytes..(k + 1) * rowBytes];
    assert data[..(k + 1) * rowBytes] == data[..k * rowBytes] + row;
    RowsConcat(f, rowBytes, start, k, data[..k * rowBytes], row);
    assert row[..rowBytes] == row && row[rowBytes..] == [];
    assert Rows(f, rowBytes, start + k, row) == f(start + k, row) + [];
  }

  // ----- mapped rows -----

  /** `String#byteslice(offset, size)` */
  function ByteSlice(s: seq<byte>, offset: int, size: nat): Option<seq<byte>> {
    var start := if offset < 0 then offset + |s| else offset;
    if start < 0 || start > |s| then None
    else Some(s[start..if start + size <= |s| then start + size else |s|])
  }

  /** Output row i is source row mapping[i], scaled by weight i if there are weights; None is an exception. */
  function MappedRow<W(!new)>(table: seq<byte>, rowBytes: nat, mapping: seq<int>, weights: Option<seq<W>>,
                              scale: (seq<byte>, W) -> seq<byte>, i: nat): Option<seq<byte>>
  {
    if i >= |mapping| then None
    else match ByteSlice(table, mapping[i] * rowBytes, rowBytes)
      case None => None
      case Some(row) =>
        if weights.None? then Some(row)
        else if i < |weights.value| then Some(scale(row, weights.value[i]))
        else if |row| < FLOAT_BYTES then Some([])   // no float meets the missing weight
        else None
  }

  /** The first n output rows, or None when one of them raises. */
  function MappedRows<W(!new)>(table: seq<byte>, rowBytes: nat, mapping: seq<int>, weights: Option<seq<W>>,
                               scale: (seq<byte>, W) -> seq<byte>, n: nat): Option<seq<byte>>
  {
    if n == 0 then Some([])
    else match MappedRows(table, rowBytes, mapping, weights, scale, n - 1)
      case None => None
      case Some(front) =>
        match MappedRow(table, rowBytes, mapping, weights, scale, n - 1)
        case None => None
        case Some(row) => Some(front + row)
  }

  lemma {:induction false} OneRowRaises<W(!new)>(table: seq<byte>, rowBytes: nat, mapping: seq<int>,
                                          weights: Option<seq<W>>,
                                                 scale: (seq<byte>, W) -> seq<byte>, n: nat, i: nat)
    requires i < n && MappedRow(table, rowBytes, mapping, weights, scale, i).None?
    ensures MappedRows(table, rowBytes, mapping, weights, scale, n).None?
  {
    hide MappedRow;
    if i < n - 1 { OneRowRaises(table, rowBytes, mapping, weights, scale, n - 1, i); }
  }

  /** `WeightedPayload#each_mapped_chunk`: neither the chunks read nor the chunks written matter. */
  method EachMapped<W(!new)>(inner: seq<seq<byte>>, rowBytes: nat, outputRows: nat, mapping: seq<int>,
                             weights: Option<seq<W>>, scale: (seq<byte>, W) -> seq<byte>)
    returns (r: Stream)
    ensures var all := MappedRows(Concat(inner), rowBytes, mapping, weights, scale, outputRows);
            if all.None? then r == Raised else r.Chunks? && Concat(r.chunks) == all.value
  {
    hide MappedRow;
    var table: seq<byte> := [];
    var c: nat := 0;
    while c < |inner|
      invariant c <= |inner| && table == Concat(inner[..c])
    {
      ConcatStep(inner, c);
      table := table + inner[c];
      c := c + 1;
    }
    assert inner[..c] == inner;
    hide Concat;
    var chunks: seq<seq<byte>> := [];
    var index: nat := 0;
    assert Concat(chunks) == [] by { ConcatNothing(); }
    while index < outputRows
      invariant index <= outputRows
      invariant MappedRows(table, rowBytes, mapping, weights, scale, index) == Some(Concat(chunks))
    {
      var count: nat := if ROWS_PER_CHUNK < outputRows - index then ROWS_PER_CHUNK else outputRows - index;
      var out: seq<byte> := [];
      var t: nat := 0;
      ghost var first := index;
      assert Concat(chunks) + [] == Concat(chunks);
      while t < count
        invariant t <= count && index == first + t <= outputRows
        invariant MappedRows(table, rowBytes, mapping, weights, scale, index) == Some(Concat(chunks) + out)
      {
        var row := MappedRow(table, rowBytes, mapping, weights, scale, index);
        if row.None? {
          OneRowRaises(table, rowBytes, mapping, weights, scale, outputRows, index);
          return Raised;
        }
        assert Concat(chunks) + (out + row.value) == Concat(chunks) + out + row.value;
        out := out + row.value;
        t, index := t + 1, index + 1;
      }
      ConcatNext(chunks, out);
      chunks := chunks + [out];
    }
    r := Chunks(chunks);
  }

  /** `validate_mapping` */
  predicate MappingValid(mapping: seq<int>, rows: nat) { forall i | 0 <= i < |mapping| :: 0 <= mapping[i] < rows }

  /** With a validated mapping and a weight for every row nothing raises: output row i is source row
      mapping[i], scaled by weight i if there are weights, and the total is the announced size. */
  lemma {:induction false} MappedWhole<W(!new)>(table: seq<byte>, rowBytes: nat, rows: nat, mapping: seq<int>,
                                                weights: Option<seq<W>>, scale: (seq<byte>, W) -> seq<byte>, n: nat)
    requires |table| == rows * rowBytes && MappingValid(mapping, rows)
    requires n <= |mapping| && (weights.Some? ==> n <= |weights.value|)
    requires forall row, w :: |scale(row, w)| == |row|
    ensures var out := MappedRows(table, rowBytes, mapping, weights, scale, n);
            && out.Some? && |out.value| == n * rowBytes
            && forall i: nat | i < n :: RowIs(table, rowBytes, mapping[i], weights, scale, i, out.value)
  {
    hide MappedRow, ByteSlice, RowIs;
    if n > 0 {
      MappedWhole(table, rowBytes, rows, mapping, weights, scale, n - 1);
      var front := MappedRows(table, rowBytes, mapping, weights, scale, n - 1).value;
      var row := ValidRow(table, rowBytes, rows, mapping, weights, scale, n - 1);
      assert n * rowBytes == (n - 1) * rowBytes + rowBytes;
      forall i: nat | i < n
        ensures RowIs(table, rowBytes, mapping[i], weights, scale, i, front + row)
      {
        if i < n - 1 {
          RowKept(table, rowBytes, mapping[i], weights, scale, i, front, row);
        } else {
          RowAdded(table, rowBytes, mapping[i], weights, scale, i, front, row);
        }
      }
    }
  }

  /** The row that k names in the table. */
  ghost predicate IsRowOf<W(!new)>(table: seq<byte>, rowBytes: nat, k: int, weights: Option<seq<W>>,
                                   scale: (seq<byte>, W) -> seq<byte>, i: nat, row: seq<byte>)
  {
    && 0 <= k * rowBytes <= k * rowBytes + rowBytes <= |table| && (weights.Some? ==> i < |weights.value|)
    && var source := table[k * rowBytes..k * rowBytes + rowBytes];
       row == if weights.Some? then scale(source, weights.value[i]) else source
  }

  lemma ValidRow<W(!new)>(table: seq<byte>, rowBytes: nat, rows: nat, mapping: seq<int>, weights: Option<seq<W>>,
                          scale: (seq<byte>, W) -> seq<byte>, i: nat) returns (row: seq<byte>)
    requires |table| == rows * rowBytes && i < |mapping| && 0 <= mapping[i] < rows
        && (weights.Some? ==> i < |weights.value|)
    requires forall row, w :: |scale(row, w)| == |row|
    ensures MappedRow(table, rowBytes, mapping, weights, scale, i) == Some(row) && |row| == rowBytes
    ensures IsRowOf(table, rowBytes, mapping[i], weights, scale, i, row)
  {
    var k := mapping[i];
    RowInTable(rowBytes, rows, k);
    assert ByteSlice(table, k * rowBytes, rowBytes) == Some(table[k * rowBytes..k * rowBytes + rowBytes]);
    hide ByteSlice;
    row := MappedRow(table, rowBytes, mapping, weights, scale, i).value;
  }

  lemma RowAdded<W(!new)>(table: seq<byte>, rowBytes: nat, k: int, weights: Option<seq<W>>,
                          scale: (seq<byte>, W) -> seq<byte>, i: nat, front: seq<byte>, row: seq<byte>)
    requires |front| == i * rowBytes && |row| == rowBytes && IsRowOf(table, rowBytes, k, weights, scale, i, row)
    ensures RowIs(table, rowBytes, k, weights, scale, i, front + row)
  {
    assert (front + row)[i * rowBytes..i * rowBytes + rowBytes] == row;
  }

  lemma RowKept<W(!new)>(table: seq<byte>, rowBytes: nat, k: int, weights: Option<seq<W>>,
                         scale: (seq<byte>, W) -> seq<byte>, i: nat, front: seq<byte>, row: seq<byte>)
    requires RowIs(table, rowBytes, k, weights, scale, i, front)
    ensures RowIs(table, rowBytes, k, weights, scale, i, front + row)
  {
    assert (front + row)[i * rowBytes..i * rowBytes + rowBytes] == front[i * rowBytes..i * rowBytes + rowBytes];
  }

  lemma RowInTable(rowBytes: nat, rows: nat, k: int)
    requires 0 <= k < rows
    ensures 0 <= k * rowBytes <= k * rowBytes + rowBytes <= rows * rowBytes
  {
    Multiple(k, rowBytes);
    Multiple(rows - k - 1, rowBytes);
    assert rows * rowBytes == k * rowBytes + rowBytes + (rows - k - 1) * rowBytes;
  }

  /** Row i of out is source row k, scaled by weight i if there are weights. */
  ghost predicate RowIs<W(!new)>(table: seq<byte>, rowBytes: nat, k: int, weights: Option<seq<W>>,
                                 scale: (seq<byte>, W) -> seq<byte>, i: nat, out: seq<byte>)
  {
    && 0 <= i * rowBytes <= i * rowBytes + rowBytes <= |out|
    && IsRowOf(table, rowBytes, k, weights, scale, i, out[i * rowBytes..i * rowBytes + rowBytes])
  }

  lemma ConcatNothing()
    ensures Concat([]) == []
  {
  }

  // ----- row prefixes -----

  function Prefix(outBytes: nat): (nat, seq<byte>) -> seq<byte> {
    (i: nat, row: seq<byte>) => if outBytes <= |row| then row[..outBytes] else row
  }

  /** `slice_rows` */
  method SliceRows(data: seq<byte>, rowBytes: nat, outBytes: nat, n: nat, ghost start: nat) returns (out: seq<byte>)
    requires 0 < rowBytes && outBytes <= rowBytes && |data| == n * rowBytes
    ensures out == Rows(Prefix(outBytes), rowBytes, start, data)
  {
    ghost var f := Prefix(outBytes);
    out := [];
    var offset: nat := 0;
    var k: nat := 0;
    while k < n
      invariant k <= n && offset == k * rowBytes <= |data| && out == Rows(f, rowBytes, start, data[..offset])
    {
      RowStep(f, rowBytes, start, n, data, k);
      assert data[offset..(k + 1) * rowBytes][..outBytes] == data[offset..offset + outBytes];
      out := out + data[offset..offset + outBytes];
      offset := offset + rowBytes;
      k := k + 1;
    }
    assert data[..offset] == data;
  }

  /** `RowPrefixPayload#each_chunk` */
  method EachPrefix(inner: seq<seq<byte>>, rowBytes: nat, outBytes: nat) returns (r: Result)
    requires 0 < outBytes <= rowBytes
    ensures r == Truncated <==> |Concat(inner)| % rowBytes != 0
    ensures r != Truncated ==> r.Emitted? && Concat(r.chunks) == Rows(Prefix(outBytes), rowBytes, 0, Concat(inner))
  {
    ghost var f := Prefix(outBytes);
    hide Rows, Concat, Held, Prefix;
    var chunks: seq<seq<byte>> := [];
    var remainder: seq<byte> := [];
    ghost var index: nat := 0;
    var c: nat := 0;
    HeldNone(f, rowBytes);
    while c < |inner|
      invariant c <= |inner| && Held(f, rowBytes, Concat(inner[..c]), index, remainder, Concat(chunks))
    {
      var data := remainder + inner[c];
      var n: nat := |data| / rowBytes;
      var bytes := n * rowBytes;
      ConcatStep(inner, c);
      HeldNext(f, rowBytes, Concat(inner[..c]), index, remainder, Concat(chunks), inner[c], n);
      var complete := data[..bytes];
      remainder := data[bytes..];
      if |complete| != 0 {
        var out := SliceRows(complete, rowBytes, outBytes, n, index);
        ConcatNext(chunks, out);
        chunks := chunks + [out];
      } else {
        RowsNone(f, rowBytes, index);
        assert complete == [] && Concat(chunks) + [] == Concat(chunks);
      }
      index := index + n;
      c := c + 1;
    }
    assert inner[..c] == inner;
    HeldAll(f, rowBytes, Concat(inner), index, remainder, Concat(chunks));
    r := if |remainder| == 0 then Emitted(chunks) else Truncated;
  }

  // ----- the three together -----

  /** Output row i is f of input row i. */
  lemma RowsAt(f: (nat, seq<byte>) -> seq<byte>, rowBytes: nat, n: nat, data: seq<byte>, size: nat, i: nat)
    requires rowBytes > 0 && |data| == n * rowBytes && i < n
    requires forall k: nat, row: seq<byte> | |row| == rowBytes :: |f(k, row)| == size
    ensures 0 <= i * rowBytes <= i * rowBytes + rowBytes <= |data|
    ensures |Rows(f, rowBytes, 0, data)| == n * size && 0 <= i * size <= i * size + size <= n * size
    ensures Rows(f, rowBytes, 0, data)[i * size..i * size + size] == f(i, data[i * rowBytes..i * rowBytes + rowBytes])
  {
    RowStep(f, rowBytes, 0, n, data, i);
    var cut := i * rowBytes + rowBytes;
    assert (i + 1) * rowBytes == cut && (i + 1) * size == i * size + size;
    RowsConcat(f, rowBytes, 0, i + 1, data[..cut], data[cut..]);
    assert data == data[..cut] + data[cut..];
    RowsSize(f, rowBytes, 0, i, data[..i * rowBytes], size);
    RowsSize(f, rowBytes, 0, n, data, size);
    RowsSize(f, rowBytes, 0, i + 1, data[..cut], size);
    hide Rows;
    var front, row := Rows(f, rowBytes, 0, data[..i * rowBytes]), f(i, data[i * rowBytes..cut]);
    assert Rows(f, rowBytes, 0, data[..cut]) == front + row;
    assert Rows(f, rowBytes, 0, data)[..i * size + size] == front + row;
    assert Rows(f, rowBytes, 0, data)[i * size..i * size + size] == (front + row)[i * size..];
  }

  /** The whole matrix converted, weighted and cut at once. */
  function Whole<W(!new)>(dtype: Dtype, half: Half -> Word32, rowBytes: nat, weights: seq<W>,
                          scale: (seq<byte>, W) -> seq<byte>,
                          outBytes: nat, source: seq<byte>): seq<byte>
    requires rowBytes > 0
  {
    Rows(Prefix(outBytes), rowBytes, 0, Rows(Scaled(scale, weights), rowBytes, 0, Converted(dtype, half, source)))
  }

  /** Conversion feeding weighting feeding slicing, chunk by chunk. */
  method EachOutput<W(!new)>(body: seq<byte>, sourceBytes: nat, dtype: Dtype, half: Half -> Word32,
                             rowBytes: nat, weights: seq<W>, scale: (seq<byte>, W) -> seq<byte>, outBytes: nat)
    returns (r: Stream)
    requires 0 < outBytes <= rowBytes && forall row, w :: |scale(row, w)| == |row|
    ensures r.Raised? <==> |body| < sourceBytes || (dtype == F16 && sourceBytes % 2 == 1)
                           || |Converted(dtype, half, body[..sourceBytes])| % rowBytes != 0
                           || |Converted(dtype, half, body[..sourceBytes])| / rowBytes > |weights|
    ensures r.Chunks? ==>
        Concat(r.chunks) == Whole(dtype, half, rowBytes, weights, scale, outBytes, body[..sourceBytes])
    ensures r.Chunks? ==> |Concat(r.chunks)| == ConvertedBytes(dtype, sourceBytes) / rowBytes * outBytes
  {
    hide Converted, Concat, Rows, ConvertedBytes;
    var floats := EachConverted(body, sourceBytes, dtype, half);
    if floats.Raised? {
      return Raised;
    }
    var rows := EachWeighted(floats.chunks, rowBytes, weights, scale);
    if !rows.Emitted? {
      return Raised;
    }
    WeightedSize(rowBytes, weights, scale, Concat(floats.chunks));
    var cut := EachPrefix(rows.chunks, rowBytes, outBytes);
    if !cut.Emitted? {
      return Raised;
    }
    PrefixSize(rowBytes, outBytes, Concat(rows.chunks));
    r := Chunks(cut.chunks);
  }

  lemma PrefixSize(rowBytes: nat, outBytes: nat, data: seq<byte>)
    requires 0 < outBytes <= rowBytes && |data| % rowBytes == 0
    ensures |Rows(Prefix(outBytes), rowBytes, 0, data)| == |data| / rowBytes * outBytes
  {
    Division(|data|, rowBytes);
    RowsSize(Prefix(outBytes), rowBytes, 0, |data| / rowBytes, data, outBytes);
  }

  lemma WeightedSize<W(!new)>(rowBytes: nat, weights: seq<W>, scale: (seq<byte>, W) -> seq<byte>, data: seq<byte>)
    requires rowBytes > 0 && |data| % rowBytes == 0 && forall row, w :: |scale(row, w)| == |row|
    ensures |Rows(Scaled(scale, weights), rowBytes, 0, data)| == |data|
  {
    Division(|data|, rowBytes);
    RowsSize(Scaled(scale, weights), rowBytes, 0, |data| / rowBytes, data, rowBytes);
  }

  /** What comes out: row i is the first outBytes bytes of input row i scaled by weight i, and the total is
      the announced size. */
  lemma WholeRows<W(!new)>(rowBytes: nat, weights: seq<W>, scale: (seq<byte>, W) -> seq<byte>,
                           outBytes: nat, data: seq<byte>, n: nat)
    requires 0 < outBytes <= rowBytes && |data| == n * rowBytes && n <= |weights| && forall row, w ::
        |scale(row, w)| == |row|
    ensures var out := Rows(Prefix(outBytes), rowBytes, 0, Rows(Scaled(scale, weights), rowBytes, 0, data));
            && |out| == n * outBytes
            && forall i: nat | i < n ::
                 && 0 <= i * rowBytes <= i * rowBytes + rowBytes <= |data|
                     && 0 <= i * outBytes <= i * outBytes + outBytes <= |out|
                 && out[i * outBytes..i * outBytes + outBytes] ==
                     scale(data[i * rowBytes..i * rowBytes + rowBytes], weights[i])[..outBytes]
  {
    hide Rows;
    var f, g := Scaled(scale, weights), Prefix(outBytes);
    RowsSize(f, rowBytes, 0, n, data, rowBytes);
    var mid := Rows(f, rowBytes, 0, data);
    RowsSize(g, rowBytes, 0, n, mid, outBytes);
    var out := Rows(g, rowBytes, 0, mid);
    forall i: nat | i < n
      ensures 0 <= i * rowBytes <= i * rowBytes + rowBytes <= |data|
          && 0 <= i * outBytes <= i * outBytes + outBytes <= |out|
      ensures out[i * outBytes..i * outBytes + outBytes] ==
          scale(data[i * rowBytes..i * rowBytes + rowBytes], weights[i])[..outBytes]
    {
      RowsAt(f, rowBytes, n, data, rowBytes, i);
      RowsAt(g, rowBytes, n, mid, outBytes, i);
    }
  }
}
