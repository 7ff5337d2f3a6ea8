/** The .semb container: written by format/writer.rb, verified by format/verifier.rb, and read and
    checked by `se_format.c` when a model is opened.

    The digest is a parameter: any function from byte strings to 32 bytes.
  */
module Container {
  import opened Utf8
  import opened Words
  import opened Payloads

  const HEADER_SIZE: nat := 320
  const ALIGNMENT: nat := 64
  const CHECKSUM_OFFSET: nat := 240
  const CHECKSUM_SIZE: nat := 32
  const SECTIONS_OFFSET: nat := 128
  const MAGIC: seq<byte> := [0x53, 0x45, 0x4D, 0x42, 0x76, 0x31, 0, 0]

  datatype Section = Section(off: nat, size: nat) {
    function End(): nat { off + size }
  }

  // ----- layout -----

  /** Sections in order and disjoint behind the header, each at the next multiple of 64. */
  ghost predicate LaidOut(sizes: seq<nat>, sections: seq<Section>, fileSize: nat) {
    && |sections| == |sizes|
    && (forall i | 0 <= i < |sizes| :: sections[i].size == sizes[i] && sections[i].off % ALIGNMENT == 0)
    && (forall i | 0 <= i < |sizes| :: HEADER_SIZE <= sections[i].off && sections[i].End() <= fileSize)
    && (forall i, j | 0 <= i < j < |sizes| :: sections[i].End() <= sections[j].off)
    && (forall i | 0 < i < |sizes| :: sections[i].off < sections[i - 1].End() + ALIGNMENT)
    && (|sizes| > 0 ==> sections[0].off < HEADER_SIZE + ALIGNMENT)
    && fileSize == if |sizes| == 0 then HEADER_SIZE else sections[|sizes| - 1].End()
  }

  method Layout(sizes: seq<nat>) returns (sections: seq<Section>, fileSize: nat)
    ensures LaidOut(sizes, sections, fileSize)
  {
    hide LaidOut;
    var offset: nat := HEADER_SIZE;
    sections := [];
    var i: nat := 0;
    assert LaidOut(sizes[..0], sections, offset) by { NothingLaidOut(); }
    while i < |sizes|
      invariant i <= |sizes| && LaidOut(sizes[..i], sections, offset)
    {
      var was := offset;
      offset := offset + (ALIGNMENT - offset % ALIGNMENT) % ALIGNMENT;
      LaidOutNext(sizes, i, sections, was, offset);
      sections := sections + [Section(offset, sizes[i])];
      offset := offset + sizes[i];
      i := i + 1;
    }
    assert sizes[..i] == sizes;
    fileSize := offset;
  }

  lemma NothingLaidOut()
    ensures LaidOut([], [], HEADER_SIZE)
  {
  }

  lemma LaidOutNext(sizes: seq<nat>, i: nat, sections: seq<Section>, was: nat, offset: nat)
    requires i < |sizes| && LaidOut(sizes[..i], sections, was)
    requires offset % ALIGNMENT == 0 && was <= offset < was + ALIGNMENT
    ensures LaidOut(sizes[..i + 1], sections + [Section(offset, sizes[i])], offset + sizes[i])
  {
    assert sizes[..i + 1] == sizes[..i] + [sizes[i]];
    assert was >= HEADER_SIZE;
  }

  // ----- the section checks of the loader -----

  predicate Present(s: Section) { s.off != 0 || s.size != 0 }

  /** `section_end`: a 64-bit sum. */
  function SectionEnd(s: Section): nat { (s.off + s.size) % 0x1_0000_0000_0000_0000 }

  predicate SectionOk(s: Section, fileSize: nat, elem: nat) {
    !Present(s) ||
    (&& s.off >= HEADER_SIZE && s.off % ALIGNMENT == 0
     && s.size <= fileSize && s.off <= fileSize - s.size
     && (elem != 0 ==> s.size % elem == 0))
  }

  predicate Overlap(a: Section, b: Section) {
    Present(a) && Present(b) && a.off < SectionEnd(b) && b.off < SectionEnd(a)
  }

  predicate NoOverlaps(sections: seq<Section>) {
    forall i, j | 0 <= i < j < |sections| :: !Overlap(sections[i], sections[j])
  }

  method ValidateNoOverlaps(sections: seq<Section>) returns (ok: bool)
    ensures ok <==> NoOverlaps(sections)
  {
    var i: nat := 0;
    while i < |sections|
      invariant i <= |sections|
      invariant forall k, j | 0 <= k < i && k < j < |sections| :: !Overlap(sections[k], sections[j])
    {
      var j: nat := i + 1;
      while j < |sections|
        invariant i < j <= |sections|
        invariant forall l | i < l < j :: !Overlap(sections[i], sections[l])
      {
        if Overlap(sections[i], sections[j]) {
          return false;
        }
        j := j + 1;
      }
      i := i + 1;
    }
    ok := true;
  }

  /** Whatever the sizes are, the layout passes the loader's checks, up to divisibility of the size. */
  lemma LayoutPassesChecks(sizes: seq<nat>, sections: seq<Section>, fileSize: nat, i: nat, elem: nat)
    requires LaidOut(sizes, sections, fileSize) && fileSize < 0x1_0000_0000_0000_0000 && i < |sizes|
    ensures SectionOk(sections[i], fileSize, elem) <==> (elem != 0 ==> sizes[i] % elem == 0)
    ensures NoOverlaps(sections)
  {
    forall k, j | 0 <= k < j < |sections| ensures !Overlap(sections[k], sections[j]) {
      assert sections[k].End() <= sections[j].off <= fileSize;
    }
  }

  // ----- the header -----

  datatype Meta = Meta(
    dim: int, normalizationType: int, maxTokensDefault: int, truncationPolicy: int, unkPolicy: int, emptyPolicy: int,
    maxInputChars: int, padId: int, unkId: int, clsId: int, sepId: int, maskId: int,
    addSpecialTokens: bool, doLowerCase: bool, stripAccents: bool, handleChinese: bool, cleanText: bool,
    maxTokenChars: int, addedTokenMask: int, subwordPrefix: seq<byte>)

  /** What `build_header` is given. */
  datatype Image = Image(meta: Meta, vocabSize: nat, hashSize: nat, maxProbe: nat, sections: seq<Section>)

  datatype Put = Put(off: nat, value: int)

  const HEADER_U32: seq<Put> := [Put(8, 3), Put(12, 320), Put(16, 1), Put(28, 1), Put(32, 1), Put(36, 1),
          Put(108, HASH_SEED)]

  function MetaU32(m: Meta): seq<Put> {
    [Put(20, m.dim), Put(40, m.normalizationType), Put(44, m.maxTokensDefault), Put(48, m.truncationPolicy),
     Put(56, m.unkPolicy), Put(60, m.emptyPolicy), Put(80, m.maxInputChars), Put(84, m.padId), Put(88, m.unkId),
     Put(92, m.clsId), Put(96, m.sepId), Put(100, m.maskId)]
  }

  function Flag(b: bool): int { if b then 1 else 0 }

  function MetaBool(m: Meta): seq<Put> {
    [Put(52, Flag(m.addSpecialTokens)), Put(64, Flag(m.doLowerCase)), Put(68, Flag(m.stripAccents)),
     Put(72, Flag(m.handleChinese)), Put(76, Flag(m.cleanText))]
  }

  function OtherU32(im: Image): seq<Put> {
    [Put(24, im.vocabSize), Put(104, im.hashSize), Put(124, im.meta.maxTokenChars), Put(304, im.maxProbe),
     Put(308, im.meta.addedTokenMask), Put(112, |im.meta.subwordPrefix|)]
  }

  /** `ljust(8, "\0")` */
  function Padded(prefix: seq<byte>): (r: seq<byte>)
    requires |prefix| <= 8
    ensures |r| == 8 && r[..|prefix|] == prefix && forall i | |prefix| <= i < 8 :: r[i] == 0
  {
    prefix + seq(8 - |prefix|, _ => 0)
  }

  predicate U32(v: int) { 0 <= v < 0x1_0000_0000 }
  predicate U64(v: int) { 0 <= v < 0x1_0000_0000_0000_0000 }

  predicate PutsFit(puts: seq<Put>) { forall p | p in puts :: U32(p.value) }

  predicate Sized(im: Image) { |im.sections| == 7 && |im.meta.subwordPrefix| <= 8 }

  /** Every value fits its field; otherwise the writer raises. */
  predicate Fits(im: Image) {
    && Sized(im)
    && PutsFit(MetaU32(im.meta)) && PutsFit(OtherU32(im))
    && forall i | 0 <= i < 7 :: U64(im.sections[i].off) && U64(im.sections[i].size)
  }

  function Half64(v: nat, high: bool): nat { if high then v / 0x1_0000_0000 else v % 0x1_0000_0000 }

  /** What the header says at the four bytes from `off`: the format's field table. */
  function Word(im: Image, off: nat): int
    requires Sized(im)
  {
    var m := im.meta;
    if 128 <= off < 240 then
      var s := im.sections[(off - 128) / 16];
      Half64(if off % 16 < 8 then s.off else s.size, off % 8 >= 4)
    else match off
      case 0 => ReadU32(MAGIC, 0)
      case 4 => ReadU32(MAGIC, 4)
      case 8 => 3
      case 12 => 320
      case 16 => 1
      case 20 => m.dim
      case 24 => im.vocabSize
      case 28 => 1
      case 32 => 1
      case 36 => 1
      case 40 => m.normalizationType
      case 44 => m.maxTokensDefault
      case 48 => m.truncationPolicy
      case 52 => Flag(m.addSpecialTokens)
      case 56 => m.unkPolicy
      case 60 => m.emptyPolicy
      case 64 => Flag(m.doLowerCase)
      case 68 => Flag(m.stripAccents)
      case 72 => Flag(m.handleChinese)
      case 76 => Flag(m.cleanText)
      case 80 => m.maxInputChars
      case 84 => m.padId
      case 88 => m.unkId
      case 92 => m.clsId
      case 96 => m.sepId
      case 100 => m.maskId
      case 104 => im.hashSize
      case 108 => HASH_SEED
      case 112 => |m.subwordPrefix|
      case 116 => ReadU32(Padded(m.subwordPrefix), 0)
      case 120 => ReadU32(Padded(m.subwordPrefix), 4)
      case 124 => m.maxTokenChars
      case 304 => im.maxProbe
      case 308 => m.addedTokenMask
      case _ => 0
  }

  predicate Field(off: nat) { off % 4 == 0 && off < HEADER_SIZE }

  /** The fields in `done` hold their values, the others are still zero. */
  ghost predicate Progress(im: Image, bytes: seq<byte>, done: set<nat>)
    requires Sized(im)
  {
    |bytes| == HEADER_SIZE &&
    forall off: nat | Field(off) :: ReadU32(bytes, off) == if off in done then Word(im, off) else 0
  }

  /** Writing a value's bytes where the table has it touches no other field. */
  lemma ProgressPut(im: Image, before: seq<byte>, after: seq<byte>, done: set<nat>, off: nat, value: seq<byte>)
    requires Sized(im) && Progress(im, before, done)
    requires off % 4 == 0 && (|value| == 4 || |value| == 8) && off + |value| <= HEADER_SIZE
    requires after == before[..off] + value + before[off + |value|..]
    requires ReadU32(value, 0) == Word(im, off) && (|value| == 8 ==> ReadU32(value, 4) == Word(im, off + 4))
    ensures Progress(im, after, done + {off} + if |value| == 8 then {off + 4} else {})
  {
    hide Word, ReadU32;
    var more := done + {off} + if |value| == 8 then {off + 4} else {};
    forall w: nat | Field(w)
      ensures ReadU32(after, w) == if w in more then Word(im, w) else 0
    {
      if w == off || (w == off + 4 && |value| == 8) {
        assert after[w..w + 4] == value[w - off..w - off + 4];
        ReadsSame(after, w, value, w - off);
      } else {
        assert after[w..w + 4] == before[w..w + 4];
        ReadsSame(after, w, before, w);
      }
    }
  }

  lemma ReadsSame(a: seq<byte>, i: nat, b: seq<byte>, j: nat)
    requires i + 4 <= |a| && j + 4 <= |b| && a[i..i + 4] == b[j..j + 4]
    ensures ReadU32(a, i) == ReadU32(b, j)
  {
    assert a[i] == a[i..i + 4][0] && a[i + 1] == a[i..i + 4][1] && a[i + 2] == a[i..i + 4][2]
        && a[i + 3] == a[i..i + 4][3];
  }

  method PutBytes(header: array<byte>, off: nat, value: seq<byte>)
    requires off + |value| <= header.Length
    modifies header
    ensures header[..] == old(header[..off]) + value + old(header[off + |value|..])
  {
    forall i | 0 <= i < |value| {
      header[off + i] := value[i];
    }
  }

  /** `put_u32` */
  method PutU32(header: array<byte>, off: nat, value: int) returns (ok: bool)
    requires off + 4 <= header.Length
    modifies header
    ensures ok <==> U32(value)
    ensures ok ==> header[..] == old(header[..off]) + Bytes32(value) + old(header[off + 4..])
  {
    if !(0 <= value <= 0xFFFF_FFFF) {
      return false;
    }
    PutBytes(header, off, Bytes32(value));
    ok := true;
  }

  /** `put_u64` */
  method PutU64(header: array<byte>, off: nat, value: int) returns (ok: bool)
    requires off + 8 <= header.Length
    modifies header
    ensures ok <==> U64(value)
    ensures ok ==> header[..] == old(header[..off]) + Bytes64(value) + old(header[off + 8..])
  {
    if !(0 <= value <= 0xFFFF_FFFF_FFFF_FFFF) {
      return false;
    }
    PutBytes(header, off, Bytes64(value));
    ok := true;
  }

  predicate Holds(im: Image, p: Put)
    requires Sized(im)
  {
    Field(p.off) && p.value == Word(im, p.off)
  }

  predicate InTable(im: Image, puts: seq<Put>)
    requires Sized(im)
  {
    forall p | p in puts :: Holds(im, p)
  }

  ghost function Offsets(puts: seq<Put>): set<nat> { set p | p in puts :: p.off }

  /** One of the loops `each { |offset, value| put_u32(header, offset, value) }`. */
  method PutAll(header: array<byte>, puts: seq<Put>, ghost im: Image, ghost done: set<nat>) returns (ok: bool)
    requires Sized(im) && Progress(im, header[..], done) && InTable(im, puts)
    modifies header
    ensures ok <==> PutsFit(puts)
    ensures ok ==> Progress(im, header[..], done + Offsets(puts))
  {
    hide Word, Bytes32, ReadU32, Progress;
    ProgressLength(im, header[..], done);
    assert done + Offsets([]) == done;
    var i: nat := 0;
    while i < |puts|
      invariant i <= |puts| && PutsFit(puts[..i]) && Progress(im, header[..], done + Offsets(puts[..i]))
    {
      var p := puts[i];
      ghost var before := header[..];
      assert p in puts && puts[..i + 1] == puts[..i] + [p];
      ok := PutU32(header, p.off, p.value);
      if !ok {
        return;
      }
      WordBytes(p.value);
      ProgressPut(im, before, header[..], done + Offsets(puts[..i]), p.off, Bytes32(p.value));
      assert done + Offsets(puts[..i + 1]) == done + Offsets(puts[..i]) + {p.off} + {};
      i := i + 1;
    }
    assert puts[..i] == puts;
    ok := true;
  }

  lemma ProgressLength(im: Image, bytes: seq<byte>, done: set<nat>)
    requires Sized(im) && Progress(im, bytes, done)
    ensures |bytes| == HEADER_SIZE
  {
  }

  lemma WordBytes(value: int)
    requires U32(value)
    ensures ReadU32(Bytes32(value), 0) == value
  {
  }

  /** Every field of the header holds what the table says; the checksum is still zero. */
  ghost predicate HeaderOf(im: Image, header: seq<byte>) {
    && Sized(im) && |header| == HEADER_SIZE
    && forall off: nat | Field(off) :: ReadU32(header, off) == Word(im, off)
  }

  /** `build_header`: the header, or nothing when a value does not fit its field. */
  method BuildHeader(im: Image) returns (ok: bool, header: array<byte>)
    requires |im.sections| == 7
    ensures ok <==> Fits(im)
    ensures ok ==> HeaderOf(im, header[..])
  {
    hide Word, HeaderOf, Progress, InTable, Offsets, PutsFit, ReadU32, Bytes32;
    header := new byte[HEADER_SIZE](_ => 0);
    if |im.meta.subwordPrefix| > 8 {
      return false, header;
    }
    ghost var done: set<nat> := {};
    ZeroHeader(im, header[..]);
    Tables(im);
    RawWords(im);
    ghost var before := header[..];
    PutBytes(header, 0, MAGIC);
    ProgressPut(im, before, header[..], done, 0, MAGIC);
    done := done + {0} + {4};
    ok := PutAll(header, HEADER_U32, im, done);
    if !ok { return; }
    done := done + Offsets(HEADER_U32);
    ok := PutAll(header, MetaU32(im.meta), im, done);
    if !ok { return; }
    done := done + Offsets(MetaU32(im.meta));
    ok := PutAll(header, MetaBool(im.meta), im, done);
    if !ok { return; }
    done := done + Offsets(MetaBool(im.meta));
    ok := PutAll(header, OtherU32(im), im, done);
    if !ok { return; }
    done := done + Offsets(OtherU32(im));
    before := header[..];
    ProgressLength(im, before, done);
    PutBytes(header, 116, Padded(im.meta.subwordPrefix));
    ProgressPut(im, before, header[..], done, 116, Padded(im.meta.subwordPrefix));
    done := done + {116} + {120};
    ok := PutSections(header, im, done);
    if !ok { return; }
    HeaderComplete(im, header[..], done);
  }

  ghost function SectionFields(n: nat): set<nat> {
    set o: nat | SECTIONS_OFFSET <= o < SECTIONS_OFFSET + 16 * n && o % 4 == 0
  }

  /** `SECTION_FIELDS.each { |name, field| put_section(header, field, sections.fetch(name)) }` */
  method PutSections(header: array<byte>, im: Image, ghost done: set<nat>) returns (ok: bool)
    requires Sized(im) && Progress(im, header[..], done)
    modifies header
    ensures ok <==> forall i | 0 <= i < 7 :: U64(im.sections[i].off) && U64(im.sections[i].size)
    ensures ok ==> Progress(im, header[..], done + SectionFields(7))
  {
    hide Word, Progress, ReadU32, Bytes64;
    ProgressLength(im, header[..], done);
    assert done + SectionFields(0) == done;
    var i: nat := 0;
    while i < 7
      invariant i <= 7 && Progress(im, header[..], done + SectionFields(i))
      invariant forall k | 0 <= k < i :: U64(im.sections[k].off) && U64(im.sections[k].size)
    {
      var field := SECTIONS_OFFSET + 16 * i;
      ghost var first, seen := header[..], done + SectionFields(i);
      ok := PutU64(header, field, im.sections[i].off);
      if !ok { return; }
      ghost var second := header[..];
      ok := PutU64(header, field + 8, im.sections[i].size);
      if !ok { return; }
      SectionPut(im, first, second, header[..], seen, i);
      assert done + SectionFields(i + 1) == seen + {field} + {field + 4} + {field + 8} + {field + 12};
      i := i + 1;
    }
    ok := true;
  }

  lemma SectionPut(im: Image, first: seq<byte>, second: seq<byte>, third: seq<byte>, done: set<nat>, i: nat)
    requires Sized(im) && i < 7 && Progress(im, first, done)
    requires U64(im.sections[i].off) && U64(im.sections[i].size)
    requires var s, f := im.sections[i], SECTIONS_OFFSET + 16 * i;
             && |first| == |second| == HEADER_SIZE
             && second == first[..f] + Bytes64(s.off) + first[f + 8..]
             && third == second[..f + 8] + Bytes64(s.size) + second[f + 16..]
    ensures var f := SECTIONS_OFFSET + 16 * i; Progress(im, third, done + {f} + {f + 4} + {f + 8} + {f + 12})
  {
    hide Word, Progress, ReadU32, Bytes64;
    var s, f := im.sections[i], SECTIONS_OFFSET + 16 * i;
    SectionWords(im, i);
    ProgressPut(im, first, second, done, f, Bytes64(s.off));
    ProgressPut(im, second, third, done + {f} + {f + 4}, f + 8, Bytes64(s.size));
  }

  lemma SectionWords(im: Image, i: nat)
    requires Sized(im) && i < 7
    ensures var s, f := im.sections[i], SECTIONS_OFFSET + 16 * i;
            && Word(im, f) == s.off % 0x1_0000_0000 && Word(im, f + 4) == s.off / 0x1_0000_0000
            && Word(im, f + 8) == s.size % 0x1_0000_0000 && Word(im, f + 12) == s.size / 0x1_0000_0000
  {
  }

  lemma ZeroHeader(im: Image, bytes: seq<byte>)
    requires Sized(im)
    requires |bytes| == HEADER_SIZE && forall i | 0 <= i < HEADER_SIZE :: bytes[i] == 0
    ensures Progress(im, bytes, {})
  {
  }

  /** The writer's tables agree with the format's field table. */
  lemma Tables(im: Image)
    requires Sized(im)
    ensures InTable(im, HEADER_U32) && InTable(im, MetaU32(im.meta)) && InTable(im, MetaBool(im.meta))
        && InTable(im, OtherU32(im))
    ensures PutsFit(HEADER_U32) && PutsFit(MetaBool(im.meta))
  {
    hide Word, InTable, PutsFit, MetaU32, MetaBool, OtherU32;
    HeaderTable(im);
    BoolTable(im);
    MetaTable(im);
    OtherTable(im);
  }

  lemma HeaderTable(im: Image)
    requires Sized(im)
    ensures InTable(im, HEADER_U32) && PutsFit(HEADER_U32)
  {
    var a := HEADER_U32;
    assert Holds(im, a[0]) && Holds(im, a[1]) && Holds(im, a[2]) && Holds(im, a[3]) && Holds(im, a[4])
        && Holds(im, a[5])
        && Holds(im, a[6]);
    hide Holds, Word;
  }

  lemma BoolTable(im: Image)
    requires Sized(im)
    ensures InTable(im, MetaBool(im.meta)) && PutsFit(MetaBool(im.meta))
  {
    var c := MetaBool(im.meta);
    assert Holds(im, c[0]) && Holds(im, c[1]) && Holds(im, c[2]) && Holds(im, c[3]) && Holds(im, c[4]);
    hide Holds, Word;
  }

  lemma MetaTable(im: Image)
    requires Sized(im)
    ensures InTable(im, MetaU32(im.meta))
  {
    var b := MetaU32(im.meta);
    MetaEntries(im);
    hide Holds, Word;
    forall p | p in b
      ensures Holds(im, p)
    {
      var k :| 0 <= k < 12 && b[k] == p;
    }
  }

  lemma MetaEntries(im: Image)
    requires Sized(im)
    ensures var b := MetaU32(im.meta);
            && Holds(im, b[0]) && Holds(im, b[1]) && Holds(im, b[2]) && Holds(im, b[3]) && Holds(im, b[4])
                && Holds(im, b[5])
            && Holds(im, b[6]) && Holds(im, b[7]) && Holds(im, b[8]) && Holds(im, b[9]) && Holds(im, b[10])
                && Holds(im, b[11])
  {
  }

  lemma OtherTable(im: Image)
    requires Sized(im)
    ensures InTable(im, OtherU32(im))
  {
    var d := OtherU32(im);
    assert Holds(im, d[0]) && Holds(im, d[1]) && Holds(im, d[2]) && Holds(im, d[3]) && Holds(im, d[4])
        && Holds(im, d[5]);
    hide Holds, Word;
  }

  lemma RawWords(im: Image)
    requires Sized(im)
    ensures ReadU32(MAGIC, 0) == Word(im, 0) && ReadU32(MAGIC, 4) == Word(im, 4)
    ensures ReadU32(Padded(im.meta.subwordPrefix), 0) == Word(im, 116)
        && ReadU32(Padded(im.meta.subwordPrefix), 4) == Word(im, 120)
  {
    hide ReadU32, Padded;
  }

  /** Together the writes cover every field the table knows. */
  lemma HeaderComplete(im: Image, bytes: seq<byte>, done: set<nat>)
    requires Sized(im) && Progress(im, bytes, done + SectionFields(7))
    requires done == {} + {0} + {4} + Offsets(HEADER_U32) + Offsets(MetaU32(im.meta)) + Offsets(MetaBool(im.meta))
                     + Offsets(OtherU32(im))
                     + {116} + {120}
    ensures HeaderOf(im, bytes)
  {
    hide ReadU32, Word, Offsets, SectionFields, MetaU32, MetaBool, OtherU32;
    forall off: nat | Field(off)
      ensures ReadU32(bytes, off) == Word(im, off)
    {
      if off !in done + SectionFields(7) { Unlisted(im, off); }
    }
  }

  lemma Unlisted(im: Image, off: nat)
    requires Sized(im) && Field(off)
    requires off !in {0, 4, 116, 120} && off !in SectionFields(7)
    requires off !in Offsets(HEADER_U32) && off !in Offsets(MetaU32(im.meta)) && off !in Offsets(MetaBool(im.meta))
        && off !in Offsets(OtherU32(im))
    ensures Word(im, off) == 0
  {
    var a, b, c, d := HEADER_U32, MetaU32(im.meta), MetaBool(im.meta), OtherU32(im);
    assert off !in {8, 12, 16, 28, 32, 36, 108} by {
      assert a[0] in a && a[1] in a && a[2] in a && a[3] in a && a[4] in a && a[5] in a && a[6] in a;
    }
    assert off !in {20, 40, 44, 48, 56, 60, 80, 84, 88, 92, 96, 100} by {
      assert b[0] in b && b[1] in b && b[2] in b && b[3] in b && b[4] in b && b[5] in b && b[6] in b && b[7] in b
          && b[8] in b
             && b[9] in b && b[10] in b && b[11] in b;
    }
    assert off !in {52, 64, 68, 72, 76} by { assert c[0] in c && c[1] in c && c[2] in c && c[3] in c && c[4] in c; }
    assert off !in {24, 104, 124, 304, 308, 112} by {
      assert d[0] in d && d[1] in d && d[2] in d && d[3] in d && d[4] in d && d[5] in d;
    }
  }

  // ----- the loader -----

  const SE_MAGIC: seq<byte> := [0x53, 0x45, 0x4D, 0x42, 0x76, 0x31, 0x00, 0x00]

  datatype Verdict = Accepted | InvalidFormat | UnsupportedVersion | UnsupportedTokenizer

  /** The header checks of `parse_model`, in order. */
  function CheckHeader(base: seq<byte>): Verdict {
    if |base| < HEADER_SIZE then InvalidFormat
    else if base[..8] != SE_MAGIC then InvalidFormat
    else if ReadU32(base, 8) != 3 then UnsupportedVersion
    else if ReadU32(base, 12) != HEADER_SIZE then InvalidFormat
    else if ReadU32(base, 28) != 1 then UnsupportedTokenizer
    else if ReadU32(base, 32) != 1 then InvalidFormat
    else if ReadU32(base, 36) != 1 then InvalidFormat
    else CheckMeta(base)
  }

  function CheckMeta(base: seq<byte>): Verdict
    requires |base| >= HEADER_SIZE
  {
    var dim, vocabSize, hashSize := ReadU32(base, 20), ReadU32(base, 24), ReadU32(base, 104);
    if ReadU32(base, 40) != 0 && ReadU32(base, 40) != 1 then InvalidFormat
    else if ReadU32(base, 48) != 2 && ReadU32(base, 48) != 3 then InvalidFormat
    else if ReadU32(base, 52) != 0 then InvalidFormat
    else if ReadU32(base, 56) != 0 && ReadU32(base, 56) != 1 then InvalidFormat
    else if ReadU32(base, 308) / 32 != 0 then InvalidFormat
    else if ReadU32(base, 60) != 0 && ReadU32(base, 60) != 1 then InvalidFormat
    else if ReadU32(base, 64) > 1 || ReadU32(base, 68) > 1 || ReadU32(base, 72) > 1 || ReadU32(base, 76) > 1
    then InvalidFormat
    else if dim == 0 || dim > 0x10_0000 then InvalidFormat
    else if vocabSize == 0 then InvalidFormat
    else if hashSize == 0 || And(hashSize, hashSize - 1) != 0 then InvalidFormat
    else if hashSize <= vocabSize || vocabSize * 100 > hashSize * 70 then InvalidFormat
    else if ReadU32(base, 304) == 0 || ReadU32(base, 304) > hashSize then InvalidFormat
    else if ReadU32(base, 112) > 8 then InvalidFormat
    else if ReadU32(base, 88) >= vocabSize then InvalidFormat
    else if ReadU32(base, 76) != 1 then InvalidFormat
    else Accepted
  }

  function SectionAt(base: seq<byte>, i: nat): Section
    requires |base| >= HEADER_SIZE && i < 7
  {
    Section(ReadU64(base, SECTIONS_OFFSET + 16 * i), ReadU64(base, SECTIONS_OFFSET + 16 * i + 8))
  }

  function ReadSections(base: seq<byte>): (r: seq<Section>)
    requires |base| >= HEADER_SIZE
    ensures |r| == 7 && forall i: nat | i < 7 :: r[i] == SectionAt(base, i)
  {
    seq(7, i requires 0 <= i < 7 => SectionAt(base, i))
  }

  /** The section checks that follow; the hash slots take 16 bytes, a float 4. */
  function CheckSections(base: seq<byte>): Verdict
    requires |base| >= HEADER_SIZE
  {
    var s := ReadSections(base);
    var dim, vocabSize, hashSize := ReadU32(base, 20), ReadU32(base, 24), ReadU32(base, 104);
    if !(&& SectionOk(s[0], |base|, 0) && SectionOk(s[1], |base|, 16) && SectionOk(s[2], |base|, 4)
         && SectionOk(s[3], |base|, 0) && SectionOk(s[4], |base|, 0) && SectionOk(s[5], |base|, 0)
         && SectionOk(s[6], |base|, 0))
    then InvalidFormat
    else if !NoOverlaps(s) then InvalidFormat
    else if s[1].size != hashSize * 16 then InvalidFormat
    else if s[2].size != vocabSize * dim * 4 then InvalidFormat
    else Accepted
  }

  function Validate(base: seq<byte>): Verdict {
    if CheckHeader(base) != Accepted then CheckHeader(base) else CheckSections(base)
  }

  /** The values the format allows. */
  ghost predicate Allowed(im: Image) {
    var m := im.meta;
    && m.normalizationType in {0, 1} && m.truncationPolicy in {2, 3} && m.unkPolicy in {0, 1} && m.emptyPolicy in {0, 1}
    && !m.addSpecialTokens && m.cleanText && m.addedTokenMask < 32
    && 0 < m.dim <= 0x10_0000 && 0 <= m.unkId < im.vocabSize
    && IsPowerOfTwo(im.hashSize) && im.vocabSize < im.hashSize && im.vocabSize * 100 <= im.hashSize * 70
    && 0 < im.maxProbe <= im.hashSize
  }

  /** A file that starts with the header, the checksum filled in. */
  ghost predicate StartsWith(im: Image, base: seq<byte>)
    requires Sized(im) && |base| >= HEADER_SIZE
  {
    forall off: nat | Field(off) && !(CHECKSUM_OFFSET <= off < CHECKSUM_OFFSET + CHECKSUM_SIZE) ::
         ReadU32(base, off) == Word(im, off)
  }

  /** The loader takes a written header exactly when its values are allowed. */
  lemma HeaderRoundTrip(im: Image, base: seq<byte>)
    requires Sized(im) && |base| >= HEADER_SIZE && StartsWith(im, base)
    ensures CheckHeader(base) == Accepted <==> Allowed(im)
  {
    hide StartsWith, Word, ReadU32;
    MagicRead(im, base);
    assert MAGIC == SE_MAGIC;
    FixedRead(im, base);
    MetaRead(im, base);
    OtherRead(im, base);
    if im.hashSize > 0 { PowersOfTwo(im.hashSize); }
  }

  lemma FixedRead(im: Image, base: seq<byte>)
    requires Sized(im) && |base| >= HEADER_SIZE && StartsWith(im, base)
    ensures ReadU32(base, 8) == 3 && ReadU32(base, 12) == HEADER_SIZE
    ensures ReadU32(base, 28) == ReadU32(base, 32) == ReadU32(base, 36) == 1
  {
    hide ReadU32, Half64, Padded, Flag;
  }

  lemma MetaRead(im: Image, base: seq<byte>)
    requires Sized(im) && |base| >= HEADER_SIZE && StartsWith(im, base)
    ensures ReadU32(base, 20) == im.meta.dim && ReadU32(base, 40) == im.meta.normalizationType
    ensures ReadU32(base, 48) == im.meta.truncationPolicy && ReadU32(base, 56) == im.meta.unkPolicy
    ensures ReadU32(base, 60) == im.meta.emptyPolicy && ReadU32(base, 88) == im.meta.unkId
    ensures ReadU32(base, 52) == Flag(im.meta.addSpecialTokens) && ReadU32(base, 64) == Flag(im.meta.doLowerCase)
    ensures ReadU32(base, 68) == Flag(im.meta.stripAccents) && ReadU32(base, 72) == Flag(im.meta.handleChinese)
    ensures ReadU32(base, 76) == Flag(im.meta.cleanText)
  {
    hide ReadU32, Half64, Padded, Flag;
  }

  lemma LimitsRead(im: Image, base: seq<byte>)
    requires Sized(im) && |base| >= HEADER_SIZE && StartsWith(im, base)
    ensures ReadU32(base, 80) == im.meta.maxInputChars && ReadU32(base, 124) == im.meta.maxTokenChars
    ensures ReadU32(base, 84) == im.meta.padId && ReadU32(base, 92) == im.meta.clsId
    ensures ReadU32(base, 96) == im.meta.sepId && ReadU32(base, 100) == im.meta.maskId
  {
    hide ReadU32, Half64, Padded, Flag;
  }

  lemma OtherRead(im: Image, base: seq<byte>)
    requires Sized(im) && |base| >= HEADER_SIZE && StartsWith(im, base)
    ensures ReadU32(base, 24) == im.vocabSize && ReadU32(base, 104) == im.hashSize && ReadU32(base, 304) == im.maxProbe
    ensures ReadU32(base, 308) == im.meta.addedTokenMask && ReadU32(base, 112) == |im.meta.subwordPrefix| <= 8
  {
    hide ReadU32, Half64, Padded, Flag;
  }

  lemma MagicRead(im: Image, base: seq<byte>)
    requires Sized(im) && |base| >= HEADER_SIZE && StartsWith(im, base)
    ensures base[..8] == MAGIC
  {
    assert ReadU32(base, 0) == Word(im, 0) && ReadU32(base, 4) == Word(im, 4);
    RawWords(im);
    assert ReadU32(base, 0) == ReadU32(MAGIC, 0) && ReadU32(base, 4) == ReadU32(MAGIC, 4);
    hide Word, Padded;
    SameWord(base, 0, MAGIC, 0);
    SameWord(base, 4, MAGIC, 4);
    assert base[..8] == base[0..4] + base[4..8] && MAGIC == MAGIC[0..4] + MAGIC[4..8];
  }

  lemma SameWord(a: seq<byte>, i: nat, b: seq<byte>, j: nat)
    requires i + 4 <= |a| && j + 4 <= |b| && ReadU32(a, i) == ReadU32(b, j)
    ensures a[i..i + 4] == b[j..j + 4]
  {
    SameBytes(a[i], a[i + 1], a[i + 2], a[i + 3], b[j], b[j + 1], b[j + 2], b[j + 3]);
  }

  lemma SameBytes(a: nat, b: nat, c: nat, d: nat, e: nat, f: nat, g: nat, h: nat)
    requires a < 0x100 && b < 0x100 && c < 0x100 && d < 0x100 && e < 0x100 && f < 0x100 && g < 0x100 && h < 0x100
    requires Le32(a, b, c, d) == Le32(e, f, g, h)
    ensures a == e && b == f && c == g && d == h
  {
    LastByte(a, b + 0x100 * c + 0x1_0000 * d, e, f + 0x100 * g + 0x1_0000 * h);
    LastByte(b, c + 0x100 * d, f, g + 0x100 * h);
    LastByte(c, d, g, h);
  }

  lemma LastByte(a: nat, r: int, b: nat, q: int)
    requires a < 0x100 && b < 0x100 && a + 0x100 * r == b + 0x100 * q
    ensures a == b && r == q
  {
  }

  /** The loader reads back the sections that were written. */
  lemma SectionsRoundTrip(im: Image, base: seq<byte>)
    requires Sized(im) && |base| >= HEADER_SIZE && StartsWith(im, base)
    ensures ReadSections(base) == im.sections
  {
    hide StartsWith, Word, SectionAt;
    forall i: nat | i < 7
      ensures SectionAt(base, i) == im.sections[i]
    {
      SectionRead(im, base, i);
    }
  }

  lemma SectionRead(im: Image, base: seq<byte>, i: nat)
    requires Sized(im) && |base| >= HEADER_SIZE && StartsWith(im, base) && i < 7
    ensures SectionAt(base, i) == im.sections[i]
  {
    hide ReadU32, Word, PutsFit;
    var f := SECTIONS_OFFSET + 16 * i;
    SectionWords(im, i);
    assert Field(f) && Field(f + 4) && Field(f + 8) && Field(f + 12);
    assert ReadU32(base, f) == Word(im, f) && ReadU32(base, f + 4) == Word(im, f + 4);
    assert ReadU32(base, f + 8) == Word(im, f + 8) && ReadU32(base, f + 8 + 4) == Word(im, f + 12);
  }

  /** A written file is accepted exactly when its header values are allowed and the hash and matrix
      sections have the sizes the header implies. */
  lemma ValidateRoundTrip(im: Image, sizes: seq<nat>, base: seq<byte>)
    requires Sized(im) && |base| >= HEADER_SIZE && StartsWith(im, base)
    requires LaidOut(sizes, im.sections, |base|) && |base| < 0x1_0000_0000_0000_0000
    ensures Validate(base) == Accepted <==>
            Allowed(im) && |sizes| == 7 && sizes[1] == im.hashSize * 16 && sizes[2] == im.vocabSize * im.meta.dim * 4
  {
    HeaderRoundTrip(im, base);
    SectionsRoundTrip(im, base);
    hide CheckHeader, CheckSections, Allowed, Word, ReadU32, StartsWith, LaidOut, ReadSections;
    MetaRead(im, base);
    OtherRead(im, base);
    SectionsAccepted(sizes, base);
    SizesAre(sizes, im.sections, |base|);
  }

  lemma SectionsAccepted(sizes: seq<nat>, base: seq<byte>)
    requires |base| >= HEADER_SIZE && LaidOut(sizes, ReadSections(base), |base|) && |base| < 0x1_0000_0000_0000_0000
    ensures |sizes| == 7
    ensures CheckSections(base) == Accepted <==>
            sizes[1] == ReadU32(base, 104) * 16 && sizes[2] == ReadU32(base, 24) * ReadU32(base, 20) * 4
  {
    hide NoOverlaps, SectionOk, LaidOut, ReadSections, ReadU32;
    SizesAre(sizes, ReadSections(base), |base|);
    LayoutAccepted(sizes, ReadSections(base), |base|);
    Multiples(ReadU32(base, 104), ReadU32(base, 24) * ReadU32(base, 20));
  }

  lemma Multiples(a: nat, b: nat)
    ensures a * 16 % 16 == 0 && b * 4 % 4 == 0
  {
  }

  lemma SizesAre(sizes: seq<nat>, sections: seq<Section>, fileSize: nat)
    requires LaidOut(sizes, sections, fileSize) && |sections| == 7
    ensures |sizes| == 7 && sections[1].size == sizes[1] && sections[2].size == sizes[2]
  {
  }

  lemma LayoutAccepted(sizes: seq<nat>, s: seq<Section>, fileSize: nat)
    requires LaidOut(sizes, s, fileSize) && fileSize < 0x1_0000_0000_0000_0000 && |s| == 7
    ensures NoOverlaps(s) && SectionOk(s[0], fileSize, 0) && SectionOk(s[3], fileSize, 0)
        && SectionOk(s[4], fileSize, 0)
    ensures SectionOk(s[5], fileSize, 0) && SectionOk(s[6], fileSize, 0)
    ensures SectionOk(s[1], fileSize, 16) <==> s[1].size % 16 == 0
    ensures SectionOk(s[2], fileSize, 4) <==> s[2].size % 4 == 0
  {
    SizesAre(sizes, s, fileSize);
    hide SectionOk, NoOverlaps, LaidOut;
    LayoutPassesChecks(sizes, s, fileSize, 0, 0);
    LayoutPassesChecks(sizes, s, fileSize, 1, 16);
    LayoutPassesChecks(sizes, s, fileSize, 2, 4);
    LayoutPassesChecks(sizes, s, fileSize, 3, 0);
    LayoutPassesChecks(sizes, s, fileSize, 4, 0);
    LayoutPassesChecks(sizes, s, fileSize, 5, 0);
    LayoutPassesChecks(sizes, s, fileSize, 6, 0);
  }

  // ----- the file -----

  /** A payload announces its size and is written chunk by chunk; a string is one chunk. */
  datatype Payload = Payload(bytesize: nat, chunks: seq<seq<byte>>)

  ghost predicate Honest(p: Payload) { |Concat(p.chunks)| == p.bytesize }

  /** A tensor of `count` elements announces what its chunks hold. */
  lemma ConvertedIsHonest(dtype: Dtype, half: Half -> Word32, source: seq<byte>, count: nat, chunks: seq<seq<byte>>)
    requires |source| == count * ElementBytes(dtype) && Concat(chunks) == Converted(dtype, half, source)
    ensures Honest(Payload(count * 4, chunks))
  {
    AnnouncedSize(dtype, half, source, count);
  }

  function Sizes(payloads: seq<Payload>): (r: seq<nat>)
    ensures |r| == |payloads| && forall i | 0 <= i < |r| :: r[i] == payloads[i].bytesize
  {
    seq(|payloads|, i requires 0 <= i < |payloads| => payloads[i].bytesize)
  }

  function Zeros(n: nat): (r: seq<byte>)
    ensures |r| == n && forall i | 0 <= i < n :: r[i] == 0
  {
    seq(n, _ => 0)
  }

  /** Where the section in front of section n ends. */
  function EndBefore(sections: seq<Section>, n: nat): nat
    requires n <= |sections|
  {
    if n == 0 then HEADER_SIZE else sections[n - 1].End()
  }

  /** Payload i stands in its section, and the gap in front of it is zero. */
  ghost predicate WrittenAt(payloads: seq<Payload>, sections: seq<Section>, i: nat, io: seq<byte>)
    requires |payloads| == |sections| > i
  {
    var s, before := sections[i], EndBefore(sections, i);
    && before <= s.off && s.End() <= |io|
    && io[s.off..s.End()] == Concat(payloads[i].chunks) && io[before..s.off] == Zeros(s.off - before)
  }

  /** What has been written after n payloads. */
  ghost predicate Written(header: seq<byte>, payloads: seq<Payload>, sections: seq<Section>, n: nat, io: seq<byte>)
    requires |payloads| == |sections| >= n
  {
    && HEADER_SIZE <= |io| && |io| == EndBefore(sections, n) && io[..HEADER_SIZE] == header
    && forall i: nat | i < n :: WrittenAt(payloads, sections, i, io)
  }

  lemma WrittenStays(payloads: seq<Payload>, sections: seq<Section>, i: nat, io: seq<byte>, longer: seq<byte>)
    requires |payloads| == |sections| > i && WrittenAt(payloads, sections, i, io) && io <= longer
    ensures WrittenAt(payloads, sections, i, longer)
  {
    var s, before := sections[i], EndBefore(sections, i);
    assert longer[s.off..s.End()] == io[s.off..s.End()] && longer[before..s.off] == io[before..s.off];
  }

  lemma WrittenNext(header: seq<byte>, payloads: seq<Payload>, sections: seq<Section>, fileSize: nat, n: nat,
                    io: seq<byte>)
    requires |payloads| == |sections| > n && LaidOut(Sizes(payloads), sections, fileSize) && Honest(payloads[n])
    requires Written(header, payloads, sections, n, io)
    ensures |io| <= sections[n].off
    ensures Written(header, payloads, sections, n + 1, io + Zeros(sections[n].off - |io|) + Concat(payloads[n].chunks))
  {
    GapBefore(Sizes(payloads), sections, fileSize, n);
    EndOf(payloads, sections, fileSize, n);
    hide LaidOut, Concat, Zeros, WrittenAt;
    var next := io + Zeros(sections[n].off - |io|) + Concat(payloads[n].chunks);
    assert io <= next && next[..HEADER_SIZE] == io[..HEADER_SIZE];
    WrittenLast(payloads, sections, n, io);
    forall i: nat | i < n ensures WrittenAt(payloads, sections, i, next) {
      WrittenStays(payloads, sections, i, io, next);
    }
  }

  lemma GapBefore(sizes: seq<nat>, sections: seq<Section>, fileSize: nat, n: nat)
    requires LaidOut(sizes, sections, fileSize) && n < |sections|
    ensures EndBefore(sections, n) <= sections[n].off && sections[n].size == sizes[n]
  {
  }

  lemma WrittenLast(payloads: seq<Payload>, sections: seq<Section>, n: nat, io: seq<byte>)
    requires |payloads| == |sections| > n && |io| == EndBefore(sections, n) <= sections[n].off
    requires Honest(payloads[n]) && sections[n].size == payloads[n].bytesize
    ensures WrittenAt(payloads, sections, n, io + Zeros(sections[n].off - |io|) + Concat(payloads[n].chunks))
  {
    hide Concat, Zeros;
    var next := io + Zeros(sections[n].off - |io|) + Concat(payloads[n].chunks);
    assert next[sections[n].off..sections[n].End()] == Concat(payloads[n].chunks);
    assert next[|io|..sections[n].off] == Zeros(sections[n].off - |io|);
  }

  /** `io.seek(CHECKSUM_OFFSET); io.write(checksum)` */
  function Patched(io: seq<byte>, checksum: seq<byte>): seq<byte>
    requires |io| >= HEADER_SIZE && |checksum| == CHECKSUM_SIZE
  {
    io[..CHECKSUM_OFFSET] + checksum + io[CHECKSUM_OFFSET + CHECKSUM_SIZE..]
  }

  ghost predicate IsDigest(digest: seq<byte> -> seq<byte>) { forall s :: |digest(s)| == CHECKSUM_SIZE }

  /** `write_file`: every chunk goes to the file and to the digest; then the checksum is filled in. */
  method WriteFile(digest: seq<byte> -> seq<byte>, header: seq<byte>, payloads: seq<Payload>, sections: seq<Section>,
                   ghost fileSize: nat)
    returns (file: seq<byte>)
    requires IsDigest(digest) && |header| == HEADER_SIZE && |payloads| == |sections|
    requires LaidOut(Sizes(payloads), sections, fileSize) && forall p | p in payloads :: Honest(p)
    ensures exists stream ::
        Written(header, payloads, sections, |payloads|, stream) && |stream| == fileSize >= HEADER_SIZE
                             && file == Patched(stream, digest(stream))
  {
    hide LaidOut, Written, Honest;
    var io, fed := header, header;
    var offset := HEADER_SIZE;
    NothingWritten(header, payloads, sections);
    var i: nat := 0;
    while i < |payloads|
      invariant i <= |payloads| && io == fed && offset == EndBefore(sections, i) == |io|
      invariant Written(header, payloads, sections, i, io)
    {
      assert payloads[i] in payloads;
      WrittenNext(header, payloads, sections, fileSize, i, io);
      ghost var before := io;
      var target := sections[i].off;
      var padding: int := target - offset;
      if padding > 0 {
        io, fed := io + Zeros(padding), fed + Zeros(padding);
      }
      assert io == before + Zeros(target - |before|);
      ghost var padded := io;
      var chunks := payloads[i].chunks;
      var c: nat := 0;
      while c < |chunks|
        invariant c <= |chunks| && io == fed == padded + Concat(chunks[..c])
      {
        assert chunks[..c + 1][..c] == chunks[..c];
        assert padded + Concat(chunks[..c]) + chunks[c] == padded + (Concat(chunks[..c]) + chunks[c]);
        io, fed := io + chunks[c], fed + chunks[c];
        c := c + 1;
      }
      assert chunks[..c] == chunks;
      offset := target + payloads[i].bytesize;
      EndOf(payloads, sections, fileSize, i);
      WrittenLength(header, payloads, sections, i + 1, io);
      i := i + 1;
    }
    WrittenAll(header, payloads, sections, fileSize, io);
    var checksum := digest(fed);
    file := Patched(io, checksum);
  }

  lemma NothingWritten(header: seq<byte>, payloads: seq<Payload>, sections: seq<Section>)
    requires |header| == HEADER_SIZE && |payloads| == |sections|
    ensures Written(header, payloads, sections, 0, header)
  {
  }

  lemma EndOf(payloads: seq<Payload>, sections: seq<Section>, fileSize: nat, i: nat)
    requires |payloads| == |sections| > i && LaidOut(Sizes(payloads), sections, fileSize)
    ensures EndBefore(sections, i + 1) == sections[i].off + payloads[i].bytesize
  {
  }

  lemma WrittenLength(header: seq<byte>, payloads: seq<Payload>, sections: seq<Section>, n: nat, io: seq<byte>)
    requires |payloads| == |sections| >= n && Written(header, payloads, sections, n, io)
    ensures |io| == EndBefore(sections, n)
  {
  }

  lemma WrittenAll(header: seq<byte>, payloads: seq<Payload>, sections: seq<Section>, fileSize: nat, io: seq<byte>)
    requires |payloads| == |sections| && LaidOut(Sizes(payloads), sections, fileSize)
    requires Written(header, payloads, sections, |payloads|, io)
    ensures |io| == fileSize >= HEADER_SIZE
  {
  }

  datatype Verification = Verified(ok: bool) | TooSmall | BadMagic

  const CHUNK_BYTES: nat := 0x10_0000

  ghost function Zeroed(file: seq<byte>): seq<byte>
    requires |file| >= HEADER_SIZE
  {
    file[..CHECKSUM_OFFSET] + Zeros(CHECKSUM_SIZE) + file[CHECKSUM_OFFSET + CHECKSUM_SIZE..]
  }

  /** `Verifier.call`: the digest of the file with a zero checksum must be the checksum stored in it. */
  method Verify(digest: seq<byte> -> seq<byte>, file: seq<byte>) returns (r: Verification)
    ensures r == if |file| < HEADER_SIZE then TooSmall
                 else if file[..8] != MAGIC then BadMagic
                 else Verified(file[CHECKSUM_OFFSET..CHECKSUM_OFFSET + CHECKSUM_SIZE] == digest(Zeroed(file)))
  {
    if |file| < HEADER_SIZE {
      return TooSmall;
    }
    var header := file[..HEADER_SIZE];
    if header[..8] != MAGIC {
      assert header[..8] == file[..8];
      return BadMagic;
    }
    assert header[..8] == file[..8];
    var stored := header[CHECKSUM_OFFSET..CHECKSUM_OFFSET + CHECKSUM_SIZE];
    var fed := header[..CHECKSUM_OFFSET] + Zeros(CHECKSUM_SIZE) + header[CHECKSUM_OFFSET + CHECKSUM_SIZE..];
    var at: nat := HEADER_SIZE;
    while at < |file|
      invariant HEADER_SIZE <= at <= |file| && fed == Zeroed(file)[..at]
    {
      var n: nat := if |file| - at < CHUNK_BYTES then |file| - at else CHUNK_BYTES;
      assert Zeroed(file)[..at] + file[at..at + n] == Zeroed(file)[..at + n];
      fed := fed + file[at..at + n];
      at := at + n;
    }
    assert fed == Zeroed(file);
    assert stored == file[CHECKSUM_OFFSET..CHECKSUM_OFFSET + CHECKSUM_SIZE];
    r := Verified(stored == digest(fed));
  }

  /** The checksum field of a fresh header is zero, so patching is undone by zeroing. */
  lemma ZeroedPatched(im: Image, io: seq<byte>, checksum: seq<byte>)
    requires |io| >= HEADER_SIZE && |checksum| == CHECKSUM_SIZE && HeaderOf(im, io[..HEADER_SIZE])
    ensures Zeroed(Patched(io, checksum)) == io
  {
    hide Word, ReadU32, HeaderOf;
    forall k: nat | CHECKSUM_OFFSET <= k < CHECKSUM_OFFSET + CHECKSUM_SIZE
      ensures io[k] == 0
    {
      ChecksumIsZero(im, io[..HEADER_SIZE], k);
    }
    assert io[CHECKSUM_OFFSET..CHECKSUM_OFFSET + CHECKSUM_SIZE] == Zeros(CHECKSUM_SIZE);
    assert io == io[..CHECKSUM_OFFSET] + io[CHECKSUM_OFFSET..CHECKSUM_OFFSET + CHECKSUM_SIZE]
                 + io[CHECKSUM_OFFSET + CHECKSUM_SIZE..];
  }

  lemma ChecksumIsZero(im: Image, header: seq<byte>, k: nat)
    requires HeaderOf(im, header) && CHECKSUM_OFFSET <= k < CHECKSUM_OFFSET + CHECKSUM_SIZE
    ensures header[k] == 0
  {
    hide HeaderOf;
    var off := k / 4 * 4;
    ZeroWord(im, header, off);
    assert k == off || k == off + 1 || k == off + 2 || k == off + 3;
  }

  lemma ZeroWord(im: Image, header: seq<byte>, off: nat)
    requires HeaderOf(im, header) && off % 4 == 0 && CHECKSUM_OFFSET <= off < CHECKSUM_OFFSET + CHECKSUM_SIZE
    ensures |header| == HEADER_SIZE && header[off] == header[off + 1] == header[off + 2] == header[off + 3] == 0
  {
    hide Word;
    ChecksumWord(im, off);
    assert Field(off);
    SameBytes(header[off], header[off + 1], header[off + 2], header[off + 3], 0, 0, 0, 0);
  }

  lemma ChecksumWord(im: Image, off: nat)
    requires Sized(im) && CHECKSUM_OFFSET <= off < CHECKSUM_OFFSET + CHECKSUM_SIZE
    ensures Word(im, off) == 0
  {
  }

  lemma PatchedStarts(im: Image, io: seq<byte>, checksum: seq<byte>)
    requires |io| >= HEADER_SIZE && |checksum| == CHECKSUM_SIZE && HeaderOf(im, io[..HEADER_SIZE])
    ensures Sized(im) && StartsWith(im, Patched(io, checksum))
  {
    hide Word, ReadU32;
    var file := Patched(io, checksum);
    forall off: nat | Field(off) && !(CHECKSUM_OFFSET <= off < CHECKSUM_OFFSET + CHECKSUM_SIZE)
      ensures ReadU32(file, off) == Word(im, off)
    {
      assert file[off..off + 4] == io[..HEADER_SIZE][off..off + 4];
      ReadsSame(file, off, io[..HEADER_SIZE], off);
    }
  }

  /** `Writer.call` from the payloads on. The file passes its own verification; it is accepted by the
      loader exactly when its values are allowed and the two counted sections have their sizes; and the
      loader finds every payload where the header says it is. */
  method Write(digest: seq<byte> -> seq<byte>, meta: Meta, vocabSize: nat, hashSize: nat, maxProbe: nat,
               payloads: seq<Payload>)
    returns (ok: bool, file: seq<byte>, ghost im: Image)
    requires IsDigest(digest) && |payloads| == 7 && forall p | p in payloads :: Honest(p)
    ensures im.meta == meta && im.vocabSize == vocabSize && im.hashSize == hashSize && im.maxProbe == maxProbe
    ensures ok <==> Fits(im)
    ensures ok ==> |file| >= HEADER_SIZE && Sized(im) && StartsWith(im, file)
    ensures ok ==> |file| >= HEADER_SIZE && file[..8] == MAGIC
                   && file[CHECKSUM_OFFSET..CHECKSUM_OFFSET + CHECKSUM_SIZE] == digest(Zeroed(file))
    ensures ok && |file| < 0x1_0000_0000_0000_0000 ==>
              (Validate(file) == Accepted <==>
               Allowed(im) && payloads[1].bytesize == hashSize * 16 && payloads[2].bytesize == vocabSize * meta.dim * 4)
    ensures ok ==> forall i: nat | i < 7 ::
              var s := SectionAt(file, i); s.End() <= |file| && file[s.off..s.End()] == Concat(payloads[i].chunks)
  {
    hide HeaderOf, StartsWith, Word, Validate, Written, Zeroed, Patched, Fits, Allowed, SectionAt, LaidOut, Honest;
    var sections, fileSize := Layout(Sizes(payloads));
    SevenSections(Sizes(payloads), sections, fileSize);
    im := Image(meta, vocabSize, hashSize, maxProbe, sections);
    var header: array<byte>;
    ok, header := BuildHeader(Image(meta, vocabSize, hashSize, maxProbe, sections));
    if !ok {
      return ok, [], im;
    }
    HeaderLength(im, header[..]);
    file := WriteFile(digest, header[..], payloads, sections, fileSize);
    ghost var stream :| Written(header[..], payloads, sections, 7, stream) && |stream| == fileSize >= HEADER_SIZE
                        && file == Patched(stream, digest(stream));
    FileIsRight(im, stream, digest(stream), payloads, fileSize, header[..]);
  }

  lemma HeaderLength(im: Image, header: seq<byte>)
    requires HeaderOf(im, header)
    ensures |header| == HEADER_SIZE
  {
  }

  lemma SevenSections(sizes: seq<nat>, sections: seq<Section>, fileSize: nat)
    requires LaidOut(sizes, sections, fileSize)
    ensures |sections| == |sizes|
  {
  }

  lemma FileIsRight(im: Image, stream: seq<byte>, checksum: seq<byte>, payloads: seq<Payload>, fileSize: nat,
                    header: seq<byte>)
    requires HeaderOf(im, header) && |im.sections| == |payloads| == 7 && |checksum| == CHECKSUM_SIZE
    requires LaidOut(Sizes(payloads), im.sections, fileSize) && Written(header, payloads, im.sections, 7, stream)
        && |stream| == fileSize
    ensures |stream| >= HEADER_SIZE && Sized(im)
    ensures var file := Patched(stream, checksum);
            && |file| == fileSize && |file| >= HEADER_SIZE && StartsWith(im, file)
            && file[..8] == MAGIC && Zeroed(file) == stream
            && file[CHECKSUM_OFFSET..CHECKSUM_OFFSET + CHECKSUM_SIZE] == checksum
            && (|file| < 0x1_0000_0000_0000_0000 ==>
                  (Validate(file) == Accepted <==>
                   Allowed(im) && payloads[1].bytesize == im.hashSize * 16
                       && payloads[2].bytesize == im.vocabSize * im.meta.dim * 4))
            && (forall i: nat | i < 7 ::
                  var s := SectionAt(file, i); s.End() <= |file| && file[s.off..s.End()] == Concat(payloads[i].chunks))
  {
    hide HeaderOf, StartsWith, Word, Validate, Zeroed, Patched, Allowed, Written, LaidOut, WrittenAt, Concat, SectionAt;
    WrittenHeader(header, payloads, im.sections, 7, stream);
    ZeroedPatched(im, stream, checksum);
    PatchedStarts(im, stream, checksum);
    PatchedSlices(stream, checksum);
    var file := Patched(stream, checksum);
    MagicRead(im, file);
    SectionsRoundTrip(im, file);
    if |file| < 0x1_0000_0000_0000_0000 { ValidateRoundTrip(im, Sizes(payloads), file); }
    forall i: nat | i < 7
      ensures var s := im.sections[i]; s.End() <= |file| && file[s.off..s.End()] == Concat(payloads[i].chunks)
    {
      PayloadInFile(payloads, im.sections, i, stream, checksum, header, fileSize);
    }
  }

  lemma WrittenHeader(header: seq<byte>, payloads: seq<Payload>, sections: seq<Section>, n: nat, io: seq<byte>)
    requires |payloads| == |sections| >= n && Written(header, payloads, sections, n, io)
    ensures |io| >= HEADER_SIZE && io[..HEADER_SIZE] == header
  {
  }

  lemma PatchedSlices(io: seq<byte>, checksum: seq<byte>)
    requires |io| >= HEADER_SIZE && |checksum| == CHECKSUM_SIZE
    ensures var file := Patched(io, checksum);
            |file| == |io| && file[CHECKSUM_OFFSET..CHECKSUM_OFFSET + CHECKSUM_SIZE] == checksum
                && file[HEADER_SIZE..] == io[HEADER_SIZE..]
  {
  }

  lemma PayloadInFile(payloads: seq<Payload>, sections: seq<Section>, i: nat, io: seq<byte>, checksum: seq<byte>,
                      header: seq<byte>, fileSize: nat)
    requires |payloads| == |sections| > i && LaidOut(Sizes(payloads), sections, fileSize)
    requires Written(header, payloads, sections, |payloads|, io) && |checksum| == CHECKSUM_SIZE
    ensures var s, file := sections[i], Patched(io, checksum);
            s.End() <= |file| && file[s.off..s.End()] == Concat(payloads[i].chunks)
  {
    hide Concat;
    assert WrittenAt(payloads, sections, i, io);
    var s, file := sections[i], Patched(io, checksum);
    assert HEADER_SIZE <= s.off;
    assert file[s.off..s.End()] == io[s.off..s.End()];
  }
}
