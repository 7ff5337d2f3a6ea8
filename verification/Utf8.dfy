/** The UTF-8 codec of se_unicode.c and of `decode_one` in se_tokenizer.c.

    `Encode` is the writer's bit layout.  Decoding is specified against it: a
    decoder must return the one scalar value whose encoding starts at the given
    position, or fail when no encoding starts there.
  */
module Utf8 {
  type byte = b: int | 0 <= b < 0x100
  type Scalar = c: int | 0 <= c < 0xD800 || 0xE000 <= c < 0x110000

  datatype Option<+T> = None | Some(value: T)

  datatype Decoded = Decoded(cp: Scalar, next: nat)

  predicate IsContinuation(b: byte) { 0x80 <= b < 0xC0 }

  function Encode(c: Scalar): (r: seq<byte>)
    ensures 1 <= |r| <= 4
    ensures !IsContinuation(r[0])
    ensures forall k | 1 <= k < |r| :: IsContinuation(r[k])
    ensures c < 0x80 <==> r[0] < 0x80
  {
    if c < 0x80 then [c]
    else if c < 0x800 then [0xC0 + c / 64, 0x80 + c % 64]
    else if c < 0x10000 then [0xE0 + c / 4096, 0x80 + c / 64 % 64, 0x80 + c % 64]
    else [0xF0 + c / 262144, 0x80 + c / 4096 % 64, 0x80 + c / 64 % 64, 0x80 + c % 64]
  }

  function EncodeAll(cs: seq<Scalar>): seq<byte> {
    if cs == [] then [] else Encode(cs[0]) + EncodeAll(cs[1..])
  }

  /** `bytes` holds, from position i on, an encoding of c. */
  predicate EncodedAt(bytes: seq<byte>, i: nat, c: Scalar) {
    i + |Encode(c)| <= |bytes| && bytes[i..i + |Encode(c)|] == Encode(c)
  }

  // ----- section 4 of RFC 3629: the well-formed byte sequences -----

  predicate WellFormed(u: seq<byte>) {
    || (|u| == 1 && u[0] <= 0x7F)
    || (|u| == 2 && 0xC2 <= u[0] <= 0xDF && IsContinuation(u[1]))
    || (|u| == 3 && SecondOfThree(u[0], u[1]) && IsContinuation(u[2]))
    || (|u| == 4 && SecondOfFour(u[0], u[1]) && IsContinuation(u[2]) && IsContinuation(u[3]))
  }

  predicate SecondOfThree(first: byte, second: byte) {
    || (first == 0xE0 && 0xA0 <= second <= 0xBF)
    || (0xE1 <= first <= 0xEC && IsContinuation(second))
    || (first == 0xED && 0x80 <= second <= 0x9F)
    || (0xEE <= first <= 0xEF && IsContinuation(second))
  }

  predicate SecondOfFour(first: byte, second: byte) {
    || (first == 0xF0 && 0x90 <= second <= 0xBF)
    || (0xF1 <= first <= 0xF3 && IsContinuation(second))
    || (first == 0xF4 && 0x80 <= second <= 0x8F)
  }

  // ----- decoding one codepoint -----

  /** How many continuation bytes the lead byte announces; None for a byte that leads nothing. */
  function Need(b0: byte): Option<nat> {
    if b0 < 0x80 then Some(0)
    else if 0xC0 <= b0 < 0xE0 then Some(1)
    else if 0xE0 <= b0 < 0xF0 then Some(2)
    else if 0xF0 <= b0 < 0xF8 then Some(3)
    else None
  }

  function LeadBits(b0: byte): int {
    if 0xC0 <= b0 < 0xE0 then b0 - 0xC0
    else if 0xE0 <= b0 < 0xF0 then b0 - 0xE0
    else if 0xF0 <= b0 < 0xF8 then b0 - 0xF0
    else b0
  }

  function Tail(b: byte): int { b - 0x80 }

  /** The lead byte's bits with the first k continuation bytes shifted in behind them. */
  function Gather(bytes: seq<byte>, i: nat, k: nat): int
    requires k <= 3 && i + k < |bytes|
  {
    if k == 0 then LeadBits(bytes[i])
    else if k == 1 then LeadBits(bytes[i]) * 64 + Tail(bytes[i + 1])
    else if k == 2 then (LeadBits(bytes[i]) * 64 + Tail(bytes[i + 1])) * 64 + Tail(bytes[i + 2])
    else ((LeadBits(bytes[i]) * 64 + Tail(bytes[i + 1])) * 64 + Tail(bytes[i + 2])) * 64 + Tail(bytes[i + 3])
  }

  predicate IsScalar(v: int) { 0 <= v < 0xD800 || 0xE000 <= v < 0x110000 }

  predicate Shortest(need: nat, v: int) {
    (need == 1 ==> v >= 0x80) && (need == 2 ==> v >= 0x800) && (need == 3 ==> v >= 0x10000)
  }

  /** The k bytes after position i are continuation bytes. */
  predicate Continued(bytes: seq<byte>, i: nat, k: nat)
    requires k <= 3 && i + k < |bytes|
  {
    && (k >= 1 ==> IsContinuation(bytes[i + 1]))
    && (k >= 2 ==> IsContinuation(bytes[i + 2]))
    && (k >= 3 ==> IsContinuation(bytes[i + 3]))
  }

  function DecodeAt(bytes: seq<byte>, i: nat): (r: Option<Decoded>)
    requires i < |bytes|
  {
    match Need(bytes[i])
    case None => None
    case Some(need) =>
      if i + need < |bytes| && Continued(bytes, i, need) && Shortest(need, Gather(bytes, i, need)) &&
         IsScalar(Gather(bytes, i, need))
      then Some(Decoded(Gather(bytes, i, need), i + need + 1))
      else None
  }

  /** The base-64 digits of a number written as three digits behind a leading one. */
  lemma Digits(a: nat, b: nat, c: nat, d: nat)
    requires b < 64 && c < 64 && d < 64
    ensures var v := ((a * 64 + b) * 64 + c) * 64 + d;
            v / 262144 == a && v / 4096 % 64 == b && v / 64 % 64 == c && v % 64 == d && v / 4096 == a * 64 + b
            && v / 64 == (a * 64 + b) * 64 + c
  {
    var v := ((a * 64 + b) * 64 + c) * 64 + d;
    assert v / 64 == (a * 64 + b) * 64 + c;
    assert v / 4096 == v / 64 / 64 == a * 64 + b;
    assert v / 262144 == v / 4096 / 64 == a;
  }

  lemma Encode2(a: nat, d: nat)
    requires d < 64 && 0x80 <= a * 64 + d < 0x800
    ensures Encode(a * 64 + d) == [0xC0 + a, 0x80 + d]
  {
  }

  lemma Encode3(a: nat, c: nat, d: nat)
    requires c < 64 && d < 64 && 0x800 <= (a * 64 + c) * 64 + d < 0x10000 && IsScalar((a * 64 + c) * 64 + d)
    ensures Encode((a * 64 + c) * 64 + d) == [0xE0 + a, 0x80 + c, 0x80 + d]
  {
    Digits(0, a, c, d);
  }

  lemma Encode4(a: nat, b: nat, c: nat, d: nat)
    requires b < 64 && c < 64 && d < 64 && 0x10000 <= ((a * 64 + b) * 64 + c) * 64 + d < 0x110000
    ensures Encode(((a * 64 + b) * 64 + c) * 64 + d) == [0xF0 + a, 0x80 + b, 0x80 + c, 0x80 + d]
  {
    Digits(a, b, c, d);
  }

  /** The value gathered from a sequence of each length encodes back to that sequence. */
  lemma GatherEncodes(u: seq<byte>)
    requires 1 <= |u| <= 4 && Need(u[0]) == Some(|u| - 1) && Continued(u, 0, |u| - 1)
    requires Shortest(|u| - 1, Gather(u, 0, |u| - 1)) && IsScalar(Gather(u, 0, |u| - 1))
    ensures Encode(Gather(u, 0, |u| - 1)) == u
  {
    if |u| == 1 {
      assert Encode(u[0]) == u;
    } else if |u| == 2 {
      hide Encode;
      Encode2(LeadBits(u[0]), Tail(u[1]));
    } else if |u| == 3 {
      hide Encode;
      Encode3(LeadBits(u[0]), Tail(u[1]), Tail(u[2]));
    } else {
      hide Encode;
      Encode4(LeadBits(u[0]), Tail(u[1]), Tail(u[2]), Tail(u[3]));
    }
  }

  lemma EncodeGathers(c: Scalar)
    ensures var u := Encode(c);
            && Need(u[0]) == Some(|u| - 1) && Continued(u, 0, |u| - 1)
            && Gather(u, 0, |u| - 1) == c && Shortest(|u| - 1, c)
  {
    var a, b, d := c / 262144, c / 4096 % 64, c / 64 % 64;
    assert c / 4096 == c / 64 / 64 && c / 262144 == c / 4096 / 64;
  }

  /** Only the bytes of the sequence itself matter to the decoder. */
  lemma GatherLocal(bytes: seq<byte>, i: nat, k: nat)
    requires k <= 3 && i + k < |bytes|
    ensures var u := bytes[i..i + k + 1];
            Gather(u, 0, k) == Gather(bytes, i, k) && (Continued(u, 0, k) <==> Continued(bytes, i, k))
  {
    var u := bytes[i..i + k + 1];
    assert forall j | 0 <= j <= k :: u[j] == bytes[i + j];
    assert u[0] == bytes[i];
  }

  /** What a decoder accepts is an encoding, and it steps over exactly that encoding. */
  lemma DecodeSound(bytes: seq<byte>, i: nat)
    requires i < |bytes| && DecodeAt(bytes, i).Some?
    ensures var d := DecodeAt(bytes, i).value;
            EncodedAt(bytes, i, d.cp) && d.next == i + |Encode(d.cp)|
  {
    var need := Need(bytes[i]).value;
    GatherLocal(bytes, i, need);
    GatherEncodes(bytes[i..i + need + 1]);
  }

  /** Every encoding is accepted, and decodes to the value it encodes. */
  lemma DecodeComplete(bytes: seq<byte>, i: nat, c: Scalar)
    requires i < |bytes| && EncodedAt(bytes, i, c)
    ensures DecodeAt(bytes, i) == Some(Decoded(c, i + |Encode(c)|))
  {
    var e := Encode(c);
    EncodeGathers(c);
    assert bytes[i] == bytes[i..i + |e|][0];
    GatherLocal(bytes, i, |e| - 1);
  }

  /** The two directions together: the decoder's answer is the encoding that starts here, if any. */
  lemma DecodeExact(bytes: seq<byte>, i: nat)
    requires i < |bytes|
    ensures forall c: Scalar, n: nat ::
              DecodeAt(bytes, i) == Some(Decoded(c, n)) <==> EncodedAt(bytes, i, c) && n == i + |Encode(c)|
  {
    forall c: Scalar, n: nat
      ensures DecodeAt(bytes, i) == Some(Decoded(c, n)) <==> EncodedAt(bytes, i, c) && n == i + |Encode(c)|
    {
      if EncodedAt(bytes, i, c) { DecodeComplete(bytes, i, c); }
      if DecodeAt(bytes, i).Some? { DecodeSound(bytes, i); }
    }
  }

  lemma AcceptsExactlyWellFormed(u: seq<byte>)
    requires u != []
    ensures WellFormed(u) <==> DecodeAt(u, 0).Some? && DecodeAt(u, 0).value.next == |u|
  {
    if DecodeAt(u, 0).Some? && DecodeAt(u, 0).value.next == |u| {
      DecodeSound(u, 0);
      var c := DecodeAt(u, 0).value.cp;
      assert u == u[0..0 + |Encode(c)|] == Encode(c);
    }
  }

  /** `decode_one`: the byte loop computes what DecodeAt says. */
  method DecodeOne(src: seq<byte>, i: nat) returns (r: Option<Decoded>)
    requires i < |src|
    ensures r == DecodeAt(src, i)
  {
    var b0 := src[i];
    var need: nat;
    var cp: int;
    if b0 < 0x80 {
      return Some(Decoded(b0, i + 1));
    }
    if 0xC0 <= b0 < 0xE0 {
      cp, need := b0 - 0xC0, 1;
    } else if 0xE0 <= b0 < 0xF0 {
      cp, need := b0 - 0xE0, 2;
    } else if 0xF0 <= b0 < 0xF8 {
      cp, need := b0 - 0xF0, 3;
    } else {
      return None;
    }
    if i + need >= |src| {
      return None;
    }
    var k := 1;
    while k <= need
      invariant 1 <= k <= need + 1
      invariant Continued(src, i, k - 1)
      invariant cp == Gather(src, i, k - 1)
    {
      var bk := src[i + k];
      if !IsContinuation(bk) {
        return None;
      }
      cp := cp * 64 + Tail(bk);
      k := k + 1;
    }
    if (need == 1 && cp < 0x80) || (need == 2 && cp < 0x800) || (need == 3 && cp < 0x10000) {
      return None;
    }
    if cp > 0x10FFFF || 0xD800 <= cp <= 0xDFFF {
      return None;
    }
    return Some(Decoded(cp, i + need + 1));
  }

  // ----- whole strings -----

  ghost predicate Valid(bytes: seq<byte>) {
    exists cs: seq<Scalar> :: EncodeAll(cs) == bytes
  }

  function DecodeAll(bytes: seq<byte>): Option<seq<Scalar>>
    decreases |bytes|
  {
    if bytes == [] then Some([])
    else match DecodeAt(bytes, 0)
      case None => None
      case Some(d) =>
        if d.next > |bytes| then None
        else match DecodeAll(bytes[d.next..])
          case None => None
          case Some(rest) => Some([d.cp] + rest)
  }

  /** Decoding inverts encoding on every scalar-value sequence, and accepts nothing else. */
  lemma {:induction false} DecodeAllExact(bytes: seq<byte>, cs: seq<Scalar>)
    ensures DecodeAll(bytes) == Some(cs) <==> EncodeAll(cs) == bytes
    decreases |cs|, |bytes|
  {
    hide Encode, DecodeAt;
    if cs != [] {
      var c, rest := cs[0], cs[1..];
      if bytes != [] && EncodedAt(bytes, 0, c) {
        DecodeComplete(bytes, 0, c);
        var n := |Encode(c)|;
        DecodeAllExact(bytes[n..], rest);
        assert bytes == Encode(c) + bytes[n..] by { assert bytes[0..0 + n] == Encode(c); }
        if EncodeAll(cs) == bytes {
          assert EncodeAll(rest) == bytes[n..];
          assert [c] + rest == cs;
        }
      } else {
        assert EncodeAll(cs) != bytes by {
          assert EncodeAll(cs)[0..0 + |Encode(c)|] == Encode(c);
        }
        if bytes != [] && DecodeAt(bytes, 0).Some? {
          DecodeSound(bytes, 0);
        }
      }
    }
  }

  lemma ValidIffDecodes(bytes: seq<byte>)
    ensures Valid(bytes) <==> DecodeAll(bytes).Some?
  {
    if Valid(bytes) {
      var cs: seq<Scalar> :| EncodeAll(cs) == bytes;
      DecodeAllExact(bytes, cs);
    }
    if DecodeAll(bytes).Some? {
      DecodeAllExact(bytes, DecodeAll(bytes).value);
    }
  }

  lemma ShiftDecode(bytes: seq<byte>, i: nat)
    requires i < |bytes|
    ensures DecodeAt(bytes[i..], 0) ==
            match DecodeAt(bytes, i) case None => None case Some(d) => Some(Decoded(d.cp, d.next - i))
  {
    match Need(bytes[i])
    case None =>
    case Some(need) =>
      if i + need < |bytes| {
        GatherLocal(bytes, i, need);
        GatherLocal(bytes[i..], 0, need);
        assert bytes[i..][0..need + 1] == bytes[i..i + need + 1];
      }
  }

  /** The decoding of the whole string, given what is still to come and what came before. */
  function Resume(out: seq<Scalar>, rest: Option<seq<Scalar>>): Option<seq<Scalar>> {
    match rest case None => None case Some(cs) => Some(out + cs)
  }

  lemma ResumeStep(src: seq<byte>, out: seq<Scalar>, i: nat)
    requires i < |src|
    ensures match DecodeAt(src, i)
            case None => DecodeAll(src[i..]) == None
            case Some(d) => d.next <= |src| && i < d.next &&
                            Resume(out, DecodeAll(src[i..])) == Resume(out + [d.cp], DecodeAll(src[d.next..]))
    ensures DecodeAll(src[i..]).Some? ==> |DecodeAll(src[i..]).value| >= 1
  {
    ShiftDecode(src, i);
    if DecodeAt(src, i).Some? {
      DecodeSound(src, i);
      var d := DecodeAt(src, i).value;
      assert src[i..][d.next - i..] == src[d.next..];
      var rest := DecodeAll(src[d.next..]);
      if rest.Some? { assert out + ([d.cp] + rest.value) == out + [d.cp] + rest.value; }
    }
  }

  /** ASCII bytes are codepoints of their own: what follows them is valid too. */
  lemma {:induction false} AfterAscii(text: seq<byte>, i: nat, j: nat)
    requires i <= j <= |text| && DecodeAll(text[i..]).Some? && forall k | i <= k < j :: text[k] < 0x80
    ensures DecodeAll(text[j..]).Some?
    decreases j - i
  {
    if i < j {
      ResumeStep(text, [], i);
      assert DecodeAt(text, i) == Some(Decoded(text[i], i + 1));
      AfterAscii(text, i + 1, j);
    }
  }

  /** `se_utf8_decode`: at most `cap` codepoints; ok exactly when the bytes are valid and fit. */
  method DecodeString(src: seq<byte>, cap: nat) returns (out: seq<Scalar>, ok: bool)
    ensures |out| <= cap
    ensures ok <==> DecodeAll(src).Some? && |DecodeAll(src).value| <= cap
    ensures ok ==> EncodeAll(out) == src
  {
    out := [];
    var i := 0;
    assert src[0..] == src;
    assert DecodeAll(src).Some? ==> [] + DecodeAll(src).value == DecodeAll(src).value;
    while i < |src|
      invariant i <= |src| && |out| <= cap
      invariant DecodeAll(src) == Resume(out, DecodeAll(src[i..]))
      decreases |src| - i
    {
      ResumeStep(src, out, i);
      if |out| >= cap {
        return out, false;
      }
      var d := DecodeOne(src, i);
      if d.None? {
        return out, false;
      }
      out := out + [d.value.cp];
      i := d.value.next;
    }
    ok := true;
    assert src[i..] == [];
    assert out + [] == out;
    DecodeAllExact(src, out);
  }

  // ----- prefixes -----

  lemma Associates(x: seq<byte>, y: seq<byte>, z: seq<byte>)
    ensures x + (y + z) == x + y + z
  {
  }

  lemma {:induction false} EncodeAllConcat(a: seq<Scalar>, b: seq<Scalar>)
    ensures EncodeAll(a + b) == EncodeAll(a) + EncodeAll(b)
  {
    hide Encode;
    if a == [] {
      assert a + b == b;
    } else {
      EncodeAllConcat(a[1..], b);
      assert (a + b)[0] == a[0] && (a + b)[1..] == a[1..] + b;
      Associates(Encode(a[0]), EncodeAll(a[1..]), EncodeAll(b));
    }
  }

  /** No encoding is a proper prefix of another one, so byte prefixes are codepoint prefixes. */
  lemma {:induction false} PrefixOfEncoding(t: seq<Scalar>, w: seq<Scalar>)
    requires EncodeAll(t) <= EncodeAll(w)
    ensures t <= w
  {
    if t != [] {
      var bytes := EncodeAll(w);
      var n := |Encode(t[0])|;
      assert bytes[0..0 + n] == Encode(t[0]) by {
        assert EncodeAll(t)[..n] == Encode(t[0]);
      }
      assert w != [];
      DecodeComplete(bytes, 0, t[0]);
      assert bytes[0..0 + |Encode(w[0])|] == Encode(w[0]);
      DecodeComplete(bytes, 0, w[0]);
      assert t[0] == w[0];
      assert EncodeAll(t[1..]) == EncodeAll(t)[n..];
      assert EncodeAll(w[1..]) == EncodeAll(w)[n..];
      PrefixOfEncoding(t[1..], w[1..]);
    }
  }
}
