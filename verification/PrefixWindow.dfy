/** The prefix window of se_tokenizer.c: where a large document may be cut so that the slice in
    front of the cut tokenizes to a prefix of what the whole document tokenizes to.
  */
module PrefixWindow {
  import opened Utf8
  import opened NormTables
  import opened Tokenizer
  import Truncation

  // ----- legal cuts -----

  /** `normalization_stable`: the normaliser does not rewrite this codepoint. */
  predicate Stable(m: Model, cp: Scalar) {
    cp < 0x80 ||
    (&& (m.lowerCase ==> Lookup(m.tables.lower, cp).None?)
     && (m.stripAccents ==> Lookup(m.tables.nfd, cp).None? && !IsMn(m, cp)))
  }

  /** `cp_is_cjk_segment` */
  predicate CjkSegment(m: Model, cp: Scalar) { m.chinese && cp >= 0x3400 && IsCjk(cp) }

  /** An enabled added token starts before c and ends behind it. */
  ghost predicate SplitsLiteral(m: Model, text: seq<byte>, c: nat) {
    exists s: nat, k :: k in m.enabled && LiteralAt(text, s, k) && s < c < s + |Literal(k)|
  }

  predicate EndsAt(text: seq<byte>, pos: nat, c: nat) {
    pos < |text| && DecodeAt(text, pos).Some? && DecodeAt(text, pos).value.next == c
  }

  /** The codepoint at pos ends at c and ends a word. */
  predicate CutAfter(m: Model, text: seq<byte>, pos: nat, c: nat) {
    EndsAt(text, pos, c) &&
    var cp := DecodeAt(text, pos).value.cp;
    Stable(m, cp) && (CjkSegment(m, cp) || IsWhitespace(m, cp) || IsPunct(m, cp))
  }

  /** A CJK codepoint starts at c. */
  predicate CutBefore(m: Model, text: seq<byte>, c: nat) {
    && 0 < c < |text| && DecodeAt(text, c).Some?
    && Stable(m, DecodeAt(text, c).value.cp) && CjkSegment(m, DecodeAt(text, c).value.cp)
  }

  ghost predicate LegalCut(m: Model, text: seq<byte>, c: nat) {
    && 0 < c <= |text| && !SplitsLiteral(m, text, c)
    && (CutBefore(m, text, c) || exists pos :: 0 <= pos < c && CutAfter(m, text, pos, c))
  }

  /** What the backward scan may return when it looks at the codepoint at pos. */
  ghost predicate Offered(m: Model, text: seq<byte>, pos: nat, target: nat, c: nat) {
    && pos < |text| && !IsContinuation(text[pos]) && !SplitsLiteral(m, text, c)
    && ((c <= target && CutAfter(m, text, pos, c)) || (c == pos && CutBefore(m, text, c)))
  }

  // ----- the scan -----

  /** `boundary_splits_added_token` */
  method BoundarySplitsAddedToken(m: Model, text: seq<byte>, boundary: nat) returns (r: bool)
    ensures r <==> SplitsLiteral(m, text, boundary)
  {
    if m.enabled == {} || boundary == 0 || boundary >= |text| {
      return false;
    }
    hide Literal;
    var k := 0;
    while k < |ORDER|
      invariant 0 <= k <= |ORDER|
      invariant forall j: nat, s: nat | j < k && ORDER[j] in m.enabled && s < boundary < s + |Literal(ORDER[j])| ::
                  !LiteralAt(text, s, ORDER[j])
    {
      var token := ORDER[k];
      if token in m.enabled {
        var len := |Literal(token)|;
        var back: nat := 1;
        while back < len && back <= boundary
          invariant 1 <= back <= len && back <= boundary + 1
          invariant forall s: nat | s < boundary < s + len && boundary - s < back :: !LiteralAt(text, s, token)
        {
          var start: nat := boundary - back;
          BracketFirst(text, start, token);
          if start + len <= |text| && text[start] == BRACKET && text[start..start + len] == Literal(token) {
            assert LiteralAt(text, start, token);
            return true;
          }
          back := back + 1;
        }
      }
      k := k + 1;
    }
    forall s: nat, kind | kind in m.enabled && s < boundary < s + |Literal(kind)|
      ensures !LiteralAt(text, s, kind)
    {
      var j := OrderHolds(kind);
    }
    r := false;
  }

  /** The cut taken at the codepoint at pos, or 0: behind it if that is allowed, else in front of a CJK one. */
  ghost function TakenAt(m: Model, text: seq<byte>, pos: nat, target: nat): nat
    requires pos < |text| && DecodeAt(text, pos).Some?
  {
    var d := DecodeAt(text, pos).value;
    if !Stable(m, d.cp) then 0
    else if CjkSegment(m, d.cp) then
      if d.next <= target && !SplitsLiteral(m, text, d.next) then d.next
      else if pos > 0 && !SplitsLiteral(m, text, pos) then pos
      else 0
    else if (IsWhitespace(m, d.cp) || IsPunct(m, d.cp)) && d.next <= target
        && !SplitsLiteral(m, text, d.next) then d.next
    else 0
  }

  /** The result of the backward scan, positions from pos on having been rejected. */
  ghost function ScanBack(m: Model, text: seq<byte>, target: nat, floor: nat, pos: nat): nat
    requires pos <= target <= |text|
  {
    if pos <= floor then 0
    else
      var q := pos - 1;
      if IsContinuation(text[q]) then ScanBack(m, text, target, floor, q)
      else if DecodeAt(text, q).None? then 0
      else if TakenAt(m, text, q, target) != 0 then TakenAt(m, text, q, target)
      else ScanBack(m, text, target, floor, q)
  }

  function Floor(target: nat, backscan: nat): nat { if target > backscan then target - backscan else 0 }

  /** What `se_prefix_boundary_len` returns. */
  ghost function Boundary(m: Model, text: seq<byte>, target: nat, backscan: nat): nat {
    if target >= |text| then |text|
    else ScanBack(m, text, target, Floor(target, backscan), target)
  }

  method CutAt(m: Model, text: seq<byte>, pos: nat, target: nat) returns (r: nat)
    requires pos < target <= |text| && !IsContinuation(text[pos]) && DecodeAt(text, pos).Some?
    ensures r == TakenAt(m, text, pos, target)
  {
    var d := DecodeOne(text, pos);
    var cp, after := d.value.cp, d.value.next;
    hide SplitsLiteral;
    if !Stable(m, cp) {
      return 0;
    }
    DecodeSound(text, pos);
    if CjkSegment(m, cp) {
      if after <= target {
        var splits := BoundarySplitsAddedToken(m, text, after);
        if !splits {
          return after;
        }
      }
      if pos > 0 {
        var splits := BoundarySplitsAddedToken(m, text, pos);
        if !splits {
          return pos;
        }
      }
      return 0;
    }
    if (IsWhitespace(m, cp) || IsPunct(m, cp)) && after <= target {
      var splits := BoundarySplitsAddedToken(m, text, after);
      if !splits {
        return after;
      }
    }
    r := 0;
  }

  /** `se_prefix_boundary_len` */
  method PrefixBoundaryLen(m: Model, text: seq<byte>, target: nat, backscan: nat) returns (r: nat)
    ensures r == Boundary(m, text, target, backscan)
  {
    if target >= |text| {
      return |text|;
    }
    if target == 0 {
      return 0;
    }
    hide TakenAt, DecodeAt;
    var floor: nat := if target > backscan then target - backscan else 0;
    var pos: nat := target;
    while pos > floor
      invariant floor <= pos <= target
      invariant ScanBack(m, text, target, floor, target) == ScanBack(m, text, target, floor, pos)
    {
      pos := pos - 1;
      while pos > floor && IsContinuation(text[pos])
        invariant floor <= pos < target
        invariant ScanBack(m, text, target, floor, target) == ScanBack(m, text, target, floor, pos + 1)
      {
        pos := pos - 1;
      }
      if IsContinuation(text[pos]) {
        return 0;
      }
      var d := DecodeOne(text, pos);
      if d.None? {
        return 0;
      }
      var c := CutAt(m, text, pos, target);
      if c != 0 {
        return c;
      }
    }
    r := 0;
  }

  /** A cut that is taken was offered, and it is the last one the codepoint offers. */
  lemma TakenIsOffered(m: Model, text: seq<byte>, pos: nat, target: nat)
    requires pos < target <= |text| && !IsContinuation(text[pos]) && DecodeAt(text, pos).Some?
    ensures var c := TakenAt(m, text, pos, target);
            && (c != 0 ==>
                  pos <= c <= target && c <= |text| && Offered(m, text, pos, target, c) && LegalCut(m, text, c))
            && (forall o: nat | Offered(m, text, pos, target, o) :: o <= c)
  {
    OfferMeans(m, text, pos, target);
    CutsHere(m, text, pos);
    hide CutAfter, CutBefore, SplitsLiteral, Stable, CjkSegment, IsWhitespace, IsPunct, DecodeAt;
  }

  /** Where the result of the scan comes from, and what it passed over. */
  lemma {:induction false} ScanBackFinds(m: Model, text: seq<byte>, target: nat, floor: nat, pos: nat) returns (at: nat)
    requires pos <= target <= |text| && ScanBack(m, text, target, floor, pos) != 0
    ensures floor <= at < pos && !IsContinuation(text[at]) && DecodeAt(text, at).Some?
    ensures TakenAt(m, text, at, target) == ScanBack(m, text, target, floor, pos)
    ensures forall q | at < q < pos && !IsContinuation(text[q]) ::
        DecodeAt(text, q).Some? && TakenAt(m, text, q, target) == 0
  {
    hide TakenAt, DecodeAt;
    if !IsContinuation(text[pos - 1]) && TakenAt(m, text, pos - 1, target) != 0 {
      at := pos - 1;
    } else {
      at := ScanBackFinds(m, text, target, floor, pos - 1);
    }
  }

  lemma {:induction false} ScanBackMisses(m: Model, text: seq<byte>, target: nat, floor: nat, pos: nat, c: nat, q: nat)
    requires pos <= target <= |text| && Valid(text) && floor <= q < pos && Offered(m, text, q, target, c)
    ensures c <= ScanBack(m, text, target, floor, pos)
  {
    hide TakenAt, DecodeAt, Valid, SplitsLiteral, CutAfter, CutBefore, LegalCut;
    var last := pos - 1;
    if IsContinuation(text[last]) {
      ScanBackMisses(m, text, target, floor, last, c, q);
    } else {
      ValidLead(text, last);
      TakenIsOffered(m, text, last, target);
      if q < last {
        Earlier(m, text, last, target);
        if TakenAt(m, text, last, target) == 0 { ScanBackMisses(m, text, target, floor, last, c, q); }
      }
    }
  }

  /** The boundary is 0, the whole length, or a legal cut no further than the target; on valid text no
      cut the window offers lies behind it. */
  lemma BoundaryIsLegal(m: Model, text: seq<byte>, target: nat, backscan: nat)
    ensures var r := Boundary(m, text, target, backscan);
            && (target < |text| ==> r <= target && (r == 0 || LegalCut(m, text, r)))
            && (target < |text| && Valid(text) ==>
                  forall q: nat, c: nat | target <= q + backscan && q < target && Offered(m, text, q, target, c) ::
                      c <= r)
  {
    if target < |text| {
      var r := Boundary(m, text, target, backscan);
      if r != 0 {
        var at := ScanBackFinds(m, text, target, Floor(target, backscan), target);
        TakenIsOffered(m, text, at, target);
      }
      hide Offered, ScanBack, TakenAt, LegalCut;
      if Valid(text) {
        forall q: nat, c: nat | target <= q + backscan && q < target && Offered(m, text, q, target, c)
          ensures c <= r
        {
          ScanBackMisses(m, text, target, Floor(target, backscan), target, c, q);
        }
      }
    }
  }

  lemma TakenGrows(m: Model, text: seq<byte>, pos: nat, target: nat, larger: nat)
    requires pos < |text| && DecodeAt(text, pos).Some? && target <= larger
    ensures TakenAt(m, text, pos, target) <= TakenAt(m, text, pos, larger)
  {
    InsideIsContinuation(text, pos);
    hide DecodeAt;
  }

  /** A larger target never yields an earlier cut. */
  lemma BoundaryGrows(m: Model, text: seq<byte>, target: nat, larger: nat, backscan: nat)
    requires target <= larger && Boundary(m, text, target, backscan) != 0 && Boundary(m, text, larger, backscan) != 0
    ensures Boundary(m, text, target, backscan) <= Boundary(m, text, larger, backscan)
  {
    BoundaryIsLegal(m, text, target, backscan);
    if larger < |text| {
      var p := ScanBackFinds(m, text, target, Floor(target, backscan), target);
      var q := ScanBackFinds(m, text, larger, Floor(larger, backscan), larger);
      TakenGrows(m, text, p, target, larger);
      TakenIsOffered(m, text, p, target);
      TakenIsOffered(m, text, q, larger);
      hide ScanBack, TakenAt, LegalCut;
      if p < q { Earlier(m, text, q, target); }
    }
  }

  /** Which cuts the codepoint at pos offers. */
  lemma OfferMeans(m: Model, text: seq<byte>, pos: nat, target: nat)
    requires pos < |text| && DecodeAt(text, pos).Some?
    ensures var d := DecodeAt(text, pos).value;
            forall c: nat | Offered(m, text, pos, target, c) ::
              && Stable(m, d.cp) && !SplitsLiteral(m, text, c)
              && ((c == d.next && c <= target && (CjkSegment(m, d.cp) || IsWhitespace(m, d.cp) || IsPunct(m, d.cp)))
                  || (c == pos && pos > 0 && CjkSegment(m, d.cp)))
  {
  }

  lemma CutsHere(m: Model, text: seq<byte>, pos: nat)
    requires pos < |text| && DecodeAt(text, pos).Some?
    ensures var d := DecodeAt(text, pos).value;
            && pos < d.next <= |text|
            && (Stable(m, d.cp) && (CjkSegment(m, d.cp) || IsWhitespace(m, d.cp) || IsPunct(m, d.cp)) ==>
                  CutAfter(m, text, pos, d.next))
            && (Stable(m, d.cp) && CjkSegment(m, d.cp) && pos > 0 ==> CutBefore(m, text, pos))
  {
    DecodeSound(text, pos);
  }

  /** Codepoints further back can only offer cuts up to pos. */
  lemma Earlier(m: Model, text: seq<byte>, pos: nat, target: nat)
    requires pos < |text| && !IsContinuation(text[pos])
    ensures forall q: nat, c: nat | q < pos && Offered(m, text, q, target, c) :: c <= pos
  {
    forall q: nat, c: nat | q < pos && Offered(m, text, q, target, c)
      ensures c <= pos
    {
      InsideIsContinuation(text, q);
    }
  }

  lemma InsideIsContinuation(text: seq<byte>, i: nat)
    requires i < |text|
    ensures DecodeAt(text, i).Some? ==> var next := DecodeAt(text, i).value.next;
                                        i < next <= |text| && forall k | i < k < next :: IsContinuation(text[k])
    ensures DecodeAt(text, i).Some? ==> !IsContinuation(text[i])
  {
    if DecodeAt(text, i).Some? {
      DecodeSound(text, i);
      var d := DecodeAt(text, i).value;
      forall k | i <= k < d.next
        ensures text[k] == Encode(d.cp)[k - i]
      {
        assert text[k] == text[i..d.next][k - i];
      }
    }
  }

  /** In valid text every byte that is not a continuation byte starts a codepoint. */
  lemma ValidLead(text: seq<byte>, pos: nat)
    requires Valid(text) && pos < |text| && !IsContinuation(text[pos])
    ensures DecodeAt(text, pos).Some?
  {
    ValidIffDecodes(text);
    assert text[0..] == text;
    ValidLeadFrom(text, 0, pos);
  }

  lemma {:induction false} ValidLeadFrom(text: seq<byte>, i: nat, pos: nat)
    requires i <= pos < |text| && !IsContinuation(text[pos]) && DecodeAll(text[i..]).Some?
    ensures DecodeAt(text, pos).Some?
    decreases pos - i
  {
    ResumeStep(text, [], i);
    if i < pos {
      InsideIsContinuation(text, i);
      ValidLeadFrom(text, DecodeAt(text, i).value.next, pos);
    }
  }

  // ----- scanning up to a cut -----

  /** No encoding runs across c. */
  lemma NothingAcross(m: Model, text: seq<byte>, c: nat, i: nat)
    requires LegalCut(m, text, c) && i < c
    ensures DecodeAt(text, i).Some? ==> DecodeAt(text, i).value.next <= c
  {
    InsideIsContinuation(text, i);
    if CutBefore(m, text, c) {
      InsideIsContinuation(text, c);
    } else {
      var pos :| 0 <= pos < c && CutAfter(m, text, pos, c);
      InsideIsContinuation(text, pos);
    }
  }

  lemma DecodeInSlice(text: seq<byte>, c: nat, i: nat)
    requires i < c <= |text| && (DecodeAt(text, i).Some? ==> DecodeAt(text, i).value.next <= c)
    ensures DecodeAt(text[..c], i) == DecodeAt(text, i)
  {
    var slice := text[..c];
    if DecodeAt(text, i).Some? {
      DecodeSound(text, i);
      var d := DecodeAt(text, i).value;
      assert slice[i..d.next] == text[i..d.next];
      DecodeComplete(slice, i, d.cp);
    }
  }

  lemma AddedInSlice(m: Model, text: seq<byte>, c: nat, i: nat)
    requires i < c <= |text| && !SplitsLiteral(m, text, c)
    ensures AddedAt(m, text[..c], i) == AddedAt(m, text, i)
    ensures AddedAt(m, text, i).Some? ==> i + |Literal(AddedAt(m, text, i).value)| <= c
  {
    hide LiteralAt, Literal, SplitsLiteral;
    forall k | k in m.enabled
      ensures LiteralAt(text[..c], i, k) <==> LiteralAt(text, i, k)
      ensures LiteralAt(text, i, k) ==> i + |Literal(k)| <= c
    {
      LiteralInSlice(m, text, c, i, k);
    }
  }

  lemma LiteralInSlice(m: Model, text: seq<byte>, c: nat, i: nat, k: AddedKind)
    requires i < c <= |text| && !SplitsLiteral(m, text, c) && k in m.enabled
    ensures LiteralAt(text[..c], i, k) <==> LiteralAt(text, i, k)
    ensures LiteralAt(text, i, k) ==> i + |Literal(k)| <= c
  {
    hide Literal;
    if i + |Literal(k)| <= c { assert text[..c][i..i + |Literal(k)|] == text[i..i + |Literal(k)|]; }
  }

  /** In front of a cut the slice is scanned exactly like the whole text. */
  lemma ItemInSlice(m: Model, text: seq<byte>, c: nat, i: nat)
    requires LegalCut(m, text, c) && i < c
    ensures ItemAt(m, text[..c], i) == ItemAt(m, text, i)
    ensures ItemAt(m, text, i).Item? ==> ItemAt(m, text, i).next <= c
  {
    NothingAcross(m, text, c, i);
    DecodeInSlice(text, c, i);
    AddedInSlice(m, text, c, i);
    hide AddedAt, DecodeAt, Normal, EventsOf, LegalCut;
  }

  /** Scanning the whole text is scanning the slice and then the rest; or failing where the slice fails. */
  lemma {:induction false} ScanSplits(m: Model, text: seq<byte>, c: nat, i: nat)
    requires LegalCut(m, text, c) && i <= c
    ensures var a, rest := ScanFrom(m, text[..c], i), ScanFrom(m, text, c);
            ScanFrom(m, text, i) == if a.ok then Scan(a.evs + rest.evs, rest.ok) else a
    decreases c - i
  {
    if i == c {
      assert [] + ScanFrom(m, text, c).evs == ScanFrom(m, text, c).evs;
    } else {
      ItemInSlice(m, text, c, i);
      var item := ItemAt(m, text, i);
      if item.Item? {
        ScanSplits(m, text, c, item.next);
        hide ItemAt, LegalCut;
        ConcatEvents(item.evs, ScanFrom(m, text[..c], item.next).evs, ScanFrom(m, text, c).evs);
      }
    }
  }

  lemma ConcatEvents(a: seq<Event>, b: seq<Event>, c: seq<Event>)
    ensures a + (b + c) == a + b + c
  {
  }

  // ----- the state at a cut -----

  /** A codepoint the cut test relies on, and cleaning removes. */
  predicate DroppedBoundary(m: Model, cp: Scalar) {
    Stable(m, cp) && (CjkSegment(m, cp) || IsWhitespace(m, cp) || IsPunct(m, cp)) && IsDropped(m, cp)
  }

  /** The text holds no such codepoint. */
  predicate NoDroppedIn(m: Model, text: seq<byte>) {
    forall i | 0 <= i < |text| && DecodeAt(text, i).Some? :: !DroppedBoundary(m, DecodeAt(text, i).value.cp)
  }

  /** The tables know no such codepoint: control codepoints and U+FFFD are disjoint from the stable
      whitespace, punctuation and CJK the cut test looks for. */
  ghost predicate NoDroppedBoundary(m: Model) {
    forall cp: Scalar :: !DroppedBoundary(m, cp)
  }

  /** No word runs across c: none is pending there, or what follows does not continue it. */
  predicate WordEnds(m: Model, text: seq<byte>, c: nat)
    requires c <= |text|
  {
    var a, rest := ScanFrom(m, text[..c], 0), ScanFrom(m, text, c);
    !a.ok || Run(START, a.evs).seg == [] || (if rest.evs == [] then rest.ok else !rest.evs[0].Letter?)
  }

  /** What the prefix window relies on, of one text. */
  ghost predicate EveryCutEndsWord(m: Model, text: seq<byte>) {
    forall c: nat | LegalCut(m, text, c) :: WordEnds(m, text, c)
  }

  lemma StableLowered(m: Model, cp: Scalar)
    requires Stable(m, cp) && !(0x41 <= cp <= 0x5A) && !(m.stripAccents && cp >= 0x80 && IsMn(m, cp))
    ensures Stripped(m, cp) == [cp]
  {
  }

  /** A codepoint a cut relies on ends the word: its last event is no letter; a CJK one also starts
      with a break. */
  lemma BoundaryEvents(m: Model, cp: Scalar)
    requires m.cleanText && Stable(m, cp) && !IsDropped(m, cp)
    requires CjkSegment(m, cp) || IsWhitespace(m, cp) || IsPunct(m, cp)
    ensures var evs := EventsOf(m, Normal(m, cp));
            evs != [] && !evs[|evs| - 1].Letter? && (CjkSegment(m, cp) ==> evs[0] == Break)
  {
    hide IsDropped;
    assert Stripped(m, 0x20) == [0x20];
    StableLowered(m, cp);
    var c: Scalar := if IsWhitespace(m, cp) then 0x20 else cp;
    assert Normal(m, cp) == Spaced(m, c);
    assert EventOf(m, 0x20) == Break;
  }

  /** Of the codepoints the normaliser leaves alone, exactly those end a word: every other one is one letter. */
  lemma OthersAreLetters(m: Model, cp: Scalar)
    requires m.cleanText && Stable(m, cp) && !IsDropped(m, cp)
    requires !CjkSegment(m, cp) && !IsWhitespace(m, cp) && !IsPunct(m, cp)
    ensures var evs := EventsOf(m, Normal(m, cp)); |evs| == 1 && evs[0].Letter?
  {
    hide IsDropped;
    assert Normal(m, cp) == Spaced(m, cp) == Stripped(m, cp);
    if 0x41 <= cp <= 0x5A {
      assert Stripped(m, cp) == [cp] || Stripped(m, cp) == [cp + 32];
    } else {
      StableLowered(m, cp);
    }
  }

  /** When the slice ends behind such a codepoint, its events do not end in the middle of a word. */
  lemma {:induction false} EndsClosed(m: Model, text: seq<byte>, c: nat, pos: nat, i: nat)
    requires m.cleanText && NoDroppedIn(m, text) && LegalCut(m, text, c) && CutAfter(m, text, pos, c) && i <= pos
    ensures var a := ScanFrom(m, text[..c], i); a.ok ==> a.evs != [] && !a.evs[|a.evs| - 1].Letter?
    decreases pos - i
  {
    assert pos < c <= |text| by { InsideIsContinuation(text, pos); }
    hide LegalCut, CutAfter, NoDroppedIn, ItemAt;
    ItemInSlice(m, text, c, i);
    var item := ItemAt(m, text, i);
    if item.Item? && ScanFrom(m, text[..c], i).ok {
      if item.next <= pos {
        EndsClosed(m, text, c, pos, item.next);
      } else {
        LastItem(m, text, c, pos, i);
      }
    }
  }

  /** The item that reaches the cut. */
  lemma LastItem(m: Model, text: seq<byte>, c: nat, pos: nat, i: nat)
    requires m.cleanText && NoDroppedIn(m, text) && LegalCut(m, text, c) && CutAfter(m, text, pos, c) && i <= pos
    requires ItemAt(m, text, i).Item? && pos < ItemAt(m, text, i).next <= c
    ensures var item := ItemAt(m, text, i); item.next == c && item.evs != [] && !item.evs[|item.evs| - 1].Letter?
    ensures ItemAt(m, text[..c], i) == ItemAt(m, text, i) ==>
              var a := ScanFrom(m, text[..c], i); a.evs != [] && !a.evs[|a.evs| - 1].Letter?
  {
    var item := ItemAt(m, text, i);
    InsideIsContinuation(text, pos);
    var added := AddedAt(m, text, i);
    if added.Some? {
      var k := added.value;
      assert text[pos] == text[i..i + |Literal(k)|][pos - i];
      assert text[pos] < 0x80;
      assert DecodeAt(text, pos) == Some(Decoded(text[pos], pos + 1));
    } else {
      InsideIsContinuation(text, i);
      assert i == pos;
      BoundaryEvents(m, DecodeAt(text, pos).value.cp);
    }
    hide ItemAt, NoDroppedIn, LegalCut, CutAfter;
    assert item.next == c && item.evs != [] && !item.evs[|item.evs| - 1].Letter?;
    if ItemAt(m, text[..c], i) == item {
      assert ScanFrom(m, text[..c], c) == Scan([], true);
      assert item.evs + [] == item.evs;
    }
  }

  lemma {:induction false} ClosedState(st: State, evs: seq<Event>)
    requires evs != [] && !evs[|evs| - 1].Letter?
    ensures Run(st, evs).seg == []
    decreases |evs|
  {
    if |evs| == 1 {
      assert Run(st, evs) == Feed(st, evs[0]) by { assert evs[1..] == []; }
    } else {
      ClosedState(Feed(st, evs[0]), evs[1..]);
    }
  }

  /** A CJK codepoint is no '[', so no added token starts there. */
  lemma NotAdded(m: Model, text: seq<byte>, c: nat)
    requires CutBefore(m, text, c)
    ensures AddedAt(m, text, c).None?
  {
    var a := AddedAt(m, text, c);
    BracketFirst(text, c, if a.Some? then a.value else UNK);
  }

  /** At a legal cut the slice's pending word is finished, one way or the other: either there is none,
      or the first event behind the cut is a break. */
  lemma CutClosesWord(m: Model, text: seq<byte>, c: nat)
    requires m.cleanText && NoDroppedIn(m, text) && LegalCut(m, text, c)
    ensures WordEnds(m, text, c)
  {
    if CutBefore(m, text, c) {
      BoundaryEvents(m, DecodeAt(text, c).value.cp);
      InsideIsContinuation(text, c);
      NotAdded(m, text, c);
    } else {
      var pos :| 0 <= pos < c && CutAfter(m, text, pos, c);
      EndsClosed(m, text, c, pos, 0);
      if ScanFrom(m, text[..c], 0).ok { ClosedState(START, ScanFrom(m, text[..c], 0).evs); }
    }
  }

  /** A text without removed boundary codepoints is one the window may rely on. */
  lemma CleanCutsEndWords(m: Model, text: seq<byte>)
    requires m.cleanText && NoDroppedIn(m, text)
    ensures EveryCutEndsWord(m, text)
  {
    hide SplitsLiteral, CutBefore, CutAfter, NoDroppedIn, WordEnds;
    forall c: nat | LegalCut(m, text, c) ensures WordEnds(m, text, c) { CutClosesWord(m, text, c); }
  }

  /** Every word of the slice, the last one included, is a word of the whole text. */
  lemma SliceWords(m: Model, text: seq<byte>, c: nat)
    requires LegalCut(m, text, c) && WordEnds(m, text, c)
    ensures Words(m, text[..c]) <= Words(m, text)
    ensures var a := ScanFrom(m, text[..c], 0);
            a.ok && ScanFrom(m, text, 0).evs != a.evs ==>
                Words(m, text[..c]) <= Run(START, ScanFrom(m, text, 0).evs).words
  {
    ScanSplits(m, text, c, 0);
    hide ScanFrom, LegalCut;
    var a, rest := ScanFrom(m, text[..c], 0), ScanFrom(m, text, c);
    if a.ok {
      var st := Run(START, a.evs);
      RunConcat(START, a.evs, rest.evs);
      if rest.evs == [] {
        assert a.evs + rest.evs == a.evs;
      } else if st.seg == [] {
        RunKeepsWords(st, rest.evs);
      } else {
        ClosingEvent(st, rest.evs);
      }
    }
  }

  /** An event that is no letter finishes the pending word as it stands. */
  lemma ClosingEvent(st: State, evs: seq<Event>)
    requires evs != [] && !evs[0].Letter?
    ensures st.Flushed().words <= Run(st, evs).words
  {
    RunKeepsWords(Feed(st, evs[0]), evs[1..]);
  }

  /** A letter does not: the pending word grows. */
  lemma {:induction false} PendingGrows(st: State, evs: seq<Event>)
    requires st.seg != []
    ensures var words := Run(st, evs).Flushed().words;
            |words| > |st.words| && words[|st.words|].Plain? && st.seg <= words[|st.words|].chars
    decreases |evs|
  {
    if evs != [] {
      if evs[0].Letter? {
        PendingGrows(Feed(st, evs[0]), evs[1..]);
      } else {
        ClosingEvent(st, evs);
      }
    }
  }

  /** The exact condition at one legal cut: the words of the slice start the words of the text if and only
      if no word is pending at the cut or the next event does not continue it. */
  lemma SliceWordsIff(m: Model, text: seq<byte>, c: nat)
    requires LegalCut(m, text, c)
    ensures var a, rest := ScanFrom(m, text[..c], 0), ScanFrom(m, text, c);
            Words(m, text[..c]) <= Words(m, text) <==>
              (!a.ok || Run(START, a.evs).seg == [] || rest.evs == [] || !rest.evs[0].Letter?)
  {
    ScanSplits(m, text, c, 0);
    hide ScanFrom, LegalCut;
    var a, rest := ScanFrom(m, text[..c], 0), ScanFrom(m, text, c);
    if a.ok {
      var st := Run(START, a.evs);
      RunConcat(START, a.evs, rest.evs);
      if rest.evs == [] {
        assert a.evs + rest.evs == a.evs;
      } else if st.seg == [] {
        RunKeepsWords(st, rest.evs);
      } else if rest.evs[0].Letter? {
        var grown := Feed(st, rest.evs[0]);
        PendingGrows(grown, rest.evs[1..]);
        assert Words(m, text[..c])[|st.words|] == Plain(st.seg);
        assert |grown.seg| == |st.seg| + 1;
      } else {
        ClosingEvent(st, rest.evs);
      }
    }
  }

  /** A valid text is scanned to its end. */
  lemma {:induction false} ValidScan(m: Model, text: seq<byte>, i: nat)
    requires i <= |text| && DecodeAll(text[i..]).Some?
    ensures ScanFrom(m, text, i).ok
    decreases |text| - i
  {
    hide DecodeAll, DecodeAt, Normal, EventsOf;
    if i < |text| {
      var k := AddedAt(m, text, i);
      ResumeStep(text, [], i);
      if k.Some? {
        var next := i + |Literal(k.value)|;
        assert forall j | i <= j < next :: text[j] == text[i..next][j - i];
        AfterAscii(text, i, next);
        ValidScan(m, text, next);
      } else {
        ValidScan(m, text, DecodeAt(text, i).value.next);
      }
    }
  }

  lemma ValidRest(m: Model, text: seq<byte>, c: nat)
    requires Valid(text) && LegalCut(m, text, c)
    ensures ScanFrom(m, text[..c], 0).ok && ScanFrom(m, text, c).ok
  {
    ValidIffDecodes(text);
    assert text[0..] == text;
    ValidScan(m, text, 0);
    ScanSplits(m, text, c, 0);
  }

  /** The exact condition for one valid text: every legal cut of it is exact if and only if every legal
      cut of it ends a word. */
  lemma TextIsExactIff(m: Model, text: seq<byte>)
    requires Valid(text)
    ensures (forall c: nat | LegalCut(m, text, c) :: Words(m, text[..c]) <= Words(m, text)) <==>
        EveryCutEndsWord(m, text)
  {
    hide SplitsLiteral, CutBefore, CutAfter, Words;
    forall c: nat | LegalCut(m, text, c)
      ensures Words(m, text[..c]) <= Words(m, text) <==> WordEnds(m, text, c)
    {
      SliceWordsIff(m, text, c);
      ValidRest(m, text, c);
    }
    hide WordEnds;
  }

  /** Prefix exactness: the raw ids of the slice start the raw ids of the text; a slice that reports
      truncation has exactly the text's capped ids; and an invalid slice means an invalid text.
      Under either limit, for every text, valid or not. */
  lemma PrefixIsExact(m: Model, text: seq<byte>, c: nat, max: nat, rawLimit: bool)
    requires LegalCut(m, text, c) && WordEnds(m, text, c)
    ensures IdsOf(m, Words(m, text[..c])) <= IdsOf(m, Words(m, text))
    ensures var slice := Tokenize(m, text[..c], max, rawLimit);
            slice.InvalidUtf8? || slice.truncated ==> Tokenize(m, text, max, rawLimit) == slice
  {
    SliceWords(m, text, c);
    ScanSplits(m, text, c, 0);
    IdsOfPrefix(m, Words(m, text[..c]), Words(m, text));
    hide ScanFrom, LegalCut, Truncation.Cap, IdsOf;
    var a, all := ScanFrom(m, text[..c], 0), ScanFrom(m, text, 0);
    var p := m.Policy(rawLimit);
    if a.ok && ScanFrom(m, text, c).evs == [] {
      assert all.evs == a.evs;
    } else if a.ok {
      assert |all.evs| > |a.evs|;
      var sliceWords, textWords := Run(START, a.evs), Run(START, all.evs);
      RunConcat(START, a.evs, ScanFrom(m, text, c).evs);
      RunKeepsWords(sliceWords, ScanFrom(m, text, c).evs);
      IdsOfPrefix(m, sliceWords.words, textWords.words);
      IdsOfPrefix(m, sliceWords.Flushed().words, textWords.words);
      if Truncation.Cap(p, max, IdsOf(m, sliceWords.words)).truncated {
        Truncation.CapOfPrefix(p, max, IdsOf(m, sliceWords.words), IdsOf(m, textWords.words));
      } else if Truncation.Cap(p, max, IdsOf(m, sliceWords.Flushed().words)).truncated {
        Truncation.CapOfPrefix(p, max, IdsOf(m, sliceWords.Flushed().words), IdsOf(m, textWords.words));
      }
    }
  }

  // ----- the table hypothesis is exactly what is needed -----

  /** "a", then a boundary codepoint that cleaning removes, then "b". */
  function Glued(cp: Scalar): seq<byte> { [0x61] + Encode(cp) + [0x62] }

  lemma DroppedIsWide(m: Model, cp: Scalar)
    requires CjkSegment(m, cp) || IsWhitespace(m, cp) || IsPunct(m, cp)
    requires IsDropped(m, cp)
    ensures cp >= 0x80
  {
  }

  lemma GluedScan(m: Model, cp: Scalar)
    requires m.cleanText && IsDropped(m, cp) && cp >= 0x80
    ensures var text := Glued(cp); var c := 1 + |Encode(cp)|;
            && !SplitsLiteral(m, text, c) && EndsAt(text, 1, c) && DecodeAt(text, 1).value.cp == cp
            && ScanFrom(m, text[..c], 0) == Scan([Letter(0x61)], true)
            && ScanFrom(m, text, 0) == Scan([Letter(0x61), Letter(0x62)], true)
  {
    var text, c := Glued(cp), 1 + |Encode(cp)|;
    assert forall k | 0 <= k < |text| :: text[k] != BRACKET;
    assert text[1..c] == Encode(cp);
    DecodeComplete(text, 1, cp);
    assert text[..c][1..c] == Encode(cp);
    DecodeComplete(text[..c], 1, cp);
    NoBracketNoToken(m, text);
    NoBracketNoToken(m, text[..c]);
    assert !SplitsLiteral(m, text, c) by {
      forall s: nat, k | k in m.enabled && s < c < s + |Literal(k)|
        ensures !LiteralAt(text, s, k)
      {
        BracketFirst(text, s, k);
      }
    }
    assert Normal(m, cp) == [] && Normal(m, 0x61) == [0x61] && Normal(m, 0x62) == [0x62];
    assert EventsOf(m, []) == [] && EventsOf(m, [0x61]) == [Letter(0x61)] && EventsOf(m, [0x62]) == [Letter(0x62)];
    hide AddedAt, Normal, EventsOf, SplitsLiteral, LiteralAt, Encode, ScanFrom;
    assert DecodeAt(text, 0) == Some(Decoded(0x61, 1)) && DecodeAt(text[..c], 0) == Some(Decoded(0x61, 1));
    assert DecodeAt(text, c) == Some(Decoded(0x62, c + 1));
    hide DecodeAt;
    ScanThree(m, text, c, Letter(0x61), Letter(0x62));
  }

  /** Scanning a letter, nothing, and another letter, with and without the latter. */
  lemma ScanThree(m: Model, text: seq<byte>, c: nat, a: Event, b: Event)
    requires 1 < c < |text| == c + 1
    requires ItemAt(m, text, 0) == Item([a], 1) && ItemAt(m, text[..c], 0) == Item([a], 1)
    requires ItemAt(m, text, 1) == Item([], c) && ItemAt(m, text[..c], 1) == Item([], c)
    requires ItemAt(m, text, c) == Item([b], c + 1)
    ensures ScanFrom(m, text[..c], 0) == Scan([a], true) && ScanFrom(m, text, 0) == Scan([a, b], true)
  {
    hide ItemAt;
    assert ScanFrom(m, text[..c], c) == Scan([], true);
    assert ScanFrom(m, text[..c], 1) == Scan([] + [], true);
    assert ScanFrom(m, text, c + 1) == Scan([], true);
    assert ScanFrom(m, text, c) == Scan([b] + [], true);
    assert ScanFrom(m, text, 1) == Scan([] + [b], true);
    assert ScanFrom(m, text, 0) == Scan([a] + [b], true);
  }

  lemma NoBracketNoToken(m: Model, text: seq<byte>)
    requires forall k | 0 <= k < |text| :: text[k] != BRACKET
    ensures forall i | 0 <= i < |text| :: AddedAt(m, text, i).None?
  {
    forall i | 0 <= i < |text|
      ensures AddedAt(m, text, i).None?
    {
      var a := AddedAt(m, text, i);
      BracketFirst(text, i, if a.Some? then a.value else UNK);
    }
  }

  /** A removed boundary codepoint glues two words together, and the slice shows the first alone. */
  lemma DroppedBoundaryBreaksPrefix(m: Model, cp: Scalar)
    requires m.cleanText && DroppedBoundary(m, cp)
    ensures var text := Glued(cp); var c := 1 + |Encode(cp)|;
            && Valid(text) && LegalCut(m, text, c)
            && Words(m, text[..c]) == [Plain([0x61])] && Words(m, text) == [Plain([0x61, 0x62])]
  {
    DroppedIsWide(m, cp);
    GluedScan(m, cp);
    GluedIsValid(cp);
    var text, c := Glued(cp), 1 + |Encode(cp)|;
    hide ScanFrom, SplitsLiteral, Run, DecodeAt, Glued, Encode, Stable, IsDropped, IsWhitespace, IsPunct;
    assert CutAfter(m, text, 1, c);
    LettersRun(0x61, 0x62);
  }

  lemma GluedIsValid(cp: Scalar)
    ensures Valid(Glued(cp)) && |Glued(cp)| == |Encode(cp)| + 2
  {
    var cs: seq<Scalar> := [0x61, cp, 0x62];
    assert cs[1..] == [cp, 0x62] && [cp, 0x62][1..] == [0x62];
    assert EncodeAll([0x62]) == [0x62] + EncodeAll([]);
    assert EncodeAll(cs) == Glued(cp);
  }

  lemma LettersRun(a: Scalar, b: Scalar)
    ensures Run(START, [Letter(a)]).Flushed().words == [Plain([a])]
    ensures Run(START, [Letter(a), Letter(b)]).Flushed().words == [Plain([a, b])]
  {
    var x, y := Letter(a), Letter(b);
    assert [x][1..] == [] && [x, y][1..] == [y] && [y][1..] == [];
    assert START.seg + [a] == [a] && [a] + [b] == [a, b];
    assert Run(State([], [a]), [y]) == Run(State([], [a] + [b]), []);
    assert Run(START, [x, y]) == Run(State([], [a]), [y]);
    assert Run(START, [x]) == Run(State([], [a]), []);
  }

  lemma OneLetterIsNotTwo()
    ensures !([Plain([0x61])] <= [Plain([0x61, 0x62])])
  {
    var a: seq<Scalar>, b: seq<Scalar> := [0x61], [0x61, 0x62];
    assert |a| != |b|;
    assert [Plain(a)][0] != [Plain(b)][0];
  }

  /** The backward scan does take that cut. */
  lemma DroppedBoundaryIsTaken(m: Model, cp: Scalar, backscan: nat)
    requires m.cleanText && DroppedBoundary(m, cp) && backscan >= 4
    ensures Boundary(m, Glued(cp), 1 + |Encode(cp)|, backscan) == 1 + |Encode(cp)| < |Glued(cp)|
  {
    var text, c := Glued(cp), 1 + |Encode(cp)|;
    DroppedIsWide(m, cp);
    GluedIsValid(cp);
    GluedScan(m, cp);
    DroppedBoundaryBreaksPrefix(m, cp);
    BoundaryIsLegal(m, text, c, backscan);
    assert Offered(m, text, 1, c, c) by {
      hide ScanFrom, ItemAt, Normal;
      assert text[1] == Encode(cp)[0];
      assert !SplitsLiteral(m, text, c);
      hide LegalCut;
    }
  }

  /** So every cut the scan returns is exact, on every valid text and for every target, if and only if
      the tables know no boundary codepoint that cleaning removes. */
  lemma ExactIffNothingDropped(m: Model, backscan: nat)
    requires m.cleanText && backscan >= 4
    ensures (forall text: seq<byte>, target: nat | Valid(text) && target < |text| ::
               Words(m, text[..Cut(m, text, target, backscan)]) <= Words(m, text))
            <==> NoDroppedBoundary(m)
  {
    hide Words, Boundary, LegalCut, Valid, DroppedBoundary, WordEnds;
    if NoDroppedBoundary(m) {
      forall text: seq<byte>, target: nat | Valid(text) && target < |text|
        ensures Words(m, text[..Cut(m, text, target, backscan)]) <= Words(m, text)
      {
        BoundaryIsLegal(m, text, target, backscan);
        var c := Cut(m, text, target, backscan);
        if c == 0 {
          NoWords(m, text);
        } else {
          CutClosesWord(m, text, c);
          SliceWords(m, text, c);
        }
      }
    } else {
      var cp: Scalar :| DroppedBoundary(m, cp);
      DroppedBoundaryBreaksPrefix(m, cp);
      DroppedBoundaryIsTaken(m, cp, backscan);
      OneLetterIsNotTwo();
      var text, c := Glued(cp), 1 + |Encode(cp)|;
      assert Cut(m, text, c, backscan) == c && !(Words(m, text[..c]) <= Words(m, text));
    }
  }

  /** The cut of a target in front of the end; 0 when there is none. */
  ghost function Cut(m: Model, text: seq<byte>, target: nat, backscan: nat): (r: nat)
    requires target < |text|
    ensures r <= |text|
  {
    BoundaryIsLegal(m, text, target, backscan);
    Boundary(m, text, target, backscan)
  }

  lemma NoWords(m: Model, text: seq<byte>)
    ensures Words(m, text[..0]) == []
  {
    assert ScanFrom(m, text[..0], 0) == Scan([], true);
  }

  const NEXT_LINE: Scalar := 0x85

  /** The shipped tables list U+0085 both as control and as whitespace. */
  predicate ListsNextLineTwice(m: Model) {
    && Covers(m.tables.control, NEXT_LINE) && Covers(m.tables.whitespace, NEXT_LINE)
    && Lookup(m.tables.lower, NEXT_LINE).None? && Lookup(m.tables.nfd, NEXT_LINE).None?
        && !Covers(m.tables.mn, NEXT_LINE)
  }

  lemma NextLineIsADroppedBoundary(m: Model)
    requires ListsNextLineTwice(m)
    ensures DroppedBoundary(m, NEXT_LINE) && !NoDroppedBoundary(m)
  {
    var cp := NEXT_LINE;
    assert DroppedBoundary(m, cp);
  }

  /** For tables where it is the only such codepoint, the texts to watch for are those that contain its
      two bytes. */
  lemma NextLineDecides(m: Model, text: seq<byte>)
    requires ListsNextLineTwice(m) && forall cp: Scalar | cp != NEXT_LINE :: !DroppedBoundary(m, cp)
    ensures NoDroppedIn(m, text) <==> forall i: nat | i < |text| :: !NextLineBytes(text, i)
  {
    NextLineIsADroppedBoundary(m);
    hide DroppedBoundary, ListsNextLineTwice, NextLineBytes, DecodeAt;
    if NoDroppedIn(m, text) {
      forall i: nat | i < |text| ensures !NextLineBytes(text, i) { NextLineAt(text, i); }
    } else {
      var i: nat :| i < |text| && DecodeAt(text, i).Some? && DroppedBoundary(m, DecodeAt(text, i).value.cp);
      NextLineAt(text, i);
      assert NextLineBytes(text, i);
    }
  }

  predicate NextLineBytes(text: seq<byte>, i: nat) { i + 1 < |text| && text[i] == 0xC2 && text[i + 1] == 0x85 }

  lemma NextLineAt(text: seq<byte>, i: nat)
    requires i < |text|
    ensures DecodeAt(text, i).Some? && DecodeAt(text, i).value.cp == NEXT_LINE <==> NextLineBytes(text, i)
  {
    if DecodeAt(text, i).Some? { DecodeSound(text, i); }
    if NextLineBytes(text, i) {
      assert text[i..i + 2] == [0xC2, 0x85] == Encode(NEXT_LINE);
      DecodeComplete(text, i, NEXT_LINE);
    }
  }
}
