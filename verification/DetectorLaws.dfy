/**
 What the detector reports is safe to redact: its hits come back as whole
 characters of string values, which redaction takes exactly as they are and
 never splits.
 */
module DetectorLaws {
  import opened Bytes
  import opened Json
  import opened JsonDecode
  import opened JsonLayout
  import opened JoinedSpans
  import opened TokenPlaces
  import opened Splice
  import opened RedactTokens
  import opened Redaction
  import opened Enforce
  import opened RedactionLaws
  import opened RedactionText
  import opened GlyphCuts
  import opened Presidio
  import ValueLaws
  import opened Utf8

  // ── One span, one value, one finding ───────────────────────────────────

  lemma {:induction false} PartsAfter(ats: seq<seq<nat>>, n: nat, s: nat, e: nat)
    requires n <= |ats| && AllNonEmpty(ats) && (n > 0 ==> Limit(ats, n - 1) <= s)
    ensures Parts(ats, n, s, e) == []
  {
    if n > 0 {
      if n > 1 {
        OffsetGrows(ats, n - 2, n - 1);
      }
      PartsAfter(ats, n - 1, s, e);
    }
  }

  /** A non-empty span inside value `k` is one finding, from its first character's bytes to its last one's. */
  lemma SpanInValue(ats: seq<seq<nat>>, k: nat, a: nat, b: nat, s: nat, e: nat)
    requires k < |ats| && AllNonEmpty(ats) && a < b < |ats[k]|
    requires s == Offset(ats, k) + a && e == Offset(ats, k) + b
    ensures Parts(ats, |ats|, s, e) == [Span(ats[k][a], ats[k][b])]
  {
    PartsBefore(ats, k + 1, |ats|, s, e);
    if k > 0 {
      OffsetGrows(ats, k - 1, k);
    }
    PartsAfter(ats, k, s, e);
    PartInside(ats[k], Offset(ats, k), a, b, s, e);
  }

  lemma PartInside(at: seq<nat>, off: nat, a: nat, b: nat, s: nat, e: nat)
    requires a < b < |at| && s == off + a && e == off + b
    ensures Part(at, off, s, e) == [Span(at[a], at[b])]
  {
  }

  /** Every prose value is a string value of the text, read as characters. */
  lemma {:induction false} ProsePlace(checked: bool, ts: seq<Token>, strings: seq<StrLit>, places: seq<Place>, n: nat, i: nat)
    returns (at: Place)
    requires n <= |strings| == |places| && AllHaveBodies(places) && ListsStrings(ts, strings, places)
    requires ProseValues(checked, strings, places, n).Got? && i < |ProseValues(checked, strings, places, n).value|
    ensures TokenAt(ts, 0, at.token, at.at) && at.token.Str? && ValidPieces(at.token.body)
    ensures
      var v := ProseValues(checked, strings, places, n).value[i];
      SeenGlyphs(checked, at.token.body) == Got(v.glyphs) && v.base == at.at + 1
  {
    var before := ProseValues(checked, strings, places, n - 1);
    if i < |before.value| {
      at := ProsePlace(checked, ts, strings, places, n - 1, i);
    } else {
      at := places[n - 1];
      assert IsLiteral(ts, strings[n - 1], at);
    }
  }

  /** A string value of a text, read as the detector reads it; whether arithmetic is checked makes no difference to that. */
  ghost predicate ReadsHere(ts: seq<Token>, at: Place, gs: seq<Glyph>) {
    && TokenAt(ts, 0, at.token, at.at) && at.token.Str? && ValidPieces(at.token.body)
    && SeenGlyphs(false, at.token.body) == Got(gs)
  }

  /** The bytes of characters `a` to `b` of the value. */
  function GlyphSpan(at: Place, gs: seq<Glyph>, a: nat, b: nat): Span
    requires a <= b <= |gs|
  {
    Span(at.at + 1 + Extent(gs[..a]), at.at + 1 + Extent(gs[..b]))
  }

  /** A hit on characters `a` to `b` of one prose value comes back as the bytes of those characters in the document. */
  lemma HitInValue(checked: bool, ts: seq<Token>, strings: seq<StrLit>, places: seq<Place>, vs: seq<Prose>, k: nat, a: nat, b: nat, h: Hit)
    returns (at: Place)
    requires ProseOf(checked, ts, strings, places, vs) && AllValid(vs) && k < |vs| && a < b <= |vs[k].glyphs|
    requires h.start == Offset(Ats(vs), k) + a && h.end == Offset(Ats(vs), k) + b
    ensures ReadsHere(ts, at, vs[k].glyphs)
    ensures Parts(Ats(vs), |vs|, h.start, h.end) == [GlyphSpan(at, vs[k].glyphs, a, b)]
  {
    at := ProseAt(checked, ts, strings, places, vs, k);
    ProseSpan(vs, k, at, a, b);
    SpanInValue(Ats(vs), k, a, b, h.start, h.end);
  }

  lemma ProseSpan(vs: seq<Prose>, k: nat, at: Place, a: nat, b: nat)
    requires AllValid(vs) && k < |vs| && a <= b <= |vs[k].glyphs| && vs[k].base == at.at + 1
    ensures |Ats(vs)[k]| == |vs[k].glyphs| + 1
    ensures Span(Ats(vs)[k][a], Ats(vs)[k][b]) == GlyphSpan(at, vs[k].glyphs, a, b)
  {
    assert Ats(vs)[k] == vs[k].At();
  }

  // ── Never refused, never discarded, never widened ──────────────────────

  lemma GlyphEdge(gs: seq<Glyph>, a: nat, base: nat, q: nat)
    requires a <= |gs| && q == base + Extent(gs[..a])
    ensures EdgeAt(AllPieces(gs), base, q)
  {
    assert gs == gs[..a] + gs[a..];
    AllPiecesJoin(gs[..a], gs[a..]);
    BoundaryJoin(AllPieces(gs[..a]), AllPieces(gs[a..]), q - base);
  }

  lemma SpanEdges(gs: seq<Glyph>, base: nat, a: nat, b: nat, f: Span)
    requires AllLegible(gs) && a < b <= |gs| && f == Span(base + Extent(gs[..a]), base + Extent(gs[..b]))
    ensures f.start < f.end <= base + Extent(gs) && EdgeAt(AllPieces(gs), base, f.start) && EdgeAt(AllPieces(gs), base, f.end)
  {
    ExtentBetween(gs, a, b);
    GlyphEdge(gs, a, base, f.start);
    GlyphEdge(gs, b, base, f.end);
  }

  lemma {:induction false} SpanInside(ts: seq<Token>, at: Place, gs: seq<Glyph>, a: nat, b: nat)
    requires ReadsHere(ts, at, gs) && a < b <= |gs|
    ensures
      var f := GlyphSpan(at, gs, a, b);
      && f.start < f.end && Inside(f, Region(at.token, at.at))
      && EdgeAt(at.token.body, at.at + 1, f.start) && EdgeAt(at.token.body, at.at + 1, f.end)
  {
    WriteSeen(false, at.token.body);
    SpanEdges(gs, at.at + 1, a, b, GlyphSpan(at, gs, a, b));
  }

  /** Redaction takes exactly the bytes of the reported characters. */
  lemma EditIsSpan(ts: seq<Token>, at: Place, gs: seq<Glyph>, a: nat, b: nat, f: Finding)
    requires ReadsHere(ts, at, gs) && a < b <= |gs| && f.span == GlyphSpan(at, gs, a, b)
    ensures IsEditFor(at, f, Edit(f.span, false, f.tag))
  {
    SpanInside(ts, at, gs, a, b);
  }

  /** A character starts with a byte that is no continuation of another. */
  lemma LeadOf(g: Glyph)
    requires Legible(g)
    ensures SpellPieces(GlyphPieces(g)) != [] && !IsContinuation(SpellPieces(GlyphPieces(g))[0])
  {
    GlyphPositive(g);
    if g.Literal? {
      SpellRaw(Encode(g.cp));
    } else {
      var ps := GlyphPieces(g);
      assert SpellPieces(ps) == SpellPiece(ps[0]) + SpellPieces(ps[1..]);
    }
  }

  lemma {:induction false} LeadByte(gs: seq<Glyph>, i: nat, d: nat)
    requires AllLegible(gs) && i < |gs| && d == Extent(gs[..i])
    ensures d < |SpellPieces(AllPieces(gs))| && !IsContinuation(SpellPieces(AllPieces(gs))[d])
  {
    var x, y, z := SpellPieces(AllPieces(gs[..i])), SpellPieces(GlyphPieces(gs[i])), SpellPieces(AllPieces(gs[i + 1..]));
    LeadOf(gs[i]);
    assert SpellPieces(AllPieces(gs)) == x + (y + z) by {
      ValueLaws.SpellAround(gs, i);
    }
    ValueLaws.MiddleByte(x, y, z, d, 0);
  }

  /** Where a character of a value starts, or the value ends, no character of the text is cut. */
  lemma {:induction false} CharEdge(content: bytes, at: Place, gs: seq<Glyph>, i: nat, d: nat, q: nat)
    requires Stands(content, at) && at.token == Str(AllPieces(gs)) && AllLegible(gs) && i <= |gs|
    requires d == Extent(gs[..i]) && q == at.at + 1 + d
    ensures Edge(content, q)
  {
    if i < |gs| {
      LeadByte(gs, i, d);
      ValueLaws.ByteInside(content, AllPieces(gs), at, Region(at.token, at.at), q, d);
    } else {
      assert gs[..i] == gs;
      QuoteEdge(content, at, AllPieces(gs), q);
    }
  }

  lemma QuoteEdge(content: bytes, at: Place, body: seq<Piece>, q: nat)
    requires Stands(content, at) && at.token == Str(body) && q == at.at + 1 + |SpellPieces(body)|
    ensures Edge(content, q)
  {
    QuotedSlice(content, SpellPieces(body), at.at, |SpellToken(at.token)|, Region(at.token, at.at));
  }

  /** `redact` finds no fault with a span of whole characters. */
  lemma {:induction false} NoSpanFault(ts: seq<Token>, at: Place, gs: seq<Glyph>, a: nat, b: nat, f: Span)
    requires Lexed(ts) && ReadsHere(ts, at, gs) && a < b <= |gs| && f == GlyphSpan(at, gs, a, b)
    ensures SpanFault(Spell(ts), f).None?
  {
    var content := Spell(ts);
    TokenStands(content, ts, at);
    WriteSeen(false, at.token.body);
    assert f.start < f.end by {
      ExtentBetween(gs, a, b);
    }
    SpanBetween(content, at, gs, a, b, f);
  }

  lemma {:induction false} SpanBetween(content: bytes, at: Place, gs: seq<Glyph>, a: nat, b: nat, f: Span)
    requires Stands(content, at) && at.token == Str(AllPieces(gs)) && AllLegible(gs) && a < b <= |gs|
    requires f == GlyphSpan(at, gs, a, b) && f.start < f.end
    ensures SpanFault(content, f).None?
  {
    CharEdge(content, at, gs, a, Extent(gs[..a]), f.start);
    CharEdge(content, at, gs, b, Extent(gs[..b]), f.end);
  }

  /** It is the only edit the finding calls for, and there is no ground to refuse or discard the finding. */
  lemma OnlyEdit(ts: seq<Token>, at: Place, gs: seq<Glyph>, a: nat, b: nat, f: Finding)
    requires Lexed(ts) && ReadsHere(ts, at, gs) && a < b <= |gs| && f.span == GlyphSpan(at, gs, a, b)
    ensures forall e | Called(ts, f, e) :: e == Edit(f.span, false, f.tag)
    ensures OverlapsEditable(ts, f.span) && !OnStructure(ts, f.span) && SpanFault(Spell(ts), f.span).None?
  {
    NoSpanFault(ts, at, gs, a, b, f.span);
    CallsOnly(ts, at, gs, a, b, f);
    assert !OnStructure(ts, f.span) by {
      SpanInside(ts, at, gs, a, b);
      TokenRange(ts, 0, at.token, at.at);
      OffStructure(ts, f.span);
    }
  }

  lemma {:induction false} CallsOnly(ts: seq<Token>, at: Place, gs: seq<Glyph>, a: nat, b: nat, f: Finding)
    requires Lexed(ts) && ReadsHere(ts, at, gs) && a < b <= |gs| && f.span == GlyphSpan(at, gs, a, b)
    ensures forall e | Called(ts, f, e) :: e == Edit(f.span, false, f.tag)
    ensures OverlapsEditable(ts, f.span)
  {
    SpanInside(ts, at, gs, a, b);
    EditIsSpan(ts, at, gs, a, b, f);
    forall e | Called(ts, f, e) ensures e == Edit(f.span, false, f.tag) {
      var at': Place :| TokenAt(ts, 0, at'.token, at'.at) && IsEditFor(at', f, e);
      SameHome(ts, at, at', f.span);
      EditUnique(at, f, e, Edit(f.span, false, f.tag));
    }
  }

  lemma SameHome(ts: seq<Token>, at: Place, at': Place, f: Span)
    requires Lexed(ts) && TokenAt(ts, 0, at.token, at.at) && TokenAt(ts, 0, at'.token, at'.at)
    requires at.token.Str? && IsEditable(at'.token) && f.start < f.end
    requires Inside(f, Region(at.token, at.at)) && Overlaps(Region(at'.token, at'.at), f)
    ensures at == at'
  {
    TokensApart(ts, 0, at.token, at.at, at'.token, at'.at);
  }

  // ── Whole characters, whatever the analyzer reports ────────────────────

  /** One or more whole characters of a string value. */
  ghost predicate CharSpan(ts: seq<Token>, f: Span) {
    exists at: Place, gs, a, b :: ReadsHere(ts, at, gs) && 0 <= a < b <= |gs| && f == GlyphSpan(at, gs, a, b)
  }

  ghost predicate AllCharSpans(ts: seq<Token>, findings: seq<Finding>) {
    forall i | 0 <= i < |findings| :: CharSpan(ts, findings[i].span)
  }

  /** The prose values of a text, one for each place that holds one. */
  ghost predicate ProseOf(checked: bool, ts: seq<Token>, strings: seq<StrLit>, places: seq<Place>, vs: seq<Prose>) {
    && AllHaveBodies(places) && ListsStrings(ts, strings, places) && |strings| == |places|
    && ProseValues(checked, strings, places, |places|) == Got(vs)
  }

  lemma {:induction false} ProseAt(checked: bool, ts: seq<Token>, strings: seq<StrLit>, places: seq<Place>, vs: seq<Prose>, k: nat)
    returns (at: Place)
    requires ProseOf(checked, ts, strings, places, vs) && k < |vs|
    ensures ReadsHere(ts, at, vs[k].glyphs) && vs[k].base == at.at + 1
  {
    at := ProsePlace(checked, ts, strings, places, |places|, k);
    if checked {
      CheckedSame(at.token.body);
    }
  }

  lemma {:induction false} ProseHere(checked: bool, ts: seq<Token>, strings: seq<StrLit>, places: seq<Place>, vs: seq<Prose>, k: nat, a: nat, b: nat)
    requires ProseOf(checked, ts, strings, places, vs) && AllValid(vs) && k < |vs| && a < b < |Ats(vs)[k]|
    ensures CharSpan(ts, Span(Ats(vs)[k][a], Ats(vs)[k][b]))
  {
    var at := ProseAt(checked, ts, strings, places, vs, k);
    ProseSpan(vs, k, at, a, b);
  }

  /** Each part of a span of the joined text runs between two characters of one value. */
  lemma {:induction false} PartBetween(ats: seq<seq<nat>>, n: nat, s: nat, e: nat, j: nat) returns (k: nat, a: nat, b: nat)
    requires AllNonEmpty(ats) && n <= |ats| && j < |Parts(ats, n, s, e)|
    ensures k < |ats| && a < b < |ats[k]| && Parts(ats, n, s, e)[j] == Span(ats[k][a], ats[k][b])
  {
    if j < |Parts(ats, n - 1, s, e)| {
      k, a, b := PartBetween(ats, n - 1, s, e, j);
    } else {
      k := n - 1;
      var off, lim := Offset(ats, k), |ats[k]| - 1;
      a, b := Max(s, off) - off, Min(e, off + lim) - off;
    }
  }

  lemma {:induction false} FindingBetween(ats: seq<seq<nat>>, hits: seq<Hit>, n: nat, j: nat) returns (k: nat, a: nat, b: nat)
    requires AllNonEmpty(ats) && n <= |hits| && j < |AllParts(ats, hits, n)|
    ensures k < |ats| && a < b < |ats[k]| && AllParts(ats, hits, n)[j].span == Span(ats[k][a], ats[k][b])
  {
    var before, h := AllParts(ats, hits, n - 1), hits[n - 1];
    if j < |before| {
      k, a, b := FindingBetween(ats, hits, n - 1, j);
    } else {
      k, a, b := PartBetween(ats, |ats|, h.start, h.end, j - |before|);
    }
  }

  /** Every finding the detector makes of the analyzer's hits is whole characters of one string value. */
  lemma {:induction false} FindingsOnChars(checked: bool, ts: seq<Token>, strings: seq<StrLit>, places: seq<Place>, vs: seq<Prose>, hits: seq<Hit>)
    requires ProseOf(checked, ts, strings, places, vs) && AllValid(vs)
    ensures AllCharSpans(ts, AllParts(Ats(vs), hits, |hits|))
  {
    var findings := AllParts(Ats(vs), hits, |hits|);
    forall j | 0 <= j < |findings| ensures CharSpan(ts, findings[j].span) {
      var k, a, b := FindingBetween(Ats(vs), hits, |hits|, j);
      ProseHere(checked, ts, strings, places, vs, k, a, b);
    }
  }

  /** A span of whole characters that reaches the middle of a pair holds both its halves. */
  lemma HoldsPair(gs: seq<Glyph>, base: nat, a: nat, b: nat, i: nat, q: nat)
    requires AllLegible(gs) && a <= b <= |gs| && i < |gs| && gs[i].Pair? && q == base + Extent(gs[..i]) + 6
    requires base + Extent(gs[..a]) <= q <= base + Extent(gs[..b])
    ensures base + Extent(gs[..a]) < q < base + Extent(gs[..b])
  {
    EscapeSize(gs[i]);
    ValueLaws.SpellAround(gs, i);
    ValueLaws.CharOrder(gs, a, i);
    ValueLaws.CharOrder(gs, i + 1, b);
    ValueLaws.CharOrder(gs, i + 1, a);
    ValueLaws.CharOrder(gs, b, i);
  }

  lemma NeverTouches(ts: seq<Token>, findings: seq<Finding>, at: Place, gs: seq<Glyph>, i: nat, q: nat)
    requires Lexed(ts) && AllCharSpans(ts, findings) && ReadsHere(ts, at, gs)
    requires i < |gs| && gs[i].Pair? && q == at.at + 1 + Extent(gs[..i]) + 6
    ensures ValueLaws.PairWhole(ts, findings, q)
  {
    if ValueLaws.Touched(ts, findings, q) {
      var n, at': Place, e :| ValueLaws.TouchedBy(ts, findings, n, at', e, q);
      assert CharSpan(ts, findings[n].span);
      var home: Place, hs, a, b :| ReadsHere(ts, home, hs) && 0 <= a < b <= |hs| && findings[n].span == GlyphSpan(home, hs, a, b);
      assert Called(ts, findings[n], e);
      OnlyEdit(ts, home, hs, a, b, findings[n]);
      TouchesHome(ts, home, hs, a, b, at, gs, i, q);
      assert HiddenBy(ts, findings, n, at', e, q - 1) && HiddenBy(ts, findings, n, at', e, q);
    }
  }

  lemma TouchesHome(ts: seq<Token>, home: Place, hs: seq<Glyph>, a: nat, b: nat, at: Place, gs: seq<Glyph>, i: nat, q: nat)
    requires Lexed(ts) && ReadsHere(ts, home, hs) && a < b <= |hs| && ReadsHere(ts, at, gs)
    requires i < |gs| && gs[i].Pair? && q == at.at + 1 + Extent(gs[..i]) + 6
    requires GlyphSpan(home, hs, a, b).start <= q <= GlyphSpan(home, hs, a, b).end
    ensures GlyphSpan(home, hs, a, b).start < q < GlyphSpan(home, hs, a, b).end
  {
    SpanInside(ts, home, hs, a, b);
    WriteSeen(false, at.token.body);
    ValueLaws.PairEnds(gs, i);
    SamePlace(ts, home.token, home.at, at.token, at.at, q);
    HoldsPair(hs, home.at + 1, a, b, i, q);
  }

  /** Findings that are whole characters never split a surrogate pair. */
  lemma NeverSplits(ts: seq<Token>, findings: seq<Finding>)
    requires Lexed(ts) && AllCharSpans(ts, findings)
    ensures ValueLaws.NoPairSplit(ts, findings)
  {
    forall k: nat, gs: seq<Glyph>, i | ValueLaws.ReadsAs(ts, k, gs) && 0 <= i < |gs| && gs[i].Pair?
      ensures ValueLaws.PairWhole(ts, findings, ValueLaws.ValueStart(ts, k) + Extent(gs[..i]) + 6)
    {
      ValueLaws.StartsThere(ts, 0, k);
      var at := Place(ts[k], ValueLaws.TokenStart(ts, 0, k));
      SeenReads(false, ts[k].body);
      NeverTouches(ts, findings, at, gs, i, at.at + 1 + Extent(gs[..i]) + 6);
    }
  }

  /** Findings that are whole characters are never refused, whatever their confidence. */
  lemma NeverRefused(ts: seq<Token>, findings: seq<Finding>)
    requires Lexed(ts) && AllCharSpans(ts, findings)
    ensures AllDescribe(Spell(ts), findings) && !SomeUnredactable(ts, findings, |findings|)
  {
    forall i | 0 <= i < |findings|
      ensures SpanFault(Spell(ts), findings[i].span).None? && !Unredactable(ts, findings[i])
    {
      assert CharSpan(ts, findings[i].span);
      var at: Place, gs, a, b :| ReadsHere(ts, at, gs) && 0 <= a < b <= |gs| && findings[i].span == GlyphSpan(at, gs, a, b);
      OnlyEdit(ts, at, gs, a, b, findings[i]);
    }
  }

  /** What the detector reports is never refused, and redacting it leaves a text a strict parser accepts. */
  lemma {:induction false} DetectorSafe(checked: bool, doc: Doc, strings: seq<StrLit>, places: seq<Place>, vs: seq<Prose>, hits: seq<Hit>,
                                        findings: seq<Finding>, edits: seq<Edit>, owners: seq<nat>, out: Doc)
    requires ValidDoc(doc) && IsUtf8(Render(doc)) && ValueLaws.Parses(DocTokens(doc))
    requires ProseOf(checked, DocTokens(doc), strings, places, vs) && AllValid(vs) && findings == AllParts(Ats(vs), hits, |hits|)
    ensures AllDescribe(Render(doc), findings) && !SomeUnredactable(DocTokens(doc), findings, |findings|)
    ensures ValueLaws.Yields(doc, findings, edits, owners, out) ==>
      ValueLaws.NoPairSplit(DocTokens(doc), findings) && ValueLaws.Parses(DocTokens(out))
  {
    LexedDoc(doc);
    FindingsOnChars(checked, DocTokens(doc), strings, places, vs, hits);
    NeverRefused(DocTokens(doc), findings);
    NeverSplits(DocTokens(doc), findings);
    if ValueLaws.Yields(doc, findings, edits, owners, out) {
      ValueLaws.ParsesIff(doc, findings, edits, owners, out);
    }
  }

  // ── One hit from end to end ────────────────────────────────────────────

  /** What one finding on whole characters hides. */
  lemma HidesOnly(ts: seq<Token>, at: Place, gs: seq<Glyph>, a: nat, b: nat, f: Finding, q: int)
    requires Lexed(ts) && ReadsHere(ts, at, gs) && a < b <= |gs| && f.span == GlyphSpan(at, gs, a, b)
    ensures Hidden(ts, [f], q) <==> f.span.Contains(q)
  {
    CallsOnly(ts, at, gs, a, b, f);
    EditIsSpan(ts, at, gs, a, b, f);
    if Hidden(ts, [f], q) {
      var i, at': Place, e :| HiddenBy(ts, [f], i, at', e, q);
      assert Called(ts, f, e);
    }
    if f.span.Contains(q) {
      assert HiddenBy(ts, [f], 0, at, Edit(f.span, false, f.tag), q);
    }
  }

  /** Every cut in a value starts where the finding does, and has its tag. */
  lemma LedByOne(ts: seq<Token>, at: Place, gs: seq<Glyph>, a: nat, b: nat, f: Finding, q: int, tag: string)
    requires Lexed(ts) && ReadsHere(ts, at, gs) && a < b <= |gs| && f.span == GlyphSpan(at, gs, a, b)
    requires ValueLaws.Led(ts, [f], q, tag)
    ensures q == f.span.start && tag == f.tag
  {
    CallsOnly(ts, at, gs, a, b, f);
    var i, e :| 0 <= i < |[f]| && Called(ts, [f][i], e) && e.range.start == q && e.tag == tag;
    assert [f][i] == f;
  }

  /** Cuts that all start at `a` are at most one. */
  lemma AtMostOne(cuts: seq<Cut>, n: nat, a: nat)
    requires Ordered(cuts, 0, n) && forall j | 0 <= j < |cuts| :: cuts[j].from == a
    ensures |cuts| <= 1
  {
  }

  /** The value the finding is in has one cut: exactly the reported characters. */
  lemma {:induction false} OneCut(ts: seq<Token>, at: Place, gs: seq<Glyph>, a: nat, b: nat, f: Finding, cuts: seq<Cut>)
    requires Lexed(ts) && ReadsHere(ts, at, gs) && a < b <= |gs| && f.span == GlyphSpan(at, gs, a, b)
    requires ValueLaws.CutsFor(ts, [f], at.at + 1, gs, cuts)
    ensures cuts == [Cut(a, b, f.tag)]
  {
    CutsStart(ts, at, gs, a, b, f, cuts);
    AtMostOne(cuts, |gs|, a);
    CutCharacter(ts, at, gs, a, b, f, cuts, b - 1);
    if b < |gs| {
      CutCharacter(ts, at, gs, a, b, f, cuts, b);
    }
    OnlyCut(cuts, |gs|, a, b, f.tag);
  }

  lemma OnlyCut(cuts: seq<Cut>, n: nat, a: nat, b: nat, tag: string)
    requires Ordered(cuts, 0, n) && |cuts| <= 1 && a < b <= n && ValueLaws.InCut(cuts, b - 1)
    requires b < n ==> !ValueLaws.InCut(cuts, b)
    requires forall j | 0 <= j < |cuts| :: cuts[j].from == a && cuts[j].tag == tag
    ensures cuts == [Cut(a, b, tag)]
  {
  }

  lemma {:induction false} CutsStart(ts: seq<Token>, at: Place, gs: seq<Glyph>, a: nat, b: nat, f: Finding, cuts: seq<Cut>)
    requires Lexed(ts) && ReadsHere(ts, at, gs) && a < b <= |gs| && f.span == GlyphSpan(at, gs, a, b)
    requires ValueLaws.CutsLed(ts, [f], at.at + 1, gs, cuts)
    ensures forall j | 0 <= j < |cuts| :: cuts[j].from == a && cuts[j].tag == f.tag
  {
    forall j | 0 <= j < |cuts| ensures cuts[j].from == a && cuts[j].tag == f.tag {
      LedByOne(ts, at, gs, a, b, f, at.at + 1 + Extent(gs[..cuts[j].from]), cuts[j].tag);
      ValueLaws.CharOrder(gs, cuts[j].from, a);
      ValueLaws.CharOrder(gs, a, cuts[j].from);
    }
  }

  lemma {:induction false} CutCharacter(ts: seq<Token>, at: Place, gs: seq<Glyph>, a: nat, b: nat, f: Finding, cuts: seq<Cut>, i: nat)
    requires Lexed(ts) && ReadsHere(ts, at, gs) && a < b <= |gs| && f.span == GlyphSpan(at, gs, a, b)
    requires ValueLaws.HideExactly(ts, [f], at.at + 1, gs, cuts) && i < |gs|
    ensures ValueLaws.InCut(cuts, i) <==> a <= i < b
  {
    var q := at.at + 1 + Extent(gs[..i]);
    assert ValueLaws.InCut(cuts, i) <==> Hidden(ts, [f], q);
    HidesOnly(ts, at, gs, a, b, f, q);
    SpanHolds(at, gs, a, b, i, q);
  }

  lemma SpanHolds(at: Place, gs: seq<Glyph>, a: nat, b: nat, i: nat, q: nat)
    requires AllLegible(gs) && a < b <= |gs| && i < |gs| && q == at.at + 1 + Extent(gs[..i])
    ensures GlyphSpan(at, gs, a, b).Contains(q) <==> a <= i < b
  {
    ValueLaws.CharOrder(gs, a, i);
    ValueLaws.CharOrder(gs, b, i);
  }

  /** A value the finding is not in has none. */
  lemma {:induction false} NoCut(ts: seq<Token>, at: Place, gs: seq<Glyph>, a: nat, b: nat, f: Finding, at': Place, gs': seq<Glyph>, cuts: seq<Cut>)
    requires Lexed(ts) && ReadsHere(ts, at, gs) && a < b <= |gs| && f.span == GlyphSpan(at, gs, a, b)
    requires ReadsHere(ts, at', gs') && at' != at && ValueLaws.CutsFor(ts, [f], at'.at + 1, gs', cuts)
    ensures cuts == []
  {
    if cuts != [] {
      var q := at'.at + 1 + Extent(gs'[..cuts[0].from]);
      LedByOne(ts, at, gs, a, b, f, q, cuts[0].tag);
      SpanInside(ts, at, gs, a, b);
      WriteSeen(false, at'.token.body);
      ExtentOrder(gs', cuts[0].from, |gs'|);
      assert gs'[..|gs'|] == gs';
      SamePlace(ts, at.token, at.at, at'.token, at'.at, q);
    }
  }

  /** The value with characters `a` to `b` replaced by the marker, or as it was. */
  function Marked(chars: seq<scalar>, here: bool, a: nat, b: nat, tag: string): seq<scalar>
    requires here ==> a <= b <= |chars|
  {
    if here then chars[..a] + (MarkerChars(tag) + chars[b..]) else chars
  }

  /**
   One hit from end to end: redacting the finding on characters `a` to `b` of
   string value `k` is not refused, and then every string value reads as it
   did, except that value, in which exactly those characters are the marker.
   */
  lemma {:induction false} HitRedacted(doc: Doc, f: Finding, edits: seq<Edit>, owners: seq<nat>, out: Doc, k: nat, gs: seq<Glyph>,
                                       a: nat, b: nat, j: nat, hs: seq<Glyph>) returns (now: seq<Glyph>)
    requires ValidDoc(doc) && IsUtf8(Render(doc)) && ValueLaws.ReadsAs(DocTokens(doc), k, gs) && a < b <= |gs|
    requires f.span == GlyphSpan(Place(DocTokens(doc)[k], ValueLaws.TokenStart(DocTokens(doc), 0, k)), gs, a, b)
    requires ValueLaws.Yields(doc, [f], edits, owners, out) && ValueLaws.ReadsAs(DocTokens(doc), j, hs)
    ensures AllDescribe(Render(doc), [f]) && !SomeUnredactable(DocTokens(doc), [f], 1)
    ensures ValueLaws.ReadsAs(DocTokens(out), j, now) && ValidGlyphs(now) && ValidGlyphs(hs) && (j == k ==> hs == gs)
    ensures GlyphChars(now) == Marked(GlyphChars(hs), j == k, a, b, f.tag)
  {
    var ts := DocTokens(doc);
    var at := Place(ts[k], ValueLaws.TokenStart(ts, 0, k));
    LexedDoc(doc);
    ValueHere(ts, k, gs, at);
    OneFinding(ts, at, gs, a, b, f);
    var cuts := ValueLaws.Commutes(doc, [f], edits, owners, out, j, hs);
    now := Replaced(hs, MarkerGlyphs, 0, cuts);
    CutsAt(ts, k, at, gs, a, b, f, j, hs, cuts);
  }

  lemma {:induction false} CutsAt(ts: seq<Token>, k: nat, at: Place, gs: seq<Glyph>, a: nat, b: nat, f: Finding, j: nat, hs: seq<Glyph>,
                                  cuts: seq<Cut>)
    requires Lexed(ts) && k < |ts| && at == Place(ts[k], ValueLaws.TokenStart(ts, 0, k)) && ReadsHere(ts, at, gs)
    requires a < b <= |gs| && f.span == GlyphSpan(at, gs, a, b) && ValueLaws.ReadsAs(ts, j, hs) && ValidGlyphs(hs)
    requires ValueLaws.CutsFor(ts, [f], ValueLaws.ValueStart(ts, j), hs, cuts)
    ensures j == k ==> hs == gs
    ensures Replaced(GlyphChars(hs), MarkerChars, 0, cuts) == Marked(GlyphChars(hs), j == k, a, b, f.tag)
  {
    var at' := Place(ts[j], ValueLaws.TokenStart(ts, 0, j));
    ValueHere(ts, j, hs, at');
    if j != k {
      ApartPlaces(ts, k, j);
    }
    CutsOfOne(ts, at, gs, a, b, f, at', hs, cuts);
  }

  lemma {:induction false} OneFinding(ts: seq<Token>, at: Place, gs: seq<Glyph>, a: nat, b: nat, f: Finding)
    requires Lexed(ts) && ReadsHere(ts, at, gs) && a < b <= |gs| && f.span == GlyphSpan(at, gs, a, b)
    ensures AllDescribe(Spell(ts), [f]) && !SomeUnredactable(ts, [f], 1) && ValueLaws.NoPairSplit(ts, [f])
  {
    assert CharSpan(ts, f.span);
    NeverRefused(ts, [f]);
    NeverSplits(ts, [f]);
  }

  /** The text after one finding's cuts. */
  lemma CutsOfOne(ts: seq<Token>, at: Place, gs: seq<Glyph>, a: nat, b: nat, f: Finding, at': Place, hs: seq<Glyph>, cuts: seq<Cut>)
    requires Lexed(ts) && ReadsHere(ts, at, gs) && a < b <= |gs| && f.span == GlyphSpan(at, gs, a, b)
    requires ReadsHere(ts, at', hs) && ValueLaws.CutsFor(ts, [f], at'.at + 1, hs, cuts)
    ensures at' == at ==> hs == gs
    ensures Replaced(GlyphChars(hs), MarkerChars, 0, cuts) == Marked(GlyphChars(hs), at' == at, a, b, f.tag)
  {
    if at' == at {
      OneCut(ts, at, gs, a, b, f, cuts);
      ReplacedOne(GlyphChars(hs), a, b, f.tag);
    } else {
      NoCut(ts, at, gs, a, b, f, at', hs, cuts);
    }
  }

  lemma ValueHere(ts: seq<Token>, k: nat, gs: seq<Glyph>, at: Place)
    requires ValueLaws.ReadsAs(ts, k, gs) && at == Place(ts[k], ValueLaws.TokenStart(ts, 0, k))
    ensures ReadsHere(ts, at, gs)
  {
    ValueLaws.StartsThere(ts, 0, k);
    SeenReads(false, ts[k].body);
  }

  lemma ReplacedOne(chars: seq<scalar>, a: nat, b: nat, tag: string)
    requires a <= b <= |chars|
    ensures Ordered([Cut(a, b, tag)], 0, |chars|)
    ensures Replaced(chars, MarkerChars, 0, [Cut(a, b, tag)]) == chars[..a] + (MarkerChars(tag) + chars[b..])
  {
    var cuts := [Cut(a, b, tag)];
    assert cuts[1..] == [] && chars[0..a] == chars[..a];
  }

  /** Different tokens start at different places. */
  lemma {:induction false} ApartPlaces(ts: seq<Token>, k: nat, j: nat)
    requires Lexed(ts) && k < |ts| && j < |ts| && k != j
    ensures ValueLaws.TokenStart(ts, 0, k) != ValueLaws.TokenStart(ts, 0, j)
  {
    if k < j {
      StartsGrow(ts, 0, k, j);
    } else {
      StartsGrow(ts, 0, j, k);
    }
  }

  lemma {:induction false} StartsGrow(ts: seq<Token>, at: nat, k: nat, j: nat)
    requires Lexed(ts) && k < j < |ts|
    ensures ValueLaws.TokenStart(ts, at, k) < ValueLaws.TokenStart(ts, at, j)
  {
    var at' := at + |SpellToken(ts[0])|;
    LexedHead(ts);
    ValueLaws.StartStep(ts, at, at', j);
    if k == 0 {
      ValueLaws.StartsLater(ts[1..], at', j - 1);
    } else {
      ValueLaws.StartStep(ts, at, at', k);
      StartsGrow(ts[1..], at', k - 1, j - 1);
    }
  }

  // ── Text that is not JSON ──────────────────────────────────────────────

  /** A span of characters as bytes of the text. */
  function TextSpan(text: seq<scalar>, s: nat, e: nat): Span
    requires s <= e <= |text|
  {
    Span(|EncodeAll(text[..s])|, |EncodeAll(text[..e])|)
  }

  lemma {:induction false} EncodedBoundary(text: seq<scalar>, i: nat)
    requires i <= |text|
    ensures |EncodeAll(text[..i])| <= |EncodeAll(text)| && IsBoundary(EncodeAll(text), |EncodeAll(text[..i])|)
  {
    var a, b := EncodeAll(text[..i]), EncodeAll(text[i..]);
    EncodeAllJoin(text[..i], text[i..]);
    assert text == text[..i] + text[i..];
    if b != [] {
      assert (a + b)[|a|] == b[0];
      assert b[0] == Encode(text[i..][0])[0];
    }
  }

  lemma Slices<T>(s: seq<T>, a: nat, b: nat)
    requires a <= b <= |s|
    ensures s == s[..a] + (s[a..b] + s[b..])
  {
  }

  /** The bytes are those characters and no others, and `redact` never finds fault with the span. */
  lemma {:induction false} TextSpanExact(text: seq<scalar>, s: nat, e: nat)
    requires s <= e <= |text|
    ensures
      var content, f := EncodeAll(text), TextSpan(text, s, e);
      && f.WithinLength(|content|) && content[f.start..f.end] == EncodeAll(text[s..e])
      && SpanFault(content, f).None?
  {
    EncodedBoundary(text, s);
    EncodedBoundary(text, e);
    var x, y, z := EncodeAll(text[..s]), EncodeAll(text[s..e]), EncodeAll(text[e..]);
    Slices(text, s, e);
    EncodeAllJoin(text[..s], text[s..e] + text[e..]);
    EncodeAllJoin(text[s..e], text[e..]);
    EncodeAllJoin(text[..s], text[s..e]);
    assert text[..e] == text[..s] + text[s..e];
    MiddleSlice(x, y, z, |x|);
  }

  /** The byte offset of each character, with one entry more for the end. */
  method CharOffsets(text: seq<scalar>) returns (byteAt: seq<nat>)
    ensures |byteAt| == |text| + 1
    ensures forall k | 0 <= k <= |text| :: byteAt[k] == |EncodeAll(text[..k])|
  {
    byteAt := [];
    var length, i := 0, 0;
    while i < |text|
      invariant 0 <= i <= |text| && |byteAt| == i && length == |EncodeAll(text[..i])|
      invariant forall k | 0 <= k < i :: byteAt[k] == |EncodeAll(text[..k])|
    {
      NextOffset(text, i);
      byteAt := byteAt + [length];
      length := length + |Encode(text[i])|;
      i := i + 1;
    }
    byteAt := byteAt + [length];
  }

  lemma NextOffset(text: seq<scalar>, i: nat)
    requires i < |text|
    ensures |EncodeAll(text[..i + 1])| == |EncodeAll(text[..i])| + |Encode(text[i])|
  {
    EncodeAllJoin(text[..i], [text[i]]);
    assert text[..i + 1] == text[..i] + [text[i]];
    assert EncodeAll([text[i]]) == Encode(text[i]) + [];
  }

  /** Maps the analyzer's code-point spans of a text onto its bytes. */
  method TextFindings(text: seq<scalar>, hits: seq<Hit>) returns (r: Option<seq<Finding>>)
    ensures r.None? <==> !AllWithinText(hits, |text|)
    ensures r.Some? ==> |r.value| == |hits|
    ensures r.Some? ==> forall i | 0 <= i < |hits| ::
              r.value[i] == Finding(hits[i].entity, TextSpan(text, hits[i].start, hits[i].end), false)
  {
    var byteAt := CharOffsets(text);
    var out: seq<Finding>, j := [], 0;
    while j < |hits|
      invariant 0 <= j <= |hits| && |out| == j
      invariant forall k | 0 <= k < j :: hits[k].start <= hits[k].end <= |text|
      invariant forall k | 0 <= k < j ::
                  out[k] == Finding(hits[k].entity, TextSpan(text, hits[k].start, hits[k].end), false)
    {
      var h := hits[j];
      if h.start > h.end || h.end > |text| {
        return None;
      }
      out := out + [Finding(h.entity, Span(byteAt[h.start], byteAt[h.end]), false)];
      j := j + 1;
    }
    r := Some(out);
  }
}
