/**
 Masked strings read as characters: where a group of edits starts and ends on
 character boundaries, the masked pieces read as the old characters with those
 runs replaced by markers; where one splits a surrogate pair, they cannot be
 read at all.
 */
module GlyphCuts {
  import opened Bytes
  import opened Json
  import opened JsonDecode
  import opened Splice
  import opened RedactTokens
  import opened Enforce
  import opened Utf8

  // ── Character boundaries are piece boundaries ──────────────────────────

  lemma {:induction false} BoundaryJoin(ps: seq<Piece>, qs: seq<Piece>, d: int)
    requires d == |SpellPieces(ps)|
    ensures AtBoundary(ps + qs, d) && PiecesBefore(ps + qs, d) == |ps|
  {
    if ps != [] {
      BoundaryJoin(ps[1..], qs, d - |SpellPiece(ps[0])|);
      JoinTail(ps, qs);
    }
  }

  lemma {:induction false} BoundaryPast(ps: seq<Piece>, qs: seq<Piece>, d: int, d': nat)
    requires AtBoundary(ps + qs, d) && d == |SpellPieces(ps)| + d'
    ensures AtBoundary(qs, d')
  {
    if ps == [] {
      assert ps + qs == qs;
    } else {
      JoinTail(ps, qs);
      BoundaryPast(ps[1..], qs, d - |SpellPiece(ps[0])|, d');
    }
  }

  lemma ExtentJoin(a: seq<Glyph>, b: seq<Glyph>)
    ensures Extent(a + b) == Extent(a) + Extent(b)
  {
    AllPiecesJoin(a, b);
    SpellPiecesJoin(AllPieces(a), AllPieces(b));
  }

  lemma ExtentPositive(gs: seq<Glyph>)
    requires AllLegible(gs) && gs != []
    ensures Extent(gs) > 0
  {
    GlyphPositive(gs[0]);
    SpellPiecesJoin(GlyphPieces(gs[0]), AllPieces(gs[1..]));
  }

  /** Characters stand one after another. */
  lemma ExtentBetween(gs: seq<Glyph>, a: nat, b: nat)
    requires AllLegible(gs) && a < b <= |gs|
    ensures Extent(gs[..a]) < Extent(gs[..b]) <= Extent(gs)
  {
    assert gs[..b] == gs[..a] + gs[a..b] && gs == gs[..b] + gs[b..];
    ExtentJoin(gs[..a], gs[a..b]);
    ExtentPositive(gs[a..b]);
    ExtentJoin(gs[..b], gs[b..]);
  }

  lemma CutBetween(x: seq<Glyph>, y: seq<Glyph>, d: int)
    requires d == Extent(x)
    ensures
      var ps := AllPieces(x + y);
      AtBoundary(ps, d) && ps[..PiecesBefore(ps, d)] == AllPieces(x) && ps[PiecesBefore(ps, d)..] == AllPieces(y)
  {
    AllPiecesJoin(x, y);
    BoundaryJoin(AllPieces(x), AllPieces(y), d);
    TakeDrop(AllPieces(x), AllPieces(y));
  }

  /** Cutting the pieces of the characters from `i` on where character `a` starts. */
  lemma {:induction false} SliceAt(gs: seq<Glyph>, i: nat, a: nat, d: int)
    requires i <= a <= |gs| && d == Extent(gs[..a]) - Extent(gs[..i])
    ensures
      var ps := AllPieces(gs[i..]);
      && AtBoundary(ps, d) && ps[..PiecesBefore(ps, d)] == AllPieces(gs[i..a])
      && ps[PiecesBefore(ps, d)..] == AllPieces(gs[a..])
  {
    assert gs[i..] == gs[i..a] + gs[a..] && gs[..a] == gs[..i] + gs[i..a];
    ExtentJoin(gs[..i], gs[i..a]);
    CutBetween(gs[i..a], gs[a..], d);
  }

  lemma ExtentStep(gs: seq<Glyph>, k: nat)
    requires 0 < k <= |gs|
    ensures Extent(gs[..k]) == |SpellPieces(GlyphPieces(gs[0]))| + Extent(gs[1..][..k - 1])
  {
    assert gs[..k][0] == gs[0] && gs[..k][1..] == gs[1..][..k - 1];
    SpellPiecesJoin(GlyphPieces(gs[0]), AllPieces(gs[1..][..k - 1]));
  }

  lemma FirstEdges(g: Glyph, qs: seq<Piece>, d: int)
    requires ValidGlyph(g) && AtBoundary(GlyphPieces(g) + qs, d) && 0 < d < |SpellPieces(GlyphPieces(g))|
    ensures g.Literal? || (g.Pair? && d == 6)
  {
    EscapeSize(g);
    var ps := GlyphPieces(g) + qs;
    if g.Pair? {
      assert ps[0] == Unicode(g.high) && ps[1..][0] == Unicode(g.low);
      assert AtBoundary(ps[1..], d - 6);
    }
  }

  /** A piece boundary is a character boundary, or lies inside a raw character, or between the halves of a pair. */
  lemma {:induction false} ClassifyEdge(gs: seq<Glyph>, d: int) returns (k: nat)
    requires ValidGlyphs(gs) && AtBoundary(AllPieces(gs), d)
    ensures k <= |gs| && Extent(gs[..k]) <= d
    ensures d != Extent(gs[..k]) ==>
      && k < |gs| && d < Extent(gs[..k + 1]) && (gs[k].Literal? || (gs[k].Pair? && d == Extent(gs[..k]) + 6))
  {
    k := 0;
    if d != 0 {
      var w := |SpellPieces(GlyphPieces(gs[0]))|;
      if d < w {
        FirstEdges(gs[0], AllPieces(gs[1..]), d);
        ExtentStep(gs, 1);
      } else {
        BoundaryPast(GlyphPieces(gs[0]), AllPieces(gs[1..]), d, d - w);
        var j := ClassifyEdge(gs[1..], d - w);
        k := j + 1;
        ExtentStep(gs, k);
        if k < |gs| {
          ExtentStep(gs, k + 1);
        }
      }
    }
  }

  // ── The marker as characters ───────────────────────────────────────────

  predicate AllAscii(bs: bytes) {
    forall i | 0 <= i < |bs| :: 0x20 <= bs[i] < 0x80 && bs[i] != QUOTE && bs[i] != BACKSLASH
  }

  /** ASCII bytes as characters that stand for themselves. */
  function LiteralGlyphs(bs: bytes): (gs: seq<Glyph>)
    requires AllAscii(bs)
    ensures |gs| == |bs| && ValidGlyphs(gs)
    ensures forall i | 0 <= i < |bs| :: gs[i] == Literal(bs[i])
  {
    seq(|bs|, i requires 0 <= i < |bs| => Literal(bs[i]))
  }

  lemma {:induction false} LiteralPieces(bs: bytes)
    requires AllAscii(bs)
    ensures AllPieces(LiteralGlyphs(bs)) == RawPieces(bs)
  {
    if bs != [] {
      LiteralPieces(bs[1..]);
      assert LiteralGlyphs(bs) == [Literal(bs[0])] + LiteralGlyphs(bs[1..]);
      AllPiecesCons(Literal(bs[0]), LiteralGlyphs(bs[1..]));
      assert RawPieces([bs[0]]) == [Raw(bs[0])] + RawPieces([]);
    }
  }

  lemma MarkerAscii(tag: string)
    ensures AllAscii(Marker(tag))
  {
    MarkerSafe(tag);
    forall i | 0 <= i < |Marker(tag)| ensures 0x20 <= Marker(tag)[i] < 0x80 && Marker(tag)[i] != QUOTE && Marker(tag)[i] != BACKSLASH {
      assert ValidPiece(Raw(Marker(tag)[i]));
    }
  }

  function MarkerGlyphs(tag: string): (gs: seq<Glyph>)
    ensures ValidGlyphs(gs)
  {
    MarkerAscii(tag);
    LiteralGlyphs(Marker(tag))
  }

  function MarkerChars(tag: string): (cs: seq<scalar>)
  {
    Marker(tag)
  }

  lemma MarkerReads(tag: string)
    ensures AllPieces(MarkerGlyphs(tag)) == MarkerPieces(tag) && GlyphChars(MarkerGlyphs(tag)) == MarkerChars(tag)
  {
    MarkerAscii(tag);
    LiteralPieces(Marker(tag));
  }

  // ── Runs of characters replaced by markers ─────────────────────────────

  /** Characters `from` to `to`, replaced by one marker. */
  datatype Cut = Cut(from: nat, to: nat, tag: string)

  /** In order from `i` on, never touching one another. */
  predicate Ordered(cuts: seq<Cut>, i: nat, n: nat) {
    if cuts == [] then i <= n
    else
      && i <= cuts[0].from <= cuts[0].to <= n
      && (|cuts| > 1 ==> cuts[0].to < cuts[1].from)
      && Ordered(cuts[1..], cuts[0].to, n)
  }

  /** From `i` on, with every cut replaced by its mark. */
  function Replaced<T>(s: seq<T>, mark: string -> seq<T>, i: nat, cuts: seq<Cut>): seq<T>
    requires Ordered(cuts, i, |s|)
    decreases |cuts|
  {
    if cuts == [] then s[i..]
    else s[i..cuts[0].from] + (mark(cuts[0].tag) + Replaced(s, mark, cuts[0].to, cuts[1..]))
  }

  /** The text of the replaced characters is the replaced text. */
  lemma {:induction false} ReplacedChars(gs: seq<Glyph>, i: nat, cuts: seq<Cut>)
    requires ValidGlyphs(gs) && Ordered(cuts, i, |gs|)
    ensures
      var now := Replaced(gs, MarkerGlyphs, i, cuts);
      ValidGlyphs(now) && GlyphChars(now) == Replaced(GlyphChars(gs), MarkerChars, i, cuts)
    decreases |cuts|
  {
    if cuts == [] {
      CharsSlice(gs, i, |gs|);
      assert gs[i..|gs|] == gs[i..] && GlyphChars(gs)[i..|gs|] == GlyphChars(gs)[i..];
    } else {
      var c := cuts[0];
      ReplacedChars(gs, c.to, cuts[1..]);
      MarkerReads(c.tag);
      var a, b, z := gs[i..c.from], MarkerGlyphs(c.tag), Replaced(gs, MarkerGlyphs, c.to, cuts[1..]);
      CharsJoin(b, z);
      CharsJoin(a, b + z);
      CharsSlice(gs, i, c.from);
    }
  }

  lemma CharsJoin(a: seq<Glyph>, b: seq<Glyph>)
    requires ValidGlyphs(a) && ValidGlyphs(b)
    ensures ValidGlyphs(a + b) && GlyphChars(a + b) == GlyphChars(a) + GlyphChars(b)
  {
  }

  lemma CharsSlice(gs: seq<Glyph>, i: nat, j: nat)
    requires ValidGlyphs(gs) && i <= j <= |gs|
    ensures ValidGlyphs(gs[i..j]) && GlyphChars(gs[i..j]) == GlyphChars(gs)[i..j]
  {
  }

  /** The group takes exactly the characters of the cut. */
  predicate IsCut(gs: seq<Glyph>, base: nat, c: Cut, e: Edit) {
    && !e.quoted && e.tag == c.tag && c.from <= c.to <= |gs|
    && e.range == Span(base + Extent(gs[..c.from]), base + Extent(gs[..c.to]))
  }

  /** The cuts are the groups that stand in the string. */
  predicate CutsAre(gs: seq<Glyph>, base: nat, cuts: seq<Cut>, es: seq<Edit>) {
    && |cuts| <= |es| && (forall i | 0 <= i < |cuts| :: IsCut(gs, base, cuts[i], es[i]))
    && (|cuts| < |es| ==> base + Extent(gs) < es[|cuts|].range.start)
  }

  lemma CutsRest(gs: seq<Glyph>, base: nat, cuts: seq<Cut>, es: seq<Edit>)
    requires cuts != [] && CutsAre(gs, base, cuts, es)
    ensures CutsAre(gs, base, cuts[1..], es[1..])
  {
    forall i | 0 <= i < |cuts[1..]| ensures IsCut(gs, base, cuts[1..][i], es[1..][i]) {
      assert IsCut(gs, base, cuts[i + 1], es[i + 1]);
    }
  }

  /** Masking the pieces masks the characters. */
  lemma {:induction false} MaskedGlyphs(gs: seq<Glyph>, base: nat, i: nat, p: nat, cuts: seq<Cut>, es: seq<Edit>)
    requires i <= |gs| && Ordered(cuts, i, |gs|) && CutsAre(gs, base, cuts, es) && p == base + Extent(gs[..i])
    ensures MaskRuns(MarkerPieces, AllPieces(gs[i..]), p, es) == AllPieces(Replaced(gs, MarkerGlyphs, i, cuts))
    decreases |cuts|
  {
    if cuts == [] {
      NothingMasked(gs, base, i, p, es);
    } else {
      CutsRest(gs, base, cuts, es);
      MaskedGlyphs(gs, base, cuts[0].to, es[0].range.end, cuts[1..], es[1..]);
      assert IsCut(gs, base, cuts[0], es[0]);
      FirstMasked(gs, base, i, p, cuts[0], es);
      ReplacedPieces(gs, i, cuts);
    }
  }

  lemma PastEnd(ps: seq<Piece>, p: nat, e: Edit)
    requires p + |SpellPieces(ps)| < e.range.start
    ensures !FitsInterior(ps, p, e)
  {
    if FitsInterior(ps, p, e) {
      CutPieces(ps, e.range.start - p);
    }
  }

  lemma NothingMasked(gs: seq<Glyph>, base: nat, i: nat, p: nat, es: seq<Edit>)
    requires i <= |gs| && p == base + Extent(gs[..i]) && (es != [] ==> base + Extent(gs) < es[0].range.start)
    ensures MaskRuns(MarkerPieces, AllPieces(gs[i..]), p, es) == AllPieces(gs[i..])
  {
    assert gs == gs[..i] + gs[i..];
    ExtentJoin(gs[..i], gs[i..]);
    if es != [] {
      PastEnd(AllPieces(gs[i..]), p, es[0]);
    }
  }

  lemma FirstMasked(gs: seq<Glyph>, base: nat, i: nat, p: nat, c: Cut, es: seq<Edit>)
    requires i <= c.from <= c.to <= |gs| && p == base + Extent(gs[..i]) && es != [] && IsCut(gs, base, c, es[0])
    ensures MaskRuns(MarkerPieces, AllPieces(gs[i..]), p, es)
         == AllPieces(gs[i..c.from])
          + (MarkerPieces(c.tag) + MaskRuns(MarkerPieces, AllPieces(gs[c.to..]), es[0].range.end, es[1..]))
  {
    var ps, d, d' := AllPieces(gs[i..]), Extent(gs[..c.from]) - Extent(gs[..i]), Extent(gs[..c.to]) - Extent(gs[..i]);
    SliceAt(gs, i, c.from, d);
    SliceAt(gs, i, c.to, d');
    ExtentOrder(gs, i, c.from);
    ExtentOrder(gs, c.from, c.to);
    FirstRun(ps, p, es, d, d');
  }

  lemma ExtentOrder(gs: seq<Glyph>, a: nat, b: nat)
    requires a <= b <= |gs|
    ensures Extent(gs[..a]) <= Extent(gs[..b])
  {
    assert gs[..b] == gs[..a] + gs[a..b];
    ExtentJoin(gs[..a], gs[a..b]);
  }

  lemma FirstRun(ps: seq<Piece>, p: nat, es: seq<Edit>, d: nat, d': nat)
    requires es != [] && es[0].range == Span(p + d, p + d') && !es[0].quoted && d <= d'
    requires AtBoundary(ps, d) && AtBoundary(ps, d')
    ensures MaskRuns(MarkerPieces, ps, p, es)
         == ps[..PiecesBefore(ps, d)]
          + (MarkerPieces(es[0].tag) + MaskRuns(MarkerPieces, ps[PiecesBefore(ps, d')..], es[0].range.end, es[1..]))
  {
    RunsStep(MarkerPieces, ps, p, es, d, d');
  }

  lemma ReplacedPieces(gs: seq<Glyph>, i: nat, cuts: seq<Cut>)
    requires cuts != [] && Ordered(cuts, i, |gs|)
    ensures AllPieces(Replaced(gs, MarkerGlyphs, i, cuts))
         == AllPieces(gs[i..cuts[0].from])
          + (MarkerPieces(cuts[0].tag) + AllPieces(Replaced(gs, MarkerGlyphs, cuts[0].to, cuts[1..])))
  {
    var c, later := cuts[0], Replaced(gs, MarkerGlyphs, cuts[0].to, cuts[1..]);
    MarkerReads(c.tag);
    AllPiecesJoin(gs[i..c.from], MarkerGlyphs(c.tag) + later);
    AllPiecesJoin(MarkerGlyphs(c.tag), later);
  }

  // ── Halves of surrogate pairs ──────────────────────────────────────────

  predicate HighHalf(p: Piece) {
    p.Unicode? && IsUnit(p.hex) && IsHigh(UnitValue(p.hex))
  }

  predicate LowHalf(p: Piece) {
    p.Unicode? && IsUnit(p.hex) && IsLow(UnitValue(p.hex))
  }

  /** Piece `k` is one half of a pair without the other. */
  predicate Lonely(ps: seq<Piece>, k: nat) {
    && k < |ps|
    && ((HighHalf(ps[k]) && (k + 1 == |ps| || !LowHalf(ps[k + 1])))
        || (LowHalf(ps[k]) && (k == 0 || !HighHalf(ps[k - 1]))))
  }

  lemma LonelyJoin(a: seq<Piece>, b: seq<Piece>, k: nat)
    requires Lonely(b, k) && (a != [] ==> !HighHalf(a[|a| - 1]))
    ensures Lonely(a + b, |a| + k)
  {
  }

  lemma LonelySplit(a: seq<Piece>, b: seq<Piece>, k: nat)
    requires Lonely(a + b, k) && |a| <= k
    ensures Lonely(b, k - |a|)
  {
  }

  /** A string that can be read has no lone half. */
  lemma {:induction false} NoneLonely(gs: seq<Glyph>, k: nat)
    requires ValidGlyphs(gs)
    ensures !Lonely(AllPieces(gs), k)
  {
    if gs != [] && Lonely(AllPieces(gs), k) {
      var a := GlyphPieces(gs[0]);
      if k < |a| {
        if gs[0].Literal? {
          SpellRaw(Encode(gs[0].cp));
        }
        assert false;
      } else {
        LonelySplit(a, AllPieces(gs[1..]), k);
        NoneLonely(gs[1..], k - |a|);
      }
    }
  }

  /** Boundary `d` lies between the halves of a pair. */
  predicate SplitsPair(ps: seq<Piece>, d: int) {
    && AtBoundary(ps, d) && 0 < PiecesBefore(ps, d) < |ps|
    && HighHalf(ps[PiecesBefore(ps, d) - 1]) && LowHalf(ps[PiecesBefore(ps, d)])
  }

  lemma SplitTail(ps: seq<Piece>, d: int, d': int)
    requires ps != [] && d == |SpellPiece(ps[0])| + d' && d' > 0 && SplitsPair(ps, d)
    ensures SplitsPair(ps[1..], d')
  {
    assert PiecesBefore(ps, d) == 1 + PiecesBefore(ps[1..], d');
    assert PiecesBefore(ps[1..], d') > 0;
  }

  lemma CutTail(ps: seq<Piece>, d: int, d': int)
    requires ps != [] && d != 0 && d == |SpellPiece(ps[0])| + d' && AtBoundary(ps, d)
    ensures AtBoundary(ps[1..], d') && ps[PiecesBefore(ps, d)..] == ps[1..][PiecesBefore(ps[1..], d')..]
  {
    HeadTail(ps, PiecesBefore(ps, d), PiecesBefore(ps[1..], d'));
  }

  lemma {:induction false} SplitAfterCut(ps: seq<Piece>, d: int, d': int, left: nat)
    requires AtBoundary(ps, d) && d' == d + left && left > 0 && SplitsPair(ps, d')
    ensures SplitsPair(ps[PiecesBefore(ps, d)..], left)
    decreases |ps|
  {
    if d == 0 {
      assert ps[0..] == ps;
    } else {
      var e, e' := d - |SpellPiece(ps[0])|, d' - |SpellPiece(ps[0])|;
      CutTail(ps, d, e);
      assert e >= 0 by {
        CutPieces(ps[1..], e);
      }
      SplitTail(ps, d', e');
      SplitAfterCut(ps[1..], e, e', left);
    }
  }

  lemma MarkerEnds(tag: string)
    ensures MarkerPieces(tag) != [] && MarkerPieces(tag)[0].Raw? && MarkerPieces(tag)[|MarkerPieces(tag)| - 1].Raw?
  {
    SpellRaw(Marker(tag));
  }

  /** What is left of a string starts as it did, unless a group starts right there. */
  lemma MaskedHead(ps: seq<Piece>, p: nat, gs: seq<Edit>)
    requires ps != [] && (gs != [] ==> p < gs[0].range.start)
    ensures
      var qs := MaskRuns(MarkerPieces, ps, p, gs);
      qs != [] && qs[0] == ps[0]
  {
    if gs != [] && FitsInterior(ps, p, gs[0]) {
      var d := gs[0].range.start - p;
      RunsStep(MarkerPieces, ps, p, gs, d, gs[0].range.end - p);
      assert PiecesBefore(ps, d) > 0;
    }
  }

  /** The first group splits a pair: a lone half is left next to its marker. */
  lemma LonelyFirst(ps: seq<Piece>, p: nat, gs: seq<Edit>, d: int, d': int) returns (k: nat)
    requires gs != [] && FitsInterior(ps, p, gs[0]) && d == gs[0].range.start - p && d' == gs[0].range.end - p
    requires |gs| > 1 ==> gs[0].range.end < gs[1].range.start
    requires SplitsPair(ps, d) || SplitsPair(ps, d')
    ensures Lonely(MaskRuns(MarkerPieces, ps, p, gs), k)
  {
    var a, b, m := PiecesBefore(ps, d), PiecesBefore(ps, d'), MarkerPieces(gs[0].tag);
    var rest := MaskRuns(MarkerPieces, ps[b..], gs[0].range.end, gs[1..]);
    RunsStep(MarkerPieces, ps, p, gs, d, d');
    MarkerEnds(gs[0].tag);
    var all := ps[..a] + (m + rest);
    if SplitsPair(ps, d) {
      k := a - 1;
      assert all[k] == ps[a - 1] && all[k + 1] == m[0];
    } else {
      MaskedHead(ps[b..], gs[0].range.end, gs[1..]);
      k := a + |m|;
      assert all[k] == rest[0] == ps[b] && all[k - 1] == m[|m| - 1];
    }
  }

  ghost predicate AllInterior(ps: seq<Piece>, p: nat, gs: seq<Edit>, n: nat) {
    n <= |gs| && forall i | 0 <= i < n :: FitsInterior(ps, p, gs[i])
  }

  lemma InteriorRest(ps: seq<Piece>, p: nat, gs: seq<Edit>, d: int, n: nat, end: nat)
    requires 0 < n && AllInterior(ps, p, gs, n) && Separate(gs, p, end) && d == gs[0].range.end - p
    ensures AllInterior(ps[PiecesBefore(ps, d)..], gs[0].range.end, gs[1..], n - 1)
  {
    forall i | 0 <= i < n - 1 ensures FitsInterior(ps[PiecesBefore(ps, d)..], gs[0].range.end, gs[1..][i]) {
      SeparateAfter(gs, p, end, i + 1);
      InteriorAfterCut(ps, p, gs[0].range.end, d, gs[i + 1]);
    }
  }

  /** A group that splits a pair leaves a lone half. */
  lemma {:induction false} LonelyRun(ps: seq<Piece>, p: nat, gs: seq<Edit>, end: nat, j: nat, q: nat, at: int) returns (k: nat)
    requires Separate(gs, p, end) && j < |gs| && AllInterior(ps, p, gs, j + 1)
    requires (q == gs[j].range.start || q == gs[j].range.end) && at == q - p && SplitsPair(ps, at)
    ensures Lonely(MaskRuns(MarkerPieces, ps, p, gs), k)
    decreases j
  {
    var g := gs[0];
    assert FitsInterior(ps, p, g);
    var d, d' := g.range.start - p, g.range.end - p;
    if j == 0 {
      k := LonelyFirst(ps, p, gs, d, d');
    } else {
      SeparateAfter(gs, p, end, j);
      InteriorRest(ps, p, gs, d', j + 1, end);
      var left := q - g.range.end;
      SplitAfterCut(ps, d', at, left);
      assert gs[1..][j - 1] == gs[j];
      var i := LonelyRun(ps[PiecesBefore(ps, d')..], g.range.end, gs[1..], end, j - 1, q, left);
      k := LonelyAfter(ps, p, gs, d, d', i);
    }
  }

  lemma LonelyAfter(ps: seq<Piece>, p: nat, gs: seq<Edit>, d: int, d': int, i: nat) returns (k: nat)
    requires gs != [] && FitsInterior(ps, p, gs[0]) && d == gs[0].range.start - p && d' == gs[0].range.end - p
    requires Lonely(MaskRuns(MarkerPieces, ps[PiecesBefore(ps, d')..], gs[0].range.end, gs[1..]), i)
    ensures Lonely(MaskRuns(MarkerPieces, ps, p, gs), k)
  {
    var a, m := ps[..PiecesBefore(ps, d)], MarkerPieces(gs[0].tag);
    var rest := MaskRuns(MarkerPieces, ps[PiecesBefore(ps, d')..], gs[0].range.end, gs[1..]);
    RunsStep(MarkerPieces, ps, p, gs, d, d');
    MarkerEnds(gs[0].tag);
    LonelyJoin(a + m, rest, i);
    Assoc(a, m, rest);
    k := |a + m| + i;
  }

  /** A string with a lone half cannot be read. */
  lemma LonelyUnread(ps: seq<Piece>, k: nat)
    requires ValidPieces(ps) && Lonely(ps, k)
    ensures ReadGlyphs(ps).None?
  {
    if ReadGlyphs(ps).Some? {
      WriteRead(ps);
      NoneLonely(ReadGlyphs(ps).value, k);
    }
  }

  lemma PiecesAround(a: seq<Glyph>, g: Glyph, b: seq<Glyph>)
    ensures AllPieces(a + ([g] + b)) == AllPieces(a) + (GlyphPieces(g) + AllPieces(b))
  {
    AllPiecesJoin(a, [g] + b);
    AllPiecesCons(g, b);
  }

  lemma HalvesApart(x: seq<Piece>, high: Piece, low: Piece, y: seq<Piece>, d: int)
    requires HighHalf(high) && LowHalf(low) && d == |SpellPieces(x)| + 6
    ensures SplitsPair(x + ([high, low] + y), d)
  {
    assert x + ([high, low] + y) == (x + [high]) + ([low] + y);
    SpellPiecesJoin(x, [high]);
    assert SpellPieces([high]) == SpellPiece(high) + [];
    BoundaryJoin(x + [high], [low] + y, d);
  }

  /** The middle of a pair, as a boundary between pieces. */
  lemma {:induction false} PairMiddle(gs: seq<Glyph>, i: nat, d: int)
    requires ValidGlyphs(gs) && i < |gs| && gs[i].Pair? && d == Extent(gs[..i]) + 6
    ensures SplitsPair(AllPieces(gs), d)
  {
    assert gs == gs[..i] + ([gs[i]] + gs[i + 1..]);
    PiecesAround(gs[..i], gs[i], gs[i + 1..]);
    HalvesApart(AllPieces(gs[..i]), Unicode(gs[i].high), Unicode(gs[i].low), AllPieces(gs[i + 1..]), d);
  }
}
