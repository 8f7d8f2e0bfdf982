/**
 What redaction makes of each string value as its reader sees it: which
 characters are replaced by markers, and exactly when the value can still be
 read.
 */
module ValueLaws {
  import opened Bytes
  import opened Json
  import opened JsonDecode
  import opened JsonLayout
  import opened TokenPlaces
  import opened Splice
  import opened RedactTokens
  import opened Redaction
  import opened Enforce
  import opened RedactionLaws
  import opened RedactionText
  import opened GlyphCuts
  import opened Utf8

  // ── One string value of the masked text ────────────────────────────────

  /** Where token `k` starts. */
  function TokenStart(ts: seq<Token>, at: nat, k: nat): nat
    requires k <= |ts|
  {
    if k == 0 then at else TokenStart(ts[1..], at + |SpellToken(ts[0])|, k - 1)
  }

  lemma StartStep(ts: seq<Token>, at: nat, at': nat, k: nat)
    requires 0 < k <= |ts| && at' == at + |SpellToken(ts[0])|
    ensures TokenStart(ts, at, k) == TokenStart(ts[1..], at', k - 1)
  {
  }

  lemma {:induction false} StartsThere(ts: seq<Token>, at: nat, k: nat)
    requires k < |ts|
    ensures TokenAt(ts, at, ts[k], TokenStart(ts, at, k))
  {
    if k > 0 {
      StartsThere(ts[1..], at + |SpellToken(ts[0])|, k - 1);
    }
  }

  /** Of the groups, `m` from the `n`th on stand in the string that starts at `p`; those before end before it. */
  ghost predicate Here(body: seq<Piece>, p: nat, gs: seq<Edit>, n: nat, m: nat) {
    && n + m <= |gs|
    && (forall i | 0 <= i < n :: gs[i].range.end <= p)
    && (forall i | n <= i < n + m :: FitsInterior(body, p + 1, gs[i]))
    && (forall i | n + m <= i < |gs| :: p + 1 + |SpellPieces(body)| < gs[i].range.start)
  }

  lemma {:induction false} SeparateFrom(gs: seq<Edit>, from: nat, end: nat, n: nat, c: nat)
    requires Separate(gs, from, end) && n <= |gs| && (n < |gs| ==> c <= gs[n].range.start)
    ensures Separate(gs[n..], c, end)
  {
    if n == 0 {
      assert gs[0..] == gs;
    } else {
      SeparateFrom(gs[1..], gs[0].range.end, end, n - 1, c);
      assert gs[n..] == gs[1..][n - 1..];
    }
  }

  predicate AllEndBefore(gs: seq<Edit>, m: nat, at: nat) {
    m <= |gs| && forall i | 0 <= i < m :: gs[i].range.end < at
  }

  lemma EndBeforeCons(gs: seq<Edit>, j: nat, at: nat)
    requires gs != [] && gs[0].range.end < at && AllEndBefore(gs[1..], j, at)
    ensures AllEndBefore(gs, j + 1, at) && gs[1..][j..] == gs[j + 1..]
  {
    forall i | 0 < i < j + 1 ensures gs[i].range.end < at {
      assert gs[i] == gs[1..][i - 1];
    }
  }

  /** The groups that stand in a string come before those that stand in later tokens. */
  lemma {:induction false} PastFits(ps: seq<Piece>, p: nat, rest: seq<Token>, at: nat, gs: seq<Edit>, end: nat) returns (m: nat)
    requires Lexed(rest) && at == p + |SpellPieces(ps)| + 1 && Separate(gs, p, end) && AllFitFrom(ps, p, rest, at, gs)
    ensures AllEndBefore(gs, m, at) && PastRuns(ps, p, gs) == gs[m..]
    ensures AllFit(rest, at, gs[m..]) && Separate(gs[m..], at, end)
    decreases |gs|
  {
    if gs != [] && FitsInterior(ps, p, gs[0]) {
      var d, d', p' := gs[0].range.start - p, gs[0].range.end - p, gs[0].range.end;
      assert p' < at by {
        CutPieces(ps, d');
      }
      RunsStep(MarkerPieces, ps, p, gs, d, d');
      AllFitAfterCut(ps, p, rest, at, gs, d', end);
      var j := PastFits(ps[PiecesBefore(ps, d')..], p', rest, at, gs[1..], end);
      EndBeforeCons(gs, j, at);
      m := j + 1;
    } else {
      m := 0;
      AllBeyond(ps, p, rest, at, gs, end);
      assert gs[0..] == gs;
    }
  }

  /** A string at the head of the tokens is masked by the groups that stand in it. */
  lemma HeadMasked(t: Token, rest: seq<Token>, at: nat, p: nat, gs: seq<Edit>)
    requires t.Str? && p == at + 1
    ensures MaskTokens(MarkerPieces, [t] + rest, at, gs)[0] == Str(MaskRuns(MarkerPieces, t.body, p, gs))
  {
    if gs != [] {
      MaskFirst(MarkerPieces, t, rest, at, at + |SpellToken(t)|, p, gs);
    }
  }

  lemma HeadGroups(t: Token, rest: seq<Token>, at: nat, at': nat, p: nat, gs: seq<Edit>, end: nat) returns (m: nat)
    requires t.Str? && p == at + 1 && at' == at + |SpellToken(t)| && Lexed(rest) && AllFitFrom(t.body, p, rest, at', gs)
    requires Separate(gs, p, end)
    ensures Here(t.body, at, gs, 0, m) && PastRuns(t.body, p, gs) == gs[m..]
    ensures AllFit(rest, at', gs[m..]) && Separate(gs[m..], at', end)
  {
    m := PastFits(t.body, p, rest, at', gs, end);
    forall i | 0 <= i < m ensures FitsInterior(t.body, p, gs[i]) {
      if Fits(rest, at', gs[i]) {
        FitsRange(rest, at', gs[i]);
      }
    }
    forall i | m <= i < |gs| ensures p + |SpellPieces(t.body)| < gs[i].range.start {
      assert gs[i] == gs[m..][i - m];
      FitsRange(rest, at', gs[i]);
    }
  }

  /** No group stands on the opening quote. */
  lemma PastQuote(ts: seq<Token>, at: nat, p: nat, gs: seq<Edit>, end: nat)
    requires Lexed(ts) && ts != [] && ts[0].Str? && p == at + 1 && AllFit(ts, at, gs) && Separate(gs, at, end)
    ensures Separate(gs, p, end)
  {
    if gs != [] {
      FitsRange(ts, at, gs[0]);
    }
  }

  lemma RestOfString(t: Token, rest: seq<Token>, at: nat, at': nat, p: nat, gs: seq<Edit>, end: nat) returns (s: nat)
    requires t.Str? && Lexed([t] + rest) && at' == at + |SpellToken(t)| && p == at + 1
    requires AllFit([t] + rest, at, gs) && Separate(gs, at, end)
    ensures Here(t.body, at, gs, 0, s) && PastRuns(t.body, p, gs) == gs[s..]
    ensures AllFit(rest, at', gs[s..]) && Separate(gs[s..], at', end)
    ensures AllEndBefore(gs, s, at')
  {
    ConsTail(t, rest);
    PastQuote([t] + rest, at, p, gs, end);
    StringFits(t, rest, at, at', p, gs);
    s := HeadGroups(t, rest, at, at', p, gs, end);
    forall i | 0 <= i < s ensures gs[i].range.end < at' {
      FitsTokenRange(t, at, gs[i]);
    }
  }

  lemma FitsPast(t: Token, rest: seq<Token>, at: nat, at': nat, gs: seq<Edit>, end: nat)
    requires Lexed([t] + rest) && at' == at + |SpellToken(t)| && gs != [] && AllFit([t] + rest, at, gs) && Separate(gs, at, end)
    requires !FitsToken(t, at, gs[0])
    ensures AllFit(rest, at', gs) && Separate(gs, at', end)
  {
    ConsTail(t, rest);
    LexedHead([t] + rest);
    assert Fits([t] + rest, at, gs[0]);
    FitsRange(rest, at', gs[0]);
    FitsLater(t, rest, at, at', gs, end);
  }

  /** Past the first token, the groups that stand in it are spent. */
  lemma MaskRest(t: Token, rest: seq<Token>, at: nat, at': nat, gs: seq<Edit>, end: nat) returns (s: nat)
    requires Lexed([t] + rest) && at' == at + |SpellToken(t)| && gs != [] && AllFit([t] + rest, at, gs) && Separate(gs, at, end)
    ensures s <= |gs| && MaskTokens(MarkerPieces, [t] + rest, at, gs)[1..] == MaskTokens(MarkerPieces, rest, at', gs[s..])
    ensures AllFit(rest, at', gs[s..]) && Separate(gs[s..], at', end)
    ensures forall i | 0 <= i < s :: gs[i].range.end <= at'
  {
    ConsTail(t, rest);
    LexedHead([t] + rest);
    MaskFirst(MarkerPieces, t, rest, at, at', at + 1, gs);
    if !FitsToken(t, at, gs[0]) {
      s := 0;
      assert gs[0..] == gs;
      FitsPast(t, rest, at, at', gs, end);
    } else if t.Str? {
      s := RestOfString(t, rest, at, at', at + 1, gs, end);
    } else {
      s := 1;
      FitsAfterNumber(t, rest, at, at', gs, end);
    }
  }

  lemma {:induction false} StartsLater(ts: seq<Token>, at: nat, k: nat)
    requires k <= |ts|
    ensures at <= TokenStart(ts, at, k)
  {
    if k > 0 {
      StartsLater(ts[1..], at + |SpellToken(ts[0])|, k - 1);
    }
  }

  /** Token `k` is the string masked by the groups that stand in it, and by no others. */
  ghost predicate MaskedBy(body: seq<Piece>, p: nat, gs: seq<Edit>, n: nat, m: nat, t: Token) {
    Here(body, p, gs, n, m) && t == Str(MaskRuns(MarkerPieces, body, p + 1, gs[n..]))
  }

  ghost predicate MaskedString(body: seq<Piece>, p: nat, gs: seq<Edit>, t: Token) {
    exists n: nat, m: nat :: MaskedBy(body, p, gs, n, m, t)
  }

  lemma MaskedHere(ts: seq<Token>, at: nat, at': nat, p: nat, gs: seq<Edit>, end: nat)
    requires Lexed(ts) && AllFit(ts, at, gs) && Separate(gs, at, end) && ts != [] && ts[0].Str?
    requires p == at + 1 && at' == at + |SpellToken(ts[0])|
    ensures MaskedString(ts[0].body, at, gs, MaskTokens(MarkerPieces, ts, at, gs)[0])
  {
    var t, rest := ts[0], ts[1..];
    assert ts == [t] + rest;
    var m := RestOfString(t, rest, at, at', p, gs, end);
    HeadMasked(t, rest, at, p, gs);
    assert gs[0..] == gs;
    assert MaskedBy(t.body, at, gs, 0, m, MaskTokens(MarkerPieces, ts, at, gs)[0]);
  }

  /** Groups that end earlier change nothing. */
  lemma MaskedShift(body: seq<Piece>, p: nat, gs: seq<Edit>, s: nat, t: Token)
    requires s <= |gs| && MaskedString(body, p, gs[s..], t) && forall i | 0 <= i < s :: gs[i].range.end <= p
    ensures MaskedString(body, p, gs, t)
  {
    var n: nat, m: nat :| MaskedBy(body, p, gs[s..], n, m, t);
    forall i | s <= i < |gs| ensures gs[i] == gs[s..][i - s] {
    }
    assert gs[s..][n..] == gs[s + n..];
    assert MaskedBy(body, p, gs, s + n, m, t);
  }

  /** Every string value is masked by the groups that stand in it, and by no others. */
  lemma {:induction false} MaskedAt(ts: seq<Token>, at: nat, gs: seq<Edit>, end: nat, k: nat)
    requires Lexed(ts) && AllFit(ts, at, gs) && Separate(gs, at, end) && k < |ts| && ts[k].Str?
    ensures MaskedString(ts[k].body, TokenStart(ts, at, k), gs, MaskTokens(MarkerPieces, ts, at, gs)[k])
  {
    if gs == [] {
      assert MaskedBy(ts[k].body, TokenStart(ts, at, k), gs, 0, 0, ts[k]);
    } else if k == 0 {
      MaskedHere(ts, at, at + |SpellToken(ts[0])|, at + 1, gs, end);
    } else {
      var t, rest, at', j := ts[0], ts[1..], at + |SpellToken(ts[0])|, k - 1;
      assert ts == [t] + rest;
      LexedHead(ts);
      var s := MaskRest(t, rest, at, at', gs, end);
      MaskedAt(rest, at', gs[s..], end, j);
      StartsLater(rest, at', j);
      StartStep(ts, at, at', k);
      MaskedShift(rest[j].body, TokenStart(rest, at', j), gs, s, MaskTokens(MarkerPieces, rest, at', gs[s..])[j]);
    }
  }

  // ── Which positions findings touch ─────────────────────────────────────

  /** Some finding calls for an edit that holds position `q` or ends there. */
  ghost predicate Touched(ts: seq<Token>, findings: seq<Finding>, q: int) {
    exists i, at: Place, e :: TouchedBy(ts, findings, i, at, e, q)
  }

  ghost predicate TouchedBy(ts: seq<Token>, findings: seq<Finding>, i: int, at: Place, e: Edit, q: int) {
    && 0 <= i < |findings| && TokenAt(ts, 0, at.token, at.at)
    && IsEditFor(at, findings[i], e) && e.range.start <= q <= e.range.end
  }

  /** The pair with its middle at `q` goes as a whole or is left alone. */
  ghost predicate PairWhole(ts: seq<Token>, findings: seq<Finding>, q: int) {
    Touched(ts, findings, q) ==> Hidden(ts, findings, q - 1) && Hidden(ts, findings, q)
  }

  /** No finding splits a surrogate pair of the string that starts at `base`. */
  ghost predicate PairsWhole(ts: seq<Token>, findings: seq<Finding>, base: nat, gs: seq<Glyph>) {
    forall i | 0 <= i < |gs| && gs[i].Pair? :: PairWhole(ts, findings, base + Extent(gs[..i]) + 6)
  }

  /** The edits are those the findings call for. */
  ghost predicate Answers(ts: seq<Token>, findings: seq<Finding>, edits: seq<Edit>, owners: seq<nat>) {
    InFindingOrder(ts, findings, |findings|, edits, owners) && EachAnswered(ts, findings, |findings|, edits)
  }

  lemma TouchedEdit(ts: seq<Token>, findings: seq<Finding>, edits: seq<Edit>, owners: seq<nat>, q: int) returns (e: Edit)
    requires Answers(ts, findings, edits, owners) && Touched(ts, findings, q)
    ensures e in edits && e.range.start <= q <= e.range.end
  {
    var i, at: Place, x :| TouchedBy(ts, findings, i, at, x, q);
    assert Answered(at, findings[i], edits, 0);
    var k :| 0 <= k < |edits| && IsEditFor(at, findings[i], edits[k]);
    EditUnique(at, findings[i], x, edits[k]);
    e := edits[k];
  }

  lemma EditTouches(ts: seq<Token>, findings: seq<Finding>, edits: seq<Edit>, owners: seq<nat>, k: nat, q: int)
    requires Answers(ts, findings, edits, owners) && k < |edits| && edits[k].range.start <= q <= edits[k].range.end
    ensures Touched(ts, findings, q)
  {
    var at: Place :| TokenAt(ts, 0, at.token, at.at) && IsEditFor(at, findings[owners[k]], edits[k]);
    assert TouchedBy(ts, findings, owners[k], at, edits[k], q);
  }

  lemma PlanHides(content: bytes, edits: seq<Edit>, q: int)
    requires AllWithin(edits, |content|)
    ensures InSome(Plan(content, edits), q) <==> InSome(edits, q)
  {
    SortSorts(edits);
    SortWithin(edits, |content|);
    GroupsCover(Sort(edits), |content|, q);
    SortInSome(edits, q);
  }

  /** A group's ends never fall between two bytes that both go. */
  lemma NoEdgeBetween(gs: seq<Edit>, end: nat, j: nat, q: nat)
    requires Separate(gs, 0, end) && j < |gs| && InSome(gs, q - 1) && InSome(gs, q)
    ensures q != gs[j].range.start && q != gs[j].range.end
  {
    var x :| 0 <= x < |gs| && gs[x].range.Contains(q - 1);
    var y :| 0 <= y < |gs| && gs[y].range.Contains(q);
    Apart(gs, 0, end, x, y);
    Apart(gs, 0, end, x, j);
  }

  lemma {:induction false} Apart(gs: seq<Edit>, from: nat, end: nat, i: nat, j: nat)
    requires Separate(gs, from, end) && i < |gs| && j < |gs|
    ensures gs[i].range.start <= gs[i].range.end && gs[j].range.start <= gs[j].range.end
    ensures i < j ==> gs[i].range.end < gs[j].range.start
    ensures j < i ==> gs[j].range.end < gs[i].range.start
    decreases |gs|
  {
    if 0 < i && 0 < j {
      Apart(gs[1..], gs[0].range.end, end, i - 1, j - 1);
    } else {
      if 0 < i {
        SeparateAfter(gs, from, end, i);
        Apart(gs[1..], gs[0].range.end, end, i - 1, i - 1);
      }
      if 0 < j {
        SeparateAfter(gs, from, end, j);
        Apart(gs[1..], gs[0].range.end, end, j - 1, j - 1);
      }
    }
  }

  // ── Where the groups of a plan start and end ───────────────────────────

  /** UTF-8 JSON text, findings that describe it, and the edits they call for. */
  ghost predicate Redacts(ts: seq<Token>, findings: seq<Finding>, edits: seq<Edit>, owners: seq<nat>) {
    && Lexed(ts) && IsUtf8(Spell(ts)) && AllDescribe(Spell(ts), findings) && Answers(ts, findings, edits, owners)
    && AllWithin(edits, |Spell(ts)|)
  }

  ghost function TouchedEdges(ts: seq<Token>, findings: seq<Finding>): nat -> bool {
    (q: nat) => Edge(Spell(ts), q) && Touched(ts, findings, q)
  }

  lemma PlanTouches(ts: seq<Token>, findings: seq<Finding>, edits: seq<Edit>, owners: seq<nat>)
    requires Redacts(ts, findings, edits, owners)
    ensures AllEdges(TouchedEdges(ts, findings), Plan(Spell(ts), edits))
  {
    var edge := TouchedEdges(ts, findings);
    forall i | 0 <= i < |edits| ensures edge(edits[i].range.start) && edge(edits[i].range.end) {
      CalledEdges(Spell(ts), ts, findings[owners[i]], edits[i]);
      EditTouches(ts, findings, edits, owners, i, edits[i].range.start);
      EditTouches(ts, findings, edits, owners, i, edits[i].range.end);
    }
    PlanEdges(edge, Spell(ts), edits);
  }

  /** The tag of a finding that calls for an edit from `q` on. */
  ghost predicate Led(ts: seq<Token>, findings: seq<Finding>, q: int, tag: string) {
    exists i, e :: 0 <= i < |findings| && Called(ts, findings[i], e) && e.range.start == q && e.tag == tag
  }

  ghost predicate AllLed(ts: seq<Token>, findings: seq<Finding>, gs: seq<Edit>) {
    forall j | 0 <= j < |gs| :: Led(ts, findings, gs[j].range.start, gs[j].tag)
  }

  lemma PlanLed(ts: seq<Token>, findings: seq<Finding>, edits: seq<Edit>, owners: seq<nat>)
    requires Answers(ts, findings, edits, owners) && AllWithin(edits, |Spell(ts)|)
    ensures AllLed(ts, findings, Plan(Spell(ts), edits))
  {
    var gs := Plan(Spell(ts), edits);
    forall j | 0 <= j < |gs| ensures Led(ts, findings, gs[j].range.start, gs[j].tag) {
      var i := PlanLeader(Spell(ts), edits, j);
      SortMembers(edits, Sort(edits)[i]);
      var k :| 0 <= k < |edits| && edits[k] == Sort(edits)[i];
      assert Called(ts, findings[owners[k]], edits[k]);
    }
  }

  ghost predicate Reached(gs: seq<Edit>, q: int) {
    exists j :: 0 <= j < |gs| && gs[j].range.start <= q <= gs[j].range.end
  }

  /** What matters about a plan: it holds the bytes the findings call away, and starts, ends and reaches where they do. */
  ghost predicate PlanFor(ts: seq<Token>, findings: seq<Finding>, gs: seq<Edit>) {
    && Separate(gs, 0, |Spell(ts)|) && AllEdges(TouchedEdges(ts, findings), gs) && AllLed(ts, findings, gs)
    && (forall q: int {:trigger Hidden(ts, findings, q)} :: InSome(gs, q) <==> Hidden(ts, findings, q))
    && (forall q: int {:trigger Touched(ts, findings, q)} | Touched(ts, findings, q) :: Reached(gs, q))
  }

  lemma HiddenByPlan(ts: seq<Token>, findings: seq<Finding>, edits: seq<Edit>, owners: seq<nat>, q: int)
    requires Answers(ts, findings, edits, owners) && AllWithin(edits, |Spell(ts)|)
    ensures InSome(Plan(Spell(ts), edits), q) <==> Hidden(ts, findings, q)
  {
    HiddenIsEdited(ts, findings, edits, owners, q);
    PlanHides(Spell(ts), edits, q);
  }

  lemma ReachedByPlan(ts: seq<Token>, findings: seq<Finding>, edits: seq<Edit>, owners: seq<nat>, q: int)
    requires Answers(ts, findings, edits, owners) && AllWithin(edits, |Spell(ts)|) && Touched(ts, findings, q)
    ensures Reached(Plan(Spell(ts), edits), q)
  {
    var e := TouchedEdit(ts, findings, edits, owners, q);
    var j := PlanCovers(Spell(ts), edits, e);
    var gs := Plan(Spell(ts), edits);
    assert gs[j].range.start <= q <= gs[j].range.end;
  }

  lemma PlanAnswers(ts: seq<Token>, findings: seq<Finding>, edits: seq<Edit>, owners: seq<nat>)
    requires Redacts(ts, findings, edits, owners)
    ensures PlanFor(ts, findings, Plan(Spell(ts), edits))
  {
    PlanTouches(ts, findings, edits, owners);
    PlanLed(ts, findings, edits, owners);
    forall q: int ensures InSome(Plan(Spell(ts), edits), q) <==> Hidden(ts, findings, q) {
      HiddenByPlan(ts, findings, edits, owners, q);
    }
    forall q: int | Touched(ts, findings, q) ensures Reached(Plan(Spell(ts), edits), q) {
      ReachedByPlan(ts, findings, edits, owners, q);
    }
  }

  /** A group ends between characters of the text, and never in the middle of a pair that is whole. */
  ghost predicate MayEnd(ts: seq<Token>, findings: seq<Finding>, q: nat) {
    Edge(Spell(ts), q) && !PairWhole(ts, findings, q)
  }

  lemma GroupEnds(ts: seq<Token>, findings: seq<Finding>, gs: seq<Edit>, j: nat, q: nat)
    requires PlanFor(ts, findings, gs) && j < |gs| && (q == gs[j].range.start || q == gs[j].range.end)
    ensures MayEnd(ts, findings, q)
  {
    assert TouchedEdges(ts, findings)(gs[j].range.start) && TouchedEdges(ts, findings)(gs[j].range.end);
    if PairWhole(ts, findings, q) {
      NoEdgeBetween(gs, |Spell(ts)|, j, q);
    }
  }

  /** A pair that is neither left alone nor gone as a whole has a group end in its middle. */
  lemma SplitMiddle(ts: seq<Token>, findings: seq<Finding>, gs: seq<Edit>, q: nat) returns (j: nat)
    requires PlanFor(ts, findings, gs) && !PairWhole(ts, findings, q)
    ensures j < |gs| && (q == gs[j].range.start || q == gs[j].range.end)
  {
    assert Reached(gs, q);
    j :| 0 <= j < |gs| && gs[j].range.start <= q <= gs[j].range.end;
    if gs[j].range.start < q < gs[j].range.end {
      BothInside(gs, j, q);
    }
  }

  lemma BothInside(gs: seq<Edit>, j: nat, q: nat)
    requires j < |gs| && gs[j].range.start < q < gs[j].range.end
    ensures InSome(gs, q - 1) && InSome(gs, q)
  {
    assert gs[j].range.Contains(q - 1) && gs[j].range.Contains(q);
  }

  // ── Characters are never cut ───────────────────────────────────────────

  lemma SpellMiddle(a: seq<Glyph>, g: Glyph, b: seq<Glyph>)
    ensures SpellPieces(AllPieces(a + ([g] + b)))
         == SpellPieces(AllPieces(a)) + (SpellPieces(GlyphPieces(g)) + SpellPieces(AllPieces(b)))
  {
    PiecesAround(a, g, b);
    SpellPiecesJoin(AllPieces(a), GlyphPieces(g) + AllPieces(b));
    SpellPiecesJoin(GlyphPieces(g), AllPieces(b));
  }

  lemma SpellAround(gs: seq<Glyph>, i: nat)
    requires i < |gs|
    ensures SpellPieces(AllPieces(gs))
         == SpellPieces(AllPieces(gs[..i])) + (SpellPieces(GlyphPieces(gs[i])) + SpellPieces(AllPieces(gs[i + 1..])))
    ensures Extent(gs[..i + 1]) == Extent(gs[..i]) + |SpellPieces(GlyphPieces(gs[i]))|
  {
    assert gs == gs[..i] + ([gs[i]] + gs[i + 1..]);
    SpellMiddle(gs[..i], gs[i], gs[i + 1..]);
    assert gs[..i + 1] == gs[..i] + [gs[i]];
    ExtentMore(gs[..i], gs[i]);
  }

  lemma MiddleByte(x: bytes, y: bytes, z: bytes, d: nat, j: nat)
    requires d == |x| + j && j < |y|
    ensures (x + (y + z))[d] == y[j]
  {
  }

  lemma LiteralByte(gs: seq<Glyph>, i: nat, d: nat)
    requires ValidGlyphs(gs) && i < |gs| && gs[i].Literal? && Extent(gs[..i]) < d < Extent(gs[..i + 1])
    ensures d < |SpellPieces(AllPieces(gs))| && IsContinuation(SpellPieces(AllPieces(gs))[d])
  {
    var bs, x, z := Encode(gs[i].cp), SpellPieces(AllPieces(gs[..i])), SpellPieces(AllPieces(gs[i + 1..]));
    SpellAround(gs, i);
    SpellRaw(bs);
    MiddleByte(x, bs, z, d, d - |x|);
    DecodeEncodeOne(gs[i].cp);
    TailsContinue(bs, d - |x|);
  }

  lemma ByteInside(content: bytes, body: seq<Piece>, at: Place, lit: Span, q: nat, d: nat)
    requires at.token == Str(body) && Stands(content, at) && lit == Region(at.token, at.at)
    requires d < |SpellPieces(body)| && q == lit.start + d
    ensures q < |content| && content[q] == SpellPieces(body)[d]
  {
    QuotedSlice(content, SpellPieces(body), at.at, |SpellToken(at.token)|, lit);
    QuotedByte(content, SpellPieces(body), lit, q, d);
  }

  /** A position between characters of text is not inside one of them. */
  lemma NotInside(ts: seq<Token>, at: Place, gs: seq<Glyph>, i: nat, q: nat, d: nat)
    requires Lexed(ts) && TokenAt(ts, 0, at.token, at.at) && at.token == Str(AllPieces(gs)) && ValidGlyphs(gs)
    requires i < |gs| && gs[i].Literal? && Extent(gs[..i]) < d < Extent(gs[..i + 1]) && q == at.at + 1 + d
    ensures !Edge(Spell(ts), q)
  {
    TokenStands(Spell(ts), ts, at);
    LiteralByte(gs, i, d);
    ByteInside(Spell(ts), AllPieces(gs), at, Region(at.token, at.at), q, d);
  }

  /** A string value spelled by its characters, none of its pairs split. */
  ghost predicate Unsplit(ts: seq<Token>, findings: seq<Finding>, at: Place, gs: seq<Glyph>) {
    && TokenAt(ts, 0, at.token, at.at) && at.token == Str(AllPieces(gs)) && ValidGlyphs(gs)
    && PairsWhole(ts, findings, at.at + 1, gs)
  }

  /** No group ends inside a character, raw or a pair. */
  lemma InsideRefused(ts: seq<Token>, findings: seq<Finding>, at: Place, gs: seq<Glyph>, i: nat, q: nat, d: nat)
    requires Lexed(ts) && Unsplit(ts, findings, at, gs) && q == at.at + 1 + d
    requires i < |gs| && Extent(gs[..i]) < d < Extent(gs[..i + 1])
    requires gs[i].Literal? || (gs[i].Pair? && d == Extent(gs[..i]) + 6)
    ensures !MayEnd(ts, findings, q)
  {
    if gs[i].Literal? {
      NotInside(ts, at, gs, i, q, d);
    } else {
      WholeAt(ts, findings, at.at + 1, gs, i, q);
    }
  }

  /** Where no pair is split, groups end between characters. */
  lemma EndIsChar(ts: seq<Token>, findings: seq<Finding>, at: Place, gs: seq<Glyph>, q: nat, d: nat) returns (a: nat)
    requires Lexed(ts) && Unsplit(ts, findings, at, gs) && MayEnd(ts, findings, q)
    requires q == at.at + 1 + d && AtBoundary(AllPieces(gs), d)
    ensures a <= |gs| && d == Extent(gs[..a])
  {
    a := ClassifyEdge(gs, d);
    if d != Extent(gs[..a]) {
      InsideRefused(ts, findings, at, gs, a, q, d);
    }
  }

  lemma WholeAt(ts: seq<Token>, findings: seq<Finding>, base: nat, gs: seq<Glyph>, i: nat, q: nat)
    requires PairsWhole(ts, findings, base, gs) && i < |gs| && gs[i].Pair? && q == base + Extent(gs[..i]) + 6
    ensures PairWhole(ts, findings, q)
  {
  }

  ghost predicate OnChars(gs: seq<Glyph>, base: nat, e: Edit) {
    exists c :: IsCut(gs, base, c, e)
  }

  lemma GroupOnChars(ts: seq<Token>, findings: seq<Finding>, at: Place, gs: seq<Glyph>, g: Edit, base: nat, d: nat, d': nat)
    requires Lexed(ts) && Unsplit(ts, findings, at, gs) && base == at.at + 1
    requires MayEnd(ts, findings, g.range.start) && MayEnd(ts, findings, g.range.end)
    requires !g.quoted && g.range == Span(base + d, base + d') && d <= d'
    requires AtBoundary(AllPieces(gs), d) && AtBoundary(AllPieces(gs), d')
    ensures OnChars(gs, base, g)
  {
    var a := EndIsChar(ts, findings, at, gs, g.range.start, d);
    var b := EndIsChar(ts, findings, at, gs, g.range.end, d');
    CharOrder(gs, a, b);
    assert IsCut(gs, base, Cut(a, b, g.tag), g);
  }

  lemma CharOrder(gs: seq<Glyph>, a: nat, b: nat)
    requires AllLegible(gs) && a <= |gs| && b <= |gs|
    ensures Extent(gs[..a]) <= Extent(gs[..b]) <==> a <= b
  {
    if a < b {
      ExtentBetween(gs, a, b);
    } else if b < a {
      ExtentBetween(gs, b, a);
    }
  }

  ghost predicate AllOnChars(gs: seq<Glyph>, base: nat, es: seq<Edit>, m: nat) {
    m <= |es| && forall j | 0 <= j < m :: OnChars(gs, base, es[j])
  }

  lemma OnCharsRest(gs: seq<Glyph>, base: nat, es: seq<Edit>, m: nat)
    requires m > 0 && AllOnChars(gs, base, es, m)
    ensures OnChars(gs, base, es[0]) && AllOnChars(gs, base, es[1..], m - 1)
  {
    forall j | 0 <= j < m - 1 ensures OnChars(gs, base, es[1..][j]) {
      assert OnChars(gs, base, es[j + 1]);
    }
  }

  /** The groups that stand in a string, as runs of its characters. */
  lemma {:induction false} BuildCuts(gs: seq<Glyph>, base: nat, i: nat, p: nat, es: seq<Edit>, m: nat, end: nat)
    returns (cuts: seq<Cut>)
    requires ValidGlyphs(gs) && i <= |gs| && p == base + Extent(gs[..i]) && Separate(es, p, end)
    requires AllOnChars(gs, base, es, m) && (m < |es| ==> base + Extent(gs) < es[m].range.start)
    ensures |cuts| == m && Ordered(cuts, i, |gs|) && CutsAre(gs, base, cuts, es)
    decreases m
  {
    if m == 0 {
      cuts := [];
    } else {
      OnCharsRest(gs, base, es, m);
      var c :| IsCut(gs, base, c, es[0]);
      var rest := BuildCuts(gs, base, c.to, es[0].range.end, es[1..], m - 1, end);
      cuts := [c] + rest;
      CharOrder(gs, i, c.from);
      CutsMore(gs, base, i, c, rest, es);
    }
  }

  lemma CutsMore(gs: seq<Glyph>, base: nat, i: nat, c: Cut, rest: seq<Cut>, es: seq<Edit>)
    requires ValidGlyphs(gs) && i <= c.from && es != [] && IsCut(gs, base, c, es[0]) && CutsAre(gs, base, rest, es[1..])
    requires Ordered(rest, c.to, |gs|) && (|es| > 1 ==> es[0].range.end < es[1].range.start)
    ensures Ordered([c] + rest, i, |gs|) && CutsAre(gs, base, [c] + rest, es)
  {
    ConsTail(c, rest);
    if rest != [] {
      assert IsCut(gs, base, rest[0], es[1..][0]);
      CharOrder(gs, rest[0].from, c.to);
    }
    forall j | 0 <= j < |[c] + rest| ensures IsCut(gs, base, ([c] + rest)[j], es[j]) {
      if j > 0 {
        assert IsCut(gs, base, rest[j - 1], es[1..][j - 1]);
      }
    }
  }

  // ── The value as its reader sees it ────────────────────────────────────

  ghost predicate InCut(cuts: seq<Cut>, i: int) {
    exists j :: 0 <= j < |cuts| && cuts[j].from <= i < cuts[j].to
  }

  /** A character is in a cut exactly when a group holds its bytes. */
  lemma CutHolds(gs: seq<Glyph>, p: nat, base: nat, cuts: seq<Cut>, groups: seq<Edit>, n: nat, m: nat, i: nat, q: nat)
    requires ValidGlyphs(gs) && base == p + 1 && Here(AllPieces(gs), p, groups, n, m)
    requires |cuts| == m && CutsAre(gs, base, cuts, groups[n..]) && i < |gs| && q == base + Extent(gs[..i])
    ensures InCut(cuts, i) <==> InSome(groups, q)
  {
    if InCut(cuts, i) {
      var j :| 0 <= j < |cuts| && cuts[j].from <= i < cuts[j].to;
      CutContains(gs, base, cuts[j], groups[n..][j], i, q);
      assert groups[n + j].range.Contains(q);
    }
    if InSome(groups, q) {
      var x :| 0 <= x < |groups| && groups[x].range.Contains(q);
      ExtentBetween(gs, i, |gs|);
      assert n <= x < n + m;
      CutContains(gs, base, cuts[x - n], groups[n..][x - n], i, q);
    }
  }

  lemma CutContains(gs: seq<Glyph>, base: nat, c: Cut, e: Edit, i: nat, q: nat)
    requires ValidGlyphs(gs) && IsCut(gs, base, c, e) && i < |gs| && q == base + Extent(gs[..i])
    ensures c.from <= i < c.to <==> e.range.Contains(q)
  {
    CharOrder(gs, c.from, i);
    CharOrder(gs, c.to, i);
  }

  ghost predicate GoodEnds(ts: seq<Token>, findings: seq<Finding>, gs: seq<Edit>) {
    forall j | 0 <= j < |gs| :: MayEnd(ts, findings, gs[j].range.start) && MayEnd(ts, findings, gs[j].range.end)
  }

  lemma AllGroupEnds(ts: seq<Token>, findings: seq<Finding>, groups: seq<Edit>)
    requires PlanFor(ts, findings, groups)
    ensures GoodEnds(ts, findings, groups)
  {
    forall j | 0 <= j < |groups|
      ensures MayEnd(ts, findings, groups[j].range.start) && MayEnd(ts, findings, groups[j].range.end)
    {
      GroupEnds(ts, findings, groups, j, groups[j].range.start);
      GroupEnds(ts, findings, groups, j, groups[j].range.end);
    }
  }

  lemma InteriorEnds(ps: seq<Piece>, base: nat, g: Edit) returns (d: nat, d': nat)
    requires FitsInterior(ps, base, g)
    ensures !g.quoted && g.range == Span(base + d, base + d') && d <= d' && AtBoundary(ps, d) && AtBoundary(ps, d')
  {
    d, d' := g.range.start - base, g.range.end - base;
  }

  lemma GroupsHere(ts: seq<Token>, findings: seq<Finding>, es: seq<Edit>, at: Place, gs: seq<Glyph>, base: nat, m: nat)
    requires Lexed(ts) && GoodEnds(ts, findings, es) && Unsplit(ts, findings, at, gs) && base == at.at + 1
    requires AllInterior(AllPieces(gs), base, es, m)
    ensures AllOnChars(gs, base, es, m)
  {
    forall j | 0 <= j < m ensures OnChars(gs, base, es[j]) {
      OneHere(ts, findings, at, gs, es[j], base);
    }
  }

  lemma GoodFrom(ts: seq<Token>, findings: seq<Finding>, groups: seq<Edit>, n: nat)
    requires GoodEnds(ts, findings, groups) && n <= |groups|
    ensures GoodEnds(ts, findings, groups[n..])
  {
    forall j | 0 <= j < |groups| - n
      ensures MayEnd(ts, findings, groups[n..][j].range.start) && MayEnd(ts, findings, groups[n..][j].range.end)
    {
      assert groups[n..][j] == groups[n + j];
    }
  }

  lemma OneHere(ts: seq<Token>, findings: seq<Finding>, at: Place, gs: seq<Glyph>, g: Edit, base: nat)
    requires Lexed(ts) && Unsplit(ts, findings, at, gs) && base == at.at + 1 && FitsInterior(AllPieces(gs), base, g)
    requires MayEnd(ts, findings, g.range.start) && MayEnd(ts, findings, g.range.end)
    ensures OnChars(gs, base, g)
  {
    var d, d' := InteriorEnds(AllPieces(gs), base, g);
    GroupOnChars(ts, findings, at, gs, g, base, d, d');
  }

  /** The groups that stand in a string value, `es` on, as cuts of its characters. */
  lemma ValueCuts(gs: seq<Glyph>, p: nat, base: nat, groups: seq<Edit>, n: nat, m: nat, end: nat, es: seq<Edit>) returns (cuts: seq<Cut>)
    requires ValidGlyphs(gs) && base == p + 1 && Here(AllPieces(gs), p, groups, n, m) && Separate(groups, 0, end)
    requires es == groups[n..] && AllOnChars(gs, base, es, m)
    ensures |cuts| == m && Ordered(cuts, 0, |gs|) && CutsAre(gs, base, cuts, es)
  {
    assert Separate(es, base, end) by {
      HereSeparate(AllPieces(gs), p, base, groups, n, m, end);
    }
    assert m <= |es| && (m < |es| ==> base + Extent(gs) < es[m].range.start) by {
      HereEnds(gs, p, base, groups, n, m);
    }
    cuts := CutsFromStart(gs, base, es, m, end);
  }

  lemma CutsFromStart(gs: seq<Glyph>, base: nat, es: seq<Edit>, m: nat, end: nat) returns (cuts: seq<Cut>)
    requires ValidGlyphs(gs) && Separate(es, base, end)
    requires AllOnChars(gs, base, es, m) && (m < |es| ==> base + Extent(gs) < es[m].range.start)
    ensures |cuts| == m && Ordered(cuts, 0, |gs|) && CutsAre(gs, base, cuts, es)
  {
    assert gs[..0] == [];
    cuts := BuildCuts(gs, base, 0, base, es, m, end);
  }

  lemma HereSeparate(body: seq<Piece>, p: nat, base: nat, groups: seq<Edit>, n: nat, m: nat, end: nat)
    requires Here(body, p, groups, n, m) && base == p + 1 && Separate(groups, 0, end)
    ensures Separate(groups[n..], base, end)
  {
    SeparateFrom(groups, 0, end, n, base);
  }

  lemma HereEnds(gs: seq<Glyph>, p: nat, base: nat, groups: seq<Edit>, n: nat, m: nat)
    requires Here(AllPieces(gs), p, groups, n, m) && base == p + 1
    ensures m <= |groups[n..]| && (m < |groups[n..]| ==> base + Extent(gs) < groups[n..][m].range.start)
  {
  }

  /** A token in the redacted text, and what is known of its plan. */
  ghost predicate Became(ts: seq<Token>, findings: seq<Finding>, groups: seq<Edit>, at: Place, gs: seq<Glyph>, body': seq<Piece>) {
    && TokenAt(ts, 0, at.token, at.at) && at.token == Str(AllPieces(gs)) && ValidGlyphs(gs)
    && MaskedString(AllPieces(gs), at.at, groups, Str(body')) && PlanFor(ts, findings, groups)
  }

  ghost predicate HideExactly(ts: seq<Token>, findings: seq<Finding>, base: nat, gs: seq<Glyph>, cuts: seq<Cut>) {
    forall i | 0 <= i < |gs| :: InCut(cuts, i) <==> Hidden(ts, findings, base + Extent(gs[..i]))
  }

  ghost predicate CutsLed(ts: seq<Token>, findings: seq<Finding>, base: nat, gs: seq<Glyph>, cuts: seq<Cut>) {
    forall j | 0 <= j < |cuts| ::
      cuts[j].from <= |gs| && Led(ts, findings, base + Extent(gs[..cuts[j].from]), cuts[j].tag)
  }

  /** The cuts hide exactly the characters the findings call away, each under the tag of a finding that starts there. */
  ghost predicate CutsFor(ts: seq<Token>, findings: seq<Finding>, base: nat, gs: seq<Glyph>, cuts: seq<Cut>) {
    Ordered(cuts, 0, |gs|) && HideExactly(ts, findings, base, gs, cuts) && CutsLed(ts, findings, base, gs, cuts)
  }

  lemma CutsHide(ts: seq<Token>, findings: seq<Finding>, groups: seq<Edit>, gs: seq<Glyph>, p: nat, base: nat,
                 n: nat, m: nat, cuts: seq<Cut>)
    requires PlanFor(ts, findings, groups) && ValidGlyphs(gs) && base == p + 1 && Here(AllPieces(gs), p, groups, n, m)
    requires |cuts| == m && CutsAre(gs, base, cuts, groups[n..])
    ensures HideExactly(ts, findings, base, gs, cuts)
  {
    forall i | 0 <= i < |gs| ensures InCut(cuts, i) <==> Hidden(ts, findings, base + Extent(gs[..i])) {
      CutHidden(ts, findings, groups, gs, p, base, n, m, cuts, i, base + Extent(gs[..i]));
    }
  }

  lemma CutHidden(ts: seq<Token>, findings: seq<Finding>, groups: seq<Edit>, gs: seq<Glyph>, p: nat, base: nat,
                  n: nat, m: nat, cuts: seq<Cut>, i: nat, q: nat)
    requires PlanFor(ts, findings, groups) && ValidGlyphs(gs) && base == p + 1 && Here(AllPieces(gs), p, groups, n, m)
    requires |cuts| == m && CutsAre(gs, base, cuts, groups[n..]) && i < |gs| && q == base + Extent(gs[..i])
    ensures InCut(cuts, i) <==> Hidden(ts, findings, q)
  {
    CutHolds(gs, p, base, cuts, groups, n, m, i, q);
  }

  lemma CutsAreLed(ts: seq<Token>, findings: seq<Finding>, groups: seq<Edit>, gs: seq<Glyph>, base: nat, n: nat, cuts: seq<Cut>,
                   es: seq<Edit>)
    requires AllLed(ts, findings, groups) && n <= |groups| && es == groups[n..] && CutsAre(gs, base, cuts, es)
    ensures CutsLed(ts, findings, base, gs, cuts)
  {
    forall j | 0 <= j < |cuts|
      ensures cuts[j].from <= |gs| && Led(ts, findings, base + Extent(gs[..cuts[j].from]), cuts[j].tag)
    {
      assert IsCut(gs, base, cuts[j], es[j]);
      assert Led(ts, findings, groups[n + j].range.start, groups[n + j].tag);
    }
  }

  /** A value with no pair split reads as the old characters with the called-away runs replaced by markers. */
  lemma ValueReplaced(ts: seq<Token>, findings: seq<Finding>, groups: seq<Edit>, at: Place, gs: seq<Glyph>, body': seq<Piece>)
    returns (cuts: seq<Cut>)
    requires Lexed(ts) && Became(ts, findings, groups, at, gs, body') && PairsWhole(ts, findings, at.at + 1, gs)
    ensures CutsFor(ts, findings, at.at + 1, gs, cuts) && body' == AllPieces(Replaced(gs, MarkerGlyphs, 0, cuts))
  {
    var base := at.at + 1;
    var n: nat, m: nat :| MaskedBy(AllPieces(gs), at.at, groups, n, m, Str(body'));
    assert AllOnChars(gs, base, groups[n..], m) by {
      AllGroupEnds(ts, findings, groups);
      GoodFrom(ts, findings, groups, n);
      HereInterior(AllPieces(gs), at.at, base, groups, n, m, m);
      GroupsHere(ts, findings, groups[n..], at, gs, base, m);
    }
    cuts := ValueCuts(gs, at.at, base, groups, n, m, |Spell(ts)|, groups[n..]);
    CutsHide(ts, findings, groups, gs, at.at, base, n, m, cuts);
    CutsAreLed(ts, findings, groups, gs, base, n, cuts, groups[n..]);
    WholeMasked(gs, base, cuts, groups[n..]);
  }

  lemma WholeMasked(gs: seq<Glyph>, base: nat, cuts: seq<Cut>, es: seq<Edit>)
    requires Ordered(cuts, 0, |gs|) && CutsAre(gs, base, cuts, es)
    ensures MaskRuns(MarkerPieces, AllPieces(gs), base, es) == AllPieces(Replaced(gs, MarkerGlyphs, 0, cuts))
  {
    assert gs[..0] == [] && gs[0..] == gs;
    MaskedGlyphs(gs, base, 0, base, cuts, es);
  }

  lemma {:induction false} BrokenPair(ts: seq<Token>, findings: seq<Finding>, base: nat, gs: seq<Glyph>) returns (q: nat, d: nat)
    requires ValidGlyphs(gs) && !PairsWhole(ts, findings, base, gs)
    ensures !PairWhole(ts, findings, q) && q == base + d && d < Extent(gs) && SplitsPair(AllPieces(gs), d)
  {
    var i :| 0 <= i < |gs| && gs[i].Pair? && !PairWhole(ts, findings, base + Extent(gs[..i]) + 6);
    q := base + Extent(gs[..i]) + 6;
    d := MiddleOf(gs, i);
  }

  lemma {:induction false} MiddleOf(gs: seq<Glyph>, i: nat) returns (d: nat)
    requires ValidGlyphs(gs) && i < |gs| && gs[i].Pair?
    ensures d == Extent(gs[..i]) + 6 < Extent(gs) && SplitsPair(AllPieces(gs), d)
  {
    d := Extent(gs[..i]) + 6;
    PairMiddle(gs, i, d);
    PairEnds(gs, i);
  }

  lemma PairEnds(gs: seq<Glyph>, i: nat)
    requires AllLegible(gs) && i < |gs| && gs[i].Pair?
    ensures Extent(gs[..i]) + 6 < Extent(gs)
  {
    EscapeSize(gs[i]);
    SpellAround(gs, i);
  }

  /** A value with a pair split cannot be read any more. */
  lemma ValueBroken(ts: seq<Token>, findings: seq<Finding>, groups: seq<Edit>, at: Place, gs: seq<Glyph>, body': seq<Piece>)
    returns (k: nat)
    requires Became(ts, findings, groups, at, gs, body') && !PairsWhole(ts, findings, at.at + 1, gs)
    ensures Lonely(body', k)
  {
    var base := at.at + 1;
    var n: nat, m: nat :| MaskedBy(AllPieces(gs), at.at, groups, n, m, Str(body'));
    var q, d := BrokenPair(ts, findings, base, gs);
    var j := SplitMiddle(ts, findings, groups, q);
    var x := RunHere(AllPieces(gs), at.at, base, groups, n, m, |Spell(ts)|, j, q);
    k := LonelyRun(AllPieces(gs), base, groups[n..], |Spell(ts)|, x, q, d);
  }

  /** A group that ends inside the string is one of those that stand in it. */
  lemma RunHere(body: seq<Piece>, p: nat, base: nat, groups: seq<Edit>, n: nat, m: nat, end: nat, j: nat, q: nat) returns (x: nat)
    requires base == p + 1 && Here(body, p, groups, n, m) && Separate(groups, 0, end) && j < |groups|
    requires (q == groups[j].range.start || q == groups[j].range.end) && base <= q <= base + |SpellPieces(body)|
    ensures x < |groups[n..]| && groups[n..][x] == groups[j]
    ensures Separate(groups[n..], base, end) && AllInterior(body, base, groups[n..], x + 1)
  {
    HereSeparate(body, p, base, groups, n, m, end);
    Apart(groups, 0, end, j, j);
    StandsHere(body, p, groups, n, m, j, q);
    x := j - n;
    HereInterior(body, p, base, groups, n, m, x + 1);
  }

  lemma StandsHere(body: seq<Piece>, p: nat, groups: seq<Edit>, n: nat, m: nat, j: nat, q: nat)
    requires Here(body, p, groups, n, m) && j < |groups| && groups[j].range.start <= q <= groups[j].range.end
    requires p < q <= p + 1 + |SpellPieces(body)|
    ensures n <= j < n + m
  {
  }

  lemma HereInterior(body: seq<Piece>, p: nat, base: nat, groups: seq<Edit>, n: nat, m: nat, x: nat)
    requires Here(body, p, groups, n, m) && base == p + 1 && x <= m
    ensures AllInterior(body, base, groups[n..], x)
  {
    forall i | 0 <= i < x ensures FitsInterior(body, base, groups[n..][i]) {
      assert groups[n..][i] == groups[n + i];
    }
  }

  // ── Redacted documents ─────────────────────────────────────────────────

  /** What `redact` makes of the document, once it does not refuse. */
  ghost predicate Yields(doc: Doc, findings: seq<Finding>, edits: seq<Edit>, owners: seq<nat>, out: Doc) {
    exists r :: RedactsDoc(Render(doc), doc, findings, r, edits, owners, out)
  }

  /** UTF-8 JSON text, findings that describe it, and what `redact` made of it. */
  ghost predicate RedactedText(doc: Doc, findings: seq<Finding>, edits: seq<Edit>, owners: seq<nat>, out: Doc) {
    && ValidDoc(doc) && IsUtf8(Render(doc)) && AllDescribe(Render(doc), findings)
    && Yields(doc, findings, edits, owners, out)
  }

  lemma TextAnswers(doc: Doc, findings: seq<Finding>, edits: seq<Edit>, owners: seq<nat>, out: Doc)
    requires RedactedText(doc, findings, edits, owners, out)
    ensures Redacts(DocTokens(doc), findings, edits, owners) && AllFit(DocTokens(doc), 0, edits)
    ensures Lexed(DocTokens(out)) && DocTokens(out) == MaskTokens(MarkerPieces, DocTokens(doc), 0, Plan(Render(doc), edits))
  {
    LexedDoc(doc);
    LexedDoc(out);
    CalledWithin(DocTokens(doc), findings, edits, owners);
  }

  lemma ValidHere(ts: seq<Token>, k: nat)
    requires Lexed(ts) && k < |ts|
    ensures ValidToken(ts[k])
  {
    StartsThere(ts, 0, k);
    ValidAt(ts, 0, ts[k], TokenStart(ts, 0, k));
  }

  /** Token `k` is a string value, and reads as those characters. */
  ghost predicate ReadsAs(ts: seq<Token>, k: nat, gs: seq<Glyph>) {
    k < |ts| && ts[k].Str? && ValidPieces(ts[k].body) && ReadGlyphs(ts[k].body) == Some(gs)
  }

  /** Where its characters start. */
  function ValueStart(ts: seq<Token>, k: nat): nat
    requires k <= |ts|
  {
    TokenStart(ts, 0, k) + 1
  }

  lemma BecameAt(doc: Doc, findings: seq<Finding>, edits: seq<Edit>, owners: seq<nat>, out: Doc, k: nat, gs: seq<Glyph>, at: Place)
    requires RedactedText(doc, findings, edits, owners, out) && ReadsAs(DocTokens(doc), k, gs)
    requires at == Place(DocTokens(doc)[k], TokenStart(DocTokens(doc), 0, k))
    ensures AllWithin(edits, |Render(doc)|) && Lexed(DocTokens(doc))
    ensures |DocTokens(out)| == |DocTokens(doc)| && DocTokens(out)[k].Str? && ValidPieces(DocTokens(out)[k].body)
    ensures Became(DocTokens(doc), findings, Plan(Render(doc), edits), at, gs, DocTokens(out)[k].body)
  {
    var ts, groups := DocTokens(doc), Plan(Spell(DocTokens(doc)), edits);
    TextAnswers(doc, findings, edits, owners, out);
    PlanAnswers(ts, findings, edits, owners);
    PlanFits(ts, edits);
    StartsThere(ts, 0, k);
    MaskedAt(ts, 0, groups, |Spell(ts)|, k);
    ValidHere(DocTokens(out), k);
    WriteRead(ts[k].body);
  }

  /**
   Redaction commutes with decoding. Unless some finding splits one of its
   surrogate pairs, every string value of the output reads as the value it was
   with exactly the characters the findings call away replaced, a marker for
   each run of them, whatever the findings are and however they overlap.
   */
  lemma Commutes(doc: Doc, findings: seq<Finding>, edits: seq<Edit>, owners: seq<nat>, out: Doc, k: nat, gs: seq<Glyph>)
    returns (cuts: seq<Cut>)
    requires RedactedText(doc, findings, edits, owners, out) && ReadsAs(DocTokens(doc), k, gs)
    requires PairsWhole(DocTokens(doc), findings, ValueStart(DocTokens(doc), k), gs)
    ensures CutsFor(DocTokens(doc), findings, ValueStart(DocTokens(doc), k), gs, cuts)
    ensures ReadsAs(DocTokens(out), k, Replaced(gs, MarkerGlyphs, 0, cuts))
    ensures ValidGlyphs(gs) && ValidGlyphs(Replaced(gs, MarkerGlyphs, 0, cuts))
    ensures GlyphChars(Replaced(gs, MarkerGlyphs, 0, cuts)) == Replaced(GlyphChars(gs), MarkerChars, 0, cuts)
  {
    var at := Place(DocTokens(doc)[k], TokenStart(DocTokens(doc), 0, k));
    BecameAt(doc, findings, edits, owners, out, k, gs, at);
    cuts := ValueReplaced(DocTokens(doc), findings, Plan(Render(doc), edits), at, gs, DocTokens(out)[k].body);
    ReplacedChars(gs, 0, cuts);
    ReadWrite(Replaced(gs, MarkerGlyphs, 0, cuts));
  }

  predicate ReadableBody(ps: seq<Piece>) {
    ValidPieces(ps) && ReadGlyphs(ps).Some?
  }

  /** A string value can still be read exactly when no finding splits one of its surrogate pairs. */
  lemma ReadableIff(doc: Doc, findings: seq<Finding>, edits: seq<Edit>, owners: seq<nat>, out: Doc, k: nat, gs: seq<Glyph>)
    requires RedactedText(doc, findings, edits, owners, out) && ReadsAs(DocTokens(doc), k, gs)
    ensures |DocTokens(out)| == |DocTokens(doc)| && DocTokens(out)[k].Str?
    ensures ReadableBody(DocTokens(out)[k].body) <==> PairsWhole(DocTokens(doc), findings, ValueStart(DocTokens(doc), k), gs)
  {
    if PairsWhole(DocTokens(doc), findings, ValueStart(DocTokens(doc), k), gs) {
      TextAnswers(doc, findings, edits, owners, out);
      var cuts := Commutes(doc, findings, edits, owners, out, k, gs);
    } else {
      SplitUnreadable(doc, findings, edits, owners, out, k, gs);
    }
  }

  lemma SplitUnreadable(doc: Doc, findings: seq<Finding>, edits: seq<Edit>, owners: seq<nat>, out: Doc, k: nat, gs: seq<Glyph>)
    requires RedactedText(doc, findings, edits, owners, out) && ReadsAs(DocTokens(doc), k, gs)
    requires !PairsWhole(DocTokens(doc), findings, ValueStart(DocTokens(doc), k), gs)
    ensures |DocTokens(out)| == |DocTokens(doc)| && DocTokens(out)[k].Str? && !ReadableBody(DocTokens(out)[k].body)
  {
    var at := Place(DocTokens(doc)[k], TokenStart(DocTokens(doc), 0, k));
    BecameAt(doc, findings, edits, owners, out, k, gs, at);
    var i := ValueBroken(DocTokens(doc), findings, Plan(Render(doc), edits), at, gs, DocTokens(out)[k].body);
    LonelyUnread(DocTokens(out)[k].body, i);
  }

  // ── Which strings can be read at all ───────────────────────────────────

  lemma RawFirst(ps: seq<Piece>)
    requires ValidPieces(ps) && ps != [] && ps[0].Raw? && IsUtf8(SpellPieces(ps))
    ensures FirstGlyph(ps).Some?
  {
    var s, bs := SpellPieces(ps), RawPrefix(ps);
    var rest := RawSpelled(ps);
    assert s[0] == bs[0] == ps[0].b;
    LiteralAhead(s, bs, rest, Width(bs[0]));
  }

  /** What follows a character of text is text. */
  lemma TextAfter(g: Glyph, rest: seq<Piece>)
    requires ValidGlyph(g) && IsUtf8(SpellPieces(GlyphPieces(g) + rest))
    ensures IsUtf8(SpellPieces(rest))
  {
    var a, b := SpellPieces(GlyphPieces(g)), SpellPieces(rest);
    SpellPiecesJoin(GlyphPieces(g), rest);
    TakeDrop(a, b);
    EscapeSize(g);
    if g.Literal? {
      SpellRaw(Encode(g.cp));
      DecodeEncodeOne(g.cp);
      WholeWidth(a + b, |a|);
    } else {
      LastAscii(g);
      assert (a + b)[|a| - 1] == a[|a| - 1];
      AfterAscii(a + b, |a|);
      SplitUtf8(a + b, |a|);
    }
  }

  lemma WholeWidth(s: bytes, w: nat)
    requires IsUtf8(s) && 0 < w <= |s| && DecodeOne(s[..w]).Some?
    ensures IsUtf8(s[w..])
  {
    assert s[..w][0] == s[0];
  }

  lemma LastAscii(g: Glyph)
    requires ValidGlyph(g) && !g.Literal?
    ensures
      var a := SpellPieces(GlyphPieces(g));
      a != [] && a[|a| - 1] < 0x80
  {
    EscapeSize(g);
    var ps := GlyphPieces(g);
    var front, last := ps[..|ps| - 1], ps[|ps| - 1];
    assert ps == front + [last];
    SpellPiecesJoin(front, [last]);
    assert SpellPieces([last]) == SpellPiece(last) + [];
  }

  lemma LastNotHigh(g: Glyph)
    requires ValidGlyph(g)
    ensures GlyphPieces(g) != [] && !HighHalf(GlyphPieces(g)[|GlyphPieces(g)| - 1])
  {
    if g.Literal? {
      SpellRaw(Encode(g.cp));
    }
  }

  ghost predicate NoneLone(ps: seq<Piece>) {
    forall k: nat :: !Lonely(ps, k)
  }

  lemma LoneLater(g: Glyph, rest: seq<Piece>)
    requires ValidGlyph(g) && NoneLone(GlyphPieces(g) + rest)
    ensures NoneLone(rest)
  {
    LastNotHigh(g);
    forall k: nat ensures !Lonely(rest, k) {
      if Lonely(rest, k) {
        LonelyJoin(GlyphPieces(g), rest, k);
      }
    }
  }

  lemma FirstUnlessLone(ps: seq<Piece>)
    requires ValidPieces(ps) && ps != [] && IsUtf8(SpellPieces(ps)) && NoneLone(ps)
    ensures FirstGlyph(ps).Some?
  {
    if ps[0].Raw? {
      RawFirst(ps);
    }
    assert !Lonely(ps, 0);
  }

  lemma {:induction false} GlyphsAreText(gs: seq<Glyph>)
    requires ValidGlyphs(gs)
    ensures IsUtf8(SpellPieces(AllPieces(gs)))
  {
    if gs != [] {
      var a, b := SpellPieces(GlyphPieces(gs[0])), SpellPieces(AllPieces(gs[1..]));
      GlyphsAreText(gs[1..]);
      GlyphIsText(gs[0]);
      SpellPiecesJoin(GlyphPieces(gs[0]), AllPieces(gs[1..]));
      JoinUtf8(a, b);
    }
  }

  lemma GlyphIsText(g: Glyph)
    requires ValidGlyph(g)
    ensures IsUtf8(SpellPieces(GlyphPieces(g)))
  {
    if g.Literal? {
      SpellRaw(Encode(g.cp));
      DecodeEncode([g.cp]);
      assert EncodeAll([g.cp]) == Encode(g.cp) + [];
    } else {
      EscapeAscii(g);
      AsciiUtf8(SpellPieces(GlyphPieces(g)));
    }
  }

  lemma EscapeAscii(g: Glyph)
    requires ValidGlyph(g) && !g.Literal?
    ensures forall i | 0 <= i < |SpellPieces(GlyphPieces(g))| :: SpellPieces(GlyphPieces(g))[i] < 0x80
  {
    var ps := GlyphPieces(g);
    if g.Pair? {
      assert ps == [ps[0]] + [ps[1]];
      SpellPiecesJoin([ps[0]], [ps[1]]);
      assert SpellPieces([ps[0]]) == SpellPiece(ps[0]) + [] && SpellPieces([ps[1]]) == SpellPiece(ps[1]) + [];
    } else {
      assert SpellPieces(ps) == SpellPiece(ps[0]) + [];
    }
  }

  /** A string stands for characters exactly when it is UTF-8 text and holds no half of a pair without the other. */
  lemma {:induction false} ReadsUnlessLone(ps: seq<Piece>)
    requires ValidPieces(ps)
    ensures ReadGlyphs(ps).Some? <==> IsUtf8(SpellPieces(ps)) && NoneLone(ps)
    decreases |ps|
  {
    if ReadGlyphs(ps).Some? {
      WriteRead(ps);
      GlyphsAreText(ReadGlyphs(ps).value);
      forall k: nat ensures !Lonely(ps, k) {
        NoneLonely(ReadGlyphs(ps).value, k);
      }
    } else if IsUtf8(SpellPieces(ps)) && NoneLone(ps) {
      FirstUnlessLone(ps);
      FirstGlyphPieces(ps);
      var g := FirstGlyph(ps).value;
      var rest := ps[|GlyphPieces(g)|..];
      PrefixJoin(ps, GlyphPieces(g));
      TextAfter(g, rest);
      LoneLater(g, rest);
      ReadsUnlessLone(rest);
    }
  }

  const LONE_HALF: seq<Piece> := [Unicode([0x64, 0x38, 0x30, 0x30])]

  /** A lone half is a string the scanner's parser accepts and `decode` refuses. */
  lemma LoneRefused()
    ensures ValidDoc(Doc([], Text(LONE_HALF), [])) && forall checked :: SeenGlyphs(checked, LONE_HALF) == Refused
  {
    assert UnitValue(LONE_HALF[0].hex) == 0xD800;
    forall checked ensures SeenGlyphs(checked, LONE_HALF) == Refused {
      assert FirstSeen(checked, LONE_HALF) == Refused;
    }
  }

  // ── The document as a strict parser sees it ────────────────────────────

  predicate ReadableToken(t: Token) {
    t.Str? || t.Key? ==> ReadableBody(t.body)
  }

  /** Every key and string value can be read: what a parser that builds the values accepts. */
  predicate Parses(ts: seq<Token>) {
    forall k | 0 <= k < |ts| :: ReadableToken(ts[k])
  }

  /** No finding splits a surrogate pair of any string value. */
  ghost predicate NoPairSplit(ts: seq<Token>, findings: seq<Finding>) {
    forall k: nat, gs | ReadsAs(ts, k, gs) :: PairsWhole(ts, findings, ValueStart(ts, k), gs)
  }

  lemma MaskTail(ts: seq<Token>, at: nat, at': nat, gs: seq<Edit>) returns (gs': seq<Edit>)
    requires ts != [] && at' == at + |SpellToken(ts[0])|
    ensures MaskTokens(MarkerPieces, ts, at, gs)[1..] == MaskTokens(MarkerPieces, ts[1..], at', gs')
  {
    gs' := gs;
    if gs != [] {
      assert ts == [ts[0]] + ts[1..];
      MaskFirst(MarkerPieces, ts[0], ts[1..], at, at', at + 1, gs);
      if FitsToken(ts[0], at, gs[0]) {
        gs' := if ts[0].Str? then PastRuns(ts[0].body, at + 1, gs) else gs[1..];
      }
    }
  }

  /** What is not a string value stays, or is a number and becomes a marker. */
  lemma {:induction false} MaskedOther(ts: seq<Token>, ts': seq<Token>, at: nat, gs: seq<Edit>, k: nat)
    requires ts' == MaskTokens(MarkerPieces, ts, at, gs) && k < |ts| && !ts[k].Str?
    ensures ts'[k] == ts[k] || exists tag :: ts'[k] == Str(MarkerPieces(tag))
    decreases k
  {
    if k > 0 {
      var at' := at + |SpellToken(ts[0])|;
      var gs' := MaskTail(ts, at, at', gs);
      MaskedOther(ts[1..], ts'[1..], at', gs', k - 1);
    }
  }

  lemma MarkerReadable(tag: string)
    ensures ReadableBody(MarkerPieces(tag))
  {
    MarkerReads(tag);
    ReadWrite(MarkerGlyphs(tag));
  }

  /**
   A text a strict parser accepts is still one it accepts after redaction,
   whatever the findings, exactly when none of them splits a surrogate pair.
   */
  lemma ParsesIff(doc: Doc, findings: seq<Finding>, edits: seq<Edit>, owners: seq<nat>, out: Doc)
    requires RedactedText(doc, findings, edits, owners, out) && Parses(DocTokens(doc))
    ensures Parses(DocTokens(out)) <==> NoPairSplit(DocTokens(doc), findings)
  {
    var ts := DocTokens(doc);
    TextAnswers(doc, findings, edits, owners, out);
    if Parses(DocTokens(out)) {
      forall k: nat, gs | ReadsAs(ts, k, gs) ensures PairsWhole(ts, findings, ValueStart(ts, k), gs) {
        ReadableIff(doc, findings, edits, owners, out, k, gs);
        assert ReadableToken(DocTokens(out)[k]);
      }
    }
    if NoPairSplit(ts, findings) {
      forall k | 0 <= k < |ts| ensures ReadableToken(DocTokens(out)[k]) {
        TokenReadable(doc, findings, edits, owners, out, k);
      }
    }
  }

  lemma TokenReadable(doc: Doc, findings: seq<Finding>, edits: seq<Edit>, owners: seq<nat>, out: Doc, k: nat)
    requires RedactedText(doc, findings, edits, owners, out) && Parses(DocTokens(doc)) && NoPairSplit(DocTokens(doc), findings)
    requires k < |DocTokens(doc)| == |DocTokens(out)|
    ensures ReadableToken(DocTokens(out)[k])
  {
    var t := DocTokens(doc)[k];
    assert ReadableToken(t);
    if t.Str? {
      assert ReadsAs(DocTokens(doc), k, ReadGlyphs(t.body).value);
      ReadableIff(doc, findings, edits, owners, out, k, ReadGlyphs(t.body).value);
    } else {
      TextAnswers(doc, findings, edits, owners, out);
      MaskedOther(DocTokens(doc), DocTokens(out), 0, Plan(Render(doc), edits), k);
      if DocTokens(out)[k] != t {
        var tag :| DocTokens(out)[k] == Str(MarkerPieces(tag));
        MarkerReadable(tag);
      }
    }
  }

  /** `\uD83D\uDE00`, one character written as two escapes. */
  const PAIR_BODY: seq<Piece> := [Unicode([0x44, 0x38, 0x33, 0x44]), Unicode([0x44, 0x45, 0x30, 0x30])]

  lemma PairReads()
    ensures ValidPieces(PAIR_BODY)
    ensures ReadGlyphs(PAIR_BODY) == Some([Pair(PAIR_BODY[0].hex, PAIR_BODY[1].hex)])
  {
    var high, low := PAIR_BODY[0].hex, PAIR_BODY[1].hex;
    assert UnitValue(high) == 0xD83D && UnitValue(low) == 0xDE00;
    var gs := [Pair(high, low)];
    assert AllPieces(gs) == PAIR_BODY + [];
    ReadWrite(gs);
  }

  lemma PairEdges()
    ensures |SpellPieces(PAIR_BODY)| == 12 && AtBoundary(PAIR_BODY, 6) && AtBoundary(PAIR_BODY, 12)
  {
    var a, b := PAIR_BODY[..1], PAIR_BODY[1..];
    assert PAIR_BODY == a + b && a == [PAIR_BODY[0]] && b == [PAIR_BODY[1]];
    SpellPiecesJoin(a, b);
    BoundaryJoin(a, b, 6);
    BoundaryJoin(PAIR_BODY, [], 12);
    assert PAIR_BODY + [] == PAIR_BODY;
  }

  /** The text that is that one string, and a finding on its second escape. */
  const PAIR_DOC: Doc := Doc([], Text(PAIR_BODY), [])
  const HALF: Finding := Finding("X", Span(7, 13), false)

  lemma PairTokens()
    ensures ValidDoc(PAIR_DOC) && DocTokens(PAIR_DOC) == [Str(PAIR_BODY)]
    ensures |Render(PAIR_DOC)| == 14 && forall i | 0 <= i < 14 :: Render(PAIR_DOC)[i] < 0x80
  {
    var ts := DocTokens(PAIR_DOC);
    PairReads();
    PairEdges();
    assert ts == [Str(PAIR_BODY)];
    assert Spell(ts) == SpellToken(Str(PAIR_BODY)) + Spell([]);
    var a, b := PAIR_BODY[..1], PAIR_BODY[1..];
    assert PAIR_BODY == a + b && a == [PAIR_BODY[0]] && b == [PAIR_BODY[1]];
    SpellPiecesJoin(a, b);
    forall i | 0 <= i < 12 ensures SpellPieces(PAIR_BODY)[i] < 0x80 {
      assert SpellPieces(PAIR_BODY) == SpellPiece(PAIR_BODY[0]) + SpellPiece(PAIR_BODY[1]);
    }
  }

  lemma OnlyPlace(at: Place)
    requires TokenAt([Str(PAIR_BODY)], 0, at.token, at.at)
    ensures at == Place(Str(PAIR_BODY), 0)
  {
    assert [Str(PAIR_BODY)][1..] == [];
  }

  /** The finding calls for the second half of the pair and nothing else. */
  lemma HalfCalled(at: Place, e: Edit)
    requires TokenAt([Str(PAIR_BODY)], 0, at.token, at.at)
    ensures IsEditFor(at, HALF, e) <==> at == Place(Str(PAIR_BODY), 0) && e == Edit(Span(7, 13), false, "X")
  {
    PairEdges();
    OnlyPlace(at);
    var half := Edit(Span(7, 13), false, "X");
    assert IsEditFor(at, HALF, half);
    if IsEditFor(at, HALF, e) {
      EditUnique(at, HALF, e, half);
    }
  }

  /**
   A redaction can leave text a strict parser refuses: the finding is described
   and not refused, and its marker leaves the first half of a pair alone.
   */
  lemma SplitPair() returns (edits: seq<Edit>, owners: seq<nat>, out: Doc)
    ensures ValidDoc(PAIR_DOC) && Parses(DocTokens(PAIR_DOC)) && !SomeUnredactable(DocTokens(PAIR_DOC), [HALF], 1)
    ensures RedactedText(PAIR_DOC, [HALF], edits, owners, out) && !Parses(DocTokens(out))
  {
    PairTokens();
    PairReads();
    edits, owners, out := HalfRedacted();
    HalfSplits();
    ParsesIff(PAIR_DOC, [HALF], edits, owners, out);
  }

  lemma HalfRedacted() returns (edits: seq<Edit>, owners: seq<nat>, out: Doc)
    ensures RedactedText(PAIR_DOC, [HALF], edits, owners, out)
  {
    var ts, content := DocTokens(PAIR_DOC), Render(PAIR_DOC);
    PairTokens();
    AsciiUtf8(content);
    edits, owners := [Edit(Span(7, 13), false, "X")], [0];
    HalfAnswered(edits, owners);
    out := JsonOutcome(content, PAIR_DOC, [HALF], edits, owners);
    var r := Redacted(Spliced(content, 0, Plan(content, edits)), Tags(Plan(content, edits)), Untouching(ts, [HALF], 1));
    assert RedactsDoc(content, PAIR_DOC, [HALF], r, edits, owners, out);
  }

  lemma HalfAnswered(edits: seq<Edit>, owners: seq<nat>)
    requires edits == [Edit(Span(7, 13), false, "X")] && owners == [0]
    ensures Answers([Str(PAIR_BODY)], [HALF], edits, owners)
  {
    var ts, at := [Str(PAIR_BODY)], Place(Str(PAIR_BODY), 0);
    HalfCalled(at, edits[0]);
    assert Called(ts, HALF, edits[0]);
    forall at': Place | TokenAt(ts, 0, at'.token, at'.at) && IsEditable(at'.token) && Overlaps(Region(at'.token, at'.at), HALF.span)
      ensures Answered(at', HALF, edits, 0)
    {
      OnlyPlace(at');
    }
  }

  lemma HalfSplits()
    ensures !NoPairSplit([Str(PAIR_BODY)], [HALF])
  {
    var ts, at, e := [Str(PAIR_BODY)], Place(Str(PAIR_BODY), 0), Edit(Span(7, 13), false, "X");
    PairReads();
    var gs := [Pair(PAIR_BODY[0].hex, PAIR_BODY[1].hex)];
    assert ReadsAs(ts, 0, gs);
    HalfCalled(at, e);
    assert TouchedBy(ts, [HALF], 0, at, e, 7);
    if Hidden(ts, [HALF], 6) {
      var i, at': Place, e' :| HiddenBy(ts, [HALF], i, at', e', 6);
      HalfCalled(at', e');
      assert false;
    }
    assert gs[..0] == [];
    assert !PairWhole(ts, [HALF], ValueStart(ts, 0) + Extent(gs[..0]) + 6);
  }
}
