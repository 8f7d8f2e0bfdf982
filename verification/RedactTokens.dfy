/**
 Splicing over tokens: when every edit is a run of whole pieces inside one
 string value or exactly one number, the spliced bytes spell the same tokens
 with those string bodies and numbers masked.
 */
module RedactTokens {
  import opened Bytes
  import opened Json
  import opened Splice

  // ── Piece boundaries ───────────────────────────────────────────────────

  /** Whether offset `d` of a string's interior falls between two pieces. */
  predicate AtBoundary(ps: seq<Piece>, d: int) {
    d == 0 ||
    (ps != [] && |SpellPiece(ps[0])| <= d && AtBoundary(ps[1..], d - |SpellPiece(ps[0])|))
  }

  /** How many pieces end at or before that boundary. */
  function PiecesBefore(ps: seq<Piece>, d: int): (k: nat)
    requires AtBoundary(ps, d)
    ensures k <= |ps|
  {
    if d == 0 then 0 else 1 + PiecesBefore(ps[1..], d - |SpellPiece(ps[0])|)
  }

  /** Cutting the spelling at `d` cuts the pieces after the `k`th. */
  predicate CutsAt(ps: seq<Piece>, d: int, k: nat) {
    && 0 <= d <= |SpellPieces(ps)| && k <= |ps|
    && SpellPieces(ps)[..d] == SpellPieces(ps[..k]) && SpellPieces(ps)[d..] == SpellPieces(ps[k..])
  }

  lemma CutNext(ps: seq<Piece>, d: int, d': int, k: nat, k': nat)
    requires ps != [] && d == |SpellPiece(ps[0])| + d' && k == 1 + k' && CutsAt(ps[1..], d', k')
    ensures CutsAt(ps, d, k)
  {
    var head, rest := SpellPiece(ps[0]), SpellPieces(ps[1..]);
    CutAfter(head, rest, d, d');
    HeadTail(ps, k, k');
    assert SpellPieces(ps[..k]) == head + SpellPieces(ps[1..][..k']);
  }

  lemma {:induction false} CutPieces(ps: seq<Piece>, d: int)
    requires AtBoundary(ps, d)
    ensures CutsAt(ps, d, PiecesBefore(ps, d))
  {
    if d == 0 {
      assert ps[0..] == ps && ps[..0] == [];
    } else {
      var d' := d - |SpellPiece(ps[0])|;
      CutPieces(ps[1..], d');
      CutNext(ps, d, d', PiecesBefore(ps, d), PiecesBefore(ps[1..], d'));
    }
  }

  lemma CutAfter(head: bytes, s: bytes, d: int, d': int)
    requires 0 <= d' <= |s| && d == |head| + d'
    ensures (head + s)[..d] == head + s[..d'] && (head + s)[d..] == s[d'..]
  {
  }

  lemma HeadTail<T>(s: seq<T>, k: nat, k': nat)
    requires k == 1 + k' <= |s|
    ensures s[..k][0] == s[0] && s[..k][1..] == s[1..][..k'] && s[k..] == s[1..][k'..]
  {
  }

  /** Boundaries past a cut are boundaries of what is left. */
  lemma {:induction false} BoundaryAfterCut(ps: seq<Piece>, d: int, d': int, left: nat)
    requires AtBoundary(ps, d) && AtBoundary(ps, d') && d' == d + left
    ensures AtBoundary(ps[PiecesBefore(ps, d)..], left)
  {
    if d == 0 {
      assert ps[0..] == ps;
    } else {
      var w := |SpellPiece(ps[0])|;
      BoundaryAfterCut(ps[1..], d - w, d' - w, left);
      HeadTail(ps, PiecesBefore(ps, d), PiecesBefore(ps[1..], d - w));
    }
  }

  // ── Masking ────────────────────────────────────────────────────────────

  /** What a tag is replaced by: some string content, never empty. */
  ghost predicate IsMask(mask: string -> seq<Piece>) {
    forall tag :: ValidPieces(mask(tag)) && mask(tag) != []
  }

  /** `q` is `p` with some runs of pieces, possibly empty, replaced by masks. */
  ghost predicate Masked(mask: string -> seq<Piece>, p: seq<Piece>, q: seq<Piece>)
    decreases |q|
  {
    p == q || exists j: nat, k: nat, tag, q' :: MaskedOnce(mask, p, q, j, k, tag, q')
  }

  ghost predicate MaskedOnce(mask: string -> seq<Piece>, p: seq<Piece>, q: seq<Piece>,
                             j: nat, k: nat, tag: string, q': seq<Piece>)
    decreases |q|, 0
  {
    j <= k <= |p| && q == p[..j] + (mask(tag) + q') && |q'| < |q| && Masked(mask, p[k..], q')
  }

  /** A string value masked, a number turned into a mask string, or the token as it was. */
  ghost predicate MaskedToken(mask: string -> seq<Piece>, t: Token, t': Token) {
    || t == t'
    || (t.Str? && t'.Str? && Masked(mask, t.body, t'.body) && ValidPieces(t'.body))
    || (t.Num? && exists tag :: t' == Str(mask(tag)))
  }

  ghost predicate MaskedTokens(mask: string -> seq<Piece>, ts: seq<Token>, ts': seq<Token>) {
    |ts| == |ts'| && forall i | 0 <= i < |ts| :: MaskedToken(mask, ts[i], ts'[i])
  }

  // ── Where an edit may stand ────────────────────────────────────────────

  /** A run of whole pieces of the string interior that starts at `p`. */
  predicate FitsInterior(ps: seq<Piece>, p: nat, g: Edit) {
    && !g.quoted && p <= g.range.start <= g.range.end
    && AtBoundary(ps, g.range.start - p) && AtBoundary(ps, g.range.end - p)
  }

  predicate FitsToken(t: Token, at: nat, e: Edit) {
    match t
    case Str(body) => FitsInterior(body, at + 1, e)
    case Num(text) => e.quoted && e.range == Span(at, at + |text|)
    case _ => false
  }

  predicate Fits(ts: seq<Token>, at: nat, e: Edit) {
    ts != [] && (FitsToken(ts[0], at, e) || Fits(ts[1..], at + |SpellToken(ts[0])|, e))
  }

  lemma FitsTokenRange(t: Token, at: nat, e: Edit)
    requires FitsToken(t, at, e)
    ensures at <= e.range.start <= e.range.end <= at + |SpellToken(t)|
    ensures t.Str? ==> at < e.range.start && e.range.end < at + |SpellToken(t)|
  {
    if t.Str? {
      CutPieces(t.body, e.range.end - (at + 1));
    }
  }

  /** An edit that fits later tokens starts after the first one, and not right after a number. */
  lemma {:induction false} FitsRange(ts: seq<Token>, at: nat, e: Edit)
    requires Lexed(ts) && Fits(ts, at, e)
    ensures at <= e.range.start <= e.range.end <= at + |Spell(ts)|
    ensures !ts[0].Num? ==> at < e.range.start
  {
    var n := |SpellToken(ts[0])|;
    if FitsToken(ts[0], at, e) {
      FitsTokenRange(ts[0], at, e);
    } else {
      FitsRange(ts[1..], at + n, e);
    }
  }

  lemma NumAlone(ts: seq<Token>)
    requires Lexed(ts) && |ts| >= 2
    ensures ts[0].Num? ==> !ts[1].Num?
  {
    if ts[0].Num? {
      var rest := ts[1..];
      assert |SpellToken(rest[0])| > 0;
      assert Spell(rest)[0] == SpellToken(rest[0])[0];
    }
  }

  /** Edits that overlap or touch stand in the same token, so their union fits it too. */
  lemma {:induction false} MergeFits(ts: seq<Token>, at: nat, g: Edit, e: Edit)
    requires Lexed(ts) && Fits(ts, at, g) && Fits(ts, at, e)
    requires g.range.start <= e.range.start <= g.range.end
    ensures Fits(ts, at, Extend(g, e))
  {
    var n := |SpellToken(ts[0])|;
    if FitsToken(ts[0], at, g) {
      FitsTokenRange(ts[0], at, g);
      if !FitsToken(ts[0], at, e) {
        NumAlone(ts);
        FitsRange(ts[1..], at + n, e);
        assert false;
      }
    } else {
      FitsRange(ts[1..], at + n, g);
      if FitsToken(ts[0], at, e) {
        FitsTokenRange(ts[0], at, e);
        assert false;
      }
      MergeFits(ts[1..], at + n, g, e);
    }
  }

  ghost predicate AllFit(ts: seq<Token>, at: nat, es: seq<Edit>) {
    forall i | 0 <= i < |es| :: Fits(ts, at, es[i])
  }

  lemma {:induction false} GrowFits(ts: seq<Token>, g: Edit, es: seq<Edit>)
    requires Lexed(ts) && Fits(ts, 0, g) && AllFit(ts, 0, es) && IsSorted(es) && Follows(g, es)
    ensures AllFit(ts, 0, Grow(g, es))
    decreases |es|
  {
    if es != [] {
      if es[0].range.start <= g.range.end {
        MergeFits(ts, 0, g, es[0]);
        GrowFits(ts, Extend(g, es[0]), es[1..]);
      } else {
        GrowFits(ts, es[0], es[1..]);
      }
    }
  }

  lemma PlanFits(ts: seq<Token>, edits: seq<Edit>)
    requires Lexed(ts) && AllFit(ts, 0, edits)
    requires AllWithin(edits, |Spell(ts)|)
    ensures AllFit(ts, 0, Plan(Spell(ts), edits))
  {
    SortSorts(edits);
    var es := Sort(edits);
    forall i | 0 <= i < |es| ensures Fits(ts, 0, es[i]) {
      SortMembers(edits, es[i]);
    }
    if es != [] {
      GrowFits(ts, es[0], es[1..]);
    }
  }

  // ── What the groups make of the tokens ─────────────────────────────────

  /** The string from `p` on, each group that stands inside it replaced by a mask. */
  function MaskRuns(mask: string -> seq<Piece>, ps: seq<Piece>, p: nat, gs: seq<Edit>): seq<Piece>
    decreases |gs|
  {
    if gs == [] || !FitsInterior(ps, p, gs[0]) then ps
    else
      var g := gs[0];
      ps[..PiecesBefore(ps, g.range.start - p)]
      + (mask(g.tag) + MaskRuns(mask, ps[PiecesBefore(ps, g.range.end - p)..], g.range.end, gs[1..]))
  }

  /** The groups that stand past that string. */
  function PastRuns(ps: seq<Piece>, p: nat, gs: seq<Edit>): (rest: seq<Edit>)
    ensures |rest| <= |gs|
    decreases |gs|
  {
    if gs == [] || !FitsInterior(ps, p, gs[0]) then gs
    else PastRuns(ps[PiecesBefore(ps, gs[0].range.end - p)..], gs[0].range.end, gs[1..])
  }

  lemma {:induction false} RunsStep(mask: string -> seq<Piece>, ps: seq<Piece>, p: nat, gs: seq<Edit>, d: int, d': int)
    requires gs != [] && FitsInterior(ps, p, gs[0]) && d == gs[0].range.start - p && d' == gs[0].range.end - p
    ensures
      var later := ps[PiecesBefore(ps, d')..];
      && MaskRuns(mask, ps, p, gs)
         == ps[..PiecesBefore(ps, d)] + (mask(gs[0].tag) + MaskRuns(mask, later, gs[0].range.end, gs[1..]))
      && PastRuns(ps, p, gs) == PastRuns(later, gs[0].range.end, gs[1..])
  {
  }

  /** The tokens with string values masked and numbers turned into mask strings. */
  function MaskTokens(mask: string -> seq<Piece>, ts: seq<Token>, at: nat, gs: seq<Edit>): (ts': seq<Token>)
    ensures |ts'| == |ts|
  {
    if ts == [] || gs == [] then ts
    else if !FitsToken(ts[0], at, gs[0]) then [ts[0]] + MaskTokens(mask, ts[1..], at + |SpellToken(ts[0])|, gs)
    else if ts[0].Str? then
      [Str(MaskRuns(mask, ts[0].body, at + 1, gs))]
      + MaskTokens(mask, ts[1..], at + |SpellToken(ts[0])|, PastRuns(ts[0].body, at + 1, gs))
    else [Str(mask(gs[0].tag))] + MaskTokens(mask, ts[1..], at + |SpellToken(ts[0])|, gs[1..])
  }

  lemma MaskFirst(mask: string -> seq<Piece>, t: Token, rest: seq<Token>, at: nat, at': nat, p: nat, gs: seq<Edit>)
    requires gs != [] && at' == at + |SpellToken(t)| && p == at + 1
    ensures MaskTokens(mask, [t] + rest, at, gs)
         == if !FitsToken(t, at, gs[0]) then [t] + MaskTokens(mask, rest, at', gs)
            else if t.Str? then [Str(MaskRuns(mask, t.body, p, gs))] + MaskTokens(mask, rest, at', PastRuns(t.body, p, gs))
            else [Str(mask(gs[0].tag))] + MaskTokens(mask, rest, at', gs[1..])
  {
    ConsTail(t, rest);
  }

  // ── Splicing token by token ────────────────────────────────────────────

  /** What a group is replaced by, spelled out: a number's mask brings its own quotes. */
  function MaskText(mask: string -> seq<Piece>, e: Edit): bytes {
    if e.quoted then SpellToken(Str(mask(e.tag))) else SpellPieces(mask(e.tag))
  }

  predicate Shown(e: Edit) {
    true
  }

  /** `text` spells every mask; the trigger keeps the fact out of the way until it is asked for. */
  ghost predicate Spells(text: Edit -> bytes, mask: string -> seq<Piece>) {
    IsMask(mask) && forall e {:trigger Shown(e)} :: text(e) == MaskText(mask, e)
  }

  lemma SpelledMask(text: Edit -> bytes, mask: string -> seq<Piece>, e: Edit)
    requires Spells(text, mask)
    ensures text(e) == MaskText(mask, e)
  {
    assert Shown(e);
  }

  function Take(c: bytes, n: int): bytes {
    if 0 <= n <= |c| then c[..n] else []
  }

  function Drop(c: bytes, n: int): bytes {
    if 0 <= n <= |c| then c[n..] else []
  }

  lemma TakePast(a: bytes, b: bytes, n: int, m: int)
    requires 0 <= m <= |b| && n == |a| + m
    ensures Take(a + b, n) == a + Take(b, m)
  {
  }

  lemma DropPast(a: bytes, b: bytes, n: int, m: int)
    requires 0 <= m <= |b| && n == |a| + m
    ensures Drop(a + b, n) == Drop(b, m)
  {
  }

  lemma TakeFront(a: bytes, b: bytes)
    ensures Take(a + b, |a|) == a && Drop(a + b, |a|) == b
  {
  }

  /** What stands before the edit in `c`, which starts at `at`, and what stands after it. */
  function Ahead(c: bytes, at: nat, e: Edit): bytes {
    Take(c, e.range.start - at)
  }

  function Behind(c: bytes, at: nat, e: Edit): bytes {
    Drop(c, e.range.end - at)
  }

  /** Splicing into what is left of the content, `c`, which starts at `at`. */
  function SplicedTail(text: Edit -> bytes, c: bytes, at: nat, gs: seq<Edit>): bytes
    decreases |gs|
  {
    if gs == [] then c
    else Ahead(c, at, gs[0]) + (text(gs[0]) + SplicedTail(text, Behind(c, at, gs[0]), gs[0].range.end, gs[1..]))
  }

  lemma TailStep(text: Edit -> bytes, c: bytes, at: nat, gs: seq<Edit>, i: int, j: int)
    requires gs != [] && i == gs[0].range.start - at && j == gs[0].range.end - at
    ensures SplicedTail(text, c, at, gs)
         == Take(c, i) + (text(gs[0]) + SplicedTail(text, Drop(c, j), gs[0].range.end, gs[1..]))
  {
    assert Ahead(c, at, gs[0]) == Take(c, i) && Behind(c, at, gs[0]) == Drop(c, j);
  }

  /** Nothing is replaced before the first group. */
  lemma TailSkip(text: Edit -> bytes, a: bytes, b: bytes, at: nat, at': nat, gs: seq<Edit>)
    requires at' == at + |a|
    requires gs != [] ==> at' <= gs[0].range.start <= gs[0].range.end <= at' + |b|
    ensures SplicedTail(text, a + b, at, gs) == a + SplicedTail(text, b, at', gs)
  {
    if gs != [] {
      var g := gs[0].range;
      var i, j, i', j' := g.start - at, g.end - at, g.start - at', g.end - at';
      TailStep(text, a + b, at, gs, i, j);
      TailStep(text, b, at', gs, i', j');
      TakePast(a, b, i, i');
      DropPast(a, b, j, j');
      Assoc(a, Take(b, i'), text(gs[0]) + SplicedTail(text, Drop(b, j'), g.end, gs[1..]));
    }
  }

  /** The first group replaces `x`. */
  lemma TailCut(text: Edit -> bytes, a: bytes, x: bytes, b: bytes, at: nat, gs: seq<Edit>)
    requires gs != [] && gs[0].range == Span(at + |a|, at + |a| + |x|)
    ensures SplicedTail(text, a + (x + b), at, gs)
         == a + (text(gs[0]) + SplicedTail(text, b, gs[0].range.end, gs[1..]))
  {
    var j := |a| + |x|;
    TailStep(text, a + (x + b), at, gs, |a|, j);
    TakeFront(a, x + b);
    DropPast(a, x + b, j, |x|);
    TakeFront(x, b);
  }

  lemma {:induction false} SeparateAfter(gs: seq<Edit>, from: nat, n: nat, i: nat)
    requires Separate(gs, from, n) && 0 < i < |gs|
    ensures gs[0].range.end < gs[i].range.start
    decreases |gs|
  {
    if i > 1 {
      SeparateAfter(gs[1..], gs[0].range.end, n, i - 1);
      assert gs[1..][i - 1] == gs[i];
    }
  }

  lemma FitsLater(t: Token, rest: seq<Token>, at: nat, at': nat, gs: seq<Edit>, n: nat)
    requires |SpellToken(t)| > 0 && at' == at + |SpellToken(t)| && AllFit([t] + rest, at, gs) && Separate(gs, at, n)
    requires gs != [] ==> at' <= gs[0].range.start
    ensures AllFit(rest, at', gs)
  {
    assert ([t] + rest)[1..] == rest;
    forall i | 0 <= i < |gs| ensures Fits(rest, at', gs[i]) {
      if FitsToken(t, at, gs[i]) {
        FitsTokenRange(t, at, gs[i]);
        if i > 0 {
          SeparateAfter(gs, at, n, i);
        }
        assert false;
      }
    }
  }

  lemma LexedHead(ts: seq<Token>)
    requires Lexed(ts) && ts != []
    ensures ValidToken(ts[0]) && Lexed(ts[1..]) && |SpellToken(ts[0])| > 0
    ensures Spell(ts) == SpellToken(ts[0]) + Spell(ts[1..])
  {
  }

  lemma MaskedCons(mask: string -> seq<Piece>, t: Token, t': Token, rest: seq<Token>, rest': seq<Token>)
    requires MaskedToken(mask, t, t') && MaskedTokens(mask, rest, rest')
    ensures MaskedTokens(mask, [t] + rest, [t'] + rest')
    ensures Spell([t'] + rest') == SpellToken(t') + Spell(rest')
  {
    assert ([t'] + rest')[1..] == rest';
  }

  /** From the start of a token on. */
  lemma {:induction false} SpliceFrom(text: Edit -> bytes, mask: string -> seq<Piece>, at: nat, ts: seq<Token>, gs: seq<Edit>)
    returns (ts': seq<Token>)
    requires Spells(text, mask) && Lexed(ts) && AllFit(ts, at, gs) && Separate(gs, at, at + |Spell(ts)|)
    ensures SplicedTail(text, Spell(ts), at, gs) == Spell(ts') && MaskedTokens(mask, ts, ts')
    ensures ts' == MaskTokens(mask, ts, at, gs)
    decreases |ts|, |gs|, 1
  {
    if gs == [] {
      ts' := ts;
    } else {
      assert Fits(ts, at, gs[0]);
      LexedHead(ts);
      var t, rest := ts[0], ts[1..];
      var at' := at + |SpellToken(t)|;
      assert ts == [t] + rest;
      if !FitsToken(t, at, gs[0]) {
        ts' := SplicePast(text, mask, at, at', t, rest, gs);
      } else if t.Str? {
        ts' := SpliceString(text, mask, at, at', t, rest, gs);
      } else {
        ts' := SpliceNumber(text, mask, at, at', t, rest, gs);
      }
    }
  }

  /** The first token's mask before those of the rest. */
  lemma MaskedFrom(mask: string -> seq<Piece>, t: Token, rest: seq<Token>, at: nat, at': nat, p: nat, gs: seq<Edit>,
                   t': Token, rest': seq<Token>)
    requires gs != [] && at' == at + |SpellToken(t)| && p == at + 1 && MaskedToken(mask, t, t') && MaskedTokens(mask, rest, rest')
    requires [t'] + rest'
          == if !FitsToken(t, at, gs[0]) then [t] + MaskTokens(mask, rest, at', gs)
             else if t.Str? then [Str(MaskRuns(mask, t.body, p, gs))] + MaskTokens(mask, rest, at', PastRuns(t.body, p, gs))
             else [Str(mask(gs[0].tag))] + MaskTokens(mask, rest, at', gs[1..])
    ensures MaskedTokens(mask, [t] + rest, [t'] + rest') && [t'] + rest' == MaskTokens(mask, [t] + rest, at, gs)
    ensures Spell([t'] + rest') == SpellToken(t') + Spell(rest')
  {
    MaskFirst(mask, t, rest, at, at', p, gs);
    MaskedCons(mask, t, t', rest, rest');
  }

  /** A token no group touches is copied. */
  lemma {:induction false} SplicePast(text: Edit -> bytes, mask: string -> seq<Piece>, at: nat, at': nat, t: Token, rest: seq<Token>,
                                      gs: seq<Edit>)
    returns (ts': seq<Token>)
    requires Spells(text, mask) && |SpellToken(t)| > 0 && at' == at + |SpellToken(t)| && Lexed(rest)
    requires gs != [] && !FitsToken(t, at, gs[0])
    requires AllFit([t] + rest, at, gs) && Separate(gs, at, at' + |Spell(rest)|)
    ensures MaskedTokens(mask, [t] + rest, ts') && ts' == MaskTokens(mask, [t] + rest, at, gs)
    ensures SplicedTail(text, SpellToken(t) + Spell(rest), at, gs) == Spell(ts')
    decreases |rest| + 1, |gs|, 0
  {
    assert at' <= gs[0].range.start by {
      assert ([t] + rest)[1..] == rest;
      assert Fits([t] + rest, at, gs[0]);
      FitsRange(rest, at', gs[0]);
    }
    FitsLater(t, rest, at, at', gs, at' + |Spell(rest)|);
    TailSkip(text, SpellToken(t), Spell(rest), at, at', gs);
    var rest' := SpliceFrom(text, mask, at', rest, gs);
    MaskedFrom(mask, t, rest, at, at', at + 1, gs, t, rest');
    ts' := [t] + rest';
  }

  /** A number goes as a whole and comes back as a mask string. */
  lemma {:induction false} SpliceNumber(text: Edit -> bytes, mask: string -> seq<Piece>, at: nat, at': nat, t: Token, rest: seq<Token>,
                                        gs: seq<Edit>)
    returns (ts': seq<Token>)
    requires Spells(text, mask) && t.Num? && |t.text| > 0 && at' == at + |t.text| && Lexed(rest)
    requires gs != [] && FitsToken(t, at, gs[0])
    requires AllFit([t] + rest, at, gs) && Separate(gs, at, at' + |Spell(rest)|)
    ensures MaskedTokens(mask, [t] + rest, ts') && ts' == MaskTokens(mask, [t] + rest, at, gs)
    ensures SplicedTail(text, t.text + Spell(rest), at, gs) == Spell(ts')
    decreases |rest| + 1, |gs|, 0
  {
    var g, gs' := gs[0], gs[1..];
    FitsAfterNumber(t, rest, at, at', gs, at' + |Spell(rest)|);
    var t' := Str(mask(g.tag));
    var rest' := SpliceFrom(text, mask, at', rest, gs');
    CutFront(text, t.text, Spell(rest), at, at', gs);
    SpelledMask(text, mask, g);
    MaskedFrom(mask, t, rest, at, at', at + 1, gs, t', rest');
    ts' := [t'] + rest';
  }

  lemma CutFront(text: Edit -> bytes, x: bytes, b: bytes, at: nat, at': nat, gs: seq<Edit>)
    requires gs != [] && at' == at + |x| && gs[0].range == Span(at, at')
    ensures SplicedTail(text, x + b, at, gs) == text(gs[0]) + SplicedTail(text, b, at', gs[1..])
  {
    TailStep(text, x + b, at, gs, 0, |x|);
    TakeFront(x, b);
    assert Take(x + b, 0) == [];
  }

  lemma FitsAfterNumber(t: Token, rest: seq<Token>, at: nat, at': nat, gs: seq<Edit>, n: nat)
    requires t.Num? && |t.text| > 0 && at' == at + |t.text| && gs != [] && FitsToken(t, at, gs[0])
    requires AllFit([t] + rest, at, gs) && Separate(gs, at, n)
    ensures AllFit(rest, at', gs[1..]) && Separate(gs[1..], at', n)
  {
    forall i | 0 <= i < |gs[1..]| ensures Fits([t] + rest, at, gs[1..][i]) {
      assert gs[1..][i] == gs[i + 1];
    }
    FitsLater(t, rest, at, at', gs[1..], n);
  }

  /** Each group stands inside the string that goes on at `p`, or in a token after its closing quote, at `at`. */
  ghost predicate AllFitFrom(ps: seq<Piece>, p: nat, rest: seq<Token>, at: nat, gs: seq<Edit>) {
    forall i | 0 <= i < |gs| :: FitsInterior(ps, p, gs[i]) || Fits(rest, at, gs[i])
  }

  /** A string keeps its quotes; its interior is spliced piece by piece. */
  lemma {:induction false} SpliceString(text: Edit -> bytes, mask: string -> seq<Piece>, at: nat, at': nat, t: Token, rest: seq<Token>,
                                        gs: seq<Edit>)
    returns (ts': seq<Token>)
    requires Spells(text, mask) && t.Str? && ValidPieces(t.body) && at' == at + |SpellToken(t)| && Lexed(rest)
    requires gs != [] && FitsToken(t, at, gs[0])
    requires AllFit([t] + rest, at, gs) && Separate(gs, at, at' + |Spell(rest)|)
    ensures MaskedTokens(mask, [t] + rest, ts') && ts' == MaskTokens(mask, [t] + rest, at, gs)
    ensures SplicedTail(text, SpellToken(t) + Spell(rest), at, gs) == Spell(ts')
    decreases |rest| + 1, |gs|, 0
  {
    var inner, p := SpellPieces(t.body) + ([QUOTE] + Spell(rest)), at + 1;
    assert SplicedTail(text, SpellToken(t) + Spell(rest), at, gs) == [QUOTE] + SplicedTail(text, inner, p, gs) by {
      QuotedAssoc(SpellPieces(t.body), Spell(rest));
      TailSkip(text, [QUOTE], inner, at, p, gs);
    }
    StringFits(t, rest, at, at', p, gs);
    var body', rest' := SplicePieces(text, mask, p, at', t.body, rest, gs);
    QuotedAssoc(SpellPieces(body'), Spell(rest'));
    MaskedFrom(mask, t, rest, at, at', p, gs, Str(body'), rest');
    ts' := [Str(body')] + rest';
  }

  lemma StringFits(t: Token, rest: seq<Token>, at: nat, at': nat, p: nat, gs: seq<Edit>)
    requires t.Str? && at' == at + |SpellToken(t)| && p == at + 1 && AllFit([t] + rest, at, gs)
    ensures AllFitFrom(t.body, p, rest, at', gs)
  {
    assert ([t] + rest)[1..] == rest;
    forall i | 0 <= i < |gs| ensures FitsInterior(t.body, p, gs[i]) || Fits(rest, at', gs[i]) {
      assert Fits([t] + rest, at, gs[i]);
    }
  }

  lemma QuotedAssoc(body: bytes, rest: bytes)
    ensures [QUOTE] + body + [QUOTE] + rest == [QUOTE] + (body + ([QUOTE] + rest))
  {
  }

  /** From a piece boundary inside a string on. */
  lemma {:induction false} SplicePieces(text: Edit -> bytes, mask: string -> seq<Piece>, p: nat, at: nat, ps: seq<Piece>, rest: seq<Token>,
                                        gs: seq<Edit>)
    returns (ps': seq<Piece>, rest': seq<Token>)
    requires Spells(text, mask) && ValidPieces(ps) && at == p + |SpellPieces(ps)| + 1 && Lexed(rest)
    requires Separate(gs, p, at + |Spell(rest)|) && AllFitFrom(ps, p, rest, at, gs)
    ensures ValidPieces(ps') && Masked(mask, ps, ps') && MaskedTokens(mask, rest, rest')
    ensures ps' == MaskRuns(mask, ps, p, gs) && rest' == MaskTokens(mask, rest, at, PastRuns(ps, p, gs))
    ensures SplicedTail(text, SpellPieces(ps) + ([QUOTE] + Spell(rest)), p, gs)
         == SpellPieces(ps') + ([QUOTE] + Spell(rest'))
    decreases |rest|, |gs|, 3
  {
    if gs != [] && FitsInterior(ps, p, gs[0]) {
      ps', rest' := SpliceInside(text, mask, p, at, ps, rest, gs);
    } else {
      ps' := ps;
      rest' := SpliceBeyond(text, mask, p, at, ps, rest, gs);
    }
  }

  /** The first group stands inside the string. */
  lemma {:induction false} SpliceInside(text: Edit -> bytes, mask: string -> seq<Piece>, p: nat, at: nat,
                                        ps: seq<Piece>, rest: seq<Token>, gs: seq<Edit>)
    returns (ps': seq<Piece>, rest': seq<Token>)
    requires Spells(text, mask) && ValidPieces(ps) && at == p + |SpellPieces(ps)| + 1 && Lexed(rest)
    requires Separate(gs, p, at + |Spell(rest)|) && AllFitFrom(ps, p, rest, at, gs)
    requires gs != [] && FitsInterior(ps, p, gs[0])
    ensures ValidPieces(ps') && Masked(mask, ps, ps') && MaskedTokens(mask, rest, rest')
    ensures ps' == MaskRuns(mask, ps, p, gs) && rest' == MaskTokens(mask, rest, at, PastRuns(ps, p, gs))
    ensures SplicedTail(text, SpellPieces(ps) + ([QUOTE] + Spell(rest)), p, gs)
         == SpellPieces(ps') + ([QUOTE] + Spell(rest'))
    decreases |rest|, |gs|, 1
  {
    var g := gs[0];
    var d, d' := g.range.start - p, g.range.end - p;
    var j, k := PiecesBefore(ps, d), PiecesBefore(ps, d');
    AllFitAfterCut(ps, p, rest, at, gs, d', at + |Spell(rest)|);
    var q;
    q, rest' := SplicePieces(text, mask, g.range.end, at, ps[k..], rest, gs[1..]);
    ps' := ps[..j] + (mask(g.tag) + q);
    RunsStep(mask, ps, p, gs, d, d');
    MaskedStep(mask, ps, p, g, d, d', q);
    CutOut(text, mask, p, ps, [QUOTE] + Spell(rest), gs, d, d');
    SpellThree(ps[..j], mask(g.tag), q, [QUOTE] + Spell(rest'));
  }

  lemma MaskedStep(mask: string -> seq<Piece>, ps: seq<Piece>, p: nat, g: Edit, d: int, d': int, q: seq<Piece>)
    requires IsMask(mask) && FitsInterior(ps, p, g) && d == g.range.start - p && d' == g.range.end - p
    requires ValidPieces(ps) && ValidPieces(q) && Masked(mask, ps[PiecesBefore(ps, d')..], q)
    ensures
      var ps' := ps[..PiecesBefore(ps, d)] + (mask(g.tag) + q);
      ValidPieces(ps') && Masked(mask, ps, ps')
  {
    var j, k := PiecesBefore(ps, d), PiecesBefore(ps, d');
    BeforeMonotone(ps, d, d');
    assert MaskedOnce(mask, ps, ps[..j] + (mask(g.tag) + q), j, k, g.tag, q);
  }

  /** No group stands inside the string. */
  lemma {:induction false} SpliceBeyond(text: Edit -> bytes, mask: string -> seq<Piece>, p: nat, at: nat,
                                        ps: seq<Piece>, rest: seq<Token>, gs: seq<Edit>)
    returns (rest': seq<Token>)
    requires Spells(text, mask) && at == p + |SpellPieces(ps)| + 1 && Lexed(rest)
    requires Separate(gs, p, at + |Spell(rest)|) && AllFitFrom(ps, p, rest, at, gs)
    requires gs != [] ==> !FitsInterior(ps, p, gs[0])
    ensures MaskedTokens(mask, rest, rest') && rest' == MaskTokens(mask, rest, at, gs)
    ensures SplicedTail(text, SpellPieces(ps) + ([QUOTE] + Spell(rest)), p, gs)
         == SpellPieces(ps) + ([QUOTE] + Spell(rest'))
    decreases |rest|, |gs|, 2
  {
    AllBeyond(ps, p, rest, at, gs, at + |Spell(rest)|);
    rest' := SpliceFrom(text, mask, at, rest, gs);
    TailSkip(text, SpellPieces(ps) + [QUOTE], Spell(rest), p, at, gs);
    Assoc(SpellPieces(ps), [QUOTE], Spell(rest));
    Assoc(SpellPieces(ps), [QUOTE], Spell(rest'));
  }

  lemma SpellThree(a: seq<Piece>, b: seq<Piece>, c: seq<Piece>, after: bytes)
    ensures SpellPieces(a + (b + c)) + after == SpellPieces(a) + (SpellPieces(b) + (SpellPieces(c) + after))
  {
    SpellPiecesJoin(a, b + c);
    SpellPiecesJoin(b, c);
    Assoc(SpellPieces(a), SpellPieces(b) + SpellPieces(c), after);
    Assoc(SpellPieces(b), SpellPieces(c), after);
  }

  /** The first group of a string's interior takes out whole pieces. */
  lemma CutOut(text: Edit -> bytes, mask: string -> seq<Piece>, p: nat, ps: seq<Piece>, close: bytes, gs: seq<Edit>, d: int, d': int)
    requires Spells(text, mask)
    requires gs != [] && FitsInterior(ps, p, gs[0]) && d == gs[0].range.start - p && d' == gs[0].range.end - p
    ensures SplicedTail(text, SpellPieces(ps) + close, p, gs)
         == SpellPieces(ps[..PiecesBefore(ps, d)])
          + (SpellPieces(mask(gs[0].tag))
          + SplicedTail(text, SpellPieces(ps[PiecesBefore(ps, d')..]) + close, gs[0].range.end, gs[1..]))
  {
    var s := SpellPieces(ps);
    CutPieces(ps, d);
    CutPieces(ps, d');
    SplitThree(s, d, d', close);
    TailCut(text, s[..d], s[d..d'], s[d'..] + close, p, gs);
    SpelledMask(text, mask, gs[0]);
  }

  lemma SplitThree(s: bytes, d: nat, d': nat, close: bytes)
    requires d <= d' <= |s|
    ensures s + close == s[..d] + (s[d..d'] + (s[d'..] + close))
  {
  }

  lemma {:induction false} BeforeMonotone(ps: seq<Piece>, d: int, d': int)
    requires AtBoundary(ps, d) && AtBoundary(ps, d') && d <= d'
    ensures PiecesBefore(ps, d) <= PiecesBefore(ps, d')
  {
    if d != 0 {
      var w := |SpellPiece(ps[0])|;
      CutPieces(ps[1..], d - w);
      BeforeMonotone(ps[1..], d - w, d' - w);
    }
  }

  lemma AllFitAfterCut(ps: seq<Piece>, p: nat, rest: seq<Token>, at: nat, gs: seq<Edit>, d: int, n: nat)
    requires gs != [] && FitsInterior(ps, p, gs[0]) && d == gs[0].range.end - p
    requires Separate(gs, p, n) && AllFitFrom(ps, p, rest, at, gs)
    ensures AllFitFrom(ps[PiecesBefore(ps, d)..], gs[0].range.end, rest, at, gs[1..])
    ensures |SpellPieces(ps[PiecesBefore(ps, d)..])| == |SpellPieces(ps)| - d
  {
    var ps' := ps[PiecesBefore(ps, d)..];
    CutPieces(ps, d);
    forall i | 1 <= i < |gs| ensures FitsInterior(ps', gs[0].range.end, gs[i]) || Fits(rest, at, gs[i]) {
      if FitsInterior(ps, p, gs[i]) {
        SeparateAfter(gs, p, n, i);
        InteriorAfterCut(ps, p, gs[0].range.end, d, gs[i]);
      }
    }
  }

  lemma InteriorAfterCut(ps: seq<Piece>, p: nat, p': nat, d: int, g: Edit)
    requires AtBoundary(ps, d) && FitsInterior(ps, p, g) && d == p' - p && p' <= g.range.start
    ensures FitsInterior(ps[PiecesBefore(ps, d)..], p', g)
  {
    BoundaryAfterCut(ps, d, g.range.start - p, g.range.start - p');
    BoundaryAfterCut(ps, d, g.range.end - p, g.range.end - p');
  }

  /** When the first group is past the string, all of them are. */
  lemma AllBeyond(ps: seq<Piece>, p: nat, rest: seq<Token>, at: nat, gs: seq<Edit>, n: nat)
    requires Lexed(rest) && Separate(gs, p, n) && AllFitFrom(ps, p, rest, at, gs) && at == p + |SpellPieces(ps)| + 1
    requires gs != [] ==> !FitsInterior(ps, p, gs[0])
    ensures AllFit(rest, at, gs)
    ensures gs != [] ==> at <= gs[0].range.start
  {
    if gs != [] {
      FitsRange(rest, at, gs[0]);
      forall i | 1 <= i < |gs| && FitsInterior(ps, p, gs[i]) ensures false {
        SeparateAfter(gs, p, n, i);
        CutPieces(ps, gs[i].range.start - p);
      }
    }
  }

  /** Splicing well-placed groups into the spelling of tokens gives the spelling of masked tokens. */
  lemma SpliceTokens(text: Edit -> bytes, mask: string -> seq<Piece>, ts: seq<Token>, edits: seq<Edit>) returns (ts': seq<Token>)
    requires Spells(text, mask) && Lexed(ts) && AllFit(ts, 0, edits) && AllWithin(edits, |Spell(ts)|)
    ensures SplicedTail(text, Spell(ts), 0, Plan(Spell(ts), edits)) == Spell(ts') && MaskedTokens(mask, ts, ts')
    ensures ts' == MaskTokens(mask, ts, 0, Plan(Spell(ts), edits))
  {
    PlanFits(ts, edits);
    ts' := SpliceFrom(text, mask, 0, ts, Plan(Spell(ts), edits));
  }
}
