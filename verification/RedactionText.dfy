/** Redaction of text leaves text: no edit ever cuts a UTF-8 character. */
module RedactionText {
  import opened Bytes
  import opened Json
  import opened TokenPlaces
  import opened Splice
  import opened RedactTokens
  import opened Redaction
  import opened Enforce
  import opened Utf8

  lemma FirstIsLead(s: bytes)
    requires IsUtf8(s) && s != []
    ensures !IsContinuation(s[0])
  {
  }

  /** A character starts right after an ASCII byte. */
  lemma {:induction false} AfterAscii(s: bytes, i: nat)
    requires IsUtf8(s) && 0 < i <= |s| && s[i - 1] < 0x80
    ensures IsBoundary(s, i)
  {
    var w := Width(s[0]);
    if i < w {
      TailsContinue(s[..w], i - 1);
      assert false;
    } else if i == w {
      if i < |s| {
        FirstIsLead(s[w..]);
      }
    } else {
      assert s[w..][i - w - 1] == s[i - 1];
      AfterAscii(s[w..], i - w);
      assert i < |s| ==> s[w..][i - w] == s[i];
    }
  }

  // ── Where the edges of an edit fall ────────────────────────────────────

  /** What stands before and after a token. */
  lemma {:induction false} TokenBytes(ts: seq<Token>, at: nat, t: Token, p: nat) returns (front: bytes, back: bytes)
    requires TokenAt(ts, at, t, p)
    ensures Spell(ts) == front + (SpellToken(t) + back) && p == at + |front|
  {
    var head, rest := SpellToken(ts[0]), Spell(ts[1..]);
    if ts[0] == t && at == p {
      front, back := [], rest;
    } else {
      front, back := TokenBytes(ts[1..], at + |head|, t, p);
      Assoc(head, front, SpellToken(t) + back);
      front := head + front;
    }
  }

  lemma MiddleSlice(front: bytes, s: bytes, back: bytes, p: nat)
    requires p == |front|
    ensures (front + (s + back))[p..p + |s|] == s
  {
  }

  /** A boundary with none right after it is the start of an escape, and one with none right before it the end of one. */
  lemma {:induction false} EscapeBytes(ps: seq<Piece>, d: int)
    requires ValidPieces(ps) && AtBoundary(ps, d)
    ensures 0 <= d <= |SpellPieces(ps)|
    ensures d < |SpellPieces(ps)| && !AtBoundary(ps, d + 1) ==> SpellPieces(ps)[d] == BACKSLASH
    ensures d > 0 && !AtBoundary(ps, d - 1) ==> SpellPieces(ps)[d - 1] < 0x80
  {
    if ps != [] {
      var head := SpellPiece(ps[0]);
      var w := |head|;
      if d == 0 {
        assert AtBoundary(ps[1..], 0);
      } else {
        EscapeBytes(ps[1..], d - w);
        if d == w {
          assert SpellPieces(ps)[d - 1] == head[w - 1];
        }
        if d < |SpellPieces(ps)| {
          assert SpellPieces(ps)[d] == SpellPieces(ps[1..])[d - w];
        }
        if w < d {
          assert SpellPieces(ps)[d - 1] == SpellPieces(ps[1..])[d - w - 1];
        }
      }
    }
  }

  predicate Edge(content: bytes, q: nat) {
    q <= |content| && IsBoundary(content, q)
  }

  /** The string with that interior stands in the content, between two quotes. */
  predicate Quoted(content: bytes, inner: bytes, lit: Span) {
    && 0 < lit.start <= lit.end < |content| && content[lit.start..lit.end] == inner
    && content[lit.start - 1] == QUOTE && content[lit.end] == QUOTE
  }

  lemma InnerSlice(s: bytes, p: nat, n: nat)
    requires 2 <= n && p + n <= |s|
    ensures s[p..p + n][1..n - 1] == s[p + 1..p + n - 1]
  {
    var a, b := s[p..p + n][1..n - 1], s[p + 1..p + n - 1];
    forall i | 0 <= i < |a| ensures a[i] == b[i] {
      assert a[i] == s[p..p + n][i + 1] == s[p + (i + 1)];
    }
  }

  lemma QuotedSlice(content: bytes, inner: bytes, p: nat, n: nat, lit: Span)
    requires n == |inner| + 2 && p + n <= |content| && content[p..p + n] == [QUOTE] + inner + [QUOTE]
    requires lit.start == p + 1 && lit.end == lit.start + |inner|
    ensures Quoted(content, inner, lit)
  {
    var s := content[p..p + n];
    assert s[0] == QUOTE && s[n - 1] == QUOTE && s[1..n - 1] == inner;
    assert content[p] == s[0] && content[p + n - 1] == s[n - 1];
    InnerSlice(content, p, n);
  }

  lemma QuotedByte(content: bytes, inner: bytes, lit: Span, q: nat, d: nat)
    requires Quoted(content, inner, lit) && lit.start <= q < lit.end && d == q - lit.start
    ensures content[q] == inner[d]
  {
  }

  /** Widening to the left stops at an escape, at the opening quote, or where the finding itself starts. */
  lemma StartEdge(content: bytes, body: seq<Piece>, lit: Span, f: Span, lo: nat, q: nat)
    requires IsUtf8(content) && ValidPieces(body) && Quoted(content, SpellPieces(body), lit)
    requires lo == Max(f.start, lit.start) && lit.start <= q <= lo <= lit.end && Near(body, lit.start, lo, q)
    requires Edge(content, f.start)
    ensures Edge(content, q)
  {
    if q < lo {
      assert !EdgeAt(body, lit.start, q + 1);
      EscapeBytes(body, q - lit.start);
      QuotedByte(content, SpellPieces(body), lit, q, q - lit.start);
    } else if lo == lit.start {
      AfterAscii(content, lit.start);
    }
  }

  lemma EndEdge(content: bytes, body: seq<Piece>, lit: Span, f: Span, hi: nat, q: nat)
    requires IsUtf8(content) && ValidPieces(body) && Quoted(content, SpellPieces(body), lit)
    requires hi == Min(f.end, lit.end) && lit.start <= hi <= q <= lit.end && Near(body, lit.start, hi, q)
    requires Edge(content, f.end)
    ensures Edge(content, q)
  {
    if hi < q {
      var d := q - lit.start;
      assert !AtBoundary(body, d - 1) by {
        assert !EdgeAt(body, lit.start, q - 1);
      }
      EscapeBytes(body, d);
      QuotedByte(content, SpellPieces(body), lit, q - 1, d - 1);
      AfterAscii(content, q);
    }
  }

  lemma StringEdges(content: bytes, body: seq<Piece>, p: nat, lit: Span, f: Span, r: Span)
    requires IsUtf8(content) && ValidPieces(body) && lit == Span(p + 1, p + 1 + |SpellPieces(body)|)
    requires p + |SpellToken(Str(body))| <= |content|
    requires content[p..p + |SpellToken(Str(body))|] == SpellToken(Str(body))
    requires Overlaps(lit, f) && Rounded(body, lit, f, r) && Edge(content, f.start) && Edge(content, f.end) && f.start <= f.end
    ensures Edge(content, r.start) && Edge(content, r.end)
  {
    QuotedSlice(content, SpellPieces(body), p, |SpellToken(Str(body))|, lit);
    StartEdge(content, body, lit, f, Clip(lit, f).start, r.start);
    EndEdge(content, body, lit, f, Clip(lit, f).end, r.end);
  }

  lemma NumberEdges(content: bytes, text: bytes, p: nat)
    requires IsUtf8(content) && ValidToken(Num(text)) && p + |text| <= |content| && content[p..p + |text|] == text
    ensures Edge(content, p) && Edge(content, p + |text|)
  {
    assert content[p] == text[0] && content[p + |text| - 1] == text[|text| - 1];
    AfterAscii(content, p + |text|);
  }

  predicate Stands(content: bytes, at: Place) {
    && ValidToken(at.token) && at.at + |SpellToken(at.token)| <= |content|
    && content[at.at..at.at + |SpellToken(at.token)|] == SpellToken(at.token)
  }

  lemma TokenStands(content: bytes, ts: seq<Token>, at: Place)
    requires Lexed(ts) && content == Spell(ts) && TokenAt(ts, 0, at.token, at.at)
    ensures Stands(content, at)
  {
    ValidAt(ts, 0, at.token, at.at);
    var front, back := TokenBytes(ts, 0, at.token, at.at);
    MiddleSlice(front, SpellToken(at.token), back, at.at);
  }

  lemma PlaceEdges(content: bytes, at: Place, f: Finding, e: Edit)
    requires Stands(content, at)
    requires IsUtf8(content) && IsEditFor(at, f, e) && SpanFault(content, f.span).None?
    ensures Edge(content, e.range.start) && Edge(content, e.range.end)
  {
    if at.token.Str? {
      StringEdges(content, at.token.body, at.at, Region(at.token, at.at), f.span, e.range);
    } else {
      NumberEdges(content, at.token.text, at.at);
    }
  }

  /** Both ends of an edit a finding calls for are character boundaries. */
  lemma CalledEdges(content: bytes, ts: seq<Token>, f: Finding, e: Edit)
    requires Lexed(ts) && content == Spell(ts) && IsUtf8(content) && Called(ts, f, e)
    requires SpanFault(content, f.span).None?
    ensures Edge(content, e.range.start) && Edge(content, e.range.end)
  {
    var at: Place :| TokenAt(ts, 0, at.token, at.at) && IsEditFor(at, f, e);
    TokenStands(content, ts, at);
    PlaceEdges(content, at, f, e);
  }

  // ── Splicing between characters ────────────────────────────────────────

  ghost predicate AllEdges(edge: nat -> bool, es: seq<Edit>) {
    forall i | 0 <= i < |es| :: edge(es[i].range.start) && edge(es[i].range.end)
  }

  /** The ends of merged groups are ends of edits. */
  lemma {:induction false} GrowEdges(edge: nat -> bool, g: Edit, es: seq<Edit>)
    requires edge(g.range.start) && edge(g.range.end) && AllEdges(edge, es)
    ensures AllEdges(edge, Grow(g, es))
    decreases |es|
  {
    if es != [] {
      if es[0].range.start <= g.range.end {
        GrowEdges(edge, Extend(g, es[0]), es[1..]);
      } else {
        GrowEdges(edge, es[0], es[1..]);
      }
    }
  }

  lemma PlanEdges(edge: nat -> bool, content: bytes, edits: seq<Edit>)
    requires AllWithin(edits, |content|) && AllEdges(edge, edits)
    ensures AllEdges(edge, Plan(content, edits))
  {
    var es := Sort(edits);
    forall i | 0 <= i < |es| ensures edge(es[i].range.start) && edge(es[i].range.end) {
      SortMembers(edits, es[i]);
    }
    if es != [] {
      GrowEdges(edge, es[0], es[1..]);
    }
  }

  function CharEdges(content: bytes): nat -> bool {
    (q: nat) => Edge(content, q)
  }

  lemma ReplacementUtf8(e: Edit)
    ensures IsUtf8(Replacement(e))
  {
    MarkerSafe(e.tag);
    AsciiUtf8(Replacement(e));
  }

  lemma {:induction false} SplicedUtf8(content: bytes, cursor: nat, gs: seq<Edit>)
    requires IsUtf8(content) && cursor <= |content| && Separate(gs, cursor, |content|)
    requires Edge(content, cursor) && AllEdges(CharEdges(content), gs)
    ensures IsUtf8(Spliced(content, cursor, gs))
    decreases |gs|
  {
    if gs == [] {
      SplitUtf8(content, cursor);
    } else {
      var g := gs[0];
      assert CharEdges(content)(g.range.start) && CharEdges(content)(g.range.end);
      SliceUtf8(content, cursor, g.range.start);
      ReplacementUtf8(g);
      JoinUtf8(content[cursor..g.range.start], Replacement(g));
      SplicedUtf8(content, g.range.end, gs[1..]);
      JoinUtf8(content[cursor..g.range.start] + Replacement(g), Spliced(content, g.range.end, gs[1..]));
    }
  }

  lemma PlanUtf8(content: bytes, edits: seq<Edit>)
    requires IsUtf8(content) && AllWithin(edits, |content|) && AllEdges(CharEdges(content), edits)
    ensures IsUtf8(Spliced(content, 0, Plan(content, edits)))
  {
    PlanEdges(CharEdges(content), content, edits);
    if content != [] {
      FirstIsLead(content);
    }
    SplicedUtf8(content, 0, Plan(content, edits));
  }

  /** Redacting JSON text leaves text, however the findings' ends and escapes fall. */
  lemma JsonTextStaysText(content: bytes, ts: seq<Token>, findings: seq<Finding>, edits: seq<Edit>, owners: seq<nat>)
    requires Lexed(ts) && content == Spell(ts) && IsUtf8(content) && AllDescribe(content, findings)
    requires InFindingOrder(ts, findings, |findings|, edits, owners)
    ensures AllWithin(edits, |content|) && IsUtf8(Spliced(content, 0, Plan(content, edits)))
  {
    CalledWithin(ts, findings, edits, owners);
    forall i | 0 <= i < |edits|
      ensures CharEdges(content)(edits[i].range.start) && CharEdges(content)(edits[i].range.end)
    {
      CalledEdges(content, ts, findings[owners[i]], edits[i]);
    }
    PlanUtf8(content, edits);
  }

  /** So does redacting text that is not JSON. */
  lemma PlainTextStaysText(content: bytes, findings: seq<Finding>)
    requires IsUtf8(content) && AllDescribe(content, findings)
    ensures AllWithin(PlainEdits(findings), |content|)
    ensures IsUtf8(Spliced(content, 0, Plan(content, PlainEdits(findings))))
  {
    var edits := PlainEdits(findings);
    forall i | 0 <= i < |edits|
      ensures edits[i].range.WithinLength(|content|)
      ensures CharEdges(content)(edits[i].range.start) && CharEdges(content)(edits[i].range.end)
    {
      assert SpanFault(content, findings[i].span).None?;
    }
    PlanUtf8(content, edits);
  }
}
