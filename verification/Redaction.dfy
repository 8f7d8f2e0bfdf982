/**
 Redacting findings from a JSON text: `json_edits` clips and widens a span to
 whole pieces of string values and whole numbers, and counts what it covered.
 */
module Redaction {
  import opened Bytes
  import opened Json
  import opened JsonLayout
  import opened TokenPlaces
  import opened Splice
  import opened RedactTokens

  /** A located item; `certain` means a checksum proved it. */
  datatype Finding = Finding(tag: string, span: Span, certain: bool)

  // ── Overlap and coverage ───────────────────────────────────────────────

  predicate Overlaps(r: Span, f: Span) {
    r.start < f.end && f.start < r.end
  }

  /** The part of `r` the finding covers. */
  function Clip(r: Span, f: Span): Span {
    Span(Max(f.start, r.start), Min(f.end, r.end))
  }

  function Overlap(r: Span, f: Span): int {
    if Overlaps(r, f) then Clip(r, f).end - Clip(r, f).start else 0
  }

  /** The finding's overlap with the first `n` literals, added up. */
  function SumStrings(xs: seq<StrLit>, n: nat, f: Span): int
    requires n <= |xs|
  {
    if n == 0 then 0 else SumStrings(xs, n - 1, f) + Overlap(xs[n - 1].raw, f)
  }

  function SumNumbers(xs: seq<Span>, n: nat, f: Span): int
    requires n <= |xs|
  {
    if n == 0 then 0 else SumNumbers(xs, n - 1, f) + Overlap(xs[n - 1], f)
  }

  function MarkOverlap(t: Token, p: nat, f: Span): int {
    if IsMarked(t) then Overlap(Region(t, p), f) else 0
  }

  function SumMarks(ms: seq<Mark>, f: Span): int {
    if ms == [] then 0 else SumMarks(ms[..|ms| - 1], f) + MarkOverlap(ms[|ms| - 1].token, ms[|ms| - 1].at, f)
  }

  /** How many bytes of the span lie in string interiors (keys included) and numbers. */
  function Covered(ts: seq<Token>, at: nat, f: Span): int {
    if ts == [] then 0 else MarkOverlap(ts[0], at, f) + Covered(ts[1..], at + |SpellToken(ts[0])|, f)
  }

  lemma {:induction false} SumStringsPrefix(xs: seq<StrLit>, x: StrLit, n: nat, f: Span)
    requires n <= |xs|
    ensures SumStrings(xs + [x], n, f) == SumStrings(xs, n, f)
  {
    if n > 0 {
      SumStringsPrefix(xs, x, n - 1, f);
    }
  }

  lemma {:induction false} SumNumbersPrefix(xs: seq<Span>, x: Span, n: nat, f: Span)
    requires n <= |xs|
    ensures SumNumbers(xs + [x], n, f) == SumNumbers(xs, n, f)
  {
    if n > 0 {
      SumNumbersPrefix(xs, x, n - 1, f);
    }
  }

  lemma SumNumbersStep(xs: seq<Span>, n: nat, n': nat, f: Span)
    requires n' == n + 1 <= |xs|
    ensures SumNumbers(xs, n', f) == SumNumbers(xs, n, f) + Overlap(xs[n], f)
  {
  }

  function SumLists(l: Layout, f: Span): int {
    SumStrings(l.strings, |l.strings|, f) + SumNumbers(l.numbers, |l.numbers|, f)
  }

  lemma SumAdded(l: Layout, m: Mark, f: Span)
    ensures SumLists(AddMark(l, m), f) == SumLists(l, f) + MarkOverlap(m.token, m.at, f)
  {
    match m.token {
      case Key(body) => SumStringsPrefix(l.strings, StrLit(Region(m.token, m.at), true, m.owner), |l.strings|, f);
      case Str(body) => SumStringsPrefix(l.strings, StrLit(Region(m.token, m.at), false, m.owner), |l.strings|, f);
      case Num(text) => SumNumbersPrefix(l.numbers, Region(m.token, m.at), |l.numbers|, f);
      case _ =>
    }
  }

  lemma {:induction false} SumLayout(ms: seq<Mark>, f: Span)
    ensures SumLists(LayoutOf(ms), f) == SumMarks(ms, f)
  {
    if ms != [] {
      SumLayout(ms[..|ms| - 1], f);
      SumAdded(LayoutOf(ms[..|ms| - 1]), ms[|ms| - 1], f);
    }
  }

  lemma SumStep(t: Token, owner: Option<bytes>, c: Cursor, f: Span)
    ensures SumMarks(Step(t, owner, c).marks, f) == SumMarks(c.marks, f) + MarkOverlap(t, c.at, f)
  {
    var ms := Step(t, owner, c).marks;
    if IsMarked(t) {
      assert ms[..|ms| - 1] == c.marks;
    }
  }

  lemma {:induction false} SumPass(ts: seq<Token>, owners: seq<Option<bytes>>, c: Cursor, f: Span)
    ensures SumMarks(Pass(ts, owners, c).marks, f) == SumMarks(c.marks, f) + Covered(ts, c.at, f)
  {
    if ts != [] {
      var c' := Step(ts[0], Top(owners), c);
      SumPass(ts[1..], OwnersAfter(ts[0], owners), c', f);
      SumStep(ts[0], Top(owners), c, f);
      CoveredStep(ts, c.at, c'.at, f);
    }
  }

  lemma CoveredStep(ts: seq<Token>, at: nat, at': nat, f: Span)
    requires ts != [] && at' == at + |SpellToken(ts[0])|
    ensures Covered(ts, at, f) == MarkOverlap(ts[0], at, f) + Covered(ts[1..], at', f)
  {
  }

  /** The two counting loops of `json_edits` together count the span's covered bytes. */
  lemma CoveredByLayout(ts: seq<Token>, f: Span)
    ensures SumLists(TextLayout(ts), f) == Covered(ts, 0, f)
  {
    SumLayout(Pass(ts, [], Cursor(0, [])).marks, f);
    SumPass(ts, [], Cursor(0, []), f);
  }

  function Window(lo: int, hi: int, f: Span): int {
    var a, b := if f.start < lo then lo else f.start, if f.end < hi then f.end else hi;
    if a < b then b - a else 0
  }

  lemma TokenBound(t: Token, at: nat, at': nat, f: Span)
    requires f.start <= f.end && at' == at + |SpellToken(t)|
    ensures 0 <= MarkOverlap(t, at, f) <= Window(at, at', f)
    ensures !t.Num? ==> MarkOverlap(t, at, f) <= Window(at + 1, at', f)
    ensures !t.Num? ==> MarkOverlap(t, at, f) <= Window(at, at' - 1, f)
  {
  }

  lemma {:induction false} CoveredBound(ts: seq<Token>, at: nat, end: nat, f: Span)
    requires f.start <= f.end && end == at + |Spell(ts)|
    ensures 0 <= Covered(ts, at, f) <= Window(at, end, f)
  {
    if ts != [] {
      var at' := at + |SpellToken(ts[0])|;
      CoveredStep(ts, at, at', f);
      TokenBound(ts[0], at, at', f);
      CoveredBound(ts[1..], at', end, f);
    }
  }

  /** A text that does not start with a number leaves its first byte uncovered. */
  lemma FirstUncovered(ts: seq<Token>, at: nat, f: Span)
    requires Lexed(ts) && ts != [] && !ts[0].Num? && f.start <= at < f.end <= at + |Spell(ts)|
    ensures Covered(ts, at, f) < f.end - at
  {
    var at' := at + |SpellToken(ts[0])|;
    LexedHead(ts);
    CoveredStep(ts, at, at', f);
    TokenBound(ts[0], at, at', f);
    CoveredBound(ts[1..], at', at' + |Spell(ts[1..])|, f);
  }

  /** A fully covered, non-empty span lies in one string interior or one number: tokens never touch. */
  lemma {:induction false} WholeSpan(ts: seq<Token>, at: nat, f: Span) returns (t: Token, p: nat)
    requires Lexed(ts) && at <= f.start < f.end <= at + |Spell(ts)|
    requires Covered(ts, at, f) >= f.end - f.start
    ensures TokenAt(ts, at, t, p) && IsMarked(t) && Inside(f, Region(t, p))
  {
    var at' := at + |SpellToken(ts[0])|;
    LexedHead(ts);
    CoveredStep(ts, at, at', f);
    TokenBound(ts[0], at, at', f);
    CoveredBound(ts[1..], at', at' + |Spell(ts[1..])|, f);
    if at' <= f.start {
      t, p := WholeSpan(ts[1..], at', f);
    } else {
      t, p := ts[0], at;
      if at' < f.end {
        NumAlone(ts);
        FirstUncovered(ts[1..], at', f);
        assert false;
      }
    }
  }

  // ── Widening to piece boundaries ───────────────────────────────────────

  predicate Cuts(x: Span, q: int) {
    x.start < q < x.end
  }

  lemma {:induction false} UncutIsBoundary(ps: seq<Piece>, at: nat, q: int, d: int)
    requires d == q - at && 0 <= d <= |SpellPieces(ps)|
    requires forall x | x in Escapes(ps, at) :: !Cuts(x, q)
    requires ValidPieces(ps)
    ensures AtBoundary(ps, d)
  {
    if d != 0 {
      var w := |SpellPiece(ps[0])|;
      assert w <= d by {
        if d < w {
          assert Span(at, at + w) in Escapes(ps, at);
          assert Cuts(Span(at, at + w), q);
        }
      }
      UncutIsBoundary(ps[1..], at + w, q, d - w);
    }
  }

  lemma {:induction false} EscapeEnds(ps: seq<Piece>, at: nat, x: Span, d: int, d': int)
    requires x in Escapes(ps, at) && d == x.start - at && d' == x.end - at
    ensures AtBoundary(ps, d) && AtBoundary(ps, d')
  {
    var w := |SpellPiece(ps[0])|;
    if !ps[0].Raw? && x == Span(at, at + w) {
      assert AtBoundary(ps[1..], 0);
    } else {
      EscapesWithin(ps[1..], at + w, x);
      EscapeEnds(ps[1..], at + w, x, d - w, d' - w);
    }
  }

  /** Whether position `q` of a string's interior, which starts at `base`, falls between two pieces. */
  predicate EdgeAt(ps: seq<Piece>, base: nat, q: int) {
    AtBoundary(ps, q - base)
  }

  /** `q` is the piece boundary nearest to `q0` on its side: none lies between, nor at `q0` unless it is `q0`. */
  ghost predicate Near(ps: seq<Piece>, base: nat, q0: int, q: int) {
    EdgeAt(ps, base, q) && forall z | q < z <= q0 || q0 <= z < q :: !EdgeAt(ps, base, z)
  }

  lemma {:induction false} NoEdgeInside(ps: seq<Piece>, at: nat, x: Span, z: int, d: int)
    requires x in Escapes(ps, at) && Cuts(x, z) && d == z - at
    ensures !AtBoundary(ps, d)
  {
    var w := |SpellPiece(ps[0])|;
    if x in Escapes(ps[1..], at + w) {
      EscapesWithin(ps[1..], at + w, x);
      NoEdgeInside(ps[1..], at + w, x, z, d - w);
    }
  }

  /** Clips the finding to one string value and widens it so that it cuts no escape, and no further. */
  method WidenClip(escapes: seq<Span>, f: Span, lit: Span, ghost ts: seq<Token>, ghost t: Token, ghost p: nat,
                   ghost homes: seq<Place>)
    returns (clip: Span)
    requires Lexed(ts) && TokenAt(ts, 0, t, p) && t.Str? && lit == Region(t, p) && ListsEscapes(ts, escapes, homes)
    requires f.start <= f.end && Overlaps(lit, f)
    ensures Inside(Clip(lit, f), clip) && Inside(clip, lit) && clip.start <= clip.end
    ensures Near(t.body, lit.start, Clip(lit, f).start, clip.start) && Near(t.body, lit.start, Clip(lit, f).end, clip.end)
  {
    var lo, hi := Max(f.start, lit.start), Min(f.end, lit.end);
    var start, end := lo, hi;
    var k := 0;
    while k < |escapes|
      invariant 0 <= k <= |escapes|
      invariant lit.start <= start <= lo && hi <= end <= lit.end
      invariant Safe(t.body, lit.start, escapes, k, f, lo, start)
      invariant Safe(t.body, lit.start, escapes, k, f, hi, end)
    {
      var x := escapes[k];
      SafeStep(ts, t, p, lit, escapes, homes, k, f, lo, start);
      SafeStep(ts, t, p, lit, escapes, homes, k, f, hi, end);
      if Overlaps(x, f) {
        if Cuts(x, start) {
          start := x.start;
        }
        if Cuts(x, end) {
          end := x.end;
        }
      }
      k := k + 1;
    }
    ClipUncut(ts, t, p, f, lit, escapes, homes, lo);
    ClipUncut(ts, t, p, f, lit, escapes, homes, hi);
    clip := Span(start, end);
  }

  /** `q` is the boundary nearest to `q0`, or still `q0` with none of the first `n` escapes cut there. */
  ghost predicate Safe(body: seq<Piece>, base: nat, escapes: seq<Span>, n: nat, f: Span, q0: int, q: int)
    requires n <= |escapes|
  {
    Near(body, base, q0, q) || (q == q0 && Uncut(escapes, n, f, q0))
  }

  lemma SafeStep(ts: seq<Token>, t: Token, p: nat, lit: Span, escapes: seq<Span>, homes: seq<Place>, k: nat,
                 f: Span, q0: int, q: int)
    requires Lexed(ts) && TokenAt(ts, 0, t, p) && t.Str? && lit == Region(t, p) && ListsEscapes(ts, escapes, homes)
    requires k < |escapes| && lit.start <= q <= lit.end && Safe(t.body, lit.start, escapes, k, f, q0, q)
    ensures
      var x := escapes[k];
      if Overlaps(x, f) && Cuts(x, q)
      then && lit.start <= x.start && x.end <= lit.end
           && Safe(t.body, lit.start, escapes, k + 1, f, q0, x.start)
           && Safe(t.body, lit.start, escapes, k + 1, f, q0, x.end)
      else Safe(t.body, lit.start, escapes, k + 1, f, q0, q)
  {
    var x := escapes[k];
    if Overlaps(x, f) && Cuts(x, q) {
      EscapeHome(ts, t, p, lit, x, homes[k], q);
      NearCut(t.body, lit, x, q0, q);
    } else if q == q0 && Uncut(escapes, k, f, q0) {
      assert Uncut(escapes, k + 1, f, q0);
    }
  }

  /** An escape cut at `q0` has its own two ends as the nearest boundaries. */
  lemma NearCut(body: seq<Piece>, lit: Span, x: Span, q0: int, q: int)
    requires x in Escapes(body, lit.start) && lit.end == lit.start + |SpellPieces(body)| && Cuts(x, q)
    requires Near(body, lit.start, q0, q) || q == q0
    ensures lit.start <= x.start && x.end <= lit.end
    ensures Near(body, lit.start, q0, x.start) && Near(body, lit.start, q0, x.end)
  {
    EscapesWithin(body, lit.start, x);
    forall z | Cuts(x, z) ensures !EdgeAt(body, lit.start, z) {
      NoEdgeInside(body, lit.start, x, z, z - lit.start);
    }
    EscapeEnds(body, lit.start, x, x.start - lit.start, x.end - lit.start);
  }

  /** None of the first `n` escapes that overlap the finding is cut at `q`. */
  ghost predicate Uncut(escapes: seq<Span>, n: nat, f: Span, q: int)
    requires n <= |escapes|
  {
    forall i | 0 <= i < n :: Overlaps(escapes[i], f) ==> !Cuts(escapes[i], q)
  }

  lemma {:induction false} ValidAt(ts: seq<Token>, at: nat, t: Token, p: nat)
    requires Lexed(ts) && TokenAt(ts, at, t, p)
    ensures ValidToken(t)
  {
    if !(ts[0] == t && at == p) {
      ValidAt(ts[1..], at + |SpellToken(ts[0])|, t, p);
    }
  }

  /** Only an escape that overlaps the finding can be cut at an end of the clip. */
  lemma ClipUncut(ts: seq<Token>, t: Token, p: nat, f: Span, lit: Span, escapes: seq<Span>, homes: seq<Place>, q: int)
    requires Lexed(ts) && TokenAt(ts, 0, t, p) && t.Str? && lit == Region(t, p) && ListsEscapes(ts, escapes, homes)
    requires f.start <= f.end && Overlaps(lit, f) && (q == Max(f.start, lit.start) || q == Min(f.end, lit.end))
    ensures Uncut(escapes, |escapes|, f, q) ==> EdgeAt(t.body, lit.start, q)
  {
    if Uncut(escapes, |escapes|, f, q) {
      forall x | x in Escapes(t.body, lit.start) ensures !Cuts(x, q) {
        assert IsEscapeOf(ts, x, Place(t, p));
        EscapesWithin(t.body, lit.start, x);
        UncutBy(escapes, f, lit, q, x);
      }
      ValidAt(ts, 0, t, p);
      UncutIsBoundary(t.body, lit.start, q, q - lit.start);
    }
  }

  lemma UncutBy(escapes: seq<Span>, f: Span, lit: Span, q: int, x: Span)
    requires Uncut(escapes, |escapes|, f, q) && x in escapes && lit.start <= x.start && x.end <= lit.end
    requires f.start <= f.end && Overlaps(lit, f) && (q == Max(f.start, lit.start) || q == Min(f.end, lit.end))
    ensures !Cuts(x, q)
  {
    var i :| 0 <= i < |escapes| && escapes[i] == x;
  }

  // ── The edits of one finding ───────────────────────────────────────────

  /** A string value or a number: what a redaction may rewrite. */
  predicate IsEditable(t: Token) {
    t.Str? || t.Num?
  }

  /** The finding's part of a string value, widened to the nearest piece boundaries. */
  ghost predicate Rounded(body: seq<Piece>, lit: Span, f: Span, r: Span) {
    && Inside(Clip(lit, f), r) && Inside(r, lit) && r.start <= r.end
    && Near(body, lit.start, Clip(lit, f).start, r.start) && Near(body, lit.start, Clip(lit, f).end, r.end)
  }

  /** What the finding calls for at one string value or number it overlaps. */
  ghost predicate IsEditFor(at: Place, f: Finding, e: Edit) {
    && e.tag == f.tag && Overlaps(Region(at.token, at.at), f.span)
    && match at.token
       case Str(body) => !e.quoted && Rounded(body, Region(at.token, at.at), f.span, e.range)
       case Num(text) => e.quoted && e.range == Region(at.token, at.at)
       case _ => false
  }

  /** The finding calls for the edit somewhere in the text. */
  ghost predicate Called(ts: seq<Token>, f: Finding, e: Edit) {
    exists at: Place :: TokenAt(ts, 0, at.token, at.at) && IsEditFor(at, f, e)
  }

  ghost predicate AllCalled(ts: seq<Token>, f: Finding, es: seq<Edit>, from: nat) {
    forall i | from <= i < |es| :: Called(ts, f, es[i])
  }

  /** Some edit from index `from` on does what the finding calls for at the place. */
  ghost predicate Answered(at: Place, f: Finding, es: seq<Edit>, from: nat) {
    exists i :: from <= i < |es| && IsEditFor(at, f, es[i])
  }

  lemma AnsweredMore(at: Place, f: Finding, es: seq<Edit>, from: nat, e: Edit)
    ensures Answered(at, f, es, from) ==> Answered(at, f, es + [e], from)
    ensures from <= |es| && IsEditFor(at, f, e) ==> Answered(at, f, es + [e], from)
  {
    if Answered(at, f, es, from) {
      var i :| from <= i < |es| && IsEditFor(at, f, es[i]);
      assert (es + [e])[i] == es[i];
    }
    assert (es + [e])[|es|] == e;
  }

  lemma CalledMore(ts: seq<Token>, f: Finding, es: seq<Edit>, from: nat, e: Edit)
    requires AllCalled(ts, f, es, from) && Called(ts, f, e)
    ensures AllCalled(ts, f, es + [e], from) && es <= es + [e]
  {
  }

  /** The first `n` string values the finding overlaps are edited as it calls for. */
  ghost predicate StringsDone(strings: seq<StrLit>, places: seq<Place>, n: nat, f: Finding, es: seq<Edit>, from: nat)
    requires n <= |strings| == |places|
  {
    forall k | 0 <= k < n && !strings[k].isKey && Overlaps(strings[k].raw, f.span) :: Answered(places[k], f, es, from)
  }

  ghost predicate NumbersDone(numbers: seq<Span>, places: seq<Place>, n: nat, f: Finding, es: seq<Edit>, from: nat)
    requires n <= |numbers| == |places|
  {
    forall k | 0 <= k < n && Overlaps(numbers[k], f.span) :: Answered(places[k], f, es, from)
  }

  ghost predicate OnKey(strings: seq<StrLit>, n: nat, f: Span)
    requires n <= |strings|
  {
    exists k :: 0 <= k < n && strings[k].isKey && Overlaps(strings[k].raw, f)
  }

  ghost predicate OnValue(strings: seq<StrLit>, n: nat, f: Span)
    requires n <= |strings|
  {
    exists k :: 0 <= k < n && !strings[k].isKey && Overlaps(strings[k].raw, f)
  }

  ghost predicate OnNumber(numbers: seq<Span>, n: nat, f: Span)
    requires n <= |numbers|
  {
    exists k :: 0 <= k < n && Overlaps(numbers[k], f)
  }

  lemma NumbersNext(numbers: seq<Span>, places: seq<Place>, n: nat, f: Finding, es: seq<Edit>, from: nat)
    requires n < |numbers| == |places| && NumbersDone(numbers, places, n, f, es, from)
    ensures OnNumber(numbers, n + 1, f.span) <==> OnNumber(numbers, n, f.span) || Overlaps(numbers[n], f.span)
    ensures !Overlaps(numbers[n], f.span) || Answered(places[n], f, es, from)
        ==> NumbersDone(numbers, places, n + 1, f, es, from)
  {
  }

  /** What the first loop knows after `n` literals. */
  ghost predicate StringsState(ts: seq<Token>, strings: seq<StrLit>, places: seq<Place>, n: nat, f: Finding, edits: seq<Edit>,
                               es: seq<Edit>, covered: int, onKey: bool)
    requires n <= |strings| == |places|
  {
    && edits <= es && AllCalled(ts, f, es, |edits|)
    && covered == SumStrings(strings, n, f.span)
    && (onKey <==> OnKey(strings, n, f.span))
    && StringsDone(strings, places, n, f, es, |edits|)
    && (|es| > |edits| ==> OnValue(strings, n, f.span))
  }

  lemma StringSkipped(ts: seq<Token>, strings: seq<StrLit>, places: seq<Place>, n: nat, f: Finding, edits: seq<Edit>,
                      es: seq<Edit>, covered: int, onKey: bool)
    requires n < |strings| == |places| && StringsState(ts, strings, places, n, f, edits, es, covered, onKey)
    requires strings[n].isKey || !Overlaps(strings[n].raw, f.span)
    ensures StringsState(ts, strings, places, n + 1, f, edits, es, covered + Overlap(strings[n].raw, f.span),
                         onKey || Overlaps(strings[n].raw, f.span))
  {
  }

  lemma StringPushed(ts: seq<Token>, strings: seq<StrLit>, places: seq<Place>, n: nat, f: Finding, edits: seq<Edit>,
                     es: seq<Edit>, covered: int, onKey: bool, e: Edit)
    requires n < |strings| == |places| && StringsState(ts, strings, places, n, f, edits, es, covered, onKey)
    requires !strings[n].isKey && Overlaps(strings[n].raw, f.span) && Called(ts, f, e) && IsEditFor(places[n], f, e)
    ensures StringsState(ts, strings, places, n + 1, f, edits, es + [e], covered + Overlap(strings[n].raw, f.span), onKey)
  {
    CalledMore(ts, f, es, |edits|, e);
    StringsPush(strings, places, n, f, es, |edits|, e);
  }

  lemma StringsPush(strings: seq<StrLit>, places: seq<Place>, n: nat, f: Finding, es: seq<Edit>, from: nat, e: Edit)
    requires n < |strings| == |places| && from <= |es| && StringsDone(strings, places, n, f, es, from)
    requires IsEditFor(places[n], f, e)
    ensures StringsDone(strings, places, n + 1, f, es + [e], from)
  {
    forall k | 0 <= k <= n && !strings[k].isKey && Overlaps(strings[k].raw, f.span)
      ensures Answered(places[k], f, es + [e], from)
    {
      AnsweredMore(places[k], f, es, from, e);
    }
  }

  lemma NumbersPush(numbers: seq<Span>, places: seq<Place>, n: nat, f: Finding, es: seq<Edit>, from: nat, e: Edit)
    requires n < |numbers| == |places| && from <= |es| && NumbersDone(numbers, places, n, f, es, from)
    requires IsEditFor(places[n], f, e)
    ensures NumbersDone(numbers, places, n + 1, f, es + [e], from)
  {
    forall k | 0 <= k <= n && Overlaps(numbers[k], f.span) ensures Answered(places[k], f, es + [e], from) {
      AnsweredMore(places[k], f, es, from, e);
    }
  }

  method StringEdit(escapes: seq<Span>, f: Finding, lit: StrLit, ghost ts: seq<Token>, ghost at: Place,
                    ghost homes: seq<Place>)
    returns (e: Edit)
    requires Lexed(ts) && IsLiteral(ts, lit, at) && ListsEscapes(ts, escapes, homes) && f.span.start <= f.span.end
    requires !lit.isKey && Overlaps(lit.raw, f.span)
    ensures Called(ts, f, e) && IsEditFor(at, f, e)
  {
    var clip := WidenClip(escapes, f.span, lit.raw, ts, at.token, at.at, homes);
    e := Edit(clip, false, f.tag);
  }

  /** The first loop of `json_edits`: string literals. */
  method StringEdits(layout: Layout, f: Finding, edits: seq<Edit>, ghost ts: seq<Token>, ghost places: seq<Place>,
                     ghost homes: seq<Place>)
    returns (es: seq<Edit>, covered: int, onKey: bool)
    requires Lexed(ts) && ListsStrings(ts, layout.strings, places) && ListsEscapes(ts, layout.escapes, homes)
    requires f.span.start <= f.span.end
    ensures edits <= es && AllCalled(ts, f, es, |edits|)
    ensures covered == SumStrings(layout.strings, |layout.strings|, f.span)
    ensures onKey <==> OnKey(layout.strings, |layout.strings|, f.span)
    ensures StringsDone(layout.strings, places, |layout.strings|, f, es, |edits|)
    ensures |es| > |edits| ==> OnValue(layout.strings, |layout.strings|, f.span)
  {
    es, covered, onKey := edits, 0, false;
    var strings, j := layout.strings, 0;
    while j < |strings|
      invariant 0 <= j <= |strings|
      invariant StringsState(ts, strings, places, j, f, edits, es, covered, onKey)
    {
      es, covered, onKey := StringTurn(layout, f, j, es, covered, onKey, edits, ts, places, homes);
      j := j + 1;
    }
  }

  /** One turn of that loop. */
  method StringTurn(layout: Layout, f: Finding, j: nat, es: seq<Edit>, covered: int, onKey: bool, ghost edits: seq<Edit>,
                    ghost ts: seq<Token>, ghost places: seq<Place>, ghost homes: seq<Place>)
    returns (es': seq<Edit>, covered': int, onKey': bool)
    requires Lexed(ts) && ListsStrings(ts, layout.strings, places) && ListsEscapes(ts, layout.escapes, homes)
    requires f.span.start <= f.span.end && j < |layout.strings|
    requires StringsState(ts, layout.strings, places, j, f, edits, es, covered, onKey)
    ensures StringsState(ts, layout.strings, places, j + 1, f, edits, es', covered', onKey')
  {
    var lit := layout.strings[j];
    es', covered', onKey' := es, covered, onKey;
    if !Overlaps(lit.raw, f.span) {
      StringSkipped(ts, layout.strings, places, j, f, edits, es, covered, onKey);
      return;
    }
    var clip := Clip(lit.raw, f.span);
    covered' := covered + (clip.end - clip.start);
    if lit.isKey {
      StringSkipped(ts, layout.strings, places, j, f, edits, es, covered, onKey);
      onKey' := true;
    } else {
      var e := StringEdit(layout.escapes, f, lit, ts, places[j], homes);
      StringPushed(ts, layout.strings, places, j, f, edits, es, covered, onKey, e);
      es' := es' + [e];
    }
  }

  lemma WholeNumber(ts: seq<Token>, num: Span, at: Place, f: Finding)
    requires IsNumeral(ts, num, at) && Overlaps(num, f.span)
    ensures Called(ts, f, Edit(num, true, f.tag)) && IsEditFor(at, f, Edit(num, true, f.tag))
  {
  }

  /** The second loop: whole numbers. */
  method NumberEdits(layout: Layout, f: Finding, edits: seq<Edit>, ghost ts: seq<Token>, ghost places: seq<Place>)
    returns (es: seq<Edit>, covered: int)
    requires ListsNumbers(ts, layout.numbers, places) && f.span.start <= f.span.end
    ensures edits <= es && AllCalled(ts, f, es, |edits|)
    ensures covered == SumNumbers(layout.numbers, |layout.numbers|, f.span)
    ensures NumbersDone(layout.numbers, places, |layout.numbers|, f, es, |edits|)
    ensures |es| > |edits| ==> OnNumber(layout.numbers, |layout.numbers|, f.span)
  {
    es, covered := edits, 0;
    var numbers, j := layout.numbers, 0;
    while j < |numbers|
      invariant 0 <= j <= |numbers|
      invariant edits <= es && AllCalled(ts, f, es, |edits|)
      invariant covered == SumNumbers(numbers, j, f.span)
      invariant NumbersDone(numbers, places, j, f, es, |edits|)
      invariant |es| > |edits| ==> OnNumber(numbers, j, f.span)
    {
      var num := numbers[j];
      NumbersNext(numbers, places, j, f, es, |edits|);
      SumNumbersStep(numbers, j, j + 1, f.span);
      if Overlaps(num, f.span) {
        covered := covered + (Min(f.span.end, num.end) - Max(f.span.start, num.start));
        var e := Edit(num, true, f.tag);
        WholeNumber(ts, num, places[j], f);
        CalledMore(ts, f, es, |edits|, e);
        NumbersPush(numbers, places, j, f, es, |edits|, e);
        es := es + [e];
      }
      j := j + 1;
    }
  }

  // ── What one finding amounts to ────────────────────────────────────────

  ghost predicate OverlapsKey(ts: seq<Token>, f: Span) {
    exists t, p :: TokenAt(ts, 0, t, p) && t.Key? && Overlaps(Region(t, p), f)
  }

  ghost predicate OverlapsEditable(ts: seq<Token>, f: Span) {
    exists t, p :: TokenAt(ts, 0, t, p) && IsEditable(t) && Overlaps(Region(t, p), f)
  }

  /** The verdict of `json_edits`: the span touches a key, or some of it is in no string and no number. */
  ghost predicate OnStructure(ts: seq<Token>, f: Span) {
    OverlapsKey(ts, f) || Covered(ts, 0, f) < f.end - f.start
  }

  /** Every string value and number the finding overlaps is edited as it calls for. */
  ghost predicate AllAnswered(ts: seq<Token>, f: Finding, es: seq<Edit>, from: nat) {
    forall at: Place | TokenAt(ts, 0, at.token, at.at) && IsEditable(at.token) && Overlaps(Region(at.token, at.at), f.span) ::
      Answered(at, f, es, from)
  }

  lemma KeyOverlap(ts: seq<Token>, f: Span)
    ensures OnKey(TextLayout(ts).strings, |TextLayout(ts).strings|, f) <==> OverlapsKey(ts, f)
  {
    var strings := TextLayout(ts).strings;
    if OnKey(strings, |strings|, f) {
      var k :| 0 <= k < |strings| && strings[k].isKey && Overlaps(strings[k].raw, f);
      var t, p := StringPlace(ts, k);
    }
    if OverlapsKey(ts, f) {
      var t, p :| TokenAt(ts, 0, t, p) && t.Key? && Overlaps(Region(t, p), f);
      var k := PlaceString(ts, t, p);
    }
  }

  lemma EditableOverlap(ts: seq<Token>, f: Span)
    requires
      || OnValue(TextLayout(ts).strings, |TextLayout(ts).strings|, f)
      || OnNumber(TextLayout(ts).numbers, |TextLayout(ts).numbers|, f)
    ensures OverlapsEditable(ts, f)
  {
    var l := TextLayout(ts);
    if OnValue(l.strings, |l.strings|, f) {
      var k :| 0 <= k < |l.strings| && !l.strings[k].isKey && Overlaps(l.strings[k].raw, f);
      var t, p := StringPlace(ts, k);
    } else {
      var k :| 0 <= k < |l.numbers| && Overlaps(l.numbers[k], f);
      var t, p := NumberPlace(ts, k);
    }
  }

  lemma AnsweredKept(at: Place, f: Finding, es: seq<Edit>, es': seq<Edit>, from: nat, from': nat)
    requires es <= es' && from' <= from && Answered(at, f, es, from)
    ensures Answered(at, f, es', from')
  {
    var i :| from <= i < |es| && IsEditFor(at, f, es[i]);
    assert es'[i] == es[i];
  }

  /** The edits one finding calls for, and whether any of it fell on a key or bare syntax. */
  method JsonEdits(layout: Layout, f: Finding, edits: seq<Edit>, ghost ts: seq<Token>)
    returns (es: seq<Edit>, onStructure: bool)
    requires Lexed(ts) && layout == TextLayout(ts) && f.span.start <= f.span.end
    ensures edits <= es && AllCalled(ts, f, es, |edits|) && AllAnswered(ts, f, es, |edits|)
    ensures onStructure <==> OnStructure(ts, f.span)
    ensures |es| > |edits| <==> OverlapsEditable(ts, f.span)
  {
    ghost var literals, numerals, homes := Survey(ts, layout);
    var covered, onKey;
    es, covered, onKey := StringEdits(layout, f, edits, ts, literals, homes);
    ghost var es1 := es;
    var more;
    es, more := NumberEdits(layout, f, es, ts, numerals);
    covered := covered + more;
    onStructure := onKey || covered < f.span.end - f.span.start;
    CoveredByLayout(ts, f.span);
    KeyOverlap(ts, f.span);
    EditsAnswer(ts, literals, numerals, f, es1, es, |edits|);
    if |es| > |edits| {
      EditableOverlap(ts, f.span);
    }
  }

  lemma EditsAnswer(ts: seq<Token>, literals: seq<Place>, numerals: seq<Place>, f: Finding, es1: seq<Edit>, es: seq<Edit>,
                    from: nat)
    requires Lexed(ts) && from <= |es1| && es1 <= es
    requires ListsStrings(ts, TextLayout(ts).strings, literals) && ListsNumbers(ts, TextLayout(ts).numbers, numerals)
    requires StringsDone(TextLayout(ts).strings, literals, |TextLayout(ts).strings|, f, es1, from)
    requires NumbersDone(TextLayout(ts).numbers, numerals, |TextLayout(ts).numbers|, f, es, |es1|)
    ensures AllAnswered(ts, f, es, from)
    ensures OverlapsEditable(ts, f.span) ==> |es| > from
  {
    forall at: Place | TokenAt(ts, 0, at.token, at.at) && IsEditable(at.token) && Overlaps(Region(at.token, at.at), f.span)
      ensures Answered(at, f, es, from)
    {
      if at.token.Str? {
        var k := PlaceString(ts, at.token, at.at);
        SamePlace(ts, at.token, at.at, literals[k].token, literals[k].at, Region(at.token, at.at).start);
        AnsweredKept(at, f, es1, es, from, from);
      } else {
        var k := PlaceNumber(ts, at.token, at.at);
        SameNumber(ts, at, numerals[k]);
        AnsweredKept(at, f, es, es, |es1|, from);
      }
    }
    if OverlapsEditable(ts, f.span) {
      var t, p :| TokenAt(ts, 0, t, p) && IsEditable(t) && Overlaps(Region(t, p), f.span);
      assert Answered(Place(t, p), f, es, from);
    }
  }

  lemma SameNumber(ts: seq<Token>, a: Place, b: Place)
    requires Lexed(ts) && TokenAt(ts, 0, a.token, a.at) && TokenAt(ts, 0, b.token, b.at) && a.token.Num? && b.token.Num?
    requires Region(a.token, a.at) == Region(b.token, b.at)
    ensures a == b
  {
    TokensApart(ts, 0, a.token, a.at, b.token, b.at);
    ValidAt(ts, 0, a.token, a.at);
  }

  lemma {:induction false} FitsPlace(ts: seq<Token>, at: nat, t: Token, p: nat, e: Edit)
    requires TokenAt(ts, at, t, p) && FitsToken(t, p, e)
    ensures Fits(ts, at, e)
  {
    if !(ts[0] == t && at == p) {
      FitsPlace(ts[1..], at + |SpellToken(ts[0])|, t, p, e);
    }
  }

  /** Whatever a finding calls for is a run of whole pieces of one string value, or one whole number. */
  lemma CalledFits(ts: seq<Token>, f: Finding, e: Edit)
    requires Called(ts, f, e)
    ensures Fits(ts, 0, e)
  {
    var at: Place :| TokenAt(ts, 0, at.token, at.at) && IsEditFor(at, f, e);
    FitsPlace(ts, 0, at.token, at.at, e);
  }

  lemma {:induction false} CoveredAtLeast(ts: seq<Token>, at: nat, t: Token, p: nat, f: Span)
    requires TokenAt(ts, at, t, p) && f.start <= f.end
    ensures MarkOverlap(t, p, f) <= Covered(ts, at, f)
  {
    var at' := at + |SpellToken(ts[0])|;
    CoveredStep(ts, at, at', f);
    TokenBound(ts[0], at, at', f);
    if ts[0] == t && at == p {
      CoveredBound(ts[1..], at', at' + |Spell(ts[1..])|, f);
    } else {
      CoveredAtLeast(ts[1..], at', t, p, f);
    }
  }

  /** A non-empty span is off structure exactly when it lies inside one string value or one number. */
  lemma OffStructure(ts: seq<Token>, f: Span)
    requires Lexed(ts) && f.start < f.end <= |Spell(ts)|
    ensures !OnStructure(ts, f) <==> exists t, p :: TokenAt(ts, 0, t, p) && IsEditable(t) && Inside(f, Region(t, p))
  {
    if !OnStructure(ts, f) {
      var t, p := WholeSpan(ts, 0, f);
      assert TokenAt(ts, 0, t, p) && Overlaps(Region(t, p), f);
    }
    if t, p :| TokenAt(ts, 0, t, p) && IsEditable(t) && Inside(f, Region(t, p)) {
      CoveredAtLeast(ts, 0, t, p, f);
      forall t', p' | TokenAt(ts, 0, t', p') && t'.Key? ensures !Overlaps(Region(t', p'), f) {
        TokensApart(ts, 0, t, p, t', p');
      }
    }
  }
}
