/**
 Where the tokens of a text stand, and how the layout's lists of strings,
 numbers and escapes describe exactly those places.
 */
module TokenPlaces {
  import opened Bytes
  import opened Json
  import opened JsonLayout

  /** Token `t` of the text starts at `p`. */
  predicate TokenAt(ts: seq<Token>, at: nat, t: Token, p: nat) {
    ts != [] && ((ts[0] == t && at == p) || TokenAt(ts[1..], at + |SpellToken(ts[0])|, t, p))
  }

  /** The bytes of a token a finding may cover: a string's interior or a whole number. */
  function Region(t: Token, p: nat): Span {
    match t
    case Key(body) => Span(p + 1, p + 1 + |SpellPieces(body)|)
    case Str(body) => Span(p + 1, p + 1 + |SpellPieces(body)|)
    case Num(text) => Span(p, p + |text|)
    case _ => Span(p, p)
  }

  predicate IsMarked(t: Token) {
    t.Key? || t.Str? || t.Num?
  }

  lemma {:induction false} TokenRange(ts: seq<Token>, at: nat, t: Token, p: nat)
    requires TokenAt(ts, at, t, p)
    ensures at <= p && p + |SpellToken(t)| <= at + |Spell(ts)|
  {
    if !(ts[0] == t && at == p) {
      TokenRange(ts[1..], at + |SpellToken(ts[0])|, t, p);
    }
  }

  /** Two tokens of a text are the same one or do not overlap. */
  lemma {:induction false} TokensApart(ts: seq<Token>, at: nat, t: Token, p: nat, t': Token, p': nat)
    requires Lexed(ts) && TokenAt(ts, at, t, p) && TokenAt(ts, at, t', p')
    ensures (t == t' && p == p') || p + |SpellToken(t)| <= p' || p' + |SpellToken(t')| <= p
  {
    var at' := at + |SpellToken(ts[0])|;
    if ts[0] == t && at == p {
      if !(ts[0] == t' && at == p') {
        TokenRange(ts[1..], at', t', p');
      }
    } else if ts[0] == t' && at == p' {
      TokenRange(ts[1..], at', t, p);
    } else {
      TokensApart(ts[1..], at', t, p, t', p');
    }
  }

  // ── Marks are the marked tokens ────────────────────────────────────────

  lemma TokenLater(ts: seq<Token>, at: nat, at': nat, t: Token, p: nat)
    requires ts != [] && at' == at + |SpellToken(ts[0])| && TokenAt(ts[1..], at', t, p)
    ensures TokenAt(ts, at, t, p)
  {
  }

  lemma MarkAdded(t: Token, owner: Option<bytes>, c: Cursor, m: Mark)
    requires m in Step(t, owner, c).marks
    ensures m in c.marks || (IsMarked(t) && m.token == t && m.at == c.at)
  {
  }

  lemma {:induction false} MarkPlace(ts: seq<Token>, owners: seq<Option<bytes>>, c: Cursor, m: Mark)
    requires m in Pass(ts, owners, c).marks
    ensures m in c.marks || (IsMarked(m.token) && TokenAt(ts, c.at, m.token, m.at))
  {
    if ts != [] {
      var c' := Step(ts[0], Top(owners), c);
      MarkPlace(ts[1..], OwnersAfter(ts[0], owners), c', m);
      if m in c'.marks {
        MarkAdded(ts[0], Top(owners), c, m);
      } else {
        TokenLater(ts, c.at, c'.at, m.token, m.at);
      }
    }
  }

  lemma {:induction false} MarksKept(ts: seq<Token>, owners: seq<Option<bytes>>, c: Cursor, m: Mark)
    requires m in c.marks
    ensures m in Pass(ts, owners, c).marks
  {
    if ts != [] {
      MarksKept(ts[1..], OwnersAfter(ts[0], owners), Step(ts[0], Top(owners), c), m);
    }
  }

  lemma {:induction false} PlaceMarked(ts: seq<Token>, owners: seq<Option<bytes>>, c: Cursor, t: Token, p: nat)
    returns (m: Mark)
    requires TokenAt(ts, c.at, t, p) && IsMarked(t)
    ensures m in Pass(ts, owners, c).marks && m.token == t && m.at == p
  {
    var c', owners' := Step(ts[0], Top(owners), c), OwnersAfter(ts[0], owners);
    if ts[0] == t && c.at == p {
      m := Mark(t, p, if t.Str? then Top(owners) else None);
      assert c'.marks == c.marks + [m];
      MarksKept(ts[1..], owners', c', m);
    } else {
      m := PlaceMarked(ts[1..], owners', c', t, p);
    }
  }

  // ── The layout's lists are the marks ───────────────────────────────────

  lemma {:induction false} StringMark(ms: seq<Mark>, i: nat) returns (m: Mark)
    requires i < |LayoutOf(ms).strings|
    ensures
      var lit := LayoutOf(ms).strings[i];
      m in ms && (if lit.isKey then m.token.Key? else m.token.Str?) && lit.raw == Region(m.token, m.at)
      && lit.owner == m.owner
  {
    m := ms[|ms| - 1];
    if i < |LayoutOf(ms[..|ms| - 1]).strings| {
      m := StringMark(ms[..|ms| - 1], i);
    }
  }

  lemma {:induction false} MarkString(ms: seq<Mark>, m: Mark) returns (i: nat)
    requires m in ms && (m.token.Key? || m.token.Str?)
    ensures i < |LayoutOf(ms).strings|
    ensures LayoutOf(ms).strings[i] == StrLit(Region(m.token, m.at), m.token.Key?, m.owner)
  {
    var front := ms[..|ms| - 1];
    assert ms == front + [ms[|ms| - 1]];
    if m == ms[|ms| - 1] {
      i := |LayoutOf(front).strings|;
    } else {
      i := MarkString(front, m);
    }
  }

  lemma {:induction false} NumberMark(ms: seq<Mark>, i: nat) returns (m: Mark)
    requires i < |LayoutOf(ms).numbers|
    ensures m in ms && m.token.Num? && LayoutOf(ms).numbers[i] == Region(m.token, m.at)
  {
    m := ms[|ms| - 1];
    if i < |LayoutOf(ms[..|ms| - 1]).numbers| {
      m := NumberMark(ms[..|ms| - 1], i);
    }
  }

  lemma {:induction false} MarkNumber(ms: seq<Mark>, m: Mark) returns (i: nat)
    requires m in ms && m.token.Num?
    ensures i < |LayoutOf(ms).numbers| && LayoutOf(ms).numbers[i] == Region(m.token, m.at)
  {
    var front := ms[..|ms| - 1];
    assert ms == front + [ms[|ms| - 1]];
    if m == ms[|ms| - 1] {
      i := |LayoutOf(front).numbers|;
    } else {
      i := MarkNumber(front, m);
    }
  }

  lemma {:induction false} EscapeMark(ms: seq<Mark>, x: Span) returns (m: Mark)
    requires x in LayoutOf(ms).escapes
    ensures m in ms && (m.token.Key? || m.token.Str?) && x in Escapes(m.token.body, m.at + 1)
  {
    m := ms[|ms| - 1];
    if x in LayoutOf(ms[..|ms| - 1]).escapes {
      m := EscapeMark(ms[..|ms| - 1], x);
    }
  }

  lemma {:induction false} MarkEscapes(ms: seq<Mark>, m: Mark, x: Span)
    requires m in ms && (m.token.Key? || m.token.Str?) && x in Escapes(m.token.body, m.at + 1)
    ensures x in LayoutOf(ms).escapes
  {
    var front, last := ms[..|ms| - 1], ms[|ms| - 1];
    if m != last {
      assert m in front by {
        assert ms == front + [last];
      }
      MarkEscapes(front, m, x);
    }
    EscapesAdded(LayoutOf(front), last, x);
  }

  lemma EscapesAdded(l: Layout, m: Mark, x: Span)
    ensures x in l.escapes ==> x in AddMark(l, m).escapes
    ensures (m.token.Key? || m.token.Str?) && x in Escapes(m.token.body, m.at + 1) ==> x in AddMark(l, m).escapes
  {
  }

  // ── What the layout of a text says about its tokens ────────────────────

  /** The layout of the text the tokens spell. */
  function TextLayout(ts: seq<Token>): Layout {
    LayoutOf(Pass(ts, [], Cursor(0, [])).marks)
  }

  lemma StringPlace(ts: seq<Token>, i: nat) returns (t: Token, p: nat)
    requires i < |TextLayout(ts).strings|
    ensures
      var lit := TextLayout(ts).strings[i];
      TokenAt(ts, 0, t, p) && (if lit.isKey then t.Key? else t.Str?) && lit.raw == Region(t, p)
  {
    var m := StringMark(Pass(ts, [], Cursor(0, [])).marks, i);
    MarkPlace(ts, [], Cursor(0, []), m);
    t, p := m.token, m.at;
  }

  lemma PlaceString(ts: seq<Token>, t: Token, p: nat) returns (i: nat)
    requires TokenAt(ts, 0, t, p) && (t.Key? || t.Str?)
    ensures i < |TextLayout(ts).strings|
    ensures TextLayout(ts).strings[i].raw == Region(t, p) && TextLayout(ts).strings[i].isKey == t.Key?
  {
    var m := PlaceMarked(ts, [], Cursor(0, []), t, p);
    i := MarkString(Pass(ts, [], Cursor(0, [])).marks, m);
  }

  lemma NumberPlace(ts: seq<Token>, i: nat) returns (t: Token, p: nat)
    requires i < |TextLayout(ts).numbers|
    ensures TokenAt(ts, 0, t, p) && t.Num? && TextLayout(ts).numbers[i] == Region(t, p)
  {
    var m := NumberMark(Pass(ts, [], Cursor(0, [])).marks, i);
    MarkPlace(ts, [], Cursor(0, []), m);
    t, p := m.token, m.at;
  }

  lemma PlaceNumber(ts: seq<Token>, t: Token, p: nat) returns (i: nat)
    requires TokenAt(ts, 0, t, p) && t.Num?
    ensures i < |TextLayout(ts).numbers| && TextLayout(ts).numbers[i] == Region(t, p)
  {
    var m := PlaceMarked(ts, [], Cursor(0, []), t, p);
    i := MarkNumber(Pass(ts, [], Cursor(0, [])).marks, m);
  }

  /** The escapes of a string's interior lie inside it. */
  lemma {:induction false} EscapesWithin(ps: seq<Piece>, at: nat, x: Span)
    requires x in Escapes(ps, at)
    ensures at <= x.start <= x.end <= at + |SpellPieces(ps)|
  {
    if x in Escapes(ps[1..], at + |SpellPiece(ps[0])|) {
      EscapesWithin(ps[1..], at + |SpellPiece(ps[0])|, x);
    }
  }

  /** Interiors of different strings neither overlap nor touch. */
  lemma SamePlace(ts: seq<Token>, t: Token, p: nat, t': Token, p': nat, q: int)
    requires Lexed(ts) && TokenAt(ts, 0, t, p) && TokenAt(ts, 0, t', p')
    requires (t.Key? || t.Str?) && (t'.Key? || t'.Str?)
    requires Region(t, p).start <= q <= Region(t, p).end && Region(t', p').start <= q <= Region(t', p').end
    ensures t == t' && p == p'
  {
    TokensApart(ts, 0, t, p, t', p');
    assert |SpellToken(t)| == |SpellPieces(t.body)| + 2 && |SpellToken(t')| == |SpellPieces(t'.body)| + 2;
  }

  // ── Surveys: the place behind each entry of a list ─────────────────────

  datatype Place = Place(token: Token, at: nat)

  ghost predicate ListsStrings(ts: seq<Token>, strings: seq<StrLit>, places: seq<Place>) {
    |places| == |strings| && forall k | 0 <= k < |strings| :: IsLiteral(ts, strings[k], places[k])
  }

  predicate IsLiteral(ts: seq<Token>, lit: StrLit, at: Place) {
    && TokenAt(ts, 0, at.token, at.at) && lit.raw == Region(at.token, at.at)
    && if lit.isKey then at.token.Key? else at.token.Str?
  }

  ghost predicate ListsNumbers(ts: seq<Token>, numbers: seq<Span>, places: seq<Place>) {
    |places| == |numbers| && forall k | 0 <= k < |numbers| :: IsNumeral(ts, numbers[k], places[k])
  }

  predicate IsNumeral(ts: seq<Token>, num: Span, at: Place) {
    TokenAt(ts, 0, at.token, at.at) && at.token.Num? && num == Region(at.token, at.at)
  }

  /** Each escape is one of the string behind it, and no string value has others. */
  ghost predicate ListsEscapes(ts: seq<Token>, escapes: seq<Span>, places: seq<Place>) {
    && |places| == |escapes| && (forall k | 0 <= k < |escapes| :: IsEscapeOf(ts, escapes[k], places[k]))
    && forall x, at | IsEscapeOf(ts, x, at) && at.token.Str? :: x in escapes
  }

  predicate IsEscapeOf(ts: seq<Token>, x: Span, at: Place) {
    && TokenAt(ts, 0, at.token, at.at) && (at.token.Key? || at.token.Str?)
    && x in Escapes(at.token.body, at.at + 1)
  }

  lemma {:induction false} SurveyStrings(ts: seq<Token>, n: nat) returns (places: seq<Place>)
    requires n <= |TextLayout(ts).strings|
    ensures ListsStrings(ts, TextLayout(ts).strings[..n], places)
  {
    places := [];
    if n > 0 {
      places := SurveyStrings(ts, n - 1);
      var t, p := StringPlace(ts, n - 1);
      places := places + [Place(t, p)];
    }
  }

  lemma {:induction false} SurveyNumbers(ts: seq<Token>, n: nat) returns (places: seq<Place>)
    requires n <= |TextLayout(ts).numbers|
    ensures ListsNumbers(ts, TextLayout(ts).numbers[..n], places)
  {
    places := [];
    if n > 0 {
      places := SurveyNumbers(ts, n - 1);
      var t, p := NumberPlace(ts, n - 1);
      places := places + [Place(t, p)];
    }
  }

  lemma EscapePlace(ts: seq<Token>, i: nat) returns (at: Place)
    requires i < |TextLayout(ts).escapes|
    ensures IsEscapeOf(ts, TextLayout(ts).escapes[i], at)
  {
    var m := EscapeMark(Pass(ts, [], Cursor(0, [])).marks, TextLayout(ts).escapes[i]);
    MarkPlace(ts, [], Cursor(0, []), m);
    at := Place(m.token, m.at);
  }

  lemma {:induction false} SurveyEscapes(ts: seq<Token>, n: nat) returns (places: seq<Place>)
    requires n <= |TextLayout(ts).escapes|
    ensures |places| == n && forall k | 0 <= k < n :: IsEscapeOf(ts, TextLayout(ts).escapes[k], places[k])
  {
    places := [];
    if n > 0 {
      places := SurveyEscapes(ts, n - 1);
      var at := EscapePlace(ts, n - 1);
      places := places + [at];
    }
  }

  lemma Survey(ts: seq<Token>, l: Layout) returns (literals: seq<Place>, numerals: seq<Place>, homes: seq<Place>)
    requires l == TextLayout(ts)
    ensures ListsStrings(ts, l.strings, literals) && ListsNumbers(ts, l.numbers, numerals)
    ensures ListsEscapes(ts, l.escapes, homes)
  {
    literals := SurveyStrings(ts, |l.strings|);
    numerals := SurveyNumbers(ts, |l.numbers|);
    homes := SurveyEscapes(ts, |l.escapes|);
    assert l.strings[..|l.strings|] == l.strings && l.numbers[..|l.numbers|] == l.numbers;
    forall x, at | IsEscapeOf(ts, x, at) && at.token.Str? ensures x in l.escapes {
      var m := PlaceMarked(ts, [], Cursor(0, []), at.token, at.at);
      MarkEscapes(Pass(ts, [], Cursor(0, [])).marks, m, x);
    }
  }

  /** A position of a string's interior is inside an escape only if it is one of that string's own. */
  lemma EscapeHome(ts: seq<Token>, t: Token, p: nat, lit: Span, x: Span, home: Place, q: int)
    requires Lexed(ts) && TokenAt(ts, 0, t, p) && t.Str? && lit == Region(t, p) && IsEscapeOf(ts, x, home)
    requires x.start < q < x.end && lit.start <= q <= lit.end
    ensures x in Escapes(t.body, lit.start)
  {
    EscapesWithin(home.token.body, home.at + 1, x);
    SamePlace(ts, t, p, home.token, home.at, q);
    assert lit.start == p + 1;
  }
}
