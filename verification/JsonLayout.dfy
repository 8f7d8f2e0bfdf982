/**
 Where the bytes of a JSON text are: the flat scanner of `json_layout.rs`,
 proved to return exactly what the tree says.
 */
module JsonLayout {
  import opened Bytes
  import opened Json

  /** One string literal's interior; `owner` is the raw text of the key the value belongs to. */
  datatype StrLit = StrLit(raw: Span, isKey: bool, owner: Option<bytes>)

  datatype Layout = Layout(strings: seq<StrLit>, numbers: seq<Span>, escapes: seq<Span>)

  const EMPTY := Layout([], [], [])

  /** The escape sequences of a string whose interior starts at `at`. */
  function Escapes(ps: seq<Piece>, at: nat): seq<Span> {
    if ps == [] then []
    else
      var w := |SpellPiece(ps[0])|;
      (if ps[0].Raw? then [] else [Span(at, at + w)]) + Escapes(ps[1..], at + w)
  }

  /** A key, string value or number of the text, where it starts and whose it is. */
  datatype Mark = Mark(token: Token, at: nat, owner: Option<bytes>)

  function AddMark(l: Layout, m: Mark): Layout {
    var start := m.at + 1;
    match m.token
    case Key(body) =>
      Layout(l.strings + [StrLit(Span(start, start + |SpellPieces(body)|), true, m.owner)],
             l.numbers, l.escapes + Escapes(body, start))
    case Str(body) =>
      Layout(l.strings + [StrLit(Span(start, start + |SpellPieces(body)|), false, m.owner)],
             l.numbers, l.escapes + Escapes(body, start))
    case Num(text) => l.(numbers := l.numbers + [Span(m.at, m.at + |text|)])
    case _ => l
  }

  /** The layout that lists the marks in order. */
  function LayoutOf(ms: seq<Mark>): Layout {
    if ms == [] then EMPTY else AddMark(LayoutOf(ms[..|ms| - 1]), ms[|ms| - 1])
  }

  // ── What the tree says ─────────────────────────────────────────────────

  /** How far a left-to-right walk has come and what it has marked. */
  datatype Cursor = Cursor(at: nat, marks: seq<Mark>)

  function Skip(text: bytes, c: Cursor): Cursor {
    c.(at := c.at + |text|)
  }

  /** Past one token; a string value is marked with its `owner`. */
  function Step(t: Token, owner: Option<bytes>, c: Cursor): Cursor {
    Cursor(c.at + |SpellToken(t)|,
           match t
           case Str(_) => c.marks + [Mark(t, c.at, owner)]
           case Key(_) => c.marks + [Mark(t, c.at, None)]
           case Num(_) => c.marks + [Mark(t, c.at, None)]
           case _ => c.marks)
  }

  /** `owner` is the key of the nearest enclosing object member reached through arrays only. */
  function WalkValue(v: Value, owner: Option<bytes>, c: Cursor): Cursor
    decreases v, 0
  {
    match v
    case Word(text) => Skip(text, c)
    case Number(text) => Step(Num(text), None, c)
    case Text(body) => Step(Str(body), owner, c)
    case Group(named, gap, items) =>
      Step(Close(named), None,
           WalkItems(items, if named then None else owner, Skip(gap, Step(Open(named), None, c))))
  }

  function WalkItems(items: Items, owner: Option<bytes>, c: Cursor): Cursor
    decreases items, 0
  {
    match items
    case Done => c
    case Next(lead, name, value, trail, rest) =>
      var c' := WalkItem(lead, name, value, trail, owner, c);
      if rest.Done? then c' else WalkItems(rest, owner, Step(Plain(COMMA), None, c'))
  }

  function WalkItem(lead: bytes, name: Option<Name>, value: Value, trail: bytes, owner: Option<bytes>, c: Cursor): Cursor
    decreases value, 1
  {
    Skip(trail, WalkValue(value, NameOwner(name, owner), WalkName(name, Skip(lead, c))))
  }

  function WalkName(name: Option<Name>, c: Cursor): Cursor {
    match name
    case None => c
    case Some(n) => Skip(n.after, Step(Plain(COLON), None, Skip(n.before, Step(Key(n.key), None, c))))
  }

  /** A member's value belongs to the member's key; an array's element to whatever the array belongs to. */
  function NameOwner(name: Option<Name>, owner: Option<bytes>): Option<bytes> {
    if name.Some? then Some(SpellPieces(name.value.key)) else owner
  }

  function WalkDoc(d: Doc): Cursor {
    Skip(d.trail, WalkValue(d.value, None, Skip(d.lead, Cursor(0, []))))
  }

  function DocLayout(d: Doc): Layout {
    LayoutOf(WalkDoc(d).marks)
  }

  // ── What a flat pass with a stack of owners says ───────────────────────

  function Top(owners: seq<Option<bytes>>): Option<bytes> {
    if owners == [] then None else owners[|owners| - 1]
  }

  function Pop(owners: seq<Option<bytes>>): seq<Option<bytes>> {
    if owners == [] then [] else owners[..|owners| - 1]
  }

  function SetTop(owners: seq<Option<bytes>>, owner: Option<bytes>): seq<Option<bytes>> {
    if owners == [] then [] else owners[|owners| - 1 := owner]
  }

  function OwnersAfter(t: Token, owners: seq<Option<bytes>>): seq<Option<bytes>> {
    match t
    case Open(named) => owners + [if named then None else Top(owners)]
    case Close(_) => Pop(owners)
    case Key(body) => SetTop(owners, Some(SpellPieces(body)))
    case _ => owners
  }

  function Pass(ts: seq<Token>, owners: seq<Option<bytes>>, c: Cursor): Cursor {
    if ts == [] then c else Pass(ts[1..], OwnersAfter(ts[0], owners), Step(ts[0], Top(owners), c))
  }

  lemma {:induction false} PassToken(t: Token, k: seq<Token>, owners: seq<Option<bytes>>, owner: Option<bytes>, c: Cursor)
    requires t.Str? ==> owner == Top(owners)
    ensures Pass([t] + k, owners, c) == Pass(k, OwnersAfter(t, owners), Step(t, owner, c))
  {
    ConsTail(t, k);
    assert Step(t, owner, c) == Step(t, Top(owners), c);
  }

  lemma {:induction false} PassPlain(text: bytes, k: seq<Token>, owners: seq<Option<bytes>>, c: Cursor)
    ensures Pass(PlainTokens(text, k), owners, c) == Pass(k, owners, Skip(text, c))
  {
    if text != [] {
      var c' := Step(Plain(text[0]), None, c);
      PassToken(Plain(text[0]), PlainTokens(text[1..], k), owners, None, c);
      PassPlain(text[1..], k, owners, c');
      assert Skip(text[1..], c') == Skip(text, c);
    }
  }

  /** The flat pass over a value's tokens marks what the tree says and restores the stack. */
  lemma {:induction false} PassValue(v: Value, k: seq<Token>, owners: seq<Option<bytes>>, c: Cursor)
    requires ValidValue(v)
    ensures Pass(ValueTokens(v, k), owners, c) == Pass(k, owners, WalkValue(v, Top(owners), c))
    decreases v, 0
  {
    match v
    case Word(text) => PassPlain(text, k, owners, c);
    case Number(text) => PassToken(Num(text), k, owners, None, c);
    case Text(body) => PassToken(Str(body), k, owners, Top(owners), c);
    case Group(named, gap, items) => PassGroup(named, gap, items, k, owners, c);
  }

  lemma {:induction false} PassGroup(named: bool, gap: bytes, items: Items, k: seq<Token>,
                                     owners: seq<Option<bytes>>, c: Cursor)
    requires ValidItems(items, named)
    ensures Pass([Open(named)] + PlainTokens(gap, ItemTokens(items, [Close(named)] + k)), owners, c)
         == Pass(k, owners,
                 Step(Close(named), None, WalkItems(items, if named then None else Top(owners),
                                                    Skip(gap, Step(Open(named), None, c)))))
    decreases items, 1
  {
    var owner := if named then None else Top(owners);
    var inner := ItemTokens(items, [Close(named)] + k);
    PassToken(Open(named), PlainTokens(gap, inner), owners, None, c);
    PassPlain(gap, inner, owners + [owner], Step(Open(named), None, c));
    PassItems(items, named, k, owners, owner, owner, Skip(gap, Step(Open(named), None, c)));
  }

  /**
   The items of a group and its closing bracket, so the pass ends with the
   stack it began with. Inside an object the top of the stack is the last key
   read, which its members never look at.
   */
  lemma {:induction false} PassItems(items: Items, named: bool, k: seq<Token>, base: seq<Option<bytes>>,
                                     top: Option<bytes>, owner: Option<bytes>, c: Cursor)
    requires ValidItems(items, named)
    requires top == owner || named
    ensures Pass(ItemTokens(items, [Close(named)] + k), base + [top], c)
         == Pass(k, base, Step(Close(named), None, WalkItems(items, owner, c)))
    decreases items, 0
  {
    var close := [Close(named)] + k;
    match items
    case Done => PassClose(named, k, base, top, c);
    case Next(lead, name, value, trail, rest) =>
      var inner := NameOwner(name, top);
      var c' := WalkItem(lead, name, value, trail, owner, c);
      PassItem(lead, name, value, trail,
               if rest.Done? then close else [Plain(COMMA)] + ItemTokens(rest, close), base, top, c);
      if rest.Done? {
        PassClose(named, k, base, inner, c');
      } else {
        PassToken(Plain(COMMA), ItemTokens(rest, close), base + [inner], None, c');
        PassItems(rest, named, k, base, inner, owner, Step(Plain(COMMA), None, c'));
      }
  }

  lemma {:induction false} PassItem(lead: bytes, name: Option<Name>, value: Value, trail: bytes, k: seq<Token>,
                                    base: seq<Option<bytes>>, top: Option<bytes>, c: Cursor)
    requires ValidValue(value)
    ensures Pass(PlainTokens(lead, NameTokens(name, ValueTokens(value, PlainTokens(trail, k)))), base + [top], c)
         == Pass(k, base + [NameOwner(name, top)], WalkItem(lead, name, value, trail, top, c))
    decreases value, 1
  {
    var k1 := PlainTokens(trail, k);
    var k2 := ValueTokens(value, k1);
    var inner := NameOwner(name, top);
    var c1 := WalkName(name, Skip(lead, c));
    PassPlain(lead, NameTokens(name, k2), base + [top], c);
    PassName(name, k2, base, top, Skip(lead, c));
    PassValue(value, k1, base + [inner], c1);
    PassPlain(trail, k, base + [inner], WalkValue(value, inner, c1));
  }

  lemma PassClose(named: bool, k: seq<Token>, base: seq<Option<bytes>>, top: Option<bytes>, c: Cursor)
    ensures Pass([Close(named)] + k, base + [top], c) == Pass(k, base, Step(Close(named), None, c))
  {
    PassToken(Close(named), k, base + [top], None, c);
    assert Pop(base + [top]) == base;
  }

  lemma PassName(name: Option<Name>, k: seq<Token>, base: seq<Option<bytes>>, top: Option<bytes>, c: Cursor)
    ensures Pass(NameTokens(name, k), base + [top], c)
         == Pass(k, base + [NameOwner(name, top)], WalkName(name, c))
  {
    if name.Some? {
      var n := name.value;
      var inner := Some(SpellPieces(n.key));
      var k1 := PlainTokens(n.after, k);
      var c1 := Step(Key(n.key), None, c);
      var c2 := Skip(n.before, c1);
      PassToken(Key(n.key), PlainTokens(n.before, [Plain(COLON)] + k1), base + [top], None, c);
      assert SetTop(base + [top], inner) == base + [inner];
      PassPlain(n.before, [Plain(COLON)] + k1, base + [inner], c1);
      PassToken(Plain(COLON), k1, base + [inner], None, c2);
      PassPlain(n.after, k, base + [inner], Step(Plain(COLON), None, c2));
    }
  }

  lemma PassDoc(d: Doc)
    requires ValidDoc(d)
    ensures Pass(DocTokens(d), [], Cursor(0, [])) == WalkDoc(d)
  {
    var k := PlainTokens(d.trail, []);
    var c := Skip(d.lead, Cursor(0, []));
    PassPlain(d.lead, ValueTokens(d.value, k), [], Cursor(0, []));
    PassValue(d.value, k, [], c);
    PassPlain(d.trail, [], [], WalkValue(d.value, None, c));
  }

  // ── The scanner ────────────────────────────────────────────────────────

  lemma SpellHead(ts: seq<Token>)
    requires ts != [] && Lexed(ts)
    ensures Spell(ts) == SpellToken(ts[0]) + Spell(ts[1..])
    ensures |SpellToken(ts[0])| > 0
    ensures Spell(ts)[0] == SpellToken(ts[0])[0]
  {
  }

  /** Whether the first non-whitespace byte from `from` on is a colon. */
  method FollowedByColon(c: bytes, from: nat) returns (colon: bool)
    requires from <= |c|
    ensures colon == ColonNext(c[from..])
  {
    var j := from;
    while j < |c| && IsAsciiSpace(c[j])
      invariant from <= j <= |c|
      invariant ColonNext(c[from..]) == ColonNext(c[j..])
    {
      assert c[j..][1..] == c[j + 1..];
      j := j + 1;
    }
    colon := j < |c| && c[j] == COLON;
  }

  /** Scans a string's interior from `start`, collecting its escapes. */
  method ScanString(c: bytes, start: nat, ghost body: seq<Piece>, ghost after: bytes)
    returns (i: nat, escapes: seq<Span>)
    requires start <= |c| && ValidPieces(body)
    requires c[start..] == SpellPieces(body) + [QUOTE] + after
    ensures i == start + |SpellPieces(body)| < |c|
    ensures escapes == Escapes(body, start)
    ensures c[i + 1..] == after
  {
    i := start;
    escapes := [];
    ghost var left := body;
    InteriorHead(c, i, left, after);
    while c[i] != QUOTE
      invariant start <= i < |c| && ValidPieces(left) && (c[i] == QUOTE <==> left == [])
      invariant c[i..] == SpellPieces(left) + [QUOTE] + after
      invariant i + |SpellPieces(left)| == start + |SpellPieces(body)|
      invariant escapes + Escapes(left, i) == Escapes(body, start)
      decreases |c| - i
    {
      PieceAhead(c, i, left, after);
      EscapesAhead(escapes, left, i);
      if c[i] == BACKSLASH {
        var len := if c[i + 1] == LETTER_U then 6 else 2;
        escapes := escapes + [Span(i, i + len)];
        i := i + len;
      } else {
        i := i + 1;
      }
      left := left[1..];
      InteriorHead(c, i, left, after);
    }
    DropAgain(c, i, 1);
  }

  lemma InteriorHead(c: bytes, i: nat, left: seq<Piece>, after: bytes)
    requires i <= |c| && ValidPieces(left)
    requires c[i..] == SpellPieces(left) + [QUOTE] + after
    ensures i < |c| && (c[i] == QUOTE <==> left == [])
  {
    assert c[i] == c[i..][0];
    if left != [] {
      assert c[i..] == SpellPiece(left[0]) + (SpellPieces(left[1..]) + [QUOTE] + after);
    }
  }

  /** What the next bytes of a string's interior tell about its next piece. */
  lemma PieceAhead(c: bytes, i: nat, left: seq<Piece>, after: bytes)
    requires i <= |c| && left != [] && ValidPieces(left)
    requires c[i..] == SpellPieces(left) + [QUOTE] + after
    ensures
      var w := |SpellPiece(left[0])|;
      && i + w < |c|
      && c[i + w..] == SpellPieces(left[1..]) + [QUOTE] + after
      && |SpellPieces(left)| == w + |SpellPieces(left[1..])|
      && (c[i] == BACKSLASH <==> !left[0].Raw?)
      && w == if c[i] != BACKSLASH then 1 else if c[i + 1] == LETTER_U then 6 else 2
  {
    var head, rest := SpellPiece(left[0]), SpellPieces(left[1..]) + [QUOTE] + after;
    AssocThree(head, SpellPieces(left[1..]), [QUOTE], after);
    HeadAhead(c, i, head, rest);
  }

  lemma AssocThree(a: bytes, b: bytes, c: bytes, d: bytes)
    ensures a + b + c + d == a + (b + c + d)
  {
  }

  lemma HeadAhead(c: bytes, i: nat, head: bytes, rest: bytes)
    requires i <= |c| && c[i..] == head + rest
    ensures i + |head| <= |c| && c[i + |head|..] == rest && |c| == i + |head| + |rest|
    ensures forall k | 0 <= k < |head| :: c[i + k] == head[k]
  {
    DropAgain(c, i, |head|);
    TakeDrop(head, rest);
    forall k | 0 <= k < |head| ensures c[i + k] == head[k] {
      assert c[i + k] == c[i..][k];
    }
  }

  lemma EscapesAhead(sofar: seq<Span>, left: seq<Piece>, at: nat)
    requires left != []
    ensures
      var w := |SpellPiece(left[0])|;
      sofar + Escapes(left, at)
      == (if left[0].Raw? then sofar else sofar + [Span(at, at + w)]) + Escapes(left[1..], at + w)
  {
  }

  method ScanNumber(c: bytes, start: nat, ghost text: bytes, ghost after: bytes) returns (i: nat)
    requires start <= |c| && c[start..] == text + after
    requires forall k | 0 <= k < |text| :: IsNumeric(text[k])
    requires after == [] || !IsNumeric(after[0])
    ensures i == start + |text| && c[i..] == after
  {
    i := start;
    while i < |c| && IsNumeric(c[i])
      invariant start <= i <= start + |text| <= |c|
    {
      assert c[i] == c[start..][i - start];
      i := i + 1;
    }
    assert c[i..] == c[start..][i - start..];
  }

  lemma LiteralInterior(c: bytes, at: nat, body: bytes, after: bytes)
    requires at <= |c| && c[at..] == [QUOTE] + body + [QUOTE] + after
    ensures at < |c| && c[at + 1..] == body + [QUOTE] + after
    ensures at + 1 + |body| <= |c| && c[at + 1..at + 1 + |body|] == body
  {
    var quoted := body + [QUOTE] + after;
    assert c[at..] == [QUOTE] + quoted;
    assert c[at + 1..] == c[at..][1..] == quoted;
    assert c[at + 1..at + 1 + |body|] == quoted[..|body|];
  }

  /** One string literal from its opening quote on: a key replaces the top owner, a value reads it. */
  method ScanLiteral(c: bytes, at: nat, owners: seq<Option<bytes>>, ghost t: Token, ghost after: bytes)
    returns (i: nat, lit: StrLit, escapes: seq<Span>, owners': seq<Option<bytes>>)
    requires (t.Key? || t.Str?) && ValidToken(t) && MayFollow(t, after)
    requires at <= |c| && c[at..] == SpellToken(t) + after
    ensures i == at + |SpellToken(t)| <= |c| && c[i..] == after
    ensures lit == StrLit(Span(at + 1, at + 1 + |SpellPieces(t.body)|), t.Key?, if t.Key? then None else Top(owners))
    ensures escapes == Escapes(t.body, at + 1)
    ensures owners' == OwnersAfter(t, owners)
  {
    var start := at + 1;
    LiteralInterior(c, at, SpellPieces(t.body), after);
    var end;
    end, escapes := ScanString(c, start, t.body, after);
    i := end + 1;
    var isKey := FollowedByColon(c, i);
    var owner := None;
    owners' := owners;
    if isKey {
      owners' := SetTop(owners, Some(c[start..end]));
    } else {
      owner := Top(owners);
    }
    lit := StrLit(Span(start, end), isKey, owner);
  }

  /** One arm of the scanner's `match`: consumes the token `t` that starts at `at`. */
  method ScanToken(c: bytes, at: nat, owners: seq<Option<bytes>>, out: Layout, ghost t: Token, ghost after: bytes)
    returns (i: nat, owners': seq<Option<bytes>>, out': Layout)
    requires ValidToken(t) && MayFollow(t, after)
    requires at < |c| && c[at..] == SpellToken(t) + after
    ensures i == at + |SpellToken(t)| <= |c| && c[i..] == after
    ensures owners' == OwnersAfter(t, owners)
    ensures out' == AddMark(out, Mark(t, at, if t.Str? then Top(owners) else None))
  {
    owners', out' := owners, out;
    var b := c[at];
    assert b == c[at..][0] == SpellToken(t)[0];
    TokenByte(t, owners);
    if b == QUOTE {
      var lit, escapes;
      i, lit, escapes, owners' := ScanLiteral(c, at, owners, t, after);
      out' := Layout(out.strings + [lit], out.numbers, out.escapes + escapes);
      LiteralMark(out, t, at, Top(owners));
    } else if StartsNumber(b) {
      i := ScanNumber(c, at, t.text, after);
      out' := out.(numbers := out.numbers + [Span(at, i)]);
    } else {
      if b == LBRACE {
        owners' := owners + [None];
      } else if b == LBRACKET {
        owners' := owners + [Top(owners)];
      } else if b == RBRACE || b == RBRACKET {
        owners' := Pop(owners);
      }
      i := at + 1;
      HeadAhead(c, at, SpellToken(t), after);
    }
  }

  lemma LiteralMark(out: Layout, t: Token, at: nat, owner: Option<bytes>)
    requires t.Key? || t.Str?
    ensures
      var lit := StrLit(Span(at + 1, at + 1 + |SpellPieces(t.body)|), t.Key?, if t.Key? then None else owner);
      AddMark(out, Mark(t, at, if t.Str? then owner else None))
      == Layout(out.strings + [lit], out.numbers, out.escapes + Escapes(t.body, at + 1))
  {
  }

  /** What a token's first byte tells about it. */
  lemma TokenByte(t: Token, owners: seq<Option<bytes>>)
    requires ValidToken(t) && SpellToken(t) != []
    ensures
      var b := SpellToken(t)[0];
      && (b == QUOTE <==> t.Key? || t.Str?)
      && (b != QUOTE ==> (StartsNumber(b) <==> t.Num?))
      && (b != QUOTE && !StartsNumber(b) ==>
            && |SpellToken(t)| == 1
            && OwnersAfter(t, owners)
               == if b == LBRACE then owners + [None] else if b == LBRACKET then owners + [Top(owners)]
                  else if b == RBRACE || b == RBRACKET then Pop(owners) else owners)
  {
  }

  lemma StepLayout(t: Token, owner: Option<bytes>, c: Cursor)
    ensures LayoutOf(Step(t, owner, c).marks)
         == AddMark(LayoutOf(c.marks), Mark(t, c.at, if t.Str? then owner else None))
  {
    var ms := Step(t, owner, c).marks;
    if |ms| > |c.marks| {
      assert ms[..|ms| - 1] == c.marks;
    }
  }

  /**
   The layout of `content`, or nothing when the JSON parser rejects it.
   `parses` is that parser's verdict and `doc` a tree it stands for: whatever
   tree `content` renders, the flat scan returns that tree's layout.
   */
  method Scan(content: bytes, parses: bool, ghost doc: Doc) returns (out: Option<Layout>)
    requires parses ==> ValidDoc(doc) && content == Render(doc)
    ensures out == if parses then Some(DocLayout(doc)) else None
  {
    if !parses {
      return None;
    }
    var layout, owners: seq<Option<bytes>>, i := EMPTY, [], 0;
    ghost var ts, marks := DocTokens(doc), [];
    LexedDoc(doc);
    PassDoc(doc);
    while i < |content|
      invariant 0 <= i <= |content|
      invariant Lexed(ts) && content[i..] == Spell(ts)
      invariant Pass(ts, owners, Cursor(i, marks)) == WalkDoc(doc)
      invariant LayoutOf(marks) == layout
      decreases |content| - i
    {
      ghost var c, owner := Cursor(i, marks), Top(owners);
      SpellHead(ts);
      i, owners, layout := ScanToken(content, i, owners, layout, ts[0], Spell(ts[1..]));
      StepLayout(ts[0], owner, c);
      assert Step(ts[0], owner, c) == Cursor(i, Step(ts[0], owner, c).marks);
      ts, marks := ts[1..], Step(ts[0], owner, c).marks;
    }
    assert ts == [] by {
      if ts != [] {
        SpellHead(ts);
      }
    }
    out := Some(layout);
  }
}
