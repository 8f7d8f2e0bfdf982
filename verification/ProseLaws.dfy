/**
 Which values of a document the contextual detector may see and touch, said over
 the tree: those under no key, and those whose nearest key carries prose.
 */
module ProseLaws {
  import opened Bytes
  import opened Json
  import opened JsonDecode
  import opened JsonLayout
  import opened JoinedSpans
  import opened TokenPlaces
  import opened Splice
  import opened RedactTokens
  import opened Redaction
  import opened Enforce
  import opened Presidio
  import opened DetectorLaws
  import opened Utf8
  import ValueLaws

  // ── Where the string values of a tree are, and under which keys ────────

  function NameSize(name: Option<Name>): nat {
    if name.None? then 0
    else |SpellPieces(name.value.key)| + 2 + |name.value.before| + 1 + |name.value.after|
  }

  function ValueSize(v: Value): nat {
    match v
    case Word(text) => |text|
    case Number(text) => |text|
    case Text(body) => |SpellPieces(body)| + 2
    case Group(_, gap, items) => 1 + |gap| + ItemsSize(items) + 1
  }

  function ItemsSize(items: Items): nat {
    match items
    case Done => 0
    case Next(lead, name, value, trail, rest) =>
      |lead| + NameSize(name) + ValueSize(value) + |trail| + if rest.Done? then 0 else 1 + ItemsSize(rest)
  }

  /**
   A value that starts at byte `at` has the string `body` at byte `p`, inside the
   members with these keys, outermost first.
   */
  predicate Lies(v: Value, at: nat, body: seq<Piece>, p: nat, keys: seq<bytes>)
    decreases v, 0
  {
    match v
    case Text(b) => b == body && at == p && keys == []
    case Group(_, gap, items) => LiesIn(items, at + 1 + |gap|, body, p, keys)
    case _ => false
  }

  predicate LiesIn(items: Items, at: nat, body: seq<Piece>, p: nat, keys: seq<bytes>)
    decreases items, 0
  {
    match items
    case Done => false
    case Next(lead, name, value, trail, rest) =>
      var from := at + |lead| + NameSize(name);
      || LiesUnder(name, value, from, body, p, keys)
      || LiesIn(rest, from + ValueSize(value) + |trail| + 1, body, p, keys)
  }

  predicate LiesUnder(name: Option<Name>, value: Value, at: nat, body: seq<Piece>, p: nat, keys: seq<bytes>)
    decreases value, 1
  {
    if name.None? then Lies(value, at, body, p, keys)
    else keys != [] && keys[0] == SpellPieces(name.value.key) && Lies(value, at, body, p, keys[1..])
  }

  predicate InDoc(d: Doc, body: seq<Piece>, p: nat, keys: seq<bytes>) {
    Lies(d.value, |d.lead|, body, p, keys)
  }

  // ── What the walk marks is what lies there ─────────────────────────────

  lemma {:induction false} WalkEnds(v: Value, owner: Option<bytes>, c: Cursor)
    ensures WalkValue(v, owner, c).at == c.at + ValueSize(v)
    decreases v, 0
  {
    match v
    case Word(_) =>
    case Number(_) =>
    case Text(_) =>
    case Group(named, gap, items) =>
      WalkItemsEnd(items, if named then None else owner, Skip(gap, Step(Open(named), None, c)));
  }

  lemma {:induction false} WalkItemsEnd(items: Items, owner: Option<bytes>, c: Cursor)
    ensures WalkItems(items, owner, c).at == c.at + ItemsSize(items)
    decreases items, 0
  {
    match items
    case Done =>
    case Next(lead, name, value, trail, rest) =>
      var c' := WalkItem(lead, name, value, trail, owner, c);
      WalkEnds(value, NameOwner(name, owner), WalkName(name, Skip(lead, c)));
      if !rest.Done? {
        WalkItemsEnd(rest, owner, Step(Plain(COMMA), None, c'));
      }
  }

  /** The innermost key, if any. */
  function Nearest(keys: seq<bytes>, outer: Option<bytes>): Option<bytes> {
    if keys == [] then outer else Some(keys[|keys| - 1])
  }

  ghost predicate Owns(v: Value, at: nat, outer: Option<bytes>, m: Mark)
    requires m.token.Str?
  {
    exists keys :: Lies(v, at, m.token.body, m.at, keys) && m.owner == Nearest(keys, outer)
  }

  ghost predicate OwnsIn(items: Items, at: nat, outer: Option<bytes>, m: Mark)
    requires m.token.Str?
  {
    exists keys :: LiesIn(items, at, m.token.body, m.at, keys) && m.owner == Nearest(keys, outer)
  }

  ghost predicate OwnsUnder(name: Option<Name>, value: Value, at: nat, outer: Option<bytes>, m: Mark)
    requires m.token.Str?
  {
    exists keys :: LiesUnder(name, value, at, m.token.body, m.at, keys) && m.owner == Nearest(keys, outer)
  }

  /** A member's key is nearer to what is inside it than any key outside. */
  lemma UnderName(name: Option<Name>, value: Value, at: nat, outer: Option<bytes>, m: Mark)
    requires m.token.Str?
    ensures OwnsUnder(name, value, at, outer, m) <==> Owns(value, at, NameOwner(name, outer), m)
  {
    if name.Some? {
      var key := SpellPieces(name.value.key);
      if keys :| LiesUnder(name, value, at, m.token.body, m.at, keys) && m.owner == Nearest(keys, outer) {
        assert Lies(value, at, m.token.body, m.at, keys[1..]) && m.owner == Nearest(keys[1..], Some(key));
      }
      if keys :| Lies(value, at, m.token.body, m.at, keys) && m.owner == Nearest(keys, Some(key)) {
        ConsTail(key, keys);
        assert LiesUnder(name, value, at, m.token.body, m.at, [key] + keys) && m.owner == Nearest([key] + keys, outer);
      }
    } else {
      if keys :| LiesUnder(name, value, at, m.token.body, m.at, keys) && m.owner == Nearest(keys, outer) {
        assert Lies(value, at, m.token.body, m.at, keys);
      }
      if keys :| Lies(value, at, m.token.body, m.at, keys) && m.owner == Nearest(keys, outer) {
        assert LiesUnder(name, value, at, m.token.body, m.at, keys);
      }
    }
  }

  lemma OwnsItem(lead: bytes, name: Option<Name>, value: Value, trail: bytes, rest: Items, at: nat, from: nat, next: nat,
                 outer: Option<bytes>, m: Mark)
    requires m.token.Str? && from == at + |lead| + NameSize(name) && next == from + ValueSize(value) + |trail| + 1
    ensures OwnsIn(Next(lead, name, value, trail, rest), at, outer, m)
       <==> OwnsUnder(name, value, from, outer, m) || OwnsIn(rest, next, outer, m)
  {
    var items := Next(lead, name, value, trail, rest);
    if keys :| LiesUnder(name, value, from, m.token.body, m.at, keys) && m.owner == Nearest(keys, outer) {
      assert LiesIn(items, at, m.token.body, m.at, keys);
    }
    if keys :| LiesIn(rest, next, m.token.body, m.at, keys) && m.owner == Nearest(keys, outer) {
      assert LiesIn(items, at, m.token.body, m.at, keys);
    }
  }

  /** In an object every item has its own key, so what is outside does not matter. */
  lemma {:induction false} OuterUnused(items: Items, at: nat, outer: Option<bytes>, outer': Option<bytes>, m: Mark)
    requires m.token.Str? && ValidItems(items, true) && OwnsIn(items, at, outer, m)
    ensures OwnsIn(items, at, outer', m)
  {
    var keys :| LiesIn(items, at, m.token.body, m.at, keys) && m.owner == Nearest(keys, outer);
    KeysNonEmpty(items, at, m.token.body, m.at, keys);
    assert m.owner == Nearest(keys, outer');
  }

  lemma {:induction false} KeysNonEmpty(items: Items, at: nat, body: seq<Piece>, p: nat, keys: seq<bytes>)
    requires ValidItems(items, true) && LiesIn(items, at, body, p, keys)
    ensures keys != []
  {
    var from := at + |items.lead| + NameSize(items.name);
    if !LiesUnder(items.name, items.value, from, body, p, keys) {
      KeysNonEmpty(items.rest, from + ValueSize(items.value) + |items.trail| + 1, body, p, keys);
    }
  }

  /** The walk marks exactly the strings that lie in the value, each with its nearest key. */
  lemma {:induction false} WalkOwns(v: Value, owner: Option<bytes>, c: Cursor, m: Mark)
    requires ValidValue(v) && m.token.Str?
    ensures m in WalkValue(v, owner, c).marks <==> m in c.marks || Owns(v, c.at, owner, m)
    decreases v, 0
  {
    match v
    case Word(_) =>
    case Number(_) =>
    case Text(body) =>
      assert Nearest([], owner) == owner;
      assert Lies(v, c.at, body, c.at, []);
    case Group(named, gap, items) =>
      var inner, c' := if named then None else owner, Skip(gap, Step(Open(named), None, c));
      WalkItemsOwn(items, named, inner, c', m);
      GroupOwns(named, gap, items, c.at, c'.at, owner, inner, m);
  }

  lemma GroupOwns(named: bool, gap: bytes, items: Items, at: nat, at': nat, owner: Option<bytes>, inner: Option<bytes>, m: Mark)
    requires m.token.Str? && ValidItems(items, named) && at' == at + 1 + |gap| && inner == if named then None else owner
    ensures Owns(Group(named, gap, items), at, owner, m) <==> OwnsIn(items, at', inner, m)
  {
    var v := Group(named, gap, items);
    if keys :| Lies(v, at, m.token.body, m.at, keys) && m.owner == Nearest(keys, owner) {
      assert LiesIn(items, at', m.token.body, m.at, keys);
      assert OwnsIn(items, at', owner, m);
      if named {
        OuterUnused(items, at', owner, inner, m);
      }
    }
    if OwnsIn(items, at', inner, m) {
      if named {
        OuterUnused(items, at', inner, owner, m);
      }
      var keys :| LiesIn(items, at', m.token.body, m.at, keys) && m.owner == Nearest(keys, owner);
      assert Lies(v, at, m.token.body, m.at, keys);
    }
  }

  lemma {:induction false} WalkItemsOwn(items: Items, named: bool, owner: Option<bytes>, c: Cursor, m: Mark)
    requires ValidItems(items, named) && m.token.Str?
    ensures m in WalkItems(items, owner, c).marks <==> m in c.marks || OwnsIn(items, c.at, owner, m)
    decreases items, 0
  {
    match items
    case Done =>
    case Next(lead, name, value, trail, rest) =>
      var c1 := WalkName(name, Skip(lead, c));
      var c' := WalkItem(lead, name, value, trail, owner, c);
      NameMarks(name, Skip(lead, c), m);
      WalkOwns(value, NameOwner(name, owner), c1, m);
      WalkEnds(value, NameOwner(name, owner), c1);
      UnderName(name, value, c1.at, owner, m);
      OwnsItem(lead, name, value, trail, rest, c.at, c1.at, c'.at + 1, owner, m);
      if !rest.Done? {
        WalkItemsOwn(rest, named, owner, Step(Plain(COMMA), None, c'), m);
      }
  }

  lemma NameMarks(name: Option<Name>, c: Cursor, m: Mark)
    requires m.token.Str?
    ensures m in WalkName(name, c).marks <==> m in c.marks
    ensures WalkName(name, c).at == c.at + NameSize(name)
  {
  }

  /** The marks of a document are its strings with their nearest keys. */
  lemma DocOwns(d: Doc, m: Mark)
    requires ValidDoc(d) && m.token.Str?
    ensures m in WalkDoc(d).marks <==> Owns(d.value, |d.lead|, None, m)
  {
    WalkOwns(d.value, None, Skip(d.lead, Cursor(0, [])), m);
  }

  // ── The keys that carry prose ──────────────────────────────────────────

  predicate Spells(key: bytes, name: string) {
    |key| == |name| && forall i | 0 <= i < |key| :: key[i] == name[i] as int
  }

  predicate CarriesProse(key: bytes) {
    || Spells(key, "body") || Spells(key, "content") || Spells(key, "text") || Spells(key, "system")
    || Spells(key, "instructions") || Spells(key, "prompt") || Spells(key, "input") || Spells(key, "arguments")
  }

  lemma {:induction false} AsciiSpells(key: bytes, name: string)
    requires forall i | 0 <= i < |name| :: name[i] as int < 128
    ensures key == AsciiBytes(name) <==> Spells(key, name)
  {
    if name != "" && key != [] {
      AsciiSpells(key[1..], name[1..]);
      ConsTail(name[0] as int, AsciiBytes(name[1..]));
      assert key == [key[0]] + key[1..];
      if Spells(key[1..], name[1..]) && key[0] == name[0] as int {
        forall i | 0 <= i < |key| ensures key[i] == name[i] as int {
          if i > 0 {
            assert key[i] == key[1..][i - 1] && name[i] == name[1..][i - 1];
          }
        }
      }
    }
  }

  lemma KeyIs(key: bytes, i: nat)
    requires i < |PROSE_KEYS|
    ensures key == AsciiBytes(PROSE_KEYS[i]) <==> Spells(key, PROSE_KEYS[i])
  {
    AsciiSpells(key, PROSE_KEYS[i]);
  }

  lemma OneOfEight(key: bytes)
    ensures (exists i | 0 <= i < |PROSE_KEYS| :: Spells(key, PROSE_KEYS[i])) <==> CarriesProse(key)
  {
    var ks := PROSE_KEYS;
    assert ks[0] == "body" && ks[1] == "content" && ks[2] == "text" && ks[3] == "system";
    assert ks[4] == "instructions" && ks[5] == "prompt" && ks[6] == "input" && ks[7] == "arguments";
  }

  /** The table is these eight keys. */
  lemma ProseKeyExact(key: bytes)
    ensures IsProseKey(key) <==> CarriesProse(key)
  {
    OneOfEight(key);
    if i :| 0 <= i < |PROSE_KEYS| && key == AsciiBytes(PROSE_KEYS[i]) {
      KeyIs(key, i);
    }
    if i :| 0 <= i < |PROSE_KEYS| && Spells(key, PROSE_KEYS[i]) {
      KeyIs(key, i);
    }
  }

  /** A string of the document under no key, or whose nearest key carries prose. */
  ghost predicate ProseAtTree(d: Doc, body: seq<Piece>, p: nat) {
    exists keys :: InDoc(d, body, p, keys) && (keys == [] || CarriesProse(keys[|keys| - 1]))
  }

  // ── Marks are in order, so a place has one ─────────────────────────────

  ghost predicate Rising(ms: seq<Mark>, end: nat) {
    (forall i | 0 <= i < |ms| :: ms[i].at < end) && forall i, j | 0 <= i < j < |ms| :: ms[i].at < ms[j].at
  }

  lemma {:induction false} PassRises(ts: seq<Token>, owners: seq<Option<bytes>>, c: Cursor)
    requires Lexed(ts) && Rising(c.marks, c.at)
    ensures Rising(Pass(ts, owners, c).marks, Pass(ts, owners, c).at)
  {
    if ts != [] {
      SpellHead(ts);
      PassRises(ts[1..], OwnersAfter(ts[0], owners), Step(ts[0], Top(owners), c));
    }
  }

  lemma DocRises(d: Doc)
    requires ValidDoc(d)
    ensures Rising(WalkDoc(d).marks, WalkDoc(d).at)
  {
    LexedDoc(d);
    PassDoc(d);
    PassRises(DocTokens(d), [], Cursor(0, []));
  }

  /** The mark behind a literal of the layout. */
  lemma LiteralMark(d: Doc, strings: seq<StrLit>, n: nat, at: Place) returns (m: Mark)
    requires ValidDoc(d) && strings == DocLayout(d).strings && n < |strings| && IsLiteral(DocTokens(d), strings[n], at)
    ensures m in WalkDoc(d).marks && m.token == at.token && m.at == at.at && m.owner == strings[n].owner
  {
    LexedDoc(d);
    PassDoc(d);
    m := StringMark(WalkDoc(d).marks, n);
    MarkPlace(DocTokens(d), [], Cursor(0, []), m);
    SamePlace(DocTokens(d), m.token, m.at, at.token, at.at, strings[n].raw.start);
  }

  /** A literal is prose exactly when it is, in the tree, a string under no key or under one that carries prose. */
  lemma ProseExact(d: Doc, strings: seq<StrLit>, n: nat, at: Place)
    requires ValidDoc(d) && strings == DocLayout(d).strings && n < |strings| && IsLiteral(DocTokens(d), strings[n], at)
    ensures IsProse(strings[n]) <==> at.token.Str? && ProseAtTree(d, at.token.body, at.at)
  {
    var m := LiteralMark(d, strings, n, at);
    if at.token.Str? {
      OwnerProse(d, m);
    }
  }

  /** A place has one mark. */
  lemma SameMark(d: Doc, m: Mark, m': Mark)
    requires ValidDoc(d) && m in WalkDoc(d).marks && m' in WalkDoc(d).marks && m.at == m'.at
    ensures m == m'
  {
    DocRises(d);
  }

  lemma OwnerProse(d: Doc, m: Mark)
    requires ValidDoc(d) && m in WalkDoc(d).marks && m.token.Str?
    ensures m.owner.None? || IsProseKey(m.owner.value) <==> ProseAtTree(d, m.token.body, m.at)
  {
    DocOwns(d, m);
    var keys :| InDoc(d, m.token.body, m.at, keys) && m.owner == Nearest(keys, None);
    if keys != [] {
      ProseKeyExact(keys[|keys| - 1]);
    }
    if keys' :| InDoc(d, m.token.body, m.at, keys') && (keys' == [] || CarriesProse(keys'[|keys'| - 1])) {
      var m' := m.(owner := Nearest(keys', None));
      DocOwns(d, m');
      SameMark(d, m, m');
    }
  }

  // ── What the detector sees ─────────────────────────────────────────────

  /** The prose values `vs` the detector takes from the document, none of which fails to decode. */
  ghost predicate Detects(checked: bool, d: Doc, strings: seq<StrLit>, places: seq<Place>, vs: seq<Prose>) {
    && ValidDoc(d) && strings == DocLayout(d).strings && ProseOf(checked, DocTokens(d), strings, places, vs) && AllValid(vs)
  }

  lemma {:induction false} WhichLiteral(checked: bool, strings: seq<StrLit>, places: seq<Place>, n: nat, i: nat) returns (l: nat)
    requires n <= |strings| == |places| && AllHaveBodies(places)
    requires ProseValues(checked, strings, places, n).Got? && i < |ProseValues(checked, strings, places, n).value|
    ensures l < n && IsProse(strings[l])
    ensures
      var v := ProseValues(checked, strings, places, n).value[i];
      SeenGlyphs(checked, places[l].token.body) == Got(v.glyphs) && v.base == strings[l].raw.start
  {
    l := n - 1;
    if i < |ProseValues(checked, strings, places, n - 1).value| {
      l := WhichLiteral(checked, strings, places, n - 1, i);
    }
  }

  /** Each of them is prose of the tree. */
  lemma {:induction false} ProseOfTree(checked: bool, d: Doc, strings: seq<StrLit>, places: seq<Place>, vs: seq<Prose>, k: nat)
    returns (at: Place)
    requires Detects(checked, d, strings, places, vs) && k < |vs|
    ensures ReadsHere(DocTokens(d), at, vs[k].glyphs) && vs[k].base == at.at + 1
    ensures ProseAtTree(d, at.token.body, at.at)
  {
    var l := WhichLiteral(checked, strings, places, |places|, k);
    at := places[l];
    assert IsLiteral(DocTokens(d), strings[l], at);
    ProseExact(d, strings, l, at);
    assert HasBody(at);
    if checked {
      CheckedSame(at.token.body);
    }
  }

  /** Inside a string of the document that is prose. */
  ghost predicate OnProse(d: Doc, f: Span) {
    exists body, p: nat :: ProseAtTree(d, body, p) && p + 1 <= f.start < f.end <= p + 1 + |SpellPieces(body)|
  }

  lemma {:induction false} PartOnProse(checked: bool, d: Doc, strings: seq<StrLit>, places: seq<Place>, vs: seq<Prose>, k: nat, a: nat, b: nat)
    requires Detects(checked, d, strings, places, vs) && k < |vs| && a < b < |Ats(vs)[k]|
    ensures OnProse(d, Span(Ats(vs)[k][a], Ats(vs)[k][b]))
  {
    var at := ProseOfTree(checked, d, strings, places, vs, k);
    ProseSpan(vs, k, at, a, b);
    SpanInside(DocTokens(d), at, vs[k].glyphs, a, b);
  }

  /**
   Whatever the analyzer answers, every finding made of it lies in a string
   value under no key, or whose nearest key carries prose, is named after a hit
   the analyzer reported, and is no more than probable.
   */
  lemma {:induction false} FindingsOnProse(checked: bool, d: Doc, strings: seq<StrLit>, places: seq<Place>, vs: seq<Prose>,
                                           hits: seq<Hit>, j: nat)
    requires Detects(checked, d, strings, places, vs) && j < |AllParts(Ats(vs), hits, |hits|)|
    ensures OnProse(d, AllParts(Ats(vs), hits, |hits|)[j].span)
    ensures
      var f := AllParts(Ats(vs), hits, |hits|)[j];
      !f.certain && exists i :: 0 <= i < |hits| && f.tag == hits[i].entity
  {
    var i := FindingTag(Ats(vs), hits, |hits|, j);
    var k, a, b := FindingBetween(Ats(vs), hits, |hits|, j);
    PartOnProse(checked, d, strings, places, vs, k, a, b);
  }

  lemma {:induction false} FindingTag(ats: seq<seq<nat>>, hits: seq<Hit>, n: nat, j: nat) returns (i: nat)
    requires AllNonEmpty(ats) && n <= |hits| && j < |AllParts(ats, hits, n)|
    ensures i < n && AllParts(ats, hits, n)[j].tag == hits[i].entity && !AllParts(ats, hits, n)[j].certain
  {
    i := n - 1;
    if j < |AllParts(ats, hits, n - 1)| {
      i := FindingTag(ats, hits, n - 1, j);
    }
  }

  // ── What it leaves alone ───────────────────────────────────────────────

  /** A token no group stands in stays as it is. */
  lemma {:induction false} Untouched(ts: seq<Token>, at: nat, gs: seq<Edit>, end: nat, k: nat, p: nat)
    requires Lexed(ts) && AllFit(ts, at, gs) && Separate(gs, at, end) && k < |ts| && p == ValueLaws.TokenStart(ts, at, k)
    requires forall j | 0 <= j < |gs| :: !FitsToken(ts[k], p, gs[j])
    ensures MaskTokens(MarkerPieces, ts, at, gs)[k] == ts[k]
  {
    if gs != [] {
      var t, rest, at' := ts[0], ts[1..], at + |SpellToken(ts[0])|;
      assert ts == [t] + rest;
      if k == 0 {
        MaskFirst(MarkerPieces, t, rest, at, at', at + 1, gs);
      } else {
        LexedHead(ts);
        var s := ValueLaws.MaskRest(t, rest, at, at', gs, end);
        ValueLaws.StartStep(ts, at, at', k);
        NoneFits(rest[k - 1], p, gs, s);
        Untouched(rest, at', gs[s..], end, k - 1, p);
        assert MaskTokens(MarkerPieces, ts, at, gs)[k] == MaskTokens(MarkerPieces, ts, at, gs)[1..][k - 1];
      }
    }
  }

  lemma NoneFits(t: Token, p: nat, gs: seq<Edit>, s: nat)
    requires s <= |gs| && forall j | 0 <= j < |gs| :: !FitsToken(t, p, gs[j])
    ensures forall j | 0 <= j < |gs[s..]| :: !FitsToken(t, p, gs[s..][j])
  {
  }

  /** A group stands in no token but the one its first edit is in. */
  lemma {:induction false} OneHome(ts: seq<Token>, home: Place, k: nat, p: nat, g: Edit)
    requires Lexed(ts) && k < |ts| && p == ValueLaws.TokenStart(ts, 0, k) && FitsToken(ts[k], p, g)
    requires TokenAt(ts, 0, home.token, home.at) && home.token.Str?
    requires home.at + 1 <= g.range.start <= home.at + 1 + |SpellPieces(home.token.body)|
    ensures home == Place(ts[k], p)
  {
    ValueLaws.StartsThere(ts, 0, k);
    FitsTokenRange(ts[k], p, g);
    if ts[k].Str? {
      SamePlace(ts, home.token, home.at, ts[k], p, g.range.start);
    } else {
      ValueLaws.ValidHere(ts, k);
      TokensApart(ts, 0, home.token, home.at, ts[k], p);
    }
  }

  /** The place in the tree of a finding made by the detector, and that the finding is what is edited. */
  lemma {:induction false} EditedProse(checked: bool, d: Doc, strings: seq<StrLit>, places: seq<Place>, vs: seq<Prose>,
                                       hits: seq<Hit>, j: nat, e: Edit) returns (home: Place)
    requires Detects(checked, d, strings, places, vs) && j < |AllParts(Ats(vs), hits, |hits|)|
    requires Called(DocTokens(d), AllParts(Ats(vs), hits, |hits|)[j], e)
    ensures TokenAt(DocTokens(d), 0, home.token, home.at) && home.token.Str? && ProseAtTree(d, home.token.body, home.at)
    ensures home.at + 1 <= e.range.start <= home.at + 1 + |SpellPieces(home.token.body)|
  {
    var f := AllParts(Ats(vs), hits, |hits|)[j];
    var k, a, b := FindingBetween(Ats(vs), hits, |hits|, j);
    home := ProseOfTree(checked, d, strings, places, vs, k);
    ProseSpan(vs, k, home, a, b);
    LexedDoc(d);
    OnlyEdit(DocTokens(d), home, vs[k].glyphs, a, b, f);
    SpanInside(DocTokens(d), home, vs[k].glyphs, a, b);
  }

  lemma {:induction false} NoGroupThere(checked: bool, d: Doc, strings: seq<StrLit>, places: seq<Place>, vs: seq<Prose>,
                                        hits: seq<Hit>, g: Edit, k: nat, p: nat)
    requires Detects(checked, d, strings, places, vs) && k < |DocTokens(d)|
    requires ValueLaws.Led(DocTokens(d), AllParts(Ats(vs), hits, |hits|), g.range.start, g.tag)
    requires p == ValueLaws.TokenStart(DocTokens(d), 0, k) && FitsToken(DocTokens(d)[k], p, g)
    ensures DocTokens(d)[k].Str? && ProseAtTree(d, DocTokens(d)[k].body, p)
  {
    var ts, findings := DocTokens(d), AllParts(Ats(vs), hits, |hits|);
    var j, e :| 0 <= j < |findings| && Called(ts, findings[j], e) && e.range.start == g.range.start && e.tag == g.tag;
    var home := EditedProse(checked, d, strings, places, vs, hits, j, e);
    LexedDoc(d);
    OneHome(ts, home, k, p, g);
  }

  /**
   Redacting what the detector reports leaves every number, every key and every
   other string value as it is, byte for byte.
   */
  lemma {:induction false} OthersKept(checked: bool, d: Doc, strings: seq<StrLit>, places: seq<Place>, vs: seq<Prose>, hits: seq<Hit>,
                                      edits: seq<Edit>, owners: seq<nat>, out: Doc, k: nat, p: nat)
    requires Detects(checked, d, strings, places, vs) && IsUtf8(Render(d))
    requires ValueLaws.Yields(d, AllParts(Ats(vs), hits, |hits|), edits, owners, out)
    requires k < |DocTokens(d)| && p == ValueLaws.TokenStart(DocTokens(d), 0, k)
    requires DocTokens(d)[k].Str? ==> !ProseAtTree(d, DocTokens(d)[k].body, p)
    ensures k < |DocTokens(out)| && DocTokens(out)[k] == DocTokens(d)[k]
  {
    var ts, findings := DocTokens(d), AllParts(Ats(vs), hits, |hits|);
    LexedDoc(d);
    FindingsOnChars(checked, ts, strings, places, vs, hits);
    NeverRefused(ts, findings);
    ValueLaws.TextAnswers(d, findings, edits, owners, out);
    ValueLaws.PlanLed(ts, findings, edits, owners);
    PlanFits(ts, edits);
    var gs := Plan(Spell(ts), edits);
    forall j | 0 <= j < |gs| ensures !FitsToken(ts[k], p, gs[j]) {
      if FitsToken(ts[k], p, gs[j]) {
        NoGroupThere(checked, d, strings, places, vs, hits, gs[j], k, p);
      }
    }
    Untouched(ts, 0, gs, |Spell(ts)|, k, p);
  }

  // ── What it does not miss ──────────────────────────────────────────────

  lemma {:induction false} Included(checked: bool, strings: seq<StrLit>, places: seq<Place>, n: nat, l: nat)
    requires l < n <= |strings| == |places| && AllHaveBodies(places) && ProseValues(checked, strings, places, n).Got?
    requires IsProse(strings[l])
    ensures
      var seen := SeenGlyphs(checked, places[l].token.body);
      seen.Got? && (seen.value == [] || Prose(seen.value, strings[l].raw.start) in ProseValues(checked, strings, places, n).value)
  {
    if l < n - 1 {
      Included(checked, strings, places, n - 1, l);
    }
  }

  /** The literal of a string of the tree. */
  lemma LiteralOf(d: Doc, strings: seq<StrLit>, places: seq<Place>, body: seq<Piece>, p: nat) returns (l: nat)
    requires ValidDoc(d) && strings == DocLayout(d).strings && ListsStrings(DocTokens(d), strings, places)
    requires ProseAtTree(d, body, p)
    ensures l < |strings| && places[l] == Place(Str(body), p) && strings[l].raw.start == p + 1 && IsProse(strings[l])
  {
    var keys :| InDoc(d, body, p, keys) && (keys == [] || CarriesProse(keys[|keys| - 1]));
    var m := Mark(Str(body), p, Nearest(keys, None));
    DocOwns(d, m);
    l := MarkString(WalkDoc(d).marks, m);
    LexedDoc(d);
    PassDoc(d);
    MarkPlace(DocTokens(d), [], Cursor(0, []), m);
    assert IsLiteral(DocTokens(d), strings[l], places[l]);
    SamePlace(DocTokens(d), m.token, m.at, places[l].token, places[l].at, strings[l].raw.start);
    ProseExact(d, strings, l, places[l]);
  }

  lemma {:induction false} GotWhen(checked: bool, strings: seq<StrLit>, places: seq<Place>, n: nat)
    requires n <= |strings| == |places| && AllHaveBodies(places)
    ensures ProseValues(checked, strings, places, n).Got?
       <==> forall l | 0 <= l < n && IsProse(strings[l]) :: SeenGlyphs(checked, places[l].token.body).Got?
  {
    if n > 0 {
      GotWhen(checked, strings, places, n - 1);
    }
  }

  /** The detector gets its values exactly when every prose value of the tree decodes. */
  lemma {:induction false} DetectsWhen(checked: bool, d: Doc, strings: seq<StrLit>, places: seq<Place>)
    requires ValidDoc(d) && strings == DocLayout(d).strings && ListsStrings(DocTokens(d), strings, places) && AllHaveBodies(places)
    ensures ProseValues(checked, strings, places, |places|).Got?
       <==> forall body, p | ProseAtTree(d, body, p) && ValidPieces(body) :: SeenGlyphs(checked, body).Got?
  {
    GotWhen(checked, strings, places, |places|);
    if ProseValues(checked, strings, places, |places|).Got? {
      forall body, p | ProseAtTree(d, body, p) && ValidPieces(body) ensures SeenGlyphs(checked, body).Got? {
        var l := LiteralOf(d, strings, places, body, p);
      }
    } else {
      var l :| 0 <= l < |places| && IsProse(strings[l]) && !SeenGlyphs(checked, places[l].token.body).Got?;
      assert IsLiteral(DocTokens(d), strings[l], places[l]);
      ProseExact(d, strings, l, places[l]);
    }
  }

  lemma {:induction false} TextSize(vs: seq<Prose>, n: nat)
    requires 0 < n <= |vs| && AllValid(vs)
    ensures AllValid(vs[..n]) && |JoinText(vs[..n])| + 2 == Offset(Ats(vs), n)
  {
    TextStep(vs, n);
    assert Ats(vs)[n - 1] == vs[n - 1].At();
    if n > 1 {
      TextSize(vs, n - 1);
    }
  }

  lemma TextStep(vs: seq<Prose>, n: nat)
    requires 0 < n <= |vs| && AllValid(vs)
    ensures AllValid(vs[..n]) && AllValid(vs[..n - 1])
    ensures JoinText(vs[..n])
         == JoinText(vs[..n - 1]) + (if n == 1 then [] else SEPARATOR) + GlyphChars(vs[n - 1].glyphs)
  {
    assert vs[..n][..n - 1] == vs[..n - 1];
    JoinTextMore(vs[..n - 1], vs[n - 1], vs[..n]);
  }

  lemma {:induction false} TextOf(vs: seq<Prose>, n: nat, k: nat, j: nat, i: nat)
    requires k < n <= |vs| && AllValid(vs) && j == Offset(Ats(vs), k) + i && i < |vs[k].glyphs|
    ensures AllValid(vs[..n]) && j < |JoinText(vs[..n])| && JoinText(vs[..n])[j] == GlyphChars(vs[k].glyphs)[i]
  {
    TextStep(vs, n);
    if k < n - 1 {
      TextOf(vs, n - 1, k, j, i);
    } else if n > 1 {
      TextSize(vs, n - 1);
    }
  }

  /** The characters stand in the joined text from `off` on. */
  ghost predicate Reads(vs: seq<Prose>, off: nat, chars: seq<scalar>)
    requires AllValid(vs)
  {
    off + |chars| <= |JoinText(vs)| && JoinText(vs)[off..off + |chars|] == chars
  }

  /** A hit on any of the characters from `off` on is one finding, on the bytes of those characters at the place. */
  ghost predicate HitsReturn(vs: seq<Prose>, off: nat, at: Place, gs: seq<Glyph>)
    requires AllValid(vs)
  {
    forall a: nat, b: nat, s: nat, e: nat | a < b <= |gs| && s == off + a && e == off + b ::
      HitReturns(vs, s, e, at, gs, a, b)
  }

  ghost predicate HitReturns(vs: seq<Prose>, s: nat, e: nat, at: Place, gs: seq<Glyph>, a: nat, b: nat)
    requires AllValid(vs) && a <= b <= |gs|
  {
    Parts(Ats(vs), |vs|, s, e) == [GlyphSpan(at, gs, a, b)]
  }

  lemma {:induction false} TextReads(vs: seq<Prose>, k: nat, off: nat)
    requires AllValid(vs) && k < |vs| && off == Offset(Ats(vs), k)
    ensures Reads(vs, off, GlyphChars(vs[k].glyphs))
  {
    var text, chars := JoinText(vs), GlyphChars(vs[k].glyphs);
    assert vs[..|vs|] == vs;
    TextOf(vs, |vs|, k, off + (|chars| - 1), |chars| - 1);
    forall i: nat | i < |chars| ensures text[off + i] == chars[i] {
      TextOf(vs, |vs|, k, off + i, i);
    }
    SliceIs(text, off, chars);
  }

  lemma SliceIs<T>(s: seq<T>, off: nat, part: seq<T>)
    requires off + |part| <= |s| && forall i: nat | i < |part| :: s[off + i] == part[i]
    ensures s[off..off + |part|] == part
  {
  }

  lemma {:induction false} HitReturned(vs: seq<Prose>, k: nat, s: nat, e: nat, at: Place, a: nat, b: nat)
    requires AllValid(vs) && k < |vs| && vs[k].base == at.at + 1 && a < b <= |vs[k].glyphs|
    requires s == Offset(Ats(vs), k) + a && e == Offset(Ats(vs), k) + b
    ensures HitReturns(vs, s, e, at, vs[k].glyphs, a, b)
  {
    ProseSpan(vs, k, at, a, b);
    SpanInValue(Ats(vs), k, a, b, s, e);
  }

  /**
   Every string value that is prose and not empty has all its characters in the
   joined text, and a hit on any of them comes back as their bytes.
   */
  lemma {:induction false} ProseJoined(checked: bool, d: Doc, strings: seq<StrLit>, places: seq<Place>, vs: seq<Prose>,
                                       body: seq<Piece>, p: nat, gs: seq<Glyph>) returns (off: nat)
    requires Detects(checked, d, strings, places, vs) && ProseAtTree(d, body, p) && ValidPieces(body)
    requires SeenGlyphs(checked, body) == Got(gs) && gs != []
    ensures AllLegible(gs) && Reads(vs, off, GlyphChars(gs)) && HitsReturn(vs, off, Place(Str(body), p), gs)
  {
    var l := LiteralOf(d, strings, places, body, p);
    Included(checked, strings, places, |places|, l);
    var k :| 0 <= k < |vs| && vs[k] == Prose(gs, p + 1);
    off := Offset(Ats(vs), k);
    TextReads(vs, k, off);
    forall a: nat, b: nat, s: nat, e: nat | a < b <= |gs| && s == off + a && e == off + b
      ensures HitReturns(vs, s, e, Place(Str(body), p), gs, a, b)
    {
      HitReturned(vs, k, s, e, Place(Str(body), p), a, b);
    }
  }

  lemma {:induction false} TextPrefix(vs: seq<Prose>, n: nat, m: nat)
    requires n <= m <= |vs| && AllValid(vs)
    ensures AllValid(vs[..n]) && AllValid(vs[..m]) && JoinText(vs[..n]) <= JoinText(vs[..m])
  {
    if n < m {
      TextPrefix(vs, n, m - 1);
      TextStep(vs, m);
    }
  }

  /** Between two values is a blank line: two line feeds, so that the analyzer never reads them as one. */
  lemma {:induction false} BlankLineBetween(vs: seq<Prose>, k: nat, end: nat, next: nat)
    requires AllValid(vs) && k + 1 < |vs| && end == Limit(Ats(vs), k) && next == Offset(Ats(vs), k + 1)
    ensures next == end + 2 && next < |JoinText(vs)| && JoinText(vs)[end] == '\n' as int && JoinText(vs)[end + 1] == '\n' as int
  {
    var before := JoinText(vs[..k + 1]);
    TextSize(vs, k + 1);
    TextStep(vs, k + 2);
    TextPrefix(vs, k + 2, |vs|);
    assert vs[..|vs|] == vs;
    LineFeeds(before, GlyphChars(vs[k + 1].glyphs), JoinText(vs), end);
  }

  lemma LineFeeds(before: seq<scalar>, after: seq<scalar>, text: seq<scalar>, end: nat)
    requires end == |before| && after != [] && before + SEPARATOR + after <= text
    ensures end + 2 < |text| && text[end] == '\n' as int && text[end + 1] == '\n' as int
  {
    var all, sep := before + SEPARATOR + after, SEPARATOR;
    assert sep == ['\n' as int, '\n' as int] && |all| == end + 2 + |after|;
    assert all[end] == sep[0] && all[end + 1] == sep[1];
  }

  // ── And that it takes each once, in order ──────────────────────────────

  ghost predicate StartsRise(strings: seq<StrLit>) {
    forall i, j | 0 <= i < j < |strings| :: strings[i].raw.start < strings[j].raw.start
  }

  ghost predicate AllStartBy(strings: seq<StrLit>, end: nat) {
    forall i | 0 <= i < |strings| :: strings[i].raw.start <= end
  }

  lemma {:induction false} StringsRise(ms: seq<Mark>, end: nat)
    requires Rising(ms, end)
    ensures StartsRise(LayoutOf(ms).strings) && AllStartBy(LayoutOf(ms).strings, end)
  {
    if ms != [] {
      var front, m := ms[..|ms| - 1], ms[|ms| - 1];
      assert Rising(front, m.at);
      StringsRise(front, m.at);
      assert m.at < end;
      MarkRises(LayoutOf(front), m);
    }
  }

  lemma MarkRises(l: Layout, m: Mark)
    requires StartsRise(l.strings) && AllStartBy(l.strings, m.at)
    ensures StartsRise(AddMark(l, m).strings) && AllStartBy(AddMark(l, m).strings, m.at + 1)
  {
  }

  lemma {:induction false} ValuesRise(checked: bool, strings: seq<StrLit>, places: seq<Place>, n: nat)
    requires n <= |strings| == |places| && AllHaveBodies(places) && ProseValues(checked, strings, places, n).Got? && StartsRise(strings)
    ensures
      var vs := ProseValues(checked, strings, places, n).value;
      forall i, j | 0 <= i < j < |vs| :: vs[i].base < vs[j].base
  {
    if n > 0 {
      ValuesRise(checked, strings, places, n - 1);
      var before := ProseValues(checked, strings, places, n - 1).value;
      forall i | 0 <= i < |before| ensures before[i].base < strings[n - 1].raw.start {
        var l := WhichLiteral(checked, strings, places, n - 1, i);
      }
    }
  }

  /** The joined values are in document order, none twice. */
  lemma ProseInOrder(checked: bool, d: Doc, strings: seq<StrLit>, places: seq<Place>, vs: seq<Prose>, i: nat, j: nat)
    requires Detects(checked, d, strings, places, vs) && i < j < |vs|
    ensures vs[i].base < vs[j].base
  {
    DocRises(d);
    StringsRise(WalkDoc(d).marks, WalkDoc(d).at);
    ValuesRise(checked, strings, places, |places|);
  }
}
