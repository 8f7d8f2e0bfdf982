/**
 JSON texts as renderings of a tree with explicit whitespace (sections 2 to 7
 of RFC 8259). A tree is first flattened to tokens, and tokens are spelled as
 bytes; both steps take the continuation as an argument, so the flat scanner
 and the recursive tree meet token by token.
 */
module Json {
  import opened Bytes

  const QUOTE: byte := 0x22
  const BACKSLASH: byte := 0x5C
  const COLON: byte := 0x3A
  const COMMA: byte := 0x2C
  const LBRACE: byte := 0x7B
  const RBRACE: byte := 0x7D
  const LBRACKET: byte := 0x5B
  const RBRACKET: byte := 0x5D
  const MINUS: byte := 0x2D
  const LETTER_U: byte := 0x75

  // ── Strings: section 7 ─────────────────────────────────────────────────

  /** One unit of a string's interior. A surrogate pair is two `Unicode` pieces. */
  datatype Piece = Raw(b: byte) | Short(c: byte) | Unicode(hex: bytes)

  predicate IsHex(b: byte) {
    IsDigit(b) || 0x41 <= b <= 0x46 || 0x61 <= b <= 0x66
  }

  /** `"` `\` `/` `b` `f` `n` `r` `t` */
  predicate IsShortEscape(c: byte) {
    c == QUOTE || c == BACKSLASH || c == 0x2F || c == 0x62 || c == 0x66 || c == 0x6E || c == 0x72 || c == 0x74
  }

  predicate ValidPiece(p: Piece) {
    match p
    case Raw(b) => b >= 0x20 && b != QUOTE && b != BACKSLASH
    case Short(c) => IsShortEscape(c)
    case Unicode(hex) => |hex| == 4 && forall i | 0 <= i < 4 :: IsHex(hex[i])
  }

  predicate ValidPieces(ps: seq<Piece>) {
    forall i | 0 <= i < |ps| :: ValidPiece(ps[i])
  }

  function SpellPiece(p: Piece): bytes {
    match p
    case Raw(b) => [b]
    case Short(c) => [BACKSLASH, c]
    case Unicode(hex) => [BACKSLASH, LETTER_U] + hex
  }

  function SpellPieces(ps: seq<Piece>): bytes {
    if ps == [] then [] else SpellPiece(ps[0]) + SpellPieces(ps[1..])
  }

  lemma {:induction false} SpellPiecesJoin(a: seq<Piece>, b: seq<Piece>)
    ensures SpellPieces(a + b) == SpellPieces(a) + SpellPieces(b)
  {
    if a == [] {
      assert a + b == b;
    } else {
      SpellPiecesJoin(a[1..], b);
      JoinTail(a, b);
      Assoc(SpellPiece(a[0]), SpellPieces(a[1..]), SpellPieces(b));
    }
  }

  /** Bytes that stand for themselves in a string. */
  function RawPieces(bs: bytes): seq<Piece> {
    if bs == [] then [] else [Raw(bs[0])] + RawPieces(bs[1..])
  }

  lemma {:induction false} SpellRaw(bs: bytes)
    ensures SpellPieces(RawPieces(bs)) == bs && |RawPieces(bs)| == |bs|
    ensures forall i | 0 <= i < |bs| :: RawPieces(bs)[i] == Raw(bs[i])
  {
    if bs != [] {
      SpellRaw(bs[1..]);
      ConsTail(Raw(bs[0]), RawPieces(bs[1..]));
    }
  }

  // ── Numbers: section 6 ─────────────────────────────────────────────────

  /** The bytes `layout` keeps consuming once inside a number. */
  predicate IsNumeric(b: byte) {
    b == MINUS || b == 0x2B || b == 0x2E || b == 0x65 || b == 0x45 || IsDigit(b)
  }

  predicate StartsNumber(b: byte) {
    b == MINUS || IsDigit(b)
  }

  function LeadingDigits(t: bytes): (n: nat)
    ensures n <= |t|
    ensures forall i | 0 <= i < n :: IsDigit(t[i])
  {
    if t != [] && IsDigit(t[0]) then 1 + LeadingDigits(t[1..]) else 0
  }

  predicate IsExponent(t: bytes) {
    t == [] ||
    ((t[0] == 0x65 || t[0] == 0x45) &&
     var digits := if |t| > 1 && (t[1] == 0x2B || t[1] == MINUS) then t[2..] else t[1..];
     digits != [] && LeadingDigits(digits) == |digits|)
  }

  predicate IsFraction(t: bytes) {
    if t != [] && t[0] == 0x2E
    then var n := LeadingDigits(t[1..]); n > 0 && IsExponent(t[1 + n..])
    else IsExponent(t)
  }

  predicate IsUnsigned(t: bytes) {
    var n := LeadingDigits(t);
    n > 0 && (t[0] == 0x30 ==> n == 1) && IsFraction(t[n..])
  }

  predicate IsNumber(t: bytes) {
    if t != [] && t[0] == MINUS then IsUnsigned(t[1..]) else IsUnsigned(t)
  }

  // ── Trees ──────────────────────────────────────────────────────────────

  datatype Value =
    | Word(text: bytes)
    | Number(text: bytes)
    | Text(body: seq<Piece>)
    | Group(named: bool, gap: bytes, items: Items)  // an object when `named`, else an array

  datatype Items = Done | Next(lead: bytes, name: Option<Name>, value: Value, trail: bytes, rest: Items)

  /** An object member's key and the whitespace around its colon. */
  datatype Name = Name(key: seq<Piece>, before: bytes, after: bytes)

  /** A JSON text: one value with whitespace around it. */
  datatype Doc = Doc(lead: bytes, value: Value, trail: bytes)

  predicate IsSpace(b: byte) {
    b == 0x20 || b == 0x09 || b == 0x0A || b == 0x0D
  }

  predicate IsBlank(ws: bytes) {
    forall i | 0 <= i < |ws| :: IsSpace(ws[i])
  }

  predicate IsWord(w: bytes) {
    || w == [0x74, 0x72, 0x75, 0x65]
    || w == [0x66, 0x61, 0x6C, 0x73, 0x65]
    || w == [0x6E, 0x75, 0x6C, 0x6C]
  }

  predicate ValidValue(v: Value) {
    match v
    case Word(text) => IsWord(text)
    case Number(text) => IsNumber(text)
    case Text(body) => ValidPieces(body)
    case Group(named, gap, items) => IsBlank(gap) && ValidItems(items, named)
  }

  predicate ValidItems(items: Items, named: bool) {
    match items
    case Done => true
    case Next(lead, name, value, trail, rest) =>
      && IsBlank(lead) && IsBlank(trail)
      && name.Some? == named
      && (named ==> ValidPieces(name.value.key) && IsBlank(name.value.before) && IsBlank(name.value.after))
      && ValidValue(value)
      && ValidItems(rest, named)
  }

  predicate ValidDoc(d: Doc) {
    IsBlank(d.lead) && ValidValue(d.value) && IsBlank(d.trail)
  }

  // ── Tokens ─────────────────────────────────────────────────────────────

  /** `Plain` is a byte `layout` steps over: whitespace, separators, the letters of a word. */
  datatype Token =
    | Plain(b: byte)
    | Open(named: bool)
    | Close(named: bool)
    | Key(body: seq<Piece>)
    | Str(body: seq<Piece>)
    | Num(text: bytes)

  function SpellToken(t: Token): bytes {
    match t
    case Plain(b) => [b]
    case Open(named) => [if named then LBRACE else LBRACKET]
    case Close(named) => [if named then RBRACE else RBRACKET]
    case Key(body) => [QUOTE] + SpellPieces(body) + [QUOTE]
    case Str(body) => [QUOTE] + SpellPieces(body) + [QUOTE]
    case Num(text) => text
  }

  function Spell(ts: seq<Token>): bytes {
    if ts == [] then [] else SpellToken(ts[0]) + Spell(ts[1..])
  }

  /** The bytes of `text` as plain tokens, followed by `k`. */
  function PlainTokens(text: bytes, k: seq<Token>): seq<Token> {
    if text == [] then k else [Plain(text[0])] + PlainTokens(text[1..], k)
  }

  function ValueTokens(v: Value, k: seq<Token>): seq<Token> {
    match v
    case Word(text) => PlainTokens(text, k)
    case Number(text) => [Num(text)] + k
    case Text(body) => [Str(body)] + k
    case Group(named, gap, items) => [Open(named)] + PlainTokens(gap, ItemTokens(items, [Close(named)] + k))
  }

  /** `rest` is preceded by a comma, so only the first item of a group has none. */
  function ItemTokens(items: Items, k: seq<Token>): seq<Token> {
    match items
    case Done => k
    case Next(lead, name, value, trail, rest) =>
      PlainTokens(lead, NameTokens(name, ValueTokens(value, PlainTokens(trail,
        if rest.Done? then k else [Plain(COMMA)] + ItemTokens(rest, k)))))
  }

  function NameTokens(name: Option<Name>, k: seq<Token>): seq<Token> {
    match name
    case None => k
    case Some(n) => [Key(n.key)] + PlainTokens(n.before, [Plain(COLON)] + PlainTokens(n.after, k))
  }

  function DocTokens(d: Doc): seq<Token> {
    PlainTokens(d.lead, ValueTokens(d.value, PlainTokens(d.trail, [])))
  }

  function Render(d: Doc): bytes {
    Spell(DocTokens(d))
  }

  // ── What the scanner relies on ─────────────────────────────────────────

  predicate ValidToken(t: Token) {
    match t
    case Plain(b) =>
      b != LBRACE && b != RBRACE && b != LBRACKET && b != RBRACKET && b != QUOTE && !StartsNumber(b)
    case Open(_) => true
    case Close(_) => true
    case Key(body) => ValidPieces(body)
    case Str(body) => ValidPieces(body)
    case Num(text) => text != [] && StartsNumber(text[0]) && forall i | 0 <= i < |text| :: IsNumeric(text[i])
  }

  /** Rust's `is_ascii_whitespace`, which also counts form feed. */
  predicate IsAsciiSpace(b: byte) {
    IsSpace(b) || b == 0x0C
  }

  /** The next byte that is not whitespace is a colon. */
  predicate ColonNext(c: bytes) {
    c != [] && if IsAsciiSpace(c[0]) then ColonNext(c[1..]) else c[0] == COLON
  }

  /** What may follow a token in a well-formed text. */
  predicate MayFollow(t: Token, c: bytes) {
    match t
    case Num(_) => c == [] || !IsNumeric(c[0])
    case Key(_) => ColonNext(c)
    case Str(_) => !ColonNext(c)
    case _ => true
  }

  predicate Lexed(ts: seq<Token>) {
    ts == [] || (ValidToken(ts[0]) && MayFollow(ts[0], Spell(ts[1..])) && Lexed(ts[1..]))
  }

  predicate MayFollowValue(c: bytes) {
    (c == [] || !IsNumeric(c[0])) && !ColonNext(c)
  }

  lemma {:induction false} SpellPlain(text: bytes, k: seq<Token>)
    ensures Spell(PlainTokens(text, k)) == text + Spell(k)
  {
    if text != [] {
      SpellPlain(text[1..], k);
      assert PlainTokens(text, k)[1..] == PlainTokens(text[1..], k);
    }
  }

  lemma {:induction false} ColonAfterBlank(ws: bytes, c: bytes)
    requires IsBlank(ws)
    ensures ColonNext(ws + c) == ColonNext(c)
  {
    if ws == [] {
      assert ws + c == c;
    } else {
      ColonAfterBlank(ws[1..], c);
      assert (ws + c)[1..] == ws[1..] + c;
    }
  }

  lemma {:induction false} LexedPlain(text: bytes, k: seq<Token>)
    requires forall i | 0 <= i < |text| :: ValidToken(Plain(text[i]))
    requires Lexed(k)
    ensures Lexed(PlainTokens(text, k))
  {
    if text != [] {
      LexedPlain(text[1..], k);
      assert PlainTokens(text, k)[1..] == PlainTokens(text[1..], k);
    }
  }

  lemma LexedBlank(ws: bytes, k: seq<Token>)
    requires IsBlank(ws) && Lexed(k)
    ensures Lexed(PlainTokens(ws, k))
    ensures ColonNext(Spell(PlainTokens(ws, k))) == ColonNext(Spell(k))
    ensures MayFollowValue(Spell(k)) ==> MayFollowValue(Spell(PlainTokens(ws, k)))
  {
    LexedPlain(ws, k);
    SpellPlain(ws, k);
    ColonAfterBlank(ws, Spell(k));
  }

  lemma NumericTail(t: bytes)
    requires IsFraction(t)
    ensures forall i | 0 <= i < |t| :: IsNumeric(t[i])
  {
    if t != [] && t[0] == 0x2E {
      var n := LeadingDigits(t[1..]);
      ExponentNumeric(t[1 + n..]);
      forall i | 0 <= i < |t| ensures IsNumeric(t[i]) {
        if 1 <= i < 1 + n {
          assert t[i] == t[1..][i - 1];
        } else if 1 + n <= i {
          assert t[i] == t[1 + n..][i - 1 - n];
        }
      }
    } else {
      ExponentNumeric(t);
    }
  }

  lemma ExponentNumeric(t: bytes)
    requires IsExponent(t)
    ensures forall i | 0 <= i < |t| :: IsNumeric(t[i])
  {
    if t != [] {
      var from := if |t| > 1 && (t[1] == 0x2B || t[1] == MINUS) then 2 else 1;
      forall i | from <= i < |t| ensures IsNumeric(t[i]) {
        assert t[i] == t[from..][i - from];
      }
    }
  }

  lemma NumberIsToken(t: bytes)
    requires IsNumber(t)
    ensures ValidToken(Num(t))
  {
    var at := if t[0] == MINUS then 1 else 0;
    var u := t[at..];
    var n := LeadingDigits(u);
    NumericTail(u[n..]);
    forall i | 0 <= i < |t| ensures IsNumeric(t[i]) {
      if at <= i < at + n {
        assert t[i] == u[i - at];
      } else if at + n <= i {
        assert t[i] == u[n..][i - at - n];
      }
    }
  }

  /** Flattening a valid tree gives a token sequence the scanner can follow. */
  lemma {:induction false} LexedValue(v: Value, k: seq<Token>)
    requires ValidValue(v) && Lexed(k) && MayFollowValue(Spell(k))
    ensures Lexed(ValueTokens(v, k))
    decreases v
  {
    match v
    case Word(text) => LexedPlain(text, k);
    case Number(text) => NumberIsToken(text);
    case Text(body) =>
    case Group(named, gap, items) =>
      var close := [Close(named)] + k;
      assert close[1..] == k;
      LexedItems(items, named, close);
      LexedBlank(gap, ItemTokens(items, close));
      assert ValueTokens(v, k)[1..] == PlainTokens(gap, ItemTokens(items, close));
  }

  lemma {:induction false} LexedItems(items: Items, named: bool, k: seq<Token>)
    requires ValidItems(items, named) && Lexed(k) && MayFollowValue(Spell(k))
    ensures Lexed(ItemTokens(items, k))
    decreases items
  {
    match items
    case Done =>
    case Next(lead, name, value, trail, rest) =>
      var k1 := if rest.Done? then k else [Plain(COMMA)] + ItemTokens(rest, k);
      if !rest.Done? {
        LexedItems(rest, named, k);
        assert k1[1..] == ItemTokens(rest, k);
      }
      LexedBlank(trail, k1);
      var k2 := PlainTokens(trail, k1);
      LexedValue(value, k2);
      LexedName(name, ValueTokens(value, k2));
      LexedBlank(lead, NameTokens(name, ValueTokens(value, k2)));
  }

  lemma LexedName(name: Option<Name>, k: seq<Token>)
    requires name.Some? ==>
               ValidPieces(name.value.key) && IsBlank(name.value.before) && IsBlank(name.value.after)
    requires Lexed(k)
    ensures Lexed(NameTokens(name, k))
  {
    if name.Some? {
      var n := name.value;
      LexedBlank(n.after, k);
      var k1 := [Plain(COLON)] + PlainTokens(n.after, k);
      assert k1[1..] == PlainTokens(n.after, k);
      LexedBlank(n.before, k1);
      assert NameTokens(name, k)[1..] == PlainTokens(n.before, k1);
    }
  }

  lemma LexedDoc(d: Doc)
    requires ValidDoc(d)
    ensures Lexed(DocTokens(d))
  {
    LexedBlank(d.trail, []);
    LexedValue(d.value, PlainTokens(d.trail, []));
    LexedBlank(d.lead, ValueTokens(d.value, PlainTokens(d.trail, [])));
  }
}
