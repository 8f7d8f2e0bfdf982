/**
 Decoding one string literal: `decode` in `json_layout.rs` reads the pieces of
 a string as characters and says where in the raw bytes each one starts.
 */
module JsonDecode {
  import opened Bytes
  import opened Json
  import opened Utf8

  // ── Characters and how a string spells them ────────────────────────────

  /**
   One character of a string value, as it is written. `Fused` is none: it is a
   high half and another `\u` escape that is no low half, which `decode` takes
   for a pair all the same.
   */
  datatype Glyph =
    | Literal(cp: scalar)
    | Escaped(c: byte)
    | Point(hex: bytes)
    | Pair(high: bytes, low: bytes)
    | Fused(high: bytes, low: bytes)

  function HexDigit(b: byte): (v: nat)
    requires IsHex(b)
    ensures v < 16
  {
    if IsDigit(b) then b - 0x30 else if b <= 0x46 then b - 0x41 + 10 else b - 0x61 + 10
  }

  predicate IsUnit(hex: bytes) {
    |hex| == 4 && forall i | 0 <= i < 4 :: IsHex(hex[i])
  }

  /** The UTF-16 code unit four hex digits name. */
  function UnitValue(hex: bytes): (v: nat)
    requires IsUnit(hex)
    ensures v < 0x10000
  {
    ((HexDigit(hex[0]) * 16 + HexDigit(hex[1])) * 16 + HexDigit(hex[2])) * 16 + HexDigit(hex[3])
  }

  predicate IsHigh(v: nat) {
    0xD800 <= v < 0xDC00
  }

  predicate IsLow(v: nat) {
    0xDC00 <= v < 0xE000
  }

  function ShortChar(c: byte): scalar {
    if c == 0x62 then 0x08 else if c == 0x66 then 0x0C else if c == 0x6E then 0x0A
    else if c == 0x72 then 0x0D else if c == 0x74 then 0x09 else c
  }

  /** A short escape stands for what the `\u` escape of its code stands for. */
  lemma ShortIsUnit(c: byte)
    requires IsShortEscape(c)
    ensures
      var hex: bytes :=
        if c == 0x62 then [0x30, 0x30, 0x30, 0x38]  // \b is \u0008
        else if c == 0x74 then [0x30, 0x30, 0x30, 0x39]  // \t is \u0009
        else if c == 0x6E then [0x30, 0x30, 0x30, 0x61]  // \n is \u000a
        else if c == 0x66 then [0x30, 0x30, 0x30, 0x63]  // \f is \u000c
        else if c == 0x72 then [0x30, 0x30, 0x30, 0x64]  // \r is \u000d
        else if c == QUOTE then [0x30, 0x30, 0x32, 0x32]
        else if c == 0x2F then [0x30, 0x30, 0x32, 0x66]
        else [0x30, 0x30, 0x35, 0x63];
      IsUnit(hex) && GlyphChar(Escaped(c)) == GlyphChar(Point(hex))
  {
  }

  predicate ValidGlyph(g: Glyph) {
    match g
    case Literal(cp) => cp >= 0x20 && cp != QUOTE && cp != BACKSLASH
    case Escaped(c) => IsShortEscape(c)
    case Point(hex) => IsUnit(hex) && !IsHigh(UnitValue(hex)) && !IsLow(UnitValue(hex))
    case Pair(high, low) => IsUnit(high) && IsUnit(low) && IsHigh(UnitValue(high)) && IsLow(UnitValue(low))
    case Fused(_, _) => false
  }

  predicate ValidGlyphs(gs: seq<Glyph>) {
    forall i | 0 <= i < |gs| :: ValidGlyph(gs[i])
  }

  /** What two units of UTF-16 stand for, by the formula for a pair. */
  function PairValue(high: bytes, low: bytes): int
    requires IsUnit(high) && IsUnit(low)
  {
    0x10000 + (UnitValue(high) - 0xD800) * 0x400 + (UnitValue(low) - 0xDC00)
  }

  /** The digits are the hexadecimal ones, in either case. */
  lemma HexExact(b: byte, v: nat)
    requires IsHex(b) && v < 16
    ensures HexDigit(b) == v <==> b == "0123456789abcdef"[v] as int || b == "0123456789ABCDEF"[v] as int
  {
  }

  /** Two halves stand for the scalar value that section 2.1 of RFC 2781 writes as them. */
  lemma PairExact(high: bytes, low: bytes, cp: int)
    requires IsUnit(high) && IsUnit(low) && IsHigh(UnitValue(high)) && IsLow(UnitValue(low)) && 0x10000 <= cp < 0x110000
    ensures PairValue(high, low) == cp
       <==> UnitValue(high) == 0xD800 + (cp - 0x10000) / 0x400 && UnitValue(low) == 0xDC00 + (cp - 0x10000) % 0x400
    ensures 0x10000 <= PairValue(high, low) < 0x110000
  {
  }

  predicate IsScalar(cp: int) {
    0 <= cp < 0xD800 || 0xE000 <= cp < 0x110000
  }

  /** A character, or two escapes that fuse to the value of one. */
  predicate Legible(g: Glyph) {
    ValidGlyph(g)
    || (g.Fused? && IsUnit(g.high) && IsUnit(g.low) && IsHigh(UnitValue(g.high)) && !IsLow(UnitValue(g.low))
        && IsScalar(PairValue(g.high, g.low)))
  }

  predicate AllLegible(gs: seq<Glyph>) {
    forall i | 0 <= i < |gs| :: Legible(gs[i])
  }

  /** The character a glyph stands for. */
  function GlyphChar(g: Glyph): scalar
    requires Legible(g)
  {
    match g
    case Literal(cp) => cp
    case Escaped(c) => ShortChar(c)
    case Point(hex) => UnitValue(hex)
    case Pair(high, low) => PairValue(high, low)
    case Fused(high, low) => PairValue(high, low)
  }

  function GlyphChars(gs: seq<Glyph>): seq<scalar>
    requires AllLegible(gs)
  {
    seq(|gs|, i requires 0 <= i < |gs| => GlyphChar(gs[i]))
  }

  function GlyphPieces(g: Glyph): seq<Piece> {
    match g
    case Literal(cp) => RawPieces(Encode(cp))
    case Escaped(c) => [Short(c)]
    case Point(hex) => [Unicode(hex)]
    case Pair(high, low) => [Unicode(high), Unicode(low)]
    case Fused(high, low) => [Unicode(high), Unicode(low)]
  }

  function AllPieces(gs: seq<Glyph>): seq<Piece> {
    if gs == [] then [] else GlyphPieces(gs[0]) + AllPieces(gs[1..])
  }

  // ── Reading pieces as characters ───────────────────────────────────────

  /** The raw bytes the string goes on with, up to its first escape. */
  function RawPrefix(ps: seq<Piece>): (bs: bytes)
    ensures |bs| <= |ps|
  {
    if ps != [] && ps[0].Raw? then [ps[0].b] + RawPrefix(ps[1..]) else []
  }

  /** The first glyph of a non-empty string, if there is one. */
  function FirstGlyph(ps: seq<Piece>): (g: Option<Glyph>)
    requires ValidPieces(ps) && ps != []
  {
    match ps[0]
    case Short(c) => Some(Escaped(c))
    case Unicode(hex) =>
      if IsHigh(UnitValue(hex)) && |ps| > 1 && ps[1].Unicode? then
        if IsLow(UnitValue(ps[1].hex)) then Some(Pair(hex, ps[1].hex)) else None
      else if IsHigh(UnitValue(hex)) || IsLow(UnitValue(hex)) then None
      else Some(Point(hex))
    case Raw(b) =>
      var bs, w := RawPrefix(ps), Width(b);
      if w <= |bs| && DecodeOne(bs[..w]).Some? then Some(Literal(DecodeOne(bs[..w]).value)) else None
  }

  lemma {:induction false} RawPrefixPieces(ps: seq<Piece>, w: nat)
    requires w <= |RawPrefix(ps)|
    ensures ps[..w] == RawPieces(RawPrefix(ps)[..w])
  {
    if w > 0 {
      RawPrefixPieces(ps[1..], w - 1);
      assert RawPrefix(ps)[..w] == [ps[0].b] + RawPrefix(ps[1..])[..w - 1];
      assert ps[..w] == [ps[0]] + ps[1..][..w - 1];
    }
  }

  /** What was read is what the string starts with. */
  lemma FirstGlyphPieces(ps: seq<Piece>)
    requires ValidPieces(ps) && ps != [] && FirstGlyph(ps).Some?
    ensures
      var g := FirstGlyph(ps).value;
      ValidGlyph(g) && 0 < |GlyphPieces(g)| <= |ps| && ps[..|GlyphPieces(g)|] == GlyphPieces(g)
  {
    if ps[0].Raw? {
      var bs, w := RawPrefix(ps), Width(ps[0].b);
      EncodeDecodeOne(bs[..w]);
      RawPrefixPieces(ps, w);
      SpellRaw(bs[..w]);
    }
  }

  /** The glyphs of a string, or nothing when it holds a lone surrogate or bytes that are not UTF-8. */
  function ReadGlyphs(ps: seq<Piece>): (r: Option<seq<Glyph>>)
    requires ValidPieces(ps)
    ensures r.Some? ==> ValidGlyphs(r.value)
    decreases |ps|
  {
    if ps == [] then Some([])
    else
      var g := FirstGlyph(ps);
      if g.None? then None
      else
        FirstGlyphPieces(ps);
        var rest := ReadGlyphs(ps[|GlyphPieces(g.value)|..]);
        if rest.None? then None else Some([g.value] + rest.value)
  }

  lemma AllPiecesCons(g: Glyph, gs: seq<Glyph>)
    ensures AllPieces([g] + gs) == GlyphPieces(g) + AllPieces(gs)
  {
    ConsTail(g, gs);
  }

  lemma PrefixJoin<T>(s: seq<T>, a: seq<T>)
    requires |a| <= |s| && s[..|a|] == a
    ensures s == a + s[|a|..]
  {
  }

  /** Reading is undone by writing. */
  lemma {:induction false} WriteRead(ps: seq<Piece>)
    requires ValidPieces(ps) && ReadGlyphs(ps).Some?
    ensures AllPieces(ReadGlyphs(ps).value) == ps
    decreases |ps|
  {
    if ps != [] {
      FirstGlyphPieces(ps);
      var g := FirstGlyph(ps).value;
      var rest := ps[|GlyphPieces(g)|..];
      WriteRead(rest);
      AllPiecesCons(g, ReadGlyphs(rest).value);
      PrefixJoin(ps, GlyphPieces(g));
    }
  }

  lemma {:induction false} RawPrefixJoin(bs: bytes, ps: seq<Piece>)
    ensures RawPrefix(RawPieces(bs) + ps) == bs + RawPrefix(ps)
  {
    if bs == [] {
      assert RawPieces(bs) + ps == ps;
    } else {
      RawPrefixJoin(bs[1..], ps);
      JoinTail(RawPieces(bs), ps);
      ConsTail(Raw(bs[0]), RawPieces(bs[1..]));
      assert bs == [bs[0]] + bs[1..];
      Assoc([bs[0]], bs[1..], RawPrefix(ps));
    }
  }

  lemma LiteralValid(cp: scalar)
    requires ValidGlyph(Literal(cp))
    ensures ValidPieces(GlyphPieces(Literal(cp)))
  {
    var bs := Encode(cp);
    SpellRaw(bs);
    DecodeEncodeOne(cp);
    forall i | 0 <= i < |bs| ensures ValidPiece(Raw(bs[i])) {
      if i > 0 {
        TailsContinue(bs, i);
      }
    }
  }

  /** A valid glyph at the front of a string is what reading finds there. */
  lemma FirstOfGlyph(g: Glyph, ps: seq<Piece>)
    requires ValidGlyph(g) && ValidPieces(ps)
    ensures ValidPieces(GlyphPieces(g)) && |GlyphPieces(g)| > 0
    ensures FirstGlyph(GlyphPieces(g) + ps) == Some(g)
  {
    if g.Literal? {
      var bs := Encode(g.cp);
      LiteralValid(g.cp);
      SpellRaw(bs);
      RawPrefixJoin(bs, ps);
      TakeDrop(bs, RawPrefix(ps));
      DecodeEncodeOne(g.cp);
      assert (GlyphPieces(g) + ps)[0] == Raw(bs[0]);
    }
  }

  lemma {:induction false} AllPiecesValid(gs: seq<Glyph>)
    requires ValidGlyphs(gs)
    ensures ValidPieces(AllPieces(gs))
  {
    if gs != [] {
      AllPiecesValid(gs[1..]);
      FirstOfGlyph(gs[0], []);
    }
  }

  /** Writing is undone by reading. */
  lemma {:induction false} ReadWrite(gs: seq<Glyph>)
    requires ValidGlyphs(gs)
    ensures ValidPieces(AllPieces(gs)) && ReadGlyphs(AllPieces(gs)) == Some(gs)
  {
    AllPiecesValid(gs);
    if gs != [] {
      ReadWrite(gs[1..]);
      ReadStep(gs[0], gs[1..]);
      assert [gs[0]] + gs[1..] == gs;
    }
  }

  lemma {:induction false} ReadStep(g: Glyph, gs: seq<Glyph>)
    requires ValidGlyph(g) && ValidPieces(AllPieces(gs)) && ReadGlyphs(AllPieces(gs)) == Some(gs)
    ensures ValidPieces(GlyphPieces(g) + AllPieces(gs)) && ReadGlyphs(GlyphPieces(g) + AllPieces(gs)) == Some([g] + gs)
  {
    FirstOfGlyph(g, AllPieces(gs));
    TakeDrop(GlyphPieces(g), AllPieces(gs));
  }

  // ── The decoder ────────────────────────────────────────────────────────

  /** What came of trying: a value, a refusal, or a panic. */
  datatype Attempt<T> = Got(value: T) | Refused | Panicked

  function AsAttempt<T>(o: Option<T>): Attempt<T> {
    if o.Some? then Got(o.value) else Refused
  }

  /** A high half followed by a `\u` escape that is not a low one. */
  predicate Mispaired(ps: seq<Piece>)
    requires ValidPieces(ps)
  {
    |ps| > 1 && ps[0].Unicode? && ps[1].Unicode? && IsHigh(UnitValue(ps[0].hex)) && !IsLow(UnitValue(ps[1].hex))
  }

  /**
   The first glyph as the code takes it. Subtracting the low halves' base from
   a smaller unit panics where arithmetic is checked; where it wraps, the sum
   wraps back.
   */
  function FirstSeen(checked: bool, ps: seq<Piece>): (g: Attempt<Glyph>)
    requires ValidPieces(ps) && ps != []
  {
    if !Mispaired(ps) then AsAttempt(FirstGlyph(ps))
    else if checked && UnitValue(ps[1].hex) < 0xDC00 then Panicked
    else if IsScalar(PairValue(ps[0].hex, ps[1].hex)) then Got(Fused(ps[0].hex, ps[1].hex))
    else Refused
  }

  lemma FirstSeenPieces(checked: bool, ps: seq<Piece>)
    requires ValidPieces(ps) && ps != [] && FirstSeen(checked, ps).Got?
    ensures
      var g := FirstSeen(checked, ps).value;
      Legible(g) && 0 < |GlyphPieces(g)| <= |ps| && ps[..|GlyphPieces(g)|] == GlyphPieces(g)
  {
    if !Mispaired(ps) {
      FirstGlyphPieces(ps);
    }
  }

  /** The glyphs as the code takes them. */
  function SeenGlyphs(checked: bool, ps: seq<Piece>): (r: Attempt<seq<Glyph>>)
    requires ValidPieces(ps)
    ensures r.Got? ==> AllLegible(r.value)
    decreases |ps|
  {
    if ps == [] then Got([])
    else
      match FirstSeen(checked, ps)
      case Refused => Refused
      case Panicked => Panicked
      case Got(g) =>
        FirstSeenPieces(checked, ps);
        match SeenGlyphs(checked, ps[|GlyphPieces(g)|..])
        case Refused => Refused
        case Panicked => Panicked
        case Got(gs) => Got([g] + gs)
  }

  // ── Exactly what the code makes of a string ────────────────────────────

  /** Two escapes whose fusing takes the low halves' base from a smaller unit. */
  predicate Underflows(g: Glyph) {
    g.Fused? && IsUnit(g.low) && UnitValue(g.low) < 0xDC00
  }

  /** Glyphs the code gets through. */
  predicate Passable(checked: bool, gs: seq<Glyph>) {
    AllLegible(gs) && (checked ==> forall i | 0 <= i < |gs| :: !Underflows(gs[i]))
  }

  lemma FirstOfLegible(checked: bool, g: Glyph, ps: seq<Piece>)
    requires Legible(g) && ValidPieces(ps) && !(checked && Underflows(g))
    ensures ValidPieces(GlyphPieces(g)) && |GlyphPieces(g)| > 0
    ensures FirstSeen(checked, GlyphPieces(g) + ps) == Got(g)
  {
    if ValidGlyph(g) {
      FirstOfGlyph(g, ps);
      if g.Literal? {
        SpellRaw(Encode(g.cp));
      }
    }
  }

  lemma FirstPasses(checked: bool, ps: seq<Piece>)
    requires ValidPieces(ps) && ps != [] && FirstSeen(checked, ps).Got?
    ensures checked ==> !Underflows(FirstSeen(checked, ps).value)
  {
    if !Mispaired(ps) {
      FirstGlyphPieces(ps);
    }
  }

  /** `ps` goes on with the glyph: so does the reading. */
  lemma SeenStep(checked: bool, g: Glyph, rest: seq<Piece>)
    requires Legible(g) && ValidPieces(rest) && !(checked && Underflows(g))
    ensures ValidPieces(GlyphPieces(g) + rest)
    ensures SeenGlyphs(checked, GlyphPieces(g) + rest)
         == match SeenGlyphs(checked, rest)
            case Refused => Refused
            case Panicked => Panicked
            case Got(gs) => Got([g] + gs)
  {
    FirstOfLegible(checked, g, rest);
    TakeDrop(GlyphPieces(g), rest);
  }

  /** Past glyphs it gets through, the code does what it does with the rest. */
  lemma {:induction false} SeenPast(checked: bool, gs: seq<Glyph>, rest: seq<Piece>)
    requires Passable(checked, gs) && ValidPieces(rest)
    ensures ValidPieces(AllPieces(gs) + rest)
    ensures SeenGlyphs(checked, AllPieces(gs) + rest)
         == match SeenGlyphs(checked, rest)
            case Refused => Refused
            case Panicked => Panicked
            case Got(hs) => Got(gs + hs)
  {
    if gs == [] {
      assert AllPieces(gs) + rest == rest;
      assert SeenGlyphs(checked, rest).Got? ==> gs + SeenGlyphs(checked, rest).value == SeenGlyphs(checked, rest).value;
    } else {
      var g, later := gs[0], gs[1..];
      SeenPast(checked, later, rest);
      Assoc(GlyphPieces(g), AllPieces(later), rest);
      SeenStep(checked, g, AllPieces(later) + rest);
      if SeenGlyphs(checked, rest).Got? {
        assert gs == [g] + later;
        Assoc([g], later, SeenGlyphs(checked, rest).value);
      }
    }
  }

  /** Where the code stops: `gs` are read, and `rest` is what it stops at. */
  lemma {:induction false} WhereSeen(checked: bool, ps: seq<Piece>) returns (gs: seq<Glyph>, rest: seq<Piece>)
    requires ValidPieces(ps)
    ensures Passable(checked, gs) && ps == AllPieces(gs) + rest && ValidPieces(rest)
    ensures SeenGlyphs(checked, ps).Got? ==> rest == [] && SeenGlyphs(checked, ps) == Got(gs)
    ensures !SeenGlyphs(checked, ps).Got? ==> rest != [] && !FirstSeen(checked, rest).Got?
    ensures SeenGlyphs(checked, ps).Panicked? ==> FirstSeen(checked, rest).Panicked?
    ensures SeenGlyphs(checked, ps).Refused? ==> FirstSeen(checked, rest).Refused?
    decreases |ps|
  {
    if ps == [] || !FirstSeen(checked, ps).Got? {
      gs, rest := [], ps;
    } else {
      var g := FirstSeen(checked, ps).value;
      FirstSeenPieces(checked, ps);
      FirstPasses(checked, ps);
      var n := |GlyphPieces(g)|;
      gs, rest := WhereSeen(checked, ps[n..]);
      PrefixJoin(ps, GlyphPieces(g));
      AllPiecesCons(g, gs);
      Assoc(GlyphPieces(g), AllPieces(gs), rest);
      gs := [g] + gs;
    }
  }

  /** The code reads the string as `gs` exactly when they spell it and it gets through them. */
  lemma SeenGot(checked: bool, ps: seq<Piece>, gs: seq<Glyph>)
    requires ValidPieces(ps)
    ensures SeenGlyphs(checked, ps) == Got(gs) <==> Passable(checked, gs) && AllPieces(gs) == ps
  {
    var hs, rest := WhereSeen(checked, ps);
    if SeenGlyphs(checked, ps) == Got(gs) {
      assert AllPieces(hs) + [] == AllPieces(hs);
    }
    if Passable(checked, gs) && AllPieces(gs) == ps {
      SeenPast(checked, gs, []);
      assert AllPieces(gs) + [] == ps && gs + [] == gs;
    }
  }

  lemma WriteSeen(checked: bool, ps: seq<Piece>)
    requires ValidPieces(ps) && SeenGlyphs(checked, ps).Got?
    ensures AllPieces(SeenGlyphs(checked, ps).value) == ps
  {
    SeenGot(checked, ps, SeenGlyphs(checked, ps).value);
  }

  /** The string goes through glyphs the code reads to a high half and a `\u` escape of a unit below the low halves. */
  ghost predicate UnderflowsAt(ps: seq<Piece>, gs: seq<Glyph>, rest: seq<Piece>) {
    && Passable(true, gs) && ps == AllPieces(gs) + rest && ValidPieces(rest)
    && Mispaired(rest) && UnitValue(rest[1].hex) < 0xDC00
  }

  /** It panics exactly there, and only where arithmetic is checked. */
  lemma SeenPanicked(checked: bool, ps: seq<Piece>)
    requires ValidPieces(ps)
    ensures SeenGlyphs(checked, ps) == Panicked <==> checked && exists gs, rest :: UnderflowsAt(ps, gs, rest)
  {
    if SeenGlyphs(checked, ps) == Panicked {
      var gs, rest := WhereSeen(checked, ps);
      assert UnderflowsAt(ps, gs, rest);
    }
    if checked && exists gs, rest :: UnderflowsAt(ps, gs, rest) {
      var gs, rest :| UnderflowsAt(ps, gs, rest);
      SeenPast(checked, gs, rest);
    }
  }

  /**
   No character starts here: a low half comes first, or a high half that no
   `\u` escape follows, or two escapes that fuse to no scalar value, or raw
   bytes that no character is a prefix of.
   */
  ghost predicate Stuck(checked: bool, ps: seq<Piece>)
    requires ValidPieces(ps)
  {
    ps != [] &&
    match ps[0]
    case Short(_) => false
    case Unicode(hex) =>
      if IsLow(UnitValue(hex)) then true
      else if !IsHigh(UnitValue(hex)) then false
      else if |ps| == 1 || !ps[1].Unicode? then true
      else
        && !IsLow(UnitValue(ps[1].hex)) && !IsScalar(PairValue(hex, ps[1].hex))
        && !(checked && UnitValue(ps[1].hex) < 0xDC00)
    case Raw(_) => forall cp: scalar :: ValidGlyph(Literal(cp)) ==> !(RawPieces(Encode(cp)) <= ps)
  }

  lemma StuckExact(checked: bool, ps: seq<Piece>)
    requires ValidPieces(ps) && ps != []
    ensures FirstSeen(checked, ps).Refused? <==> Stuck(checked, ps)
  {
    if ps[0].Raw? {
      if FirstGlyph(ps).Some? {
        FirstGlyphPieces(ps);
        var g := FirstGlyph(ps).value;
        assert RawPieces(Encode(g.cp)) <= ps;
      }
      forall cp: scalar | ValidGlyph(Literal(cp)) && RawPieces(Encode(cp)) <= ps ensures FirstGlyph(ps) == Some(Literal(cp)) {
        var n := |RawPieces(Encode(cp))|;
        PrefixJoin(ps, RawPieces(Encode(cp)));
        FirstOfGlyph(Literal(cp), ps[n..]);
      }
    }
  }

  ghost predicate StuckAt(checked: bool, ps: seq<Piece>, gs: seq<Glyph>, rest: seq<Piece>) {
    Passable(checked, gs) && ps == AllPieces(gs) + rest && ValidPieces(rest) && Stuck(checked, rest)
  }

  /** It refuses exactly when, past glyphs it reads, it is stuck. */
  lemma SeenRefused(checked: bool, ps: seq<Piece>)
    requires ValidPieces(ps)
    ensures SeenGlyphs(checked, ps) == Refused <==> exists gs, rest :: StuckAt(checked, ps, gs, rest)
  {
    if SeenGlyphs(checked, ps) == Refused {
      var gs, rest := WhereSeen(checked, ps);
      StuckExact(checked, rest);
      assert StuckAt(checked, ps, gs, rest);
    }
    if gs, rest :| StuckAt(checked, ps, gs, rest) {
      StuckExact(checked, rest);
      SeenPast(checked, gs, rest);
    }
  }

  /** The string is spelled by glyphs the code gets through, some of which are none. */
  ghost predicate Misread(checked: bool, ps: seq<Piece>, gs: seq<Glyph>) {
    Passable(checked, gs) && AllPieces(gs) == ps && exists i | 0 <= i < |gs| :: gs[i].Fused?
  }

  lemma SeenReads(checked: bool, ps: seq<Piece>)
    requires ValidPieces(ps)
    ensures ReadGlyphs(ps).Some? ==> SeenGlyphs(checked, ps) == Got(ReadGlyphs(ps).value)
  {
    if ReadGlyphs(ps).Some? {
      WriteRead(ps);
      SeenGot(checked, ps, ReadGlyphs(ps).value);
    }
  }

  /**
   The code reads a string as it should unless the string is spelled with two
   escapes it fuses, or goes through glyphs it reads to an underflow that is
   checked.
   */
  lemma SeenExact(checked: bool, ps: seq<Piece>)
    requires ValidPieces(ps)
    ensures SeenGlyphs(checked, ps) == AsAttempt(ReadGlyphs(ps))
       <==> && (forall gs :: !Misread(checked, ps, gs))
            && !(checked && exists gs, rest :: UnderflowsAt(ps, gs, rest))
  {
    SeenPanicked(checked, ps);
    SeenReads(checked, ps);
    if SeenGlyphs(checked, ps).Got? {
      var gs := SeenGlyphs(checked, ps).value;
      SeenGot(checked, ps, gs);
      if ValidGlyphs(gs) {
        ReadWrite(gs);
      } else {
        var i :| 0 <= i < |gs| && !ValidGlyph(gs[i]);
        assert Legible(gs[i]) && gs[i].Fused?;
        assert Misread(checked, ps, gs);
      }
    }
    forall gs | Misread(checked, ps, gs) ensures SeenGlyphs(checked, ps) != AsAttempt(ReadGlyphs(ps)) {
      SeenGot(checked, ps, gs);
    }
  }

  /** Checked or not, what is read is the same. */
  lemma CheckedSame(ps: seq<Piece>)
    requires ValidPieces(ps) && SeenGlyphs(true, ps).Got?
    ensures SeenGlyphs(false, ps) == SeenGlyphs(true, ps)
  {
    SeenGot(true, ps, SeenGlyphs(true, ps).value);
    SeenGot(false, ps, SeenGlyphs(true, ps).value);
  }

  const HALF_AND_LETTER: seq<Piece> := [Unicode([0x64, 0x38, 0x30, 0x30]), Unicode([0x30, 0x30, 0x34, 0x31])]
  const HALF_AND_PRIVATE: seq<Piece> := [Unicode([0x64, 0x38, 0x30, 0x30]), Unicode([0x65, 0x30, 0x30, 0x30])]

  /** `\ud800\u0041` panics or reads as U+2441, `\ud800\ue000` as U+10400; neither is a character. */
  lemma MispairedCases()
    ensures ValidPieces(HALF_AND_LETTER) && ValidPieces(HALF_AND_PRIVATE)
    ensures ReadGlyphs(HALF_AND_LETTER).None? && ReadGlyphs(HALF_AND_PRIVATE).None?
    ensures SeenGlyphs(true, HALF_AND_LETTER) == Panicked
    ensures SeenGlyphs(false, HALF_AND_LETTER).Got? && GlyphChars(SeenGlyphs(false, HALF_AND_LETTER).value) == [0x2441]
    ensures forall checked ::
      SeenGlyphs(checked, HALF_AND_PRIVATE).Got? && GlyphChars(SeenGlyphs(checked, HALF_AND_PRIVATE).value) == [0x10400]
  {
    var a, b := HALF_AND_LETTER, HALF_AND_PRIVATE;
    assert UnitValue(a[0].hex) == 0xD800 && UnitValue(a[1].hex) == 0x41 && UnitValue(b[1].hex) == 0xE000;
    assert Mispaired(a) && Mispaired(b);
    forall checked ensures SeenGlyphs(checked, b) == Got([Fused(b[0].hex, b[1].hex)]) {
      assert FirstSeen(checked, b) == Got(Fused(b[0].hex, b[1].hex));
      assert b[2..] == [];
      assert SeenGlyphs(checked, []) == Got([]);
      assert [Fused(b[0].hex, b[1].hex)] + [] == [Fused(b[0].hex, b[1].hex)];
    }
    assert FirstSeen(false, a) == Got(Fused(a[0].hex, a[1].hex));
    assert a[2..] == [];
    assert SeenGlyphs(false, []) == Got([]);
  }

  /** The text of a literal, and where each character starts; the last entry is the literal's end. */
  datatype Decoded = Decoded(text: seq<scalar>, at: seq<nat>)

  /** How many bytes the glyphs take. */
  function Extent(gs: seq<Glyph>): nat {
    |SpellPieces(AllPieces(gs))|
  }

  function Starts(gs: seq<Glyph>, base: nat): seq<nat> {
    seq(|gs| + 1, i requires 0 <= i <= |gs| => base + Extent(gs[..i]))
  }

  /** Four hex digits at `at`, if they are there. */
  function HexAt(raw: bytes, at: nat): Option<nat> {
    if at + 4 <= |raw| && IsUnit(raw[at..at + 4]) then Some(UnitValue(raw[at..at + 4])) else None
  }

  function ByteAt(raw: bytes, at: nat): Option<byte> {
    if at < |raw| then Some(raw[at]) else None
  }

  lemma {:induction false} RawSpelled(ps: seq<Piece>) returns (rest: bytes)
    ensures SpellPieces(ps) == RawPrefix(ps) + rest
    ensures rest != [] ==> rest[0] == BACKSLASH
  {
    if ps != [] && ps[0].Raw? {
      rest := RawSpelled(ps[1..]);
      Assoc([ps[0].b], RawPrefix(ps[1..]), rest);
    } else {
      rest := SpellPieces(ps);
    }
  }

  lemma OneCharacter(s: bytes)
    requires s != [] && |s| == Width(s[0])
    ensures IsUtf8(s) <==> DecodeOne(s).Some?
    ensures IsUtf8(s) ==> DecodeAll(s) == Some([DecodeOne(s).value])
  {
    assert s[..|s|] == s && s[|s|..] == [];
    assert DecodeAll(s[|s|..]) == Some([]);
    if DecodeOne(s).Some? {
      assert DecodeAll(s).value == [DecodeOne(s).value] + [] == [DecodeOne(s).value];
    }
  }

  /** An escape is never part of a longer character. */
  lemma LiteralAhead(s: bytes, bs: bytes, rest: bytes, w: nat)
    requires s == bs + rest && bs != [] && w == Width(bs[0]) && (rest != [] ==> rest[0] == BACKSLASH)
    ensures w <= |s| && DecodeOne(s[..w]).Some? <==> w <= |bs| && DecodeOne(bs[..w]).Some?
    ensures w <= |bs| ==> s[..w] == bs[..w]
  {
    if |bs| < w <= |s| && DecodeOne(s[..w]).Some? {
      TailsContinue(s[..w], |bs|);
      assert false;
    }
  }

  /** What the second byte of an escape, and the two bytes after a `\u` escape, tell. */
  lemma EscapeAhead(s: bytes, ps: seq<Piece>)
    requires s == SpellPieces(ps) && ValidPieces(ps) && ps != []
    ensures s != [] && (s[0] == BACKSLASH <==> !ps[0].Raw?)
    ensures !ps[0].Raw? ==> |s| > 1 && (s[1] == LETTER_U <==> ps[0].Unicode?)
    ensures ps[0].Short? ==> s[1] == ps[0].c
    ensures ps[0].Unicode? ==> |s| >= 6 && s[2..6] == ps[0].hex && s[6..] == SpellPieces(ps[1..])
  {
  }

  /** The first character of a string, as the code takes it, and how many bytes it takes. */
  function FirstRead(checked: bool, ps: seq<Piece>): Attempt<(seq<scalar>, nat)>
    requires ValidPieces(ps) && ps != []
  {
    match FirstSeen(checked, ps)
    case Refused => Refused
    case Panicked => Panicked
    case Got(g) =>
      FirstSeenPieces(checked, ps);
      Got(([GlyphChar(g)], |SpellPieces(GlyphPieces(g))|))
  }

  lemma EscapeSize(g: Glyph)
    requires Legible(g)
    ensures g.Escaped? ==> |SpellPieces(GlyphPieces(g))| == 2
    ensures g.Point? ==> |SpellPieces(GlyphPieces(g))| == 6
    ensures g.Pair? || g.Fused? ==> |SpellPieces(GlyphPieces(g))| == 12
  {
    if g.Pair? || g.Fused? {
      assert GlyphPieces(g)[1..] == [Unicode(g.low)];
      assert SpellPieces([Unicode(g.low)]) == SpellPiece(Unicode(g.low)) + SpellPieces([]);
    }
  }

  /** Reads one character of a string; `left` is what the bytes from `i` on spell. */
  method DecodeOneGlyph(raw: bytes, i: nat, checked: bool, ghost left: seq<Piece>) returns (r: Attempt<(seq<scalar>, nat)>)
    requires i < |raw| && raw[i..] == SpellPieces(left) && ValidPieces(left) && left != []
    ensures r == FirstRead(checked, left)
  {
    ghost var s := raw[i..];
    EscapeAhead(s, left);
    assert raw[i] == s[0];
    if raw[i] == BACKSLASH {
      assert raw[i + 1] == s[1];
      if raw[i + 1] == LETTER_U {
        r := DecodeUnicode(raw, i, checked, left);
      } else {
        r := Got(([ShortChar(raw[i + 1])], 2));
      }
    } else {
      r := DecodeLiteral(raw, i, checked, left);
    }
  }

  method DecodeUnicode(raw: bytes, i: nat, checked: bool, ghost left: seq<Piece>) returns (r: Attempt<(seq<scalar>, nat)>)
    requires i < |raw| && raw[i..] == SpellPieces(left) && ValidPieces(left) && left != [] && left[0].Unicode?
    ensures r == FirstRead(checked, left)
  {
    UnicodeAhead(raw, i, left);
    UnicodeRead(checked, left);
    var high := HexAt(raw, i + 2);
    if high.None? {
      return Refused;
    }
    if IsHigh(high.value) && ByteAt(raw, i + 6) == Some(BACKSLASH) && ByteAt(raw, i + 7) == Some(LETTER_U) {
      UnicodeAhead(raw, i + 6, left[1..]);
      var low := HexAt(raw, i + 8);
      if low.None? {
        return Refused;
      }
      if checked && low.value < 0xDC00 {
        return Panicked;
      }
      FuseExact(left[0].hex, left[1].hex);
      r := AsCharacter(Fuse(high.value, low.value), 12);
    } else {
      r := AsCharacter(high.value, 6);
    }
  }

  /** `char::from_u32`, with the bytes read. */
  function AsCharacter(cp: int, width: nat): Attempt<(seq<scalar>, nat)> {
    if IsScalar(cp) then Got(([cp], width)) else Refused
  }

  /** What a `\u` escape at the front is read as. */
  lemma UnicodeRead(checked: bool, ps: seq<Piece>)
    requires ValidPieces(ps) && ps != [] && ps[0].Unicode?
    ensures FirstRead(checked, ps)
         == if IsHigh(UnitValue(ps[0].hex)) && |ps| > 1 && ps[1].Unicode? then
              if checked && UnitValue(ps[1].hex) < 0xDC00 then Panicked
              else AsCharacter(PairValue(ps[0].hex, ps[1].hex), 12)
            else AsCharacter(UnitValue(ps[0].hex), 6)
  {
    if FirstSeen(checked, ps).Got? {
      FirstSeenPieces(checked, ps);
      EscapeSize(FirstSeen(checked, ps).value);
    }
  }

  /** Addition and subtraction of 32-bit unsigned integers that wrap. */
  function Sum32(a: int, b: int): int {
    (a + b) % 0x1_0000_0000
  }

  function Minus32(a: int, b: int): int {
    (a - b) % 0x1_0000_0000
  }

  /** The formula for a pair in that arithmetic. */
  function Fuse(high: int, low: int): int {
    Sum32(0x10000 + (high - 0xD800) * 0x400, Minus32(low, 0xDC00))
  }

  lemma FuseExact(high: bytes, low: bytes)
    requires IsUnit(high) && IsUnit(low) && IsHigh(UnitValue(high))
    ensures Fuse(UnitValue(high), UnitValue(low)) == PairValue(high, low)
  {
    WrapsBack(0x10000 + (UnitValue(high) - 0xD800) * 0x400, UnitValue(low), 0xDC00);
  }

  /** A difference that wrapped wraps back when enough is added. */
  lemma WrapsBack(a: nat, b: nat, c: nat)
    requires c <= a && a + b < 0x1_0000_0000
    ensures Sum32(a, Minus32(b, c)) == a + (b - c)
  {
  }

  /** The bytes of a `\u` escape, and what the two bytes after it tell about the next piece. */
  lemma UnicodeAhead(raw: bytes, i: nat, left: seq<Piece>)
    requires i <= |raw| && raw[i..] == SpellPieces(left) && ValidPieces(left) && left != [] && left[0].Unicode?
    ensures HexAt(raw, i + 2) == Some(UnitValue(left[0].hex))
    ensures i + 6 <= |raw| && raw[i + 6..] == SpellPieces(left[1..])
    ensures ByteAt(raw, i + 6) == Some(BACKSLASH) && ByteAt(raw, i + 7) == Some(LETTER_U)
       <==> |left| > 1 && left[1].Unicode?
  {
    var s := raw[i..];
    EscapeAhead(s, left);
    DropAgain(raw, i, 6);
    assert raw[i + 2..i + 6] == s[2..6];
    var s' := raw[i + 6..];
    if |left| > 1 {
      EscapeAhead(s', left[1..]);
      assert raw[i + 6] == s'[0];
    }
  }

  method DecodeLiteral(raw: bytes, i: nat, checked: bool, ghost left: seq<Piece>) returns (r: Attempt<(seq<scalar>, nat)>)
    requires i < |raw| && raw[i..] == SpellPieces(left) && ValidPieces(left) && left != [] && left[0].Raw?
    ensures r == FirstRead(checked, left)
  {
    ghost var s, bs := raw[i..], RawPrefix(left);
    ghost var rest := RawSpelled(left);
    assert raw[i] == s[0] == bs[0];
    var width := Width(raw[i]);
    LiteralAhead(s, bs, rest, width);
    if i + width > |raw| {
      return Refused;
    }
    DropAgain(raw, i, width);
    OneCharacter(raw[i..i + width]);
    var text := DecodeAll(raw[i..i + width]);
    if text.None? {
      return Refused;
    }
    EncodeDecodeOne(bs[..width]);
    SpellRaw(bs[..width]);
    r := Got((text.value, width));
  }

  lemma {:induction false} AllPiecesJoin(gs: seq<Glyph>, hs: seq<Glyph>)
    ensures AllPieces(gs + hs) == AllPieces(gs) + AllPieces(hs)
  {
    if gs == [] {
      assert gs + hs == hs;
    } else {
      AllPiecesJoin(gs[1..], hs);
      JoinTail(gs, hs);
      Assoc(GlyphPieces(gs[0]), AllPieces(gs[1..]), AllPieces(hs));
    }
  }

  lemma ExtentMore(gs: seq<Glyph>, g: Glyph)
    ensures Extent(gs + [g]) == Extent(gs) + |SpellPieces(GlyphPieces(g))|
  {
    AllPiecesJoin(gs, [g]);
    assert AllPieces([g]) == GlyphPieces(g) + [] == GlyphPieces(g);
    SpellPiecesJoin(AllPieces(gs), GlyphPieces(g));
  }

  /** `gs` have been read; what is left of the string is `left`. */
  ghost predicate ReadSoFar(checked: bool, body: seq<Piece>, gs: seq<Glyph>, left: seq<Piece>)
    requires ValidPieces(body) && ValidPieces(left)
  {
    match SeenGlyphs(checked, left)
    case Got(rest) => SeenGlyphs(checked, body) == Got(gs + rest)
    case Refused => SeenGlyphs(checked, body) == Refused
    case Panicked => SeenGlyphs(checked, body) == Panicked
  }

  lemma ReadMore(checked: bool, body: seq<Piece>, gs: seq<Glyph>, left: seq<Piece>)
    requires ValidPieces(body) && ValidPieces(left) && left != [] && ReadSoFar(checked, body, gs, left)
    ensures FirstSeen(checked, left).Refused? ==> SeenGlyphs(checked, body) == Refused
    ensures FirstSeen(checked, left).Panicked? ==> SeenGlyphs(checked, body) == Panicked
    ensures FirstSeen(checked, left).Got? ==>
      (FirstSeenPieces(checked, left);
       var g := FirstSeen(checked, left).value;
       ReadSoFar(checked, body, gs + [g], left[|GlyphPieces(g)|..]))
  {
    if FirstSeen(checked, left).Got? {
      FirstSeenPieces(checked, left);
      var g := FirstSeen(checked, left).value;
      var rest := SeenGlyphs(checked, left[|GlyphPieces(g)|..]);
      if rest.Got? {
        Assoc(gs, [g], rest.value);
      }
    }
  }

  /** Past one glyph, the bytes spell the remaining pieces. */
  lemma SpelledAfter(raw: bytes, i: nat, left: seq<Piece>, n: nat, len: nat)
    requires i <= |raw| && raw[i..] == SpellPieces(left) && n <= |left| && len == |SpellPieces(left[..n])|
    ensures i + len <= |raw| && raw[i + len..] == SpellPieces(left[n..])
  {
    SpellPiecesJoin(left[..n], left[n..]);
    assert left == left[..n] + left[n..];
    TakeDrop(SpellPieces(left[..n]), SpellPieces(left[n..]));
    DropAgain(raw, i, len);
  }

  ghost predicate StartsSoFar(gs: seq<Glyph>, base: nat, at: seq<nat>) {
    |at| == |gs| && forall k | 0 <= k < |gs| :: at[k] == base + Extent(gs[..k])
  }

  lemma StartsMore(gs: seq<Glyph>, base: nat, at: seq<nat>, g: Glyph, p: nat)
    requires StartsSoFar(gs, base, at) && p == base + Extent(gs)
    ensures StartsSoFar(gs + [g], base, at + [p])
  {
    var gs', at' := gs + [g], at + [p];
    forall k | 0 <= k < |gs'| ensures at'[k] == base + Extent(gs'[..k]) {
      assert gs'[..k] == gs[..k];
      assert gs[..|gs|] == gs;
    }
  }

  lemma StartsDone(gs: seq<Glyph>, base: nat, at: seq<nat>, p: nat)
    requires StartsSoFar(gs, base, at) && p == base + Extent(gs)
    ensures at + [p] == Starts(gs, base)
  {
    assert gs[..|gs|] == gs;
  }

  /** What decoding the literal comes to. */
  function DecodedOf(checked: bool, body: seq<Piece>, base: nat): Attempt<Decoded>
    requires ValidPieces(body)
  {
    match SeenGlyphs(checked, body)
    case Refused => Refused
    case Panicked => Panicked
    case Got(gs) => Got(Decoded(GlyphChars(gs), Starts(gs, base)))
  }

  /** Where decoding stands after `i` bytes: `done` is read, `left` is to come. */
  ghost predicate DecodedSoFar(checked: bool, body: seq<Piece>, raw: bytes, base: nat, i: nat, done: seq<Glyph>, left: seq<Piece>,
                               text: seq<scalar>, at: seq<nat>)
    requires ValidPieces(body)
  {
    && i <= |raw| && ValidPieces(left) && raw[i..] == SpellPieces(left)
    && ReadSoFar(checked, body, done, left) && AllLegible(done)
    && i == Extent(done) && text == GlyphChars(done) && StartsSoFar(done, base, at)
  }

  lemma DecodedMore(checked: bool, body: seq<Piece>, raw: bytes, base: nat, i: nat, done: seq<Glyph>, left: seq<Piece>,
                    text: seq<scalar>, at: seq<nat>, g: Glyph, left': seq<Piece>, len: nat)
    requires ValidPieces(body) && DecodedSoFar(checked, body, raw, base, i, done, left, text, at)
    requires left != [] && FirstSeen(checked, left) == Got(g) && Legible(g) && |GlyphPieces(g)| <= |left|
    requires left' == left[|GlyphPieces(g)|..] && left[..|GlyphPieces(g)|] == GlyphPieces(g)
    requires len == |SpellPieces(GlyphPieces(g))|
    ensures DecodedSoFar(checked, body, raw, base, i + len, done + [g], left', text + [GlyphChar(g)], at + [base + i])
  {
    ReadMore(checked, body, done, left);
    StartsMore(done, base, at, g, base + i);
    ExtentMore(done, g);
    SpelledAfter(raw, i, left, |GlyphPieces(g)|, len);
    assert GlyphChars(done + [g]) == GlyphChars(done) + [GlyphChar(g)];
  }

  lemma DecodedAll(checked: bool, body: seq<Piece>, raw: bytes, lit: Span, done: seq<Glyph>, left: seq<Piece>,
                   text: seq<scalar>, at: seq<nat>)
    requires ValidPieces(body) && lit.end == lit.start + |raw|
    requires DecodedSoFar(checked, body, raw, lit.start, |raw|, done, left, text, at)
    ensures DecodedOf(checked, body, lit.start) == Got(Decoded(text, at + [lit.end]))
  {
    assert left == [] by {
      if left != [] {
        EscapeAhead(raw[|raw|..], left);
      }
    }
    assert done + [] == done;
    StartsDone(done, lit.start, at, lit.end);
  }

  /** Decodes the literal at `lit`, whose pieces are `body`; `checked` says whether arithmetic is. */
  method Decode(content: bytes, lit: Span, checked: bool, ghost body: seq<Piece>) returns (out: Attempt<Decoded>)
    requires lit.WithinLength(|content|) && content[lit.start..lit.end] == SpellPieces(body) && ValidPieces(body)
    ensures out == DecodedOf(checked, body, lit.start)
  {
    var raw, base := content[lit.start..lit.end], lit.start;
    var text: seq<scalar>, at: seq<nat>, i: nat := [], [], 0;
    ghost var left, done: seq<Glyph> := body, [];
    assert DecodedSoFar(checked, body, raw, base, i, done, left, text, at) by {
      assert raw[0..] == raw;
      assert SeenGlyphs(checked, body).Got? ==> [] + SeenGlyphs(checked, body).value == SeenGlyphs(checked, body).value;
    }
    while i < |raw|
      invariant DecodedSoFar(checked, body, raw, base, i, done, left, text, at)
      decreases |raw| - i
    {
      assert left != [];
      var r := DecodeOneGlyph(raw, i, checked, left);
      ReadMore(checked, body, done, left);
      if r.Refused? {
        return Refused;
      }
      if r.Panicked? {
        return Panicked;
      }
      FirstSeenPieces(checked, left);
      ghost var g := FirstSeen(checked, left).value;
      ghost var left' := left[|GlyphPieces(g)|..];
      DecodedMore(checked, body, raw, base, i, done, left, text, at, g, left', r.value.1);
      GlyphPositive(g);
      at := at + [base + i];
      text := text + r.value.0;
      i := i + r.value.1;
      done, left := done + [g], left';
    }
    DecodedAll(checked, body, raw, lit, done, left, text, at);
    at := at + [lit.end];
    out := Got(Decoded(text, at));
  }

  lemma GlyphPositive(g: Glyph)
    requires Legible(g)
    ensures |SpellPieces(GlyphPieces(g))| > 0
  {
    EscapeSize(g);
    if g.Literal? {
      FirstOfGlyph(g, []);
    }
  }
}
