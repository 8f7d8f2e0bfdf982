/**
 The contextual detector's view of a document: its decoded prose values joined
 into one text. The analyzer itself is a service; its results are arbitrary
 code-point spans of that text.
 */
module Presidio {
  import opened Bytes
  import opened Json
  import opened JsonDecode
  import opened JsonLayout
  import opened JoinedSpans
  import opened TokenPlaces
  import opened Redaction
  import opened RedactionText
  import opened Utf8

  /** The joined text and, per character, its raw bytes; nothing for a separator. */
  datatype DecodedValues = DecodedValues(text: seq<scalar>, raw: seq<Option<Span>>)

  const PROSE_KEYS: seq<string> :=
    ["body", "content", "text", "system", "instructions", "prompt", "input", "arguments"]

  function AsciiBytes(s: string): bytes {
    if s == "" then [] else [if s[0] as int < 128 then s[0] as int else 0] + AsciiBytes(s[1..])
  }

  predicate IsProseKey(key: bytes) {
    exists i | 0 <= i < |PROSE_KEYS| :: key == AsciiBytes(PROSE_KEYS[i])
  }

  /** A value is prose when no key is above it or its key is one that carries prose. */
  predicate IsProse(lit: StrLit) {
    !lit.isKey && (lit.owner.None? || IsProseKey(lit.owner.value))
  }

  // ── The prose values of a document ─────────────────────────────────────

  /** One non-empty prose value: its characters as written, and where its interior starts. */
  datatype Prose = Prose(glyphs: seq<Glyph>, base: nat) {
    predicate Valid() {
      glyphs != [] && AllLegible(glyphs)
    }

    /** Where each character starts; the last entry is the end. */
    function At(): (at: seq<nat>)
      ensures |at| == |glyphs| + 1
    {
      Starts(glyphs, base)
    }
  }

  predicate AllValid(vs: seq<Prose>) {
    forall i | 0 <= i < |vs| :: vs[i].Valid()
  }

  function Ats(vs: seq<Prose>): (ats: seq<seq<nat>>)
    requires AllValid(vs)
    ensures |ats| == |vs| && AllNonEmpty(ats)
  {
    seq(|vs|, i requires 0 <= i < |vs| => vs[i].At())
  }

  const SEPARATOR: seq<scalar> := [0x0A, 0x0A]

  function JoinText(vs: seq<Prose>): seq<scalar>
    requires AllValid(vs)
  {
    if vs == [] then []
    else
      var front, v := vs[..|vs| - 1], vs[|vs| - 1];
      JoinText(front) + (if front == [] then [] else SEPARATOR) + GlyphChars(v.glyphs)
  }

  /** What joining the values must give. */
  function Joined(vs: seq<Prose>): DecodedValues
    requires AllValid(vs)
  {
    DecodedValues(JoinText(vs), JoinRaw(Ats(vs), |vs|))
  }

  lemma JoinTextMore(vs: seq<Prose>, v: Prose, all: seq<Prose>)
    requires AllValid(all) && |all| == |vs| + 1 && all[..|all| - 1] == vs && all[|all| - 1] == v
    ensures JoinText(all) == JoinText(vs) + (if vs == [] then [] else SEPARATOR) + GlyphChars(v.glyphs)
    ensures JoinText(all) != []
  {
  }

  lemma JoinRawMore(ats: seq<seq<nat>>, at: seq<nat>, n: nat)
    requires n == |ats| && AllNonEmpty(ats) && |at| >= 2
    ensures JoinRaw(ats + [at], n + 1) == JoinRaw(ats, n) + Gap(n) + Slots(at)
  {
    JoinPrefix(ats, at, n);
  }

  lemma AtsMore(vs: seq<Prose>, v: Prose, all: seq<Prose>)
    requires AllValid(vs) && AllValid(all) && all == vs + [v]
    ensures Ats(all) == Ats(vs) + [v.At()]
  {
    forall i | 0 <= i < |all| ensures Ats(all)[i] == (Ats(vs) + [v.At()])[i] {
      assert Ats(all)[i] == all[i].At();
    }
  }

  /** One value more in the joined text. */
  lemma JoinedText(vs: seq<Prose>, v: Prose, all: seq<Prose>)
    requires AllValid(vs) && v.Valid() && all == vs + [v]
    ensures AllValid(all)
    ensures Joined(all).text == JoinText(vs) + (if vs == [] then [] else SEPARATOR) + GlyphChars(v.glyphs)
  {
    assert all[..|all| - 1] == vs;
    JoinTextMore(vs, v, all);
  }

  lemma JoinedRaw(vs: seq<Prose>, v: Prose, all: seq<Prose>)
    requires AllValid(vs) && v.Valid() && all == vs + [v] && AllValid(all)
    ensures Joined(all).raw == JoinRaw(Ats(vs), |vs|) + Gap(|vs|) + Slots(v.At())
  {
    AtsMore(vs, v, all);
    JoinRawMore(Ats(vs), v.At(), |vs|);
  }

  lemma JoinedEmpty(vs: seq<Prose>)
    requires AllValid(vs)
    ensures JoinText(vs) == [] <==> vs == []
  {
    if vs != [] {
      JoinTextMore(vs[..|vs| - 1], vs[|vs| - 1], vs);
    }
  }

  predicate HasBody(at: Place) {
    (at.token.Key? || at.token.Str?) && ValidPieces(at.token.body)
  }

  predicate AllHaveBodies(places: seq<Place>) {
    forall k | 0 <= k < |places| :: HasBody(places[k])
  }

  /** The prose values among the first `n` literals, unless one of them does not decode. */
  function ProseValues(checked: bool, strings: seq<StrLit>, places: seq<Place>, n: nat): (r: Attempt<seq<Prose>>)
    requires n <= |strings| == |places| && AllHaveBodies(places)
    ensures r.Got? ==> AllValid(r.value)
  {
    if n == 0 then Got([])
    else
      var before, lit := ProseValues(checked, strings, places, n - 1), strings[n - 1];
      if !before.Got? || !IsProse(lit) then before
      else
        match SeenGlyphs(checked, places[n - 1].token.body)
        case Refused => Refused
        case Panicked => Panicked
        case Got(glyphs) => if glyphs == [] then before else Got(before.value + [Prose(glyphs, lit.raw.start)])
  }

  lemma ProseNext(checked: bool, strings: seq<StrLit>, places: seq<Place>, n: nat, vs: seq<Prose>)
    requires n < |strings| == |places| && AllHaveBodies(places) && ProseValues(checked, strings, places, n) == Got(vs)
    ensures HasBody(places[n])
    ensures ProseValues(checked, strings, places, n + 1)
         == if !IsProse(strings[n]) then Got(vs)
            else match SeenGlyphs(checked, places[n].token.body)
              case Refused => Refused
              case Panicked => Panicked
              case Got(glyphs) => if glyphs == [] then Got(vs) else Got(vs + [Prose(glyphs, strings[n].raw.start)])
  {
  }

  lemma {:induction false} FailsLater(checked: bool, strings: seq<StrLit>, places: seq<Place>, n: nat, m: nat)
    requires n <= m <= |strings| == |places| && AllHaveBodies(places) && !ProseValues(checked, strings, places, n).Got?
    ensures ProseValues(checked, strings, places, m) == ProseValues(checked, strings, places, n)
  {
    if n < m {
      FailsLater(checked, strings, places, n, m - 1);
    }
  }

  /** A string literal of the text, with the pieces it is made of. */
  lemma LiteralBytes(content: bytes, ts: seq<Token>, lit: StrLit, at: Place)
    requires Lexed(ts) && content == Spell(ts) && IsLiteral(ts, lit, at)
    ensures HasBody(at) && lit.raw.WithinLength(|content|)
    ensures content[lit.raw.start..lit.raw.end] == SpellPieces(at.token.body)
  {
    TokenStands(content, ts, at);
    QuotedSlice(content, SpellPieces(at.token.body), at.at, |SpellToken(at.token)|, lit.raw);
  }

  // ── Joining them ───────────────────────────────────────────────────────

  /** Appends one decoded value, character by character. */
  method AppendValue(text: seq<scalar>, raw: seq<Option<Span>>, value: Decoded)
    returns (text': seq<scalar>, raw': seq<Option<Span>>)
    requires value.text != [] && |value.at| == |value.text| + 1
    ensures text' == text + value.text && raw' == raw + Slots(value.at)
  {
    text', raw' := text, raw;
    var k := 0;
    while k < |value.text|
      invariant 0 <= k <= |value.text|
      invariant text' == text + value.text[..k] && raw' == raw + Slots(value.at)[..k]
    {
      text' := text' + [value.text[k]];
      raw' := raw' + [Some(Span(value.at[k], value.at[k + 1]))];
      k := k + 1;
    }
    assert value.text[..k] == value.text && Slots(value.at)[..k] == Slots(value.at);
  }

  /** What appending one literal comes to. */
  ghost function Appended(vs: seq<Prose>, glyphs: Attempt<seq<Glyph>>, base: nat): Attempt<DecodedValues>
    requires AllValid(vs) && (glyphs.Got? ==> AllLegible(glyphs.value))
  {
    match glyphs
    case Refused => Refused
    case Panicked => Panicked
    case Got(gs) => if gs == [] then Got(Joined(vs)) else Got(Joined(vs + [Prose(gs, base)]))
  }

  /** Decodes one literal and appends it; an empty value leaves no trace. */
  method AppendLiteral(content: bytes, lit: StrLit, joined: DecodedValues, checked: bool, ghost ts: seq<Token>, ghost at: Place,
                       ghost vs: seq<Prose>)
    returns (r: Attempt<DecodedValues>)
    requires Lexed(ts) && content == Spell(ts) && IsLiteral(ts, lit, at) && HasBody(at)
    requires AllValid(vs) && joined == Joined(vs)
    ensures r == Appended(vs, SeenGlyphs(checked, at.token.body), lit.raw.start)
  {
    LiteralBytes(content, ts, lit, at);
    var decoded := Decode(content, lit.raw, checked, at.token.body);
    if decoded.Refused? {
      return Refused;
    }
    if decoded.Panicked? {
      return Panicked;
    }
    if decoded.value.text == [] {
      return Got(joined);
    }
    JoinedEmpty(vs);
    ghost var v := Prose(SeenGlyphs(checked, at.token.body).value, lit.raw.start);
    JoinedText(vs, v, vs + [v]);
    JoinedRaw(vs, v, vs + [v]);
    var text, raw := joined.text, joined.raw;
    if text != [] {
      text, raw := text + SEPARATOR, raw + [None, None];
    }
    text, raw := AppendValue(text, raw, decoded.value);
    r := Got(DecodedValues(text, raw));
  }

  /** Decodes and joins the prose values of a document, unless one of them does not decode. */
  method JoinValues(content: bytes, layout: Layout, checked: bool, ghost ts: seq<Token>, ghost places: seq<Place>)
    returns (r: Attempt<DecodedValues>)
    requires Lexed(ts) && content == Spell(ts) && ListsStrings(ts, layout.strings, places) && AllHaveBodies(places)
    ensures r == match ProseValues(checked, layout.strings, places, |places|)
                 case Refused => Refused
                 case Panicked => Panicked
                 case Got(vs) => Got(Joined(vs))
  {
    var joined, n := DecodedValues([], []), 0;
    ghost var vs: seq<Prose> := [];
    while n < |layout.strings|
      invariant 0 <= n <= |places|
      invariant ProseValues(checked, layout.strings, places, n) == Got(vs) && joined == Joined(vs)
    {
      var lit := layout.strings[n];
      ProseNext(checked, layout.strings, places, n, vs);
      if IsProse(lit) {
        r := AppendLiteral(content, lit, joined, checked, ts, places[n], vs);
        if !r.Got? {
          FailsLater(checked, layout.strings, places, n + 1, |places|);
          return;
        }
        joined := r.value;
        ghost var glyphs := SeenGlyphs(checked, places[n].token.body).value;
        if glyphs != [] {
          vs := vs + [Prose(glyphs, lit.raw.start)];
        }
      }
      n := n + 1;
    }
    r := Got(joined);
  }
}
