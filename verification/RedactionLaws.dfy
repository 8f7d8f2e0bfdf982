/** What a successful redaction guarantees about every byte of the content. */
module RedactionLaws {
  import opened Bytes
  import opened Json
  import opened JsonLayout
  import opened TokenPlaces
  import opened Splice
  import opened RedactTokens
  import opened Redaction
  import opened Enforce
  import RedactTree

  // ── Which bytes go, and which stay ─────────────────────────────────────

  /** Some finding calls for an edit that takes byte `q`. */
  ghost predicate Hidden(ts: seq<Token>, findings: seq<Finding>, q: int) {
    exists i, at: Place, e :: HiddenBy(ts, findings, i, at, e, q)
  }

  ghost predicate HiddenBy(ts: seq<Token>, findings: seq<Finding>, i: int, at: Place, e: Edit, q: int) {
    && 0 <= i < |findings| && TokenAt(ts, 0, at.token, at.at)
    && IsEditFor(at, findings[i], e) && e.range.Contains(q)
  }

  lemma NearUnique(ps: seq<Piece>, base: nat, q0: int, q: int, q': int)
    requires Near(ps, base, q0, q) && Near(ps, base, q0, q')
    requires (q <= q0 && q' <= q0) || (q0 <= q && q0 <= q')
    ensures q == q'
  {
  }

  /** A finding calls for one edit only at each place. */
  lemma EditUnique(at: Place, f: Finding, e: Edit, e': Edit)
    requires IsEditFor(at, f, e) && IsEditFor(at, f, e')
    ensures e == e'
  {
    if at.token.Str? {
      var lit := Region(at.token, at.at);
      NearUnique(at.token.body, lit.start, Clip(lit, f.span).start, e.range.start, e'.range.start);
      NearUnique(at.token.body, lit.start, Clip(lit, f.span).end, e.range.end, e'.range.end);
    }
  }

  lemma HiddenIsEdited(ts: seq<Token>, findings: seq<Finding>, edits: seq<Edit>, owners: seq<nat>, q: int)
    requires InFindingOrder(ts, findings, |findings|, edits, owners) && EachAnswered(ts, findings, |findings|, edits)
    ensures Hidden(ts, findings, q) <==> InSome(edits, q)
  {
    if InSome(edits, q) {
      var k :| 0 <= k < |edits| && edits[k].range.Contains(q);
      var at: Place :| TokenAt(ts, 0, at.token, at.at) && IsEditFor(at, findings[owners[k]], edits[k]);
      assert HiddenBy(ts, findings, owners[k], at, edits[k], q);
    }
    if Hidden(ts, findings, q) {
      var i, at: Place, e :| HiddenBy(ts, findings, i, at, e, q);
      assert Answered(at, findings[i], edits, 0);
      var k :| 0 <= k < |edits| && IsEditFor(at, findings[i], edits[k]);
      EditUnique(at, findings[i], e, edits[k]);
    }
  }

  /**
   On JSON the output is, in order, the bytes no finding calls away, with
   markers between; and nothing more is taken than the findings call for.
   */
  lemma JsonConservation(content: bytes, ts: seq<Token>, findings: seq<Finding>, edits: seq<Edit>, owners: seq<nat>)
    returns (os: seq<Origin>)
    requires Lexed(ts) && content == Spell(ts)
    requires InFindingOrder(ts, findings, |findings|, edits, owners) && EachAnswered(ts, findings, |findings|, edits)
    ensures AllWithin(edits, |content|)
    ensures Explains(os, content, Spliced(content, 0, Plan(content, edits))) && InOrder(os)
    ensures forall q: nat :: Copied(q) in os <==> q < |content| && !Hidden(ts, findings, q)
  {
    CalledWithin(ts, findings, edits, owners);
    os := Conservation(content, edits);
    forall q: nat ensures Copied(q) in os <==> q < |content| && !Hidden(ts, findings, q) {
      HiddenIsEdited(ts, findings, edits, owners, q);
    }
  }

  /**
   A provable finding the redaction accepted lies inside one string value or
   one number, and every byte of it is called away.
   */
  lemma ProvableGone(ts: seq<Token>, findings: seq<Finding>, edits: seq<Edit>, i: nat) returns (at: Place)
    requires Lexed(ts) && EachAnswered(ts, findings, |findings|, edits) && i < |findings|
    requires findings[i].certain && !SomeUnredactable(ts, findings, |findings|)
    requires findings[i].span.start < findings[i].span.end <= |Spell(ts)|
    ensures TokenAt(ts, 0, at.token, at.at) && IsEditable(at.token) && Inside(findings[i].span, Region(at.token, at.at))
    ensures forall q | findings[i].span.Contains(q) :: Hidden(ts, findings, q)
  {
    var f := findings[i];
    assert !Unredactable(ts, f);
    OffStructure(ts, f.span);
    var t, p :| TokenAt(ts, 0, t, p) && IsEditable(t) && Inside(f.span, Region(t, p));
    at := Place(t, p);
    assert AllAnswered(ts, f, edits, 0);
    var k :| 0 <= k < |edits| && IsEditFor(at, f, edits[k]);
    forall q | f.span.Contains(q) ensures Hidden(ts, findings, q) {
      assert HiddenBy(ts, findings, i, at, edits[k], q);
    }
  }

  // ── Which findings leave no trace ──────────────────────────────────────

  /** Position `q` is inside a string value or a number, with a byte of it on either side. */
  ghost predicate StrictlyInside(ts: seq<Token>, q: int) {
    exists at: Place ::
      TokenAt(ts, 0, at.token, at.at) && IsEditable(at.token) && Region(at.token, at.at).start < q < Region(at.token, at.at).end
  }

  /** Of the findings a redaction accepts, one that calls for no edit is one that overlaps no string value and no number. */
  lemma CallsNothing(ts: seq<Token>, f: Finding, edits: seq<Edit>)
    requires AllAnswered(ts, f, edits, 0)
    ensures (exists e :: Called(ts, f, e)) <==> OverlapsEditable(ts, f.span)
  {
    if e :| Called(ts, f, e) {
      var at: Place :| TokenAt(ts, 0, at.token, at.at) && IsEditFor(at, f, e);
      assert IsEditable(at.token) && Overlaps(Region(at.token, at.at), f.span);
    }
    if OverlapsEditable(ts, f.span) {
      var t, p :| TokenAt(ts, 0, t, p) && IsEditable(t) && Overlaps(Region(t, p), f.span);
      assert Answered(Place(t, p), f, edits, 0);
      var k :| 0 <= k < |edits| && IsEditFor(Place(t, p), f, edits[k]);
      assert Called(ts, f, edits[k]);
    }
  }

  /**
   A provable finding the redaction accepted is discarded exactly when its span
   is empty and lies strictly inside no string value and no number.
   */
  lemma ProvableDiscarded(ts: seq<Token>, findings: seq<Finding>, edits: seq<Edit>, i: nat)
    requires Lexed(ts) && EachAnswered(ts, findings, |findings|, edits) && i < |findings|
    requires findings[i].certain && !SomeUnredactable(ts, findings, |findings|)
    requires findings[i].span.WithinLength(|Spell(ts)|)
    ensures !(exists e :: Called(ts, findings[i], e))
       <==> findings[i].span.start == findings[i].span.end && !StrictlyInside(ts, findings[i].span.start)
  {
    var f := findings[i];
    assert AllAnswered(ts, f, edits, 0) && !Unredactable(ts, f);
    CallsNothing(ts, f, edits);
    if f.span.start < f.span.end {
      OffStructure(ts, f.span);
      var t, p :| TokenAt(ts, 0, t, p) && IsEditable(t) && Inside(f.span, Region(t, p));
      assert Overlaps(Region(t, p), f.span);
    } else {
      EmptyOverlaps(ts, f.span);
    }
  }

  lemma EmptyOverlaps(ts: seq<Token>, f: Span)
    requires f.start == f.end
    ensures OverlapsEditable(ts, f) <==> StrictlyInside(ts, f.start)
  {
    if OverlapsEditable(ts, f) {
      var t, p :| TokenAt(ts, 0, t, p) && IsEditable(t) && Overlaps(Region(t, p), f);
      var at := Place(t, p);
      assert Region(at.token, at.at).start < f.start < Region(at.token, at.at).end;
    }
    if StrictlyInside(ts, f.start) {
      var at: Place :| TokenAt(ts, 0, at.token, at.at) && IsEditable(at.token)
                       && Region(at.token, at.at).start < f.start < Region(at.token, at.at).end;
      assert Overlaps(Region(at.token, at.at), f);
    }
  }

  /** `[]`, and a provable finding on nothing between its brackets. */
  const BARE: Doc := Doc([], Group(false, [], Done), [])
  const NOTHING: Finding := Finding("X", Span(1, 1), true)

  lemma BareTokens()
    ensures ValidDoc(BARE) && DocTokens(BARE) == [Open(false), Close(false)] && |Render(BARE)| == 2
  {
    var ts := DocTokens(BARE);
    assert ts == [Open(false), Close(false)];
    assert ts[1..] == [Close(false)] && ts[1..][1..] == [];
    assert Spell(ts) == SpellToken(Open(false)) + (SpellToken(Close(false)) + Spell([]));
  }

  lemma {:induction false} AmongTokens(ts: seq<Token>, at: nat, t: Token, p: nat)
    requires TokenAt(ts, at, t, p)
    ensures t in ts
  {
    if !(ts[0] == t && at == p) {
      AmongTokens(ts[1..], at + |SpellToken(ts[0])|, t, p);
    }
  }

  /** It is accepted, changes nothing, and is counted among the discarded, which are said to be probable ones. */
  lemma ProvableCounted() returns (r: Redacted)
    ensures ValidDoc(BARE) && AllDescribe(Render(BARE), [NOTHING]) && NOTHING.certain
    ensures !SomeUnredactable(DocTokens(BARE), [NOTHING], 1)
    ensures RedactsDoc(Render(BARE), BARE, [NOTHING], r, [], [], BARE) && r.discarded == 1 && r.content == Render(BARE)
  {
    var ts, content := DocTokens(BARE), Render(BARE);
    BareTokens();
    LexedDoc(BARE);
    CoveredBound(ts, 0, 2, NOTHING.span);
    forall t, p: nat | TokenAt(ts, 0, t, p) ensures !IsEditable(t) && !t.Key? {
      AmongTokens(ts, 0, t, p);
    }
    r := Redacted(Spliced(content, 0, Plan(content, [])), Tags(Plan(content, [])), Untouching(ts, [NOTHING], 1));
    assert Untouching(ts, [NOTHING], 0) == 0;
    assert content[0..] == content;
    BareSame();
  }

  lemma BareSame()
    ensures RedactTree.MaskedDoc(MarkerPieces, BARE, BARE)
  {
    assert RedactTree.MaskedItems(MarkerPieces, Done, Done);
  }
}
