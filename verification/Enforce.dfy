/**
 `redact` in `enforce.rs`: findings become edits, edits become markers, and a
 JSON text stays a JSON text of the same shape.
 */
module Enforce {
  import opened Bytes
  import opened Json
  import opened JsonLayout
  import opened TokenPlaces
  import opened Splice
  import opened RedactTokens
  import opened RedactTree
  import opened Redaction
  import opened Utf8

  // ── The marker as string content ───────────────────────────────────────

  function MarkerPieces(tag: string): seq<Piece> {
    RawPieces(Marker(tag))
  }

  lemma MarkerSafe(tag: string)
    ensures forall i | 0 <= i < |Marker(tag)| :: ValidPiece(Raw(Marker(tag)[i])) && Marker(tag)[i] < 0x80
  {
    var m, n := Marker(tag), |MARKER_HEAD|;
    forall i | 0 <= i < |m| ensures ValidPiece(Raw(m[i])) && m[i] < 0x80 {
      if n <= i < n + |SafeTag(tag)| {
        assert m[i] == SafeTag(tag)[i - n];
      }
    }
  }

  /** Whatever the tag, the marker is string content and spells what `apply` inserts. */
  lemma MarkerIsMask()
    ensures Spells(Replacement, MarkerPieces)
  {
    forall tag ensures ValidPieces(MarkerPieces(tag)) && MarkerPieces(tag) != [] {
      MarkerSafe(tag);
      SpellRaw(Marker(tag));
    }
    forall e ensures Replacement(e) == MaskText(MarkerPieces, e) {
      SpellRaw(Marker(e.tag));
    }
  }

  lemma {:induction false} SplicedIsTail(content: bytes, cursor: nat, gs: seq<Edit>)
    requires cursor <= |content| && Separate(gs, cursor, |content|)
    ensures Spliced(content, cursor, gs) == SplicedTail(Replacement, content[cursor..], cursor, gs)
    decreases |gs|
  {
    if gs != [] {
      var g, c := gs[0], content[cursor..];
      SplicedIsTail(content, g.range.end, gs[1..]);
      assert Ahead(c, cursor, g) == content[cursor..g.range.start];
      assert Behind(c, cursor, g) == content[g.range.end..];
      Assoc(content[cursor..g.range.start], Replacement(g), Spliced(content, g.range.end, gs[1..]));
    }
  }

  /** Splicing edits that findings call for into a JSON text leaves a JSON text of the same shape. */
  lemma SplicedDoc(doc: Doc, edits: seq<Edit>) returns (out: Doc)
    requires ValidDoc(doc) && AllFit(DocTokens(doc), 0, edits) && AllWithin(edits, |Render(doc)|)
    ensures ValidDoc(out) && MaskedDoc(MarkerPieces, doc, out)
    ensures Render(out) == Spliced(Render(doc), 0, Plan(Render(doc), edits))
    ensures DocTokens(out) == MaskTokens(MarkerPieces, DocTokens(doc), 0, Plan(Render(doc), edits))
  {
    var ts := DocTokens(doc);
    LexedDoc(doc);
    MarkerIsMask();
    var ts' := SpliceTokens(Replacement, MarkerPieces, ts, edits);
    out := RebuildDoc(MarkerPieces, doc, ts');
    SplicedIsTail(Spell(ts), 0, Plan(Spell(ts), edits));
    assert Spell(ts)[0..] == Spell(ts);
  }

  // ── Which findings are refused ─────────────────────────────────────────

  datatype Refusal = OutsideContent | SplitsCharacter | ProvableOnStructure

  /** The span describes bytes that are there and, in text, whole characters. */
  function SpanFault(content: bytes, f: Span): Option<Refusal> {
    if !f.WithinLength(|content|) then Some(OutsideContent)
    else if IsUtf8(content) && !(IsBoundary(content, f.start) && IsBoundary(content, f.end)) then Some(SplitsCharacter)
    else None
  }

  predicate AllDescribe(content: bytes, findings: seq<Finding>) {
    forall i | 0 <= i < |findings| :: SpanFault(content, findings[i].span).None?
  }

  /** A checksum-proved finding sits where it cannot be redacted. */
  ghost predicate Unredactable(ts: seq<Token>, f: Finding) {
    f.certain && OnStructure(ts, f.span)
  }

  ghost predicate SomeUnredactable(ts: seq<Token>, findings: seq<Finding>, n: nat)
    requires n <= |findings|
  {
    exists i :: 0 <= i < n && Unredactable(ts, findings[i])
  }

  /** What is wrong with finding `i`, all before it being in order. */
  ghost function FirstFault(content: bytes, findings: seq<Finding>, i: nat): Option<Refusal>
    requires i < |findings|
  {
    if AllDescribe(content, findings[..i]) then SpanFault(content, findings[i].span) else None
  }

  method CheckSpans(content: bytes, findings: seq<Finding>) returns (fault: Option<Refusal>)
    ensures fault.None? <==> AllDescribe(content, findings)
    ensures fault.Some? ==> exists i :: 0 <= i < |findings| && FirstFault(content, findings, i) == fault
  {
    var i := 0;
    while i < |findings|
      invariant 0 <= i <= |findings|
      invariant forall j | 0 <= j < i :: SpanFault(content, findings[j].span).None?
    {
      fault := SpanFault(content, findings[i].span);
      if fault.Some? {
        assert FirstFault(content, findings, i) == fault;
        return;
      }
      i := i + 1;
    }
    fault := None;
  }

  // ── What the edits of all findings amount to ───────────────────────────

  /** The edits come finding by finding, each called for by its own. */
  ghost predicate InFindingOrder(ts: seq<Token>, findings: seq<Finding>, n: nat, edits: seq<Edit>, owners: seq<nat>)
    requires n <= |findings|
  {
    && |owners| == |edits|
    && (forall i | 0 <= i < |edits| :: owners[i] < n && Called(ts, findings[owners[i]], edits[i]))
    && forall i, j | 0 <= i < j < |owners| :: owners[i] <= owners[j]
  }

  ghost predicate EachAnswered(ts: seq<Token>, findings: seq<Finding>, n: nat, edits: seq<Edit>)
    requires n <= |findings|
  {
    forall i | 0 <= i < n :: AllAnswered(ts, findings[i], edits, 0)
  }

  /** How many findings touch no string value and no number. */
  ghost function Untouching(ts: seq<Token>, findings: seq<Finding>, n: nat): nat
    requires n <= |findings|
  {
    if n == 0 then 0
    else Untouching(ts, findings, n - 1) + if OverlapsEditable(ts, findings[n - 1].span) then 0 else 1
  }

  lemma OwnersMore(ts: seq<Token>, findings: seq<Finding>, n: nat, edits: seq<Edit>, owners: seq<nat>, es: seq<Edit>)
    returns (owners': seq<nat>)
    requires n < |findings| && InFindingOrder(ts, findings, n, edits, owners)
    requires edits <= es && AllCalled(ts, findings[n], es, |edits|)
    ensures InFindingOrder(ts, findings, n + 1, es, owners')
  {
    owners' := owners + seq(|es| - |edits|, _ => n);
  }

  lemma AnswersKept(ts: seq<Token>, findings: seq<Finding>, n: nat, edits: seq<Edit>, es: seq<Edit>)
    requires n < |findings| && EachAnswered(ts, findings, n, edits) && edits <= es
    requires AllAnswered(ts, findings[n], es, |edits|)
    ensures EachAnswered(ts, findings, n + 1, es)
  {
    forall i, at: Place | 0 <= i <= n && TokenAt(ts, 0, at.token, at.at) && IsEditable(at.token)
                       && Overlaps(Region(at.token, at.at), findings[i].span)
      ensures Answered(at, findings[i], es, 0)
    {
      if i < n {
        AnsweredKept(at, findings[i], edits, es, 0, 0);
      } else {
        AnsweredKept(at, findings[i], es, es, |edits|, 0);
      }
    }
  }

  /** The JSON branch: every finding's edits in turn, unless one is provable and on structure. */
  method CollectEdits(layout: Layout, content: bytes, findings: seq<Finding>, ghost ts: seq<Token>)
    returns (edits: seq<Edit>, discarded: nat, refused: bool)
    requires Lexed(ts) && layout == TextLayout(ts)
    requires forall i | 0 <= i < |findings| :: findings[i].span.WithinLength(|content|)
    ensures refused <==> SomeUnredactable(ts, findings, |findings|)
    ensures !refused ==> exists owners :: InFindingOrder(ts, findings, |findings|, edits, owners)
    ensures !refused ==> EachAnswered(ts, findings, |findings|, edits)
    ensures !refused ==> discarded == Untouching(ts, findings, |findings|)
  {
    edits, discarded := [], 0;
    ghost var owners: seq<nat> := [];
    var i := 0;
    while i < |findings|
      invariant 0 <= i <= |findings|
      invariant InFindingOrder(ts, findings, i, edits, owners) && EachAnswered(ts, findings, i, edits)
      invariant discarded == Untouching(ts, findings, i)
      invariant !SomeUnredactable(ts, findings, i)
    {
      var f, before := findings[i], |edits|;
      var es, onStructure := JsonEdits(layout, f, edits, ts);
      if onStructure && f.certain {
        assert Unredactable(ts, findings[i]);
        return edits, discarded, true;
      }
      owners := OwnersMore(ts, findings, i, edits, owners, es);
      AnswersKept(ts, findings, i, edits, es);
      edits := es;
      if |edits| == before {
        discarded := discarded + 1;
      }
      i := i + 1;
    }
    refused := false;
  }

  lemma CalledWithin(ts: seq<Token>, findings: seq<Finding>, edits: seq<Edit>, owners: seq<nat>)
    requires Lexed(ts) && InFindingOrder(ts, findings, |findings|, edits, owners)
    ensures AllFit(ts, 0, edits) && AllWithin(edits, |Spell(ts)|)
  {
    forall i | 0 <= i < |edits| ensures Fits(ts, 0, edits[i]) && edits[i].range.WithinLength(|Spell(ts)|) {
      CalledFits(ts, findings[owners[i]], edits[i]);
      FitsRange(ts, 0, edits[i]);
    }
  }

  /** The edits for content that is not JSON: every span as given. */
  function PlainEdits(findings: seq<Finding>): seq<Edit> {
    seq(|findings|, i requires 0 <= i < |findings| => Edit(findings[i].span, false, findings[i].tag))
  }

  /** The JSON branch once no finding is refused: `out` is the text that results. */
  lemma JsonOutcome(content: bytes, doc: Doc, findings: seq<Finding>, edits: seq<Edit>, owners: seq<nat>) returns (out: Doc)
    requires ValidDoc(doc) && content == Render(doc)
    requires InFindingOrder(DocTokens(doc), findings, |findings|, edits, owners)
    ensures AllWithin(edits, |content|)
    ensures ValidDoc(out) && MaskedDoc(MarkerPieces, doc, out)
    ensures Render(out) == Spliced(content, 0, Plan(content, edits))
    ensures DocTokens(out) == MaskTokens(MarkerPieces, DocTokens(doc), 0, Plan(content, edits))
  {
    LexedDoc(doc);
    CalledWithin(DocTokens(doc), findings, edits, owners);
    out := SplicedDoc(doc, edits);
  }

  /** What applying the edits comes to. */
  ghost predicate Applies(content: bytes, edits: seq<Edit>, discarded: nat, r: Redacted) {
    && AllWithin(edits, |content|)
    && r == Redacted(Spliced(content, 0, Plan(content, edits)), Tags(Plan(content, edits)), discarded)
  }

  /**
   A redacted JSON text: the edits are those the findings call for, in finding
   order, none missing; the findings that touch nothing are counted; and the
   result is the JSON text `out`, the document with the groups' runs of its
   string values masked and numbers turned into marker strings.
   */
  ghost predicate RedactsDoc(content: bytes, doc: Doc, findings: seq<Finding>, r: Redacted, edits: seq<Edit>,
                             owners: seq<nat>, out: Doc) {
    && InFindingOrder(DocTokens(doc), findings, |findings|, edits, owners)
    && EachAnswered(DocTokens(doc), findings, |findings|, edits)
    && Applies(content, edits, Untouching(DocTokens(doc), findings, |findings|), r)
    && ValidDoc(out) && MaskedDoc(MarkerPieces, doc, out) && r.content == Render(out)
    && DocTokens(out) == MaskTokens(MarkerPieces, DocTokens(doc), 0, Plan(content, edits))
  }

  /**
   Replaces every finding with a marker, never changing JSON structure.
   `parses` is the JSON parser's verdict and `doc` the tree it stands for.
   */
  method Redact(content: bytes, parses: bool, findings: seq<Finding>, ghost doc: Doc)
    returns (r: Result<Redacted, Refusal>)
    requires parses ==> ValidDoc(doc) && content == Render(doc)
    ensures r.Err? && r.error != ProvableOnStructure <==> !AllDescribe(content, findings)
    ensures r.Err? && r.error != ProvableOnStructure ==>
      exists i :: 0 <= i < |findings| && FirstFault(content, findings, i) == Some(r.error)
    ensures r == Err(ProvableOnStructure)
       <==> AllDescribe(content, findings) && parses && SomeUnredactable(DocTokens(doc), findings, |findings|)
    ensures r.Ok? && !parses ==> Applies(content, PlainEdits(findings), 0, r.value)
    ensures r.Ok? && parses ==> exists edits, owners, out :: RedactsDoc(content, doc, findings, r.value, edits, owners, out)
  {
    var fault := CheckSpans(content, findings);
    if fault.Some? {
      return Err(fault.value);
    }
    var discarded, edits := 0, [];
    var layout := Scan(content, parses, doc);
    ghost var owners: seq<nat>, out := [], doc;
    if layout.None? {
      edits := PlainEdits(findings);
    } else {
      LexedDoc(doc);
      PassDoc(doc);
      var refused;
      edits, discarded, refused := CollectEdits(layout.value, content, findings, DocTokens(doc));
      if refused {
        return Err(ProvableOnStructure);
      }
      owners :| InFindingOrder(DocTokens(doc), findings, |findings|, edits, owners);
      out := JsonOutcome(content, doc, findings, edits, owners);
    }
    var redacted := Apply(content, edits, discarded);
    assert parses ==> RedactsDoc(content, doc, findings, redacted, edits, owners, out);
    r := Ok(redacted);
  }
}
