/**
 Splicing markers into content: the `apply` half of `enforce.rs`. Edits are
 sorted, merged where they overlap or touch, and each merged group becomes one
 marker.
 */
module Splice {
  import opened Bytes

  /** One byte range to replace, and whether the marker needs its own quotes. */
  datatype Edit = Edit(range: Span, quoted: bool, tag: string)

  datatype Redacted = Redacted(content: bytes, applied: seq<string>, discarded: nat)

  // ── The marker ─────────────────────────────────────────────────────────

  predicate IsSafe(c: char) {
    'A' <= c <= 'Z' || 'a' <= c <= 'z' || '0' <= c <= '9' || c == '_' || c == '-'
  }

  predicate IsSafeByte(b: byte) {
    IsUpper(b) || IsLower(b) || IsDigit(b) || b == 0x5F || b == 0x2D
  }

  /** Every character of the tag as one byte of `[A-Za-z0-9_-]`: itself if it is one of those, else a hyphen. */
  function SafeTag(tag: string): (r: bytes)
    ensures |r| == |tag|
    ensures forall i | 0 <= i < |r| :: IsSafeByte(r[i]) && r[i] == if IsSafe(tag[i]) then tag[i] as int else 0x2D
  {
    if tag == [] then [] else [if IsSafe(tag[0]) then tag[0] as int else 0x2D] + SafeTag(tag[1..])
  }

  /** `[REDACTED:` */
  const MARKER_HEAD: bytes := [0x5B, 0x52, 0x45, 0x44, 0x41, 0x43, 0x54, 0x45, 0x44, 0x3A]

  function Marker(tag: string): bytes {
    MARKER_HEAD + SafeTag(tag) + [0x5D]
  }

  /** `[REDACTED:`, the tag made safe, `]`. */
  lemma MarkerText(tag: string)
    ensures |Marker(tag)| == 10 + |tag| + 1 && Marker(tag)[10 + |tag|] == ']' as int
    ensures forall i | 0 <= i < 10 :: Marker(tag)[i] == "[REDACTED:"[i] as int
    ensures forall i | 0 <= i < |tag| :: Marker(tag)[10 + i] == if IsSafe(tag[i]) then tag[i] as int else '-' as int
  {
    forall i | 0 <= i < |tag| ensures Marker(tag)[10 + i] == SafeTag(tag)[i] {
    }
  }

  function Replacement(e: Edit): bytes {
    if e.quoted then [0x22] + Marker(e.tag) + [0x22] else Marker(e.tag)
  }

  // ── Sorting ────────────────────────────────────────────────────────────

  predicate Before(a: Edit, b: Edit) {
    a.range.start < b.range.start || (a.range.start == b.range.start && a.range.end <= b.range.end)
  }

  predicate IsSorted(es: seq<Edit>) {
    |es| >= 2 ==> Before(es[0], es[1]) && IsSorted(es[1..])
  }

  function Insert(e: Edit, es: seq<Edit>): seq<Edit> {
    if es == [] || Before(e, es[0]) then [e] + es else [es[0]] + Insert(e, es[1..])
  }

  /** The library's stable sort by (start, end). */
  function Sort(es: seq<Edit>): seq<Edit> {
    if es == [] then [] else Insert(es[0], Sort(es[1..]))
  }

  lemma {:induction false} InsertSorts(e: Edit, es: seq<Edit>)
    requires IsSorted(es)
    ensures IsSorted(Insert(e, es))
    ensures multiset(Insert(e, es)) == multiset(es) + multiset{e}
  {
    if es == [] || Before(e, es[0]) {
      ConsTail(e, es);
    } else {
      InsertSorts(e, es[1..]);
      ConsTail(es[0], Insert(e, es[1..]));
      assert es == [es[0]] + es[1..];
    }
  }

  lemma {:induction false} SortSorts(es: seq<Edit>)
    ensures IsSorted(Sort(es))
    ensures multiset(Sort(es)) == multiset(es)
  {
    if es != [] {
      SortSorts(es[1..]);
      InsertSorts(es[0], Sort(es[1..]));
      assert es == [es[0]] + es[1..];
    }
  }

  lemma SortMembers(es: seq<Edit>, e: Edit)
    ensures e in Sort(es) <==> e in es
  {
    SortSorts(es);
    assert e in multiset(Sort(es)) <==> e in multiset(es);
  }

  /** The edits with one given range, in order. */
  function SameKey(es: seq<Edit>, key: Span): seq<Edit> {
    if es == [] then [] else (if es[0].range == key then [es[0]] else []) + SameKey(es[1..], key)
  }

  lemma {:induction false} InsertStable(e: Edit, es: seq<Edit>, key: Span)
    ensures SameKey(Insert(e, es), key) == (if e.range == key then [e] else []) + SameKey(es, key)
  {
    if es == [] || Before(e, es[0]) {
      assert ([e] + es)[1..] == es;
    } else {
      InsertStable(e, es[1..], key);
      assert Insert(e, es)[1..] == Insert(e, es[1..]);
    }
  }

  /** Edits with equal ranges keep the order their findings came in. */
  lemma {:induction false} SortStable(es: seq<Edit>, key: Span)
    ensures SameKey(Sort(es), key) == SameKey(es, key)
  {
    if es != [] {
      SortStable(es[1..], key);
      InsertStable(es[0], Sort(es[1..]), key);
    }
  }

  predicate AllWithin(es: seq<Edit>, n: nat) {
    forall i | 0 <= i < |es| :: es[i].range.WithinLength(n)
  }

  // ── Merging ────────────────────────────────────────────────────────────

  function Extend(g: Edit, e: Edit): Edit {
    g.(range := Span(g.range.start, Max(g.range.end, e.range.end)))
  }

  /** `g` grown by every following edit that overlaps or touches it, then the other groups. */
  function Grow(g: Edit, es: seq<Edit>): (gs: seq<Edit>)
    ensures |gs| > 0
    decreases |es|, 1
  {
    if es != [] && es[0].range.start <= g.range.end then Grow(Extend(g, es[0]), es[1..]) else [g] + Groups(es)
  }

  function Groups(es: seq<Edit>): seq<Edit>
    decreases |es|, 0
  {
    if es == [] then [] else Grow(es[0], es[1..])
  }

  /** In order from `cursor` on, each starting strictly after the one before it ends. */
  predicate Separate(gs: seq<Edit>, cursor: nat, n: nat) {
    gs != [] ==>
      && cursor <= gs[0].range.start <= gs[0].range.end <= n
      && (|gs| > 1 ==> gs[0].range.end < gs[1].range.start)
      && Separate(gs[1..], gs[0].range.end, n)
  }

  function Spliced(content: bytes, cursor: nat, gs: seq<Edit>): bytes
    requires cursor <= |content| && Separate(gs, cursor, |content|)
    decreases |gs|
  {
    if gs == [] then content[cursor..]
    else content[cursor..gs[0].range.start] + Replacement(gs[0]) + Spliced(content, gs[0].range.end, gs[1..])
  }

  /** Every following edit starts at or after `g` does. */
  predicate Follows(g: Edit, es: seq<Edit>) {
    es != [] ==> g.range.start <= es[0].range.start
  }

  lemma {:induction false} GrowSeparate(g: Edit, es: seq<Edit>, n: nat)
    requires Follows(g, es) && IsSorted(es) && AllWithin(es, n) && g.range.WithinLength(n)
    ensures Separate(Grow(g, es), g.range.start, n)
    ensures Grow(g, es)[0].range.start == g.range.start
    ensures Grow(g, es)[0].tag == g.tag && Grow(g, es)[0].quoted == g.quoted
    decreases |es|
  {
    if es != [] {
      if es[0].range.start <= g.range.end {
        GrowSeparate(Extend(g, es[0]), es[1..], n);
      } else {
        GrowSeparate(es[0], es[1..], n);
        assert ([g] + Groups(es))[1..] == Groups(es);
      }
    }
  }

  /** Groups never overlap or touch one another. */
  lemma GroupsSeparate(es: seq<Edit>, n: nat)
    requires IsSorted(es) && AllWithin(es, n)
    ensures Separate(Groups(es), 0, n)
  {
    if es != [] {
      GrowSeparate(es[0], es[1..], n);
    }
  }

  ghost predicate InSome(es: seq<Edit>, p: int) {
    exists i :: 0 <= i < |es| && es[i].range.Contains(p)
  }

  lemma InSomeHead(e: Edit, es: seq<Edit>, p: int)
    ensures InSome([e] + es, p) <==> e.range.Contains(p) || InSome(es, p)
  {
    var all := [e] + es;
    if e.range.Contains(p) {
      assert all[0].range.Contains(p);
    }
    if InSome(es, p) {
      var i :| 0 <= i < |es| && es[i].range.Contains(p);
      assert all[i + 1].range.Contains(p);
    }
    if InSome(all, p) {
      var i :| 0 <= i < |all| && all[i].range.Contains(p);
      assert i > 0 ==> es[i - 1].range.Contains(p);
    }
  }

  lemma {:induction false} GrowCovers(g: Edit, es: seq<Edit>, n: nat, p: int)
    requires Follows(g, es) && IsSorted(es) && AllWithin(es, n) && g.range.WithinLength(n)
    ensures InSome(Grow(g, es), p) <==> g.range.Contains(p) || InSome(es, p)
    decreases |es|
  {
    if es != [] {
      InSomeHead(es[0], es[1..], p);
      assert [es[0]] + es[1..] == es;
      if es[0].range.start <= g.range.end {
        GrowCovers(Extend(g, es[0]), es[1..], n, p);
      } else {
        GrowCovers(es[0], es[1..], n, p);
        InSomeHead(g, Groups(es), p);
      }
    } else {
      InSomeHead(g, [], p);
    }
  }

  /** The groups cover exactly the positions the edits cover. */
  lemma GroupsCover(es: seq<Edit>, n: nat, p: int)
    requires IsSorted(es) && AllWithin(es, n)
    ensures InSome(Groups(es), p) <==> InSome(es, p)
  {
    if es != [] {
      GrowCovers(es[0], es[1..], n, p);
      InSomeHead(es[0], es[1..], p);
      assert [es[0]] + es[1..] == es;
    }
  }

  predicate Inside(inner: Span, outer: Span) {
    outer.start <= inner.start && inner.end <= outer.end
  }

  /** Every edit lies inside the group returned with it, an empty one included. */
  lemma {:induction false} GroupOf(g: Edit, es: seq<Edit>, n: nat, e: Edit) returns (k: nat)
    requires Follows(g, es) && IsSorted(es) && AllWithin(es, n) && g.range.WithinLength(n)
    requires e in es || Inside(e.range, g.range)
    ensures k < |Grow(g, es)| && Inside(e.range, Grow(g, es)[k].range)
    decreases |es|
  {
    k := 0;
    if es != [] {
      if es[0].range.start <= g.range.end {
        k := GroupOf(Extend(g, es[0]), es[1..], n, e);
      } else if e in es {
        k := GroupOf(es[0], es[1..], n, e);
        k := k + 1;
      }
    }
  }

  /**
   The edit that tags a group is the first of its edits in sorted order: every
   earlier edit ends strictly before the group starts.
   */
  lemma {:induction false} GroupLeader(g: Edit, es: seq<Edit>, n: nat, k: nat) returns (i: nat)
    requires Follows(g, es) && IsSorted(es) && AllWithin(es, n) && g.range.WithinLength(n)
    requires 0 < k < |Grow(g, es)|
    ensures
      var h := Grow(g, es)[k];
      && i < |es| && h.range.start == es[i].range.start && h.tag == es[i].tag && h.quoted == es[i].quoted
      && g.range.end < h.range.start
      && forall j | 0 <= j < i :: es[j].range.end < h.range.start
    decreases |es|
  {
    if es[0].range.start <= g.range.end {
      i := GroupLeader(Extend(g, es[0]), es[1..], n, k);
      i := i + 1;
    } else {
      GrowSeparate(es[0], es[1..], n);
      if k == 1 {
        i := 0;
      } else {
        i := GroupLeader(es[0], es[1..], n, k - 1);
        i := i + 1;
      }
    }
  }

  // ── Where every byte of the output comes from ──────────────────────────

  /** A byte of the output: copied from a position of the content, or part of a marker. */
  datatype Origin = Copied(pos: nat) | Inserted(b: byte)

  function Copies(from: nat, to: nat): seq<Origin>
    requires from <= to
  {
    seq(to - from, i requires 0 <= i => Copied(from + i))
  }

  function Inserts(bs: bytes): seq<Origin> {
    seq(|bs|, i requires 0 <= i < |bs| => Inserted(bs[i]))
  }

  function Origins(n: nat, cursor: nat, gs: seq<Edit>): seq<Origin>
    requires cursor <= n && Separate(gs, cursor, n)
    decreases |gs|
  {
    if gs == [] then Copies(cursor, n)
    else Copies(cursor, gs[0].range.start) + Inserts(Replacement(gs[0])) + Origins(n, gs[0].range.end, gs[1..])
  }

  ghost predicate Explains(os: seq<Origin>, content: bytes, out: bytes) {
    |os| == |out| &&
    forall i | 0 <= i < |os| ::
      match os[i]
      case Copied(pos) => pos < |content| && out[i] == content[pos]
      case Inserted(b) => out[i] == b
  }

  ghost predicate InOrder(os: seq<Origin>) {
    forall i, j | 0 <= i < j < |os| && os[i].Copied? && os[j].Copied? :: os[i].pos < os[j].pos
  }

  lemma ExplainsJoin(os: seq<Origin>, os': seq<Origin>, content: bytes, out: bytes, out': bytes)
    requires Explains(os, content, out) && Explains(os', content, out')
    ensures Explains(os + os', content, out + out')
  {
  }

  /** The output is its origins read off. */
  lemma {:induction false} SplicedExplained(content: bytes, cursor: nat, gs: seq<Edit>)
    requires cursor <= |content| && Separate(gs, cursor, |content|)
    ensures Explains(Origins(|content|, cursor, gs), content, Spliced(content, cursor, gs))
    decreases |gs|
  {
    if gs != [] {
      var g := gs[0];
      var head, mid := Copies(cursor, g.range.start), Inserts(Replacement(g));
      SplicedExplained(content, g.range.end, gs[1..]);
      ExplainsJoin(head, mid, content, content[cursor..g.range.start], Replacement(g));
      ExplainsJoin(head + mid, Origins(|content|, g.range.end, gs[1..]), content,
                   content[cursor..g.range.start] + Replacement(g), Spliced(content, g.range.end, gs[1..]));
    }
  }

  /** A position survives exactly when no group holds it. */
  lemma {:induction false} Survives(n: nat, cursor: nat, gs: seq<Edit>, p: nat)
    requires cursor <= n && Separate(gs, cursor, n)
    ensures Copied(p) in Origins(n, cursor, gs) <==> cursor <= p < n && !InSome(gs, p)
    decreases |gs|
  {
    if gs == [] {
      InCopies(cursor, n, p);
    } else {
      var g := gs[0];
      Survives(n, g.range.end, gs[1..], p);
      InCopies(cursor, g.range.start, p);
      InSomeHead(g, gs[1..], p);
      assert [g] + gs[1..] == gs;
      if p < g.range.end {
        NoneBefore(gs[1..], g.range.end, n, p);
      }
      assert Copied(p) !in Inserts(Replacement(g));
    }
  }

  lemma InCopies(from: nat, to: nat, p: nat)
    requires from <= to
    ensures Copied(p) in Copies(from, to) <==> from <= p < to
  {
    if from <= p < to {
      assert Copies(from, to)[p - from] == Copied(p);
    }
  }

  /** Surviving bytes keep their order. */
  lemma {:induction false} OriginsInOrder(n: nat, cursor: nat, gs: seq<Edit>)
    requires cursor <= n && Separate(gs, cursor, n)
    ensures InOrder(Origins(n, cursor, gs))
    decreases |gs|
  {
    if gs != [] {
      var g := gs[0];
      var front := Copies(cursor, g.range.start) + Inserts(Replacement(g));
      var back := Origins(n, g.range.end, gs[1..]);
      OriginsInOrder(n, g.range.end, gs[1..]);
      forall j | 0 <= j < |back| && back[j].Copied? ensures g.range.end <= back[j].pos {
        Survives(n, g.range.end, gs[1..], back[j].pos);
        assert back[j] == Copied(back[j].pos);
      }
      InOrderJoin(front, back, g.range.end);
    }
  }

  lemma InOrderJoin(front: seq<Origin>, back: seq<Origin>, at: nat)
    requires InOrder(front) && InOrder(back)
    requires forall i | 0 <= i < |front| && front[i].Copied? :: front[i].pos < at
    requires forall j | 0 <= j < |back| && back[j].Copied? :: at <= back[j].pos
    ensures InOrder(front + back)
  {
  }

  lemma {:induction false} NoneBefore(gs: seq<Edit>, cursor: nat, n: nat, p: int)
    requires Separate(gs, cursor, n) && p < cursor
    ensures !InSome(gs, p)
    decreases |gs|
  {
    if gs != [] {
      NoneBefore(gs[1..], gs[0].range.end, n, p);
      InSomeHead(gs[0], gs[1..], p);
      assert [gs[0]] + gs[1..] == gs;
    }
  }

  // ── The loop ───────────────────────────────────────────────────────────

  function Tags(gs: seq<Edit>): seq<string> {
    seq(|gs|, i requires 0 <= i < |gs| => gs[i].tag)
  }

  ghost function Plan(content: bytes, edits: seq<Edit>): (gs: seq<Edit>)
    requires AllWithin(edits, |content|)
    ensures Separate(gs, 0, |content|)
  {
    SortSorts(edits);
    SortWithin(edits, |content|);
    GroupsSeparate(Sort(edits), |content|);
    Groups(Sort(edits))
  }

  lemma SortWithin(edits: seq<Edit>, n: nat)
    requires AllWithin(edits, n)
    ensures AllWithin(Sort(edits), n)
  {
    forall i | 0 <= i < |Sort(edits)| ensures Sort(edits)[i].range.WithinLength(n) {
      SortMembers(edits, Sort(edits)[i]);
    }
  }

  /** Merges the group that starts at `es[first]`; stops at the first edit past its end. */
  method MergeGroup(es: seq<Edit>, first: nat) returns (g: Edit, i: nat)
    requires first < |es|
    ensures first < i <= |es|
    ensures Groups(es[first..]) == [g] + Groups(es[i..])
    ensures i < |es| ==> g.range.end < es[i].range.start
    ensures g.range.start == es[first].range.start
  {
    var start, end := es[first].range.start, es[first].range.end;
    i := first + 1;
    g := es[first];
    assert es[first..][1..] == es[i..];
    while i < |es| && es[i].range.start <= end
      invariant first < i <= |es|
      invariant g == es[first].(range := Span(start, end))
      invariant Groups(es[first..]) == Grow(g, es[i..])
    {
      end := Max(end, es[i].range.end);
      g := Extend(g, es[i]);
      assert es[i..][1..] == es[i + 1..];
      i := i + 1;
    }
  }

  lemma AssocFour(a: bytes, b: bytes, c: bytes, d: bytes)
    ensures a + (b + c + d) == a + b + c + d
  {
  }

  /** Sorts, merges and splices; `start >= cursor` holds for every group. */
  method Apply(content: bytes, edits: seq<Edit>, discarded: nat) returns (r: Redacted)
    requires AllWithin(edits, |content|)
    ensures r == Redacted(Spliced(content, 0, Plan(content, edits)), Tags(Plan(content, edits)), discarded)
  {
    var es := Sort(edits);
    ghost var all := Plan(content, edits);
    var out: bytes, applied: seq<string> := [], [];
    var cursor: nat, i := 0, 0;
    assert es[0..] == es;
    while i < |es|
      invariant 0 <= i <= |es| && cursor <= |content|
      invariant Separate(Groups(es[i..]), cursor, |content|)
      invariant out + Spliced(content, cursor, Groups(es[i..])) == Spliced(content, 0, all)
      invariant applied + Tags(Groups(es[i..])) == Tags(all)
    {
      ghost var gs := Groups(es[i..]);
      var g;
      g, i := MergeGroup(es, i);
      assert gs[1..] == Groups(es[i..]);
      assert g.range.start >= cursor;
      if g.range.start >= cursor {
        assert Tags(gs) == [g.tag] + Tags(gs[1..]);
        AssocFour(out, content[cursor..g.range.start], Replacement(g), Spliced(content, g.range.end, gs[1..]));
        out := out + content[cursor..g.range.start];
        out := out + Replacement(g);
        applied := applied + [g.tag];
        cursor := g.range.end;
      }
    }
    out := out + content[cursor..];
    r := Redacted(out, applied, discarded);
  }

  /**
   Splice conservation: the output is the bytes no edit covers, in order, with
   one marker for each group.
   */
  lemma Conservation(content: bytes, edits: seq<Edit>) returns (os: seq<Origin>)
    requires AllWithin(edits, |content|)
    ensures Explains(os, content, Spliced(content, 0, Plan(content, edits)))
    ensures InOrder(os)
    ensures forall p: nat :: Copied(p) in os <==> p < |content| && !InSome(edits, p)
  {
    var gs := Plan(content, edits);
    os := Origins(|content|, 0, gs);
    SplicedExplained(content, 0, gs);
    OriginsInOrder(|content|, 0, gs);
    SortSorts(edits);
    SortWithin(edits, |content|);
    forall p: nat ensures Copied(p) in os <==> p < |content| && !InSome(edits, p) {
      Survives(|content|, 0, gs, p);
      GroupsCover(Sort(edits), |content|, p);
      SortInSome(edits, p);
    }
  }

  lemma SortInSome(edits: seq<Edit>, p: int)
    ensures InSome(Sort(edits), p) <==> InSome(edits, p)
  {
    if InSome(edits, p) {
      var i :| 0 <= i < |edits| && edits[i].range.Contains(p);
      SortMembers(edits, edits[i]);
    }
    if InSome(Sort(edits), p) {
      var i :| 0 <= i < |Sort(edits)| && Sort(edits)[i].range.Contains(p);
      SortMembers(edits, Sort(edits)[i]);
      var j :| 0 <= j < |edits| && edits[j] == Sort(edits)[i];
      assert edits[j].range.Contains(p);
    }
  }

  /** The groups of a plan: one for the first edit in sorted order, and so on. */
  lemma PlanGroups(content: bytes, edits: seq<Edit>)
    requires AllWithin(edits, |content|)
    ensures IsSorted(Sort(edits)) && AllWithin(Sort(edits), |content|)
    ensures edits != [] ==>
      Sort(edits) != [] && Plan(content, edits) == Grow(Sort(edits)[0], Sort(edits)[1..])
      && Follows(Sort(edits)[0], Sort(edits)[1..]) && IsSorted(Sort(edits)[1..])
  {
    SortSorts(edits);
    SortWithin(edits, |content|);
    if edits != [] {
      assert edits[0] in multiset(edits);
    }
  }

  /**
   A group takes its tag and quotes from the first of its edits in sorted
   order: every edit before that one ends strictly before the group starts.
   */
  lemma PlanLeader(content: bytes, edits: seq<Edit>, k: nat) returns (i: nat)
    requires AllWithin(edits, |content|) && k < |Plan(content, edits)|
    ensures
      var es, h := Sort(edits), Plan(content, edits)[k];
      && i < |es| && h.range.start == es[i].range.start && h.tag == es[i].tag && h.quoted == es[i].quoted
      && forall j | 0 <= j < i :: es[j].range.end < h.range.start
  {
    PlanGroups(content, edits);
    var es := Sort(edits);
    GrowSeparate(es[0], es[1..], |content|);
    i := 0;
    if k > 0 {
      i := GroupLeader(es[0], es[1..], |content|, k);
      i := i + 1;
    }
  }

  lemma {:induction false} FirstOfKey(es: seq<Edit>, key: Span) returns (x: nat)
    requires SameKey(es, key) != []
    ensures x < |es| && es[x] == SameKey(es, key)[0] && es[x].range == key
    ensures forall y | 0 <= y < x :: es[y].range != key
  {
    if es[0].range == key {
      x := 0;
    } else {
      x := FirstOfKey(es[1..], key);
      x := x + 1;
    }
  }

  lemma {:induction false} SortedFrom(es: seq<Edit>, i: nat, j: nat)
    requires IsSorted(es) && i < j < |es|
    ensures es[i].range.start <= es[j].range.start
    ensures es[i].range.start == es[j].range.start ==> es[i].range.end <= es[j].range.end
  {
    if i > 0 {
      SortedFrom(es[1..], i - 1, j - 1);
    } else if j > 1 {
      SortedFrom(es[1..], 0, j - 1);
    }
  }

  lemma {:induction false} KeyThere(es: seq<Edit>, i: nat)
    requires i < |es|
    ensures SameKey(es, es[i].range) != []
  {
    if i > 0 {
      KeyThere(es[1..], i - 1);
    }
  }

  /**
   Whose tag and quotes a group has, said of the edits as they came: of those
   that start where the group does, the shortest, and of these the first.
   */
  lemma PlanFirst(content: bytes, edits: seq<Edit>, k: nat) returns (x: nat)
    requires AllWithin(edits, |content|) && k < |Plan(content, edits)|
    ensures
      var h := Plan(content, edits)[k];
      && x < |edits| && h.range.start == edits[x].range.start && h.tag == edits[x].tag && h.quoted == edits[x].quoted
      && forall y | 0 <= y < |edits| && edits[y].range.start == h.range.start ::
           edits[x].range.end <= edits[y].range.end && (y < x ==> edits[x].range.end < edits[y].range.end)
  {
    var es := Sort(edits);
    SortSorts(edits);
    var i := PlanLeader(content, edits, k);
    var key := es[i].range;
    assert forall j | 0 <= j < i :: es[j].range != key by {
      SortWithin(edits, |content|);
    }
    KeyThere(es, i);
    var z := FirstOfKey(es, key);
    SortStable(edits, key);
    x := FirstOfKey(edits, key);
    forall y | 0 <= y < |edits| && edits[y].range.start == key.start ensures key.end <= edits[y].range.end {
      FirstHasLeast(content, edits, i, y);
    }
  }

  lemma FirstHasLeast(content: bytes, edits: seq<Edit>, i: nat, y: nat)
    requires AllWithin(edits, |content|) && i < |Sort(edits)| && y < |edits|
    requires forall j | 0 <= j < i :: Sort(edits)[j].range.end < Sort(edits)[i].range.start
    requires edits[y].range.start == Sort(edits)[i].range.start
    ensures Sort(edits)[i].range.end <= edits[y].range.end
  {
    var es := Sort(edits);
    SortSorts(edits);
    SortWithin(edits, |content|);
    SortMembers(edits, edits[y]);
    var j :| 0 <= j < |es| && es[j] == edits[y];
    if i < j {
      SortedFrom(es, i, j);
    }
  }

  /** Every edit, an empty one included, lies inside one of the groups. */
  lemma PlanCovers(content: bytes, edits: seq<Edit>, e: Edit) returns (k: nat)
    requires AllWithin(edits, |content|) && e in edits
    ensures k < |Plan(content, edits)| && Inside(e.range, Plan(content, edits)[k].range)
  {
    PlanGroups(content, edits);
    SortMembers(edits, e);
    var es := Sort(edits);
    assert es == [es[0]] + es[1..];
    k := GroupOf(es[0], es[1..], |content|, e);
  }
}
