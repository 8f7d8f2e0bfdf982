/**
 From spans of a joined text back to bytes. A value is given by where each of
 its characters starts, with one entry more for its end; values are joined with
 two separator characters between them.
 */
module JoinedSpans {
  import opened Bytes
  import opened Redaction

  /** One finding as the analyzer reports it, in code points. */
  datatype Hit = Hit(entity: string, start: nat, end: nat)

  /** At least one character, so that the value is not skipped. */
  predicate AllNonEmpty(ats: seq<seq<nat>>) {
    forall i | 0 <= i < |ats| :: |ats[i]| >= 2
  }

  /** The byte range of each character of one value. */
  function Slots(at: seq<nat>): seq<Option<Span>>
    requires |at| >= 2
  {
    seq(|at| - 1, i requires 0 <= i < |at| - 1 => Some(Span(at[i], at[i + 1])))
  }

  function Gap(n: nat): seq<Option<Span>> {
    if n == 0 then [] else [None, None]
  }

  /** The byte ranges behind the first `n` values joined; nothing behind a separator. */
  function JoinRaw(ats: seq<seq<nat>>, n: nat): seq<Option<Span>>
    requires n <= |ats| && AllNonEmpty(ats)
  {
    if n == 0 then [] else JoinRaw(ats, n - 1) + Gap(n - 1) + Slots(ats[n - 1])
  }

  /** The position in the joined text where value `k` starts. */
  function Offset(ats: seq<seq<nat>>, k: nat): (off: nat)
    requires k <= |ats| && AllNonEmpty(ats)
    ensures k > 0 ==> off >= 3
  {
    if k == 0 then 0 else Offset(ats, k - 1) + (|ats[k - 1]| - 1) + 2
  }

  /** Just past its last character. */
  function Limit(ats: seq<seq<nat>>, k: nat): nat
    requires k < |ats| && AllNonEmpty(ats)
  {
    Offset(ats, k) + (|ats[k]| - 1)
  }

  lemma {:induction false} JoinLength(ats: seq<seq<nat>>, n: nat)
    requires n <= |ats| && AllNonEmpty(ats)
    ensures |JoinRaw(ats, n) + Gap(n)| == Offset(ats, n)
  {
    if n > 0 {
      JoinLength(ats, n - 1);
    }
  }

  lemma {:induction false} JoinPrefix(ats: seq<seq<nat>>, at: seq<nat>, n: nat)
    requires n <= |ats| && AllNonEmpty(ats) && |at| >= 2
    ensures JoinRaw(ats + [at], n) == JoinRaw(ats, n)
  {
    if n > 0 {
      JoinPrefix(ats, at, n - 1);
    }
  }

  // ── What a span of the joined text stands for ──────────────────────────

  /** The part of one value that starts at `off` which the characters from `s` to `e` touch, as bytes. */
  function Part(at: seq<nat>, off: nat, s: nat, e: nat): seq<Span>
    requires |at| >= 2
  {
    var lo, hi := Max(s, off), Min(e, off + (|at| - 1));
    if lo < hi then [Span(at[lo - off], at[hi - off])] else []
  }

  /** One byte range for each of the first `n` values the span touches. */
  function Parts(ats: seq<seq<nat>>, n: nat, s: nat, e: nat): seq<Span>
    requires n <= |ats| && AllNonEmpty(ats)
  {
    if n == 0 then [] else Parts(ats, n - 1, s, e) + Part(ats[n - 1], Offset(ats, n - 1), s, e)
  }

  lemma {:induction false} OffsetGrows(ats: seq<seq<nat>>, k: nat, n: nat)
    requires k < n <= |ats| && AllNonEmpty(ats)
    ensures Limit(ats, k) + 2 <= Offset(ats, n)
  {
    if k < n - 1 {
      OffsetGrows(ats, k, n - 1);
    }
  }

  predicate Holds(ats: seq<seq<nat>>, k: nat, j: nat)
    requires k < |ats| && AllNonEmpty(ats)
  {
    Offset(ats, k) <= j < Limit(ats, k)
  }

  /** The slot of the `i`th character of value `k`. */
  lemma {:induction false} SlotOf(ats: seq<seq<nat>>, n: nat, k: nat, j: nat, i: nat)
    requires k < n <= |ats| && AllNonEmpty(ats) && j == Offset(ats, k) + i && i + 1 < |ats[k]|
    ensures j < |JoinRaw(ats, n)| && JoinRaw(ats, n)[j] == Some(Span(ats[k][i], ats[k][i + 1]))
  {
    var front := JoinRaw(ats, n - 1) + Gap(n - 1);
    JoinLength(ats, n - 1);
    if k == n - 1 {
      assert (front + Slots(ats[k]))[j] == Slots(ats[k])[i];
    } else {
      SlotOf(ats, n - 1, k, j, i);
      assert (front + Slots(ats[n - 1]))[j] == JoinRaw(ats, n - 1)[j];
    }
  }

  /** Whose character stands at position `j`; a separator is nobody's. */
  lemma {:induction false} SlotOwner(ats: seq<seq<nat>>, n: nat, j: nat) returns (k: nat)
    requires n <= |ats| && AllNonEmpty(ats) && j < |JoinRaw(ats, n)|
    ensures JoinRaw(ats, n)[j].Some? ==> k < n && Holds(ats, k, j)
  {
    var front := JoinRaw(ats, n - 1) + Gap(n - 1);
    JoinLength(ats, n - 1);
    k := n - 1;
    if j < |JoinRaw(ats, n - 1)| {
      k := SlotOwner(ats, n - 1, j);
      assert (front + Slots(ats[n - 1]))[j] == JoinRaw(ats, n - 1)[j];
    } else if j < |front| {
      assert (front + Slots(ats[n - 1]))[j] == Gap(n - 1)[j - |JoinRaw(ats, n - 1)|];
    }
  }

  /** Values that start at or after the span's end take no part. */
  lemma {:induction false} PartsBefore(ats: seq<seq<nat>>, k: nat, n: nat, s: nat, e: nat)
    requires k <= n <= |ats| && AllNonEmpty(ats) && e <= Offset(ats, k)
    ensures Parts(ats, n, s, e) == Parts(ats, k, s, e)
  {
    if k < n {
      if k < n - 1 {
        OffsetGrows(ats, k, n - 1);
      }
      PartsBefore(ats, k, n - 1, s, e);
      assert Part(ats[n - 1], Offset(ats, n - 1), s, e) == [];
    }
  }

  lemma PartSame(at: seq<nat>, off: nat, s: nat, j: nat)
    requires |at| >= 2 && s <= j && !(off <= j < off + (|at| - 1))
    ensures Part(at, off, s, j + 1) == Part(at, off, s, j)
  {
  }

  /** A position that none of the first `n` values holds changes none of their parts. */
  lemma {:induction false} PartsSame(ats: seq<seq<nat>>, n: nat, s: nat, j: nat)
    requires n <= |ats| && AllNonEmpty(ats) && s <= j
    requires forall i | 0 <= i < n :: !Holds(ats, i, j)
    ensures Parts(ats, n, s, j + 1) == Parts(ats, n, s, j)
  {
    if n > 0 {
      PartsSame(ats, n - 1, s, j);
      assert !Holds(ats, n - 1, j);
      PartSame(ats[n - 1], Offset(ats, n - 1), s, j);
    }
  }

  /** Once value `k` holds position `j`, only it and the values before it take part. */
  lemma PartsAt(ats: seq<seq<nat>>, n: nat, k: nat, s: nat, j: nat)
    requires k < n <= |ats| && AllNonEmpty(ats) && s <= j && Holds(ats, k, j)
    ensures Parts(ats, n, s, j) == Parts(ats, k, s, j) + Part(ats[k], Offset(ats, k), s, j)
    ensures Parts(ats, n, s, j + 1) == Parts(ats, k, s, j) + Part(ats[k], Offset(ats, k), s, j + 1)
  {
    PartsBefore(ats, k + 1, n, s, j);
    PartsBefore(ats, k + 1, n, s, j + 1);
    forall i | 0 <= i < k ensures !Holds(ats, i, j) {
      OffsetGrows(ats, i, k);
    }
    PartsSame(ats, k, s, j);
  }

  lemma PartStep(at: seq<nat>, off: nat, s: nat, j: nat, i: nat)
    requires |at| >= 2 && s <= j && j == off + i && i + 1 < |at|
    ensures s == j || i == 0 ==> Part(at, off, s, j) == [] && Part(at, off, s, j + 1) == [Span(at[i], at[i + 1])]
    ensures s < j && i > 0 ==>
      && |Part(at, off, s, j)| == 1 && Part(at, off, s, j)[0].end == at[i]
      && Part(at, off, s, j + 1) == [Span(Part(at, off, s, j)[0].start, at[i + 1])]
  {
  }

  /** A character right after one of the same value. */
  lemma Continues(ats: seq<seq<nat>>, k: nat, j: nat, i: nat)
    requires k < |ats| && AllNonEmpty(ats) && j == Offset(ats, k) + i && i + 1 < |ats[k]| && 0 < j
    ensures j < |JoinRaw(ats, |ats|)|
    ensures JoinRaw(ats, |ats|)[j - 1].Some? <==> i > 0
  {
    var raw := JoinRaw(ats, |ats|);
    SlotOf(ats, |ats|, k, j, i);
    if i > 0 {
      SlotOf(ats, |ats|, k, j - 1, i - 1);
    } else if raw[j - 1].Some? {
      var k' := SlotOwner(ats, |ats|, j - 1);
      if k' < k {
        OffsetGrows(ats, k', k);
      } else if k < k' {
        OffsetGrows(ats, k, k');
      }
      assert false;
    }
  }

  /** What one more character adds: nothing, a new part, or an extension of the last one. */
  lemma PartsStep(ats: seq<seq<nat>>, s: nat, j: nat) returns (front: seq<Span>, last: Span)
    requires AllNonEmpty(ats) && s <= j < |JoinRaw(ats, |ats|)|
    ensures
      var raw, now, next := JoinRaw(ats, |ats|), Parts(ats, |ats|, s, j), Parts(ats, |ats|, s, j + 1);
      if raw[j].None? then next == now
      else if j > s && raw[j - 1].Some?
      then now == front + [last] && last.end == raw[j].value.start && next == front + [Span(last.start, raw[j].value.end)]
      else next == now + [raw[j].value]
  {
    var raw, n := JoinRaw(ats, |ats|), |ats|;
    front, last := [], Span(0, 0);
    if raw[j].None? {
      forall i | 0 <= i < n ensures !Holds(ats, i, j) {
        if Holds(ats, i, j) {
          SlotOf(ats, n, i, j, j - Offset(ats, i));
        }
      }
      PartsSame(ats, n, s, j);
    } else {
      var k := SlotOwner(ats, n, j);
      var off, i := Offset(ats, k), j - Offset(ats, k);
      SlotOf(ats, n, k, j, i);
      PartsAt(ats, n, k, s, j);
      PartStep(ats[k], off, s, j, i);
      front := Parts(ats, k, s, j);
      if j > s {
        Continues(ats, k, j, i);
        if i > 0 {
          last := Part(ats[k], off, s, j)[0];
        }
      }
    }
  }

  /** Findings for the byte ranges; a model's score is not a checksum. */
  function Tagged(entity: string, spans: seq<Span>): seq<Finding> {
    seq(|spans|, i requires 0 <= i < |spans| => Finding(entity, spans[i], false))
  }

  lemma TaggedMore(entity: string, spans: seq<Span>, x: Span)
    ensures Tagged(entity, spans + [x]) == Tagged(entity, spans) + [Finding(entity, x, false)]
  {
  }

  ghost function Closed(closed: seq<Span>, run: Option<Span>): seq<Span> {
    closed + (if run.Some? then [run.value] else [])
  }

  /** What is found so far, with the run still open. */
  ghost predicate RunSoFar(ats: seq<seq<nat>>, h: Hit, j: nat, out0: seq<Finding>, out: seq<Finding>, run: Option<Span>,
                           closed: seq<Span>)
    requires AllNonEmpty(ats)
  {
    && h.start <= j <= |JoinRaw(ats, |ats|)|
    && out == out0 + Tagged(h.entity, closed)
    && Parts(ats, |ats|, h.start, j) == Closed(closed, run)
    && (run.Some? <==> j > h.start && JoinRaw(ats, |ats|)[j - 1].Some?)
  }

  /** A run goes on exactly when the next character is of the same value. */
  lemma RunStep(ats: seq<seq<nat>>, h: Hit, j: nat, out0: seq<Finding>, out: seq<Finding>, run: Option<Span>,
                closed: seq<Span>)
    requires AllNonEmpty(ats) && RunSoFar(ats, h, j, out0, out, run, closed) && j < |JoinRaw(ats, |ats|)|
    ensures
      var slot := JoinRaw(ats, |ats|)[j];
      if slot.Some? && run.Some?
      then && slot.value.start == run.value.end
           && RunSoFar(ats, h, j + 1, out0, out, Some(Span(run.value.start, slot.value.end)), closed)
      else RunSoFar(ats, h, j + 1, out0, out0 + Tagged(h.entity, Closed(closed, run)), slot, Closed(closed, run))
  {
    var slot := JoinRaw(ats, |ats|)[j];
    var front, last := PartsStep(ats, h.start, j);
    if slot.Some? && run.Some? {
      LastIs(closed, run.value, front, last);
    } else {
      assert Closed(closed, run) + [] == Closed(closed, run);
    }
  }

  lemma LastIs<T>(a: seq<T>, x: T, b: seq<T>, y: T)
    requires a + [x] == b + [y]
    ensures a == b && x == y
  {
    assert (a + [x])[..|a|] == a && (b + [y])[..|b|] == b;
    assert (a + [x])[|a|] == x && (b + [y])[|b|] == y;
  }

  lemma {:induction false} NoParts(ats: seq<seq<nat>>, n: nat, s: nat)
    requires n <= |ats| && AllNonEmpty(ats)
    ensures Parts(ats, n, s, s) == []
  {
    if n > 0 {
      NoParts(ats, n - 1, s);
    }
  }

  method FlushRun(entity: string, out: seq<Finding>, run: Option<Span>, ghost out0: seq<Finding>, ghost closed: seq<Span>)
    returns (out': seq<Finding>)
    requires out == out0 + Tagged(entity, closed)
    ensures out' == out0 + Tagged(entity, Closed(closed, run))
  {
    out' := out;
    if run.Some? {
      TaggedMore(entity, closed, run.value);
      Assoc(out0, Tagged(entity, closed), [Finding(entity, run.value, false)]);
      out' := out' + [Finding(entity, run.value, false)];
    } else {
      assert closed + [] == closed;
    }
  }

  /** The findings of one hit: a run of adjacent characters is one finding. */
  method HitFindings(raw: seq<Option<Span>>, h: Hit, out0: seq<Finding>, ghost ats: seq<seq<nat>>)
    returns (out: seq<Finding>)
    requires AllNonEmpty(ats) && raw == JoinRaw(ats, |ats|) && h.start <= h.end <= |raw|
    ensures out == out0 + Tagged(h.entity, Parts(ats, |ats|, h.start, h.end))
  {
    out := out0;
    var run, j: nat := None, h.start;
    ghost var closed: seq<Span> := [];
    NoParts(ats, |ats|, h.start);
    while j < h.end
      invariant h.start <= j <= h.end
      invariant RunSoFar(ats, h, j, out0, out, run, closed)
    {
      var slot := raw[j];
      RunStep(ats, h, j, out0, out, run, closed);
      if slot.Some? && run.Some? && slot.value.start == run.value.end {
        run := Some(Span(run.value.start, slot.value.end));
      } else {
        out := FlushRun(h.entity, out, run, out0, closed);
        closed := Closed(closed, run);
        run := slot;
      }
      j := j + 1;
    }
    out := FlushRun(h.entity, out, run, out0, closed);
  }

  predicate AllWithinText(hits: seq<Hit>, n: nat) {
    forall i | 0 <= i < |hits| :: hits[i].start <= hits[i].end <= n
  }

  /** The findings of the first `n` hits, in order. */
  function AllParts(ats: seq<seq<nat>>, hits: seq<Hit>, n: nat): seq<Finding>
    requires n <= |hits| && AllNonEmpty(ats)
  {
    if n == 0 then []
    else AllParts(ats, hits, n - 1) + Tagged(hits[n - 1].entity, Parts(ats, |ats|, hits[n - 1].start, hits[n - 1].end))
  }

  /** Maps code-point spans of the joined text onto bytes, one finding per value a span touches. */
  method ToFindings(raw: seq<Option<Span>>, hits: seq<Hit>, ghost ats: seq<seq<nat>>) returns (r: Option<seq<Finding>>)
    requires AllNonEmpty(ats) && raw == JoinRaw(ats, |ats|)
    ensures r == if AllWithinText(hits, |raw|) then Some(AllParts(ats, hits, |hits|)) else None
  {
    var out: seq<Finding>, i := [], 0;
    while i < |hits|
      invariant 0 <= i <= |hits|
      invariant forall k | 0 <= k < i :: hits[k].start <= hits[k].end <= |raw|
      invariant out == AllParts(ats, hits, i)
    {
      if hits[i].start > hits[i].end || hits[i].end > |raw| {
        return None;
      }
      out := HitFindings(raw, hits[i], out, ats);
      i := i + 1;
    }
    r := Some(out);
  }
}
