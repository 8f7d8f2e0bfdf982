/** The run scanner of `rules.rs`: which runs of a text are reported, and with which spans. */
module RuleScanner {
  import opened Bytes
  import opened CheckDigits

  datatype Kind = IdCard | BankCard | Mobile | CreditCode

  datatype Report = Report(kind: Kind, span: Span, certain: bool)

  // ── What a run of digits may be ────────────────────────────────────────

  predicate BrandLength(c: bytes)
    requires |c| >= 13 && AllDigits(c)
  {
    var one, two, four, n := Digit(c[0]), Number(c, 0, 2), Number(c, 0, 4), |c|;
    if one == 4 then n == 13 || n == 16
    else if 51 <= two <= 55 || 2221 <= four <= 2720 then n == 16
    else if two == 34 || two == 37 then n == 15
    else if two == 62 then 16 <= n <= 19
    else if two == 81 then n == 16
    else if two == 35 then 3528 <= four <= 3589 && n == 16
    else (two == 36 || two == 38 || two == 30) && n == 14
  }

  predicate IsBankCard(c: bytes) {
    13 <= |c| <= 19 && AllDigits(c) && BrandLength(c) && LuhnOk(c)
  }

  predicate IsMobile(c: bytes) {
    |c| == 11 && AllDigits(c) && c[0] == 0x31 &&
    var third := Digit(c[2]);
    match Digit(c[1])
    case 3 => true
    case 8 => true
    case 4 => third == 0 || third == 1 || 4 <= third <= 9
    case 5 => third != 4
    case 6 => third == 2 || third == 5 || third == 6 || third == 7
    case 7 => third <= 8
    case 9 => third != 4
    case _ => false
  }

  function RunEnd(c: bytes, start: nat): (end: nat)
    requires start <= |c|
    ensures start <= end <= |c| && (end < |c| ==> !IsDigit(c[end]))
    ensures forall i | start <= i < end :: IsDigit(c[i])
    decreases |c| - start
  {
    if start < |c| && IsDigit(c[start]) then RunEnd(c, start + 1) else start
  }

  /** A run of digits with no digit on either side. */
  predicate IsRun(c: bytes, s: nat, e: nat) {
    && s < e <= |c| && (forall i | s <= i < e :: IsDigit(c[i]))
    && (s == 0 || !IsDigit(c[s - 1])) && (e == |c| || !IsDigit(c[e]))
  }

  /** What the run is, where its span ends, and whether a check digit proves it. */
  function Classify(c: bytes, s: nat, e: nat): (r: Option<(Kind, nat, bool)>)
    requires s <= e <= |c|
    ensures r.Some? ==> e - s >= 11 && (r.value.1 == e || (r.value.1 == e + 1 <= |c| && !IsDigit(c[e])))
  {
    var run := c[s..e];
    if |run| == ID_WIDTH - 1 && e < |c| && (c[e] == LETTER_X || c[e] == SMALL_X) && IsIdCard(c[s..e + 1])
    then Some((IdCard, e + 1, true))
    else if |run| == ID_WIDTH && IsIdCard(run) then Some((IdCard, e, true))
    else if IsBankCard(run) then Some((BankCard, e, true))
    else if IsMobile(run) then Some((Mobile, e, false))
    else None
  }

  // ── Cards in display grouping ──────────────────────────────────────────

  predicate IsGroupLength(n: int) {
    3 <= n <= 6
  }

  /** The groups that follow `cursor`, each after one separator. */
  function Groups(c: bytes, sep: byte, cursor: nat): (gs: seq<Span>)
    requires cursor <= |c|
    decreases |c| - cursor
  {
    if cursor < |c| && c[cursor] == sep && IsGroupLength(RunEnd(c, cursor + 1) - (cursor + 1))
    then [Span(cursor + 1, RunEnd(c, cursor + 1))] + Groups(c, sep, RunEnd(c, cursor + 1))
    else []
  }

  function LastEnd(gs: seq<Span>, end: nat): nat {
    if gs == [] then end else gs[|gs| - 1].end
  }

  lemma {:induction false} GroupsWithin(c: bytes, sep: byte, cursor: nat)
    requires cursor <= |c|
    ensures forall i | 0 <= i < |Groups(c, sep, cursor)| :: Groups(c, sep, cursor)[i].WithinLength(|c|)
    ensures cursor <= LastEnd(Groups(c, sep, cursor), cursor) <= |c|
    decreases |c| - cursor
  {
    if Groups(c, sep, cursor) != [] {
      var end := RunEnd(c, cursor + 1);
      GroupsWithin(c, sep, end);
      ConsTail(Span(cursor + 1, end), Groups(c, sep, end));
    }
  }

  /** The digits of the groups, joined. */
  function JoinGroups(c: bytes, gs: seq<Span>): bytes
    requires forall i | 0 <= i < |gs| :: gs[i].WithinLength(|c|)
  {
    if gs == [] then []
    else
      assert gs[0].WithinLength(|c|);
      c[gs[0].start..gs[0].end] + JoinGroups(c, gs[1..])
  }

  predicate IsSeparator(b: byte) {
    b == 0x20 || b == 0x2D
  }

  /** Where the grouped card that starts with this run ends, if there is one. */
  function GroupedEnd(c: bytes, s: nat, e: nat): Option<nat>
    requires s <= e <= |c|
  {
    if !IsGroupLength(e - s) || e == |c| || !IsSeparator(c[e]) then None
    else
      var gs := Groups(c, c[e], e);
      GroupsWithin(c, c[e], e);
      if |gs| >= 2 && IsBankCard(c[s..e] + JoinGroups(c, gs)) then Some(LastEnd(gs, e)) else None
  }

  method DigitRunEnd(c: bytes, start: nat) returns (end: nat)
    requires start <= |c|
    ensures end == RunEnd(c, start)
  {
    end := start;
    while end < |c| && IsDigit(c[end])
      invariant start <= end <= |c| && RunEnd(c, start) == RunEnd(c, end)
    {
      end := end + 1;
    }
  }

  /** The loop of `grouped_card`; giving up past nineteen digits never misses a card. */
  method GroupedCard(c: bytes, s: nat, e: nat) returns (r: Option<nat>)
    requires s <= e <= |c|
    ensures r == GroupedEnd(c, s, e)
  {
    if !IsGroupLength(e - s) || e == |c| || !IsSeparator(c[e]) {
      return None;
    }
    var sep, digits, groups, cursor := c[e], c[s..e], 1, e;
    ghost var all := Groups(c, sep, e);
    GroupsWithin(c, sep, e);
    while cursor < |c| && c[cursor] == sep
      invariant e <= cursor <= |c| && groups >= 1
      invariant digits + Rest(c, sep, cursor) == c[s..e] + Rest(c, sep, e)
      invariant groups + |Groups(c, sep, cursor)| == 1 + |all|
      invariant LastEnd(Groups(c, sep, cursor), cursor) == LastEnd(all, e)
      decreases |c| - cursor
    {
      var start := cursor + 1;
      var end := DigitRunEnd(c, start);
      if !IsGroupLength(end - start) {
        break;
      }
      NextGroup(c, sep, cursor, start, end);
      Assoc(digits, c[start..end], Rest(c, sep, end));
      digits := digits + c[start..end];
      groups := groups + 1;
      cursor := end;
      if |digits| > 19 {
        return None;
      }
    }
    assert Groups(c, sep, cursor) == [];
    assert digits + [] == digits;
    if groups >= 3 && IsBankCard(digits) {
      return Some(cursor);
    }
    r := None;
  }

  lemma NextGroup(c: bytes, sep: byte, cursor: nat, start: nat, end: nat)
    requires cursor < |c| && c[cursor] == sep && start == cursor + 1 && end == RunEnd(c, start) && IsGroupLength(end - start)
    ensures |Groups(c, sep, cursor)| == 1 + |Groups(c, sep, end)|
    ensures LastEnd(Groups(c, sep, cursor), cursor) == LastEnd(Groups(c, sep, end), end)
    ensures Rest(c, sep, cursor) == c[start..end] + Rest(c, sep, end)
  {
    ConsTail(Span(start, end), Groups(c, sep, end));
    GroupsWithin(c, sep, cursor);
  }

  function Rest(c: bytes, sep: byte, cursor: nat): bytes
    requires cursor <= |c|
  {
    GroupsWithin(c, sep, cursor);
    JoinGroups(c, Groups(c, sep, cursor))
  }

  // ── The digit pass ─────────────────────────────────────────────────────

  /** No run of digits goes on across `i`. */
  predicate AtBoundary(c: bytes, i: nat) {
    i <= |c| && (i == 0 || i == |c| || !IsDigit(c[i - 1]) || !IsDigit(c[i]))
  }

  /** What the run that starts at `s` is reported as: a grouped card first, else what it is itself. */
  function ReportOf(c: bytes, s: nat, e: nat): Option<Report>
    requires s <= e <= |c|
  {
    var grouped, single := GroupedEnd(c, s, e), Classify(c, s, e);
    if grouped.Some? then Some(Report(BankCard, Span(s, grouped.value), true))
    else if single.Some? then Some(Report(single.value.0, Span(s, single.value.1), single.value.2))
    else None
  }

  lemma RunIsMaximal(c: bytes, s: nat)
    requires s < |c| && IsDigit(c[s]) && AtBoundary(c, s)
    ensures IsRun(c, s, RunEnd(c, s))
  {
  }

  lemma RunUnique(c: bytes, s: nat, e: nat, e': nat)
    requires IsRun(c, s, e) && IsRun(c, s, e')
    ensures e == e'
  {
  }

  /** Runs inside the groups of a card are those groups, so they are short. */
  lemma {:induction false} RunsInGroups(c: bytes, sep: byte, cursor: nat, s: nat, e: nat)
    requires cursor <= |c| && IsSeparator(sep) && IsRun(c, s, e)
    requires cursor <= s < LastEnd(Groups(c, sep, cursor), cursor)
    ensures e - s <= 6
    decreases |c| - cursor
  {
    var gs, end := Groups(c, sep, cursor), RunEnd(c, cursor + 1);
    ConsTail(Span(cursor + 1, end), Groups(c, sep, end));
    if end <= s {
      RunsInGroups(c, sep, end, s, e);
    } else {
      assert s == cursor + 1;
    }
  }

  /** The run of `start`, and every run its report reaches over, has been dealt with. */
  lemma ReportCovers(c: bytes, start: nat, s: nat, e: nat)
    requires start < |c| && IsRun(c, start, RunEnd(c, start)) && ReportOf(c, start, RunEnd(c, start)).Some?
    requires IsRun(c, s, e) && start <= s < ReportOf(c, start, RunEnd(c, start)).value.span.end
    ensures s == start || Classify(c, s, e).None?
  {
    var end := RunEnd(c, start);
    var grouped := GroupedEnd(c, start, end);
    if s != start {
      assert s > end by {
        assert !(start < s < end);
      }
      if grouped.Some? {
        RunsInGroups(c, c[end], end, s, e);
      }
    }
  }

  /** In order, each starting where the one before ended or later. */
  ghost predicate InOrder(out: seq<Report>, limit: nat) {
    && (forall i, j | 0 <= i < j < |out| :: out[i].span.end <= out[j].span.start)
    && (forall i | 0 <= i < |out| :: out[i].span.start < out[i].span.end <= limit)
  }

  /** Each starts on a digit boundary and is what its run is reported as. */
  ghost predicate AllExact(c: bytes, out: seq<Report>) {
    forall i | 0 <= i < |out| :: IsExact(c, out[i])
  }

  ghost predicate IsExact(c: bytes, r: Report) {
    exists e :: IsRun(c, r.span.start, e) && ReportOf(c, r.span.start, e) == Some(r)
  }

  /** Every run that starts before `n` and is an identifier of its own is reported with its own span. */
  ghost predicate AllFound(c: bytes, out: seq<Report>, n: nat) {
    forall s: nat, e: nat | s < n && IsRun(c, s, e) && Classify(c, s, e).Some? :: Found(c, out, s, e)
  }

  ghost predicate Found(c: bytes, out: seq<Report>, s: nat, e: nat)
    requires s <= e <= |c| && Classify(c, s, e).Some?
  {
    Report(Classify(c, s, e).value.0, Span(s, Classify(c, s, e).value.1), Classify(c, s, e).value.2) in out
  }

  predicate Touches(out: seq<Report>, s: nat) {
    exists i | 0 <= i < |out| :: out[i].span.start <= s < out[i].span.end
  }

  /** Every run that starts before `n` and has a report, a grouped card included, is in one that is made. */
  ghost predicate AllTouched(c: bytes, out: seq<Report>, n: nat) {
    forall s: nat, e: nat | s < n && IsRun(c, s, e) && ReportOf(c, s, e).Some? :: Touches(out, s)
  }

  lemma TouchesMore(out: seq<Report>, r: Report, s: nat)
    ensures Touches(out, s) || r.span.start <= s < r.span.end ==> Touches(out + [r], s)
  {
    if Touches(out, s) {
      var i :| 0 <= i < |out| && out[i].span.start <= s < out[i].span.end;
      assert (out + [r])[i] == out[i];
    } else if r.span.start <= s < r.span.end {
      assert (out + [r])[|out|] == r;
    }
  }

  lemma TouchedNext(c: bytes, out: seq<Report>, start: nat, r: Report)
    requires AllTouched(c, out, start) && r.span.start == start
    ensures AllTouched(c, out + [r], r.span.end)
  {
    forall s: nat, e: nat | s < r.span.end && IsRun(c, s, e) && ReportOf(c, s, e).Some? ensures Touches(out + [r], s) {
      TouchesMore(out, r, s);
    }
  }

  lemma TouchedSkip(c: bytes, out: seq<Report>, start: nat)
    requires start < |c| && IsRun(c, start, RunEnd(c, start)) && ReportOf(c, start, RunEnd(c, start)).None?
    requires AllTouched(c, out, start)
    ensures AllTouched(c, out, RunEnd(c, start))
  {
    forall s: nat, e: nat | s < RunEnd(c, start) && IsRun(c, s, e) && ReportOf(c, s, e).Some? ensures Touches(out, s) {
      if s == start {
        RunUnique(c, start, e, RunEnd(c, start));
      }
    }
  }

  lemma ReportShape(c: bytes, s: nat, e: nat)
    requires IsRun(c, s, e) && ReportOf(c, s, e).Some?
    ensures
      var r := ReportOf(c, s, e).value;
      r.span.start == s && e <= r.span.end <= |c| && AtBoundary(c, r.span.end)
  {
    if GroupedEnd(c, s, e).Some? {
      GroupsEnd(c, c[e], e);
    }
  }

  lemma {:induction false} GroupsEnd(c: bytes, sep: byte, cursor: nat)
    requires cursor <= |c| && AtBoundary(c, cursor)
    ensures cursor <= LastEnd(Groups(c, sep, cursor), cursor) <= |c|
    ensures AtBoundary(c, LastEnd(Groups(c, sep, cursor), cursor))
    decreases |c| - cursor
  {
    if Groups(c, sep, cursor) != [] {
      var end := RunEnd(c, cursor + 1);
      GroupsEnd(c, sep, end);
      ConsTail(Span(cursor + 1, end), Groups(c, sep, end));
    }
  }

  lemma StillFound(c: bytes, out: seq<Report>, n: nat, more: seq<Report>)
    requires AllFound(c, out, n)
    ensures AllFound(c, out + more, n)
  {
    forall s: nat, e: nat | s < n && IsRun(c, s, e) && Classify(c, s, e).Some? ensures Found(c, out + more, s, e) {
      assert Found(c, out, s, e);
    }
  }

  /** A run that is an identifier of its own is too long to be a group. */
  lemma OwnReport(c: bytes, s: nat, e: nat)
    requires s <= e <= |c| && Classify(c, s, e).Some?
    ensures GroupedEnd(c, s, e).None?
  {
  }

  lemma FoundNext(c: bytes, out: seq<Report>, start: nat, r: Report)
    requires start < |c| && IsRun(c, start, RunEnd(c, start)) && ReportOf(c, start, RunEnd(c, start)) == Some(r)
    requires AllFound(c, out, start)
    ensures AllFound(c, out + [r], r.span.end)
  {
    var out' := out + [r];
    StillFound(c, out, start, [r]);
    forall s: nat, e: nat | s < r.span.end && IsRun(c, s, e) && Classify(c, s, e).Some? ensures Found(c, out', s, e) {
      if start <= s {
        ReportCovers(c, start, s, e);
        RunUnique(c, start, e, RunEnd(c, start));
        OwnReport(c, s, e);
        assert r in out';
      }
    }
  }

  /** All that is to be reported before `n` is, and nothing else. */
  ghost predicate Reported(c: bytes, out: seq<Report>, n: nat) {
    InOrder(out, n) && AllExact(c, out) && AllFound(c, out, n) && AllTouched(c, out, n)
  }

  lemma ReportNext(c: bytes, out: seq<Report>, start: nat, r: Report, n: nat)
    requires start < |c| && IsRun(c, start, RunEnd(c, start)) && ReportOf(c, start, RunEnd(c, start)) == Some(r)
    requires Reported(c, out, start) && n == r.span.end
    ensures Reported(c, out + [r], n) && start < n <= |c| && AtBoundary(c, n)
  {
    ReportShape(c, start, RunEnd(c, start));
    FoundNext(c, out, start, r);
    TouchedNext(c, out, start, r);
  }

  lemma FoundSkip(c: bytes, out: seq<Report>, start: nat)
    requires start < |c| && IsRun(c, start, RunEnd(c, start)) && ReportOf(c, start, RunEnd(c, start)).None?
    requires AllFound(c, out, start)
    ensures AllFound(c, out, RunEnd(c, start))
  {
    forall s: nat, e: nat | s < RunEnd(c, start) && IsRun(c, s, e) && Classify(c, s, e).Some? ensures Found(c, out, s, e) {
      if s == start {
        RunUnique(c, start, e, RunEnd(c, start));
      }
    }
  }

  /** `scan_digit_runs`: exact spans, in order, and no identifier left out. */
  method ScanDigitRuns(c: bytes) returns (out: seq<Report>)
    ensures InOrder(out, |c|) && AllExact(c, out) && AllFound(c, out, |c|) && AllTouched(c, out, |c|)
  {
    out := [];
    var i := 0;
    while i < |c|
      invariant AtBoundary(c, i) && Reported(c, out, i)
      decreases |c| - i
    {
      if !IsDigit(c[i]) {
        i := i + 1;
        continue;
      }
      var start := i;
      RunIsMaximal(c, start);
      var end := DigitRunEnd(c, start);
      var grouped := GroupedCard(c, start, end);
      if grouped.Some? {
        i := grouped.value;
        ReportNext(c, out, start, Report(BankCard, Span(start, grouped.value), true), i);
        out := out + [Report(BankCard, Span(start, grouped.value), true)];
        continue;
      }
      var single := Classify(c, start, end);
      if single.Some? {
        i := single.value.1;
        ReportNext(c, out, start, Report(single.value.0, Span(start, single.value.1), single.value.2), i);
        out := out + [Report(single.value.0, Span(start, single.value.1), single.value.2)];
        continue;
      }
      FoundSkip(c, out, start);
      TouchedSkip(c, out, start);
      i := end;
    }
  }

  // ── The social credit pass ─────────────────────────────────────────────

  predicate IsUpperAlnum(b: byte) {
    IsDigit(b) || IsUpper(b)
  }

  /** A run of digits and upper-case letters with none on either side. */
  predicate IsAlnumRun(c: bytes, s: nat, e: nat) {
    && s < e <= |c| && (forall i | s <= i < e :: IsUpperAlnum(c[i]))
    && (s == 0 || !IsUpperAlnum(c[s - 1])) && (e == |c| || !IsUpperAlnum(c[e]))
  }

  predicate Overlapping(a: Span, b: Span) {
    a.start < b.end && b.start < a.end
  }

  /** No two reports share a byte. */
  ghost predicate Disjoint(out: seq<Report>) {
    forall i, j | 0 <= i < j < |out| :: !Overlapping(out[i].span, out[j].span)
  }

  predicate Clashes(out: seq<Report>, span: Span) {
    exists i | 0 <= i < |out| :: Overlapping(out[i].span, span)
  }

  predicate IsCode(c: bytes, s: nat, e: nat) {
    IsAlnumRun(c, s, e) && e - s == ID_WIDTH && IsUsci(c[s..e])
  }

  /** Every code that starts before `n` is reported, unless part of it already was. */
  ghost predicate CodesFound(c: bytes, out: seq<Report>, n: nat) {
    forall s: nat, e: nat | s < n && IsCode(c, s, e) :: Clashes(out, Span(s, e))
  }

  /** What was added after the first `k`: codes, each with exactly its own span. */
  ghost predicate CodesExact(c: bytes, out: seq<Report>, k: nat) {
    forall i | k <= i < |out| ::
      IsCode(c, out[i].span.start, out[i].span.end) && out[i] == Report(CreditCode, out[i].span, true)
  }

  lemma ClashesMore(out: seq<Report>, r: Report, span: Span)
    ensures Clashes(out, span) || Overlapping(r.span, span) ==> Clashes(out + [r], span)
  {
    if Clashes(out, span) {
      var i :| 0 <= i < |out| && Overlapping(out[i].span, span);
      assert (out + [r])[i] == out[i];
    } else if Overlapping(r.span, span) {
      assert (out + [r])[|out|] == r;
    }
  }

  lemma CodesKept(c: bytes, out: seq<Report>, n: nat, r: Report)
    requires CodesFound(c, out, n)
    ensures CodesFound(c, out + [r], n)
  {
    forall s: nat, e: nat | s < n && IsCode(c, s, e) ensures Clashes(out + [r], Span(s, e)) {
      ClashesMore(out, r, Span(s, e));
    }
  }

  lemma CodesNext(c: bytes, out: seq<Report>, start: nat, i: nat)
    requires CodesFound(c, out, start) && IsAlnumRun(c, start, i)
    requires IsCode(c, start, i) ==> Clashes(out, Span(start, i))
    ensures CodesFound(c, out, i)
  {
    forall s: nat, e: nat | s < i && IsCode(c, s, e) ensures Clashes(out, Span(s, e)) {
      if start <= s {
        AlnumRunUnique(c, start, i, s, e);
      }
    }
  }

  lemma AlnumRunUnique(c: bytes, start: nat, i: nat, s: nat, e: nat)
    requires IsAlnumRun(c, start, i) && IsAlnumRun(c, s, e) && start <= s < i
    ensures s == start && e == i
  {
  }

  /** One run of the pass: reported when it is a code that no earlier report touches. */
  method ScanCodeRun(c: bytes, start: nat, i: nat, out: seq<Report>, ghost k: nat) returns (out': seq<Report>)
    requires IsAlnumRun(c, start, i) && k <= |out| && Disjoint(out) && CodesFound(c, out, start) && CodesExact(c, out, k)
    ensures out <= out' && Disjoint(out') && CodesFound(c, out', i) && CodesExact(c, out', k)
  {
    out' := out;
    var code := TestUsci(c[start..i]);
    var r := Report(CreditCode, Span(start, i), true);
    if i - start == ID_WIDTH && code && !Clashes(out, r.span) {
      CodesKept(c, out, start, r);
      ClashesMore(out, r, r.span);
      out' := out + [r];
    }
    CodesNext(c, out', start, i);
  }

  method ScanCodeRuns(c: bytes, found: seq<Report>) returns (out: seq<Report>)
    requires Disjoint(found)
    ensures found <= out && Disjoint(out) && CodesFound(c, out, |c|) && CodesExact(c, out, |found|)
  {
    out := found;
    var i := 0;
    while i < |c|
      invariant 0 <= i <= |c| && (i == 0 || i == |c| || !IsUpperAlnum(c[i - 1]) || !IsUpperAlnum(c[i]))
      invariant found <= out && Disjoint(out) && CodesFound(c, out, i) && CodesExact(c, out, |found|)
      decreases |c| - i
    {
      if !IsUpperAlnum(c[i]) {
        i := i + 1;
        continue;
      }
      var start := i;
      while i < |c| && IsUpperAlnum(c[i])
        invariant start <= i <= |c| && forall k | start <= k < i :: IsUpperAlnum(c[k])
        decreases |c| - i
      {
        i := i + 1;
      }
      out := ScanCodeRun(c, start, i, out, |found|);
    }
  }

  // ── The whole scan ─────────────────────────────────────────────────────

  function Insert(r: Report, rs: seq<Report>): seq<Report> {
    if rs == [] || r.span.start <= rs[0].span.start then [r] + rs else [rs[0]] + Insert(r, rs[1..])
  }

  /** The library's stable sort by start. */
  function Sort(rs: seq<Report>): seq<Report> {
    if rs == [] then [] else Insert(rs[0], Sort(rs[1..]))
  }

  ghost predicate Sorted(rs: seq<Report>) {
    forall i, j | 0 <= i < j < |rs| :: rs[i].span.start <= rs[j].span.start
  }

  lemma {:induction false} InsertSorts(r: Report, rs: seq<Report>)
    requires Sorted(rs)
    ensures Sorted(Insert(r, rs)) && multiset(Insert(r, rs)) == multiset(rs) + multiset{r}
  {
    if rs != [] && r.span.start > rs[0].span.start {
      var rest := Insert(r, rs[1..]);
      InsertSorts(r, rs[1..]);
      assert rs == [rs[0]] + rs[1..];
      forall i | 0 <= i < |rest| ensures rs[0].span.start <= rest[i].span.start {
        InsertMembers(r, rs[1..], rest, i);
      }
      SortedCons(rs[0], rest);
    } else if rs != [] {
      SortedCons(r, rs);
    }
  }

  lemma SortedCons(r: Report, rs: seq<Report>)
    requires Sorted(rs) && forall i | 0 <= i < |rs| :: r.span.start <= rs[i].span.start
    ensures Sorted([r] + rs)
  {
  }

  lemma InsertMembers(r: Report, rs: seq<Report>, all: seq<Report>, i: nat)
    requires multiset(all) == multiset(rs) + multiset{r} && i < |all|
    ensures all[i] == r || all[i] in rs
  {
    assert all[i] in multiset(all);
  }

  lemma {:induction false} SortSorts(rs: seq<Report>)
    ensures Sorted(Sort(rs)) && multiset(Sort(rs)) == multiset(rs)
  {
    if rs != [] {
      SortSorts(rs[1..]);
      InsertSorts(rs[0], Sort(rs[1..]));
      assert rs == [rs[0]] + rs[1..];
    }
  }

  /** Reports that are never empty and never share a byte have all different spans. */
  ghost predicate Separate(rs: seq<Report>) {
    forall r, r' | r in rs && r' in rs && r != r' :: !Overlapping(r.span, r'.span)
  }

  ghost predicate NonEmpty(rs: seq<Report>, n: nat) {
    forall r | r in rs :: r.span.start < r.span.end <= n
  }

  lemma DisjointSeparate(rs: seq<Report>, n: nat)
    requires Disjoint(rs) && NonEmpty(rs, n)
    ensures Separate(rs) && forall i, j | 0 <= i < j < |rs| :: rs[i] != rs[j]
  {
  }

  lemma {:induction false} NoRepeats(rs: seq<Report>, r: Report)
    requires forall i, j | 0 <= i < j < |rs| :: rs[i] != rs[j]
    ensures multiset(rs)[r] <= 1
  {
    if rs != [] {
      assert rs == [rs[0]] + rs[1..];
      NoRepeats(rs[1..], r);
      if r == rs[0] {
        assert r !in rs[1..];
      }
    }
  }

  lemma OnceOnly(rs: seq<Report>, i: nat, j: nat)
    requires i < j < |rs| && forall r :: multiset(rs)[r] <= 1
    ensures rs[i] != rs[j]
  {
    assert rs == rs[..i] + [rs[i]] + rs[i + 1..j] + [rs[j]] + rs[j + 1..];
    assert multiset(rs) == multiset(rs[..i]) + multiset{rs[i], rs[j]} + multiset(rs[i + 1..j]) + multiset(rs[j + 1..]);
    assert multiset(rs)[rs[i]] <= 1;
  }

  /** Sorted by start and sharing no byte: each report ends before the next one starts. */
  lemma SortedInOrder(rs: seq<Report>, n: nat)
    requires Disjoint(rs) && NonEmpty(rs, n)
    ensures InOrder(Sort(rs), n) && forall r :: r in Sort(rs) <==> r in rs
  {
    var sorted := Sort(rs);
    SortSorts(rs);
    DisjointSeparate(rs, n);
    forall r ensures r in sorted <==> r in rs {
      assert r in multiset(sorted) <==> r in multiset(rs);
    }
    forall r ensures multiset(sorted)[r] <= 1 {
      NoRepeats(rs, r);
    }
    forall i, j | 0 <= i < j < |sorted| ensures sorted[i].span.end <= sorted[j].span.start {
      OnceOnly(sorted, i, j);
      assert !Overlapping(sorted[i].span, sorted[j].span);
    }
  }

  /**
   `scan`: the reports are in order and share no byte; each is an exact digit
   report or an exact code; every run that is an identifier is reported with
   its own span, and every grouped card is unless it starts inside a report;
   and every code is, unless part of it already was.
   */
  method Scan(c: bytes) returns (out: seq<Report>)
    ensures InOrder(out, |c|)
    ensures forall r | r in out :: IsReport(c, r)
    ensures AllFound(c, out, |c|) && AllTouched(c, out, |c|) && CodesFound(c, out, |c|)
  {
    var digits := ScanDigitRuns(c);
    var all := ScanCodeRuns(c, digits);
    assert NonEmpty(all, |c|) by {
      forall r | r in all ensures r.span.start < r.span.end <= |c| {
        var i :| 0 <= i < |all| && all[i] == r;
        if i < |digits| {
          assert digits[i] == r;
        }
      }
    }
    SortedInOrder(all, |c|);
    out := Sort(all);
    forall r | r in out ensures IsReport(c, r) {
      ReportsExact(c, digits, all, r);
    }
    FoundKept(c, digits, out);
    CodesSorted(c, all, out);
  }

  ghost predicate IsReport(c: bytes, r: Report) {
    IsExact(c, r) || (r.kind == CreditCode && r.certain && IsCode(c, r.span.start, r.span.end))
  }

  lemma ReportsExact(c: bytes, digits: seq<Report>, all: seq<Report>, r: Report)
    requires digits <= all && r in all && AllExact(c, digits) && CodesExact(c, all, |digits|)
    ensures IsReport(c, r)
  {
    var i :| 0 <= i < |all| && all[i] == r;
    if i < |digits| {
      assert digits[i] == r;
    }
  }

  lemma FoundKept(c: bytes, digits: seq<Report>, out: seq<Report>)
    requires AllFound(c, digits, |c|) && AllTouched(c, digits, |c|) && forall r | r in digits :: r in out
    ensures AllFound(c, out, |c|) && AllTouched(c, out, |c|)
  {
    forall s: nat, e: nat | s < |c| && IsRun(c, s, e) && ReportOf(c, s, e).Some? ensures Touches(out, s) {
      var i :| 0 <= i < |digits| && digits[i].span.start <= s < digits[i].span.end;
      assert digits[i] in digits;
      var j :| 0 <= j < |out| && out[j] == digits[i];
    }
    forall s: nat, e: nat | s < |c| && IsRun(c, s, e) && Classify(c, s, e).Some? ensures Found(c, out, s, e) {
      assert Found(c, digits, s, e);
    }
  }

  lemma CodesSorted(c: bytes, all: seq<Report>, out: seq<Report>)
    requires CodesFound(c, all, |c|) && forall r | r in all :: r in out
    ensures CodesFound(c, out, |c|)
  {
    forall s: nat, e: nat | s < |c| && IsCode(c, s, e) ensures Clashes(out, Span(s, e)) {
      var i :| 0 <= i < |all| && Overlapping(all[i].span, Span(s, e));
      assert all[i] in all;
      var j :| 0 <= j < |out| && out[j] == all[i];
    }
  }
}
