/** The path hierarchy advisory locks exclude along: `ancestors` and `descendant_range` in `lock_state.rs`. */
module LockPaths {
  import opened Bytes

  const SLASH: byte := 0x2F
  /** `0`, the byte after `/`. */
  const PAST_SLASH: byte := 0x30
  const ROOT: bytes := [SLASH]

  // ── The order of the map ───────────────────────────────────────────────

  /** The half-open range of keys `descendant_range` asks for. */
  function Prefix(path: bytes): (p: bytes)
    ensures p != [] && p[|p| - 1] == SLASH
  {
    if path != [] && path[|path| - 1] == SLASH then path else path + [SLASH]
  }

  function Upper(path: bytes): bytes {
    Prefix(path)[..|Prefix(path)| - 1] + [PAST_SLASH]
  }

  predicate InRange(path: bytes, key: bytes) {
    !Less(key, Prefix(path)) && Less(key, Upper(path))
  }

  lemma {:induction false} BetweenSlashes(stem: bytes, key: bytes)
    ensures !Less(key, stem + [SLASH]) && Less(key, stem + [PAST_SLASH]) <==> stem + [SLASH] <= key
  {
    var lo, hi := stem + [SLASH], stem + [PAST_SLASH];
    if stem == [] {
      assert lo[1..] == [] && hi[1..] == [];
    } else {
      JoinTail(stem, [SLASH]);
      JoinTail(stem, [PAST_SLASH]);
      if key != [] && key[0] == stem[0] {
        BetweenSlashes(stem[1..], key[1..]);
        assert lo <= key <==> lo[1..] <= key[1..];
      }
    }
  }

  /** The range query returns exactly the keys below the path: nothing sorts between `p/` and `p0` but what starts with `p/`. */
  lemma RangeIsSubtree(path: bytes, key: bytes)
    ensures InRange(path, key) <==> Prefix(path) <= key
  {
    var stem := Prefix(path)[..|Prefix(path)| - 1];
    assert Prefix(path) == stem + [SLASH];
    BetweenSlashes(stem, key);
  }

  // ── Ancestors ──────────────────────────────────────────────────────────

  function LastSlash(path: bytes, end: nat): (pos: Option<nat>)
    requires end <= |path|
    ensures pos.Some? ==> pos.value < end && path[pos.value] == SLASH
    ensures forall i | (if pos.Some? then pos.value + 1 else 0) <= i < end :: path[i] != SLASH
  {
    if end == 0 then None else if path[end - 1] == SLASH then Some(end - 1) else LastSlash(path, end - 1)
  }

  function AncestorsBefore(path: bytes, end: nat): seq<bytes>
    requires end <= |path|
    decreases end
  {
    var pos := LastSlash(path, end);
    if pos.None? then []
    else if pos.value == 0 then [ROOT]
    else [path[..pos.value]] + AncestorsBefore(path, pos.value)
  }

  /** The strict ancestors, nearest first. */
  function Ancestors(path: bytes): seq<bytes> {
    if path == ROOT || path == [] then [] else AncestorsBefore(path, |path|)
  }

  /** The loop of `ancestors`. */
  method CollectAncestors(path: bytes) returns (result: seq<bytes>)
    ensures result == Ancestors(path)
  {
    result := [];
    if path == ROOT || path == [] {
      return;
    }
    var end := |path|;
    while true
      invariant 0 <= end <= |path|
      invariant result + AncestorsBefore(path, end) == Ancestors(path)
      decreases end
    {
      var pos := LastSlash(path, end);
      if pos.None? {
        break;
      }
      if pos.value == 0 {
        result := result + [ROOT];
        break;
      }
      Assoc(result, [path[..pos.value]], AncestorsBefore(path, pos.value));
      result := result + [path[..pos.value]];
      end := pos.value;
    }
  }

  // ── The two checks are converses ───────────────────────────────────────

  /** Absolute, with no empty segment and no slash at the end, unless it is the root. */
  predicate Normalized(path: bytes) {
    path == ROOT ||
    (|path| > 1 && path[0] == SLASH && path[|path| - 1] != SLASH
     && forall i | 0 <= i < |path| - 1 :: !(path[i] == SLASH && path[i + 1] == SLASH))
  }

  /** `a` is a strict ancestor of `q`: the root is above everything else, other paths above what continues them. */
  predicate IsAncestor(a: bytes, q: bytes) {
    a != q && (a == ROOT || a + [SLASH] <= q)
  }

  lemma {:induction false} InAncestorsBefore(path: bytes, end: nat, a: bytes)
    requires end <= |path| && |path| > 0 && path[0] == SLASH && a != []
    ensures a in AncestorsBefore(path, end)
       <==> (a == ROOT && end > 0) || (0 < |a| < end && a == path[..|a|] && path[|a|] == SLASH)
    decreases end
  {
    var pos := LastSlash(path, end);
    if pos.Some? && pos.value > 0 {
      InAncestorsBefore(path, pos.value, a);
      if a == path[..pos.value] {
        assert path[|a|] == SLASH;
      }
    }
  }

  /** The ancestors that are collected are the ancestors. */
  lemma AncestorsExact(a: bytes, q: bytes)
    requires Normalized(a) && Normalized(q)
    ensures a in Ancestors(q) <==> IsAncestor(a, q)
  {
    if q != ROOT {
      InAncestorsBefore(q, |q|, a);
      if a != ROOT && a + [SLASH] <= q {
        assert q[|a|] == (a + [SLASH])[|a|] && q[..|a|] == a;
      }
      if 0 < |a| < |q| && a == q[..|a|] && q[|a|] == SLASH {
        assert a + [SLASH] == q[..|a| + 1];
      }
    }
  }

  /**
   For any path but the root, the range query below it and the ancestor list of
   the other path tell the same; below the root the query also finds the root.
   */
  lemma ChecksAgree(p: bytes, q: bytes)
    requires Normalized(p) && Normalized(q)
    ensures InRange(p, q) <==> p in Ancestors(q) || (p == ROOT && q == ROOT)
  {
    RangeIsSubtree(p, q);
    AncestorsExact(p, q);
    if p == ROOT {
      assert Prefix(p) <= q;
    } else {
      assert p + [SLASH] <= q ==> p != q;
    }
  }
}
