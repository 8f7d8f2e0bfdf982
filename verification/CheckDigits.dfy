/**
 The identifiers `rules.rs` can prove: resident identity cards, unified social
 credit codes and payment cards, and the errors their check digits catch.
 */
module CheckDigits {
  import opened Bytes

  const ID_WIDTH := 18
  const LETTER_X: byte := 0x58
  const SMALL_X: byte := 0x78

  function Digit(b: byte): int {
    b - 0x30
  }

  predicate AllDigits(c: bytes) {
    forall i | 0 <= i < |c| :: IsDigit(c[i])
  }

  // ── Weighted sums ──────────────────────────────────────────────────────

  /** The sum of the first `n` values, each times its weight. */
  function Weighted(vs: seq<int>, ws: seq<int>, n: nat): int
    requires n <= |vs| && n <= |ws|
  {
    if n == 0 then 0 else Weighted(vs, ws, n - 1) + Times(vs[n - 1], ws[n - 1])
  }

  lemma {:induction false} WeightedSame(vs: seq<int>, ws: seq<int>, us: seq<int>, xs: seq<int>, n: nat)
    requires n <= |vs| && n <= |ws| && n <= |us| && n <= |xs|
    requires forall i | 0 <= i < n :: vs[i] == us[i] && ws[i] == xs[i]
    ensures Weighted(vs, ws, n) == Weighted(us, xs, n)
  {
    if n > 0 {
      WeightedSame(vs, ws, us, xs, n - 1);
    }
  }

  lemma {:induction false} WeightedChange(vs: seq<int>, ws: seq<int>, n: nat, i: nat, v: int)
    requires n <= |vs| && n <= |ws| && i < |vs|
    ensures Weighted(vs[i := v], ws, n) == Weighted(vs, ws, n) + if i < n then Times(v - vs[i], ws[i]) else 0
  {
    if n > 0 {
      WeightedChange(vs, ws, n - 1, i, v);
      if i == n - 1 {
        assert (v - vs[i]) * ws[i] == v * ws[i] - vs[i] * ws[i];
      }
    }
  }

  /** Exchanging two neighbours changes the sum by their difference times that of their weights. */
  lemma WeightedSwap(vs: seq<int>, ws: seq<int>, n: nat, i: nat)
    requires n <= |vs| && n <= |ws| && i + 1 < n
    ensures Weighted(vs[i := vs[i + 1]][i + 1 := vs[i]], ws, n)
         == Weighted(vs, ws, n) + Times(vs[i + 1] - vs[i], ws[i] - ws[i + 1])
  {
    var d := vs[i + 1] - vs[i];
    WeightedChange(vs, ws, n, i, vs[i + 1]);
    WeightedChange(vs[i := vs[i + 1]], ws, n, i + 1, vs[i]);
    assert d * ws[i] + (-d) * ws[i + 1] == d * (ws[i] - ws[i + 1]);
  }

  // ── Units of a modulus ─────────────────────────────────────────────────

  function Times(a: int, b: int): int {
    a * b
  }

  ghost predicate Multiple(m: int, a: int) {
    exists q :: a == Times(m, q)
  }

  /** Multiplying by `w` loses nothing modulo `m`. */
  ghost predicate IsUnit(w: int, m: int) {
    forall d :: Multiple(m, Times(d, w)) ==> Multiple(m, d)
  }

  lemma MultipleDifference(m: int, a: int, b: int)
    requires Multiple(m, a) && Multiple(m, b)
    ensures Multiple(m, a - b)
  {
    var p :| a == Times(m, p);
    var q :| b == Times(m, q);
    assert a - b == Times(m, p - q) by {
      assert m * p - m * q == m * (p - q);
    }
  }

  lemma MultipleTimes(m: int, a: int, b: int)
    requires Multiple(m, a)
    ensures Multiple(m, Times(a, b))
  {
    var q :| a == Times(m, q);
    assert Times(a, b) == Times(m, q * b) by {
      assert (m * q) * b == m * (q * b);
    }
  }

  /** A number with an inverse is a unit. */
  lemma UnitByInverse(w: int, v: int, k: int, m: int)
    requires w * v == m * k + 1
    ensures IsUnit(w, m)
  {
    forall d | Multiple(m, Times(d, w)) ensures Multiple(m, d) {
      MultipleTimes(m, Times(d, w), v);
      InverseCancels(d, w, v, k, m);
      assert Multiple(m, Times(m, d * k));
      MultipleDifference(m, Times(Times(d, w), v), Times(m, d * k));
    }
  }

  lemma InverseCancels(d: int, w: int, v: int, k: int, m: int)
    requires w * v == m * k + 1
    ensures Times(Times(d, w), v) - Times(m, d * k) == d
  {
    assert d * w * v == d * (w * v);
    assert d * (m * k + 1) == m * (d * k) + d;
  }

  /** So is a product of units, up to a multiple of the modulus. */
  lemma UnitProduct(w: int, r: int, u: int, k: int, m: int)
    requires IsUnit(r, m) && IsUnit(u, m) && w == r * u + m * k
    ensures IsUnit(w, m)
  {
    forall d | Multiple(m, Times(d, w)) ensures Multiple(m, d) {
      assert Multiple(m, Times(m, d * k));
      MultipleDifference(m, Times(d, w), Times(m, d * k));
      ProductCancels(d, w, r, u, k, m);
      assert Multiple(m, Times(Times(d, r), u));
      assert Multiple(m, Times(d, r));
    }
  }

  lemma ProductCancels(d: int, w: int, r: int, u: int, k: int, m: int)
    requires w == r * u + m * k
    ensures Times(d, w) - Times(m, d * k) == Times(Times(d, r), u)
  {
    assert d * (r * u + m * k) == d * r * u + m * (d * k);
  }

  // ── What a weighted sum detects ────────────────────────────────────────

  lemma IsMultiple(m: int, a: int)
    requires (m == 11 || m == 31) && a % m == 0
    ensures Multiple(m, a)
  {
    assert a == Times(m, a / m);
  }

  lemma NotMultiple(m: int, d: int)
    requires (m == 11 || m == 31) && Multiple(m, d) && -m < d && d < m
    ensures d == 0
  {
    var q :| d == Times(m, q);
  }

  lemma SameResidue(m: int, s: int, t: int)
    requires (m == 11 || m == 31) && (s + t) % m == s % m
    ensures t % m == 0
  {
  }

  /** A change smaller than the modulus, at a place whose weight is a unit, shows in the sum. */
  lemma ChangeDetected(vs: seq<int>, ws: seq<int>, m: int, i: nat, v: int)
    requires (m == 11 || m == 31) && |vs| == |ws| && i < |vs| && IsUnit(ws[i], m)
    requires v != vs[i] && -m < v - vs[i] && v - vs[i] < m
    ensures Weighted(vs[i := v], ws, |vs|) % m != Weighted(vs, ws, |vs|) % m
  {
    var t := Times(v - vs[i], ws[i]);
    WeightedChange(vs, ws, |vs|, i, v);
    if Weighted(vs[i := v], ws, |vs|) % m == Weighted(vs, ws, |vs|) % m {
      SameResidue(m, Weighted(vs, ws, |vs|), t);
      IsMultiple(m, t);
      NotMultiple(m, v - vs[i]);
    }
  }

  /** So does exchanging two neighbours, when the difference of their weights is a unit. */
  lemma SwapDetected(vs: seq<int>, ws: seq<int>, m: int, i: nat)
    requires (m == 11 || m == 31) && |vs| == |ws| && i + 1 < |vs| && IsUnit(ws[i] - ws[i + 1], m)
    requires vs[i] != vs[i + 1] && -m < vs[i + 1] - vs[i] && vs[i + 1] - vs[i] < m
    ensures Weighted(vs[i := vs[i + 1]][i + 1 := vs[i]], ws, |vs|) % m != Weighted(vs, ws, |vs|) % m
  {
    var t := Times(vs[i + 1] - vs[i], ws[i] - ws[i + 1]);
    WeightedSwap(vs, ws, |vs|, i);
    if Weighted(vs[i := vs[i + 1]][i + 1 := vs[i]], ws, |vs|) % m == Weighted(vs, ws, |vs|) % m {
      SameResidue(m, Weighted(vs, ws, |vs|), t);
      IsMultiple(m, t);
      NotMultiple(m, vs[i + 1] - vs[i]);
    }
  }

  function Swapped(c: bytes, i: nat): bytes
    requires i + 1 < |c|
  {
    c[i := c[i + 1]][i + 1 := c[i]]
  }

  // ── Resident identity card: GB 11643, check character of ISO 7064 MOD 11-2 ──

  const ID_WEIGHTS: seq<int> := [7, 9, 10, 5, 8, 4, 2, 1, 6, 3, 7, 9, 10, 5, 8, 4, 2]
  /** `10X98765432` */
  const ID_CHECK: bytes := [0x31, 0x30, 0x58, 0x39, 0x38, 0x37, 0x36, 0x35, 0x34, 0x33, 0x32]

  function Digits(c: bytes): (vs: seq<int>)
    ensures |vs| == |c| && forall i | 0 <= i < |c| :: vs[i] == Digit(c[i])
  {
    seq(|c|, i requires 0 <= i < |c| => Digit(c[i]))
  }

  function IdSum(c: bytes): int
    requires |c| == ID_WIDTH
  {
    Weighted(Digits(c), ID_WEIGHTS, |c| - 1)
  }

  /** The number the decimal digits from `from` to `to` spell. */
  function Number(c: bytes, from: nat, to: nat): int
    requires from <= to <= |c|
  {
    if from == to then 0 else Number(c, from, to - 1) * 10 + Digit(c[to - 1])
  }

  predicate IsIdCard(c: bytes) {
    && |c| == ID_WIDTH && AllDigits(c[..17]) && PlausibleDivision(Number(c, 0, 2))
    && 1880 <= Number(c, 6, 10) <= 2100 && 1 <= Number(c, 10, 12) <= 12 && 1 <= Number(c, 12, 14) <= 31
    && SameCheck(c[17], ID_CHECK[IdSum(c) % 11])
  }

  predicate PlausibleDivision(division: int) {
    11 <= division <= 82 || division == 91
  }

  /** The character is the expected one, or an `x` for an `X`. */
  predicate SameCheck(b: byte, expected: byte) {
    b == expected || (expected == LETTER_X && b == SMALL_X)
  }

  predicate IsCheckChar(b: byte) {
    IsDigit(b) || b == LETTER_X || b == SMALL_X
  }

  /** The value of a check character; `X` and `x` stand for ten. */
  function CheckValue(b: byte): int {
    if b == LETTER_X || b == SMALL_X then 10 else Digit(b)
  }

  /** Both stand for the same check value. */
  predicate Alike(a: byte, b: byte) {
    a == b || ((a == LETTER_X || a == SMALL_X) && (b == LETTER_X || b == SMALL_X))
  }

  /** All values of an identity number, the check character's last. */
  function IdValues(c: bytes): (vs: seq<int>)
    ensures |vs| == |c| && forall i | 0 <= i < |c| :: vs[i] == CheckValue(c[i])
  {
    seq(|c|, i requires 0 <= i < |c| => CheckValue(c[i]))
  }

  /** The weights with the check character's, which is one. */
  function IdWeights(): (ws: seq<int>)
    ensures |ws| == ID_WIDTH && ws[17] == 1 && forall i | 0 <= i < 17 :: ws[i] == ID_WEIGHTS[i]
  {
    ID_WEIGHTS + [1]
  }

  /** What the check character says: the whole sum comes to one, modulo eleven. */
  predicate IdChecked(c: bytes) {
    && |c| == ID_WIDTH && (forall i | 0 <= i < 17 :: IsDigit(c[i])) && IsCheckChar(c[17])
    && Weighted(IdValues(c), IdWeights(), |c|) % 11 == 1
  }

  lemma CheckCompletes(r: int, b: byte)
    requires 0 <= r < 11 && SameCheck(b, ID_CHECK[r])
    ensures IsCheckChar(b) && (r + CheckValue(b)) % 11 == 1
  {
    assert r == 0 || r == 1 || r == 2 || r == 3 || r == 4 || r == 5 || r == 6 || r == 7 || r == 8 || r == 9 || r == 10;
  }

  lemma SumMod(s: int, v: int)
    requires (s % 11 + v) % 11 == 1
    ensures (s + v) % 11 == 1
  {
  }

  lemma IdCardChecked(c: bytes)
    requires IsIdCard(c)
    ensures IdChecked(c)
  {
    forall i | 0 <= i < 17 ensures IsDigit(c[i]) {
      assert c[i] == c[..17][i];
    }
    CheckCompletes(IdSum(c) % 11, c[17]);
    SumMod(IdSum(c), CheckValue(c[17]));
    WeightedSame(IdValues(c), IdWeights(), Digits(c), ID_WEIGHTS, |c| - 1);
  }

  /** Each weight is twice the next one, modulo eleven, so all of them are units, and so are their differences. */
  lemma IdWeightStep(i: nat)
    requires i < 17
    ensures (IdWeights()[i] - 2 * IdWeights()[i + 1]) % 11 == 0
  {
    assert i == 0 || i == 1 || i == 2 || i == 3 || i == 4 || i == 5 || i == 6 || i == 7 || i == 8 || i == 9 || i == 10
        || i == 11 || i == 12 || i == 13 || i == 14 || i == 15 || i == 16;
  }

  lemma {:induction false} IdUnits(i: nat)
    requires i < ID_WIDTH
    ensures IsUnit(IdWeights()[i], 11)
    decreases ID_WIDTH - i
  {
    if i == 17 {
      UnitByInverse(1, 1, 0, 11);
    } else {
      var w, u := IdWeights()[i], IdWeights()[i + 1];
      IdUnits(i + 1);
      IdWeightStep(i);
      UnitByInverse(2, 6, 1, 11);
      UnitProduct(w, 2, u, (w - 2 * u) / 11, 11);
    }
  }

  lemma IdSwapUnits(i: nat)
    requires i < 17
    ensures IsUnit(IdWeights()[i] - IdWeights()[i + 1], 11)
  {
    var w, u := IdWeights()[i], IdWeights()[i + 1];
    IdWeightStep(i);
    IdUnits(i + 1);
    UnitByInverse(1, 1, 0, 11);
    UnitProduct(w - u, 1, u, (w - 2 * u) / 11, 11);
  }

  lemma IdCharacter(c: bytes, i: nat)
    requires IdChecked(c) && i < ID_WIDTH
    ensures IsCheckChar(c[i]) && 0 <= IdValues(c)[i] <= 10 && (i < 17 ==> IsDigit(c[i]))
  {
  }

  /** Changing any one character of a valid identity number makes it invalid. */
  lemma IdSubstitution(c: bytes, i: nat, b: byte)
    requires IsIdCard(c) && i < ID_WIDTH && !Alike(b, c[i])
    ensures !IsIdCard(c[i := b])
  {
    var c' := c[i := b];
    IdCardChecked(c);
    if IsIdCard(c') {
      IdCardChecked(c');
      IdCharacter(c, i);
      IdCharacter(c', i);
      IdUnits(i);
      assert IdValues(c') == IdValues(c)[i := CheckValue(b)];
      ChangeDetected(IdValues(c), IdWeights(), 11, i, CheckValue(b));
      assert false;
    }
  }

  /** So does exchanging two neighbours that differ. */
  lemma IdSwap(c: bytes, i: nat)
    requires IsIdCard(c) && i + 1 < ID_WIDTH && c[i] != c[i + 1]
    ensures !IsIdCard(Swapped(c, i))
  {
    var c' := Swapped(c, i);
    IdCardChecked(c);
    if IsIdCard(c') {
      var vs := IdValues(c);
      IdCardChecked(c');
      IdCharacter(c, i);
      IdCharacter(c', i);
      IdCharacter(c, i + 1);
      IdSwapUnits(i);
      assert IdValues(c') == vs[i := vs[i + 1]][i + 1 := vs[i]];
      SwapDetected(vs, IdWeights(), 11, i);
      assert false;
    }
  }

  // ── Unified social credit code: GB 32100, check character of ISO 7064 MOD 31-3 ──

  /** `0123456789ABCDEFGHJKLMNPQRTUWXY` */
  const USCI_ALPHABET: bytes :=
    [0x30, 0x31, 0x32, 0x33, 0x34, 0x35, 0x36, 0x37, 0x38, 0x39, 0x41, 0x42, 0x43, 0x44, 0x45, 0x46, 0x47, 0x48, 0x4A,
     0x4B, 0x4C, 0x4D, 0x4E, 0x50, 0x51, 0x52, 0x54, 0x55, 0x57, 0x58, 0x59]
  const USCI_WEIGHTS: seq<int> := [1, 3, 9, 27, 19, 26, 16, 17, 20, 29, 25, 13, 8, 24, 10, 30, 28]

  /** Where the byte first stands in the alphabet. */
  function Position(alphabet: bytes, b: byte, from: nat): (v: Option<nat>)
    requires from <= |alphabet|
    ensures v.Some? ==> from <= v.value < |alphabet| && alphabet[v.value] == b
    ensures v.None? ==> b !in alphabet[from..]
    decreases |alphabet| - from
  {
    if from == |alphabet| then None
    else if alphabet[from] == b then Some(from)
    else Position(alphabet, b, from + 1)
  }

  /** The values of the characters, as far as all of them are in the alphabet. */
  function Values(alphabet: bytes, c: bytes): (vs: Option<seq<int>>)
    ensures vs.Some? ==> |vs.value| == |c|
    ensures vs.Some? ==> forall i | 0 <= i < |c| :: 0 <= vs.value[i] < |alphabet| && alphabet[vs.value[i]] == c[i]
  {
    if c == [] then Some([])
    else
      var front, v := Values(alphabet, c[..|c| - 1]), Position(alphabet, c[|c| - 1], 0);
      if front.None? || v.None? then None else Some(front.value + [v.value])
  }

  // The organization code it embeds, GB 11714.

  const ORG_WEIGHTS: seq<int> := [3, 7, 9, 10, 5, 8, 4, 2]
  /** `0` to `9`, then `A` to `Z`. */
  const ORG_ALPHABET: bytes :=
    [0x30, 0x31, 0x32, 0x33, 0x34, 0x35, 0x36, 0x37, 0x38, 0x39, 0x41, 0x42, 0x43, 0x44, 0x45, 0x46, 0x47, 0x48,
     0x49, 0x4A, 0x4B, 0x4C, 0x4D, 0x4E, 0x4F, 0x50, 0x51, 0x52, 0x53, 0x54, 0x55, 0x56, 0x57, 0x58, 0x59, 0x5A]

  function OrgCheck(sum: int): byte {
    var r := 11 - sum % 11;
    if r == 10 then LETTER_X else if r == 11 then 0x30 else 0x30 + r
  }

  predicate IsOrgCode(c: bytes) {
    |c| == 9 &&
    var vs := Values(ORG_ALPHABET, c[..8]);
    vs.Some? && c[8] == OrgCheck(Weighted(vs.value, ORG_WEIGHTS, |vs.value|))
  }

  predicate UsciEnds(sum: int, check: int) {
    (31 - sum % 31) % 31 == check
  }

  predicate IsUsci(c: bytes) {
    |c| == ID_WIDTH &&
    var vs := Values(USCI_ALPHABET, c);
    && vs.Some? && UsciEnds(Weighted(vs.value, USCI_WEIGHTS, |c| - 1), vs.value[17])
    && IsOrgCode(c[8..17])
  }

  lemma ValuesPrefix(alphabet: bytes, c: bytes, i: nat)
    requires i < |c|
    ensures Values(alphabet, c[..i + 1])
         == if Values(alphabet, c[..i]).None? || Position(alphabet, c[i], 0).None? then None
            else Some(Values(alphabet, c[..i]).value + [Position(alphabet, c[i], 0).value])
  {
    assert c[..i + 1][..i] == c[..i];
  }

  lemma {:induction false} ValuesFail(alphabet: bytes, c: bytes, i: nat, n: nat)
    requires i <= n <= |c| && Values(alphabet, c[..i]).None?
    ensures Values(alphabet, c[..n]).None?
  {
    if i < n {
      ValuesFail(alphabet, c, i, n - 1);
      ValuesPrefix(alphabet, c, n - 1);
    }
  }

  /** The summing loop of `is_usci` and `is_org_code`: the first `n` characters, unless one of them has no value. */
  method SumValues(alphabet: bytes, c: bytes, ws: seq<int>, n: nat) returns (sum: Option<int>)
    requires n <= |c| && n <= |ws|
    ensures sum == if Values(alphabet, c[..n]).None? then None else Some(Weighted(Values(alphabet, c[..n]).value, ws, n))
  {
    var s, i := 0, 0;
    ghost var vs: seq<int> := [];
    assert c[..0] == [];
    while i < n
      invariant 0 <= i <= n && Values(alphabet, c[..i]) == Some(vs) && |vs| == i && s == Weighted(vs, ws, i)
    {
      var v := Position(alphabet, c[i], 0);
      ValuesPrefix(alphabet, c, i);
      if v.None? {
        ValuesFail(alphabet, c, i + 1, n);
        return None;
      }
      WeightedSame(vs, ws, vs + [v.value], ws, i);
      s := s + v.value * ws[i];
      vs := vs + [v.value];
      i := i + 1;
    }
    sum := Some(s);
  }

  method TestOrgCode(c: bytes) returns (ok: bool)
    requires |c| == 9
    ensures ok == IsOrgCode(c)
  {
    var sum := SumValues(ORG_ALPHABET, c, ORG_WEIGHTS, 8);
    ok := sum.Some? && c[8] == OrgCheck(sum.value);
  }

  method TestUsci(c: bytes) returns (ok: bool)
    ensures ok == IsUsci(c)
  {
    if |c| != ID_WIDTH {
      return false;
    }
    var sum := SumValues(USCI_ALPHABET, c, USCI_WEIGHTS, 17);
    var check := Position(USCI_ALPHABET, c[17], 0);
    UsciWhen(c, |c| - 1, sum, check);
    if sum.None? || check.None? {
      return false;
    }
    var org := TestOrgCode(c[8..17]);
    ok := UsciEnds(sum.value, check.value) && org;
  }

  lemma {:induction false} UsciWhen(c: bytes, n: nat, sum: Option<int>, check: Option<nat>)
    requires |c| == ID_WIDTH && n == |c| - 1 && check == Position(USCI_ALPHABET, c[n], 0)
    requires sum == if Values(USCI_ALPHABET, c[..n]).None? then None
                    else Some(Weighted(Values(USCI_ALPHABET, c[..n]).value, USCI_WEIGHTS, n))
    ensures IsUsci(c)
       <==> sum.Some? && check.Some? && UsciEnds(sum.value, check.value) && IsOrgCode(c[8..17])
  {
    ValuesPrefix(USCI_ALPHABET, c, n);
    assert c[..n + 1] == c;
    if sum.Some? && check.Some? {
      var body := Values(USCI_ALPHABET, c[..n]).value;
      WeightedSame(body, USCI_WEIGHTS, body + [check.value], USCI_WEIGHTS, n);
      assert (body + [check.value])[n] == check.value;
    }
  }

  function UsciWeights(): (ws: seq<int>)
    ensures |ws| == ID_WIDTH && ws[17] == 1 && forall i | 0 <= i < 17 :: ws[i] == USCI_WEIGHTS[i]
  {
    USCI_WEIGHTS + [1]
  }

  /** What the check character of the whole says: the sum of these values vanishes modulo thirty-one. */
  ghost predicate UsciChecked(c: bytes, vs: seq<int>) {
    && |c| == |vs| == ID_WIDTH && (forall i | 0 <= i < |c| :: 0 <= vs[i] < 31 && USCI_ALPHABET[vs[i]] == c[i])
    && Weighted(vs, UsciWeights(), |vs|) % 31 == 0
  }

  lemma Complement(s: int, v: int)
    requires (31 - s % 31) % 31 == v
    ensures (s + v) % 31 == 0
  {
  }

  lemma UsciIsChecked(c: bytes) returns (vs: seq<int>)
    requires IsUsci(c)
    ensures UsciChecked(c, vs)
  {
    vs := Values(USCI_ALPHABET, c).value;
    Complement(Weighted(vs, USCI_WEIGHTS, |c| - 1), vs[17]);
    WeightedSame(vs, USCI_WEIGHTS, vs, UsciWeights(), |c| - 1);
  }

  /** Each weight is three times the one before, modulo thirty-one. */
  lemma UsciWeightStep(i: nat)
    requires i < 16
    ensures (UsciWeights()[i + 1] - 3 * UsciWeights()[i]) % 31 == 0
  {
    assert i == 0 || i == 1 || i == 2 || i == 3 || i == 4 || i == 5 || i == 6 || i == 7 || i == 8 || i == 9 || i == 10
        || i == 11 || i == 12 || i == 13 || i == 14 || i == 15;
  }

  lemma {:induction false} UsciUnits(i: nat)
    requires i < ID_WIDTH
    ensures IsUnit(UsciWeights()[i], 31)
  {
    if i == 0 || i == 17 {
      UnitByInverse(1, 1, 0, 31);
    } else {
      var w, u := UsciWeights()[i], UsciWeights()[i - 1];
      UsciUnits(i - 1);
      UnitByInverse(3, 21, 2, 31);
      UsciWeightStep(i - 1);
      UnitProduct(w, 3, u, (w - 3 * u) / 31, 31);
    }
  }

  lemma UsciSwapUnits(i: nat)
    requires i < 17
    ensures IsUnit(UsciWeights()[i] - UsciWeights()[i + 1], 31)
  {
    if i == 16 {
      UnitByInverse(27, 23, 20, 31);
    } else {
      var w, u := UsciWeights()[i], UsciWeights()[i + 1];
      UsciWeightStep(i);
      UsciUnits(i);
      UnitByInverse(-2, 15, -1, 31);
      UnitProduct(w - u, -2, w, -((u - 3 * w) / 31), 31);
    }
  }

  lemma {:induction false} AlphabetDistinct(v: nat, u: nat)
    requires v < u < 31
    ensures USCI_ALPHABET[v] < USCI_ALPHABET[u]
  {
    assert USCI_ALPHABET[u - 1] < USCI_ALPHABET[u] by {
      assert u == 1 || u == 2 || u == 3 || u == 4 || u == 5 || u == 6 || u == 7 || u == 8 || u == 9 || u == 10 || u == 11
          || u == 12 || u == 13 || u == 14 || u == 15 || u == 16 || u == 17 || u == 18 || u == 19 || u == 20 || u == 21
          || u == 22 || u == 23 || u == 24 || u == 25 || u == 26 || u == 27 || u == 28 || u == 29 || u == 30;
    }
    if v < u - 1 {
      AlphabetDistinct(v, u - 1);
    }
  }

  lemma SameValue(c: bytes, c': bytes, vs: seq<int>, us: seq<int>, i: nat, j: nat)
    requires UsciChecked(c, vs) && UsciChecked(c', us) && i < ID_WIDTH && j < ID_WIDTH
    ensures c[i] == c'[j] <==> vs[i] == us[j]
  {
    if vs[i] < us[j] {
      AlphabetDistinct(vs[i], us[j]);
    } else if us[j] < vs[i] {
      AlphabetDistinct(us[j], vs[i]);
    }
  }

  /** Changing any one character of a valid social credit code makes it invalid. */
  lemma UsciSubstitution(c: bytes, i: nat, b: byte)
    requires IsUsci(c) && i < ID_WIDTH && b != c[i]
    ensures !IsUsci(c[i := b])
  {
    var c' := c[i := b];
    if IsUsci(c') {
      var vs := UsciIsChecked(c);
      var us := UsciIsChecked(c');
      forall k | 0 <= k < ID_WIDTH ensures us[k] == if k == i then us[i] else vs[k] {
        SameValue(c, c', vs, us, k, k);
      }
      SameValue(c, c', vs, us, i, i);
      UsciUnits(i);
      assert us == vs[i := us[i]];
      ChangeDetected(vs, UsciWeights(), 31, i, us[i]);
      assert false;
    }
  }

  lemma SwappedValues(c: bytes, c': bytes, vs: seq<int>, us: seq<int>, i: nat)
    requires UsciChecked(c, vs) && UsciChecked(c', us) && i + 1 < ID_WIDTH && c' == Swapped(c, i)
    ensures us == vs[i := vs[i + 1]][i + 1 := vs[i]]
  {
    forall k | 0 <= k < ID_WIDTH ensures us[k] == if k == i then vs[i + 1] else if k == i + 1 then vs[i] else vs[k] {
      SameValue(c, c', vs, us, if k == i then i + 1 else if k == i + 1 then i else k, k);
    }
  }

  /** So does exchanging two neighbours that differ. */
  lemma UsciSwap(c: bytes, i: nat)
    requires IsUsci(c) && i + 1 < ID_WIDTH && c[i] != c[i + 1]
    ensures !IsUsci(Swapped(c, i))
  {
    var c' := Swapped(c, i);
    if IsUsci(c') {
      var vs := UsciIsChecked(c);
      var us := UsciIsChecked(c');
      SwappedValues(c, c', vs, us, i);
      SameValue(c, c, vs, vs, i, i + 1);
      UsciSwapUnits(i);
      SwapDetected(vs, UsciWeights(), 31, i);
      assert false;
    }
  }

  // ── Payment card: the Luhn check ───────────────────────────────────────

  /** What a digit counts for at a place that is doubled. */
  function Doubled(d: int): int {
    if d > 4 then 2 * d - 9 else 2 * d
  }

  /** What the digit at `i` counts for: every second one from the right is doubled. */
  function LuhnTerm(c: bytes, i: nat): int
    requires i < |c|
  {
    Counts(IsDoubled(|c|, i), Digit(c[i]))
  }

  predicate IsDoubled(n: nat, i: int) {
    (n - 1 - i) % 2 == 1
  }

  function Counts(doubled: bool, d: int): int {
    if doubled then Doubled(d) else d
  }

  function LuhnSum(c: bytes, n: nat): int
    requires n <= |c|
  {
    if n == 0 then 0 else LuhnSum(c, n - 1) + LuhnTerm(c, n - 1)
  }

  predicate LuhnOk(c: bytes) {
    LuhnSum(c, |c|) % 10 == 0
  }

  lemma {:induction false} LuhnSame(c: bytes, c': bytes, n: nat)
    requires n <= |c| == |c'| && forall i | 0 <= i < n :: c[i] == c'[i]
    ensures LuhnSum(c, n) == LuhnSum(c', n)
  {
    if n > 0 {
      LuhnSame(c, c', n - 1);
    }
  }

  lemma {:induction false} LuhnChange(c: bytes, n: nat, i: nat, b: byte)
    requires i < n <= |c|
    ensures LuhnSum(c[i := b], n) == LuhnSum(c, n) + LuhnTerm(c[i := b], i) - LuhnTerm(c, i)
  {
    if i == n - 1 {
      LuhnSame(c, c[i := b], i);
    } else {
      LuhnChange(c, n - 1, i, b);
    }
  }

  /** Changing any one digit of a valid card number, of whatever length, makes it invalid. */
  lemma LuhnSubstitution(c: bytes, i: nat, b: byte)
    requires AllDigits(c) && LuhnOk(c) && i < |c| && IsDigit(b) && b != c[i]
    ensures !LuhnOk(c[i := b])
  {
    LuhnChange(c, |c|, i, b);
    MultipleOfTen(LuhnSum(c, |c|), LuhnTerm(c[i := b], i) - LuhnTerm(c, i));
  }

  lemma Alternates(n: nat, i: int)
    ensures IsDoubled(n, i + 1) <==> !IsDoubled(n, i)
  {
  }

  lemma LuhnSwapped(c: bytes, i: nat, doubled: bool)
    requires i + 1 < |c| && doubled == IsDoubled(|c|, i)
    ensures
      var a, b := Digit(c[i]), Digit(c[i + 1]);
      LuhnSum(Swapped(c, i), |c|)
      == LuhnSum(c, |c|) + (Counts(doubled, b) + Counts(!doubled, a) - Counts(doubled, a) - Counts(!doubled, b))
  {
    var c1 := c[i := c[i + 1]];
    LuhnChange(c, |c|, i, c[i + 1]);
    LuhnChange(c1, |c1|, i + 1, c[i]);
    Alternates(|c|, i);
  }

  /** What doubling adds to a digit, which only 0 and 9 have in common. */
  lemma DoublingAdds(a: int, b: int)
    requires 0 <= a < 10 && 0 <= b < 10
    ensures (Doubled(a) + b - a - Doubled(b)) % 10 == 0 <==> a == b || (a == 0 && b == 9) || (a == 9 && b == 0)
  {
  }

  lemma MultipleOfTen(s: int, t: int)
    requires s % 10 == 0
    ensures (s + t) % 10 == 0 <==> t % 10 == 0
  {
  }

  /** Exchanging two neighbours goes undetected exactly when they are equal or are 0 and 9. */
  lemma LuhnSwap(c: bytes, i: nat)
    requires AllDigits(c) && LuhnOk(c) && i + 1 < |c|
    ensures LuhnOk(Swapped(c, i))
       <==> c[i] == c[i + 1] || (c[i] == 0x30 && c[i + 1] == 0x39) || (c[i] == 0x39 && c[i + 1] == 0x30)
  {
    var a, b, doubled := Digit(c[i]), Digit(c[i + 1]), IsDoubled(|c|, i);
    LuhnSwapped(c, i, doubled);
    MultipleOfTen(LuhnSum(c, |c|), Counts(doubled, b) + Counts(!doubled, a) - Counts(doubled, a) - Counts(!doubled, b));
    DoublingAdds(a, b);
    DoublingAdds(b, a);
  }
}
