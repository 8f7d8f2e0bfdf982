/**
 What the identifiers of `rules.rs` are, said without its tables and loops: sums
 with powers of a base as weights, a digit that completes a sum, ranges of
 prefixes; and the specimens published for them.
 */
module CheckLaws {
  import opened Bytes
  import opened CheckDigits
  import opened RuleScanner

  // ── Payment card ───────────────────────────────────────────────────────

  /** The sum of the digits, every second one from the right counted as the digits of its double. */
  function CheckSum(c: bytes, doubled: bool): int {
    if c == [] then 0
    else
      var d := Digit(c[|c| - 1]);
      CheckSum(c[..|c| - 1], !doubled) + if doubled then 2 * d / 10 + 2 * d % 10 else d
  }

  lemma {:induction false} LuhnPrefix(c: bytes, n: nat, doubled: bool)
    requires AllDigits(c) && n <= |c| && doubled == ((|c| - n) % 2 == 1)
    ensures LuhnSum(c, n) == CheckSum(c[..n], doubled)
  {
    if n > 0 {
      LuhnPrefix(c, n - 1, !doubled);
      assert c[..n][..n - 1] == c[..n - 1] && c[..n][n - 1] == c[n - 1];
      assert IsDigit(c[n - 1]);
    }
  }

  lemma LuhnIsSum(c: bytes)
    requires AllDigits(c)
    ensures LuhnOk(c) <==> CheckSum(c, false) % 10 == 0
  {
    LuhnPrefix(c, |c|, false);
    assert c[..|c|] == c;
  }

  /** After any digits there is one check digit: the one that completes the sum in which the last of them is doubled. */
  lemma LuhnCheckDigit(c: bytes, b: byte)
    requires AllDigits(c) && IsDigit(b)
    ensures LuhnOk(c + [b]) <==> Digit(b) == (10 - CheckSum(c, true) % 10) % 10
  {
    LuhnIsSum(c + [b]);
    assert (c + [b])[..|c|] == c;
    Completes(CheckSum(c, true), Digit(b));
  }

  lemma Completes(s: int, d: int)
    requires 0 <= d < 10
    ensures (s + d) % 10 == 0 <==> d == (10 - s % 10) % 10
  {
  }

  /** A brand: what the first `width` digits spell lies in the range, and the number has one of the lengths. */
  datatype Brand = Brand(width: nat, first: int, last: int, shortest: nat, longest: nat)

  const BRANDS: seq<Brand> :=
    [Brand(1, 4, 4, 13, 13), Brand(1, 4, 4, 16, 16), Brand(2, 51, 55, 16, 16), Brand(4, 2221, 2720, 16, 16),
     Brand(2, 34, 34, 15, 15), Brand(2, 37, 37, 15, 15), Brand(2, 62, 62, 16, 19), Brand(2, 81, 81, 16, 16),
     Brand(4, 3528, 3589, 16, 16), Brand(2, 36, 36, 14, 14), Brand(2, 38, 38, 14, 14), Brand(2, 30, 30, 14, 14)]

  predicate OfBrand(c: bytes, k: nat)
    requires k < |BRANDS|
  {
    var b := BRANDS[k];
    b.width <= |c| && b.first <= Number(c, 0, b.width) <= b.last && b.shortest <= |c| <= b.longest
  }

  lemma Leading(c: bytes)
    requires |c| >= 4 && AllDigits(c)
    ensures
      var one, two, four := Number(c, 0, 1), Number(c, 0, 2), Number(c, 0, 4);
      one == Digit(c[0]) && 10 * one <= two < 10 * one + 10 && 100 * two <= four < 100 * two + 100
  {
    assert Number(c, 0, 1) == Digit(c[0]) && Number(c, 0, 2) == Number(c, 0, 1) * 10 + Digit(c[1]);
    assert Number(c, 0, 3) == Number(c, 0, 2) * 10 + Digit(c[2]);
    assert IsDigit(c[0]) && IsDigit(c[1]) && IsDigit(c[2]) && IsDigit(c[3]);
  }

  /** A card number is a number of some brand, at one of that brand's lengths, whose digit sum is a multiple of ten. */
  lemma BankCardExact(c: bytes)
    ensures IsBankCard(c)
       <==> AllDigits(c) && CheckSum(c, false) % 10 == 0 && exists k :: 0 <= k < |BRANDS| && OfBrand(c, k)
  {
    if AllDigits(c) {
      LuhnIsSum(c);
      if |c| >= 13 {
        Leading(c);
        BrandExact(c);
      }
    }
  }

  lemma BrandExact(c: bytes)
    requires |c| >= 13 && AllDigits(c)
    requires
      var one, two, four := Number(c, 0, 1), Number(c, 0, 2), Number(c, 0, 4);
      one == Digit(c[0]) && 10 * one <= two < 10 * one + 10 && 100 * two <= four < 100 * two + 100
    ensures BrandLength(c) <==> exists k :: 0 <= k < |BRANDS| && OfBrand(c, k)
  {
    if BrandLength(c) {
      assert OfBrand(c, 0) || OfBrand(c, 1) || OfBrand(c, 2) || OfBrand(c, 3) || OfBrand(c, 4) || OfBrand(c, 5)
          || OfBrand(c, 6) || OfBrand(c, 7) || OfBrand(c, 8) || OfBrand(c, 9) || OfBrand(c, 10) || OfBrand(c, 11);
    }
    if k :| 0 <= k < |BRANDS| && OfBrand(c, k) {
      assert k == 0 || k == 1 || k == 2 || k == 3 || k == 4 || k == 5 || k == 6 || k == 7 || k == 8 || k == 9 || k == 10
          || k == 11;
    }
  }

  // ── Mainland mobile ────────────────────────────────────────────────────

  predicate IsSegment(n: int) {
    || 130 <= n <= 141 || 144 <= n <= 153 || 155 <= n <= 159 || n == 162 || 165 <= n <= 167 || 170 <= n <= 178
    || 180 <= n <= 193 || 195 <= n <= 199
  }

  /** A mobile number is eleven digits in an allocated segment. */
  lemma MobileExact(c: bytes)
    ensures IsMobile(c) <==> |c| == 11 && AllDigits(c) && IsSegment(Number(c, 0, 3))
  {
    if |c| == 11 && AllDigits(c) {
      assert Number(c, 0, 1) == Digit(c[0]) && Number(c, 0, 2) == Number(c, 0, 1) * 10 + Digit(c[1]);
      assert Number(c, 0, 3) == Number(c, 0, 2) * 10 + Digit(c[2]);
      assert IsDigit(c[0]) && IsDigit(c[1]) && IsDigit(c[2]);
    }
  }

  // ── Sums with powers as weights ────────────────────────────────────────

  function Power(base: nat, n: nat): nat {
    if n == 0 then 1 else base * Power(base, n - 1)
  }

  /** The weights are the powers of two from the right, modulo 11, and those of three from the left, modulo 31. */
  lemma WeightsArePowers(i: nat)
    ensures i < |ID_WEIGHTS| ==> ID_WEIGHTS[i] == Power(2, 17 - i) % 11
    ensures i < |ORG_WEIGHTS| ==> ORG_WEIGHTS[i] == Power(2, 8 - i) % 11
    ensures i < |USCI_WEIGHTS| ==> USCI_WEIGHTS[i] == Power(3, i) % 31
  {
    PowersOfTwo();
    PowersOfThree();
  }

  lemma PowersOfTwo()
    ensures Power(2, 1) == 2 && Power(2, 2) == 4 && Power(2, 3) == 8 && Power(2, 4) == 16 && Power(2, 5) == 32
    ensures Power(2, 6) == 64 && Power(2, 7) == 128 && Power(2, 8) == 256 && Power(2, 9) == 512 && Power(2, 10) == 1024
    ensures Power(2, 11) == 2048 && Power(2, 12) == 4096 && Power(2, 13) == 8192 && Power(2, 14) == 16384
    ensures Power(2, 15) == 32768 && Power(2, 16) == 65536 && Power(2, 17) == 131072
  {
    assert Power(2, 5) == 32;
    assert Power(2, 9) == 512;
    assert Power(2, 13) == 8192;
  }

  lemma PowersOfThree()
    ensures Power(3, 0) == 1 && Power(3, 1) == 3 && Power(3, 2) == 9 && Power(3, 3) == 27 && Power(3, 4) == 81
    ensures Power(3, 5) == 243 && Power(3, 6) == 729 && Power(3, 7) == 2187 && Power(3, 8) == 6561
    ensures Power(3, 9) == 19683 && Power(3, 10) == 59049 && Power(3, 11) == 177147 && Power(3, 12) == 531441
    ensures Power(3, 13) == 1594323 && Power(3, 14) == 4782969 && Power(3, 15) == 14348907 && Power(3, 16) == 43046721
  {
    assert Power(3, 4) == 81;
    assert Power(3, 8) == 6561;
    assert Power(3, 12) == 531441;
  }

  // ── Resident identity card ─────────────────────────────────────────────

  /** The division and the date an identity number must have. */
  predicate Plausible(c: bytes)
    requires |c| == 18
  {
    && (11 <= Number(c, 0, 2) <= 82 || Number(c, 0, 2) == 91) && 1880 <= Number(c, 6, 10) <= 2100
    && 1 <= Number(c, 10, 12) <= 12 && 1 <= Number(c, 12, 14) <= 31
  }

  lemma CheckIs(r: int, b: byte)
    requires 0 <= r < 11
    ensures SameCheck(b, ID_CHECK[r]) <==> IsCheckChar(b) && (r + CheckValue(b)) % 11 == 1
  {
    assert r == 0 || r == 1 || r == 2 || r == 3 || r == 4 || r == 5 || r == 6 || r == 7 || r == 8 || r == 9 || r == 10;
  }

  lemma ResidueSum(s: int, v: int)
    ensures (s % 11 + v) % 11 == (s + v) % 11
  {
  }

  lemma CheckedExact(c: bytes)
    requires |c| == 18
    ensures IdChecked(c) <==> AllDigits(c[..17]) && SameCheck(c[17], ID_CHECK[IdSum(c) % 11])
  {
    assert AllDigits(c[..17]) <==> forall i | 0 <= i < 17 :: IsDigit(c[i]) by {
      assert forall i | 0 <= i < 17 :: c[..17][i] == c[i];
    }
    CheckIs(IdSum(c) % 11, c[17]);
    ResidueSum(IdSum(c), CheckValue(c[17]));
    if forall i | 0 <= i < 17 :: IsDigit(c[i]) {
      WeightedSame(IdValues(c), IdWeights(), Digits(c), ID_WEIGHTS, |c| - 1);
    }
  }

  /** An identity number is seventeen digits and a check character, plausible, whose sum comes to one modulo eleven. */
  lemma IdCardExact(c: bytes)
    ensures IsIdCard(c) <==> |c| == 18 && Plausible(c) && IdChecked(c)
  {
    if |c| == 18 {
      CheckedExact(c);
    }
  }

  // ── Organization code and social credit code ───────────────────────────

  /** Digits stand for themselves, letters for ten and on. */
  predicate OrgCounts(b: byte, v: int) {
    (IsDigit(b) && v == b - 0x30) || (IsUpper(b) && v == b - 0x41 + 10)
  }

  lemma OrgLetter(k: nat)
    requires k < 36
    ensures ORG_ALPHABET[k] == if k < 10 then 0x30 + k else 0x41 + (k - 10)
  {
  }

  lemma OrgPosition(b: byte, v: int)
    ensures Position(ORG_ALPHABET, b, 0) == Some(v) <==> OrgCounts(b, v)
  {
    var p := Position(ORG_ALPHABET, b, 0);
    if p.Some? {
      OrgLetter(p.value);
    }
    if OrgCounts(b, v) {
      OrgLetter(v);
      assert ORG_ALPHABET[0..][v] == b;
    }
  }

  /** The values of characters are the positions of each. */
  lemma {:induction false} ValuesExact(alphabet: bytes, c: bytes, vs: seq<int>)
    ensures Values(alphabet, c) == Some(vs)
       <==> |vs| == |c| && forall i | 0 <= i < |c| :: Position(alphabet, c[i], 0) == Some(vs[i])
  {
    if c != [] && vs != [] {
      var n := |c| - 1;
      ValuesExact(alphabet, c[..n], vs[..|vs| - 1]);
      assert vs == vs[..|vs| - 1] + [vs[|vs| - 1]];
    }
  }

  /** What an organization code's first eight characters count for. */
  ghost predicate OrgSums(c: bytes, vs: seq<int>) {
    && |c| == 9 && |vs| == 8 && (forall i | 0 <= i < 8 :: OrgCounts(c[i], vs[i])) && (IsDigit(c[8]) || c[8] == LETTER_X)
    && (Weighted(vs, ORG_WEIGHTS, 8) + CheckValue(c[8])) % 11 == 0
  }

  lemma OrgCheckIs(sum: int, b: byte)
    ensures b == OrgCheck(sum) <==> (IsDigit(b) || b == LETTER_X) && (sum + CheckValue(b)) % 11 == 0
  {
    ResidueSum(sum, CheckValue(b));
  }

  lemma OrgValues(c: bytes, vs: seq<int>)
    requires |c| == 9
    ensures Values(ORG_ALPHABET, c[..8]) == Some(vs) <==> |vs| == 8 && forall i | 0 <= i < 8 :: OrgCounts(c[i], vs[i])
  {
    var d := c[..8];
    ValuesExact(ORG_ALPHABET, d, vs);
    if |vs| == 8 {
      forall i | 0 <= i < 8 ensures Position(ORG_ALPHABET, d[i], 0) == Some(vs[i]) <==> OrgCounts(c[i], vs[i]) {
        OrgPosition(c[i], vs[i]);
      }
    }
  }

  /** An organization code is eight characters and the one that makes their sum a multiple of eleven. */
  lemma OrgCodeExact(c: bytes)
    ensures IsOrgCode(c) <==> exists vs :: OrgSums(c, vs)
  {
    if IsOrgCode(c) {
      var vs := Values(ORG_ALPHABET, c[..8]).value;
      OrgValues(c, vs);
      OrgCheckIs(Weighted(vs, ORG_WEIGHTS, 8), c[8]);
      assert OrgSums(c, vs);
    }
    if vs :| OrgSums(c, vs) {
      OrgValues(c, vs);
      OrgCheckIs(Weighted(vs, ORG_WEIGHTS, 8), c[8]);
    }
  }

  /** A digit, or a letter other than `I`, `O`, `S`, `V` and `Z`. */
  predicate UsciLetter(b: byte) {
    IsDigit(b) || (IsUpper(b) && b != 0x49 && b != 0x4F && b != 0x53 && b != 0x56 && b != 0x5A)
  }

  /** The alphabet of a social credit code is these, in order. */
  lemma UsciLetters(b: byte)
    ensures b in USCI_ALPHABET <==> UsciLetter(b)
    ensures forall i, j | 0 <= i < j < |USCI_ALPHABET| :: USCI_ALPHABET[i] < USCI_ALPHABET[j]
  {
    forall i, j | 0 <= i < j < |USCI_ALPHABET| ensures USCI_ALPHABET[i] < USCI_ALPHABET[j] {
      AlphabetDistinct(i, j);
    }
    UsciMembers(b);
  }

  lemma UsciMembers(b: byte)
    ensures b in USCI_ALPHABET <==> UsciLetter(b)
  {
    if b in USCI_ALPHABET {
      var k :| 0 <= k < |USCI_ALPHABET| && USCI_ALPHABET[k] == b;
    }
    if UsciLetter(b) {
      UsciMember(b);
    }
  }

  lemma UsciMember(b: byte)
    requires UsciLetter(b)
    ensures b in USCI_ALPHABET
  {
    if IsDigit(b) {
      assert USCI_ALPHABET[b - 0x30] == b;
    } else {
      var skipped := if b < 0x49 then 0 else if b < 0x4F then 1 else if b < 0x53 then 2 else if b < 0x56 then 3 else 4;
      assert USCI_ALPHABET[10 + (b - 0x41) - skipped] == b;
    }
  }

  lemma UsciPosition(b: byte, v: int)
    ensures Position(USCI_ALPHABET, b, 0) == Some(v) <==> 0 <= v < 31 && USCI_ALPHABET[v] == b
  {
    var p := Position(USCI_ALPHABET, b, 0);
    if 0 <= v < 31 && USCI_ALPHABET[v] == b {
      assert USCI_ALPHABET[0..][v] == b;
      if p.value < v {
        AlphabetDistinct(p.value, v);
      } else if v < p.value {
        AlphabetDistinct(v, p.value);
      }
    }
  }

  lemma UsciValues(c: bytes, vs: seq<int>)
    ensures Values(USCI_ALPHABET, c) == Some(vs)
       <==> |vs| == |c| && forall i | 0 <= i < |c| :: 0 <= vs[i] < 31 && USCI_ALPHABET[vs[i]] == c[i]
  {
    ValuesExact(USCI_ALPHABET, c, vs);
    if |vs| == |c| {
      forall i | 0 <= i < |c|
        ensures Position(USCI_ALPHABET, c[i], 0) == Some(vs[i]) <==> 0 <= vs[i] < 31 && USCI_ALPHABET[vs[i]] == c[i]
      {
        UsciPosition(c[i], vs[i]);
      }
    }
  }

  lemma UsciSum(sum: int, check: int)
    requires 0 <= check < 31
    ensures UsciEnds(sum, check) <==> (sum + check) % 31 == 0
  {
  }

  lemma UsciSums(c: bytes, vs: seq<int>)
    requires |c| == |vs| == 18 && 0 <= vs[17] < 31
    ensures UsciEnds(Weighted(vs, USCI_WEIGHTS, |c| - 1), vs[17]) <==> Weighted(vs, UsciWeights(), |vs|) % 31 == 0
  {
    WeightedSame(vs, USCI_WEIGHTS, vs, UsciWeights(), |c| - 1);
    UsciSum(Weighted(vs, USCI_WEIGHTS, |c| - 1), vs[17]);
  }

  /** A social credit code is eighteen letters whose sum is a multiple of thirty-one, around an organization code. */
  lemma UsciExact(c: bytes)
    ensures IsUsci(c) <==> |c| == 18 && (exists vs :: UsciChecked(c, vs)) && exists vs :: OrgSums(c[8..17], vs)
  {
    if |c| == 18 {
      OrgCodeExact(c[8..17]);
      if IsUsci(c) {
        var vs := Values(USCI_ALPHABET, c).value;
        UsciValues(c, vs);
        UsciSums(c, vs);
        assert UsciChecked(c, vs);
      }
      if vs :| UsciChecked(c, vs) {
        UsciValues(c, vs);
        UsciSums(c, vs);
      }
    }
  }

  // ── Published specimens ────────────────────────────────────────────────

  lemma FourTerms(c: bytes, n: nat, sum: int)
    requires n + 4 <= |c| && (|c| - n) % 2 == 0 && LuhnSum(c, n) == sum
    ensures LuhnSum(c, n + 4) == sum + Doubled(Digit(c[n])) + Digit(c[n + 1]) + Doubled(Digit(c[n + 2])) + Digit(c[n + 3])
  {
    assert LuhnSum(c, n + 1) == sum + Doubled(Digit(c[n])) && LuhnSum(c, n + 2) == LuhnSum(c, n + 1) + Digit(c[n + 1]);
    assert LuhnSum(c, n + 3) == LuhnSum(c, n + 2) + Doubled(Digit(c[n + 2]));
    assert LuhnSum(c, n + 4) == LuhnSum(c, n + 3) + Digit(c[n + 3]);
  }

  lemma FourWeighted(vs: seq<int>, ws: seq<int>, n: nat, sum: int)
    requires n + 4 <= |vs| && n + 4 <= |ws| && Weighted(vs, ws, n) == sum
    ensures Weighted(vs, ws, n + 4)
         == sum + vs[n] * ws[n] + vs[n + 1] * ws[n + 1] + vs[n + 2] * ws[n + 2] + vs[n + 3] * ws[n + 3]
  {
    assert Weighted(vs, ws, n + 2) == Weighted(vs, ws, n + 1) + vs[n + 1] * ws[n + 1];
    assert Weighted(vs, ws, n + 3) == Weighted(vs, ws, n + 2) + vs[n + 2] * ws[n + 2];
  }

  lemma Spelled(c: bytes, from: nat)
    requires from + 2 <= |c|
    ensures Number(c, from, from + 2) == 10 * Digit(c[from]) + Digit(c[from + 1])
    ensures from + 4 <= |c| ==>
      Number(c, from, from + 4) == 100 * Number(c, from, from + 2) + 10 * Digit(c[from + 2]) + Digit(c[from + 3])
  {
    assert Number(c, from, from + 1) == Digit(c[from]);
    if from + 4 <= |c| {
      assert Number(c, from, from + 3) == 10 * Number(c, from, from + 2) + Digit(c[from + 2]);
    }
  }

  /**
   `18` and `26` are valid, `81` and `62` are not: the last digit is the check
   digit, and the one before it is doubled.
   */
  lemma TwoDigits(c: bytes)
    requires |c| == 2
    ensures c == ['1' as int, '8' as int] || c == ['2' as int, '6' as int] ==> LuhnOk(c)
    ensures c == ['8' as int, '1' as int] || c == ['6' as int, '2' as int] ==> !LuhnOk(c)
  {
    assert LuhnSum(c, 1) == LuhnTerm(c, 0) && LuhnSum(c, 2) == LuhnSum(c, 1) + LuhnTerm(c, 1);
  }

  /** `4111111111111111`, a test card its network publishes. */
  lemma CardSpecimen(c: bytes)
    requires c == [0x34, 0x31, 0x31, 0x31, 0x31, 0x31, 0x31, 0x31, 0x31, 0x31, 0x31, 0x31, 0x31, 0x31, 0x31, 0x31]
    ensures IsBankCard(c)
  {
    FourTerms(c, 0, 0);
    FourTerms(c, 4, 12);
    FourTerms(c, 8, 18);
    FourTerms(c, 12, 24);
  }

  /** `9111111111111110`: a valid sum is not enough where no issuer owns the prefix. */
  lemma NoIssuer(c: bytes)
    requires c == [0x39, 0x31, 0x31, 0x31, 0x31, 0x31, 0x31, 0x31, 0x31, 0x31, 0x31, 0x31, 0x31, 0x31, 0x31, 0x30]
    ensures LuhnOk(c) && !IsBankCard(c)
  {
    FourTerms(c, 0, 0);
    FourTerms(c, 4, 13);
    FourTerms(c, 8, 19);
    FourTerms(c, 12, 25);
    Spelled(c, 0);
  }

  const ID_SPECIMEN: bytes := [0x31, 0x31, 0x30, 0x31, 0x30, 0x35, 0x31, 0x39, 0x34, 0x39, 0x31, 0x32, 0x33, 0x31, 0x30, 0x30, 0x32, 0x58]
  const BAD_MONTH: bytes := [0x31, 0x31, 0x30, 0x31, 0x30, 0x35, 0x31, 0x39, 0x34, 0x39, 0x31, 0x39, 0x33, 0x31, 0x30, 0x30, 0x32, 0x32]

  lemma SpecimenSum(c: bytes)
    requires c == ID_SPECIMEN
    ensures IdSum(c) == 167
  {
    var vs := Digits(c);
    FourWeighted(vs, ID_WEIGHTS, 0, 0);
    FourWeighted(vs, ID_WEIGHTS, 4, 21);
    FourWeighted(vs, ID_WEIGHTS, 8, 52);
    FourWeighted(vs, ID_WEIGHTS, 12, 128);
  }

  lemma BadMonthSum(c: bytes)
    requires c == BAD_MONTH
    ensures IdSum(c) == 230
  {
    var vs := Digits(c);
    FourWeighted(vs, ID_WEIGHTS, 0, 0);
    FourWeighted(vs, ID_WEIGHTS, 4, 21);
    FourWeighted(vs, ID_WEIGHTS, 8, 52);
    FourWeighted(vs, ID_WEIGHTS, 12, 191);
  }

  /** `11010519491231002X`, the worked example of GB 11643, is an identity number. */
  lemma IdSpecimen(c: bytes)
    requires c == ID_SPECIMEN
    ensures IsIdCard(c)
  {
    SpecimenSum(c);
    SpecimenFields(c);
    SpecimenDigits(c);
    assert IdSum(c) % 11 == 2 && ID_CHECK[2] == LETTER_X == c[17];
  }

  lemma SpecimenDigits(c: bytes)
    requires c == ID_SPECIMEN
    ensures AllDigits(c[..17])
  {
  }

  lemma SpecimenFields(c: bytes)
    requires c == ID_SPECIMEN
    ensures Number(c, 0, 2) == 11 && Number(c, 6, 10) == 1949 && Number(c, 10, 12) == 12 && Number(c, 12, 14) == 31
  {
    Spelled(c, 0);
    Spelled(c, 6);
    Spelled(c, 10);
    Spelled(c, 12);
  }

  /** `110105194919310022`: a check character that fits is not enough, there is no month nineteen. */
  lemma MonthNineteen(c: bytes)
    requires c == BAD_MONTH
    ensures IdChecked(c) && !IsIdCard(c)
  {
    BadMonthSum(c);
    Spelled(c, 10);
    CheckedExact(c);
  }

  // ── What a run of digits is reported as ────────────────────────────────

  /** The run is an identity number of its own, or with the `X` right after it. */
  predicate NamesPerson(c: bytes, s: nat, e: nat)
    requires s <= e <= |c|
  {
    IsIdCard(c[s..e]) || (e < |c| && IsIdCard(c[s..e + 1]))
  }

  /**
   An identity number comes before a card, and a card before a mobile number,
   which alone is not certain; the `X` of an identity number is part of it.
   */
  lemma ClassifyExact(c: bytes, s: nat, e: nat)
    requires IsRun(c, s, e)
    ensures
      var r := Classify(c, s, e);
      if NamesPerson(c, s, e) then r == Some((IdCard, if IsIdCard(c[s..e]) then e else e + 1, true))
      else if IsBankCard(c[s..e]) then r == Some((BankCard, e, true))
      else if IsMobile(c[s..e]) then r == Some((Mobile, e, false))
      else r == None
  {
    if e < |c| {
      var d := c[s..e + 1];
      assert d[e - s] == c[e];
      IdCardExact(d);
    }
    IdCardExact(c[s..e]);
  }

  // ── Cards in display grouping ──────────────────────────────────────────

  /** The digits of a text, in order. */
  function DigitsOf(text: bytes): bytes {
    if text == [] then [] else (if IsDigit(text[0]) then [text[0]] else []) + DigitsOf(text[1..])
  }

  lemma {:induction false} DigitsJoin(a: bytes, b: bytes)
    ensures DigitsOf(a + b) == DigitsOf(a) + DigitsOf(b)
  {
    if a == [] {
      assert a + b == b;
    } else {
      JoinTail(a, b);
      DigitsJoin(a[1..], b);
      Assoc(if IsDigit(a[0]) then [a[0]] else [], DigitsOf(a[1..]), DigitsOf(b));
    }
  }

  lemma {:induction false} DigitsAll(a: bytes)
    requires AllDigits(a)
    ensures DigitsOf(a) == a
  {
    if a != [] {
      DigitsAll(a[1..]);
      assert a == [a[0]] + a[1..];
    }
  }

  /** One `sep` at `from`, then a run of three to six digits up to `e`. */
  ghost predicate IsGroup(c: bytes, sep: byte, from: nat, e: nat) {
    from < |c| && c[from] == sep && IsRun(c, from + 1, e) && 3 <= e - (from + 1) <= 6
  }

  /** Such groups, one right after the other. */
  ghost predicate Grouping(c: bytes, sep: byte, from: nat, gs: seq<Span>)
    decreases |gs|
  {
    gs != [] ==> gs[0].start == from + 1 && IsGroup(c, sep, from, gs[0].end) && Grouping(c, sep, gs[0].end, gs[1..])
  }

  /** No further one follows. */
  ghost predicate NoMore(c: bytes, sep: byte, end: nat) {
    forall e: nat :: !IsGroup(c, sep, end, e)
  }

  lemma GroupUnique(c: bytes, sep: byte, from: nat, e: nat)
    requires from < |c| && !IsDigit(sep)
    ensures IsGroup(c, sep, from, e) <==> c[from] == sep && e == RunEnd(c, from + 1) && IsGroupLength(e - (from + 1))
  {
    var end := RunEnd(c, from + 1);
    if c[from] == sep && from + 1 < |c| && IsDigit(c[from + 1]) {
      RunIsMaximal(c, from + 1);
      if IsRun(c, from + 1, e) {
        RunUnique(c, from + 1, e, end);
      }
    }
  }

  lemma {:induction false} GroupsExact(c: bytes, sep: byte, from: nat, gs: seq<Span>)
    requires from <= |c| && !IsDigit(sep)
    ensures Groups(c, sep, from) == gs <==> Grouping(c, sep, from, gs) && NoMore(c, sep, LastEnd(gs, from))
    decreases |c| - from
  {
    if from < |c| {
      forall e: nat ensures IsGroup(c, sep, from, e) <==> c[from] == sep && e == RunEnd(c, from + 1) && IsGroupLength(e - (from + 1)) {
        GroupUnique(c, sep, from, e);
      }
      var end := RunEnd(c, from + 1);
      if IsGroup(c, sep, from, end) && gs != [] {
        GroupsExact(c, sep, end, gs[1..]);
        ConsTail(Span(from + 1, end), Groups(c, sep, end));
        assert gs == [gs[0]] + gs[1..];
      }
    }
  }

  lemma {:induction false} DigitsFirst(run: bytes, rest: bytes, all: bytes)
    requires AllDigits(run) && all == run + rest
    ensures DigitsOf(all) == run + DigitsOf(rest)
  {
    DigitsJoin(run, rest);
    DigitsAll(run);
  }

  lemma {:induction false} DigitsAfter(sep: byte, run: bytes, rest: bytes, all: bytes)
    requires !IsDigit(sep) && AllDigits(run) && all == [sep] + (run + rest)
    ensures DigitsOf(all) == run + DigitsOf(rest)
  {
    ConsTail(sep, run + rest);
    DigitsFirst(run, rest, run + rest);
    assert [] + DigitsOf(run + rest) == DigitsOf(run + rest);
  }

  lemma {:induction false} GroupsDigits(c: bytes, sep: byte, from: nat, n: nat)
    requires from <= |c| && !IsDigit(sep)
    requires n == LastEnd(Groups(c, sep, from), from)
    ensures from <= n <= |c| && Rest(c, sep, from) == DigitsOf(c[from..n])
    decreases |c| - from
  {
    GroupsWithin(c, sep, from);
    if Groups(c, sep, from) != [] {
      var start, end := from + 1, RunEnd(c, from + 1);
      NextGroup(c, sep, from, start, end);
      GroupsDigits(c, sep, end, n);
      DigitsAfter(sep, c[start..end], c[end..n], c[from..n]);
    }
  }

  /** Three groups or more, all of them, whose digits are a card number. */
  ghost predicate GroupedCardAt(c: bytes, s: nat, e: nat, n: nat, gs: seq<Span>) {
    && e < |c| && (c[e] == ' ' as int || c[e] == '-' as int) && 3 <= e - s <= 6
    && |gs| >= 2 && Grouping(c, c[e], e, gs) && NoMore(c, c[e], n) && n == gs[|gs| - 1].end && s <= n <= |c|
    && IsBankCard(DigitsOf(c[s..n]))
  }

  /** A grouped card is three or more groups, joined by one kind of separator, with nothing left to join. */
  lemma GroupedExact(c: bytes, s: nat, e: nat, n: nat)
    requires IsRun(c, s, e)
    ensures GroupedEnd(c, s, e) == Some(n) <==> exists gs :: GroupedCardAt(c, s, e, n, gs)
  {
    if e < |c| && (c[e] == ' ' as int || c[e] == '-' as int) {
      var gs := Groups(c, c[e], e);
      GroupsExact(c, c[e], e, gs);
      GroupedDigits(c, s, e, LastEnd(gs, e));
      if GroupedEnd(c, s, e) == Some(n) {
        assert GroupedCardAt(c, s, e, n, gs);
      }
      if gs' :| GroupedCardAt(c, s, e, n, gs') {
        GroupsExact(c, c[e], e, gs');
      }
    }
  }

  lemma {:induction false} GroupedDigits(c: bytes, s: nat, e: nat, n: nat)
    requires IsRun(c, s, e) && e < |c| && !IsDigit(c[e]) && n == LastEnd(Groups(c, c[e], e), e)
    ensures e <= n <= |c| && c[s..e] + Rest(c, c[e], e) == DigitsOf(c[s..n])
  {
    GroupsDigits(c, c[e], e, n);
    RunThen(c, s, e, n);
  }

  lemma {:induction false} RunThen(c: bytes, s: nat, e: nat, n: nat)
    requires s <= e <= n <= |c| && forall i | s <= i < e :: IsDigit(c[i])
    ensures DigitsOf(c[s..n]) == c[s..e] + DigitsOf(c[e..n])
  {
    var run, rest, all := c[s..e], c[e..n], c[s..n];
    assert all == run + rest;
    DigitsFirst(run, rest, all);
  }
}
