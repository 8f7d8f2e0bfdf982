/**
 Base32 of section 6 of RFC 4648, in lower case, without padding and with
 canonical trailing bits, as the address codec configures it.
 */
module Base32 {
  import opened Bytes

  // ── Bits ───────────────────────────────────────────────────────────────

  function Pow2(n: nat): nat {
    if n == 0 then 1 else 2 * Pow2(n - 1)
  }

  /** The `w` low bits of `n`, most significant first. */
  function ToBits(n: nat, w: nat): (bits: seq<bool>)
    ensures |bits| == w
  {
    if w == 0 then [] else ToBits(n / 2, w - 1) + [n % 2 == 1]
  }

  function FromBits(bits: seq<bool>): (n: nat)
    ensures n < Pow2(|bits|)
  {
    if bits == [] then 0 else 2 * FromBits(bits[..|bits| - 1]) + if bits[|bits| - 1] then 1 else 0
  }

  lemma {:induction false} FromTo(n: nat, w: nat)
    requires n < Pow2(w)
    ensures FromBits(ToBits(n, w)) == n
  {
    if w > 0 {
      FromTo(n / 2, w - 1);
      assert ToBits(n, w)[..w - 1] == ToBits(n / 2, w - 1);
    }
  }

  lemma {:induction false} ToFrom(bits: seq<bool>)
    ensures ToBits(FromBits(bits), |bits|) == bits
  {
    if bits != [] {
      ToFrom(bits[..|bits| - 1]);
    }
  }

  function Zeros(n: nat): seq<bool> {
    seq(n, _ => false)
  }

  // ── Bytes and symbols as bits ──────────────────────────────────────────

  lemma Small()
    ensures Pow2(5) == 32 && Pow2(8) == 256
  {
    assert Pow2(3) == 8;
    assert Pow2(6) == 64;
  }

  function ByteBits(bs: bytes): (bits: seq<bool>)
    ensures |bits| == 8 * |bs|
  {
    if bs == [] then [] else ToBits(bs[0], 8) + ByteBits(bs[1..])
  }

  /** The whole bytes at the front; fewer than eight bits are left over. */
  function WholeBytes(bits: seq<bool>): (bs: bytes)
    ensures |bs| == |bits| / 8
  {
    if |bits| < 8 then [] else (Small(); [FromBits(bits[..8])] + WholeBytes(bits[8..]))
  }

  type symbol = v: int | 0 <= v < 32

  function SymbolBits(vs: seq<symbol>): (bits: seq<bool>)
    ensures |bits| == 5 * |vs|
  {
    if vs == [] then [] else ToBits(vs[0], 5) + SymbolBits(vs[1..])
  }

  /** Five bits at a time, the last ones filled up with zeros. */
  function Symbols(bits: seq<bool>): (vs: seq<symbol>)
    ensures |vs| == (|bits| + 4) / 5
    decreases |bits|
  {
    Small();
    if bits == [] then []
    else if |bits| < 5 then [FromBits(bits + Zeros(5 - |bits|))]
    else [FromBits(bits[..5])] + Symbols(bits[5..])
  }

  lemma FirstByte(b: byte, rest: seq<bool>)
    ensures WholeBytes(ToBits(b, 8) + rest) == [b] + WholeBytes(rest)
  {
    Small();
    FromTo(b, 8);
    TakeDrop(ToBits(b, 8), rest);
  }

  lemma {:induction false} BytesOfBits(bs: bytes, more: seq<bool>)
    requires |more| < 8
    ensures WholeBytes(ByteBits(bs) + more) == bs
  {
    if bs == [] {
      assert ByteBits(bs) + more == more;
    } else {
      BytesOfBits(bs[1..], more);
      FirstByte(bs[0], ByteBits(bs[1..]) + more);
      Assoc(ToBits(bs[0], 8), ByteBits(bs[1..]), more);
      assert bs == [bs[0]] + bs[1..];
    }
  }

  lemma {:induction false} BitsOfBytes(bits: seq<bool>)
    ensures ByteBits(WholeBytes(bits)) == bits[..|bits| / 8 * 8]
  {
    if |bits| >= 8 {
      BitsOfBytes(bits[8..]);
      ToFrom(bits[..8]);
      FrontEights(bits, |bits| / 8 * 8);
      ConsTail(FromBits(bits[..8]), WholeBytes(bits[8..]));
    }
  }

  lemma FrontEights(bits: seq<bool>, n: nat)
    requires |bits| >= 8 && n == |bits| / 8 * 8
    ensures |bits[8..]| / 8 * 8 == n - 8 && bits[..n] == bits[..8] + bits[8..][..n - 8]
  {
  }

  /** How many zero bits fill up the last symbol. */
  function Fill(n: nat): (k: nat)
    ensures k < 5 && (n + k) % 5 == 0
  {
    (5 - n % 5) % 5
  }

  lemma FillLess(n: nat)
    requires n >= 5
    ensures Fill(n - 5) == Fill(n)
  {
  }

  lemma LastSymbol(bits: seq<bool>, k: nat)
    requires 0 < |bits| < 5 && k == 5 - |bits|
    ensures SymbolBits(Symbols(bits)) == bits + Zeros(k)
  {
    ToFrom(bits + Zeros(k));
    assert Symbols(bits)[1..] == [];
  }

  lemma FirstSymbol(bits: seq<bool>)
    requires |bits| >= 5
    ensures SymbolBits(Symbols(bits)) == bits[..5] + SymbolBits(Symbols(bits[5..]))
  {
    ToFrom(bits[..5]);
    ConsTail(FromBits(bits[..5]), Symbols(bits[5..]));
  }

  lemma {:induction false} BitsOfSymbols(bits: seq<bool>, k: nat)
    requires k == Fill(|bits|)
    ensures SymbolBits(Symbols(bits)) == bits + Zeros(k)
    decreases |bits|
  {
    if 0 < |bits| < 5 {
      LastSymbol(bits, k);
    } else if |bits| >= 5 {
      FirstSymbol(bits);
      FillLess(|bits|);
      BitsOfSymbols(bits[5..], k);
      Assoc(bits[..5], bits[5..], Zeros(k));
      assert bits == bits[..5] + bits[5..];
    }
  }

  /** Dropping the zeros that fill up the last symbol loses nothing. */
  lemma {:induction false} SymbolsOfBits(vs: seq<symbol>, bits: seq<bool>)
    requires |bits| <= 5 * |vs| < |bits| + 5 && SymbolBits(vs) == bits + Zeros(5 * |vs| - |bits|)
    ensures Symbols(bits) == vs
  {
    Small();
    if vs != [] {
      var all := SymbolBits(vs);
      FromTo(vs[0], 5);
      assert all[..5] == ToBits(vs[0], 5) && all[5..] == SymbolBits(vs[1..]);
      if |bits| < 5 {
        assert vs[1..] == [] && bits + Zeros(5 - |bits|) == all[..5];
      } else {
        assert all[..5] == bits[..5] && all[5..] == bits[5..] + Zeros(5 * |vs| - |bits|);
        SymbolsOfBits(vs[1..], bits[5..]);
      }
    }
  }

  // ── The alphabet ───────────────────────────────────────────────────────

  /** `a` to `z`, then `2` to `7`. */
  function Letter(v: symbol): (b: byte)
    ensures IsLower(b) || 0x32 <= b <= 0x37
  {
    if v < 26 then 0x61 + v else 0x32 + (v - 26)
  }

  function LetterValue(b: byte): Option<symbol> {
    if IsLower(b) then Some(b - 0x61) else if 0x32 <= b <= 0x37 then Some(b - 0x32 + 26) else None
  }

  const ALPHABET := "abcdefghijklmnopqrstuvwxyz234567"

  /** The alphabet of section 6 of RFC 4648, in its order and in lower case. */
  lemma LetterOrder(v: symbol)
    ensures Letter(v) == ALPHABET[v] as int
  {
  }

  lemma LetterInverse(v: symbol, b: byte)
    ensures LetterValue(Letter(v)) == Some(v)
    ensures LetterValue(b).Some? ==> Letter(LetterValue(b).value) == b
  {
  }

  function Spell(vs: seq<symbol>): (s: bytes)
    ensures |s| == |vs| && forall i | 0 <= i < |vs| :: s[i] == Letter(vs[i])
  {
    seq(|vs|, i requires 0 <= i < |vs| => Letter(vs[i]))
  }

  function ReadLetters(s: bytes): (vs: Option<seq<symbol>>)
    ensures vs.Some? ==> |vs.value| == |s|
  {
    if s == [] then Some([])
    else
      var v, rest := LetterValue(s[0]), ReadLetters(s[1..]);
      if v.None? || rest.None? then None else Some([v.value] + rest.value)
  }

  lemma {:induction false} ReadSpell(vs: seq<symbol>)
    ensures ReadLetters(Spell(vs)) == Some(vs)
  {
    if vs != [] {
      assert Spell(vs)[1..] == Spell(vs[1..]);
      ReadSpell(vs[1..]);
      LetterInverse(vs[0], 0);
      assert [vs[0]] + vs[1..] == vs;
    }
  }

  lemma {:induction false} SpellRead(s: bytes)
    requires ReadLetters(s).Some?
    ensures Spell(ReadLetters(s).value) == s
  {
    if s != [] {
      SpellRead(s[1..]);
      LetterInverse(0, s[0]);
      var vs := ReadLetters(s).value;
      assert vs[1..] == ReadLetters(s[1..]).value;
      assert Spell(vs) == [Letter(vs[0])] + Spell(vs[1..]);
    }
  }

  // ── The codec ──────────────────────────────────────────────────────────

  function Encode(bs: bytes): (s: bytes)
    ensures |s| == (8 * |bs| + 4) / 5
    ensures forall i | 0 <= i < |s| :: IsLower(s[i]) || 0x32 <= s[i] <= 0x37
  {
    Spell(Symbols(ByteBits(bs)))
  }

  /** Refuses other letters, lengths no encoding has, and trailing bits that are not zero. */
  function Decode(s: bytes): Option<bytes> {
    var vs := ReadLetters(s);
    if vs.None? then None
    else
      var bits := SymbolBits(vs.value);
      var n := |bits| / 8 * 8;
      if |bits| - n >= 5 || bits[n..] != Zeros(|bits| - n) then None else Some(WholeBytes(bits))
  }

  lemma DecodeEncode(bs: bytes)
    ensures Decode(Encode(bs)) == Some(bs)
  {
    var bits := ByteBits(bs);
    var k := Fill(|bits|);
    ReadSpell(Symbols(bits));
    BitsOfSymbols(bits, k);
    BytesOfBits(bs, Zeros(k));
    TakeDrop(bits, Zeros(k));
    assert |bits + Zeros(k)| / 8 * 8 == 8 * |bs|;
  }

  /** Only one text decodes to given bytes. */
  lemma EncodeDecode(s: bytes)
    requires Decode(s).Some?
    ensures Encode(Decode(s).value) == s
  {
    var vs := ReadLetters(s).value;
    var bits := SymbolBits(vs);
    var n := |bits| / 8 * 8;
    SpellRead(s);
    BitsOfBytes(bits);
    assert bits == bits[..n] + bits[n..];
    SymbolsOfBits(vs, bits[..n]);
  }
}
