/** UTF-8 as RFC 3629 defines it, for text the repository checks or decodes. */
module Utf8 {
  import opened Bytes

  /** A Unicode scalar value. */
  type scalar = cp: int | 0 <= cp < 0xD800 || 0xE000 <= cp < 0x110000

  predicate IsContinuation(b: byte) {
    0x80 <= b < 0xC0
  }

  function Encode(cp: scalar): (r: bytes)
    ensures 1 <= |r| <= 4 && !IsContinuation(r[0])
  {
    var p, q := cp / 0x40, cp / 0x40 / 0x40;
    if cp < 0x80 then [cp]
    else if cp < 0x800 then [0xC0 + p, 0x80 + cp % 0x40]
    else if cp < 0x10000 then [0xE0 + q, 0x80 + p % 0x40, 0x80 + cp % 0x40]
    else [0xF0 + q / 0x40, 0x80 + q % 0x40, 0x80 + p % 0x40, 0x80 + cp % 0x40]
  }

  function EncodeAll(text: seq<scalar>): bytes {
    if text == [] then [] else Encode(text[0]) + EncodeAll(text[1..])
  }

  /** How many bytes the lead byte announces. */
  function Width(lead: byte): (w: nat)
    ensures 1 <= w <= 4
  {
    if lead < 0x80 then 1 else if 0xC0 <= lead < 0xE0 then 2 else if 0xE0 <= lead < 0xF0 then 3 else 4
  }

  function Tail(b: byte): int {
    b - 0x80
  }

  /** The scalar value the bytes `s` spell, if they are exactly one character. */
  function DecodeOne(s: bytes): Option<scalar> {
    if |s| == 1 && s[0] < 0x80 then Some(s[0])
    else if |s| == 2 && 0xC2 <= s[0] < 0xE0 && IsContinuation(s[1]) then
      Some((s[0] - 0xC0) * 0x40 + Tail(s[1]))
    else if |s| == 3 && 0xE0 <= s[0] < 0xF0 && IsContinuation(s[1]) && IsContinuation(s[2]) then
      var cp := ((s[0] - 0xE0) * 0x40 + Tail(s[1])) * 0x40 + Tail(s[2]);
      if 0x800 <= cp && !(0xD800 <= cp < 0xE000) then Some(cp) else None
    else if |s| == 4 && 0xF0 <= s[0] < 0xF5 && IsContinuation(s[1]) && IsContinuation(s[2]) && IsContinuation(s[3]) then
      var cp := (((s[0] - 0xF0) * 0x40 + Tail(s[1])) * 0x40 + Tail(s[2])) * 0x40 + Tail(s[3]);
      if 0x10000 <= cp < 0x110000 then Some(cp) else None
    else None
  }

  lemma Digits(x: nat)
    ensures x / 0x40 * 0x40 + x % 0x40 == x && x % 0x40 < 0x40
  {
  }

  lemma Compose(q: nat, r: nat)
    requires r < 0x40
    ensures (q * 0x40 + r) / 0x40 == q && (q * 0x40 + r) % 0x40 == r
  {
  }

  lemma DecodeEncodeOne(cp: scalar)
    ensures DecodeOne(Encode(cp)) == Some(cp)
    ensures Width(Encode(cp)[0]) == |Encode(cp)|
  {
    var p, q := cp / 0x40, cp / 0x40 / 0x40;
    Digits(cp);
    Digits(p);
    Digits(q);
  }

  lemma EncodeTwo(a: nat, b: nat, cp: scalar)
    requires b < 0x40 && cp == a * 0x40 + b && 0x80 <= cp < 0x800
    ensures Encode(cp) == [0xC0 + a, 0x80 + b]
  {
    Compose(a, b);
  }

  lemma EncodeThree(a: nat, b: nat, c: nat, cp: scalar)
    requires b < 0x40 && c < 0x40 && cp == (a * 0x40 + b) * 0x40 + c && 0x800 <= cp < 0x10000
    ensures Encode(cp) == [0xE0 + a, 0x80 + b, 0x80 + c]
  {
    Compose(a, b);
    Compose(a * 0x40 + b, c);
  }

  lemma EncodeFour(a: nat, b: nat, c: nat, d: nat, cp: scalar)
    requires b < 0x40 && c < 0x40 && d < 0x40 && cp == ((a * 0x40 + b) * 0x40 + c) * 0x40 + d && 0x10000 <= cp
    ensures Encode(cp) == [0xF0 + a, 0x80 + b, 0x80 + c, 0x80 + d]
  {
    Compose(a, b);
    Compose(a * 0x40 + b, c);
    Compose((a * 0x40 + b) * 0x40 + c, d);
  }

  lemma EncodeDecodeOne(s: bytes)
    requires DecodeOne(s).Some?
    ensures Encode(DecodeOne(s).value) == s
    ensures Width(s[0]) == |s|
  {
    var cp := DecodeOne(s).value;
    if |s| == 2 {
      EncodeTwo(s[0] - 0xC0, Tail(s[1]), cp);
    } else if |s| == 3 {
      EncodeThree(s[0] - 0xE0, Tail(s[1]), Tail(s[2]), cp);
    } else if |s| == 4 {
      EncodeFour(s[0] - 0xF0, Tail(s[1]), Tail(s[2]), Tail(s[3]), cp);
    }
  }

  function DecodeAll(s: bytes): Option<seq<scalar>> {
    if s == [] then Some([])
    else
      var w := Width(s[0]);
      if w > |s| || DecodeOne(s[..w]).None? then None
      else
        var rest := DecodeAll(s[w..]);
        if rest.None? then None else Some([DecodeOne(s[..w]).value] + rest.value)
  }

  predicate IsUtf8(s: bytes) {
    DecodeAll(s).Some?
  }

  lemma {:induction false} DecodeEncode(text: seq<scalar>)
    ensures DecodeAll(EncodeAll(text)) == Some(text)
  {
    if text != [] {
      var c := Encode(text[0]);
      var s := EncodeAll(text);
      DecodeEncodeOne(text[0]);
      DecodeEncode(text[1..]);
      assert s[0] == c[0];
      assert s[..|c|] == c && s[|c|..] == EncodeAll(text[1..]);
      assert [text[0]] + text[1..] == text;
    }
  }

  lemma {:induction false} EncodeDecode(s: bytes)
    requires IsUtf8(s)
    ensures EncodeAll(DecodeAll(s).value) == s
  {
    EncodeText(s, DecodeAll(s).value);
  }

  lemma {:induction false} EncodeText(s: bytes, text: seq<scalar>)
    requires DecodeAll(s) == Some(text)
    ensures EncodeAll(text) == s
    decreases |s|
  {
    if s != [] {
      var w := Width(s[0]);
      DecodeStep(s, w, text);
      var one, rest := s[..w], s[w..];
      EncodeText(rest, text[1..]);
      EncodeStep(one, rest, text);
      assert s == one + rest;
    }
  }

  lemma {:induction false} EncodeStep(one: bytes, rest: bytes, text: seq<scalar>)
    requires text != [] && DecodeOne(one) == Some(text[0]) && EncodeAll(text[1..]) == rest
    ensures EncodeAll(text) == one + rest
  {
    EncodeDecodeOne(one);
  }

  lemma {:induction false} DecodeStep(s: bytes, w: nat, text: seq<scalar>)
    requires s != [] && w == Width(s[0]) && DecodeAll(s) == Some(text)
    ensures w <= |s| && text != [] && DecodeOne(s[..w]) == Some(text[0]) && DecodeAll(s[w..]) == Some(text[1..])
  {
  }

  /** Rust's `str::is_char_boundary` for an index within the text. */
  predicate IsBoundary(s: bytes, i: nat)
    requires i <= |s|
  {
    i == |s| || !IsContinuation(s[i])
  }

  lemma {:induction false} EncodeAllJoin(a: seq<scalar>, b: seq<scalar>)
    ensures EncodeAll(a + b) == EncodeAll(a) + EncodeAll(b)
  {
    if a == [] {
      assert a + b == b;
    } else {
      EncodeAllJoin(a[1..], b);
      JoinTail(a, b);
      Assoc(Encode(a[0]), EncodeAll(a[1..]), EncodeAll(b));
    }
  }

  lemma JoinUtf8(a: bytes, b: bytes)
    requires IsUtf8(a) && IsUtf8(b)
    ensures IsUtf8(a + b)
  {
    EncodeDecode(a);
    EncodeDecode(b);
    EncodeAllJoin(DecodeAll(a).value, DecodeAll(b).value);
    DecodeEncode(DecodeAll(a).value + DecodeAll(b).value);
  }

  lemma TailsContinue(s: bytes, i: nat)
    requires DecodeOne(s).Some? && 0 < i < |s|
    ensures IsContinuation(s[i])
  {
  }

  /** Cutting valid text at a character boundary leaves two valid texts. */
  lemma {:induction false} SplitUtf8(s: bytes, i: nat)
    requires IsUtf8(s) && i <= |s| && IsBoundary(s, i)
    ensures IsUtf8(s[..i]) && IsUtf8(s[i..])
  {
    if i == 0 {
      assert s[0..] == s;
    } else {
      var w := Width(s[0]);
      if i < w {
        TailsContinue(s[..w], i);
        assert false;
      }
      assert s[i..] == s[w..][i - w..];
      assert s[w..][..i - w] == s[w..i];
      SplitUtf8(s[w..], i - w);
      assert s[..i][w..] == s[w..i] && s[..i][..w] == s[..w];
    }
  }

  /** A boundary of valid text is where a prefix of it is valid text: nothing else is between two characters. */
  lemma {:induction false} BoundaryExact(s: bytes, i: nat)
    requires IsUtf8(s) && i <= |s|
    ensures IsBoundary(s, i) <==> IsUtf8(s[..i])
  {
    if IsBoundary(s, i) {
      SplitUtf8(s, i);
    } else if IsUtf8(s[..i]) {
      NoTailAfter(s, i);
    }
  }

  lemma {:induction false} NoTailAfter(s: bytes, i: nat)
    requires IsUtf8(s) && i < |s| && IsUtf8(s[..i])
    ensures !IsContinuation(s[i])
  {
    if i > 0 {
      var w := Width(s[0]);
      assert s[..i][w..] == s[w..][..i - w];
      NoTailAfter(s[w..], i - w);
    }
  }

  /** A slice of valid text between two boundaries is valid text. */
  lemma SliceUtf8(s: bytes, i: nat, j: nat)
    requires IsUtf8(s) && i <= j <= |s| && IsBoundary(s, i) && IsBoundary(s, j)
    ensures IsUtf8(s[i..j])
  {
    SplitUtf8(s, j);
    assert i < j ==> s[..j][i] == s[i];
    SplitUtf8(s[..j], i);
    assert s[..j][i..] == s[i..j];
  }

  lemma {:induction false} AsciiUtf8(s: bytes)
    requires forall i | 0 <= i < |s| :: s[i] < 0x80
    ensures IsUtf8(s)
  {
    if s != [] {
      AsciiUtf8(s[1..]);
    }
  }
}
