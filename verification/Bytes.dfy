/** Byte strings and the small wrappers shared by every module. */
module Bytes {

  type byte = b: int | 0 <= b < 256

  type bytes = seq<byte>

  datatype Option<+T> = None | Some(value: T)

  datatype Result<+T, +E> = Ok(value: T) | Err(error: E)

  /** A half-open range of positions, as `std::ops::Range<usize>`. */
  datatype Span = Span(start: nat, end: nat) {
    predicate WithinLength(n: nat) {
      start <= end <= n
    }

    predicate Contains(p: int) {
      start <= p < end
    }
  }

  lemma Assoc<T>(a: seq<T>, b: seq<T>, c: seq<T>)
    ensures (a + b) + c == a + (b + c)
  {
  }

  lemma ConsTail<T>(t: T, k: seq<T>)
    ensures ([t] + k)[0] == t && ([t] + k)[1..] == k
  {
  }

  lemma JoinTail<T>(a: seq<T>, b: seq<T>)
    requires a != []
    ensures (a + b)[0] == a[0] && (a + b)[1..] == a[1..] + b
  {
  }

  /** Dropping in two steps. */
  lemma DropAgain<T>(c: seq<T>, i: nat, n: nat)
    requires i + n <= |c|
    ensures c[i..][n..] == c[i + n..] && c[i..][..n] == c[i..i + n]
  {
  }

  lemma TakeDrop<T>(a: seq<T>, b: seq<T>)
    ensures (a + b)[..|a|] == a && (a + b)[|a|..] == b
  {
  }

  function Max(a: nat, b: nat): nat {
    if a < b then b else a
  }

  function Min(a: nat, b: nat): nat {
    if a < b then a else b
  }

  predicate IsDigit(b: byte) {
    48 <= b <= 57
  }

  predicate IsUpper(b: byte) {
    65 <= b <= 90
  }

  predicate IsLower(b: byte) {
    97 <= b <= 122
  }

  /** Byte-wise lexicographic order, in which strings are compared and ordered maps keep their keys. */
  predicate Less(a: bytes, b: bytes) {
    b != [] && (a == [] || a[0] < b[0] || (a[0] == b[0] && Less(a[1..], b[1..])))
  }

  /** The lesser is a proper prefix, or smaller at the first place where the two differ. */
  lemma {:induction false} LessExact(a: bytes, b: bytes)
    ensures Less(a, b) <==> a < b || exists i :: FirstSmaller(a, b, i)
  {
    if a != [] && b != [] {
      var s, t := a[1..], b[1..];
      assert a == [a[0]] + s && b == [b[0]] + t;
      if a[0] == b[0] {
        LessExact(s, t);
        if i :| FirstSmaller(s, t, i) {
          assert FirstSmaller(a, b, i + 1);
        }
        if i :| FirstSmaller(a, b, i) {
          assert FirstSmaller(s, t, i - 1);
        }
      } else if a[0] < b[0] {
        assert FirstSmaller(a, b, 0);
      }
    }
  }

  /** The two first differ at `i`, where `a` is smaller. */
  predicate FirstSmaller(a: bytes, b: bytes, i: int) {
    0 <= i < |a| && i < |b| && a[i] < b[i] && forall k | 0 <= k < i :: a[k] == b[k]
  }

  /** Exactly one of two different strings is the lesser. */
  lemma {:induction false} LessTotal(a: bytes, b: bytes)
    ensures a != b ==> (Less(a, b) <==> !Less(b, a))
    ensures a == b ==> !Less(a, b)
  {
    if a != [] && b != [] {
      LessTotal(a[1..], b[1..]);
      assert a == [a[0]] + a[1..] && b == [b[0]] + b[1..];
    }
  }
}
