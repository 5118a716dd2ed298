/**
 * Byte strings and the order the iterator layer compares them by: Rust's
 * ordering on `&[u8]` (lexicographic, a proper prefix sorts first) and
 * `starts_with`.
 */
module ByteOrder {

  /** An unsigned 8-bit value (Rust `u8`). */
  newtype Byte = b: int | 0 <= b < 256

  /** A key or a value as the store holds it. */
  type Bytes = seq<Byte>

  /** `a <= b` on byte slices. */
  predicate LessEq(a: Bytes, b: Bytes)
    decreases |a|
  {
    |a| == 0 || (|b| != 0 && (a[0] < b[0] || (a[0] == b[0] && LessEq(a[1..], b[1..]))))
  }

  /** `a < b` on byte slices. */
  predicate Less(a: Bytes, b: Bytes) {
    !LessEq(b, a)
  }

  /** `k.starts_with(p)`. */
  predicate HasPrefix(k: Bytes, p: Bytes) {
    |p| <= |k| && k[..|p|] == p
  }

  lemma {:induction false} LessEqReflexive(a: Bytes)
    ensures LessEq(a, a)
    decreases |a|
  {
    if |a| != 0 {
      LessEqReflexive(a[1..]);
    }
  }

  lemma {:induction false} LessEqAntisymmetric(a: Bytes, b: Bytes)
    requires LessEq(a, b) && LessEq(b, a)
    ensures a == b
    decreases |a|
  {
    if |a| != 0 {
      LessEqAntisymmetric(a[1..], b[1..]);
      assert a == [a[0]] + a[1..];
      assert b == [b[0]] + b[1..];
    }
  }

  lemma {:induction false} LessEqTransitive(a: Bytes, b: Bytes, c: Bytes)
    requires LessEq(a, b) && LessEq(b, c)
    ensures LessEq(a, c)
    decreases |a|
  {
    if |a| != 0 && a[0] == b[0] && b[0] == c[0] {
      LessEqTransitive(a[1..], b[1..], c[1..]);
    }
  }

  lemma {:induction false} LessEqTotal(a: Bytes, b: Bytes)
    ensures LessEq(a, b) || LessEq(b, a)
    decreases |a|
  {
    if |a| != 0 && |b| != 0 && a[0] == b[0] {
      LessEqTotal(a[1..], b[1..]);
    }
  }

  /** A strictly smaller key is also smaller-or-equal, and differs. */
  lemma LessIsStrict(a: Bytes, b: Bytes)
    requires Less(a, b)
    ensures LessEq(a, b) && a != b
  {
    LessEqTotal(a, b);
    if a == b {
      LessEqReflexive(a);
    }
  }

  lemma LessEqLessTransitive(a: Bytes, b: Bytes, c: Bytes)
    requires LessEq(a, b) && Less(b, c)
    ensures Less(a, c)
  {
    if LessEq(c, a) {
      LessEqTransitive(c, a, b);
    }
  }

  lemma LessLessEqTransitive(a: Bytes, b: Bytes, c: Bytes)
    requires Less(a, b) && LessEq(b, c)
    ensures Less(a, c)
  {
    if LessEq(c, a) {
      LessEqTransitive(b, c, a);
    }
  }

  /** A prefix sorts no later than every key that starts with it. */
  lemma {:induction false} PrefixIsLeast(k: Bytes, p: Bytes)
    requires HasPrefix(k, p)
    ensures LessEq(p, k)
    decreases |p|
  {
    if |p| != 0 {
      assert k[0] == k[..|p|][0] == p[0];
      assert k[1..][..|p| - 1] == k[..|p|][1..];
      PrefixIsLeast(k[1..], p[1..]);
    }
  }

  /**
   * The keys starting with `p` are contiguous in byte order: a key lying
   * between `p` and a key that starts with `p` starts with `p` too.
   */
  lemma {:induction false} PrefixBetween(p: Bytes, b: Bytes, a: Bytes)
    requires LessEq(p, b) && LessEq(b, a) && HasPrefix(a, p)
    ensures HasPrefix(b, p)
    decreases |p|
  {
    if |p| != 0 {
      assert a[0] == a[..|p|][0] == p[0];
      assert b[0] == p[0];
      assert a[1..][..|p| - 1] == a[..|p|][1..];
      PrefixBetween(p[1..], b[1..], a[1..]);
      assert b[..|p|] == [b[0]] + b[1..][..|p| - 1];
    }
  }
}
