/**
 * The order on version strings. Rust's `String` comparison and the document
 * store's sort on a string key both compare byte by byte; UTF-8 preserves the
 * order of code points, so on `seq<char>` this is the lexicographic order on
 * characters. Dafny's own `<` on sequences means "proper prefix", which is a
 * different (partial) order.
 */
module Lex {

  /** `a < b` lexicographically. */
  predicate Less(a: string, b: string)
    decreases |a|
  {
    if |a| == 0 then |b| > 0
    else if |b| == 0 then false
    else if a[0] != b[0] then a[0] < b[0]
    else Less(a[1..], b[1..])
  }

  lemma {:induction false} LessIrreflexive(a: string)
    ensures !Less(a, a)
    decreases |a|
  {
    if |a| > 0 {
      LessIrreflexive(a[1..]);
    }
  }

  lemma {:induction false} LessTransitive(a: string, b: string, c: string)
    requires Less(a, b) && Less(b, c)
    ensures Less(a, c)
    decreases |a|
  {
    if |a| > 0 && a[0] == b[0] && b[0] == c[0] {
      LessTransitive(a[1..], b[1..], c[1..]);
    }
  }

  lemma {:induction false} LessTrichotomy(a: string, b: string)
    ensures a == b || Less(a, b) || Less(b, a)
    decreases |a|
  {
    if |a| > 0 && |b| > 0 && a[0] == b[0] {
      LessTrichotomy(a[1..], b[1..]);
      if a[1..] == b[1..] {
        assert a == [a[0]] + a[1..] && b == [b[0]] + b[1..];
      }
    }
  }

  lemma LessAsymmetric(a: string, b: string)
    requires Less(a, b)
    ensures !Less(b, a)
  {
    if Less(b, a) {
      LessTransitive(a, b, a);
      LessIrreflexive(a);
    }
  }

  /** "not greater than" is transitive: the order is total, so it is a total preorder. */
  lemma NotLessTransitive(a: string, b: string, c: string)
    requires !Less(b, a) && !Less(c, b)
    ensures !Less(c, a)
  {
    if Less(c, a) {
      LessTrichotomy(a, b);
      if Less(a, b) {
        LessTransitive(c, a, b);
      }
    }
  }

  /** A proper prefix (Dafny's `<` on sequences) is lexicographically smaller. */
  lemma {:induction false} PrefixIsLess(a: string, b: string)
    requires a < b
    ensures Less(a, b)
    decreases |a|
  {
    if |a| > 0 {
      assert a[1..] < b[1..] by {
        assert a[1..] == b[1..|a|];
      }
      PrefixIsLess(a[1..], b[1..]);
    }
  }

  /** The order is not that of version numbers: "1.10.0" sorts below "1.9.0". */
  lemma TenSortsBelowNine()
    ensures Less("1.10.0", "1.9.0") && !("1.10.0" < "1.9.0")
  {
  }
}
