/** Rust's `Ord` for `String`: lexicographic order on characters. Rust
    compares the UTF-8 bytes, which orders strings exactly as comparing their
    code points does. (Dafny's own `<` on sequences is the proper-prefix
    relation, so the order is defined here by hand.) */
module StringOrder {

  /** `a <= b` in lexicographic order. The empty string is below every
      string, and a string is at most another only if its first character
      is not greater. */
  predicate LexLe(a: string, b: string)
    ensures |a| == 0 ==> LexLe(a, b)
    ensures LexLe(a, b) && |a| > 0 ==> |b| > 0 && a[0] <= b[0]
  {
    |a| == 0 || (|b| > 0 && (a[0] < b[0] || (a[0] == b[0] && LexLe(a[1..], b[1..]))))
  }

  /** At the first position where `a` and `b` differ, `a` has the smaller character. */
  ghost predicate SmallerAtFirstDifference(a: string, b: string)
  {
    exists i :: 0 <= i < |a| && i < |b| && a[..i] == b[..i] && a[i] < b[i]
  }

  /** The textbook definition of lexicographic order: `a` is a prefix of
      `b`, or `a` is smaller where they first differ. */
  lemma {:induction false} LexLeMeansPrefixOrSmaller(a: string, b: string)
    ensures LexLe(a, b) <==> (a <= b || SmallerAtFirstDifference(a, b))
  {
    if |a| > 0 && |b| > 0 {
      if a[0] != b[0] {
        DifferentHeads(a, b);
      } else {
        LexLeMeansPrefixOrSmaller(a[1..], b[1..]);
        EqualHeads(a, b);
      }
    }
  }

  /** Strings whose first characters differ first differ there. */
  lemma DifferentHeads(a: string, b: string)
    requires |a| > 0 && |b| > 0 && a[0] != b[0]
    ensures !(a <= b)
    ensures SmallerAtFirstDifference(a, b) <==> a[0] < b[0]
  {
    assert a[..0] == b[..0];
    forall i | 0 < i <= |a| && i <= |b|
      ensures a[..i] != b[..i]
    {
      assert a[..i][0] == a[0] && b[..i][0] == b[0];
    }
  }

  /** Strings with the same first character compare as their tails do. */
  lemma EqualHeads(a: string, b: string)
    requires |a| > 0 && |b| > 0 && a[0] == b[0]
    ensures a <= b <==> a[1..] <= b[1..]
    ensures SmallerAtFirstDifference(a, b) <==> SmallerAtFirstDifference(a[1..], b[1..])
  {
    assert a == [a[0]] + a[1..] && b == [b[0]] + b[1..];
    if SmallerAtFirstDifference(a, b) {
      FirstDifferenceInTails(a, b);
    }
    if SmallerAtFirstDifference(a[1..], b[1..]) {
      FirstDifferenceFromTails(a, b);
    }
  }

  lemma FirstDifferenceInTails(a: string, b: string)
    requires |a| > 0 && |b| > 0 && a[0] == b[0]
    requires SmallerAtFirstDifference(a, b)
    ensures SmallerAtFirstDifference(a[1..], b[1..])
  {
    var i :| 0 <= i < |a| && i < |b| && a[..i] == b[..i] && a[i] < b[i];
    assert i != 0;
    assert a[1..][..i - 1] == a[..i][1..] && b[1..][..i - 1] == b[..i][1..];
    assert a[1..][i - 1] < b[1..][i - 1];
  }

  lemma FirstDifferenceFromTails(a: string, b: string)
    requires |a| > 0 && |b| > 0 && a[0] == b[0]
    requires SmallerAtFirstDifference(a[1..], b[1..])
    ensures SmallerAtFirstDifference(a, b)
  {
    var j :| 0 <= j < |a[1..]| && j < |b[1..]| && a[1..][..j] == b[1..][..j] && a[1..][j] < b[1..][j];
    assert a[..j + 1] == [a[0]] + a[1..][..j] && b[..j + 1] == [b[0]] + b[1..][..j];
    assert a[j + 1] < b[j + 1];
  }

  lemma {:induction false} LexLeReflexive(a: string)
    ensures LexLe(a, a)
  {
    if |a| > 0 {
      LexLeReflexive(a[1..]);
    }
  }

  /** Any two strings are comparable. */
  lemma {:induction false} LexLeTotal(a: string, b: string)
    ensures LexLe(a, b) || LexLe(b, a)
  {
    if |a| > 0 && |b| > 0 && a[0] == b[0] {
      LexLeTotal(a[1..], b[1..]);
    }
  }

  lemma {:induction false} LexLeAntisymmetric(a: string, b: string)
    requires LexLe(a, b) && LexLe(b, a)
    ensures a == b
  {
    if |a| > 0 && |b| > 0 {
      LexLeAntisymmetric(a[1..], b[1..]);
      assert a == [a[0]] + a[1..];
      assert b == [b[0]] + b[1..];
    }
  }

  lemma {:induction false} LexLeTransitive(a: string, b: string, c: string)
    requires LexLe(a, b) && LexLe(b, c)
    ensures LexLe(a, c)
  {
    if |a| > 0 && a[0] == b[0] && b[0] == c[0] {
      LexLeTransitive(a[1..], b[1..], c[1..]);
    }
  }
}
