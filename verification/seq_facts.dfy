/** Small facts about slicing and concatenating sequences. Stating them on
    their own keeps them out of proofs whose contexts hold many unfolded
    function calls, where the solver would otherwise rediscover them by
    extensionality at great cost. */
module SeqFacts {

  lemma FrontLast<T>(s: seq<T>)
    requires |s| > 0
    ensures s == s[..|s| - 1] + [s[|s| - 1]]
  {
  }

  lemma AppendParts<T>(s: seq<T>, x: T)
    ensures |s + [x]| == |s| + 1
    ensures (s + [x])[..|s|] == s
    ensures (s + [x])[|s|] == x
  {
  }

  lemma AppendNothing<T>(s: seq<T>)
    ensures s + [] == s && [] + s == s
  {
  }

  /** Equal sequences that end in one element each agree on the element and the rest. */
  lemma AppendCancel<T>(s: seq<T>, t: seq<T>, x: T, y: T)
    requires s + [x] == t + [y]
    ensures s == t && x == y
  {
    assert s == (s + [x])[..|s|];
    assert t == (t + [y])[..|t|];
  }

  lemma DropDrop<T>(s: seq<T>, k: nat)
    requires 0 < k <= |s|
    ensures s[k - 1..][1..] == s[k..]
    ensures s[..k - 1] + [s[k - 1]] == s[..k]
  {
  }

  lemma EmptySlices<T>(s: seq<T>, t: seq<T>)
    ensures s[0..] == s && s[..0] + t == t
  {
  }

  lemma ConcatStep<T>(a: seq<T>, c: T, x: seq<T>, y: seq<T>, z: seq<T>)
    requires x == a + y && y == [c] + z
    ensures x == (a + [c]) + z
  {
  }

  /** Sequences holding the same elements, with multiplicity, hold the same elements. */
  lemma SameMembers<T>(s: seq<T>, t: seq<T>)
    requires multiset(s) == multiset(t)
    ensures forall x :: x in s <==> x in t
  {
    forall x
      ensures x in s <==> x in t
    {
      assert x in s <==> x in multiset(s);
      assert x in t <==> x in multiset(t);
    }
  }
}
