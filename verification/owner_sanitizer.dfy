/** The payload repair applied to every response body before decoding: each
    match of the pattern `"owner":"([^"]+?)"` is replaced by `"owner":"_"`,
    scanning left to right with non-overlapping matches, as the regex
    crate's `replace_all` does. The pattern is hand-coded as a scanner. */
module OwnerSanitizer {
  import opened ApiTypes
  import opened SeqFacts

  /** The literal key that opens a match: `"owner":"`. */
  const OwnerKey: string := "\"owner\":\""

  /** What every match is replaced with: `"owner":"_"`. */
  const Placeholder: string := "\"owner\":\"_\""

  /** `m` is one whole match of the pattern: the key, one or more characters
      other than a double quote, then a double quote. Since the owner value
      cannot hold a quote, the lazy `+?` and a greedy `+` pick the same end. */
  predicate IsOwnerMatch(m: string)
  {
    && |m| >= |OwnerKey| + 2
    && m[..|OwnerKey|] == OwnerKey
    && m[|m| - 1] == '"'
    && forall k :: |OwnerKey| <= k < |m| - 1 ==> m[k] != '"'
  }

  /** Length of the leading run of `s` free of double quotes. */
  function QuoteFreeRun(s: string): (n: nat)
    ensures n <= |s|
  {
    if |s| == 0 || s[0] == '"' then 0 else 1 + QuoteFreeRun(s[1..])
  }

  /** The run is maximal: no quote in it, and a quote right after it, if
      anything follows. */
  lemma {:induction false} QuoteFreeRunMaximal(s: string)
    ensures forall k :: 0 <= k < QuoteFreeRun(s) ==> s[k] != '"'
    ensures QuoteFreeRun(s) < |s| ==> s[QuoteFreeRun(s)] == '"'
  {
    if |s| > 0 && s[0] != '"' {
      QuoteFreeRunMaximal(s[1..]);
    }
  }

  /** The length of the match at the head of `s`, if one starts there. */
  function MatchAt(s: string): (r: Option<nat>)
    ensures r.Some? ==> |OwnerKey| + 2 <= r.value <= |s|
  {
    if |s| >= |OwnerKey| && s[..|OwnerKey|] == OwnerKey then
      var run := QuoteFreeRun(s[|OwnerKey|..]);
      if run > 0 && |OwnerKey| + run < |s| then Some(|OwnerKey| + run + 1) else None
    else
      None
  }

  /** The scanner finds exactly the matches of the pattern that start at the
      head of `s`: what it reports is one, and when it reports none, no
      prefix of `s` is one. */
  lemma MatchAtSound(s: string)
    ensures MatchAt(s).Some? ==> IsOwnerMatch(s[..MatchAt(s).value])
    ensures MatchAt(s).None? ==> forall n :: 0 <= n <= |s| ==> !IsOwnerMatch(s[..n])
  {
    if |s| >= |OwnerKey| && s[..|OwnerKey|] == OwnerKey {
      var run := QuoteFreeRun(s[|OwnerKey|..]);
      QuoteFreeRunMaximal(s[|OwnerKey|..]);
      if run > 0 && |OwnerKey| + run < |s| {
        assert s[..|OwnerKey| + run + 1][..|OwnerKey|] == s[..|OwnerKey|];
      } else {
        NoMatchWithoutValue(s, run);
      }
    } else {
      NoMatchWithoutKey(s);
    }
  }

  lemma NoMatchWithoutKey(s: string)
    requires !(|s| >= |OwnerKey| && s[..|OwnerKey|] == OwnerKey)
    ensures forall n :: 0 <= n <= |s| ==> !IsOwnerMatch(s[..n])
  {
    forall n | 0 <= n <= |s| && IsOwnerMatch(s[..n])
      ensures false
    {
    }
  }

  lemma NoMatchWithoutValue(s: string, run: nat)
    requires |s| >= |OwnerKey| && s[..|OwnerKey|] == OwnerKey
    requires run == QuoteFreeRun(s[|OwnerKey|..])
    requires !(run > 0 && |OwnerKey| + run < |s|)
    ensures forall n :: 0 <= n <= |s| ==> !IsOwnerMatch(s[..n])
  {
    QuoteFreeRunMaximal(s[|OwnerKey|..]);
    forall n | 0 <= n <= |s| && IsOwnerMatch(s[..n])
      ensures false
    {
    }
  }

  /** A match at a given start is unique: its end is the first quote after the key. */
  lemma MatchEndUnique(s: string, n: nat, n': nat)
    requires n <= |s| && n' <= |s|
    requires IsOwnerMatch(s[..n]) && IsOwnerMatch(s[..n'])
    ensures n == n'
  {
  }

  /** The rewritten text: every leftmost, non-overlapping match becomes the placeholder. */
  function Sanitize(s: string): (r: string)
    ensures |r| <= |s|
    decreases |s|
  {
    if |s| == 0 then ""
    else match MatchAt(s)
      case Some(n) => Placeholder + Sanitize(s[n..])
      case None => [s[0]] + Sanitize(s[1..])
  }

  /** No match of the pattern starts at a position before `k` of `s`. */
  ghost predicate NoMatchStartsBefore(s: string, k: nat)
    requires k <= |s|
  {
    forall i :: 0 <= i < k ==> MatchAt(s[i..]).None?
  }

  /** `s` holds a match of the pattern somewhere. */
  ghost predicate ContainsMatch(s: string)
  {
    !NoMatchStartsBefore(s, |s|)
  }

  /** The scanner's view agrees with the pattern: no match starts before `k`
      exactly when no substring starting before `k` is a match. */
  lemma NoMatchStartsBeforeMeans(s: string, k: nat)
    requires k <= |s|
    ensures NoMatchStartsBefore(s, k) <==>
              forall i, j :: 0 <= i < k && i <= j <= |s| ==> !IsOwnerMatch(s[i..j])
  {
    if NoMatchStartsBefore(s, k) {
      forall i, j | 0 <= i < k && i <= j <= |s|
        ensures !IsOwnerMatch(s[i..j])
      {
        assert MatchAt(s[i..]).None?;
        MatchAtSound(s[i..]);
        assert s[i..][..j - i] == s[i..j];
      }
    } else {
      var i :| 0 <= i < k && MatchAt(s[i..]).Some?;
      var n := MatchAt(s[i..]).value;
      MatchAtSound(s[i..]);
      assert s[i..][..n] == s[i..i + n];
    }
  }

  /** The text before the first position where a match can start is copied
      through, and the scan carries on from that position. */
  lemma {:induction false} SanitizeCopiesPrefix(s: string, k: nat)
    requires k <= |s|
    requires NoMatchStartsBefore(s, k)
    ensures Sanitize(s) == s[..k] + Sanitize(s[k..])
    decreases k
  {
    if k == 0 {
      EmptySlices(s, Sanitize(s));
    } else {
      NoMatchStartsBeforeShrinks(s, k);
      SanitizeCopiesPrefix(s, k - 1);
      SanitizeCopiesNext(s, k);
    }
  }

  /** Dropping the last position of a match-free prefix leaves one, and that
      position starts no match. */
  lemma NoMatchStartsBeforeShrinks(s: string, k: nat)
    requires 0 < k <= |s|
    requires NoMatchStartsBefore(s, k)
    ensures NoMatchStartsBefore(s, k - 1)
    ensures MatchAt(s[k - 1..]).None?
  {
  }

  /** One step of `SanitizeCopiesPrefix`: the prefix grows by a character
      that starts no match. */
  lemma SanitizeCopiesNext(s: string, k: nat)
    requires 0 < k <= |s|
    requires Sanitize(s) == s[..k - 1] + Sanitize(s[k - 1..])
    requires MatchAt(s[k - 1..]).None?
    ensures Sanitize(s) == s[..k] + Sanitize(s[k..])
  {
    SanitizeCopiesOne(s[k - 1..]);
    DropDrop(s, k);
    ConcatStep(s[..k - 1], s[k - 1], Sanitize(s), Sanitize(s[k - 1..]), Sanitize(s[k..]));
  }

  /** Where no match starts, the first character is copied through. */
  lemma SanitizeCopiesOne(s: string)
    requires |s| > 0 && MatchAt(s).None?
    ensures Sanitize(s) == [s[0]] + Sanitize(s[1..])
  {
  }

  /** Text before the first match is copied through unchanged. */
  lemma SanitizeCopiesUntilMatch(p: string, w: string)
    requires NoMatchStartsBefore(p + w, |p|)
    ensures Sanitize(p + w) == p + Sanitize(w)
  {
    SanitizeCopiesPrefix(p + w, |p|);
    assert (p + w)[..|p|] == p && (p + w)[|p|..] == w;
  }

  /** Text holding no match is returned unchanged. */
  lemma SanitizeWithoutMatch(s: string)
    requires !ContainsMatch(s)
    ensures Sanitize(s) == s
  {
    assert s + "" == s;
    SanitizeCopiesUntilMatch(s, "");
  }

  /** Replacement of the leftmost match: with `u` the text before it and `m`
      the match, the output is `u`, the placeholder, then the rest sanitised. */
  lemma SanitizeLeftmostMatch(u: string, m: string, v: string)
    requires IsOwnerMatch(m)
    requires NoMatchStartsBefore(u + m + v, |u|)
    ensures Sanitize(u + m + v) == u + Placeholder + Sanitize(v)
  {
    assert u + m + v == u + (m + v);
    SanitizeCopiesUntilMatch(u, m + v);
    var w := m + v;
    assert w[..|m|] == m;
    MatchAtSound(w);
    match MatchAt(w)
    case Some(n) =>
      MatchEndUnique(w, n, |m|);
      assert w[|m|..] == v;
    case None =>
      assert false;
  }

  /** Every match opens with a quote and an `o`, and its value does not start with a quote. */
  lemma MatchShape(x: string)
    ensures MatchAt(x).Some? ==> x[0] == '"' && x[1] == 'o' && x[|OwnerKey|] != '"'
  {
    if MatchAt(x).Some? {
      var m := x[..MatchAt(x).value];
      MatchAtSound(x);
      assert m[..|OwnerKey|][1] == 'o';
      assert m[0] == x[0] && m[1] == x[1] && m[|OwnerKey|] == x[|OwnerKey|];
    }
  }

  /** Every match begins with a quote, so text that does not keeps its
      first character in front. */
  lemma SanitizeKeepsLeadingNonQuote(s: string)
    requires |s| > 0 && s[0] != '"'
    ensures |Sanitize(s)| > 0 && Sanitize(s)[0] == s[0]
  {
    MatchShape(s);
    SanitizeCopiesOne(s);
  }

  /** An empty owner value `"owner":""` is not a match: the key and the empty
      value are copied through and the scan resumes at the second quote. */
  lemma SanitizeKeepsEmptyOwner(v: string)
    ensures Sanitize(OwnerKey + "\"" + v) == OwnerKey + Sanitize("\"" + v)
  {
    var s := OwnerKey + "\"" + v;
    assert s == OwnerKey + ("\"" + v);
    assert s[..|OwnerKey| + 1] == "\"owner\":\"\"";
    forall i | 0 <= i < |OwnerKey|
      ensures MatchAt(s[i..]).None?
    {
      MatchShape(s[i..]);
      if |s[i..]| > |OwnerKey| {
        assert s[i..][0] == s[i] && s[i..][1] == s[i + 1] && s[i..][|OwnerKey|] == s[i + |OwnerKey|];
      }
    }
    SanitizeCopiesUntilMatch(OwnerKey, "\"" + v);
  }
}
