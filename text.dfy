/**
 * The .NET string operations the handlers rely on, over strings as
 * sequences of characters: string.IsNullOrEmpty, ordinal Contains,
 * OrdinalIgnoreCase equality and EndsWith, and Trim('"').
 */
module Text {
  import opened Utilities

  /** string.IsNullOrEmpty, with None standing for null. */
  predicate IsNullOrEmpty(s: Option<string>) {
    s.None? || s.value == ""
  }

  /** t occurs in s starting at index i. */
  ghost predicate OccursAt(s: string, t: string, i: int) {
    0 <= i && i + |t| <= |s| && s[i..i + |t|] == t
  }

  /** Ordinal (case-sensitive) string.Contains. */
  function Contains(s: string, t: string): (b: bool)
    ensures b <==> exists i :: OccursAt(s, t, i)
    decreases |s|
  {
    if |t| > |s| then
      assert forall i :: !OccursAt(s, t, i);
      false
    else if s[..|t|] == t then
      assert OccursAt(s, t, 0);
      true
    else
      var b := Contains(s[1..], t);
      ContainsShift(s, t);
      b
  }

  /** An occurrence in s is either at index 0 or an occurrence in s[1..], one further on. */
  lemma ContainsShift(s: string, t: string)
    requires |t| <= |s| && s[..|t|] != t
    ensures (exists i :: OccursAt(s, t, i)) <==> (exists i :: OccursAt(s[1..], t, i))
  {
    if i :| OccursAt(s, t, i) {
      assert i != 0;
      assert s[1..][i - 1..i - 1 + |t|] == s[i..i + |t|];
      assert OccursAt(s[1..], t, i - 1);
    }
    if i :| OccursAt(s[1..], t, i) {
      assert s[i + 1..i + 1 + |t|] == s[1..][i..i + |t|];
      assert OccursAt(s, t, i + 1);
    }
  }

  /** The upper-case mapping OrdinalIgnoreCase applies, restricted to ASCII letters. */
  function ToUpperAscii(c: char): (u: char)
    ensures 'a' <= c <= 'z' ==> 'A' <= u <= 'Z' && u as int == c as int - 32
    ensures !('a' <= c <= 'z') ==> u == c
  {
    if 'a' <= c <= 'z' then (c as int - 32) as char else c
  }

  /** string.Equals(a, b, StringComparison.OrdinalIgnoreCase). */
  predicate EqualsIgnoreCase(a: string, b: string) {
    |a| == |b| && forall i :: 0 <= i < |a| ==> ToUpperAscii(a[i]) == ToUpperAscii(b[i])
  }

  /** string.EndsWith(suffix, StringComparison.OrdinalIgnoreCase). */
  predicate EndsWithIgnoreCase(s: string, suffix: string) {
    |suffix| <= |s| && EqualsIgnoreCase(s[|s| - |suffix|..], suffix)
  }

  /** The suffix test looks only at the last |suffix| characters. */
  lemma EndsWithIgnoreCaseAppend(stem: string, tail: string, suffix: string)
    requires EqualsIgnoreCase(tail, suffix)
    ensures EndsWithIgnoreCase(stem + tail, suffix)
  {
    assert (stem + tail)[|stem + tail| - |suffix|..] == tail;
  }

  /** The characters s[lo..hi] are all double quotes. */
  ghost predicate AllQuotes(s: string, lo: int, hi: int)
    requires 0 <= lo <= hi <= |s|
  {
    forall k :: lo <= k < hi ==> s[k] == '"'
  }

  /** Removes the leading double quotes. */
  function TrimStartQuotes(s: string): (r: string)
    ensures |r| <= |s| && r == s[|s| - |r|..]
    ensures AllQuotes(s, 0, |s| - |r|)
    ensures r == [] || r[0] != '"'
  {
    if |s| > 0 && s[0] == '"' then TrimStartQuotes(s[1..]) else s
  }

  /** Removes the trailing double quotes. */
  function TrimEndQuotes(s: string): (r: string)
    ensures |r| <= |s| && r == s[..|r|]
    ensures AllQuotes(s, |r|, |s|)
    ensures r == [] || r[|r| - 1] != '"'
  {
    if |s| > 0 && s[|s| - 1] == '"' then TrimEndQuotes(s[..|s| - 1]) else s
  }

  /** s[i..j] is what remains of s once leading and trailing quotes are cut off. */
  ghost predicate QuoteTrimmed(s: string, r: string) {
    && (exists i, j :: 0 <= i <= j <= |s| && r == s[i..j] && AllQuotes(s, 0, i) && AllQuotes(s, j, |s|))
    && (r == [] || (r[0] != '"' && r[|r| - 1] != '"'))
  }

  /** string.Trim('"'): every leading and every trailing double quote is removed. */
  function TrimQuotes(s: string): (r: string)
    ensures QuoteTrimmed(s, r)
  {
    TrimQuotesTrimmed(s);
    TrimEndQuotes(TrimStartQuotes(s))
  }

  /** Trimming the start and then the end leaves the middle of s, with quotes only outside it. */
  lemma TrimQuotesTrimmed(s: string)
    ensures QuoteTrimmed(s, TrimEndQuotes(TrimStartQuotes(s)))
  {
    var t := TrimStartQuotes(s);
    var r := TrimEndQuotes(t);
    var i := |s| - |t|;
    var j := i + |r|;
    assert r == s[i..j];
    assert AllQuotes(s, j, |s|) by {
      forall k | j <= k < |s| ensures s[k] == '"' {
        assert s[k] == t[k - i];
      }
    }
    assert r == [] || r[0] != '"' by {
      if r != [] { assert r[0] == t[0]; }
    }
    assert 0 <= i <= j <= |s| && AllQuotes(s, 0, i);
  }

  /** A non-quote character of s lies at or after the leading quotes. */
  lemma QuotesBefore(s: string, i: int, k: int)
    requires 0 <= i <= |s| && AllQuotes(s, 0, i)
    requires 0 <= k < |s| && s[k] != '"'
    ensures i <= k
  {
  }

  /** A non-quote character of s lies before the trailing quotes. */
  lemma QuotesAfter(s: string, j: int, k: int)
    requires 0 <= j <= |s| && AllQuotes(s, j, |s|)
    requires 0 <= k < |s| && s[k] != '"'
    ensures k < j
  {
  }

  /** A non-empty trimmed result starts and ends at non-quote characters of s. */
  lemma TrimmedEnds(s: string, r: string, i: int, j: int)
    requires 0 <= i <= j <= |s| && r == s[i..j]
    requires r != [] && r[0] != '"' && r[|r| - 1] != '"'
    ensures i < j && s[i] != '"' && s[j - 1] != '"'
  {
    assert s[i] == r[0] && s[j - 1] == r[|r| - 1];
  }

  /**
   * Two ways of cutting quotes off both ends of s that leave non-quote ends
   * (or nothing) cut at the same places, or both leave nothing.
   */
  lemma SameCut(s: string, i1: int, j1: int, i2: int, j2: int)
    requires 0 <= i1 <= j1 <= |s| && AllQuotes(s, 0, i1) && AllQuotes(s, j1, |s|)
    requires 0 <= i2 <= j2 <= |s| && AllQuotes(s, 0, i2) && AllQuotes(s, j2, |s|)
    requires i1 == j1 || (s[i1] != '"' && s[j1 - 1] != '"')
    requires i2 == j2 || (s[i2] != '"' && s[j2 - 1] != '"')
    ensures (i1 == j1 && i2 == j2) || (i1 == i2 && j1 == j2)
  {
    if i1 < j1 {
      QuotesBefore(s, i2, i1);
      QuotesAfter(s, j2, j1 - 1);
    }
    if i2 < j2 {
      QuotesBefore(s, i1, i2);
      QuotesAfter(s, j1, j2 - 1);
    }
  }

  /** Trimming is determined: only one string satisfies QuoteTrimmed for a given input. */
  lemma {:induction false} QuoteTrimmedUnique(s: string, r1: string, r2: string)
    requires QuoteTrimmed(s, r1) && QuoteTrimmed(s, r2)
    ensures r1 == r2
  {
    var i1, j1 :| 0 <= i1 <= j1 <= |s| && r1 == s[i1..j1] && AllQuotes(s, 0, i1) && AllQuotes(s, j1, |s|);
    var i2, j2 :| 0 <= i2 <= j2 <= |s| && r2 == s[i2..j2] && AllQuotes(s, 0, i2) && AllQuotes(s, j2, |s|);
    if r1 != [] { TrimmedEnds(s, r1, i1, j1); }
    if r2 != [] { TrimmedEnds(s, r2, i2, j2); }
    SameCut(s, i1, j1, i2, j2);
  }

  /** Trimming twice is trimming once. */
  lemma TrimQuotesIdempotent(s: string)
    ensures TrimQuotes(TrimQuotes(s)) == TrimQuotes(s)
  {
    var r := TrimQuotes(s);
    assert QuoteTrimmed(r, r) by {
      assert r == r[0..|r|];
    }
    QuoteTrimmedUnique(r, r, TrimQuotes(r));
  }
}
