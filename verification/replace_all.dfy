/** The find-and-replace-all loop of `demonstrateStringAlgorithms` in
    `examples/strings/strings_demo.cpp`: every "the" becomes "THE", scanning on from
    just past each replacement. */
module ReplaceAll {
  import opened Wrappers

  const Pattern: string := "the"
  const Replacement: string := "THE"

  predicate MatchesAt(s: string, pat: string, q: int)
  {
    0 <= q && q + |pat| <= |s| && s[q..q + |pat|] == pat
  }

  /** `std::string::find(pat, from)`: the first match at or after `from`, or nothing
      (`npos`). */
  function Find(s: string, pat: string, from: nat): (r: Option<nat>)
    ensures r.Some? ==> from <= r.value && MatchesAt(s, pat, r.value)
                        && forall q :: from <= q < r.value ==> !MatchesAt(s, pat, q)
    ensures r.None? ==> forall q :: from <= q ==> !MatchesAt(s, pat, q)
    decreases |s| - from
  {
    if from + |pat| > |s| then None
    else if s[from..from + |pat|] == pat then Some(from)
    else Find(s, pat, from + 1)
  }

  /** Reference definition: scanning left to right, a "the" is replaced and skipped,
      any other character is kept. */
  function Replaced(s: string): (r: string)
    ensures |r| == |s|
  {
    if |s| < 3 then s
    else if s[..3] == Pattern then Replacement + Replaced(s[3..])
    else [s[0]] + Replaced(s[1..])
  }

  /** No match starts before `pos`. */
  predicate NoMatchBefore(s: string, pos: int)
  {
    forall q :: 0 <= q < pos ==> !MatchesAt(s, Pattern, q)
  }

  /** The loop: find from `pos`, replace the three characters, resume after them. */
  method ReplaceAllThe(text: string) returns (r: string)
    ensures r == Replaced(text)
    ensures |r| == |text|
    ensures forall q :: !MatchesAt(r, Pattern, q)
  {
    r := text;
    var pos := 0;
    while true
      invariant pos <= |r| == |text|
      invariant r[..pos] + Replaced(r[pos..]) == Replaced(text)
      invariant NoMatchBefore(r, pos)
      decreases |r| - pos
    {
      var found := Find(r, Pattern, pos);
      if found.None? {
        ReplaceDone(r, pos);
        return;
      }
      var p := found.value;
      var r' := r[..p] + Replacement + r[p + 3..];
      ReplaceStep(r, pos, p, r');
      r := r';
      pos := p + 3;
    }
  }

  /** With no match from `pos` on, the rest is left as it is. */
  lemma {:induction false} ReplacedWithoutMatch(t: string, r: string, pos: nat)
    requires pos <= |r| && t == r[pos..]
    requires forall q :: pos <= q ==> !MatchesAt(r, Pattern, q)
    ensures Replaced(t) == t
    decreases |t|
  {
    if |t| >= 3 {
      assert !MatchesAt(r, Pattern, pos);
      assert t[..3] == r[pos..pos + 3];
      assert t[1..] == r[pos + 1..];
      ReplacedWithoutMatch(t[1..], r, pos + 1);
    }
  }

  /** The loop's exit: nothing left to replace. */
  lemma ReplaceDone(r: string, pos: nat)
    requires pos <= |r|
    requires NoMatchBefore(r, pos)
    requires forall q :: pos <= q ==> !MatchesAt(r, Pattern, q)
    ensures r[..pos] + Replaced(r[pos..]) == r
    ensures forall q :: !MatchesAt(r, Pattern, q)
  {
    ReplacedWithoutMatch(r[pos..], r, pos);
    assert r[..pos] + r[pos..] == r;
  }

  /** Up to the next match at `p`, the characters are kept and the match is replaced. */
  lemma {:induction false} ReplacedSkipsTo(r: string, pos: nat, p: nat)
    requires pos <= p && MatchesAt(r, Pattern, p)
    requires forall q :: pos <= q < p ==> !MatchesAt(r, Pattern, q)
    ensures Replaced(r[pos..]) == r[pos..p] + Replacement + Replaced(r[p + 3..])
    decreases p - pos
  {
    var t := r[pos..];
    if pos == p {
      assert t[..3] == r[p..p + 3];
      assert t[3..] == r[p + 3..];
    } else {
      assert !MatchesAt(r, Pattern, pos);
      assert t[..3] == r[pos..pos + 3];
      assert Replaced(t) == [r[pos]] + Replaced(t[1..]);
      ReplacedSkipsTo(r, pos + 1, p);
      assert t[1..] == r[pos + 1..];
      assert r[pos..p] == [r[pos]] + r[pos + 1..p];
    }
  }

  /** One replacement keeps the loop invariant. */
  lemma ReplaceStep(r: string, pos: nat, p: nat, r': string)
    requires pos <= p && MatchesAt(r, Pattern, p)
    requires forall q :: pos <= q < p ==> !MatchesAt(r, Pattern, q)
    requires r' == r[..p] + Replacement + r[p + 3..]
    requires NoMatchBefore(r, pos)
    ensures |r'| == |r|
    ensures r'[..p + 3] + Replaced(r'[p + 3..]) == r[..pos] + Replaced(r[pos..])
    ensures NoMatchBefore(r', p + 3)
  {
    ReplacedSkipsTo(r, pos, p);
    ReplaceLeavesNoMatch(r, pos, p, r');
    ReplaceSlices(r, pos, p, r');
    var a, b, c := r[..pos], r[pos..p], Replaced(r[p + 3..]);
    assert a + b + Replacement + c == a + (b + Replacement + c);
  }

  /** The replaced text cut at the resumed scan position. */
  lemma ReplaceSlices(r: string, pos: nat, p: nat, r': string)
    requires pos <= p && p + 3 <= |r|
    requires r' == r[..p] + Replacement + r[p + 3..]
    ensures |r'| == |r|
    ensures r'[..p + 3] == r[..pos] + r[pos..p] + Replacement
    ensures r'[p + 3..] == r[p + 3..]
  {
    assert r[..p] == r[..pos] + r[pos..p];
  }

  /** After a replacement at `p`, no match starts before the resumed scan. */
  lemma ReplaceLeavesNoMatch(r: string, pos: nat, p: nat, r': string)
    requires pos <= p && p + 3 <= |r|
    requires forall q :: pos <= q < p ==> !MatchesAt(r, Pattern, q)
    requires r' == r[..p] + Replacement + r[p + 3..]
    requires NoMatchBefore(r, pos)
    ensures NoMatchBefore(r', p + 3)
  {
    assert r'[p] == 'T' && r'[p + 1] == 'H' && r'[p + 2] == 'E';
    forall q | 0 <= q < p + 3
      ensures !MatchesAt(r', Pattern, q)
    {
      if q + 3 <= p {
        assert !MatchesAt(r, Pattern, q);
        assert r[q..q + 3] == r'[q..q + 3];
      }
    }
  }

  /** Only the letters of each replaced "the" change, each to its capital. */
  lemma {:induction false} ReplacedChangesOnlyThe(s: string)
    ensures forall i :: 0 <= i < |s| ==>
              Replaced(s)[i] == s[i] || (s[i], Replaced(s)[i]) in {('t', 'T'), ('h', 'H'), ('e', 'E')}
    decreases |s|
  {
    if |s| >= 3 {
      if s[..3] == Pattern {
        ReplacedChangesOnlyThe(s[3..]);
        forall i | 0 <= i < 3
          ensures s[i] == Pattern[i]
        {
          assert s[..3][i] == s[i];
        }
      } else {
        ReplacedChangesOnlyThe(s[1..]);
      }
    }
  }

  /** The search is case-sensitive: a leading capitalised "The" is kept. */
  lemma CapitalisedTheKept(rest: string)
    ensures Replaced("The" + rest) == ['T'] + Replaced("he" + rest)
  {
    var s := "The" + rest;
    assert s[..3] != Pattern by {
      assert s[0] == 'T';
    }
    assert s[1..] == "he" + rest;
  }
}
