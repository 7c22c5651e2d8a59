/**
 The batch-match results view: which rows each result sub-tab shows, the counts
 in the sub-tab labels, which sub-tabs are enabled, and the sub-tab that is
 selected when new results arrive. Sub-tab 0 is "Matched", anything else shows
 the unmatched rows (the filter tests `tab == 0` only), and the tab strip has
 the two indices 0 and 1.
 */
module Results {
  import opened Types

  const MatchedTab := 0
  const UnmatchedTab := 1

  /** The results whose `matched` flag is `keep`, in their original order
      (`matches.filter(m => m.matched)` for `keep`, `m => !m.matched` otherwise):
      no longer than the input, only results with the wanted flag, and nothing
      the input does not hold (that nothing is dropped is SubTabsPartition). */
  function Filter(ms: seq<MatchResult>, keep: bool): (r: seq<MatchResult>)
    ensures |r| <= |ms|
    ensures forall k :: 0 <= k < |r| ==> r[k].matched == keep
    ensures multiset(r) <= multiset(ms)
  {
    if ms == [] then []
    else
      var rest := Filter(ms[1..], keep);
      assert ms == [ms[0]] + ms[1..];
      if ms[0].matched == keep then [ms[0]] + rest else rest
  }

  /** The rows listed under sub-tab `tab`. */
  function RowsFor(ms: seq<MatchResult>, tab: int): seq<MatchResult> {
    Filter(ms, tab == MatchedTab)
  }

  /** The count in the "Matched (n)" label. */
  function MatchedCount(ms: seq<MatchResult>): nat {
    |Filter(ms, true)|
  }

  /** The count in the "Unmatched (n)" label. */
  function UnmatchedCount(ms: seq<MatchResult>): nat {
    |Filter(ms, false)|
  }

  /** `matches.some(m => m.matched == want)`. */
  predicate AnyWith(ms: seq<MatchResult>, want: bool) {
    exists i :: 0 <= i < |ms| && ms[i].matched == want
  }

  /** The Matched sub-tab is enabled when some result is matched, the Unmatched
      one when some result is not; no other index names a sub-tab. */
  predicate SubTabEnabled(ms: seq<MatchResult>, tab: int) {
    if tab == MatchedTab then AnyWith(ms, true)
    else if tab == UnmatchedTab then AnyWith(ms, false)
    else false
  }

  /** The sub-tab chosen when new results arrive. */
  function DefaultSubTab(ms: seq<MatchResult>): int {
    if AnyWith(ms, true) then MatchedTab else UnmatchedTab
  }

  /** `s` occurs in `t` in the same order, possibly with elements of `t` left out. */
  ghost predicate Subsequence(s: seq<MatchResult>, t: seq<MatchResult>)
    decreases |t|
  {
    if s == [] then true
    else if t == [] then false
    else if s[0] == t[0] then Subsequence(s[1..], t[1..])
    else Subsequence(s, t[1..])
  }

  /** The two sub-tabs partition the results: every result is listed exactly
      as often as it occurs, under one sub-tab or the other, and the counts in
      the two labels add up to the number of results. */
  lemma {:induction false} SubTabsPartition(ms: seq<MatchResult>)
    ensures multiset(RowsFor(ms, MatchedTab)) + multiset(RowsFor(ms, UnmatchedTab)) == multiset(ms)
    ensures MatchedCount(ms) + UnmatchedCount(ms) == |ms|
  {
    if ms != [] {
      SubTabsPartition(ms[1..]);
      assert ms == [ms[0]] + ms[1..];
    }
  }

  /** No result is listed under both sub-tabs (a result is in one list exactly
      when its flag says so). */
  lemma SubTabsDisjoint(ms: seq<MatchResult>, m: MatchResult)
    ensures m in RowsFor(ms, MatchedTab) <==> m in ms && m.matched
    ensures m in RowsFor(ms, UnmatchedTab) <==> m in ms && !m.matched
  {
    var a, b := RowsFor(ms, MatchedTab), RowsFor(ms, UnmatchedTab);
    SubTabsPartition(ms);
    if m in ms { assert multiset(ms)[m] > 0; }
    if m in a { assert multiset(a)[m] > 0; }
    if m in b { assert multiset(b)[m] > 0; }
  }

  /** Each sub-tab keeps the rows in the order the backend sent them. */
  lemma {:induction false} RowsKeepOrder(ms: seq<MatchResult>, tab: int)
    ensures Subsequence(RowsFor(ms, tab), ms)
  {
    FilterIsSubsequence(ms, tab == MatchedTab);
  }

  lemma {:induction false} FilterIsSubsequence(ms: seq<MatchResult>, keep: bool)
    ensures Subsequence(Filter(ms, keep), ms)
    decreases |ms|
  {
    if ms != [] {
      FilterIsSubsequence(ms[1..], keep);
      var rest := Filter(ms[1..], keep);
      if ms[0].matched != keep {
        SubsequenceDropHead(rest, ms);
      }
    }
  }

  /** Skipping the first element of `t` keeps a subsequence of `t[1..]` one of `t`. */
  lemma {:induction false} SubsequenceDropHead(s: seq<MatchResult>, t: seq<MatchResult>)
    requires t != [] && Subsequence(s, t[1..])
    ensures Subsequence(s, t)
    decreases |t|, 1
  {
    if s != [] && s[0] == t[0] {
      // s[1..] is a subsequence of t[1..] because s is one of t[1..]
      SubsequenceTail(s, t[1..]);
    }
  }

  lemma {:induction false} SubsequenceTail(s: seq<MatchResult>, t: seq<MatchResult>)
    requires s != [] && Subsequence(s, t)
    ensures Subsequence(s[1..], t)
    decreases |t|, 2
  {
    if s[0] == t[0] {
      if s[1..] != [] {
        SubsequenceDropHead(s[1..], t);
      }
    } else {
      SubsequenceTail(s, t[1..]);
      SubsequenceDropHead(s[1..], t);
    }
  }

  /** A sub-tab is enabled exactly when its label's count is not zero. */
  lemma {:induction false} EnabledIffCountPositive(ms: seq<MatchResult>)
    ensures SubTabEnabled(ms, MatchedTab) <==> MatchedCount(ms) > 0
    ensures SubTabEnabled(ms, UnmatchedTab) <==> UnmatchedCount(ms) > 0
  {
    forall keep: bool ensures AnyWith(ms, keep) <==> |Filter(ms, keep)| > 0 {
      var r := Filter(ms, keep);
      if r != [] {
        assert r[0] in multiset(ms);
      }
      if AnyWith(ms, keep) {
        var i :| 0 <= i < |ms| && ms[i].matched == keep;
        SubTabsDisjoint(ms, ms[i]);
        assert r == RowsFor(ms, if keep then MatchedTab else UnmatchedTab);
        assert ms[i] in r;
      }
    }
  }

  /** The sub-tab chosen for new results is Matched when some result is
      matched and Unmatched otherwise, and it is never a disabled sub-tab
      when there is at least one result. With no results no sub-tab is
      enabled at all. */
  lemma DefaultSubTabIsEnabled(ms: seq<MatchResult>)
    ensures DefaultSubTab(ms) == MatchedTab <==> AnyWith(ms, true)
    ensures DefaultSubTab(ms) == UnmatchedTab <==> !AnyWith(ms, true)
    ensures ms != [] ==> SubTabEnabled(ms, DefaultSubTab(ms))
    ensures ms == [] ==> forall tab :: !SubTabEnabled(ms, tab)
  {
    if ms != [] && !AnyWith(ms, true) {
      assert !ms[0].matched;
    }
  }
}
