/** The suggestion filter of the autocomplete widget (handleSuggestions):
    a case-insensitive substring filter over the candidate list that keeps
    candidate order and falls back to the whole list when nothing matches. */
module AutocompleteFilter {

  /** Lower-casing of one character, restricted to ASCII ('A'..'Z' become 'a'..'z'). */
  function LowerChar(c: char): char {
    if 'A' <= c <= 'Z' then (c as int + 32) as char else c
  }

  /** toLowerCase on a whole string, character by character: the result has
      the same length, no upper-case ASCII letter, and every other character
      where it was. */
  function Lower(s: string): (r: string)
    ensures |r| == |s|
    ensures forall i :: 0 <= i < |r| ==> !('A' <= r[i] <= 'Z')
    ensures forall i :: 0 <= i < |s| && !('A' <= s[i] <= 'Z') ==> r[i] == s[i]
  {
    seq(|s|, i requires 0 <= i < |s| => LowerChar(s[i]))
  }

  /** Lower-casing twice is lower-casing once. */
  lemma LowerIdempotent(s: string)
    ensures Lower(Lower(s)) == Lower(s)
  {
    assert forall i :: 0 <= i < |s| ==> LowerChar(LowerChar(s[i])) == LowerChar(s[i]);
  }

  /** t occurs in s starting at position i. */
  predicate OccursAt(s: string, t: string, i: int) {
    0 <= i && i + |t| <= |s| && s[i..i + |t|] == t
  }

  /** s.includes(t), computed by trying every start position from the left.
      A string longer than s is never included; a prefix or a suffix of s
      always is (IncludesIffOccurs gives the full characterization). */
  function Includes(s: string, t: string): (b: bool)
    ensures |t| > |s| ==> !b
    ensures |t| <= |s| && (s[..|t|] == t || s[|s| - |t|..] == t) ==> b
    decreases |s|
  {
    if |t| > |s| then false
    else if s[..|t|] == t then true
    else Includes(s[1..], t)
  }

  /** Includes is exactly "t occurs somewhere in s"; in particular the empty
      string is included in every string. */
  lemma {:induction false} IncludesIffOccurs(s: string, t: string)
    ensures Includes(s, t) <==> exists i :: OccursAt(s, t, i)
    decreases |s|
  {
    if |t| > |s| {
    } else if s[..|t|] == t {
      assert OccursAt(s, t, 0);
    } else {
      IncludesIffOccurs(s[1..], t);
      forall i | OccursAt(s, t, i)
        ensures OccursAt(s[1..], t, i - 1)
      {
        assert i != 0;
        assert s[1..][i - 1..i - 1 + |t|] == s[i..i + |t|];
      }
      forall j | OccursAt(s[1..], t, j)
        ensures OccursAt(s, t, j + 1)
      {
        assert s[1..][j..j + |t|] == s[j + 1..j + 1 + |t|];
      }
    }
  }

  /** The filter predicate of lines 51-53: item.toLowerCase().includes(query.toLowerCase()).
      A query longer than the candidate never matches; a query equal to the
      candidate up to case always does. */
  predicate Matches(item: string, query: string)
    ensures |query| > |item| ==> !Matches(item, query)
    ensures Lower(query) == Lower(item) ==> Matches(item, query)
  {
    Includes(Lower(item), Lower(query))
  }

  /** Matching does not depend on the case of either the candidate or the query. */
  lemma MatchIgnoresCase(item: string, query: string)
    ensures Matches(Lower(item), query) == Matches(item, query)
    ensures Matches(item, Lower(query)) == Matches(item, query)
  {
    LowerIdempotent(item);
    LowerIdempotent(query);
  }

  /** The empty query matches every candidate. */
  lemma EmptyQueryMatches(item: string)
    ensures Matches(item, "")
  {
    assert Lower("") == "";
    IncludesIffOccurs(Lower(item), "");
    assert OccursAt(Lower(item), "", 0);
  }

  /** data.filter(item => Matches(item, query)), lines 51-53. */
  function Filter(data: seq<string>, query: string): (r: seq<string>)
    ensures |r| <= |data|
    ensures forall k :: 0 <= k < |r| ==> r[k] in data
  {
    if data == [] then []
    else if Matches(data[0], query) then [data[0]] + Filter(data[1..], query)
    else Filter(data[1..], query)
  }

  /** Every index shifted up by one. */
  function Shift(s: seq<int>): seq<int> {
    seq(|s|, k requires 0 <= k < |s| => s[k] + 1)
  }

  /** The positions in data of the candidates that match query, in increasing order. */
  function MatchIndices(data: seq<string>, query: string): seq<int> {
    if data == [] then []
    else (if Matches(data[0], query) then [0] else []) + Shift(MatchIndices(data[1..], query))
  }

  predicate StrictlyIncreasing(s: seq<int>) {
    forall a, b :: 0 <= a < b < |s| ==> s[a] < s[b]
  }

  /** Membership in a shifted index list. */
  lemma ShiftMembership(s: seq<int>, j: int)
    ensures j in Shift(s) <==> j - 1 in s
  {
    if j - 1 in s {
      var k :| 0 <= k < |s| && s[k] == j - 1;
      assert Shift(s)[k] == j;
    }
  }

  /** r is data read at the positions idx, rank by rank. */
  predicate Picks(idx: seq<int>, r: seq<string>, data: seq<string>) {
    |idx| == |r| && forall k :: 0 <= k < |idx| ==> 0 <= idx[k] < |data| && r[k] == data[idx[k]]
  }

  /** Picking from the tail of data with shifted positions is picking from data. */
  lemma PicksShift(idx: seq<int>, r: seq<string>, data: seq<string>)
    requires data != [] && Picks(idx, r, data[1..])
    ensures Picks(Shift(idx), r, data)
    ensures Picks([0] + Shift(idx), [data[0]] + r, data)
  {
    var idx1, r1 := [0] + Shift(idx), [data[0]] + r;
    forall k | 1 <= k < |idx1|
      ensures 0 <= idx1[k] < |data| && r1[k] == data[idx1[k]]
    {
      assert idx1[k] == idx[k - 1] + 1 && r1[k] == r[k - 1];
    }
  }

  /** Each match position lies in data and picks the candidate at the same
      rank of the filter result. */
  lemma {:induction false} MatchIndicesPick(data: seq<string>, query: string)
    ensures Picks(MatchIndices(data, query), Filter(data, query), data)
  {
    if data != [] {
      MatchIndicesPick(data[1..], query);
      PicksShift(MatchIndices(data[1..], query), Filter(data[1..], query), data);
    }
  }

  /** Match positions come in strictly increasing order. */
  lemma {:induction false} MatchIndicesIncreasing(data: seq<string>, query: string)
    ensures StrictlyIncreasing(MatchIndices(data, query))
    ensures forall k :: 0 <= k < |MatchIndices(data, query)| ==> MatchIndices(data, query)[k] >= 0
  {
    if data != [] {
      var rest := data[1..];
      MatchIndicesIncreasing(rest, query);
      var idx' := MatchIndices(rest, query);
      var h := if Matches(data[0], query) then 1 else 0;
      var idx := MatchIndices(data, query);
      forall k | h <= k < |idx|
        ensures idx[k] == idx'[k - h] + 1
      {
      }
    }
  }

  /** A position is a match position exactly when the candidate there matches. */
  lemma {:induction false} MatchIndicesComplete(data: seq<string>, query: string)
    ensures forall j :: 0 <= j < |data| ==> (Matches(data[j], query) <==> j in MatchIndices(data, query))
  {
    if data != [] {
      var rest := data[1..];
      MatchIndicesComplete(rest, query);
      MatchIndicesIncreasing(rest, query);
      var idx' := MatchIndices(rest, query);
      var head: seq<int> := if Matches(data[0], query) then [0] else [];
      assert MatchIndices(data, query) == head + Shift(idx');
      forall j | 0 <= j < |data|
        ensures Matches(data[j], query) <==> j in MatchIndices(data, query)
      {
        ShiftMembership(idx', j);
        if j > 0 {
          assert data[j] == rest[j - 1];
        }
      }
    }
  }

  /** The filter result is exactly the sub-sequence of data made of the
      matching candidates, in their original order: it picks data at a
      strictly increasing sequence of positions, and a position is picked
      if and only if the candidate there matches. */
  lemma FilterSelectsMatches(data: seq<string>, query: string)
    ensures var idx := MatchIndices(data, query);
      && StrictlyIncreasing(idx)
      && Picks(idx, Filter(data, query), data)
      && (forall j :: 0 <= j < |data| ==> (Matches(data[j], query) <==> j in idx))
  {
    MatchIndicesPick(data, query);
    MatchIndicesIncreasing(data, query);
    MatchIndicesComplete(data, query);
  }

  /** A candidate is in the filter result if and only if it is in data and matches. */
  lemma FilterMembership(data: seq<string>, query: string, x: string)
    ensures x in Filter(data, query) <==> x in data && Matches(x, query)
  {
    FilterSelectsMatches(data, query);
    if x in Filter(data, query) {
      var k :| 0 <= k < |Filter(data, query)| && Filter(data, query)[k] == x;
      assert MatchIndices(data, query)[k] in MatchIndices(data, query);
    }
    if x in data && Matches(x, query) {
      var j :| 0 <= j < |data| && data[j] == x;
      var k :| 0 <= k < |MatchIndices(data, query)| && MatchIndices(data, query)[k] == j;
      assert Filter(data, query)[k] == x;
    }
  }

  /** The filter keeps nothing if and only if no candidate matches. */
  lemma FilterEmptyIffNoMatch(data: seq<string>, query: string)
    ensures Filter(data, query) == [] <==> forall j :: 0 <= j < |data| ==> !Matches(data[j], query)
  {
    forall j | 0 <= j < |data| && Matches(data[j], query)
      ensures Filter(data, query) != []
    {
      FilterMembership(data, query, data[j]);
    }
  }

  /** With the empty query the filter keeps every candidate, so the initial
      suggestion list (all of data) is itself a filter result. */
  lemma {:induction false} FilterEmptyQuery(data: seq<string>)
    ensures Filter(data, "") == data
  {
    if data != [] {
      EmptyQueryMatches(data[0]);
      FilterEmptyQuery(data[1..]);
      assert data == [data[0]] + data[1..];
    }
  }

  /** handleSuggestions, lines 50-59: the filter result, or all of data when
      it is empty. The result is always drawn from data, and it is never
      empty unless data is. */
  function Suggest(data: seq<string>, query: string): (r: seq<string>)
    ensures |r| <= |data|
    ensures forall k :: 0 <= k < |r| ==> r[k] in data
    ensures |data| > 0 ==> |r| > 0
  {
    var matched := Filter(data, query);
    if |matched| == 0 then data else matched
  }

  /** The fallback rule: when no candidate matches, the suggestions are all of
      data; when some candidate matches, they are exactly the filter result. */
  lemma SuggestFallback(data: seq<string>, query: string)
    ensures (forall j :: 0 <= j < |data| ==> !Matches(data[j], query)) ==> Suggest(data, query) == data
    ensures (exists j :: 0 <= j < |data| && Matches(data[j], query)) ==> Suggest(data, query) == Filter(data, query)
  {
    FilterEmptyIffNoMatch(data, query);
  }

  /** When some candidate matches, a string is suggested exactly when it is a
      matching candidate. */
  lemma SuggestMembership(data: seq<string>, query: string, x: string)
    requires exists j :: 0 <= j < |data| && Matches(data[j], query)
    ensures x in Suggest(data, query) <==> x in data && Matches(x, query)
  {
    SuggestFallback(data, query);
    FilterMembership(data, query, x);
  }
}
