/**
 The few `std::string` operations the descriptor parser relies on, as
 functions over `seq<char>`. A search that finds nothing returns `None`,
 which stands for `std::string::npos`.
 */
module StdString {
  import opened Wrappers

  /** `s.find(c, from)`: the first position at or after `from` holding `c`. */
  function Find(s: string, c: char, from: nat): (r: Option<nat>)
    decreases |s| - from
    ensures r.Some? ==> from <= r.value < |s| && s[r.value] == c
    ensures r.Some? ==> forall i :: from <= i < r.value ==> s[i] != c
    ensures r.None? ==> forall i :: from <= i < |s| ==> s[i] != c
  {
    if from >= |s| then None
    else if s[from] == c then Some(from)
    else Find(s, c, from + 1)
  }

  /** `Find` stops at the first occurrence: a `c` at `p` with none between
      `from` and `p` is what it returns. */
  lemma {:induction false} FindReaches(s: string, c: char, from: nat, p: nat)
    requires from <= p < |s| && s[p] == c
    requires forall i :: from <= i < p ==> s[i] != c
    ensures Find(s, c, from) == Some(p)
    decreases p - from
  {
    if from < p {
      FindReaches(s, c, from + 1, p);
    }
  }

  /** `s.find_first_not_of(cs)`: the first position whose character is not in `cs`. */
  function FindFirstNotOf(s: string, cs: set<char>, from: nat): (r: Option<nat>)
    decreases |s| - from
    ensures r.Some? ==> from <= r.value < |s| && s[r.value] !in cs
    ensures r.Some? ==> forall i :: from <= i < r.value ==> s[i] in cs
    ensures r.None? ==> forall i :: from <= i < |s| ==> s[i] in cs
  {
    if from >= |s| then None
    else if s[from] !in cs then Some(from)
    else FindFirstNotOf(s, cs, from + 1)
  }

  /** `s.find_last_not_of(cs)` restricted to the first `n` characters. */
  function FindLastNotOf(s: string, cs: set<char>, n: nat): (r: Option<nat>)
    requires n <= |s|
    ensures r.Some? ==> r.value < n && s[r.value] !in cs
    ensures r.Some? ==> forall i :: r.value < i < n ==> s[i] in cs
    ensures r.None? ==> forall i :: 0 <= i < n ==> s[i] in cs
  {
    if n == 0 then None
    else if s[n - 1] !in cs then Some(n - 1)
    else FindLastNotOf(s, cs, n - 1)
  }

  /** `pat` occurs in `s` starting at position `i`. */
  predicate OccursAt(s: string, pat: string, i: nat)
  {
    i + |pat| <= |s| && s[i..i + |pat|] == pat
  }

  /** `s.find(pat) != npos`. */
  predicate Contains(s: string, pat: string)
  {
    exists i: nat :: i <= |s| && OccursAt(s, pat, i)
  }

  /** The positions of `c` in `s` at or after `from`, in increasing order. */
  function Positions(s: string, c: char, from: nat): (ps: seq<nat>)
    decreases |s| - from
  {
    if from >= |s| then []
    else if s[from] == c then [from] + Positions(s, c, from + 1)
    else Positions(s, c, from + 1)
  }

  /** `Find` returns the head of `Positions`, and the rest of `Positions`
      starts right after the position found. */
  lemma {:induction false} FindIsFirstPosition(s: string, c: char, from: nat)
    decreases |s| - from
    ensures Find(s, c, from).None? <==> Positions(s, c, from) == []
    ensures Find(s, c, from).Some? ==>
      Positions(s, c, from) == [Find(s, c, from).value] + Positions(s, c, Find(s, c, from).value + 1)
  {
    if from < |s| && s[from] != c {
      FindIsFirstPosition(s, c, from + 1);
    }
  }

  /** Every element of `Positions` holds `c` and lies at or after `from`. */
  lemma {:induction false} PositionsSound(s: string, c: char, from: nat)
    decreases |s| - from
    ensures forall j :: 0 <= j < |Positions(s, c, from)| ==>
      from <= Positions(s, c, from)[j] < |s| && s[Positions(s, c, from)[j]] == c
  {
    if from < |s| {
      PositionsSound(s, c, from + 1);
    }
  }
}
