/** The search box filter (csv-load/script.js:409-420): a group is kept when
    the lower-cased term occurs in its lower-cased registration name or in
    the lower-cased name of one of its clubs. */
module Search {
  import opened Text
  import opened Groups

  /** Some club name, lower-cased, contains `lowered` (`dantaiList.some`). */
  predicate ClubMatches(clubs: seq<string>, lowered: string)
    ensures lowered == [] ==> (ClubMatches(clubs, lowered) <==> clubs != [])
  {
    assert lowered == [] && clubs != [] ==> Contains(ToLower(clubs[0]), lowered);
    exists i :: 0 <= i < |clubs| && Contains(ToLower(clubs[i]), lowered)
  }

  /** The filter callback, for a term that is already lower-cased. */
  predicate Matches(g: GroupStats, lowered: string)
    ensures lowered == [] ==> Matches(g, lowered)
    ensures Matches(g, lowered) ==> |lowered| <= |g.registrationName| || g.dantaiList != []
  {
    Contains(ToLower(g.registrationName), lowered) || ClubMatches(g.dantaiList, lowered)
  }

  /** `groups.filter(g => Matches(g, lowered))`. */
  function Filter(groups: seq<GroupStats>, lowered: string): (r: seq<GroupStats>)
    ensures |r| <= |groups|
    ensures forall g :: g in r <==> g in groups && Matches(g, lowered)
  {
    if groups == [] then []
    else
      var prev := Filter(groups[..|groups| - 1], lowered);
      var last := groups[|groups| - 1];
      assert groups == groups[..|groups| - 1] + [last];
      if Matches(last, lowered) then prev + [last] else prev
  }

  /** No two groups share a registration name. */
  ghost predicate DistinctNames(groups: seq<GroupStats>) {
    forall i, j :: 0 <= i < j < |groups| ==> groups[i].registrationName != groups[j].registrationName
  }

  /** The filter keeps names distinct, as it only drops groups. */
  lemma {:induction false} FilterDistinct(groups: seq<GroupStats>, lowered: string)
    requires DistinctNames(groups)
    ensures DistinctNames(Filter(groups, lowered))
  {
    if groups != [] {
      var init := groups[..|groups| - 1];
      var last := groups[|groups| - 1];
      FilterDistinct(init, lowered);
      var prev := Filter(init, lowered);
      forall i | 0 <= i < |prev|
        ensures prev[i].registrationName != last.registrationName
      {
        assert prev[i] in init;
        var j :| 0 <= j < |init| && init[j] == prev[i];
        assert groups[j] == prev[i];
      }
    }
  }

  /** The groups a search for `term` keeps, in their original order. */
  function SearchGroups(groups: seq<GroupStats>, term: string): (r: seq<GroupStats>)
    ensures |r| <= |groups|
    ensures forall g :: g in r <==> g in groups && Matches(g, ToLower(term))
  {
    Filter(groups, ToLower(term))
  }

  /** The filter works piece by piece, so it keeps the relative order of the
      groups it keeps. */
  lemma {:induction false} FilterAppend(a: seq<GroupStats>, b: seq<GroupStats>, lowered: string)
    ensures Filter(a + b, lowered) == Filter(a, lowered) + Filter(b, lowered)
  {
    if b != [] {
      var ab := a + b;
      assert ab[..|ab| - 1] == a + b[..|b| - 1];
      FilterAppend(a, b[..|b| - 1], lowered);
    } else {
      assert a + b == a;
    }
  }

  /** The empty term keeps every group. */
  lemma {:induction false} SearchEmptyTerm(groups: seq<GroupStats>)
    ensures SearchGroups(groups, "") == groups
  {
    if groups != [] {
      var init := groups[..|groups| - 1];
      SearchEmptyTerm(init);
      assert init + [groups[|groups| - 1]] == groups;
    }
  }

  /** The search ignores ASCII case in the term. */
  lemma SearchCaseInsensitive(groups: seq<GroupStats>, term: string)
    ensures SearchGroups(groups, term) == SearchGroups(groups, ToLower(term))
  {
    ToLowerIdempotent(term);
  }

  /** Searching the result of a search keeps exactly the groups that match
      both terms, in their original order; so two searches in a row give
      the same result in either order, and repeating a search changes
      nothing. */
  lemma {:induction false} SearchTwice(groups: seq<GroupStats>, t1: string, t2: string)
    ensures SearchGroups(SearchGroups(groups, t1), t2) == SearchGroups(SearchGroups(groups, t2), t1)
    ensures SearchGroups(SearchGroups(groups, t1), t1) == SearchGroups(groups, t1)
  {
    if groups != [] {
      var init := groups[..|groups| - 1];
      var last := groups[|groups| - 1];
      SearchTwice(init, t1, t2);
      var l1, l2 := ToLower(t1), ToLower(t2);
      FilterAppend(Filter(init, l1), [last], l2);
      FilterAppend(Filter(init, l2), [last], l1);
      FilterAppend(Filter(init, l1), [last], l1);
      assert Filter([last], l1) == if Matches(last, l1) then [last] else [];
      assert Filter([last], l2) == if Matches(last, l2) then [last] else [];
    }
  }
}
