/**
 * The search engine (`performSearch`, app.js section 10): a case-insensitive
 * substring filter over the propositions, grouped by theme.
 */
module Search {
  import opened Wrappers
  import opened Strings
  import opened Document
  import opened TextUtil
  import opened Lookup

  /** One result group: a theme and its matching propositions. */
  datatype Group = Group(theme: Theme, propositions: seq<Proposition>)

  /** `field?.toLowerCase().includes(q)`: an absent field never matches. */
  predicate FieldIncludes(field: Option<string>, q: string)
  {
    field.Some? && Includes(Lower(field.value), q)
  }

  /** The filter of `performSearch`: the proposition's title, summary or detail, or its theme's title, contains `q`. */
  predicate PropMatches(p: Proposition, theme: Theme, q: string)
  {
    FieldIncludes(p.title, q) || FieldIncludes(p.summary, q) || FieldIncludes(p.detail, q) ||
    FieldIncludes(theme.title, q)
  }

  /** `props.filter(p => ...)` for the propositions of `theme`. */
  function MatchingProps(theme: Theme, props: seq<Proposition>, q: string): seq<Proposition>
  {
    if props == [] then []
    else (if PropMatches(props[0], theme, q) then [props[0]] else []) + MatchingProps(theme, props[1..], q)
  }

  /** The group one theme contributes: none when nothing in it matches. */
  function GroupFor(theme: Theme, q: string): seq<Group>
  {
    var matching := MatchingProps(theme, theme.propositions, q);
    if |matching| > 0 then [Group(theme, matching)] else []
  }

  /** The results for the lower-cased query `q`: the groups of the themes in program order. */
  function SearchResults(themes: seq<Theme>, q: string): seq<Group>
  {
    if themes == [] then [] else GroupFor(themes[0], q) + SearchResults(themes[1..], q)
  }

  lemma {:induction false} SearchResultsAppend(themes: seq<Theme>, theme: Theme, q: string)
    ensures SearchResults(themes + [theme], q) == SearchResults(themes, q) + GroupFor(theme, q)
  {
    if themes == [] {
      assert [theme][1..] == [];
    } else {
      assert (themes + [theme])[1..] == themes[1..] + [theme];
      SearchResultsAppend(themes[1..], theme, q);
    }
  }

  /** `performSearch(query)`: the loop over the themes, pushing one group per theme with a match. */
  method PerformSearch(program: Option<Program>, query: string) returns (results: seq<Group>)
    ensures results == SearchResults(ThemesOf(program), Lower(query))
  {
    var q := Lower(query);
    var themes := ThemesOf(program);
    results := [];
    var i := 0;
    while i < |themes|
      invariant 0 <= i <= |themes|
      invariant results == SearchResults(themes[..i], q)
    {
      var theme := themes[i];
      var matching := MatchingProps(theme, theme.propositions, q);
      if |matching| > 0 {
        results := results + [Group(theme, matching)];
      }
      SearchResultsAppend(themes[..i], theme, q);
      assert themes[..i + 1] == themes[..i] + [theme];
      i := i + 1;
    }
    assert themes[..i] == themes;
  }

  /**
   * A theme's matching propositions are exactly those of its propositions that
   * match, in their original order, each kept as many times as it occurs.
   */
  lemma {:induction false} MatchingPropsSpec(theme: Theme, props: seq<Proposition>, q: string)
    ensures var m := MatchingProps(theme, props, q);
            IsSubseq(m, props) && forall p :: p in m <==> p in props && PropMatches(p, theme, q)
    ensures var m := MatchingProps(theme, props, q);
            forall p :: multiset(m)[p] == if PropMatches(p, theme, q) then multiset(props)[p] else 0
  {
    if props != [] {
      MatchingPropsSpec(theme, props[1..], q);
      var m := MatchingProps(theme, props, q);
      assert props == [props[0]] + props[1..];
      assert multiset(props) == multiset([props[0]]) + multiset(props[1..]);
      if PropMatches(props[0], theme, q) {
        assert m == [props[0]] + MatchingProps(theme, props[1..], q);
        assert m[1..] == MatchingProps(theme, props[1..], q);
      } else {
        assert m == MatchingProps(theme, props[1..], q);
        IsSubseqDropFirst(m, props);
      }
    }
  }

  /** When the theme's own title contains the query, every one of its propositions matches. */
  lemma {:induction false} ThemeTitleMatchKeepsAll(theme: Theme, props: seq<Proposition>, q: string)
    requires FieldIncludes(theme.title, q)
    ensures MatchingProps(theme, props, q) == props
  {
    if props != [] {
      ThemeTitleMatchKeepsAll(theme, props[1..], q);
    }
  }

  function GroupThemes(groups: seq<Group>): seq<Theme>
  {
    if groups == [] then [] else [groups[0].theme] + GroupThemes(groups[1..])
  }

  /** Some proposition of the theme matches `q`. */
  predicate ThemeMatches(theme: Theme, q: string)
  {
    exists j :: 0 <= j < |theme.propositions| && PropMatches(theme.propositions[j], theme, q)
  }

  /** A theme has a match exactly when its filtered list is not empty. */
  lemma ThemeMatchesIff(t: Theme, q: string)
    ensures ThemeMatches(t, q) <==> MatchingProps(t, t.propositions, q) != []
  {
    var m := MatchingProps(t, t.propositions, q);
    MatchingPropsSpec(t, t.propositions, q);
    if ThemeMatches(t, q) {
      var j :| 0 <= j < |t.propositions| && PropMatches(t.propositions[j], t, q);
      assert t.propositions[j] in m;
    }
    if m != [] {
      assert m[0] in m;
    }
  }

  /** Each group holds exactly its theme's matching propositions, in order, and never none. */
  predicate GroupsExact(results: seq<Group>, q: string)
  {
    forall k :: 0 <= k < |results| ==>
      results[k].propositions == MatchingProps(results[k].theme, results[k].theme.propositions, q) &&
      results[k].propositions != []
  }

  /** Every search result group holds exactly its theme's matching propositions, and at least one. */
  lemma {:induction false} SearchGroupsSpec(themes: seq<Theme>, q: string)
    ensures GroupsExact(SearchResults(themes, q), q)
  {
    if themes != [] {
      SearchGroupsSpec(themes[1..], q);
      var rest := SearchResults(themes[1..], q);
      var g := GroupFor(themes[0], q);
      assert SearchResults(themes, q) == g + rest;
      assert GroupsExact(g, q);
    }
  }

  /** The results hold one group per theme that has a match, in program order; a theme listed twice gets two groups. */
  lemma {:induction false} SearchThemesSpec(themes: seq<Theme>, q: string)
    ensures var groupThemes := GroupThemes(SearchResults(themes, q));
            IsSubseq(groupThemes, themes) &&
            forall t :: t in groupThemes <==> t in themes && ThemeMatches(t, q)
    ensures var groupThemes := GroupThemes(SearchResults(themes, q));
            forall t :: multiset(groupThemes)[t] == if ThemeMatches(t, q) then multiset(themes)[t] else 0
  {
    SearchThemesCount(themes, q);
    if themes != [] {
      var t := themes[0];
      SearchThemesSpec(themes[1..], q);
      ThemeMatchesIff(t, q);
      var rest := SearchResults(themes[1..], q);
      var results := SearchResults(themes, q);
      assert themes == [t] + themes[1..];
      if MatchingProps(t, t.propositions, q) != [] {
        assert results == [Group(t, MatchingProps(t, t.propositions, q))] + rest;
        assert results[1..] == rest;
        assert GroupThemes(results) == [t] + GroupThemes(rest);
      } else {
        assert results == rest;
        IsSubseqDropFirst(GroupThemes(results), themes);
      }
    }
  }

  /** The first theme adds its own group, when it has a match, in front of the rest's groups. */
  lemma GroupThemesStep(themes: seq<Theme>, q: string)
    requires themes != []
    ensures multiset(GroupThemes(SearchResults(themes, q))) ==
            (if ThemeMatches(themes[0], q) then multiset{themes[0]} else multiset{}) +
            multiset(GroupThemes(SearchResults(themes[1..], q)))
  {
    var t := themes[0];
    ThemeMatchesIff(t, q);
    var rest := SearchResults(themes[1..], q);
    var results := SearchResults(themes, q);
    if MatchingProps(t, t.propositions, q) != [] {
      assert results == [Group(t, MatchingProps(t, t.propositions, q))] + rest;
      assert results[1..] == rest;
      assert GroupThemes(results) == [t] + GroupThemes(rest);
    } else {
      assert results == rest;
    }
  }

  /** Each theme with a match is grouped once per occurrence in the program, and no other theme is. */
  lemma {:induction false} SearchThemesCount(themes: seq<Theme>, q: string)
    ensures var groupThemes := GroupThemes(SearchResults(themes, q));
            forall t :: multiset(groupThemes)[t] == if ThemeMatches(t, q) then multiset(themes)[t] else 0
  {
    if themes != [] {
      SearchThemesCount(themes[1..], q);
      GroupThemesStep(themes, q);
      assert themes == [themes[0]] + themes[1..];
      forall t
        ensures multiset(GroupThemes(SearchResults(themes, q)))[t] ==
                if ThemeMatches(t, q) then multiset(themes)[t] else 0
      {
        assert multiset(themes)[t] == multiset{themes[0]}[t] + multiset(themes[1..])[t];
      }
    }
  }

}
