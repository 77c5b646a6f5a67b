/**
 * Lookup of a proposition by identifier across the whole program (`findProp`,
 * app.js section 2) and the cross-link chips of a proposition card
 * (`buildRelatedLinks`, app.js section 8), the latter as chip records rather
 * than markup.
 */
module Lookup {
  import opened Wrappers
  import opened Strings
  import opened Document

  /** The `{ theme, proposition }` pair `findProp` returns. */
  datatype Found = Found(theme: Theme, proposition: Proposition)

  /** `props` has a proposition with identifier `id` at index `j` and none before it. */
  ghost predicate FirstPropAt(props: seq<Proposition>, id: string, j: int)
  {
    0 <= j < |props| && props[j].id == id && forall k :: 0 <= k < j ==> props[k].id != id
  }

  /** Theme `i` is the first theme of `themes` with a proposition `id`. */
  ghost predicate FirstOwnerAt(themes: seq<Theme>, id: string, i: int)
  {
    0 <= i < |themes| && HasPropId(themes[i].propositions, id) &&
    forall k :: 0 <= k < i ==> !HasPropId(themes[k].propositions, id)
  }

  /** Past a first proposition with another id, the search goes on in the rest. */
  lemma FindInThemeTail(props: seq<Proposition>, id: string)
    requires props != [] && props[0].id != id
    ensures HasPropId(props, id) ==> HasPropId(props[1..], id)
    ensures forall j :: FirstPropAt(props[1..], id, j) ==> FirstPropAt(props, id, j + 1)
  {
    if HasPropId(props, id) {
      var j :| 0 <= j < |props| && props[j].id == id;
      assert props[1..][j - 1].id == id;
    }
  }

  /** `props.find(p => p.id === id)`: the first proposition with that identifier. */
  function FindInTheme(props: seq<Proposition>, id: string): (r: Option<Proposition>)
    ensures r.None? <==> !HasPropId(props, id)
    ensures r.Some? ==> exists j :: FirstPropAt(props, id, j) && props[j] == r.value
  {
    if props == [] then None
    else if props[0].id == id then
      assert FirstPropAt(props, id, 0);
      Some(props[0])
    else
      var r := FindInTheme(props[1..], id);
      FindInThemeTail(props, id);
      assert r.Some? ==> exists j :: FirstPropAt(props, id, j) && props[j] == r.value by {
        if r.Some? {
          var j :| FirstPropAt(props[1..], id, j) && props[1..][j] == r.value;
          assert FirstPropAt(props, id, j + 1);
        }
      }
      r
  }

  /**
   * What `findProp(id)` returns: the first theme, in program order, that has a
   * proposition `id`, with the first such proposition in it; `None` when no
   * theme has one.
   */
  function FindPropIn(themes: seq<Theme>, id: string): (r: Option<Found>)
    ensures r.None? <==> forall i :: 0 <= i < |themes| ==> !HasPropId(themes[i].propositions, id)
    ensures r.Some? ==>
              exists i, j :: FirstOwnerAt(themes, id, i) && FirstPropAt(themes[i].propositions, id, j) &&
                             r.value == Found(themes[i], themes[i].propositions[j])
  {
    if themes == [] then None
    else
      match FindInTheme(themes[0].propositions, id)
      case Some(p) =>
        assert FirstOwnerAt(themes, id, 0);
        Some(Found(themes[0], p))
      case None =>
        var r := FindPropIn(themes[1..], id);
        assert r.Some? ==>
                 exists i, j :: FirstOwnerAt(themes, id, i) && FirstPropAt(themes[i].propositions, id, j) &&
                                r.value == Found(themes[i], themes[i].propositions[j]) by {
          if r.Some? {
            var i, j :| FirstOwnerAt(themes[1..], id, i) && FirstPropAt(themes[1..][i].propositions, id, j) &&
                        r.value == Found(themes[1..][i], themes[1..][i].propositions[j]);
            assert FirstOwnerAt(themes, id, i + 1);
          }
        }
        assert r.None? ==> forall i :: 0 <= i < |themes| ==> !HasPropId(themes[i].propositions, id) by {
          if r.None? {
            forall i | 0 <= i < |themes| ensures !HasPropId(themes[i].propositions, id) {
              if i > 0 {
                assert themes[i] == themes[1..][i - 1];
              }
            }
          }
        }
        r
  }

  /** `state.program?.themes ?? []`. */
  function ThemesOf(program: Option<Program>): seq<Theme>
  {
    if program.Some? then program.value.themes else []
  }

  /** `findProp(id)`: the loop over the themes, returning at the first theme that has the proposition. */
  method FindProp(program: Option<Program>, id: string) returns (r: Option<Found>)
    ensures r == FindPropIn(ThemesOf(program), id)
  {
    var themes := ThemesOf(program);
    var i := 0;
    while i < |themes|
      invariant 0 <= i <= |themes|
      invariant FindPropIn(themes, id) == FindPropIn(themes[i..], id)
    {
      var theme := themes[i];
      var proposition := FindInTheme(theme.propositions, id);
      assert themes[i..][0] == theme && themes[i..][1..] == themes[i + 1..];
      if proposition.Some? {
        return Some(Found(theme, proposition.value));
      }
      i := i + 1;
    }
    assert themes[i..] == [];
    return None;
  }

  // ------------------------------------------------------------------
  // buildRelatedLinks
  // ------------------------------------------------------------------

  /** A cross-link chip: the theme to navigate to, the proposition to open, and its label. */
  datatype Chip = Chip(themeId: string, propId: string, caption: Option<string>)

  /** A value inside a template literal: an absent field reads `undefined`. */
  function TemplateText(v: Option<string>): string
  {
    if v.Some? then v.value else "undefined"
  }

  /** The label `buildRelatedLinks` gives a resolved link: the bare title within the same theme, else prefixed by the theme title. */
  function ChipLabel(sameTheme: bool, found: Found): Option<string>
  {
    if sameTheme then found.proposition.title
    else Some(TemplateText(found.theme.title) + " → " + TemplateText(found.proposition.title))
  }

  /** Whether the proposition `current`, looked up by its own id, lies in the theme `theme`. */
  predicate InSameTheme(themes: seq<Theme>, current: Proposition, theme: Theme)
  {
    var currentFound := FindPropIn(themes, current.id);
    currentFound.Some? && currentFound.value.theme.id == theme.id
  }

  /** The chip for one related id, or `None` when `findProp` cannot resolve it. */
  function ChipFor(themes: seq<Theme>, current: Proposition, id: string): Option<Chip>
  {
    match FindPropIn(themes, id)
    case None => None
    case Some(found) => Some(Chip(found.theme.id, id, ChipLabel(InSameTheme(themes, current, found.theme), found)))
  }

  /** `buildRelatedLinks(related, current)` as the list of chips it renders. */
  function RelatedChips(themes: seq<Theme>, related: seq<string>, current: Proposition): seq<Chip>
  {
    if related == [] then []
    else
      (match ChipFor(themes, current, related[0]) case None => [] case Some(c) => [c]) +
      RelatedChips(themes, related[1..], current)
  }

  function ChipIds(chips: seq<Chip>): seq<string>
  {
    if chips == [] then [] else [chips[0].propId] + ChipIds(chips[1..])
  }

  /** An id `findProp` resolves. */
  predicate Resolves(themes: seq<Theme>, id: string)
  {
    exists i :: 0 <= i < |themes| && HasPropId(themes[i].propositions, id)
  }

  /** The chips follow the order of `related` and keep exactly the ids that resolve. */
  lemma {:induction false} RelatedChipsOrder(themes: seq<Theme>, related: seq<string>, current: Proposition)
    ensures var ids := ChipIds(RelatedChips(themes, related, current));
            IsSubseq(ids, related) &&
            forall id :: id in ids <==> id in related && Resolves(themes, id)
  {
    if related != [] {
      RelatedChipsOrder(themes, related[1..], current);
      var rest := RelatedChips(themes, related[1..], current);
      var chips := RelatedChips(themes, related, current);
      var ids := ChipIds(chips);
      var id := related[0];
      assert related == [id] + related[1..];
      match ChipFor(themes, current, id)
      case None =>
        assert chips == rest;
        assert !Resolves(themes, id);
        IsSubseqDropFirst(ids, related);
      case Some(c) =>
        assert chips == [c] + rest;
        assert ids == [id] + ChipIds(rest);
        assert Resolves(themes, id);
    }
  }

  /** The first related id adds its own chip, when it resolves, in front of the rest's chips. */
  lemma ChipIdsStep(themes: seq<Theme>, related: seq<string>, current: Proposition)
    requires related != []
    ensures multiset(ChipIds(RelatedChips(themes, related, current))) ==
            (if Resolves(themes, related[0]) then multiset{related[0]} else multiset{}) +
            multiset(ChipIds(RelatedChips(themes, related[1..], current)))
  {
    var rest := RelatedChips(themes, related[1..], current);
    var chips := RelatedChips(themes, related, current);
    var id := related[0];
    match ChipFor(themes, current, id)
    case None =>
      assert chips == rest;
      assert !Resolves(themes, id);
    case Some(c) =>
      assert chips == [c] + rest;
      assert ChipIds(chips) == [id] + ChipIds(rest);
      assert Resolves(themes, id);
  }

  /** A resolving id gets one chip per occurrence in `related`; any other id gets none. */
  lemma {:induction false} RelatedChipsCount(themes: seq<Theme>, related: seq<string>, current: Proposition)
    ensures var ids := ChipIds(RelatedChips(themes, related, current));
            forall id :: multiset(ids)[id] == if Resolves(themes, id) then multiset(related)[id] else 0
  {
    if related != [] {
      RelatedChipsCount(themes, related[1..], current);
      ChipIdsStep(themes, related, current);
      assert related == [related[0]] + related[1..];
      assert multiset(related) == multiset{related[0]} + multiset(related[1..]);
    }
  }

  /** The chip `c` names the theme that owns its proposition and carries the label `buildRelatedLinks` gives it. */
  predicate ChipNamesOwner(themes: seq<Theme>, current: Proposition, c: Chip)
  {
    var found := FindPropIn(themes, c.propId);
    found.Some? && found.value.proposition.id == c.propId &&
    c.themeId == found.value.theme.id &&
    c.caption == ChipLabel(InSameTheme(themes, current, found.value.theme), found.value)
  }

  /** The chip built for `id`, if any, carries `id` and names its owner. */
  lemma ChipForNamesOwner(themes: seq<Theme>, current: Proposition, id: string)
    ensures var c := ChipFor(themes, current, id);
            c.Some? ==> c.value.propId == id && ChipNamesOwner(themes, current, c.value)
  {
    var found := FindPropIn(themes, id);
    if found.Some? {
      var i, j :| FirstOwnerAt(themes, id, i) && FirstPropAt(themes[i].propositions, id, j) &&
                  found.value == Found(themes[i], themes[i].propositions[j]);
    }
  }

  /**
   * Each chip names the theme that owns its proposition, and is labelled with
   * the bare title within the current proposition's theme and `theme → title`
   * otherwise.
   */
  lemma {:induction false} RelatedChipsLabels(themes: seq<Theme>, related: seq<string>, current: Proposition)
    ensures forall c :: c in RelatedChips(themes, related, current) ==> ChipNamesOwner(themes, current, c)
  {
    if related != [] {
      RelatedChipsLabels(themes, related[1..], current);
      var rest := RelatedChips(themes, related[1..], current);
      var chips := RelatedChips(themes, related, current);
      ChipForNamesOwner(themes, current, related[0]);
      match ChipFor(themes, current, related[0])
      case None =>
        assert chips == rest;
      case Some(c) =>
        assert chips == [c] + rest;
    }
  }

  /** An empty `related` list, or one whose ids all fail to resolve, gives no chips. */
  lemma {:induction false} NoChipsWhenNothingResolves(themes: seq<Theme>, related: seq<string>, current: Proposition)
    requires forall k :: 0 <= k < |related| ==> !Resolves(themes, related[k])
    ensures RelatedChips(themes, related, current) == []
  {
    if related != [] {
      NoChipsWhenNothingResolves(themes, related[1..], current);
    }
  }

}
