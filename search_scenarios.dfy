/** Worked cases of the search and of the cross-link chips, on a two-theme program. */
module SearchScenarios {
  import opened Wrappers
  import opened Strings
  import opened Document
  import opened TextUtil
  import opened Lookup
  import opened Search

  const Velo := Proposition("velo", Some("Logistique urbaine"), Some("Vélo-logistique"), None, false, [])
  const Bus := Proposition("bus", Some("Bus de nuit"), None, Some("Une ligne"), false, ["velo", "absent"])
  const Musee := Proposition("musee", Some("Musée"), Some("Gratuit"), None, true, ["velo"])
  const Mobilite := Theme("mobilite", Some("Mobilité"), None, Some("#e92e6c"), None, [Velo, Bus])
  const Culture := Theme("culture", Some("Culture"), None, None, None, [Musee])
  const Themes := [Mobilite, Culture]

  /** A text with neither `v` nor `V` lower-cases to one without `v`. */
  lemma NoVAfterLower(s: string)
    requires 'v' !in s && 'V' !in s
    ensures 'v' !in Lower(s)
  {
  }

  /** A field without `v` in any case does not contain the query `vélo`. */
  lemma NoVeloIn(field: string)
    requires 'v' !in field && 'V' !in field
    ensures !FieldIncludes(Some(field), "vélo")
  {
    NoVAfterLower(field);
    IncludesNeedsChar(Lower(field), "vélo", 'v');
  }

  lemma LowerVelo()
    ensures Lower("VÉLO") == "vélo"
  {
  }

  lemma VeloSummaryMatches()
    ensures FieldIncludes(Velo.summary, "vélo")
  {
    var l := Lower("Vélo-logistique");
    assert l[..4] == "vélo";
    assert "vélo" <= l;
  }

  lemma MobiliteTitleNoVelo()
    ensures !FieldIncludes(Mobilite.title, "vélo")
  {
    NoVeloIn("Mobilité");
  }

  lemma BusDoesNotMatch()
    ensures !PropMatches(Bus, Mobilite, "vélo")
  {
    NoVeloIn("Bus de nuit");
    assert !FieldIncludes(Bus.title, "vélo");
    NoVeloIn("Une ligne");
    assert !FieldIncludes(Bus.detail, "vélo");
    MobiliteTitleNoVelo();
  }

  lemma CultureTitleNoVelo()
    ensures !FieldIncludes(Culture.title, "vélo")
  {
    NoVeloIn("Culture");
  }

  lemma MuseeDoesNotMatch()
    ensures !PropMatches(Musee, Culture, "vélo")
  {
    NoVeloIn("Musée");
    assert !FieldIncludes(Musee.title, "vélo");
    NoVeloIn("Gratuit");
    assert !FieldIncludes(Musee.summary, "vélo");
    CultureTitleNoVelo();
  }

  /** In the mobility theme only the cargo-bike proposition matches `vélo`. */
  lemma MobiliteMatches()
    ensures MatchingProps(Mobilite, Mobilite.propositions, "vélo") == [Velo]
  {
    VeloSummaryMatches();
    BusFilteredOut();
    assert Mobilite.propositions[1..] == [Bus];
  }

  lemma BusFilteredOut()
    ensures MatchingProps(Mobilite, [Bus], "vélo") == []
  {
    BusDoesNotMatch();
    assert [Bus][1..] == [];
  }

  /** Nothing in the culture theme matches `vélo`. */
  lemma CultureMatchesNothing()
    ensures SearchResults([Culture], "vélo") == []
  {
    MuseeDoesNotMatch();
    assert Culture.propositions[1..] == [];
    assert MatchingProps(Culture, Culture.propositions, "vélo") == [];
    assert [Culture][1..] == [];
  }

  /**
   * Searching `VÉLO` finds the one proposition whose summary holds `Vélo`,
   * in one group for its theme; the other theme contributes no group.
   */
  lemma SearchVeloExample()
    ensures SearchResults(Themes, Lower("VÉLO")) == [Group(Mobilite, [Velo])]
  {
    LowerVelo();
    MobiliteMatches();
    CultureMatchesNothing();
    assert Themes[1..] == [Culture];
  }

  lemma FindVelo()
    ensures FindPropIn(Themes, "velo") == Some(Found(Mobilite, Velo))
  {
    assert FindInTheme(Mobilite.propositions, "velo") == Some(Velo);
  }

  lemma FindBus()
    ensures FindPropIn(Themes, "bus") == Some(Found(Mobilite, Bus))
  {
    assert Mobilite.propositions[1..] == [Bus];
    assert FindInTheme([Bus], "bus") == Some(Bus);
    assert FindInTheme(Mobilite.propositions, "bus") == Some(Bus);
  }

  lemma FindMusee()
    ensures FindPropIn(Themes, "musee") == Some(Found(Culture, Musee))
  {
    assert !HasPropId(Mobilite.propositions, "musee") by {
      assert Mobilite.propositions[0].id != "musee" && Mobilite.propositions[1].id != "musee";
    }
    assert FindInTheme(Culture.propositions, "musee") == Some(Musee);
    assert Themes[1..] == [Culture];
  }

  lemma FindAbsent()
    ensures FindPropIn(Themes, "absent") == None
  {
    assert !HasPropId(Mobilite.propositions, "absent") by {
      assert Mobilite.propositions[0].id != "absent" && Mobilite.propositions[1].id != "absent";
    }
    assert !HasPropId(Culture.propositions, "absent") by {
      assert Culture.propositions[0].id != "absent";
    }
  }

  /** The cross-link from `Bus` to `velo` stays within the mobility theme. */
  lemma BusChip()
    ensures ChipFor(Themes, Bus, "velo") == Some(Chip("mobilite", "velo", Some("Logistique urbaine")))
  {
    FindVelo();
    FindBus();
    assert InSameTheme(Themes, Bus, Mobilite);
  }

  /**
   * `Bus` links to `velo`, in its own theme, and to an id no theme has: one
   * chip, labelled with the bare title of the linked proposition.
   */
  lemma RelatedSameThemeExample()
    ensures RelatedChips(Themes, Bus.related, Bus) == [Chip("mobilite", "velo", Some("Logistique urbaine"))]
  {
    BusChip();
    FindAbsent();
    assert ChipFor(Themes, Bus, "absent") == None;
    assert Bus.related[1..] == ["absent"] && ["absent"][1..] == [];
    assert RelatedChips(Themes, ["absent"], Bus) == [];
  }

  lemma MuseeOutsideMobilite()
    ensures !InSameTheme(Themes, Musee, Mobilite)
  {
    FindMusee();
  }

  lemma CrossThemeLabel()
    ensures ChipLabel(false, Found(Mobilite, Velo)) == Some("Mobilité → Logistique urbaine")
  {
    assert TemplateText(Mobilite.title) + " → " + TemplateText(Velo.title) == "Mobilité → Logistique urbaine";
  }

  /** The cross-link from `Musee` to `velo` leaves the culture theme. */
  lemma MuseeChip()
    ensures ChipFor(Themes, Musee, "velo") == Some(Chip("mobilite", "velo", Some("Mobilité → Logistique urbaine")))
  {
    FindVelo();
    MuseeOutsideMobilite();
    CrossThemeLabel();
  }

  /** A link across themes is labelled `theme title → proposition title`. */
  lemma RelatedOtherThemeExample()
    ensures RelatedChips(Themes, Musee.related, Musee) == [Chip("mobilite", "velo", Some("Mobilité → Logistique urbaine"))]
  {
    MuseeChip();
    assert Musee.related == ["velo"] && Musee.related[1..] == [];
  }
}
