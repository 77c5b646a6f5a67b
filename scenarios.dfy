/** Worked cases of the site's behaviour, stated on concrete values. */
module Scenarios {
  import opened Wrappers
  import opened Strings
  import opened TextUtil
  import opened Router

  /** `e92e6c` is matched, with or without `#`, as the pairs `e9`, `2e` and `6c`. */
  lemma E92e6cMatches()
    ensures MatchHexColor("e92e6c") == Some(["e9", "2e", "6c"])
    ensures MatchHexColor("#e92e6c") == Some(["e9", "2e", "6c"])
  {
    var d := "e92e6c";
    assert AllHex(d) by {
      forall i | 0 <= i < 6 ensures IsHexDigit(d[i]) {
        assert i == 0 || i == 1 || i == 2 || i == 3 || i == 4 || i == 5;
      }
    }
    assert d[0..2] == "e9" && d[2..4] == "2e" && d[4..6] == "6c";
    assert "#e92e6c"[1..] == d;
  }

  /** The pairs of `e92e6c` read in base 16. */
  lemma E92e6cChannels()
    ensures AllHex("e9") && AllHex("2e") && AllHex("6c")
    ensures ParseHexPair("e9") == 233 && ParseHexPair("2e") == 46 && ParseHexPair("6c") == 108
  {
  }

  /** The channels of `e92e6c` written in decimal. */
  lemma E92e6cDecimals()
    ensures DecimalString(233) == "233" && DecimalString(46) == "46" && DecimalString(108) == "108"
  {
    assert DecimalString(233) == "233" by {
      assert DecimalString(2) == "2";
      assert DecimalString(23) == "23";
    }
    assert DecimalString(46) == "46" by {
      assert DecimalString(4) == "4";
    }
    assert DecimalString(108) == "108" by {
      assert DecimalString(1) == "1";
      assert DecimalString(10) == "10";
    }
  }

  /** The example in the comment above `hexToRgb`, with and without `#`, and a colour one digit short. */
  lemma HexToRgbExample()
    ensures HexToRgb("#e92e6c") == "233,46,108"
    ensures HexToRgb("e92e6c") == "233,46,108"
    ensures HexToRgb("#e92e6") == "100,100,100"
  {
    E92e6cMatches();
    E92e6cChannels();
    E92e6cDecimals();
    ShortColourUnmatched();
  }

  /** Five digits after `#` do not match the colour expression. */
  lemma ShortColourUnmatched()
    ensures MatchHexColor("#e92e6") == None
  {
    assert "#e92e6"[0] == '#' && !IsHexDigit('#');
    assert !AllHex("#e92e6");
  }

  /** An empty fragment, a bare `theme` and `theme/` with nothing after it all route home. */
  lemma ParseHashHomeExamples()
    ensures ParseHash("") == HomeRoute
    ensures ParseHash("theme") == HomeRoute
    ensures ParseHash("theme/") == HomeRoute
  {
    ParseRouteHash(HomeRoute);
    SplitPiece("theme", '/');
    SplitPrefix("theme", "", '/');
    assert "theme/" == "theme" + ['/'] + "";
    assert Split("", '/') == [""];
    assert Split("theme/", '/') == ["theme", ""];
  }

  /** A theme route without a proposition. */
  lemma ParseHashThemeExample()
    ensures ParseHash("theme/environnement") == ThemeRoute("environnement", None)
  {
    var r := ThemeRoute("environnement", None);
    ParseRouteHash(r);
    assert RouteHash(r) == "theme/environnement";
  }

  /** The route to proposition `compost` of theme `environnement` can stand in a fragment. */
  lemma CompostRouteWellFormed()
    ensures WellFormed(ThemeRoute("environnement", Some("compost")))
  {
    assert '/' !in "environnement";
    assert '/' !in "compost";
  }

  /** A theme route naming a proposition to open. */
  lemma ParseHashPropExample()
    ensures ParseHash("theme/environnement/compost") == ThemeRoute("environnement", Some("compost"))
  {
    var r := ThemeRoute("environnement", Some("compost"));
    CompostRouteWellFormed();
    CompostRouteHash();
    ParseRouteHash(r);
  }

  lemma CompostRouteHash()
    ensures RouteHash(ThemeRoute("environnement", Some("compost"))) == "theme/environnement/compost"
  {
  }

  /** A trailing `/` names the empty proposition id, which opens nothing. */
  lemma ParseHashTrailingSlashExample()
    ensures ParseHash("theme/environnement/") == ThemeRoute("environnement", Some(""))
  {
    var r := ThemeRoute("environnement", Some(""));
    EnvironnementSlashHash();
    ParseRouteHash(r);
  }

  lemma EnvironnementSlashHash()
    ensures WellFormed(ThemeRoute("environnement", Some("")))
    ensures RouteHash(ThemeRoute("environnement", Some(""))) == "theme/environnement/"
  {
    assert '/' !in "environnement";
  }

  /** A text cut into one occurrence between two pieces is rendered as those three pieces, the middle one marked. */
  lemma HighlightThreePieces(a: string, m: string, b: string, q: string)
    requires q != [] && IsLeftmostSplit(a + m + b, q, [a, m, b])
    requires NoReserved(a) && NoReserved(m) && NoReserved(b)
    ensures Highlight(Some(a + m + b), q) == a + Mark(m) + b
  {
    EscapeTextPlain(a);
    EscapeTextPlain(m);
    EscapeTextPlain(b);
    var parts := [a, m, b];
    assert a + m + b != [] by {
      LeftmostSplitPieces(a + m + b, q, parts);
      assert |m| == |q|;
    }
    LeftmostSplitUnique(a + m + b, q, parts, SplitOnQuery(a + m + b, q));
    assert parts[1..] == [m, b];
    assert parts[1..][1..] == [b];
    assert parts[1..][1..][1..] == [];
    assert RenderParts([b], 2) == EscapeText(b);
    assert RenderParts([m, b], 1) == Mark(EscapeText(m)) + EscapeText(b);
    assert RenderParts(parts, 0) == EscapeText(a) + (Mark(EscapeText(m)) + EscapeText(b));
  }

  /** How `Plan Mobilité 2026` is cut on `mobilité`: the query occurs once, with a capital letter. */
  lemma PlanMobiliteSplit()
    ensures IsLeftmostSplit("Plan Mobilité 2026", "mobilité", ["Plan ", "Mobilité", " 2026"])
  {
    var a, m, b, q := "Plan ", "Mobilité", " 2026", "mobilité";
    var t := a + m + b;
    assert t == "Plan Mobilité 2026";
    assert Lower(q) == Lower(m) by {
      assert Lower(q) == "mobilité";
      assert Lower(m) == "mobilité";
    }
    forall j | 0 <= j < |a|
      ensures !MatchAt(t, q, j)
    {
      assert Lower(t[j..j + |q|])[0] == Fold(t[j]);
      assert Lower(q)[0] == 'm';
      assert Fold(t[j]) != 'm' by {
        assert j == 0 || j == 1 || j == 2 || j == 3 || j == 4;
      }
    }
    assert t[..|a|] == a;
    assert t[|a|..|a| + |q|] == m;
    assert MatchAt(t, q, |a|);
    assert t[|a| + |q|..] == b;
    assert IsLeftmostSplit(b, q, [b]);
    assert [a, m, b][2..] == [b];
  }

  /** None of the three pieces holds a character that `esc` replaces. */
  lemma PlanMobilitePlain()
    ensures NoReserved("Plan ") && NoReserved("Mobilité") && NoReserved(" 2026")
  {
  }

  /** The highlighting case: one occurrence, found regardless of case, wrapped once; the rest unchanged. */
  lemma HighlightExample()
    ensures Highlight(Some("Plan Mobilité 2026"), "mobilité") == "Plan <mark>Mobilité</mark> 2026"
  {
    var a, m, b, q := "Plan ", "Mobilité", " 2026", "mobilité";
    PlanMobiliteSplit();
    PlanMobilitePlain();
    PlanMobiliteMarked();
    assert a + m + b == "Plan Mobilité 2026";
    HighlightThreePieces(a, m, b, q);
  }

  /** The expected output is the three pieces with the middle one marked. */
  lemma PlanMobiliteMarked()
    ensures "Plan <mark>Mobilité</mark> 2026" == "Plan " + Mark("Mobilité") + " 2026"
  {
  }
}
