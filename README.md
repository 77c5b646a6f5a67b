# Programme municipal site — verified model of its logic

The site is a single browser script, `app.js`. It loads a JSON document describing an electoral
programme: themes, each holding propositions. It renders a home grid and one accordion page per
theme, routes on the address fragment (`#theme/<themeId>/<propId>`), and offers a substring search.
Most of the script builds markup and runs timers. This project models the parts of it that are
logic, and proves what they promise:

- **Text utilities** (`text_util.dfy`, module `TextUtil`):
  - `hexToRgb`, the colour converter.
  - `esc`, the HTML escaper: its chain of five `replace` calls, proved equal to a per-character map.
  - `highlight`, which escapes a text and wraps each leftmost, non-overlapping, case-insensitive
    occurrence of the literal query in `<mark>` (on `aa`, the text `aaa` gets one mark, not two).
    It is modelled through `split` with a capturing expression.
- **Router** (`router.dfy`, module `Router`):
  - `parseHash`, as a function of the fragment without its leading `#`.
  - The `render` dispatch, as a function returning the view it would show.
- **Navigation controller** (`navigation.dfy`, module `Navigation`):
  - A `Navigator` class holding the fragment, the `navigating` lock, the `pendingPropId` and the
    pending fade-out timer.
  - `Navigate` is `navigateTo`. `Complete` is the timer callback: when the fragment it captured is
    the target it calls `render()` itself, before releasing the lock; otherwise it writes the target
    fragment, and the render comes from the `hashchange` event, which is `RenderCurrent`.
  - `ConsumeTarget` is the pending-target block of `renderThemeView`.
  - Each method is tied to a pure step function (`NavigateStep`, `FireTimer`, `AutoOpenTarget`,
    `RenderStep`), and the lemmas are proved about those functions.
- **Lookup** (`lookup.dfy`, module `Lookup`):
  - `findProp`, as a loop proved against a first-match function.
  - `buildRelatedLinks`, as a list of `(themeId, propId, label)` chip records.
- **Search** (`search.dfy`, module `Search`): `performSearch`, as a loop proved against an
  order-preserving grouped filter.
- **Document** (`document.dfy`) holds the records. `Program` is a sequence of `Theme`s; a `Theme`
  holds a sequence of `Proposition`s. Optional JSON fields are `Option<string>`, with `None` for an
  absent field (JavaScript's `undefined`).
- **Helpers.** `strings.dfy` holds `split`, `join`, `includes` and a sub-sequence relation.
  `wrappers.dfy` holds `Option`.
- **Worked cases.** `scenarios.dfy` and `search_scenarios.dfy` state concrete cases: the colour in
  the source's own comment, the routing fragments, the `Plan Mobilité 2026` highlight, a `VÉLO`
  search, and a related list with a dangling id.

Case folding. `toLowerCase` and the regular-expression `i` flag are both modelled by one function,
`TextUtil.Fold`. It lowers ASCII `A`–`Z` and the Latin-1 capitals U+00C0–U+00DE (except `×`) by 32
code points, and leaves every other character as it is. On those characters both JavaScript
mechanisms agree with it. Outside them the two mechanisms can differ (`ÿ`/`Ÿ`, `µ`, `ß`, Greek,
Cyrillic …); the model does not follow them there.

Two behaviours of the code are easy to miss, and the model keeps both:
- `pendingPropId` is reset only by `renderThemeView` (app.js:393), not at the end of every
  navigation. A navigation that ends on the home view leaves it set, and `RenderStepPending`
  states this.
- The comment above `parseHash` (app.js:147-152) lists `theme/<themeId>/<propId>` as the only form
  with a proposition. In the code, a trailing `/` yields the empty proposition id `""`, not
  `null`. Segments after the third are ignored.

## Model

| member | source | states |
|---|---|---|
| `TextUtil.LowerIdempotent` | app.js:575 | `Lower` (`toLowerCase`): lowering an already lowered text changes nothing |
| `TextUtil.LowerAppend` | app.js:580-583 | `Lower` works piece by piece: the lowered concatenation is the concatenation of the lowered pieces |
| `TextUtil.MatchHexColorSpec` | app.js:38 | `MatchHexColor`: the colour expression matches exactly an optional `#` followed by six hex digits of either case; each captured pair reads in base 16 as that channel, at most 255 |
| `TextUtil.HexToRgbSpec` | app.js:37-41 | `HexToRgb`: a well-formed colour gives its three channels, in decimal, each in 0..255, joined by `,`; any other input gives `100,100,100` |
| `TextUtil.DecimalRoundTrip` | app.js:40 | `DecimalString`: the decimal text written for a channel reads back as that number |
| `TextUtil.HexToRgbRoundTrip` | app.js:37-41 | `HexToRgb`: the output, read as three comma-separated decimals, is the colour's three channels for a well-formed colour and (100, 100, 100) otherwise |
| `TextUtil.EscapeTextIsCharMap` | app.js:46-51 | `EscapeText`: the five chained replacements, `&` first, equal replacing each character by its entity, so no entity is escaped twice |
| `TextUtil.EscSpec` | app.js:44-52 | `Esc`: a non-string escapes to `""`; a string is escaped character by character; the output has no raw `<`, `>`, `"` or `'` |
| `TextUtil.EscapeTextPlain` | app.js:46-51 | `EscapeText`: text free of the five reserved characters is left unchanged |
| `TextUtil.EscRoundTrip` | app.js:44-52 | `Esc`: decoding the five entities in escaped text gives the original text back, so escaping loses nothing |
| `TextUtil.SplitOnQuery` | app.js:60-61 | splitting on the literal query cuts the text into a leftmost, non-overlapping sequence of non-match and match pieces |
| `TextUtil.LeftmostSplitPieces` | app.js:61 | `SplitOnQuery`: the split pieces concatenate back to the text; there is an odd number of them; every odd piece is a case-insensitive occurrence of the query |
| `TextUtil.LeftmostSplitUnique` | app.js:61 | a text has only one leftmost split on a given query |
| `TextUtil.HighlightStripMarks` | app.js:58-65 | `Highlight`: deleting the `<mark>`/`</mark>` tags from the highlighted output gives exactly `esc(text)`, including the empty-text and empty-query cases |
| `Strings.Split` | app.js:155 | splitting gives at least one piece; no piece holds the separator; joining the pieces gives the input back |
| `Strings.SplitJoin` | app.js:155 | splitting undoes joining for separator-free pieces |
| `Strings.IncludesAt` | app.js:580-583 | `includes` holds exactly when the needle occurs at some offset |
| `Strings.IncludesNeedsChar` | app.js:580-583 | a text lacking one of the needle's characters does not include it |
| `Router.ParseHash` | app.js:153-160 | a theme route has a non-empty, `/`-free theme id and a `/`-free proposition id |
| `Router.ParseRouteHash` | app.js:147-160 | parsing the fragment of a route gives the route back: home for `""`, `theme/<id>` with no proposition, `theme/<id>/<pid>` with proposition `pid` |
| `Router.ParseHashIgnoresTail` | app.js:157 | segments after the proposition id are ignored |
| `Router.ParseHashThemeIff` | app.js:156-159 | a fragment is a theme route exactly when it starts with `theme/` followed by a character other than `/`; all others, `""`, `theme` and `theme/` among them, are home |
| `Router.FindTheme` | app.js:167 | the lookup returns the first theme with the id, or none exactly when no theme has it |
| `Router.RenderSpec` | app.js:162-172 | `Render`: nothing is rendered before the document loads; a theme is rendered exactly when the route names a theme the programme has (the first such, with the route's proposition id); otherwise home |
| `Navigation.Navigator.constructor` | app.js:22-26 | the initial state is not navigating, with nothing pending |
| `Navigation.Navigator.Navigate` | app.js:184-196 | the new state and the started flag are those of the guarded navigation step, and the lock stays consistent with the pending timer |
| `Navigation.Navigator.Complete` | app.js:198-205 | the new state, the view rendered in place and the proposition opened are those of the timer step; it renders in place exactly when the captured fragment equalled the target, and always ends with the lock released |
| `Navigation.Navigator.ConsumeTarget` | app.js:392-395 | the pending id is always cleared, and the proposition opened is the auto-open target of the theme |
| `Navigation.Navigator.RenderCurrent` | app.js:162-172 | rendering the current fragment shows the routed view, and a theme view consumes the pending id |
| `Navigation.NavigateGuard` | app.js:184-191 | `NavigateStep`: a navigation starts exactly when the lock is free and the target differs or the proposition id is truthy; otherwise nothing changes; a started one takes the lock, records the proposition id and keeps the fragment until the timer fires |
| `Navigation.CompleteSpec` | app.js:198-205 | `FireTimer`: the timer always releases the lock and ends on the target fragment; when the target differs it moves there, renders nothing itself and keeps the pending id; otherwise it renders the current route in place, and a theme view there consumes the pending id |
| `Navigation.AtMostOneNavigation` | app.js:185 | `NavigateStep`: any sequence of calls before the timer fires starts at most one navigation; none while the lock is held |
| `Navigation.BackToBackNavigatesOnce` | app.js:184-206 | `NavigateStep`: two back-to-back calls from a free lock, the first to a new fragment or with a truthy proposition id: exactly the first navigates, with its proposition pending |
| `Navigation.ExplicitTargetWins` | app.js:392 | `AutoOpenTarget`: a given explicit proposition id, even `""`, takes precedence over the pending one, and `""` opens nothing |
| `Navigation.PendingUsedOnce` | app.js:392-395 | `RenderStep`: rendering the same fragment again shows the same view, and a theme view then opens only what its route names, so a pending id is used at most once |
| `Navigation.RenderStepPending` | app.js:392-393 | `RenderStep`: a theme render clears the pending id; a home render keeps it and opens nothing; the fragment and lock are untouched |
| `Navigation.ThemeFragmentRenders` | app.js:147-172 | `Render`: the fragment `theme/<id>` of a theme the programme has renders that theme, with no proposition named |
| `Navigation.NavigationOpensTarget` | app.js:184-206 | `NavigateStep`, `FireTimer`, `RenderStep`: navigating from another fragment to `theme/<id>` with a proposition of that theme, then the timer (which renders nothing itself), then the render on the fragment change, shows the theme, opens the proposition, clears the pending id and frees the lock |
| `Navigation.NavigationOpensTargetInPlace` | app.js:184-206 | `NavigateStep`, `FireTimer`: navigating to the current `theme/<id>` fragment with a proposition of that theme starts a navigation, and the timer renders the theme in place, opens the proposition, clears the pending id and frees the lock |
| `Lookup.FindInTheme` | app.js:70 | the first proposition with the id, or none exactly when the theme has none |
| `Lookup.FindPropIn` | app.js:68-74 | the first theme in order that owns the id, with its first such proposition; none exactly when no theme has it |
| `Lookup.FindProp` | app.js:68-74 | the loop with early return computes the first-match lookup over `themes ?? []` |
| `Lookup.RelatedChipsOrder` | app.js:451-477 | `RelatedChips`: the chips' ids follow the order of `related` and are exactly the ids that resolve |
| `Lookup.RelatedChipsCount` | app.js:451-477 | `RelatedChips`: a resolving id gets one chip for each time it occurs in `related`; any other id gets none |
| `Lookup.RelatedChipsLabels` | app.js:455-472 | `RelatedChips`, `ChipFor`, `ChipLabel`: each chip names the theme owning its proposition; its label is the bare title within the current proposition's theme and `theme → title` otherwise |
| `Lookup.NoChipsWhenNothingResolves` | app.js:452-479 | `RelatedChips`: an empty related list, or one whose ids all fail to resolve, yields no chips |
| `Search.PerformSearch` | app.js:574-588 | the loop computes the grouped filter of the themes for the lower-cased query |
| `Search.MatchingPropsSpec` | app.js:579-584 | `MatchingProps`, `PropMatches`: a theme's matches are exactly its propositions whose title, summary or detail, or its theme's title, contains the query, kept in their original order and as many times as they occur |
| `Search.ThemeTitleMatchKeepsAll` | app.js:583 | `MatchingProps`: when the theme title matches, all of its propositions are kept |
| `Search.ThemeMatchesIff` | app.js:585 | `MatchingProps`: a theme has a match exactly when its filtered list is non-empty |
| `Search.SearchGroupsSpec` | app.js:579-585 | `SearchResults`: each group holds exactly its theme's matching propositions, never none |
| `Search.SearchThemesSpec` | app.js:578-587 | `SearchResults`: the groups' themes are, in programme order, exactly the themes with a match, one group per occurrence of such a theme |
| `Search.SearchThemesCount` | app.js:585 | `SearchResults`: a theme with a match gets one group for each time it occurs in the programme; any other theme gets none |
| `Scenarios.HexToRgbExample` | app.js:33-41 | `#e92e6c` and `e92e6c` give `233,46,108`; a five-digit colour gives the fallback |
| `Scenarios.ParseHashHomeExamples` | app.js:147-159 | `""`, `theme` and `theme/` route home |
| `Scenarios.ParseHashThemeExample` | app.js:150 | `theme/environnement` routes to that theme with no proposition |
| `Scenarios.ParseHashPropExample` | app.js:151 | `theme/environnement/compost` routes to that theme with proposition `compost` |
| `Scenarios.ParseHashTrailingSlashExample` | app.js:157 | a trailing `/` gives the empty proposition id, not none |
| `Scenarios.HighlightExample` | app.js:58-65 | `Plan Mobilité 2026` highlighted on `mobilité` wraps `Mobilité` once and leaves the rest unchanged |
| `SearchScenarios.SearchVeloExample` | app.js:574-588 | searching `VÉLO` over two themes yields one group holding only the proposition whose summary holds `Vélo` |
| `SearchScenarios.RelatedSameThemeExample` | app.js:451-477 | a same-theme link and a dangling id give one chip labelled with the bare title |
| `SearchScenarios.RelatedOtherThemeExample` | app.js:463-465 | a cross-theme link is labelled `theme title → proposition title` |

## Left out

- Loading the document (`loadProgram`, app.js:80-107) is network I/O and JSON parsing. The model
  takes the parsed `Program`, or `None` before it has loaded. The error panel is not modelled.
- `initApp` and `setupSearch` (app.js:113-140, 535-571) are DOM event wiring. This includes the
  160 ms debounce. Its decision rule is not modelled: search when the trimmed query has at least 2
  characters, otherwise hide the dropdown.
- The animation, delays and layout calls are not modelled: `animateIn`, the 200 ms, 360 ms and
  2200 ms timers, `scrollIntoView`, `requestAnimationFrame`. The 200 ms navigation timer is the
  explicit `Complete` step. The 360 ms auto-open is the proposition id that `ConsumeTarget` returns.
- `openRandomProp` (app.js:296-312) depends on `Math.random`.
- `toggleProp`, `openProp` and `closeProp` (app.js:493-529) are DOM class, ARIA and height
  changes.
- Markup is not modelled: the theme and proposition cards, the home view, the search dropdown, the
  breadcrumb, the QR image and the footer. Chips are records, not HTML.
- The `meta` block of the document is display text only and is not part of `Program`.
- `TextUtil.Fold` is Unicode case mapping only on ASCII and Latin-1 capitals. See above.
- `Router.Render`: a loaded document without a `themes` list makes the source's `render` throw on a
  theme route, since app.js:167 has no `?? []` default. The model's `Program` always has a theme
  list, so this error path is not modelled.
- `TextUtil.HexToRgb`: the input is modelled as a string. JavaScript converts a missing colour to
  the text `undefined`, which also gives the fallback.
- `Router.ParseHash`: the fragment is taken as the browser reports it. Percent-encoding of the
  address is not modelled.
- `Navigation.NavigationOpensTarget`: `CompleteStep` and `FireTimer` store the target fragment as
  written. A browser percent-encodes characters outside printable ASCII (and space, `"`, `<`, `>`,
  `` ` ``) when the script assigns `location.hash`, so a theme id such as `mobilité` reads back
  encoded and the source then shows home. This lemma and `NavigationOpensTargetInPlace` are
  therefore stated only for ids made of the characters kept as written (`FragmentSafe`).
- Proposition and theme ids are not assumed unique. The lookups are first-match, as in the code.
