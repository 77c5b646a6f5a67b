/**
 * The hash router (app.js, section 5): the fragment of the address, without
 * its leading `#`, parsed into a route, and the view `render` picks for it.
 */
module Router {
  import opened Wrappers
  import opened Strings
  import opened Document

  datatype Route = HomeRoute | ThemeRoute(themeId: string, propId: Option<string>)

  /**
   * `parseHash()`: the fragment split on `/`; a first piece `theme` and a
   * non-empty second piece give a theme route whose proposition is the third
   * piece, if there is one. Pieces after the third are ignored.
   */
  function ParseHash(fragment: string): (r: Route)
    ensures r.ThemeRoute? ==> r.themeId != "" && '/' !in r.themeId
    ensures r.ThemeRoute? && r.propId.Some? ==> '/' !in r.propId.value
  {
    var parts := Split(fragment, '/');
    if parts[0] == "theme" && |parts| > 1 && parts[1] != "" then
      ThemeRoute(parts[1], if |parts| > 2 then Some(parts[2]) else None)
    else
      HomeRoute
  }

  /** The fragment the site writes for a route: "", `theme/<id>` or `theme/<id>/<propId>`. */
  function RouteHash(r: Route): string
  {
    match r
    case HomeRoute => ""
    case ThemeRoute(t, None) => "theme/" + t
    case ThemeRoute(t, Some(p)) => "theme/" + t + "/" + p
  }

  /** A route whose identifiers can stand in a fragment: a non-empty theme id, no `/` in either id. */
  predicate WellFormed(r: Route)
  {
    r.ThemeRoute? ==> r.themeId != "" && '/' !in r.themeId && (r.propId.Some? ==> '/' !in r.propId.value)
  }

  /** Parsing the fragment of a route gives the route back; so `""` is home. */
  lemma ParseRouteHash(r: Route)
    requires WellFormed(r)
    ensures ParseHash(RouteHash(r)) == r
  {
    match r
    case HomeRoute =>
      assert Split("", '/') == [""];
    case ThemeRoute(t, None) =>
      var parts := ["theme", t];
      assert parts[1..] == [t];
      assert Join(parts, '/') == RouteHash(r);
      SplitJoin(parts, '/');
    case ThemeRoute(t, Some(p)) =>
      var parts := ["theme", t, p];
      assert parts[1..] == [t, p];
      assert parts[1..][1..] == [p];
      assert Join(parts[1..], '/') == t + ['/'] + p;
      assert Join(parts, '/') == "theme" + ['/'] + (t + ['/'] + p);
      assert Join(parts, '/') == RouteHash(r);
      SplitJoin(parts, '/');
  }

  /** Pieces after the proposition id are ignored. */
  lemma ParseHashIgnoresTail(t: string, p: string, rest: string)
    requires WellFormed(ThemeRoute(t, Some(p)))
    ensures ParseHash(RouteHash(ThemeRoute(t, Some(p))) + "/" + rest) == ThemeRoute(t, Some(p))
  {
    var f := RouteHash(ThemeRoute(t, Some(p))) + "/" + rest;
    assert f == "theme" + ['/'] + (t + ['/'] + (p + ['/'] + rest));
    SplitPrefix(p, rest, '/');
    SplitPrefix(t, p + ['/'] + rest, '/');
    SplitPrefix("theme", t + ['/'] + (p + ['/'] + rest), '/');
    var parts := Split(f, '/');
    assert parts == ["theme", t, p] + Split(rest, '/');
  }

  /** A piece-list holds its first piece at the front of its join. */
  lemma {:induction false} JoinStartsWith(parts: seq<string>, sep: char)
    requires |parts| >= 1
    ensures parts[0] <= Join(parts, sep)
  {
  }

  /**
   * A fragment parses to a theme route exactly when it starts with `theme/`
   * and the next character is present and is not `/`; every other fragment,
   * among them "", `theme` and `theme/`, parses to home.
   */
  lemma ParseHashThemeIff(f: string)
    ensures ParseHash(f).ThemeRoute? <==> |f| > 6 && "theme/" <= f && f[6] != '/'
  {
    var parts := Split(f, '/');
    if ParseHash(f).ThemeRoute? {
      var tail := Join(parts[1..], '/');
      assert f == parts[0] + ['/'] + tail;
      JoinStartsWith(parts[1..], '/');
      assert parts[1][0] == tail[0];
      assert f[..6] == "theme/";
    }
    if |f| > 6 && "theme/" <= f && f[6] != '/' {
      var w := f[6..];
      assert f == "theme" + ['/'] + w;
      SplitPrefix("theme", w, '/');
      assert parts == ["theme"] + Split(w, '/');
      assert w == [w[0]] + w[1..];
      assert Split(w, '/')[0] == [w[0]] + Split(w[1..], '/')[0];
    }
  }

  /** What the root content region shows: nothing before the document is loaded, the home grid, or one theme. */
  datatype View = NotLoaded | HomeView | ThemeView(theme: Theme, propIdToOpen: Option<string>)

  /** `themes` has a theme with identifier `id` at index `i` and none before it. */
  ghost predicate FirstThemeAt(themes: seq<Theme>, id: string, i: int)
  {
    0 <= i < |themes| && themes[i].id == id && forall k :: 0 <= k < i ==> themes[k].id != id
  }

  /** `themes.find(t => t.id === id)`. */
  function FindTheme(themes: seq<Theme>, id: string): (r: Option<Theme>)
    ensures r.None? <==> forall i :: 0 <= i < |themes| ==> themes[i].id != id
    ensures r.Some? ==> exists i :: FirstThemeAt(themes, id, i) && themes[i] == r.value
  {
    if themes == [] then None
    else if themes[0].id == id then
      assert FirstThemeAt(themes, id, 0);
      Some(themes[0])
    else
      var r := FindTheme(themes[1..], id);
      assert r.Some? ==> exists i :: FirstThemeAt(themes, id, i) && themes[i] == r.value by {
        if r.Some? {
          var i :| FirstThemeAt(themes[1..], id, i) && themes[1..][i] == r.value;
          assert FirstThemeAt(themes, id, i + 1);
        }
      }
      r
  }

  /** `render()`: the view for `fragment` once `program` is loaded. */
  function Render(program: Option<Program>, fragment: string): View
  {
    if program.None? then NotLoaded
    else
      match ParseHash(fragment)
      case HomeRoute => HomeView
      case ThemeRoute(id, propId) =>
        match FindTheme(program.value.themes, id)
        case Some(t) => ThemeView(t, propId)
        case None => HomeView
  }

  /**
   * `render` shows a theme exactly when the fragment names a theme that the
   * program has, and then the first such theme with the fragment's proposition
   * id; any other fragment of a loaded program shows home.
   */
  lemma RenderSpec(program: Option<Program>, fragment: string)
    ensures Render(program, fragment).NotLoaded? <==> program.None?
    ensures var v, route := Render(program, fragment), ParseHash(fragment);
            v.ThemeView? <==>
              program.Some? && route.ThemeRoute? &&
              exists i :: 0 <= i < |program.value.themes| && program.value.themes[i].id == route.themeId
    ensures var v, route := Render(program, fragment), ParseHash(fragment);
            v.ThemeView? ==>
              route.ThemeRoute? && v.propIdToOpen == route.propId &&
              exists i :: FirstThemeAt(program.value.themes, route.themeId, i) && program.value.themes[i] == v.theme
  {
  }

}
