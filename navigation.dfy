/**
 * The navigation controller (app.js, sections 1, 6 and the pending-target
 * block of section 8): the re-entrancy lock `navigating`, the proposition
 * `pendingPropId` to open after a navigation, and the address fragment.
 * The 200 ms fade-out timer is an explicit completion step.
 */
module Navigation {
  import opened Wrappers
  import opened Document
  import opened Router

  /** The timer a navigation starts, with the fragment it captured and the fragment it goes to. */
  datatype Transition = Idle | Fading(from: string, to: string)

  /** The controller's state: the current fragment, the lock, the pending proposition and the pending timer. */
  datatype NavState = NavState(hash: string, navigating: bool, pendingPropId: Option<string>, transition: Transition)

  /** The lock is held exactly while a fade-out timer is pending. */
  predicate Consistent(s: NavState)
  {
    s.navigating <==> s.transition.Fading?
  }

  /** JavaScript truthiness of an optional string: present and not empty. */
  predicate Truthy(v: Option<string>)
  {
    v.Some? && v.value != ""
  }

  /** `navigateTo(hash, propId)`: the new state, and whether a navigation started. */
  function NavigateStep(s: NavState, hash: string, propId: Option<string>): (NavState, bool)
  {
    if s.navigating then (s, false)
    else if s.hash == hash && !Truthy(propId) then (s, false)
    else (s.(navigating := true, pendingPropId := propId, transition := Fading(s.hash, hash)), true)
  }

  /** The timer callback: render in place when the captured fragment is the target, else move to the target; then unlock. */
  function CompleteStep(s: NavState): NavState
    requires s.transition.Fading?
  {
    var hash := if s.transition.from == s.transition.to then s.hash else s.transition.to;
    s.(hash := hash, navigating := false, transition := Idle)
  }

  /**
   * The pending-target block of `renderThemeView(theme, explicit)`: the target
   * is `explicit ?? pending`, and it is opened only when it is truthy and is
   * the id of one of the theme's propositions.
   */
  function AutoOpenTarget(theme: Theme, explicit: Option<string>, pending: Option<string>): Option<string>
  {
    var target := if explicit.Some? then explicit else pending;
    if Truthy(target) && HasPropId(theme.propositions, target.value) then target else None
  }

  /** `render()` on the current fragment, with `renderThemeView` consuming the pending proposition. */
  function RenderStep(s: NavState, program: Option<Program>): (NavState, View, Option<string>)
  {
    var v := Render(program, s.hash);
    if v.ThemeView? then
      (s.(pendingPropId := None), v, AutoOpenTarget(v.theme, v.propIdToOpen, s.pendingPropId))
    else
      (s, v, None)
  }

  /**
   * The whole timer callback: when the captured fragment is the target it
   * calls `render()` in place (shown as `Some(view)`), otherwise it writes the
   * target fragment and leaves rendering to the `hashchange` event (`None`);
   * in both cases it then releases the lock.
   */
  function FireTimer(s: NavState, program: Option<Program>): (NavState, Option<View>, Option<string>)
    requires s.transition.Fading?
  {
    if s.transition.from == s.transition.to then
      var (s1, v, open) := RenderStep(s, program);
      (s1.(navigating := false, transition := Idle), Some(v), open)
    else
      (CompleteStep(s), None, None)
  }

  /**
   * The characters a fragment keeps as written when it is assigned to
   * `location.hash`: printable ASCII other than space, `"`, `<`, `>` and the
   * backquote. The browser percent-encodes every other character, so a
   * fragment written with one of them reads back differently.
   */
  predicate FragmentSafe(f: string)
  {
    forall k :: 0 <= k < |f| ==> '!' <= f[k] <= '~' && f[k] !in "\"<>`"
  }

  class Navigator {
    var hash: string
    var navigating: bool
    var pendingPropId: Option<string>
    var transition: Transition

    function State(): NavState
      reads this
    {
      NavState(hash, navigating, pendingPropId, transition)
    }

    ghost predicate Valid()
      reads this
    {
      Consistent(State())
    }

    /** The state at page load: not navigating, nothing pending. */
    constructor (initialHash: string)
      ensures Valid() && State() == NavState(initialHash, false, None, Idle)
    {
      hash := initialHash;
      navigating := false;
      pendingPropId := None;
      transition := Idle;
    }

    /** `navigateTo(h, propId)`: guarded by the lock and by the same-fragment short-circuit. */
    method Navigate(h: string, propId: Option<string>) returns (started: bool)
      requires Valid()
      modifies this
      ensures Valid()
      ensures (State(), started) == NavigateStep(old(State()), h, propId)
    {
      if navigating {
        return false;
      }
      var currentHash := hash;
      if currentHash == h && !(propId.Some? && propId.value != "") {
        return false;
      }
      navigating := true;
      pendingPropId := propId;
      transition := Fading(currentHash, h);
      return true;
    }

    /**
     * The end of the fade-out timer: `render()` in place when the captured
     * fragment is the target, otherwise a move to the target fragment; then
     * the lock is released. `shown` is the view rendered in place, if any.
     */
    method Complete(program: Option<Program>) returns (shown: Option<View>, open: Option<string>)
      requires Valid() && navigating
      modifies this
      ensures Valid() && !navigating
      ensures shown.Some? <==> old(transition).from == old(transition).to
      ensures (State(), shown, open) == FireTimer(old(State()), program)
    {
      if transition.from == transition.to {
        var v;
        v, open := RenderCurrent(program);
        shown := Some(v);
      } else {
        hash := transition.to;
        shown, open := None, None;
      }
      navigating := false;
      transition := Idle;
    }

    /** `renderThemeView`'s consumption of the pending proposition: it is always cleared. */
    method ConsumeTarget(theme: Theme, explicit: Option<string>) returns (open: Option<string>)
      modifies this`pendingPropId
      ensures pendingPropId == None
      ensures open == AutoOpenTarget(theme, explicit, old(pendingPropId))
    {
      var targetId := if explicit.Some? then explicit else pendingPropId;
      pendingPropId := None;
      if targetId.Some? && targetId.value != "" && HasPropId(theme.propositions, targetId.value) {
        open := targetId;
      } else {
        open := None;
      }
    }

    /** `render()` on the current fragment: the view shown and the proposition scheduled to open. */
    method RenderCurrent(program: Option<Program>) returns (v: View, open: Option<string>)
      modifies this`pendingPropId
      ensures (State(), v, open) == RenderStep(old(State()), program)
    {
      v := Render(program, hash);
      open := None;
      if v.ThemeView? {
        open := ConsumeTarget(v.theme, v.propIdToOpen);
      }
    }
  }

  /**
   * `navigateTo` changes nothing while the lock is held, nor when the target is
   * the current fragment and `propId` is falsy; otherwise it takes the lock,
   * records `propId` as pending and leaves the fragment as it is until the
   * timer fires.
   */
  lemma NavigateGuard(s: NavState, hash: string, propId: Option<string>)
    requires Consistent(s)
    ensures var (s', started) := NavigateStep(s, hash, propId);
            Consistent(s') &&
            (started <==> !s.navigating && (s.hash != hash || Truthy(propId))) &&
            (!started ==> s' == s) &&
            (started ==> s'.navigating && s'.pendingPropId == propId && s'.hash == s.hash &&
                         s'.transition == Fading(s.hash, hash))
  {
  }

  /**
   * The timer callback always releases the lock and ends on the target
   * fragment. When the target differs from the fragment the navigation started
   * from, it moves there, renders nothing itself and keeps the pending
   * proposition for the render the fragment change triggers. Otherwise the
   * fragment stays and the callback renders it in place, which consumes the
   * pending proposition when a theme is shown.
   */
  lemma CompleteSpec(s: NavState, program: Option<Program>)
    requires Consistent(s) && s.navigating && s.transition.from == s.hash
    ensures var (s', shown, open) := FireTimer(s, program);
            Consistent(s') && !s'.navigating && s'.hash == s.transition.to &&
            (s.transition.from != s.transition.to ==>
               s'.hash != s.hash && s'.pendingPropId == s.pendingPropId && shown == None && open == None) &&
            (s.transition.from == s.transition.to ==>
               shown == Some(Render(program, s.hash)) &&
               (shown.value.ThemeView? ==> s'.pendingPropId == None) &&
               (!shown.value.ThemeView? ==> s'.pendingPropId == s.pendingPropId && open == None))
  {
  }

  /** One `navigateTo` call, as an event. */
  datatype Call = Call(hash: string, propId: Option<string>)

  /** `calls` issued one after the other with no timer firing in between: the final state and how many started. */
  function RunCalls(s: NavState, calls: seq<Call>): (NavState, nat)
    decreases |calls|
  {
    if calls == [] then (s, 0)
    else
      var (s1, started) := NavigateStep(s, calls[0].hash, calls[0].propId);
      var (s2, n) := RunCalls(s1, calls[1..]);
      (s2, n + (if started then 1 else 0))
  }

  /**
   * Before the timer fires, at most one of any number of back-to-back
   * `navigateTo` calls takes effect: the first one that passes the guard.
   * When the lock is already held, none does.
   */
  lemma {:induction false} AtMostOneNavigation(s: NavState, calls: seq<Call>)
    requires Consistent(s)
    ensures RunCalls(s, calls).1 <= 1
    ensures s.navigating ==> RunCalls(s, calls) == (s, 0)
    decreases |calls|
  {
    if calls != [] {
      var (s1, started) := NavigateStep(s, calls[0].hash, calls[0].propId);
      AtMostOneNavigation(s1, calls[1..]);
      if started {
        assert s1.navigating;
      } else {
        assert s1 == s;
      }
    }
  }

  /**
   * Two calls back to back from a free lock, the first to a new fragment or
   * with a proposition to open: exactly the first one navigates.
   */
  lemma {:induction false} BackToBackNavigatesOnce(s: NavState, first: Call, second: Call)
    requires Consistent(s) && !s.navigating && (first.hash != s.hash || Truthy(first.propId))
    ensures RunCalls(s, [first, second]).1 == 1
    ensures RunCalls(s, [first, second]).0.transition == Fading(s.hash, first.hash)
    ensures RunCalls(s, [first, second]).0.pendingPropId == first.propId
  {
    var s1 := NavigateStep(s, first.hash, first.propId).0;
    assert [first, second][1..] == [second];
    assert [second][1..] == [];
    AtMostOneNavigation(s1, [second]);
  }

  /** A given explicit id wins over the pending one, even when it is empty: `""` opens nothing. */
  lemma ExplicitTargetWins(theme: Theme, explicit: string, pending: Option<string>)
    ensures AutoOpenTarget(theme, Some(explicit), pending) == AutoOpenTarget(theme, Some(explicit), None)
    ensures explicit == "" ==> AutoOpenTarget(theme, Some(explicit), pending) == None
  {
  }

  /**
   * The pending proposition is used at most once: rendering the same fragment
   * again shows the same view, and a theme view then opens only what its own
   * route names, whatever was pending before the first render.
   */
  lemma PendingUsedOnce(s: NavState, program: Option<Program>)
    ensures var (s1, v1, open1) := RenderStep(s, program);
            var (s2, v2, open2) := RenderStep(s1, program);
            v2 == v1 &&
            (v1.ThemeView? ==> s2.pendingPropId == None && open2 == AutoOpenTarget(v1.theme, v1.propIdToOpen, None))
  {
    var (s1, v1, open1) := RenderStep(s, program);
    assert s1.hash == s.hash;
  }

  /** Rendering always clears the pending proposition when it shows a theme and keeps it otherwise. */
  lemma RenderStepPending(s: NavState, program: Option<Program>)
    ensures var (s', v, open) := RenderStep(s, program);
            s'.hash == s.hash && s'.navigating == s.navigating && s'.transition == s.transition &&
            (v.ThemeView? ==> s'.pendingPropId == None) &&
            (!v.ThemeView? ==> s'.pendingPropId == s.pendingPropId && open == None)
  {
  }

  /**
   * A cross-link or search result: navigating to `theme/<id>` with a pending
   * proposition of that theme, then letting the timer fire and the router
   * render, shows that theme, opens that proposition, clears the pending id and
   * releases the lock.
   */
  /** The fragment of theme `i`, written by the site, routes back to theme `i`. */
  lemma {:induction false} ThemeFragmentRenders(program: Program, i: nat)
    requires i < |program.themes|
    requires FirstThemeAt(program.themes, program.themes[i].id, i)
    requires WellFormed(ThemeRoute(program.themes[i].id, None))
    ensures Render(Some(program), RouteHash(ThemeRoute(program.themes[i].id, None))) == ThemeView(program.themes[i], None)
  {
    var theme := program.themes[i];
    ParseRouteHash(ThemeRoute(theme.id, None));
    var found := FindTheme(program.themes, theme.id);
    assert found == Some(theme) by {
      var k :| FirstThemeAt(program.themes, theme.id, k) && program.themes[k] == found.value;
      assert k == i;
    }
  }

  /**
   * A cross-link or search result to another page: navigating to
   * `theme/<id>` with a pending proposition of that theme, then letting the
   * timer fire (which moves the fragment) and the router render on the
   * fragment change, shows that theme, opens that proposition, clears the
   * pending id and releases the lock. The theme id must be one the browser
   * keeps as written in the fragment.
   */
  lemma {:induction false} NavigationOpensTarget(s: NavState, program: Program, i: nat, propId: string)
    requires Consistent(s) && !s.navigating
    requires i < |program.themes|
    requires FirstThemeAt(program.themes, program.themes[i].id, i)
    requires WellFormed(ThemeRoute(program.themes[i].id, None)) && FragmentSafe(program.themes[i].id)
    requires propId != "" && HasPropId(program.themes[i].propositions, propId)
    requires s.hash != RouteHash(ThemeRoute(program.themes[i].id, None))
    ensures var target := RouteHash(ThemeRoute(program.themes[i].id, None));
            var (s1, started) := NavigateStep(s, target, Some(propId));
            var (s2, shown, open1) := FireTimer(s1, Some(program));
            var (s3, v, open) := RenderStep(s2, Some(program));
            started && s2.hash == target && shown == None &&
            v == ThemeView(program.themes[i], None) && open == Some(propId) &&
            s3.pendingPropId == None && !s3.navigating
  {
    ThemeFragmentRenders(program, i);
  }

  /**
   * The same link followed from the page it points to: the fragment does not
   * change, so the timer renders in place, opens the proposition, clears the
   * pending id and releases the lock. Only a theme id the browser keeps as
   * written can be the fragment it reports.
   */
  lemma {:induction false} NavigationOpensTargetInPlace(s: NavState, program: Program, i: nat, propId: string)
    requires Consistent(s) && !s.navigating
    requires i < |program.themes|
    requires FirstThemeAt(program.themes, program.themes[i].id, i)
    requires WellFormed(ThemeRoute(program.themes[i].id, None)) && FragmentSafe(program.themes[i].id)
    requires propId != "" && HasPropId(program.themes[i].propositions, propId)
    requires s.hash == RouteHash(ThemeRoute(program.themes[i].id, None))
    ensures var (s1, started) := NavigateStep(s, s.hash, Some(propId));
            var (s2, shown, open) := FireTimer(s1, Some(program));
            started && s2.hash == s.hash &&
            shown == Some(ThemeView(program.themes[i], None)) && open == Some(propId) &&
            s2.pendingPropId == None && !s2.navigating
  {
    ThemeFragmentRenders(program, i);
  }

}
