/**
 * The theme preference controller of assets/js/main.js (lines 7-86).
 *
 * Three pieces of state are involved: the `data-theme` attribute of the
 * document element, the `theme` entry of local storage, and the operating
 * system's "prefers dark" signal. The page also holds an optional icon element
 * whose class name follows the theme. A `Page` value gathers them; the class
 * `ThemeController` holds them as fields and its methods are proved to do what
 * `Apply` says.
 */
module ThemeControl {
  import opened Wrappers

  const Dark := "dark"
  const Light := "light"
  const MoonIcon := "fas fa-moon"
  const SunIcon := "fas fa-sun"

  /** Everything the theme handlers read or write. `icon` is None when the page has no icon element. */
  datatype Page = Page(theme: string, saved: Option<string>, prefersDark: bool, icon: Option<string>)

  /** The events the controller reacts to after start-up. */
  datatype Event = Toggle | SystemChange(matches: bool)

  /**
   * A stored preference takes effect exactly when the storage read is truthy
   * in JavaScript: a missing entry (null) and the empty string both count as
   * "nothing saved".
   */
  predicate IsSaved(saved: Option<string>)
  {
    saved.Some? && saved.value != ""
  }

  /** The theme the operating system signal asks for. */
  function SystemTheme(prefersDark: bool): string
  {
    if prefersDark then Dark else Light
  }

  /** The theme chosen at start-up: saved value, else the system preference, else light. */
  function StartupTheme(saved: Option<string>, prefersDark: bool): string
  {
    if IsSaved(saved) then saved.value
    else if prefersDark then Dark
    else Light
  }

  /** The value a click on the toggle commits. */
  function ToggledTheme(current: string): (t: string)
    ensures t == Light <==> current == Dark
    ensures t == Dark <==> current != Dark
  {
    if current == Dark then Light else Dark
  }

  /** The class name `updateThemeIcon` gives the icon. */
  function IconFor(theme: string): (c: string)
    ensures c == MoonIcon <==> theme == Dark
    ensures c == SunIcon <==> theme != Dark
  {
    if theme == Dark then MoonIcon else SunIcon
  }

  /** `updateThemeIcon`: only acts when the icon element exists. */
  function UpdateIcon(icon: Option<string>, theme: string): Option<string>
  {
    if icon.Some? then Some(IconFor(theme)) else None
  }

  /** The page right after the DOMContentLoaded handler has set the theme. */
  function Load(saved: Option<string>, prefersDark: bool, icon: Option<string>): Page
  {
    var t := StartupTheme(saved, prefersDark);
    Page(t, saved, prefersDark, UpdateIcon(icon, t))
  }

  /** One event: a toggle click (with its commit), or a change of the system preference. */
  function Apply(p: Page, e: Event): Page
  {
    match e
    case Toggle =>
      var t := ToggledTheme(p.theme);
      Page(t, Some(t), p.prefersDark, UpdateIcon(p.icon, t))
    case SystemChange(matches) =>
      if !IsSaved(p.saved) then
        var t := SystemTheme(matches);
        Page(t, p.saved, matches, UpdateIcon(p.icon, t))
      else
        p.(prefersDark := matches)
  }

  /** A sequence of events applied in order. */
  function Run(p: Page, events: seq<Event>): Page
    decreases |events|
  {
    if events == [] then p else Run(Apply(p, events[0]), events[1..])
  }

  /**
   * The precedence invariant: the attribute is at every moment what start-up
   * resolution would pick from the current storage and system signal, and the
   * icon (when present) matches the attribute.
   */
  predicate Consistent(p: Page)
  {
    && p.theme == StartupTheme(p.saved, p.prefersDark)
    && (p.icon.Some? ==> p.icon.value == IconFor(p.theme))
  }

  predicate OnlySystemChanges(events: seq<Event>)
  {
    forall i :: 0 <= i < |events| ==> events[i].SystemChange?
  }

  /** Start-up resolution: the saved value wins, then the system signal, then light. */
  lemma LoadResolves(saved: Option<string>, prefersDark: bool, icon: Option<string>)
    ensures var p := Load(saved, prefersDark, icon);
      && Consistent(p)
      && (IsSaved(saved) ==> p.theme == saved.value)
      && (!IsSaved(saved) && prefersDark ==> p.theme == Dark)
      && (!IsSaved(saved) && !prefersDark ==> p.theme == Light)
      && p.saved == saved
      && (icon.Some? <==> p.icon.Some?)
  {
  }

  /** A toggle commits the same new value to the attribute and to storage, and it is saved. */
  lemma ToggleCommits(p: Page)
    ensures var q := Apply(p, Toggle);
      && q.saved == Some(q.theme)
      && IsSaved(q.saved)
      && q.theme == ToggledTheme(p.theme)
      && q.theme != p.theme
      && q.prefersDark == p.prefersDark
  {
  }

  /** Toggling twice from light or dark restores the theme. */
  lemma ToggleTwiceRestores(p: Page)
    requires p.theme == Light || p.theme == Dark
    ensures Run(p, [Toggle, Toggle]).theme == p.theme
    ensures Run(p, [Toggle, Toggle]).saved == Some(p.theme)
  {
  }

  /** A system change is obeyed exactly when nothing is saved. */
  lemma SystemChangeObeyedIffUnsaved(p: Page, matches: bool)
    ensures !IsSaved(p.saved) ==> Apply(p, SystemChange(matches)).theme == SystemTheme(matches)
    ensures IsSaved(p.saved) ==> Apply(p, SystemChange(matches)).theme == p.theme
    ensures Apply(p, SystemChange(matches)).saved == p.saved
  {
  }

  /** Every event keeps the precedence invariant. */
  lemma ApplyKeepsConsistent(p: Page, e: Event)
    requires Consistent(p)
    ensures Consistent(Apply(p, e))
  {
  }

  /** Any sequence of events keeps the precedence invariant. */
  lemma {:induction false} RunKeepsConsistent(p: Page, events: seq<Event>)
    requires Consistent(p)
    ensures Consistent(Run(p, events))
    decreases |events|
  {
    if events != [] {
      ApplyKeepsConsistent(p, events[0]);
      RunKeepsConsistent(Apply(p, events[0]), events[1..]);
    }
  }

  /** Running two sequences one after the other is running their concatenation. */
  lemma {:induction false} RunAppend(p: Page, a: seq<Event>, b: seq<Event>)
    ensures Run(p, a + b) == Run(Run(p, a), b)
    decreases |a|
  {
    if a == [] {
      assert a + b == b;
    } else {
      assert (a + b)[0] == a[0];
      assert (a + b)[1..] == a[1..] + b;
      RunAppend(Apply(p, a[0]), a[1..], b);
    }
  }

  /** Once something is saved, system changes leave the theme and the saved value alone. */
  lemma {:induction false} SavedIgnoresSystemChanges(p: Page, events: seq<Event>)
    requires IsSaved(p.saved)
    requires OnlySystemChanges(events)
    ensures Run(p, events).theme == p.theme
    ensures Run(p, events).saved == p.saved
    decreases |events|
  {
    if events != [] {
      assert events[0].SystemChange?;
      var q := Apply(p, events[0]);
      assert q.theme == p.theme && q.saved == p.saved;
      assert OnlySystemChanges(events[1..]) by {
        forall i | 0 <= i < |events[1..]| ensures events[1..][i].SystemChange? {
          assert events[1..][i] == events[i + 1];
        }
      }
      SavedIgnoresSystemChanges(q, events[1..]);
    }
  }

  /** A saved value, once present, stays saved whatever happens next. */
  lemma {:induction false} SavedStaysSaved(p: Page, events: seq<Event>)
    requires IsSaved(p.saved)
    ensures IsSaved(Run(p, events).saved)
    decreases |events|
  {
    if events != [] {
      SavedStaysSaved(Apply(p, events[0]), events[1..]);
    }
  }

  /** After any toggle, no later system change alters the theme. */
  lemma NoSystemChangeAfterToggle(p: Page, before: seq<Event>, after: seq<Event>)
    requires OnlySystemChanges(after)
    ensures Run(p, before + [Toggle] + after).theme == Run(p, before + [Toggle]).theme
  {
    var q := Run(p, before + [Toggle]);
    RunAppend(p, before, [Toggle]);
    assert q == Apply(Run(p, before), Toggle);
    RunAppend(p, before + [Toggle], after);
    SavedIgnoresSystemChanges(q, after);
  }

  /**
   * The controller as the page holds it: the `data-theme` attribute, the
   * storage entry, the last system signal seen, and the icon's class name.
   */
  class ThemeController {
    var theme: string
    var saved: Option<string>
    var prefersDark: bool
    var icon: Option<string>

    function State(): Page
      reads this
    {
      Page(theme, saved, prefersDark, icon)
    }

    ghost predicate Valid()
      reads this
    {
      Consistent(State())
    }

    /** The DOMContentLoaded start-up: read storage and the system signal, set the attribute and the icon. */
    constructor (storedTheme: Option<string>, systemPrefersDark: bool, iconClass: Option<string>)
      ensures Valid()
      ensures State() == Load(storedTheme, systemPrefersDark, iconClass)
    {
      saved := storedTheme;
      prefersDark := systemPrefersDark;
      icon := iconClass;
      if storedTheme.Some? && storedTheme.value != "" {
        theme := storedTheme.value;
      } else if systemPrefersDark {
        theme := Dark;
      } else {
        theme := Light;
      }
      new;
      UpdateThemeIcon(theme);
    }

    /** `updateThemeIcon(t)`: sets the icon's class when the icon element exists. */
    method UpdateThemeIcon(t: string)
      modifies this`icon
      ensures icon == UpdateIcon(old(icon), t)
      ensures icon.Some? ==> icon.value == IconFor(t)
    {
      if icon.Some? {
        icon := Some(if t == Dark then MoonIcon else SunIcon);
      }
    }

    /** The toggle button's click handler together with the commit it schedules. */
    method ToggleTheme()
      requires Valid()
      modifies this
      ensures Valid()
      ensures State() == Apply(old(State()), Toggle)
      ensures theme == saved.value && theme != old(theme)
    {
      var currentTheme := theme;
      var newTheme := if currentTheme == Dark then Light else Dark;
      theme := newTheme;
      saved := Some(newTheme);
      UpdateThemeIcon(newTheme);
    }

    /** The `change` listener on the prefers-color-scheme media query. */
    method OnSystemChange(matches: bool)
      requires Valid()
      modifies this
      ensures Valid()
      ensures State() == Apply(old(State()), SystemChange(matches))
      ensures IsSaved(saved) ==> theme == old(theme)
    {
      prefersDark := matches;
      if !(saved.Some? && saved.value != "") {
        var newTheme := if matches then Dark else Light;
        theme := newTheme;
        UpdateThemeIcon(newTheme);
      }
    }
  }
}
