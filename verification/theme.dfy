/**
  The theme manager (`controllers/theme-manager.js`) as a record-state
  machine: the persisted choice, the current choice, the `data-theme`
  attribute and meta colour it applies, and the system's dark preference.
 */
module Theme {

  import opened Common

  const Light: string := "light"
  const Dark: string := "dark"
  const Auto: string := "auto"
  const DarkColor: string := "#1A1A1A"
  const LightColor: string := "#FFF9C4"

  /**
    `stored` is the `mawidy-theme` entry of `localStorage`; `current` is
    `currentTheme`; `dataTheme` and `metaColor` are what the document
    shows; `systemDark` is the `prefers-color-scheme: dark` query (false
    when the browser has no `matchMedia`).
   */
  datatype State = State(
    stored: Option<string>,
    current: string,
    dataTheme: Option<string>,
    metaColor: Option<string>,
    systemDark: bool)

  predicate IsTheme(theme: string)
  {
    theme == Light || theme == Dark || theme == Auto
  }

  /** `loadTheme`: the persisted value, or "auto" when nothing (or the empty string) is stored. */
  function LoadTheme(stored: Option<string>): (theme: string)
    ensures stored.Some? && stored.value != "" ==> theme == stored.value
    ensures stored.None? || stored.value == "" ==> theme == Auto
    ensures theme != ""
  {
    OrElse(if stored.Some? then stored.value else "", Auto)
  }

  /** The `data-theme` value `applyTheme` sets for a choice: "auto" follows the system, "dark" is dark, anything else is light. */
  function AppliedFor(theme: string, systemDark: bool): (shown: string)
    ensures shown == Dark <==> theme == Dark || (theme == Auto && systemDark)
    ensures shown == Dark || shown == Light
  {
    if theme == Auto then (if systemDark then Dark else Light)
    else if theme == Dark then Dark
    else Light
  }

  function ColorFor(shown: string): (color: string)
    ensures color == DarkColor <==> shown == Dark
    ensures color == DarkColor || color == LightColor
  {
    if shown == Dark then DarkColor else LightColor
  }

  /** `applyTheme`: the attribute and meta colour for a choice; nothing persisted changes. */
  function ApplyTheme(s: State, theme: string): (t: State)
    ensures t.dataTheme == Some(AppliedFor(theme, s.systemDark))
    ensures t.metaColor == Some(ColorFor(t.dataTheme.value))
    ensures t.stored == s.stored && t.current == s.current && t.systemDark == s.systemDark
  {
    var shown := AppliedFor(theme, s.systemDark);
    s.(dataTheme := Some(shown), metaColor := Some(ColorFor(shown)))
  }

  /** `saveTheme`: the persisted and current choice become `theme`; the document is untouched. */
  function SaveTheme(s: State, theme: string): (t: State)
    ensures t.stored == Some(theme) && t.current == theme
    ensures t.dataTheme == s.dataTheme && t.metaColor == s.metaColor && t.systemDark == s.systemDark
  {
    s.(stored := Some(theme), current := theme)
  }

  /** A saved non-empty choice is what the next page load reads back. */
  lemma LoadAfterSave(s: State, theme: string)
    requires theme != ""
    ensures LoadTheme(SaveTheme(s, theme).stored) == theme
  {
  }

  /** The constructor and `init`: load the choice, then apply it. */
  function Init(stored: Option<string>, dataTheme: Option<string>, metaColor: Option<string>, systemDark: bool): (s: State)
    ensures s.current == LoadTheme(stored) && s.stored == stored
    ensures Shows(s)
  {
    ApplyTheme(State(stored, LoadTheme(stored), dataTheme, metaColor, systemDark), LoadTheme(stored))
  }

  /** `setTheme`: one of the three choices is saved and applied; any other value changes nothing. */
  function SetTheme(s: State, theme: string): (t: State)
    ensures IsTheme(theme) ==> t.stored == Some(theme) && t.current == theme && t.dataTheme == Some(AppliedFor(theme, s.systemDark))
    ensures !IsTheme(theme) ==> t == s
  {
    if IsTheme(theme) then ApplyTheme(SaveTheme(s, theme), theme) else s
  }

  /** `toggleTheme`: from a dark document to light, from anything else to dark, saved and applied. */
  function ToggleTheme(s: State): (t: State)
    ensures s.dataTheme == Some(Dark) ==> t.current == Light && t.stored == Some(Light) && t.dataTheme == Some(Light)
    ensures s.dataTheme != Some(Dark) ==> t.current == Dark && t.stored == Some(Dark) && t.dataTheme == Some(Dark)
  {
    var next := if s.dataTheme == Some(Dark) then Light else Dark;
    ApplyTheme(SaveTheme(s, next), next)
  }

  /** `getAppliedTheme`: the attribute, or "light" when it is missing or empty. */
  function AppliedTheme(s: State): (shown: string)
    ensures s.dataTheme.Some? && s.dataTheme.value != "" ==> shown == s.dataTheme.value
    ensures s.dataTheme.None? || s.dataTheme.value == "" ==> shown == Light
  {
    OrElse(if s.dataTheme.Some? then s.dataTheme.value else "", Light)
  }

  /** The listener on the system preference: it re-applies only while the choice is "auto". */
  function SystemChanged(s: State, systemDark: bool): (t: State)
    ensures t.systemDark == systemDark && t.stored == s.stored && t.current == s.current
    ensures s.current == Auto ==> t.dataTheme == Some(if systemDark then Dark else Light)
    ensures s.current != Auto ==> t.dataTheme == s.dataTheme && t.metaColor == s.metaColor
  {
    var u := s.(systemDark := systemDark);
    if s.current == Auto then ApplyTheme(u, Auto) else u
  }

  /** Toggling twice gives back the applied theme exactly when it was one of "light" and "dark". */
  lemma ToggleTwice(s: State)
    ensures AppliedTheme(ToggleTheme(ToggleTheme(s))) == AppliedTheme(s) <==>
      AppliedTheme(s) == Light || AppliedTheme(s) == Dark
  {
  }

  /**
    The document shows what the current choice means under the current
    system preference, with the matching meta colour.
   */
  predicate Shows(s: State)
  {
    s.dataTheme == Some(AppliedFor(s.current, s.systemDark)) && s.metaColor == Some(ColorFor(s.dataTheme.value))
  }

  /** Every operation after `init` keeps the document in step with the choice. */
  lemma ShowsPreserved(s: State, theme: string, systemDark: bool)
    requires Shows(s)
    ensures Shows(SetTheme(s, theme))
    ensures Shows(ToggleTheme(s))
    ensures Shows(SystemChanged(s, systemDark))
  {
  }

  /** Under the invariant, the applied theme is the choice when it is "light" or "dark", and the system's when it is "auto". */
  lemma AppliedThemeOfChoice(s: State)
    requires Shows(s)
    ensures s.current == Dark ==> AppliedTheme(s) == Dark
    ensures s.current == Auto ==> AppliedTheme(s) == (if s.systemDark then Dark else Light)
    ensures s.current != Dark && s.current != Auto ==> AppliedTheme(s) == Light
  {
  }
}
