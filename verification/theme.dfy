/** Theme preference resolution. The browser is abstracted to whether a
    window exists, the value stored under the preference key (absent when
    `localStorage.getItem` returns null) and whether the system asks for a
    dark colour scheme. Applying classes and styles to the document and
    dispatching the `theme-change` event are not modelled. */
module Theme {
  import opened Options

  /** The storage key the preference lives under. */
  const PreferenceKey: string := "theme-preference"

  datatype Env = Env(hasWindow: bool, stored: Option<string>, prefersDark: bool)

  /** The value `setTheme` stores for a mode. */
  function StoredValue(isDark: bool): string {
    if isDark then "dark" else "light"
  }

  /** `getCurrentTheme`: dark when "dark" is stored, or when nothing is
      stored and the system prefers dark; light without a window. */
  function CurrentTheme(env: Env): (dark: bool)
    ensures dark ==> env.hasWindow
    ensures env.hasWindow && env.stored.Some? ==> (dark <==> env.stored.value == "dark")
    ensures env.hasWindow && env.stored.None? ==> (dark <==> env.prefersDark)
  {
    env.hasWindow && (env.stored == Some("dark") || (env.stored == None && env.prefersDark))
  }

  /** Without a window (server-side rendering) the theme is light, whatever
      is stored or preferred. */
  lemma NoWindowIsLight(env: Env)
    requires !env.hasWindow
    ensures !CurrentTheme(env)
  {
  }

  /** A stored preference decides the theme whatever the system prefers;
      any stored value other than "dark" (an empty string included) means
      light. */
  lemma StoredPreferenceWins(env: Env, v: string)
    requires env.hasWindow && env.stored == Some(v)
    ensures CurrentTheme(env) <==> v == "dark"
    ensures CurrentTheme(env) == CurrentTheme(env.(prefersDark := !env.prefersDark))
  {
  }

  /** With nothing stored the system preference decides. */
  lemma SystemPreferenceFallback(env: Env)
    requires env.hasWindow && env.stored == None
    ensures CurrentTheme(env) == env.prefersDark
  {
  }

  /** `setTheme(isDark)`: stores "dark" or "light"; nothing without a
      window. */
  function SetTheme(env: Env, isDark: bool): (r: Env)
    ensures r.hasWindow == env.hasWindow && r.prefersDark == env.prefersDark
    ensures env.hasWindow ==> CurrentTheme(r) == isDark
    ensures env.hasWindow ==> r.stored.Some? && r.stored.value != ""
    ensures !env.hasWindow ==> r == env
  {
    if !env.hasWindow then env else env.(stored := Some(StoredValue(isDark)))
  }

  /** `toggleTheme`: sets the opposite of the current theme. */
  function ToggleTheme(env: Env): (r: Env)
    ensures env.hasWindow ==> CurrentTheme(r) == !CurrentTheme(env)
    ensures !env.hasWindow ==> r == env
  {
    SetTheme(env, !CurrentTheme(env))
  }

  /** Toggling twice gives back the theme (though the preference is now
      stored explicitly). */
  lemma ToggleTwice(env: Env)
    ensures CurrentTheme(ToggleTheme(ToggleTheme(env))) == CurrentTheme(env)
  {
  }

  /** `!localStorage.getItem(key)`: true for a missing and for an empty
      value. */
  predicate NothingStored(stored: Option<string>) {
    stored == None || stored == Some("")
  }

  /** `initializeTheme`: stores the current theme when no preference is
      stored, so that later visits do not depend on the system setting. */
  function InitializeTheme(env: Env): (r: Env)
    ensures CurrentTheme(r) == CurrentTheme(env)
    ensures r.hasWindow ==> !NothingStored(r.stored)
    ensures !NothingStored(env.stored) ==> r == env
    ensures r.hasWindow == env.hasWindow && r.prefersDark == env.prefersDark
  {
    if !env.hasWindow then env
    else if NothingStored(env.stored) then env.(stored := Some(StoredValue(CurrentTheme(env))))
    else env
  }

  /** Initializing a second time changes nothing. */
  lemma InitializeIdempotent(env: Env)
    ensures InitializeTheme(InitializeTheme(env)) == InitializeTheme(env)
  {
  }

  /** Once initialized, the theme no longer follows the system preference. */
  lemma InitializedIgnoresSystem(env: Env)
    requires env.hasWindow
    ensures var r := InitializeTheme(env);
      CurrentTheme(r) == CurrentTheme(r.(prefersDark := !r.prefersDark))
  {
  }

  /** `getThemeClasses(light, dark)`: the dark classes when the theme is
      dark and there are dark classes to use, the light ones otherwise. */
  function ThemeClasses(env: Env, lightClass: string, darkClass: string): (r: string)
    ensures r == darkClass || r == lightClass
    ensures r == darkClass && darkClass != lightClass ==> CurrentTheme(env) && darkClass != ""
    ensures CurrentTheme(env) && darkClass != "" ==> r == darkClass
  {
    if !env.hasWindow then lightClass
    else if CurrentTheme(env) && darkClass != "" then darkClass
    else lightClass
  }

  /** With a window and non-empty dark classes, toggling the theme swaps
      the classes a component gets. */
  lemma ToggleSwapsClasses(env: Env, lightClass: string, darkClass: string)
    requires env.hasWindow && darkClass != ""
    ensures ThemeClasses(ToggleTheme(env), lightClass, darkClass) == (if CurrentTheme(env) then lightClass else darkClass)
  {
  }

  /** The `storage` listener of `onThemeChange`: a change of the preference
      key fires the callback with whether the new value is "dark"; other
      keys (and `clear()`, whose key is null) are ignored. The result is
      the callback's argument, or None when it is not called. */
  function OnStorage(key: Option<string>, newValue: Option<string>): (r: Option<bool>)
    ensures r.Some? <==> key == Some(PreferenceKey)
    ensures r.Some? ==> (r.value <==> newValue == Some("dark"))
  {
    if key == Some(PreferenceKey) then Some(newValue == Some("dark")) else None
  }

  /** When another tab calls `setTheme`, the storage event it causes here
      reports the theme that tab chose, which is also what this tab now
      resolves from the shared storage. */
  lemma StorageEventFollowsSetTheme(env: Env, isDark: bool)
    requires env.hasWindow
    ensures var after := SetTheme(env, isDark);
      && OnStorage(Some(PreferenceKey), after.stored) == Some(isDark)
      && OnStorage(Some(PreferenceKey), after.stored) == Some(CurrentTheme(after))
  {
  }

  /** A removed preference (new value null) is reported as light, although
      the page would then resolve the theme from the system preference. */
  lemma StorageEventOnRemoval(env: Env)
    requires env.hasWindow && env.stored == None && env.prefersDark
    ensures OnStorage(Some(PreferenceKey), env.stored) == Some(false)
    ensures CurrentTheme(env)
  {
  }
}
