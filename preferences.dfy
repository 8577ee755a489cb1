/**
 * `ThemeProvider` and `SettingsProvider`: the light/dark theme and the
 * settings object with its fixed defaults. Reading and writing
 * `localStorage` is reduced to the value read at start-up.
 */
module Preferences {
  import opened Wrappers

  /** `theme === 'light' ? 'dark' : 'light'` (EnhancedContexts.js line 21). */
  function Toggled(theme: string): (r: string)
    ensures r == "light" || r == "dark"
    ensures r == "dark" <==> theme == "light"
  {
    if theme == "light" then "dark" else "light"
  }

  /** Toggling twice gives the theme back exactly when it was 'light' or 'dark'. */
  lemma ToggleTwice(theme: string)
    ensures Toggled(Toggled(theme)) == theme <==> theme == "light" || theme == "dark"
  {
  }

  /** `saved || 'light'`: the stored theme, unless there is none. */
  function InitialTheme(saved: Option<string>): (r: string)
    ensures saved.Some? && saved.value != "" ==> r == saved.value
    ensures saved.None? || saved.value == "" ==> r == "light"
  {
    if saved.Some? && saved.value != "" then saved.value else "light"
  }

  /** A setting's value: the defaults are flags and names. */
  datatype Value = Flag(b: bool) | Name(s: string)

  type Settings = map<string, Value>

  /** The defaults of lines 54-66 and 78-90. */
  function Defaults(): (r: Settings)
    ensures r.Keys == {"animations", "physics", "autoSave", "showMinimap", "soundEffects", "notifications",
                       "graphLayout", "nodeSize", "edgeStyle", "backgroundColor", "performance"}
    ensures "graphLayout" in r && r["graphLayout"] == Name("force")
    ensures forall k :: k in r && r[k].Flag? ==> (r[k].b <==> k != "soundEffects")
  {
    map[
      "animations" := Flag(true),
      "physics" := Flag(true),
      "autoSave" := Flag(true),
      "showMinimap" := Flag(true),
      "soundEffects" := Flag(false),
      "notifications" := Flag(true),
      "graphLayout" := Name("force"),
      "nodeSize" := Name("medium"),
      "edgeStyle" := Name("curved"),
      "backgroundColor" := Name("default"),
      "performance" := Name("balanced")]
  }

  /** `{...prev, [key]: value}`: the key takes the value and no other key changes. */
  function WithSetting(settings: Settings, key: string, value: Value): (r: Settings)
    ensures key in r && r[key] == value
    ensures forall k :: k != key ==> (k in r <==> k in settings)
    ensures forall k :: k != key && k in settings ==> r[k] == settings[k]
  {
    settings[key := value]
  }

  /** Setting a key twice keeps the second value; setting two different keys commutes. */
  lemma WithSettingOrder(settings: Settings, k1: string, v1: Value, k2: string, v2: Value)
    ensures k1 == k2 ==> WithSetting(WithSetting(settings, k1, v1), k2, v2) == WithSetting(settings, k2, v2)
    ensures k1 != k2 ==> WithSetting(WithSetting(settings, k1, v1), k2, v2) == WithSetting(WithSetting(settings, k2, v2), k1, v1)
  {
  }

  class ThemeStore {
    var theme: string

    /** The theme read from `localStorage` at start-up. */
    constructor(saved: Option<string>)
      ensures theme == InitialTheme(saved)
    {
      theme := if saved.Some? && saved.value != "" then saved.value else "light";
    }

    /** `toggleTheme()`. */
    method Toggle()
      modifies this
      ensures theme == Toggled(old(theme))
    {
      theme := if theme == "light" then "dark" else "light";
    }
  }

  class SettingsStore {
    var settings: Settings

    /** The settings parsed from `localStorage`, or the defaults when nothing was stored. */
    constructor(saved: Option<Settings>)
      ensures settings == if saved.Some? then saved.value else Defaults()
    {
      settings := if saved.Some? then saved.value else Defaults();
    }

    /** `updateSetting(key, value)`. */
    method Update(key: string, value: Value)
      modifies this
      ensures settings == WithSetting(old(settings), key, value)
    {
      settings := settings[key := value];
    }

    /** `resetSettings()`. */
    method Reset()
      modifies this
      ensures settings == Defaults()
    {
      settings := Defaults();
    }
  }
}
