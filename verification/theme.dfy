/**
 Theme switching. The document's `data-theme` attribute drives the styling.
 The value stored under the key "theme" in local storage is the only state
 that survives a reload. Storage is modelled as an optional string: `None`
 when no value is stored.
 */
module Theme {

  datatype Option<T> = None | Some(value: T)

  /** The `data-theme` attribute and the stored "theme" value. */
  datatype ThemeState = ThemeState(attribute: string, stored: Option<string>)

  const Dark: string := "dark"
  const Light: string := "light"

  /** The stored value equals the attribute. */
  predicate Persisted(t: ThemeState) {
    t.stored == Some(t.attribute)
  }

  /**
   Start-up: `getItem('theme') || 'dark'`. A missing value and an empty
   string both fall back to "dark". Start-up only reads storage.
   */
  function InitTheme(stored: Option<string>): (r: ThemeState)
    ensures r.stored == stored
    ensures r.attribute != ""
    ensures stored.Some? && stored.value != "" ==> r.attribute == stored.value
    ensures stored == None || stored == Some("") ==> r.attribute == Dark
  {
    match stored
    case Some(s) => if s != "" then ThemeState(s, stored) else ThemeState(Dark, stored)
    case None => ThemeState(Dark, stored)
  }

  /**
   `toggleTheme`: "dark" becomes "light" and any other attribute becomes
   "dark". The new value is written to the attribute and to storage.
   */
  function ToggleTheme(t: ThemeState): (r: ThemeState)
    ensures Persisted(r)
    ensures r.attribute == Dark || r.attribute == Light
    ensures t.attribute == Dark ==> r.attribute == Light
    ensures t.attribute != Dark ==> r.attribute == Dark
  {
    var next := if t.attribute == Dark then Light else Dark;
    ThemeState(next, Some(next))
  }

  /** The state after `n` clicks on the theme button. */
  function ToggleThemeTimes(t: ThemeState, n: nat): (r: ThemeState)
    ensures n == 0 ==> r == t
    ensures n >= 1 ==> Persisted(r) && (r.attribute == Dark || r.attribute == Light)
  {
    if n == 0 then t else ToggleTheme(ToggleThemeTimes(t, n - 1))
  }

  /** Starting from "dark" or "light", two toggles bring the attribute back. */
  lemma TwoTogglesRestore(t: ThemeState)
    requires t.attribute == Dark || t.attribute == Light
    ensures ToggleTheme(ToggleTheme(t)).attribute == t.attribute
    ensures Persisted(t) ==> ToggleTheme(ToggleTheme(t)) == t
  {
  }

  /**
   After one or more clicks the attribute strictly alternates and storage
   agrees with it. From "dark" the odd clicks give "light". From any other
   value, including an unexpected stored one, the odd clicks give "dark".
   */
  lemma {:induction false} ThemeAlternates(t: ThemeState, n: nat)
    requires n >= 1
    ensures Persisted(ToggleThemeTimes(t, n))
    ensures ToggleThemeTimes(t, n).attribute ==
      if (t.attribute == Dark) == (n % 2 == 1) then Light else Dark
  {
    if n > 1 {
      ThemeAlternates(t, n - 1);
    }
  }

  /** A reload after any click shows the theme the page showed before it. */
  lemma ReloadRestoresTheme(t: ThemeState, n: nat)
    requires n >= 1
    ensures InitTheme(ToggleThemeTimes(t, n).stored) == ToggleThemeTimes(t, n)
  {
    ThemeAlternates(t, n);
  }

  /** On a first visit with nothing stored, the page starts dark. */
  lemma FreshLoadIsDark()
    ensures InitTheme(None).attribute == Dark
    ensures ToggleTheme(InitTheme(None)) == ThemeState(Light, Some(Light))
  {
  }
}
