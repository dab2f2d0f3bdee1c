/**
 * The tri-state theme toggle: a preference that is `light`, `dark` or `auto`
 * (or, because storage and storage events are not validated, any other
 * string), persisted under one storage key, and a single `dark-mode` flag on
 * the document root that follows the preference, with `auto` resolved
 * against the operating system's colour-scheme preference.
 *
 * Browser reads are parameters: `systemDark` is the answer of the
 * `(prefers-color-scheme: dark)` media query at the moment of the call, and
 * the persisted value is an `Option<string>` (absent = `None`).
 */
module DarkMode {
  import opened Wrappers

  const StorageKey: string := "theme-preference"

  /** The known theme names, in the script's cycling order. */
  const Names: seq<string> := ["light", "dark", "auto"]

  datatype Theme = Light | Dark | Auto | Other(name: string)

  /** An `Other` never spells one of the known names, so that comparing
      themes agrees with comparing the strings the script compares. */
  predicate Canonical(t: Theme) {
    t.Other? ==> t.name !in Names
  }

  /** The value the script keeps in `currentTheme`. */
  type Preference = t: Theme | Canonical(t) witness Light

  /** The string the script holds for a theme. */
  function Name(t: Theme): string {
    match t
    case Light => "light"
    case Dark => "dark"
    case Auto => "auto"
    case Other(s) => s
  }

  /** Reads a string as a theme; every string is accepted. */
  function Parse(s: string): (t: Preference)
    ensures Name(t) == s
    ensures t.Other? <==> s !in Names
  {
    if s == "light" then Light
    else if s == "dark" then Dark
    else if s == "auto" then Auto
    else Other(s)
  }

  /** The page state the script maintains: its preference, the persisted
      value, and whether the root carries the `dark-mode` class. */
  datatype Page = Page(current: Preference, stored: Option<string>, darkFlag: bool)

  /** What the operating system prefers. */
  function SystemPreference(systemDark: bool): (t: Theme)
    ensures t == Dark <==> systemDark
    ensures t == Light <==> !systemDark
  {
    if systemDark then Dark else Light
  }

  /** The theme actually shown: `auto` becomes the system preference. */
  function Effective(t: Preference, systemDark: bool): (e: Theme)
    ensures t == Auto ==> (e == Light || e == Dark) && (e == Dark <==> systemDark)
    ensures t != Auto ==> e == t
  {
    if t == Auto then SystemPreference(systemDark) else t
  }

  /** The flag agrees with the preference under the given system preference. */
  predicate Consistent(p: Page, systemDark: bool) {
    p.darkFlag == (Effective(p.current, systemDark) == Dark)
  }

  /** `applyTheme(currentTheme)`: sets or clears the `dark-mode` flag. */
  function Render(p: Page, systemDark: bool): (r: Page)
    ensures r.current == p.current && r.stored == p.stored
    ensures r.darkFlag <==> (p.current == Dark || (p.current == Auto && systemDark))
    ensures Consistent(r, systemDark)
  {
    p.(darkFlag := Effective(p.current, systemDark) == Dark)
  }

  /** The preference read when the script loads: the stored string, or
      `auto` when nothing (or the empty string) is stored. */
  function Load(stored: Option<string>): (t: Preference)
    ensures stored.None? || stored.value == "" ==> t == Auto
    ensures stored.Some? && stored.value != "" ==> Name(t) == stored.value
  {
    match stored
    case Some(s) => if s != "" then Parse(s) else Auto
    case None => Auto
  }

  /** Loading the preference and applying it once the document is ready. */
  function Init(stored: Option<string>, systemDark: bool): (p: Page)
    ensures p.current == Load(stored) && p.stored == stored
    ensures Consistent(p, systemDark)
  {
    Render(Page(Load(stored), stored, false), systemDark)
  }

  /** Position of `x` in `xs`, or -1 when absent (`Array.prototype.indexOf`). */
  function IndexOf(xs: seq<string>, x: string): (i: int)
    ensures -1 <= i < |xs|
    ensures i == -1 <==> x !in xs
    ensures 0 <= i ==> xs[i] == x && forall j :: 0 <= j < i ==> xs[j] != x
  {
    if xs == [] then -1
    else if xs[0] == x then 0
    else
      var k := IndexOf(xs[1..], x);
      if k == -1 then -1 else k + 1
  }

  /** The theme `cycleTheme` moves to. The index is at least -1, so the
      remainder is taken of a non-negative number and JavaScript's `%`
      agrees with Dafny's. */
  function Next(t: Preference): (n: Preference)
    ensures t == Light ==> n == Dark
    ensures t == Dark ==> n == Auto
    ensures t == Auto ==> n == Light
    ensures t.Other? ==> n == Light
  {
    var i := IndexOf(Names, Name(t));
    Parse(Names[(i + 1) % |Names|])
  }

  /** `cycleTheme`: advance, persist the new name, re-apply. */
  function Cycle(p: Page, systemDark: bool): (r: Page)
    ensures r.current == Next(p.current)
    ensures r.stored == Some(Name(r.current))
    ensures r.current in {Light, Dark, Auto}
    ensures Consistent(r, systemDark)
  {
    var n := Next(p.current);
    Render(Page(n, Some(Name(n)), p.darkFlag), systemDark)
  }

  /** `themeManager.get`: the preference the script holds, which is not
      re-read from storage. */
  function Get(p: Page): (t: Preference)
    ensures t == p.current
  {
    p.current
  }

  /** `themeManager.set`: only a known name is adopted, persisted and
      applied; anything else is ignored. */
  function Set(p: Page, value: string, systemDark: bool): (r: Page)
    ensures value in Names ==> Name(r.current) == value && r.stored == Some(value) && Consistent(r, systemDark)
    ensures value !in Names ==> r == p
  {
    if value in Names then Render(Page(Parse(value), Some(value), p.darkFlag), systemDark)
    else p
  }

  /** The listener on the colour-scheme media query; `systemDark` is the new
      system preference. Only an `auto` page is re-applied. */
  function OnSystemChange(p: Page, systemDark: bool): (r: Page)
    ensures p.current != Auto ==> r == p
    ensures p.current == Auto ==> r.current == Auto && r.stored == p.stored && (r.darkFlag <==> systemDark)
  {
    if p.current == Auto then Render(p, systemDark) else p
  }

  /** A `storage` event: the key that changed (absent when storage was
      cleared) and its new value (absent when it was removed). */
  datatype StorageEvent = StorageEvent(key: Option<string>, newValue: Option<string>)

  /** The `storage` handler: a non-empty new value under the theme key is
      adopted as it is, without validation, and applied. The handler does not
      write storage itself, so `stored` is left as it was. */
  function OnStorage(p: Page, e: StorageEvent, systemDark: bool): (r: Page)
    ensures e.key == Some(StorageKey) && e.newValue.Some? && e.newValue.value != "" ==>
      Name(r.current) == e.newValue.value && r.stored == p.stored && Consistent(r, systemDark)
    ensures !(e.key == Some(StorageKey) && e.newValue.Some? && e.newValue.value != "") ==> r == p
  {
    if e.key == Some(StorageKey) && e.newValue.Some? && e.newValue.value != "" then
      Render(p.(current := Parse(e.newValue.value)), systemDark)
    else p
  }
}
