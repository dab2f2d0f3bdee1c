/** Properties of the theme toggle that relate several operations. */
module DarkModeProps {
  import opened Wrappers
  import opened DarkMode

  /** Names and preferences correspond one to one. */
  lemma NameParseRoundTrip(t: Preference, s: string)
    ensures Parse(Name(t)) == t
    ensures Name(Parse(s)) == s
  {
  }

  /** Cycling three times from a known theme comes back to it; from an
      unrecognised value it ends on `auto`, having passed through `light`. */
  lemma CycleThrice(p: Page, systemDark: bool)
    ensures var q := Cycle(Cycle(Cycle(p, systemDark), systemDark), systemDark);
      (!p.current.Other? ==> q.current == p.current && q.stored == Some(Name(p.current)))
      && (p.current.Other? ==> q.current == Auto)
      && Consistent(q, systemDark)
  {
    var q1 := Cycle(p, systemDark);
    var q2 := Cycle(q1, systemDark);
    var q3 := Cycle(q2, systemDark);
    match p.current
    case Light =>
      assert q1.current == Dark && q2.current == Auto && q3.current == Light;
    case Dark =>
      assert q1.current == Auto && q2.current == Light && q3.current == Dark;
    case Auto =>
      assert q1.current == Light && q2.current == Dark && q3.current == Auto;
    case Other(_) =>
      assert q1.current == Light && q2.current == Dark && q3.current == Auto;
  }

  /** After a valid `set`, `get` returns the value and storage holds it. */
  lemma SetThenGet(p: Page, value: string, systemDark: bool)
    requires value in Names
    ensures Get(Set(p, value, systemDark)) == Parse(value)
    ensures Set(p, value, systemDark).stored == Some(value)
  {
    assert Name(Get(Set(p, value, systemDark))) == value;
    NameParseRoundTrip(Get(Set(p, value, systemDark)), value);
  }

  /** `get` answers from the held preference: a change to storage that the
      script has not adopted does not show through it. */
  lemma GetIgnoresStorage(p: Page, s: Option<string>)
    ensures Get(p.(stored := s)) == Get(p)
    ensures Get(OnSystemChange(p, true)) == Get(p) == Get(OnSystemChange(p, false))
  {
  }

  /** An invalid `set` changes neither the preference nor storage. */
  lemma SetInvalidIgnored(p: Page, value: string, systemDark: bool)
    requires value !in Names
    ensures Get(Set(p, value, systemDark)) == Get(p)
    ensures Set(p, value, systemDark).stored == p.stored
  {
  }

  /** The flag is on exactly when the effective theme is dark; `auto`
      resolves to the system preference and every other value, an
      unrecognised one included, clears it. */
  lemma DarkFlagExactlyWhenDark(p: Page, systemDark: bool)
    ensures Render(p, systemDark).darkFlag <==> Effective(p.current, systemDark) == Dark
    ensures p.current.Other? ==> !Render(p, systemDark).darkFlag
    ensures p.current == Auto ==> (Render(p, systemDark).darkFlag <==> systemDark)
  {
  }

  /** Every operation leaves the flag in agreement with the preference, and
      a system-preference change keeps an agreeing page agreeing under the
      new system preference. */
  lemma ConsistencyPreserved(p: Page, before: bool, after: bool, value: string, e: StorageEvent)
    requires Consistent(p, before)
    ensures Consistent(OnSystemChange(p, after), after)
    ensures Consistent(Set(p, value, before), before)
    ensures Consistent(OnStorage(p, e, before), before)
    ensures Consistent(Cycle(p, before), before)
  {
    if p.current == Auto {
      assert OnSystemChange(p, after) == Render(p, after);
    } else {
      assert Effective(p.current, after) == Effective(p.current, before);
    }
  }

  /** A `storage` event can install a value that `set` would have refused. */
  lemma StorageAdoptsUnknown(p: Page, s: string, systemDark: bool)
    requires s != "" && s !in Names
    ensures OnStorage(p, StorageEvent(Some(StorageKey), Some(s)), systemDark).current == Other(s)
    ensures Set(p, s, systemDark) == p
  {
  }

  /** A page that starts with nothing stored shows the system preference. */
  lemma FreshPageFollowsSystem(systemDark: bool)
    ensures Init(None, systemDark).current == Auto
    ensures Init(None, systemDark).darkFlag == systemDark
  {
  }
}
