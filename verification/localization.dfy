/**
  The string-resource lookup of FluentAvalonia's localization helper
  (FluentAvalonia/UI/FALocalizationHelper.cs).

  The helper holds one read-only catalog, loaded once from a JSON file, that
  maps a resource name to a LocalizationEntry; an entry maps a culture name
  such as "en-US" to the translated string. A lookup replaces the invariant
  culture by en-US, then looks the resource name and the culture name up, by
  exact case-sensitive key, and answers the empty string when either is missing.

  The catalog is an immutable value here and every operation is a function of
  it, so a lookup cannot change the catalog and repeated lookups agree.
*/
module FALocalization {

  /** Per-culture string table of one resource: culture name to translated text. */
  type LocalizationEntry = map<string, string>

  /** The catalog (`_mappings`): resource name to its per-culture table. */
  type Mappings = map<string, LocalizationEntry>

  /**
    A culture as the lookup sees it. `Invariant` is the invariant-culture
    object itself (the source compares by reference, not by name); `Named`
    is any other culture, known by its canonical name (`CultureInfo.Name`).
  */
  datatype Culture = Invariant | Named(name: string)

  /** The culture that stands in for the invariant culture: `new CultureInfo("en-us").Name`. */
  const DefaultCultureName: string := "en-US"

  /**
    The culture a lookup actually uses: the invariant culture is replaced by
    en-US and every other culture is kept as it is.
  */
  function ResolveCulture(ci: Culture): (r: Culture)
    ensures r.Named?
    ensures ci.Invariant? ==> r.name == DefaultCultureName
    ensures ci.Named? ==> r == ci
  {
    if ci == Invariant then Named(DefaultCultureName) else ci
  }

  /**
    `GetLocalizedStringResource(CultureInfo, string)`: the string stored for
    the resource under the resolved culture's name, or the empty string when
    the resource or that culture is missing. Total: no input is refused.
  */
  function GetLocalizedStringResource(mappings: Mappings, ci: Culture, resName: string): (r: string)
    ensures resName !in mappings ==> r == ""
    ensures resName in mappings && ResolveCulture(ci).name !in mappings[resName] ==> r == ""
    ensures resName in mappings && ResolveCulture(ci).name in mappings[resName] ==>
              r == mappings[resName][ResolveCulture(ci).name]
    ensures r != "" ==> resName in mappings && ResolveCulture(ci).name in mappings[resName]
  {
    var culture := ResolveCulture(ci);
    if resName in mappings then
      if culture.name in mappings[resName] then mappings[resName][culture.name] else ""
    else
      ""
  }

  /**
    `GetLocalizedStringResource(string)`: the same lookup under the caller's
    current culture, which the model receives as a parameter.
  */
  function GetLocalizedStringResourceInCurrentCulture(mappings: Mappings, currentCulture: Culture, resName: string): (r: string)
    ensures r == GetLocalizedStringResource(mappings, currentCulture, resName)
  {
    GetLocalizedStringResource(mappings, currentCulture, resName)
  }

  // ---------------------------------------------------------------------------
  // What a lookup can observe of the catalog
  // ---------------------------------------------------------------------------

  /** An entry without its stored empty strings. */
  function VisibleEntry(entry: LocalizationEntry): (r: LocalizationEntry)
    ensures r.Keys <= entry.Keys
    ensures forall k :: k in r ==> r[k] == entry[k] && r[k] != ""
    ensures forall k :: k in entry && entry[k] != "" ==> k in r
  {
    map k | k in entry && entry[k] != "" :: entry[k]
  }

  /**
    The catalog as lookups see it: stored empty strings dropped, and with
    them every resource left without a non-empty translation.
  */
  function Visible(mappings: Mappings): (r: Mappings)
    ensures r.Keys <= mappings.Keys
    ensures forall n :: n in r ==> r[n] == VisibleEntry(mappings[n]) && r[n] != map[]
    ensures forall n :: n in mappings && VisibleEntry(mappings[n]) != map[] ==> n in r
  {
    map n | n in mappings && VisibleEntry(mappings[n]) != map[] :: VisibleEntry(mappings[n])
  }

  // ---------------------------------------------------------------------------
  // Properties of the lookup
  // ---------------------------------------------------------------------------

  /** Looking up under the invariant culture is looking up under en-US. */
  lemma InvariantLooksUpEnUs(mappings: Mappings, resName: string)
    ensures GetLocalizedStringResource(mappings, Invariant, resName)
         == GetLocalizedStringResource(mappings, Named(DefaultCultureName), resName)
  {
  }

  /**
    A named culture is looked up under exactly its own name: what is stored
    under any other culture name (its language, en-US, ...) plays no part.
  */
  lemma NamedCultureUsesOnlyItsOwnKey(mappings: Mappings, name: string, resName: string, other: Mappings)
    requires resName in mappings <==> resName in other
    requires resName in mappings ==>
               (name in mappings[resName] <==> name in other[resName]) &&
               (name in mappings[resName] ==> mappings[resName][name] == other[resName][name])
    ensures GetLocalizedStringResource(mappings, Named(name), resName)
         == GetLocalizedStringResource(other, Named(name), resName)
  {
  }

  /**
    No fallback to en-US: when a resource holds a translation under en-US
    only, the invariant culture and en-US read it, and every other culture
    reads the empty string.
  */
  lemma OnlyEnUsReadsEnUs(mappings: Mappings, ci: Culture, resName: string)
    requires resName in mappings && mappings[resName].Keys == {DefaultCultureName}
    requires mappings[resName][DefaultCultureName] != ""
    ensures (GetLocalizedStringResource(mappings, ci, resName) == mappings[resName][DefaultCultureName])
        <==> (ci == Invariant || ci == Named(DefaultCultureName))
    ensures !(ci == Invariant || ci == Named(DefaultCultureName)) ==>
              GetLocalizedStringResource(mappings, ci, resName) == ""
  {
  }

  /** A lookup cannot tell a stored empty string from a missing key. */
  lemma LookupSeesOnlyVisible(mappings: Mappings, ci: Culture, resName: string)
    ensures GetLocalizedStringResource(mappings, ci, resName)
         == GetLocalizedStringResource(Visible(mappings), ci, resName)
  {
  }

  /** Catalogs that agree once stored empty strings are dropped answer every lookup alike. */
  lemma SameVisibleSameLookups(m1: Mappings, m2: Mappings)
    requires Visible(m1) == Visible(m2)
    ensures forall ci, resName :: GetLocalizedStringResource(m1, ci, resName)
                                == GetLocalizedStringResource(m2, ci, resName)
  {
  }

  /** Every non-empty string stored in m1 is observed, and so must be stored in m2 too. */
  lemma ObservedTranslation(m1: Mappings, m2: Mappings, resName: string, name: string)
    requires forall ci, n :: GetLocalizedStringResource(m1, ci, n) == GetLocalizedStringResource(m2, ci, n)
    requires resName in m1 && name in m1[resName] && m1[resName][name] != ""
    ensures resName in m2 && name in m2[resName] && m2[resName][name] == m1[resName][name]
  {
    assert GetLocalizedStringResource(m1, Named(name), resName) == m1[resName][name];
    assert GetLocalizedStringResource(m2, Named(name), resName) == m1[resName][name];
  }

  /**
    Catalogs that answer every lookup alike agree once stored empty strings
    are dropped: the lookup loses exactly the difference between an empty
    translation and a missing one, and nothing more.
  */
  lemma SameLookupsSameVisible(m1: Mappings, m2: Mappings)
    requires forall ci, n :: GetLocalizedStringResource(m1, ci, n) == GetLocalizedStringResource(m2, ci, n)
    ensures Visible(m1) == Visible(m2)
  {
    forall resName, name | resName in m1 && name in m1[resName] && m1[resName][name] != ""
      ensures resName in m2 && name in m2[resName] && m2[resName][name] == m1[resName][name]
    {
      ObservedTranslation(m1, m2, resName, name);
    }
    forall resName, name | resName in m2 && name in m2[resName] && m2[resName][name] != ""
      ensures resName in m1 && name in m1[resName] && m1[resName][name] == m2[resName][name]
    {
      ObservedTranslation(m2, m1, resName, name);
    }
    var v1, v2 := Visible(m1), Visible(m2);
    forall resName | resName in v1 ensures resName in v2 && v2[resName] == v1[resName] {
      var name :| name in v1[resName];
      assert VisibleEntry(m1[resName]) == VisibleEntry(m2[resName]);
    }
    forall resName | resName in v2 ensures resName in v1 {
      var name :| name in v2[resName];
    }
  }

  /** Two cultures that resolve to the same name answer every lookup alike. */
  lemma SameKeySameLookups(c1: Culture, c2: Culture)
    requires ResolveCulture(c1) == ResolveCulture(c2)
    ensures forall mappings, resName :: GetLocalizedStringResource(mappings, c1, resName)
                                      == GetLocalizedStringResource(mappings, c2, resName)
  {
  }

  /**
    Cultures that resolve to distinct names are told apart by some catalog
    (one that holds a translation under only one of the two names).
  */
  lemma SameLookupsSameKey(c1: Culture, c2: Culture)
    requires forall mappings, resName :: GetLocalizedStringResource(mappings, c1, resName)
                                       == GetLocalizedStringResource(mappings, c2, resName)
    ensures ResolveCulture(c1) == ResolveCulture(c2)
  {
    var key := ResolveCulture(c1).name;
    var sample: Mappings := map["r" := map[key := "t"]];
    assert GetLocalizedStringResource(sample, c1, "r") == "t";
    assert GetLocalizedStringResource(sample, c2, "r") == "t";
  }

  /**
    The lookup on a catalog holding one resource, "Greeting", in en-US and
    fr-FR.
  */
  lemma GreetingScenario()
    ensures var m: Mappings := map["Greeting" := map["en-US" := "Hello", "fr-FR" := "Bonjour"]];
      && GetLocalizedStringResource(m, Named("en-US"), "Greeting") == "Hello"
      && GetLocalizedStringResource(m, Named("fr-FR"), "Greeting") == "Bonjour"
      && GetLocalizedStringResource(m, Named("de-DE"), "Greeting") == ""
      && GetLocalizedStringResource(m, Named("fr-CA"), "Greeting") == ""
      && GetLocalizedStringResource(m, Named("en-US"), "Missing") == ""
      && GetLocalizedStringResource(m, Invariant, "Greeting") == "Hello"
  {
  }

  /** Culture keys are matched case-sensitively: a key "en-us" is not the culture en-US. */
  lemma LowerCaseKeyScenario()
    ensures var m: Mappings := map["Greeting" := map["en-us" := "Hello"]];
      && GetLocalizedStringResource(m, Named("en-US"), "Greeting") == ""
      && GetLocalizedStringResource(m, Invariant, "Greeting") == ""
  {
  }
}
