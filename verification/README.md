# FluentAvalonia localization lookup, modelled in Dafny

FluentAvalonia's `FALocalizationHelper` serves the translated strings that the
library's WinUI-style controls display. It holds one read-only catalog
(`_mappings`) that maps a resource name to a `LocalizationEntry`, and each entry
maps a culture name such as `"en-US"` to the translated text. The helper answers
`GetLocalizedStringResource(culture, resourceName)` as follows:

- the invariant culture is replaced by en-US;
- the resource name and then the culture name are looked up, by exact,
  case-sensitive key;
- the stored string comes back unchanged, or the empty string when either key
  is missing.

A one-argument overload does the same under the caller's current culture.

`localization.dfy` (module `FALocalization`) models this:

- The catalog is a value of type `map<string, map<string, string>>`. It is a
  parameter of every lookup, and no lookup returns or changes the catalog. So
  repeated lookups with the same arguments agree.
- A culture is `Invariant` or `Named(name)`. `Invariant` stands for the
  `CultureInfo.InvariantCulture` object itself, because the source tests
  reference identity and not the name. `Named` carries the culture's canonical
  `Name`. As a result, a `Named("")` culture is looked up under the key `""`,
  and it is not remapped.
- The ambient `CultureInfo.CurrentCulture` is an explicit parameter.

Besides the lookup itself, the model defines `Visible`, which is the catalog
with its stored empty strings dropped. It proves that two catalogs give the
same answer to every lookup exactly when their `Visible` forms are equal. So the
empty-string-as-miss convention loses the difference between "missing" and
"stored empty", and loses nothing else. It also proves that a named culture reads only the
value stored under its own exact name. So there is no fallback between
cultures: `fr-CA` does not fall back to `fr`, and when a resource is translated
only into en-US, no culture except en-US and the invariant culture reads that
text. Finally, two cultures agree in every catalog exactly when they resolve to
the same key.

## Model

| member | source | states |
|---|---|---|
| `FALocalization.ResolveCulture` | FluentAvalonia/UI/FALocalizationHelper.cs:45-47 | The culture used for the lookup is never the invariant culture. The invariant culture becomes `en-US`, and every other culture is kept unchanged. |
| `FALocalization.GetLocalizedStringResource` | FluentAvalonia/UI/FALocalizationHelper.cs:43-58 | Total: no input is refused. A missing resource name gives `""` for every culture. A present resource without the resolved culture name gives `""`. When both are present, the result is the stored string, unchanged. A non-empty result implies that both keys are present. |
| `FALocalization.GetLocalizedStringResourceInCurrentCulture` | FluentAvalonia/UI/FALocalizationHelper.cs:34-35 | The one-argument overload gives the two-argument lookup under the current culture. |
| `FALocalization.InvariantLooksUpEnUs` | FluentAvalonia/UI/FALocalizationHelper.cs:45-47 | A lookup under the invariant culture gives the same result as a lookup under `Named("en-US")`, for every catalog and resource name. |
| `FALocalization.NamedCultureUsesOnlyItsOwnKey` | FluentAvalonia/UI/FALocalizationHelper.cs:49-53 | For a named culture, the result depends only on whether the resource has that exact culture name and on the value stored there. Other culture keys have no effect, including the language-only key and `en-US`. So there is no fallback from region to language (`fr-CA` to `fr`) and no fallback to en-US. |
| `FALocalization.OnlyEnUsReadsEnUs` | FluentAvalonia/UI/FALocalizationHelper.cs:45-57 | Suppose a resource holds a non-empty translation under `en-US` only. A culture reads that text exactly when it is the invariant culture or `Named("en-US")`. Every other culture reads `""`. |
| `FALocalization.LookupSeesOnlyVisible` | FluentAvalonia/UI/FALocalizationHelper.cs:49-57 | Dropping the stored empty strings from the catalog changes no lookup. A stored `""` is indistinguishable from a missing key. |
| `FALocalization.SameVisibleSameLookups` | FluentAvalonia/UI/FALocalizationHelper.cs:49-57 | If two catalogs have equal `Visible` forms, they answer every lookup alike. |
| `FALocalization.SameLookupsSameVisible` | FluentAvalonia/UI/FALocalizationHelper.cs:49-57 | If two catalogs answer every lookup alike, their `Visible` forms are equal. Lookups therefore reveal every non-empty stored string. |
| `FALocalization.SameKeySameLookups` | FluentAvalonia/UI/FALocalizationHelper.cs:45-51 | If two cultures resolve to the same culture, they give the same result in every catalog. |
| `FALocalization.SameLookupsSameKey` | FluentAvalonia/UI/FALocalizationHelper.cs:45-51 | If two cultures give the same result in every catalog, they resolve to the same culture. Equivalently, cultures that resolve to distinct names are told apart by some catalog. |
| `FALocalization.GreetingScenario` | FluentAvalonia/UI/FALocalizationHelper.cs:43-58 | In a catalog with `Greeting` stored in en-US and fr-FR, these lookups give `"Hello"`: en-US and the invariant culture. This lookup gives `"Bonjour"`: fr-FR. These give `""`: de-DE, fr-CA, and an unknown resource. |
| `FALocalization.LowerCaseKeyScenario` | FluentAvalonia/UI/FALocalizationHelper.cs:51 | Culture keys are matched case-sensitively. If a catalog stores a translation under the key `"en-us"`, a lookup under `Named("en-US")` gives `""`, and so does a lookup under the invariant culture. |

## Left out

- Loading the catalog: the file read at a fixed path (line 19) is I/O. The catalog is a parameter of the model.
- JSON deserialisation (line 21) happens in a foreign library, and its behaviour on duplicate keys, malformed input and a null result is outside this model. The source has no error handling for loading, so there is none to model. A configurable path and a recoverable load error do not exist in the code, so they are not modelled.
- The static-constructor singleton (lines 17-29) and how thread-safe its first access is: the model has no process state and no threads.
- `CultureInfo` internals are not modelled: name canonicalisation (for example `new CultureInfo("en-us").Name` is `"en-US"`), how `CurrentCulture` is resolved, and object identity. A culture comes in already canonical, and the current culture is a parameter.
- Nulls: the model's strings, cultures and catalog entries are never null. The source behaves as follows:
  - A null resource name makes `ContainsKey` throw (line 49).
  - A null culture is not the invariant culture, because line 46 compares references. If the resource name is missing, the lookup returns `""` (line 57). If it is present, reading `ci.Name` at line 51 throws a NullReferenceException in the helper's own code.
  - A JSON `null` in the catalog can appear in two places. A resource whose entry is `null` throws at line 51. A stored translation that is `null` is returned as `null` at line 53. The model's `string` cannot represent it.
