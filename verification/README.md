# Localisation registry of the jadx GUI

This project models `NLS`, the class the jadx GUI uses to translate its
message keys. The model is the class `Nls.Registry` in `nls.dfy`. The
registry holds:

- a fixed list of supported locales (`en_US`, `zh_CN`, `es_ES`), whose first
  entry is the fallback;
- one message table per supported locale, loaded at start-up;
- the fallback table, which is the table of the first locale;
- the host's locale;
- a mutable pair: the current locale and the cached table of the active
  locale.

The Java class keeps all of this in static fields that a static initialiser
fills. The model turns that state into an object, which the constructor
builds. The `static final` fields become `const` fields. The two mutable
statics become `var` fields, and only `SetLocale` assigns them.

A Java `null` becomes `Option.None`. `MissingResourceException` becomes
`Err(MissingResource(key))`. The fatal error thrown when a bundle cannot be
loaded becomes `Err(ResourceNotFound(locale))` from `LoadAll`. The
constructor requires that every supported locale has a bundle. This is the
condition without which the Java initialiser aborts.

Two quirks of the source are kept:

- `currentLocale()` returns `None` until the first `SetLocale`, even though
  the fallback table is already active.
- A key that is missing from the fallback table is an error, not a
  default string.

`StrIn`, `Resolve`, `I18nLocales` and `DefaultLocale` read only `const`
fields and have no `reads` clause. So Dafny itself guarantees that the
active locale cannot influence their results.

Inputs from outside the model:

- The bundle provider (class-loader lookup and `.properties` parsing) is a
  `map<LangLocale, Table>` given to the constructor. A locale absent from it
  stands for a bundle that cannot be found or read.
- The host locale (`Locale.getDefault()`) is a constructor parameter.

## Model

| member | source | states |
|---|---|---|
| `Nls.GetString` | jadx-gui/src/main/java/jadx/gui/utils/NLS.java:66-68 | a bundle lookup succeeds exactly when the key is in the table, with that key's text; otherwise it fails with MissingResource for that key |
| `Nls.LoadAll` | jadx-gui/src/main/java/jadx/gui/utils/NLS.java:38-61 | loading succeeds iff the provider has every listed locale; on success the map's keys are exactly the listed locales, each with the provider's table; on failure the error names the first listed locale the provider lacks |
| `Nls.Registry.constructor` | jadx-gui/src/main/java/jadx/gui/utils/NLS.java:31-43 | after start-up the list is en_US, zh_CN, es_ES with en_US first; every listed locale has its provider table; the fallback table is en_US's; the active table is the fallback; the current locale is unset; the host locale is the one given |
| `Nls.Registry.Str` | jadx-gui/src/main/java/jadx/gui/utils/NLS.java:64-70 | the active table's text when the key is there, else the fallback table's; fails, with MissingResource for that key, exactly when both tables lack the key |
| `Nls.Registry.StrIn` | jadx-gui/src/main/java/jadx/gui/utils/NLS.java:72-82 | the given locale's text when that locale is loaded and has the key, else the fallback table's; fails exactly when the fallback also lacks the key; reads no mutable state, so the active locale has no influence |
| `Nls.Registry.Resolve` | jadx-gui/src/main/java/jadx/gui/utils/NLS.java:85-89 | the locale that setLocale selects is always a loaded, listed locale; it is the requested locale iff that locale is loaded, and en_US otherwise |
| `Nls.Registry.SetLocale` | jadx-gui/src/main/java/jadx/gui/utils/NLS.java:84-91 | keeps the invariant; the current locale becomes the requested one if it is loaded, else en_US; the cached table becomes that locale's table; only these two fields can change |
| `Nls.Registry.I18nLocales` | jadx-gui/src/main/java/jadx/gui/utils/NLS.java:93-95 | the supported list has three entries with en_US first; its entries are exactly the loaded locales; the first entry's table is the fallback table |
| `Nls.Registry.CurrentLocale` | jadx-gui/src/main/java/jadx/gui/utils/NLS.java:97-99 | a set current locale is loaded and its table is the active one; while unset, the active table is the fallback table |
| `Nls.Registry.DefaultLocale` | jadx-gui/src/main/java/jadx/gui/utils/NLS.java:101-107 | the host locale if it is loaded, otherwise en_US; the result is always a loaded, listed locale |
| `Nls.StrIsStrInActiveLocale` | jadx-gui/src/main/java/jadx/gui/utils/NLS.java:27-29 | the cached table is consistent: `str(key)` equals `str(key, l)` for the active locale l, which is en_US while the current locale is unset |
| `Nls.UnsetLocaleReadsFallback` | jadx-gui/src/main/java/jadx/gui/utils/NLS.java:40-42 | before any setLocale, `str(key)` is the fallback table's lookup and equals `str(key, en_US)` |
| `Nls.FallbackKeyAlwaysResolves` | jadx-gui/src/main/java/jadx/gui/utils/NLS.java:68 | both forms of `str` fail only for keys absent from the fallback table, and always succeed for keys present there |
| `Nls.ResolveIdempotent` | jadx-gui/src/main/java/jadx/gui/utils/NLS.java:84-91 | selecting the locale that setLocale chose selects the same locale again |
| `Nls.DefaultLocaleIsSelectable` | jadx-gui/src/main/java/jadx/gui/utils/NLS.java:101-107 | defaultLocale is what setLocale would choose for the host locale, and setLocale(defaultLocale()) keeps it unchanged |
| `Nls.SetLocaleTwice` | jadx-gui/src/main/java/jadx/gui/utils/NLS.java:84-91 | a second setLocale with the same argument leaves the current locale and the active table exactly as the first left them |

## Left out

- Bundle loading I/O: the class-loader lookup, the resource name built
  from `LangLocale.get()`, UTF-8 reading and `.properties` parsing. The
  provider map stands for their result. "Not found" and "failed to read"
  are one error, `ResourceNotFound`.
- Host locale detection with `Locale.getDefault()`: it is a constructor
  parameter.
- `LangLocale` is not part of this model beyond its two constructor
  arguments. It is a datatype compared structurally, and its formatting
  and any case normalisation are not modelled.
- Nls.Registry.constructor: requires a bundle for every supported locale
  instead of aborting start-up. The abort itself is modelled by `LoadAll`'s
  error result.
- Nls.Registry.I18nLocales: returns the list's value. The identity of the
  shared `Vector`, and the fact that callers could mutate it, are not
  modelled.
- Thread safety: the unsynchronised static fields are not modelled. Calls
  are modelled as sequential.
